/** The optional-value datatype shared by the frontend and backend models:
    it stands for JavaScript's `null`/`undefined` and Python's `None`. */
module Wrappers {

  datatype Option<+T> = None | Some(value: T)
}
