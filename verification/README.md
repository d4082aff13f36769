# ISL translator: frame decisions and gesture engine

A Dafny model of the decision logic of an Indian Sign Language translator.
The page (`app/page.tsx`) receives one hand-tracker result per camera frame.
It forwards at most one frame every 700 ms to the backend's `/predict` and
speaks each newly predicted gesture once. A "Save Gesture" button posts the
last seen hand under a name the user types. The backend (`backend/main.py`)
keeps a catalogue of named gestures (`GESTURES`) and grows it through
`/train-batch`. It answers `/predict` by choosing the best-scoring gesture,
rejecting it below a 0.6 confidence, and smoothing the answer with a
majority vote over the last 7 accepted labels.

Modules, one per concern:

- `Wrappers` (`wrappers.dfy`): `Option`, standing for `null`/`undefined`/`None`.
- `Text` (`text.dfy`): Python's `strip()` and `upper()`, as used for gesture names.
- `Session` (`session.dfy`): the page as a state machine over
  `{lastSent, lastSpoken, lastLandmarks, mounted}`. The callbacks are pure
  step functions that return the next state and the effect they trigger: a
  dispatch to `/predict` or a spoken label. `Run` folds a sequence of frames,
  prediction completions and a teardown.
- `GestureStore` (`gesture_store.dfy`): the catalogue as a sequence of
  `(name, samples)` entries in key-insertion order. This is the order Python
  dicts iterate in, and the order the prediction tie-break depends on. It
  covers start-up clean-up, `train_batch` and `gesture_count`.
- `Prediction` (`prediction.dfy`): best-gesture selection, the threshold, the
  bounded window and `Counter(...).most_common(1)`.

Sample vectors are opaque type parameters. `normalize_landmarks` is a
parameter `normalize: R -> Option<V>`; `None` marks a sample the function
cannot handle (it raises on fewer than ten landmarks). Per-gesture scores are
a parameter `score: (V, seq<V>) -> Option<real>`, `None` when scoring raises. The clock (`Date.now()`), the tracker
output, the name prompt and the `/predict` response are inputs to the step
functions.

A late prediction completion is guarded only by the `mounted` flag.
Announcements are deduplicated against the last spoken label.

A gesture can end up with no samples. A batch under a new name creates the
key before appending anything (`EmptyBatchCreatesEmptyGesture`):
- A batch with no samples succeeds, so the empty key is saved.
- A batch whose first sample cannot be normalised fails before `save_db`.
  The empty key then exists only in memory. It is saved only when a later
  batch succeeds, since that saves the whole catalogue; a restart before
  then loses it.

Start-up removes only the `""` key, so a saved empty key survives restarts.
The mean of no samples is NaN and scoring rejects it. So while an empty key
is present, every `/predict` on the catalogue fails (`Predict`).

## Model

| member | source | states |
|---|---|---|
| Session.OnResults | app/page.tsx:65-101 | A frame is dispatched iff the page is mounted, a hand is present and `now - lastSent >= 700`. A dispatch sets `lastSent` to `now`; otherwise `lastSent` is unchanged. A frame without a hand, or any frame after unmount, changes nothing. A frame with a hand records it as the last landmarks. |
| Session.OnPrediction | app/page.tsx:103-117 | A label is announced iff the page is mounted and the label is present, non-empty, not `"UNKNOWN"` and different from `lastSpoken`. An announcement sets `lastSpoken` to the label; otherwise the state is unchanged. |
| Session.Unmount | app/page.tsx:135-136 | Cleanup clears `mounted` and nothing else. |
| Session.SaveGesture | app/page.tsx:18-35 | Without captured landmarks the page alerts and posts nothing. A dismissed or empty name posts nothing. Otherwise it posts the name exactly as typed, so a whitespace-only name is not rejected, together with the last landmarks. |
| Session.DispatchesSpaced | app/page.tsx:93-95 | Over any sequence of events, consecutive dispatches are at least 700 ms apart. The first comes at least 700 ms after the initial `lastSent`, and `lastSent` ends at the last dispatch time. This needs no monotonic clock. |
| Session.AnnouncementsDeduped | app/page.tsx:108-117 | Over any sequence of events, every announced label is non-empty and not `"UNKNOWN"`. No label is announced twice in a row, the first differs from the initial `lastSpoken`, and `lastSpoken` ends at the last announced label. |
| Session.FromPageLoad | app/page.tsx:5-6 | Starting from the page's initial state (`lastSent = 0`, `lastSpoken = ""`), dispatches are spaced at least 700 ms apart from time 0 on, and spoken labels are speakable and never repeat back to back. |
| Session.FrozenWhenUnmounted | app/page.tsx:65-119 | Once unmounted, no frame callback or late prediction completion changes any state or triggers any effect. |
| Session.NothingAfterTeardown | app/page.tsx:135-139 | Events after a teardown add no effects. The final state is the state at teardown with `mounted` cleared. |
| Text.Strip | backend/main.py:96 | The result is the input with its leading and trailing whitespace removed, taken from a contiguous slice, with no whitespace at either end. It is empty iff the input is all whitespace. |
| Text.StripUnique | backend/main.py:96 | Any string that is the input with its whitespace ends cut off, and has no whitespace ends itself, equals `Strip` of the input. |
| Text.Upper | backend/main.py:96 | Upper-casing keeps the length. Each lower-case ASCII letter becomes its capital and every other character is kept, so no lower-case ASCII letter remains and whitespace stays where it was. |
| Text.UpperEqualIff | backend/main.py:96-100 | Two names upper-case to the same key iff they have the same length and agree position by position up to ASCII case. |
| Text.NormalizeName | backend/main.py:96-98 | The normalised name has no whitespace at either end. It is empty iff the raw name is empty or all whitespace, which is when `train_batch` rejects it. |
| Text.NormalizeNameIdempotent | backend/main.py:96 | Normalising a normalised name changes nothing. |
| GestureStore.Lookup | backend/main.py:100 | A name is found iff it is a key, and what is found is that key's samples. |
| GestureStore.Put | backend/main.py:100-104 | Writing a key makes it hold the new samples and leaves every other key's entry as it was. An existing key keeps its place; a new key goes at the end of the key order. |
| GestureStore.Startup | backend/main.py:29-31 | After start-up there is no `""` key. Every other key keeps its samples, and a catalogue without `""` is left alone. |
| GestureStore.StartupDeletesOneEntry | backend/main.py:29-31 | Start-up removes exactly the `""` entry and keeps the others in their order. |
| GestureStore.StartupKeepsDistinct | backend/main.py:29-31 | Start-up keeps keys distinct. |
| GestureStore.NormalizeEach | backend/main.py:103-104 | The append loop stores the normalised forms of the longest prefix of the samples that normalise, in order. It stops exactly at the first sample that does not. |
| GestureStore.TrainBatch | backend/main.py:94-107 | A batch is rejected with `INVALID_NAME` iff the name is empty or all whitespace, and then the catalogue is unchanged. Otherwise it is appended under the non-empty normalised name. It succeeds iff every sample normalises. |
| GestureStore.AppendBatch | backend/main.py:100-107 | Appending under a name leaves every other key's entry unchanged. It adds at most one key, at the end of the key order, and only when the name is new. |
| GestureStore.AppendBatchInOrder | backend/main.py:100-107 | The key then holds its old samples, or none if new, followed by the normalised request samples in request order. On success `total` is the old count plus the number of samples. On failure, what was appended before the failing sample stays. |
| GestureStore.EmptyBatchCreatesEmptyGesture | backend/main.py:100-104 | A batch under a new name with no samples, or whose first sample does not normalise, still creates the key, holding no samples. |
| GestureStore.TrainBatchKeepsInvariants | backend/main.py:96-104 | `train_batch` keeps keys distinct and never adds the `""` key. |
| GestureStore.ServedStoreWellFormed | backend/main.py:29-31 | After start-up and any sequence of `train_batch` requests, the catalogue has no `""` key and no repeated key. |
| GestureStore.GestureCount | backend/main.py:109-114 | The count is the number of listed names. A name is listed iff looking it up finds a gesture. The names come in key-insertion order, the order `Put` and start-up keep. On a catalogue with distinct keys, the count is the number of distinct gesture names. |
| GestureStore.CountAfterTrain | backend/main.py:100-114 | A batch raises the gesture count by one iff its normalised name is non-empty and new. Otherwise the count is unchanged. |
| Prediction.ScoreAll | backend/main.py:69-75 | Scoring fails iff some gesture cannot be scored, a gesture with no samples always failing. Otherwise there is one score per gesture, in key order. |
| Prediction.SelectBest | backend/main.py:66-79 | The loop returns the first position in key order whose score is maximal, provided it beats -1, together with its score. If no score beats -1, it returns no position and a score of -1. |
| Prediction.Push | backend/main.py:84 | Appending to the window keeps the last `min(n + 1, 7)` labels of the old window plus the new label. |
| Prediction.WindowKeepsMostRecent | backend/main.py:33 | Starting from an empty window, the window holds exactly the 7 most recently accepted labels (all of them while fewer were accepted), in arrival order. |
| Prediction.MostCommon | backend/main.py:85 | The answer is the label at the first window position whose count is maximal. |
| Prediction.MostCommonUnique | backend/main.py:85 | At most one label meets the most-common description, so the answer is determined. |
| Prediction.MostCommonTieBreak | backend/main.py:85 | The answer occurs in the window, and no label occurs more often. Any label that occurs as often appears no earlier: tie-breaking is by first occurrence. |
| Prediction.Predict | backend/main.py:57-91 | An empty catalogue gives no prediction and an unchanged window. Otherwise the request fails (HTTP 500) iff its landmarks cannot be normalised or some gesture cannot be scored, in particular whenever a gesture has no samples. There is a prediction iff scoring succeeds and some gesture scores at least 0.6. The window changes only when there is a prediction: the best gesture's name is pushed into it, and the answer is the new window's most common label. |

## Left out

- Camera start-up, MediaPipe loading and options, and canvas drawing (app/page.tsx:37-63, 68-73, 80-91, 122-133) are I/O. Only the frame decision is modelled.
- `fetch`, `alert`, `prompt` and `speechSynthesis` (app/page.tsx:21, 25, 28-34, 97-102, 114-116) are I/O. They appear only as the `Dispatch`/`Announce`/`Post` outcomes and as inputs to the step functions.
- The `setPrediction` display state and the rendered page (app/page.tsx:16, 106, 142-168) are UI state with no decision attached.
- Several `/predict` requests in flight at once (app/page.tsx:97-119) involve concurrency. Completions are modelled as sequential events guarded only by `mounted`.
- Remounting is not modelled: a second effect run with a fresh `mounted` flag while the module-level `lastSent` and `lastSpoken` persist. The model covers one mount followed by teardown.
- The wire-level mismatches are not modelled: the page reads `gesture` while the backend answers `prediction`, and the page posts to `/train`, which the backend does not define. Each side is modelled on its own label or name.
- `load_db`/`save_db` and the JSON file (backend/main.py:19-27, 106) are file I/O. The catalogue is in-memory state, and the loaded catalogue is an input to `Startup`.
- The FastAPI app, CORS and request schemas (backend/main.py:10-17, 37-47) are transport.
- Concurrent requests are not modelled. FastAPI runs the plain `def` handlers on a thread pool, so two requests can interleave. Two batches for one name can mix their appends, and a batch that adds a key while `predict` iterates `GESTURES.items()` makes `predict` raise. `Serve`, `AppendBatchInOrder`, `ServedStoreWellFormed` and `Predict` describe each request running alone.
- `normalize_landmarks`, `np.mean` and `cosine_similarity` (backend/main.py:49-55, 70-75) are floating-point numerics. They are replaced by the opaque `normalize` and `score` parameters, whose `None` stands for the computation raising. Real-valued scores mean NaN comparisons are not modelled.
- The `confidence` and `window` response fields and their rounding (backend/main.py:89-90) are float formatting.
- Text.Upper: only ASCII letters are upper-cased. Python's full Unicode case mapping (for example `ß` to `SS`, which changes the length) is not modelled. Whitespace for `Strip` follows Python's `str.isspace()` for every code point.
- GestureStore.TrainBatch: a sample that cannot be normalised is modelled as a `ServerError` response that keeps whatever was appended in memory. The error response body and the skipped `save_db` are not modelled.
