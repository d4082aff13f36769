/** The backend's `/predict` decision: pick the best-scoring gesture, reject it
    below the confidence threshold, push it into the sliding window of recent
    accepted labels and answer with the window's most common label. Scores are
    abstract: `score(input, samples)` stands for the cosine similarity between
    the request's normalised landmarks and the mean of a gesture's samples,
    `None` when that computation raises. */
module Prediction {
  import opened Wrappers
  import opened GestureStore

  /** `PRED_WINDOW = deque(maxlen=7)`. */
  const WindowSize: nat := 7

  /** `CONF_THRESHOLD`. */
  const Threshold: real := 0.6

  /** The `best_score` the selection loop starts from. */
  const InitialBest: real := -1.0

  /** The score of one gesture against the request's vector. The mean of no
      samples is NaN, which `cosine_similarity` rejects, so a gesture without
      samples always fails. */
  function EntryScore<V>(score: (V, seq<V>) -> Option<real>, input: V, samples: seq<V>): Option<real> {
    if |samples| == 0 then None else score(input, samples)
  }

  /** The scores of all gestures in key order, or `None` when scoring any of
      them raises. */
  function ScoreAll<V>(st: Store<V>, score: (V, seq<V>) -> Option<real>, input: V): (r: Option<seq<real>>)
    ensures r.None? <==> exists j :: 0 <= j < |st| && EntryScore(score, input, st[j].samples).None?
    ensures r.Some? ==> |r.value| == |st| && forall j :: 0 <= j < |st| ==> EntryScore(score, input, st[j].samples) == Some(r.value[j])
  {
    if |st| == 0 then Some([])
    else match EntryScore(score, input, st[0].samples)
      case None => None
      case Some(x) =>
        match ScoreAll(st[1..], score, input)
        case None =>
          assert forall j :: 0 <= j < |st| - 1 ==> st[1..][j] == st[j + 1];
          None
        case Some(xs) =>
          assert forall j :: 0 < j < |st| ==> st[j] == st[1..][j - 1];
          Some([x] + xs)
  }

  /** Position `i` is the one the selection loop ends on: its score beats the
      starting `-1`, no score is higher, and every score before it is strictly
      lower (the loop only moves on a strict `>`). */
  ghost predicate IsBest(scores: seq<real>, i: int) {
    && 0 <= i < |scores|
    && scores[i] > InitialBest
    && (forall j :: 0 <= j < |scores| ==> scores[j] <= scores[i])
    && (forall j :: 0 <= j < i ==> scores[j] < scores[i])
  }

  /** At most one position is the best: the selection is determined by the
      scores and the key order. */
  lemma BestUnique(scores: seq<real>, i: int, k: int)
    requires IsBest(scores, i) && IsBest(scores, k)
    ensures i == k
  {
  }

  /** The selection loop over the gestures' scores in key order. */
  method SelectBest(scores: seq<real>) returns (best: Option<nat>, bestScore: real)
    ensures best.Some? ==> IsBest(scores, best.value) && bestScore == scores[best.value]
    ensures best.None? ==> bestScore == InitialBest && forall j :: 0 <= j < |scores| ==> scores[j] <= InitialBest
  {
    best, bestScore := None, InitialBest;
    var i := 0;
    while i < |scores|
      invariant 0 <= i <= |scores|
      invariant best.None? ==> bestScore == InitialBest && forall j :: 0 <= j < i ==> scores[j] <= InitialBest
      invariant best.Some? ==>
        && best.value < i
        && bestScore == scores[best.value]
        && bestScore > InitialBest
        && (forall j :: 0 <= j < i ==> scores[j] <= bestScore)
        && (forall j :: 0 <= j < best.value ==> scores[j] < bestScore)
    {
      if scores[i] > bestScore {
        best, bestScore := Some(i), scores[i];
      }
      i := i + 1;
    }
  }

  function Min(a: int, b: int): int {
    if a < b then a else b
  }

  /** `PRED_WINDOW.append(name)` on a deque bounded to `WindowSize`: the
      oldest label falls out when the window is full. */
  function Push(window: seq<string>, name: string): (r: seq<string>)
    ensures |r| == Min(|window| + 1, WindowSize)
    ensures r == (window + [name])[|window| + 1 - |r|..]
  {
    var full := window + [name];
    if |full| > WindowSize then full[|full| - WindowSize..] else full
  }

  /** The window after a run of accepted labels, oldest first. */
  function Fill(window: seq<string>, accepted: seq<string>): seq<string>
    decreases |accepted|
  {
    if |accepted| == 0 then window
    else Push(Fill(window, accepted[..|accepted| - 1]), accepted[|accepted| - 1])
  }

  /** Starting from the empty window, the window holds exactly the
      `WindowSize` most recently accepted labels (all of them while fewer
      were accepted), in arrival order. */
  lemma {:induction false} WindowKeepsMostRecent(accepted: seq<string>)
    ensures Fill([], accepted) == accepted[|accepted| - Min(|accepted|, WindowSize)..]
    decreases |accepted|
  {
    if |accepted| > 0 {
      var n := |accepted|;
      var older := accepted[..n - 1];
      WindowKeepsMostRecent(older);
      PushOntoRecent(older, accepted[n - 1]);
      SplitLast(accepted);
    }
  }

  lemma SplitLast(xs: seq<string>)
    requires |xs| > 0
    ensures xs == xs[..|xs| - 1] + [xs[|xs| - 1]]
  {
  }

  /** Pushing onto the most recent labels of `xs` gives the most recent
      labels of `xs` followed by the new one. */
  lemma PushOntoRecent(xs: seq<string>, x: string)
    ensures Push(xs[|xs| - Min(|xs|, WindowSize)..], x)
      == (xs + [x])[|xs| + 1 - Min(|xs| + 1, WindowSize)..]
  {
    var w := xs[|xs| - Min(|xs|, WindowSize)..];
    var ys := xs + [x];
    assert w + [x] == ys[|xs| - Min(|xs|, WindowSize)..];
  }

  /** How often `x` occurs in the window (`Counter(window)[x]`). */
  function Count(window: seq<string>, x: string): nat {
    multiset(window)[x]
  }

  /** Position `k` is where `Counter(window).most_common(1)` finds its answer:
      no label occurs more often than `window[k]`, and every label before
      position `k` occurs strictly less often. */
  ghost predicate MostCommonAt(window: seq<string>, k: int) {
    && 0 <= k < |window|
    && (forall j :: 0 <= j < |window| ==> Count(window, window[j]) <= Count(window, window[k]))
    && (forall j :: 0 <= j < k ==> Count(window, window[j]) < Count(window, window[k]))
  }

  ghost predicate IsMostCommon(window: seq<string>, x: string) {
    exists k :: MostCommonAt(window, k) && window[k] == x
  }

  /** `Counter(window).most_common(1)[0][0]`: `Counter` keeps labels in order
      of first occurrence and `most_common(1)` returns the first label of
      highest count. */
  method MostCommon(window: seq<string>) returns (x: string)
    requires |window| > 0
    ensures IsMostCommon(window, x)
  {
    var k := 0;
    var i := 1;
    while i < |window|
      invariant 0 <= k < i <= |window|
      invariant forall j :: 0 <= j < i ==> Count(window, window[j]) <= Count(window, window[k])
      invariant forall j :: 0 <= j < k ==> Count(window, window[j]) < Count(window, window[k])
    {
      if Count(window, window[i]) > Count(window, window[k]) {
        k := i;
      }
      i := i + 1;
    }
    x := window[k];
    assert MostCommonAt(window, k);
  }

  /** The most common label is unique: there is exactly one answer. */
  lemma MostCommonUnique(window: seq<string>, x: string, y: string)
    requires IsMostCommon(window, x) && IsMostCommon(window, y)
    ensures x == y
  {
    var k :| MostCommonAt(window, k) && window[k] == x;
    var m :| MostCommonAt(window, m) && window[m] == y;
    assert Count(window, x) == Count(window, y);
  }

  /** The answer occurs most often in the window, and among labels occurring
      as often it is the one that first appears earliest. */
  lemma MostCommonTieBreak(window: seq<string>, x: string, j: int)
    requires IsMostCommon(window, x)
    requires 0 <= j < |window| && Count(window, window[j]) == Count(window, x)
    ensures x in window
    ensures forall y :: y in window ==> Count(window, y) <= Count(window, x)
    ensures exists k :: 0 <= k <= j && window[k] == x
  {
    var k :| MostCommonAt(window, k) && window[k] == x;
    forall y | y in window
      ensures Count(window, y) <= Count(window, x)
    {
      var i :| 0 <= i < |window| && window[i] == y;
      assert Count(window, window[i]) <= Count(window, window[k]);
    }
    assert 0 <= k <= j && window[k] == x;
  }

  /** What `/predict` answers: the `prediction` field, or HTTP 500 when the
      handler raises. */
  datatype Outcome = Answer(prediction: Option<string>) | InternalError

  /** The scores the request gets: `None` when its landmarks cannot be
      normalised or some gesture cannot be scored against them. */
  function RequestScores<R, V>(st: Store<V>, request: R, normalize: R -> Option<V>, score: (V, seq<V>) -> Option<real>): Option<seq<real>> {
    match normalize(request)
    case None => None
    case Some(input) => ScoreAll(st, score, input)
  }

  /** `predict`, given the catalogue, the window and the request's raw
      landmarks; returns the new window and the answer. The window changes
      only when a prediction is returned. */
  method Predict<R, V>(st: Store<V>, window: seq<string>, request: R, normalize: R -> Option<V>, score: (V, seq<V>) -> Option<real>)
    returns (window': seq<string>, outcome: Outcome)
    ensures |st| == 0 ==> outcome == Answer(None) && window' == window
    ensures outcome.InternalError? <==> |st| > 0 && RequestScores(st, request, normalize, score).None?
    ensures (exists j :: 0 <= j < |st| && |st[j].samples| == 0) ==> outcome.InternalError?
    ensures !(outcome.Answer? && outcome.prediction.Some?) ==> window' == window
    ensures outcome.Answer? && outcome.prediction.Some? <==>
      && |st| > 0
      && RequestScores(st, request, normalize, score).Some?
      && exists j :: 0 <= j < |st| && RequestScores(st, request, normalize, score).value[j] >= Threshold
    ensures outcome.Answer? && outcome.prediction.Some? ==>
      var scores := RequestScores(st, request, normalize, score).value;
      && (exists i :: IsBest(scores, i) && window' == Push(window, st[i].name))
      && IsMostCommon(window', outcome.prediction.value)
  {
    if |st| == 0 {
      return window, Answer(None);
    }
    var scored := RequestScores(st, request, normalize, score);
    if scored.None? {
      return window, InternalError;
    }
    var scores := scored.value;
    var best, bestScore := SelectBest(scores);
    if bestScore < Threshold {
      return window, Answer(None);
    }
    var i := best.value;
    window' := Push(window, st[i].name);
    var x := MostCommon(window');
    outcome := Answer(Some(x));
    assert IsBest(scores, i) && window' == Push(window, st[i].name);
  }
}
