/** The per-frame decision logic of the translator page: what the hand-tracker
    result callback, the prediction completion, the effect cleanup and the
    "Save Gesture" button decide. Camera, drawing, `fetch` and speech are the
    effects those decisions trigger; they appear here only as `Effect` values. */
module Session {
  import opened Wrappers

  /** Minimum gap, in milliseconds, between two frames forwarded for prediction. */
  const MinIntervalMs: int := 700

  /** The label the backend uses when it recognises nothing. */
  const Unknown: string := "UNKNOWN"

  datatype Landmark = Landmark(x: real, y: real, z: real)
  type Hand = seq<Landmark>

  /** The state the page keeps across callbacks: the module-level `lastSent`
      and `lastSpoken`, the `lastLandmarksRef` ref and the effect's `mounted` flag. */
  datatype State = State(lastSent: int, lastSpoken: string, lastLandmarks: Option<Hand>, mounted: bool)

  /** The state when the page has loaded: nothing sent (`lastSent = 0`),
      nothing spoken, no hand seen, mounted. */
  const Initial: State := State(0, "", None, true)

  /** What a step asks the outside world to do: post a frame to `/predict`,
      or speak a label. */
  datatype Effect = Dispatch(at: int, hand: Hand) | Announce(spoken: string)

  datatype Step = Step(next: State, effect: Option<Effect>)

  /** The tracker found at least one hand (`results.multiHandLandmarks?.length`
      is truthy). */
  predicate HasHand(hands: Option<seq<Hand>>) {
    hands.Some? && |hands.value| > 0
  }

  /** A label worth speaking: truthy and not the backend's "nothing" label. */
  predicate Speakable(g: string) {
    g != "" && g != Unknown
  }

  /** The `hands.onResults` callback for one frame, given the frame's hands and
      the clock reading `now`. */
  function OnResults(s: State, hands: Option<seq<Hand>>, now: int): (r: Step)
    ensures r.effect.Some? <==> s.mounted && HasHand(hands) && now - s.lastSent >= MinIntervalMs
    ensures r.effect.Some? ==> HasHand(hands) && r.effect.value == Dispatch(now, hands.value[0]) && r.next.lastSent == now
    ensures r.effect.None? ==> r.next.lastSent == s.lastSent
    ensures !s.mounted || !HasHand(hands) ==> r.next == s
    ensures s.mounted && HasHand(hands) ==> r.next.lastLandmarks == Some(hands.value[0])
    ensures r.next.lastSpoken == s.lastSpoken && r.next.mounted == s.mounted
  {
    if !s.mounted then Step(s, None)
    else if !HasHand(hands) then Step(s, None)
    else
      var hand := hands.value[0];
      var seen := s.(lastLandmarks := Some(hand));
      if now - s.lastSent < MinIntervalMs then Step(seen, None)
      else Step(seen.(lastSent := now), Some(Dispatch(now, hand)))
  }

  /** The completion of a `/predict` request whose response carried `gesture`
      (`None` when the field is missing or null). */
  function OnPrediction(s: State, gesture: Option<string>): (r: Step)
    ensures r.effect.Some? <==> s.mounted && gesture.Some? && Speakable(gesture.value) && gesture.value != s.lastSpoken
    ensures r.effect.Some? ==> gesture.Some? && r.effect.value == Announce(gesture.value) && r.next == s.(lastSpoken := gesture.value)
    ensures r.effect.None? ==> r.next == s
  {
    if !s.mounted then Step(s, None)
    else match gesture
      case Some(g) =>
        if Speakable(g) && g != s.lastSpoken then Step(s.(lastSpoken := g), Some(Announce(g)))
        else Step(s, None)
      case None => Step(s, None)
  }

  /** The effect cleanup: only the `mounted` flag changes. */
  function Unmount(s: State): (r: State)
    ensures !r.mounted
    ensures r.lastSent == s.lastSent && r.lastSpoken == s.lastSpoken && r.lastLandmarks == s.lastLandmarks
  {
    s.(mounted := false)
  }

  datatype SaveOutcome = NoHandAlert | Cancelled | Post(name: string, hand: Hand)

  /** The `saveGesture` guards, given what the name prompt returned (`None`
      when it was dismissed). Only the empty string is rejected: a name made of
      spaces is posted untouched. */
  function SaveGesture(s: State, entered: Option<string>): (r: SaveOutcome)
    ensures r.NoHandAlert? <==> s.lastLandmarks.None?
    ensures r.Post? <==> s.lastLandmarks.Some? && entered.Some? && entered.value != ""
    ensures r.Post? ==> s.lastLandmarks.Some? && entered.Some? && r.name == entered.value && r.hand == s.lastLandmarks.value
  {
    match s.lastLandmarks
    case None => NoHandAlert
    case Some(hand) =>
      match entered
      case Some(name) => if name != "" then Post(name, hand) else Cancelled
      case None => Cancelled
  }

  /** Everything that can happen to the page, in the order the single
      JavaScript thread sees it. */
  datatype Event =
    | Frame(hands: Option<seq<Hand>>, now: int)
    | Completion(gesture: Option<string>)
    | Teardown

  function Apply(s: State, e: Event): Step {
    match e
    case Frame(hands, now) => OnResults(s, hands, now)
    case Completion(gesture) => OnPrediction(s, gesture)
    case Teardown => Step(Unmount(s), None)
  }

  function Emitted(effect: Option<Effect>): seq<Effect> {
    match effect
    case Some(x) => [x]
    case None => []
  }

  datatype Trace = Trace(final: State, log: seq<Effect>)

  /** The state after a sequence of events and every effect they triggered. */
  function Run(s: State, events: seq<Event>): Trace
    decreases |events|
  {
    if |events| == 0 then Trace(s, [])
    else
      var step := Apply(s, events[0]);
      var rest := Run(step.next, events[1..]);
      Trace(rest.final, Emitted(step.effect) + rest.log)
  }

  function DispatchTimes(log: seq<Effect>): seq<int> {
    if |log| == 0 then []
    else (if log[0].Dispatch? then [log[0].at] else []) + DispatchTimes(log[1..])
  }

  function Announcements(log: seq<Effect>): seq<string> {
    if |log| == 0 then []
    else (if log[0].Announce? then [log[0].spoken] else []) + Announcements(log[1..])
  }

  /** Each time is at least `MinIntervalMs` after the one before it, the first
      one at least `MinIntervalMs` after `prev`. */
  predicate Spaced(prev: int, ts: seq<int>) {
    && (|ts| > 0 ==> ts[0] - prev >= MinIntervalMs)
    && forall i :: 0 < i < |ts| ==> ts[i] - ts[i - 1] >= MinIntervalMs
  }

  /** Every label is speakable and differs from the one spoken just before it. */
  predicate Deduped(prev: string, ls: seq<string>) {
    && (|ls| > 0 ==> ls[0] != prev)
    && (forall i :: 0 < i < |ls| ==> ls[i] != ls[i - 1])
    && forall i :: 0 <= i < |ls| ==> Speakable(ls[i])
  }

  /** One event moves `lastSent` only when it dispatches, to the dispatch
      time, which is at least `MinIntervalMs` after the previous `lastSent`. */
  lemma ApplyLastSent(s: State, e: Event)
    ensures var st := Apply(s, e);
      if st.effect.Some? && st.effect.value.Dispatch?
      then st.effect.value.at - s.lastSent >= MinIntervalMs && st.next.lastSent == st.effect.value.at
      else st.next.lastSent == s.lastSent
  {
  }

  /** One event moves `lastSpoken` only when it announces, to the spoken
      label, which is speakable and differs from the previous `lastSpoken`. */
  lemma ApplyLastSpoken(s: State, e: Event)
    ensures var st := Apply(s, e);
      if st.effect.Some? && st.effect.value.Announce?
      then Speakable(st.effect.value.spoken) && st.effect.value.spoken != s.lastSpoken
        && st.next.lastSpoken == st.effect.value.spoken
      else st.next.lastSpoken == s.lastSpoken
  {
  }

  lemma DispatchTimesCons(e: Option<Effect>, log: seq<Effect>)
    ensures DispatchTimes(Emitted(e) + log)
      == (if e.Some? && e.value.Dispatch? then [e.value.at] else []) + DispatchTimes(log)
  {
    if e.Some? {
      assert ([e.value] + log)[1..] == log;
    } else {
      assert Emitted(e) + log == log;
    }
  }

  lemma AnnouncementsCons(e: Option<Effect>, log: seq<Effect>)
    ensures Announcements(Emitted(e) + log)
      == (if e.Some? && e.value.Announce? then [e.value.spoken] else []) + Announcements(log)
  {
    if e.Some? {
      assert ([e.value] + log)[1..] == log;
    } else {
      assert Emitted(e) + log == log;
    }
  }

  lemma SpacedCons(prev: int, t: int, ts: seq<int>)
    requires t - prev >= MinIntervalMs
    requires Spaced(t, ts)
    ensures Spaced(prev, [t] + ts)
  {
    var us := [t] + ts;
    assert forall i :: 0 < i < |us| ==> us[i] == ts[i - 1];
  }

  /** Whatever the frames, completions and clock readings, two consecutive
      dispatches are at least 700 ms apart, the first one 700 ms after the
      starting `lastSent`, and `lastSent` ends as the last dispatch time.
      The clock need not be monotonic. */
  lemma {:induction false} DispatchesSpaced(s: State, events: seq<Event>)
    ensures Spaced(s.lastSent, DispatchTimes(Run(s, events).log))
    ensures var ts := DispatchTimes(Run(s, events).log);
      Run(s, events).final.lastSent == if |ts| == 0 then s.lastSent else ts[|ts| - 1]
    decreases |events|
  {
    if |events| > 0 {
      var step := Apply(s, events[0]);
      DispatchesSpaced(step.next, events[1..]);
      ApplyLastSent(s, events[0]);
      var rest := Run(step.next, events[1..]);
      SpacedStep(s.lastSent, step.effect, step.next.lastSent, rest.log, rest.final.lastSent);
    }
  }

  /** One step of `DispatchesSpaced`: prepending the effect of one event to
      a spaced run keeps it spaced. */
  lemma SpacedStep(prev: int, effect: Option<Effect>, next: int, log: seq<Effect>, last: int)
    requires if effect.Some? && effect.value.Dispatch?
      then effect.value.at - prev >= MinIntervalMs && next == effect.value.at
      else next == prev
    requires Spaced(next, DispatchTimes(log))
    requires var ts := DispatchTimes(log); last == if |ts| == 0 then next else ts[|ts| - 1]
    ensures Spaced(prev, DispatchTimes(Emitted(effect) + log))
    ensures var ts := DispatchTimes(Emitted(effect) + log); last == if |ts| == 0 then prev else ts[|ts| - 1]
  {
    DispatchTimesCons(effect, log);
    if effect.Some? && effect.value.Dispatch? {
      SpacedCons(prev, effect.value.at, DispatchTimes(log));
    }
  }

  /** Whatever the events, every spoken label is non-empty and not "UNKNOWN",
      no label is spoken twice in a row (the first differs from the starting
      `lastSpoken`), and `lastSpoken` ends as the last spoken label. */
  lemma {:induction false} AnnouncementsDeduped(s: State, events: seq<Event>)
    ensures Deduped(s.lastSpoken, Announcements(Run(s, events).log))
    ensures var ls := Announcements(Run(s, events).log);
      Run(s, events).final.lastSpoken == if |ls| == 0 then s.lastSpoken else ls[|ls| - 1]
    decreases |events|
  {
    if |events| > 0 {
      var step := Apply(s, events[0]);
      AnnouncementsDeduped(step.next, events[1..]);
      ApplyLastSpoken(s, events[0]);
      var rest := Run(step.next, events[1..]);
      DedupedStep(s.lastSpoken, step.effect, step.next.lastSpoken, rest.log, rest.final.lastSpoken);
    }
  }

  /** One step of `AnnouncementsDeduped`: prepending the effect of one event
      to a deduplicated run keeps it deduplicated. */
  lemma DedupedStep(prev: string, effect: Option<Effect>, next: string, log: seq<Effect>, last: string)
    requires if effect.Some? && effect.value.Announce?
      then Speakable(effect.value.spoken) && effect.value.spoken != prev && next == effect.value.spoken
      else next == prev
    requires Deduped(next, Announcements(log))
    requires var ls := Announcements(log); last == if |ls| == 0 then next else ls[|ls| - 1]
    ensures Deduped(prev, Announcements(Emitted(effect) + log))
    ensures var ls := Announcements(Emitted(effect) + log); last == if |ls| == 0 then prev else ls[|ls| - 1]
  {
    AnnouncementsCons(effect, log);
    if effect.Some? && effect.value.Announce? {
      var tail := Announcements(log);
      var ls := [effect.value.spoken] + tail;
      assert forall i :: 0 < i < |ls| ==> ls[i] == tail[i - 1];
    }
  }

  /** From page load, dispatches are spaced 700 ms apart starting from time 0,
      and the spoken labels are speakable with no label twice in a row. */
  lemma FromPageLoad(events: seq<Event>)
    ensures Spaced(0, DispatchTimes(Run(Initial, events).log))
    ensures Deduped("", Announcements(Run(Initial, events).log))
  {
    DispatchesSpaced(Initial, events);
    AnnouncementsDeduped(Initial, events);
  }

  /** Once unmounted, no event changes the state or triggers anything. */
  lemma {:induction false} FrozenWhenUnmounted(s: State, events: seq<Event>)
    requires !s.mounted
    ensures Run(s, events) == Trace(s, [])
    decreases |events|
  {
    if |events| > 0 {
      FrozenWhenUnmounted(Apply(s, events[0]).next, events[1..]);
    }
  }

  /** Running two event sequences back to back. */
  lemma {:induction false} RunAppend(s: State, a: seq<Event>, b: seq<Event>)
    ensures var mid := Run(s, a);
      Run(s, a + b) == Trace(Run(mid.final, b).final, mid.log + Run(mid.final, b).log)
    decreases |a|
  {
    if |a| == 0 {
      assert a + b == b;
    } else {
      var step := Apply(s, a[0]);
      RunAppend(step.next, a[1..], b);
      assert (a + b)[0] == a[0];
      assert (a + b)[1..] == a[1..] + b;
      var mid := Run(step.next, a[1..]);
      var fin := Run(mid.final, b);
      assert Emitted(step.effect) + (mid.log + fin.log) == (Emitted(step.effect) + mid.log) + fin.log;
    }
  }

  /** Tearing the page down cuts every later frame and every late completion
      off: the final state is the one at teardown with `mounted` cleared, and
      the effects are those triggered before it. */
  lemma NothingAfterTeardown(s: State, before: seq<Event>, after: seq<Event>)
    ensures var mid := Run(s, before);
      Run(s, before + [Teardown] + after) == Trace(Unmount(mid.final), mid.log)
  {
    var mid := Run(s, before);
    RunAppend(s, before, [Teardown] + after);
    assert before + [Teardown] + after == before + ([Teardown] + after);
    assert ([Teardown] + after)[1..] == after;
    FrozenWhenUnmounted(Unmount(mid.final), after);
  }
}
