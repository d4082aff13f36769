/** The backend's gesture catalogue `GESTURES`: a dictionary from normalised
    gesture name to the list of stored sample vectors, kept in insertion order
    (the order Python dictionaries iterate in). Sample vectors are opaque: `V`
    stands for a normalised landmark vector and `R` for a raw one. */
module GestureStore {
  import opened Wrappers
  import Text

  datatype Entry<V> = Entry(name: string, samples: seq<V>)

  /** The catalogue as its entries in key-insertion order. */
  type Store<V> = seq<Entry<V>>

  /** The keys, in insertion order. */
  function Names<V>(st: Store<V>): seq<string> {
    if |st| == 0 then [] else [st[0].name] + Names(st[1..])
  }

  predicate Distinct(ns: seq<string>) {
    forall i, j :: 0 <= i < j < |ns| ==> ns[i] != ns[j]
  }

  /** A dictionary never holds a key twice. */
  predicate DistinctNames<V>(st: Store<V>) {
    Distinct(Names(st))
  }

  predicate NoEmptyName<V>(st: Store<V>) {
    "" !in Names(st)
  }

  /** `GESTURES.get(name)`. */
  function Lookup<V>(st: Store<V>, name: string): (r: Option<seq<V>>)
    ensures r.None? <==> name !in Names(st)
    ensures r.Some? ==> Entry(name, r.value) in st
  {
    if |st| == 0 then None
    else if st[0].name == name then Some(st[0].samples)
    else Lookup(st[1..], name)
  }

  /** The samples stored under `name`, or none when it is not a key. */
  function SamplesOf<V>(st: Store<V>, name: string): seq<V> {
    match Lookup(st, name)
    case Some(samples) => samples
    case None => []
  }

  /** `GESTURES[name] = samples`: an existing key keeps its place, a new key
      goes at the end. */
  function Put<V>(st: Store<V>, name: string, samples: seq<V>): (r: Store<V>)
    ensures Lookup(r, name) == Some(samples)
    ensures forall n :: n != name ==> Lookup(r, n) == Lookup(st, n)
    ensures Names(r) == if name in Names(st) then Names(st) else Names(st) + [name]
  {
    if |st| == 0 then [Entry(name, samples)]
    else if st[0].name == name then [Entry(name, samples)] + st[1..]
    else
      var rest := Put(st[1..], name, samples);
      PutBehind(st, name, samples, rest);
      [st[0]] + rest
  }

  /** Writing `name` behind a first entry with another key. */
  lemma PutBehind<V>(st: Store<V>, name: string, samples: seq<V>, rest: Store<V>)
    requires |st| > 0 && st[0].name != name
    requires Lookup(rest, name) == Some(samples)
    requires forall n :: n != name ==> Lookup(rest, n) == Lookup(st[1..], n)
    requires Names(rest) == if name in Names(st[1..]) then Names(st[1..]) else Names(st[1..]) + [name]
    ensures Lookup([st[0]] + rest, name) == Some(samples)
    ensures forall n :: n != name ==> Lookup([st[0]] + rest, n) == Lookup(st, n)
    ensures Names([st[0]] + rest) == if name in Names(st) then Names(st) else Names(st) + [name]
  {
    var r := [st[0]] + rest;
    assert r[0] == st[0] && r[1..] == rest;
    var ns := Names(st[1..]);
    assert Names(st) == [st[0].name] + ns;
    assert Names(r) == [st[0].name] + Names(rest);
    assert name in Names(st) <==> name in ns;
    if name !in ns {
      assert [st[0].name] + (ns + [name]) == ([st[0].name] + ns) + [name];
    }
  }

  lemma DistinctAppend(ns: seq<string>, n: string)
    requires Distinct(ns) && n !in ns
    ensures Distinct(ns + [n])
  {
    var ms := ns + [n];
    forall i, j | 0 <= i < j < |ms|
      ensures ms[i] != ms[j]
    {
      if j == |ns| {
        assert ms[i] == ns[i];
      }
    }
  }

  /** Writing one key keeps the keys distinct. */
  lemma PutKeepsDistinct<V>(st: Store<V>, name: string, samples: seq<V>)
    requires DistinctNames(st)
    ensures DistinctNames(Put(st, name, samples))
  {
    if name !in Names(st) {
      DistinctAppend(Names(st), name);
    }
  }

  /** The start-up clean-up (`del GESTURES[""]` when present) applied to the
      loaded catalogue. */
  function Startup<V>(loaded: Store<V>): (r: Store<V>)
    ensures NoEmptyName(r)
    ensures forall n :: n != "" ==> Lookup(r, n) == Lookup(loaded, n)
    ensures NoEmptyName(loaded) ==> r == loaded
    ensures |r| <= |loaded|
  {
    if |loaded| == 0 then []
    else if loaded[0].name == "" then Startup(loaded[1..])
    else
      var r := [loaded[0]] + Startup(loaded[1..]);
      assert r[1..] == Startup(loaded[1..]);
      r
  }

  lemma {:induction false} NamesIndex<V>(st: Store<V>, k: int)
    requires 0 <= k < |st|
    ensures |Names(st)| == |st| && Names(st)[k] == st[k].name
    decreases |st|
  {
    if k > 0 {
      NamesIndex(st[1..], k - 1);
    } else {
      NamesLength(st);
    }
  }

  lemma {:induction false} NamesLength<V>(st: Store<V>)
    ensures |Names(st)| == |st|
    decreases |st|
  {
    if |st| > 0 {
      NamesLength(st[1..]);
    }
  }

  /** The first key of a dictionary does not come back later, and the
      rest of the keys are distinct too. */
  lemma DistinctTail<V>(st: Store<V>)
    requires DistinctNames(st) && |st| > 0
    ensures DistinctNames(st[1..]) && st[0].name !in Names(st[1..])
  {
    var ns, ts := Names(st), Names(st[1..]);
    assert ns == [st[0].name] + ts;
    forall i, j | 0 <= i < j < |ts| ensures ts[i] != ts[j] {
      assert ts[i] == ns[i + 1] && ts[j] == ns[j + 1];
    }
    forall j | 0 <= j < |ts| ensures ts[j] != st[0].name {
      assert ts[j] == ns[j + 1] && ns[0] == st[0].name;
      assert ns[0] != ns[j + 1];
    }
  }

  /** Start-up removes exactly the entry keyed `""` and keeps every other entry
      in its place in the order. */
  lemma StartupDeletesOneEntry<V>(loaded: Store<V>, k: int)
    requires DistinctNames(loaded)
    requires 0 <= k < |loaded| && loaded[k].name == ""
    ensures Startup(loaded) == loaded[..k] + loaded[k + 1..]
  {
    NoEmptyAround(loaded, k);
    SplitAt(loaded, k);
    StartupDropsGap(loaded[..k], loaded[k], loaded[k + 1..]);
  }

  lemma SplitAt<T>(s: seq<T>, k: int)
    requires 0 <= k < |s|
    ensures s == s[..k] + [s[k]] + s[k + 1..]
  {
  }

  lemma StartupDropsGap<V>(before: Store<V>, x: Entry<V>, after: Store<V>)
    requires NoEmptyName(before) && NoEmptyName(after) && x.name == ""
    ensures Startup(before + [x] + after) == before + after
  {
    var bx := before + [x];
    StartupAppend(bx, after);
    StartupAppend(before, [x]);
    var none: Store<V> := [];
    assert [x][1..] == none;
    assert Startup([x]) == Startup(none) == none;
    assert Startup(bx) == before;
  }

  /** In a dictionary with a `""` key, no other key is `""`. */
  lemma NoEmptyAround<V>(loaded: Store<V>, k: int)
    requires DistinctNames(loaded)
    requires 0 <= k < |loaded| && loaded[k].name == ""
    ensures NoEmptyName(loaded[..k]) && NoEmptyName(loaded[k + 1..])
  {
    var before, after := loaded[..k], loaded[k + 1..];
    forall i | 0 <= i < |before| ensures before[i].name != "" {
      NamesIndex(loaded, i);
      NamesIndex(loaded, k);
    }
    NotInNames(before, "");
    forall i | 0 <= i < |after| ensures after[i].name != "" {
      NamesIndex(loaded, k + 1 + i);
      NamesIndex(loaded, k);
    }
    NotInNames(after, "");
  }

  lemma {:induction false} NotInNames<V>(st: Store<V>, n: string)
    requires forall i :: 0 <= i < |st| ==> st[i].name != n
    ensures n !in Names(st)
    decreases |st|
  {
    if |st| > 0 {
      NotInNames(st[1..], n);
    }
  }

  /** Start-up works entry by entry. */
  lemma {:induction false} StartupAppend<V>(a: Store<V>, b: Store<V>)
    ensures Startup(a + b) == Startup(a) + Startup(b)
    decreases |a|
  {
    if |a| == 0 {
      assert a + b == b;
    } else {
      assert (a + b)[0] == a[0];
      assert (a + b)[1..] == a[1..] + b;
      StartupAppend(a[1..], b);
    }
  }

  /** The response of `/train-batch`. `ServerError` is the request failing
      part-way because a sample could not be normalised. */
  datatype Response = InvalidName | Trained(total: nat) | ServerError

  datatype TrainStep<V> = TrainStep(store: Store<V>, response: Response)

  /** The normalised forms of the longest prefix of `samples` that
      `normalize` accepts: what the append loop has stored when it stops. */
  function NormalizeEach<R, V>(samples: seq<R>, normalize: R -> Option<V>): (vs: seq<V>)
    ensures |vs| <= |samples|
    ensures forall i :: 0 <= i < |vs| ==> normalize(samples[i]) == Some(vs[i])
    ensures |vs| < |samples| ==> normalize(samples[|vs|]).None?
  {
    if |samples| == 0 then []
    else match normalize(samples[0])
      case None => []
      case Some(v) =>
        var rest := NormalizeEach(samples[1..], normalize);
        assert forall i :: 0 < i < |rest| + 1 ==> samples[i] == samples[1..][i - 1];
        [v] + rest
  }

  /** The part of `train_batch` after the name check: create the key `name`
      when it is new, then append the normalised samples one by one. */
  function AppendBatch<R, V>(st: Store<V>, name: string, samples: seq<R>, normalize: R -> Option<V>): (r: TrainStep<V>)
    ensures !r.response.InvalidName?
    ensures r.response.Trained? <==> forall i :: 0 <= i < |samples| ==> normalize(samples[i]).Some?
    ensures forall n :: n != name ==> Lookup(r.store, n) == Lookup(st, n)
    ensures Names(r.store) == if name in Names(st) then Names(st) else Names(st) + [name]
  {
    var added := NormalizeEach(samples, normalize);
    var after := SamplesOf(st, name) + added;
    var response := if |added| == |samples| then Trained(|after|) else ServerError;
    TrainStep(Put(st, name, after), response)
  }

  /** `train_batch`: normalise the name, reject it when empty, otherwise
      append the batch under the normalised name. */
  function TrainBatch<R, V>(st: Store<V>, rawName: string, samples: seq<R>, normalize: R -> Option<V>): (r: TrainStep<V>)
    ensures r.response.InvalidName? <==> Text.AllSpace(rawName)
    ensures r.response.InvalidName? ==> r.store == st
    ensures !r.response.InvalidName? ==> Text.NormalizeName(rawName) != "" && r == AppendBatch(st, Text.NormalizeName(rawName), samples, normalize)
    ensures r.response.Trained? <==> !Text.AllSpace(rawName) && forall i :: 0 <= i < |samples| ==> normalize(samples[i]).Some?
  {
    var name := Text.NormalizeName(rawName);
    if name == "" then TrainStep(st, InvalidName)
    else AppendBatch(st, name, samples, normalize)
  }

  /** `after` is `before` followed by the normalised forms of the samples in
      request order, stopping early only at a sample `normalize` rejects. */
  ghost predicate ExtendsWith<R, V>(before: seq<V>, after: seq<V>, samples: seq<R>, normalize: R -> Option<V>) {
    && |before| <= |after| <= |before| + |samples|
    && after[..|before|] == before
    && (forall i :: 0 <= i < |after| - |before| ==> normalize(samples[i]) == Some(after[|before| + i]))
    && (|after| < |before| + |samples| ==> normalize(samples[|after| - |before|]).None?)
  }

  /** Appending a batch leaves the key `name` holding its old samples (none
      for a new key) followed by the normalised request samples in request
      order, all of them when the batch succeeds; `total` is the new sample
      count. When a sample cannot be normalised the appending stops there, and
      what was appended before it stays. */
  lemma AppendBatchInOrder<R, V>(st: Store<V>, name: string, samples: seq<R>, normalize: R -> Option<V>)
    ensures var r := AppendBatch(st, name, samples, normalize);
      && Lookup(r.store, name).Some?
      && ExtendsWith(SamplesOf(st, name), Lookup(r.store, name).value, samples, normalize)
      && (r.response.Trained? ==>
            r.response.total == |Lookup(r.store, name).value| == |SamplesOf(st, name)| + |samples|)
  {
    var before := SamplesOf(st, name);
    assert Lookup(AppendBatch(st, name, samples, normalize).store, name)
      == Some(before + NormalizeEach(samples, normalize));
    ExtendsWithNormalized(before, samples, normalize);
  }

  /** The append loop extends whatever the key held with the normalised
      samples, in order. */
  lemma ExtendsWithNormalized<R, V>(before: seq<V>, samples: seq<R>, normalize: R -> Option<V>)
    ensures ExtendsWith(before, before + NormalizeEach(samples, normalize), samples, normalize)
  {
    var added := NormalizeEach(samples, normalize);
    var after := before + added;
    assert after[..|before|] == before;
    assert forall i :: 0 <= i < |added| ==> after[|before| + i] == added[i];
  }

  /** A batch under a new name whose first sample does not normalise, or
      that has no samples at all, still creates the key, holding no samples. */
  lemma EmptyBatchCreatesEmptyGesture<R, V>(st: Store<V>, name: string, samples: seq<R>, normalize: R -> Option<V>)
    requires name !in Names(st)
    requires |samples| == 0 || normalize(samples[0]).None?
    ensures Entry(name, []) in AppendBatch(st, name, samples, normalize).store
  {
    AppendBatchInOrder(st, name, samples, normalize);
    assert SamplesOf(st, name) == [];
  }

  /** Training keeps the two catalogue invariants: distinct keys, and no `""` key. */
  lemma TrainBatchKeepsInvariants<R, V>(st: Store<V>, rawName: string, samples: seq<R>, normalize: R -> Option<V>)
    requires DistinctNames(st) && NoEmptyName(st)
    ensures var r := TrainBatch(st, rawName, samples, normalize);
      DistinctNames(r.store) && NoEmptyName(r.store)
  {
    var name := Text.NormalizeName(rawName);
    if name != "" {
      PutKeepsDistinct(st, name, SamplesOf(st, name) + NormalizeEach(samples, normalize));
    }
  }

  datatype Catalog = Catalog(count: nat, names: seq<string>)

  /** `gesture_count`: the number of keys and the keys in insertion order. */
  function GestureCount<V>(st: Store<V>): (c: Catalog)
    ensures c.count == |c.names|
    ensures forall n :: n in c.names <==> Lookup(st, n).Some?
    ensures DistinctNames(st) ==> c.count == |set n | n in c.names|
    ensures c.names == Names(st)
  {
    NamesLength(st);
    DistinctNamesCard(st);
    Catalog(|st|, Names(st))
  }

  lemma {:induction false} DistinctCard(ns: seq<string>)
    requires Distinct(ns)
    ensures |set n | n in ns| == |ns|
    decreases |ns|
  {
    if |ns| > 0 {
      var tail := ns[1..];
      assert Distinct(tail) by {
        forall i, j | 0 <= i < j < |tail| ensures tail[i] != tail[j] {
          assert tail[i] == ns[i + 1] && tail[j] == ns[j + 1];
        }
      }
      DistinctCard(tail);
      assert ns[0] !in tail;
      assert (set n | n in ns) == (set n | n in tail) + {ns[0]} by {
        assert ns == [ns[0]] + tail;
      }
    }
  }

  lemma DistinctNamesCard<V>(st: Store<V>)
    ensures DistinctNames(st) ==> |set n | n in Names(st)| == |Names(st)|
  {
    if DistinctNames(st) {
      DistinctCard(Names(st));
    }
  }

  /** A batch adds one to the gesture count exactly when its normalised name is
      valid and new, and leaves the count alone otherwise. */
  lemma CountAfterTrain<R, V>(st: Store<V>, rawName: string, samples: seq<R>, normalize: R -> Option<V>)
    ensures var name := Text.NormalizeName(rawName);
      var after := GestureCount(TrainBatch(st, rawName, samples, normalize).store).count;
      after == GestureCount(st).count + (if name != "" && name !in Names(st) then 1 else 0)
  {
    var r := TrainBatch(st, rawName, samples, normalize);
    NamesLength(st);
    NamesLength(r.store);
  }

  datatype Request<R> = Request(name: string, samples: seq<R>)

  /** The catalogue after serving a sequence of `/train-batch` requests. */
  function Serve<R, V>(st: Store<V>, requests: seq<Request<R>>, normalize: R -> Option<V>): Store<V>
    decreases |requests|
  {
    if |requests| == 0 then st
    else Serve(TrainBatch(st, requests[0].name, requests[0].samples, normalize).store, requests[1..], normalize)
  }

  /** After start-up and any number of training requests, the catalogue has
      no `""` key and no key twice. */
  lemma {:induction false} ServedStoreWellFormed<R, V>(loaded: Store<V>, requests: seq<Request<R>>, normalize: R -> Option<V>)
    requires DistinctNames(loaded)
    ensures var st := Serve(Startup(loaded), requests, normalize);
      NoEmptyName(st) && DistinctNames(st)
  {
    StartupKeepsDistinct(loaded);
    ServeKeepsInvariants(Startup(loaded), requests, normalize);
  }

  lemma {:induction false} ServeKeepsInvariants<R, V>(st: Store<V>, requests: seq<Request<R>>, normalize: R -> Option<V>)
    requires DistinctNames(st) && NoEmptyName(st)
    ensures var r := Serve(st, requests, normalize);
      NoEmptyName(r) && DistinctNames(r)
    decreases |requests|
  {
    if |requests| > 0 {
      TrainBatchKeepsInvariants(st, requests[0].name, requests[0].samples, normalize);
      ServeKeepsInvariants(TrainBatch(st, requests[0].name, requests[0].samples, normalize).store, requests[1..], normalize);
    }
  }

  /** Start-up keeps the keys distinct. */
  lemma {:induction false} StartupKeepsDistinct<V>(loaded: Store<V>)
    requires DistinctNames(loaded)
    ensures DistinctNames(Startup(loaded))
    decreases |loaded|
  {
    if |loaded| > 0 {
      var tail := loaded[1..];
      DistinctTail(loaded);
      StartupKeepsDistinct(tail);
      if loaded[0].name != "" {
        var r := Startup(loaded);
        assert r == [loaded[0]] + Startup(tail);
        assert r[1..] == Startup(tail);
        StartupNamesSubset(tail);
        DistinctCons(loaded[0].name, Names(Startup(tail)), Names(tail));
      }
    }
  }

  /** A name that is not among `ns` can go in front of any distinct
      selection `us` of them. */
  lemma DistinctCons(n: string, us: seq<string>, ns: seq<string>)
    requires Distinct(us) && n !in ns
    requires forall m :: m in us ==> m in ns
    ensures Distinct([n] + us)
  {
    var rs := [n] + us;
    forall i, j | 0 <= i < j < |rs| ensures rs[i] != rs[j] {
      assert rs[j] == us[j - 1];
      if i > 0 {
        assert rs[i] == us[i - 1];
      }
    }
  }

  lemma {:induction false} StartupNamesSubset<V>(loaded: Store<V>)
    ensures forall n :: n in Names(Startup(loaded)) ==> n in Names(loaded)
    decreases |loaded|
  {
    if |loaded| > 0 {
      StartupNamesSubset(loaded[1..]);
    }
  }
}
