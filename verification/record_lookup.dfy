/**
  The event log of runtime-inference/src/record.rs: an append-only
  `ElapsedTimeTracker`, the `RecordLookup` it is inverted into (an
  insertion-ordered map from event to progress fractions plus the list of
  total runtimes), and `merge` of two lookups.

  `IndexMap` / `IndexSet` are modelled as a key sequence in insertion order
  beside an ordinary map. `ProgressFraction::duration_fraction` divides two
  durations as floating point; it is the parameter `fraction` (total time,
  event time), about which nothing is assumed.
*/
module RecordLookup {
  import opened Wrappers

  // ---------------------------------------------------------------------
  // Insertion-ordered key sets
  // ---------------------------------------------------------------------

  predicate Distinct<E(==)>(xs: seq<E>)
  {
    forall i, j :: 0 <= i < j < |xs| ==> xs[i] != xs[j]
  }

  /** Where `e` first occurs in `xs`; `|xs|` when it does not occur. */
  function FirstIndex<E(==)>(xs: seq<E>, e: E): (k: nat)
    ensures k <= |xs|
    ensures k < |xs| <==> e in xs
    ensures k < |xs| ==> xs[k] == e
    ensures forall j :: 0 <= j < k ==> xs[j] != e
    decreases |xs|
  {
    if xs == [] then 0
    else if xs[0] == e then 0
    else 1 + FirstIndex(xs[1..], e)
  }

  /** Collecting `xs` into an `IndexSet`: every element once, at the place it first occurs. */
  function Dedup<E(==)>(xs: seq<E>): seq<E>
    decreases |xs|
  {
    if xs == [] then []
    else
      var d := Dedup(xs[..|xs| - 1]);
      if xs[|xs| - 1] in d then d else d + [xs[|xs| - 1]]
  }

  /** Appending an element does not move the first occurrence of anything already there. */
  lemma FirstIndexSnoc<E>(xs: seq<E>, x: E, e: E)
    requires e in xs || e == x
    ensures FirstIndex(xs + [x], e) == if e in xs then FirstIndex(xs, e) else |xs|
  {
    var k, k' := FirstIndex(xs, e), FirstIndex(xs + [x], e);
    ConcatMember(xs, [x], e);
    if e in xs {
      assert (xs + [x])[k] == e;
      assert forall j :: 0 <= j < k' ==> xs[j] == (xs + [x])[j];
    } else {
      assert (xs + [x])[|xs|] == e;
      assert forall j :: 0 <= j < |xs| ==> xs[j] == (xs + [x])[j];
    }
  }

  /** `Dedup` keeps exactly the elements of `xs`. */
  lemma {:induction false} DedupMember<E>(xs: seq<E>, e: E)
    ensures e in Dedup(xs) <==> e in xs
    decreases |xs|
  {
    if xs != [] {
      var p, x := xs[..|xs| - 1], xs[|xs| - 1];
      assert xs == p + [x];
      DedupMember(p, e);
      ConcatMember(p, [x], e);
    }
  }

  /** `Dedup` never repeats an element. */
  lemma {:induction false} DedupDistinct<E>(xs: seq<E>)
    ensures Distinct(Dedup(xs))
    decreases |xs|
  {
    if xs != [] {
      var p := xs[..|xs| - 1];
      DedupDistinct(p);
    }
  }

  /** `Dedup` orders its elements by where each first occurs in `xs`. */
  lemma {:induction false} DedupOrder<E>(xs: seq<E>)
    ensures forall i, j :: 0 <= i < j < |Dedup(xs)| ==> FirstIndex(xs, Dedup(xs)[i]) < FirstIndex(xs, Dedup(xs)[j])
    decreases |xs|
  {
    if xs != [] {
      var p, x := xs[..|xs| - 1], xs[|xs| - 1];
      assert xs == p + [x];
      DedupOrder(p);
      DedupOrderStep(p, x);
    }
  }

  lemma DedupOrderStep<E>(p: seq<E>, x: E)
    requires forall i, j :: 0 <= i < j < |Dedup(p)| ==> FirstIndex(p, Dedup(p)[i]) < FirstIndex(p, Dedup(p)[j])
    ensures var xs := p + [x];
      forall i, j :: 0 <= i < j < |Dedup(xs)| ==> FirstIndex(xs, Dedup(xs)[i]) < FirstIndex(xs, Dedup(xs)[j])
  {
    var xs := p + [x];
    assert xs[..|xs| - 1] == p && xs[|xs| - 1] == x;
    var d := Dedup(p);
    forall e | e in d
      ensures FirstIndex(xs, e) == FirstIndex(p, e)
    {
      DedupMember(p, e);
      FirstIndexSnoc(p, x, e);
    }
    if x !in d {
      DedupMember(p, x);
      FirstIndexSnoc(p, x, x);
      var r := d + [x];
      forall i, j | 0 <= i < j < |r|
        ensures FirstIndex(xs, r[i]) < FirstIndex(xs, r[j])
      {
        if j == |d| {
          assert r[i] == d[i];
        } else {
          assert r[i] == d[i] && r[j] == d[j];
        }
      }
    }
  }

  /**
    What `Dedup` means: no repeats, exactly the elements of `xs`, and ordered
    by where each first occurs in `xs`.
  */
  lemma DedupSpec<E>(xs: seq<E>)
    ensures Distinct(Dedup(xs))
    ensures forall e :: e in Dedup(xs) <==> e in xs
    ensures forall i, j :: 0 <= i < j < |Dedup(xs)| ==> FirstIndex(xs, Dedup(xs)[i]) < FirstIndex(xs, Dedup(xs)[j])
  {
    DedupDistinct(xs);
    DedupOrder(xs);
    forall e
      ensures e in Dedup(xs) <==> e in xs
    {
      DedupMember(xs, e);
    }
  }

  /** A sequence without repeats is its own `IndexSet`. */
  lemma {:induction false} DedupOfDistinct<E>(xs: seq<E>)
    requires Distinct(xs)
    ensures Dedup(xs) == xs
    decreases |xs|
  {
    if xs != [] {
      var p := xs[..|xs| - 1];
      DedupOfDistinct(p);
      DedupMember(p, xs[|xs| - 1]);
      assert xs[|xs| - 1] !in p;
      assert xs == p + [xs[|xs| - 1]];
    }
  }

  /** Collecting more elements only appends: the earlier `IndexSet` is a prefix. */
  lemma {:induction false} DedupPrefix<E>(xs: seq<E>, ys: seq<E>)
    ensures |Dedup(xs)| <= |Dedup(xs + ys)|
    ensures Dedup(xs + ys)[..|Dedup(xs)|] == Dedup(xs)
    decreases |ys|
  {
    if ys == [] {
      assert xs + ys == xs;
    } else {
      var ys', y := ys[..|ys| - 1], ys[|ys| - 1];
      DedupPrefix(xs, ys');
      assert xs + ys == (xs + ys') + [y];
      assert (xs + ys)[..|xs + ys| - 1] == xs + ys';
    }
  }

  // ---------------------------------------------------------------------
  // The tracker
  // ---------------------------------------------------------------------

  /** `ElapsedTimeTracker<E>`: the intermediate events with their times from the start. */
  datatype ElapsedTimeTracker<E> = ElapsedTimeTracker(events: seq<(E, nat)>)

  /** `ElapsedTimeTracker::new`. */
  function NewTracker<E>(): (t: ElapsedTimeTracker<E>)
    ensures |IntoEvents(t)| == 0
  {
    ElapsedTimeTracker([])
  }

  /** `accept`: record one more event after all the others. */
  function Accept<E>(t: ElapsedTimeTracker<E>, e: E, timestamp: nat): (r: ElapsedTimeTracker<E>)
    ensures |IntoEvents(r)| == |IntoEvents(t)| + 1
    ensures IntoEvents(r)[..|IntoEvents(t)|] == IntoEvents(t) && IntoEvents(r)[|IntoEvents(t)|] == (e, timestamp)
  {
    ElapsedTimeTracker(t.events + [(e, timestamp)])
  }

  /** `into_events`. */
  function IntoEvents<E>(t: ElapsedTimeTracker<E>): seq<(E, nat)>
  {
    t.events
  }

  function AcceptAll<E>(t: ElapsedTimeTracker<E>, events: seq<(E, nat)>): ElapsedTimeTracker<E>
    decreases |events|
  {
    if events == [] then t else AcceptAll(Accept(t, events[0].0, events[0].1), events[1..])
  }

  /** A tracker gives its events back exactly in acceptance order. */
  lemma {:induction false} AcceptAllInOrder<E>(t: ElapsedTimeTracker<E>, events: seq<(E, nat)>)
    ensures IntoEvents(AcceptAll(t, events)) == IntoEvents(t) + events
    decreases |events|
  {
    if events == [] {
      assert IntoEvents(t) + events == IntoEvents(t);
    } else {
      var t' := Accept(t, events[0].0, events[0].1);
      AcceptAllInOrder(t', events[1..]);
      assert IntoEvents(t') == IntoEvents(t) + [events[0]];
      assert (IntoEvents(t) + [events[0]]) + events[1..] == IntoEvents(t) + events;
    }
  }

  // ---------------------------------------------------------------------
  // The lookup
  // ---------------------------------------------------------------------

  /** `RecordLookup<E>`: `event_progress` as key order plus map, and `total_runtimes`. */
  datatype RecordLookup<E, F> = RecordLookup(keys: seq<E>, progress: map<E, seq<F>>, totalRuntimes: seq<nat>)

  /** The key order lists each key of the map exactly once. */
  ghost predicate Valid<E, F>(r: RecordLookup<E, F>)
  {
    && Distinct(r.keys)
    && (forall i :: 0 <= i < |r.keys| ==> r.keys[i] in r.progress)
    && (forall e | e in r.progress :: e in r.keys)
  }

  /** The fractions recorded for `e`; none when it is absent. */
  function History<E(==), F>(r: RecordLookup<E, F>, e: E): seq<F>
  {
    if e in r.progress then r.progress[e] else []
  }

  /** `event_progress.entry(e).or_insert_with(Vec::new).push(v)`. */
  function Push<E(==), F>(r: RecordLookup<E, F>, e: E, v: F): (r': RecordLookup<E, F>)
    ensures History(r', e) == History(r, e) + [v]
    ensures r'.progress.Keys == r.progress.Keys + {e}
    ensures forall k | k in r.progress && k != e :: r'.progress[k] == r.progress[k]
    ensures r'.keys == if e in r.progress then r.keys else r.keys + [e]
    ensures r'.totalRuntimes == r.totalRuntimes
    ensures Valid(r) ==> Valid(r')
  {
    var keys := if e in r.progress then r.keys else r.keys + [e];
    RecordLookup(keys, r.progress[e := History(r, e) + [v]], r.totalRuntimes)
  }

  /** The event names of a run, in order. */
  function EventKeys<E>(events: seq<(E, nat)>): (ks: seq<E>)
    ensures |ks| == |events| && forall i :: 0 <= i < |events| ==> ks[i] == events[i].0
  {
    seq(|events|, i requires 0 <= i < |events| => events[i].0)
  }

  /** The progress fractions of the occurrences of `e` in a run, in order. */
  function Fractions<E(==), F>(final: nat, events: seq<(E, nat)>, e: E, fraction: (nat, nat) -> F): seq<F>
    decreases |events|
  {
    if events == [] then []
    else (if events[0].0 == e then [fraction(final, events[0].1)] else []) + Fractions(final, events[1..], e, fraction)
  }

  lemma {:induction false} FractionsSnoc<E, F>(final: nat, events: seq<(E, nat)>, x: (E, nat), e: E, fraction: (nat, nat) -> F)
    ensures Fractions(final, events + [x], e, fraction)
         == Fractions(final, events, e, fraction) + (if x.0 == e then [fraction(final, x.1)] else [])
    decreases |events|
  {
    var last: seq<F> := if x.0 == e then [fraction(final, x.1)] else [];
    if events == [] {
      assert [x][1..] == [];
      assert Fractions<E, F>(final, [], e, fraction) == [];
      assert [] + [x] == [x];
    } else {
      var here: seq<F> := if events[0].0 == e then [fraction(final, events[0].1)] else [];
      assert (events + [x])[1..] == events[1..] + [x];
      FractionsSnoc(final, events[1..], x, e, fraction);
      assert (here + Fractions(final, events[1..], e, fraction)) + last
          == here + (Fractions(final, events[1..], e, fraction) + last);
    }
  }

  /** What the loop of `invert` has built after the events `events`. */
  ghost predicate GroupsRun<E, F>(g: RecordLookup<E, F>, final: nat, events: seq<(E, nat)>, fraction: (nat, nat) -> F)
  {
    && Valid(g)
    && g.keys == Dedup(EventKeys(events))
    && (forall e | e in g.progress :: g.progress[e] == Fractions(final, events, e, fraction))
  }

  /** The loop of `invert` over the first `|events|` events. */
  function Group<E(==), F>(final: nat, events: seq<(E, nat)>, fraction: (nat, nat) -> F): (g: RecordLookup<E, F>)
    ensures GroupsRun(g, final, events, fraction)
    ensures g.totalRuntimes == []
    decreases |events|
  {
    if events == [] then RecordLookup([], map[], [])
    else
      var p, x := events[..|events| - 1], events[|events| - 1];
      var g := Group(final, p, fraction);
      assert events == p + [x];
      GroupStep(g, final, p, x, fraction);
      Push(g, x.0, fraction(final, x.1))
  }

  /** One iteration of the loop of `invert` keeps the grouping exact. */
  lemma GroupStep<E, F>(g: RecordLookup<E, F>, final: nat, p: seq<(E, nat)>, x: (E, nat), fraction: (nat, nat) -> F)
    requires GroupsRun(g, final, p, fraction)
    ensures GroupsRun(Push(g, x.0, fraction(final, x.1)), final, p + [x], fraction)
  {
    var g' := Push(g, x.0, fraction(final, x.1));
    GroupKeysStep(g, p, x, fraction(final, x.1));
    forall e | e in g'.progress
      ensures g'.progress[e] == Fractions(final, p + [x], e, fraction)
    {
      GroupValueStep(g, final, p, x, fraction, e);
    }
  }

  lemma GroupKeysStep<E, F>(g: RecordLookup<E, F>, p: seq<(E, nat)>, x: (E, nat), v: F)
    requires Valid(g) && g.keys == Dedup(EventKeys(p))
    ensures Push(g, x.0, v).keys == Dedup(EventKeys(p + [x]))
  {
    var ks := EventKeys(p + [x]);
    assert ks[..|ks| - 1] == EventKeys(p);
    assert ks[|ks| - 1] == x.0;
    assert x.0 in g.progress <==> x.0 in g.keys;
  }

  lemma GroupValueStep<E, F>(g: RecordLookup<E, F>, final: nat, p: seq<(E, nat)>, x: (E, nat), fraction: (nat, nat) -> F, e: E)
    requires GroupsRun(g, final, p, fraction)
    ensures History(Push(g, x.0, fraction(final, x.1)), e) == Fractions(final, p + [x], e, fraction)
  {
    FractionsSnoc(final, p, x, e, fraction);
    if e !in g.progress {
      assert e !in g.keys;
      DedupMember(EventKeys(p), e);
      FractionsAbsent(final, p, e, fraction);
      assert Fractions(final, p, e, fraction) == [];
    }
  }

  lemma {:induction false} FractionsAbsent<E, F>(final: nat, events: seq<(E, nat)>, e: E, fraction: (nat, nat) -> F)
    requires e !in EventKeys(events)
    ensures Fractions(final, events, e, fraction) == []
    decreases |events|
  {
    if events != [] {
      assert EventKeys(events[1..]) == EventKeys(events)[1..];
      FractionsAbsent(final, events[1..], e, fraction);
    }
  }

  /**
    `RecordLookup::invert`: the events' keys in first-occurrence order, each
    with one fraction per occurrence in order, and the final time as the only
    total runtime.
  */
  function Invert<E(==), F>(final: nat, tracker: ElapsedTimeTracker<E>, fraction: (nat, nat) -> F): (r: RecordLookup<E, F>)
    ensures Valid(r)
    ensures r.keys == Dedup(EventKeys(IntoEvents(tracker)))
    ensures forall e | e in r.progress :: r.progress[e] == Fractions(final, IntoEvents(tracker), e, fraction)
    ensures r.totalRuntimes == [final]
  {
    Group(final, IntoEvents(tracker), fraction).(totalRuntimes := [final])
  }

  /** `extract_progress_history`. */
  function ExtractProgressHistory<E(==), F>(r: RecordLookup<E, F>, e: E): (h: Option<seq<F>>)
    ensures h.Some? <==> e in r.progress
    ensures h.Some? ==> h.value == History(r, e)
  {
    if e in r.progress then Some(r.progress[e]) else None
  }

  /** `extract_runtime_history`. */
  function ExtractRuntimeHistory<E, F>(r: RecordLookup<E, F>): seq<nat>
  {
    r.totalRuntimes
  }

  /** After inverting a run, an event has a history exactly when it occurred, and it is its fractions. */
  lemma ExtractAfterInvert<E, F>(final: nat, tracker: ElapsedTimeTracker<E>, fraction: (nat, nat) -> F, e: E)
    ensures var h := ExtractProgressHistory(Invert(final, tracker, fraction), e);
      && (h.None? <==> forall i :: 0 <= i < |IntoEvents(tracker)| ==> IntoEvents(tracker)[i].0 != e)
      && (h.Some? ==> h.value == Fractions(final, IntoEvents(tracker), e, fraction))
  {
    var ks := EventKeys(IntoEvents(tracker));
    DedupSpec(ks);
    var r := Invert(final, tracker, fraction);
    assert e in r.progress <==> e in r.keys;
    if e in ks {
      var i :| 0 <= i < |ks| && ks[i] == e;
      assert IntoEvents(tracker)[i].0 == e;
    }
  }

  /** An event's history in an inverted run is its fractions, empty when it never occurred. */
  lemma InvertHistory<E, F>(final: nat, tracker: ElapsedTimeTracker<E>, fraction: (nat, nat) -> F, e: E)
    ensures History(Invert(final, tracker, fraction), e) == Fractions(final, IntoEvents(tracker), e, fraction)
  {
    var r := Invert(final, tracker, fraction);
    if e !in r.progress {
      DedupSpec(EventKeys(IntoEvents(tracker)));
      assert e !in r.keys;
      FractionsAbsent(final, IntoEvents(tracker), e, fraction);
    }
  }

  /** The keys of both lookups as `IndexSet`s collected from `self`'s keys then `other`'s. */
  function MergedKeys<E(==), F>(a: RecordLookup<E, F>, b: RecordLookup<E, F>): seq<E>
  {
    Dedup(a.keys + b.keys)
  }

  /**
    `merge`: every key of either side, `self`'s first; each key's fractions
    are `self`'s followed by `other`'s (a missing side contributing none);
    the runtimes are concatenated.
  */
  function Merge<E(==), F>(a: RecordLookup<E, F>, b: RecordLookup<E, F>): (r: RecordLookup<E, F>)
    requires Valid(a) && Valid(b)
    ensures Valid(r)
    ensures |a.keys| <= |r.keys| && r.keys[..|a.keys|] == a.keys
    ensures forall i, j :: 0 <= i < j < |r.keys| ==> FirstIndex(a.keys + b.keys, r.keys[i]) < FirstIndex(a.keys + b.keys, r.keys[j])
    ensures r.progress.Keys == a.progress.Keys + b.progress.Keys
    ensures forall e | e in r.progress :: r.progress[e] == History(a, e) + History(b, e)
    ensures r.totalRuntimes == a.totalRuntimes + b.totalRuntimes
  {
    var keys := MergedKeys(a, b);
    MergedKeysSpec(a, b);
    RecordLookup(keys, map e | e in keys :: History(a, e) + History(b, e), a.totalRuntimes + b.totalRuntimes)
  }

  /**
    The merged key order: no repeats, exactly the keys of either side,
    `self`'s keys first and in their order, and every key placed where it
    first occurs in `self`'s keys followed by `other`'s.
  */
  lemma MergedKeysSpec<E, F>(a: RecordLookup<E, F>, b: RecordLookup<E, F>)
    requires Valid(a) && Valid(b)
    ensures var ks := MergedKeys(a, b);
      && Distinct(ks)
      && (forall e | e in ks :: e in a.progress || e in b.progress)
      && (forall e | e in a.progress.Keys + b.progress.Keys :: e in ks)
      && |a.keys| <= |ks| && ks[..|a.keys|] == a.keys
      && (forall i, j :: 0 <= i < j < |ks| ==> FirstIndex(a.keys + b.keys, ks[i]) < FirstIndex(a.keys + b.keys, ks[j]))
  {
    DedupDistinct(a.keys + b.keys);
    DedupOrder(a.keys + b.keys);
    MergedKeysMembers(a, b);
    DedupPrefix(a.keys, b.keys);
    DedupOfDistinct(a.keys);
  }

  lemma MergedKeysMembers<E, F>(a: RecordLookup<E, F>, b: RecordLookup<E, F>)
    requires Valid(a) && Valid(b)
    ensures var ks := MergedKeys(a, b);
      && (forall e | e in ks :: e in a.progress || e in b.progress)
      && (forall e | e in a.progress.Keys + b.progress.Keys :: e in ks)
  {
    var ks := MergedKeys(a, b);
    forall e | e in ks
      ensures e in a.progress || e in b.progress
    {
      DedupMember(a.keys + b.keys, e);
      ConcatMember(a.keys, b.keys, e);
    }
    forall e | e in a.progress.Keys + b.progress.Keys
      ensures e in ks
    {
      DedupMember(a.keys + b.keys, e);
      ConcatMember(a.keys, b.keys, e);
    }
  }

  lemma ConcatMember<E>(xs: seq<E>, ys: seq<E>, e: E)
    ensures e in xs + ys <==> e in xs || e in ys
  {
    if e in xs + ys {
      var i :| 0 <= i < |xs + ys| && (xs + ys)[i] == e;
      if i >= |xs| {
        assert ys[i - |xs|] == e;
      }
    }
    if e in ys {
      var i :| 0 <= i < |ys| && ys[i] == e;
      assert (xs + ys)[|xs| + i] == e;
    }
  }

  function Empty<E, F>(): (r: RecordLookup<E, F>)
    ensures Valid(r) && r.progress == map[]
  {
    RecordLookup([], map[], [])
  }

  lemma DistinctKeysMergeRight<E, F>(a: RecordLookup<E, F>)
    requires Valid(a)
    ensures MergedKeys(a, Empty()) == a.keys
  {
    assert a.keys + Empty<E, F>().keys == a.keys;
    DedupOfDistinct(a.keys);
  }

  lemma DistinctKeysMergeLeft<E, F>(a: RecordLookup<E, F>)
    requires Valid(a)
    ensures MergedKeys(Empty(), a) == a.keys
  {
    assert Empty<E, F>().keys + a.keys == a.keys;
    DedupOfDistinct(a.keys);
  }

  /** Merging an empty lookup into a lookup changes nothing. */
  lemma MergeEmptyRight<E, F>(a: RecordLookup<E, F>)
    requires Valid(a)
    ensures Merge(a, Empty()) == a
  {
    var e0: RecordLookup<E, F> := Empty();
    var r := Merge(a, e0);
    assert r.keys == a.keys by {
      DistinctKeysMergeRight(a);
    }
    assert r.progress == a.progress by {
      MergeEmptyRightProgress(a);
    }
    assert r.totalRuntimes == a.totalRuntimes + [];
  }

  lemma MergeEmptyRightProgress<E, F>(a: RecordLookup<E, F>)
    requires Valid(a)
    ensures Merge(a, Empty()).progress == a.progress
  {
    var e0: RecordLookup<E, F> := Empty();
    var m := Merge(a, e0).progress;
    assert m.Keys == a.progress.Keys by {
      assert m.Keys == a.progress.Keys + e0.progress.Keys;
    }
    assert forall e | e in m :: m[e] == History(a, e) + History(e0, e);
    assert forall e | e in m :: History(e0, e) == [];
    AppendNothing(m, a.progress);
  }

  /** Two maps with the same keys whose values differ by an appended or prepended empty list are equal. */
  lemma AppendNothing<E, F>(m: map<E, seq<F>>, p: map<E, seq<F>>)
    requires m.Keys == p.Keys
    requires forall e | e in m :: m[e] == p[e] + [] || m[e] == [] + p[e]
    ensures m == p
  {
    forall e | e in m
      ensures m[e] == p[e]
    {
      assert p[e] + [] == p[e] && [] + p[e] == p[e];
    }
  }


  /** Merging a lookup into an empty lookup gives that lookup. */
  lemma MergeEmptyLeft<E, F>(a: RecordLookup<E, F>)
    requires Valid(a)
    ensures Merge(Empty(), a) == a
  {
    var e0: RecordLookup<E, F> := Empty();
    var r := Merge(e0, a);
    assert r.keys == a.keys by {
      DistinctKeysMergeLeft(a);
    }
    assert r.progress == a.progress by {
      MergeEmptyLeftProgress(a);
    }
    assert r.totalRuntimes == [] + a.totalRuntimes;
  }

  lemma MergeEmptyLeftProgress<E, F>(a: RecordLookup<E, F>)
    requires Valid(a)
    ensures Merge(Empty(), a).progress == a.progress
  {
    var e0: RecordLookup<E, F> := Empty();
    var m := Merge(e0, a).progress;
    assert m.Keys == a.progress.Keys by {
      assert m.Keys == e0.progress.Keys + a.progress.Keys;
    }
    assert forall e | e in m :: m[e] == History(e0, e) + History(a, e);
    assert forall e | e in m :: History(e0, e) == [];
    AppendNothing(m, a.progress);
  }


  /**
    Merging the lookups of two runs: each event's history is the first
    run's fractions followed by the second's.
  */
  lemma {:induction false} MergeRuns<E, F>(final1: nat, t1: ElapsedTimeTracker<E>, final2: nat, t2: ElapsedTimeTracker<E>, fraction: (nat, nat) -> F, e: E)
    ensures var r := Merge(Invert(final1, t1, fraction), Invert(final2, t2, fraction));
      e in r.progress ==> r.progress[e] == Fractions(final1, IntoEvents(t1), e, fraction) + Fractions(final2, IntoEvents(t2), e, fraction)
  {
    var a, b := Invert(final1, t1, fraction), Invert(final2, t2, fraction);
    InvertHistory(final1, t1, fraction, e);
    InvertHistory(final2, t2, fraction, e);
    MergeHistory(a, b, e, Fractions(final1, IntoEvents(t1), e, fraction), Fractions(final2, IntoEvents(t2), e, fraction));
  }

  /** The runtime history of two merged runs lists their final times, in merge order. */
  lemma {:induction false} MergeRunsRuntimes<E, F>(final1: nat, t1: ElapsedTimeTracker<E>, final2: nat, t2: ElapsedTimeTracker<E>, fraction: (nat, nat) -> F)
    ensures ExtractRuntimeHistory(Merge(Invert(final1, t1, fraction), Invert(final2, t2, fraction))) == [final1, final2]
  {
    MergeSingleRuntimes(Invert(final1, t1, fraction), Invert(final2, t2, fraction), final1, final2);
  }

  lemma MergeSingleRuntimes<E, F>(a: RecordLookup<E, F>, b: RecordLookup<E, F>, x: nat, y: nat)
    requires Valid(a) && Valid(b)
    requires a.totalRuntimes == [x] && b.totalRuntimes == [y]
    ensures ExtractRuntimeHistory(Merge(a, b)) == [x, y]
  {
    assert [x] + [y] == [x, y];
  }

  lemma MergeHistory<E, F>(a: RecordLookup<E, F>, b: RecordLookup<E, F>, e: E, ha: seq<F>, hb: seq<F>)
    requires Valid(a) && Valid(b)
    requires History(a, e) == ha && History(b, e) == hb
    ensures e in Merge(a, b).progress ==> Merge(a, b).progress[e] == ha + hb
  {
  }
}
