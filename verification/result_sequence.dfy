/**
  The `ResultSequence` extension of thrift-ffi/src/util.rs: run a fallible
  function over every item of an iterator and keep ALL the outcomes, the
  successes in one list and the errors in another, instead of stopping at the
  first error.

  Both operations are the source's left fold with a pair of accumulators. The
  `Fn` version is a plain function; the `FnMut` version threads the
  closure's captured state `S` from one item to the next.
*/
module ResultSequence {
  import opened Wrappers

  // ---------------------------------------------------------------------
  // Reference definitions
  // ---------------------------------------------------------------------

  /** The successes of a list of outcomes, in order. */
  function Oks<R, E>(rs: seq<Result<R, E>>): seq<R>
  {
    if rs == [] then []
    else (if rs[0].Ok? then [rs[0].value] else []) + Oks(rs[1..])
  }

  /** The errors of a list of outcomes, in order. */
  function Errs<R, E>(rs: seq<Result<R, E>>): seq<E>
  {
    if rs == [] then []
    else (if rs[0].Err? then [rs[0].error] else []) + Errs(rs[1..])
  }

  /** The outcome of `f` on every item. */
  function Outcomes<T, R, E>(xs: seq<T>, f: T -> Result<R, E>): (rs: seq<Result<R, E>>)
    ensures |rs| == |xs|
    ensures forall i :: 0 <= i < |xs| ==> rs[i] == f(xs[i])
  {
    seq(|xs|, i requires 0 <= i < |xs| => f(xs[i]))
  }

  /** The outcomes of a stateful closure, the state passed from each call to the next. */
  function OutcomesMut<S, T, R, E>(s: S, xs: seq<T>, f: (S, T) -> (S, Result<R, E>)): (r: (S, seq<Result<R, E>>))
    ensures |r.1| == |xs|
    decreases |xs|
  {
    if xs == [] then (s, [])
    else
      var (s', first) := f(s, xs[0]);
      var (final, rest) := OutcomesMut(s', xs[1..], f);
      (final, [first] + rest)
  }

  // ---------------------------------------------------------------------
  // The folds
  // ---------------------------------------------------------------------

  /** The fold step: push an `Ok` onto the first list, an `Err` onto the second. */
  function Push<R, E>(acc: (seq<R>, seq<E>), res: Result<R, E>): (seq<R>, seq<E>)
  {
    match res
    case Ok(v) => (acc.0 + [v], acc.1)
    case Err(e) => (acc.0, acc.1 + [e])
  }

  function SplitFrom<T, R, E>(acc: (seq<R>, seq<E>), xs: seq<T>, f: T -> Result<R, E>): (seq<R>, seq<E>)
    decreases |xs|
  {
    if xs == [] then acc else SplitFrom(Push(acc, f(xs[0])), xs[1..], f)
  }

  /** `split_result_sequence`. */
  function Split<T, R, E>(xs: seq<T>, f: T -> Result<R, E>): (r: (seq<R>, seq<E>))
    ensures r.0 == Oks(Outcomes(xs, f)) && r.1 == Errs(Outcomes(xs, f))
    ensures |r.0| + |r.1| == |xs|
  {
    SplitFromCharacterized(([], []), xs, f);
    OksErrsCount(Outcomes(xs, f));
    SplitFrom(([], []), xs, f)
  }

  function SplitMutFrom<S, T, R, E>(s: S, acc: (seq<R>, seq<E>), xs: seq<T>, f: (S, T) -> (S, Result<R, E>)): (S, (seq<R>, seq<E>))
    decreases |xs|
  {
    if xs == [] then (s, acc)
    else
      var (s', res) := f(s, xs[0]);
      SplitMutFrom(s', Push(acc, res), xs[1..], f)
  }

  /** `split_result_sequence_mut`; also returns the closure's final captured state. */
  function SplitMut<S, T, R, E>(s: S, xs: seq<T>, f: (S, T) -> (S, Result<R, E>)): (r: (S, (seq<R>, seq<E>)))
    ensures var (final, rs) := OutcomesMut(s, xs, f);
      r == (final, (Oks(rs), Errs(rs)))
    ensures |r.1.0| + |r.1.1| == |xs|
  {
    SplitMutFromCharacterized(s, ([], []), xs, f);
    var rs := OutcomesMut(s, xs, f).1;
    OksErrsCount(rs);
    assert [] + Oks(rs) == Oks(rs) && [] + Errs(rs) == Errs(rs);
    SplitMutFrom(s, ([], []), xs, f)
  }

  // ---------------------------------------------------------------------
  // The folds agree with the reference definitions
  // ---------------------------------------------------------------------

  /** The filters split over a first outcome. */
  lemma OksCons<R, E>(r: Result<R, E>, rest: seq<Result<R, E>>)
    ensures Oks([r] + rest) == Oks([r]) + Oks(rest)
    ensures Errs([r] + rest) == Errs([r]) + Errs(rest)
  {
    assert ([r] + rest)[1..] == rest;
    SingletonFilters(r);
  }

  lemma {:induction false} OksAppend<R, E>(rs: seq<Result<R, E>>, ts: seq<Result<R, E>>)
    ensures Oks(rs + ts) == Oks(rs) + Oks(ts)
    ensures Errs(rs + ts) == Errs(rs) + Errs(ts)
  {
    if rs != [] {
      var r, rest := rs[0], rs[1..];
      assert rs == [r] + rest;
      assert rs + ts == [r] + (rest + ts);
      OksAppend(rest, ts);
      OksCons(r, rest);
      OksCons(r, rest + ts);
      calc {
        Oks(rs + ts);
        Oks([r] + (rest + ts));
        Oks([r]) + (Oks(rest) + Oks(ts));
        (Oks([r]) + Oks(rest)) + Oks(ts);
        Oks(rs) + Oks(ts);
      }
      calc {
        Errs(rs + ts);
        Errs([r] + (rest + ts));
        Errs([r]) + (Errs(rest) + Errs(ts));
        (Errs([r]) + Errs(rest)) + Errs(ts);
        Errs(rs) + Errs(ts);
      }
    } else {
      assert rs + ts == ts;
      assert Oks(rs) == [] && Errs(rs) == [];
    }
  }

  lemma PushIsAppend<R, E>(acc: (seq<R>, seq<E>), r: Result<R, E>)
    ensures Push(acc, r) == (acc.0 + Oks([r]), acc.1 + Errs([r]))
  {
    SingletonFilters(r);
    if r.Ok? {
      assert acc.1 + [] == acc.1;
    } else {
      assert acc.0 + [] == acc.0;
    }
  }

  lemma SingletonFilters<R, E>(r: Result<R, E>)
    ensures Oks([r]) == if r.Ok? then [r.value] else []
    ensures Errs([r]) == if r.Err? then [r.error] else []
  {
    assert [r][1..] == [];
    assert Oks<R, E>([]) == [] && Errs<R, E>([]) == [];
  }

  /** Every outcome lands in exactly one of the two lists. */
  lemma {:induction false} OksErrsCount<R, E>(rs: seq<Result<R, E>>)
    ensures |Oks(rs)| + |Errs(rs)| == |rs|
  {
    if rs != [] {
      OksErrsCount(rs[1..]);
    }
  }

  lemma {:induction false} SplitFromCharacterized<T, R, E>(acc: (seq<R>, seq<E>), xs: seq<T>, f: T -> Result<R, E>)
    ensures SplitFrom(acc, xs, f) == (acc.0 + Oks(Outcomes(xs, f)), acc.1 + Errs(Outcomes(xs, f)))
    decreases |xs|
  {
    var rs := Outcomes(xs, f);
    if xs == [] {
      assert rs == [];
      assert acc.0 + Oks(rs) == acc.0 && acc.1 + Errs(rs) == acc.1;
    } else {
      assert Outcomes(xs[1..], f) == rs[1..];
      assert rs == [f(xs[0])] + rs[1..];
      SplitFromCharacterized(Push(acc, f(xs[0])), xs[1..], f);
      OksCons(f(xs[0]), rs[1..]);
      PushIsAppend(acc, f(xs[0]));
      assert (acc.0 + Oks([f(xs[0])])) + Oks(rs[1..]) == acc.0 + (Oks([f(xs[0])]) + Oks(rs[1..]));
      assert (acc.1 + Errs([f(xs[0])])) + Errs(rs[1..]) == acc.1 + (Errs([f(xs[0])]) + Errs(rs[1..]));
    }
  }

  lemma {:induction false} SplitMutFromCharacterized<S, T, R, E>(s: S, acc: (seq<R>, seq<E>), xs: seq<T>, f: (S, T) -> (S, Result<R, E>))
    ensures var (final, rs) := OutcomesMut(s, xs, f);
      SplitMutFrom(s, acc, xs, f) == (final, (acc.0 + Oks(rs), acc.1 + Errs(rs)))
    decreases |xs|
  {
    if xs != [] {
      var (s', res) := f(s, xs[0]);
      SplitMutFromCharacterized(s', Push(acc, res), xs[1..], f);
      var rest := OutcomesMut(s', xs[1..], f).1;
      OksCons(res, rest);
      PushIsAppend(acc, res);
      assert (acc.0 + Oks([res])) + Oks(rest) == acc.0 + (Oks([res]) + Oks(rest));
      assert (acc.1 + Errs([res])) + Errs(rest) == acc.1 + (Errs([res]) + Errs(rest));
    } else {
      assert acc.0 + [] == acc.0 && acc.1 + [] == acc.1;
    }
  }

  // ---------------------------------------------------------------------
  // Consequences
  // ---------------------------------------------------------------------

  /** Every outcome is a success. */
  predicate AllOk<R, E>(rs: seq<Result<R, E>>)
  {
    forall i :: 0 <= i < |rs| ==> rs[i].Ok?
  }

  /** Every outcome is a failure. */
  predicate AllErr<R, E>(rs: seq<Result<R, E>>)
  {
    forall i :: 0 <= i < |rs| ==> rs[i].Err?
  }

  /** No error is collected exactly when every item succeeds. */
  lemma {:induction false} ErrsEmptyIffAllOk<R, E>(rs: seq<Result<R, E>>)
    ensures Errs(rs) == [] <==> AllOk(rs)
    ensures Oks(rs) == [] <==> AllErr(rs)
  {
    if rs != [] {
      ErrsEmptyIffAllOk(rs[1..]);
      assert forall i :: 1 <= i < |rs| ==> rs[i] == rs[1..][i - 1];
    }
  }

  /** When every item succeeds the first list is the map of `f` over the items. */
  lemma {:induction false} AllOkIsMap<T, R, E>(xs: seq<T>, f: T -> Result<R, E>)
    requires forall i :: 0 <= i < |xs| ==> f(xs[i]).Ok?
    ensures Split(xs, f).0 == seq(|xs|, i requires 0 <= i < |xs| => f(xs[i]).value)
    ensures Split(xs, f).1 == []
    decreases |xs|
  {
    if xs != [] {
      AllOkIsMap(xs[1..], f);
      assert Outcomes(xs[1..], f) == Outcomes(xs, f)[1..];
    }
  }

  /** A closure that ignores its captured state gives the same lists as the `Fn` version. */
  lemma {:induction false} StatelessMutIsSplit<S, T, R, E>(s: S, xs: seq<T>, g: T -> Result<R, E>, f: (S, T) -> (S, Result<R, E>))
    requires forall t :: f(s, t) == (s, g(t))
    ensures SplitMut(s, xs, f) == (s, Split(xs, g))
    decreases |xs|
  {
    assert OutcomesMut(s, xs, f) == (s, Outcomes(xs, g)) by {
      StatelessOutcomes(s, xs, g, f);
    }
  }

  lemma {:induction false} StatelessOutcomes<S, T, R, E>(s: S, xs: seq<T>, g: T -> Result<R, E>, f: (S, T) -> (S, Result<R, E>))
    requires forall t :: f(s, t) == (s, g(t))
    ensures OutcomesMut(s, xs, f) == (s, Outcomes(xs, g))
    decreases |xs|
  {
    if xs != [] {
      StatelessOutcomes(s, xs[1..], g, f);
      assert Outcomes(xs, g) == [g(xs[0])] + Outcomes(xs[1..], g);
    }
  }

  /** Splitting a concatenation concatenates the splits. */
  lemma SplitAppend<T, R, E>(xs: seq<T>, ys: seq<T>, f: T -> Result<R, E>)
    ensures Split(xs + ys, f) == (Split(xs, f).0 + Split(ys, f).0, Split(xs, f).1 + Split(ys, f).1)
  {
    assert Outcomes(xs + ys, f) == Outcomes(xs, f) + Outcomes(ys, f);
    OksAppend(Outcomes(xs, f), Outcomes(ys, f));
  }
}

/**
  The older `ResultSequence` / `ConsumedSequence` of old/thrift-ffi/src/util.rs.
  Its `Fn` version passes items by reference; its `FnMut` version lets the
  closure mutate each item in place, but the iterator owns the items and the
  mutated copies are dropped by the fold.
*/
module ConsumedSequence {
  import opened Wrappers
  import RS = ResultSequence

  /** `split_result_sequence` over borrowed items. */
  function SplitByRef<T, R, E>(xs: seq<T>, f: T -> Result<R, E>): (r: (seq<R>, seq<E>))
    ensures r.0 == RS.Oks(RS.Outcomes(xs, f)) && r.1 == RS.Errs(RS.Outcomes(xs, f))
  {
    RS.Split(xs, f)
  }

  /** The closure of `split_result_sequence_mut`: new captured state, the mutated item, the outcome. */
  type MutClosure<!S, !T, R, E> = (S, T) -> (S, T, Result<R, E>)

  /** The closure with its item mutation forgotten. */
  function Forget<S, T, R, E>(f: MutClosure<S, T, R, E>): (S, T) -> (S, Result<R, E>)
  {
    (s, t) => var (s', _, res) := f(s, t); (s', res)
  }

  function SplitMutFrom<S, T, R, E>(s: S, acc: (seq<R>, seq<E>), xs: seq<T>, f: MutClosure<S, T, R, E>): (S, (seq<R>, seq<E>))
    decreases |xs|
  {
    if xs == [] then (s, acc)
    else
      var (s', _, res) := f(s, xs[0]);
      SplitMutFrom(s', RS.Push(acc, res), xs[1..], f)
  }

  /** `split_result_sequence_mut` with `&mut` items: the item mutations never reach the result. */
  function SplitMutByRef<S, T, R, E>(s: S, xs: seq<T>, f: MutClosure<S, T, R, E>): (r: (S, (seq<R>, seq<E>)))
    ensures r == RS.SplitMut(s, xs, Forget(f))
  {
    SplitMutAgrees(s, ([], []), xs, f);
    SplitMutFrom(s, ([], []), xs, f)
  }

  lemma {:induction false} SplitMutAgrees<S, T, R, E>(s: S, acc: (seq<R>, seq<E>), xs: seq<T>, f: MutClosure<S, T, R, E>)
    ensures SplitMutFrom(s, acc, xs, f) == RS.SplitMutFrom(s, acc, xs, Forget(f))
    decreases |xs|
  {
    if xs != [] {
      var (s', _, res) := f(s, xs[0]);
      assert Forget(f)(s, xs[0]) == (s', res);
      SplitMutAgrees(s', RS.Push(acc, res), xs[1..], f);
    }
  }

  /**
    `handle_split_result_sequence`: `Ok` when every call succeeds, otherwise
    an error carrying every collected error in order (the source renders them
    into one message, one per line).
  */
  function HandleSplit<S, T, E>(s: S, xs: seq<T>, f: MutClosure<S, T, Unit, E>): (r: Result<Unit, seq<E>>)
    ensures var rs := RS.OutcomesMut(s, xs, Forget(f)).1;
      && (r.Ok? <==> RS.AllOk(rs))
      && (r.Err? ==> r.error == RS.Errs(rs) && |r.error| > 0)
  {
    var errors := SplitMutByRef(s, xs, f).1.1;
    var rs := RS.OutcomesMut(s, xs, Forget(f)).1;
    assert errors == RS.Errs(rs);
    RS.ErrsEmptyIffAllOk(rs);
    if errors == [] then Ok(Unit) else Err(errors)
  }
}
