/**
  The state-coordination cell `StateVar<T>` of coroutines/src/lib.rs, modelled
  sequentially.

  The mutex-protected value is `state`; the condition variable is reduced to
  the number of `notify_all` broadcasts made so far. While a waiter has
  released the lock inside `cvar.wait`, other threads may run: each such run
  is a `Peer` step that may change the context shared with the action (the
  I/O object, the other cell, ...) and stores a new state before broadcasting.
  A finite sequence of peer steps stands for what other threads do; when it is
  exhausted and the waiter still does not see its target, it is `Waiting`.
*/
module StateVar {
  import opened Wrappers

  datatype StateVar<S> = StateVar(state: S, broadcasts: nat)

  /** `StateVar::new`. */
  function New<S>(value: S): (sv: StateVar<S>)
    ensures sv.state == value && sv.broadcasts == 0
  {
    StateVar(value, 0)
  }

  /** `notify_all_of_new_state(f)`: store `f(old)` and wake every waiter. */
  function NotifyAllOfNewState<S>(sv: StateVar<S>, f: S -> S): (r: StateVar<S>)
    ensures r.state == f(sv.state)
    ensures r.broadcasts == sv.broadcasts + 1
  {
    StateVar(f(sv.state), sv.broadcasts + 1)
  }

  /** `notify_all_of_new_state` with a transition whose result is already computed. */
  function NotifyWith<S>(sv: StateVar<S>, next: S): (r: StateVar<S>)
    ensures r == NotifyAllOfNewState(sv, _ => next)
  {
    StateVar(next, sv.broadcasts + 1)
  }

  /** What another thread does while the waiter sleeps: change the shared context, store a state, broadcast. */
  type Peer<!C, !S> = (C, S) -> (C, S)

  datatype WaitOutcome<C, S, E> =
    | Returned(ctx: C, sv: StateVar<S>, result: Result<Unit, E>, runs: nat)
    | Waiting(ctx: C, sv: StateVar<S>, runs: nat)
  {
    /** Both constructors record how many times the action ran. */
    function Runs(): nat
    {
      match this
      case Returned(_, _, _, n) => n
      case Waiting(_, _, n) => n
    }
  }

  /**
    `wait_for_slot_to_completely_execute(run_at_state, f)`: if the state is
    already `target`, run the action at once; then, while the state differs
    from `target`, wait for it to become `target` and run the action again.
    An action's `Ok(s)` is stored; an `Err` is returned without storing.
  */
  function WaitForSlot<C, S(==), E>(ctx: C, sv: StateVar<S>, target: S, action: C -> (C, Result<S, E>), peers: seq<Peer<C, S>>): (r: WaitOutcome<C, S, E>)
    ensures r.Returned? ==> r.sv.state == target
    ensures r.Waiting? ==> r.sv.state != target
    ensures r.Runs() <= |peers| + 1
  {
    if sv.state == target then RunAction(ctx, sv, target, action, peers)
    else AwaitTarget(ctx, sv, target, action, peers)
  }

  /** The state is `target`: run the action once and continue the loop on a non-target result. */
  function RunAction<C, S(==), E>(ctx: C, sv: StateVar<S>, target: S, action: C -> (C, Result<S, E>), peers: seq<Peer<C, S>>): (r: WaitOutcome<C, S, E>)
    requires sv.state == target
    ensures r.Returned? ==> r.sv.state == target
    ensures r.Waiting? ==> r.sv.state != target
    ensures 1 <= r.Runs() <= |peers| + 1
    decreases |peers|, 1
  {
    var (ctx', res) := action(ctx);
    match res
    case Err(e) => Returned(ctx', sv, Err(e), 1)
    case Ok(s) =>
      var sv' := sv.(state := s);
      if s == target then Returned(ctx', sv', Ok(Unit), 1)
      else
        var rest := AwaitTarget(ctx', sv', target, action, peers);
        match rest
        case Returned(c, v, res', n) => Returned(c, v, res', n + 1)
        case Waiting(c, v, n) => Waiting(c, v, n + 1)
  }

  /** The state differs from `target`: sleep until a peer stores `target`, then run the action. */
  function AwaitTarget<C, S(==), E>(ctx: C, sv: StateVar<S>, target: S, action: C -> (C, Result<S, E>), peers: seq<Peer<C, S>>): (r: WaitOutcome<C, S, E>)
    requires sv.state != target
    ensures r.Returned? ==> r.sv.state == target
    ensures r.Waiting? ==> r.sv.state != target
    ensures r.Runs() <= |peers|
    decreases |peers|, 0
  {
    if peers == [] then Waiting(ctx, sv, 0)
    else
      var (ctx', s) := peers[0](ctx, sv.state);
      var sv' := NotifyWith(sv, s);
      if s == target then RunAction(ctx', sv', target, action, peers[1..])
      else AwaitTarget(ctx', sv', target, action, peers[1..])
  }

  /** `post` holds of every context the action leaves behind when it reports `target`. */
  ghost predicate ConvergenceEstablishes<C(!new), S, E>(action: C -> (C, Result<S, E>), target: S, post: C -> bool)
  {
    forall c :: action(c).1 == Ok(target) ==> post(action(c).0)
  }

  /**
    An `Ok` return happens only right after the action itself reported
    `target`; so whatever such a report guarantees holds on return.
  */
  lemma {:induction false} OkOnlyAfterConvergence<C(!new), S, E>(ctx: C, sv: StateVar<S>, target: S, action: C -> (C, Result<S, E>), peers: seq<Peer<C, S>>, post: C -> bool)
    requires ConvergenceEstablishes(action, target, post)
    ensures var r := WaitForSlot(ctx, sv, target, action, peers);
      r.Returned? && r.result.Ok? ==> post(r.ctx)
  {
    if sv.state == target {
      RunActionConvergence(ctx, sv, target, action, peers, post);
    } else {
      AwaitTargetConvergence(ctx, sv, target, action, peers, post);
    }
  }

  lemma {:induction false} RunActionConvergence<C(!new), S, E>(ctx: C, sv: StateVar<S>, target: S, action: C -> (C, Result<S, E>), peers: seq<Peer<C, S>>, post: C -> bool)
    requires sv.state == target
    requires ConvergenceEstablishes(action, target, post)
    ensures var r := RunAction(ctx, sv, target, action, peers);
      r.Returned? && r.result.Ok? ==> post(r.ctx)
    decreases |peers|, 1
  {
    var (ctx', res) := action(ctx);
    if res.Ok? && res.value != target {
      AwaitTargetConvergence(ctx', sv.(state := res.value), target, action, peers, post);
    }
  }

  lemma {:induction false} AwaitTargetConvergence<C(!new), S, E>(ctx: C, sv: StateVar<S>, target: S, action: C -> (C, Result<S, E>), peers: seq<Peer<C, S>>, post: C -> bool)
    requires sv.state != target
    requires ConvergenceEstablishes(action, target, post)
    ensures var r := AwaitTarget(ctx, sv, target, action, peers);
      r.Returned? && r.result.Ok? ==> post(r.ctx)
    decreases |peers|, 0
  {
    if peers != [] {
      var (ctx', s) := peers[0](ctx, sv.state);
      if s == target {
        RunActionConvergence(ctx', NotifyWith(sv, s), target, action, peers[1..], post);
      } else {
        AwaitTargetConvergence(ctx', NotifyWith(sv, s), target, action, peers[1..], post);
      }
    }
  }

  /** No peer step ever stores `target`. */
  ghost predicate PeersAvoid<C(!new), S(!new)>(peers: seq<Peer<C, S>>, target: S)
  {
    forall i, c, s :: 0 <= i < |peers| ==> peers[i](c, s).1 != target
  }

  /**
    If the state is not `target` on entry and no other thread ever stores
    `target`, the action never runs and the call is still waiting.
  */
  lemma {:induction false} NeverRunsUnlessTargetStored<C(!new), S(!new), E>(ctx: C, sv: StateVar<S>, target: S, action: C -> (C, Result<S, E>), peers: seq<Peer<C, S>>)
    requires sv.state != target
    requires PeersAvoid(peers, target)
    ensures var r := WaitForSlot(ctx, sv, target, action, peers);
      r.Waiting? && r.runs == 0
    decreases |peers|
  {
    if peers != [] {
      var (ctx', s) := peers[0](ctx, sv.state);
      assert s != target;
      assert PeersAvoid(peers[1..], target) by {
        forall i, c, s' | 0 <= i < |peers[1..]|
          ensures peers[1..][i](c, s').1 != target
        {
          assert peers[1..][i] == peers[i + 1];
        }
      }
      NeverRunsUnlessTargetStored(ctx', NotifyWith(sv, s), target, action, peers[1..]);
    }
  }

  /** Starting at `target` with an action that converges at once: one run, no waiting, `Ok`. */
  lemma ImmediateConvergence<C, S, E>(ctx: C, sv: StateVar<S>, target: S, action: C -> (C, Result<S, E>), peers: seq<Peer<C, S>>)
    requires sv.state == target
    requires action(ctx).1 == Ok(target)
    ensures WaitForSlot(ctx, sv, target, action, peers) == Returned(action(ctx).0, sv, Ok(Unit), 1)
  {
  }

  /** An action error is returned at once and the state keeps the value the action was started in. */
  lemma ErrorPropagatesWithoutStoring<C, S, E>(ctx: C, sv: StateVar<S>, target: S, action: C -> (C, Result<S, E>), peers: seq<Peer<C, S>>)
    requires sv.state == target
    requires action(ctx).1.Err?
    ensures WaitForSlot(ctx, sv, target, action, peers) == Returned(action(ctx).0, sv, Err(action(ctx).1.error), 1)
  {
  }
}
