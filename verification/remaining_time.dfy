/**
  The event log of src/record.rs: `RemainingTimeInverter` groups the
  timestamps (time since the start of the run) of every intermediate event,
  and `TimeLookup::invert` turns each into the time that remained until the
  final event.

  Durations are whole numbers of a fixed unit. `Duration` subtraction panics
  when the result would be negative; that panic is the `Err` outcome of
  `Invert`. The hash map's iteration order only decides which underflowing
  timestamp panics first, so the error carries no detail.
*/
module RemainingTime {
  import opened Wrappers

  /** `RemainingTimeInverter<E>`: event -> timestamps from the start, in acceptance order. */
  datatype Inverter<E> = Inverter(eventsFromStart: map<E, seq<nat>>)

  /** `TimeLookup<E>`: event -> times remaining until the end. */
  datatype TimeLookup<E> = TimeLookup(eventsFromEnd: map<E, seq<nat>>)

  /** The panic of `Duration`'s `-` on a timestamp later than the final one. */
  datatype Underflow = DurationUnderflow

  /** The timestamps recorded for `e`; none when `e` was never accepted. */
  function Timestamps<E>(inv: Inverter<E>, e: E): seq<nat>
  {
    if e in inv.eventsFromStart then inv.eventsFromStart[e] else []
  }

  /** `RemainingTimeInverter::new`. */
  function New<E(!new)>(): (inv: Inverter<E>)
    ensures forall e :: Timestamps(inv, e) == [] && e !in inv.eventsFromStart
  {
    Inverter(map[])
  }

  /** `accept`: append `t` to the list of `e`, creating it on first use. */
  function Accept<E(!new)>(inv: Inverter<E>, e: E, t: nat): (r: Inverter<E>)
    ensures Timestamps(r, e) == Timestamps(inv, e) + [t]
    ensures forall e' :: e' != e ==> Timestamps(r, e') == Timestamps(inv, e')
    ensures r.eventsFromStart.Keys == inv.eventsFromStart.Keys + {e}
  {
    Inverter(inv.eventsFromStart[e := Timestamps(inv, e) + [t]])
  }

  /** A run's intermediate events, accepted one after another. */
  function AcceptAll<E(!new)>(inv: Inverter<E>, events: seq<(E, nat)>): Inverter<E>
    decreases |events|
  {
    if events == [] then inv
    else AcceptAll(Accept(inv, events[0].0, events[0].1), events[1..])
  }

  /** The timestamps of the occurrences of `e` in a run, in order. */
  function TimesOf<E(==)>(events: seq<(E, nat)>, e: E): seq<nat>
  {
    if events == [] then []
    else (if events[0].0 == e then [events[0].1] else []) + TimesOf(events[1..], e)
  }

  /** The events that occur in a run. */
  function EventSet<E>(events: seq<(E, nat)>): set<E>
  {
    set i | 0 <= i < |events| :: events[i].0
  }

  /** One `accept` extends the list of `e` by the new timestamp exactly when it is for `e`. */
  lemma AcceptStep<E(!new)>(inv: Inverter<E>, x: E, t: nat, e: E)
    ensures Timestamps(Accept(inv, x, t), e) == Timestamps(inv, e) + (if x == e then [t] else [])
  {
    if x != e {
      assert Timestamps(inv, e) + [] == Timestamps(inv, e);
    }
  }

  /** Accepting a run groups its timestamps per event, each group in acceptance order. */
  lemma {:induction false} AcceptAllGroups<E(!new)>(inv: Inverter<E>, events: seq<(E, nat)>, e: E)
    ensures Timestamps(AcceptAll(inv, events), e) == Timestamps(inv, e) + TimesOf(events, e)
    decreases |events|
  {
    if events == [] {
      assert Timestamps(inv, e) + [] == Timestamps(inv, e);
    } else {
      var x, t := events[0].0, events[0].1;
      var here: seq<nat> := if x == e then [t] else [];
      var before, rest := Timestamps(inv, e), TimesOf(events[1..], e);
      assert Timestamps(AcceptAll(inv, events), e) == (before + here) + rest by {
        AcceptStep(inv, x, t, e);
        AcceptAllGroups(Accept(inv, x, t), events[1..], e);
      }
      assert TimesOf(events, e) == here + rest;
      assert (before + here) + rest == before + (here + rest);
    }
  }

  /** After accepting a run, exactly the events that occurred (and those seen before) have a list. */
  lemma {:induction false} AcceptAllKeys<E(!new)>(inv: Inverter<E>, events: seq<(E, nat)>)
    ensures AcceptAll(inv, events).eventsFromStart.Keys == inv.eventsFromStart.Keys + EventSet(events)
    decreases |events|
  {
    if events == [] {
      assert EventSet(events) == {};
    } else {
      AcceptAllKeys(Accept(inv, events[0].0, events[0].1), events[1..]);
      assert EventSet(events) == {events[0].0} + EventSet(events[1..]) by {
        forall x | x in EventSet(events)
          ensures x in {events[0].0} + EventSet(events[1..])
        {
          var i :| 0 <= i < |events| && events[i].0 == x;
          if i > 0 {
            assert events[1..][i - 1].0 == x;
          }
        }
        forall x | x in EventSet(events[1..])
          ensures x in EventSet(events)
        {
          var i :| 0 <= i < |events[1..]| && events[1..][i].0 == x;
          assert events[i + 1].0 == x;
        }
      }
    }
  }

  /** Every timestamp is at most `final`. */
  predicate AllAtMost(ts: seq<nat>, final: nat)
  {
    forall i :: 0 <= i < |ts| ==> ts[i] <= final
  }

  /** The inner loop of `invert`: `final - t` for every timestamp, in order. */
  function Remaining(final: nat, ts: seq<nat>): (r: Result<seq<nat>, Underflow>)
    ensures r.Ok? <==> AllAtMost(ts, final)
    ensures r.Ok? ==> |r.value| == |ts| && forall i :: 0 <= i < |ts| ==> r.value[i] + ts[i] == final
    decreases |ts|
  {
    if ts == [] then Ok([])
    else if ts[0] > final then Err(DurationUnderflow)
    else
      match Remaining(final, ts[1..])
      case Err(u) => Err(u)
      case Ok(rest) => Ok([final - ts[0]] + rest)
  }

  /** `TimeLookup::invert`. */
  function Invert<E>(final: nat, inv: Inverter<E>): (r: Result<TimeLookup<E>, Underflow>)
    ensures r.Ok? <==> forall e | e in inv.eventsFromStart :: AllAtMost(inv.eventsFromStart[e], final)
    ensures r.Ok? ==> r.value.eventsFromEnd.Keys == inv.eventsFromStart.Keys
    ensures r.Ok? ==> forall e | e in inv.eventsFromStart ::
      var ts, rs := inv.eventsFromStart[e], r.value.eventsFromEnd[e];
      |rs| == |ts| && forall i :: 0 <= i < |ts| ==> rs[i] + ts[i] == final
  {
    var m := inv.eventsFromStart;
    if forall e | e in m :: Remaining(final, m[e]).Ok? then
      Ok(TimeLookup(map e | e in m :: Remaining(final, m[e]).value))
    else Err(DurationUnderflow)
  }

  /** A run recorded in time order is inverted into remaining times that only shrink. */
  lemma RemainingShrinks(final: nat, ts: seq<nat>)
    requires AllAtMost(ts, final)
    requires forall i, j :: 0 <= i < j < |ts| ==> ts[i] <= ts[j]
    ensures var rs := Remaining(final, ts).value;
      forall i, j :: 0 <= i < j < |rs| ==> rs[i] >= rs[j]
  {
  }

  /**
    Inverting a whole run: an event is in the lookup exactly when it occurred,
    and its remaining times are `final - t` for its timestamps, in order.
  */
  lemma {:induction false} InvertRun<E(!new)>(final: nat, events: seq<(E, nat)>, e: E)
    requires forall i :: 0 <= i < |events| ==> events[i].1 <= final
    ensures var r := Invert(final, AcceptAll(New(), events));
      && r.Ok?
      && r.value.eventsFromEnd.Keys == EventSet(events)
      && (e in r.value.eventsFromEnd ==> Remaining(final, TimesOf(events, e)) == Ok(r.value.eventsFromEnd[e]))
  {
    var inv := AcceptAll(New(), events);
    forall e' | e' in inv.eventsFromStart
      ensures AllAtMost(inv.eventsFromStart[e'], final)
    {
      AcceptAllGroups(New(), events, e');
      TimesOfBounded(events, e', final);
    }
    AcceptAllGroups(New(), events, e);
    AcceptAllKeys(New(), events);
    assert Timestamps(New<E>(), e) == [];
    assert Timestamps(inv, e) == TimesOf(events, e);
  }

  lemma {:induction false} TimesOfBounded<E>(events: seq<(E, nat)>, e: E, final: nat)
    requires forall i :: 0 <= i < |events| ==> events[i].1 <= final
    ensures AllAtMost(TimesOf(events, e), final)
    decreases |events|
  {
    if events != [] {
      TimesOfBounded(events[1..], e, final);
    }
  }

  /** A timestamp after the final one makes `invert` panic. */
  lemma LateTimestampUnderflows<E(!new)>(final: nat, inv: Inverter<E>, e: E, t: nat)
    requires final < t
    ensures Invert(final, Accept(inv, e, t)).Err?
  {
    var ts := Accept(inv, e, t).eventsFromStart[e];
    assert ts[|ts| - 1] == t;
  }
}
