/**
  Intern tables with their OWN key counter and an explicit double-free
  outcome (thrift_ffi/src/interning.rs). The cell `Arc<Mutex<T>>` is modelled
  by the value it holds. `self.idx += 1` is modelled with wrapping (release
  build) semantics.
*/
module TableInterning {
  import opened Wrappers
  import opened MachineInts

  datatype InternKey = InternKey(raw: u64)

  datatype InternError =
    | KeyAlreadyExisted(key: InternKey)
    | KeyNotFound(key: InternKey)

  /** `Interns<T>`: the mapping plus the table's next index. */
  datatype Interns<T> = Interns(mapping: map<InternKey, T>, idx: u64)

  /** `UninternResult`. */
  datatype UninternResult = SuccessfullyUninterned | DoubleFreed

  /** `Interns::new`: no key is found and numbering starts at 0. */
  function New<T>(): (t: Interns<T>)
    ensures t.idx == 0
    ensures forall k :: Get(t, k).Err?
  {
    Interns(map[], 0)
  }

  /** `Interns::get`. */
  function Get<T>(t: Interns<T>, key: InternKey): (r: Result<T, InternError>)
    ensures r.Ok? <==> key in t.mapping
    ensures r.Ok? ==> r.value == t.mapping[key]
    ensures r.Err? ==> r.error == KeyNotFound(key)
  {
    if key in t.mapping then Ok(t.mapping[key]) else Err(KeyNotFound(key))
  }

  /** `Interns::intern`: hand out `idx`, advance it, insert, then check what was displaced. */
  function Intern<T>(t: Interns<T>, value: T): (r: (Interns<T>, Result<InternKey, InternError>))
    ensures r.0.idx == WrappingInc(t.idx)
    ensures r.1.Ok? <==> InternKey(t.idx) !in t.mapping
    ensures r.1.Ok? ==> r.1.value == InternKey(t.idx)
    ensures Get(r.0, InternKey(t.idx)) == Ok(value)
    ensures r.0.mapping.Keys == t.mapping.Keys + {InternKey(t.idx)}
    ensures forall k :: k in t.mapping && k != InternKey(t.idx) ==> r.0.mapping[k] == t.mapping[k]
  {
    var key := InternKey(t.idx);
    var t' := Interns(t.mapping[key := value], WrappingInc(t.idx));
    if key in t.mapping then (t', Err(KeyAlreadyExisted(key))) else (t', Ok(key))
  }

  /** `Interns::garbage_collect`: remove a live key, or report a double free and change nothing. */
  function GarbageCollect<T>(t: Interns<T>, key: InternKey): (r: (Interns<T>, UninternResult))
    ensures r.1 == SuccessfullyUninterned <==> key in t.mapping
    ensures r.1 == DoubleFreed ==> r.0 == t
    ensures r.0.mapping.Keys == t.mapping.Keys - {key}
    ensures forall k :: k in r.0.mapping ==> r.0.mapping[k] == t.mapping[k]
    ensures r.0.idx == t.idx
  {
    if key in t.mapping then (Interns(t.mapping - {key}, t.idx), SuccessfullyUninterned)
    else (t, DoubleFreed)
  }

  /** Every stored key is below the counter: the counter has not wrapped onto a live key. */
  ghost predicate Valid<T>(t: Interns<T>)
  {
    forall k :: k in t.mapping ==> k.raw < t.idx
  }

  /** Interning and collecting keep `Valid` while the counter has room; interning then always succeeds. */
  lemma InternKeepsValid<T>(t: Interns<T>, value: T)
    requires Valid(t) && t.idx as int < U64_MAX
    ensures Intern(t, value).1.Ok?
    ensures Valid(Intern(t, value).0)
  {
  }

  lemma GarbageCollectKeepsValid<T>(t: Interns<T>, key: InternKey)
    requires Valid(t)
    ensures Valid(GarbageCollect(t, key).0)
  {
  }

  /** Intern each value in order, collecting the results. */
  function InternAll<T>(t: Interns<T>, values: seq<T>): (r: (Interns<T>, seq<Result<InternKey, InternError>>))
    ensures |r.1| == |values|
    decreases |values|
  {
    if values == [] then (t, [])
    else
      var (t1, first) := Intern(t, values[0]);
      var (t2, rest) := InternAll(t1, values[1..]);
      (t2, [first] + rest)
  }

  /**
    From a table with counter `t.idx`, the i-th intern returns key `t.idx + i`,
    the counter advances by exactly one per call, and each key holds its value.
  */
  lemma {:induction false} InternAllNumbersConsecutively<T>(t: Interns<T>, values: seq<T>)
    requires Valid(t)
    requires t.idx as int + |values| <= U64_MAX
    ensures var (t', results) := InternAll(t, values);
      && t'.idx as int == t.idx as int + |values|
      && Valid(t')
      && (forall i :: 0 <= i < |values| ==> results[i] == Ok(InternKey((t.idx as int + i) as u64)))
      && (forall i :: 0 <= i < |values| ==> Get(t', InternKey((t.idx as int + i) as u64)) == Ok(values[i]))
      && (forall k :: k in t.mapping ==> Get(t', k) == Get(t, k))
    decreases |values|
  {
    if values != [] {
      InternKeepsValid(t, values[0]);
      var (t1, first) := Intern(t, values[0]);
      InternAllNumbersConsecutively(t1, values[1..]);
      var (t', results) := InternAll(t, values);
      forall i | 0 <= i < |values|
        ensures results[i] == Ok(InternKey((t.idx as int + i) as u64))
        ensures Get(t', InternKey((t.idx as int + i) as u64)) == Ok(values[i])
      {
        if i > 0 {
          assert values[i] == values[1..][i - 1];
          assert (t1.idx as int + (i - 1)) as u64 == (t.idx as int + i) as u64;
        }
      }
    }
  }

  /** The n-th intern into a new table returns key n. */
  lemma InternAllFromNew<T>(values: seq<T>)
    requires |values| <= U64_MAX
    ensures var (t', results) := InternAll(New<T>(), values);
      forall i :: 0 <= i < |values| ==> results[i] == Ok(InternKey(i as u64)) && Get(t', InternKey(i as u64)) == Ok(values[i])
  {
    InternAllNumbersConsecutively(New<T>(), values);
  }

  /** A key freed and then followed by a new intern is not handed out again. */
  lemma KeysNotReusedAfterCollect<T>(t: Interns<T>, key: InternKey, value: T)
    requires Valid(t) && t.idx as int < U64_MAX
    requires key in t.mapping
    ensures var (t1, _) := GarbageCollect(t, key);
      var (t2, r) := Intern(t1, value);
      r.Ok? && r.value != key && Get(t2, key).Err?
  {
  }
}
