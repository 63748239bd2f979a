/**
  The grow-only intern table of the terminal crate
  (terminal/thrift_ffi/src/interning.rs): values are stored directly, each
  table has its own counter `_idx`, and there is no removal.
*/
module GrowOnlyInterning {
  import opened Wrappers
  import opened MachineInts

  datatype InternKey = InternKey(raw: u64)

  datatype InternError =
    | KeyAlreadyExisted(key: InternKey)
    | KeyNotFound(key: InternKey)

  datatype Interns<T> = Interns(mapping: map<InternKey, T>, idx: u64)

  /** `Interns::new`: empty, counter at 0. */
  function New<T>(): (t: Interns<T>)
    ensures t.idx == 0
    ensures forall k :: Get(t, k).Err?
  {
    Interns(map[], 0)
  }

  /** `Interns::get`. */
  function Get<T>(t: Interns<T>, key: InternKey): (r: Result<T, InternError>)
    ensures r.Ok? <==> key in t.mapping
    ensures r.Ok? ==> r.value == t.mapping[key]
    ensures r.Err? ==> r.error == KeyNotFound(key)
  {
    if key in t.mapping then Ok(t.mapping[key]) else Err(KeyNotFound(key))
  }

  /** `Interns::intern`: hand out `_idx`, advance it, insert, then check what was displaced. */
  function Intern<T>(t: Interns<T>, value: T): (r: (Interns<T>, Result<InternKey, InternError>))
    ensures r.0.idx == WrappingInc(t.idx)
    ensures r.1.Ok? <==> InternKey(t.idx) !in t.mapping
    ensures r.1.Ok? ==> r.1.value == InternKey(t.idx)
    ensures Get(r.0, InternKey(t.idx)) == Ok(value)
    ensures t.mapping.Keys <= r.0.mapping.Keys
    ensures r.0.mapping.Keys == t.mapping.Keys + {InternKey(t.idx)}
    ensures forall k :: k in t.mapping && k != InternKey(t.idx) ==> Get(r.0, k) == Get(t, k)
  {
    var key := InternKey(t.idx);
    var t' := Interns(t.mapping[key := value], WrappingInc(t.idx));
    if key in t.mapping then (t', Err(KeyAlreadyExisted(key))) else (t', Ok(key))
  }

  /**
    The table holds exactly the keys below the counter, and so as many keys as
    interns have been performed.
  */
  ghost predicate Dense<T>(t: Interns<T>)
  {
    && (forall k: InternKey :: k in t.mapping <==> k.raw < t.idx)
    && |t.mapping| == t.idx as int
  }

  /** While the counter has room, interning succeeds and keeps the table dense. */
  lemma {:induction false} InternKeepsDense<T>(t: Interns<T>, value: T)
    requires Dense(t) && t.idx as int < U64_MAX
    ensures Intern(t, value).1.Ok?
    ensures Dense(Intern(t, value).0)
  {
    var key := InternKey(t.idx);
    assert key !in t.mapping;
    var t' := Intern(t, value).0;
    assert |t'.mapping.Keys| == |t.mapping.Keys + {key}| == |t.mapping.Keys| + 1;
  }

  lemma NewIsDense<T>()
    ensures Dense(New<T>())
  {
  }

  /** A key never handed out is never found. */
  lemma GetNeverInterned<T>(t: Interns<T>, key: InternKey)
    requires Dense(t)
    requires key.raw >= t.idx
    ensures Get(t, key) == Err(KeyNotFound(key))
  {
  }
}
