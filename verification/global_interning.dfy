/**
  Intern tables whose keys are all drawn from ONE process-wide counter
  (thrift-ffi/src/interning.rs).

  The `lazy_static` counter `GLOBAL_GENSYM_STATE` and the per-handle-type
  static tables become one explicit `World` value: a key generator plus a
  map from table name (one per `new_handle!` invocation) to its table.
  A table maps keys to the shared cell `Arc<RwLock<T>>`; the cell is
  modelled by the value it holds.
*/
module GlobalInterning {
  import opened Wrappers
  import opened MachineInts

  /** `InternKey(u64)`. */
  datatype InternKey = InternKey(raw: u64)

  /** The three ways an `InternError` is produced. */
  datatype InternError =
    | KeyAlreadyExisted(key: InternKey)   // `intern` found the fresh key occupied
    | KeyNotFound(key: InternKey)         // `get` on an absent key
    | NothingToCollect(key: InternKey)    // `garbage_collect` on an absent key

  /** `GLOBAL_GENSYM_STATE`: the next key any table will hand out. */
  datatype Gensym = Gensym(next: u64)

  const InitialGensym: Gensym := Gensym(0)

  /** `Interns<T>`: key to shared cell. */
  datatype Interns<T> = Interns(mapping: map<InternKey, T>)

  /** `Interns::new`. */
  function NewInterns<T>(): (t: Interns<T>)
    ensures forall k :: k !in t.mapping
  {
    Interns(map[])
  }

  /** `Interns::gen_key`: `fetch_add(1)` returns the old value and wraps the counter. */
  function GenKey(g: Gensym): (InternKey, Gensym)
  {
    (InternKey(g.next), Gensym(WrappingInc(g.next)))
  }

  datatype InternStep<T> = InternStep(gensym: Gensym, table: Interns<T>, result: Result<InternKey, InternError>)

  /**
    `Interns::intern`: draw a key, INSERT the value, and only then look at
    what the insertion displaced. In the collision branch the old entry has
    already been overwritten when `Err` is returned.
  */
  function Intern<T>(g: Gensym, t: Interns<T>, value: T): (r: InternStep<T>)
    ensures r.gensym.next == WrappingInc(g.next)
    ensures r.result.Ok? <==> InternKey(g.next) !in t.mapping
    ensures r.result.Ok? ==> r.result.value == InternKey(g.next)
    ensures r.result.Err? ==> r.result.error == KeyAlreadyExisted(InternKey(g.next))
    ensures InternKey(g.next) in r.table.mapping && r.table.mapping[InternKey(g.next)] == value
    ensures r.table.mapping.Keys == t.mapping.Keys + {InternKey(g.next)}
    ensures forall k :: k in t.mapping && k != InternKey(g.next) ==> r.table.mapping[k] == t.mapping[k]
  {
    var (key, g') := GenKey(g);
    var displaced := key in t.mapping;
    var t' := Interns(t.mapping[key := value]);
    if displaced then InternStep(g', t', Err(KeyAlreadyExisted(key)))
    else InternStep(g', t', Ok(key))
  }

  /** `Interns::get`: the stored cell, or an error naming the key. */
  function Get<T>(t: Interns<T>, key: InternKey): (r: Result<T, InternError>)
    ensures r.Ok? <==> key in t.mapping
    ensures r.Ok? ==> r.value == t.mapping[key]
    ensures r.Err? ==> r.error == KeyNotFound(key)
  {
    if key in t.mapping then Ok(t.mapping[key]) else Err(KeyNotFound(key))
  }

  datatype GcStep<T> = GcStep(table: Interns<T>, result: Result<Unit, InternError>)

  /** `Interns::garbage_collect`: remove the key; a missing key is reported, not ignored. */
  function GarbageCollect<T>(t: Interns<T>, key: InternKey): (r: GcStep<T>)
    ensures r.result.Ok? <==> key in t.mapping
    ensures r.result.Err? ==> r.result.error == NothingToCollect(key)
    ensures r.table.mapping.Keys == t.mapping.Keys - {key}
    ensures forall k :: k in r.table.mapping ==> r.table.mapping[k] == t.mapping[k]
  {
    if key in t.mapping then GcStep(Interns(t.mapping - {key}), Ok(Unit))
    else GcStep(t, Err(NothingToCollect(key)))
  }

  /** A second collection of the same key always fails. */
  lemma DoubleGarbageCollectFails<T>(t: Interns<T>, key: InternKey)
    ensures GarbageCollect(GarbageCollect(t, key).table, key).result == Err(NothingToCollect(key))
  {
  }

  // ---------------------------------------------------------------------
  // Handles and the set of static tables
  // ---------------------------------------------------------------------

  /** The static table a `new_handle!` type is bound to (`TABLE_A`, `TABLE_B`, ...). */
  type TableName = string

  /** A handle: a key plus the table its type is statically bound to. */
  datatype Handle = Handle(table: TableName, key: InternKey)

  /** `Interned::as_key`. */
  function AsKey(h: Handle): InternKey
  {
    h.key
  }

  /** `Interned::from_key` for the handle type bound to `table`. */
  function FromKey(table: TableName, key: InternKey): (h: Handle)
    ensures AsKey(h) == key
    ensures forall h': Handle :: h'.table == table && AsKey(h') == key ==> h' == h
  {
    Handle(table, key)
  }

  /** Every static table together with the one global counter. */
  datatype World<T> = World(gensym: Gensym, tables: map<TableName, Interns<T>>)

  /** A static table is created empty on first use. */
  function Table<T>(w: World<T>, name: TableName): Interns<T>
  {
    if name in w.tables then w.tables[name] else NewInterns()
  }

  /** No key stored in any table has been handed out by the counter yet again. */
  ghost predicate Fresh<T>(w: World<T>)
  {
    forall name, k :: name in w.tables && k in w.tables[name].mapping ==> k.raw < w.gensym.next
  }

  lemma FreshOfInitial<T>(tables: map<TableName, Interns<T>>)
    requires forall name :: name in tables ==> tables[name].mapping == map[]
    ensures Fresh(World(InitialGensym, tables))
  {
  }

  /** `Handle::intern`: intern into the handle type's own table and wrap the key. */
  function HandleIntern<T>(w: World<T>, table: TableName, value: T): (r: (World<T>, Result<Handle, InternError>))
    ensures r.1.Ok? ==> r.1.value == FromKey(table, InternKey(w.gensym.next))
    ensures r.1.Ok? ==> Dereference(r.0, r.1.value) == Ok(value)
    ensures r.1.Ok? <==> InternKey(w.gensym.next) !in Table(w, table).mapping
    ensures r.1.Err? ==> r.1.error == KeyAlreadyExisted(InternKey(w.gensym.next))
    ensures Table(r.0, table).mapping == Table(w, table).mapping[InternKey(w.gensym.next) := value]
    ensures r.0.gensym.next == WrappingInc(w.gensym.next)
    ensures forall other :: other != table ==> Table(r.0, other) == Table(w, other)
  {
    var step := Intern(w.gensym, Table(w, table), value);
    var w' := World(step.gensym, w.tables[table := step.table]);
    match step.result
    case Ok(key) => (w', Ok(FromKey(table, key)))
    case Err(e) => (w', Err(e))
  }

  /** `Interned::dereference`. */
  function Dereference<T>(w: World<T>, h: Handle): (r: Result<T, InternError>)
    ensures r.Ok? <==> h.key in Table(w, h.table).mapping
    ensures r.Ok? ==> r.value == Table(w, h.table).mapping[h.key]
  {
    Get(Table(w, h.table), AsKey(h))
  }

  /** `Interned::get`: apply `f` to the referent, or report the missing key. */
  function HandleGet<T, R>(w: World<T>, h: Handle, f: T -> R): (r: Result<R, InternError>)
    ensures r.Ok? <==> Dereference(w, h).Ok?
    ensures r.Ok? ==> r.value == f(Dereference(w, h).value)
  {
    match Dereference(w, h)
    case Ok(v) => Ok(f(v))
    case Err(e) => Err(e)
  }

  /** `Interned::garbage_collect`. */
  function HandleGarbageCollect<T>(w: World<T>, h: Handle): (r: (World<T>, Result<Unit, InternError>))
    ensures r.1.Ok? <==> h.key in Table(w, h.table).mapping
    ensures r.1.Err? ==> r.1.error == NothingToCollect(h.key)
    ensures Table(r.0, h.table).mapping.Keys == Table(w, h.table).mapping.Keys - {h.key}
    ensures forall k | k in Table(r.0, h.table).mapping :: Table(r.0, h.table).mapping[k] == Table(w, h.table).mapping[k]
    ensures r.0.gensym == w.gensym
    ensures forall other :: other != h.table ==> Table(r.0, other) == Table(w, other)
  {
    var step := GarbageCollect(Table(w, h.table), AsKey(h));
    (World(w.gensym, w.tables[h.table := step.table]), step.result)
  }

  /**
    While the counter has not wrapped, interning into ANY table succeeds,
    returns a key no table holds, and keeps every table's keys below the counter.
  */
  lemma {:induction false} HandleInternIsFresh<T>(w: World<T>, table: TableName, value: T)
    requires Fresh(w)
    requires w.gensym.next as int < U64_MAX
    ensures var (w', r) := HandleIntern(w, table, value);
      && r.Ok?
      && (forall name :: InternKey(w.gensym.next) !in Table(w, name).mapping)
      && w'.gensym.next as int == w.gensym.next as int + 1
      && Fresh(w')
  {
    var (w', r) := HandleIntern(w, table, value);
    forall name
      ensures InternKey(w.gensym.next) !in Table(w, name).mapping
    {
      if name in w.tables && InternKey(w.gensym.next) in w.tables[name].mapping {
        assert false;
      }
    }
    forall name, k | name in w'.tables && k in w'.tables[name].mapping
      ensures k.raw < w'.gensym.next
    {
      if name != table {
        assert Table(w', name) == Table(w, name);
      }
    }
  }

  /** Collecting a handle, from any table, keeps every stored key below the counter. */
  lemma GarbageCollectKeepsFresh<T>(w: World<T>, h: Handle)
    requires Fresh(w)
    ensures Fresh(HandleGarbageCollect(w, h).0)
  {
    var w' := HandleGarbageCollect(w, h).0;
    forall name, k | name in w'.tables && k in w'.tables[name].mapping
      ensures k.raw < w'.gensym.next
    {
      if name != h.table {
        assert Table(w', name) == Table(w, name);
      }
    }
  }

  /** Two interns in a row, into the same or different tables, give strictly increasing keys. */
  lemma KeysStrictlyIncrease<T>(w: World<T>, t1: TableName, v1: T, t2: TableName, v2: T)
    requires Fresh(w)
    requires w.gensym.next as int + 1 < U64_MAX
    ensures var (w1, r1) := HandleIntern(w, t1, v1);
      var (w2, r2) := HandleIntern(w1, t2, v2);
      r1.Ok? && r2.Ok? && r1.value.key.raw < r2.value.key.raw
  {
    HandleInternIsFresh(w, t1, v1);
    var (w1, r1) := HandleIntern(w, t1, v1);
    HandleInternIsFresh(w1, t2, v2);
  }

  /** Dereferencing a handle after collecting it fails: handles are not reference counted. */
  lemma DereferenceAfterCollectFails<T>(w: World<T>, h: Handle)
    ensures Dereference(HandleGarbageCollect(w, h).0, h) == Err(KeyNotFound(h.key))
  {
  }

  /**
    The `no_colliding_keys` scenario: two values interned in table A and two
    equal values in table B never share a key; equal contents stay equal.
  */
  lemma {:induction false} NoCollidingKeys(w: World<int>, a: TableName, b: TableName)
    requires Fresh(w)
    requires a != b
    requires w.gensym.next as int + 4 < U64_MAX
    ensures var (w1, ha) := HandleIntern(w, a, 1);
      var (w2, ha1) := HandleIntern(w1, a, 2);
      var (w3, hb) := HandleIntern(w2, b, 1);
      var (w4, hb1) := HandleIntern(w3, b, 1);
      && ha.Ok? && ha1.Ok? && hb.Ok? && hb1.Ok?
      && ha.value != ha1.value
      && HandleGet(w4, ha.value, x => x) != HandleGet(w4, ha1.value, x => x)
      && AsKey(hb.value) != AsKey(ha.value)
      && AsKey(hb.value) != AsKey(ha1.value)
      && hb.value != hb1.value
      && HandleGet(w4, hb.value, x => x) == HandleGet(w4, hb1.value, x => x)
  {
    HandleInternIsFresh(w, a, 1);
    var (w1, ha) := HandleIntern(w, a, 1);
    HandleInternIsFresh(w1, a, 2);
    var (w2, ha1) := HandleIntern(w1, a, 2);
    HandleInternIsFresh(w2, b, 1);
    var (w3, hb) := HandleIntern(w2, b, 1);
    HandleInternIsFresh(w3, b, 1);
    var (w4, hb1) := HandleIntern(w3, b, 1);
    assert Table(w4, a) == Table(w2, a);
    assert Dereference(w4, ha.value) == Ok(1);
    assert Dereference(w4, ha1.value) == Ok(2);
    assert Dereference(w4, hb.value) == Ok(1);
    assert Dereference(w4, hb1.value) == Ok(1);
  }
}
