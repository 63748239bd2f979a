/**
  The create/destroy protocol exposed across the foreign boundary
  (thrift-ffi/src/lifecycle.rs), layered over the global-counter intern tables.

  `make_instance` is a method of the request object whose body is not part of
  this model: its outcome is passed in as a `Result` value. Diagnostics printed
  on failure are left out.
*/
module Lifecycle {
  import opened Wrappers
  import opened MachineInts
  import opened GlobalInterning

  /** `InternedObjectCreationResult`. */
  datatype CreationResult = Created(key: InternKey) | CreationFailed

  /** `InternedObjectDestructionResult`. */
  datatype DestructionResult = Succeeded | DestructionFailed

  /**
    `create_handle_ffi`: construct, then intern into the handle type's table,
    then report the new key. A failed construction never reaches `intern`, so
    the counter does not move.
  */
  function CreateHandleFfi<T, E>(w: World<T>, table: TableName, instance: Result<T, E>): (r: (World<T>, CreationResult))
    ensures instance.Err? ==> r == (w, CreationFailed)
    ensures r.1.Created? <==> instance.Ok? && InternKey(w.gensym.next) !in Table(w, table).mapping
    ensures r.1.Created? ==> r.1.key == InternKey(w.gensym.next)
    ensures r.1.Created? ==> Dereference(r.0, FromKey(table, r.1.key)) == Ok(instance.value)
    ensures instance.Ok? ==> r.0.gensym.next == WrappingInc(w.gensym.next)
    ensures instance.Ok? ==> Table(r.0, table).mapping == Table(w, table).mapping[InternKey(w.gensym.next) := instance.value]
    ensures forall other :: other != table ==> Table(r.0, other) == Table(w, other)
  {
    match instance
    case Err(_) => (w, CreationFailed)
    case Ok(value) =>
      var (w', h) := HandleIntern(w, table, value);
      match h
      case Ok(handle) => (w', Created(AsKey(handle)))
      case Err(_) => (w', CreationFailed)
  }

  /** `destroy_handle_ffi`: garbage-collect the key in the handle type's table. */
  function DestroyHandleFfi<T>(w: World<T>, table: TableName, key: InternKey): (r: (World<T>, DestructionResult))
    ensures r.1 == Succeeded <==> key in Table(w, table).mapping
    ensures Table(r.0, table).mapping.Keys == Table(w, table).mapping.Keys - {key}
    ensures forall k | k in Table(r.0, table).mapping :: Table(r.0, table).mapping[k] == Table(w, table).mapping[k]
    ensures r.0.gensym == w.gensym
    ensures forall other :: other != table ==> Table(r.0, other) == Table(w, other)
  {
    var (w', res) := HandleGarbageCollect(w, FromKey(table, key));
    if res.Ok? then (w', Succeeded) else (w', DestructionFailed)
  }

  /** Destroying the same key twice: the first call succeeds iff the key was live, the second always fails. */
  lemma DestroyTwice<T>(w: World<T>, table: TableName, key: InternKey)
    requires key in Table(w, table).mapping
    ensures var (w1, r1) := DestroyHandleFfi(w, table, key);
      var (_, r2) := DestroyHandleFfi(w1, table, key);
      r1 == Succeeded && r2 == DestructionFailed
  {
  }

  /**
    Create followed by destroy of the created key gives every table back its
    key set, while the counter stays advanced.
  */
  lemma CreateThenDestroy<T, E>(w: World<T>, table: TableName, value: T)
    requires Fresh(w)
    requires w.gensym.next as int < U64_MAX
    ensures var (w1, c) := CreateHandleFfi<T, E>(w, table, Ok(value));
      && c.Created?
      && var (w2, d) := DestroyHandleFfi(w1, table, c.key);
      && d == Succeeded
      && (forall name :: Table(w2, name).mapping.Keys == Table(w, name).mapping.Keys)
      && w2.gensym.next as int == w.gensym.next as int + 1
  {
    HandleInternIsFresh(w, table, value);
  }

  /** Destroying any key keeps every stored key below the counter, so later creations stay fresh. */
  lemma DestroyKeepsFresh<T>(w: World<T>, table: TableName, key: InternKey)
    requires Fresh(w)
    ensures Fresh(DestroyHandleFfi(w, table, key).0)
  {
    GarbageCollectKeepsFresh(w, FromKey(table, key));
  }

  /** A key the counter has not yet handed out cannot be destroyed. */
  lemma DestroyNeverCreated<T>(w: World<T>, table: TableName, key: InternKey)
    requires Fresh(w)
    requires key.raw >= w.gensym.next
    ensures DestroyHandleFfi(w, table, key).1 == DestructionFailed
  {
  }
}
