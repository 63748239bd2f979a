# learning-progress-bar core, modelled in Dafny

This project models the deterministic core of the `learning-progress-bar`
repository and proves properties of that model. The core has five parts.

- **Intern tables.** There are three variants:
  - `thrift-ffi` draws keys from one process-wide counter shared by every table.
  - `thrift_ffi` gives each table its own counter and reports a double free.
  - `terminal/thrift_ffi` is a grow-only table.

  On top of the `thrift-ffi` tables sits the create/destroy protocol of
  `lifecycle.rs`.
- **The buffered-channel coordinator** of `coroutines/src/lib.rs`:
  - the `StateVar` cell;
  - the per-attempt closures of `write_until_complete` and `read_until_complete`;
  - `Read::read`, `Write::write` and `Write::flush` built on them.
- **`split_result_sequence` and its variants**, which apply a fallible
  function to every element and keep all outcomes. There are two copies:
  - `thrift-ffi/src/util.rs`;
  - `old/thrift-ffi/src/util.rs`, which adds `handle_split_result_sequence`.
- **The event logs**:
  - `src/record.rs` groups timestamps per event and inverts them into remaining times;
  - `runtime-inference/src/record.rs` has an append-only tracker, an
    insertion-ordered `invert` and `merge`.
- **The Zipkin entity validators**, the `parse`/`extract` pairs of
  `zipkin/src/lib.rs`. The older crate `old/zipkin/entities/src/lib.rs`
  (module `components`) holds the same validator code; it differs only in
  deriving `Clone`. So `ZipkinEntities` models both copies.

Everything is modelled with immutable datatypes and pure functions. There is
one module per source file, plus three shared modules:

- `Wrappers`: `Option`, `Result`, `Unit`;
- `MachineInts`: `u64` with wrapping increment, and `i64`;
- `HexPattern`: what `Regex::is_match` means for the two identifier patterns.

Modelling decisions worth knowing:

- **Interning counters.** `AtomicU64::fetch_add` wraps around, and so does
  the model of `idx += 1`. Wrapping is the release-build behaviour. Freshness
  results therefore require that the counter has not reached `u64::MAX`.
- **Shared cells.** An `Arc<RwLock<T>>` or `Arc<Mutex<T>>` cell is modelled
  by the value it holds. The `lazy_static` tables and counter become one
  explicit `World` value.
- **The I/O object.** The coordinator's I/O object is only known through the
  `ReadWriteBufferable` trait. It is modelled as:
  - a read buffer, a write buffer and a write capacity;
  - `write` appends as much as fits;
  - `read` takes from the front;
  - the copy appends the whole write buffer to the read buffer.

  A failing `assert!` is a `Panic` fault outcome.
- **Blocking.** `wait_for_slot_to_completely_execute` is modelled
  sequentially. The time a waiter spends in `cvar.wait` is a finite sequence
  of peer steps, during which other threads change the shared context and
  store a new state.
- **What the coordinator does from a new buffer.** `new` stores `NeedsData`
  and `Ready`, but the attempt closures only run once their cell holds
  `FinishedWrite` or `WasJustCompleted`. Only the closures themselves ever
  store those two states. So from a new buffer no write attempt and no read
  attempt ever runs unless some other thread stores the target state.
  `Coordinator.WriteNeverStartsFromNew` and `Coordinator.ReadNeverStartsFromNew`
  state this. An empty write never completes, so `flush` never returns `Ok`
  (`Coordinator.FlushNeverSucceeds`).
- **The pre-read `match`.** In `read_until_complete` this `match` has no arm
  for `WasJustCompleted`, so the code as written does not compile. The model
  stores that state back unchanged and does no copy.
- **Duration underflow.** `Duration` subtraction in `src/record.rs` panics
  when a timestamp is later than the final time. That panic is the `Err`
  outcome of `RemainingTime.Invert`.
- **`duration_fraction`.** This float function of
  `runtime-inference/src/record.rs` is a function parameter `fraction` of the
  model.
- **Zipkin errors.** `SpanGenerationError` wraps a formatted message. The
  model replaces it with a datatype naming the rejected field and carrying
  the rejected input.
- **Unanchored patterns.** `is_match` looks for a match anywhere in the
  input. Both `[a-f0-9]{16,32}` and `[a-f0-9]{16}` therefore accept exactly
  the strings that contain 16 consecutive lower-case hex digits, whatever
  surrounds them. Both patterns accept a 40-digit string and a `span-`
  prefixed id.

## Model

| member | source | states |
|---|---|---|
| GlobalInterning.NewInterns | thrift-ffi/src/interning.rs:79-83 | a new table holds no key |
| GlobalInterning.Intern | thrift-ffi/src/interning.rs:85-98 | the key is the counter's old value, and the counter advances with u64 wrap-around; `Ok` exactly when the key was absent, otherwise the collision error naming it; the key holds the new value in both outcomes, because insertion precedes the check; every other entry is unchanged |
| GlobalInterning.Get | thrift-ffi/src/interning.rs:100-106 | `Ok` with the stored value exactly when the key is present, otherwise a not-found error naming the key |
| GlobalInterning.GarbageCollect | thrift-ffi/src/interning.rs:108-117 | removes exactly that key; `Ok` exactly when it was present; the remaining entries are unchanged |
| GlobalInterning.DoubleGarbageCollectFails | thrift-ffi/src/interning.rs:108-117 | collecting the same key a second time always fails |
| GlobalInterning.FromKey | thrift-ffi/src/interning.rs:136-138 | `as_key(from_key(k)) == k`, and a handle is determined by its table and key |
| GlobalInterning.HandleIntern | thrift-ffi/src/interning.rs:66-71 | on success the handle wraps the fresh key and dereferences to the value; otherwise the collision error naming that key; in both outcomes the handle's own table is the old table with the fresh key set to the value (a collision overwrites the live entry), tables of other handle types are unchanged, and the shared counter advances with wrap-around |
| GlobalInterning.Dereference | thrift-ffi/src/interning.rs:29-31 | succeeds exactly when the key is live in the handle type's own table, with its value |
| GlobalInterning.HandleGet | thrift-ffi/src/interning.rs:37-41 | applies `f` to the referent; fails exactly when dereferencing fails |
| GlobalInterning.HandleGarbageCollect | thrift-ffi/src/interning.rs:33-35 | `Ok` exactly when the key was live, otherwise the nothing-to-collect error naming it; removes the key from the handle's table only, and the entries left keep their values; other tables and the counter are unchanged |
| GlobalInterning.GarbageCollectKeepsFresh | thrift-ffi/src/interning.rs:13-15 | collecting any handle keeps every stored key below the shared counter, so interns after a collection still get unused keys |
| GlobalInterning.FreshOfInitial | thrift-ffi/src/interning.rs:13-15 | with the counter at 0 and all tables empty, no stored key is at or above the counter |
| GlobalInterning.HandleInternIsFresh | thrift-ffi/src/interning.rs:85-98 | while the counter has room, interning into any table succeeds with a key that no table holds, and keeps every key below the counter |
| GlobalInterning.KeysStrictlyIncrease | thrift-ffi/src/interning.rs:85 | two interns in a row, into the same or different tables, yield strictly increasing keys |
| GlobalInterning.DereferenceAfterCollectFails | thrift-ffi/src/interning.rs:29-35 | after a handle is collected, dereferencing it fails |
| GlobalInterning.NoCollidingKeys | thrift-ffi/src/interning.rs:164-182 | the `no_colliding_keys` scenario: the four handles across two tables have pairwise distinct keys, and equal contents compare equal |
| Lifecycle.CreateHandleFfi | thrift-ffi/src/lifecycle.rs:23-34 | a failed construction reports `Failed` and touches nothing; `Created(k)` exactly when construction succeeds and the fresh key is free; `k` then dereferences to the value; after any successful construction, even one reported `Failed` because of a collision, the fresh key is set to the value in that table (overwriting a live entry), the counter advances with wrap-around, and other tables are unchanged |
| Lifecycle.DestroyHandleFfi | thrift-ffi/src/lifecycle.rs:36-45 | `Succeeded` exactly when the key was live in that table; it is removed and the entries left keep their values; the counter and other tables are unchanged |
| Lifecycle.DestroyTwice | thrift-ffi/src/lifecycle.rs:36-45 | destroying a live key succeeds once, and the second destroy fails |
| Lifecycle.CreateThenDestroy | thrift-ffi/src/lifecycle.rs:23-45 | create then destroy restores every table's key set, and the counter stays advanced by one |
| Lifecycle.DestroyKeepsFresh | thrift-ffi/src/lifecycle.rs:36-45 | destroying any key keeps every stored key below the shared counter |
| Lifecycle.DestroyNeverCreated | thrift-ffi/src/lifecycle.rs:36-45 | a key the counter has not yet handed out cannot be destroyed |
| TableInterning.New | thrift_ffi/src/interning.rs:26-31 | the counter starts at 0 and no key is found |
| TableInterning.Get | thrift_ffi/src/interning.rs:33-39 | `Ok` with the value exactly when the key is present, otherwise not-found |
| TableInterning.Intern | thrift_ffi/src/interning.rs:48-63 | hands out the table's index and advances it with wrap-around; `Ok` exactly when the key was free; the key holds the value in both outcomes; other entries are unchanged |
| TableInterning.GarbageCollect | thrift_ffi/src/interning.rs:65-71 | `SuccessfullyUninterned` exactly when the key was live; `DoubleFreed` leaves the table unchanged; the counter never moves |
| TableInterning.InternKeepsValid | thrift_ffi/src/interning.rs:48-63 | while the counter has room, interning succeeds and keeps every key below the counter |
| TableInterning.GarbageCollectKeepsValid | thrift_ffi/src/interning.rs:65-71 | collection keeps every key below the counter |
| TableInterning.InternAllNumbersConsecutively | thrift_ffi/src/interning.rs:48-63 | the i-th of a run of interns returns key `idx + i` and stores the i-th value there; the counter advances by exactly the number of interns; earlier entries stay unchanged |
| TableInterning.InternAllFromNew | thrift_ffi/src/interning.rs:26-63 | the n-th intern into a new table returns key n |
| TableInterning.KeysNotReusedAfterCollect | thrift_ffi/src/interning.rs:48-71 | a freed key is never handed out again by the next intern and stays absent |
| GrowOnlyInterning.New | terminal/thrift_ffi/src/interning.rs:24-29 | the counter starts at 0 and no key is found |
| GrowOnlyInterning.Get | terminal/thrift_ffi/src/interning.rs:31-36 | `Ok` with the value exactly when the key is present, otherwise not-found |
| GrowOnlyInterning.Intern | terminal/thrift_ffi/src/interning.rs:40-54 | hands out `_idx` and advances it; `Ok` exactly when the key was free; the key set only grows; other lookups are unchanged |
| GrowOnlyInterning.InternKeepsDense | terminal/thrift_ffi/src/interning.rs:40-54 | while the counter has room, the table holds exactly the keys below the counter, one per intern |
| GrowOnlyInterning.NewIsDense | terminal/thrift_ffi/src/interning.rs:24-29 | a new table is dense, holding exactly the keys below 0 |
| GrowOnlyInterning.GetNeverInterned | terminal/thrift_ffi/src/interning.rs:31-36 | a key never handed out is never found |
| StateVar.New | coroutines/src/lib.rs:62-67 | the cell holds the initial value and nothing has been broadcast |
| StateVar.NotifyAllOfNewState | coroutines/src/lib.rs:69-75 | the cell holds `f(old)` and one more broadcast has happened |
| StateVar.WaitForSlot | coroutines/src/lib.rs:79-100 | a return leaves the cell at the target; a still-waiting call has the cell off the target; the action runs at most once per wake-up plus once |
| StateVar.OkOnlyAfterConvergence | coroutines/src/lib.rs:90-99 | `Ok` is returned only right after the action itself reported the target, so whatever such a report guarantees holds on return |
| StateVar.NeverRunsUnlessTargetStored | coroutines/src/lib.rs:93-98 | if the cell starts off the target and no other thread stores the target, the action never runs and the call keeps waiting |
| StateVar.ImmediateConvergence | coroutines/src/lib.rs:88-92 | at the target, an action that reports the target runs once and returns `Ok` without waiting |
| StateVar.ErrorPropagatesWithoutStoring | coroutines/src/lib.rs:91 | an action error is returned at once, and the cell keeps its state |
| Coordinator.New | coroutines/src/lib.rs:146-152 | a new buffer has read `NeedsData` and write `Ready` over the given I/O object |
| Coordinator.MigrateBeforeWrite | coroutines/src/lib.rs:172-180 | only a read side in `NeedsData` is refilled, and only from an empty read buffer to a non-empty one (otherwise a panic); other read states are stored back unchanged; no pending byte is lost or reordered |
| Coordinator.WriteAttempt | coroutines/src/lib.rs:169-203 | read side changed only by migration on a full buffer; empty slice gives `Ready`, never `FinishedWrite`; `FinishedWrite` exactly when the last byte of a non-empty slice was written; every attempt that starts below a full buffer with bytes left succeeds and writes at least one byte, including one that ends `Blocked`; `Blocked` leaves the buffer full; accepted bytes are the next ones of the slice, appended after all pending bytes |
| Coordinator.WriteAttemptHealthy | coroutines/src/lib.rs:169-203 | with positive capacity, and `NeedsData` only over an empty read buffer, an attempt with bytes left never panics and keeps that invariant |
| Coordinator.RefillForRead | coroutines/src/lib.rs:255-259 | moves the write buffer behind the empty read buffer and tells the write side it is `Ready` |
| Coordinator.ReadAttempt | coroutines/src/lib.rs:252-283 | an empty read buffer is refilled first; empty slice gives `HasData`, never completion; the filled prefix is kept and grows while data is pending; `WasJustCompleted` exactly when the slice is full; `NeedsData` leaves the read buffer empty; delivered bytes are the oldest pending ones |
| Coordinator.PreRead | coroutines/src/lib.rs:220-249 | panics exactly when `NeedsData` meets a non-empty read buffer; in `NeedsData` it copies and sets write `Ready`, and read becomes `HasData` exactly when data arrived; afterwards `NeedsData` implies an empty read buffer |
| Coordinator.WriteUntilComplete | coroutines/src/lib.rs:161-204 | a return leaves the write cell at `FinishedWrite`; a suspended call has it elsewhere |
| Coordinator.ReadUntilComplete | coroutines/src/lib.rs:208-284 | a successful return leaves the read cell at `WasJustCompleted`; a suspended call has it elsewhere |
| Coordinator.Write | coroutines/src/lib.rs:296-302 | success reports the whole slice length, and happens only for a non-empty slice |
| Coordinator.Read | coroutines/src/lib.rs:287-293 | success has filled exactly the requested non-zero length |
| Coordinator.WriteCompletesOnlyNonEmpty | coroutines/src/lib.rs:186-203 | `write_until_complete` returns `Ok` only for a non-empty slice |
| Coordinator.ReadCompletesFilled | coroutines/src/lib.rs:265-283 | `read_until_complete` returns `Ok` only after filling a non-empty slice completely |
| Coordinator.ReadAttemptCompletion | coroutines/src/lib.rs:275-276 | an attempt reports `WasJustCompleted` only with a full, non-empty slice |
| Coordinator.FlushNeverSucceeds | coroutines/src/lib.rs:304-313 | `flush` never returns `Ok`, because its empty write can never report `FinishedWrite` |
| Coordinator.WriteNeverStartsFromNew | coroutines/src/lib.rs:146-204 | from a new buffer, while no other thread stores `FinishedWrite`, no write attempt runs and the write stays suspended |
| Coordinator.ReadNeverStartsFromNew | coroutines/src/lib.rs:208-284 | from a new buffer, while no other thread stores `WasJustCompleted`, no read attempt runs; if the read buffer already held bytes, the pre-read panics |
| Coordinator.StepsDeliverInOrder | coroutines/src/lib.rs:169-283 | interleaved attempts over a capacity-4 buffer deliver a 6-byte stream completely and in order |
| ResultSequence.Split | thrift-ffi/src/util.rs:8-23 | the oks are the `Ok` values of `f` over every element, in order, and the errs are the `Err` values; no element is skipped |
| ResultSequence.SplitMut | thrift-ffi/src/util.rs:25-40 | the same for a stateful `f`, threaded through every element in order |
| ResultSequence.PushIsAppend | thrift-ffi/src/util.rs:13-22 | one fold step appends the outcome to exactly one of the two lists |
| ResultSequence.SplitFromCharacterized | thrift-ffi/src/util.rs:13-22 | the fold from any accumulator appends the filtered outcomes of the remaining elements |
| ResultSequence.SplitMutFromCharacterized | thrift-ffi/src/util.rs:30-39 | the stateful fold appends the filtered outcomes and ends in the state the closure leaves |
| ResultSequence.OksErrsCount | thrift-ffi/src/util.rs:13-22 | every outcome lands in exactly one list |
| ResultSequence.ErrsEmptyIffAllOk | thrift-ffi/src/util.rs:13-22 | no errors exactly when every call succeeded, and no values exactly when every call failed |
| ResultSequence.AllOkIsMap | thrift-ffi/src/util.rs:8-23 | when every call succeeds, the oks are the mapped values and there are no errors |
| ResultSequence.StatelessMutIsSplit | thrift-ffi/src/util.rs:8-40 | the `FnMut` version with a closure that keeps no state agrees with the `Fn` version |
| ResultSequence.SplitAppend | thrift-ffi/src/util.rs:8-23 | splitting a concatenation concatenates the splits |
| ConsumedSequence.SplitByRef | old/thrift-ffi/src/util.rs:10-27 | by-reference split: the oks and errs of `f` over every element, in order |
| ConsumedSequence.SplitMutByRef | old/thrift-ffi/src/util.rs:29-51 | the split with a closure that may also change the item agrees with the state-threading split once the item changes are dropped |
| ConsumedSequence.SplitMutAgrees | old/thrift-ffi/src/util.rs:38-50 | the fold with item-mutating closures equals the reference fold, from any accumulator |
| ConsumedSequence.HandleSplit | old/thrift-ffi/src/util.rs:58-73 | `Ok` exactly when every call succeeded; otherwise the error carries all errors in order, and at least one |
| RemainingTime.New | src/record.rs:43-47 | no event has timestamps |
| RemainingTime.Accept | src/record.rs:51-57 | appends the timestamp to that event's list, creating it on first use; other events are unchanged |
| RemainingTime.AcceptAllGroups | src/record.rs:51-57 | after a run, each event's list is its timestamps in acceptance order |
| RemainingTime.AcceptAllKeys | src/record.rs:51-57 | after a run, exactly the events that occurred have a list |
| RemainingTime.Remaining | src/record.rs:80-83 | succeeds exactly when no timestamp exceeds the final time, and then each output plus its timestamp equals the final time, in order |
| RemainingTime.Invert | src/record.rs:71-87 | succeeds exactly when no timestamp exceeds the final time; same events; each list as long as its input, entry i being `final - t_i` |
| RemainingTime.RemainingShrinks | src/record.rs:78-84 | timestamps recorded in time order give remaining times that never increase |
| RemainingTime.InvertRun | src/record.rs:71-87 | inverting a recorded run whose timestamps are all at most the final time succeeds; it has exactly the run's events, each with `final - t` for its timestamps in order |
| RemainingTime.LateTimestampUnderflows | src/record.rs:81 | a timestamp after the final time makes `invert` fail |
| RecordLookup.NewTracker | runtime-inference/src/record.rs:48 | a new tracker holds no events |
| RecordLookup.Accept | runtime-inference/src/record.rs:52-54 | appends `(e, t)` after all earlier events |
| RecordLookup.AcceptAllInOrder | runtime-inference/src/record.rs:52-59 | `into_events` returns the accepted events exactly in acceptance order |
| RecordLookup.DedupSpec | runtime-inference/src/record.rs:106-110 | collecting into an index set keeps each key once, the same members, and in order of first occurrence |
| RecordLookup.Push | runtime-inference/src/record.rs:83-84 | `entry().or_insert_with().push()` appends to that key's list; a new key goes last in key order; other keys are unchanged |
| RecordLookup.Group | runtime-inference/src/record.rs:81-85 | after any prefix of events, the keys are in first-occurrence order and each list is that key's fractions in order |
| RecordLookup.Invert | runtime-inference/src/record.rs:75-91 | keys in first-occurrence order; one fraction per occurrence, in order; the final time is the only runtime |
| RecordLookup.ExtractProgressHistory | runtime-inference/src/record.rs:93-95 | present exactly for recorded events, with their list |
| RecordLookup.ExtractAfterInvert | runtime-inference/src/record.rs:75-95 | after `invert`, an event has a history exactly when it occurred in the run, and that history is its fractions |
| RecordLookup.InvertHistory | runtime-inference/src/record.rs:75-91 | an event's list after `invert` is its fractions, and empty when it never occurred |
| RecordLookup.Merge | runtime-inference/src/record.rs:103-138 | the union of the keys, `self`'s first and in their order, then `other`'s new keys in first-occurrence order of the chained key lists; each list is `self`'s then `other`'s, a missing side contributing none; runtimes concatenated |
| RecordLookup.MergedKeysSpec | runtime-inference/src/record.rs:106-110 | the merged keys have no repeats, are exactly the keys of either side, start with `self`'s keys, and follow first occurrence in the chained key lists |
| RecordLookup.MergeEmptyRight | runtime-inference/src/record.rs:103-138 | merging an empty lookup into a lookup changes nothing |
| RecordLookup.MergeEmptyLeft | runtime-inference/src/record.rs:103-138 | merging a lookup into an empty lookup gives that lookup |
| RecordLookup.MergeRuns | runtime-inference/src/record.rs:111-127 | merging two inverted runs gives each event the first run's fractions followed by the second's |
| RecordLookup.MergeRunsRuntimes | runtime-inference/src/record.rs:128-133 | merging two inverted runs lists their two final times in order |
| HexPattern.IsMatchIffRun | zipkin/src/lib.rs:58-59 | an unanchored `[a-f0-9]{lo,hi}` matches exactly the inputs with a run of `lo` hex digits |
| HexPattern.TraceIdAndIdPatternsAgree | zipkin/src/lib.rs:58-59 | the trace-id and span-id patterns accept the same inputs |
| HexPattern.FindHexRun | zipkin/src/lib.rs:58-59 | a one-pass scan decides the acceptance condition exactly |
| HexPattern.RunSurvivesContext | zipkin/src/lib.rs:76 | any text around an accepted input is still accepted |
| HexPattern.UpperCaseRejected | zipkin/src/lib.rs:58 | upper-case hex digits are not in the class |
| HexPattern.FifteenRejected | zipkin/src/lib.rs:58 | fifteen digits are too few |
| HexPattern.EmbeddedRunAccepted | zipkin/src/lib.rs:76 | a 16-digit run inside other text is accepted |
| ZipkinEntities.ParseTraceId | zipkin/src/lib.rs:75-86 | accepts exactly the strings containing 16 consecutive `[a-f0-9]` characters; `extract` returns the input; the error names the input |
| ZipkinEntities.ParseId | zipkin/src/lib.rs:105-116 | the same acceptance set as trace ids; `extract` returns the input |
| ZipkinEntities.TraceIdsAreIds | zipkin/src/lib.rs:58-59 | a string is a valid trace id exactly when it is a valid span id |
| ZipkinEntities.IdRoundTrips | zipkin/src/lib.rs:75-116 | re-parsing an extracted id gives the same result |
| ZipkinEntities.GenerateNewTraceId | zipkin/src/lib.rs:68-71 | from one random simple UUID, generation always succeeds with all 32 digits |
| ZipkinEntities.GenerateNewId | zipkin/src/lib.rs:98-101 | from one random simple UUID, generation always succeeds with its first 16 digits |
| ZipkinEntities.ParseKind | zipkin/src/lib.rs:128-140 | accepts exactly `CLIENT`, `SERVER`, `PRODUCER` and `CONSUMER`; `extract` returns the input; any other string is rejected with it |
| ZipkinEntities.KindRoundTrip | zipkin/src/lib.rs:128-148 | `parse(extract(k)) == k` for every kind |
| ZipkinEntities.LowerCaseKindRejected | zipkin/src/lib.rs:134-137 | lower-case names are rejected |
| ZipkinEntities.ParseDuration | zipkin/src/lib.rs:166-177 | succeeds exactly for positive values; `extract` returns the input |
| ZipkinEntities.DurationRoundTrip | zipkin/src/lib.rs:166-177 | every duration survives `extract` then `parse` |
| ZipkinEntities.ParsePort | zipkin/src/lib.rs:189-200 | fails exactly for 0, so negative ports pass; `extract` returns the input |
| ZipkinEntities.PortRoundTrip | zipkin/src/lib.rs:189-200 | every port survives `extract` then `parse` |
| ZipkinEntities.NegativePortAccepted | zipkin/src/lib.rs:189-198 | port -1 is accepted |
| ZipkinEntities.BuildSpan | zipkin/src/lib.rs:335-361 | always succeeds; `kind` is absent, `debug` and `shared` are false, both endpoints absent; every given field is kept |

## Left out

- **FFI entry points and chunk handling.** `thrift-ffi/src/lib.rs`,
  `thrift_ffi/src/lib.rs`, `terminal/thrift_ffi/src/lib.rs` and
  `terminal/src/lib.rs` are not part of this model. They are raw-pointer
  ownership transfer around a transport whose code is not available.
- **`thrift-ffi/src/coroutines.rs`** is not part of this model. It is an
  older coordinator whose behaviour is condition-variable waiting inside its
  write loop. `coroutines/src/lib.rs` supersedes it.
- **`SyncRwBuf` and the real blocking.** `SyncRwBuf`'s unchecked mutable
  aliasing is left out, and so are the real mutex and condition-variable
  blocking. Blocking is represented by finite sequences of peer steps, so no
  liveness property is stated.
- **`Interned::extract` and `Interned::extract_mut`.** Both are left out.
  `extract_mut` takes the cell's write lock and lets its closure update the
  interned value in place. Changing an interned value in place through a
  handle is not modelled. `extract` also returns the closure's own error type, which
  an `InternError` converts into.
- **Debug-build overflow.** `idx += 1` panics on overflow in debug builds.
  The model uses the release-build wrap-around. Freshness lemmas require
  room below `u64::MAX`, so that behaviour is never exercised.
- **Diagnostics and error text.** `eprintln!` diagnostics are left out, and
  so is the text of the formatted error messages. `HandleSplit` returns the
  errors themselves instead of their formatted, newline-joined text.
- **Buffer I/O errors.** The I/O object's own `read` and `write` never fail
  in the buffer model. The `?` on them is therefore not exercised. The
  buffer semantics themselves are an assumption.
- Coordinator.Flush: has no contract of its own. Its property is stated by
  `Coordinator.FlushNeverSucceeds`.
- RecordLookup.ExtractRuntimeHistory: has no contract of its own. Its use is
  stated by `RecordLookup.MergeRunsRuntimes`.
- TableInterning.InternAll: its own contract states only the number of
  results. What each result is, is stated by
  `TableInterning.InternAllNumbersConsecutively`.
- **Floating point.** `ProgressFraction::duration_fraction` is a parameter of
  the model. The statistics of `runtime-inference/src/inference.rs` and
  `src/inference.rs` are not part of this model.
- **Topic, User and UserClient multicast.** Only bare struct declarations
  exist for these, so there is no behaviour to model.
- **Zipkin outside the validators.** These are not part of this model:
  - the tracing subscriber;
  - `ZipkinTimestamp::now`, `Duration::since` and `SpanBuilder` (wall clock);
  - the JSON `extract` of spans, endpoints and annotations;
  - the HTTP exporter.

  UUID generation is modelled only through the random UUID it draws, which
  is passed in.
- **Other parts of the repository** are not part of this model:
  - the command line and async process streaming;
  - build scripts and code generation;
  - the Python driver and plugins.
