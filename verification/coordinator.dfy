/**
  The buffered-channel coordinator `SynchronizedReadWriteBuffer` of
  coroutines/src/lib.rs.

  The underlying I/O object is only known through the `ReadWriteBufferable`
  trait and the `assert!`s of the closures. It is modelled here as a read
  buffer, a write buffer and a write capacity: `write` appends as much as
  fits, `read` takes from the front of the read buffer, and the copy moves the
  whole write buffer behind the read buffer. This buffer model is an
  assumption about the transport, not something the coordinator's source
  fixes. A failed `assert!` (a panic) and an out-of-range slice are reported
  as a `Fault`.

  Each attempt closure of `write_until_complete` / `read_until_complete` is a
  pure step over an explicit context: the I/O object, the OTHER direction's
  cell, and the progress counter the closure captures.
*/
module Coordinator {
  import opened Wrappers
  import StateVar

  newtype byte = x: int | 0 <= x < 256

  /** `ReadBlockingStates`. */
  datatype ReadState = HasData | NeedsData | WasJustCompleted

  /** `WriteBlockingStates`. */
  datatype WriteState = Ready | Blocked | FinishedWrite

  datatype Fault = Panic(reason: string)

  // ---------------------------------------------------------------------
  // The I/O object
  // ---------------------------------------------------------------------

  datatype IoObject = IoObject(readBuffer: seq<byte>, writeBuffer: seq<byte>, writeCapacity: nat)

  predicate ReadHasAny(io: IoObject)
  {
    |io.readBuffer| > 0
  }

  predicate WriteIsFull(io: IoObject)
  {
    |io.writeBuffer| >= io.writeCapacity
  }

  predicate WriteHasAny(io: IoObject)
  {
    |io.writeBuffer| > 0
  }

  /** The bytes of `s` from position `from` up to, not including, `to`; empty when out of range. */
  function Segment(s: seq<byte>, from: nat, to: nat): seq<byte>
  {
    if from <= to <= |s| then s[from..to] else []
  }

  /** Bytes written and not yet read, oldest first. */
  function Pending(io: IoObject): seq<byte>
  {
    io.readBuffer + io.writeBuffer
  }

  /** `copy_write_buffer_to_read_buffer`: keeps the pending stream and empties the write side. */
  function CopyWriteBufferToReadBuffer(io: IoObject): (r: IoObject)
    ensures Pending(r) == Pending(io)
    ensures !WriteHasAny(r) && !WriteIsFull(r) <==> io.writeCapacity > 0
    ensures ReadHasAny(r) <==> ReadHasAny(io) || WriteHasAny(io)
    ensures r.writeCapacity == io.writeCapacity
  {
    IoObject(io.readBuffer + io.writeBuffer, [], io.writeCapacity)
  }

  /** `Write::write` of the I/O object: append as much of `bytes` as fits; returns the count. */
  function IoWrite(io: IoObject, bytes: seq<byte>): (r: (IoObject, nat))
    ensures r.1 <= |bytes| && r.0 == io.(writeBuffer := io.writeBuffer + Segment(bytes, 0, r.1))
    ensures r.1 < |bytes| ==> WriteIsFull(r.0)
    ensures !WriteIsFull(io) && |bytes| > 0 ==> r.1 > 0
  {
    var room := if WriteIsFull(io) then 0 else io.writeCapacity - |io.writeBuffer|;
    var n := if |bytes| < room then |bytes| else room;
    (io.(writeBuffer := io.writeBuffer + bytes[..n]), n)
  }

  /** `Read::read` of the I/O object: take up to `want` bytes from the front of the read buffer. */
  function IoRead(io: IoObject, want: nat): (r: (IoObject, seq<byte>))
    ensures |r.1| <= want
    ensures io.readBuffer == r.1 + r.0.readBuffer
    ensures r.0.writeBuffer == io.writeBuffer && r.0.writeCapacity == io.writeCapacity
    ensures |r.1| < want ==> !ReadHasAny(r.0)
    ensures ReadHasAny(io) && want > 0 ==> |r.1| > 0
  {
    var n := if want < |io.readBuffer| then want else |io.readBuffer|;
    (io.(readBuffer := io.readBuffer[n..]), io.readBuffer[..n])
  }

  // ---------------------------------------------------------------------
  // The coordinator and its invariant
  // ---------------------------------------------------------------------

  datatype Coordinator = Coordinator(io: IoObject, read: StateVar.StateVar<ReadState>, write: StateVar.StateVar<WriteState>)

  /** `SynchronizedReadWriteBuffer::new`. */
  function New(io: IoObject): (c: Coordinator)
    ensures c.io == io
    ensures c.read.state == NeedsData && c.write.state == Ready
  {
    Coordinator(io, StateVar.New(NeedsData), StateVar.New(Ready))
  }

  /** A read side that claims to need data really has an empty read buffer. */
  predicate NeedsDataMeansEmpty(io: IoObject, read: ReadState)
  {
    read == NeedsData ==> !ReadHasAny(io)
  }

  /** What the attempts need so that none of their `assert!`s can fire. */
  predicate Healthy(c: Coordinator)
  {
    c.io.writeCapacity > 0 && NeedsDataMeansEmpty(c.io, c.read.state)
  }

  // ---------------------------------------------------------------------
  // One write attempt
  // ---------------------------------------------------------------------

  /** What a write attempt closure reads and changes besides the write cell it runs under. */
  datatype WriteCtx = WriteCtx(io: IoObject, read: StateVar.StateVar<ReadState>, written: nat)

  /**
    The `read.notify_all_of_new_state` migration at the head of a write
    attempt on a full write buffer: only a read side that needs data is
    refilled, and the copy must turn an empty read buffer into a non-empty
    one. Any other read state is stored back unchanged (and still broadcast).
  */
  function MigrateBeforeWrite(io: IoObject, read: StateVar.StateVar<ReadState>): (r: Result<(IoObject, StateVar.StateVar<ReadState>), Fault>)
    ensures r.Err? <==> read.state == NeedsData && (ReadHasAny(io) || !WriteHasAny(io))
    ensures r.Ok? && read.state == NeedsData ==>
      && !ReadHasAny(io)
      && r.value.0 == CopyWriteBufferToReadBuffer(io)
      && ReadHasAny(r.value.0)
      && r.value.1.state == HasData
    ensures r.Ok? && read.state != NeedsData ==> r.value.0 == io && r.value.1.state == read.state
    ensures r.Ok? ==> Pending(r.value.0) == Pending(io) && r.value.1.broadcasts == read.broadcasts + 1
  {
    match read.state
    case NeedsData =>
      if ReadHasAny(io) then Err(Panic("read buffer not empty before copy"))
      else
        var io' := CopyWriteBufferToReadBuffer(io);
        if !ReadHasAny(io') then Err(Panic("read buffer still empty after copy"))
        else Ok((io', StateVar.NotifyWith(read, HasData)))
    case other => Ok((io, StateVar.NotifyWith(read, other)))
  }

  /** The part of a write attempt after the buffer is known not to be full. */
  function WriteBody(ctx: WriteCtx, slice: seq<byte>): (WriteCtx, Result<WriteState, Fault>)
  {
    if |slice| == 0 then (ctx, Ok(Ready))
    else if ctx.written > |slice| then (ctx, Err(Panic("slice start out of range")))
    else
      var (io', n) := IoWrite(ctx.io, slice[ctx.written..]);
      if n == 0 then (ctx.(io := io'), Err(Panic("written_new > 0")))
      else
        var written' := ctx.written + n;
        if written' == |slice| then (WriteCtx(io', ctx.read, written'), Ok(FinishedWrite))
        else (WriteCtx(io', ctx.read, written'), Ok(Blocked))
  }

  /**
    One invocation of the `write_until_complete` closure. The read side is
    touched only through the migration, which needs a full write buffer; an
    empty slice is a no-op that never reports completion; the bytes accepted
    are the next bytes of the slice, appended behind everything pending.
  */
  function WriteAttempt(ctx: WriteCtx, slice: seq<byte>): (r: (WriteCtx, Result<WriteState, Fault>))
    ensures !WriteIsFull(ctx.io) ==> r.0.read == ctx.read
    ensures r.0.read.state != ctx.read.state ==> ctx.read.state == NeedsData && r.0.read.state == HasData
    ensures r.1.Ok? && WriteIsFull(ctx.io) && ctx.read.state == NeedsData ==>
      !ReadHasAny(ctx.io) && ReadHasAny(CopyWriteBufferToReadBuffer(ctx.io)) && r.0.read.state == HasData
    ensures |slice| == 0 && !WriteIsFull(ctx.io) ==> r == (ctx, Ok(Ready))
    ensures |slice| == 0 ==> r.1 != Ok(FinishedWrite) && r.0.written == ctx.written
    ensures r.1.Ok? ==> ctx.written <= r.0.written
    ensures r.1.Ok? && r.0.written != ctx.written ==> r.0.written <= |slice|
    ensures r.1.Ok? && |slice| > 0 && r.1.value != Blocked ==> r.0.written > ctx.written
    ensures !WriteIsFull(ctx.io) && ctx.written < |slice| ==> r.1.Ok? && r.0.written > ctx.written
    ensures r.1 == Ok(FinishedWrite) <==> r.1.Ok? && |slice| > 0 && r.0.written == |slice| && r.0.written > ctx.written
    ensures r.1 == Ok(Blocked) ==> WriteIsFull(r.0.io)
    ensures r.1.Ok? ==> r.0.written <= |slice| || r.0.written == ctx.written
    ensures r.1.Ok? && ctx.written <= r.0.written <= |slice| ==> Pending(r.0.io) == Pending(ctx.io) + Segment(slice, ctx.written, r.0.written)
    ensures r.0.io.writeCapacity == ctx.io.writeCapacity
  {
    if WriteIsFull(ctx.io) then
      match MigrateBeforeWrite(ctx.io, ctx.read)
      case Err(f) => (ctx, Err(f))
      case Ok(migrated) =>
        var (io1, read1) := migrated;
        if WriteIsFull(io1) then (WriteCtx(io1, read1, ctx.written), Ok(Blocked))
        else WriteBody(WriteCtx(io1, read1, ctx.written), slice)
    else WriteBody(ctx, slice)
  }

  /** On a healthy coordinator a write attempt with bytes still to write never panics, and stays healthy. */
  lemma WriteAttemptHealthy(ctx: WriteCtx, write: StateVar.StateVar<WriteState>, slice: seq<byte>)
    requires Healthy(Coordinator(ctx.io, ctx.read, write))
    requires ctx.written < |slice| || |slice| == 0
    ensures var (ctx', res) := WriteAttempt(ctx, slice);
      res.Ok? && Healthy(Coordinator(ctx'.io, ctx'.read, write))
  {
  }

  // ---------------------------------------------------------------------
  // One read attempt and the pre-read migration
  // ---------------------------------------------------------------------

  /** What a read attempt closure reads and changes besides the read cell it runs under. */
  datatype ReadCtx = ReadCtx(io: IoObject, write: StateVar.StateVar<WriteState>, filled: seq<byte>)

  /** `write.notify_all_of_new_state(|_| { copy; Ready })` as used by readers on an empty read buffer. */
  function RefillForRead(io: IoObject, write: StateVar.StateVar<WriteState>): (r: (IoObject, StateVar.StateVar<WriteState>))
    requires !ReadHasAny(io)
    ensures r.0 == CopyWriteBufferToReadBuffer(io)
    ensures r.1.state == Ready && r.1.broadcasts == write.broadcasts + 1
  {
    (CopyWriteBufferToReadBuffer(io), StateVar.NotifyWith(write, Ready))
  }

  /** The part of a read attempt after the read buffer is known to hold data. */
  function ReadBody(ctx: ReadCtx, len: nat): (ReadCtx, Result<ReadState, Fault>)
  {
    if len == 0 then (ctx, Ok(HasData))
    else if |ctx.filled| > len then (ctx, Err(Panic("slice start out of range")))
    else
      var (io', got) := IoRead(ctx.io, len - |ctx.filled|);
      if |got| == 0 then (ctx.(io := io'), Err(Panic("read_new > 0")))
      else
        var filled' := ctx.filled + got;
        if |filled'| == len then (ReadCtx(io', ctx.write, filled'), Ok(WasJustCompleted))
        else (ReadCtx(io', ctx.write, filled'), Ok(NeedsData))
  }

  /**
    One invocation of the `read_until_complete` closure, filling a slice of
    length `len`. An empty read buffer is first refilled from the write side,
    which is told it is `Ready`; an empty slice is a no-op that never reports
    completion; the bytes delivered are the oldest pending bytes.
  */
  function ReadAttempt(ctx: ReadCtx, len: nat): (r: (ReadCtx, Result<ReadState, Fault>))
    ensures !ReadHasAny(ctx.io) ==> r.0.write.state == Ready
    ensures ReadHasAny(ctx.io) ==> r.0.write == ctx.write
    ensures !ReadHasAny(ctx.io) && !WriteHasAny(ctx.io) ==> r == (ReadCtx(CopyWriteBufferToReadBuffer(ctx.io), r.0.write, ctx.filled), Ok(NeedsData))
    ensures len == 0 ==> r.1 != Ok(WasJustCompleted) && r.0.filled == ctx.filled
    ensures len == 0 && (ReadHasAny(ctx.io) || WriteHasAny(ctx.io)) ==> r.1 == Ok(HasData)
    ensures r.1.Ok? ==> |ctx.filled| <= |r.0.filled| && r.0.filled[..|ctx.filled|] == ctx.filled
    ensures r.1.Ok? && r.0.filled != ctx.filled ==> |r.0.filled| <= len
    ensures r.1.Ok? && |ctx.filled| < len && (ReadHasAny(ctx.io) || WriteHasAny(ctx.io)) ==> |r.0.filled| > |ctx.filled|
    ensures r.1.Ok? && |ctx.filled| < len ==> (r.1.value == WasJustCompleted <==> |r.0.filled| == len)
    ensures r.1 == Ok(NeedsData) ==> !ReadHasAny(r.0.io)
    ensures |ctx.filled| < len || len == 0 ==> r.1.Ok?
    ensures r.1.Ok? ==> |ctx.filled| <= |r.0.filled| && Pending(ctx.io) == r.0.filled[|ctx.filled|..] + Pending(r.0.io)
    ensures r.0.io.writeCapacity == ctx.io.writeCapacity
  {
    if !ReadHasAny(ctx.io) then
      var (io1, write1) := RefillForRead(ctx.io, ctx.write);
      if !ReadHasAny(io1) then (ReadCtx(io1, write1, ctx.filled), Ok(NeedsData))
      else ReadBody(ReadCtx(io1, write1, ctx.filled), len)
    else ReadBody(ctx, len)
  }

  /**
    The migration `read_until_complete` performs before it starts waiting.
    The source's `match` has no arm for `WasJustCompleted`; here that state is
    stored back unchanged without a copy.
  */
  function PreRead(c: Coordinator): (r: Result<Coordinator, Fault>)
    ensures r.Err? <==> c.read.state == NeedsData && ReadHasAny(c.io)
    ensures r.Ok? && c.read.state == NeedsData ==>
      && r.value.io == CopyWriteBufferToReadBuffer(c.io)
      && r.value.write.state == Ready
      && (r.value.read.state == HasData <==> ReadHasAny(r.value.io))
    ensures r.Ok? ==> Pending(r.value.io) == Pending(c.io) && NeedsDataMeansEmpty(r.value.io, r.value.read.state)
    ensures r.Ok? ==> r.value.io.writeCapacity == c.io.writeCapacity
  {
    match c.read.state
    case NeedsData =>
      if ReadHasAny(c.io) then Err(Panic("read buffer not empty in NeedsData"))
      else
        var (io1, write1) := RefillForRead(c.io, c.write);
        Ok(Coordinator(io1, StateVar.NotifyWith(c.read, if ReadHasAny(io1) then HasData else NeedsData), write1))
    case HasData =>
      if !ReadHasAny(c.io) then
        var (io1, write1) := RefillForRead(c.io, c.write);
        Ok(Coordinator(io1, StateVar.NotifyWith(c.read, if ReadHasAny(io1) then HasData else NeedsData), write1))
      else Ok(c.(read := StateVar.NotifyWith(c.read, HasData)))
    case WasJustCompleted => Ok(c.(read := StateVar.NotifyWith(c.read, WasJustCompleted)))
  }

  // ---------------------------------------------------------------------
  // Whole calls
  // ---------------------------------------------------------------------

  /**
    The outcome of a call that may block: it returns (with a value or a
    fault), or it is still waiting once the given peer steps are used up.
  */
  datatype Call<T> = Returns(c: Coordinator, result: Result<T, Fault>) | Suspended(c: Coordinator)

  /** `write_until_complete`: drive write attempts until one reports `FinishedWrite`. */
  function WriteUntilComplete(c: Coordinator, slice: seq<byte>, peers: seq<StateVar.Peer<WriteCtx, WriteState>>): (r: Call<Unit>)
    ensures r.Returns? ==> r.c.write.state == FinishedWrite
    ensures r.Suspended? ==> r.c.write.state != FinishedWrite
  {
    var w := StateVar.WaitForSlot(WriteCtx(c.io, c.read, 0), c.write, FinishedWrite, ctx => WriteAttempt(ctx, slice), peers);
    match w
    case Returned(ctx, sv, res, _) =>
      Returns(Coordinator(ctx.io, ctx.read, sv), if res.Ok? then Ok(Unit) else Err(res.error))
    case Waiting(ctx, sv, _) => Suspended(Coordinator(ctx.io, ctx.read, sv))
  }

  /** `read_until_complete`: migrate, then drive read attempts until one reports `WasJustCompleted`. */
  function ReadUntilComplete(c: Coordinator, len: nat, peers: seq<StateVar.Peer<ReadCtx, ReadState>>): (r: Call<seq<byte>>)
    ensures r.Returns? && r.result.Ok? ==> r.c.read.state == WasJustCompleted
    ensures r.Suspended? ==> r.c.read.state != WasJustCompleted
  {
    match PreRead(c)
    case Err(f) => Returns(c, Err(f))
    case Ok(c1) =>
      var w := StateVar.WaitForSlot(ReadCtx(c1.io, c1.write, []), c1.read, WasJustCompleted, ctx => ReadAttempt(ctx, len), peers);
      match w
      case Returned(ctx, sv, res, _) =>
        Returns(Coordinator(ctx.io, sv, ctx.write), if res.Ok? then Ok(ctx.filled) else Err(res.error))
      case Waiting(ctx, sv, _) => Suspended(Coordinator(ctx.io, sv, ctx.write))
  }

  /** `Write::write`: a completed write reports the whole slice length. */
  function Write(c: Coordinator, slice: seq<byte>, peers: seq<StateVar.Peer<WriteCtx, WriteState>>): (r: Call<nat>)
    ensures r.Returns? && r.result.Ok? ==> r.result.value == |slice|
    ensures r.Returns? && r.result.Ok? ==> |slice| > 0
  {
    match WriteUntilComplete(c, slice, peers)
    case Returns(c', Ok(_)) =>
      WriteCompletesOnlyNonEmpty(c, slice, peers);
      Returns(c', Ok(|slice|))
    case Returns(c', Err(f)) => Returns(c', Err(f))
    case Suspended(c') => Suspended(c')
  }

  /** `Read::read`: a completed read has filled the whole slice, whose length it reports. */
  function Read(c: Coordinator, len: nat, peers: seq<StateVar.Peer<ReadCtx, ReadState>>): (r: Call<seq<byte>>)
    ensures r.Returns? && r.result.Ok? ==> |r.result.value| == len && len > 0
  {
    ReadCompletesFilled(c, len, peers);
    ReadUntilComplete(c, len, peers)
  }

  /** `Write::flush`: an empty write followed by an empty read. */
  function Flush(c: Coordinator, writePeers: seq<StateVar.Peer<WriteCtx, WriteState>>, readPeers: seq<StateVar.Peer<ReadCtx, ReadState>>): (r: Call<Unit>)
  {
    match WriteUntilComplete(c, [], writePeers)
    case Returns(c1, Ok(_)) =>
      (match ReadUntilComplete(c1, 0, readPeers)
       case Returns(c2, res) => Returns(c2, if res.Ok? then Ok(Unit) else Err(res.error))
       case Suspended(c2) => Suspended(c2))
    case Returns(c1, Err(f)) => Returns(c1, Err(f))
    case Suspended(c1) => Suspended(c1)
  }

  /** A write returns `Ok` only after an attempt wrote the last byte of a non-empty slice. */
  lemma WriteCompletesOnlyNonEmpty(c: Coordinator, slice: seq<byte>, peers: seq<StateVar.Peer<WriteCtx, WriteState>>)
    ensures var r := WriteUntilComplete(c, slice, peers);
      r.Returns? && r.result.Ok? ==> |slice| > 0
  {
    var action := (ctx: WriteCtx) => WriteAttempt(ctx, slice);
    var post := (ctx: WriteCtx) => |slice| > 0 && ctx.written == |slice|;
    StateVar.OkOnlyAfterConvergence(WriteCtx(c.io, c.read, 0), c.write, FinishedWrite, action, peers, post);
  }

  /** A read returns `Ok` only after an attempt filled the last position of a non-empty slice. */
  lemma ReadCompletesFilled(c: Coordinator, len: nat, peers: seq<StateVar.Peer<ReadCtx, ReadState>>)
    ensures var r := ReadUntilComplete(c, len, peers);
      r.Returns? && r.result.Ok? ==> |r.result.value| == len && len > 0
  {
    if PreRead(c).Ok? {
      var c1 := PreRead(c).value;
      var action := (ctx: ReadCtx) => ReadAttempt(ctx, len);
      var post := (ctx: ReadCtx) => len > 0 && |ctx.filled| == len;
      assert StateVar.ConvergenceEstablishes(action, WasJustCompleted, post) by {
        forall ctx: ReadCtx | action(ctx).1 == Ok(WasJustCompleted)
          ensures post(action(ctx).0)
        {
          ReadAttemptCompletion(ctx, len);
        }
      }
      StateVar.OkOnlyAfterConvergence(ReadCtx(c1.io, c1.write, []), c1.read, WasJustCompleted, action, peers, post);
    }
  }

  /** An attempt reports `WasJustCompleted` only with a full, non-empty slice. */
  lemma ReadAttemptCompletion(ctx: ReadCtx, len: nat)
    requires ReadAttempt(ctx, len).1 == Ok(WasJustCompleted)
    ensures len > 0 && |ReadAttempt(ctx, len).0.filled| == len
  {
  }

  /** A flush never returns `Ok`: its empty write can never report `FinishedWrite`. */
  lemma FlushNeverSucceeds(c: Coordinator, writePeers: seq<StateVar.Peer<WriteCtx, WriteState>>, readPeers: seq<StateVar.Peer<ReadCtx, ReadState>>)
    ensures var r := Flush(c, writePeers, readPeers);
      !(r.Returns? && r.result.Ok?)
  {
    WriteCompletesOnlyNonEmpty(c, [], writePeers);
  }

  /**
    On a new coordinator the write cell holds `Ready`. As long as other threads
    store only what readers store into it (`Ready`) or what waiting writers
    leave (`Blocked`), no write attempt ever runs: the write stays suspended.
  */
  lemma {:induction false} WriteNeverStartsFromNew(io: IoObject, slice: seq<byte>, peers: seq<StateVar.Peer<WriteCtx, WriteState>>)
    requires StateVar.PeersAvoid(peers, FinishedWrite)
    ensures WriteUntilComplete(New(io), slice, peers).Suspended?
  {
    var c := New(io);
    StateVar.NeverRunsUnlessTargetStored(WriteCtx(c.io, c.read, 0), c.write, FinishedWrite, (ctx: WriteCtx) => WriteAttempt(ctx, slice), peers);
  }

  /**
    On a new coordinator the read cell never holds `WasJustCompleted` before a
    read attempt has run, so with other threads storing only `HasData` or
    `NeedsData` no read attempt ever runs: the read stays suspended. (A new
    coordinator over an I/O object whose read buffer already holds bytes
    panics in the pre-read migration instead.)
  */
  lemma {:induction false} ReadNeverStartsFromNew(io: IoObject, len: nat, peers: seq<StateVar.Peer<ReadCtx, ReadState>>)
    requires StateVar.PeersAvoid(peers, WasJustCompleted)
    ensures var r := ReadUntilComplete(New(io), len, peers);
      if ReadHasAny(io) then r.Returns? && r.result.Err? else r.Suspended?
  {
    var c := New(io);
    if ReadHasAny(io) {
      return;
    }
    var c1 := PreRead(c).value;
    assert c1.read.state != WasJustCompleted;
    StateVar.NeverRunsUnlessTargetStored(ReadCtx(c1.io, c1.write, []), c1.read, WasJustCompleted, (ctx: ReadCtx) => ReadAttempt(ctx, len), peers);
  }

  /**
    The attempt steps alone, interleaved by hand, move a stream through a
    write buffer of capacity 4 in order: the writer is blocked after four
    bytes, the reader takes them, the writer finishes, the reader completes.
  */
  lemma StepsDeliverInOrder()
    ensures var bytes: seq<byte> := [1, 2, 3, 4, 5, 6];
      var w1 := WriteAttempt(WriteCtx(IoObject([], [], 4), StateVar.New(NeedsData), 0), bytes);
      var r1 := ReadAttempt(ReadCtx(w1.0.io, StateVar.New(w1.1.value), []), 6);
      var w2 := WriteAttempt(WriteCtx(r1.0.io, w1.0.read, w1.0.written), bytes);
      var r2 := ReadAttempt(ReadCtx(w2.0.io, r1.0.write, r1.0.filled), 6);
      && w1.1 == Ok(Blocked) && w1.0.written == 4
      && r1.1 == Ok(NeedsData) && r1.0.filled == bytes[..4]
      && w2.1 == Ok(FinishedWrite)
      && r2.1 == Ok(WasJustCompleted) && r2.0.filled == bytes
      && Pending(r2.0.io) == []
  {
    var bytes: seq<byte> := [1, 2, 3, 4, 5, 6];
    var w1 := WriteAttempt(WriteCtx(IoObject([], [], 4), StateVar.New(NeedsData), 0), bytes);
    assert w1.0.io.writeBuffer == bytes[..4];
    var r1 := ReadAttempt(ReadCtx(w1.0.io, StateVar.New(w1.1.value), []), 6);
    assert r1.0.filled == bytes[..4];
    var w2 := WriteAttempt(WriteCtx(r1.0.io, w1.0.read, w1.0.written), bytes);
    assert w2.0.io.writeBuffer == bytes[4..];
    var r2 := ReadAttempt(ReadCtx(w2.0.io, r1.0.write, r1.0.filled), 6);
    assert r2.0.filled == bytes[..4] + bytes[4..];
  }
}
