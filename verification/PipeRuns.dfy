/** Whole runs of a pipe, with any persistence limit: appends, reads and drops in any order. As long as
    no read is harmful, the pipe is a byte FIFO, and the persisted content is what was appended. */
module PipeRuns {
  import opened Bytes
  import opened Pipe

  datatype Op = Append(bytes: seq<Byte>) | DropWriter | DropReader | Read(room: nat)

  datatype Output = Appended(ok: bool) | Dropped | Gave(poll: Poll, bytes: seq<Byte>)

  /** The FIFO: the buffers that were accepted, and how many of their bytes were read. */
  datatype Fifo = Fifo(buffers: seq<seq<Byte>>, total: nat, writerLive: bool, readerLive: bool)

  const EMPTY := Fifo([], 0, true, true)

  predicate Sound(f: Fifo) {
    f.total <= |Concat(f.buffers)|
  }

  /** The bytes that a read of `room` bytes gives. */
  function Taken(f: Fifo, room: nat): seq<Byte>
    requires Sound(f)
  {
    var all := Concat(f.buffers);
    all[f.total..f.total + Min(|all| - f.total, room)]
  }

  predicate Legal(f: Fifo, op: Op) {
    match op
    case Append(_) => f.writerLive
    case DropWriter => f.writerLive
    case DropReader => f.readerLive
    case Read(_) => f.readerLive
  }

  /** A read is harmless unless it crosses the limit as `Harmful` says. */
  ghost predicate Harmless(f: Fifo, op: Op, limit: nat)
    requires Sound(f)
  {
    op.Read? && op.room > 0 ==> !Harmful(f.buffers, f.total, limit, f.total + |Taken(f, op.room)|)
  }

  function Next(f: Fifo, op: Op): (r: Fifo)
    requires Sound(f)
    ensures Sound(r)
  {
    match op
    case Append(bytes) =>
      ConcatSnoc(f.buffers, bytes);
      if f.readerLive then f.(buffers := f.buffers + [bytes]) else f
    case DropWriter => f.(writerLive := false)
    case DropReader => f.(readerLive := false)
    case Read(room) => f.(total := f.total + |Taken(f, room)|)
  }

  /** A read that gives nothing is pending while the writer lives, and at the end of the input otherwise. */
  function Result(f: Fifo, op: Op): Output
    requires Sound(f)
  {
    match op
    case Append(_) => Appended(f.readerLive)
    case DropWriter => Dropped
    case DropReader => Dropped
    case Read(room) =>
      var taken := Taken(f, room);
      Gave(if room > 0 && taken == [] && f.writerLive then Pending else Ready(|taken|), taken)
  }

  ghost predicate Fair(f: Fifo, ops: seq<Op>, limit: nat)
    requires Sound(f)
    decreases |ops|
  {
    ops == [] || (Legal(f, ops[0]) && Harmless(f, ops[0], limit) && Fair(Next(f, ops[0]), ops[1..], limit))
  }

  function Results(f: Fifo, ops: seq<Op>): seq<Output>
    requires Sound(f)
    decreases |ops|
  {
    if ops == [] then [] else [Result(f, ops[0])] + Results(Next(f, ops[0]), ops[1..])
  }

  function End(f: Fifo, ops: seq<Op>): (r: Fifo)
    requires Sound(f)
    ensures Sound(r)
    decreases |ops|
  {
    if ops == [] then f else End(Next(f, ops[0]), ops[1..])
  }

  /** What the full content is at the end of a run. */
  function Fetched(f: Fifo, limit: nat): Fetch
    requires Sound(f)
  {
    if f.total >= limit then NoContent
    else if f.total == |Concat(f.buffers)| then Content(Concat(f.buffers))
    else AssertionFailed
  }

  // ----- The FIFO is one

  function BytesRead(outs: seq<Output>): seq<Byte> {
    if outs == [] then [] else (if outs[0].Gave? then outs[0].bytes else []) + BytesRead(outs[1..])
  }

  function Accepted(ops: seq<Op>, outs: seq<Output>): seq<seq<Byte>>
    requires |ops| == |outs|
  {
    if ops == [] then []
    else (if ops[0].Append? && outs[0] == Appended(true) then [ops[0].bytes] else []) + Accepted(ops[1..], outs[1..])
  }

  /** Whatever the order of the operations: what was read, followed by what is unread, is what was accepted. */
  lemma {:induction false} ReadsInOrder(f: Fifo, ops: seq<Op>)
    requires Sound(f)
    ensures |Results(f, ops)| == |ops|
    ensures var outs, end := Results(f, ops), End(f, ops);
      && end.buffers == f.buffers + Accepted(ops, outs)
      && Concat(f.buffers)[..f.total] + BytesRead(outs) == Concat(end.buffers)[..end.total]
    decreases |ops|
  {
    if ops == [] {
      assert f.buffers + [] == f.buffers;
    } else {
      var next, out := Next(f, ops[0]), Result(f, ops[0]);
      ReadsInOrder(next, ops[1..]);
      var outs := Results(next, ops[1..]);
      assert ([out] + outs)[1..] == outs;
      OneStep(f, ops[0]);
      Assoc(f.buffers, if ops[0].Append? && out == Appended(true) then [ops[0].bytes] else [],
        Accepted(ops[1..], outs));
      Assoc(Concat(f.buffers)[..f.total], if out.Gave? then out.bytes else [], BytesRead(outs));
    }
  }

  lemma OneStep(f: Fifo, op: Op)
    requires Sound(f)
    ensures var next, out := Next(f, op), Result(f, op);
      && next.buffers == f.buffers + (if op.Append? && out == Appended(true) then [op.bytes] else [])
      && Concat(f.buffers)[..f.total] + (if out.Gave? then out.bytes else []) == Concat(next.buffers)[..next.total]
  {
    if op.Append? {
      ConcatSnoc(f.buffers, op.bytes);
    }
  }

  // ----- The pipe is that FIFO

  /** The pipe holds what the FIFO holds; while the limit is not reached, even the same buffers. */
  ghost predicate Holds(f: Fifo, reader: PipeReader, writer: PipeWriter)
    reads reader, reader.inner
  {
    && Sound(f) && writer.inner == reader.inner && reader.inner.Counted()
    && f.writerLive == reader.inner.writerLive && f.readerLive == reader.inner.readerLive
    && reader.totalRead == f.total && reader.inner.appended == Concat(f.buffers)
    && (f.readerLive ==> reader.Valid() && (f.total < reader.inner.maxPersistence ==> reader.inner.data == f.buffers))
  }

  method RunOp(op: Op, reader: PipeReader, writer: PipeWriter, ghost f: Fifo) returns (out: Output)
    requires Holds(f, reader, writer) && Legal(f, op) && Harmless(f, op, reader.inner.maxPersistence)
    modifies reader, reader.inner
    ensures Holds(Next(f, op), reader, writer) && out == Result(f, op)
  {
    match op
    case Append(bytes) =>
      ConcatSnoc(f.buffers, bytes);
      if f.readerLive {
        AppendIsFaithful(reader.inner.data, reader.segmentIndex, reader.segmentSubindex, reader.totalRead,
          reader.inner.appended, reader.inner.maxPersistence, bytes);
      }
      var ok := writer.Append(bytes);
      out := Appended(ok);
    case DropWriter =>
      writer.Drop();
      out := Dropped;
    case DropReader =>
      reader.Drop();
      out := Dropped;
    case Read(room) =>
      out := RunRead(room, reader, writer, f);
  }

  lemma FilledIsTaken(now: seq<Byte>, f: Fifo, room: nat, count: nat)
    requires Sound(f) && |now| == room && count == Min(|Concat(f.buffers)| - f.total, room)
    requires forall j :: 0 <= j < count ==> now[j] == Concat(f.buffers)[f.total + j]
    ensures now[..count] == Taken(f, room)
  {
  }

  method RunRead(room: nat, reader: PipeReader, writer: PipeWriter, ghost f: Fifo) returns (out: Output)
    requires Holds(f, reader, writer) && f.readerLive && Harmless(f, Read(room), reader.inner.maxPersistence)
    modifies reader, reader.inner
    ensures Holds(Next(f, Read(room)), reader, writer) && out == Result(f, Read(room))
  {
    var buf := new Byte[room];
    var poll := reader.PollRead(buf, 0);
    var count := if poll.Ready? then poll.count else 0;
    FilledIsTaken(buf[..], f, room, count);
    out := Gave(poll, buf[..count]);
  }

  /** Any run without a harmful read, with any limit, gives what the FIFO gives; and if the reader is still
      there, the full content at its end is everything appended when that was read below the limit. */
  method Run(limit: nat, ops: seq<Op>) returns (outs: seq<Output>, fetch: Option<Fetch>)
    requires Fair(EMPTY, ops, limit)
    ensures outs == Results(EMPTY, ops)
    ensures var end := End(EMPTY, ops); fetch == if end.readerLive then Some(Fetched(end, limit)) else None
  {
    var reader, writer := NewPipe(limit);
    ghost var f := EMPTY;
    var readerLive := true;
    outs := [];
    for i := 0 to |ops|
      invariant fresh(reader) && fresh(reader.inner) && reader.inner.maxPersistence == limit
      invariant Holds(f, reader, writer) && Fair(f, ops[i..], limit) && readerLive == f.readerLive
      invariant outs + Results(f, ops[i..]) == Results(EMPTY, ops) && End(f, ops[i..]) == End(EMPTY, ops)
    {
      assert ops[i..][1..] == ops[i + 1..];
      Assoc(outs, [Result(f, ops[i])], Results(Next(f, ops[i]), ops[i + 1..]));
      var out := RunOp(ops[i], reader, writer, f);
      outs := outs + [out];
      f := Next(f, ops[i]);
      readerLive := readerLive && !ops[i].DropReader?;
    }
    if readerLive {
      var content := reader.FetchFullContent();
      fetch := Some(content);
    } else {
      fetch := None;
    }
  }
}
