/** A body that is read while it is still being written. A reader that awaits is polled again
    whenever the writer has had a turn; a turn appends any number of buffers (none, several, empty
    ones), and when no turn is left the writer is dropped. Where reads are suspended and how the
    bytes are cut into buffers is therefore arbitrary; what is delivered is not. */
module Body {
  import opened Bytes
  import opened Pipe

  class Body {
    const reader: PipeReader
    const writer: PipeWriter
    var turns: seq<seq<seq<Byte>>>
    /** Everything appended so far and in the turns to come. */
    ghost const content: seq<Byte>

    ghost predicate Valid()
      reads this, reader, reader.inner
    {
      && writer.inner == reader.inner
      && reader.Valid() && reader.inner.maxPersistence == 0
      && (turns != [] ==> reader.inner.writerLive)
      && content == reader.inner.appended + Concat(Concat(turns))
    }

    /** The bytes not read yet, whether or not they have been appended. */
    ghost function Rest(): (rest: seq<Byte>)
      reads this, reader, reader.inner
      requires Valid()
      ensures |rest| + reader.totalRead == |content|
    {
      content[reader.totalRead..]
    }

    /** `appended`: what is in the pipe already; `turns`: what the writer will do. */
    constructor (appended: seq<seq<Byte>>, turns: seq<seq<seq<Byte>>>)
      ensures Valid() && fresh(reader) && fresh(reader.inner) && fresh(writer)
      ensures reader.totalRead == 0
      ensures content == Concat(appended) + Concat(Concat(turns)) && Rest() == content
    {
      var r, w := NewPipe(0);
      AppendAll(r, w, appended);
      reader := r;
      writer := w;
      this.turns := turns;
      content := Concat(appended) + Concat(Concat(turns));
    }

    static method AppendOne(reader: PipeReader, writer: PipeWriter, bytes: seq<Byte>)
      requires writer.inner == reader.inner && reader.Valid() && reader.inner.writerLive
      modifies reader.inner`data, reader.inner`appended
      ensures reader.Valid()
      ensures reader.inner.appended == old(reader.inner.appended) + bytes
    {
      AppendIsFaithful(reader.inner.data, reader.segmentIndex, reader.segmentSubindex, reader.totalRead,
        reader.inner.appended, reader.inner.maxPersistence, bytes);
      var ok := writer.Append(bytes);
    }

    static method AppendAll(reader: PipeReader, writer: PipeWriter, buffers: seq<seq<Byte>>)
      requires writer.inner == reader.inner && reader.Valid() && reader.inner.writerLive
      modifies reader.inner`data, reader.inner`appended
      ensures reader.Valid()
      ensures reader.inner.appended == old(reader.inner.appended) + Concat(buffers)
    {
      ghost var before := reader.inner.appended;
      for i := 0 to |buffers|
        invariant reader.Valid()
        invariant reader.inner.appended == before + Concat(buffers[..i])
      {
        AppendOne(reader, writer, buffers[i]);
        ConcatUpTo(buffers, i);
        Assoc(before, Concat(buffers[..i]), buffers[i]);
      }
      assert buffers[..|buffers|] == buffers;
    }

    /** The writer's turn: its next buffers, or its end. */
    method WriterTurn()
      requires Valid() && reader.inner.writerLive
      modifies this, reader.inner
      ensures Valid() && reader.totalRead == old(reader.totalRead)
      ensures reader.inner.writerLive ==> |turns| < |old(turns)|
    {
      if turns == [] {
        writer.Drop();
      } else {
        ConcatAppend(turns[0], Concat(turns[1..]));
        AppendAll(reader, writer, turns[0]);
        turns := turns[1..];
      }
    }

    /** `read(&mut buf[from..]).await`: polls, letting the writer have a turn whenever the poll is
        pending. It gives some of the next bytes, at least one; none exactly at the end. */
    method Read(buf: array<Byte>, from: nat) returns (n: nat)
      requires Valid() && from < buf.Length
      modifies this, reader, reader.inner, buf
      ensures Valid()
      ensures reader.totalRead == old(reader.totalRead) + n && from + n <= buf.Length
      ensures n == 0 <==> old(Rest()) == []
      ensures Filled(buf[..], old(buf[..]), from, content, old(reader.totalRead), n)
    {
      while true
        invariant Valid() && reader.totalRead == old(reader.totalRead)
        invariant buf[..] == old(buf[..])
        decreases |turns|, reader.inner.writerLive
      {
        var p := reader.PollRead(buf, from);
        if p.Ready? {
          return p.count;
        }
        WriterTurn();
      }
    }

    /** `maybe_read_u8`; `read_u8` is the same with the end of the body as an error. */
    method ReadU8() returns (b: Option<Byte>)
      requires Valid()
      modifies this, reader, reader.inner
      ensures Valid()
      ensures old(Rest()) == [] ==> b == None && Rest() == []
      ensures old(Rest()) != [] ==> b == Some(old(Rest())[0]) && Rest() == old(Rest())[1..]
    {
      var out := new Byte[1];
      var n := Read(out, 0);
      return if n == 0 then None else Some(out[0]);
    }
  }
}
