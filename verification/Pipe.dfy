/** The reactor-less byte pipe: a shared list of buffers, a writer that appends to it and a reader
    with a two-part cursor into it. The reader refines a byte FIFO. */
module Pipe {
  import opened Bytes

  /** What one poll of the reader gives. `Panic` is an index or slice out of range. */
  datatype Poll = Ready(count: nat) | Pending | Panic

  /** What asking for the full content gives. `AssertionFailed` is the length assertion. */
  datatype Fetch = NoContent | Content(bytes: seq<Byte>) | AssertionFailed

  /** The bytes a cursor has not passed. */
  function Unread(data: seq<seq<Byte>>, index: nat, subindex: nat): seq<Byte>
    requires index < |data| ==> subindex <= |data[index]|
  {
    if index < |data| then data[index][subindex..] + Concat(data[index + 1..]) else []
  }

  /** The buffer `was` with `count` bytes of `source`, from offset `start` on, written at `at`. */
  predicate Filled(now: seq<Byte>, was: seq<Byte>, at: nat, source: seq<Byte>, start: nat, count: nat) {
    && |now| == |was| && at + count <= |was| && start + count <= |source|
    && forall j {:trigger now[j]} :: 0 <= j < |was| ==>
      now[j] == if at <= j < at + count then source[start + (j - at)] else was[j]
  }

  lemma FillMore(now: seq<Byte>, mid: seq<Byte>, was: seq<Byte>, at: nat, source: seq<Byte>,
                 start: nat, a: nat, b: nat)
    requires Filled(mid, was, at, source, start, a) && Filled(now, mid, at + a, source, start + a, b)
    ensures Filled(now, was, at, source, start, a + b)
  {
  }

  /** A cursor is inside a segment, or at the start of one, or past the last one. */
  predicate CursorOk(data: seq<seq<Byte>>, index: nat, subindex: nat) {
    && index <= |data|
    && (subindex == 0 || (index < |data| && subindex < |data[index]|))
  }

  /** The offset `end` lies `k` bytes inside segment `i`. */
  predicate StopsInside(data: seq<seq<Byte>>, end: nat, i: nat, k: nat) {
    i < |data| && 0 < k < |data[i]| && |Concat(data[..i])| + k == end
  }

  /** Reading from offset `total` to offset `end` crosses the persistence limit inside a segment,
      at a distance into it that exceeds its index. The clean-up loop, which takes that distance
      for a segment index, then clears the very segment that is still being read. */
  ghost predicate Harmful(data: seq<seq<Byte>>, total: nat, limit: nat, end: nat) {
    && total < limit <= end
    && exists i: nat, k: nat ::
      StopsInside(data, end, i, k) && |Concat(data[..i])| < limit && i < k
  }

  lemma HarmfulKept(a: seq<seq<Byte>>, b: seq<seq<Byte>>, total: nat, limit: nat, end: nat)
    requires total < limit ==> a == b
    ensures Harmful(a, total, limit, end) == Harmful(b, total, limit, end)
  {
  }

  lemma OffsetsGrow(data: seq<seq<Byte>>, i: nat, j: nat)
    requires i < j <= |data|
    ensures |Concat(data[..i])| + |data[i]| <= |Concat(data[..j])|
  {
    ConcatUpTo(data, i);
    assert data[..j] == data[..i + 1] + data[i + 1..j];
    ConcatAppend(data[..i + 1], data[i + 1..j]);
  }

  /** While nothing has been cleared, the cursor's offset is the length of what was read. */
  lemma {:induction false} CursorOffset(data: seq<seq<Byte>>, index: nat, subindex: nat)
    requires CursorOk(data, index, subindex)
    ensures |Concat(data[..index])| + subindex + |Unread(data, index, subindex)| == |Concat(data)|
  {
    if index < |data| {
      ConcatSplit(data, index);
    } else {
      assert data[..index] == data;
    }
  }

  /** Taking as much of the segment under the cursor as `room` allows, in a read that goes on to
      offset `end`: when the read is harmful. */
  lemma {:induction false} HarmfulTake(data: seq<seq<Byte>>, all: seq<Byte>, total: nat, limit: nat, i: nat, k: nat,
                                       room: nat, end: nat)
    requires i < |data| && k < |data[i]| && total < end <= |all| && end <= total + room
    requires CursorOk(data, i, k) && Unread(data, i, k) == all[total..]
    requires total < limit ==> Concat(data) == all
    requires end < total + room ==> end == |all|
    ensures var size := Min(|data[i]| - k, room);
      && total + size <= end
      && (total + size == end ==>
          (Harmful(data, total, limit, end) <==>
            total < limit <= end && i < (if k + size == |data[i]| then 0 else k + size)))
      && (total + size < end && limit <= total + size ==> !Harmful(data, total, limit, end))
  {
    var size := Min(|data[i]| - k, room);
    TailBytes(data, i, k, all, total);
    if total < limit {
      CursorOffset(data, i, k);
      forall i': nat, k': nat | StopsInside(data, end, i', k')
        ensures if total + size < end then |Concat(data[..i'])| >= total + size else i' == i && k' == k + size
      {
        if i' < i {
          OffsetsGrow(data, i', i);
        } else if i < i' {
          OffsetsGrow(data, i, i');
        }
      }
      if total + size == end && k + size < |data[i]| {
        assert StopsInside(data, end, i, k + size);
      }
    }
  }

  /** Only the segments from the cursor on matter to what is unread. */
  lemma UnreadDependsOnTail(a: seq<seq<Byte>>, b: seq<seq<Byte>>, index: nat, subindex: nat)
    requires |a| == |b| && index <= |a| && a[index..] == b[index..]
    requires index < |a| ==> subindex <= |a[index]|
    ensures index < |b| ==> b[index] == a[index]
    ensures Unread(a, index, subindex) == Unread(b, index, subindex)
  {
    if index < |a| {
      assert a[index] == a[index..][0] == b[index..][0];
      assert a[index + 1..] == a[index..][1..] == b[index..][1..];
    }
  }

  lemma ClearUnaffected(data: seq<seq<Byte>>, index: nat)
    requires index < |data|
    ensures Unread(data[index := []], index + 1, 0) == Unread(data, index + 1, 0)
  {
    assert data[index := []][index + 1..] == data[index + 1..];
    UnreadDependsOnTail(data, data[index := []], index + 1, 0);
  }

  /** Moving the cursor by `size` drops `size` bytes from what is unread. */
  lemma Move(data: seq<seq<Byte>>, index: nat, subindex: nat, size: nat)
    requires index < |data| && subindex + size <= |data[index]|
    ensures var rest := Unread(data, index, subindex);
      && size <= |rest|
      && Unread(data, index, subindex + size) == rest[size..]
      && (subindex + size == |data[index]| ==> Unread(data, index + 1, 0) == rest[size..])
  {
    DropFromFirst(data[index], Concat(data[index + 1..]), subindex, size);
    if index + 1 < |data| {
      ConcatFrom(data, index + 1);
    }
  }

  /** Moving a cursor that has `all[start..]` before it, also off the end of its segment, which may then
      be cleared. */
  lemma CursorMoves(data: seq<seq<Byte>>, index: nat, subindex: nat, size: nat, all: seq<Byte>, start: nat)
    requires index < |data| && subindex + size <= |data[index]| && start <= |all|
    requires Unread(data, index, subindex) == all[start..]
    ensures start + size <= |all| && Unread(data, index, subindex + size) == all[start + size..]
    ensures subindex + size == |data[index]| ==>
      Unread(data, index + 1, 0) == Unread(data[index := []], index + 1, 0) == all[start + size..]
  {
    Move(data, index, subindex, size);
    ClearUnaffected(data, index);
    assert all[start..][size..] == all[start + size..];
  }

  /** The segment under the cursor starts what is unread. */
  lemma TailBytes(data: seq<seq<Byte>>, index: nat, subindex: nat, all: seq<Byte>, start: nat)
    requires index < |data| && subindex <= |data[index]| && start <= |all|
    requires Unread(data, index, subindex) == all[start..]
    ensures |data[index]| - subindex <= |all| - start
    ensures data[index][subindex..] == all[start..start + |data[index]| - subindex]
  {
    var len := |data[index]| - subindex;
    assert data[index][subindex..] == Unread(data, index, subindex)[..len] == all[start..][..len];
  }

  /** The first persistence counterexample: limit 2, one segment of five bytes, a read of three. */
  lemma HarmfulExample()
    ensures Harmful([[1, 2, 3, 4, 5]], 0, 2, 3)
  {
    var data: seq<seq<Byte>> := [[1, 2, 3, 4, 5]];
    assert data[..0] == [];
    assert StopsInside(data, 3, 0, 3);
  }

  class PipeInner {
    const maxPersistence: nat
    var data: seq<seq<Byte>>
    var handles: nat
    ghost var appended: seq<Byte>
    ghost var writerLive: bool
    ghost var readerLive: bool

    /** The reference count. */
    ghost predicate Counted()
      reads this
    {
      handles == (if writerLive then 1 else 0) + (if readerLive then 1 else 0)
    }

    constructor (limit: nat)
      ensures maxPersistence == limit && data == [] && Counted()
      ensures appended == [] && writerLive && readerLive
    {
      maxPersistence := limit;
      data := [];
      handles := 2;
      appended := [];
      writerLive, readerLive := true, true;
    }
  }

  class PipeWriter {
    const inner: PipeInner

    constructor (shared: PipeInner)
      ensures inner == shared
    {
      inner := shared;
    }

    /** Appends one buffer, unless the reader is gone. */
    method Append(bytes: seq<Byte>) returns (ok: bool)
      requires inner.writerLive && inner.Counted()
      modifies inner`data, inner`appended
      ensures ok == inner.readerLive
      ensures inner.data == if ok then old(inner.data) + [bytes] else old(inner.data)
      ensures inner.appended == if ok then old(inner.appended) + bytes else old(inner.appended)
    {
      if inner.handles != 2 {
        return false;
      }
      inner.data := inner.data + [bytes];
      inner.appended := inner.appended + bytes;
      return true;
    }

    method Drop()
      requires inner.writerLive && inner.Counted()
      modifies inner`handles, inner`writerLive
      ensures inner.Counted() && !inner.writerLive
    {
      inner.handles := inner.handles - 1;
      inner.writerLive := false;
    }
  }

  /** The unread bytes are exactly the appended bytes that were not read yet; and nothing has been
      cleared while `total` is below the limit. */
  ghost predicate Faithful(data: seq<seq<Byte>>, index: nat, subindex: nat, total: nat, appended: seq<Byte>,
                           limit: nat)
  {
    && CursorOk(data, index, subindex)
    && total <= |appended|
    && Unread(data, index, subindex) == appended[total..]
    && (total < limit ==> Concat(data) == appended)
  }

  lemma UnreadAppend(data: seq<seq<Byte>>, index: nat, subindex: nat, bytes: seq<Byte>)
    requires CursorOk(data, index, subindex)
    ensures CursorOk(data + [bytes], index, subindex)
    ensures Unread(data + [bytes], index, subindex) == Unread(data, index, subindex) + bytes
  {
    if index < |data| {
      assert (data + [bytes])[index + 1..] == data[index + 1..] + [bytes];
      ConcatSnoc(data[index + 1..], bytes);
    } else {
      assert (data + [bytes])[index + 1..] == [];
    }
  }

  /** Appending moves nothing that a reader has still to read, whatever the limit. */
  lemma AppendIsFaithful(data: seq<seq<Byte>>, index: nat, subindex: nat, total: nat, appended: seq<Byte>, limit: nat,
                         bytes: seq<Byte>)
    requires Faithful(data, index, subindex, total, appended, limit)
    ensures Faithful(data + [bytes], index, subindex, total, appended + bytes, limit)
  {
    UnreadAppend(data, index, subindex, bytes);
    ConcatSnoc(data, bytes);
  }

  class PipeReader {
    const inner: PipeInner
    var segmentIndex: nat
    var segmentSubindex: nat
    var totalRead: nat

    ghost predicate Valid()
      reads this, inner
    {
      && inner.readerLive && inner.Counted()
      && Faithful(inner.data, segmentIndex, segmentSubindex, totalRead, inner.appended, inner.maxPersistence)
    }

    /** The cursor points beyond the end of its segment: the clean-up loop cleared that segment
        while it was being read. */
    ghost predicate Broken()
      reads this, inner
    {
      segmentIndex < |inner.data| && segmentSubindex > |inner.data[segmentIndex]|
    }

    ghost function Remaining(): seq<Byte>
      reads this, inner
    {
      if totalRead <= |inner.appended| then inner.appended[totalRead..] else []
    }

    constructor (shared: PipeInner)
      requires shared.data == [] && shared.appended == [] && shared.readerLive && shared.Counted()
      ensures inner == shared && Valid() && totalRead == 0
    {
      inner := shared;
      segmentIndex, segmentSubindex, totalRead := 0, 0, 0;
    }

    method Drop()
      requires inner.readerLive && inner.Counted()
      modifies inner`handles, inner`readerLive
      ensures inner.Counted() && !inner.readerLive
    {
      inner.handles := inner.handles - 1;
      inner.readerLive := false;
    }

    /** The tail of the segment under the cursor is empty: step over the segment. */
    method SkipSegment()
      requires Valid()
      requires segmentIndex < |inner.data| && segmentSubindex == |inner.data[segmentIndex]|
      modifies this`segmentIndex, this`segmentSubindex, inner`data
      ensures Valid() && segmentIndex == old(segmentIndex) + 1 && segmentSubindex == 0
      ensures |inner.data| == |old(inner.data)|
      ensures totalRead < inner.maxPersistence ==> inner.data == old(inner.data)
    {
      Move(inner.data, segmentIndex, segmentSubindex, 0);
      segmentSubindex := 0;
      if totalRead >= inner.maxPersistence {
        ClearUnaffected(inner.data, segmentIndex);
        inner.data := inner.data[segmentIndex := []];
      }
      segmentIndex := segmentIndex + 1;
    }

    method SkipRound(ghost end: nat, ghost harmful: bool)
      requires Valid() && harmful == Harmful(inner.data, totalRead, inner.maxPersistence, end)
      requires segmentIndex < |inner.data| && segmentSubindex == |inner.data[segmentIndex]|
      modifies this`segmentIndex, this`segmentSubindex, inner`data
      ensures Valid() && segmentIndex == old(segmentIndex) + 1 && |inner.data| == |old(inner.data)|
      ensures harmful == Harmful(inner.data, totalRead, inner.maxPersistence, end)
      ensures totalRead < inner.maxPersistence ==> inner.data == old(inner.data)
    {
      ghost var data := inner.data;
      SkipSegment();
      HarmfulKept(data, inner.data, totalRead, inner.maxPersistence, end);
    }

    /** Once `size` more bytes cross the limit, clears every segment whose index is below the
        cursor's offset inside its segment. */
    method RemoveOldData(size: nat) returns (panicked: bool)
      requires CursorOk(inner.data, segmentIndex, segmentSubindex)
      modifies inner`data
      ensures |inner.data| == |old(inner.data)|
      ensures !(totalRead < inner.maxPersistence <= totalRead + size) ==>
        !panicked && inner.data == old(inner.data)
      ensures totalRead < inner.maxPersistence <= totalRead + size && segmentSubindex > segmentIndex ==>
        panicked || Broken()
      ensures segmentSubindex <= segmentIndex ==>
        && !panicked
        && CursorOk(inner.data, segmentIndex, segmentSubindex)
        && Unread(inner.data, segmentIndex, segmentSubindex)
           == old(Unread(inner.data, segmentIndex, segmentSubindex))
    {
      if totalRead < inner.maxPersistence && totalRead + size >= inner.maxPersistence {
        ghost var data0 := inner.data;
        for i := 0 to segmentSubindex
          invariant i <= |inner.data| == |data0|
          invariant forall j :: 0 <= j < |data0| ==> inner.data[j] == if j < i then [] else data0[j]
        {
          if i >= |inner.data| {
            return true;
          }
          inner.data := inner.data[i := []];
        }
        if segmentSubindex <= segmentIndex {
          assert inner.data[segmentIndex..] == data0[segmentIndex..];
          UnreadDependsOnTail(data0, inner.data, segmentIndex, segmentSubindex);
        }
      }
      return false;
    }

    /** The cursor after `size` bytes of the segment under it. */
    ghost function NextSubindex(size: nat): nat
      reads this, inner
      requires segmentIndex < |inner.data|
    {
      if segmentSubindex + size == |inner.data[segmentIndex]| then 0 else segmentSubindex + size
    }

    /** The clean-up after these `size` bytes takes an offset for a segment index. */
    ghost predicate HarmfulStep(size: nat)
      reads this, inner
      requires segmentIndex < |inner.data|
    {
      && totalRead < inner.maxPersistence <= totalRead + size
      && NextSubindex(size) > segmentIndex
    }

    /** Moves the cursor over `size` bytes of the segment under it and clears a finished segment
        that the persistence limit does not cover. */
    method Advance(size: nat)
      requires Valid() && segmentIndex < |inner.data| && 0 < size
      requires segmentSubindex + size <= |inner.data[segmentIndex]|
      modifies this`segmentIndex, this`segmentSubindex, inner`data
      ensures segmentSubindex == old(NextSubindex(size))
      ensures segmentIndex == old(segmentIndex) + (if segmentSubindex == 0 then 1 else 0)
      ensures CursorOk(inner.data, segmentIndex, segmentSubindex)
      ensures totalRead + size <= |inner.appended|
      ensures Unread(inner.data, segmentIndex, segmentSubindex) == inner.appended[totalRead + size..]
      ensures |inner.data| == |old(inner.data)|
      ensures totalRead + size < inner.maxPersistence || segmentSubindex > 0 ==>
        inner.data == old(inner.data)
    {
      CursorMoves(inner.data, segmentIndex, segmentSubindex, size, inner.appended, totalRead);
      if segmentSubindex + size == |inner.data[segmentIndex]| {
        segmentSubindex := 0;
        if totalRead + size >= inner.maxPersistence {
          inner.data := inner.data[segmentIndex := []];
        }
        segmentIndex := segmentIndex + 1;
      } else {
        segmentSubindex := segmentSubindex + size;
      }
    }

    /** Accounts for `size` bytes that were copied. */
    method Consume(size: nat) returns (panicked: bool)
      requires Valid() && segmentIndex < |inner.data| && 0 < size
      requires segmentSubindex + size <= |inner.data[segmentIndex]|
      modifies this, inner`data
      ensures totalRead == old(totalRead) + size
      ensures |inner.data| == |old(inner.data)|
      ensures old(HarmfulStep(size)) ==> panicked || Broken()
      ensures !old(HarmfulStep(size)) ==> !panicked && Valid()
      ensures segmentSubindex == old(NextSubindex(size))
      ensures segmentIndex == old(segmentIndex) + (if segmentSubindex == 0 then 1 else 0)
      ensures totalRead < inner.maxPersistence ==> inner.data == old(inner.data)
    {
      Advance(size);
      panicked := RemoveOldData(size);
      totalRead := totalRead + size;
    }

    /** Copies as much of the segment under the cursor as fits into `buf[at..]`, moves the cursor
        and clears what the persistence limit no longer covers. */
    method TakeSegment(buf: array<Byte>, at: nat) returns (size: nat, panicked: bool)
      requires Valid() && at < buf.Length
      requires segmentIndex < |inner.data| && segmentSubindex < |inner.data[segmentIndex]|
      modifies this, inner`data, buf
      ensures size == Min(|old(inner.data[segmentIndex])| - old(segmentSubindex), buf.Length - at)
      ensures totalRead == old(totalRead) + size
      ensures Filled(buf[..], old(buf[..]), at, inner.appended, old(totalRead), size)
      ensures |inner.data| == |old(inner.data)|
      ensures old(HarmfulStep(size)) ==> panicked || Broken()
      ensures !old(HarmfulStep(size)) ==> !panicked && Valid()
      ensures segmentSubindex == old(NextSubindex(size))
      ensures segmentIndex == old(segmentIndex) + (if segmentSubindex == 0 then 1 else 0)
      ensures totalRead < inner.maxPersistence ==> inner.data == old(inner.data)
    {
      var segment := inner.data[segmentIndex][segmentSubindex..];
      size := Min(|segment|, buf.Length - at);
      TailBytes(inner.data, segmentIndex, segmentSubindex, inner.appended, totalRead);
      CopyOut(buf, at, segment[..size], inner.appended, totalRead);
      panicked := Consume(size);
    }

    /** TakeSegment in a poll that goes on to offset `end`: it goes wrong exactly when it is the
        last step of a harmful read. */
    method PollStep(buf: array<Byte>, at: nat, ghost end: nat) returns (size: nat, panicked: bool)
      requires Valid() && at < buf.Length
      requires segmentIndex < |inner.data| && segmentSubindex < |inner.data[segmentIndex]|
      requires end == totalRead + Min(|Remaining()|, buf.Length - at)
      modifies this, inner`data, buf
      ensures totalRead == old(totalRead) + size <= end && at + size <= buf.Length
      ensures Filled(buf[..], old(buf[..]), at, inner.appended, old(totalRead), size)
      ensures var harmful := old(Harmful(inner.data, totalRead, inner.maxPersistence, end));
        if totalRead == end && harmful then at + size == buf.Length && (panicked || Broken())
        else !panicked && Valid() && (harmful <==> Harmful(inner.data, totalRead, inner.maxPersistence, end))
      ensures |inner.data| == |old(inner.data)|
      ensures at + size < buf.Length ==> segmentIndex == old(segmentIndex) + 1
      ensures totalRead < inner.maxPersistence ==> inner.data == old(inner.data)
    {
      HarmfulTake(inner.data, inner.appended, totalRead, inner.maxPersistence,
        segmentIndex, segmentSubindex, buf.Length - at, end);
      size, panicked := TakeSegment(buf, at);
    }

    static method CopyOut(buf: array<Byte>, at: nat, bytes: seq<Byte>, ghost source: seq<Byte>, ghost start: nat)
      requires at + |bytes| <= buf.Length && start + |bytes| <= |source|
      requires bytes == source[start..start + |bytes|]
      modifies buf
      ensures Filled(buf[..], old(buf[..]), at, source, start, |bytes|)
    {
      forall k | 0 <= k < |bytes| {
        buf[at + k] := bytes[k];
      }
    }

    /** One poll into `buf[from..]`. Unless the read is harmful the reader is a FIFO; a harmful
        read panics at once or leaves a reader that panics at its next non-empty read. */
    method PollRead(buf: array<Byte>, from: nat) returns (p: Poll)
      requires from <= buf.Length && (Valid() || Broken())
      modifies this, inner`data, buf
      ensures from == buf.Length ==> p == Ready(0) && unchanged(this) && unchanged(inner)
      ensures old(Broken()) && from < buf.Length ==> p == Panic
      ensures old(Valid()) && from < buf.Length ==>
        var count := Min(|old(Remaining())|, buf.Length - from);
        if old(Harmful(inner.data, totalRead, inner.maxPersistence, totalRead + count)) then
          p == Panic || Broken()
        else
          && Valid() && totalRead == old(totalRead) + count
          && p == (if count > 0 then Ready(count) else if inner.writerLive then Pending else Ready(0))
          && Filled(buf[..], old(buf[..]), from, inner.appended, old(totalRead), count)
          && (totalRead < inner.maxPersistence ==> inner.data == old(inner.data))
    {
      if from == buf.Length {
        return Ready(0);
      }
      if segmentIndex < |inner.data| && segmentSubindex > |inner.data[segmentIndex]| {
        return Panic;
      }
      p := PollSegments(buf, from);
    }

    /** A poll whose cursor is in range. */
    method PollSegments(buf: array<Byte>, from: nat) returns (p: Poll)
      requires from < buf.Length && Valid()
      modifies this, inner`data, buf
      ensures
        var count := Min(|old(Remaining())|, buf.Length - from);
        if old(Harmful(inner.data, totalRead, inner.maxPersistence, totalRead + count)) then
          p == Panic || Broken()
        else
          && Valid() && totalRead == old(totalRead) + count
          && p == (if count > 0 then Ready(count) else if inner.writerLive then Pending else Ready(0))
          && Filled(buf[..], old(buf[..]), from, inner.appended, old(totalRead), count)
          && (totalRead < inner.maxPersistence ==> inner.data == old(inner.data))
    {
      ghost var end := totalRead + Min(|Remaining()|, buf.Length - from);
      p := PollLoop(buf, from, end, Harmful(inner.data, totalRead, inner.maxPersistence, end));
    }

    /** One round of the loop, in a poll that started at offset `start` and goes on to offset `end`. */
    method PollRound(buf: array<Byte>, from: nat, before: nat, ghost end: nat, ghost harmful: bool,
                     ghost start: nat, ghost was: seq<Byte>)
      returns (written: nat, panicked: bool)
      requires Valid() && totalRead == start + before && from + before < buf.Length
      requires segmentIndex < |inner.data| && segmentSubindex < |inner.data[segmentIndex]|
      requires end == Min(|inner.appended|, start + buf.Length - from)
      requires harmful == Harmful(inner.data, totalRead, inner.maxPersistence, end)
      requires Filled(buf[..], was, from, inner.appended, start, before)
      modifies this, inner`data, buf
      ensures totalRead == start + written <= end && from + written <= buf.Length
      ensures Filled(buf[..], was, from, inner.appended, start, written)
      ensures
        if totalRead == end && harmful then from + written == buf.Length && (panicked || Broken())
        else !panicked && Valid() && harmful == Harmful(inner.data, totalRead, inner.maxPersistence, end)
      ensures from + written < buf.Length ==> segmentIndex == old(segmentIndex) + 1
      ensures |inner.data| == |old(inner.data)|
      ensures totalRead < inner.maxPersistence ==> inner.data == old(inner.data)
    {
      ghost var mid := buf[..];
      var size;
      size, panicked := PollStep(buf, from + before, end);
      FillMore(buf[..], mid, was, from, inner.appended, start, before, size);
      written := before + size;
    }

    /** The loop, in a poll that goes on to offset `end`. */
    method PollLoop(buf: array<Byte>, from: nat, ghost end: nat, ghost harmful: bool) returns (p: Poll)
      requires from < buf.Length && Valid() && end == Min(|inner.appended|, totalRead + buf.Length - from)
      requires harmful == Harmful(inner.data, totalRead, inner.maxPersistence, end)
      modifies this, inner`data, buf
      ensures harmful ==> p == Panic || Broken()
      ensures !harmful ==>
        && Valid() && totalRead == end
        && p == (if end > old(totalRead) then Ready(end - old(totalRead)) else if inner.writerLive then Pending
                 else Ready(0))
        && Filled(buf[..], old(buf[..]), from, inner.appended, old(totalRead), end - old(totalRead))
        && (totalRead < inner.maxPersistence ==> inner.data == old(inner.data))
    {
      var written: nat := 0;
      while true
        invariant Valid() && totalRead == old(totalRead) + written && from + written < buf.Length
        invariant Filled(buf[..], old(buf[..]), from, inner.appended, old(totalRead), written)
        invariant harmful == Harmful(inner.data, totalRead, inner.maxPersistence, end)
        invariant totalRead < inner.maxPersistence ==> inner.data == old(inner.data)
        decreases |inner.data| - segmentIndex
      {
        if segmentIndex < |inner.data| {
          if segmentSubindex == |inner.data[segmentIndex]| {
            SkipRound(end, harmful);
            continue;
          }
          var panicked;
          written, panicked := PollRound(buf, from, written, end, harmful, old(totalRead), old(buf[..]));
          if panicked {
            return Panic;
          }
          if from + written == buf.Length {
            return Ready(written);
          }
        } else if written == 0 {
          return if inner.handles != 2 then Ready(0) else Pending;
        } else {
          return Ready(written);
        }
      }
    }

    /** Everything ever appended, when the limit was not reached and everything was read. */
    method FetchFullContent() returns (r: Fetch)
      requires Valid()
      ensures r == if totalRead >= inner.maxPersistence then NoContent
                   else if Remaining() == [] then Content(inner.appended)
                   else AssertionFailed
    {
      if totalRead >= inner.maxPersistence {
        return NoContent;
      }
      var out: seq<Byte> := [];
      for i := 0 to |inner.data|
        invariant out == Concat(inner.data[..i])
      {
        ConcatUpTo(inner.data, i);
        out := out + inner.data[i];
      }
      assert inner.data[..|inner.data|] == inner.data;
      r := if totalRead == |out| then Content(out) else AssertionFailed;
    }
  }

  /** `pipe(max_persistance)` */
  method NewPipe(maxPersistence: nat) returns (reader: PipeReader, writer: PipeWriter)
    ensures fresh(reader) && fresh(writer) && fresh(reader.inner) && reader.inner == writer.inner
    ensures reader.Valid() && reader.totalRead == 0 && reader.Remaining() == []
    ensures reader.inner.data == [] && reader.inner.appended == []
    ensures reader.inner.writerLive && reader.inner.maxPersistence == maxPersistence
  {
    var inner := new PipeInner(maxPersistence);
    reader := new PipeReader(inner);
    writer := new PipeWriter(inner);
  }
}
