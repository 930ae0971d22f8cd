/** The HTML scanner: it overwrites one chunk buffer with each read and the overlap before it, and
    runs the matchers over it. `lossy` is the decoding of a window to a string. */
module HtmlScan {
  import opened Bytes
  import opened Unicode
  import opened Pipe
  import opened Body
  import opened RawSearch
  import opened Evaluator
  import opened Matcher
  import opened ChunkedScan
  import opened HtmlText

  /** Where reads of these sizes that start at offset `total` end; each is to fit into the chunk. */
  function EndOf(total: nat, sizes: seq<nat>): Option<nat>
    decreases |sizes|
  {
    if sizes == [] then Some(total)
    else if 1 <= sizes[0] <= CHUNK_SIZE - Overlap(total) then EndOf(total + sizes[0], sizes[1..])
    else None
  }

  /** The reads go from offset `total` to offset `end`. */
  predicate ReadsTo(total: nat, sizes: seq<nat>, end: nat) {
    EndOf(total, sizes) == Some(end)
  }

  lemma {:induction false} ReadsToEnd(content: seq<Byte>, total: nat, sizes: seq<nat>)
    requires ReadsTo(total, sizes, |content|)
    ensures total <= |content| && ValidReads(content, total, sizes)
    decreases |sizes|
  {
    if sizes != [] {
      ReadsToEnd(content, total + sizes[0], sizes[1..]);
    }
  }

  lemma {:induction false} ReadsToSnoc(total: nat, sizes: seq<nat>, end: nat, n: nat)
    requires ReadsTo(total, sizes, end) && 1 <= n <= CHUNK_SIZE - Overlap(end)
    ensures ReadsTo(total, sizes + [n], end + n)
    decreases |sizes|
  {
    if sizes == [] {
      assert (sizes + [n])[1..] == [];
    } else {
      ReadsToSnoc(total + sizes[0], sizes[1..], end, n);
      assert (sizes + [n])[1..] == sizes[1..] + [n];
    }
  }

  lemma ReadsOneMore(sizes: seq<nat>, total: nat, n: nat, more: seq<nat>, end: nat)
    requires ReadsTo(0, sizes, total) && 1 <= n <= CHUNK_SIZE - Overlap(total)
    requires more == sizes + [n] && end == total + n
    ensures ReadsTo(0, more, end)
  {
    ReadsToSnoc(0, sizes, total, n);
  }

  /** What one read reports. */
  function WindowMatches(m: PreparedMatchers, lossy: seq<Byte> -> seq<Scalar>, content: seq<Byte>, total: nat,
                         n: nat): seq<Match> {
    if total + n > |content| then []
    else Matched(m.raws, m.regexes, total - Overlap(total), total, lossy(Window(content, total, n)), m.correlations)
  }

  /** What the reads from offset `total` on report. */
  function ScanMatches(m: PreparedMatchers, lossy: seq<Byte> -> seq<Scalar>, content: seq<Byte>, total: nat,
                       sizes: seq<nat>): seq<Match>
    decreases |sizes|
  {
    if sizes == [] then []
    else
      WindowMatches(m, lossy, content, total, sizes[0])
      + ScanMatches(m, lossy, content, total + sizes[0], sizes[1..])
  }

  lemma {:induction false} ScanMatchesSnoc(m: PreparedMatchers, lossy: seq<Byte> -> seq<Scalar>, content: seq<Byte>,
                                           total: nat, sizes: seq<nat>, end: nat, n: nat)
    requires ReadsTo(total, sizes, end)
    ensures ScanMatches(m, lossy, content, total, sizes + [n])
      == ScanMatches(m, lossy, content, total, sizes) + WindowMatches(m, lossy, content, end, n)
    decreases |sizes|
  {
    if sizes == [] {
      assert (sizes + [n])[1..] == [];
      Assoc([], [], WindowMatches(m, lossy, content, end, n));
      Assoc(WindowMatches(m, lossy, content, end, n), [], []);
    } else {
      assert (sizes + [n])[1..] == sizes[1..] + [n];
      ScanMatchesSnoc(m, lossy, content, total + sizes[0], sizes[1..], end, n);
      Assoc(WindowMatches(m, lossy, content, total, sizes[0]),
        ScanMatches(m, lossy, content, total + sizes[0], sizes[1..]), WindowMatches(m, lossy, content, end, n));
    }
  }

  /** Every match in a window lies in the address space. */
  ghost predicate WindowsFit(m: PreparedMatchers, lossy: seq<Byte> -> seq<Scalar>) {
    forall window: seq<Byte> {:trigger lossy(window)} ::
      |window| <= CHUNK_SIZE ==> SpansFit(Evaluated(m.raws, m.regexes, lossy(window)))
  }

  /** `copy_within(from..from + n, 0)` */
  method CopyToFront(chunk: array<Byte>, from: nat, n: nat)
    requires from + n <= chunk.Length
    modifies chunk
    ensures chunk[..n] == old(chunk[from..from + n])
  {
    forall i | 0 <= i < n {
      chunk[i] := chunk[from + i];
    }
  }

  /** The chunk ends with the overlap before the next read. */
  ghost predicate ChunkHolds(chunk: seq<Byte>, chunkLen: nat, overlap: nat, content: seq<Byte>, total: nat) {
    && overlap <= chunkLen <= |chunk| && overlap <= total <= |content|
    && chunk[chunkLen - overlap..chunkLen] == content[total - overlap..total]
  }

  lemma TailHolds(chunk: seq<Byte>, chunkLen: nat, overlap: nat, content: seq<Byte>, total: nat, n: nat)
    requires chunkLen <= |chunk| && n <= total <= |content| && chunkLen == Overlap(total - n) + n
    requires chunk[..chunkLen] == Window(content, total - n, n)
    requires overlap == Min(CHUNK_OVERLAP, chunkLen)
    ensures overlap == Overlap(total) && ChunkHolds(chunk, chunkLen, overlap, content, total)
  {
    SliceOfSlice(content, total - chunkLen, total, chunkLen - overlap, chunkLen);
    assert chunk[chunkLen - overlap..chunkLen] == chunk[..chunkLen][chunkLen - overlap..chunkLen];
  }

  lemma FilledIsWindow(now: seq<Byte>, was: seq<Byte>, overlap: nat, content: seq<Byte>, total: nat, n: nat)
    requires Filled(now, was, overlap, content, total, n) && overlap == Overlap(total)
    requires was[..overlap] == content[total - overlap..total]
    ensures now[..overlap + n] == Window(content, total, n)
  {
    forall i | 0 <= i < overlap + n ensures now[i] == content[total - overlap + i] {
      if i < overlap {
        assert was[i] == was[..overlap][i] == content[total - overlap..total][i];
      }
    }
  }

  /** The overlap is moved to the front and the next bytes are read behind it. */
  method FillChunk(chunk: array<Byte>, chunkLen: nat, overlap: nat, body: Body) returns (n: nat)
    requires body.Valid() && overlap == Overlap(body.reader.totalRead) < chunk.Length
    requires ChunkHolds(chunk[..], chunkLen, overlap, body.content, body.reader.totalRead)
    modifies body, body.reader, body.reader.inner, chunk
    ensures body.Valid() && body.reader.totalRead == old(body.reader.totalRead) + n && overlap + n <= chunk.Length
    ensures n == 0 <==> old(body.reader.totalRead) == |body.content|
    ensures chunk[..overlap + n] == Window(body.content, old(body.reader.totalRead), n)
  {
    CopyToFront(chunk, chunkLen - overlap, overlap);
    ghost var was, total := chunk[..], body.reader.totalRead;
    n := body.Read(chunk, overlap);
    FilledIsWindow(chunk[..], was, overlap, body.content, total, n);
  }

  /** The next window: its length (0 at the end of the body) and its bytes; its end is the overlap of the
      window after it. */
  method NextWindow(chunk: array<Byte>, chunkLen: nat, overlap: nat, body: Body)
    returns (n: nat, newLen: nat, newOverlap: nat, data: seq<Byte>)
    requires body.Valid() && overlap == Overlap(body.reader.totalRead) < chunk.Length
    requires ChunkHolds(chunk[..], chunkLen, overlap, body.content, body.reader.totalRead)
    modifies body, body.reader, body.reader.inner, chunk
    ensures body.Valid() && body.reader.totalRead == old(body.reader.totalRead) + n && overlap + n <= chunk.Length
    ensures n == 0 <==> old(body.reader.totalRead) == |body.content|
    ensures data == Window(body.content, old(body.reader.totalRead), n) && |data| == newLen == overlap + n
    ensures newOverlap == Overlap(body.reader.totalRead)
    ensures ChunkHolds(chunk[..], newLen, newOverlap, body.content, body.reader.totalRead)
  {
    n := FillChunk(chunk, chunkLen, overlap, body);
    newLen := n + overlap;
    data := chunk[..newLen];
    newOverlap := Min(CHUNK_OVERLAP, newLen);
    assert chunk[..][..newLen] == data;
    TailHolds(chunk[..], newLen, newOverlap, body.content, body.reader.totalRead, n);
  }

  /** The reads so far go to offset `total`, and what they report is in `matches`. */
  ghost predicate Scanned(m: PreparedMatchers, lossy: seq<Byte> -> seq<Scalar>, content: seq<Byte>, sizes: seq<nat>,
                          total: nat, matches: seq<Match>)
  {
    ReadsTo(0, sizes, total) && matches == ScanMatches(m, lossy, content, 0, sizes)
  }

  /** `do_matching` on the window of one read. */
  method ScanWindow(m: PreparedMatchers, ghost configured: seq<Configured>, index: nat, minimumEnd: nat,
                    data: seq<Byte>,
                    lossy: seq<Byte> -> seq<Scalar>, matches: seq<Match>,
                    ghost content: seq<Byte>, ghost sizes: seq<nat>, ghost n: nat,
                    ghost longer: seq<nat>, ghost end: nat)
    returns (out: seq<Match>)
    requires Runnable(m, configured, lossy) && |data| <= CHUNK_SIZE && 1 <= n <= CHUNK_SIZE - Overlap(minimumEnd)
    requires index == minimumEnd - Overlap(minimumEnd) && end == minimumEnd + n <= |content|
    requires data == Window(content, minimumEnd, n)
    requires ReadsTo(0, sizes, minimumEnd) && matches == ScanMatches(m, lossy, content, 0, sizes)
    requires longer == sizes + [n]
    ensures ReadsTo(0, longer, end) && out == ScanMatches(m, lossy, content, 0, longer)
  {
    WindowIs(m, lossy, content, minimumEnd, n, data, index);
    ReadsOneMore(sizes, minimumEnd, n, longer, end);
    ScanMatchesSnoc(m, lossy, content, 0, sizes, minimumEnd, n);
    out := RunMatchers(m, configured, index, minimumEnd, lossy(data), matches);
  }

  /** The matchers can be run on every window. */
  ghost predicate Runnable(m: PreparedMatchers, configured: seq<Configured>, lossy: seq<Byte> -> seq<Scalar>) {
    && m.correlations == |configured| && Coherent(m.raws, m.regexes, configured)
    && (forall i :: 0 <= i < |m.raws| ==> m.raws[i].raw != [])
    && WindowsFit(m, lossy)
  }

  lemma WindowIs(m: PreparedMatchers, lossy: seq<Byte> -> seq<Scalar>, content: seq<Byte>, total: nat, n: nat,
                 data: seq<Byte>, index: nat)
    requires total + n <= |content| && data == Window(content, total, n) && index == total - Overlap(total)
    ensures WindowMatches(m, lossy, content, total, n)
      == Matched(m.raws, m.regexes, index, total, lossy(data), m.correlations)
  {
  }

  /** One round of the loop of `parse_html`. */
  method ScanRead(m: PreparedMatchers, ghost configured: seq<Configured>, chunk: array<Byte>, chunkLen: nat,
                  overlap: nat,
                  body: Body, lossy: seq<Byte> -> seq<Scalar>, matches: seq<Match>, ghost sizes: seq<nat>)
    returns (n: nat, newLen: nat, newOverlap: nat, out: seq<Match>, ghost longer: seq<nat>)
    requires Runnable(m, configured, lossy) && body.Valid() && chunk.Length == CHUNK_SIZE
    requires overlap == Overlap(body.reader.totalRead)
    requires ChunkHolds(chunk[..], chunkLen, overlap, body.content, body.reader.totalRead)
    requires Scanned(m, lossy, body.content, sizes, body.reader.totalRead, matches)
    modifies body, body.reader, body.reader.inner, chunk
    ensures body.Valid() && body.reader.totalRead == old(body.reader.totalRead) + n
    ensures n == 0 <==> old(body.reader.totalRead) == |body.content|
    ensures newOverlap == Overlap(body.reader.totalRead)
    ensures ChunkHolds(chunk[..], newLen, newOverlap, body.content, body.reader.totalRead)
    ensures Scanned(m, lossy, body.content, longer, body.reader.totalRead, out)
  {
    var minimumEnd := body.reader.totalRead;
    var index := minimumEnd - overlap;
    var data;
    n, newLen, newOverlap, data := NextWindow(chunk, chunkLen, overlap, body);
    if n == 0 {
      return n, newLen, newOverlap, matches, sizes;
    }
    longer := sizes + [n];
    out := ScanWindow(m, configured, index, minimumEnd, data, lossy, matches, body.content, sizes, n, longer,
      body.reader.totalRead);
  }

  /** The loop of `parse_html`. */
  method ScanBody(m: PreparedMatchers, ghost configured: seq<Configured>, body: Body, lossy: seq<Byte> -> seq<Scalar>)
    returns (matches: seq<Match>, ghost sizes: seq<nat>)
    requires Runnable(m, configured, lossy) && body.Valid() && body.reader.totalRead == 0
    modifies body, body.reader, body.reader.inner
    ensures body.Valid() && Scanned(m, lossy, body.content, sizes, |body.content|, matches)
  {
    var chunk := new Byte[CHUNK_SIZE];
    var overlapIndex: nat, chunkLen: nat := 0, 0;
    matches, sizes := [], [];
    while true
      invariant body.Valid() && body.reader.totalRead <= |body.content|
      invariant overlapIndex == Overlap(body.reader.totalRead)
      invariant ChunkHolds(chunk[..], chunkLen, overlapIndex, body.content, body.reader.totalRead)
      invariant Scanned(m, lossy, body.content, sizes, body.reader.totalRead, matches)
      decreases |body.content| - body.reader.totalRead
    {
      var n;
      n, chunkLen, overlapIndex, matches, sizes :=
        ScanRead(m, configured, chunk, chunkLen, overlapIndex, body, lossy, matches, sizes);
      if n == 0 {
        break;
      }
    }
  }

  /** `parse_html` */
  method ParseHtml(state: MatcherState, body: Body, lossy: seq<Byte> -> seq<Scalar>)
    returns (matches: seq<Match>, ghost sizes: seq<nat>)
    requires state.Valid() && body.Valid() && body.reader.totalRead == 0
    requires Runnable(PreparedMatchers(state.raws, state.regexes, state.correlationIndex), state.configured, lossy)
    modifies body, body.reader, body.reader.inner
    ensures body.Valid() && ValidReads(body.content, 0, sizes)
    ensures var m := PreparedMatchers(state.raws, state.regexes, state.correlationIndex);
      matches == ScanMatches(m, lossy, body.content, 0, sizes)
  {
    var m := PreparedMatchers(state.raws, state.regexes, state.correlationIndex);
    matches, sizes := ScanBody(m, state.configured, body, lossy);
    ReadsToEnd(body.content, 0, sizes);
  }

  // ----- One raw needle

  function Starts(matches: seq<Match>): seq<nat> {
    seq(|matches|, i requires 0 <= i < |matches| => matches[i].start)
  }

  lemma StartsAppend(a: seq<Match>, b: seq<Match>)
    ensures Starts(a + b) == Starts(a) + Starts(b)
  {
  }

  /** A state with one raw needle that belongs to no correlation. */
  function OneNeedle(metadata: Metadata, raw: seq<Scalar>): PreparedMatchers {
    PreparedMatchers([MatchRaw(metadata, raw)], [], 0)
  }

  lemma {:induction false} DirectStarts(metadata: Metadata, starts: seq<nat>, n: nat, index: nat, total: nat,
                                        bytes: seq<Byte>)
    requires metadata.correlation == None
    ensures Starts(Direct(Hits(metadata, starts, n), index, total, bytes)) == Late(starts, index, n, total)
    decreases |starts|
  {
    if starts != [] {
      var init, last := starts[..|starts| - 1], starts[|starts| - 1];
      var hits := Hits(metadata, starts, n);
      assert hits[..|hits| - 1] == Hits(metadata, init, n);
      assert starts == init + [last];
      DirectStarts(metadata, init, n, index, total, bytes);
      LateSnoc(init, last, index, n, total);
      StartsAppend(Direct(hits[..|hits| - 1], index, total, bytes),
        if index + last + n > total then [DirectMatch(hits[|hits| - 1], index, bytes)] else []);
    }
  }

  lemma {:induction false} LateSnoc(starts: seq<nat>, x: nat, index: nat, n: nat, total: nat)
    ensures Late(starts + [x], index, n, total)
      == Late(starts, index, n, total) + if index + x + n > total then [index + x] else []
  {
    if starts == [] {
      assert (starts + [x])[1..] == [];
    } else {
      assert (starts + [x])[1..] == starts[1..] + [x];
      LateSnoc(starts[1..], x, index, n, total);
    }
  }

  lemma {:induction false} OneNeedleHits(metadata: Metadata, raw: seq<Scalar>, source: seq<Scalar>)
    requires raw != []
    ensures Utf8(raw) != []
    ensures Evaluated(OneNeedle(metadata, raw).raws, [], source)
      == Hits(metadata, Greedy(Utf8(source), Utf8(raw), 0), |Utf8(raw)|)
  {
    assert Utf8Char(raw[0]) <= Utf8(raw);
    var raws := [MatchRaw(metadata, raw)];
    assert raws[..0] == [];
    var hits := Hits(metadata, Greedy(Utf8(source), Utf8(raw), 0), |Utf8(raw)|);
    assert AllRawHits(raws, source) == [] + hits;
    Assoc([], [], hits);
    Assoc(hits, [], []);
  }

  /** Without correlations only direct matches are reported. */
  lemma {:induction false} OnlyDirect(raws: seq<MatchRaw>, offset: nat, minimumEnd: nat, body: seq<Scalar>)
    ensures Matched(raws, [], offset, minimumEnd, body, 0)
      == Direct(Evaluated(raws, [], body), offset, minimumEnd, Utf8(body))
  {
    Assoc(Direct(Evaluated(raws, [], body), offset, minimumEnd, Utf8(body)), [], []);
  }

  lemma {:induction false} OneNeedleMatches(metadata: Metadata, raw: seq<Scalar>, m: PreparedMatchers,
                                            source: seq<Scalar>, window: seq<Byte>, index: nat, total: nat,
                                            matches: seq<Match>)
    requires raw != [] && metadata.correlation == None && Utf8(source) == window && m == OneNeedle(metadata, raw)
    requires matches == Matched(m.raws, m.regexes, index, total, source, m.correlations)
    ensures Utf8(raw) != []
    ensures Starts(matches) == Late(Greedy(window, Utf8(raw), 0), index, |Utf8(raw)|, total)
  {
    OneNeedleHits(metadata, raw, source);
    OnlyDirect(m.raws, index, total, source);
    DirectStarts(metadata, Greedy(Utf8(source), Utf8(raw), 0), |Utf8(raw)|, index, total, Utf8(source));
  }

  /** One read reports the late greedy occurrences in what its window is decoded to. */
  lemma {:induction false} WindowStarts(metadata: Metadata, raw: seq<Scalar>, lossy: seq<Byte> -> seq<Scalar>,
                                        content: seq<Byte>, total: nat, n: nat, window: seq<Byte>,
                                        bytes: seq<Byte>)
    requires raw != [] && metadata.correlation == None && total + n <= |content|
    requires window == Window(content, total, n) && bytes == Utf8(lossy(window))
    ensures Utf8(raw) != []
    ensures Starts(WindowMatches(OneNeedle(metadata, raw), lossy, content, total, n))
      == Late(Greedy(bytes, Utf8(raw), 0), total - Overlap(total), |Utf8(raw)|, total)
  {
    var m, index := OneNeedle(metadata, raw), total - Overlap(total);
    WindowIs(m, lossy, content, total, n, window, index);
    OneNeedleMatches(metadata, raw, m, lossy(window), bytes, index, total, WindowMatches(m, lossy, content, total, n));
  }

  lemma {:induction false} NeedleStarts(metadata: Metadata, raw: seq<Scalar>, lossy: seq<Byte> -> seq<Scalar>,
                                        content: seq<Byte>, total: nat, sizes: seq<nat>)
    requires raw != [] && metadata.correlation == None
    requires ValidReads(content, total, sizes) && Intact(lossy, content, total, sizes)
    ensures Utf8(raw) != []
    ensures Starts(ScanMatches(OneNeedle(metadata, raw), lossy, content, total, sizes))
      == ScanStarts(content, Utf8(raw), total, sizes)
    decreases |sizes|
  {
    FirstByte(raw);
    if sizes == [] {
      NothingStarts(OneNeedle(metadata, raw), lossy, content, total);
    } else {
      var window := Window(content, total, sizes[0]);
      FirstIsKept(lossy, content, total, sizes, window);
      WindowStarts(metadata, raw, lossy, content, total, sizes[0], window, window);
      NeedleStarts(metadata, raw, lossy, content, total + sizes[0], sizes[1..]);
      StartsOfScan(OneNeedle(metadata, raw), lossy, content, total, sizes, total + sizes[0]);
    }
  }

  lemma {:induction false} FirstIsKept(lossy: seq<Byte> -> seq<Scalar>, content: seq<Byte>, total: nat, sizes: seq<nat>,
                                       window: seq<Byte>)
    requires ValidReads(content, total, sizes) && Intact(lossy, content, total, sizes)
    requires sizes != [] && window == Window(content, total, sizes[0])
    ensures window == Utf8(lossy(window))
  {
  }

  lemma {:induction false} NothingStarts(m: PreparedMatchers, lossy: seq<Byte> -> seq<Scalar>, content: seq<Byte>,
                                         total: nat)
    ensures Starts(ScanMatches(m, lossy, content, total, [])) == []
  {
  }

  lemma {:induction false} StartsOfScan(m: PreparedMatchers, lossy: seq<Byte> -> seq<Scalar>, content: seq<Byte>,
                                        total: nat, sizes: seq<nat>, end: nat)
    requires sizes != [] && end == total + sizes[0]
    ensures Starts(ScanMatches(m, lossy, content, total, sizes))
         == Starts(WindowMatches(m, lossy, content, total, sizes[0]))
            + Starts(ScanMatches(m, lossy, content, end, sizes[1..]))
  {
    StartsAppend(WindowMatches(m, lossy, content, total, sizes[0]), ScanMatches(m, lossy, content, end, sizes[1..]));
  }

  /** What one needle reports for a body whose windows are decoded intact: for any needle only occurrences, at
      their global positions, in increasing order and so none twice; and for a scannable needle all of them. */
  lemma {:induction false} OneNeedleScan(metadata: Metadata, raw: seq<Scalar>, lossy: seq<Byte> -> seq<Scalar>,
                                         content: seq<Byte>, sizes: seq<nat>)
    requires raw != [] && metadata.correlation == None
    requires ValidReads(content, 0, sizes) && Intact(lossy, content, 0, sizes)
    ensures var starts := Starts(ScanMatches(OneNeedle(metadata, raw), lossy, content, 0, sizes));
      && (forall i :: 0 <= i < |starts| ==> Occurs(content, Utf8(raw), starts[i]))
      && (forall i, j :: 0 <= i < j < |starts| ==> starts[i] < starts[j])
      && (Scannable(Utf8(raw)) ==> starts == Occurrences(content, Utf8(raw)))
  {
    NeedleStarts(metadata, raw, lossy, content, 0, sizes);
    NothingTwice(content, Utf8(raw), sizes);
    if Scannable(Utf8(raw)) {
      ScannableIsExact(content, Utf8(raw), sizes);
    }
  }
}
