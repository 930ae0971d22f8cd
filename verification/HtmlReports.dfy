/** Every report of the HTML scanner, direct or correlated, quotes the body at its global position. */
module HtmlReports {
  import opened Bytes
  import opened Unicode
  import opened Evaluator
  import opened Matcher
  import opened ChunkedScan
  import opened HtmlScan
  import opened HtmlText

  /** The report lies in the content, and the text it reports, if any, is what the content has there. */
  predicate Quotes(m: Match, content: seq<Byte>) {
    m.start + m.length <= |content| && m.value == ReportedValue(m.style, content[m.start..m.start + m.length])
  }

  /** The string of a window: the bytes of the content from `offset` on. */
  predicate IsWindowAt(bytes: seq<Byte>, content: seq<Byte>, offset: nat) {
    offset + |bytes| <= |content| && bytes == content[offset..offset + |bytes|]
  }

  predicate AllInside(local: seq<Prepared>, bytes: seq<Byte>) {
    forall p :: p in local ==> p.span.End() <= |bytes|
  }

  lemma SliceIsQuote(bytes: seq<Byte>, content: seq<Byte>, offset: nat, start: nat, end: nat)
    requires IsWindowAt(bytes, content, offset) && start <= end <= |bytes|
    ensures Slice(bytes, start, end) == content[start + offset..start + offset + (end - start)]
  {
    SliceOfSlice(content, offset, offset + |bytes|, start, end);
  }

  lemma DirectMatchQuotes(p: Prepared, offset: nat, bytes: seq<Byte>, content: seq<Byte>)
    requires IsWindowAt(bytes, content, offset) && p.span.End() <= |bytes|
    ensures Quotes(DirectMatch(p, offset, bytes), content)
  {
    SliceIsQuote(bytes, content, offset, p.span.start, p.span.End());
  }

  lemma EmitPairQuotes(a: Prepared, b: Prepared, interest: Interest, offset: nat, bytes: seq<Byte>, content: seq<Byte>)
    requires IsWindowAt(bytes, content, offset) && a.span.End() <= |bytes| && b.span.End() <= |bytes|
    ensures Quotes(EmitPair(a, b, interest, offset, bytes), content)
  {
    EmitRangeInBounds(a, b, interest, |bytes|);
    var (start, end) := EmitRange(a, b, interest);
    SliceIsQuote(bytes, content, offset, start, end);
  }

  predicate AllQuote(matches: seq<Match>, content: seq<Byte>) {
    forall m :: m in matches ==> Quotes(m, content)
  }

  lemma BothQuote(a: seq<Match>, b: seq<Match>, both: seq<Match>, content: seq<Byte>)
    requires AllQuote(a, content) && AllQuote(b, content) && both == a + b
    ensures AllQuote(both, content)
  {
  }

  lemma {:induction false} DirectQuotes(local: seq<Prepared>, offset: nat, minimumEnd: nat, bytes: seq<Byte>,
                                        content: seq<Byte>)
    requires IsWindowAt(bytes, content, offset) && AllInside(local, bytes)
    ensures AllQuote(Direct(local, offset, minimumEnd, bytes), content)
  {
    if local != [] {
      DirectQuotes(local[..|local| - 1], offset, minimumEnd, bytes, content);
      DirectMatchQuotes(local[|local| - 1], offset, bytes, content);
    }
  }

  lemma {:induction false} SortedInside(group: seq<Prepared>, bytes: seq<Byte>)
    requires AllInside(group, bytes)
    ensures AllInside(SortByStart(group), bytes)
  {
    forall p | p in SortByStart(group) ensures p.span.End() <= |bytes| {
      SameElements(group, p);
    }
  }

  lemma CorrelatedQuotes(group1: seq<Prepared>, group2: seq<Prepared>, offset: nat, bytes: seq<Byte>,
                         content: seq<Byte>)
    requires IsWindowAt(bytes, content, offset) && AllInside(group1, bytes) && AllInside(group2, bytes)
    ensures AllQuote(Correlated(group1, group2, offset, bytes), content)
  {
    var g1, g2 := SortByStart(group1), SortByStart(group2);
    SortedInside(group1, bytes);
    SortedInside(group2, bytes);
    if g1 != [] && g1[0].metadata.correlation.Some? {
      var correlation := g1[0].metadata.correlation.value;
      var pairs := SweptPairs(g1, g2, correlation.maxDistance);
      forall i | 0 <= i < |pairs|
        ensures Quotes(EmitPair(g1[pairs[i].first], g2[pairs[i].second], correlation.interest, offset, bytes), content)
      {
        EmitPairQuotes(g1[pairs[i].first], g2[pairs[i].second], correlation.interest, offset, bytes, content);
      }
    }
  }

  lemma {:induction false} GroupInside(local: seq<Prepared>, offset: nat, minimumEnd: nat, index: nat, second: bool,
                                       bytes: seq<Byte>)
    requires AllInside(local, bytes)
    ensures AllInside(Group(local, offset, minimumEnd, index, second), bytes)
  {
    forall p | p in Group(local, offset, minimumEnd, index, second) ensures p.span.End() <= |bytes| {
      GroupHas(local, offset, minimumEnd, index, second, p);
    }
  }

  /** What correlation `n` adds to the reports. */
  lemma OneMoreQuotes(local: seq<Prepared>, offset: nat, minimumEnd: nat, bytes: seq<Byte>, n: nat,
                      content: seq<Byte>) returns (added: seq<Match>)
    requires IsWindowAt(bytes, content, offset) && AllInside(local, bytes)
    ensures AllQuote(added, content)
    ensures AllCorrelated(local, offset, minimumEnd, bytes, n + 1)
         == AllCorrelated(local, offset, minimumEnd, bytes, n) + added
  {
    var first := Group(local, offset, minimumEnd, n, false);
    var second := Group(local, offset, minimumEnd, n, true);
    GroupInside(local, offset, minimumEnd, n, false, bytes);
    GroupInside(local, offset, minimumEnd, n, true, bytes);
    CorrelatedQuotes(first, second, offset, bytes, content);
    added := Correlated(first, second, offset, bytes);
  }

  lemma AllCorrelatedQuote(local: seq<Prepared>, offset: nat, minimumEnd: nat, bytes: seq<Byte>, n: nat,
                           content: seq<Byte>) returns (all: seq<Match>)
    requires IsWindowAt(bytes, content, offset) && AllInside(local, bytes)
    ensures AllCorrelated(local, offset, minimumEnd, bytes, n) == all && AllQuote(all, content)
  {
    all := [];
    for k := 0 to n
      invariant AllCorrelated(local, offset, minimumEnd, bytes, k) == all && AllQuote(all, content)
    {
      var added := OneMoreQuotes(local, offset, minimumEnd, bytes, k, content);
      BothQuote(all, added, all + added, content);
      all := all + added;
    }
  }

  /** The oracles of all regular expressions stay inside the string. */
  predicate OraclesFit(regexes: seq<MatchRegex>, source: seq<Scalar>) {
    forall i :: 0 <= i < |regexes| ==> OracleFits(regexes[i], source)
  }

  lemma {:induction false} MatchedQuotes(m: PreparedMatchers, offset: nat, minimumEnd: nat, source: seq<Scalar>,
                                         content: seq<Byte>)
    requires IsWindowAt(Utf8(source), content, offset) && OraclesFit(m.regexes, source)
    ensures AllQuote(Matched(m.raws, m.regexes, offset, minimumEnd, source, m.correlations), content)
  {
    var local := Evaluated(m.raws, m.regexes, source);
    forall p | p in local ensures p.span.End() <= |Utf8(source)| {
      HitsInBounds(m.raws, m.regexes, source, p);
    }
    DirectQuotes(local, offset, minimumEnd, Utf8(source), content);
    var correlated := AllCorrelatedQuote(local, offset, minimumEnd, Utf8(source), m.correlations, content);
    BothQuote(Direct(local, offset, minimumEnd, Utf8(source)), correlated,
      Matched(m.raws, m.regexes, offset, minimumEnd, source, m.correlations), content);
  }

  /** The oracles stay inside every window. */
  ghost predicate OraclesFitWindows(regexes: seq<MatchRegex>, lossy: seq<Byte> -> seq<Scalar>) {
    forall window: seq<Byte> {:trigger lossy(window)} :: OraclesFit(regexes, lossy(window))
  }

  lemma WindowQuotes(m: PreparedMatchers, lossy: seq<Byte> -> seq<Scalar>, content: seq<Byte>, total: nat, n: nat)
    requires OraclesFitWindows(m.regexes, lossy) && total + n <= |content|
    requires IsKept(lossy, Window(content, total, n))
    ensures AllQuote(WindowMatches(m, lossy, content, total, n), content)
  {
    var window, offset := Window(content, total, n), total - Overlap(total);
    MatchedQuotes(m, offset, total, lossy(window), content);
    WindowIs(m, lossy, content, total, n, window, offset);
  }

  lemma {:induction false} ScanQuotes(m: PreparedMatchers, lossy: seq<Byte> -> seq<Scalar>, content: seq<Byte>,
                                      total: nat, sizes: seq<nat>) returns (all: seq<Match>)
    requires OraclesFitWindows(m.regexes, lossy)
    requires ValidReads(content, total, sizes) && Intact(lossy, content, total, sizes)
    ensures ScanMatches(m, lossy, content, total, sizes) == all && AllQuote(all, content)
    decreases |sizes|
  {
    if sizes == [] {
      all := [];
    } else {
      var first := WindowMatches(m, lossy, content, total, sizes[0]);
      WindowQuotes(m, lossy, content, total, sizes[0]);
      var rest := ScanQuotes(m, lossy, content, total + sizes[0], sizes[1..]);
      all := first + rest;
      BothQuote(first, rest, all, content);
    }
  }

  /** For a body whose windows are decoded intact: every report, of a raw or a regular expression, direct or
      correlated, lies in the body and quotes it at its global position. */
  lemma {:induction false} ReportsQuoteTheBody(m: PreparedMatchers, lossy: seq<Byte> -> seq<Scalar>,
                                               content: seq<Byte>, sizes: seq<nat>, r: Match)
    requires OraclesFitWindows(m.regexes, lossy) && ValidReads(content, 0, sizes) && Intact(lossy, content, 0, sizes)
    requires r in ScanMatches(m, lossy, content, 0, sizes)
    ensures Quotes(r, content)
  {
    var _ := ScanQuotes(m, lossy, content, 0, sizes);
  }

  // ----- Window by window

  /** The offsets at which the reads start, and where the last one ends. */
  predicate AreOffsets(offsets: seq<nat>, total: nat, sizes: seq<nat>) {
    && |offsets| == |sizes| + 1 && offsets[0] == total
    && forall k :: 0 <= k < |sizes| ==> offsets[k + 1] == offsets[k] + sizes[k]
  }

  /** What the matchers report for the read that starts at `start` and ends at `end`: they get the read with up
      to 512 bytes before it, and pass over what ends before it. */
  ghost predicate AreWindowReports(reports: seq<Match>, m: PreparedMatchers, lossy: seq<Byte> -> seq<Scalar>,
                                   content: seq<Byte>, start: nat, end: nat)
  {
    && start <= end <= |content|
    && var from := if start < 512 then 0 else start - 512;
       reports == Matched(m.raws, m.regexes, from, start, lossy(content[from..end]), m.correlations)
  }

  lemma WindowBytes(content: seq<Byte>, start: nat, n: nat, from: nat, end: nat, window: seq<Byte>)
    requires start + n == end <= |content| && from == (if start < 512 then 0 else start - 512)
    requires window == content[from..end]
    ensures Window(content, start, n) == window && start - Overlap(start) == from
  {
  }

  lemma WindowReportsAre(m: PreparedMatchers, lossy: seq<Byte> -> seq<Scalar>, content: seq<Byte>, start: nat, n: nat,
                         end: nat)
    requires start + n == end <= |content|
    ensures AreWindowReports(WindowMatches(m, lossy, content, start, n), m, lossy, content, start, end)
  {
    var from := if start < 512 then 0 else start - 512;
    var window := content[from..end];
    WindowBytes(content, start, n, from, end, window);
    WindowIs(m, lossy, content, start, n, window, from);
  }

  lemma {:induction false} OffsetsOf(content: seq<Byte>, total: nat, sizes: seq<nat>) returns (offsets: seq<nat>)
    requires ValidReads(content, total, sizes)
    ensures AreOffsets(offsets, total, sizes) && offsets[|sizes|] == |content|
    ensures forall k :: 0 <= k <= |sizes| ==> offsets[k] <= |content|
    decreases |sizes|
  {
    if sizes == [] {
      offsets := [total];
    } else {
      var later := OffsetsOf(content, total + sizes[0], sizes[1..]);
      offsets := [total] + later;
      forall k | 0 <= k < |sizes| ensures offsets[k + 1] == offsets[k] + sizes[k] {
        if k > 0 {
          assert sizes[k] == sizes[1..][k - 1];
        }
      }
    }
  }

  lemma {:induction false} FirstWindow(m: PreparedMatchers, lossy: seq<Byte> -> seq<Scalar>, content: seq<Byte>,
                                       start: nat, sizes: seq<nat>, rest: seq<nat>, n: nat, end: nat)
    requires sizes != [] && rest == sizes[1..] && n == sizes[0] && end == start + n
    ensures ScanMatches(m, lossy, content, start, sizes)
         == WindowMatches(m, lossy, content, start, n) + ScanMatches(m, lossy, content, end, rest)
  {
  }

  lemma {:induction false} WindowsFollow(m: PreparedMatchers, lossy: seq<Byte> -> seq<Scalar>, content: seq<Byte>,
                                         total: nat, sizes: seq<nat>, offsets: seq<nat>, parts: seq<seq<Match>>, k: nat)
    requires AreOffsets(offsets, total, sizes) && |parts| == |sizes| && k <= |sizes|
    requires forall i :: 0 <= i < |sizes| ==> parts[i] == WindowMatches(m, lossy, content, offsets[i], sizes[i])
    ensures ScanMatches(m, lossy, content, offsets[k], sizes[k..]) == Concat(parts[k..])
    decreases |sizes| - k
  {
    if k < |sizes| {
      WindowsFollow(m, lossy, content, total, sizes, offsets, parts, k + 1);
      ConcatFrom(parts, k);
      DropOne(sizes, k);
      FirstWindow(m, lossy, content, offsets[k], sizes[k..], sizes[k + 1..], sizes[k], offsets[k + 1]);
    }
  }

  /** A scan reports what the matchers report for each window, window after window. */
  lemma ScanIsByWindow(m: PreparedMatchers, lossy: seq<Byte> -> seq<Scalar>, content: seq<Byte>, total: nat,
                       sizes: seq<nat>) returns (parts: seq<seq<Match>>, offsets: seq<nat>)
    requires ValidReads(content, total, sizes)
    ensures ScanMatches(m, lossy, content, total, sizes) == Concat(parts)
    ensures |parts| == |sizes| && AreOffsets(offsets, total, sizes) && offsets[|sizes|] == |content|
    ensures forall k :: 0 <= k < |sizes| ==>
      AreWindowReports(parts[k], m, lossy, content, offsets[k], offsets[k + 1])
  {
    offsets := OffsetsOf(content, total, sizes);
    parts := seq(|sizes|, k requires 0 <= k < |sizes| => WindowMatches(m, lossy, content, offsets[k], sizes[k]));
    WindowsFollow(m, lossy, content, total, sizes, offsets, parts, 0);
    assert sizes[0..] == sizes && parts[0..] == parts;
    forall k | 0 <= k < |sizes| ensures AreWindowReports(parts[k], m, lossy, content, offsets[k], offsets[k + 1]) {
      WindowReportsAre(m, lossy, content, offsets[k], sizes[k], offsets[k + 1]);
    }
  }
}
