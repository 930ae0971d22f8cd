/** The match evaluator: from a string to the matches that are reported for it. Report styles are
    kept with the text they are applied to; the digests themselves are not computed. Regular
    expressions are an oracle that lists the spans of its matches. */
module Evaluator {
  import opened Bytes
  import opened Unicode
  import opened RawSearch
  import opened Correlation
  import opened ReportStyle

  datatype Interest = Group1 | Group2 | All

  datatype Action = Ignore | Alert | Block

  datatype CorrelationState = CorrelationState(index: nat, maxDistance: nat, isSecond: bool, interest: Interest)

  datatype Metadata = Metadata(policyPath: string, category: string, action: Action, style: DataReportStyle,
                               correlation: Option<CorrelationState>)

  datatype Prepared = Prepared(metadata: Metadata, span: Span)

  datatype MatchRaw = MatchRaw(metadata: Metadata, raw: seq<Scalar>)

  /** `find`: the spans that the regular expression matches in a string. */
  datatype Regex = Regex(find: seq<Scalar> -> seq<Span>)

  datatype MatchRegex = MatchRegex(metadata: Metadata, regex: Regex, strip: nat, ignore: set<seq<Byte>>)

  /** What is kept of a match. `value`: the text it reports, if its style reports any. */
  datatype Match = Match(category: string, start: nat, length: nat, path: string,
                         value: Option<seq<Byte>>, style: DataReportStyle, action: Action)

  // ----- Evaluation of one string

  function Hits(metadata: Metadata, starts: seq<nat>, n: nat): seq<Prepared> {
    seq(|starts|, i requires 0 <= i < |starts| => Prepared(metadata, Span(starts[i], n)))
  }

  function RawHits(m: MatchRaw, source: seq<Scalar>): seq<Prepared> {
    var needle := Utf8(m.raw);
    if needle == [] then [] else Hits(m.metadata, Greedy(Utf8(source), needle, 0), |needle|)
  }

  function AllRawHits(raws: seq<MatchRaw>, source: seq<Scalar>): seq<Prepared> {
    if raws == [] then [] else AllRawHits(raws[..|raws| - 1], source) + RawHits(raws[|raws| - 1], source)
  }

  function Slice(s: seq<Byte>, start: nat, end: nat): seq<Byte> {
    if start <= end <= |s| then s[start..end] else []
  }

  /** A match of a regular expression without `strip` bytes at either end. */
  function Stripped(m: MatchRegex, found: Span): Prepared {
    var start := found.start + m.strip;
    Prepared(m.metadata, Span(start, SaturatingSub(found.End(), start + m.strip)))
  }

  function RegexHits(m: MatchRegex, found: seq<Span>, bytes: seq<Byte>): seq<Prepared> {
    if found == [] then []
    else
      var last := found[|found| - 1];
      RegexHits(m, found[..|found| - 1], bytes)
      + if Slice(bytes, last.start, last.End()) in m.ignore then [] else [Stripped(m, last)]
  }

  function AllRegexHits(regexes: seq<MatchRegex>, source: seq<Scalar>): seq<Prepared> {
    if regexes == [] then []
    else
      var last := regexes[|regexes| - 1];
      AllRegexHits(regexes[..|regexes| - 1], source) + RegexHits(last, last.regex.find(source), Utf8(source))
  }

  function Evaluated(raws: seq<MatchRaw>, regexes: seq<MatchRegex>, source: seq<Scalar>): seq<Prepared> {
    AllRawHits(raws, source) + AllRegexHits(regexes, source)
  }

  // ----- Filter and groups

  predicate Survives(p: Prepared, offset: nat, minimumEnd: nat) {
    p.span.start + offset + p.span.length > minimumEnd
  }

  predicate InGroup(p: Prepared, index: nat, second: bool) {
    && p.metadata.correlation.Some?
    && p.metadata.correlation.value.index == index && p.metadata.correlation.value.isSecond == second
  }

  /** The surviving matches of one correlation group, in the order in which they were found. */
  function Group(local: seq<Prepared>, offset: nat, minimumEnd: nat, index: nat, second: bool): seq<Prepared> {
    if local == [] then []
    else
      var last := local[|local| - 1];
      Group(local[..|local| - 1], offset, minimumEnd, index, second)
      + if Survives(last, offset, minimumEnd) && InGroup(last, index, second) then [last] else []
  }

  function ReportedValue(style: DataReportStyle, text: seq<Byte>): Option<seq<Byte>> {
    if style.NoReport? then None else Some(text)
  }

  function DirectMatch(p: Prepared, offset: nat, bytes: seq<Byte>): Match {
    Match(p.metadata.category, p.span.start + offset, p.span.length, p.metadata.policyPath,
      ReportedValue(p.metadata.style, Slice(bytes, p.span.start, p.span.End())),
      p.metadata.style, p.metadata.action)
  }

  /** The surviving matches outside any correlation, in the order in which they were found. */
  function Direct(local: seq<Prepared>, offset: nat, minimumEnd: nat, bytes: seq<Byte>): seq<Match> {
    if local == [] then []
    else
      var last := local[|local| - 1];
      Direct(local[..|local| - 1], offset, minimumEnd, bytes)
      + if Survives(last, offset, minimumEnd) && last.metadata.correlation.None? then [DirectMatch(last, offset, bytes)]
        else []
  }

  // ----- Sorting

  /** `sort_by_key(|x| x.start)`: a stable sort. */
  function SortByStart(s: seq<Prepared>): seq<Prepared> {
    if s == [] then [] else Insert(s[0], SortByStart(s[1..]))
  }

  /** Inserts before every match that starts no earlier. */
  function Insert(x: Prepared, s: seq<Prepared>): seq<Prepared> {
    if s == [] || x.span.start <= s[0].span.start then [x] + s else [s[0]] + Insert(x, s[1..])
  }

  /** Every element starts at or after `from`, and no element starts before the one before it. */
  predicate Ascending(s: seq<Prepared>, from: nat) {
    s == [] || (from <= s[0].span.start && Ascending(s[1..], s[0].span.start))
  }

  /** The elements that start at `start`, in order. */
  function AtStart(s: seq<Prepared>, start: nat): seq<Prepared> {
    if s == [] then []
    else (if s[0].span.start == start then [s[0]] else []) + AtStart(s[1..], start)
  }

  lemma {:induction false} InsertAscends(x: Prepared, s: seq<Prepared>, from: nat)
    requires Ascending(s, from) && from <= x.span.start
    ensures Ascending(Insert(x, s), from)
  {
    if s == [] || x.span.start <= s[0].span.start {
      assert ([x] + s)[1..] == s;
    } else {
      InsertAscends(x, s[1..], s[0].span.start);
      assert ([s[0]] + Insert(x, s[1..]))[1..] == Insert(x, s[1..]);
    }
  }

  lemma {:induction false} InsertPermutes(x: Prepared, s: seq<Prepared>)
    ensures multiset(Insert(x, s)) == multiset(s) + multiset{x}
  {
    if s != [] && x.span.start > s[0].span.start {
      InsertPermutes(x, s[1..]);
      Uncons(s);
    }
  }

  lemma {:induction false} InsertIsStable(x: Prepared, s: seq<Prepared>, start: nat)
    ensures AtStart(Insert(x, s), start) == (if x.span.start == start then [x] else []) + AtStart(s, start)
  {
    if s == [] || x.span.start <= s[0].span.start {
      AtStartCons(x, s, start);
    } else {
      InsertIsStable(x, s[1..], start);
      AtStartCons(s[0], Insert(x, s[1..]), start);
      AtStartCons(s[0], s[1..], start);
      Uncons(s);
      Assoc([], AtStart(s[1..], start), []);
    }
  }

  lemma {:induction false} AtStartCons(x: Prepared, s: seq<Prepared>, start: nat)
    ensures AtStart([x] + s, start) == (if x.span.start == start then [x] else []) + AtStart(s, start)
  {
    assert ([x] + s)[1..] == s;
  }

  lemma {:induction false} SortAscends(s: seq<Prepared>)
    ensures Ascending(SortByStart(s), 0)
  {
    if s != [] {
      SortAscends(s[1..]);
      InsertAscends(s[0], SortByStart(s[1..]), 0);
    }
  }

  lemma {:induction false} SortPermutes(s: seq<Prepared>)
    ensures multiset(SortByStart(s)) == multiset(s)
  {
    if s != [] {
      SortPermutes(s[1..]);
      InsertPermutes(s[0], SortByStart(s[1..]));
      Uncons(s);
    }
  }

  lemma {:induction false} SortIsStable(s: seq<Prepared>, start: nat)
    ensures AtStart(SortByStart(s), start) == AtStart(s, start)
  {
    if s != [] {
      SortIsStable(s[1..], start);
      InsertIsStable(s[0], SortByStart(s[1..]), start);
    }
  }

  /** The sort orders, loses nothing, and keeps the order of matches with the same start. */
  lemma {:induction false} SortSorts(s: seq<Prepared>, start: nat)
    ensures Ascending(SortByStart(s), 0)
    ensures multiset(SortByStart(s)) == multiset(s)
    ensures AtStart(SortByStart(s), start) == AtStart(s, start)
  {
    SortAscends(s);
    SortPermutes(s);
    SortIsStable(s, start);
  }

  function Spans(s: seq<Prepared>): seq<Span> {
    seq(|s|, i requires 0 <= i < |s| => s[i].span)
  }

  lemma {:induction false} AscendingIsSorted(s: seq<Prepared>, from: nat, i: nat, j: nat)
    requires Ascending(s, from) && i <= j < |s|
    ensures from <= s[i].span.start <= s[j].span.start
    decreases |s|
  {
    if j > 0 {
      AscendingIsSorted(s[1..], s[0].span.start, if i > 0 then i - 1 else 0, j - 1);
    }
  }

  lemma {:induction false} SortedSpans(s: seq<Prepared>)
    ensures Sorted(Spans(SortByStart(s)))
  {
    var r := SortByStart(s);
    SortSorts(s, 0);
    forall i, j | 0 <= i < j < |r| ensures Spans(r)[i].start <= Spans(r)[j].start {
      AscendingIsSorted(r, 0, i, j);
    }
  }

  lemma {:induction false} SameElements(s: seq<Prepared>, x: Prepared)
    ensures x in SortByStart(s) <==> x in s
  {
    SortSorts(s, 0);
    assert x in SortByStart(s) <==> x in multiset(SortByStart(s));
    assert x in s <==> x in multiset(s);
  }

  // ----- Correlated matches

  /** The range that is reported for a pair, by interest. */
  function EmitRange(a: Prepared, b: Prepared, interest: Interest): (nat, nat) {
    match interest
    case Group1 => (a.span.start, a.span.End())
    case Group2 => (b.span.start, b.span.End())
    case All => (TotalStart(a.span, b.span), TotalEnd(a.span, b.span))
  }

  function EmitStyle(a: Prepared, b: Prepared, interest: Interest): DataReportStyle {
    match interest
    case Group1 => a.metadata.style
    case Group2 => b.metadata.style
    case All => Stricter(a.metadata.style, b.metadata.style)
  }

  function EmitPair(a: Prepared, b: Prepared, interest: Interest, offset: nat, bytes: seq<Byte>): Match {
    var (start, end) := EmitRange(a, b, interest);
    var style := EmitStyle(a, b, interest);
    Match(a.metadata.category, start + offset, SaturatingSub(end, start), a.metadata.policyPath,
      ReportedValue(style, Slice(bytes, start, end)), style, a.metadata.action)
  }

  /** The reported range is a slice of the string when the matches are. */
  lemma EmitRangeInBounds(a: Prepared, b: Prepared, interest: Interest, length: nat)
    requires a.span.End() <= length && b.span.End() <= length
    ensures var (start, end) := EmitRange(a, b, interest);
      start <= end <= length
  {
  }

  predicate PairsIn(pairs: seq<Pair>, n1: nat, n2: nat) {
    forall i :: 0 <= i < |pairs| ==> pairs[i].first < n1 && pairs[i].second < n2
  }

  function EmitPairs(g1: seq<Prepared>, g2: seq<Prepared>, pairs: seq<Pair>, interest: Interest, offset: nat,
                     bytes: seq<Byte>): seq<Match>
    requires PairsIn(pairs, |g1|, |g2|)
  {
    seq(|pairs|, i requires 0 <= i < |pairs| =>
      EmitPair(g1[pairs[i].first], g2[pairs[i].second], interest, offset, bytes))
  }

  function SweptPairs(g1: seq<Prepared>, g2: seq<Prepared>, d: nat): (pairs: seq<Pair>)
    ensures PairsIn(pairs, |g1|, |g2|)
  {
    SweepIsSound(Spans(g1), Spans(g2), d);
    Swept(Spans(g1), Spans(g2), d)
  }

  /** What one correlation reports. Distance and interest are those of its earliest group-1 match. */
  function Correlated(group1: seq<Prepared>, group2: seq<Prepared>, offset: nat, bytes: seq<Byte>): seq<Match> {
    var g1, g2 := SortByStart(group1), SortByStart(group2);
    if g1 == [] || g1[0].metadata.correlation.None? then []
    else
      var correlation := g1[0].metadata.correlation.value;
      EmitPairs(g1, g2, SweptPairs(g1, g2, correlation.maxDistance), correlation.interest, offset, bytes)
  }

  /** What all correlations below `n` report, by ascending index. */
  function AllCorrelated(local: seq<Prepared>, offset: nat, minimumEnd: nat, bytes: seq<Byte>, n: nat): seq<Match> {
    if n == 0 then []
    else
      AllCorrelated(local, offset, minimumEnd, bytes, n - 1)
      + Correlated(Group(local, offset, minimumEnd, n - 1, false), Group(local, offset, minimumEnd, n - 1, true),
                   offset, bytes)
  }

  ghost predicate SomeNear(group1: seq<Prepared>, group2: seq<Prepared>, d: nat) {
    exists a, b :: a in group1 && b in group2 && Near(a.span, b.span, d)
  }

  lemma NearSpans(g1: seq<Prepared>, g2: seq<Prepared>, d: nat)
    ensures SomeNear(g1, g2, d)
      <==> exists i, j :: 0 <= i < |g1| && 0 <= j < |g2| && Near(Spans(g1)[i], Spans(g2)[j], d)
  {
    if i, j :| 0 <= i < |g1| && 0 <= j < |g2| && Near(Spans(g1)[i], Spans(g2)[j], d) {
      assert g1[i] in g1 && g2[j] in g2 && Near(g1[i].span, g2[j].span, d);
    }
    if a, b :| a in g1 && b in g2 && Near(a.span, b.span, d) {
      var i :| 0 <= i < |g1| && g1[i] == a;
      var j :| 0 <= j < |g2| && g2[j] == b;
      assert Near(Spans(g1)[i], Spans(g2)[j], d);
    }
  }

  /** A correlation reports something exactly when two of its matches are near. */
  lemma CorrelationIsDetected(group1: seq<Prepared>, group2: seq<Prepared>, d: nat, offset: nat, bytes: seq<Byte>)
    requires forall a :: a in group1 ==> a.metadata.correlation.Some? && a.metadata.correlation.value.maxDistance == d
    ensures Correlated(group1, group2, offset, bytes) != [] <==> SomeNear(group1, group2, d)
  {
    var g1, g2 := SortByStart(group1), SortByStart(group2);
    forall x ensures (x in g1 <==> x in group1) && (x in g2 <==> x in group2) {
      SameElements(group1, x);
      SameElements(group2, x);
    }
    SortedSpans(group1);
    SortedSpans(group2);
    SweepIsComplete(Spans(g1), Spans(g2), d);
    NearSpans(g1, g2, d);
  }

  /** `do_matching`, as a function. */
  function Matched(raws: seq<MatchRaw>, regexes: seq<MatchRegex>, offset: nat, minimumEnd: nat, body: seq<Scalar>,
                   n: nat): seq<Match> {
    var local := Evaluated(raws, regexes, body);
    Direct(local, offset, minimumEnd, Utf8(body)) + AllCorrelated(local, offset, minimumEnd, Utf8(body), n)
  }
}
