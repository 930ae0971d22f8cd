/** What the evaluator finds and reports, told by the positions in its inputs: which spans of which regular
    expressions, which matches, and which emitted pairs, in which order and with which fields. */
module MatchReports {
  import opened Bytes
  import opened Unicode
  import opened RawSearch
  import opened Correlation
  import opened Evaluator
  import opened Matcher
  import opened ReportStyle

  // ----- Matches of regular expressions

  /** The match is what is left of a span when `strip` bytes are taken off at either end. */
  predicate IsStripped(p: Prepared, found: Span, strip: nat, metadata: Metadata) {
    && p.metadata == metadata && p.span.start == found.start + strip
    && (2 * strip <= found.length ==> p.span.End() == found.End() - strip)
    && (found.length < 2 * strip ==> p.span.length == 0)
  }

  /** The matches are those of the spans at these indices. */
  ghost predicate AreStripped(hits: seq<Prepared>, found: seq<Span>, at: seq<nat>, strip: nat, metadata: Metadata)
  {
    |hits| == |at|
    && forall k :: 0 <= k < |at| ==> at[k] < |found| && IsStripped(hits[k], found[at[k]], strip, metadata)
  }

  /** Of the first `n` spans those whose text is not ignored, in order. */
  ghost predicate AreKept(at: seq<nat>, found: seq<Span>, n: nat, ignore: set<seq<Byte>>, bytes: seq<Byte>)
    requires n <= |found|
  {
    && Increasing(at, n)
    && forall i: nat :: i < n ==> (i in at <==> Slice(bytes, found[i].start, found[i].End()) !in ignore)
  }

  /** The matches of one regular expression are those of its spans that are not ignored, in order. */
  ghost predicate AreHits(hits: seq<Prepared>, found: seq<Span>, strip: nat, ignore: set<seq<Byte>>,
                          metadata: Metadata, bytes: seq<Byte>)
  {
    exists at :: AreKept(at, found, |found|, ignore, bytes) && AreStripped(hits, found, at, strip, metadata)
  }

  lemma StrippedIs(m: MatchRegex, found: Span)
    ensures IsStripped(Stripped(m, found), found, m.strip, m.metadata)
  {
  }

  lemma OneMoreKept(m: MatchRegex, found: seq<Span>, n: nat, bytes: seq<Byte>, hits: seq<Prepared>, before: seq<nat>,
                    more: seq<Prepared>) returns (at: seq<nat>)
    requires n < |found| && AreKept(before, found, n, m.ignore, bytes)
    requires AreStripped(hits, found, before, m.strip, m.metadata)
    requires more == hits + if Slice(bytes, found[n].start, found[n].End()) in m.ignore then []
                            else [Stripped(m, found[n])]
    ensures AreKept(at, found, n + 1, m.ignore, bytes) && AreStripped(more, found, at, m.strip, m.metadata)
  {
    IncreasingNext(before, n);
    StrippedIs(m, found[n]);
    Assoc(hits, [], []);
    at := if Slice(bytes, found[n].start, found[n].End()) in m.ignore then before else before + [n];
  }

  lemma {:induction false} RegexHitsAt(m: MatchRegex, found: seq<Span>, n: nat, bytes: seq<Byte>)
    returns (at: seq<nat>)
    requires n <= |found|
    ensures AreKept(at, found, n, m.ignore, bytes)
    ensures AreStripped(RegexHits(m, found[..n], bytes), found, at, m.strip, m.metadata)
    decreases n
  {
    if n == 0 {
      at := [];
    } else {
      var before := RegexHitsAt(m, found, n - 1, bytes);
      RegexHitsUpTo(m, found, n - 1, bytes);
      at := OneMoreKept(m, found, n - 1, bytes, RegexHits(m, found[..n - 1], bytes), before,
        RegexHits(m, found[..n], bytes));
    }
  }

  lemma {:induction false} RegexHitsAre(m: MatchRegex, found: seq<Span>, bytes: seq<Byte>)
    ensures AreHits(RegexHits(m, found, bytes), found, m.strip, m.ignore, m.metadata, bytes)
  {
    var at := RegexHitsAt(m, found, |found|, bytes);
    assert found[..|found|] == found;
  }

  /** `parts` are the matches of the regular expressions, one after another. */
  ghost predicate AreAllHits(parts: seq<seq<Prepared>>, regexes: seq<MatchRegex>, source: seq<Scalar>) {
    && |parts| == |regexes|
    && forall i :: 0 <= i < |regexes| ==>
         AreHits(parts[i], regexes[i].regex.find(source), regexes[i].strip, regexes[i].ignore, regexes[i].metadata,
                 Utf8(source))
  }

  lemma {:induction false} RegexHitsFollow(regexes: seq<MatchRegex>, n: nat, source: seq<Scalar>,
                                           parts: seq<seq<Prepared>>)
    requires n <= |regexes| == |parts|
    requires forall i :: 0 <= i < |parts| ==>
      parts[i] == RegexHits(regexes[i], regexes[i].regex.find(source), Utf8(source))
    ensures AllRegexHits(regexes[..n], source) == Concat(parts[..n])
    decreases n
  {
    if n > 0 {
      RegexHitsFollow(regexes, n - 1, source, parts);
      assert regexes[..n][..n - 1] == regexes[..n - 1];
      ConcatUpTo(parts, n - 1);
    }
  }

  /** Every regular expression is run: the matches of all of them follow one another, and are for each
      those of its spans that are not ignored. */
  lemma AllRegexHitsAre(regexes: seq<MatchRegex>, source: seq<Scalar>) returns (parts: seq<seq<Prepared>>)
    ensures AllRegexHits(regexes, source) == Concat(parts) && AreAllHits(parts, regexes, source)
  {
    parts := seq(|regexes|, i requires 0 <= i < |regexes| =>
      RegexHits(regexes[i], regexes[i].regex.find(source), Utf8(source)));
    RegexHitsFollow(regexes, |regexes|, source, parts);
    assert regexes[..|regexes|] == regexes && parts[..|parts|] == parts;
    forall i | 0 <= i < |regexes|
      ensures AreHits(parts[i], regexes[i].regex.find(source), regexes[i].strip, regexes[i].ignore,
                      regexes[i].metadata, Utf8(source))
    {
      RegexHitsAre(regexes[i], regexes[i].regex.find(source), Utf8(source));
    }
  }

  /** The matches of one raw are the greedy occurrences of its needle. */
  ghost predicate AreFound(hits: seq<Prepared>, raw: MatchRaw, source: seq<Scalar>) {
    if raw.raw == [] then hits == []
    else exists starts :: IsGreedyChoice(Utf8(source), Utf8(raw.raw), starts)
           && |hits| == |starts|
           && forall k :: 0 <= k < |starts| ==> hits[k] == Prepared(raw.metadata, Span(starts[k], |Utf8(raw.raw)|))
  }

  lemma RawHitsAre(raw: MatchRaw, source: seq<Scalar>)
    ensures AreFound(RawHits(raw, source), raw, source)
  {
    if raw.raw != [] {
      FirstByte(raw.raw);
      var starts := Greedy(Utf8(source), Utf8(raw.raw), 0);
      GreedyIsTheChoice(Utf8(source), Utf8(raw.raw), starts);
      assert |RawHits(raw, source)| == |starts|;
    }
  }

  ghost predicate AreAllFound(parts: seq<seq<Prepared>>, raws: seq<MatchRaw>, source: seq<Scalar>) {
    |parts| == |raws| && forall i :: 0 <= i < |raws| ==> AreFound(parts[i], raws[i], source)
  }

  lemma {:induction false} RawHitsFollow(raws: seq<MatchRaw>, n: nat, source: seq<Scalar>,
                                         parts: seq<seq<Prepared>>)
    requires n <= |raws| == |parts| && forall i :: 0 <= i < |parts| ==> parts[i] == RawHits(raws[i], source)
    ensures AllRawHits(raws[..n], source) == Concat(parts[..n])
    decreases n
  {
    if n > 0 {
      RawHitsFollow(raws, n - 1, source, parts);
      assert raws[..n][..n - 1] == raws[..n - 1];
      ConcatUpTo(parts, n - 1);
    }
  }

  lemma AllRawHitsAre(raws: seq<MatchRaw>, source: seq<Scalar>) returns (parts: seq<seq<Prepared>>)
    ensures AllRawHits(raws, source) == Concat(parts) && AreAllFound(parts, raws, source)
  {
    parts := seq(|raws|, i requires 0 <= i < |raws| => RawHits(raws[i], source));
    RawHitsFollow(raws, |raws|, source, parts);
    assert raws[..|raws|] == raws && parts[..|parts|] == parts;
    forall i | 0 <= i < |raws| ensures AreFound(parts[i], raws[i], source) {
      RawHitsAre(raws[i], source);
    }
  }

  /** What is found in a string: the matches of every raw, and then those of every regular expression. */
  lemma EvaluatedIs(raws: seq<MatchRaw>, regexes: seq<MatchRegex>, source: seq<Scalar>)
    returns (rawParts: seq<seq<Prepared>>, regexParts: seq<seq<Prepared>>)
    ensures Evaluated(raws, regexes, source) == Concat(rawParts) + Concat(regexParts)
    ensures AreAllFound(rawParts, raws, source) && AreAllHits(regexParts, regexes, source)
  {
    rawParts := AllRawHitsAre(raws, source);
    regexParts := AllRegexHitsAre(regexes, source);
  }

  /** A reference to a group is the group itself, or the name of a category that has one. */
  lemma ResolveIff(r: MatchGroupRef, categories: map<string, Category>, g: MatchGroup)
    ensures Resolve(r, categories) == Some(g)
       <==> r == Inline(g) || exists name :: r == Ref(name) && name in categories && categories[name] == Matchers(g)
  {
  }

  /** What a prepared group finds: the occurrences of each of its needles, and the spans of each of its regular
      expressions whose text neither the group nor the configured category ignores, each shortened by the
      group's strip. */
  lemma PreparedGroupFinds(g: MatchGroup, metadata: Metadata, ignore: set<seq<Byte>>, source: seq<Scalar>)
    returns (rawParts: seq<seq<Prepared>>, regexParts: seq<seq<Prepared>>)
    ensures Evaluated(RawsOf(g, metadata), RegexesOf(g, metadata, ignore), source)
         == Concat(rawParts) + Concat(regexParts)
    ensures |rawParts| == |g.raw| && |regexParts| == |g.regexes|
    ensures forall i :: 0 <= i < |g.raw| ==> AreFound(rawParts[i], MatchRaw(metadata, g.raw[i]), source)
    ensures forall i :: 0 <= i < |g.regexes| ==>
      AreHits(regexParts[i], g.regexes[i].find(source), g.strip, ignore + g.ignore, metadata, Utf8(source))
  {
    rawParts, regexParts := EvaluatedIs(RawsOf(g, metadata), RegexesOf(g, metadata, ignore), source);
  }

  // ----- Direct reports and groups

  /** The text that a style lets through. */
  predicate ShowsText(r: Match, text: seq<Byte>) {
    r.value == if r.style == NoReport then None else Some(text)
  }

  /** The report is that of the match, at its place in the body. */
  predicate IsReportOf(r: Match, p: Prepared, offset: nat, bytes: seq<Byte>) {
    && r.category == p.metadata.category && r.path == p.metadata.policyPath && r.action == p.metadata.action
    && r.start == p.span.start + offset && r.length == p.span.length
    && r.style == p.metadata.style
    && (p.span.End() <= |bytes| ==> ShowsText(r, bytes[p.span.start..p.span.End()]))
  }

  /** The match ends behind what earlier windows have reported. */
  predicate EndsLater(p: Prepared, offset: nat, minimumEnd: nat) {
    offset + p.span.End() > minimumEnd
  }

  /** Of the first `n` matches those that are in no correlation and are no duplicates, in order. */
  ghost predicate AreDirect(at: seq<nat>, local: seq<Prepared>, n: nat, offset: nat, minimumEnd: nat)
    requires n <= |local|
  {
    && Increasing(at, n)
    && forall i: nat :: i < n ==>
         (i in at <==> local[i].metadata.correlation == None && EndsLater(local[i], offset, minimumEnd))
  }

  ghost predicate AreReportsOf(reports: seq<Match>, local: seq<Prepared>, at: seq<nat>, offset: nat,
                               bytes: seq<Byte>)
  {
    |reports| == |at|
    && forall k :: 0 <= k < |at| ==> at[k] < |local| && IsReportOf(reports[k], local[at[k]], offset, bytes)
  }

  lemma {:induction false} DirectUpTo(local: seq<Prepared>, n: nat, offset: nat, minimumEnd: nat, bytes: seq<Byte>)
    requires n < |local|
    ensures Direct(local[..n + 1], offset, minimumEnd, bytes)
         == Direct(local[..n], offset, minimumEnd, bytes)
            + if EndsLater(local[n], offset, minimumEnd) && local[n].metadata.correlation == None
              then [DirectMatch(local[n], offset, bytes)] else []
  {
    assert local[..n + 1][..n] == local[..n];
  }

  lemma DirectNext(local: seq<Prepared>, n: nat, offset: nat, minimumEnd: nat, rest: seq<nat>)
    returns (at: seq<nat>)
    requires n < |local| && AreDirect(rest, local, n, offset, minimumEnd)
    ensures AreDirect(at, local, n + 1, offset, minimumEnd)
    ensures at == if EndsLater(local[n], offset, minimumEnd) && local[n].metadata.correlation == None
                  then rest + [n] else rest
  {
    IncreasingNext(rest, n);
    at := if EndsLater(local[n], offset, minimumEnd) && local[n].metadata.correlation == None then rest + [n] else rest;
  }

  lemma DirectMatchIs(p: Prepared, offset: nat, bytes: seq<Byte>)
    ensures IsReportOf(DirectMatch(p, offset, bytes), p, offset, bytes)
  {
  }

  lemma OneMoreReport(reports: seq<Match>, local: seq<Prepared>, at: seq<nat>, n: nat, r: Match, offset: nat,
                      bytes: seq<Byte>)
    requires AreReportsOf(reports, local, at, offset, bytes)
    requires n < |local| && IsReportOf(r, local[n], offset, bytes)
    ensures AreReportsOf(reports + [r], local, at + [n], offset, bytes)
  {
  }

  lemma OneMoreDirect(local: seq<Prepared>, n: nat, offset: nat, minimumEnd: nat, bytes: seq<Byte>,
                      reports: seq<Match>, before: seq<nat>, more: seq<Match>) returns (at: seq<nat>)
    requires n < |local| && AreDirect(before, local, n, offset, minimumEnd)
    requires AreReportsOf(reports, local, before, offset, bytes)
    requires more == reports + if EndsLater(local[n], offset, minimumEnd) && local[n].metadata.correlation == None
                               then [DirectMatch(local[n], offset, bytes)] else []
    ensures AreDirect(at, local, n + 1, offset, minimumEnd) && AreReportsOf(more, local, at, offset, bytes)
  {
    at := DirectNext(local, n, offset, minimumEnd, before);
    DirectMatchIs(local[n], offset, bytes);
    OneMoreReport(reports, local, before, n, DirectMatch(local[n], offset, bytes), offset, bytes);
    Assoc(reports, [], []);
  }

  lemma {:induction false} DirectAt(local: seq<Prepared>, n: nat, offset: nat, minimumEnd: nat, bytes: seq<Byte>)
    returns (at: seq<nat>)
    requires n <= |local|
    ensures AreDirect(at, local, n, offset, minimumEnd)
    ensures AreReportsOf(Direct(local[..n], offset, minimumEnd, bytes), local, at, offset, bytes)
    decreases n
  {
    if n == 0 {
      at := [];
    } else {
      var before := DirectAt(local, n - 1, offset, minimumEnd, bytes);
      DirectUpTo(local, n - 1, offset, minimumEnd, bytes);
      at := OneMoreDirect(local, n - 1, offset, minimumEnd, bytes, Direct(local[..n - 1], offset, minimumEnd, bytes),
        before, Direct(local[..n], offset, minimumEnd, bytes));
    }
  }

  /** Exactly the matches outside any correlation that no earlier window reported are reported directly, each
      once and in the order in which they were found. */
  lemma DirectIs(local: seq<Prepared>, offset: nat, minimumEnd: nat, bytes: seq<Byte>) returns (at: seq<nat>)
    ensures AreDirect(at, local, |local|, offset, minimumEnd)
    ensures AreReportsOf(Direct(local, offset, minimumEnd, bytes), local, at, offset, bytes)
  {
    at := DirectAt(local, |local|, offset, minimumEnd, bytes);
    assert local[..|local|] == local;
  }

  /** Of the first `n` matches those that belong to one side of correlation `index` and are no duplicates. */
  ghost predicate AreGrouped(at: seq<nat>, local: seq<Prepared>, n: nat, offset: nat, minimumEnd: nat, index: nat,
                             second: bool)
    requires n <= |local|
  {
    && Increasing(at, n)
    && forall i: nat :: i < n ==>
         (i in at <==>
            && EndsLater(local[i], offset, minimumEnd) && local[i].metadata.correlation.Some?
            && local[i].metadata.correlation.value.index == index
            && local[i].metadata.correlation.value.isSecond == second)
  }

  ghost predicate ArePicked(group: seq<Prepared>, local: seq<Prepared>, at: seq<nat>) {
    |group| == |at| && forall k :: 0 <= k < |at| ==> at[k] < |local| && group[k] == local[at[k]]
  }

  lemma {:induction false} GroupUpTo(local: seq<Prepared>, n: nat, offset: nat, minimumEnd: nat, index: nat,
                                     second: bool)
    requires n < |local|
    ensures Group(local[..n + 1], offset, minimumEnd, index, second)
         == Group(local[..n], offset, minimumEnd, index, second)
            + if EndsLater(local[n], offset, minimumEnd) && InGroup(local[n], index, second) then [local[n]] else []
  {
    assert local[..n + 1][..n] == local[..n];
  }

  lemma GroupedNext(local: seq<Prepared>, n: nat, offset: nat, minimumEnd: nat, index: nat, second: bool,
                    before: seq<nat>) returns (at: seq<nat>)
    requires n < |local| && AreGrouped(before, local, n, offset, minimumEnd, index, second)
    ensures AreGrouped(at, local, n + 1, offset, minimumEnd, index, second)
    ensures at == if EndsLater(local[n], offset, minimumEnd) && InGroup(local[n], index, second) then before + [n]
                  else before
  {
    IncreasingNext(before, n);
    at := if EndsLater(local[n], offset, minimumEnd) && InGroup(local[n], index, second) then before + [n] else before;
  }

  lemma PickedNext(group: seq<Prepared>, local: seq<Prepared>, at: seq<nat>, n: nat)
    requires ArePicked(group, local, at) && n < |local|
    ensures ArePicked(group + [local[n]], local, at + [n])
  {
  }

  lemma OneMoreGrouped(local: seq<Prepared>, n: nat, offset: nat, minimumEnd: nat, index: nat, second: bool,
                       group: seq<Prepared>, before: seq<nat>, more: seq<Prepared>) returns (at: seq<nat>)
    requires n < |local| && AreGrouped(before, local, n, offset, minimumEnd, index, second)
    requires ArePicked(group, local, before)
    requires more == group + if EndsLater(local[n], offset, minimumEnd) && InGroup(local[n], index, second)
                             then [local[n]] else []
    ensures AreGrouped(at, local, n + 1, offset, minimumEnd, index, second) && ArePicked(more, local, at)
  {
    at := GroupedNext(local, n, offset, minimumEnd, index, second, before);
    PickedNext(group, local, before, n);
    Assoc(group, [], []);
  }

  lemma {:induction false} GroupAt(local: seq<Prepared>, n: nat, offset: nat, minimumEnd: nat, index: nat,
                                   second: bool) returns (at: seq<nat>)
    requires n <= |local|
    ensures AreGrouped(at, local, n, offset, minimumEnd, index, second)
    ensures ArePicked(Group(local[..n], offset, minimumEnd, index, second), local, at)
    decreases n
  {
    if n == 0 {
      at := [];
    } else {
      var before := GroupAt(local, n - 1, offset, minimumEnd, index, second);
      GroupUpTo(local, n - 1, offset, minimumEnd, index, second);
      at := OneMoreGrouped(local, n - 1, offset, minimumEnd, index, second,
        Group(local[..n - 1], offset, minimumEnd, index, second), before,
        Group(local[..n], offset, minimumEnd, index, second));
    }
  }

  /** Each side of a correlation gets exactly its matches that are no duplicates, each once and in order. */
  lemma GroupIs(local: seq<Prepared>, offset: nat, minimumEnd: nat, index: nat, second: bool) returns (at: seq<nat>)
    ensures AreGrouped(at, local, |local|, offset, minimumEnd, index, second)
    ensures ArePicked(Group(local, offset, minimumEnd, index, second), local, at)
  {
    at := GroupAt(local, |local|, offset, minimumEnd, index, second);
    assert local[..|local|] == local;
  }

  // ----- Reports of a correlation

  /** The range of a report, in the string. */
  predicate Holds(r: Match, offset: nat, span: Span) {
    r.start <= offset + span.start && offset + span.End() <= r.start + r.length
  }

  /** The report of an emitted pair. Its category, path and action are those of the group-1 match. Its range
      and its style are those of the match of interest; for both, the smallest range that holds both, and
      the style of the one that reveals less. */
  ghost predicate IsPairReport(r: Match, a: Prepared, b: Prepared, interest: Interest, offset: nat,
                               bytes: seq<Byte>)
  {
    && r.category == a.metadata.category && r.path == a.metadata.policyPath && r.action == a.metadata.action
    && r.start >= offset && (r.start - offset + r.length <= |bytes|
                             ==> ShowsText(r, bytes[r.start - offset..r.start - offset + r.length]))
    && match interest
       case Group1 => r.start == offset + a.span.start && r.length == a.span.length && r.style == a.metadata.style
       case Group2 => r.start == offset + b.span.start && r.length == b.span.length && r.style == b.metadata.style
       case All =>
         && Holds(r, offset, a.span) && Holds(r, offset, b.span)
         && (r.start == offset + a.span.start || r.start == offset + b.span.start)
         && (r.start + r.length == offset + a.span.End() || r.start + r.length == offset + b.span.End())
         && (r.style == a.metadata.style || r.style == b.metadata.style)
         && RevealsNoMore(r.style, a.metadata.style) && RevealsNoMore(r.style, b.metadata.style)
  }

  lemma EmitPairIs(a: Prepared, b: Prepared, interest: Interest, offset: nat, bytes: seq<Byte>)
    ensures IsPairReport(EmitPair(a, b, interest, offset, bytes), a, b, interest, offset, bytes)
  {
    StricterIsLeast(a.metadata.style, b.metadata.style);
  }

  /** What a correlation reports: one report per emitted pair of the sorted groups, in order. Distance and
      interest are those of the earliest group-1 match. */
  ghost predicate AreCorrelated(reports: seq<Match>, g1: seq<Prepared>, g2: seq<Prepared>, offset: nat,
                                bytes: seq<Byte>)
  {
    if g1 == [] || g1[0].metadata.correlation == None then reports == []
    else
      var c := g1[0].metadata.correlation.value;
      var pairs := Swept(Spans(g1), Spans(g2), c.maxDistance);
      && |reports| == |pairs|
      && forall k :: 0 <= k < |pairs| ==>
           && pairs[k].first < |g1| && pairs[k].second < |g2|
           && IsPairReport(reports[k], g1[pairs[k].first], g2[pairs[k].second], c.interest, offset, bytes)
  }

  lemma {:induction false} CorrelatedAre(group1: seq<Prepared>, group2: seq<Prepared>, offset: nat, bytes: seq<Byte>)
    ensures AreCorrelated(Correlated(group1, group2, offset, bytes), SortByStart(group1), SortByStart(group2), offset,
                          bytes)
  {
    var g1, g2 := SortByStart(group1), SortByStart(group2);
    if g1 != [] && g1[0].metadata.correlation.Some? {
      var c := g1[0].metadata.correlation.value;
      var pairs := SweptPairs(g1, g2, c.maxDistance);
      forall k | 0 <= k < |pairs|
        ensures IsPairReport(EmitPairs(g1, g2, pairs, c.interest, offset, bytes)[k], g1[pairs[k].first],
                             g2[pairs[k].second], c.interest, offset, bytes)
      {
        EmitPairIs(g1[pairs[k].first], g2[pairs[k].second], c.interest, offset, bytes);
      }
    }
  }

  // ----- All reports of a string

  ghost predicate IsFoundIn(local: seq<Prepared>, raws: seq<MatchRaw>, regexes: seq<MatchRegex>, body: seq<Scalar>) {
    exists rawParts, regexParts :: local == Concat(rawParts) + Concat(regexParts)
      && AreAllFound(rawParts, raws, body) && AreAllHits(regexParts, regexes, body)
  }

  ghost predicate AreDirectReports(reports: seq<Match>, local: seq<Prepared>, offset: nat, minimumEnd: nat,
                                   bytes: seq<Byte>)
  {
    exists at :: AreDirect(at, local, |local|, offset, minimumEnd) && AreReportsOf(reports, local, at, offset, bytes)
  }

  ghost predicate IsGroup(group: seq<Prepared>, local: seq<Prepared>, offset: nat, minimumEnd: nat, index: nat,
                          second: bool)
  {
    exists at :: AreGrouped(at, local, |local|, offset, minimumEnd, index, second) && ArePicked(group, local, at)
  }

  /** The reports of correlation `index`: those of its two groups, each sorted. */
  ghost predicate AreReportsAt(reports: seq<Match>, local: seq<Prepared>, offset: nat, minimumEnd: nat, index: nat,
                               bytes: seq<Byte>)
  {
    exists group1, group2 ::
      && IsGroup(group1, local, offset, minimumEnd, index, false)
      && IsGroup(group2, local, offset, minimumEnd, index, true)
      && AreCorrelated(reports, SortByStart(group1), SortByStart(group2), offset, bytes)
  }

  ghost predicate AreReportsByIndex(parts: seq<seq<Match>>, local: seq<Prepared>, offset: nat, minimumEnd: nat,
                                    n: nat, bytes: seq<Byte>)
  {
    && |parts| == n
    && forall index :: 0 <= index < n ==> AreReportsAt(parts[index], local, offset, minimumEnd, index, bytes)
  }

  lemma {:induction false} CorrelatedAt(local: seq<Prepared>, offset: nat, minimumEnd: nat, index: nat,
                                        bytes: seq<Byte>, group1: seq<Prepared>, group2: seq<Prepared>)
    requires group1 == Group(local, offset, minimumEnd, index, false)
    requires group2 == Group(local, offset, minimumEnd, index, true)
    ensures AreReportsAt(Correlated(group1, group2, offset, bytes), local, offset, minimumEnd, index, bytes)
  {
    var at1 := GroupIs(local, offset, minimumEnd, index, false);
    var at2 := GroupIs(local, offset, minimumEnd, index, true);
    CorrelatedAre(group1, group2, offset, bytes);
  }

  ghost function ReportsAt(local: seq<Prepared>, offset: nat, minimumEnd: nat, index: nat, bytes: seq<Byte>)
    : seq<Match>
  {
    Correlated(Group(local, offset, minimumEnd, index, false), Group(local, offset, minimumEnd, index, true), offset,
               bytes)
  }

  lemma OneMoreCorrelation(local: seq<Prepared>, offset: nat, minimumEnd: nat, n: nat, bytes: seq<Byte>)
    ensures AllCorrelated(local, offset, minimumEnd, bytes, n + 1)
         == AllCorrelated(local, offset, minimumEnd, bytes, n) + ReportsAt(local, offset, minimumEnd, n, bytes)
  {
  }

  lemma {:induction false} CorrelatedFollow(local: seq<Prepared>, offset: nat, minimumEnd: nat, n: nat,
                                            bytes: seq<Byte>, parts: seq<seq<Match>>)
    requires n <= |parts|
    requires forall index :: 0 <= index < |parts| ==>
      parts[index] == ReportsAt(local, offset, minimumEnd, index, bytes)
    ensures AllCorrelated(local, offset, minimumEnd, bytes, n) == Concat(parts[..n])
    decreases n
  {
    if n > 0 {
      CorrelatedFollow(local, offset, minimumEnd, n - 1, bytes, parts);
      OneMoreCorrelation(local, offset, minimumEnd, n - 1, bytes);
      ConcatUpTo(parts, n - 1);
    }
  }

  /** The correlations report one after another, by ascending index. */
  lemma AllCorrelatedAre(local: seq<Prepared>, offset: nat, minimumEnd: nat, n: nat, bytes: seq<Byte>)
    returns (parts: seq<seq<Match>>)
    ensures AllCorrelated(local, offset, minimumEnd, bytes, n) == Concat(parts)
    ensures AreReportsByIndex(parts, local, offset, minimumEnd, n, bytes)
  {
    parts := seq(n, index requires 0 <= index < n =>
      ReportsAt(local, offset, minimumEnd, index, bytes));
    CorrelatedFollow(local, offset, minimumEnd, n, bytes, parts);
    assert parts[..n] == parts;
    forall index | 0 <= index < n ensures AreReportsAt(parts[index], local, offset, minimumEnd, index, bytes) {
      CorrelatedAt(local, offset, minimumEnd, index, bytes, Group(local, offset, minimumEnd, index, false),
        Group(local, offset, minimumEnd, index, true));
    }
  }

  /** All reports of a string: of what is found in it, first the direct reports, and then those of each
      correlation by ascending index. */
  lemma MatchedIs(raws: seq<MatchRaw>, regexes: seq<MatchRegex>, offset: nat, minimumEnd: nat, body: seq<Scalar>,
                  n: nat) returns (local: seq<Prepared>, direct: seq<Match>, parts: seq<seq<Match>>)
    ensures Matched(raws, regexes, offset, minimumEnd, body, n) == direct + Concat(parts)
    ensures IsFoundIn(local, raws, regexes, body)
    ensures AreDirectReports(direct, local, offset, minimumEnd, Utf8(body))
    ensures AreReportsByIndex(parts, local, offset, minimumEnd, n, Utf8(body))
  {
    local := Evaluated(raws, regexes, body);
    direct := Direct(local, offset, minimumEnd, Utf8(body));
    var rawParts, regexParts := EvaluatedIs(raws, regexes, body);
    var at := DirectIs(local, offset, minimumEnd, Utf8(body));
    parts := AllCorrelatedAre(local, offset, minimumEnd, n, Utf8(body));
  }

  lemma {:induction false} PartIsIn<T>(parts: seq<seq<T>>, i: nat, x: T)
    requires i < |parts| && x in parts[i]
    ensures x in Concat(parts)
  {
    ConcatSplit(parts, i);
  }

  lemma KeptIsHit(hits: seq<Prepared>, found: seq<Span>, i: nat, strip: nat, ignore: set<seq<Byte>>,
                  metadata: Metadata, bytes: seq<Byte>) returns (p: Prepared)
    requires AreHits(hits, found, strip, ignore, metadata, bytes)
    requires i < |found| && Slice(bytes, found[i].start, found[i].End()) !in ignore
    ensures p in hits && IsStripped(p, found[i], strip, metadata)
  {
    var at :| AreKept(at, found, |found|, ignore, bytes) && AreStripped(hits, found, at, strip, metadata);
    var k :| 0 <= k < |at| && at[k] == i;
    p := hits[k];
  }

  lemma DirectIsReported(p: Prepared, local: seq<Prepared>, offset: nat, minimumEnd: nat, bytes: seq<Byte>)
    returns (r: Match)
    requires p in local && p.metadata.correlation == None && EndsLater(p, offset, minimumEnd)
    ensures r in Direct(local, offset, minimumEnd, bytes) && IsReportOf(r, p, offset, bytes)
  {
    var at := DirectIs(local, offset, minimumEnd, bytes);
    var i :| 0 <= i < |local| && local[i] == p;
    var k :| 0 <= k < |at| && at[k] == i;
    r := Direct(local, offset, minimumEnd, bytes)[k];
  }

  lemma SpanIsFound(raws: seq<MatchRaw>, regexes: seq<MatchRegex>, body: seq<Scalar>, bytes: seq<Byte>, i: nat,
                    m: MatchRegex, found: Span) returns (p: Prepared)
    requires i < |regexes| && m == regexes[i] && bytes == Utf8(body) && found in m.regex.find(body)
    requires found.End() <= |bytes| && Slice(bytes, found.start, found.End()) !in m.ignore
    ensures p in Evaluated(raws, regexes, body) && IsStripped(p, found, m.strip, m.metadata)
  {
    var all := m.regex.find(body);
    var rawParts, regexParts := EvaluatedIs(raws, regexes, body);
    var s :| 0 <= s < |all| && all[s] == found;
    p := KeptIsHit(regexParts[i], all, s, m.strip, m.ignore, m.metadata, bytes);
    PartIsIn(regexParts, i, p);
  }

  /** What is left between `start` and `end` when the span is stripped. */
  predicate Leaves(found: Span, strip: nat, start: nat, end: nat) {
    start == found.start + strip && end + strip == found.End() && start <= end
  }

  lemma StrippedIsReported(r: Match, p: Prepared, found: Span, strip: nat, metadata: Metadata, start: nat, end: nat,
                           offset: nat, bytes: seq<Byte>)
    requires IsStripped(p, found, strip, metadata) && IsReportOf(r, p, offset, bytes)
    requires Leaves(found, strip, start, end) && end <= |bytes|
    ensures r.category == metadata.category && r.style == metadata.style
    ensures r.start == offset + start && r.length == end - start && ShowsText(r, bytes[start..end])
  {
    assert p.span.start == start && p.span.End() == end;
  }

  lemma FoundIsReported(raws: seq<MatchRaw>, regexes: seq<MatchRegex>, offset: nat, minimumEnd: nat,
                        body: seq<Scalar>, bytes: seq<Byte>, n: nat, p: Prepared) returns (r: Match)
    requires bytes == Utf8(body) && p in Evaluated(raws, regexes, body)
    requires p.metadata.correlation == None && EndsLater(p, offset, minimumEnd)
    ensures r in Matched(raws, regexes, offset, minimumEnd, body, n) && IsReportOf(r, p, offset, bytes)
  {
    r := DirectIsReported(p, Evaluated(raws, regexes, body), offset, minimumEnd, bytes);
  }

  /** Every match of every regular expression outside the correlations is reported, at its position and with
      its text, unless its text is ignored or an earlier window has reported it. */
  lemma RegexIsReported(raws: seq<MatchRaw>, regexes: seq<MatchRegex>, offset: nat, minimumEnd: nat,
                        body: seq<Scalar>, bytes: seq<Byte>, n: nat, i: nat, m: MatchRegex, found: Span,
                        start: nat, end: nat) returns (r: Match)
    requires i < |regexes| && m == regexes[i] && m.metadata.correlation == None && bytes == Utf8(body)
    requires found in m.regex.find(body) && found.End() <= |bytes| && bytes[found.start..found.End()] !in m.ignore
    requires Leaves(found, m.strip, start, end) && offset + end > minimumEnd
    ensures r in Matched(raws, regexes, offset, minimumEnd, body, n)
    ensures r.category == m.metadata.category && r.style == m.metadata.style
    ensures r.start == offset + start && r.length == end - start && ShowsText(r, bytes[start..end])
  {
    var p := SpanIsFound(raws, regexes, body, bytes, i, m, found);
    r := FoundIsReported(raws, regexes, offset, minimumEnd, body, bytes, n, p);
    StrippedIsReported(r, p, found, m.strip, m.metadata, start, end, offset, bytes);
  }
}
