/** The matcher state: the prepared matchers of a policy, and the loops that run them. */
module Matcher {
  import opened Bytes
  import opened Unicode
  import opened RawSearch
  import opened Correlation
  import opened Evaluator

  datatype MatchGroup = MatchGroup(raw: seq<seq<Scalar>>, regexes: seq<Regex>, strip: nat, ignore: set<seq<Byte>>)

  datatype MatchGroupRef = Inline(group: MatchGroup) | Ref(name: string)

  datatype Category =
    | Matchers(group: MatchGroup)
    | Correlate(group1: MatchGroupRef, group2: MatchGroupRef, interest: Interest, maxDistance: nat)
    | Rematch

  /** What a correlate category configures. */
  datatype Configured = Configured(maxDistance: nat, interest: Interest)

  /** `MatchGroupRef::match_group` */
  function Resolve(r: MatchGroupRef, categories: map<string, Category>): Option<MatchGroup> {
    match r
    case Inline(group) => Some(group)
    case Ref(name) =>
      if name in categories && categories[name].Matchers? then Some(categories[name].group) else None
  }

  function RawsOf(g: MatchGroup, metadata: Metadata): seq<MatchRaw> {
    seq(|g.raw|, i requires 0 <= i < |g.raw| => MatchRaw(metadata, g.raw[i]))
  }

  function RegexesOf(g: MatchGroup, metadata: Metadata, ignore: set<seq<Byte>>): seq<MatchRegex> {
    seq(|g.regexes|, i requires 0 <= i < |g.regexes| => MatchRegex(metadata, g.regexes[i], g.strip, ignore + g.ignore))
  }

  /** The correlation of `m`, if any, is one of those configured. */
  predicate IsConfigured(m: Metadata, configured: seq<Configured>) {
    m.correlation.Some? ==>
      var c := m.correlation.value;
      c.index < |configured| && configured[c.index] == Configured(c.maxDistance, c.interest)
  }

  predicate Coherent(raws: seq<MatchRaw>, regexes: seq<MatchRegex>, configured: seq<Configured>) {
    && (forall i :: 0 <= i < |raws| ==> IsConfigured(raws[i].metadata, configured))
    && (forall i :: 0 <= i < |regexes| ==> IsConfigured(regexes[i].metadata, configured))
  }

  class MatcherState {
    var correlationIndex: nat
    var regexes: seq<MatchRegex>
    var raws: seq<MatchRaw>
    /** The correlations configured so far, by index. */
    ghost var configured: seq<Configured>

    ghost predicate Valid()
      reads this
    {
      correlationIndex == |configured| && Coherent(raws, regexes, configured)
    }

    constructor ()
      ensures Valid() && raws == [] && regexes == [] && configured == []
    {
      correlationIndex, regexes, raws, configured := 0, [], [], [];
    }

    method PrepareMatchGroup(g: MatchGroup, metadata: Metadata, ignore: set<seq<Byte>>)
      requires Valid() && IsConfigured(metadata, configured)
      modifies this`raws, this`regexes
      ensures Valid()
      ensures raws == old(raws) + RawsOf(g, metadata)
      ensures regexes == old(regexes) + RegexesOf(g, metadata, ignore)
    {
      ghost var newRaws, newRegexes := RawsOf(g, metadata), RegexesOf(g, metadata, ignore);
      for i := 0 to |g.raw|
        invariant raws == old(raws) + newRaws[..i] && regexes == old(regexes)
      {
        raws := raws + [MatchRaw(metadata, g.raw[i])];
      }
      for i := 0 to |g.regexes|
        invariant raws == old(raws) + newRaws && regexes == old(regexes) + newRegexes[..i]
      {
        regexes := regexes + [MatchRegex(metadata, g.regexes[i], g.strip, ignore + g.ignore)];
      }
    }

    /** Prepares one category. A correlate category gets the next index, for both of its groups;
        one with an unresolved group changes nothing. */
    method PrepareMatches(categories: map<string, Category>, name: string, metadata: Metadata, ignore: set<seq<Byte>>)
      requires Valid() && metadata.correlation == None
      modifies this
      ensures Valid()
      ensures
        if name !in categories || categories[name].Rematch? then
          raws == old(raws) && regexes == old(regexes) && configured == old(configured)
        else match categories[name]
          case Matchers(g) =>
            && raws == old(raws) + RawsOf(g, metadata)
            && regexes == old(regexes) + RegexesOf(g, metadata, ignore)
            && configured == old(configured)
          case Correlate(r1, r2, interest, d) =>
            match (Resolve(r1, categories), Resolve(r2, categories))
            case (Some(g1), Some(g2)) =>
              var first := metadata.(correlation := Some(CorrelationState(|old(configured)|, d, false, interest)));
              var second := metadata.(correlation := Some(CorrelationState(|old(configured)|, d, true, interest)));
              && raws == old(raws) + RawsOf(g1, first) + RawsOf(g2, second)
              && regexes == old(regexes) + RegexesOf(g1, first, ignore) + RegexesOf(g2, second, ignore)
              && configured == old(configured) + [Configured(d, interest)]
            case _ => raws == old(raws) && regexes == old(regexes) && configured == old(configured)
    {
      if name !in categories {
        return;
      }
      match categories[name]
      case Matchers(g) =>
        PrepareMatchGroup(g, metadata, ignore);
      case Correlate(r1, r2, interest, d) =>
        var g1 := Resolve(r1, categories);
        if g1.None? {
          return;
        }
        var g2 := Resolve(r2, categories);
        if g2.None? {
          return;
        }
        var index := correlationIndex;
        correlationIndex := correlationIndex + 1;
        configured := configured + [Configured(d, interest)];
        PrepareMatchGroup(g1.value, metadata.(correlation := Some(CorrelationState(index, d, false, interest))),
          ignore);
        PrepareMatchGroup(g2.value, metadata.(correlation := Some(CorrelationState(index, d, true, interest))), ignore);
      case Rematch =>
    }
  }

  // ----- Running the matchers of a state

  /** The matchers of a state, as they are run: `correlations` is the number of correlate
      categories. */
  datatype PreparedMatchers = PreparedMatchers(raws: seq<MatchRaw>, regexes: seq<MatchRegex>, correlations: nat)

  /** An empty needle makes the search index before the start of a string that is not empty. */
  predicate Searchable(raws: seq<MatchRaw>, source: seq<Scalar>) {
    source == [] || forall i :: 0 <= i < |raws| ==> raws[i].raw != []
  }

  /** `evaluate` */
  method Evaluate(m: PreparedMatchers, source: seq<Scalar>) returns (out: seq<Prepared>)
    requires Searchable(m.raws, source)
    ensures out == Evaluated(m.raws, m.regexes, source)
  {
    var rawHits := EvaluateRaws(m.raws, source);
    var regexHits := EvaluateRegexes(m.regexes, source);
    out := rawHits + regexHits;
  }

  method EvaluateRaws(raws: seq<MatchRaw>, source: seq<Scalar>) returns (out: seq<Prepared>)
    requires Searchable(raws, source)
    ensures out == AllRawHits(raws, source)
  {
    out := [];
    for i := 0 to |raws|
      invariant out == AllRawHits(raws[..i], source)
    {
      assert raws[..i + 1][..i] == raws[..i];
      var hits := EvaluateRaw(raws[i], source);
      out := out + hits;
    }
    assert raws[..|raws|] == raws;
  }

  method EvaluateRaw(m: MatchRaw, source: seq<Scalar>) returns (out: seq<Prepared>)
    requires source == [] || m.raw != []
    ensures out == RawHits(m, source)
  {
    if source == [] {
      // nothing is compared
      assert m.raw != [] ==> Utf8Char(m.raw[0]) <= Utf8(m.raw);
      return [];
    }
    var starts := FindRaw(source, m.raw);
    return Hits(m.metadata, starts, |Utf8(m.raw)|);
  }

  method EvaluateRegexes(regexes: seq<MatchRegex>, source: seq<Scalar>) returns (out: seq<Prepared>)
    ensures out == AllRegexHits(regexes, source)
  {
    out := [];
    for i := 0 to |regexes|
      invariant out == AllRegexHits(regexes[..i], source)
    {
      assert regexes[..i + 1][..i] == regexes[..i];
      var hits := EvaluateRegex(regexes[i], source);
      out := out + hits;
    }
    assert regexes[..|regexes|] == regexes;
  }

  lemma {:induction false} RegexHitsUpTo(m: MatchRegex, found: seq<Span>, i: nat, bytes: seq<Byte>)
    requires i < |found|
    ensures RegexHits(m, found[..i + 1], bytes)
         == RegexHits(m, found[..i], bytes)
            + if Slice(bytes, found[i].start, found[i].End()) in m.ignore then [] else [Stripped(m, found[i])]
  {
    assert found[..i + 1][..i] == found[..i];
  }

  method EvaluateRegex(m: MatchRegex, source: seq<Scalar>) returns (out: seq<Prepared>)
    ensures out == RegexHits(m, m.regex.find(source), Utf8(source))
  {
    out := [];
    var found := m.regex.find(source);
    for i := 0 to |found|
      invariant out == RegexHits(m, found[..i], Utf8(source))
    {
      RegexHitsUpTo(m, found, i, Utf8(source));
      if Slice(Utf8(source), found[i].start, found[i].End()) !in m.ignore {
        out := out + [Stripped(m, found[i])];
      }
    }
    assert found[..|found|] == found;
  }
  
  /** `do_matching`: drops what an earlier window reported, reports what belongs to no correlation,
      groups the rest, and sweeps each correlation that has both groups, by ascending index. */
  method RunMatchers(m: PreparedMatchers, ghost configured: seq<Configured>, offset: nat, minimumEnd: nat,
                     body: seq<Scalar>, matches: seq<Match>)
    returns (out: seq<Match>)
    requires m.correlations == |configured| && Coherent(m.raws, m.regexes, configured)
    requires Searchable(m.raws, body) && SpansFit(Evaluated(m.raws, m.regexes, body))
    ensures out == matches + Matched(m.raws, m.regexes, offset, minimumEnd, body, m.correlations)
  {
    var local := Evaluate(m, body);
    var direct, first, second := Partition(local, offset, minimumEnd, Utf8(body));
    assert forall index :: index in first ==> index < m.correlations by {
      IndicesConfigured(m.raws, m.regexes, body, configured, first, offset, minimumEnd);
    }
    var correlated := SweepAll(local, first, second, m.correlations, offset, minimumEnd, Utf8(body));
    out := matches + (direct + correlated);
  }

  /** The loop over the correlations, in the order of the keys of `first`, which are below `n`. */
  method SweepAll(ghost local: seq<Prepared>, first: map<nat, seq<Prepared>>, second: map<nat, seq<Prepared>>,
                         n: nat, offset: nat, minimumEnd: nat, bytes: seq<Byte>)
    returns (out: seq<Match>)
    requires SpansFit(local) && (forall index :: index in first ==> index < n)
    requires Grouped(first, local, offset, minimumEnd, false) && Grouped(second, local, offset, minimumEnd, true)
    ensures out == AllCorrelated(local, offset, minimumEnd, bytes, n)
  {
    out := [];
    for index := 0 to n
      invariant out == AllCorrelated(local, offset, minimumEnd, bytes, index)
    {
      var found := SweepOne(local, first, second, index, offset, minimumEnd, bytes);
      out := out + found;
    }
  }

  method SweepOne(ghost local: seq<Prepared>, first: map<nat, seq<Prepared>>, second: map<nat, seq<Prepared>>,
                         index: nat, offset: nat, minimumEnd: nat, bytes: seq<Byte>)
    returns (out: seq<Match>)
    requires SpansFit(local)
    requires Grouped(first, local, offset, minimumEnd, false) && Grouped(second, local, offset, minimumEnd, true)
    ensures out == Correlated(Group(local, offset, minimumEnd, index, false),
                              Group(local, offset, minimumEnd, index, true), offset, bytes)
  {
    if index in first && index in second {
      GroupsFit(local, offset, minimumEnd, index);
      out := SweepGroups(first[index], second[index], offset, minimumEnd, bytes);
    } else {
      NothingToPair(Group(local, offset, minimumEnd, index, false), Group(local, offset, minimumEnd, index, true),
                    offset, bytes);
      out := [];
    }
  }

  /** The loop over the matches of `do_matching`. */
  method Partition(local: seq<Prepared>, offset: nat, minimumEnd: nat, bytes: seq<Byte>)
    returns (direct: seq<Match>, first: map<nat, seq<Prepared>>, second: map<nat, seq<Prepared>>)
    ensures direct == Direct(local, offset, minimumEnd, bytes)
    ensures Grouped(first, local, offset, minimumEnd, false) && Grouped(second, local, offset, minimumEnd, true)
  {
    direct, first, second := [], map[], map[];
    for i := 0 to |local|
      invariant direct == Direct(local[..i], offset, minimumEnd, bytes)
      invariant Grouped(first, local[..i], offset, minimumEnd, false)
      invariant Grouped(second, local[..i], offset, minimumEnd, true)
    {
      var matching := local[i];
      assert local[..i + 1][..i] == local[..i];
      if matching.span.start + offset + matching.span.length <= minimumEnd {
        continue;
      }
      if matching.metadata.correlation.Some? {
        var c := matching.metadata.correlation.value;
        if c.isSecond {
          second := Push(second, c.index, matching);
        } else {
          first := Push(first, c.index, matching);
        }
        continue;
      }
      direct := direct + [DirectMatch(matching, offset, bytes)];
    }
    assert local[..|local|] == local;
  }

  /** The reports of the emitted pairs, in order. */
  method EmitAll(g1: seq<Prepared>, g2: seq<Prepared>, pairs: seq<Pair>, interest: Interest, offset: nat,
                 bytes: seq<Byte>) returns (out: seq<Match>)
    requires PairsIn(pairs, |g1|, |g2|)
    ensures out == EmitPairs(g1, g2, pairs, interest, offset, bytes)
  {
    out := [];
    ghost var all := EmitPairs(g1, g2, pairs, interest, offset, bytes);
    for i := 0 to |pairs|
      invariant out == all[..i]
    {
      UpToNext(all, i);
      out := out + [EmitPair(g1[pairs[i].first], g2[pairs[i].second], interest, offset, bytes)];
    }
  }

  lemma {:induction false} CorrelatedIs(group1: seq<Prepared>, group2: seq<Prepared>, g1: seq<Prepared>,
                                        g2: seq<Prepared>, correlation: CorrelationState, pairs: seq<Pair>,
                                        offset: nat, bytes: seq<Byte>)
    requires g1 == SortByStart(group1) && g2 == SortByStart(group2) && g1 != []
    requires g1[0].metadata.correlation == Some(correlation)
    requires pairs == Swept(Spans(g1), Spans(g2), correlation.maxDistance)
    ensures PairsIn(pairs, |g1|, |g2|)
    ensures Correlated(group1, group2, offset, bytes)
         == EmitPairs(g1, g2, pairs, correlation.interest, offset, bytes)
  {
    SweepIsSound(Spans(g1), Spans(g2), correlation.maxDistance);
  }

  /** The sweep of `do_matching` over the two groups of one correlation. */
  method SweepGroups(group1: seq<Prepared>, group2: seq<Prepared>, offset: nat, minimumEnd: nat, bytes: seq<Byte>)
    returns (out: seq<Match>)
    requires group1 != [] && forall i :: 0 <= i < |group1| ==> group1[i].metadata.correlation.Some?
    requires Fits(group1, offset, minimumEnd) && Fits(group2, offset, minimumEnd)
    ensures out == Correlated(group1, group2, offset, bytes)
  {
    var g1, g2 := SortByStart(group1), SortByStart(group2);
    SortFits(group1, offset, minimumEnd);
    SortFits(group2, offset, minimumEnd);
    SameElements(group1, g1[0]);
    var correlation := g1[0].metadata.correlation.value;
    var pairs, _ := Sweep(Spans(g1), Spans(g2), correlation.maxDistance, offset, minimumEnd);
    CorrelatedIs(group1, group2, g1, g2, correlation, pairs, offset, bytes);
    out := EmitAll(g1, g2, pairs, correlation.interest, offset, bytes);
  }

  /** `.entry(index).or_default().push(p)` */
  function Push(m: map<nat, seq<Prepared>>, index: nat, p: Prepared): map<nat, seq<Prepared>> {
    m[index := (if index in m then m[index] else []) + [p]]
  }

  /** The map holds the groups that are not empty. */
  ghost predicate Grouped(m: map<nat, seq<Prepared>>, local: seq<Prepared>, offset: nat, minimumEnd: nat,
                          second: bool) {
    forall index: nat ::
      if index in m then m[index] != [] && m[index] == Group(local, offset, minimumEnd, index, second)
      else Group(local, offset, minimumEnd, index, second) == []
  }

  predicate SpansFit(local: seq<Prepared>) {
    forall p :: p in local ==> p.span.End() <= USIZE_MAX
  }

  predicate Fits(group: seq<Prepared>, offset: nat, minimumEnd: nat) {
    forall p :: p in group ==> Survives(p, offset, minimumEnd) && p.span.End() <= USIZE_MAX
  }

  lemma {:induction false} SortFits(group: seq<Prepared>, offset: nat, minimumEnd: nat)
    requires Fits(group, offset, minimumEnd)
    ensures var s := Spans(SortByStart(group));
      Surviving(s, offset, minimumEnd) && InBounds(s, USIZE_MAX)
    ensures |SortByStart(group)| == |group|
  {
    var g := SortByStart(group);
    SortSorts(group, 0);
    assert |g| == |multiset(g)| && |group| == |multiset(group)|;
    forall i | 0 <= i < |g| ensures Survives(g[i], offset, minimumEnd) && g[i].span.End() <= USIZE_MAX {
      SameElements(group, g[i]);
    }
  }

  /** What is in a group. */
  lemma {:induction false} GroupHas(local: seq<Prepared>, offset: nat, minimumEnd: nat, index: nat, second: bool,
                                    p: Prepared)
    ensures p in Group(local, offset, minimumEnd, index, second)
      <==> p in local && Survives(p, offset, minimumEnd) && InGroup(p, index, second)
  {
    if local != [] {
      var init, last := local[..|local| - 1], local[|local| - 1];
      GroupHas(init, offset, minimumEnd, index, second, p);
      assert local == init + [last];
    }
  }

  lemma {:induction false} GroupsFit(local: seq<Prepared>, offset: nat, minimumEnd: nat, index: nat)
    requires SpansFit(local)
    ensures Fits(Group(local, offset, minimumEnd, index, false), offset, minimumEnd)
    ensures Fits(Group(local, offset, minimumEnd, index, true), offset, minimumEnd)
    ensures forall p :: p in Group(local, offset, minimumEnd, index, false) ==> p.metadata.correlation.Some?
  {
    forall p, second | p in Group(local, offset, minimumEnd, index, second)
      ensures Survives(p, offset, minimumEnd) && p.span.End() <= USIZE_MAX && InGroup(p, index, second)
    {
      GroupHas(local, offset, minimumEnd, index, second, p);
    }
  }

  lemma NothingToPair(group1: seq<Prepared>, group2: seq<Prepared>, offset: nat, bytes: seq<Byte>)
    requires group1 == [] || group2 == []
    ensures Correlated(group1, group2, offset, bytes) == []
  {
  }

  /** The keys of a group map are configured indices. */
  lemma IndicesConfigured(raws: seq<MatchRaw>, regexes: seq<MatchRegex>, body: seq<Scalar>, configured: seq<Configured>,
                          m: map<nat, seq<Prepared>>, offset: nat, minimumEnd: nat)
    requires Coherent(raws, regexes, configured)
    requires Grouped(m, Evaluated(raws, regexes, body), offset, minimumEnd, false)
    ensures forall index :: index in m ==> index < |configured|
  {
    ConfiguredHits(raws, regexes, body, configured);
    forall index | index in m ensures index < |configured| {
      GroupHas(Evaluated(raws, regexes, body), offset, minimumEnd, index, false, m[index][0]);
    }
  }

  /** A raw match is a match of one of the raws. */
  lemma {:induction false} RawHitSource(raws: seq<MatchRaw>, source: seq<Scalar>, p: Prepared) returns (i: nat)
    requires p in AllRawHits(raws, source)
    ensures i < |raws| && p in RawHits(raws[i], source) && p.metadata == raws[i].metadata
  {
    i := |raws| - 1;
    if p !in RawHits(raws[i], source) {
      i := RawHitSource(raws[..i], source, p);
    }
  }

  lemma {:induction false} RegexHitSource(regexes: seq<MatchRegex>, source: seq<Scalar>, p: Prepared) returns (i: nat)
    requires p in AllRegexHits(regexes, source)
    ensures i < |regexes| && p.metadata == regexes[i].metadata
    ensures p in RegexHits(regexes[i], regexes[i].regex.find(source), Utf8(source))
  {
    i := |regexes| - 1;
    if p in RegexHits(regexes[i], regexes[i].regex.find(source), Utf8(source)) {
      RegexHitIff(regexes[i], regexes[i].regex.find(source), Utf8(source), p);
    } else {
      i := RegexHitSource(regexes[..i], source, p);
    }
  }

  /** The matches of a regular expression are its spans whose text is not ignored, stripped. */
  lemma {:induction false} RegexHitIff(m: MatchRegex, found: seq<Span>, bytes: seq<Byte>, p: Prepared)
    ensures p in RegexHits(m, found, bytes)
      <==> exists i :: 0 <= i < |found| && Slice(bytes, found[i].start, found[i].End()) !in m.ignore
                       && p == Stripped(m, found[i])
  {
    if found != [] {
      var n := |found| - 1;
      RegexHitIff(m, found[..n], bytes, p);
      forall i | 0 <= i < n ensures found[..n][i] == found[i] {
      }
    }
  }

  /** Every match carries the metadata of a prepared matcher. */
  lemma ConfiguredHits(raws: seq<MatchRaw>, regexes: seq<MatchRegex>, source: seq<Scalar>, configured: seq<Configured>)
    requires Coherent(raws, regexes, configured)
    ensures forall p :: p in Evaluated(raws, regexes, source) ==> IsConfigured(p.metadata, configured)
  {
    forall p | p in Evaluated(raws, regexes, source) ensures IsConfigured(p.metadata, configured) {
      if p in AllRawHits(raws, source) {
        var i := RawHitSource(raws, source, p);
      } else {
        var i := RegexHitSource(regexes, source, p);
      }
    }
  }

  /** Detection, for one configured correlation of a matcher state: it reports something for a string
      exactly when a surviving match of its first group and one of its second group are within its
      distance. */
  lemma {:induction false} ReportsNearMatches(raws: seq<MatchRaw>, regexes: seq<MatchRegex>,
                                              configured: seq<Configured>, offset: nat, minimumEnd: nat,
                                              body: seq<Scalar>, index: nat)
    requires Coherent(raws, regexes, configured) && index < |configured|
    ensures var local := Evaluated(raws, regexes, body);
      Correlated(Group(local, offset, minimumEnd, index, false), Group(local, offset, minimumEnd, index, true),
                 offset, Utf8(body)) != []
      <==> (exists a, b :: a in local && b in local
              && Survives(a, offset, minimumEnd) && InGroup(a, index, false)
              && Survives(b, offset, minimumEnd) && InGroup(b, index, true)
              && Near(a.span, b.span, configured[index].maxDistance))
  {
    var local, d := Evaluated(raws, regexes, body), configured[index].maxDistance;
    ConfiguredHits(raws, regexes, body, configured);
    GroupedMatchesAreDetected(local, d, offset, minimumEnd, index, Utf8(body));
  }

  /** What is in a group, for all matches at once. */
  lemma {:induction false} GroupMembers(local: seq<Prepared>, offset: nat, minimumEnd: nat, index: nat, second: bool)
    ensures forall p :: (p in Group(local, offset, minimumEnd, index, second)
      <==> p in local && Survives(p, offset, minimumEnd) && InGroup(p, index, second))
  {
    forall p ensures p in Group(local, offset, minimumEnd, index, second)
      <==> p in local && Survives(p, offset, minimumEnd) && InGroup(p, index, second)
    {
      GroupHas(local, offset, minimumEnd, index, second, p);
    }
  }

  lemma {:induction false} GroupedMatchesAreDetected(local: seq<Prepared>, d: nat, offset: nat, minimumEnd: nat,
                                                     index: nat, bytes: seq<Byte>)
    requires forall p :: p in local && InGroup(p, index, false) ==> p.metadata.correlation.value.maxDistance == d
    ensures Correlated(Group(local, offset, minimumEnd, index, false), Group(local, offset, minimumEnd, index, true),
                       offset, bytes) != []
      <==> (exists a, b :: a in local && b in local
              && Survives(a, offset, minimumEnd) && InGroup(a, index, false)
              && Survives(b, offset, minimumEnd) && InGroup(b, index, true)
              && Near(a.span, b.span, d))
  {
    var group1 := Group(local, offset, minimumEnd, index, false);
    var group2 := Group(local, offset, minimumEnd, index, true);
    GroupMembers(local, offset, minimumEnd, index, false);
    GroupMembers(local, offset, minimumEnd, index, true);
    CorrelationIsDetected(group1, group2, d, offset, bytes);
  }

  // ----- Bounds

  /** The oracle lists spans of the string, each at least as long as what is stripped. */
  predicate OracleFits(m: MatchRegex, source: seq<Scalar>) {
    forall i :: 0 <= i < |m.regex.find(source)| ==>
      var found := m.regex.find(source)[i];
      found.End() <= |Utf8(source)| && 2 * m.strip <= found.length
  }

  /** Every match lies in the string. */
  lemma {:induction false} HitsInBounds(raws: seq<MatchRaw>, regexes: seq<MatchRegex>, source: seq<Scalar>, p: Prepared)
    requires forall i :: 0 <= i < |regexes| ==> OracleFits(regexes[i], source)
    requires p in Evaluated(raws, regexes, source)
    ensures p.span.End() <= |Utf8(source)|
  {
    if p in AllRawHits(raws, source) {
      var k := RawHitSource(raws, source, p);
      RawHitOccurs(raws[k], source, p);
    } else {
      var k := RegexHitSource(regexes, source, p);
      assert OracleFits(regexes[k], source);
      RegexHitIff(regexes[k], regexes[k].regex.find(source), Utf8(source), p);
    }
  }

  /** A match of a raw is an occurrence of its needle. */
  lemma {:induction false} RawHitOccurs(m: MatchRaw, source: seq<Scalar>, p: Prepared)
    requires p in RawHits(m, source)
    ensures p.metadata == m.metadata && p.span.length == |Utf8(m.raw)| > 0
    ensures Occurs(Utf8(source), Utf8(m.raw), p.span.start)
  {
    var starts := Greedy(Utf8(source), Utf8(m.raw), 0);
    var i :| 0 <= i < |starts| && p == Hits(m.metadata, starts, |Utf8(m.raw)|)[i];
    GreedyOccurs(Utf8(source), Utf8(m.raw), 0, i);
  }

  lemma {:induction false} GreedyOccurs(s: seq<Byte>, needle: seq<Byte>, from: nat, i: nat)
    requires needle != [] && i < |Greedy(s, needle, from)|
    ensures Occurs(s, needle, Greedy(s, needle, from)[i])
    decreases |s| - from
  {
    if Occurs(s, needle, from) {
      if i > 0 {
        GreedyOccurs(s, needle, from + |needle|, i - 1);
      }
    } else {
      GreedyOccurs(s, needle, from + 1, i);
    }
  }
}
