/** One raw needle among all the matchers of a state: what it reports by itself is what it contributes to
    the reports of the HTML scanner. */
module HtmlNeedles {
  import opened Bytes
  import opened Unicode
  import opened RawSearch
  import opened Evaluator
  import opened Matcher
  import opened ChunkedScan
  import opened HtmlScan
  import opened HtmlText

  /** The matches `part` occur in `whole`, in the same order. */
  ghost predicate Embedded(part: seq<Match>, whole: seq<Match>)
    decreases |whole|
  {
    part == []
    || (whole != []
        && ((part[0] == whole[0] && Embedded(part[1..], whole[1..])) || Embedded(part, whole[1..])))
  }

  function OfCategory(matches: seq<Match>, category: string): seq<Match> {
    if matches == [] then []
    else (if matches[0].category == category then [matches[0]] else []) + OfCategory(matches[1..], category)
  }

  lemma {:induction false} EmbeddedAppend(a: seq<Match>, b: seq<Match>, more: seq<Match>, rest: seq<Match>)
    requires Embedded(a, b) && Embedded(more, rest)
    ensures Embedded(a + more, b + rest)
    decreases |b|
  {
    if b == [] {
      assert a + more == more && b + rest == rest;
    } else {
      assert (b + rest)[1..] == b[1..] + rest;
      if a != [] && a[0] == b[0] && Embedded(a[1..], b[1..]) {
        EmbeddedAppend(a[1..], b[1..], more, rest);
        assert (a + more)[1..] == a[1..] + more;
      } else if a != [] {
        EmbeddedAppend(a, b[1..], more, rest);
      } else {
        EmbeddedAppend(a, b[1..], more, rest);
      }
    }
  }

  lemma {:induction false} EmbeddedSelf(a: seq<Match>)
    ensures Embedded(a, a)
  {
    if a != [] {
      EmbeddedSelf(a[1..]);
    }
  }

  lemma {:induction false} EmbeddedMiddle(before: seq<Match>, a: seq<Match>, after: seq<Match>)
    ensures Embedded(a, before + a + after)
  {
    EmbeddedSelf(a);
    assert Embedded([], before) && Embedded([], after);
    EmbeddedAppend([], before, a, a);
    assert [] + a == a;
    EmbeddedAppend(a, before + a, [], after);
    assert a + [] == a;
  }

  lemma {:induction false} OfCategoryAppend(a: seq<Match>, b: seq<Match>, category: string)
    ensures OfCategory(a + b, category) == OfCategory(a, category) + OfCategory(b, category)
  {
    if a == [] {
      assert a + b == b;
    } else {
      assert (a + b)[1..] == a[1..] + b;
      OfCategoryAppend(a[1..], b, category);
      Assoc(if a[0].category == category then [a[0]] else [], OfCategory(a[1..], category), OfCategory(b, category));
    }
  }

  lemma {:induction false} OfCategoryNone(a: seq<Match>, category: string)
    requires forall x :: x in a ==> x.category != category
    ensures OfCategory(a, category) == []
  {
    if a != [] {
      OfCategoryNone(a[1..], category);
    }
  }

  lemma {:induction false} OfCategoryAll(a: seq<Match>, category: string)
    requires forall x :: x in a ==> x.category == category
    ensures OfCategory(a, category) == a
  {
    if a != [] {
      OfCategoryAll(a[1..], category);
      Uncons(a);
    }
  }

  // ----- One string

  lemma {:induction false} DirectAppend(a: seq<Prepared>, b: seq<Prepared>, offset: nat, minimumEnd: nat,
                                        bytes: seq<Byte>)
    ensures Direct(a + b, offset, minimumEnd, bytes)
         == Direct(a, offset, minimumEnd, bytes) + Direct(b, offset, minimumEnd, bytes)
    decreases |b|
  {
    if b == [] {
      assert a + b == a;
    } else {
      var n, last := |b| - 1, b[|b| - 1];
      assert (a + b)[..|a + b| - 1] == a + b[..n];
      DirectAppend(a, b[..n], offset, minimumEnd, bytes);
      Assoc(Direct(a, offset, minimumEnd, bytes), Direct(b[..n], offset, minimumEnd, bytes),
        if Survives(last, offset, minimumEnd) && last.metadata.correlation.None? then [DirectMatch(last, offset, bytes)]
        else []);
    }
  }

  lemma {:induction false} DirectSource(local: seq<Prepared>, offset: nat, minimumEnd: nat, bytes: seq<Byte>, x: Match)
    returns (p: Prepared)
    requires x in Direct(local, offset, minimumEnd, bytes)
    ensures p in local && x == DirectMatch(p, offset, bytes)
  {
    p := local[|local| - 1];
    if x in Direct(local[..|local| - 1], offset, minimumEnd, bytes) {
      p := DirectSource(local[..|local| - 1], offset, minimumEnd, bytes, x);
    }
  }

  lemma CorrelatedSource(group1: seq<Prepared>, group2: seq<Prepared>, offset: nat, bytes: seq<Byte>, x: Match)
    returns (p: Prepared)
    requires x in Correlated(group1, group2, offset, bytes)
    ensures p in group1 && x.category == p.metadata.category
  {
    var g1, g2 := SortByStart(group1), SortByStart(group2);
    var correlation := g1[0].metadata.correlation.value;
    var pairs := SweptPairs(g1, g2, correlation.maxDistance);
    var i :| 0 <= i < |pairs| && x == EmitPairs(g1, g2, pairs, correlation.interest, offset, bytes)[i];
    p := g1[pairs[i].first];
    SameElements(group1, p);
  }

  /** Correlated matches are of other categories. */
  predicate CorrelatedElsewhere(local: seq<Prepared>, category: string) {
    forall p :: p in local && p.metadata.correlation.Some? ==> p.metadata.category != category
  }

  lemma {:induction false} NeitherHas(a: seq<Match>, b: seq<Match>, both: seq<Match>, category: string)
    requires OfCategory(a, category) == [] == OfCategory(b, category) && both == a + b
    ensures OfCategory(both, category) == []
  {
    OfCategoryAppend(a, b, category);
  }

  lemma {:induction false} GroupNone(local: seq<Prepared>, offset: nat, minimumEnd: nat, bytes: seq<Byte>, n: nat,
                                     category: string)
    requires CorrelatedElsewhere(local, category)
    ensures
      var first, second := Group(local, offset, minimumEnd, n, false), Group(local, offset, minimumEnd, n, true);
      OfCategory(Correlated(first, second, offset, bytes), category) == []
  {
    var first, second := Group(local, offset, minimumEnd, n, false), Group(local, offset, minimumEnd, n, true);
    forall x | x in Correlated(first, second, offset, bytes) ensures x.category != category {
      var p := CorrelatedSource(first, second, offset, bytes, x);
      GroupHas(local, offset, minimumEnd, n, false, p);
    }
    OfCategoryNone(Correlated(first, second, offset, bytes), category);
  }

  /** What correlation `n` adds to the reports. */
  lemma OneMoreCorrelated(local: seq<Prepared>, offset: nat, minimumEnd: nat, bytes: seq<Byte>, n: nat,
                          category: string, rest: seq<Match>, all: seq<Match>) returns (added: seq<Match>)
    requires CorrelatedElsewhere(local, category)
    requires rest == AllCorrelated(local, offset, minimumEnd, bytes, n)
    requires all == AllCorrelated(local, offset, minimumEnd, bytes, n + 1)
    ensures all == rest + added && OfCategory(added, category) == []
  {
    GroupNone(local, offset, minimumEnd, bytes, n, category);
    added := Correlated(Group(local, offset, minimumEnd, n, false), Group(local, offset, minimumEnd, n, true),
      offset, bytes);
  }

  lemma {:induction false} AllCorrelatedNone(local: seq<Prepared>, offset: nat, minimumEnd: nat, bytes: seq<Byte>,
                                             n: nat, category: string, all: seq<Match>)
    requires CorrelatedElsewhere(local, category) && all == AllCorrelated(local, offset, minimumEnd, bytes, n)
    ensures OfCategory(all, category) == []
    decreases n
  {
    if n > 0 {
      var rest := AllCorrelated(local, offset, minimumEnd, bytes, n - 1);
      AllCorrelatedNone(local, offset, minimumEnd, bytes, n - 1, category, rest);
      var added := OneMoreCorrelated(local, offset, minimumEnd, bytes, n - 1, category, rest, all);
      NeitherHas(rest, added, all, category);
    }
  }

  /** The match is one of a raw other than raw `k`. */
  predicate OfOther(p: Prepared, raws: seq<MatchRaw>, k: nat) {
    exists i :: 0 <= i < |raws| && i != k && p.metadata == raws[i].metadata
  }

  predicate AllOfOthers(hits: seq<Prepared>, raws: seq<MatchRaw>, k: nat) {
    forall p :: p in hits ==> OfOther(p, raws, k)
  }

  lemma {:induction false} RawsOfOthers(raws: seq<MatchRaw>, n: nat, k: nat, source: seq<Scalar>)
    requires n <= |raws| && n <= k
    ensures AllOfOthers(AllRawHits(raws[..n], source), raws, k)
  {
    forall p | p in AllRawHits(raws[..n], source) ensures OfOther(p, raws, k) {
      var i := RawHitSource(raws[..n], source, p);
      assert raws[i].metadata == p.metadata;
    }
  }

  /** The matches of raw `k`, between those of the raws before it and after it. */
  lemma {:induction false} RawsAround(raws: seq<MatchRaw>, n: nat, k: nat, source: seq<Scalar>)
    returns (before: seq<Prepared>, after: seq<Prepared>)
    requires k < n <= |raws|
    ensures AllRawHits(raws[..n], source) == before + RawHits(raws[k], source) + after
    ensures AllOfOthers(before, raws, k) && AllOfOthers(after, raws, k)
    decreases n
  {
    RawHitsUpTo(raws, n - 1, source);
    if k == n - 1 {
      before, after := AllRawHits(raws[..k], source), [];
      RawsOfOthers(raws, k, k, source);
      Assoc(before + RawHits(raws[k], source), [], []);
    } else {
      var rest;
      before, rest := RawsAround(raws, n - 1, k, source);
      after := rest + RawHits(raws[n - 1], source);
      Assoc(before + RawHits(raws[k], source), rest, RawHits(raws[n - 1], source));
      OthersAppend(rest, raws, n - 1, k, source);
    }
  }

  lemma {:induction false} RawHitsUpTo(raws: seq<MatchRaw>, n: nat, source: seq<Scalar>)
    requires n < |raws|
    ensures AllRawHits(raws[..n + 1], source) == AllRawHits(raws[..n], source) + RawHits(raws[n], source)
  {
    assert raws[..n + 1][..n] == raws[..n];
  }

  lemma OthersAppend(hits: seq<Prepared>, raws: seq<MatchRaw>, n: nat, k: nat, source: seq<Scalar>)
    requires n < |raws| && n != k && AllOfOthers(hits, raws, k)
    ensures AllOfOthers(hits + RawHits(raws[n], source), raws, k)
  {
    forall p | p in hits + RawHits(raws[n], source) ensures OfOther(p, raws, k) {
      if p !in hits {
        assert p.metadata == raws[n].metadata;
      }
    }
  }

  /** No other matcher has the category of raw `k`. */
  predicate HasOwnCategory(m: PreparedMatchers, k: nat)
    requires k < |m.raws|
  {
    && (forall i :: 0 <= i < |m.raws| && i != k ==> m.raws[i].metadata.category != m.raws[k].metadata.category)
    && (forall i :: 0 <= i < |m.regexes| ==> m.regexes[i].metadata.category != m.raws[k].metadata.category)
  }

  /** Raw needle `k` is in no correlation, and its category is its own. */
  predicate IsSingle(m: PreparedMatchers, k: nat) {
    k < |m.raws| && m.raws[k].raw != [] && m.raws[k].metadata.correlation == None && HasOwnCategory(m, k)
  }

  function Alone(m: PreparedMatchers, k: nat): PreparedMatchers
    requires k < |m.raws|
  {
    OneNeedle(m.raws[k].metadata, m.raws[k].raw)
  }

  /** What raw `k` reports by itself for one string. */
  function MatchedAlone(m: PreparedMatchers, k: nat, offset: nat, minimumEnd: nat, source: seq<Scalar>): seq<Match>
    requires k < |m.raws|
  {
    var own := Alone(m, k);
    Matched(own.raws, own.regexes, offset, minimumEnd, source, own.correlations)
  }

  lemma {:induction false} OwnDirect(m: PreparedMatchers, k: nat, offset: nat, minimumEnd: nat, source: seq<Scalar>)
    requires k < |m.raws| && m.raws[k].raw != []
    ensures Direct(RawHits(m.raws[k], source), offset, minimumEnd, Utf8(source))
         == MatchedAlone(m, k, offset, minimumEnd, source)
  {
    OneNeedleHits(m.raws[k].metadata, m.raws[k].raw, source);
    OnlyDirect(Alone(m, k).raws, offset, minimumEnd, source);
  }

  lemma {:induction false} DirectAround(first: seq<Prepared>, own: seq<Prepared>, last: seq<Prepared>, offset: nat,
                                        minimumEnd: nat, bytes: seq<Byte>)
    ensures Direct(first + own + last, offset, minimumEnd, bytes)
         == Direct(first, offset, minimumEnd, bytes) + Direct(own, offset, minimumEnd, bytes)
            + Direct(last, offset, minimumEnd, bytes)
  {
    DirectAppend(first + own, last, offset, minimumEnd, bytes);
    DirectAppend(first, own, offset, minimumEnd, bytes);
  }

  /** What a state reports for one string: around the reports of raw `k` by itself only reports of other
      matchers. */
  lemma MatchedAround(m: PreparedMatchers, k: nat, offset: nat, minimumEnd: nat, source: seq<Scalar>)
    returns (before: seq<Match>, after: seq<Match>)
    requires k < |m.raws| && m.raws[k].raw != [] && m.raws[k].metadata.correlation == None
    ensures Matched(m.raws, m.regexes, offset, minimumEnd, source, m.correlations)
         == before + MatchedAlone(m, k, offset, minimumEnd, source) + after
    ensures HasOwnCategory(m, k) ==>
      OfCategory(before, m.raws[k].metadata.category) == [] == OfCategory(after, m.raws[k].metadata.category)
  {
    var bytes, own := Utf8(source), RawHits(m.raws[k], source);
    assert m.raws[..|m.raws|] == m.raws;
    var first, last := RawsAround(m.raws, |m.raws|, k, source);
    var regexHits := AllRegexHits(m.regexes, source);
    var local := Evaluated(m.raws, m.regexes, source);
    var correlated := AllCorrelated(local, offset, minimumEnd, bytes, m.correlations);
    Assoc(first + own, last, regexHits);
    DirectAround(first, own, last + regexHits, offset, minimumEnd, bytes);
    OwnDirect(m, k, offset, minimumEnd, source);
    before := Direct(first, offset, minimumEnd, bytes);
    var rest := Direct(last + regexHits, offset, minimumEnd, bytes);
    after := rest + correlated;
    Assoc(before + Direct(own, offset, minimumEnd, bytes), rest, correlated);
    if HasOwnCategory(m, k) {
      OthersReport(m, k, offset, minimumEnd, source, first, last, before, after);
    }
  }

  lemma {:induction false} OthersReport(m: PreparedMatchers, k: nat, offset: nat, minimumEnd: nat,
                                        source: seq<Scalar>, first: seq<Prepared>, last: seq<Prepared>,
                                        before: seq<Match>, after: seq<Match>)
    requires k < |m.raws| && m.raws[k].metadata.correlation == None && HasOwnCategory(m, k)
    requires AllOfOthers(first, m.raws, k) && AllOfOthers(last, m.raws, k)
    requires before == Direct(first, offset, minimumEnd, Utf8(source))
    requires after == Direct(last + AllRegexHits(m.regexes, source), offset, minimumEnd, Utf8(source))
      + AllCorrelated(Evaluated(m.raws, m.regexes, source), offset, minimumEnd, Utf8(source), m.correlations)
    ensures OfCategory(before, m.raws[k].metadata.category) == [] == OfCategory(after, m.raws[k].metadata.category)
  {
    var bytes, regexHits, category := Utf8(source), AllRegexHits(m.regexes, source), m.raws[k].metadata.category;
    forall x | x in before ensures x.category != category {
      var p := DirectSource(first, offset, minimumEnd, bytes, x);
    }
    var rest, local := Direct(last + regexHits, offset, minimumEnd, bytes), Evaluated(m.raws, m.regexes, source);
    forall x | x in rest ensures x.category != category {
      var p := DirectSource(last + regexHits, offset, minimumEnd, bytes, x);
      if p !in last {
        var i := RegexHitSource(m.regexes, source, p);
      }
    }
    CorrelatedAreOthers(m, k, source);
    var correlated := AllCorrelated(local, offset, minimumEnd, bytes, m.correlations);
    AllCorrelatedNone(local, offset, minimumEnd, bytes, m.correlations, category, correlated);
    OfCategoryNone(before, category);
    OfCategoryNone(rest, category);
    NeitherHas(rest, correlated, after, category);
  }

  lemma CorrelatedAreOthers(m: PreparedMatchers, k: nat, source: seq<Scalar>)
    requires k < |m.raws| && m.raws[k].metadata.correlation == None && HasOwnCategory(m, k)
    ensures CorrelatedElsewhere(Evaluated(m.raws, m.regexes, source), m.raws[k].metadata.category)
  {
    forall p | p in Evaluated(m.raws, m.regexes, source) && p.metadata.correlation.Some?
      ensures p.metadata.category != m.raws[k].metadata.category
    {
      if p in AllRawHits(m.raws, source) {
        var i := RawHitSource(m.raws, source, p);
      } else {
        var i := RegexHitSource(m.regexes, source, p);
      }
    }
  }

  // ----- All windows

  /** The needle's own reports are among all reports, in order; and they are all of its category if no
      other matcher has that. */
  ghost predicate Contributes(own: seq<Match>, all: seq<Match>, m: PreparedMatchers, k: nat)
    requires k < |m.raws|
  {
    Embedded(own, all) && (HasOwnCategory(m, k) ==> OfCategory(all, m.raws[k].metadata.category) == own)
  }

  predicate OwnReports(own: seq<Match>, raw: MatchRaw) {
    forall x :: x in own ==> x.category == raw.metadata.category && x.length == |Utf8(raw.raw)|
  }

  lemma {:induction false} AroundContributes(before: seq<Match>, own: seq<Match>, after: seq<Match>,
                                             m: PreparedMatchers, k: nat)
    requires k < |m.raws| && OwnReports(own, m.raws[k])
    requires HasOwnCategory(m, k) ==>
      OfCategory(before, m.raws[k].metadata.category) == [] == OfCategory(after, m.raws[k].metadata.category)
    ensures Contributes(own, before + own + after, m, k)
  {
    var category := m.raws[k].metadata.category;
    EmbeddedMiddle(before, own, after);
    if HasOwnCategory(m, k) {
      OfCategoryAppend(before + own, after, category);
      OfCategoryAppend(before, own, category);
      OfCategoryAll(own, category);
      Assoc([], own, []);
    }
  }

  lemma OwnReportsAreOwn(m: PreparedMatchers, k: nat, offset: nat, minimumEnd: nat, source: seq<Scalar>)
    requires k < |m.raws| && m.raws[k].raw != []
    ensures OwnReports(MatchedAlone(m, k, offset, minimumEnd, source), m.raws[k])
  {
    var raw := m.raws[k];
    OneNeedleHits(raw.metadata, raw.raw, source);
    OnlyDirect(Alone(m, k).raws, offset, minimumEnd, source);
    var local := Evaluated(Alone(m, k).raws, [], source);
    forall x | x in Direct(local, offset, minimumEnd, Utf8(source))
      ensures x.category == raw.metadata.category && x.length == |Utf8(raw.raw)|
    {
      var p := DirectSource(local, offset, minimumEnd, Utf8(source), x);
    }
  }

  lemma MatchedContributes(m: PreparedMatchers, k: nat, offset: nat, minimumEnd: nat, source: seq<Scalar>,
                           own: seq<Match>, all: seq<Match>)
    requires k < |m.raws| && m.raws[k].raw != [] && m.raws[k].metadata.correlation == None
    requires own == MatchedAlone(m, k, offset, minimumEnd, source)
    requires all == Matched(m.raws, m.regexes, offset, minimumEnd, source, m.correlations)
    ensures OwnReports(own, m.raws[k]) && Contributes(own, all, m, k)
  {
    var before, after := MatchedAround(m, k, offset, minimumEnd, source);
    OwnReportsAreOwn(m, k, offset, minimumEnd, source);
    AroundContributes(before, own, after, m, k);
  }

  lemma AloneWindow(m: PreparedMatchers, k: nat, lossy: seq<Byte> -> seq<Scalar>, content: seq<Byte>, total: nat,
                    n: nat, window: seq<Byte>, offset: nat)
    requires k < |m.raws| && total + n <= |content|
    requires window == Window(content, total, n) && offset == total - Overlap(total)
    ensures WindowMatches(Alone(m, k), lossy, content, total, n) == MatchedAlone(m, k, offset, total, lossy(window))
  {
    WindowIs(Alone(m, k), lossy, content, total, n, window, offset);
  }

  lemma WindowContributes(m: PreparedMatchers, k: nat, lossy: seq<Byte> -> seq<Scalar>, content: seq<Byte>,
                          total: nat, n: nat, own: seq<Match>, all: seq<Match>)
    requires k < |m.raws| && m.raws[k].raw != [] && m.raws[k].metadata.correlation == None && total + n <= |content|
    requires own == WindowMatches(Alone(m, k), lossy, content, total, n)
    requires all == WindowMatches(m, lossy, content, total, n)
    ensures OwnReports(own, m.raws[k]) && Contributes(own, all, m, k)
  {
    var window, offset := Window(content, total, n), total - Overlap(total);
    WindowIs(m, lossy, content, total, n, window, offset);
    AloneWindow(m, k, lossy, content, total, n, window, offset);
    MatchedContributes(m, k, offset, total, lossy(window), own, all);
  }

  lemma {:induction false} ScanContributes(m: PreparedMatchers, k: nat, lossy: seq<Byte> -> seq<Scalar>,
                                           content: seq<Byte>, total: nat, sizes: seq<nat>)
    requires k < |m.raws| && m.raws[k].raw != [] && m.raws[k].metadata.correlation == None
    requires ValidReads(content, total, sizes)
    ensures var own := ScanMatches(Alone(m, k), lossy, content, total, sizes);
      OwnReports(own, m.raws[k]) && Contributes(own, ScanMatches(m, lossy, content, total, sizes), m, k)
    decreases |sizes|
  {
    if sizes != [] {
      WindowContributes(m, k, lossy, content, total, sizes[0],
        WindowMatches(Alone(m, k), lossy, content, total, sizes[0]), WindowMatches(m, lossy, content, total, sizes[0]));
      ScanContributes(m, k, lossy, content, total + sizes[0], sizes[1..]);
      BothContribute(m, k, WindowMatches(Alone(m, k), lossy, content, total, sizes[0]),
        WindowMatches(m, lossy, content, total, sizes[0]),
        ScanMatches(Alone(m, k), lossy, content, total + sizes[0], sizes[1..]),
        ScanMatches(m, lossy, content, total + sizes[0], sizes[1..]));
    }
  }

  lemma BothContribute(m: PreparedMatchers, k: nat, own: seq<Match>, all: seq<Match>, ownRest: seq<Match>,
                       allRest: seq<Match>)
    requires k < |m.raws| && Contributes(own, all, m, k) && Contributes(ownRest, allRest, m, k)
    requires OwnReports(own, m.raws[k]) && OwnReports(ownRest, m.raws[k])
    ensures Contributes(own + ownRest, all + allRest, m, k) && OwnReports(own + ownRest, m.raws[k])
  {
    EmbeddedAppend(own, all, ownRest, allRest);
    OfCategoryAppend(all, allRest, m.raws[k].metadata.category);
  }

  /** A raw needle outside any correlation, among any other matchers, in a body whose windows are decoded
      intact. Its reports are among all reports in order, each with its category and length. For any needle they are
      at occurrences, in increasing order and so none twice; for a scannable needle they are at all of them.
      And if the category is the needle's own, no other report has it. */
  lemma {:induction false} NeedleScan(m: PreparedMatchers, k: nat, lossy: seq<Byte> -> seq<Scalar>,
                                      content: seq<Byte>, sizes: seq<nat>)
    requires k < |m.raws| && m.raws[k].raw != [] && m.raws[k].metadata.correlation == None
    requires ValidReads(content, 0, sizes) && Intact(lossy, content, 0, sizes)
    ensures var own, needle := ScanMatches(Alone(m, k), lossy, content, 0, sizes), Utf8(m.raws[k].raw);
      && OwnReports(own, m.raws[k]) && Contributes(own, ScanMatches(m, lossy, content, 0, sizes), m, k)
      && (forall i :: 0 <= i < |own| ==> Occurs(content, needle, own[i].start))
      && (forall i, j :: 0 <= i < j < |own| ==> own[i].start < own[j].start)
      && (Scannable(needle) ==> Starts(own) == Occurrences(content, needle))
  {
    var own := ScanMatches(Alone(m, k), lossy, content, 0, sizes);
    ScanContributes(m, k, lossy, content, 0, sizes);
    OneNeedleScan(m.raws[k].metadata, m.raws[k].raw, lossy, content, sizes);
    forall i | 0 <= i < |own| ensures own[i].start == Starts(own)[i] {
    }
  }
}
