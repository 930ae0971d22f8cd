/** What the sweep loses by advancing the second index twice after an emission: it is compared with the
    sweep that advances once. */
module CorrelationLoss {
  import opened Correlation

  /** The sweep with one advance per emission. */
  function OnceFrom(g1: seq<Span>, g2: seq<Span>, d: nat, i: nat, j: nat, continuity: nat, inside: bool): seq<Pair>
    decreases |g1| - i, |g2| - j
  {
    if i >= |g1| then []
    else if !inside && g1[i].start < continuity then
      OnceFrom(g1, g2, d, i + 1, j, continuity, false)
    else if j >= |g2| then []
    else if g2[j].start < continuity then
      OnceFrom(g1, g2, d, i, j + 1, continuity, true)
    else if g1[i].End() + d < g2[j].start then
      OnceFrom(g1, g2, d, i + 1, j, continuity, false)
    else if g1[i].start > g2[j].End() + d then
      OnceFrom(g1, g2, d, i, j + 1, continuity, true)
    else
      [Pair(i, j)] + OnceFrom(g1, g2, d, i, j + 1, TotalEnd(g1[i], g2[j]), true)
  }

  function SweptOnce(g1: seq<Span>, g2: seq<Span>, d: nat): seq<Pair> {
    OnceFrom(g1, g2, d, 0, 0, 0, false)
  }

  /** No two pairs in a row have neighbouring second matches. */
  predicate Spaced(pairs: seq<Pair>) {
    |pairs| <= 1 || (pairs[1].second != pairs[0].second + 1 && Spaced(pairs[1..]))
  }

  lemma PairsCons(p: Pair, pairs: seq<Pair>)
    ensures ([p] + pairs)[0] == p && ([p] + pairs)[1..] == pairs
  {
  }

  /** A near pair is accounted for by an emission: one of its matches is emitted, or starts inside the
      range of the emission. */
  predicate Covers(g1: seq<Span>, g2: seq<Span>, p: Pair, a: nat, b: nat)
    requires p.first < |g1| && p.second < |g2| && a < |g1| && b < |g2|
  {
    var start, end := TotalStart(g1[p.first], g2[p.second]), TotalEnd(g1[p.first], g2[p.second]);
    p.first == a || p.second == b || start <= g1[a].start < end || start <= g2[b].start < end
  }

  ghost predicate IsCovered(g1: seq<Span>, g2: seq<Span>, pairs: seq<Pair>, a: nat, b: nat)
    requires a < |g1| && b < |g2|
  {
    exists p :: p in pairs && p.first < |g1| && p.second < |g2| && Covers(g1, g2, p, a, b)
  }

  // ----- Two inputs

  /** Two near pairs that do not overlap, of which the second is lost. */
  lemma SecondPairIsLost()
    ensures var g1, g2 := [Span(0, 1), Span(100, 1)], [Span(1, 1), Span(101, 1)];
      && Sorted(g1) && Sorted(g2) && Near(g1[1], g2[1], 1)
      && Swept(g1, g2, 1) == [Pair(0, 0)] && SweptOnce(g1, g2, 1) == [Pair(0, 0), Pair(1, 1)]
      && !IsCovered(g1, g2, Swept(g1, g2, 1), 1, 1)
  {
    var g1, g2 := [Span(0, 1), Span(100, 1)], [Span(1, 1), Span(101, 1)];
    assert SweepFrom(g1, g2, 1, 0, 2, 2, true) == [];
    assert OnceFrom(g1, g2, 1, 1, 2, 102, true) == [];
    assert OnceFrom(g1, g2, 1, 1, 1, 2, false) == [Pair(1, 1)];
    assert OnceFrom(g1, g2, 1, 0, 1, 2, true) == [Pair(1, 1)];
  }

  /** One group-1 match in two pairs. */
  lemma SameFirstMatchTwice()
    ensures Swept([Span(0, 10)], [Span(0, 1), Span(3, 1), Span(12, 1)], 5) == [Pair(0, 0), Pair(0, 2)]
  {
    var g1, g2 := [Span(0, 10)], [Span(0, 1), Span(3, 1), Span(12, 1)];
    assert SweepFrom(g1, g2, 5, 0, 4, 13, true) == [];
    assert SweepFrom(g1, g2, 5, 0, 2, 10, true) == [Pair(0, 2)];
  }

  // ----- When a group-1 match is emitted again

  /** A group-2 match from `j` on starts within `d` of the end of a group-1 match, and not before
      `continuity`. */
  predicate InReach(a: Span, g2: seq<Span>, d: nat, j: nat, continuity: nat) {
    exists k :: j <= k < |g2| && continuity <= g2[k].start <= a.End() + d
  }

  /** What follows an emission is the sweep behind it. */
  lemma {:induction false} BehindEmission(g1: seq<Span>, g2: seq<Span>, d: nat, i: nat, j: nat, continuity: nat,
                                          inside: bool, out: seq<Pair>, n: nat)
    requires out == SweepFrom(g1, g2, d, i, j, continuity, inside) && n < |out|
    ensures out[n].first < |g1| && out[n].second < |g2|
    ensures out[n + 1..] == SweepFrom(g1, g2, d, out[n].first, out[n].second + 2,
                                      TotalEnd(g1[out[n].first], g2[out[n].second]), true)
    decreases |g1| - i, |g2| - j
  {
    if !inside && g1[i].start < continuity {
      BehindEmission(g1, g2, d, i + 1, j, continuity, false, out, n);
    } else if g2[j].start < continuity {
      BehindEmission(g1, g2, d, i, j + 1, continuity, true, out, n);
    } else if g1[i].End() + d < g2[j].start {
      BehindEmission(g1, g2, d, i + 1, j, continuity, false, out, n);
    } else if g1[i].start > g2[j].End() + d {
      BehindEmission(g1, g2, d, i, j + 1, continuity, true, out, n);
    } else {
      var end := TotalEnd(g1[i], g2[j]);
      var rest := SweepFrom(g1, g2, d, i, j + 2, end, true);
      PairsCons(Pair(i, j), rest);
      if n > 0 {
        BehindEmission(g1, g2, d, i, j + 2, end, true, rest, n - 1);
        assert out[n + 1..] == rest[n..];
      }
    }
  }

  lemma {:induction false} AgainIff(g1: seq<Span>, g2: seq<Span>, d: nat, i: nat, j: nat, continuity: nat)
    requires Sorted(g2) && i < |g1| && g1[i].End() <= continuity
    ensures var out := SweepFrom(g1, g2, d, i, j, continuity, true);
      out != [] && out[0].first == i <==> InReach(g1[i], g2, d, j, continuity)
    decreases |g2| - j
  {
    if j < |g2| {
      if g2[j].start < continuity {
        AgainIff(g1, g2, d, i, j + 1, continuity);
      } else if g1[i].End() + d < g2[j].start {
        var out := SweepFrom(g1, g2, d, i + 1, j, continuity, false);
        if out != [] {
          SweepFollows(g1, g2, d, i + 1, j, continuity, false, out[0]);
        }
      }
    }
  }

  /** An emission is followed by another with the same group-1 match if and only if a group-2 match behind
      the one that is skipped starts within the distance of that match and not inside the emitted range. */
  lemma SameFirstIff(g1: seq<Span>, g2: seq<Span>, d: nat, n: nat)
    requires Sorted(g2) && n < |Swept(g1, g2, d)|
    ensures var out := Swept(g1, g2, d);
      var p := out[n];
      && p.first < |g1| && p.second < |g2|
      && (n + 1 < |out| && out[n + 1].first == p.first
          <==> InReach(g1[p.first], g2, d, p.second + 2, TotalEnd(g1[p.first], g2[p.second])))
  {
    var out := Swept(g1, g2, d);
    BehindEmission(g1, g2, d, 0, 0, 0, false, out, n);
    var p := out[n];
    AgainIff(g1, g2, d, p.first, p.second + 2, TotalEnd(g1[p.first], g2[p.second]));
    if n + 1 < |out| {
      assert out[n + 1..][0] == out[n + 1];
    }
  }

  // ----- Exactly when nothing is lost

  /** The first emission is near and its second match starts no earlier than `continuity`. */
  lemma {:induction false} OnceNext(g1: seq<Span>, g2: seq<Span>, d: nat, i: nat, j: nat, continuity: nat, inside: bool)
    ensures var out := OnceFrom(g1, g2, d, i, j, continuity, inside);
      out != [] ==>
        && out[0].first < |g1| && j <= out[0].second < |g2|
        && continuity <= g2[out[0].second].start && Near(g1[out[0].first], g2[out[0].second], d)
    decreases |g1| - i, |g2| - j
  {
    if i < |g1| {
      if !inside && g1[i].start < continuity {
        OnceNext(g1, g2, d, i + 1, j, continuity, false);
      } else if j < |g2| {
        if g2[j].start < continuity {
          OnceNext(g1, g2, d, i, j + 1, continuity, true);
        } else if g1[i].End() + d < g2[j].start {
          OnceNext(g1, g2, d, i + 1, j, continuity, false);
        } else if g1[i].start > g2[j].End() + d {
          OnceNext(g1, g2, d, i, j + 1, continuity, true);
        }
      }
    }
  }

  /** Skipping one group-2 match changes nothing for a sweep that does not emit it next. */
  lemma {:induction false} SkipsUnemitted(g1: seq<Span>, g2: seq<Span>, d: nat, i: nat, j: nat, continuity: nat,
                                          inside: bool)
    requires Sorted(g2) && j < |g2|
    requires var out := OnceFrom(g1, g2, d, i, j, continuity, inside); out == [] || out[0].second != j
    ensures OnceFrom(g1, g2, d, i, j, continuity, inside) == OnceFrom(g1, g2, d, i, j + 1, continuity, inside)
    decreases |g1| - i
  {
    if i < |g1| {
      if !inside && g1[i].start < continuity {
        SkipsUnemitted(g1, g2, d, i + 1, j, continuity, false);
      } else if g2[j].start < continuity || g1[i].start > g2[j].End() + d {
        InsideIsIdle(g1, g2, d, i, j + 1, continuity, inside);
      } else if g1[i].End() + d < g2[j].start {
        SkipsUnemitted(g1, g2, d, i + 1, j, continuity, false);
        Exhausted(g1, g2, d, i + 1, continuity);
      }
    }
  }

  lemma {:induction false} InsideIsIdle(g1: seq<Span>, g2: seq<Span>, d: nat, i: nat, j: nat, continuity: nat,
                                        inside: bool)
    requires i < |g1| && (inside || continuity <= g1[i].start)
    ensures OnceFrom(g1, g2, d, i, j, continuity, inside) == OnceFrom(g1, g2, d, i, j, continuity, true)
  {
  }

  lemma {:induction false} Exhausted(g1: seq<Span>, g2: seq<Span>, d: nat, i: nat, continuity: nat)
    ensures OnceFrom(g1, g2, d, i, |g2|, continuity, false) == []
    decreases |g1| - i
  {
    if i < |g1| {
      Exhausted(g1, g2, d, i + 1, continuity);
    }
  }

  lemma {:induction false} SameIfSpaced(g1: seq<Span>, g2: seq<Span>, d: nat, i: nat, j: nat, continuity: nat,
                                        inside: bool)
    requires Sorted(g2)
    ensures SweepFrom(g1, g2, d, i, j, continuity, inside) == OnceFrom(g1, g2, d, i, j, continuity, inside)
      <==> Spaced(OnceFrom(g1, g2, d, i, j, continuity, inside))
    decreases |g1| - i, |g2| - j
  {
    if i < |g1| {
      if !inside && g1[i].start < continuity {
        SameIfSpaced(g1, g2, d, i + 1, j, continuity, false);
      } else if j < |g2| {
        if g2[j].start < continuity {
          SameIfSpaced(g1, g2, d, i, j + 1, continuity, true);
        } else if g1[i].End() + d < g2[j].start {
          SameIfSpaced(g1, g2, d, i + 1, j, continuity, false);
        } else if g1[i].start > g2[j].End() + d {
          SameIfSpaced(g1, g2, d, i, j + 1, continuity, true);
        } else {
          EmissionIfSpaced(g1, g2, d, i, j);
        }
      }
    }
  }

  lemma {:induction false} EmissionIfSpaced(g1: seq<Span>, g2: seq<Span>, d: nat, i: nat, j: nat)
    requires Sorted(g2) && i < |g1| && j < |g2|
    ensures var end := TotalEnd(g1[i], g2[j]);
      var once := [Pair(i, j)] + OnceFrom(g1, g2, d, i, j + 1, end, true);
      [Pair(i, j)] + SweepFrom(g1, g2, d, i, j + 2, end, true) == once <==> Spaced(once)
    decreases |g1| - i, |g2| - j - 1
  {
    var end := TotalEnd(g1[i], g2[j]);
    var once, twice := OnceFrom(g1, g2, d, i, j + 1, end, true), SweepFrom(g1, g2, d, i, j + 2, end, true);
    PairsCons(Pair(i, j), once);
    PairsCons(Pair(i, j), twice);
    if j + 1 >= |g2| {
      assert once == [] && twice == [];
    } else {
      OnceNext(g1, g2, d, i, j + 1, end, true);
      if once != [] && once[0].second == j + 1 {
        LaterSeconds(g1, g2, d, i, j + 2, end);
      } else {
        SkipsUnemitted(g1, g2, d, i, j + 1, end, true);
        SameIfSpaced(g1, g2, d, i, j + 2, end, true);
      }
    }
  }

  lemma {:induction false} LaterSeconds(g1: seq<Span>, g2: seq<Span>, d: nat, i: nat, j: nat, continuity: nat)
    ensures var out := SweepFrom(g1, g2, d, i, j, continuity, true); out != [] ==> out[0].second >= j
  {
    var out := SweepFrom(g1, g2, d, i, j, continuity, true);
    if out != [] {
      SweepFollows(g1, g2, d, i, j, continuity, true, out[0]);
    }
  }

  /** The sweep emits what the sweep with one advance emits if and only if that one never emits two
      neighbouring group-2 matches in a row. */
  lemma LosesNothingIff(g1: seq<Span>, g2: seq<Span>, d: nat)
    requires Sorted(g2)
    ensures Swept(g1, g2, d) == SweptOnce(g1, g2, d) <==> Spaced(SweptOnce(g1, g2, d))
  {
    SameIfSpaced(g1, g2, d, 0, 0, 0, false);
  }

  // ----- What nothing means

  /** Every near pair is accounted for by the sweep with one advance. */
  lemma {:induction false} OnceCovers(g1: seq<Span>, g2: seq<Span>, d: nat, i: nat, j: nat, continuity: nat,
                                      inside: bool, a: nat, b: nat)
    requires Sorted(g1) && Sorted(g2) && i <= a < |g1| && j <= b < |g2| && Near(g1[a], g2[b], d)
    requires continuity <= g2[b].start && (continuity <= g1[a].start || (inside && a == i))
    ensures IsCovered(g1, g2, OnceFrom(g1, g2, d, i, j, continuity, inside), a, b)
    decreases |g1| - i, |g2| - j
  {
    if !inside && g1[i].start < continuity {
      OnceCovers(g1, g2, d, i + 1, j, continuity, false, a, b);
    } else if g2[j].start < continuity {
      OnceCovers(g1, g2, d, i, j + 1, continuity, true, a, b);
    } else if g1[i].End() + d < g2[j].start {
      OnceCovers(g1, g2, d, i + 1, j, continuity, false, a, b);
    } else if g1[i].start > g2[j].End() + d {
      OnceCovers(g1, g2, d, i, j + 1, continuity, true, a, b);
    } else {
      var p, end := Pair(i, j), TotalEnd(g1[i], g2[j]);
      var rest := OnceFrom(g1, g2, d, i, j + 1, end, true);
      if Covers(g1, g2, p, a, b) {
        assert p in [p] + rest;
      } else {
        OnceCovers(g1, g2, d, i, j + 1, end, true, a, b);
        var q :| q in rest && q.first < |g1| && q.second < |g2| && Covers(g1, g2, q, a, b);
        assert q in [p] + rest;
      }
    }
  }

  /** No two neighbouring group-2 matches that do not overlap are both near group-1 matches. */
  ghost predicate Lonely(g1: seq<Span>, g2: seq<Span>, d: nat) {
    forall j, a, b | 0 <= j < |g2| - 1 && 0 <= a < |g1| && 0 <= b < |g1| ::
      Near(g1[a], g2[j], d) && Near(g1[b], g2[j + 1], d) ==> g2[j + 1].start < g2[j].End()
  }

  lemma {:induction false} LonelyIsSpaced(g1: seq<Span>, g2: seq<Span>, d: nat, i: nat, j: nat, continuity: nat,
                                          inside: bool)
    requires Lonely(g1, g2, d)
    ensures Spaced(OnceFrom(g1, g2, d, i, j, continuity, inside))
    decreases |g1| - i, |g2| - j
  {
    if i < |g1| {
      if !inside && g1[i].start < continuity {
        LonelyIsSpaced(g1, g2, d, i + 1, j, continuity, false);
      } else if j < |g2| {
        if g2[j].start < continuity {
          LonelyIsSpaced(g1, g2, d, i, j + 1, continuity, true);
        } else if g1[i].End() + d < g2[j].start {
          LonelyIsSpaced(g1, g2, d, i + 1, j, continuity, false);
        } else if g1[i].start > g2[j].End() + d {
          LonelyIsSpaced(g1, g2, d, i, j + 1, continuity, true);
        } else {
          var end := TotalEnd(g1[i], g2[j]);
          var rest := OnceFrom(g1, g2, d, i, j + 1, end, true);
          LonelyIsSpaced(g1, g2, d, i, j + 1, end, true);
          OnceNext(g1, g2, d, i, j + 1, end, true);
          PairsCons(Pair(i, j), rest);
        }
      }
    }
  }

  /** A condition on the groups alone: then the sweep is the one with one advance, and every near pair is
      accounted for by an emission. */
  lemma LonelyLosesNothing(g1: seq<Span>, g2: seq<Span>, d: nat)
    requires Sorted(g1) && Sorted(g2) && Lonely(g1, g2, d)
    ensures Swept(g1, g2, d) == SweptOnce(g1, g2, d)
    ensures forall a, b :: 0 <= a < |g1| && 0 <= b < |g2| && Near(g1[a], g2[b], d)
              ==> IsCovered(g1, g2, Swept(g1, g2, d), a, b)
  {
    LonelyIsSpaced(g1, g2, d, 0, 0, 0, false);
    LosesNothingIff(g1, g2, d);
    forall a, b | 0 <= a < |g1| && 0 <= b < |g2| && Near(g1[a], g2[b], d)
      ensures IsCovered(g1, g2, Swept(g1, g2, d), a, b)
    {
      OnceCovers(g1, g2, d, 0, 0, 0, false, a, b);
    }
  }
}
