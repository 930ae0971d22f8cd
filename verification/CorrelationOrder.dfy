/** The sweep, told without its indices: which list of pairs is emitted. */
module CorrelationOrder {
  import opened Correlation
  import opened CorrelationLoss

  /** The pair can be emitted, and there is none with an earlier first or an earlier second match. */
  ghost predicate IsLeast(g1: seq<Span>, g2: seq<Span>, d: nat, p: Pair, i: nat, j: nat, continuity: nat,
                          inside: bool)
  {
    && Follows(g1, g2, d, p, i, j, continuity, inside)
    && forall q :: Follows(g1, g2, d, q, i, j, continuity, inside) ==> p.first <= q.first && p.second <= q.second
  }

  /** The list starts with the least pair that can be emitted, or is empty if there is none. */
  ghost predicate StartsLeast(g1: seq<Span>, g2: seq<Span>, d: nat, out: seq<Pair>, i: nat, j: nat,
                              continuity: nat, inside: bool)
  {
    if out == [] then forall q :: !Follows(g1, g2, d, q, i, j, continuity, inside)
    else IsLeast(g1, g2, d, out[0], i, j, continuity, inside)
  }

  /** When an index is advanced, no pair that can be emitted is passed over. */
  ghost predicate LosesNoPair(g1: seq<Span>, g2: seq<Span>, d: nat, i: nat, j: nat, continuity: nat, inside: bool,
                              i': nat, j': nat, inside': bool)
  {
    forall q :: Follows(g1, g2, d, q, i, j, continuity, inside) <==> Follows(g1, g2, d, q, i', j', continuity, inside')
  }

  lemma {:induction false} FirstAdvances(g1: seq<Span>, g2: seq<Span>, d: nat, i: nat, j: nat, continuity: nat,
                                         inside: bool)
    requires Sorted(g1) && Sorted(g2) && i < |g1|
    requires (!inside && g1[i].start < continuity) || (j < |g2| && g1[i].End() + d < g2[j].start)
    ensures LosesNoPair(g1, g2, d, i, j, continuity, inside, i + 1, j, false)
  {
  }

  lemma {:induction false} SecondAdvances(g1: seq<Span>, g2: seq<Span>, d: nat, i: nat, j: nat, continuity: nat,
                                          inside: bool)
    requires Sorted(g1) && Sorted(g2) && i < |g1| && j < |g2| && (inside || continuity <= g1[i].start)
    requires g2[j].start < continuity || g1[i].start > g2[j].End() + d
    ensures LosesNoPair(g1, g2, d, i, j, continuity, inside, i, j + 1, true)
  {
  }

  lemma {:induction false} SweepStartsLeast(g1: seq<Span>, g2: seq<Span>, d: nat, i: nat, j: nat, continuity: nat,
                                            inside: bool)
    requires Sorted(g1) && Sorted(g2)
    ensures StartsLeast(g1, g2, d, SweepFrom(g1, g2, d, i, j, continuity, inside), i, j, continuity, inside)
    decreases |g1| - i, |g2| - j
  {
    if i < |g1| {
      if !inside && g1[i].start < continuity {
        FirstAdvances(g1, g2, d, i, j, continuity, inside);
        SweepStartsLeast(g1, g2, d, i + 1, j, continuity, false);
      } else if j < |g2| {
        if g2[j].start < continuity || g1[i].start > g2[j].End() + d {
          SecondAdvances(g1, g2, d, i, j, continuity, inside);
          SweepStartsLeast(g1, g2, d, i, j + 1, continuity, true);
        } else if g1[i].End() + d < g2[j].start {
          FirstAdvances(g1, g2, d, i, j, continuity, inside);
          SweepStartsLeast(g1, g2, d, i + 1, j, continuity, false);
        }
      }
    }
  }

  /** Pair `n` of the list is the least one that can be emitted after those before it, and the list ends only
      when there is none: the group-1 match of the pair before it or one that starts behind the emitted range,
      with a group-2 match that starts behind the range too, and is not the neighbour of the last one. */
  ghost predicate IsNext(g1: seq<Span>, g2: seq<Span>, d: nat, out: seq<Pair>, n: nat)
    requires n <= |out|
  {
    if n == 0 then StartsLeast(g1, g2, d, out, 0, 0, 0, false)
    else
      var p := out[n - 1];
      && p.first < |g1| && p.second < |g2|
      && StartsLeast(g1, g2, d, out[n..], p.first, p.second + 2, TotalEnd(g1[p.first], g2[p.second]), true)
  }

  lemma {:induction false} EachIsNext(g1: seq<Span>, g2: seq<Span>, d: nat, n: nat)
    requires Sorted(g1) && Sorted(g2) && n <= |Swept(g1, g2, d)|
    ensures IsNext(g1, g2, d, Swept(g1, g2, d), n)
  {
    var out := Swept(g1, g2, d);
    if n == 0 {
      SweepStartsLeast(g1, g2, d, 0, 0, 0, false);
    } else {
      var p := out[n - 1];
      BehindEmission(g1, g2, d, 0, 0, 0, false, out, n - 1);
      SweepStartsLeast(g1, g2, d, p.first, p.second + 2, TotalEnd(g1[p.first], g2[p.second]), true);
    }
  }

  lemma {:induction false} SameNext(g1: seq<Span>, g2: seq<Span>, d: nat, a: seq<Pair>, b: seq<Pair>, n: nat)
    requires n <= |a| && n <= |b| && a[..n] == b[..n] && IsNext(g1, g2, d, a, n) && IsNext(g1, g2, d, b, n)
    ensures (n == |a| <==> n == |b|) && (n < |a| && n < |b| ==> a[n] == b[n])
  {
    if n > 0 {
      assert a[..n][n - 1] == b[..n][n - 1];
    }
  }

  /** The sweep emits the only list of pairs of which each is next. */
  lemma {:induction false} SweepIsTheList(g1: seq<Span>, g2: seq<Span>, d: nat, out: seq<Pair>)
    requires Sorted(g1) && Sorted(g2)
    ensures out == Swept(g1, g2, d) <==> forall n :: 0 <= n <= |out| ==> IsNext(g1, g2, d, out, n)
  {
    var swept := Swept(g1, g2, d);
    forall n | 0 <= n <= |swept| ensures IsNext(g1, g2, d, swept, n) {
      EachIsNext(g1, g2, d, n);
    }
    if forall n :: 0 <= n <= |out| ==> IsNext(g1, g2, d, out, n) {
      var n := 0;
      while n < |out| && n < |swept|
        invariant n <= |out| && n <= |swept| && out[..n] == swept[..n]
      {
        SameNext(g1, g2, d, out, swept, n);
        n := n + 1;
      }
      SameNext(g1, g2, d, out, swept, n);
      assert out[..n] == out && swept[..n] == swept;
    }
  }
}
