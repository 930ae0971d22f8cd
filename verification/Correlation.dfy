/** The correlation sweep: two lists of matches, sorted by start, are swept with two indices for
    pairs within a distance. Emitted pairs are given as index pairs. */
module Correlation {
  import opened Bytes

  /** The end of the address space: `usize::MAX` of the wasm32 target. */
  const USIZE_MAX: nat := 0xFFFF_FFFF

  datatype Span = Span(start: nat, length: nat) {
    function End(): nat { start + length }
  }

  datatype Pair = Pair(first: nat, second: nat)

  predicate Sorted(g: seq<Span>) {
    forall i, j :: 0 <= i < j < |g| ==> g[i].start <= g[j].start
  }

  /** Two matches are near: neither ends more than `d` before the other starts. */
  predicate Near(a: Span, b: Span, d: nat) {
    a.End() + d >= b.start && a.start <= b.End() + d
  }

  function TotalStart(a: Span, b: Span): nat { Min(a.start, b.start) }

  function TotalEnd(a: Span, b: Span): nat { Max(a.End(), b.End()) }

  /** The sweep from indices `i` and `j` on, when nothing may start before `continuity`. `inside`:
      item `i` has already been taken from group 1. After an emission the second index advances
      twice. */
  function SweepFrom(g1: seq<Span>, g2: seq<Span>, d: nat, i: nat, j: nat, continuity: nat, inside: bool): seq<Pair>
    decreases |g1| - i, |g2| - j
  {
    if i >= |g1| then []
    else if !inside && g1[i].start < continuity then
      SweepFrom(g1, g2, d, i + 1, j, continuity, false)
    else if j >= |g2| then []
    else if g2[j].start < continuity then
      SweepFrom(g1, g2, d, i, j + 1, continuity, true)
    else if g1[i].End() + d < g2[j].start then
      SweepFrom(g1, g2, d, i + 1, j, continuity, false)
    else if g1[i].start > g2[j].End() + d then
      SweepFrom(g1, g2, d, i, j + 1, continuity, true)
    else
      [Pair(i, j)] + SweepFrom(g1, g2, d, i, j + 2, TotalEnd(g1[i], g2[j]), true)
  }

  function Swept(g1: seq<Span>, g2: seq<Span>, d: nat): seq<Pair> {
    SweepFrom(g1, g2, d, 0, 0, 0, false)
  }

  // ----- What is emitted

  /** Every emitted pair is near, and lies after what was emitted before. */
  predicate Follows(g1: seq<Span>, g2: seq<Span>, d: nat, p: Pair, i: nat, j: nat, continuity: nat, inside: bool) {
    && i <= p.first < |g1| && j <= p.second < |g2|
    && Near(g1[p.first], g2[p.second], d)
    && continuity <= g2[p.second].start
    && ((inside && p.first == i) || continuity <= g1[p.first].start)
  }

  lemma {:induction false} SweepFollows(g1: seq<Span>, g2: seq<Span>, d: nat, i: nat, j: nat, continuity: nat,
                                        inside: bool, p: Pair)
    requires p in SweepFrom(g1, g2, d, i, j, continuity, inside)
    ensures Follows(g1, g2, d, p, i, j, continuity, inside)
    decreases |g1| - i, |g2| - j
  {
    if !inside && g1[i].start < continuity {
      SweepFollows(g1, g2, d, i + 1, j, continuity, false, p);
    } else if g2[j].start < continuity {
      SweepFollows(g1, g2, d, i, j + 1, continuity, true, p);
    } else if g1[i].End() + d < g2[j].start {
      SweepFollows(g1, g2, d, i + 1, j, continuity, false, p);
    } else if g1[i].start > g2[j].End() + d {
      SweepFollows(g1, g2, d, i, j + 1, continuity, true, p);
    } else if p != Pair(i, j) {
      SweepFollows(g1, g2, d, i, j + 2, TotalEnd(g1[i], g2[j]), true, p);
    }
  }

  /** Of two emitted pairs, the later one has a later second match, disjoint from the earlier one;
      and if its first match is another one, the ranges that the pairs span are disjoint. */
  predicate Apart(g1: seq<Span>, g2: seq<Span>, p: Pair, q: Pair) {
    && p.first < |g1| && q.first < |g1| && p.second < |g2| && q.second < |g2|
    && p.first <= q.first && p.second < q.second
    && g2[p.second].End() <= g2[q.second].start
    && (p.first != q.first ==>
        TotalEnd(g1[p.first], g2[p.second]) <= TotalStart(g1[q.first], g2[q.second]))
  }

  lemma {:induction false} SweepApart(g1: seq<Span>, g2: seq<Span>, d: nat, i: nat, j: nat, continuity: nat,
                                      inside: bool, k: nat, l: nat)
    requires k < l < |SweepFrom(g1, g2, d, i, j, continuity, inside)|
    ensures var out := SweepFrom(g1, g2, d, i, j, continuity, inside);
      Apart(g1, g2, out[k], out[l])
    decreases |g1| - i, |g2| - j
  {
    if i < |g1| {
      if !inside && g1[i].start < continuity {
        SweepApart(g1, g2, d, i + 1, j, continuity, false, k, l);
      } else if j < |g2| {
        if g2[j].start < continuity {
          SweepApart(g1, g2, d, i, j + 1, continuity, true, k, l);
        } else if g1[i].End() + d < g2[j].start {
          SweepApart(g1, g2, d, i + 1, j, continuity, false, k, l);
        } else if g1[i].start > g2[j].End() + d {
          SweepApart(g1, g2, d, i, j + 1, continuity, true, k, l);
        } else if k > 0 {
          SweepApart(g1, g2, d, i, j + 2, TotalEnd(g1[i], g2[j]), true, k - 1, l - 1);
        } else {
          SweepFollows(g1, g2, d, i, j + 2, TotalEnd(g1[i], g2[j]), true,
            SweepFrom(g1, g2, d, i, j + 2, TotalEnd(g1[i], g2[j]), true)[l - 1]);
        }
      }
    }
  }

  /** Everything emitted is near, and no two emissions overlap (see Apart). */
  lemma SweepIsSound(g1: seq<Span>, g2: seq<Span>, d: nat)
    ensures forall k :: 0 <= k < |Swept(g1, g2, d)| ==>
      var p := Swept(g1, g2, d)[k]; p.first < |g1| && p.second < |g2| && Near(g1[p.first], g2[p.second], d)
    ensures forall k, l :: 0 <= k < l < |Swept(g1, g2, d)| ==>
      Apart(g1, g2, Swept(g1, g2, d)[k], Swept(g1, g2, d)[l])
  {
    forall k | 0 <= k < |Swept(g1, g2, d)|
      ensures var p := Swept(g1, g2, d)[k];
        p.first < |g1| && p.second < |g2| && Near(g1[p.first], g2[p.second], d)
    {
      SweepFollows(g1, g2, d, 0, 0, 0, false, Swept(g1, g2, d)[k]);
    }
    forall k, l | 0 <= k < l < |Swept(g1, g2, d)|
      ensures Apart(g1, g2, Swept(g1, g2, d)[k], Swept(g1, g2, d)[l])
    {
      SweepApart(g1, g2, d, 0, 0, 0, false, k, l);
    }
  }

  // ----- Nothing near is missed

  /** Until something is emitted, no pair behind either index is near. */
  lemma {:induction false} SweepFinds(g1: seq<Span>, g2: seq<Span>, d: nat, i: nat, j: nat, inside: bool, a: nat,
                                      b: nat)
    requires Sorted(g1) && Sorted(g2)
    requires i <= a < |g1| && j <= b < |g2| && Near(g1[a], g2[b], d)
    ensures SweepFrom(g1, g2, d, i, j, 0, inside) != []
    decreases |g1| - i, |g2| - j
  {
    if g1[i].End() + d < g2[j].start {
      SweepFinds(g1, g2, d, i + 1, j, false, a, b);
    } else if g1[i].start > g2[j].End() + d {
      SweepFinds(g1, g2, d, i, j + 1, true, a, b);
    }
  }

  /** Detection is complete: the sweep emits something exactly when some pair is near. */
  lemma SweepIsComplete(g1: seq<Span>, g2: seq<Span>, d: nat)
    requires Sorted(g1) && Sorted(g2)
    ensures Swept(g1, g2, d) != [] <==>
      exists a, b :: 0 <= a < |g1| && 0 <= b < |g2| && Near(g1[a], g2[b], d)
  {
    if Swept(g1, g2, d) != [] {
      SweepFollows(g1, g2, d, 0, 0, 0, false, Swept(g1, g2, d)[0]);
      var p := Swept(g1, g2, d)[0];
      assert Near(g1[p.first], g2[p.second], d);
    }
    forall a, b | 0 <= a < |g1| && 0 <= b < |g2| && Near(g1[a], g2[b], d)
      ensures Swept(g1, g2, d) != []
    {
      SweepFinds(g1, g2, d, 0, 0, false, a, b);
    }
  }

  // ----- The loops

  /** `start.saturating_sub(distance)` */
  function SaturatingSub(a: nat, b: nat): nat { if b <= a then a - b else 0 }

  /** `end.saturating_add(distance)` */
  function SaturatingAdd(a: nat, b: nat): nat { Min(a + b, USIZE_MAX) }

  /** Matches that end at or before `minimumEnd` were reported from an earlier window. */
  predicate Surviving(g: seq<Span>, offset: nat, minimumEnd: nat) {
    forall i :: 0 <= i < |g| ==> g[i].End() + offset > minimumEnd
  }

  predicate InBounds(g: seq<Span>, length: nat) {
    forall i :: 0 <= i < |g| ==> g[i].End() <= length
  }

  /** The sweep loops over one pair of groups. The callers have dropped the duplicates, so neither
      of the branches that skip them is taken; the one for group 2 does not advance and would loop
      for ever. `steps` counts the rounds of the inner loop. */
  method Sweep(g1: seq<Span>, g2: seq<Span>, d: nat, offset: nat, minimumEnd: nat) returns (out: seq<Pair>,
               ghost steps: nat)
    requires Surviving(g1, offset, minimumEnd) && Surviving(g2, offset, minimumEnd)
    requires InBounds(g1, USIZE_MAX) && InBounds(g2, USIZE_MAX)
    ensures out == Swept(g1, g2, d)
    ensures steps <= |g1| + |g2|
  {
    out, steps := [], 0;
    var continuity, i, j := 0, 0, 0;
    ghost var result := Swept(g1, g2, d);
    label Outer: while i < |g1|
      invariant i <= |g1| && j <= |g2| + 1 && steps <= i + Min(j, |g2|)
      invariant result == out + SweepFrom(g1, g2, d, i, j, continuity, false)
      decreases |g1| - i
    {
      var item1 := g1[i];
      if item1.End() + offset <= minimumEnd {
        assert false;
      }
      if item1.start < continuity {
        i := i + 1;
        continue;
      }
      while j < |g2|
        invariant j <= |g2| + 1 && steps <= i + Min(j, |g2|)
        invariant result == out + SweepFrom(g1, g2, d, i, j, continuity, true)
        decreases |g2| - j
      {
        steps := steps + 1;
        var item2 := g2[j];
        if item2.End() + offset <= minimumEnd {
          assert false;
        }
        if item2.start < continuity {
          j := j + 1;
          continue;
        }
        var start := SaturatingSub(item2.start, d);
        var end := SaturatingAdd(item2.End(), d);
        if item1.End() < start {
          i := i + 1;
          continue Outer;
        }
        if item1.start > end {
          j := j + 1;
          continue;
        }
        Assoc(out, [Pair(i, j)], SweepFrom(g1, g2, d, i, j + 2, TotalEnd(item1, item2), true));
        out := out + [Pair(i, j)];
        continuity := TotalEnd(item1, item2);
        j := j + 2;
      }
      break;
    }
  }
}
