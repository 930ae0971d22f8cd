/** A chunked scan against one scan of the whole body. A needle with a border fills a run of bytes with
    overlapping occurrences, of which either scan takes those at a fixed distance from its first; a window that
    starts inside the run takes others than the whole scan. */
module ChunkedRuns {
  import opened Bytes
  import opened RawSearch
  import opened ChunkedScan

  // ----- Positions in a run of period `k`

  /** `i % k` */
  function Phase(i: nat, k: nat): (r: nat)
    requires k > 0
    ensures r < k && r <= i
  {
    if i < k then i else Phase(i - k, k)
  }

  lemma {:induction false} PhaseAdd(p: nat, i: nat, k: nat)
    requires k > 0 && Phase(p, k) == 0
    ensures Phase(p + i, k) == Phase(i, k)
  {
    if p >= k {
      PhaseAdd(p - k, i, k);
    }
  }

  lemma PhaseStep(start: nat, from: nat, q: nat, k: nat)
    requires k > 0 && Phase(start + from, k) == 0 && Phase(q, k) == 0
    ensures Phase(start + (from + q), k) == 0
  {
    PhaseAdd(start + from, q, k);
    assert start + from + q == start + (from + q);
  }

  lemma {:induction false} PhaseNext(p: nat, k: nat)
    requires k > 0
    ensures Phase(p + 1, k) == if Phase(p, k) + 1 == k then 0 else Phase(p, k) + 1
  {
    if p >= k {
      PhaseNext(p - k, k);
    }
  }

  lemma {:induction false} PhaseBefore(p: nat, k: nat)
    requires k > 0
    ensures Phase(p - Phase(p, k), k) == 0
  {
    if p >= k {
      PhaseBefore(p - k, k);
    }
  }

  /** The first multiple of `k` from `n` on. */
  lemma FirstMultiple(n: nat, k: nat) returns (q: nat)
    requires k > 0
    ensures n <= q <= n + k && Phase(q, k) == 0 && forall p: nat :: n <= p < q ==> Phase(p, k) != 0
  {
    q := n;
    while Phase(q, k) != 0
      invariant n <= q && q - n <= Phase(q, k) + (if Phase(q, k) == 0 then k else 0)
      invariant forall p: nat :: n <= p < q ==> Phase(p, k) != 0
      decreases if Phase(q, k) == 0 then 0 else k - Phase(q, k)
    {
      PhaseNext(q, k);
      q := q + 1;
    }
  }

  // ----- Runs

  function Run(needle: seq<Byte>, k: nat, length: nat): seq<Byte>
    requires 0 < k <= |needle|
  {
    seq(length, i requires 0 <= i => needle[Phase(i, k)])
  }

  lemma {:induction false} NeedleByPhase(needle: seq<Byte>, k: nat, i: nat)
    requires 0 < k <= |needle| && IsBorder(needle, k) && i < |needle|
    ensures needle[i] == needle[Phase(i, k)]
  {
    if i >= k {
      NeedleByPhase(needle, k, i - k);
      assert needle[k..][i - k] == needle[..|needle| - k][i - k];
    }
  }

  lemma {:induction false} RunAt(needle: seq<Byte>, k: nat, length: nat, p: nat, i: nat)
    requires 0 < k <= |needle| && IsBorder(needle, k) && Phase(p, k) == 0 && i < |needle| && p + i < length
    ensures Run(needle, k, length)[p + i] == needle[i]
  {
    NeedleByPhase(needle, k, i);
    PhaseAdd(p, i, k);
  }

  lemma {:induction false} RunOccurs(needle: seq<Byte>, k: nat, content: seq<Byte>, p: nat)
    requires 0 < k <= |needle| && IsBorder(needle, k) && content == Run(needle, k, |content|)
    requires Phase(p, k) == 0 && p + |needle| <= |content|
    ensures Occurs(content, needle, p)
  {
    forall i | 0 <= i < |needle| ensures needle[i] == content[p + i] {
      RunAt(needle, k, |content|, p, i);
    }
  }

  /** With the least period, the needle occurs in its run at the multiples of the period only. */
  lemma {:induction false} RunOccursOnly(needle: seq<Byte>, k: nat, content: seq<Byte>, p: nat)
    requires 0 < k <= |needle| && IsBorder(needle, k) && forall j :: 1 <= j < k ==> !IsBorder(needle, j)
    requires content == Run(needle, k, |content|) && Occurs(content, needle, p)
    ensures Phase(p, k) == 0
  {
    var r := Phase(p, k);
    if r > 0 {
      PhaseBefore(p, k);
      RunOccurs(needle, k, content, p - r);
      OverlapIsBorder(content, needle, p - r, p);
    }
  }

  ghost predicate OccursByPhase(content: seq<Byte>, needle: seq<Byte>, k: nat)
    requires k > 0
  {
    forall p: nat :: Occurs(content, needle, p) <==> p + |needle| <= |content| && Phase(p, k) == 0
  }

  lemma RunIsByPhase(needle: seq<Byte>, k: nat, content: seq<Byte>)
    requires 0 < k <= |needle| && IsBorder(needle, k) && forall j :: 1 <= j < k ==> !IsBorder(needle, j)
    requires content == Run(needle, k, |content|)
    ensures OccursByPhase(content, needle, k)
  {
    forall p: nat
      ensures Occurs(content, needle, p) <==> p + |needle| <= |content| && Phase(p, k) == 0
    {
      if Occurs(content, needle, p) {
        RunOccursOnly(needle, k, content, p);
      } else if p + |needle| <= |content| && Phase(p, k) == 0 {
        RunOccurs(needle, k, content, p);
      }
    }
  }

  // ----- What a scan of a part of a run takes

  /** In the part from `start` on, nothing occurs between a multiple of the period and the next one that a
      needle leaves free. */
  lemma NothingBetween(content: seq<Byte>, needle: seq<Byte>, k: nat, q: nat, start: nat, from: nat, p: nat)
    requires k > 0 && OccursByPhase(content, needle, k) && start <= |content| && Phase(start + from, k) == 0
    requires forall p: nat :: |needle| <= p < q ==> Phase(p, k) != 0
    requires from + |needle| <= p < from + q
    ensures !Occurs(content[start..], needle, p)
  {
    OccursInWindow(content, needle, start, |content|, p);
    PhaseAdd(start + from, p - from, k);
    assert start + from + (p - from) == start + p;
  }

  lemma TakesNext(content: seq<Byte>, needle: seq<Byte>, k: nat, q: nat, start: nat, from: nat)
    requires k > 0 && needle != [] && OccursByPhase(content, needle, k)
    requires Phase(start + from, k) == 0 && |needle| <= q && start + from + |needle| <= |content|
    requires forall p: nat :: |needle| <= p < q ==> Phase(p, k) != 0
    ensures Greedy(content[start..], needle, from) == [from] + Greedy(content[start..], needle, from + q)
  {
    var part := content[start..];
    OccursInWindow(content, needle, start, |content|, from);
    GreedyAt(part, needle, from);
    forall p: nat | from + |needle| <= p < from + q ensures !Occurs(part, needle, p) {
      NothingBetween(content, needle, k, q, start, from, p);
    }
    GreedySkips(part, needle, from + |needle|, from + q);
  }

  /** A scan of the part takes, from a multiple of the period on, the multiples of `q` after it. */
  lemma {:induction false} GreedyInRun(content: seq<Byte>, needle: seq<Byte>, k: nat, q: nat, start: nat, from: nat,
                                       starts: seq<nat>, x: nat)
    requires k > 0 && needle != [] && OccursByPhase(content, needle, k) && start <= |content|
    requires Phase(start + from, k) == 0 && |needle| <= q && Phase(q, k) == 0
    requires forall p: nat :: |needle| <= p < q ==> Phase(p, k) != 0
    requires starts == Greedy(content[start..], needle, from) && x in starts
    ensures x >= from && Phase(x - from, q) == 0
    decreases |content| - start - from
  {
    var next := from + q;
    TakesNext(content, needle, k, q, start, from);
    if x != from {
      PhaseStep(start, from, q, k);
      GreedyInRun(content, needle, k, q, start, next, Greedy(content[start..], needle, next), x);
    }
  }

  lemma {:induction false} CoveredBy(starts: seq<nat>, n: nat, p: nat) returns (x: nat)
    requires Covers(starts, n, p)
    ensures x in starts && x <= p < x + n
  {
    if starts[0] <= p < starts[0] + n {
      x := starts[0];
    } else {
      x := CoveredBy(starts[1..], n, p);
    }
  }

  lemma {:induction false} LateHas(starts: seq<nat>, index: nat, n: nat, total: nat, x: nat)
    requires x in starts && index + x + n > total
    ensures index + x in Late(starts, index, n, total)
  {
    if starts[0] != x {
      LateHas(starts[1..], index, n, total, x);
    }
  }

  // ----- The whole scan and the chunked scan of a run

  /** After a first read of one byte more than the overlap, the window starts at offset 1. */
  lemma {:induction false} SecondWindow(content: seq<Byte>, needle: seq<Byte>, sizes: seq<nat>, y: nat)
    requires needle != [] && sizes == [CHUNK_OVERLAP + 1, |content| - (CHUNK_OVERLAP + 1)]
    requires CHUNK_OVERLAP + 1 < |content| <= CHUNK_SIZE + 1
    requires y >= 1 && y - 1 in Greedy(content[1..], needle, 0) && y + |needle| > CHUNK_OVERLAP + 1
    ensures ValidReads(content, 0, sizes) && y in ScanStarts(content, needle, 0, sizes)
  {
    var t: nat, rest := CHUNK_OVERLAP + 1, sizes[1..];
    assert rest == [|content| - t] && rest[1..] == [];
    assert ValidReads(content, |content|, []) && ValidReads(content, t, rest);
    assert Window(content, t, |content| - t) == content[1..];
    LateHas(Greedy(content[1..], needle, 0), 1, |needle|, t, y - 1);
    assert y in ScanStarts(content, needle, t, rest);
  }

  /** The whole scan takes no position that is off the multiples of `q` by the period. */
  lemma NotTaken(content: seq<Byte>, needle: seq<Byte>, k: nat, q: nat, y: nat, starts: seq<nat>)
    requires 1 <= k < |needle| <= q && OccursByPhase(content, needle, k) && Phase(q, k) == 0
    requires forall p: nat :: |needle| <= p < q ==> Phase(p, k) != 0
    requires y >= k && Phase(y - k, q) == 0 && starts == Greedy(content, needle, 0)
    ensures y !in starts
  {
    assert content[0..] == content;
    PhaseAdd(y - k, k, q);
    if y in starts {
      GreedyInRun(content, needle, k, q, 0, 0, starts, y);
    }
  }

  /** The last occurrence in the run is covered in the window from offset 1 on. */
  lemma LastIsCovered(content: seq<Byte>, needle: seq<Byte>, k: nat, last: nat, starts: seq<nat>) returns (x: nat)
    requires needle != [] && k > 0 && OccursByPhase(content, needle, k) && Phase(last, k) == 0
    requires 1 <= last && last + |needle| == |content| && starts == Greedy(content[1..], needle, 0)
    ensures x in starts && 1 + x + |needle| > last
  {
    OccursInWindow(content, needle, 1, |content|, last - 1);
    GreedyCovers(content[1..], needle, 0, last - 1);
    x := CoveredBy(starts, |needle|, last - 1);
  }

  /** A scan of the window from offset 1 on starts with the occurrence at offset `k`. */
  lemma {:induction false} WindowSkips(content: seq<Byte>, needle: seq<Byte>, k: nat)
    requires needle != [] && k > 0 && OccursByPhase(content, needle, k) && content != []
    ensures Greedy(content[1..], needle, 0) == Greedy(content[1..], needle, k - 1)
  {
    forall p: nat | p < k - 1 ensures !Occurs(content[1..], needle, p) {
      OccursInWindow(content, needle, 1, |content|, p);
    }
    GreedySkips(content[1..], needle, 0, k - 1);
  }

  /** What the window from offset 1 on takes near the end of the run. */
  lemma TakenInWindow(content: seq<Byte>, needle: seq<Byte>, k: nat, q: nat, last: nat, starts: seq<nat>)
    returns (y: nat)
    requires 1 <= k < |needle| <= q && OccursByPhase(content, needle, k) && Phase(q, k) == 0
    requires forall p: nat :: |needle| <= p < q ==> Phase(p, k) != 0
    requires Phase(last, k) == 0 && 1 <= last && last + |needle| == |content|
    requires starts == Greedy(content[1..], needle, 0)
    ensures y >= k && y - 1 in starts && y + |needle| > last && Phase(y - k, q) == 0
  {
    var x := LastIsCovered(content, needle, k, last, starts);
    WindowSkips(content, needle, k);
    GreedyInRun(content, needle, k, q, 1, k - 1, starts, x);
    y := 1 + x;
  }

  /** The window from offset 1 on takes an occurrence in the run that the whole scan does not take. */
  lemma TakenInWindowOnly(needle: seq<Byte>, k: nat, last: nat, content: seq<Byte>, starts: seq<nat>,
                          whole: seq<nat>) returns (y: nat)
    requires 1 <= k < |needle| && IsBorder(needle, k) && forall j :: 1 <= j < k ==> !IsBorder(needle, j)
    requires Phase(last, k) == 0 && 1 <= last && |content| == last + |needle| && content == Run(needle, k, |content|)
    requires starts == Greedy(content[1..], needle, 0) && whole == Greedy(content, needle, 0)
    ensures y >= 1 && y - 1 in starts && y + |needle| > last && y !in whole
  {
    var q := FirstMultiple(|needle|, k);
    RunIsByPhase(needle, k, content);
    y := TakenInWindow(content, needle, k, q, last, starts);
    NotTaken(content, needle, k, q, y, whole);
  }

  lemma RunIsScannedDifferently(needle: seq<Byte>, k: nat) returns (content: seq<Byte>, sizes: seq<nat>)
    requires 1 <= k < |needle| <= CHUNK_OVERLAP + 1
    requires IsBorder(needle, k) && forall j :: 1 <= j < k ==> !IsBorder(needle, j)
    ensures ValidReads(content, 0, sizes) && (Ascii(needle) ==> Ascii(content))
    ensures ScanStarts(content, needle, 0, sizes) != Greedy(content, needle, 0)
  {
    var last := FirstMultiple(CHUNK_OVERLAP + 1, k);
    content := Run(needle, k, last + |needle|);
    sizes := [CHUNK_OVERLAP + 1, |content| - (CHUNK_OVERLAP + 1)];
    var starts, whole := Greedy(content[1..], needle, 0), Greedy(content, needle, 0);
    var y := TakenInWindowOnly(needle, k, last, content, starts, whole);
    SecondWindow(content, needle, sizes, y);
  }

  lemma LeastBorder(needle: seq<Byte>) returns (k: nat)
    requires !Unbordered(needle)
    ensures 1 <= k < |needle| && IsBorder(needle, k) && forall j :: 1 <= j < k ==> !IsBorder(needle, j)
  {
    k := 1;
    while !IsBorder(needle, k)
      invariant 1 <= k < |needle| && forall j :: 1 <= j < k ==> !IsBorder(needle, j)
      invariant exists j :: k <= j < |needle| && IsBorder(needle, j)
      decreases |needle| - k
    {
      k := k + 1;
    }
  }

  // ----- The condition

  /** The windows report just what one scan of the whole body does, whatever the ASCII body and the reads. */
  ghost predicate ScansAsOne(needle: seq<Byte>)
    requires needle != []
  {
    forall content: seq<Byte>, sizes: seq<nat> :: Ascii(content) && ValidReads(content, 0, sizes) ==>
      ScanStarts(content, needle, 0, sizes) == Greedy(content, needle, 0)
  }

  lemma {:induction false} AllLate(starts: seq<nat>, n: nat)
    requires n > 0
    ensures Late(starts, 0, n, 0) == starts
  {
    if starts != [] {
      AllLate(starts[1..], n);
      Uncons(starts);
    }
  }

  /** One scan of the whole finds all occurrences of an unbordered needle. */
  lemma {:induction false} WholeIsExact(content: seq<Byte>, needle: seq<Byte>)
    requires needle != [] && Unbordered(needle)
    ensures Greedy(content, needle, 0) == Occurrences(content, needle)
  {
    assert content[0..|content|] == content;
    WindowIsExact(content, needle, 0, |content|, 0, 0);
    AllLate(Greedy(content, needle, 0), |needle|);
    OccurrencesEnd(content, needle);
  }

  /** Cutting the body into windows changes what is found of a needle, for some ASCII body and reads, unless
      the needle is scannable or in no ASCII body at all. */
  lemma ScanIsAsOneIff(needle: seq<Byte>)
    requires needle != []
    ensures ScansAsOne(needle) <==> Scannable(needle) || !Ascii(needle)
  {
    if !Ascii(needle) {
      forall content: seq<Byte>, sizes: seq<nat> | Ascii(content) && ValidReads(content, 0, sizes)
        ensures ScanStarts(content, needle, 0, sizes) == Greedy(content, needle, 0)
      {
        NothingInAscii(content, needle, sizes);
      }
    } else if |needle| > CHUNK_OVERLAP + 1 {
      LongIsMissed(needle, 0);
      assert Occurs(needle, needle, 0);
      GreedyAt(needle, needle, 0);
      assert ScanStarts(needle, needle, 0, Ones(|needle|)) != Greedy(needle, needle, 0);
    } else if !Unbordered(needle) {
      var k := LeastBorder(needle);
      var content, sizes := RunIsScannedDifferently(needle, k);
    } else {
      forall content: seq<Byte>, sizes: seq<nat> | Ascii(content) && ValidReads(content, 0, sizes)
        ensures ScanStarts(content, needle, 0, sizes) == Greedy(content, needle, 0)
      {
        ScannableIsExact(content, needle, sizes);
        WholeIsExact(content, needle);
      }
    }
  }
}
