/** The sliding window of the HTML scanner: each read is scanned together with up to 512 bytes
    before it, and what ends before the read is dropped as a duplicate. */
module ChunkedScan {
  import opened Bytes
  import opened RawSearch

  const CHUNK_SIZE: nat := 65536
  const CHUNK_OVERLAP: nat := 512

  function Overlap(total: nat): nat { Min(CHUNK_OVERLAP, total) }

  /** Sizes of reads that deliver the content from `total` on: none is empty, each fits into the chunk. */
  predicate ValidReads(content: seq<Byte>, total: nat, sizes: seq<nat>)
    decreases |sizes|
  {
    if sizes == [] then total == |content|
    else
      && 1 <= sizes[0] <= CHUNK_SIZE - Overlap(total)
      && total + sizes[0] <= |content|
      && ValidReads(content, total + sizes[0], sizes[1..])
  }

  /** What is scanned for a read of `n` bytes. */
  function Window(content: seq<Byte>, total: nat, n: nat): seq<Byte>
    requires total + n <= |content|
  {
    content[total - Overlap(total)..total + n]
  }

  /** The global positions of the matches at `starts` that end after `total`. */
  function Late(starts: seq<nat>, index: nat, n: nat, total: nat): seq<nat> {
    if starts == [] then []
    else (if index + starts[0] + n > total then [index + starts[0]] else []) + Late(starts[1..], index, n, total)
  }

  /** The positions reported for one needle, over all windows. */
  function ScanStarts(content: seq<Byte>, needle: seq<Byte>, total: nat, sizes: seq<nat>): seq<nat>
    requires needle != [] && ValidReads(content, total, sizes)
    decreases |sizes|
  {
    if sizes == [] then []
    else
      Late(Greedy(Window(content, total, sizes[0]), needle, 0), total - Overlap(total), |needle|, total)
      + ScanStarts(content, needle, total + sizes[0], sizes[1..])
  }

  /** The occurrences that start in `[a, b)`. */
  function Between(s: seq<Byte>, needle: seq<Byte>, a: nat, b: nat): seq<nat>
    decreases b - a
  {
    if a >= b then []
    else (if Occurs(s, needle, a) then [a] else []) + Between(s, needle, a + 1, b)
  }

  /** Every occurrence in the content, in order. */
  function Occurrences(s: seq<Byte>, needle: seq<Byte>): seq<nat> {
    Between(s, needle, 0, |s|)
  }

  /** No occurrence of the needle can overlap another one. */
  predicate Unbordered(needle: seq<Byte>) {
    forall k :: 1 <= k < |needle| ==> !IsBorder(needle, k)
  }

  /** The needle shifted by `k` agrees with itself. */
  predicate IsBorder(needle: seq<Byte>, k: nat)
    requires k <= |needle|
  {
    needle[k..] == needle[..|needle| - k]
  }

  // ----- Occurrences

  lemma {:induction false} BetweenSplit(s: seq<Byte>, needle: seq<Byte>, a: nat, m: nat, b: nat)
    requires a <= m <= b
    ensures Between(s, needle, a, b) == Between(s, needle, a, m) + Between(s, needle, m, b)
    decreases m - a
  {
    if a < m {
      BetweenSplit(s, needle, a + 1, m, b);
      Assoc(if Occurs(s, needle, a) then [a] else [], Between(s, needle, a + 1, m), Between(s, needle, m, b));
    }
  }

  lemma {:induction false} BetweenSkips(s: seq<Byte>, needle: seq<Byte>, a: nat, m: nat, b: nat)
    requires a <= m && forall p: nat :: a <= p < Min(m, b) ==> !Occurs(s, needle, p)
    ensures Between(s, needle, a, b) == Between(s, needle, m, b)
    decreases (m as int) - (a as int)
  {
    if a < m && a < b {
      assert !Occurs(s, needle, a);
      BetweenSkips(s, needle, a + 1, m, b);
      Assoc([], Between(s, needle, a + 1, b), []);
    }
  }

  lemma {:induction false} BetweenHas(s: seq<Byte>, needle: seq<Byte>, a: nat, b: nat, p: nat)
    ensures p in Between(s, needle, a, b) <==> a <= p < b && Occurs(s, needle, p)
    decreases b - a
  {
    if a < b {
      BetweenHas(s, needle, a + 1, b, p);
    }
  }

  /** Two occurrences less than a needle apart make a border. */
  lemma OverlapIsBorder(s: seq<Byte>, needle: seq<Byte>, p: nat, q: nat)
    requires Occurs(s, needle, p) && Occurs(s, needle, q) && p < q < p + |needle|
    ensures IsBorder(needle, q - p)
  {
    var n, k := |needle|, q - p;
    forall i | 0 <= i < n - k ensures needle[k + i] == needle[i] {
      assert needle[k + i] == s[p + (k + i)] && needle[i] == s[q + i];
    }
    assert forall i :: 0 <= i < n - k ==> needle[k..][i] == needle[..n - k][i];
  }

  lemma OccursInWindow(content: seq<Byte>, needle: seq<Byte>, index: nat, end: nat, p: nat)
    requires index <= end <= |content|
    ensures Occurs(content[index..end], needle, p)
      <==> index + p + |needle| <= end && Occurs(content, needle, index + p)
  {
    if index + p + |needle| <= end {
      forall i | 0 <= i < |needle|
        ensures needle[i] == content[index..end][p + i] <==> needle[i] == content[index + p + i]
      {
      }
    }
  }

  // ----- The windows together find every occurrence

  /** The first position from which a match ends after `total`. */
  function FirstLate(total: nat, n: nat): nat {
    if total + 1 >= n then total + 1 - n else 0
  }

  lemma {:induction false} NoOverlap(s: seq<Byte>, needle: seq<Byte>, p: nat, a: nat, m: nat, b: nat)
    requires Unbordered(needle) && Occurs(s, needle, p) && p < a <= m <= p + |needle|
    ensures Between(s, needle, a, b) == Between(s, needle, m, b)
  {
    forall q: nat | a <= q < Min(m, b) ensures !Occurs(s, needle, q) {
      if Occurs(s, needle, q) {
        OverlapIsBorder(s, needle, p, q);
      }
    }
    BetweenSkips(s, needle, a, m, b);
  }

  lemma {:induction false} LateCons(x: nat, starts: seq<nat>, index: nat, n: nat, total: nat)
    ensures Late([x] + starts, index, n, total)
      == (if index + x + n > total then [index + x] else []) + Late(starts, index, n, total)
  {
    assert ([x] + starts)[1..] == starts;
  }

  /** What a window reports from position `from` of it on, as it should be. */
  function LateBetween(content: seq<Byte>, needle: seq<Byte>, total: nat, end: nat, p: nat): seq<nat> {
    Between(content, needle, Max(FirstLate(total, |needle|), p), FirstLate(end, |needle|))
  }

  /** What a window reports from position `from` of it on. */
  function WindowReports(window: seq<Byte>, needle: seq<Byte>, index: nat, total: nat, from: nat): seq<nat>
    requires needle != []
  {
    Late(Greedy(window, needle, from), index, |needle|, total)
  }

  lemma LateHit(window: seq<Byte>, needle: seq<Byte>, index: nat, total: nat, from: nat)
    requires needle != [] && Occurs(window, needle, from)
    ensures WindowReports(window, needle, index, total, from)
      == (if index + from + |needle| > total then [index + from] else [])
         + WindowReports(window, needle, index, total, from + |needle|)
  {
    LateCons(from, Greedy(window, needle, from + |needle|), index, |needle|, total);
  }

  lemma LateMiss(window: seq<Byte>, needle: seq<Byte>, index: nat, total: nat, from: nat)
    requires needle != [] && !Occurs(window, needle, from) && from + |needle| <= |window|
    ensures WindowReports(window, needle, index, total, from) == WindowReports(window, needle, index, total, from + 1)
  {
  }

  lemma LateEnd(window: seq<Byte>, needle: seq<Byte>, index: nat, total: nat, from: nat)
    requires needle != [] && from + |needle| > |window|
    ensures WindowReports(window, needle, index, total, from) == []
  {
  }

  lemma PassOccurrence(content: seq<Byte>, needle: seq<Byte>, p: nat, total: nat, end: nat)
    requires needle != [] && Unbordered(needle) && Occurs(content, needle, p) && p + |needle| <= end
    ensures LateBetween(content, needle, total, end, p)
      == (if p + |needle| > total then [p] else []) + LateBetween(content, needle, total, end, p + |needle|)
  {
    var n, lo, hi := |needle|, FirstLate(total, |needle|), FirstLate(end, |needle|);
    if p + n > total {
      NoOverlap(content, needle, p, p + 1, p + n, hi);
    } else if lo <= p + n {
      NoOverlap(content, needle, p, lo, p + n, hi);
      Assoc([], Between(content, needle, p + n, hi), []);
    } else {
      Assoc([], Between(content, needle, lo, hi), []);
    }
  }

  lemma PassOther(content: seq<Byte>, needle: seq<Byte>, p: nat, total: nat, end: nat)
    requires needle != [] && !Occurs(content, needle, p)
    ensures LateBetween(content, needle, total, end, p) == LateBetween(content, needle, total, end, p + 1)
  {
    var lo, hi := FirstLate(total, |needle|), FirstLate(end, |needle|);
    if lo <= p {
      BetweenSkips(content, needle, p, p + 1, hi);
    }
  }

  lemma HitIsExact(content: seq<Byte>, needle: seq<Byte>, window: seq<Byte>, index: nat, total: nat, from: nat,
                   end: nat)
    requires needle != [] && Unbordered(needle) && index + from + |needle| <= end
    requires Occurs(window, needle, from) && Occurs(content, needle, index + from)
    requires WindowReports(window, needle, index, total, from + |needle|)
          == LateBetween(content, needle, total, end, index + (from + |needle|))
    ensures WindowReports(window, needle, index, total, from) == LateBetween(content, needle, total, end, index + from)
  {
    PassOccurrence(content, needle, index + from, total, end);
    LateHit(window, needle, index, total, from);
  }

  lemma MissIsExact(content: seq<Byte>, needle: seq<Byte>, window: seq<Byte>, index: nat, total: nat, from: nat,
                    end: nat)
    requires needle != [] && from + |needle| <= |window|
    requires !Occurs(window, needle, from) && !Occurs(content, needle, index + from)
    requires WindowReports(window, needle, index, total, from + 1)
          == LateBetween(content, needle, total, end, index + (from + 1))
    ensures WindowReports(window, needle, index, total, from) == LateBetween(content, needle, total, end, index + from)
  {
    PassOther(content, needle, index + from, total, end);
    LateMiss(window, needle, index, total, from);
  }

  /** For an unbordered needle, a window of bytes shows exactly the occurrences that end in its read. */
  lemma {:induction false} WindowIsExact(content: seq<Byte>, needle: seq<Byte>, index: nat, end: nat, total: nat,
                                         from: nat)
    requires needle != [] && Unbordered(needle) && index <= total <= end <= |content|
    ensures WindowReports(content[index..end], needle, index, total, from)
      == LateBetween(content, needle, total, end, index + from)
    decreases end - index - from
  {
    var n, window := |needle|, content[index..end];
    OccursInWindow(content, needle, index, end, from);
    if from + n > |window| {
      LateEnd(window, needle, index, total, from);
    } else if Occurs(window, needle, from) {
      WindowIsExact(content, needle, index, end, total, from + n);
      HitIsExact(content, needle, window, index, total, from, end);
    } else {
      WindowIsExact(content, needle, index, end, total, from + 1);
      MissIsExact(content, needle, window, index, total, from, end);
    }
  }

  /** For an unbordered needle that fits into the overlap and one more byte, the windows from
      `total` on report exactly the occurrences that end after `total`. */
  lemma {:induction false} ScanIsExactFrom(content: seq<Byte>, needle: seq<Byte>, total: nat, sizes: seq<nat>)
    requires needle != [] && Unbordered(needle) && |needle| <= CHUNK_OVERLAP + 1
    requires ValidReads(content, total, sizes)
    ensures ScanStarts(content, needle, total, sizes)
      == Between(content, needle, FirstLate(total, |needle|), FirstLate(|content|, |needle|))
    decreases |sizes|
  {
    if sizes != [] {
      var n, end := |needle|, total + sizes[0];
      ScanIsExactFrom(content, needle, end, sizes[1..]);
      ReadIsExact(content, needle, total, sizes[0]);
      SizesBound(content, end, sizes[1..]);
      BetweenSplit(content, needle, FirstLate(total, n), FirstLate(end, n), FirstLate(|content|, n));
    }
  }

  lemma ReadIsExact(content: seq<Byte>, needle: seq<Byte>, total: nat, size: nat)
    requires needle != [] && Unbordered(needle) && |needle| <= CHUNK_OVERLAP + 1 && total + size <= |content|
    ensures Late(Greedy(Window(content, total, size), needle, 0), total - Overlap(total), |needle|, total)
      == Between(content, needle, FirstLate(total, |needle|), FirstLate(total + size, |needle|))
  {
    WindowIsExact(content, needle, total - Overlap(total), total + size, total, 0);
  }

  lemma {:induction false} SizesBound(content: seq<Byte>, total: nat, sizes: seq<nat>)
    requires ValidReads(content, total, sizes)
    ensures total <= |content|
  {
  }

  /** Occurrences end inside the content. */
  lemma {:induction false} OccurrencesEnd(content: seq<Byte>, needle: seq<Byte>)
    requires needle != []
    ensures Between(content, needle, 0, FirstLate(|content|, |needle|)) == Occurrences(content, needle)
  {
    var hi := FirstLate(|content|, |needle|);
    BetweenSplit(content, needle, 0, hi, |content|);
    BetweenSkips(content, needle, hi, |content|, |content|);
  }

  // ----- For any needle, nothing is reported twice and nothing is made up

  /** Increasing positions in `[lo, hi)`, each an occurrence. */
  predicate Located(s: seq<Byte>, needle: seq<Byte>, starts: seq<nat>, lo: nat, hi: nat) {
    if starts == [] then lo <= hi
    else lo <= starts[0] < hi && Occurs(s, needle, starts[0]) && Located(s, needle, starts[1..], starts[0] + 1, hi)
  }

  lemma {:induction false} LocatedAppend(s: seq<Byte>, needle: seq<Byte>, a: seq<nat>, b: seq<nat>, lo: nat,
                                         mid: nat, hi: nat)
    requires Located(s, needle, a, lo, mid) && Located(s, needle, b, mid, hi)
    ensures Located(s, needle, a + b, lo, hi)
  {
    if a == [] {
      assert a + b == b;
    } else {
      LocatedUpTo(s, needle, b, mid, hi);
      LocatedAppend(s, needle, a[1..], b, a[0] + 1, mid, hi);
      assert (a + b)[1..] == a[1..] + b;
    }
  }

  lemma {:induction false} LocatedUpTo(s: seq<Byte>, needle: seq<Byte>, starts: seq<nat>, lo: nat, hi: nat)
    requires Located(s, needle, starts, lo, hi)
    ensures lo <= hi
  {
    if starts != [] {
      LocatedUpTo(s, needle, starts[1..], starts[0] + 1, hi);
    }
  }

  lemma {:induction false} LocatedCons(s: seq<Byte>, needle: seq<Byte>, p: nat, starts: seq<nat>, lo: nat, hi: nat)
    requires lo <= p < hi && Occurs(s, needle, p) && Located(s, needle, starts, p + 1, hi)
    ensures Located(s, needle, [p] + starts, lo, hi)
  {
    assert ([p] + starts)[1..] == starts;
  }

  lemma FrontLocated(content: seq<Byte>, needle: seq<Byte>, p: nat, late: seq<nat>, ends: bool, lo: nat, hi: nat)
    requires Occurs(content, needle, p)
    requires if ends then lo <= p < hi && Located(content, needle, late, p + 1, hi)
             else Located(content, needle, late, lo, hi)
    ensures Located(content, needle, (if ends then [p] else []) + late, lo, hi)
  {
    if ends {
      LocatedCons(content, needle, p, late, lo, hi);
    } else {
      Assoc([], [], late);
    }
  }

  /** What a window reports ends in its read. */
  lemma {:induction false} LateLocated(content: seq<Byte>, needle: seq<Byte>, index: nat, end: nat, total: nat,
                                       starts: seq<nat>, from: nat, lo: nat)
    requires needle != [] && index <= total <= end <= |content|
    requires Separate(content[index..end], needle, starts, from)
    requires FirstLate(total, |needle|) <= lo <= FirstLate(end, |needle|)
    requires lo <= Max(FirstLate(total, |needle|), index + from)
    ensures Located(content, needle, Late(starts, index, |needle|, total), lo, FirstLate(end, |needle|))
    decreases |starts|
  {
    if starts != [] {
      var n, p := |needle|, index + starts[0];
      var ends := p + n > total;
      OccursInWindow(content, needle, index, end, starts[0]);
      LateLocated(content, needle, index, end, total, starts[1..], starts[0] + n, if ends then p + 1 else lo);
      FrontLocated(content, needle, p, Late(starts[1..], index, n, total), ends, lo, FirstLate(end, n));
    }
  }

  lemma {:induction false} ScanLocated(content: seq<Byte>, needle: seq<Byte>, total: nat, sizes: seq<nat>)
    requires needle != [] && ValidReads(content, total, sizes)
    ensures Located(content, needle, ScanStarts(content, needle, total, sizes),
                    FirstLate(total, |needle|), FirstLate(|content|, |needle|))
    decreases |sizes|
  {
    if sizes != [] {
      var n, end := |needle|, total + sizes[0];
      ScanLocated(content, needle, end, sizes[1..]);
      GreedyIsSeparate(Window(content, total, sizes[0]), needle, 0, 0);
      LateLocated(content, needle, total - Overlap(total), end, total,
        Greedy(Window(content, total, sizes[0]), needle, 0), 0, FirstLate(total, n));
      LocatedAppend(content, needle,
        Late(Greedy(Window(content, total, sizes[0]), needle, 0), total - Overlap(total), n, total),
        ScanStarts(content, needle, end, sizes[1..]),
        FirstLate(total, n), FirstLate(end, n), FirstLate(|content|, n));
    }
  }

  lemma {:induction false} LocatedIncreases(s: seq<Byte>, needle: seq<Byte>, starts: seq<nat>, lo: nat, hi: nat,
                                            i: nat, j: nat)
    requires Located(s, needle, starts, lo, hi) && i <= j < |starts|
    ensures lo <= starts[i] && Occurs(s, needle, starts[i]) && (i < j ==> starts[i] < starts[j])
    decreases |starts|
  {
    if i > 0 {
      LocatedIncreases(s, needle, starts[1..], starts[0] + 1, hi, i - 1, j - 1);
    } else if j > 0 {
      LocatedIncreases(s, needle, starts[1..], starts[0] + 1, hi, j - 1, j - 1);
    }
  }

  /** Whatever the needle and the reads, the windows of bytes show only occurrences, in increasing order, so
      none twice. */
  lemma {:induction false} NothingTwice(content: seq<Byte>, needle: seq<Byte>, sizes: seq<nat>)
    requires needle != [] && ValidReads(content, 0, sizes)
    ensures var starts := ScanStarts(content, needle, 0, sizes);
      && (forall i :: 0 <= i < |starts| ==> Occurs(content, needle, starts[i]))
      && (forall i, j :: 0 <= i < j < |starts| ==> starts[i] < starts[j])
  {
    var starts := ScanStarts(content, needle, 0, sizes);
    ScanLocated(content, needle, 0, sizes);
    forall i, j | 0 <= i <= j < |starts|
      ensures Occurs(content, needle, starts[i]) && (i < j ==> starts[i] < starts[j])
    {
      LocatedIncreases(content, needle, starts, FirstLate(0, |needle|), FirstLate(|content|, |needle|), i, j);
    }
  }

  // ----- The scan is exact for exactly the unbordered needles that fit

  /** The condition on a needle: it has no border, and it fits into the overlap and one byte. */
  predicate Scannable(needle: seq<Byte>) {
    |needle| <= CHUNK_OVERLAP + 1 && Unbordered(needle)
  }

  /** The windows show all occurrences in an ASCII body, each once, in order, whatever the body and the reads. */
  ghost predicate ScansExactly(needle: seq<Byte>)
    requires needle != []
  {
    forall content: seq<Byte>, sizes: seq<nat> :: Ascii(content) && ValidReads(content, 0, sizes) ==>
      ScanStarts(content, needle, 0, sizes) == Occurrences(content, needle)
  }

  /** The windows of bytes of any content show all occurrences of a scannable needle. */
  lemma {:induction false} ScannableIsExact(content: seq<Byte>, needle: seq<Byte>, sizes: seq<nat>)
    requires needle != [] && Scannable(needle) && ValidReads(content, 0, sizes)
    ensures ScanStarts(content, needle, 0, sizes) == Occurrences(content, needle)
  {
    ScanIsExactFrom(content, needle, 0, sizes);
    OccurrencesEnd(content, needle);
  }

  /** A needle with a border, overlapping itself. */
  lemma OccursTwice(needle: seq<Byte>, k: nat, content: seq<Byte>)
    requires 1 <= k < |needle| && IsBorder(needle, k) && content == needle + needle[|needle| - k..]
    ensures Occurs(content, needle, 0) && Occurs(content, needle, k)
  {
    var n := |needle|;
    forall i | 0 <= i < n ensures needle[i] == content[k + i] {
      if i < n - k {
        assert needle[k..][i] == needle[..n - k][i];
      }
    }
  }

  /** In one read only the first of two overlapping occurrences is reported. */
  lemma {:induction false} SecondIsMissed(content: seq<Byte>, needle: seq<Byte>, k: nat)
    requires 1 <= k < |needle| <= |content| <= CHUNK_SIZE && Occurs(content, needle, 0)
    ensures ValidReads(content, 0, [|content|]) && k !in ScanStarts(content, needle, 0, [|content|])
  {
    var n, sizes := |needle|, [|content|];
    assert sizes[1..] == [] && ValidReads(content, |content|, []);
    assert Window(content, 0, |content|) == content;
    assert ScanStarts(content, needle, |content|, []) == [];
    LateHit(content, needle, 0, 0, 0);
    LateFrom(content, needle, n, k);
    Assoc([0] + WindowReports(content, needle, 0, 0, n), [], []);
  }

  /** A needle that overlaps itself: the overlapped occurrence is missed, even in one read. */
  lemma BorderedIsMissed(needle: seq<Byte>, k: nat)
    requires 1 <= k < |needle| <= CHUNK_OVERLAP + 1 && IsBorder(needle, k) && Ascii(needle)
    ensures !ScansExactly(needle)
  {
    var content := needle + needle[|needle| - k..];
    OccursTwice(needle, k, content);
    SecondIsMissed(content, needle, k);
    BetweenHas(content, needle, 0, |content|, k);
    assert ScanStarts(content, needle, 0, [|content|]) != Occurrences(content, needle);
  }

  lemma NotInFront(p: nat, front: seq<nat>, rest: seq<nat>)
    requires p !in front && p !in rest
    ensures p !in front + rest
  {
  }

  lemma {:induction false} LateFrom(s: seq<Byte>, needle: seq<Byte>, from: nat, p: nat)
    requires needle != [] && p < from
    ensures p !in WindowReports(s, needle, 0, 0, from)
    decreases |s| - from
  {
    if from + |needle| > |s| {
      LateEnd(s, needle, 0, 0, from);
    } else if Occurs(s, needle, from) {
      LateFrom(s, needle, from + |needle|, p);
      LateHit(s, needle, 0, 0, from);
      NotInFront(p, [from], WindowReports(s, needle, 0, 0, from + |needle|));
    } else {
      LateFrom(s, needle, from + 1, p);
      LateMiss(s, needle, 0, 0, from);
    }
  }

  function Ones(n: nat): seq<nat> {
    if n == 0 then [] else [1] + Ones(n - 1)
  }

  /** A needle that does not fit: read byte by byte, it is in no window. */
  lemma {:induction false} LongIsMissed(needle: seq<Byte>, total: nat)
    requires |needle| > CHUNK_OVERLAP + 1 && total <= |needle|
    ensures ValidReads(needle, total, Ones(|needle| - total))
    ensures ScanStarts(needle, needle, total, Ones(|needle| - total)) == []
    decreases |needle| - total
  {
    if total < |needle| {
      var sizes := Ones(|needle| - total);
      assert sizes[1..] == Ones(|needle| - (total + 1));
      LongIsMissed(needle, total + 1);
    }
  }

  /** What occurs in an ASCII body is ASCII. */
  lemma OccursInAscii(content: seq<Byte>, needle: seq<Byte>, p: nat)
    requires Ascii(content) && Occurs(content, needle, p)
    ensures Ascii(needle)
  {
    forall i | 0 <= i < |needle| ensures needle[i] < 0x80 {
      assert needle[i] == content[p + i];
    }
  }

  lemma {:induction false} NothingInAscii(content: seq<Byte>, needle: seq<Byte>, sizes: seq<nat>)
    requires needle != [] && Ascii(content) && !Ascii(needle) && ValidReads(content, 0, sizes)
    ensures ScanStarts(content, needle, 0, sizes) == [] == Occurrences(content, needle)
    ensures Greedy(content, needle, 0) == []
  {
    ScanLocated(content, needle, 0, sizes);
    forall p: nat ensures !Occurs(content, needle, p) {
      if Occurs(content, needle, p) {
        OccursInAscii(content, needle, p);
      }
    }
    BetweenSkips(content, needle, 0, |content|, |content|);
    GreedySkips(content, needle, 0, |content|);
  }

  /** The scan is exact for a needle if and only if the needle is scannable, or in no ASCII body at all. */
  lemma ScanIsExactIff(needle: seq<Byte>)
    requires needle != []
    ensures ScansExactly(needle) <==> Scannable(needle) || !Ascii(needle)
  {
    if !Ascii(needle) {
      forall content: seq<Byte>, sizes: seq<nat> | Ascii(content) && ValidReads(content, 0, sizes)
        ensures ScanStarts(content, needle, 0, sizes) == Occurrences(content, needle)
      {
        NothingInAscii(content, needle, sizes);
      }
    } else if |needle| > CHUNK_OVERLAP + 1 {
      LongIsMissed(needle, 0);
      BetweenHas(needle, needle, 0, |needle|, 0);
      assert Occurs(needle, needle, 0);
      assert 0 in Occurrences(needle, needle);
      assert ScanStarts(needle, needle, 0, Ones(|needle|)) != Occurrences(needle, needle);
    } else if !Unbordered(needle) {
      var k :| 1 <= k < |needle| && IsBorder(needle, k);
      BorderedIsMissed(needle, k);
    } else {
      forall content: seq<Byte>, sizes: seq<nat> | Ascii(content) && ValidReads(content, 0, sizes)
        ensures ScanStarts(content, needle, 0, sizes) == Occurrences(content, needle)
      {
        ScannableIsExact(content, needle, sizes);
      }
    }
  }
}
