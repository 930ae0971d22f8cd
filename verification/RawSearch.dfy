/** The search for raw needles: greedy, from left to right, without overlaps, stepping from
    character to character. */
module RawSearch {
  import opened Bytes
  import opened Unicode

  predicate Occurs(s: seq<Byte>, needle: seq<Byte>, p: nat) {
    p + |needle| <= |s| && forall i :: 0 <= i < |needle| ==> needle[i] == s[p + i]
  }

  /** The greedy choice, from left to right, among the occurrences from `from` on. */
  function Greedy(s: seq<Byte>, needle: seq<Byte>, from: nat): seq<nat>
    requires needle != []
    decreases |s| - from
  {
    if from + |needle| > |s| then []
    else if Occurs(s, needle, from) then [from] + Greedy(s, needle, from + |needle|)
    else Greedy(s, needle, from + 1)
  }

  /** Position `p` lies in one of the occurrences that start at `starts`. */
  predicate Covers(starts: seq<nat>, n: nat, p: nat) {
    if starts == [] then false else starts[0] <= p < starts[0] + n || Covers(starts[1..], n, p)
  }

  /** What makes a choice leftmost-greedy: only occurrences are chosen, they do not overlap, and
      every occurrence starts inside a chosen one. */
  ghost predicate IsGreedyChoice(s: seq<Byte>, needle: seq<Byte>, starts: seq<nat>) {
    && Separate(s, needle, starts, 0)
    && forall p: nat :: Occurs(s, needle, p) ==> Covers(starts, |needle|, p)
  }

  predicate Separate(s: seq<Byte>, needle: seq<Byte>, starts: seq<nat>, from: nat) {
    starts == [] ||
    (from <= starts[0] && Occurs(s, needle, starts[0]) && Separate(s, needle, starts[1..], starts[0] + |needle|))
  }

  lemma Cons(x: nat, starts: seq<nat>)
    ensures ([x] + starts)[0] == x && ([x] + starts)[1..] == starts
  {
  }

  lemma {:induction false} GreedyIsSeparate(s: seq<Byte>, needle: seq<Byte>, from: nat, bound: nat)
    requires needle != [] && bound <= from
    ensures Separate(s, needle, Greedy(s, needle, from), bound)
    decreases |s| - from
  {
    if from + |needle| <= |s| {
      if Occurs(s, needle, from) {
        GreedyIsSeparate(s, needle, from + |needle|, from + |needle|);
        Cons(from, Greedy(s, needle, from + |needle|));
      } else {
        GreedyIsSeparate(s, needle, from + 1, bound);
      }
    }
  }

  lemma GreedyAt(s: seq<Byte>, needle: seq<Byte>, at: nat)
    requires needle != [] && Occurs(s, needle, at)
    ensures Greedy(s, needle, at) == [at] + Greedy(s, needle, at + |needle|)
  {
  }

  lemma {:induction false} CoversCons(x: nat, starts: seq<nat>, n: nat, p: nat)
    ensures Covers([x] + starts, n, p) <==> x <= p < x + n || Covers(starts, n, p)
  {
    Cons(x, starts);
  }

  lemma {:induction false} GreedyCovers(s: seq<Byte>, needle: seq<Byte>, from: nat, p: nat)
    requires needle != [] && from <= p && Occurs(s, needle, p)
    ensures Covers(Greedy(s, needle, from), |needle|, p)
    decreases |s| - from
  {
    if Occurs(s, needle, from) {
      var rest := Greedy(s, needle, from + |needle|);
      GreedyAt(s, needle, from);
      CoversCons(from, rest, |needle|, p);
      if from + |needle| <= p {
        GreedyCovers(s, needle, from + |needle|, p);
      }
    } else {
      GreedyCovers(s, needle, from + 1, p);
    }
  }

  lemma {:induction false} CoversFrom(s: seq<Byte>, needle: seq<Byte>, starts: seq<nat>, from: nat, p: nat)
    requires Separate(s, needle, starts, from) && Covers(starts, |needle|, p)
    ensures from <= p
  {
    if !(starts[0] <= p < starts[0] + |needle|) {
      CoversFrom(s, needle, starts[1..], starts[0] + |needle|, p);
    }
  }

  /** There is only one leftmost-greedy choice. */
  lemma {:induction false} GreedyChoiceIsUnique(s: seq<Byte>, needle: seq<Byte>, a: seq<nat>, b: seq<nat>, from: nat)
    requires needle != [] && Separate(s, needle, a, from) && Separate(s, needle, b, from)
    requires forall p: nat :: from <= p && Occurs(s, needle, p) ==> Covers(a, |needle|, p) && Covers(b, |needle|, p)
    ensures a == b
    decreases |a|
  {
    if a != [] && b != [] {
      CoversFrom(s, needle, a, a[0], b[0]);
      CoversFrom(s, needle, b, b[0], a[0]);
      GreedyChoiceIsUnique(s, needle, a[1..], b[1..], a[0] + |needle|);
    }
  }

  /** The greedy choice, and nothing else, is leftmost-greedy. */
  lemma {:induction false} GreedyIsTheChoice(s: seq<Byte>, needle: seq<Byte>, starts: seq<nat>)
    requires needle != []
    ensures IsGreedyChoice(s, needle, starts) <==> starts == Greedy(s, needle, 0)
  {
    var g := Greedy(s, needle, 0);
    GreedyIsSeparate(s, needle, 0, 0);
    forall p: nat | Occurs(s, needle, p) ensures Covers(g, |needle|, p) {
      GreedyCovers(s, needle, 0, p);
    }
    if IsGreedyChoice(s, needle, starts) {
      GreedyChoiceIsUnique(s, needle, starts, g, 0);
    }
  }

  /** Positions at which the needle does not occur can be skipped. */
  lemma {:induction false} GreedySkips(s: seq<Byte>, needle: seq<Byte>, from: nat, to: nat)
    requires needle != [] && from <= to
    requires forall p: nat :: from <= p < to ==> !Occurs(s, needle, p)
    ensures Greedy(s, needle, from) == Greedy(s, needle, to)
    decreases (to as int) - (from as int)
  {
    if from < to {
      assert !Occurs(s, needle, from);
      GreedySkips(s, needle, from + 1, to);
    }
  }

  // ----- UTF-8 is self-synchronising

  predicate IsContinuation(b: Byte) { 0x80 <= b < 0xC0 }

  /** The byte offset of character `k`. */
  function Offset(cs: seq<Scalar>, k: nat): nat
    requires k <= |cs|
  {
    |Utf8(cs[..k])|
  }

  lemma OffsetNext(cs: seq<Scalar>, k: nat)
    requires k < |cs|
    ensures Utf8(cs[..k + 1]) == Utf8(cs[..k]) + Utf8Char(cs[k])
  {
    assert cs[..k + 1] == cs[..k] + [cs[k]];
    Utf8Append(cs[..k], [cs[k]]);
    Assoc(Utf8Char(cs[k]), [], []);
    assert [cs[k]][1..] == [];
  }

  lemma {:induction false} Utf8Parts(cs: seq<Scalar>, k: nat)
    requires k < |cs|
    ensures Utf8(cs) == Utf8(cs[..k]) + (Utf8Char(cs[k]) + Utf8(cs[k + 1..]))
  {
    assert cs == cs[..k] + cs[k..];
    Utf8Append(cs[..k], cs[k..]);
    assert cs[k..][1..] == cs[k + 1..];
  }

  lemma {:induction false} Utf8Split(cs: seq<Scalar>, k: nat)
    requires k < |cs|
    ensures Offset(cs, k + 1) == Offset(cs, k) + |Utf8Char(cs[k])| <= |Utf8(cs)|
    ensures Utf8(cs)[Offset(cs, k)..Offset(cs, k + 1)] == Utf8Char(cs[k])
  {
    OffsetNext(cs, k);
    Utf8Parts(cs, k);
    Middle(Utf8(cs), Utf8(cs[..k + 1]), Utf8(cs[..k]), Utf8Char(cs[k]), Utf8(cs[k + 1..]));
  }

  lemma {:induction false} NextOffset(cs: seq<Scalar>, k: nat)
    requires k < |cs|
    ensures Offset(cs, k + 1) == Offset(cs, k) + |Utf8Char(cs[k])| <= |Utf8(cs)|
  {
    Utf8Split(cs, k);
  }

  lemma LeadAndContinuations(c: Scalar)
    ensures !IsContinuation(Utf8Char(c)[0])
    ensures forall j :: 1 <= j < |Utf8Char(c)| ==> IsContinuation(Utf8Char(c)[j])
  {
  }

  /** A byte of character `k`. */
  lemma {:induction false} ByteOfCharacter(cs: seq<Scalar>, k: nat, j: nat)
    requires k < |cs| && j < |Utf8Char(cs[k])|
    ensures Offset(cs, k) + j < |Utf8(cs)| && Utf8(cs)[Offset(cs, k) + j] == Utf8Char(cs[k])[j]
  {
    Utf8Split(cs, k);
    assert Utf8(cs)[Offset(cs, k)..Offset(cs, k + 1)][j] == Utf8(cs)[Offset(cs, k) + j];
  }

  /** A string starts with a byte that continues no character. */
  lemma {:induction false} FirstByte(raw: seq<Scalar>)
    requires raw != []
    ensures Utf8(raw) != [] && !IsContinuation(Utf8(raw)[0])
  {
    LeadAndContinuations(raw[0]);
    assert Utf8(raw)[0] == Utf8Char(raw[0])[0];
  }

  /** After its first byte, a character has only continuations. */
  lemma {:induction false} ContinuationAt(cs: seq<Scalar>, k: nat, p: nat)
    requires k < |cs| && Offset(cs, k) < p < Offset(cs, k + 1)
    ensures p < |Utf8(cs)| && IsContinuation(Utf8(cs)[p])
  {
    NextOffset(cs, k);
    ByteOfCharacter(cs, k, p - Offset(cs, k));
    LeadAndContinuations(cs[k]);
  }

  lemma FirstOfOccurrence(s: seq<Byte>, needle: seq<Byte>, p: nat)
    requires needle != [] && Occurs(s, needle, p)
    ensures p < |s| && s[p] == needle[0]
  {
    assert needle[0] == s[p + 0];
  }

  /** An occurrence of a non-empty string starts at the start of a character. */
  lemma {:induction false} OccursAtCharacter(cs: seq<Scalar>, raw: seq<Scalar>, k: nat, p: nat)
    requires raw != [] && k < |cs| && Occurs(Utf8(cs), Utf8(raw), p)
    requires Offset(cs, k) <= p < Offset(cs, k + 1)
    ensures p == Offset(cs, k)
  {
    if Offset(cs, k) < p {
      ContinuationAt(cs, k, p);
      FirstByte(raw);
      FirstOfOccurrence(Utf8(cs), Utf8(raw), p);
    }
  }

  // ----- The search

  /** What a search of the string from byte `from` on is to find. */
  function Found(source: seq<Scalar>, raw: seq<Scalar>, from: nat): seq<nat>
    requires Utf8(raw) != []
  {
    Greedy(Utf8(source), Utf8(raw), from)
  }

  /** After its first byte, a character holds no occurrence. */
  lemma {:induction false} PassCharacter(source: seq<Scalar>, raw: seq<Scalar>, k: nat, from: nat)
    requires raw != [] && k < |source| && Utf8(raw) != []
    requires Offset(source, k) < from <= Offset(source, k + 1) ||
      (Offset(source, k) == from && !Occurs(Utf8(source), Utf8(raw), from))
    ensures from <= Offset(source, k + 1)
    ensures Found(source, raw, from) == Found(source, raw, Offset(source, k + 1))
  {
    Utf8Split(source, k);
    forall p: nat | from <= p < Offset(source, k + 1) ensures !Occurs(Utf8(source), Utf8(raw), p) {
      if Occurs(Utf8(source), Utf8(raw), p) {
        OccursAtCharacter(source, raw, k, p);
      }
    }
    GreedySkips(Utf8(source), Utf8(raw), from, Offset(source, k + 1));
  }

  /** The test of the search: last byte first, then the whole needle. */
  method TestOccurrence(s: seq<Byte>, needle: seq<Byte>, at: nat) returns (hit: bool)
    requires needle != [] && at + |needle| <= |s|
    ensures hit <==> Occurs(s, needle, at)
  {
    hit := s[at + |needle| - 1] == needle[|needle| - 1] && needle <= s[at..];
    if Occurs(s, needle, at) {
      assert needle == s[at..][..|needle|];
    }
  }

  /** No occurrence starts where the needle does not fit. */
  lemma {:induction false} NothingFits(source: seq<Scalar>, raw: seq<Scalar>, at: nat, starts: seq<nat>)
    requires Utf8(raw) != [] && at + |Utf8(raw)| > |Utf8(source)|
    ensures starts + Found(source, raw, at) == starts
  {
  }

  lemma {:induction false} OffsetOfEnd(cs: seq<Scalar>)
    ensures Offset(cs, 0) == 0 && Offset(cs, |cs|) == |Utf8(cs)|
  {
    assert cs[..|cs|] == cs;
  }

  /** The raw part of `evaluate`, for one needle. */
  method FindRaw(source: seq<Scalar>, raw: seq<Scalar>) returns (starts: seq<nat>)
    requires raw != []
    ensures Utf8(raw) != [] && starts == Greedy(Utf8(source), Utf8(raw), 0)
    ensures IsGreedyChoice(Utf8(source), Utf8(raw), starts)
  {
    assert Utf8Char(raw[0]) <= Utf8(raw);
    starts := SearchLoop(source, raw);
    GreedyIsTheChoice(Utf8(source), Utf8(raw), starts);
  }

  method SearchLoop(source: seq<Scalar>, raw: seq<Scalar>) returns (starts: seq<nat>)
    requires raw != [] && Utf8(raw) != []
    ensures starts == Greedy(Utf8(source), Utf8(raw), 0)
  {
    starts := [];
    var n := |Utf8(raw)|;
    if n > |Utf8(source)| {
      return;
    }
    var k, i := 0, 0;
    ghost var result := Found(source, raw, 0);
    OffsetOfEnd(source);
    Assoc([], result, []);
    while k < |source|
      invariant k <= |source| && i == Offset(source, k)
      invariant result == starts + Found(source, raw, i)
      decreases |source| - k
    {
      if i > |Utf8(source)| - n {
        NothingFits(source, raw, i, starts);
        return;
      }
      var hit: seq<nat>;
      hit, i, k := SearchStep(source, raw, i, k);
      Assoc(starts, hit, Found(source, raw, i));
      starts := starts + hit;
    }
    NothingFits(source, raw, i, starts);
  }

  /** One round of the loop: past the character at `at`, or past the occurrence there. */
  method SearchStep(source: seq<Scalar>, raw: seq<Scalar>, at: nat, k: nat) returns (hit: seq<nat>, i': nat, k': nat)
    requires raw != [] && Utf8(raw) != [] && k < |source| && at == Offset(source, k)
    requires at + |Utf8(raw)| <= |Utf8(source)|
    ensures k < k' <= |source| && i' == Offset(source, k')
    ensures Found(source, raw, at) == hit + Found(source, raw, i')
  {
    var bytes, needle := Utf8(source), Utf8(raw);
    NextOffset(source, k);
    i', k' := at + |Utf8Char(source[k])|, k + 1;
    var occurs := TestOccurrence(bytes, needle, at);
    if occurs {
      FoundAt(source, raw, at);
      hit := [at];
      i', k' := SkipTo(source, raw, at + |needle|, i', k');
    } else {
      hit := [];
      PassCharacter(source, raw, k, at);
      Assoc([], [], Found(source, raw, i'));
    }
  }

  lemma {:induction false} FoundAt(source: seq<Scalar>, raw: seq<Scalar>, at: nat)
    requires Utf8(raw) != [] && Occurs(Utf8(source), Utf8(raw), at)
    ensures Found(source, raw, at) == [at] + Found(source, raw, at + |Utf8(raw)|)
  {
    GreedyAt(Utf8(source), Utf8(raw), at);
  }

  /** The inner loop: on to the first character at or after `target`. */
  method SkipTo(source: seq<Scalar>, raw: seq<Scalar>, target: nat, i: nat, k: nat) returns (i': nat, k': nat)
    requires raw != [] && Utf8(raw) != [] && 0 < k <= |source| && i == Offset(source, k)
    requires Offset(source, k - 1) < target <= |Utf8(source)|
    ensures k <= k' <= |source| && i' == Offset(source, k')
    ensures Found(source, raw, target) == Found(source, raw, i')
  {
    i', k' := i, k;
    while k' < |source| && i' < target
      invariant k <= k' <= |source| && i' == Offset(source, k') && Offset(source, k' - 1) < target
    {
      NextOffset(source, k');
      i', k' := i' + |Utf8Char(source[k'])|, k' + 1;
    }
    assert source[..|source|] == source;
    PassCharacter(source, raw, k' - 1, target);
  }
}
