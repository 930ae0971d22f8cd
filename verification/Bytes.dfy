/** Bytes, byte sequences and the small collection facts every other module leans on. */
module Bytes {

  type Byte = b: int | 0 <= b < 256

  datatype Option<+T> = None | Some(value: T)

  function Min(a: int, b: int): int { if a <= b then a else b }

  function Max(a: int, b: int): int { if a <= b then b else a }

  /** The contents of a list of buffers, in order. */
  function Concat<T>(segments: seq<seq<T>>): seq<T> {
    if segments == [] then [] else segments[0] + Concat(segments[1..])
  }

  lemma Assoc<T>(a: seq<T>, b: seq<T>, c: seq<T>)
    ensures a + b + c == a + (b + c) && a + [] == a && [] + c == c
  {
  }

  /** Indices below `bound`, in order. */
  predicate Increasing(indices: seq<nat>, bound: nat) {
    && (forall j, k :: 0 <= j < k < |indices| ==> indices[j] < indices[k])
    && (forall k :: 0 <= k < |indices| ==> indices[k] < bound)
  }

  lemma IncreasingNext(indices: seq<nat>, bound: nat)
    requires Increasing(indices, bound)
    ensures Increasing(indices, bound + 1) && Increasing(indices + [bound], bound + 1)
  {
  }

  predicate Ascii(s: seq<Byte>) {
    forall i :: 0 <= i < |s| ==> s[i] < 0x80
  }

  lemma Uncons<T>(s: seq<T>)
    requires s != []
    ensures s == [s[0]] + s[1..]
  {
  }

  lemma UpToNext<T>(s: seq<T>, n: nat)
    requires n < |s|
    ensures s[..n + 1] == s[..n] + [s[n]]
  {
  }

  lemma DropOne<T>(s: seq<T>, n: nat)
    requires n < |s|
    ensures s[n..][1..] == s[n + 1..]
  {
  }

  lemma SliceOfSlice<T>(s: seq<T>, a: nat, b: nat, c: nat, d: nat)
    requires a <= b <= |s| && c <= d <= b - a
    ensures s[a..b][c..d] == s[a + c..a + d]
  {
    assert |s[a..b][c..d]| == |s[a + c..a + d]|;
    forall i | 0 <= i < d - c ensures s[a..b][c..d][i] == s[a + c..a + d][i] {
      assert s[a..b][c..d][i] == s[a..b][c + i] == s[a + (c + i)];
    }
  }

  lemma {:induction false} ConcatAppend<T>(a: seq<seq<T>>, b: seq<seq<T>>)
    ensures Concat(a + b) == Concat(a) + Concat(b)
  {
    if a == [] {
      assert a + b == b;
    } else {
      ConcatAppend(a[1..], b);
      assert (a + b)[1..] == a[1..] + b;
      Assoc(a[0], Concat(a[1..]), Concat(b));
    }
  }

  lemma {:induction false} ConcatSnoc<T>(s: seq<seq<T>>, x: seq<T>)
    ensures Concat(s + [x]) == Concat(s) + x
  {
    if s == [] {
      assert s + [x] == [x];
      assert Concat([x]) == x + [];
    } else {
      ConcatSnoc(s[1..], x);
      assert (s + [x])[1..] == s[1..] + [x];
      Assoc(s[0], Concat(s[1..]), x);
    }
  }

  lemma ConcatFrom<T>(s: seq<seq<T>>, i: nat)
    requires i < |s|
    ensures Concat(s[i..]) == s[i] + Concat(s[i + 1..])
  {
    assert s[i..][1..] == s[i + 1..];
  }

  lemma ConcatUpTo<T>(s: seq<seq<T>>, i: nat)
    requires i < |s|
    ensures Concat(s[..i + 1]) == Concat(s[..i]) + s[i]
  {
    assert s[..i + 1] == s[..i] + [s[i]];
    ConcatSnoc(s[..i], s[i]);
  }

  /** The contents up to, in, and after one buffer. */
  lemma {:induction false} ConcatSplit<T>(s: seq<seq<T>>, i: nat)
    requires i < |s|
    ensures Concat(s) == Concat(s[..i]) + s[i] + Concat(s[i + 1..])
  {
    assert s == s[..i + 1] + s[i + 1..];
    ConcatAppend(s[..i + 1], s[i + 1..]);
    ConcatUpTo(s, i);
  }

  lemma DropFromFirst<T>(a: seq<T>, b: seq<T>, i: nat, n: nat)
    requires i + n <= |a|
    ensures (a[i..] + b)[n..] == a[i + n..] + b
  {
    assert a[i..][n..] == a[i + n..];
  }

  lemma Middle<T>(whole: seq<T>, upTo: seq<T>, head: seq<T>, mid: seq<T>, tail: seq<T>)
    requires whole == head + (mid + tail) && upTo == head + mid
    ensures |upTo| == |head| + |mid| <= |whole| && whole[|head|..|upTo|] == mid
  {
  }
}
