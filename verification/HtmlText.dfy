/** When a window of the HTML scanner is decoded without loss. The lossy decoding itself is an oracle that keeps
    every valid text. */
module HtmlText {
  import opened Bytes
  import opened Unicode
  import opened RawSearch
  import opened ChunkedScan

  ghost predicate IsUtf8(s: seq<Byte>) {
    exists cs :: s == Utf8(cs)
  }

  /** What is known of the lossy decoding: valid UTF-8 is decoded to its text. */
  ghost predicate KeepsUtf8(lossy: seq<Byte> -> seq<Scalar>) {
    forall cs: seq<Scalar> :: lossy(Utf8(cs)) == cs
  }

  /** Every window is decoded to a text that has the window's bytes. */
  ghost predicate Intact(lossy: seq<Byte> -> seq<Scalar>, content: seq<Byte>, total: nat, sizes: seq<nat>)
    requires ValidReads(content, total, sizes)
    decreases |sizes|
  {
    sizes == []
    || (IsKept(lossy, Window(content, total, sizes[0])) && Intact(lossy, content, total + sizes[0], sizes[1..]))
  }

  predicate IsKept(lossy: seq<Byte> -> seq<Scalar>, window: seq<Byte>) {
    Utf8(lossy(window)) == window
  }

  // ----- ASCII bodies, however they are read

  lemma {:induction false} AsciiIsIntact(lossy: seq<Byte> -> seq<Scalar>, content: seq<Byte>, total: nat,
                                         sizes: seq<nat>)
    requires KeepsUtf8(lossy) && Ascii(content) && ValidReads(content, total, sizes)
    ensures Intact(lossy, content, total, sizes)
    decreases |sizes|
  {
    if sizes != [] {
      AsciiIsUtf8(Window(content, total, sizes[0]));
      AsciiIsIntact(lossy, content, total + sizes[0], sizes[1..]);
    }
  }

  // ----- Other bodies

  /** No character of the body has bytes on both sides of `p`. */
  predicate AtCharacter(content: seq<Byte>, p: nat) {
    p < |content| ==> !IsContinuation(content[p])
  }

  /** Neither the first byte of a window nor the byte behind it continues a character. */
  predicate AtCharacters(content: seq<Byte>, total: nat, sizes: seq<nat>)
    requires ValidReads(content, total, sizes)
    decreases |sizes|
  {
    sizes == []
    || (AtCharacter(content, total - Overlap(total)) && AtCharacter(content, total + sizes[0])
        && AtCharacters(content, total + sizes[0], sizes[1..]))
  }

  /** The character that byte `p` belongs to. */
  lemma {:induction false} CharacterOf(cs: seq<Scalar>, p: nat) returns (k: nat)
    requires p < |Utf8(cs)|
    ensures k < |cs| && Offset(cs, k) <= p < Offset(cs, k + 1)
  {
    k := 0;
    OffsetOfEnd(cs);
    while p >= Offset(cs, k + 1)
      invariant k < |cs| && Offset(cs, k) <= p
      decreases |cs| - k
    {
      k := k + 1;
    }
  }

  lemma Boundary(cs: seq<Scalar>, p: nat) returns (k: nat)
    requires p <= |Utf8(cs)| && AtCharacter(Utf8(cs), p)
    ensures k <= |cs| && Offset(cs, k) == p
  {
    if p == |Utf8(cs)| {
      k := |cs|;
      OffsetOfEnd(cs);
    } else {
      k := CharacterOf(cs, p);
      if Offset(cs, k) < p {
        ContinuationAt(cs, k, p);
      }
    }
  }

  lemma {:induction false} BoundaryIs(cs: seq<Scalar>, k: nat, p: nat)
    requires k <= |cs| && p == Offset(cs, k)
    ensures AtCharacter(Utf8(cs), p)
  {
    if k < |cs| {
      ByteOfCharacter(cs, k, 0);
      LeadAndContinuations(cs[k]);
    } else {
      OffsetOfEnd(cs);
    }
  }

  /** The text from one boundary to another. */
  lemma {:induction false} TextBetween(cs: seq<Scalar>, j: nat, k: nat)
    requires j <= k <= |cs|
    ensures Offset(cs, j) <= Offset(cs, k) <= |Utf8(cs)|
    ensures Utf8(cs)[Offset(cs, j)..Offset(cs, k)] == Utf8(cs[j..k])
  {
    var head, middle, tail := cs[..j], cs[j..k], cs[k..];
    assert cs[..k] == head + middle && cs == head + middle + tail;
    Utf8Append(head, middle);
    Utf8Append(head + middle, tail);
  }

  /** A text that starts with the bytes of another starts with its characters. */
  lemma {:induction false} PrefixIsText(cs: seq<Scalar>, x: seq<Scalar>)
    requires Utf8(x) <= Utf8(cs)
    ensures x <= cs
  {
    if x != [] {
      var b, c := Utf8Char(x[0]), Utf8Char(cs[0]);
      assert b[0] == Utf8(x)[0] == Utf8(cs)[0] == c[0];
      DecodeCharInvertsUtf8(x[0]);
      DecodeCharInvertsUtf8(cs[0]);
      assert b == Utf8(x)[..|b|] == Utf8(cs)[..|b|] == c;
      assert Utf8(x)[|b|..] == Utf8(x[1..]) && Utf8(cs)[|b|..] == Utf8(cs[1..]);
      PrefixIsText(cs[1..], x[1..]);
      Uncons(x);
      Uncons(cs);
    }
  }

  /** A part of a valid text is valid exactly when it is cut off at characters. */
  lemma {:induction false} PartIsUtf8Iff(cs: seq<Scalar>, content: seq<Byte>, a: nat, b: nat)
    requires content == Utf8(cs) && a < b <= |content|
    ensures IsUtf8(content[a..b]) <==> AtCharacter(content, a) && AtCharacter(content, b)
  {
    if AtCharacter(content, a) && AtCharacter(content, b) {
      var j := Boundary(cs, a);
      var k := Boundary(cs, b);
      if k < j {
        TextBetween(cs, k, j);
      }
      TextBetween(cs, j, k);
    }
    if x :| content[a..b] == Utf8(x) {
      assert x != [];
      FirstByte(x);
      assert content[a] == Utf8(x)[0];
      var j := Boundary(cs, a);
      EndsAtCharacter(cs, j, content[a..b], x, b);
    }
  }

  lemma {:induction false} TextFrom(cs: seq<Scalar>, j: nat)
    requires j <= |cs|
    ensures Offset(cs, j) <= |Utf8(cs)| && Utf8(cs)[Offset(cs, j)..] == Utf8(cs[j..])
  {
    assert cs == cs[..j] + cs[j..];
    Utf8Append(cs[..j], cs[j..]);
  }

  lemma PrefixAt(cs: seq<Scalar>, j: nat, x: seq<Scalar>)
    requires j <= |cs| && x <= cs[j..]
    ensures j + |x| <= |cs| && cs[j..j + |x|] == x
  {
    assert cs[j..][..|x|] == cs[j..j + |x|];
  }

  lemma PrefixOfRest(s: seq<Byte>, a: nat, b: nat, part: seq<Byte>, rest: seq<Byte>)
    requires a <= b <= |s| && part == s[a..b] && rest == s[a..]
    ensures part <= rest
  {
  }

  lemma {:induction false} TextLength(cs: seq<Scalar>, j: nat, x: seq<Scalar>)
    requires j <= |cs| && x <= cs[j..]
    ensures j + |x| <= |cs| && Offset(cs, j + |x|) == Offset(cs, j) + |Utf8(x)|
  {
    PrefixAt(cs, j, x);
    TextBetween(cs, j, j + |x|);
  }

  /** The boundary behind a text that starts at another. */
  lemma EndOfText(cs: seq<Scalar>, j: nat, part: seq<Byte>, x: seq<Scalar>) returns (k: nat)
    requires j <= |cs| && part <= Utf8(cs[j..]) && part == Utf8(x)
    ensures k <= |cs| && Offset(cs, k) == Offset(cs, j) + |part|
  {
    PrefixIsText(cs[j..], x);
    TextLength(cs, j, x);
    k := j + |x|;
  }

  lemma {:induction false} EndsAtCharacter(cs: seq<Scalar>, j: nat, part: seq<Byte>, x: seq<Scalar>, b: nat)
    requires j <= |cs| && Offset(cs, j) <= b <= |Utf8(cs)|
    requires part == Utf8(cs)[Offset(cs, j)..b] && part == Utf8(x)
    ensures AtCharacter(Utf8(cs), b)
  {
    TextFrom(cs, j);
    PrefixOfRest(Utf8(cs), Offset(cs, j), b, part, Utf8(cs[j..]));
    var k := EndOfText(cs, j, part, x);
    BoundaryIs(cs, k, b);
  }

  lemma KeptIff(lossy: seq<Byte> -> seq<Scalar>, s: seq<Byte>)
    requires KeepsUtf8(lossy)
    ensures IsKept(lossy, s) <==> IsUtf8(s)
  {
    if x :| s == Utf8(x) {
      assert lossy(Utf8(x)) == x;
    }
  }

  /** A valid body is decoded intact exactly when no window is cut inside a character. */
  lemma {:induction false} IntactIff(lossy: seq<Byte> -> seq<Scalar>, cs: seq<Scalar>, content: seq<Byte>, total: nat,
                                     sizes: seq<nat>)
    requires KeepsUtf8(lossy) && content == Utf8(cs) && ValidReads(content, total, sizes)
    ensures Intact(lossy, content, total, sizes) <==> AtCharacters(content, total, sizes)
    decreases |sizes|
  {
    if sizes != [] {
      PartIsUtf8Iff(cs, content, total - Overlap(total), total + sizes[0]);
      KeptIff(lossy, Window(content, total, sizes[0]));
      IntactIff(lossy, cs, content, total + sizes[0], sizes[1..]);
    }
  }
}
