/** Unicode scalar values, UTF-8 (RFC 3629 section 3) and UTF-16 (RFC 2781 section 2), with the
    lenient decoders of the streaming JSON reader. Shifts and masks are written as division and
    remainder by powers of two. */
module Unicode {
  import opened Bytes

  type Scalar = c: int | (0 <= c < 0xD800) || (0xE000 <= c < 0x11_0000)

  type CodeUnit = u: int | 0 <= u < 0x1_0000

  const REPLACEMENT: Scalar := 0xFFFD

  predicate IsScalar(c: int) {
    (0 <= c < 0xD800) || (0xE000 <= c < 0x11_0000)
  }

  /** `char::from_u32(c).unwrap_or(REPLACEMENT_CHARACTER)` */
  function FromU32(c: int): Scalar {
    if IsScalar(c) then c else REPLACEMENT
  }

  // ----- UTF-8

  function Utf8Char(c: Scalar): (bs: seq<Byte>)
    ensures 1 <= |bs| <= 4
  {
    if c < 0x80 then [c]
    else
      var n: int := c;
      if n < 0x800 then [0xC0 + n / 64, 0x80 + n % 64]
      else if n < 0x1_0000 then [0xE0 + n / 4096, 0x80 + n / 64 % 64, 0x80 + n % 64]
      else [0xF0 + n / 26_2144, 0x80 + n / 4096 % 64, 0x80 + n / 64 % 64, 0x80 + n % 64]
  }

  function Utf8(cs: seq<Scalar>): seq<Byte> {
    if cs == [] then [] else Utf8Char(cs[0]) + Utf8(cs[1..])
  }

  /** How many more bytes `read_char_with` reads after the lead byte: none for ASCII and for a
      byte that cannot lead a character. */
  function Continuations(lead: Byte): (k: nat)
    ensures k <= 3
  {
    if lead < 0x80 then 0
    else if lead / 32 == 6 then 1
    else if lead / 16 == 14 then 2
    else if lead / 8 == 30 then 3
    else 0
  }

  /** The low six bits of a continuation byte. */
  function Low6(b: Byte): (r: int)
    ensures 0 <= r < 64
  {
    b % 64
  }

  /** The value `read_char_with` gives to a lead byte and its continuation bytes. The
      continuation bytes are not checked; only their low six bits count. */
  function DecodeChar(bs: seq<Byte>): Scalar {
    if bs == [] || |bs| != 1 + Continuations(bs[0]) then REPLACEMENT else
    var lead: int := bs[0];
    if lead < 0x80 then lead
    else if |bs| == 2 then FromU32(lead % 32 * 64 + Low6(bs[1]))
    else if |bs| == 3 then FromU32(lead % 16 * 4096 + Low6(bs[1]) * 64 + Low6(bs[2]))
    else if |bs| == 4 then
      FromU32(lead % 8 * 26_2144 + Low6(bs[1]) * 4096 + Low6(bs[2]) * 64 + Low6(bs[3]))
    else REPLACEMENT
  }

  /** The lenient decoder inverts UTF-8. */
  lemma DecodeCharInvertsUtf8(c: Scalar)
    ensures |Utf8Char(c)| == 1 + Continuations(Utf8Char(c)[0])
    ensures DecodeChar(Utf8Char(c)) == c
  {
    var n: int := c;
    if 0x80 <= c < 0x800 {
      Digits64(n);
      assert Utf8Char(c) == [0xC0 + n / 64, 0x80 + n % 64];
    } else if 0x800 <= c < 0x1_0000 {
      Digits64(n);
      Digits64(n / 64);
      assert n / 4096 == n / 64 / 64;
      assert Utf8Char(c) == [0xE0 + n / 4096, 0x80 + n / 64 % 64, 0x80 + n % 64];
    } else if 0x1_0000 <= c {
      Digits64(n);
      Digits64(n / 64);
      Digits64(n / 4096);
      assert n / 4096 == n / 64 / 64 && n / 26_2144 == n / 4096 / 64;
      assert Utf8Char(c) ==
        [0xF0 + n / 26_2144, 0x80 + n / 4096 % 64, 0x80 + n / 64 % 64, 0x80 + n % 64];
    }
  }

  lemma Digits64(n: nat)
    ensures n == n / 64 * 64 + n % 64
    ensures (0x80 + n % 64) % 64 == n % 64
  {
  }

  /** The lead bytes of section 3 of RFC 3629, and the bytes that cannot lead. */
  lemma LeadIs(lead: Byte)
    ensures Continuations(lead) == 1 <==> 0xC0 <= lead <= 0xDF
    ensures Continuations(lead) == 2 <==> 0xE0 <= lead <= 0xEF
    ensures Continuations(lead) == 3 <==> 0xF0 <= lead <= 0xF7
    ensures Continuations(lead) == 0 <==> lead < 0xC0 || 0xF8 <= lead
  {
  }

  /** The bits of a lead byte that belong to the character. */
  function LeadBits(lead: Byte): (r: nat) {
    match Continuations(lead)
    case 0 => lead
    case 1 => lead % 32
    case 2 => lead % 16
    case _ => lead % 8
  }

  /** The bits of a lead byte and `n` bytes after it, in order. */
  function Bits(bs: seq<Byte>, n: nat): (r: nat)
    requires n < |bs|
  {
    if n == 0 then LeadBits(bs[0]) else Bits(bs, n - 1) * 64 + bs[n] % 64
  }

  /** Malformed UTF-8 is decoded leniently: whatever the bytes after a lead byte are, their low six bits count,
      overlong forms included. Only bits that are no scalar, and a byte that cannot lead, are replaced. */
  lemma {:induction false} DecodeCharIsBits(bs: seq<Byte>)
    requires bs != [] && |bs| == 1 + Continuations(bs[0])
    ensures DecodeChar(bs)
         == if (|bs| == 1 && bs[0] >= 0x80) || !IsScalar(Bits(bs, |bs| - 1)) then REPLACEMENT else Bits(bs, |bs| - 1)
  {
    if |bs| == 3 {
      assert Bits(bs, 2) == Bits(bs, 1) * 64 + bs[2] % 64;
    } else if |bs| == 4 {
      assert Bits(bs, 3) == Bits(bs, 2) * 64 + bs[3] % 64;
      assert Bits(bs, 2) == Bits(bs, 1) * 64 + bs[2] % 64;
    }
  }

  function AsciiText(s: seq<Byte>): seq<Scalar> {
    if s == [] then [] else [if s[0] < 0x80 then s[0] else REPLACEMENT] + AsciiText(s[1..])
  }

  lemma {:induction false} AsciiIsUtf8(s: seq<Byte>)
    requires Ascii(s)
    ensures Utf8(AsciiText(s)) == s
  {
    if s != [] {
      AsciiIsUtf8(s[1..]);
      assert AsciiText(s)[1..] == AsciiText(s[1..]);
      Uncons(s);
    }
  }

  // ----- UTF-16

  predicate IsHigh(u: CodeUnit) { 0xD800 <= u < 0xDC00 }

  predicate IsLow(u: CodeUnit) { 0xDC00 <= u < 0xE000 }

  function Utf16Char(c: Scalar): (us: seq<CodeUnit>)
    ensures 1 <= |us| <= 2
  {
    if c < 0x1_0000 then [c]
    else [0xD800 + (c - 0x1_0000) / 0x400, 0xDC00 + (c - 0x1_0000) % 0x400]
  }

  function Utf16(cs: seq<Scalar>): seq<CodeUnit> {
    if cs == [] then [] else Utf16Char(cs[0]) + Utf16(cs[1..])
  }

  /** `char::decode_utf16(us).map(|r| r.unwrap_or(REPLACEMENT_CHARACTER))`: each unpaired
      surrogate becomes one replacement character. */
  function DecodeUtf16(us: seq<CodeUnit>): seq<Scalar> {
    if us == [] then []
    else if !IsHigh(us[0]) && !IsLow(us[0]) then [us[0]] + DecodeUtf16(us[1..])
    else if IsHigh(us[0]) && |us| >= 2 && IsLow(us[1]) then
      [0x1_0000 + (us[0] - 0xD800) * 0x400 + (us[1] - 0xDC00)] + DecodeUtf16(us[2..])
    else [REPLACEMENT] + DecodeUtf16(us[1..])
  }

  /** A well-formed prefix is decoded on its own, whatever follows it. */
  lemma {:induction false} DecodeUtf16Prefix(cs: seq<Scalar>, us: seq<CodeUnit>)
    ensures DecodeUtf16(Utf16(cs) + us) == cs + DecodeUtf16(us)
  {
    if cs == [] {
      assert Utf16(cs) + us == us;
    } else {
      Assoc(Utf16Char(cs[0]), Utf16(cs[1..]), us);
      DecodeUtf16Prefix(cs[1..], us);
      DecodeUtf16Head(cs[0], Utf16(cs[1..]) + us);
      Uncons(cs);
      Assoc([cs[0]], cs[1..], DecodeUtf16(us));
    }
  }

  /** A surrogate without its partner becomes one replacement character, and what follows it is decoded as if
      it were not there. */
  lemma {:induction false} LoneSurrogate(cs: seq<Scalar>, u: CodeUnit, us: seq<CodeUnit>)
    requires IsLow(u) || (IsHigh(u) && (us == [] || !IsLow(us[0])))
    ensures DecodeUtf16(Utf16(cs) + ([u] + us)) == cs + ([REPLACEMENT] + DecodeUtf16(us))
  {
    DecodeUtf16Prefix(cs, [u] + us);
    assert ([u] + us)[1..] == us;
    assert us != [] ==> ([u] + us)[1] == us[0];
  }

  lemma {:induction false} DecodeUtf16Head(c: Scalar, us: seq<CodeUnit>)
    ensures DecodeUtf16(Utf16Char(c) + us) == [c] + DecodeUtf16(us)
  {
    var h := Utf16Char(c);
    assert (h + us)[|h|..] == us;
    assert (h + us)[0] == h[0];
    if |h| == 2 {
      assert (h + us)[1] == h[1];
    }
  }

  lemma {:induction false} Utf16Snoc(cs: seq<Scalar>, c: Scalar)
    ensures Utf16(cs + [c]) == Utf16(cs) + Utf16Char(c)
  {
    if cs == [] {
      assert cs + [c] == [c];
    } else {
      assert (cs + [c])[1..] == cs[1..] + [c];
      Utf16Snoc(cs[1..], c);
    }
  }

  lemma {:induction false} Utf8Append(a: seq<Scalar>, b: seq<Scalar>)
    ensures Utf8(a + b) == Utf8(a) + Utf8(b)
  {
    if a == [] {
      assert a + b == b;
    } else {
      assert (a + b)[1..] == a[1..] + b;
      Utf8Append(a[1..], b);
    }
  }
}
