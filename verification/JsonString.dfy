/** JSON strings as the streaming reader decodes them. The bytes between the quotes are a sequence
    of lexical pieces; the text they denote is the concatenation of their characters, except that
    each maximal run of `\u` escapes is decoded as one UTF-16 string. */
module JsonString {
  import opened Bytes
  import opened Unicode

  const QUOTE: Byte := 0x22
  const BACKSLASH: Byte := 0x5C
  const LOWER_U: Byte := 0x75

  // ----- Pieces

  /** One lexical piece of a string body.
      - `Plain`: a lead byte and its continuation bytes
      - `Escape`: a backslash, then a lead byte other than `u` and its continuation bytes
      - `Hex`: `\u` and the four bytes after it, hexadecimal or not */
  datatype Piece = Plain(bs: seq<Byte>) | Escape(bs: seq<Byte>) | Hex(bs: seq<Byte>)

  predicate IsCharacter(bs: seq<Byte>) {
    bs != [] && |bs| == 1 + Continuations(bs[0])
  }

  predicate ValidPiece(p: Piece) {
    match p
    case Plain(bs) => IsCharacter(bs) && bs[0] != QUOTE && bs[0] != BACKSLASH
    case Escape(bs) => IsCharacter(bs) && bs[0] != LOWER_U
    case Hex(bs) => |bs| == 4
  }

  predicate ValidPieces(ps: seq<Piece>) {
    forall i :: 0 <= i < |ps| ==> ValidPiece(ps[i])
  }

  function PieceText(p: Piece): seq<Byte> {
    match p
    case Plain(bs) => bs
    case Escape(bs) => [BACKSLASH] + bs
    case Hex(bs) => [BACKSLASH, LOWER_U] + bs
  }

  function PiecesText(ps: seq<Piece>): seq<Byte> {
    if ps == [] then [] else PieceText(ps[0]) + PiecesText(ps[1..])
  }

  /** The rest of a string after its opening quote, and what follows the string. */
  function StringText(ps: seq<Piece>, tail: seq<Byte>): seq<Byte> {
    PiecesText(ps) + ([QUOTE] + tail)
  }

  // ----- What pieces denote

  function HexDigit(b: Byte): (r: Option<int>)
    ensures r.Some? ==> 0 <= r.value < 16
  {
    if 0x30 <= b <= 0x39 then Some(b - 0x30)
    else if 0x61 <= b <= 0x66 then Some(b - 0x61 + 10)
    else if 0x41 <= b <= 0x46 then Some(b - 0x41 + 10)
    else None
  }

  /** `decode_hex4` */
  function DecodeHex4(bs: seq<Byte>): (r: Option<int>)
    requires |bs| == 4
    ensures r.Some? ==> 0 <= r.value < 0x1_0000
  {
    match (HexDigit(bs[0]), HexDigit(bs[1]), HexDigit(bs[2]), HexDigit(bs[3]))
    case (Some(a), Some(b), Some(c), Some(d)) => Some(a * 4096 + b * 256 + c * 16 + d)
    case _ => None
  }

  /** The byte is the hexadecimal digit of `v`, in either case. */
  predicate IsDigitOf(b: Byte, v: int) {
    (0 <= v < 10 && b == 0x30 + v) || (10 <= v < 16 && (b == 0x41 + (v - 10) || b == 0x61 + (v - 10)))
  }

  lemma DigitIs(b: Byte, v: int)
    ensures HexDigit(b) == Some(v) <==> IsDigitOf(b, v)
  {
  }

  function Number16(a: int, b: int, c: int, d: int): int {
    a * 4096 + b * 256 + c * 16 + d
  }

  predicate AreDigits(a: int, b: int, c: int, d: int) {
    0 <= a < 16 && 0 <= b < 16 && 0 <= c < 16 && 0 <= d < 16
  }

  lemma DigitsAreUnique(a: int, b: int, c: int, d: int, a': int, b': int, c': int, d': int)
    requires AreDigits(a, b, c, d) && AreDigits(a', b', c', d') && Number16(a, b, c, d) == Number16(a', b', c', d')
    ensures a == a' && b == b' && c == c' && d == d'
  {
  }

  /** Four bytes denote a code unit exactly when they are its four hexadecimal digits, of either case. */
  lemma HexIsDigits(bs: seq<Byte>, a: int, b: int, c: int, d: int)
    requires |bs| == 4 && AreDigits(a, b, c, d)
    ensures DecodeHex4(bs) == Some(Number16(a, b, c, d))
       <==> IsDigitOf(bs[0], a) && IsDigitOf(bs[1], b) && IsDigitOf(bs[2], c) && IsDigitOf(bs[3], d)
  {
    DigitIs(bs[0], a);
    DigitIs(bs[1], b);
    DigitIs(bs[2], c);
    DigitIs(bs[3], d);
    if DecodeHex4(bs) == Some(Number16(a, b, c, d)) {
      DigitsAreUnique(HexDigit(bs[0]).value, HexDigit(bs[1]).value, HexDigit(bs[2]).value, HexDigit(bs[3]).value,
        a, b, c, d);
    }
  }

  /** They denote nothing exactly when one of them is no digit. */
  lemma NoHexIff(bs: seq<Byte>)
    requires |bs| == 4
    ensures DecodeHex4(bs).None? <==> exists i :: 0 <= i < 4 && forall v :: !IsDigitOf(bs[i], v)
  {
    forall i | 0 <= i < 4 ensures HexDigit(bs[i]).None? <==> forall v :: !IsDigitOf(bs[i], v) {
      forall v: int ensures HexDigit(bs[i]) == Some(v) <==> IsDigitOf(bs[i], v) {
        DigitIs(bs[i], v);
      }
    }
  }

  /** The code unit of a `\u` escape; four bytes that are not hexadecimal give U+FFFD. */
  function HexUnit(bs: seq<Byte>): CodeUnit {
    if |bs| == 4 && DecodeHex4(bs).Some? then DecodeHex4(bs).value else REPLACEMENT
  }

  /** The character of a one-letter escape. */
  function ShortEscape(b: Byte): Option<Scalar> {
    if b == QUOTE || b == BACKSLASH || b == 0x2F then Some(b)
    else if b == 0x62 then Some(0x08)
    else if b == 0x66 then Some(0x0C)
    else if b == 0x6E then Some(0x0A)
    else if b == 0x72 then Some(0x0D)
    else if b == 0x74 then Some(0x09)
    else None
  }

  /** An unknown escape denotes the character after the backslash. */
  function EscapeValue(bs: seq<Byte>): Scalar {
    if bs != [] && ShortEscape(bs[0]).Some? then ShortEscape(bs[0]).value else DecodeChar(bs)
  }

  /** The text of `ps`, given the code units of the `\u` escapes just before it. */
  function Meaning(pending: seq<CodeUnit>, ps: seq<Piece>): seq<Scalar>
    decreases |ps|
  {
    if ps == [] then DecodeUtf16(pending)
    else if ps[0].Hex? then Meaning(pending + [HexUnit(ps[0].bs)], ps[1..])
    else DecodeUtf16(pending) + [PieceValue(ps[0])] + Meaning([], ps[1..])
  }

  /** The character of a piece that is not a `\u` escape. */
  function PieceValue(p: Piece): Scalar {
    if p.Escape? then EscapeValue(p.bs) else DecodeChar(p.bs)
  }

  function Units(ps: seq<Piece>): seq<CodeUnit> {
    if ps == [] then [] else [HexUnit(ps[0].bs)] + Units(ps[1..])
  }

  lemma {:induction false} HexRun(pending: seq<CodeUnit>, run: seq<Piece>, rest: seq<Piece>)
    requires forall i :: 0 <= i < |run| ==> run[i].Hex?
    ensures Meaning(pending, run + rest) == Meaning(pending + Units(run), rest)
    decreases |run|
  {
    if run == [] {
      assert run + rest == rest && pending + Units(run) == pending;
    } else {
      assert (run + rest)[1..] == run[1..] + rest;
      HexRun(pending + [HexUnit(run[0].bs)], run[1..], rest);
      assert pending + [HexUnit(run[0].bs)] + Units(run[1..]) == pending + Units(run);
    }
  }

  /** Adjacent `\u` escapes are decoded as one UTF-16 run. */
  lemma {:induction false} RunIsOneUtf16String(run: seq<Piece>, rest: seq<Piece>)
    requires forall i :: 0 <= i < |run| ==> run[i].Hex?
    requires rest == [] || !rest[0].Hex?
    ensures Meaning([], run + rest) == DecodeUtf16(Units(run)) + Meaning([], rest)
  {
    HexRun([], run, rest);
    assert [] + Units(run) == Units(run);
    MeaningFlushes(Units(run), rest);
  }

  lemma {:induction false} MeaningStep(pending: seq<CodeUnit>, ps: seq<Piece>, value: Scalar, rest: seq<Scalar>)
    requires ps != [] && !ps[0].Hex? && value == PieceValue(ps[0]) && rest == Meaning([], ps[1..])
    ensures Meaning(pending, ps) == DecodeUtf16(pending) + ([value] + rest)
  {
    Assoc(DecodeUtf16(pending), [value], rest);
  }

  lemma {:induction false} MeaningFlushes(pending: seq<CodeUnit>, ps: seq<Piece>)
    requires ps == [] || !ps[0].Hex?
    ensures Meaning(pending, ps) == DecodeUtf16(pending) + Meaning([], ps)
  {
    assert DecodeUtf16([]) == [];
    if ps == [] {
      Assoc(DecodeUtf16(pending), [], []);
    } else {
      var value, rest := PieceValue(ps[0]), Meaning([], ps[1..]);
      MeaningStep(pending, ps, value, rest);
      MeaningStep([], ps, value, rest);
      Assoc([], [value], rest);
    }
  }

  // ----- Reading

  datatype StringRead = StringRead(text: seq<Scalar>, rest: seq<Byte>)

  datatype PieceRead = PieceRead(piece: Piece, rest: seq<Byte>)

  /** The first piece of an input that does not start with a quote, if the input does not end
      inside it. */
  function NextPiece(s: seq<Byte>): (r: Option<PieceRead>)
    requires s != [] && s[0] != QUOTE
    ensures r.Some? ==> |r.value.rest| < |s|
  {
    if s[0] != BACKSLASH then
      var k := 1 + Continuations(s[0]);
      if |s| < k then None else Some(PieceRead(Plain(s[..k]), s[k..]))
    else if |s| < 2 then None
    else if s[1] == LOWER_U then
      if |s| < 6 then None else Some(PieceRead(Hex(s[2..6]), s[6..]))
    else
      var k := 2 + Continuations(s[1]);
      if |s| < k then None else Some(PieceRead(Escape(s[1..k]), s[k..]))
  }

  function Prepend(text: seq<Scalar>, r: Option<StringRead>): Option<StringRead> {
    match r
    case None => None
    case Some(StringRead(more, rest)) => Some(StringRead(text + more, rest))
  }

  /** `read_json_string` after the opening quote, with the code units not flushed yet. None: the
      input ends inside the string. */
  function ReadString(s: seq<Byte>, pending: seq<CodeUnit>): (r: Option<StringRead>)
    ensures r.Some? ==> |r.value.rest| < |s|
    decreases |s|
  {
    if s == [] then None
    else if s[0] == QUOTE then Some(StringRead(DecodeUtf16(pending), s[1..]))
    else match NextPiece(s)
      case None => None
      case Some(PieceRead(p, rest)) =>
        if p.Hex? then ReadString(rest, pending + [HexUnit(p.bs)])
        else Prepend(DecodeUtf16(pending) + [PieceValue(p)], ReadString(rest, []))
  }

  lemma NextPieceInverts(p: Piece, tail: seq<Byte>)
    requires ValidPiece(p)
    ensures var s := PieceText(p) + tail;
      s != [] && s[0] != QUOTE && NextPiece(s) == Some(PieceRead(p, tail))
  {
    var s := PieceText(p) + tail;
    assert s[|PieceText(p)|..] == tail;
    match p {
      case Plain(bs) => assert s[..|bs|] == bs;
      case Escape(bs) => assert s[1] == bs[0]; assert s[1..1 + |bs|] == bs;
      case Hex(bs) => assert s[2..6] == bs;
    }
  }

  lemma NextPieceSplits(s: seq<Byte>)
    requires s != [] && s[0] != QUOTE && NextPiece(s).Some?
    ensures var r := NextPiece(s).value;
      ValidPiece(r.piece) && s == PieceText(r.piece) + r.rest
  {
  }

  /** Reading accepts every sequence of pieces, stops at the quote after them, and gives their
      meaning. */
  lemma {:induction false} ReadStringComplete(ps: seq<Piece>, tail: seq<Byte>, pending: seq<CodeUnit>)
    requires ValidPieces(ps)
    ensures ReadString(StringText(ps, tail), pending)
      == Some(StringRead(Meaning(pending, ps), tail))
    decreases |ps|
  {
    var s := StringText(ps, tail);
    if ps == [] {
      assert s == [QUOTE] + tail;
      assert s[1..] == tail;
    } else {
      var rest := StringText(ps[1..], tail);
      Assoc(PieceText(ps[0]), PiecesText(ps[1..]), [QUOTE] + tail);
      NextPieceInverts(ps[0], rest);
      ReadStringComplete(ps[1..], tail, if ps[0].Hex? then pending + [HexUnit(ps[0].bs)] else []);
    }
  }

  /** Whatever is read was a sequence of pieces and a quote, and its meaning is what was read. */
  lemma {:induction false} ReadStringSound(s: seq<Byte>, pending: seq<CodeUnit>) returns (ps: seq<Piece>)
    requires ReadString(s, pending).Some?
    ensures ValidPieces(ps)
    ensures var r := ReadString(s, pending).value;
      s == StringText(ps, r.rest) && r.text == Meaning(pending, ps)
    decreases |s|
  {
    if s[0] == QUOTE {
      ps := [];
    } else {
      var PieceRead(p, rest) := NextPiece(s).value;
      NextPieceSplits(s);
      var pending' := if p.Hex? then pending + [HexUnit(p.bs)] else [];
      var more := ReadStringSound(rest, pending');
      ps := [p] + more;
      PiecesCons(p, more, ReadString(rest, pending').value.rest);
    }
  }

  lemma PiecesCons(p: Piece, ps: seq<Piece>, tail: seq<Byte>)
    requires ValidPiece(p) && ValidPieces(ps)
    ensures ([p] + ps)[1..] == ps && ValidPieces([p] + ps)
    ensures StringText([p] + ps, tail) == PieceText(p) + StringText(ps, tail)
  {
    assert ([p] + ps)[1..] == ps;
    Assoc(PieceText(p), PiecesText(ps), [QUOTE] + tail);
  }

  // ----- Spelling text

  /** The ways to spell one character: its UTF-8 bytes (unless it is a quote or a backslash), a
      one-letter escape, one `\u` escape, or a surrogate pair of them; either hexadecimal case. */
  predicate Spells(ps: seq<Piece>, c: Scalar) {
    || (ps == [Plain(Utf8Char(c))] && c != QUOTE && c != BACKSLASH)
    || (|ps| == 1 && ps[0].Escape? && |ps[0].bs| == 1 && ShortEscape(ps[0].bs[0]) == Some(c))
    || (AllHex(ps) && Units(ps) == Utf16Char(c))
  }

  predicate AllHex(ps: seq<Piece>) {
    forall i :: 0 <= i < |ps| ==> ps[i].Hex? && |ps[i].bs| == 4 && DecodeHex4(ps[i].bs).Some?
  }

  predicate SpellsText(spelling: seq<seq<Piece>>, text: seq<Scalar>) {
    |spelling| == |text| && forall i :: 0 <= i < |text| ==> Spells(spelling[i], text[i])
  }

  lemma SpellingIsValid(ps: seq<Piece>, c: Scalar)
    requires Spells(ps, c)
    ensures ValidPieces(ps) && ps != []
    ensures !AllHex(ps) ==> |ps| == 1 && !ps[0].Hex?
    ensures ps[0].Plain? ==> DecodeChar(ps[0].bs) == c
    ensures ps[0].Escape? ==> EscapeValue(ps[0].bs) == c
  {
    DecodeCharInvertsUtf8(c);
    if ps == [Plain(Utf8Char(c))] && c != QUOTE && c != BACKSLASH {
      assert Utf8Char(c)[0] == c || Utf8Char(c)[0] >= 0x80;
    }
  }

  lemma {:induction false} SpellingsAreValid(spelling: seq<seq<Piece>>, text: seq<Scalar>)
    requires SpellsText(spelling, text)
    ensures ValidPieces(Concat(spelling))
  {
    if spelling != [] {
      SpellingIsValid(spelling[0], text[0]);
      SpellingsAreValid(spelling[1..], text[1..]);
    }
  }

  lemma {:induction false} OnePiece(pending: seq<CodeUnit>, piece: seq<Piece>, rest: seq<Piece>)
    requires |piece| == 1 && !piece[0].Hex?
    ensures Meaning(pending, piece + rest) == DecodeUtf16(pending) + [PieceValue(piece[0])] + Meaning([], rest)
  {
    assert (piece + rest)[1..] == rest;
  }

  lemma {:induction false} Utf16RoundTrip(text: seq<Scalar>)
    ensures DecodeUtf16(Utf16(text)) == text
  {
    DecodeUtf16Prefix(text, []);
    Assoc(Utf16(text), [], []);
    Assoc(text, [], []);
  }

  /** A spelling denotes its text, also right after `\u` escapes that spell `before`. */
  lemma {:induction false} SpellingMeaning(before: seq<Scalar>, spelling: seq<seq<Piece>>, text: seq<Scalar>)
    requires SpellsText(spelling, text)
    ensures Meaning(Utf16(before), Concat(spelling)) == before + text
    decreases |spelling|
  {
    Utf16RoundTrip(before);
    if spelling != [] {
      var c, first, rest := text[0], spelling[0], Concat(spelling[1..]);
      SpellingIsValid(first, c);
      Assoc(before, [c], text[1..]);
      assert [c] + text[1..] == text;
      if first[0].Hex? {
        HexRun(Utf16(before), first, rest);
        Utf16Snoc(before, c);
        SpellingMeaning(before + [c], spelling[1..], text[1..]);
      } else {
        SpellingMeaning([], spelling[1..], text[1..]);
        Assoc(text[1..], [], text[1..]);
        OnePiece(Utf16(before), first, rest);
      }
    }
  }

  lemma {:induction false} SpelledText(body: seq<Piece>, spelling: seq<seq<Piece>>, text: seq<Scalar>)
    requires SpellsText(spelling, text) && body == Concat(spelling)
    ensures Meaning([], body) == text
  {
    SpellingMeaning([], spelling, text);
    Assoc([], text, []);
  }

  /** The round trip: any text, any spelling of each of its characters, anything after the quote. */
  lemma {:induction false} StringRoundTrip(text: seq<Scalar>, spelling: seq<seq<Piece>>, tail: seq<Byte>)
    requires SpellsText(spelling, text)
    ensures ReadString(StringText(Concat(spelling), tail), []) == Some(StringRead(text, tail))
  {
    SpelledText(Concat(spelling), spelling, text);
    SpellingsAreValid(spelling, text);
    ReadStringComplete(Concat(spelling), tail, []);
  }

  // ----- What is read leniently

  /** The escapes of one letter (section 7 of RFC 8259). */
  const SHORT_ESCAPES: map<Byte, Scalar> :=
    map[0x22 := 0x22, 0x5C := 0x5C, 0x2F := 0x2F, 0x62 := 0x08, 0x66 := 0x0C, 0x6E := 0x0A, 0x72 := 0x0D, 0x74 := 0x09]

  lemma EscapeIs(b: Byte)
    ensures ShortEscape(b) == if b in SHORT_ESCAPES then Some(SHORT_ESCAPES[b]) else None
  {
  }

  lemma {:induction false} OnePieceIsRead(piece: Piece, tail: seq<Byte>)
    requires ValidPiece(piece)
    ensures ReadString(PieceText(piece) + ([QUOTE] + tail), []) == Some(StringRead(Meaning([], [piece]), tail))
  {
    ReadStringComplete([piece], tail, []);
    assert [piece][1..] == [];
    Assoc(PieceText(piece), [], []);
    assert PiecesText([piece]) == PieceText(piece);
  }

  lemma {:induction false} OneEscape(bs: seq<Byte>, tail: seq<Byte>)
    requires ValidPiece(Escape(bs))
    ensures ReadString([BACKSLASH] + bs + ([QUOTE] + tail), []) == Some(StringRead([EscapeValue(bs)], tail))
  {
    OnePieceIsRead(Escape(bs), tail);
    OnePiece([], [Escape(bs)], []);
    Assoc([Escape(bs)], [], []);
    assert DecodeUtf16([]) == [] && Meaning([], []) == [];
    assert [] + [EscapeValue(bs)] + [] == [EscapeValue(bs)];
  }

  /** A letter that is escaped for no reason, also one of several bytes, is read as itself. */
  lemma {:induction false} UnknownEscape(c: Scalar, tail: seq<Byte>)
    requires c != LOWER_U && (c >= 0x80 || c !in SHORT_ESCAPES)
    ensures ReadString([BACKSLASH] + Utf8Char(c) + ([QUOTE] + tail), []) == Some(StringRead([c], tail))
  {
    var bs := Utf8Char(c);
    DecodeCharInvertsUtf8(c);
    assert bs[0] == c || bs[0] >= 0x80;
    EscapeIs(bs[0]);
    OneEscape(bs, tail);
  }

  /** The escapes of one letter are read as their characters. */
  lemma {:induction false} KnownEscape(b: Byte, tail: seq<Byte>)
    requires b in SHORT_ESCAPES
    ensures ReadString([BACKSLASH, b] + ([QUOTE] + tail), []) == Some(StringRead([SHORT_ESCAPES[b]], tail))
  {
    EscapeIs(b);
    assert [BACKSLASH] + [b] == [BACKSLASH, b];
    OneEscape([b], tail);
  }

  /** A byte that cannot lead a character is read as one replacement character, alone. */
  lemma {:induction false} StrayByte(b: Byte, tail: seq<Byte>)
    requires 0x80 <= b < 0xC0 || 0xF8 <= b
    ensures ReadString([b] + ([QUOTE] + tail), []) == Some(StringRead([REPLACEMENT], tail))
  {
    LeadIs(b);
    OnePieceIsRead(Plain([b]), tail);
    OnePiece([], [Plain([b])], []);
    Assoc([Plain([b])], [], []);
    assert DecodeUtf16([]) == [] && Meaning([], []) == [];
    assert [] + [PieceValue(Plain([b]))] + [] == [REPLACEMENT];
  }

  /** Four bytes after backslash and u of which one is no hexadecimal digit are read as one replacement
      character. */
  lemma {:induction false} MalformedHex(bs: seq<Byte>, tail: seq<Byte>)
    requires |bs| == 4 && exists i :: 0 <= i < 4 && forall v :: !IsDigitOf(bs[i], v)
    ensures ReadString([BACKSLASH, LOWER_U] + bs + ([QUOTE] + tail), []) == Some(StringRead([REPLACEMENT], tail))
  {
    NoHexIff(bs);
    OnePieceIsRead(Hex(bs), tail);
    OneHex(bs);
  }

  lemma {:induction false} OneHex(bs: seq<Byte>)
    requires HexUnit(bs) == REPLACEMENT
    ensures Meaning([], [Hex(bs)]) == [REPLACEMENT]
  {
    var unit: seq<CodeUnit> := [REPLACEMENT];
    assert [Hex(bs)][1..] == [] && [] + unit == unit && unit[1..] == [];
    assert Meaning([], [Hex(bs)]) == Meaning([] + [HexUnit(bs)], []);
    assert DecodeUtf16(unit) == [REPLACEMENT] + DecodeUtf16([]);
  }
}
