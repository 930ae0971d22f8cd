/** The streaming JSON reader over a body that is still being written. Every result, error, event
    and position is the one that JsonSpec gives for the content of the body; so none depends on how
    the content is cut into buffers or on where reads are suspended. */
module JsonParser {
  import opened Bytes
  import opened Unicode
  import opened Body
  import opened JsonString
  import opened JsonNumber
  import opened JsonSpec

  /** The key and value callbacks, and the calls they have seen. */
  class Callbacks<T> {
    const stop: Callback<T>
    var log: seq<Event>

    constructor (stop: Callback<T>)
      ensures this.stop == stop && log == []
    {
      this.stop := stop;
      log := [];
    }

    method Call(e: Event) returns (r: Option<T>)
      modifies this
      ensures log == old(log) + [e] && r == stop(log)
    {
      log := log + [e];
      r := stop(log);
    }
  }

  // ----- White space

  /** `read_u8_non_whitespace`, and `maybe_read_u8_non_whitespace`: None is an error for the one and
      a result of the other. */
  method ReadNonWhitespace(input: Body) returns (b: Option<Byte>)
    requires input.Valid()
    modifies input, input.reader, input.reader.inner
    ensures input.Valid()
    ensures var t := SkipSpace(old(input.Rest()));
      if t == [] then b == None && input.Rest() == [] else b == Some(t[0]) && input.Rest() == t[1..]
  {
    while true
      invariant input.Valid() && SkipSpace(input.Rest()) == SkipSpace(old(input.Rest()))
      decreases |input.Rest()|
    {
      b := input.ReadU8();
      if b.Some? && IsSpace(b.value) {
        continue;
      }
      return;
    }
  }

  /** `reread_u8_non_whitespace` */
  method RereadNonWhitespace(first: Byte, input: Body) returns (b: Option<Byte>)
    requires input.Valid()
    modifies input, input.reader, input.reader.inner
    ensures input.Valid()
    ensures var t := if IsSpace(first) then SkipSpace(old(input.Rest())) else [first] + old(input.Rest());
      if t == [] then b == None && input.Rest() == [] else b == Some(t[0]) && input.Rest() == t[1..]
  {
    if !IsSpace(first) {
      return Some(first);
    }
    b := ReadNonWhitespace(input);
  }

  // ----- Strings

  /** `read_exact` into a word of `n` bytes. None: the body ended first. */
  method ReadExact(input: Body, n: nat) returns (word: Option<seq<Byte>>)
    requires input.Valid()
    modifies input, input.reader, input.reader.inner
    ensures input.Valid()
    ensures var rest := old(input.Rest());
      if |rest| < n then word == None else word == Some(rest[..n]) && input.Rest() == rest[n..]
  {
    var bytes: seq<Byte> := [];
    ghost var rest := input.Rest();
    while |bytes| < n
      invariant input.Valid() && |bytes| <= n
      invariant |bytes| <= |rest| && bytes == rest[..|bytes|] && input.Rest() == rest[|bytes|..]
    {
      var b := input.ReadU8();
      if b.None? {
        return None;
      }
      bytes := bytes + [b.value];
    }
    return Some(bytes);
  }

  /** `read_char_with` */
  method ReadCharWith(input: Body, start: Byte) returns (c: Option<Scalar>)
    requires input.Valid()
    modifies input, input.reader, input.reader.inner
    ensures input.Valid()
    ensures var rest, k := old(input.Rest()), Continuations(start);
      if |rest| < k then c == None
      else c == Some(DecodeChar([start] + rest[..k])) && input.Rest() == rest[k..]
  {
    var more := ReadExact(input, Continuations(start));
    if more.None? {
      return None;
    }
    return Some(DecodeChar([start] + more.value));
  }

  lemma PrependTwice(a: seq<Scalar>, b: seq<Scalar>, r: Option<StringRead>)
    ensures Prepend(a, Prepend(b, r)) == Prepend(a + b, r) && Prepend([], r) == r
  {
    if r.Some? {
      Assoc(a, b, r.value.text);
      assert [] + r.value.text == r.value.text;
    }
  }

  /** The pending code units are flushed before a character is pushed. */
  lemma {:induction false} FlushStep(out: seq<Scalar>, units: seq<CodeUnit>, c: Scalar, r: Option<StringRead>)
    ensures Prepend(out, Prepend(DecodeUtf16(units) + [c], r)) == Prepend(Flushed(out, units) + [c], r)
  {
    PrependTwice(out, DecodeUtf16(units) + [c], r);
    Assoc(out, DecodeUtf16(units), [c]);
  }

  function Flushed(out: seq<Scalar>, units: seq<CodeUnit>): seq<Scalar> {
    out + DecodeUtf16(units)
  }

  lemma {:induction false} PlainStep(s: seq<Byte>, units: seq<CodeUnit>)
    requires s != [] && s[0] != QUOTE && s[0] != BACKSLASH
    ensures var k := Continuations(s[0]);
      ReadString(s, units) ==
        if |s| < 1 + k then None
        else Prepend(DecodeUtf16(units) + [DecodeChar([s[0]] + s[1..][..k])], ReadString(s[1..][k..], []))
  {
    var k := Continuations(s[0]);
    if |s| >= 1 + k {
      assert s[..1 + k] == [s[0]] + s[1..][..k];
      assert s[1 + k..] == s[1..][k..];
    }
  }

  lemma {:induction false} EscapeStep(s: seq<Byte>, units: seq<CodeUnit>)
    requires |s| >= 2 && s[0] == BACKSLASH && s[1] != LOWER_U
    ensures var k := Continuations(s[1]);
      ReadString(s, units) ==
        if |s| < 2 + k then None
        else Prepend(DecodeUtf16(units) + [EscapeValue([s[1]] + s[1..][1..][..k])], ReadString(s[1..][1..][k..], []))
  {
    var k := Continuations(s[1]);
    if |s| >= 2 + k {
      assert s[1..2 + k] == [s[1]] + s[1..][1..][..k];
      assert s[2 + k..] == s[1..][1..][k..];
    }
  }

  lemma {:induction false} HexStep(s: seq<Byte>, units: seq<CodeUnit>)
    requires |s| >= 2 && s[0] == BACKSLASH && s[1] == LOWER_U
    ensures ReadString(s, units) ==
      if |s| < 6 then None else ReadString(s[1..][1..][4..], units + [HexUnit(s[1..][1..][..4])])
  {
    if |s| >= 6 {
      assert s[2..6] == s[1..][1..][..4];
      assert s[6..] == s[1..][1..][4..];
    }
  }

  /** The escapes other than `\u`, after the byte that follows the backslash. */
  method ReadEscape(input: Body, char2: Byte) returns (c: Option<Scalar>)
    requires input.Valid()
    modifies input, input.reader, input.reader.inner
    ensures input.Valid()
    ensures var rest, k := old(input.Rest()), Continuations(char2);
      if |rest| < k then c == None
      else c == Some(EscapeValue([char2] + rest[..k])) && input.Rest() == rest[k..]
  {
    if ShortEscape(char2).Some? {
      return ShortEscape(char2);
    }
    c := ReadCharWith(input, char2);
  }

  /** `read_hex4`, with the replacement character for a malformed escape. */
  method ReadHex4(input: Body) returns (unit: Option<CodeUnit>)
    requires input.Valid()
    modifies input, input.reader, input.reader.inner
    ensures input.Valid()
    ensures var rest := old(input.Rest());
      if |rest| < 4 then unit == None else unit == Some(HexUnit(rest[..4])) && input.Rest() == rest[4..]
  {
    var bytes := ReadExact(input, 4);
    if bytes.None? {
      return None;
    }
    return Some(match DecodeHex4(bytes.value) case Some(u) => u case None => REPLACEMENT);
  }

  /** The arm of `read_json_string` for a backslash, which has been read. */
  method ReadBackslash(input: Body, out: seq<Scalar>, units: seq<CodeUnit>, ghost result: Option<StringRead>)
    returns (ok: bool, out': seq<Scalar>, units': seq<CodeUnit>)
    requires input.Valid() && result == Whole(out, units, [BACKSLASH] + input.Rest())
    modifies input, input.reader, input.reader.inner
    ensures input.Valid()
    ensures if ok then result == Whole(out', units', input.Rest()) && |input.Rest()| < |old(input.Rest())|
            else result == None
  {
    ok, out', units' := false, out, units;
    ghost var s := input.Rest();
    BackslashReadsOn(result, out, units, s);
    var char2 := input.ReadU8();
    if char2.None? {
      return;
    }
    if char2.value != LOWER_U && units' != [] {
      out' := Flushed(out', units');
      units' := [];
    }
    if char2.value == LOWER_U {
      var unit := ReadHex4(input);
      if unit.None? {
        return;
      }
      units' := units' + [unit.value];
    } else {
      var c := ReadEscape(input, char2.value);
      if c.None? {
        return;
      }
      out' := out' + [c.value];
    }
    ok := true;
  }

  /** `read_json_string`, after the opening quote. */
  method ReadJsonString(input: Body) returns (text: Option<seq<Scalar>>)
    requires input.Valid()
    modifies input, input.reader, input.reader.inner
    ensures input.Valid()
    ensures match ReadString(old(input.Rest()), [])
      case None => text == None
      case Some(r) => text == Some(r.text) && input.Rest() == r.rest
  {
    var out: seq<Scalar> := [];
    var units: seq<CodeUnit> := [];
    ghost var result := ReadString(input.Rest(), []);
    PrependTwice([], [], result);
    while true
      invariant input.Valid() && result == Whole(out, units, input.Rest())
      decreases |input.Rest()|
    {
      ghost var s := input.Rest();
      CharReadsOn(result, out, units, s);
      ghost var flushed := Flushed(out, units);
      var char1 := input.ReadU8();
      if char1.None? {
        return None;
      }
      if char1.value != BACKSLASH && units != [] {
        out := Flushed(out, units);
        units := [];
      }
      assert char1.value != BACKSLASH ==> out == flushed && units == [];
      if char1.value == BACKSLASH {
        Uncons(s);
        var ok;
        ok, out, units := ReadBackslash(input, out, units, result);
        if !ok {
          return None;
        }
      } else if char1.value == QUOTE {
        assert units == [] && result == Some(StringRead(out, input.Rest()));
        break;
      } else {
        var c := ReadCharWith(input, char1.value);
        if c.None? {
          return None;
        }
        out := out + [c.value];
      }
    }
    // the flush after the loop has nothing left to do
    if units != [] {
      assert false;
    }
    return Some(out);
  }

  /** The whole string: `out`, and what is still to be read. */
  ghost function Whole(out: seq<Scalar>, units: seq<CodeUnit>, s: seq<Byte>): Option<StringRead> {
    Prepend(out, ReadString(s, units))
  }

  /** A string that does not go on with a backslash. */
  lemma CharReadsOn(result: Option<StringRead>, out: seq<Scalar>, units: seq<CodeUnit>, s: seq<Byte>)
    requires result == Whole(out, units, s)
    ensures s == [] ==> result == None
    ensures s != [] && s[0] == QUOTE ==> result == Some(StringRead(Flushed(out, units), s[1..]))
    ensures s != [] && s[0] != QUOTE && s[0] != BACKSLASH ==>
      var rest, k := s[1..], Continuations(s[0]);
      if |rest| < k then result == None
      else result == Whole(Flushed(out, units) + [DecodeChar([s[0]] + rest[..k])], [], rest[k..])
    ensures Flushed(out, []) == out
  {
    if s != [] && s[0] != QUOTE && s[0] != BACKSLASH {
      PlainStep(s, units);
      var rest, k := s[1..], Continuations(s[0]);
      if |rest| >= k {
        FlushStep(out, units, DecodeChar([s[0]] + rest[..k]), ReadString(rest[k..], []));
      }
    }
  }

  /** A string that goes on with a backslash and then `s`. */
  lemma BackslashReadsOn(result: Option<StringRead>, out: seq<Scalar>, units: seq<CodeUnit>, s: seq<Byte>)
    requires result == Whole(out, units, [BACKSLASH] + s)
    ensures s == [] ==> result == None
    ensures s != [] && s[0] == LOWER_U ==>
      if |s[1..]| < 4 then result == None
      else result == Whole(out, units + [HexUnit(s[1..][..4])], s[1..][4..])
    ensures s != [] && s[0] != LOWER_U ==>
      var rest, k := s[1..], Continuations(s[0]);
      if |rest| < k then result == None
      else result == Whole(Flushed(out, units) + [EscapeValue([s[0]] + rest[..k])], [], rest[k..])
    ensures Flushed(out, []) == out
  {
    var t := [BACKSLASH] + s;
    assert t[1..] == s;
    if s != [] && s[0] == LOWER_U {
      HexStep(t, units);
    } else if s != [] {
      EscapeStep(t, units);
      var rest, k := s[1..], Continuations(s[0]);
      if |rest| >= k {
        FlushStep(out, units, EscapeValue([s[0]] + rest[..k]), ReadString(rest[k..], []));
      }
    }
  }

  // ----- Numbers

  /** The loops of `read_json_number`: the first byte that is not a digit, if any. */
  method ReadPastDigits(input: Body) returns (next: Option<Byte>)
    requires input.Valid()
    modifies input, input.reader, input.reader.inner
    ensures input.Valid()
    ensures var t := SkipDigits(old(input.Rest()));
      if t == [] then next == None && input.Rest() == [] else next == Some(t[0]) && input.Rest() == t[1..]
  {
    while true
      invariant input.Valid() && SkipDigits(input.Rest()) == SkipDigits(old(input.Rest()))
      decreases |input.Rest()|
    {
      next := input.ReadU8();
      if next.Some? && IsDigit(next.value) {
        continue;
      }
      return;
    }
  }

  /** What `read_json_number` gives: no input or no digit are errors; otherwise the first byte after
      the number, if any. */
  ghost predicate IsNumberRead(r: NumberRead, spec: NumberRead, rest: seq<Byte>) {
    match spec
    case NoInput => r == NoInput
    case MissingDigit => r == NumberRead.MissingDigit
    case Ended => r == Ended && rest == []
    case Followed(next, more) => r == Followed(next, []) && rest == more
  }

  method ReadJsonNumber(first: Byte, input: Body) returns (r: NumberRead)
    requires input.Valid()
    modifies input, input.reader, input.reader.inner
    ensures input.Valid() && IsNumberRead(r, ReadNumber(first, old(input.Rest())), input.Rest())
  {
    var digit := first;
    if first == MINUS {
      var d := input.ReadU8();
      if d.None? {
        return NoInput;
      }
      if !IsDigit(d.value) {
        return NumberRead.MissingDigit;
      }
      digit := d.value;
    }
    r := ReadUnsigned(digit, input);
  }

  /** `read_json_number` from the first digit. */
  method ReadUnsigned(digit: Byte, input: Body) returns (r: NumberRead)
    requires input.Valid()
    modifies input, input.reader, input.reader.inner
    ensures input.Valid() && IsNumberRead(r, AfterLead(digit, old(input.Rest())), input.Rest())
  {
    ghost var t := input.Rest();
    var next;
    if digit == ZERO {
      next := input.ReadU8();
    } else {
      next := ReadPastDigits(input);
    }
    if next.None? {
      return Ended;
    }
    assert (if digit == ZERO then t else SkipDigits(t)) == [next.value] + input.Rest();
    r := ReadFractionAndExponent(next.value, input);
  }

  /** `read_json_number` from the first byte after the integer. */
  method ReadFractionAndExponent(postDigit: Byte, input: Body) returns (r: NumberRead)
    requires input.Valid()
    modifies input, input.reader, input.reader.inner
    ensures input.Valid()
    ensures IsNumberRead(r, AfterInteger([postDigit] + old(input.Rest())), input.Rest())
  {
    ghost var s := [postDigit] + input.Rest();
    assert s[1..] == input.Rest();
    var post := postDigit;
    if post == POINT {
      var next := ReadPastDigits(input);
      if next.None? {
        return Ended;
      }
      post := next.value;
      assert SkipDigits(s[1..]) == [post] + input.Rest();
    }
    r := ReadExponent(post, input);
  }

  method ReadExponent(postDigit: Byte, input: Body) returns (r: NumberRead)
    requires input.Valid()
    modifies input, input.reader, input.reader.inner
    ensures input.Valid()
    ensures IsNumberRead(r, AfterFraction([postDigit] + old(input.Rest())), input.Rest())
  {
    ghost var s := [postDigit] + input.Rest();
    assert s[1..] == input.Rest();
    var post := postDigit;
    if IsExponentMark(post) {
      var c := input.ReadU8();
      assert |s| >= 2 ==> s[1] == s[1..][0] && s[2..] == s[1..][1..];
      if c.None? {
        return Ended;
      }
      if !IsExponentStart(c.value) {
        return Followed(c.value, []);
      }
      var next := ReadPastDigits(input);
      if next.None? {
        return Ended;
      }
      post := next.value;
    }
    return Followed(post, []);
  }

  // ----- Values

  /** What `parse_json_internal` gives. */
  datatype JsonResult<+T> = Eof | NextByte(byte: Byte) | EarlyReturn(value: T) | Error(error: JsonSpec.Error)

  /** The result, the unread bytes and the calls are those of the specification. */
  ghost predicate Agrees<T>(r: JsonResult<T>, rest: seq<Byte>, log: seq<Event>, p: Parsed<T>) {
    && log == p.log
    && match p.outcome
       case Failed(e) => r == Error(e)
       case Stopped(t) => r == EarlyReturn(t)
       case Done(next) => if next == [] then r == Eof && rest == [] else r == NextByte(next[0]) && rest == next[1..]
  }

  function TotalReadBefore(totalRead: nat): nat {
    if totalRead == 0 then 0 else totalRead - 1
  }

  /** After a value that is not a number: the next byte that is not white space. */
  method Finish<T>(input: Body, calls: Callbacks<T>) returns (r: JsonResult<T>)
    requires input.Valid()
    modifies input, input.reader, input.reader.inner
    ensures input.Valid() && Agrees(r, input.Rest(), calls.log, After(old(input.Rest()), calls.log))
  {
    var b := ReadNonWhitespace(input);
    return if b.Some? then NextByte(b.value) else Eof;
  }

  method ParseKeyword<T>(first: Byte, word: seq<Byte>, input: Body, calls: Callbacks<T>) returns (r: JsonResult<T>)
    requires input.Valid()
    modifies input, input.reader, input.reader.inner
    ensures input.Valid()
    ensures Agrees(r, input.Rest(), calls.log, ParseWord(first, word, old(input.Rest()), calls.log))
  {
    var bytes := ReadExact(input, |word|);
    if bytes.None? {
      return Error(UnexpectedEof);
    }
    if bytes.value != word {
      return Error(UnknownKeyword([first] + bytes.value));
    }
    r := Finish(input, calls);
  }

  method ParseNumeral<T>(first: Byte, input: Body, calls: Callbacks<T>) returns (r: JsonResult<T>)
    requires input.Valid()
    modifies input, input.reader, input.reader.inner
    ensures input.Valid()
    ensures Agrees(r, input.Rest(), calls.log, ParseNumber(first, old(input.Rest()), calls.log))
  {
    var n := ReadJsonNumber(first, input);
    if n.NoInput? {
      return Error(UnexpectedEof);
    } else if n.MissingDigit? {
      return Error(JsonSpec.MissingDigit);
    } else if n.Ended? {
      return Eof;
    }
    var c := RereadNonWhitespace(n.next, input);
    return if c.Some? then NextByte(c.value) else Error(UnexpectedEof);
  }

  method ReportText<T>(text: seq<Scalar>, start: nat, input: Body, calls: Callbacks<T>) returns (r: JsonResult<T>)
    requires input.Valid()
    modifies input, input.reader, input.reader.inner, calls
    ensures input.Valid()
    ensures Agrees(r, input.Rest(), calls.log,
      AfterTextRead(Some(StringRead(text, old(input.Rest()))), start, |input.content|, calls.stop, old(calls.log)))
  {
    var out := calls.Call(Event(false, text, start, input.reader.totalRead));
    if out.Some? {
      return EarlyReturn(out.value);
    }
    r := Finish(input, calls);
  }

  method ParseStringValue<T>(input: Body, calls: Callbacks<T>) returns (r: JsonResult<T>)
    requires input.Valid()
    modifies input, input.reader, input.reader.inner, calls
    ensures input.Valid()
    ensures Agrees(r, input.Rest(), calls.log,
      ParseText(old(input.Rest()), |input.content|, calls.stop, old(calls.log)))
  {
    var start := TotalReadBefore(input.reader.totalRead);
    ghost var read := ReadString(input.Rest(), []);
    var value := ReadJsonString(input);
    if value.None? {
      return Error(UnexpectedEof);
    }
    assert read == Some(StringRead(value.value, input.Rest()));
    r := ReportText(value.value, start, input, calls);
  }

  /** `parse_json_internal` */
  method ParseInternal<T>(first: Byte, input: Body, calls: Callbacks<T>) returns (r: JsonResult<T>)
    requires input.Valid()
    modifies input, input.reader, input.reader.inner, calls
    ensures input.Valid()
    ensures Agrees(r, input.Rest(), calls.log,
      ParseValue(first, old(input.Rest()), |input.content|, calls.stop, old(calls.log)))
    decreases |input.Rest()|, 3
  {
    var start := TotalReadBefore(input.reader.totalRead);
    if first == LBRACE {
      r := ParseObject(input, calls);
    } else if first == LBRACKET {
      r := ParseArray(input, calls);
    } else if first == QUOTE {
      r := ParseStringValue(input, calls);
    } else if first == MINUS || IsDigit(first) {
      r := ParseNumeral(first, input, calls);
    } else if first == LETTER_T {
      r := ParseKeyword(first, RUE, input, calls);
    } else if first == LETTER_F {
      r := ParseKeyword(first, ALSE, input, calls);
    } else if first == LETTER_N {
      r := ParseKeyword(first, ULL, input, calls);
    } else {
      r := Error(UnexpectedByte(first, start));
    }
  }

  /** How a round of the array or the object loop ends: with a comma, with the closing bracket, or with
      the result of the loop. */
  datatype Round<+T> = Comma | Close | Leave(result: JsonResult<T>)

  function MissingComma(b: Byte, close: Byte, at: int): JsonSpec.Error {
    if close == RBRACKET then ExpectedCommaInArray(b, at) else ExpectedCommaInObject(b, at)
  }

  /** The end of a round, from what parsing the item or member gives. */
  function RoundOf<T>(p: Parsed<T>, total: int, close: Byte): Round<T> {
    match p.outcome
    case Failed(e) => Leave(Error(e))
    case Stopped(t) => Leave(EarlyReturn(t))
    case Done(next) =>
      if next == [] then Leave(Error(UnexpectedEof))
      else if next[0] == COMMA then Comma
      else if next[0] == close then Close
      else Leave(Error(MissingComma(next[0], close, Before(total, next[1..]))))
  }

  ghost predicate EndsRound<T>(round: Round<T>, rest: seq<Byte>, log: seq<Event>, p: Parsed<T>, total: int,
                               close: Byte) {
    round == RoundOf(p, total, close) && log == p.log && (!round.Leave? ==> rest == p.outcome.next[1..])
  }

  /** What follows an item or a member. */
  method EndRound<T>(r: JsonResult<T>, close: Byte, input: Body, ghost log: seq<Event>, ghost p: Parsed<T>)
    returns (round: Round<T>)
    requires input.Valid() && Agrees(r, input.Rest(), log, p) && close != COMMA
    ensures EndsRound(round, input.Rest(), log, p, |input.content|, close)
  {
    var commaIndex := TotalReadBefore(input.reader.totalRead);
    if r.Eof? {
      return Leave(Error(UnexpectedEof));
    } else if r.NextByte? {
      if r.byte == close {
        return Close;
      } else if r.byte != COMMA {
        return Leave(Error(MissingComma(r.byte, close, commaIndex)));
      }
      return Comma;
    } else {
      return Leave(r);
    }
  }

  method ParseItem<T>(first: Byte, input: Body, calls: Callbacks<T>) returns (round: Round<T>)
    requires input.Valid()
    modifies input, input.reader, input.reader.inner, calls
    ensures input.Valid()
    ensures EndsRound(round, input.Rest(), calls.log,
      ParseValue(first, old(input.Rest()), |input.content|, calls.stop, old(calls.log)), |input.content|, RBRACKET)
    decreases |input.Rest()|, 4
  {
    ghost var p := ParseValue(first, input.Rest(), |input.content|, calls.stop, calls.log);
    var r := ParseInternal(first, input, calls);
    round := EndRound(r, RBRACKET, input, calls.log, p);
  }

  method ParseMemberRound<T>(startKey: nat, input: Body, calls: Callbacks<T>) returns (round: Round<T>)
    requires input.Valid()
    modifies input, input.reader, input.reader.inner, calls
    ensures input.Valid()
    ensures EndsRound(round, input.Rest(), calls.log,
      ParseMember(old(input.Rest()), startKey, |input.content|, calls.stop, old(calls.log)), |input.content|, RBRACE)
    decreases |input.Rest()|, 7
  {
    ghost var p := ParseMember(input.Rest(), startKey, |input.content|, calls.stop, calls.log);
    var r := ParseKeyAndValue(startKey, input, calls);
    round := EndRound(r, RBRACE, input, calls.log, p);
  }

  /** What a round leaves to the loop: after a comma the rest of the loop, after the closing bracket the
      byte that follows, or else the result. */
  ghost predicate Leaves<T>(round: Round<T>, rest: seq<Byte>, log: seq<Event>, spec: Parsed<T>, more: Parsed<T>) {
    match round
    case Comma => spec == more
    case Close => spec == After(rest, log)
    case Leave(r) => Agrees(r, rest, log, spec)
  }

  lemma {:induction false} ItemsRound<T>(s: seq<Byte>, total: int, stop: Callback<T>, log: seq<Event>, first: bool,
                                         round: Round<T>, rest: seq<Byte>, log': seq<Event>)
    requires SkipSpace(s) != [] && !(first && SkipSpace(s)[0] == RBRACKET)
    requires EndsRound(round, rest, log', ParseValue(SkipSpace(s)[0], SkipSpace(s)[1..], total, stop, log), total,
                       RBRACKET)
    ensures Leaves(round, rest, log', ParseItems(s, total, stop, log, first),
                   ParseItems(rest, total, stop, log', false))
    ensures round.Comma? ==> |rest| < |s|
  {
  }

  lemma {:induction false} MembersRound<T>(s: seq<Byte>, total: int, stop: Callback<T>, log: seq<Event>, first: bool,
                                           round: Round<T>, rest: seq<Byte>, log': seq<Event>)
    requires SkipSpace(s) != [] && SkipSpace(s)[0] == QUOTE
    requires EndsRound(round, rest, log', ParseMember(SkipSpace(s)[1..], total - |s|, total, stop, log), total, RBRACE)
    ensures Leaves(round, rest, log', ParseMembers(s, total, stop, log, first),
                   ParseMembers(rest, total, stop, log', false))
    ensures round.Comma? ==> |rest| < |s|
  {
  }

  /** One round of the array loop. */
  method ArrayRound<T>(firstValue: bool, input: Body, calls: Callbacks<T>) returns (round: Round<T>)
    requires input.Valid()
    modifies input, input.reader, input.reader.inner, calls
    ensures input.Valid() && (round.Comma? ==> |input.Rest()| < |old(input.Rest())|)
    ensures Leaves(round, input.Rest(), calls.log,
      ParseItems(old(input.Rest()), |input.content|, calls.stop, old(calls.log), firstValue),
      ParseItems(input.Rest(), |input.content|, calls.stop, calls.log, false))
    decreases |input.Rest()|, 1
  {
    ghost var s, log := input.Rest(), calls.log;
    var firstChar := ReadNonWhitespace(input);
    if firstChar.None? {
      return Leave(Error(UnexpectedEof));
    }
    if firstValue && firstChar.value == RBRACKET {
      return Close;
    }
    round := ParseItem(firstChar.value, input, calls);
    ItemsRound(s, |input.content|, calls.stop, log, firstValue, round, input.Rest(), calls.log);
  }

  /** The array arm of `parse_json_internal`. */
  method ParseArray<T>(input: Body, calls: Callbacks<T>) returns (r: JsonResult<T>)
    requires input.Valid()
    modifies input, input.reader, input.reader.inner, calls
    ensures input.Valid()
    ensures Agrees(r, input.Rest(), calls.log,
      ParseItems(old(input.Rest()), |input.content|, calls.stop, old(calls.log), true))
    decreases |input.Rest()|, 2
  {
    var firstValue := true;
    ghost var spec := ParseItems(input.Rest(), |input.content|, calls.stop, calls.log, true);
    while true
      invariant input.Valid()
      invariant spec == ParseItems(input.Rest(), |input.content|, calls.stop, calls.log, firstValue)
      invariant |input.Rest()| <= |old(input.Rest())|
      decreases |input.Rest()|
    {
      var round := ArrayRound(firstValue, input, calls);
      firstValue := false;
      if round.Leave? {
        return round.result;
      } else if round.Close? {
        break;
      }
    }
    r := Finish(input, calls);
  }

  /** One round of the object loop. */
  method ObjectRound<T>(firstKey: bool, input: Body, calls: Callbacks<T>) returns (round: Round<T>)
    requires input.Valid()
    modifies input, input.reader, input.reader.inner, calls
    ensures input.Valid() && (round.Comma? ==> |input.Rest()| < |old(input.Rest())|)
    ensures Leaves(round, input.Rest(), calls.log,
      ParseMembers(old(input.Rest()), |input.content|, calls.stop, old(calls.log), firstKey),
      ParseMembers(input.Rest(), |input.content|, calls.stop, calls.log, false))
    decreases |input.Rest()|, 1
  {
    ghost var s, log := input.Rest(), calls.log;
    var startKey := input.reader.totalRead;
    var c := ReadNonWhitespace(input);
    if c.None? {
      return Leave(Error(UnexpectedEof));
    }
    if c.value == RBRACE && firstKey {
      return Close;
    }
    if c.value != QUOTE {
      return Leave(Error(ExpectedKey(c.value, startKey)));
    }
    round := ParseMemberRound(startKey, input, calls);
    MembersRound(s, |input.content|, calls.stop, log, firstKey, round, input.Rest(), calls.log);
  }

  /** The object arm of `parse_json_internal`. */
  method ParseObject<T>(input: Body, calls: Callbacks<T>) returns (r: JsonResult<T>)
    requires input.Valid()
    modifies input, input.reader, input.reader.inner, calls
    ensures input.Valid()
    ensures Agrees(r, input.Rest(), calls.log,
      ParseMembers(old(input.Rest()), |input.content|, calls.stop, old(calls.log), true))
    decreases |input.Rest()|, 2
  {
    var firstKey := true;
    ghost var spec := ParseMembers(input.Rest(), |input.content|, calls.stop, calls.log, true);
    while true
      invariant input.Valid()
      invariant spec == ParseMembers(input.Rest(), |input.content|, calls.stop, calls.log, firstKey)
      invariant |input.Rest()| <= |old(input.Rest())|
      decreases |input.Rest()|
    {
      var round := ObjectRound(firstKey, input, calls);
      firstKey := false;
      if round.Leave? {
        return round.result;
      } else if round.Close? {
        break;
      }
    }
    r := Finish(input, calls);
  }

  /** One member in the object arm of `parse_json_internal`, after the quote that opens the key. */
  method ParseKeyAndValue<T>(startKey: nat, input: Body, calls: Callbacks<T>) returns (r: JsonResult<T>)
    requires input.Valid()
    modifies input, input.reader, input.reader.inner, calls
    ensures input.Valid()
    ensures Agrees(r, input.Rest(), calls.log,
      ParseMember(old(input.Rest()), startKey, |input.content|, calls.stop, old(calls.log)))
    decreases |input.Rest()|, 6
  {
    ghost var read := ReadString(input.Rest(), []);
    var key := ReadJsonString(input);
    if key.None? {
      return Error(UnexpectedEof);
    }
    assert read == Some(StringRead(key.value, input.Rest()));
    r := ReportKey(key.value, startKey, input, calls);
  }

  method ReportKey<T>(key: seq<Scalar>, startKey: nat, input: Body, calls: Callbacks<T>) returns (r: JsonResult<T>)
    requires input.Valid()
    modifies input, input.reader, input.reader.inner, calls
    ensures input.Valid()
    ensures Agrees(r, input.Rest(), calls.log,
      AfterKeyRead(Some(StringRead(key, old(input.Rest()))), startKey, |input.content|, calls.stop, old(calls.log)))
    decreases |input.Rest()|, 5
  {
    var out := calls.Call(Event(true, key, startKey, input.reader.totalRead));
    if out.Some? {
      return EarlyReturn(out.value);
    }
    r := ParseColonAndValue(startKey, input, calls);
  }

  method ParseColonAndValue<T>(startKey: nat, input: Body, calls: Callbacks<T>) returns (r: JsonResult<T>)
    requires input.Valid()
    modifies input, input.reader, input.reader.inner, calls
    ensures input.Valid()
    ensures Agrees(r, input.Rest(), calls.log,
      ParseMemberValue(old(input.Rest()), |input.content|, calls.stop, old(calls.log), startKey + 1))
    decreases |input.Rest()|, 4
  {
    var char2 := ReadNonWhitespace(input);
    if char2.None? {
      return Error(UnexpectedEof);
    }
    if char2.value != COLON {
      return Error(ExpectedColon(char2.value, startKey + 1));
    }
    var first := ReadNonWhitespace(input);
    if first.None? {
      return Error(UnexpectedEof);
    }
    r := ParseInternal(first.value, input, calls);
  }

  /** `parse_json`. The result, the calls and their positions depend on the content of the body
      only. */
  method ParseBody<T>(input: Body, calls: Callbacks<T>) returns (r: Result<T>)
    requires input.Valid() && input.reader.totalRead == 0 && calls.log == []
    modifies input, input.reader, input.reader.inner, calls
    ensures input.Valid()
    ensures var p := ParseJson(input.content, |input.content|, calls.stop);
      && calls.log == p.log
      && r == match p.outcome
              case Failed(e) => Err(e)
              case Done(_) => Ok(None)
              case Stopped(t) => Ok(Some(t))
  {
    var first := ReadNonWhitespace(input);
    if first.None? {
      return Err(UnexpectedEof);
    }
    var result := ParseInternal(first.value, input, calls);
    match result
    case Eof => r := Ok(None);
    case NextByte(_) => r := Ok(None);
    case EarlyReturn(t) => r := Ok(Some(t));
    case Error(e) => r := Err(e);
  }
}
