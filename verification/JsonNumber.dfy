/** JSON numbers as the streaming reader skips them. It keeps no value; what matters is where a
    number ends, and that the byte after it has to be read to find out. */
module JsonNumber {
  import opened Bytes

  const MINUS: Byte := 0x2D
  const POINT: Byte := 0x2E
  const ZERO: Byte := 0x30

  predicate IsDigit(b: Byte) { 0x30 <= b <= 0x39 }

  predicate IsExponentMark(b: Byte) { b == 0x65 || b == 0x45 }

  predicate IsExponentStart(b: Byte) { IsDigit(b) || b == 0x2B || b == 0x2D }

  predicate AllDigits(s: seq<Byte>) {
    forall i :: 0 <= i < |s| ==> IsDigit(s[i])
  }

  // ----- What is read

  /** `Ended`: the input ended with the number. `Followed`: the first byte after it was read. */
  datatype NumberRead =
    | NoInput
    | MissingDigit
    | Ended
    | Followed(next: Byte, rest: seq<Byte>)

  /** The input from its first byte that is not a digit. */
  function SkipDigits(s: seq<Byte>): (r: seq<Byte>)
    ensures |r| <= |s|
  {
    if s == [] || !IsDigit(s[0]) then s else SkipDigits(s[1..])
  }

  lemma {:induction false} DigitsSkipped(s: seq<Byte>) returns (digits: seq<Byte>)
    ensures s == digits + SkipDigits(s) && AllDigits(digits)
    ensures SkipDigits(s) != [] ==> !IsDigit(SkipDigits(s)[0])
  {
    if s == [] || !IsDigit(s[0]) {
      digits := [];
    } else {
      var more := DigitsSkipped(s[1..]);
      digits := [s[0]] + more;
      Assoc([s[0]], more, SkipDigits(s[1..]));
      Uncons(s);
    }
  }

  function ReadNumber(first: Byte, s: seq<Byte>): (r: NumberRead)
    ensures r.Followed? ==> |r.rest| < |s|
  {
    if first != MINUS then AfterLead(first, s)
    else if s == [] then NoInput
    else if !IsDigit(s[0]) then MissingDigit
    else AfterLead(s[0], s[1..])
  }

  function AfterLead(digit: Byte, s: seq<Byte>): (r: NumberRead)
    ensures r.Followed? ==> |r.rest| < |s|
  {
    AfterInteger(if digit == ZERO then s else SkipDigits(s))
  }

  function AfterInteger(s: seq<Byte>): (r: NumberRead)
    ensures r.Followed? ==> |r.rest| < |s|
  {
    if s == [] then Ended
    else if s[0] == POINT then AfterFraction(SkipDigits(s[1..]))
    else AfterFraction(s)
  }

  /** An exponent mark that no digit or sign follows is part of the number; the byte after it is
      taken for the byte after the number, whatever it is. */
  function AfterFraction(s: seq<Byte>): (r: NumberRead)
    ensures r.Followed? ==> |r.rest| < |s|
  {
    if s == [] then Ended
    else if !IsExponentMark(s[0]) then Followed(s[0], s[1..])
    else if |s| == 1 then Ended
    else if !IsExponentStart(s[1]) then Followed(s[1], s[2..])
    else EndOf(SkipDigits(s[2..]))
  }

  function EndOf(s: seq<Byte>): (r: NumberRead)
    ensures r.Followed? ==> |r.rest| < |s|
  {
    if s == [] then Ended else Followed(s[0], s[1..])
  }

  // ----- The relaxed grammar

  /** A number as it is written. `exponent`: the mark and what belongs to it. */
  datatype Number = Number(minus: bool, integer: seq<Byte>, fraction: Option<seq<Byte>>, exponent: Option<seq<Byte>>)

  /** Section 6 of RFC 8259, relaxed: digits may be missing after the point and after the exponent
      mark. */
  predicate ValidNumber(n: Number) {
    && n.integer != [] && AllDigits(n.integer)
    && (n.integer[0] == ZERO ==> |n.integer| == 1)
    && (n.fraction.Some? ==> AllDigits(n.fraction.value))
    && (n.exponent.Some? ==> ValidExponent(n.exponent.value))
  }

  predicate ValidExponent(e: seq<Byte>) {
    && e != [] && IsExponentMark(e[0])
    && (|e| > 1 ==> IsExponentStart(e[1]) && AllDigits(e[2..]))
  }

  function FractionText(f: Option<seq<Byte>>): seq<Byte> {
    if f.Some? then [POINT] + f.value else []
  }

  function ExponentText(e: Option<seq<Byte>>): seq<Byte> {
    if e.Some? then e.value else []
  }

  function UnsignedText(n: Number): seq<Byte> {
    n.integer + (FractionText(n.fraction) + ExponentText(n.exponent))
  }

  function NumberText(n: Number): seq<Byte> {
    if n.minus then [MINUS] + UnsignedText(n) else UnsignedText(n)
  }

  /** The byte after a number does not continue it. */
  predicate Stops(n: Number, tail: seq<Byte>) {
    tail == [] || !Continues(n, tail[0])
  }

  predicate Continues(n: Number, b: Byte) {
    if n.exponent.Some? then
      if |n.exponent.value| > 1 then IsDigit(b) else IsExponentStart(b)
    else if n.fraction.Some? then IsDigit(b) || IsExponentMark(b)
    else b == POINT || IsExponentMark(b) || (IsDigit(b) && n.integer != [ZERO])
  }

  // ----- Both directions

  lemma {:induction false} SkipDigitsInverts(digits: seq<Byte>, tail: seq<Byte>)
    requires AllDigits(digits) && (tail == [] || !IsDigit(tail[0]))
    ensures SkipDigits(digits + tail) == tail
  {
    if digits == [] {
      assert digits + tail == tail;
    } else {
      assert (digits + tail)[1..] == digits[1..] + tail;
      SkipDigitsInverts(digits[1..], tail);
    }
  }

  lemma AfterFractionComplete(n: Number, tail: seq<Byte>)
    requires ValidNumber(n) && Stops(n, tail) && (n.exponent.None? && tail != [] ==> !IsExponentMark(tail[0]))
    ensures AfterFraction(ExponentText(n.exponent) + tail) == EndOf(tail)
  {
    var s := ExponentText(n.exponent) + tail;
    if n.exponent.Some? {
      var e := n.exponent.value;
      if |e| > 1 {
        assert s[2..] == e[2..] + tail;
        SkipDigitsInverts(e[2..], tail);
      } else if tail != [] {
        assert s[1] == tail[0] && s[2..] == tail[1..];
      }
    } else {
      assert s == tail;
    }
  }

  lemma AfterIntegerComplete(n: Number, tail: seq<Byte>)
    requires ValidNumber(n) && Stops(n, tail)
    ensures AfterInteger(FractionText(n.fraction) + (ExponentText(n.exponent) + tail)) == EndOf(tail)
  {
    AfterFractionComplete(n, tail);
    var more := ExponentText(n.exponent) + tail;
    var s := FractionText(n.fraction) + more;
    assert more != [] ==> more[0] == if n.exponent.Some? then n.exponent.value[0] else tail[0];
    match n.fraction {
      case Some(digits) =>
        assert s[0] == POINT && s[1..] == digits + more;
        SkipDigitsInverts(digits, more);
      case None =>
        assert s == more;
    }
  }

  lemma UnsignedComplete(n: Number, tail: seq<Byte>)
    requires ValidNumber(n) && Stops(n, tail)
    ensures var s := UnsignedText(n) + tail;
      IsDigit(s[0]) && AfterLead(s[0], s[1..]) == EndOf(tail)
  {
    AfterIntegerComplete(n, tail);
    var more := FractionText(n.fraction) + (ExponentText(n.exponent) + tail);
    UnsignedTextAppend(n, tail);
    assert (n.integer + more)[1..] == n.integer[1..] + more;
    if n.integer[0] == ZERO {
      assert n.integer[1..] + more == more;
    } else {
      FirstAfterInteger(n, tail);
      SkipDigitsInverts(n.integer[1..], more);
    }
  }

  /** Every relaxed number is read up to its end, and one byte further if there is one. */
  lemma ReadNumberComplete(n: Number, tail: seq<Byte>)
    requires ValidNumber(n) && Stops(n, tail)
    ensures var s := NumberText(n) + tail;
      && (s[0] == MINUS || IsDigit(s[0]))
      && ReadNumber(s[0], s[1..]) == EndOf(tail)
  {
    UnsignedComplete(n, tail);
    if n.minus {
      assert (NumberText(n) + tail)[1..] == UnsignedText(n) + tail;
    }
  }

  lemma FirstAfterInteger(n: Number, tail: seq<Byte>)
    requires ValidNumber(n) && Stops(n, tail) && n.integer != [ZERO]
    ensures var more := FractionText(n.fraction) + (ExponentText(n.exponent) + tail);
      more == [] || !IsDigit(more[0])
  {
    if n.fraction.None? && n.exponent.None? {
      assert FractionText(n.fraction) + (ExponentText(n.exponent) + tail) == tail;
    }
  }

  lemma NegativeText(m: Number, tail: seq<Byte>, s: seq<Byte>)
    requires s != [] && !m.minus && [s[0]] + s[1..] == UnsignedText(m) + tail
    ensures [MINUS] + s == NumberText(m.(minus := true)) + tail
  {
    Uncons(s);
    Assoc([MINUS], UnsignedText(m), tail);
  }

  /** Whatever is read was a relaxed number, and what follows does not continue it. */
  lemma ReadNumberSound(first: Byte, s: seq<Byte>) returns (n: Number, tail: seq<Byte>)
    requires first == MINUS || IsDigit(first)
    requires ReadNumber(first, s).Ended? || ReadNumber(first, s).Followed?
    ensures ValidNumber(n) && Stops(n, tail)
    ensures [first] + s == NumberText(n) + tail && ReadNumber(first, s) == EndOf(tail)
  {
    if first == MINUS {
      var m;
      m, tail := UnsignedSound(s[0], s[1..]);
      n := m.(minus := true);
      NegativeText(m, tail, s);
    } else {
      n, tail := UnsignedSound(first, s);
    }
  }

  lemma UnsignedSound(digit: Byte, s: seq<Byte>) returns (n: Number, tail: seq<Byte>)
    requires IsDigit(digit)
    ensures ValidNumber(n) && Stops(n, tail) && !n.minus
    ensures [digit] + s == UnsignedText(n) + tail && AfterLead(digit, s) == EndOf(tail)
  {
    var u, more := s, [];
    if digit != ZERO {
      u := SkipDigits(s);
      more := DigitsSkipped(s);
    }
    var integer := [digit] + more;
    assert s == more + u;
    assert [digit] + (more + u) == integer + u;
    var fraction, exponent;
    fraction, exponent, tail := AfterIntegerSound(u);
    n := Number(false, integer, fraction, exponent);
    UnsignedTextAppend(n, tail);
    if fraction.None? && exponent.None? {
      assert u == tail;
    }
  }

  lemma UnsignedTextAppend(n: Number, tail: seq<Byte>)
    ensures UnsignedText(n) + tail == n.integer + (FractionText(n.fraction) + (ExponentText(n.exponent) + tail))
  {
  }

  lemma AfterIntegerSound(s: seq<Byte>) returns (f: Option<seq<Byte>>, e: Option<seq<Byte>>, tail: seq<Byte>)
    ensures f.Some? ==> AllDigits(f.value)
    ensures e.Some? ==> ValidExponent(e.value)
    ensures s == FractionText(f) + (ExponentText(e) + tail) && AfterInteger(s) == EndOf(tail)
    ensures tail != [] ==> var b := tail[0];
      if e.Some? then !(if |e.value| > 1 then IsDigit(b) else IsExponentStart(b))
      else !IsExponentMark(b) && (if f.Some? then !IsDigit(b) else b != POINT)
  {
    if s != [] && s[0] == POINT {
      var v := SkipDigits(s[1..]);
      var digits := DigitsSkipped(s[1..]);
      e, tail := AfterFractionSound(v);
      f := Some(digits);
      Assoc([POINT], digits, ExponentText(e) + tail);
      assert s == [POINT] + s[1..];
    } else {
      e, tail := AfterFractionSound(s);
      f := None;
      Assoc([], [], s);
    }
  }

  lemma AfterFractionSound(s: seq<Byte>) returns (e: Option<seq<Byte>>, tail: seq<Byte>)
    ensures e.Some? ==> ValidExponent(e.value)
    ensures s == ExponentText(e) + tail && AfterFraction(s) == EndOf(tail)
    ensures e.None? ==> tail == [] || !IsExponentMark(tail[0])
    ensures e.Some? && tail != [] ==>
      !(if |e.value| > 1 then IsDigit(tail[0]) else IsExponentStart(tail[0]))
  {
    if s == [] || !IsExponentMark(s[0]) {
      e, tail := None, s;
    } else if |s| == 1 || !IsExponentStart(s[1]) {
      e, tail := Some(s[..1]), s[1..];
    } else {
      tail := SkipDigits(s[2..]);
      var digits := DigitsSkipped(s[2..]);
      e := Some(s[..2] + digits);
      assert e.value[2..] == digits;
      assert s == s[..2] + (digits + tail);
    }
  }
}
