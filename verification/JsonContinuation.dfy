/** Whether more input can change what the streaming reader makes of its input. Errors other than the end of
    the input are final; that one is reported only where more input leads to something else. */
module JsonContinuation {
  import opened Bytes
  import opened Unicode
  import opened JsonString
  import opened JsonNumber
  import opened JsonSpec
  import opened JsonSpans

  const LETTER_X: Byte := 0x78

  /** `n` times the letter x, a quote, and x again. */
  function Xs(n: nat): seq<Byte> {
    if n == 0 then [QUOTE, LETTER_X] else [LETTER_X] + Xs(n - 1)
  }

  /** It ends whatever an input can have left open, with an error if it does not end in a string. */
  const BREAK: seq<Byte> := Xs(6)

  lemma XsStart(n: nat)
    requires n > 0
    ensures Xs(n) != [] && Xs(n)[0] == LETTER_X && Xs(n)[1..] == Xs(n - 1)
  {
  }

  // ----- What is read from a longer input

  lemma {:induction false} SkipSpaceMore(t: seq<Byte>, more: seq<Byte>)
    ensures SkipSpace(t) != [] ==> SkipSpace(t + more) == SkipSpace(t) + more
    ensures SkipSpace(t) == [] ==> SkipSpace(t + more) == SkipSpace(more)
  {
    if t == [] {
      Assoc([], [], more);
    } else if IsSpace(t[0]) {
      assert (t + more)[1..] == t[1..] + more;
      SkipSpaceMore(t[1..], more);
    }
  }

  lemma BreakIsNoSpace()
    ensures SkipSpace(BREAK) == BREAK && BREAK != [] && BREAK[0] == LETTER_X
  {
    XsStart(6);
  }

  lemma TakeMore(t: seq<Byte>, more: seq<Byte>, k: nat)
    requires k <= |t|
    ensures (t + more)[..k] == t[..k] && (t + more)[k..] == t[k..] + more
  {
  }

  lemma {:induction false} NextPieceMore(t: seq<Byte>, more: seq<Byte>)
    requires t != [] && t[0] != QUOTE && NextPiece(t).Some?
    ensures NextPiece(t + more) == Some(PieceRead(NextPiece(t).value.piece, NextPiece(t).value.rest + more))
  {
    var s := t + more;
    assert s[0] == t[0] && (|t| > 1 ==> s[1] == t[1]);
    if t[0] != BACKSLASH {
      TakeMore(t, more, 1 + Continuations(t[0]));
    } else if t[1] == LOWER_U {
      assert s[2..6] == t[2..6];
      TakeMore(t, more, 6);
    } else {
      var k := 2 + Continuations(t[1]);
      assert s[1..k] == t[1..k];
      TakeMore(t, more, k);
    }
  }

  lemma {:induction false} XsFrom(n: nat, k: nat)
    requires k <= n
    ensures |Xs(n)| == n + 2 && Xs(n)[k..] == Xs(n - k)
    decreases k
  {
    XsLength(n);
    if k > 0 {
      XsFrom(n - 1, k - 1);
      DropPast([LETTER_X], Xs(n - 1), k);
    }
  }

  lemma {:induction false} XsLength(n: nat)
    ensures |Xs(n)| == n + 2
  {
    if n > 0 {
      XsLength(n - 1);
    }
  }

  lemma {:induction false} XsAreRead(n: nat, pending: seq<CodeUnit>)
    ensures ReadString(Xs(n), pending).Some? && ReadString(Xs(n), pending).value.rest == [LETTER_X]
    decreases n
  {
    if n > 0 {
      XsStart(n);
      assert Continuations(LETTER_X) == 0;
      assert NextPiece(Xs(n)) == Some(PieceRead(Plain(Xs(n)[..1]), Xs(n - 1)));
      XsAreRead(n - 1, []);
    }
  }

  lemma DropPast(a: seq<Byte>, b: seq<Byte>, k: nat)
    requires |a| <= k <= |a| + |b|
    ensures (a + b)[k..] == b[k - |a|..]
  {
  }

  /** How many bytes the first piece has. */
  function PieceLength(s: seq<Byte>): (k: nat)
    requires s != [] && (s[0] == BACKSLASH ==> |s| > 1)
    ensures 1 <= k <= 6
  {
    if s[0] != BACKSLASH then 1 + Continuations(s[0]) else if s[1] == LOWER_U then 6 else 2 + Continuations(s[1])
  }

  lemma NextPieceIs(s: seq<Byte>)
    requires s != [] && s[0] != QUOTE && (s[0] == BACKSLASH ==> |s| > 1)
    ensures NextPiece(s).None? <==> |s| < PieceLength(s)
    ensures PieceLength(s) <= |s| ==> NextPiece(s).value.rest == s[PieceLength(s)..]
  {
  }

  lemma CutLength(t: seq<Byte>, s: seq<Byte>)
    requires t != [] && t[0] != QUOTE && NextPiece(t).None? && s == t + BREAK && BREAK != [] && BREAK[0] == LETTER_X
    ensures |s| > 1 && s[0] == t[0] && |t| < PieceLength(s)
  {
    if t[0] == BACKSLASH && |t| == 1 {
      assert s[1] == LETTER_X;
    } else {
      NextPieceIs(t);
    }
  }

  /** A piece that the input ends inside of is completed by some of the letters. */
  lemma CutPiece(t: seq<Byte>) returns (n: nat)
    requires t != [] && t[0] != QUOTE && NextPiece(t).None?
    ensures NextPiece(t + BREAK).Some? && NextPiece(t + BREAK).value.rest == Xs(n) && n < 6
  {
    var s := t + BREAK;
    XsStart(6);
    XsLength(6);
    CutLength(t, s);
    var k := PieceLength(s);
    NextPieceIs(s);
    DropPast(t, BREAK, k);
    XsFrom(6, k - |t|);
    n := 6 - (k - |t|);
  }

  lemma {:induction false} ReadStringMore(t: seq<Byte>, pending: seq<CodeUnit>, more: seq<Byte>)
    requires ReadString(t, pending).Some?
    ensures ReadString(t + more, pending)
         == Some(StringRead(ReadString(t, pending).value.text, ReadString(t, pending).value.rest + more))
    decreases |t|
  {
    assert (t + more)[0] == t[0];
    if t[0] == QUOTE {
      assert (t + more)[1..] == t[1..] + more;
    } else {
      var PieceRead(p, rest) := NextPiece(t).value;
      NextPieceMore(t, more);
      ReadStringMore(rest, if p.Hex? then pending + [HexUnit(p.bs)] else [], more);
    }
  }

  lemma {:induction false} ReadStringBroken(t: seq<Byte>, pending: seq<CodeUnit>)
    requires ReadString(t, pending).None?
    ensures ReadString(t + BREAK, pending).Some? && ReadString(t + BREAK, pending).value.rest == [LETTER_X]
    decreases |t|
  {
    if t == [] {
      Assoc([], [], BREAK);
      XsAreRead(6, pending);
    } else {
      assert (t + BREAK)[0] == t[0];
      if NextPiece(t).None? {
        var n := CutPiece(t);
        var p := NextPiece(t + BREAK).value.piece;
        XsAreRead(n, if p.Hex? then pending + [HexUnit(p.bs)] else []);
      } else {
        var PieceRead(p, rest) := NextPiece(t).value;
        NextPieceMore(t, BREAK);
        ReadStringBroken(rest, if p.Hex? then pending + [HexUnit(p.bs)] else []);
      }
    }
  }

  lemma {:induction false} SkipDigitsMore(t: seq<Byte>, more: seq<Byte>)
    ensures SkipDigits(t) != [] ==> SkipDigits(t + more) == SkipDigits(t) + more
    ensures SkipDigits(t) == [] ==> SkipDigits(t + more) == SkipDigits(more)
  {
    if t == [] {
      Assoc([], [], more);
    } else if IsDigit(t[0]) {
      assert (t + more)[1..] == t[1..] + more;
      SkipDigitsMore(t[1..], more);
    }
  }

  /** What more input makes of a number. */
  ghost predicate NumberGoesOn(r: NumberRead, r': NumberRead, more: seq<Byte>) {
    match r
    case NoInput => more == BREAK ==> r' == NumberRead.MissingDigit
    case MissingDigit => r' == NumberRead.MissingDigit
    case Ended => more == BREAK ==> r' == Followed(BREAK[0], BREAK[1..])
    case Followed(next, rest) => r' == Followed(next, rest + more)
  }

  lemma {:induction false} EndOfMore(t: seq<Byte>, more: seq<Byte>)
    ensures NumberGoesOn(JsonNumber.EndOf(SkipDigits(t)), JsonNumber.EndOf(SkipDigits(t + more)), more)
  {
    SkipDigitsMore(t, more);
    XsStart(6);
    if SkipDigits(t) != [] {
      TakeMore(SkipDigits(t), more, 1);
    }
  }

  lemma {:induction false} AfterFractionMore(t: seq<Byte>, more: seq<Byte>)
    ensures NumberGoesOn(AfterFraction(t), AfterFraction(t + more), more)
  {
    XsStart(6);
    if t == [] {
      Assoc([], [], more);
    } else {
      TakeMore(t, more, 1);
      assert (t + more)[0] == t[0];
      if IsExponentMark(t[0]) {
        if |t| == 1 {
          assert more == BREAK ==> (t + more)[1] == LETTER_X && (t + more)[2..] == BREAK[1..];
        } else {
          assert (t + more)[1] == t[1];
          TakeMore(t, more, 2);
          EndOfMore(t[2..], more);
        }
      }
    }
  }

  lemma {:induction false} AfterIntegerMore(t: seq<Byte>, more: seq<Byte>)
    ensures NumberGoesOn(AfterInteger(t), AfterInteger(t + more), more)
  {
    XsStart(6);
    if t == [] {
      Assoc([], [], more);
    } else {
      TakeMore(t, more, 1);
      assert (t + more)[0] == t[0];
      if t[0] == POINT {
        SkipDigitsMore(t[1..], more);
        AfterDigitsMore(t[1..], more);
      } else {
        AfterFractionMore(t, more);
      }
    }
  }

  lemma {:induction false} AfterDigitsMore(t: seq<Byte>, more: seq<Byte>)
    ensures NumberGoesOn(AfterFraction(SkipDigits(t)), AfterFraction(SkipDigits(t + more)), more)
  {
    SkipDigitsMore(t, more);
    if SkipDigits(t) == [] {
      XsStart(6);
    } else {
      AfterFractionMore(SkipDigits(t), more);
    }
  }

  lemma {:induction false} AfterLeadMore(digit: Byte, t: seq<Byte>, more: seq<Byte>)
    ensures NumberGoesOn(AfterLead(digit, t), AfterLead(digit, t + more), more)
  {
    if digit == ZERO {
      AfterIntegerMore(t, more);
    } else {
      SkipDigitsMore(t, more);
      if SkipDigits(t) == [] {
        XsStart(6);
      } else {
        AfterIntegerMore(SkipDigits(t), more);
      }
    }
  }

  lemma {:induction false} ReadNumberMore(first: Byte, t: seq<Byte>, more: seq<Byte>)
    ensures NumberGoesOn(ReadNumber(first, t), ReadNumber(first, t + more), more)
  {
    if first != MINUS {
      AfterLeadMore(first, t, more);
    } else if t == [] {
      Assoc([], [], more);
      XsStart(6);
    } else {
      TakeMore(t, more, 1);
      assert (t + more)[0] == t[0];
      if IsDigit(t[0]) {
        AfterLeadMore(t[0], t[1..], more);
      }
    }
  }

  // ----- What is parsed from a longer input

  /** Something else than the end of the input, and if nothing is refused then an x comes next. */
  predicate IsBroken<T>(r: Parsed<T>) {
    match r.outcome
    case Failed(e) => e != UnexpectedEof
    case Done(next) => next != [] && next[0] == LETTER_X
    case Stopped(_) => true
  }

  /** What `more` input makes of a result. */
  ghost predicate GoesOn<T>(r: Parsed<T>, r': Parsed<T>, more: seq<Byte>) {
    match r.outcome
    case Failed(UnexpectedEof) => more == BREAK ==> IsBroken(r')
    case Done(next) => next != [] || more == BREAK ==> r' == Parsed(Done(next + more), r.log)
    case _ => r' == r
  }

  lemma {:induction false} AfterMore<T>(t: seq<Byte>, log: seq<Event>, more: seq<Byte>)
    ensures GoesOn(After<T>(t, log), After<T>(t + more, log), more)
  {
    SkipSpaceMore(t, more);
    BreakIsNoSpace();
    Assoc([], [], more);
  }

  lemma {:induction false} ParseNumberMore<T>(first: Byte, t: seq<Byte>, log: seq<Event>, more: seq<Byte>)
    ensures GoesOn(ParseNumber<T>(first, t, log), ParseNumber<T>(first, t + more, log), more)
  {
    ReadNumberMore(first, t, more);
    BreakIsNoSpace();
    assert !IsSpace(LETTER_X);
    Uncons(BREAK);
    match ReadNumber(first, t)
    case Followed(next, rest) =>
      SkipSpaceMore(rest, more);
      Assoc([next], rest, more);
      Assoc([], [], more);
    case Ended => Assoc([], [], more);
    case _ =>
  }

  lemma {:induction false} ParseWordMore<T>(first: Byte, word: seq<Byte>, t: seq<Byte>, log: seq<Event>,
                                            more: seq<Byte>)
    requires 1 <= |word| <= 4 && LETTER_X !in word
    ensures GoesOn(ParseWord<T>(first, word, t, log), ParseWord<T>(first, word, t + more, log), more)
  {
    if |word| <= |t| {
      TakeMore(t, more, |word|);
      AfterMore<T>(t[|word|..], log, more);
    } else if more == BREAK {
      XsFrom(6, 0);
      XsStart(6);
      assert (t + more)[..|word|][|t|] == LETTER_X;
      assert word[|t|] in word;
    }
  }

  lemma {:induction false} ParseTextMore<T>(t: seq<Byte>, total: int, stop: Callback<T>, log: seq<Event>,
                                            more: seq<Byte>)
    ensures GoesOn(ParseText(t, total, stop, log), ParseText(t + more, total + |more|, stop, log), more)
  {
    match ReadString(t, [])
    case Some(StringRead(text, rest)) =>
      ReadStringMore(t, [], more);
      AfterTextMore(Event(false, text, Before(total, t), total - |rest|), rest, total, stop, log, more);
    case None =>
      if more == BREAK {
        BrokenText(t, total + |BREAK|, stop, log);
      }
  }

  lemma {:induction false} AfterTextMore<T>(e: Event, rest: seq<Byte>, total: int, stop: Callback<T>, log: seq<Event>,
                                            more: seq<Byte>)
    requires !e.isKey && e.end == total - |rest|
    ensures GoesOn(AfterTextRead(Some(StringRead(e.text, rest)), e.start, total, stop, log),
                   AfterTextRead(Some(StringRead(e.text, rest + more)), e.start, total + |more|, stop, log), more)
  {
    AfterTextIs(e, rest, total, stop, log);
    AfterTextIs(e, rest + more, total + |more|, stop, log);
    AfterMore<T>(rest, log + [e], more);
  }

  lemma {:induction false} BrokenText<T>(t: seq<Byte>, total: int, stop: Callback<T>, log: seq<Event>)
    requires ReadString(t, []).None?
    ensures IsBroken(ParseText(t + BREAK, total, stop, log))
  {
    ReadStringBroken(t, []);
    assert SkipSpace([LETTER_X]) == [LETTER_X];
  }

  // ----- Values, arrays and objects

  lemma {:induction false} ParseValueMore<T>(first: Byte, t: seq<Byte>, total: int, stop: Callback<T>,
                                             log: seq<Event>, more: seq<Byte>)
    ensures GoesOn(ParseValue(first, t, total, stop, log), ParseValue(first, t + more, total + |more|, stop, log), more)
    decreases |t|, 3
  {
    if first == LBRACE {
      ParseMembersMore(t, total, stop, log, true, more);
    } else if first == LBRACKET {
      ParseItemsMore(t, total, stop, log, true, more);
    } else if first == QUOTE {
      ParseTextMore(t, total, stop, log, more);
    } else if first == MINUS || IsDigit(first) {
      ParseNumberMore<T>(first, t, log, more);
    } else if first == LETTER_T {
      ParseWordMore<T>(first, RUE, t, log, more);
    } else if first == LETTER_F {
      ParseWordMore<T>(first, ALSE, t, log, more);
    } else if first == LETTER_N {
      ParseWordMore<T>(first, ULL, t, log, more);
    }
  }

  /** The first byte of what follows, and the rest, are those of the longer input. */
  lemma HeadMore(u: seq<Byte>, more: seq<Byte>)
    requires u != []
    ensures (u + more)[0] == u[0] && (u + more)[1..] == u[1..] + more
  {
  }

  lemma {:induction false} ParseItemsMore<T>(t: seq<Byte>, total: int, stop: Callback<T>, log: seq<Event>, first: bool,
                                             more: seq<Byte>)
    ensures GoesOn(ParseItems(t, total, stop, log, first), ParseItems(t + more, total + |more|, stop, log, first), more)
    decreases |t|, 2
  {
    var u := SkipSpace(t);
    SkipSpaceMore(t, more);
    if u == [] {
      if more == BREAK {
        BrokenItem(t, total, stop, log, first);
      }
    } else {
      HeadMore(u, more);
      if first && u[0] == RBRACKET {
        AfterMore<T>(u[1..], log, more);
      } else {
        var r, r' := ParseValue(u[0], u[1..], total, stop, log),
          ParseValue(u[0], u[1..] + more, total + |more|, stop, log);
        ParseValueMore(u[0], u[1..], total, stop, log, more);
        ItemsGoOn(t, u, total, stop, log, first, r);
        ItemsGoOn(t + more, u + more, total + |more|, stop, log, first, r');
        ItemsAfterMore(r, r', total, stop, more);
      }
    }
  }

  lemma {:induction false} BrokenItem<T>(t: seq<Byte>, total: int, stop: Callback<T>, log: seq<Event>, first: bool)
    requires SkipSpace(t) == []
    ensures IsBroken(ParseItems(t + BREAK, total + |BREAK|, stop, log, first))
  {
    SkipSpaceMore(t, BREAK);
    BreakIsNoSpace();
    assert ParseValue(LETTER_X, BREAK[1..], total + |BREAK|, stop, log).outcome.Failed?;
  }

  lemma {:induction false} ItemsAfterMore<T>(r: Parsed<T>, r': Parsed<T>, total: int, stop: Callback<T>,
                                             more: seq<Byte>)
    requires GoesOn(r, r', more)
    ensures GoesOn(ItemsAfter(r, total, stop), ItemsAfter(r', total + |more|, stop), more)
    decreases Unread(r), 4
  {
    if r.outcome.Done? && r.outcome.next != [] {
      var b, rest := r.outcome.next[0], r.outcome.next[1..];
      HeadMore(r.outcome.next, more);
      if b == COMMA {
        ParseItemsMore(rest, total, stop, r.log, false, more);
      } else if b == RBRACKET {
        AfterMore<T>(rest, r.log, more);
      }
    } else if more == BREAK && r'.outcome.Done? {
      XsStart(6);
      Assoc([], [], more);
    }
  }

  lemma {:induction false} ParseMembersMore<T>(t: seq<Byte>, total: int, stop: Callback<T>, log: seq<Event>,
                                               first: bool, more: seq<Byte>)
    ensures GoesOn(ParseMembers(t, total, stop, log, first), ParseMembers(t + more, total + |more|, stop, log, first),
                   more)
    decreases |t|, 2
  {
    var u := SkipSpace(t);
    SkipSpaceMore(t, more);
    if u == [] {
      BreakIsNoSpace();
    } else {
      HeadMore(u, more);
      if first && u[0] == RBRACE {
        AfterMore<T>(u[1..], log, more);
      } else if u[0] == QUOTE {
        NextMemberMore(t, u, total, stop, log, first, more);
      }
    }
  }

  lemma {:induction false} NextMemberMore<T>(t: seq<Byte>, u: seq<Byte>, total: int, stop: Callback<T>,
                                             log: seq<Event>, first: bool, more: seq<Byte>)
    requires u == SkipSpace(t) && u != [] && u[0] == QUOTE && SkipSpace(t + more) == u + more
    ensures GoesOn(ParseMembers(t, total, stop, log, first), ParseMembers(t + more, total + |more|, stop, log, first),
                   more)
    decreases |t|, 1
  {
    var start := total - |t|;
    var r, r' := ParseMember(u[1..], start, total, stop, log),
      ParseMember(u[1..] + more, start, total + |more|, stop, log);
    HeadMore(u, more);
    ParseMemberMore(u[1..], start, total, stop, log, more);
    MembersGoOn(t, u, total, stop, log, first, r);
    MembersGoOn(t + more, u + more, total + |more|, stop, log, first, r');
    MembersAfterMore(r, r', total, stop, more);
  }

  lemma {:induction false} MembersAfterMore<T>(r: Parsed<T>, r': Parsed<T>, total: int, stop: Callback<T>,
                                               more: seq<Byte>)
    requires GoesOn(r, r', more)
    ensures GoesOn(MembersAfter(r, total, stop), MembersAfter(r', total + |more|, stop), more)
    decreases Unread(r), 4
  {
    if r.outcome.Done? && r.outcome.next != [] {
      var b, rest := r.outcome.next[0], r.outcome.next[1..];
      HeadMore(r.outcome.next, more);
      if b == COMMA {
        ParseMembersMore(rest, total, stop, r.log, false, more);
      } else if b == RBRACE {
        AfterMore<T>(rest, r.log, more);
      }
    } else if more == BREAK && r'.outcome.Done? {
      XsStart(6);
      Assoc([], [], more);
    }
  }

  lemma {:induction false} ParseMemberMore<T>(t: seq<Byte>, start: int, total: int, stop: Callback<T>,
                                              log: seq<Event>, more: seq<Byte>)
    ensures GoesOn(ParseMember(t, start, total, stop, log), ParseMember(t + more, start, total + |more|, stop, log),
                   more)
    decreases |t|, 4
  {
    match ReadString(t, [])
    case Some(StringRead(key, rest)) =>
      ReadStringMore(t, [], more);
      AfterKeyMore(Event(true, key, start, total - |rest|), rest, total, stop, log, more);
    case None =>
      if more == BREAK {
        BrokenKey(t, start, total + |BREAK|, stop, log);
      }
  }

  lemma {:induction false} AfterKeyMore<T>(e: Event, rest: seq<Byte>, total: int, stop: Callback<T>, log: seq<Event>,
                                           more: seq<Byte>)
    requires e.isKey && e.end == total - |rest|
    ensures GoesOn(AfterKeyRead(Some(StringRead(e.text, rest)), e.start, total, stop, log),
                   AfterKeyRead(Some(StringRead(e.text, rest + more)), e.start, total + |more|, stop, log), more)
    decreases |rest|, 2
  {
    AfterKeyIs(e, rest, total, stop, log);
    AfterKeyIs(e, rest + more, total + |more|, stop, log);
    if stop(log + [e]).None? {
      ParseMemberValueMore(rest, total, stop, log + [e], e.start + 1, more);
    }
  }

  lemma {:induction false} BrokenKey<T>(t: seq<Byte>, start: int, total: int, stop: Callback<T>, log: seq<Event>)
    requires ReadString(t, []).None?
    ensures IsBroken(ParseMember(t + BREAK, start, total, stop, log))
  {
    ReadStringBroken(t, []);
    var e := Event(true, ReadString(t + BREAK, []).value.text, start, total - 1);
    AfterKeyIs(e, [LETTER_X], total, stop, log);
    assert SkipSpace([LETTER_X]) == [LETTER_X];
    assert ParseMemberValue([LETTER_X], total, stop, log + [e], start + 1).outcome.Failed?;
  }

  lemma {:induction false} ParseMemberValueMore<T>(t: seq<Byte>, total: int, stop: Callback<T>, log: seq<Event>,
                                                   at: int, more: seq<Byte>)
    ensures GoesOn(ParseMemberValue(t, total, stop, log, at), ParseMemberValue(t + more, total + |more|, stop, log, at),
                   more)
    decreases |t|, 1
  {
    var u := SkipSpace(t);
    SkipSpaceMore(t, more);
    BreakIsNoSpace();
    if u != [] {
      HeadMore(u, more);
      if u[0] == COLON {
        var v := SkipSpace(u[1..]);
        SkipSpaceMore(u[1..], more);
        if v != [] {
          HeadMore(v, more);
          ParseValueMore(v[0], v[1..], total, stop, log, more);
        } else if more == BREAK {
          assert ParseValue(LETTER_X, BREAK[1..], total + |BREAK|, stop, log).outcome.Failed?;
        }
      }
    }
  }

  // ----- Whole inputs

  lemma {:induction false} ParseJsonMore<T>(s: seq<Byte>, more: seq<Byte>, stop: Callback<T>)
    ensures GoesOn(ParseJson(s, |s|, stop), ParseJson(s + more, |s + more|, stop), more)
  {
    var t := SkipSpace(s);
    SkipSpaceMore(s, more);
    BreakIsNoSpace();
    if t != [] {
      HeadMore(t, more);
      ParseValueMore(t[0], t[1..], |s|, stop, [], more);
    } else if more == BREAK {
      assert ParseValue(LETTER_X, BREAK[1..], |s + more|, stop, []).outcome.Failed?;
    }
  }

  /** When an input is refused, more input leads to something else if and only if it is refused for its end;
      and if not, to the same error and the same calls. */
  lemma {:induction false} EofIffContinuable<T>(s: seq<Byte>, stop: Callback<T>)
    requires ParseJson(s, |s|, stop).outcome.Failed?
    ensures var r := ParseJson(s, |s|, stop);
      && (r.outcome.error == UnexpectedEof
          <==> exists more :: ParseJson(s + more, |s + more|, stop).outcome != r.outcome)
      && (r.outcome.error != UnexpectedEof ==> forall more :: ParseJson(s + more, |s + more|, stop) == r)
  {
    ParseJsonMore(s, BREAK, stop);
    forall more ensures GoesOn(ParseJson(s, |s|, stop), ParseJson(s + more, |s + more|, stop), more) {
      ParseJsonMore(s, more, stop);
    }
    if ParseJson(s, |s|, stop).outcome == Failed(UnexpectedEof) {
      assert IsBroken(ParseJson(s + BREAK, |s + BREAK|, stop));
    }
  }
}
