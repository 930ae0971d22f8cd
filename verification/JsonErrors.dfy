/** What the errors of the streaming reader say about the input. */
module JsonErrors {
  import opened Bytes
  import opened JsonString
  import opened JsonNumber
  import opened JsonSpec
  import opened JsonSpans

  predicate StartsValue(b: Byte) {
    || b == LBRACE || b == LBRACKET || b == QUOTE || b == MINUS || IsDigit(b)
    || b == LETTER_T || b == LETTER_F || b == LETTER_N
  }

  predicate IsAt(s: seq<Byte>, b: Byte, at: int) {
    0 <= at < |s| && s[at] == b
  }

  /** The first byte of the input that is not white space, from an offset on. */
  predicate IsNextAfter(s: seq<Byte>, b: Byte, at: int) {
    0 <= at <= |s| && SkipSpace(s[at..]) != [] && SkipSpace(s[at..])[0] == b
  }

  /** The first byte that is not white space behind the quoted string that starts at an offset, after white
      space. */
  predicate IsNextAfterString(s: seq<Byte>, b: Byte, at: int) {
    IsNextAfter(s, QUOTE, at)
    && match ReadString(SkipSpace(s[at..])[1..], [])
       case None => false
       case Some(StringRead(_, rest)) => SkipSpace(rest) != [] && SkipSpace(rest)[0] == b
  }

  /** Three or four bytes after the first letter of a keyword that do not make it one. */
  predicate IsNoKeyword(s: seq<Byte>, word: seq<Byte>, at: int) {
    && 0 <= at && at + |word| <= |s| && s[at..at + |word|] == word
    && |word| >= 4 && word != [LETTER_T] + RUE && word != [LETTER_F] + ALSE && word != [LETTER_N] + ULL
    && (word[0] == LETTER_T || word[0] == LETTER_F || word[0] == LETTER_N)
    && |word| == if word[0] == LETTER_F then 5 else 4
  }

  /** What each error says is so. The offset in the error about a colon is one behind that of the key, and both
      that and the offset in the error about a key are before the white space there. */
  ghost predicate IsTrue(s: seq<Byte>, e: Error) {
    match e
    case UnexpectedEof => true
    case MissingDigit => exists at :: 0 <= at < |s| - 1 && s[at] == MINUS && !IsDigit(s[at + 1])
    case UnknownKeyword(word) => exists at :: IsNoKeyword(s, word, at)
    case UnexpectedByte(b, at) => IsAt(s, b, at) && !StartsValue(b)
    case ExpectedKey(b, at) => IsNextAfter(s, b, at) && b != QUOTE
    case ExpectedColon(b, at) => IsNextAfterString(s, b, at - 1) && b != COLON
    case ExpectedCommaInObject(b, at) => IsAt(s, b, at) && b != COMMA && b != RBRACE
    case ExpectedCommaInArray(b, at) => IsAt(s, b, at) && b != COMMA && b != RBRACKET
  }

  ghost predicate TellsTrue<T>(s: seq<Byte>, r: Parsed<T>) {
    match r.outcome
    case Failed(e) => IsTrue(s, e)
    case _ => true
  }

  lemma FirstOfEnd(s: seq<Byte>, t: seq<Byte>)
    requires EndsWith(s, t) && t != []
    ensures IsAt(s, t[0], Before(|s|, t[1..])) && Before(|s|, t[1..]) == |s| - |t|
  {
    assert s[|s| - |t|] == s[|s| - |t|..][0];
  }

  lemma {:induction false} SpaceBefore(s: seq<Byte>, t: seq<Byte>)
    requires EndsWith(s, t) && SkipSpace(t) != []
    ensures IsNextAfter(s, SkipSpace(t)[0], |s| - |t|)
  {
  }

  lemma MinusIsThere(s: seq<Byte>, t: seq<Byte>)
    requires EndsWith(s, [MINUS] + t) && t != [] && !IsDigit(t[0])
    ensures exists at :: 0 <= at < |s| - 1 && s[at] == MINUS && !IsDigit(s[at + 1])
  {
    var at := |s| - |t| - 1;
    var u := [MINUS] + t;
    assert s[at] == s[|s| - |u|..][0] && s[at + 1] == s[|s| - |u|..][1];
  }

  lemma {:induction false} NumberTells<T>(first: Byte, t: seq<Byte>, s: seq<Byte>, log: seq<Event>, r: Parsed<T>)
    requires first == MINUS || IsDigit(first)
    requires EndsWith(s, [first] + t) && r == ParseNumber(first, t, log)
    ensures TellsTrue(s, r)
  {
    if ReadNumber(first, t) == NumberRead.MissingDigit {
      assert first == MINUS && t != [] && !IsDigit(t[0]);
      MinusIsThere(s, t);
    }
  }

  lemma {:induction false} WordTells<T>(first: Byte, word: seq<Byte>, t: seq<Byte>, s: seq<Byte>, log: seq<Event>,
                                        r: Parsed<T>)
    requires EndsWith(s, [first] + t) && r == ParseWord(first, word, t, log)
    requires (first == LETTER_T && word == RUE) || (first == LETTER_F && word == ALSE)
             || (first == LETTER_N && word == ULL)
    ensures TellsTrue(s, r)
  {
    if |word| <= |t| && t[..|word|] != word {
      var read, at := [first] + t[..|word|], |s| - |t| - 1;
      assert read[1..] == t[..|word|];
      assert [first] + t == read + t[|word|..];
      EndSlice(s, [first] + t, read, t[|word|..]);
      assert IsNoKeyword(s, read, at);
    }
  }

  // ----- Values, arrays and objects

  lemma {:induction false} GoOnTells<T>(s: seq<Byte>, r: Parsed<T>, more: Parsed<T>, close: Byte, error: Error)
    requires TellsTrue(s, r)
    requires r.outcome.Done? && r.outcome.next != [] ==>
      && (r.outcome.next[0] == COMMA ==> TellsTrue(s, more))
      && (r.outcome.next[0] != COMMA && r.outcome.next[0] != close ==> IsTrue(s, error))
    ensures TellsTrue(s, GoOn(r, more, close, error))
  {
  }

  lemma DoneEnds<T>(s: seq<Byte>, log: seq<Event>, r: Parsed<T>, lo: int)
    requires Reports(s, log, r, lo) && r.outcome.Done?
    ensures EndsWith(s, r.outcome.next)
  {
  }

  lemma {:induction false} ValueTells<T>(first: Byte, t: seq<Byte>, s: seq<Byte>, stop: Callback<T>,
                                         log: seq<Event>, r: Parsed<T>)
    requires EndsWith(s, [first] + t) && r == ParseValue(first, t, |s|, stop, log)
    ensures TellsTrue(s, r)
    decreases |t|, 3
  {
    EndsWithTail(s, [first] + t, [first], t);
    if first == LBRACE {
      MembersTell(t, s, stop, log, true, r);
    } else if first == LBRACKET {
      ItemsTell(t, s, stop, log, true, r);
    } else if first == QUOTE {
      assert r == AfterTextRead(ReadString(t, []), Before(|s|, t), |s|, stop, log);
    } else if first == MINUS || IsDigit(first) {
      NumberTells(first, t, s, log, r);
    } else if first == LETTER_T {
      WordTells(first, RUE, t, s, log, r);
    } else if first == LETTER_F {
      WordTells(first, ALSE, t, s, log, r);
    } else if first == LETTER_N {
      WordTells(first, ULL, t, s, log, r);
    } else {
      FirstOfEnd(s, [first] + t);
      assert ([first] + t)[1..] == t;
    }
  }

  lemma {:induction false} ItemsTell<T>(t: seq<Byte>, s: seq<Byte>, stop: Callback<T>, log: seq<Event>, first: bool,
                                        r: Parsed<T>)
    requires EndsWith(s, t) && r == ParseItems(t, |s|, stop, log, first)
    ensures TellsTrue(s, r)
    decreases |t|, 2
  {
    var u := SkipSpace(t);
    var _ := EndsWithoutSpace(s, t);
    if u != [] && !(first && u[0] == RBRACKET) {
      var item := ParseValue(u[0], u[1..], |s|, stop, log);
      Uncons(u);
      ValueTells(u[0], u[1..], s, stop, log, item);
      ValueReports(u[0], u[1..], s, stop, log, |s| - |u|, item);
      ItemsGoOn(t, u, |s|, stop, log, first, item);
      MoreItemsTell(s, stop, log, item, |s| - |u|, r);
    }
  }

  lemma {:induction false} MoreItemsTell<T>(s: seq<Byte>, stop: Callback<T>, log: seq<Event>, item: Parsed<T>, lo: int,
                                            r: Parsed<T>)
    requires Reports(s, log, item, lo) && TellsTrue(s, item) && r == ItemsAfter(item, |s|, stop)
    ensures TellsTrue(s, r)
    decreases Unread(item), 0
  {
    if item.outcome.Done? && item.outcome.next != [] {
      var b, rest := item.outcome.next[0], item.outcome.next[1..];
      var more := ParseItems(rest, |s|, stop, item.log, false);
      DoneEnds(s, log, item, lo);
      FirstOfEnd(s, item.outcome.next);
      EndsWithoutFirst(s, item.outcome.next);
      ItemsTell(rest, s, stop, item.log, false, more);
      GoOnTells(s, item, more, RBRACKET, ExpectedCommaInArray(b, Before(|s|, rest)));
    } else {
      GoOnTells(s, item, item, RBRACKET, UnexpectedEof);
    }
  }

  lemma {:induction false} MembersTell<T>(t: seq<Byte>, s: seq<Byte>, stop: Callback<T>, log: seq<Event>, first: bool,
                                          r: Parsed<T>)
    requires EndsWith(s, t) && r == ParseMembers(t, |s|, stop, log, first)
    ensures TellsTrue(s, r)
    decreases |t|, 2
  {
    var u := SkipSpace(t);
    var space := EndsWithoutSpace(s, t);
    if u != [] && u[0] != QUOTE && !(first && u[0] == RBRACE) {
      SpaceBefore(s, t);
    } else if u != [] && u[0] == QUOTE {
      var member := ParseMember(u[1..], |s| - |t|, |s|, stop, log);
      Uncons(u);
      MemberTells(t, u[1..], s, stop, log, member);
      MemberReports(space, u[1..], s, stop, log, |s| - |t|, member);
      MembersGoOn(t, u, |s|, stop, log, first, member);
      MoreMembersTell(s, stop, log, member, |s| - |t|, r);
    }
  }

  lemma {:induction false} MoreMembersTell<T>(s: seq<Byte>, stop: Callback<T>, log: seq<Event>, member: Parsed<T>,
                                              lo: int, r: Parsed<T>)
    requires Reports(s, log, member, lo) && TellsTrue(s, member) && r == MembersAfter(member, |s|, stop)
    ensures TellsTrue(s, r)
    decreases Unread(member), 0
  {
    if member.outcome.Done? && member.outcome.next != [] {
      var b, rest := member.outcome.next[0], member.outcome.next[1..];
      var more := ParseMembers(rest, |s|, stop, member.log, false);
      DoneEnds(s, log, member, lo);
      FirstOfEnd(s, member.outcome.next);
      EndsWithoutFirst(s, member.outcome.next);
      MembersTell(rest, s, stop, member.log, false, more);
      GoOnTells(s, member, more, RBRACE, ExpectedCommaInObject(b, Before(|s|, rest)));
    } else {
      GoOnTells(s, member, member, RBRACE, UnexpectedEof);
    }
  }

  /** `t` starts with the key, after white space, and `u` behind the quote that opens it. */
  lemma {:induction false} MemberTells<T>(t: seq<Byte>, u: seq<Byte>, s: seq<Byte>, stop: Callback<T>,
                                          log: seq<Event>, r: Parsed<T>)
    requires EndsWith(s, t) && SkipSpace(t) == [QUOTE] + u && r == ParseMember(u, |s| - |t|, |s|, stop, log)
    ensures TellsTrue(s, r)
    decreases |u|, 4
  {
    match ReadString(u, [])
    case None =>
    case Some(StringRead(key, rest)) =>
      var e := Event(true, key, |s| - |t|, |s| - |rest|);
      AfterKeyIs(e, rest, |s|, stop, log);
      if stop(log + [e]).None? {
        KeyEnds(t, u, s, rest);
        ColonTells(t, u, rest, s, stop, log + [e], r);
      }
  }

  lemma {:induction false} KeyEnds(t: seq<Byte>, u: seq<Byte>, s: seq<Byte>, rest: seq<Byte>)
    requires EndsWith(s, t) && SkipSpace(t) == [QUOTE] + u
    requires ReadString(u, []).Some? && ReadString(u, []).value.rest == rest
    ensures EndsWith(s, rest)
  {
    var space := EndsWithoutSpace(s, t);
    var e := ReadSpan(s, true, space, u);
  }

  lemma {:induction false} ColonTells<T>(t: seq<Byte>, u: seq<Byte>, rest: seq<Byte>, s: seq<Byte>, stop: Callback<T>,
                                         log: seq<Event>, r: Parsed<T>)
    requires EndsWith(s, t) && SkipSpace(t) == [QUOTE] + u && EndsWith(s, rest)
    requires ReadString(u, []).Some? && ReadString(u, []).value.rest == rest && |rest| < |u|
    requires r == ParseMemberValue(rest, |s|, stop, log, |s| - |t| + 1)
    ensures TellsTrue(s, r)
    decreases |rest|, 4
  {
    var v := SkipSpace(rest);
    var _ := EndsWithoutSpace(s, rest);
    if v != [] && v[0] != COLON {
      SpaceBefore(s, t);
      assert ([QUOTE] + u)[1..] == u;
      assert IsNextAfterString(s, v[0], |s| - |t|);
    } else if v != [] {
      var w := SkipSpace(v[1..]);
      EndsWithoutFirst(s, v);
      var _ := EndsWithoutSpace(s, v[1..]);
      if w != [] {
        Uncons(w);
        MemberValueIs(rest, v, w, |s|, stop, log, |s| - |t| + 1);
        ValueTells(w[0], w[1..], s, stop, log, r);
      }
    }
  }

  /** Every error that any input is refused with is true of it: the byte is there, at that offset, and is not
      what was expected. */
  lemma {:induction false} ErrorsAreTrue<T>(s: seq<Byte>, stop: Callback<T>)
    ensures match ParseJson(s, |s|, stop).outcome
      case Failed(e) => IsTrue(s, e)
      case _ => true
  {
    var t := SkipSpace(s);
    if t != [] {
      var _ := EndsWithoutSpace(s, s);
      Uncons(t);
      ValueTells(t[0], t[1..], s, stop, [], ParseJson(s, |s|, stop));
    }
  }
}
