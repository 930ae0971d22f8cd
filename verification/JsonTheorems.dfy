/** What the streaming JSON reader accepts and reports: exactly the relaxed documents and their
    keys and strings. */
module JsonTheorems {
  import opened Bytes
  import opened JsonString
  import opened JsonNumber
  import opened JsonSpec
  import opened JsonGrammar

  /** Callbacks that never return early. */
  ghost predicate Silent<T(!new)>(stop: Callback<T>) {
    forall log :: stop(log) == None
  }

  lemma {:induction false} SkipSpaceInverts(space: Space, tail: seq<Byte>)
    requires AllSpace(space)
    ensures SkipSpace(space + tail) == SkipSpace(tail)
  {
    if space == [] {
      assert space + tail == tail;
    } else {
      assert (space + tail)[1..] == space[1..] + tail;
      SkipSpaceInverts(space[1..], tail);
    }
  }

  lemma {:induction false} SpaceSkipped(s: seq<Byte>) returns (space: Space)
    ensures AllSpace(space) && s == space + SkipSpace(s)
    ensures SkipSpace(s) != [] ==> !IsSpace(SkipSpace(s)[0])
  {
    if s == [] || !IsSpace(s[0]) {
      space := [];
    } else {
      var more := SpaceSkipped(s[1..]);
      space := [s[0]] + more;
      assert space + SkipSpace(s) == [s[0]] + s[1..];
    }
  }

  // ----- Completeness

  /** What a number asks of the input after it: that it does not continue the number, and that it
      is not just white space. */
  predicate NumberEnds(n: Number, tail: seq<Byte>) {
    Stops(n, tail) && (tail == [] || SkipSpace(tail) != [])
  }

  predicate NodeEnds(n: Node, tail: seq<Byte>) {
    n.Numeral? ==> NumberEnds(n.number, tail)
  }

  /** White space and then a byte that is neither space nor part of a number ends any number. */
  lemma {:induction false} NumberEndsHere(n: Number, space: Space, tail: seq<Byte>)
    requires AllSpace(space) && tail != [] && !IsSpace(tail[0])
    requires !IsDigit(tail[0]) && !IsExponentMark(tail[0]) && !IsExponentStart(tail[0]) && tail[0] != POINT
    ensures NumberEnds(n, space + tail)
    ensures SkipSpace(space + tail) == tail
  {
    SkipSpaceInverts(space, tail);
    var first := (space + tail)[0];
    assert first == if space == [] then tail[0] else space[0];
  }

  lemma {:induction false} ParseNumberComplete<T>(n: Number, tail: seq<Byte>, log: seq<Event>)
    requires ValidNumber(n) && NumberEnds(n, tail)
    ensures var s := NumberText(n) + tail;
      && (s[0] == MINUS || IsDigit(s[0]))
      && ParseNumber<T>(s[0], s[1..], log) == Parsed(Done(SkipSpace(tail)), log)
  {
    ReadNumberComplete(n, tail);
    if tail != [] {
      Uncons(tail);
    }
  }

  lemma {:induction false} ParseWordComplete<T>(k: Keyword, tail: seq<Byte>, total: int, stop: Callback<T>,
                                                log: seq<Event>)
    ensures var s := KeywordText(k) + tail;
      ParseValue(s[0], s[1..], total, stop, log) == Parsed(Done(SkipSpace(tail)), log)
  {
    var s := KeywordText(k) + tail;
    var n := |KeywordText(k)| - 1;
    assert s[1..][..n] == KeywordText(k)[1..] && s[1..][n..] == tail;
    assert KeywordText(True)[1..] == RUE && KeywordText(False)[1..] == ALSE && KeywordText(Null)[1..] == ULL;
  }

  lemma {:induction false} TextStep<T(!new)>(body: seq<Piece>, tail: seq<Byte>, t: seq<Byte>, total: int,
                                             stop: Callback<T>, log: seq<Event>, event: Event)
    requires ValidPieces(body) && Silent(stop) && t == StringText(body, tail)
    requires event == Event(false, Meaning([], body), Before(total, t), total - |tail|)
    ensures ParseText(t, total, stop, log) == Parsed(Done(SkipSpace(tail)), log + [event])
  {
    ReadStringComplete(body, tail, []);
    AfterTextIs(event, tail, total, stop, log);
  }

  lemma {:induction false} ParseTextComplete<T(!new)>(body: seq<Piece>, tail: seq<Byte>, total: int,
                                                      stop: Callback<T>, log: seq<Event>)
    requires ValidPieces(body) && Silent(stop) && |NodeText(Text(body), tail)| <= total
    ensures var s := NodeText(Text(body), tail);
      && s != []
      && ParseValue(s[0], s[1..], total, stop, log)
         == Parsed(Done(SkipSpace(tail)), log + NodeEvents(Text(body), tail, total))
  {
    var s := NodeText(Text(body), tail);
    var event := Event(false, Meaning([], body), Before(total, s[1..]), total - |tail|);
    assert s[1..] == StringText(body, tail);
    TextStep(body, tail, s[1..], total, stop, log, event);
    assert NodeEvents(Text(body), tail, total) == [event];
  }

  lemma {:induction false} EmptyArrayComplete<T>(space: Space, tail: seq<Byte>, total: int, stop: Callback<T>,
                                                 log: seq<Event>)
    requires AllSpace(space)
    ensures ParseItems(space + ([RBRACKET] + tail), total, stop, log, true) == Parsed(Done(SkipSpace(tail)), log)
  {
    SkipSpaceInverts(space, [RBRACKET] + tail);
    assert ([RBRACKET] + tail)[1..] == tail;
  }

  lemma {:induction false} EmptyObjectComplete<T>(space: Space, tail: seq<Byte>, total: int, stop: Callback<T>,
                                                  log: seq<Event>)
    requires AllSpace(space)
    ensures ParseMembers(space + ([RBRACE] + tail), total, stop, log, true) == Parsed(Done(SkipSpace(tail)), log)
  {
    SkipSpaceInverts(space, [RBRACE] + tail);
    assert ([RBRACE] + tail)[1..] == tail;
  }

  lemma {:induction false} NumeralComplete<T(!new)>(number: Number, tail: seq<Byte>, total: int, stop: Callback<T>,
                                                    log: seq<Event>)
    requires ValidNumber(number) && NumberEnds(number, tail)
    ensures var s := NumberText(number) + tail;
      && s != [] && !IsSpace(s[0]) && s[0] != RBRACKET
      && ParseValue(s[0], s[1..], total, stop, log) == Parsed(Done(SkipSpace(tail)), log)
  {
    ParseNumberComplete<T>(number, tail, log);
  }

  lemma {:induction false} LeafComplete<T(!new)>(n: Node, tail: seq<Byte>, total: int, stop: Callback<T>,
                                                 log: seq<Event>)
    requires ValidNode(n) && NodeEnds(n, tail) && Silent(stop) && |NodeText(n, tail)| <= total
    requires n.Text? || n.Numeral? || n.Word?
    ensures var s := NodeText(n, tail);
      && s != [] && !IsSpace(s[0]) && s[0] != RBRACKET
      && ParseValue(s[0], s[1..], total, stop, log)
         == Parsed(Done(SkipSpace(tail)), log + NodeEvents(n, tail, total))
  {
    Assoc(log, [], []);
    match n {
      case Text(body) => ParseTextComplete(body, tail, total, stop, log);
      case Numeral(number) => NumeralComplete(number, tail, total, stop, log);
      case Word(keyword) => ParseWordComplete(keyword, tail, total, stop, log);
    }
  }

  /** Every relaxed value is read, with exactly its events. */
  lemma {:induction false} NodeComplete<T(!new)>(n: Node, tail: seq<Byte>, total: int, stop: Callback<T>,
                                                 log: seq<Event>)
    requires ValidNode(n) && NodeEnds(n, tail) && Silent(stop) && |NodeText(n, tail)| <= total
    ensures var s := NodeText(n, tail);
      && s != [] && !IsSpace(s[0]) && s[0] != RBRACKET
      && ParseValue(s[0], s[1..], total, stop, log)
         == Parsed(Done(SkipSpace(tail)), log + NodeEvents(n, tail, total))
    decreases n
  {
    match n {
      case Array(items) =>
        assert NodeText(n, tail)[1..] == ItemsText(items, tail);
        ItemsComplete(items, tail, total, stop, log, true);
      case Object(members) =>
        assert NodeText(n, tail)[1..] == MembersText(members, tail);
        MembersComplete(members, tail, total, stop, log, true);
      case EmptyArray(space) =>
        assert NodeText(n, tail)[1..] == space + ([RBRACKET] + tail);
        EmptyArrayComplete(space, tail, total, stop, log);
        Assoc(log, [], []);
      case EmptyObject(space) =>
        assert NodeText(n, tail)[1..] == space + ([RBRACE] + tail);
        EmptyObjectComplete(space, tail, total, stop, log);
        Assoc(log, [], []);
      case _ =>
        LeafComplete(n, tail, total, stop, log);
    }
  }

  /** One round of the array loop. */
  lemma {:induction false} ItemsStep<T>(s: seq<Byte>, total: int, stop: Callback<T>, log: seq<Event>, first: bool,
                                        t: seq<Byte>, next: seq<Byte>, log': seq<Event>)
    requires SkipSpace(s) == t && t != [] && !(first && t[0] == RBRACKET) && next != []
    requires ParseValue(t[0], t[1..], total, stop, log) == Parsed(Done(next), log')
    ensures next[0] == COMMA ==>
      ParseItems(s, total, stop, log, first) == ParseItems(next[1..], total, stop, log', false)
    ensures next[0] == RBRACKET ==>
      ParseItems(s, total, stop, log, first) == Parsed(Done(SkipSpace(next[1..])), log')
  {
  }

  lemma {:induction false} ItemsComplete<T(!new)>(i: Items, tail: seq<Byte>, total: int, stop: Callback<T>,
                                                  log: seq<Event>, first: bool)
    requires ValidItems(i) && Silent(stop) && |ItemsText(i, tail)| <= total
    ensures ParseItems(ItemsText(i, tail), total, stop, log, first)
      == Parsed(Done(SkipSpace(tail)), log + ItemsEvents(i, tail, total))
    decreases i, 2
  {
    ItemsHead(i, tail, total, stop, log, first);
    var events := NodeEvents(i.value, AfterItem(i, tail), total);
    if i.MoreItems? {
      ItemsComplete(i.rest, tail, total, stop, log + events, false);
      Assoc(log, events, ItemsEvents(i.rest, tail, total));
    } else {
      Assoc(log, events, []);
    }
  }

  lemma {:induction false} ItemsHead<T(!new)>(i: Items, tail: seq<Byte>, total: int, stop: Callback<T>,
                                              log: seq<Event>, first: bool)
    requires ValidItems(i) && Silent(stop) && |ItemsText(i, tail)| <= total
    ensures ParseItems(ItemsText(i, tail), total, stop, log, first)
      == var log' := log + NodeEvents(i.value, AfterItem(i, tail), total);
         if i.MoreItems? then ParseItems(ItemsText(i.rest, tail), total, stop, log', false)
         else Parsed(Done(SkipSpace(tail)), log')
    ensures i.MoreItems? ==> |ItemsText(i.rest, tail)| <= total
    decreases i, 1
  {
    var after := AfterItem(i, tail);
    var t := NodeText(i.value, after);
    var next := if i.MoreItems? then [COMMA] + ItemsText(i.rest, tail) else [RBRACKET] + tail;
    EndsAtMark(i.value, i.trail, next);
    NodeComplete(i.value, after, total, stop, log);
    SkipSpaceInverts(i.lead, t);
    assert SkipSpace(ItemsText(i, tail)) == t;
    assert next[1..] == if i.MoreItems? then ItemsText(i.rest, tail) else tail;
    ItemsStep(ItemsText(i, tail), total, stop, log, first, t, next, log + NodeEvents(i.value, after, total));
  }

  /** A value in an array or an object is followed by a byte that ends it. */
  lemma {:induction false} EndsAtMark(n: Node, space: Space, tail: seq<Byte>)
    requires AllSpace(space) && tail != [] && tail[0] in {COMMA, RBRACKET, RBRACE}
    ensures NodeEnds(n, space + tail) && SkipSpace(space + tail) == tail
  {
    SkipSpaceInverts(space, tail);
    if n.Numeral? {
      NumberEndsHere(n.number, space, tail);
    }
  }

  /** One round of the object loop. */
  lemma {:induction false} MembersStep<T>(s: seq<Byte>, total: int, stop: Callback<T>, log: seq<Event>, first: bool,
                                          t: seq<Byte>, r: Parsed<T>, next: seq<Byte>, log': seq<Event>)
    requires SkipSpace(s) == t && t != [] && t[0] == QUOTE && next != []
    requires r == ParseMember(t[1..], total - |s|, total, stop, log) && r == Parsed(Done(next), log')
    ensures next[0] == COMMA ==>
      ParseMembers(s, total, stop, log, first) == ParseMembers(next[1..], total, stop, log', false)
    ensures next[0] == RBRACE ==>
      ParseMembers(s, total, stop, log, first) == Parsed(Done(SkipSpace(next[1..])), log')
  {
  }

  lemma {:induction false} MembersComplete<T(!new)>(m: Members, tail: seq<Byte>, total: int, stop: Callback<T>,
                                                    log: seq<Event>, first: bool)
    requires ValidMembers(m) && Silent(stop) && |MembersText(m, tail)| <= total
    ensures ParseMembers(MembersText(m, tail), total, stop, log, first)
      == Parsed(Done(SkipSpace(tail)), log + MembersEvents(m, tail, total))
    decreases m, 2
  {
    MembersHead(m, tail, total, stop, log, first);
    var events := MemberEvents(m.member, AfterMember(m, tail), total);
    if m.MoreMembers? {
      MembersComplete(m.rest, tail, total, stop, log + events, false);
      Assoc(log, events, MembersEvents(m.rest, tail, total));
    } else {
      Assoc(log, events, []);
    }
  }

  lemma {:induction false} MembersHead<T(!new)>(m: Members, tail: seq<Byte>, total: int, stop: Callback<T>,
                                                log: seq<Event>, first: bool)
    requires ValidMembers(m) && Silent(stop) && |MembersText(m, tail)| <= total
    ensures ParseMembers(MembersText(m, tail), total, stop, log, first)
      == var log' := log + MemberEvents(m.member, AfterMember(m, tail), total);
         if m.MoreMembers? then ParseMembers(MembersText(m.rest, tail), total, stop, log', false)
         else Parsed(Done(SkipSpace(tail)), log')
    ensures m.MoreMembers? ==> |MembersText(m.rest, tail)| <= total
    decreases m, 1
  {
    var after := AfterMember(m, tail);
    var key := StringText(m.member.key, AfterKey(m.member, after));
    var next := if m.MoreMembers? then [COMMA] + MembersText(m.rest, tail) else [RBRACE] + tail;
    var s := MembersText(m, tail);
    EndsAtMark(m.member.value, m.trail, next);
    MemberTextIs(m.member, after, key);
    var r := ParseMember(key, total - |s|, total, stop, log);
    MemberComplete(m.member, after, key, total - |s|, total, stop, log, r);
    LeadSkipped(s, m.member.lead, key);
    assert next[1..] == if m.MoreMembers? then MembersText(m.rest, tail) else tail;
    MembersStep(s, total, stop, log, first, SkipSpace(s), r, next, log + MemberEvents(m.member, after, total));
  }

  lemma {:induction false} LeadSkipped(s: seq<Byte>, lead: Space, key: seq<Byte>)
    requires AllSpace(lead) && s == lead + ([QUOTE] + key)
    ensures SkipSpace(s) != [] && SkipSpace(s)[0] == QUOTE && SkipSpace(s)[1..] == key
  {
    SkipSpaceInverts(lead, [QUOTE] + key);
  }

  lemma {:induction false} MemberTextIs(m: Member, tail: seq<Byte>, text: seq<Byte>)
    requires text == StringText(m.key, AfterKey(m, tail))
    ensures MemberText(m, tail) == m.lead + ([QUOTE] + text)
  {
  }

  lemma {:induction false} MemberComplete<T(!new)>(m: Member, tail: seq<Byte>, t: seq<Byte>, start: int, total: int,
                                                   stop: Callback<T>, log: seq<Event>, r: Parsed<T>)
    requires ValidMember(m) && NodeEnds(m.value, tail) && Silent(stop) && |MemberText(m, tail)| <= total
    requires t == StringText(m.key, AfterKey(m, tail)) && start == total - |MemberText(m, tail)|
    requires r == ParseMember(t, start, total, stop, log)
    ensures r == Parsed(Done(SkipSpace(tail)), log + MemberEvents(m, tail, total))
    decreases m, 1
  {
    var event := Event(true, Meaning([], m.key), start, total - |AfterKey(m, tail)|);
    KeyStep(m.key, AfterKey(m, tail), start, total, stop, log, event);
    MemberValueComplete(m, tail, total, stop, log + [event], start + 1);
    KeyFirst(m, tail, total, event);
    Assoc(log, [event], NodeEvents(m.value, tail, total));
  }

  lemma {:induction false} KeyFirst(m: Member, tail: seq<Byte>, total: int, event: Event)
    requires event == Event(true, Meaning([], m.key), total - |MemberText(m, tail)|, total - |AfterKey(m, tail)|)
    ensures MemberEvents(m, tail, total) == [event] + NodeEvents(m.value, tail, total)
  {
  }

  lemma {:induction false} KeyStep<T(!new)>(key: seq<Piece>, rest: seq<Byte>, start: int, total: int,
                                            stop: Callback<T>, log: seq<Event>, event: Event)
    requires ValidPieces(key) && Silent(stop)
    requires event == Event(true, Meaning([], key), start, total - |rest|)
    ensures ParseMember(StringText(key, rest), start, total, stop, log)
      == ParseMemberValue(rest, total, stop, log + [event], start + 1)
  {
    ReadStringComplete(key, rest, []);
  }

  lemma {:induction false} MemberValueComplete<T(!new)>(m: Member, tail: seq<Byte>, total: int, stop: Callback<T>,
                                                        log: seq<Event>, at: int)
    requires ValidMember(m) && NodeEnds(m.value, tail) && Silent(stop) && |AfterKey(m, tail)| <= total
    ensures ParseMemberValue(AfterKey(m, tail), total, stop, log, at)
      == Parsed(Done(SkipSpace(tail)), log + NodeEvents(m.value, tail, total))
    decreases m, 0
  {
    var value := NodeText(m.value, tail);
    SkipSpaceInverts(m.beforeColon, [COLON] + (m.afterColon + value));
    assert ([COLON] + (m.afterColon + value))[1..] == m.afterColon + value;
    SkipSpaceInverts(m.afterColon, value);
    NodeComplete(m.value, tail, total, stop, log);
  }

  // ----- Soundness

  lemma {:induction false} NodeIsRead<T(!new)>(n: Node, tail: seq<Byte>, first: Byte, s: seq<Byte>, total: int,
                                               stop: Callback<T>, log: seq<Event>)
    requires ValidNode(n) && NodeEnds(n, tail) && Silent(stop) && |s| < total
    requires [first] + s == NodeText(n, tail)
    ensures ParseValue(first, s, total, stop, log)
      == Parsed(Done(SkipSpace(tail)), log + NodeEvents(n, tail, total))
  {
    NodeComplete(n, tail, total, stop, log);
    assert ([first] + s)[0] == first && ([first] + s)[1..] == s;
  }

  lemma NumeralSound<T>(first: Byte, s: seq<Byte>, log: seq<Event>) returns (n: Number, tail: seq<Byte>)
    requires first == MINUS || IsDigit(first)
    requires ParseNumber<T>(first, s, log).outcome.Done?
    ensures ValidNumber(n) && NumberEnds(n, tail) && [first] + s == NumberText(n) + tail
  {
    n, tail := ReadNumberSound(first, s);
  }

  lemma WordSound<T>(keyword: Keyword, s: seq<Byte>, log: seq<Event>) returns (tail: seq<Byte>)
    requires var word := KeywordText(keyword);
      ParseWord<T>(word[0], word[1..], s, log).outcome.Done?
    ensures [KeywordText(keyword)[0]] + s == KeywordText(keyword) + tail
  {
    var word := KeywordText(keyword);
    tail := s[|word| - 1..];
    assert s == word[1..] + tail;
    Uncons(word);
  }

  /** Whatever value is read was a relaxed value. */
  lemma {:induction false} NodeSound<T(!new)>(first: Byte, s: seq<Byte>, total: int, stop: Callback<T>, log: seq<Event>)
    returns (n: Node, tail: seq<Byte>)
    requires Silent(stop) && |s| < total
    requires ParseValue(first, s, total, stop, log).outcome.Done?
    ensures ValidNode(n) && NodeEnds(n, tail) && [first] + s == NodeText(n, tail)
    decreases |s|, 3
  {
    if first == LBRACE {
      n, tail := ObjectSound(s, total, stop, log);
    } else if first == LBRACKET {
      n, tail := ArraySound(s, total, stop, log);
    } else if first == QUOTE {
      var body := ReadStringSound(s, []);
      n, tail := Text(body), ReadString(s, []).value.rest;
    } else if first == MINUS || IsDigit(first) {
      var number;
      number, tail := NumeralSound<T>(first, s, log);
      n := Numeral(number);
    } else {
      var keyword := if first == LETTER_T then True else if first == LETTER_F then False else Null;
      assert KeywordText(keyword)[1..] == (if first == LETTER_T then RUE else if first == LETTER_F then ALSE else ULL);
      tail := WordSound<T>(keyword, s, log);
      n := Word(keyword);
    }
  }

  lemma {:induction false} ArraySound<T(!new)>(s: seq<Byte>, total: int, stop: Callback<T>, log: seq<Event>)
    returns (n: Node, tail: seq<Byte>)
    requires Silent(stop) && |s| < total
    requires ParseItems(s, total, stop, log, true).outcome.Done?
    ensures ValidNode(n) && !n.Numeral? && [LBRACKET] + s == NodeText(n, tail)
    decreases |s|, 1
  {
    var space := SpaceSkipped(s);
    var t := SkipSpace(s);
    if t[0] == RBRACKET {
      n, tail := EmptyArray(space), t[1..];
      assert t == [RBRACKET] + tail;
    } else {
      var items;
      items, tail := ItemsSound(s, total, stop, log, true);
      n := Array(items);
    }
  }

  lemma {:induction false} ItemsSound<T(!new)>(s: seq<Byte>, total: int, stop: Callback<T>, log: seq<Event>,
                                               first: bool)
    returns (i: Items, tail: seq<Byte>)
    requires Silent(stop) && |s| < total
    requires ParseItems(s, total, stop, log, first).outcome.Done?
    requires first ==> SkipSpace(s)[0] != RBRACKET
    ensures ValidItems(i) && s == ItemsText(i, tail)
    decreases |s|, 0
  {
    var lead := SpaceSkipped(s);
    var t := SkipSpace(s);
    var value, after := NodeSound(t[0], t[1..], total, stop, log);
    Uncons(t);
    NodeIsRead(value, after, t[0], t[1..], total, stop, log);
    var trail := SpaceSkipped(after);
    var next := SkipSpace(after);
    ItemsGoOn(s, t, total, stop, log, first, next, log + NodeEvents(value, after, total));
    if next[0] == COMMA {
      var rest;
      rest, tail := ItemsSound(next[1..], total, stop, log + NodeEvents(value, after, total), false);
      i := MoreItems(lead, value, trail, rest);
    } else {
      tail := next[1..];
      i := LastItem(lead, value, trail);
    }
    assert AfterItem(i, tail) == after;
  }

  lemma {:induction false} ObjectSound<T(!new)>(s: seq<Byte>, total: int, stop: Callback<T>, log: seq<Event>)
    returns (n: Node, tail: seq<Byte>)
    requires Silent(stop) && |s| < total
    requires ParseMembers(s, total, stop, log, true).outcome.Done?
    ensures ValidNode(n) && !n.Numeral? && [LBRACE] + s == NodeText(n, tail)
    decreases |s|, 2
  {
    var space := SpaceSkipped(s);
    var t := SkipSpace(s);
    if t[0] == RBRACE {
      n, tail := EmptyObject(space), t[1..];
      assert t == [RBRACE] + tail;
    } else {
      var members;
      members, tail := MembersSound(s, total, stop, log, true);
      n := Object(members);
    }
  }

  lemma {:induction false} MembersSound<T(!new)>(s: seq<Byte>, total: int, stop: Callback<T>, log: seq<Event>,
                                                 first: bool)
    returns (m: Members, tail: seq<Byte>)
    requires Silent(stop) && |s| < total
    requires ParseMembers(s, total, stop, log, first).outcome.Done?
    requires first ==> SkipSpace(s)[0] != RBRACE
    ensures ValidMembers(m) && s == MembersText(m, tail)
    decreases |s|, 1
  {
    var member, after, next := MembersHeadSound(s, total, stop, log, first);
    var trail := SpaceSkipped(after);
    if next[0] == COMMA {
      var rest;
      rest, tail := MembersSound(next[1..], total, stop, log + MemberEvents(member, after, total), false);
      m := MoreMembers(member, trail, rest);
    } else {
      tail := next[1..];
      m := LastMember(member, trail);
    }
    assert AfterMember(m, tail) == after;
  }

  lemma MembersStart<T>(s: seq<Byte>, total: int, stop: Callback<T>, log: seq<Event>, first: bool)
    returns (text: seq<Byte>)
    requires ParseMembers(s, total, stop, log, first).outcome.Done?
    requires first ==> SkipSpace(s)[0] != RBRACE
    ensures SkipSpace(s) == [QUOTE] + text && |text| < |s|
    ensures ParseMember(text, total - |s|, total, stop, log).outcome.Done?
  {
    text := SkipSpace(s)[1..];
  }

  lemma {:induction false} MembersGoOn<T>(s: seq<Byte>, text: seq<Byte>, total: int, stop: Callback<T>,
                                          log: seq<Event>, first: bool, r: Parsed<T>, next: seq<Byte>,
                                          log': seq<Event>)
    requires ParseMembers(s, total, stop, log, first).outcome.Done?
    requires SkipSpace(s) == [QUOTE] + text
    requires r == ParseMember(text, total - |s|, total, stop, log) && r == Parsed(Done(next), log')
    ensures next != [] && next == [next[0]] + next[1..]
    ensures next[0] == RBRACE || (next[0] == COMMA
      && ParseMembers(s, total, stop, log, first) == ParseMembers(next[1..], total, stop, log', false))
  {
    assert SkipSpace(s)[1..] == text;
  }

  lemma {:induction false} ItemsGoOn<T>(s: seq<Byte>, t: seq<Byte>, total: int, stop: Callback<T>, log: seq<Event>,
                                        first: bool, next: seq<Byte>, log': seq<Event>)
    requires ParseItems(s, total, stop, log, first).outcome.Done?
    requires t == SkipSpace(s) && t != [] && (first ==> t[0] != RBRACKET)
    requires ParseValue(t[0], t[1..], total, stop, log) == Parsed(Done(next), log')
    ensures next != [] && next == [next[0]] + next[1..]
    ensures next[0] == RBRACKET || (next[0] == COMMA
      && ParseItems(s, total, stop, log, first) == ParseItems(next[1..], total, stop, log', false))
  {
  }

  lemma {:induction false} MembersHeadSound<T(!new)>(s: seq<Byte>, total: int, stop: Callback<T>, log: seq<Event>,
                                                     first: bool)
    returns (m: Member, after: seq<Byte>, next: seq<Byte>)
    requires Silent(stop) && |s| < total
    requires ParseMembers(s, total, stop, log, first).outcome.Done?
    requires first ==> SkipSpace(s)[0] != RBRACE
    ensures ValidMember(m) && NodeEnds(m.value, after) && s == MemberText(m, after)
    ensures next == SkipSpace(after) && next != [] && next == [next[0]] + next[1..] && |next| < |s|
    ensures next[0] == RBRACE || (next[0] == COMMA && ParseMembers(s, total, stop, log, first)
      == ParseMembers(next[1..], total, stop, log + MemberEvents(m, after, total), false))
    decreases |s|, 0
  {
    var lead := SpaceSkipped(s);
    var text := MembersStart(s, total, stop, log, first);
    var r := ParseMember(text, total - |s|, total, stop, log);
    m, after := MemberReadSound(s, lead, text, total, stop, log, r);
    next := SkipSpace(after);
    MembersGoOn(s, text, total, stop, log, first, r, next, log + MemberEvents(m, after, total));
  }

  /** The member that was read is one whose reading gives the same result. */
  lemma {:induction false} MemberReadSound<T(!new)>(s: seq<Byte>, lead: Space, text: seq<Byte>, total: int,
                                                    stop: Callback<T>, log: seq<Event>, r: Parsed<T>)
    returns (m: Member, after: seq<Byte>)
    requires Silent(stop) && |s| < total && AllSpace(lead) && s == lead + ([QUOTE] + text)
    requires r == ParseMember(text, total - |s|, total, stop, log) && r.outcome.Done?
    ensures ValidMember(m) && NodeEnds(m.value, after) && s == MemberText(m, after)
    ensures r == Parsed(Done(SkipSpace(after)), log + MemberEvents(m, after, total))
    decreases |text|, 5
  {
    m, after := MemberSound(lead, text, total - |s|, total, stop, log);
    MemberTextIs(m, after, text);
    MemberComplete(m, after, text, total - |s|, total, stop, log, r);
  }

  lemma {:induction false} MemberSound<T(!new)>(lead: Space, s: seq<Byte>, start: int, total: int, stop: Callback<T>,
                                                log: seq<Event>)
    returns (m: Member, tail: seq<Byte>)
    requires Silent(stop) && |s| < total && AllSpace(lead)
    requires ParseMember(s, start, total, stop, log).outcome.Done?
    ensures ValidMember(m) && NodeEnds(m.value, tail) && m.lead == lead
    ensures s == StringText(m.key, AfterKey(m, tail))
    decreases |s|, 4
  {
    var key := ReadStringSound(s, []);
    var r := ReadString(s, []).value;
    var log' := log + [Event(true, r.text, start, total - |r.rest|)];
    m, tail := MemberValueSound(lead, key, r.rest, total, stop, log', start + 1);
  }

  lemma {:induction false} MemberValueSound<T(!new)>(lead: Space, key: seq<Piece>, s: seq<Byte>, total: int,
                                                     stop: Callback<T>, log: seq<Event>, at: int)
    returns (m: Member, tail: seq<Byte>)
    requires Silent(stop) && |s| < total && AllSpace(lead) && ValidPieces(key)
    requires ParseMemberValue(s, total, stop, log, at).outcome.Done?
    ensures ValidMember(m) && NodeEnds(m.value, tail) && m.lead == lead && m.key == key
    ensures s == AfterKey(m, tail)
    decreases |s|, 3
  {
    var beforeColon := SpaceSkipped(s);
    var t := SkipSpace(s);
    var afterColon := SpaceSkipped(t[1..]);
    var u := SkipSpace(t[1..]);
    var value;
    value, tail := NodeSound(u[0], u[1..], total, stop, log);
    Uncons(u);
    Uncons(t);
    m := Member(lead, key, beforeColon, afterColon, value);
  }
}
