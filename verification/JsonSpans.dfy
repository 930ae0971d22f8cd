/** Where the ranges lie that the streaming JSON reader reports, whatever the input and the callbacks:
    each covers the quoted string whose decoding is reported, and no two overlap. */
module JsonSpans {
  import opened Bytes
  import opened JsonString
  import opened JsonNumber
  import opened JsonSpec
  import opened JsonGrammar
  import opened JsonTheorems

  /** The quoted string in a range. The range of a key may start with white space. */
  function Quoted(s: seq<Byte>, e: Event): seq<Byte>
    requires 0 <= e.start <= e.end <= |s|
  {
    if e.isKey then SkipSpace(s[e.start..e.end]) else s[e.start..e.end]
  }

  /** What it decodes to. */
  function Decoded(s: seq<Byte>, e: Event): Option<StringRead>
    requires 0 <= e.start <= e.end <= |s|
  {
    var quoted := Quoted(s, e);
    if quoted == [] || quoted[0] != QUOTE then None else ReadString(quoted[1..], [])
  }

  /** The range is that of a quoted string, from quote to quote, that decodes to the reported text. */
  predicate IsSpan(s: seq<Byte>, e: Event) {
    && 0 <= e.start < e.end <= |s|
    && s[e.end - 1] == QUOTE
    && (!e.isKey ==> s[e.start] == QUOTE)
    && Decoded(s, e) == Some(StringRead(e.text, []))
  }

  /** The events lie between `lo` and `hi`, one after another. */
  predicate Chained(log: seq<Event>, lo: int, hi: int) {
    if log == [] then lo <= hi
    else lo <= log[0].start && log[0].start < log[0].end && Chained(log[1..], log[0].end, hi)
  }

  lemma {:induction false} ChainedAppend(a: seq<Event>, b: seq<Event>, lo: int, mid: int, hi: int)
    requires Chained(a, lo, mid) && Chained(b, mid, hi)
    ensures Chained(a + b, lo, hi)
  {
    if a == [] {
      assert a + b == b;
      ChainedFrom(b, lo, mid, hi);
    } else {
      assert (a + b)[1..] == a[1..] + b;
      ChainedAppend(a[1..], b, a[0].end, mid, hi);
    }
  }

  lemma {:induction false} ChainedFrom(log: seq<Event>, lo: int, mid: int, hi: int)
    requires lo <= mid && Chained(log, mid, hi)
    ensures Chained(log, lo, hi)
  {
  }

  lemma {:induction false} ChainedTo(log: seq<Event>, lo: int, mid: int, hi: int)
    requires Chained(log, lo, mid) && mid <= hi
    ensures Chained(log, lo, hi)
  {
    if log != [] {
      ChainedTo(log[1..], log[0].end, mid, hi);
    }
  }

  lemma {:induction false} ChainedIsOrdered(log: seq<Event>, lo: int, hi: int, i: nat, j: nat)
    requires Chained(log, lo, hi) && i < j < |log|
    ensures log[i].end <= log[j].start
    decreases |log|
  {
    if i > 0 {
      ChainedIsOrdered(log[1..], log[0].end, hi, i - 1, j - 1);
    } else {
      ChainedStartsAfter(log[1..], log[0].end, hi, j - 1);
    }
  }

  lemma {:induction false} ChainedStartsAfter(log: seq<Event>, lo: int, hi: int, j: nat)
    requires Chained(log, lo, hi) && j < |log|
    ensures lo <= log[j].start
  {
    if j > 0 {
      ChainedStartsAfter(log[1..], log[0].end, hi, j - 1);
    }
  }

  predicate EndsWith(s: seq<Byte>, t: seq<Byte>) {
    |t| <= |s| && s[|s| - |t|..] == t
  }

  lemma EndSlice(s: seq<Byte>, t: seq<Byte>, a: seq<Byte>, b: seq<Byte>)
    requires EndsWith(s, t) && t == a + b
    ensures s[|s| - |t|..|s| - |b|] == a
  {
    assert s[|s| - |t|..|s| - |b|] == t[..|a|];
  }

  lemma QuotedText(space: Space, body: seq<Piece>, tail: seq<Byte>)
    ensures space + ([QUOTE] + StringText(body, tail)) == space + ([QUOTE] + StringText(body, [])) + tail
    ensures ([QUOTE] + StringText(body, []))[1..] == StringText(body, [])
  {
    Assoc(PiecesText(body), [QUOTE], tail);
    Assoc([QUOTE], PiecesText(body) + [QUOTE], tail);
    Assoc(space, [QUOTE] + (PiecesText(body) + [QUOTE]), tail);
    Assoc([QUOTE], [], []);
  }

  lemma QuoteEnds(space: Space, body: seq<Piece>)
    ensures var text := space + ([QUOTE] + StringText(body, [])); text != [] && text[|text| - 1] == QUOTE
  {
  }

  lemma {:induction false} DecodedIs(s: seq<Byte>, e: Event, range: seq<Byte>, space: Space, body: seq<Piece>,
                                     quoted: seq<Byte>)
    requires ValidPieces(body) && AllSpace(space) && (!e.isKey ==> space == []) && e.text == Meaning([], body)
    requires quoted == [QUOTE] + StringText(body, []) && quoted[1..] == StringText(body, [])
    requires 0 <= e.start <= e.end <= |s| && range == s[e.start..e.end] && range == space + quoted
    ensures Decoded(s, e) == Some(StringRead(e.text, []))
  {
    if e.isKey {
      SkipSpaceInverts(space, quoted);
    } else {
      Assoc([], [], quoted);
    }
    assert Quoted(s, e) == quoted;
    ReadStringComplete(body, [], []);
  }

  lemma EndsOfSlice(s: seq<Byte>, start: nat, end: nat, range: seq<Byte>)
    requires start < end <= |s| && range == s[start..end]
    ensures s[start] == range[0] && s[end - 1] == range[|range| - 1]
  {
  }

  lemma QuotesAtEnds(s: seq<Byte>, start: nat, end: nat, range: seq<Byte>, space: Space, quoted: seq<Byte>)
    requires start < end <= |s| && range == s[start..end] && range == space + quoted && quoted != []
    requires quoted[0] == QUOTE && range[|range| - 1] == QUOTE
    ensures s[end - 1] == QUOTE && (space == [] ==> s[start] == QUOTE)
  {
    EndsOfSlice(s, start, end, range);
  }

  lemma RangeIsQuoted(s: seq<Byte>, e: Event, range: seq<Byte>, space: Space, quoted: seq<Byte>, rest: seq<Byte>)
    requires 0 <= e.start < e.end <= |s| && range == s[e.start..e.end] && (!e.isKey ==> space == [])
    requires range == space + quoted && range[|range| - 1] == QUOTE && quoted == [QUOTE] + rest
    ensures s[e.end - 1] == QUOTE && (!e.isKey ==> s[e.start] == QUOTE)
  {
    QuotesAtEnds(s, e.start, e.end, range, space, quoted);
  }

  /** A range that holds a quoted string after `space`. */
  lemma {:induction false} RangeIsSpan(s: seq<Byte>, e: Event, range: seq<Byte>, space: Space, body: seq<Piece>,
                                       quoted: seq<Byte>)
    requires ValidPieces(body) && AllSpace(space) && (!e.isKey ==> space == []) && e.text == Meaning([], body)
    requires quoted == [QUOTE] + StringText(body, []) && quoted[1..] == StringText(body, [])
    requires 0 <= e.start < e.end <= |s| && range == s[e.start..e.end]
    requires range == space + quoted && range[|range| - 1] == QUOTE
    ensures IsSpan(s, e)
  {
    RangeIsQuoted(s, e, range, space, quoted, StringText(body, []));
    DecodedIs(s, e, range, space, body, quoted);
  }

  /** A quoted string after `space`, where `s` ends with it and `tail`. */
  lemma {:induction false} QuotedSpan(s: seq<Byte>, space: Space, body: seq<Piece>, tail: seq<Byte>, e: Event)
    requires ValidPieces(body) && AllSpace(space) && (!e.isKey ==> space == []) && e.text == Meaning([], body)
    requires EndsWith(s, space + ([QUOTE] + StringText(body, tail)))
    requires e.start == |s| - |space + ([QUOTE] + StringText(body, tail))| && e.end == |s| - |tail|
    ensures IsSpan(s, e)
  {
    var quoted := [QUOTE] + StringText(body, []);
    QuotedText(space, body, tail);
    QuoteEnds(space, body);
    EndSlice(s, space + ([QUOTE] + StringText(body, tail)), space + quoted, tail);
    RangeIsSpan(s, e, s[e.start..e.end], space, body, quoted);
  }

  lemma EndsWithTail(s: seq<Byte>, t: seq<Byte>, a: seq<Byte>, b: seq<Byte>)
    requires EndsWith(s, t) && t == a + b
    ensures EndsWith(s, b)
  {
    assert s[|s| - |b|..] == t[|a|..];
  }

  lemma EndsWithoutFirst(s: seq<Byte>, t: seq<Byte>)
    requires EndsWith(s, t) && t != []
    ensures EndsWith(s, t[1..])
  {
    EndsWithTail(s, t, [t[0]], t[1..]);
  }

  lemma EndsWithoutSpace(s: seq<Byte>, t: seq<Byte>) returns (space: Space)
    requires EndsWith(s, t)
    ensures EndsWith(s, SkipSpace(t)) && AllSpace(space) && t == space + SkipSpace(t)
  {
    space := SpaceSkipped(t);
    EndsWithTail(s, t, space, SkipSpace(t));
  }

  // ----- What one call of the reader adds to the reports

  /** The events are ranges of `s`, one after another, between `lo` and `hi`. */
  ghost predicate Ranged(s: seq<Byte>, events: seq<Event>, lo: int, hi: int) {
    Chained(events, lo, hi) && forall e :: e in events ==> IsSpan(s, e)
  }

  function EndOf<T>(s: seq<Byte>, r: Parsed<T>): int {
    if r.outcome.Done? then |s| - |r.outcome.next| else |s|
  }

  /** After `log`, a run that starts at offset `lo` reports ranges up to where it ends. */
  ghost predicate Reports<T>(s: seq<Byte>, log: seq<Event>, r: Parsed<T>, lo: int) {
    match r.outcome
    case Done(next) =>
      EndsWith(s, next) && log <= r.log && Ranged(s, r.log[|log|..], lo, |s| - |next|)
    case _ =>
      log <= r.log && Ranged(s, r.log[|log|..], lo, |s|)
  }

  lemma ReportsNothing<T>(s: seq<Byte>, r: Parsed<T>, lo: int)
    requires r.outcome.Done? ==> EndsWith(s, r.outcome.next)
    requires lo <= EndOf(s, r)
    ensures Reports(s, r.log, r, lo)
  {
    assert r.log[|r.log|..] == [];
  }

  lemma ReportsOne<T>(s: seq<Byte>, log: seq<Event>, e: Event, r: Parsed<T>, lo: int)
    requires r.log == log + [e] && IsSpan(s, e) && lo <= e.start && e.end <= EndOf(s, r)
    requires r.outcome.Done? ==> EndsWith(s, r.outcome.next)
    ensures Reports(s, log, r, lo)
  {
    assert r.log[|log|..] == [e] && [e][1..] == [];
  }

  lemma RangedBoth(s: seq<Byte>, a: seq<Event>, b: seq<Event>, lo: int, mid: int, lo': int, hi: int)
    requires Ranged(s, a, lo, mid) && Ranged(s, b, lo', hi) && mid <= lo'
    ensures Ranged(s, a + b, lo, hi)
  {
    ChainedTo(a, lo, mid, lo');
    ChainedAppend(a, b, lo, lo', hi);
  }

  lemma ReportsFrom<T>(s: seq<Byte>, log: seq<Event>, r: Parsed<T>, lo: int, lo': int)
    requires Reports(s, log, r, lo) && lo' <= lo
    ensures Reports(s, log, r, lo')
  {
  }

  /** A run that goes on where another ended. */
  lemma ReportsThen<T>(s: seq<Byte>, log: seq<Event>, r: Parsed<T>, more: Parsed<T>, lo: int, lo': int)
    requires Reports(s, log, r, lo) && Reports(s, r.log, more, lo') && EndOf(s, r) <= lo'
    ensures Reports(s, log, more, lo)
  {
    RangedBoth(s, r.log[|log|..], more.log[|r.log|..], lo, EndOf(s, r), lo', EndOf(s, more));
    assert more.log[|log|..] == r.log[|log|..] + more.log[|r.log|..];
  }

  /** A run that reports no more and ends no earlier. */
  lemma ReportsEnd<T>(s: seq<Byte>, log: seq<Event>, r: Parsed<T>, end: Parsed<T>, lo: int)
    requires Reports(s, log, r, lo) && end.log == r.log && EndOf(s, r) <= EndOf(s, end)
    requires end.outcome.Done? ==> EndsWith(s, end.outcome.next)
    ensures Reports(s, log, end, lo)
  {
    ReportsNothing(s, end, EndOf(s, r));
    ReportsThen(s, log, r, end, lo, EndOf(s, r));
  }

  // ----- The reader, call by call

  lemma AfterReports<T>(s: seq<Byte>, rest: seq<Byte>, log: seq<Event>, lo: int)
    requires EndsWith(s, rest) && lo <= |s| - |rest|
    ensures Reports(s, log, After<T>(rest, log), lo)
  {
    var _ := EndsWithoutSpace(s, rest);
    ReportsNothing(s, After<T>(rest, log), lo);
  }

  lemma NumberEnds(first: Byte, t: seq<Byte>, s: seq<Byte>) returns (tail: seq<Byte>)
    requires first == MINUS || IsDigit(first)
    requires EndsWith(s, [first] + t) && (ReadNumber(first, t).Ended? || ReadNumber(first, t).Followed?)
    ensures EndsWith(s, tail) && |tail| <= |t|
    ensures ReadNumber(first, t) == JsonNumber.EndOf(tail)
  {
    var number;
    number, tail := ReadNumberSound(first, t);
    EndsWithTail(s, [first] + t, NumberText(number), tail);
  }

  lemma {:induction false} AfterNumberIs<T>(first: Byte, t: seq<Byte>, log: seq<Event>, tail: seq<Byte>)
    requires ReadNumber(first, t) == JsonNumber.EndOf(tail)
    ensures var r := ParseNumber<T>(first, t, log);
      r.log == log && (r.outcome.Done? ==> r.outcome.next == SkipSpace(tail))
  {
  }

  lemma NumberReports<T>(first: Byte, t: seq<Byte>, s: seq<Byte>, log: seq<Event>, lo: int, whole: Parsed<T>)
    requires first == MINUS || IsDigit(first)
    requires EndsWith(s, [first] + t) && lo < |s| - |t| && whole == ParseNumber(first, t, log)
    ensures Reports(s, log, whole, lo)
  {
    if whole.outcome.Done? {
      var tail := NumberEnds(first, t, s);
      AfterNumberIs<T>(first, t, log, tail);
      var _ := EndsWithoutSpace(s, tail);
    }
    ReportsNothing(s, whole, lo);
  }

  lemma WordReports<T>(first: Byte, word: seq<Byte>, t: seq<Byte>, s: seq<Byte>, log: seq<Event>, lo: int,
                       whole: Parsed<T>)
    requires EndsWith(s, t) && lo < |s| - |t| && whole == ParseWord(first, word, t, log)
    ensures Reports(s, log, whole, lo)
  {
    if |word| <= |t| && t[..|word|] == word {
      EndsWithTail(s, t, word, t[|word|..]);
      AfterReports<T>(s, t[|word|..], log, lo);
    } else {
      ReportsNothing(s, whole, lo);
    }
  }

  /** The range of a string that was read after `space` and a quote. */
  lemma ReadSpan(s: seq<Byte>, isKey: bool, space: Space, t: seq<Byte>) returns (e: Event)
    requires EndsWith(s, space + ([QUOTE] + t)) && AllSpace(space) && (!isKey ==> space == [])
    requires ReadString(t, []).Some?
    ensures var StringRead(text, rest) := ReadString(t, []).value;
      && EndsWith(s, rest) && e == Event(isKey, text, |s| - |space + ([QUOTE] + t)|, |s| - |rest|)
      && IsSpan(s, e)
  {
    var StringRead(text, rest) := ReadString(t, []).value;
    var body := ReadStringSound(t, []);
    e := SpanOf(s, isKey, space, body, t, rest);
  }

  lemma SpanOf(s: seq<Byte>, isKey: bool, space: Space, body: seq<Piece>, t: seq<Byte>, rest: seq<Byte>)
    returns (e: Event)
    requires ValidPieces(body) && AllSpace(space) && (!isKey ==> space == []) && t == StringText(body, rest)
    requires EndsWith(s, space + ([QUOTE] + t))
    ensures EndsWith(s, rest) && IsSpan(s, e)
    ensures e == Event(isKey, Meaning([], body), |s| - |space + ([QUOTE] + t)|, |s| - |rest|)
  {
    e := Event(isKey, Meaning([], body), |s| - |space + ([QUOTE] + t)|, |s| - |rest|);
    QuotedSpan(s, space, body, rest, e);
    StringTail(s, space, body, rest);
  }

  lemma StringTail(s: seq<Byte>, space: Space, body: seq<Piece>, rest: seq<Byte>)
    requires EndsWith(s, space + ([QUOTE] + StringText(body, rest)))
    ensures EndsWith(s, rest)
  {
    EndsWithTail(s, space + ([QUOTE] + StringText(body, rest)), space, [QUOTE] + StringText(body, rest));
    EndsWithTail(s, [QUOTE] + StringText(body, rest), [QUOTE], StringText(body, rest));
    EndsWithTail(s, StringText(body, rest), PiecesText(body), [QUOTE] + rest);
    EndsWithTail(s, [QUOTE] + rest, [QUOTE], rest);
  }

  lemma TextReadReports<T>(s: seq<Byte>, e: Event, rest: seq<Byte>, stop: Callback<T>, log: seq<Event>,
                           whole: Parsed<T>)
    requires !e.isKey && IsSpan(s, e) && EndsWith(s, rest) && e.end == |s| - |rest|
    requires whole == AfterTextRead(Some(StringRead(e.text, rest)), e.start, |s|, stop, log)
    ensures Reports(s, log, whole, e.start)
  {
    var _ := EndsWithoutSpace(s, rest);
    AfterTextIs(e, rest, |s|, stop, log);
    ReportsOne(s, log, e, whole, e.start);
  }

  lemma TextReports<T>(t: seq<Byte>, s: seq<Byte>, stop: Callback<T>, log: seq<Event>, lo: int, whole: Parsed<T>)
    requires EndsWith(s, [QUOTE] + t) && lo < |s| - |t| && whole == ParseText(t, |s|, stop, log)
    ensures Reports(s, log, whole, lo)
  {
    if ReadString(t, []).Some? {
      Assoc([], [], [QUOTE] + t);
      var e := ReadSpan(s, false, [], t);
      TextReadReports(s, e, ReadString(t, []).value.rest, stop, log, whole);
      ReportsFrom(s, log, whole, e.start, lo);
    } else {
      ReportsNothing(s, whole, lo);
    }
  }

  /** What the array or object loop makes of an item or member, and of the rounds after a comma. */
  function GoOn<T>(r: Parsed<T>, more: Parsed<T>, close: Byte, error: Error): Parsed<T> {
    if !r.outcome.Done? then r
    else if r.outcome.next == [] then Parsed(Failed(UnexpectedEof), r.log)
    else if r.outcome.next[0] == COMMA then more
    else if r.outcome.next[0] == close then After(r.outcome.next[1..], r.log)
    else Parsed(Failed(error), r.log)
  }

  lemma GoOnReports<T>(s: seq<Byte>, log: seq<Event>, r: Parsed<T>, more: Parsed<T>, close: Byte, error: Error,
                       lo: int, whole: Parsed<T>)
    requires Reports(s, log, r, lo) && whole == GoOn(r, more, close, error)
    requires r.outcome.Done? && r.outcome.next != [] ==> Reports(s, r.log, more, |s| - |r.outcome.next| + 1)
    ensures Reports(s, log, whole, lo)
  {
    if r.outcome.Done? && r.outcome.next != [] {
      var next := r.outcome.next;
      EndsWithoutFirst(s, next);
      if next[0] == COMMA {
        ReportsThen(s, log, r, whole, lo, |s| - |next| + 1);
      } else if next[0] == close {
        AfterReports<T>(s, next[1..], r.log, |s| - |next| + 1);
        ReportsThen(s, log, r, whole, lo, |s| - |next| + 1);
      } else {
        ReportsEnd(s, log, r, whole, lo);
      }
    } else {
      ReportsEnd(s, log, r, whole, lo);
    }
  }

  function Unread<T>(r: Parsed<T>): nat {
    if r.outcome.Done? then |r.outcome.next| else 0
  }

  /** What the array loop makes of an item. */
  function ItemsAfter<T>(r: Parsed<T>, total: int, stop: Callback<T>): Parsed<T> {
    if !r.outcome.Done? || r.outcome.next == [] then GoOn(r, r, RBRACKET, UnexpectedEof)
    else
      var b, rest := r.outcome.next[0], r.outcome.next[1..];
      GoOn(r, ParseItems(rest, total, stop, r.log, false), RBRACKET, ExpectedCommaInArray(b, Before(total, rest)))
  }

  lemma {:induction false} ItemsGoOn<T>(t: seq<Byte>, u: seq<Byte>, total: int, stop: Callback<T>, log: seq<Event>,
                                        first: bool, r: Parsed<T>)
    requires u == SkipSpace(t) && u != [] && !(first && u[0] == RBRACKET)
    requires r == ParseValue(u[0], u[1..], total, stop, log)
    ensures ParseItems(t, total, stop, log, first) == ItemsAfter(r, total, stop) && Unread(r) < |t|
  {
  }

  /** What the object loop makes of a member. */
  function MembersAfter<T>(r: Parsed<T>, total: int, stop: Callback<T>): Parsed<T> {
    if !r.outcome.Done? || r.outcome.next == [] then GoOn(r, r, RBRACE, UnexpectedEof)
    else
      var b, rest := r.outcome.next[0], r.outcome.next[1..];
      GoOn(r, ParseMembers(rest, total, stop, r.log, false), RBRACE, ExpectedCommaInObject(b, Before(total, rest)))
  }

  lemma {:induction false} MembersGoOn<T>(t: seq<Byte>, u: seq<Byte>, total: int, stop: Callback<T>, log: seq<Event>,
                                          first: bool, r: Parsed<T>)
    requires u == SkipSpace(t) && u != [] && u[0] == QUOTE
    requires r == ParseMember(u[1..], total - |t|, total, stop, log)
    ensures ParseMembers(t, total, stop, log, first) == MembersAfter(r, total, stop) && Unread(r) < |t|
  {
  }

  lemma {:induction false} ValueReports<T>(first: Byte, t: seq<Byte>, s: seq<Byte>, stop: Callback<T>,
                                           log: seq<Event>, lo: int, whole: Parsed<T>)
    requires EndsWith(s, [first] + t) && lo < |s| - |t|
    requires whole == ParseValue(first, t, |s|, stop, log)
    ensures Reports(s, log, whole, lo)
    decreases |t|, 3
  {
    EndsWithTail(s, [first] + t, [first], t);
    if first == LBRACE {
      MembersReports(t, s, stop, log, true, lo, whole);
    } else if first == LBRACKET {
      ItemsReports(t, s, stop, log, true, lo, whole);
    } else if first == QUOTE {
      TextReports(t, s, stop, log, lo, whole);
    } else if first == MINUS || IsDigit(first) {
      NumberReports(first, t, s, log, lo, whole);
    } else if first == LETTER_T {
      WordReports(first, RUE, t, s, log, lo, whole);
    } else if first == LETTER_F {
      WordReports(first, ALSE, t, s, log, lo, whole);
    } else if first == LETTER_N {
      WordReports(first, ULL, t, s, log, lo, whole);
    } else {
      ReportsNothing(s, whole, lo);
    }
  }

  lemma {:induction false} ItemsReports<T>(t: seq<Byte>, s: seq<Byte>, stop: Callback<T>, log: seq<Event>,
                                           first: bool, lo: int, whole: Parsed<T>)
    requires EndsWith(s, t) && lo <= |s| - |t| && whole == ParseItems(t, |s|, stop, log, first)
    ensures Reports(s, log, whole, lo)
    decreases |t|, 2
  {
    var u := SkipSpace(t);
    var _ := EndsWithoutSpace(s, t);
    if u == [] {
      ReportsNothing(s, whole, lo);
    } else if first && u[0] == RBRACKET {
      EndsWithoutFirst(s, u);
      AfterReports<T>(s, u[1..], log, lo);
    } else {
      var r := ParseValue(u[0], u[1..], |s|, stop, log);
      Uncons(u);
      ValueReports(u[0], u[1..], s, stop, log, lo, r);
      ItemsGoOn(t, u, |s|, stop, log, first, r);
      MoreItemsReport(r, s, stop, log, lo, whole);
    }
  }

  lemma {:induction false} MoreItemsReport<T>(r: Parsed<T>, s: seq<Byte>, stop: Callback<T>, log: seq<Event>, lo: int,
                                              whole: Parsed<T>)
    requires Reports(s, log, r, lo) && whole == ItemsAfter(r, |s|, stop)
    ensures Reports(s, log, whole, lo)
    decreases Unread(r), 0
  {
    if r.outcome.Done? && r.outcome.next != [] {
      var b, rest := r.outcome.next[0], r.outcome.next[1..];
      var more := ParseItems(rest, |s|, stop, r.log, false);
      EndsWithoutFirst(s, r.outcome.next);
      ItemsReports(rest, s, stop, r.log, false, |s| - |rest|, more);
      GoOnReports(s, log, r, more, RBRACKET, ExpectedCommaInArray(b, Before(|s|, rest)), lo, whole);
    } else {
      GoOnReports(s, log, r, r, RBRACKET, UnexpectedEof, lo, whole);
    }
  }

  lemma {:induction false} MembersReports<T>(t: seq<Byte>, s: seq<Byte>, stop: Callback<T>, log: seq<Event>,
                                             first: bool, lo: int, whole: Parsed<T>)
    requires EndsWith(s, t) && lo <= |s| - |t| && whole == ParseMembers(t, |s|, stop, log, first)
    ensures Reports(s, log, whole, lo)
    decreases |t|, 2
  {
    var u := SkipSpace(t);
    var space := EndsWithoutSpace(s, t);
    if u == [] || (u[0] != QUOTE && !(first && u[0] == RBRACE)) {
      ReportsNothing(s, whole, lo);
    } else if u[0] == RBRACE {
      EndsWithoutFirst(s, u);
      AfterReports<T>(s, u[1..], log, lo);
    } else {
      var start := |s| - |t|;
      var r := ParseMember(u[1..], start, |s|, stop, log);
      Uncons(u);
      MemberReports(space, u[1..], s, stop, log, start, r);
      ReportsFrom(s, log, r, start, lo);
      MembersGoOn(t, u, |s|, stop, log, first, r);
      MoreMembersReport(r, s, stop, log, lo, whole);
    }
  }

  lemma {:induction false} MoreMembersReport<T>(r: Parsed<T>, s: seq<Byte>, stop: Callback<T>, log: seq<Event>,
                                                lo: int, whole: Parsed<T>)
    requires Reports(s, log, r, lo) && whole == MembersAfter(r, |s|, stop)
    ensures Reports(s, log, whole, lo)
    decreases Unread(r), 0
  {
    if r.outcome.Done? && r.outcome.next != [] {
      var b, rest := r.outcome.next[0], r.outcome.next[1..];
      var more := ParseMembers(rest, |s|, stop, r.log, false);
      EndsWithoutFirst(s, r.outcome.next);
      MembersReports(rest, s, stop, r.log, false, |s| - |rest|, more);
      GoOnReports(s, log, r, more, RBRACE, ExpectedCommaInObject(b, Before(|s|, rest)), lo, whole);
    } else {
      GoOnReports(s, log, r, r, RBRACE, UnexpectedEof, lo, whole);
    }
  }

  lemma {:induction false} KeyReadReports<T>(s: seq<Byte>, e: Event, rest: seq<Byte>, stop: Callback<T>,
                                             log: seq<Event>, whole: Parsed<T>)
    requires e.isKey && IsSpan(s, e) && EndsWith(s, rest) && e.end == |s| - |rest|
    requires whole == AfterKeyRead(Some(StringRead(e.text, rest)), e.start, |s|, stop, log)
    ensures Reports(s, log, whole, e.start)
    decreases |rest|, 2
  {
    AfterKeyIs(e, rest, |s|, stop, log);
    if stop(log + [e]).Some? {
      ReportsOne(s, log, e, whole, e.start);
    } else {
      var key: Parsed<T> := Parsed(Done(rest), log + [e]);
      ReportsOne(s, log, e, key, e.start);
      MemberValueReports(rest, s, stop, log + [e], e.start + 1, e.end, whole);
      ReportsThen(s, log, key, whole, e.start, e.end);
    }
  }

  lemma {:induction false} MemberReports<T>(space: Space, t: seq<Byte>, s: seq<Byte>, stop: Callback<T>,
                                            log: seq<Event>, start: int, whole: Parsed<T>)
    requires EndsWith(s, space + ([QUOTE] + t)) && AllSpace(space) && start == |s| - |space + ([QUOTE] + t)|
    requires whole == ParseMember(t, start, |s|, stop, log)
    ensures Reports(s, log, whole, start)
    decreases |t|, 4
  {
    if ReadString(t, []).None? {
      ReportsNothing(s, whole, start);
    } else {
      var e := ReadSpan(s, true, space, t);
      KeyReadReports(s, e, ReadString(t, []).value.rest, stop, log, whole);
    }
  }

  lemma {:induction false} NoMemberValue<T>(t: seq<Byte>, u: seq<Byte>, total: int, stop: Callback<T>,
                                            log: seq<Event>, at: int)
    requires u == SkipSpace(t) && (u == [] || u[0] != COLON || SkipSpace(u[1..]) == [])
    ensures var r := ParseMemberValue(t, total, stop, log, at); r.outcome.Failed? && r.log == log
  {
  }

  lemma {:induction false} MemberValueIs<T>(t: seq<Byte>, u: seq<Byte>, v: seq<Byte>, total: int, stop: Callback<T>,
                                            log: seq<Event>, at: int)
    requires u == SkipSpace(t) && u != [] && u[0] == COLON && v == SkipSpace(u[1..]) && v != []
    ensures ParseMemberValue(t, total, stop, log, at) == ParseValue(v[0], v[1..], total, stop, log)
  {
  }

  lemma {:induction false} MemberValueReports<T>(t: seq<Byte>, s: seq<Byte>, stop: Callback<T>, log: seq<Event>,
                                                 at: int, lo: int, whole: Parsed<T>)
    requires EndsWith(s, t) && lo <= |s| - |t| && whole == ParseMemberValue(t, |s|, stop, log, at)
    ensures Reports(s, log, whole, lo)
    decreases |t|, 1
  {
    var u := SkipSpace(t);
    var _ := EndsWithoutSpace(s, t);
    if u == [] || u[0] != COLON || SkipSpace(u[1..]) == [] {
      NoMemberValue(t, u, |s|, stop, log, at);
      ReportsNothing(s, whole, lo);
    } else {
      EndsWithoutFirst(s, u);
      var v := SkipSpace(u[1..]);
      var _ := EndsWithoutSpace(s, u[1..]);
      Uncons(v);
      MemberValueIs(t, u, v, |s|, stop, log, at);
      ValueReports(v[0], v[1..], s, stop, log, lo, whole);
    }
  }

  // ----- Every report

  /** For any input and any callbacks, also when the input is refused later or a callback returns early:
      every reported range is the span of its text, and successive ranges are disjoint and increasing. */
  lemma SpansAreExact<T>(s: seq<Byte>, stop: Callback<T>)
    ensures var log := ParseJson(s, |s|, stop).log;
      && (forall e :: e in log ==> IsSpan(s, e))
      && (forall i, j :: 0 <= i < j < |log| ==> log[i].end <= log[j].start)
  {
    var r, t := ParseJson(s, |s|, stop), SkipSpace(s);
    if t == [] {
      assert r.log == [];
    } else {
      var _ := EndsWithoutSpace(s, s);
      Uncons(t);
      ValueReports(t[0], t[1..], s, stop, [], 0, r);
      assert r.log[0..] == r.log;
      RangedApart(s, r.log, 0, EndOf(s, r));
    }
  }

  lemma RangedApart(s: seq<Byte>, log: seq<Event>, lo: int, hi: int)
    requires Ranged(s, log, lo, hi)
    ensures forall e :: e in log ==> IsSpan(s, e)
    ensures forall i, j :: 0 <= i < j < |log| ==> log[i].end <= log[j].start
  {
    ChainedPairs(log, lo, hi);
  }

  lemma {:induction false} ChainedPairs(log: seq<Event>, lo: int, hi: int)
    requires Chained(log, lo, hi)
    ensures forall i, j :: 0 <= i < j < |log| ==> log[i].end <= log[j].start
  {
    forall i, j | 0 <= i < j < |log| ensures log[i].end <= log[j].start {
      ChainedIsOrdered(log, lo, hi, i, j);
    }
  }
}
