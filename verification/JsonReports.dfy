/** The reports for a JSON body: every key and every string value is matched as a string of its own, at the
    position at which its range starts. */
module JsonReports {
  import opened Bytes
  import opened Unicode
  import opened JsonString
  import opened JsonSpec
  import opened JsonTheorems
  import opened JsonSpans
  import opened RawSearch
  import opened Correlation
  import opened Evaluator
  import opened Matcher
  import opened HtmlScan
  import opened HtmlReports
  import opened HtmlNeedles

  /** What the callback for a key or value reports. */
  function Reported(m: PreparedMatchers, e: Event): seq<Match> {
    Matched(m.raws, m.regexes, Max(e.start, 0), 0, e.text, m.correlations)
  }

  function ReportedFor(m: PreparedMatchers, log: seq<Event>, keys: bool): seq<Match> {
    if log == [] then []
    else (if log[0].isKey == keys then Reported(m, log[0]) else []) + ReportedFor(m, log[1..], keys)
  }

  /** The callbacks never return early. */
  const NEVER: Callback<()> := (log: seq<Event>) => None

  function Parse(s: seq<Byte>): Parsed<()> {
    ParseJson(s, |s|, NEVER)
  }

  /** The matches of the values, and behind them, unless the input is refused, those of the keys. */
  function JsonMatches(keys: PreparedMatchers, values: PreparedMatchers, s: seq<Byte>): seq<Match> {
    var r := Parse(s);
    ReportedFor(values, r.log, false) + if r.outcome.Failed? then [] else ReportedFor(keys, r.log, true)
  }

  // ----- Strings without escapes

  /** The bytes between the quotes. */
  function Between(s: seq<Byte>, e: Event): seq<Byte>
    requires 0 <= e.start <= e.end <= |s|
  {
    Inner(Quoted(s, e))
  }

  function Inner(quoted: seq<Byte>): seq<Byte> {
    if |quoted| < 2 then [] else quoted[1..|quoted| - 1]
  }

  /** How far behind the reported position the text between the quotes starts. */
  function ShiftOf(s: seq<Byte>, e: Event): int
    requires 0 <= e.start <= e.end <= |s|
  {
    e.end - |Quoted(s, e)| + 1 - e.start
  }

  /** A text that needs no escapes. */
  predicate IsPlain(text: seq<Scalar>) {
    QUOTE !in text && BACKSLASH !in text
  }

  /** The bytes between the quotes are those of a text, which is written without escapes. */
  ghost predicate PlainSpan(s: seq<Byte>, e: Event) {
    IsSpan(s, e) && exists text :: IsPlain(text) && Between(s, e) == Utf8(text)
  }

  function PlainSpelling(text: seq<Scalar>): seq<seq<Piece>> {
    if text == [] then [] else [[Plain(Utf8Char(text[0]))]] + PlainSpelling(text[1..])
  }

  lemma {:induction false} PlainSpells(text: seq<Scalar>)
    requires IsPlain(text)
    ensures SpellsText(PlainSpelling(text), text) && PiecesText(Concat(PlainSpelling(text))) == Utf8(text)
  {
    if text != [] {
      var first, rest := Plain(Utf8Char(text[0])), PlainSpelling(text[1..]);
      PlainSpells(text[1..]);
      assert ([[first]] + rest)[1..] == rest;
      assert ([first] + Concat(rest))[1..] == Concat(rest);
    }
  }

  /** A text without quotes and backslashes is read as it is written. */
  lemma {:induction false} PlainIsRead(text: seq<Scalar>, tail: seq<Byte>)
    requires IsPlain(text)
    ensures ReadString(Utf8(text) + ([QUOTE] + tail), []) == Some(StringRead(text, tail))
  {
    PlainSpells(text);
    StringRoundTrip(text, PlainSpelling(text), tail);
  }

  lemma QuotedIsEnd(s: seq<Byte>, e: Event, quoted: seq<Byte>) returns (start: nat)
    requires 0 <= e.start <= e.end <= |s| && quoted == Quoted(s, e)
    ensures start + |quoted| == e.end && e.start <= start && (!e.isKey ==> start == e.start)
    ensures IsWindowAt(quoted, s, start)
  {
    var range := s[e.start..e.end];
    start := e.end - |quoted|;
    if e.isKey {
      var space := SpaceSkipped(range);
      SuffixAt(s, e.start, range, space, quoted);
    }
  }

  lemma SuffixAt(s: seq<Byte>, start: nat, range: seq<Byte>, before: seq<Byte>, after: seq<Byte>)
    requires IsWindowAt(range, s, start) && range == before + after
    ensures IsWindowAt(after, s, start + |before|)
  {
    assert after == range[|before|..];
  }

  lemma InnerAt(s: seq<Byte>, start: nat, quoted: seq<Byte>)
    requires IsWindowAt(quoted, s, start) && |quoted| >= 2
    ensures IsWindowAt(Inner(quoted), s, start + 1)
  {
    SliceOfSlice(s, start, start + |quoted|, 1, |quoted| - 1);
  }

  lemma EndsInQuote(quoted: seq<Byte>, s: seq<Byte>, start: nat)
    requires |quoted| >= 2 && IsWindowAt(quoted, s, start) && s[start + |quoted| - 1] == QUOTE
    ensures quoted[1..] == Inner(quoted) + ([QUOTE] + [])
  {
  }

  lemma SpanIsRead(s: seq<Byte>, e: Event, quoted: seq<Byte>)
    requires IsSpan(s, e) && quoted == Quoted(s, e)
    ensures quoted != [] && ReadString(quoted[1..], []) == Some(StringRead(e.text, []))
  {
    assert Decoded(s, e) == ReadString(quoted[1..], []);
  }

  /** The quoted string of a span has two quotes. */
  lemma SpanIsQuoted(s: seq<Byte>, e: Event, quoted: seq<Byte>)
    requires IsSpan(s, e) && quoted == Quoted(s, e)
    ensures |quoted| >= 2
  {
    SpanIsRead(s, e, quoted);
  }

  lemma SpanIsClosed(s: seq<Byte>, e: Event, quoted: seq<Byte>)
    requires IsSpan(s, e) && quoted == Quoted(s, e)
    ensures |quoted| >= 2 && quoted[1..] == Inner(quoted) + ([QUOTE] + [])
  {
    SpanIsQuoted(s, e, quoted);
    var start := QuotedIsEnd(s, e, quoted);
    EndsInQuote(quoted, s, start);
  }

  lemma BetweenIsAt(s: seq<Byte>, e: Event, quoted: seq<Byte>) returns (at: nat)
    requires IsSpan(s, e) && quoted == Quoted(s, e)
    ensures at == e.start + ShiftOf(s, e) && e.start < at && (!e.isKey ==> at == e.start + 1)
    ensures IsWindowAt(Inner(quoted), s, at)
  {
    SpanIsQuoted(s, e, quoted);
    var start := QuotedIsEnd(s, e, quoted);
    InnerAt(s, start, quoted);
    at := start + 1;
  }

  lemma {:induction false} QuotedTextIs(t: seq<Byte>, between: seq<Byte>, text: seq<Scalar>, reported: seq<Scalar>)
    requires IsPlain(text) && between == Utf8(text) && t == between + ([QUOTE] + [])
    requires ReadString(t, []) == Some(StringRead(reported, []))
    ensures reported == text
  {
    PlainIsRead(text, []);
  }

  lemma {:induction false} SpanTextIs(s: seq<Byte>, e: Event, quoted: seq<Byte>, text: seq<Scalar>)
    requires IsSpan(s, e) && quoted == Quoted(s, e) && IsPlain(text) && Inner(quoted) == Utf8(text)
    ensures e.text == text
  {
    SpanIsRead(s, e, quoted);
    SpanIsClosed(s, e, quoted);
    QuotedTextIs(quoted[1..], Inner(quoted), text, e.text);
  }

  /** The bytes between the quotes are those of the reported text. */
  lemma PlainText(s: seq<Byte>, e: Event)
    requires PlainSpan(s, e)
    ensures IsPlain(e.text) && Between(s, e) == Utf8(e.text)
  {
    var text :| IsPlain(text) && Between(s, e) == Utf8(text);
    SpanTextIs(s, e, Quoted(s, e), text);
  }

  // ----- Where the reports are

  ghost predicate OraclesFitAll(m: PreparedMatchers) {
    forall text: seq<Scalar> :: OraclesFit(m.regexes, text)
  }

  lemma {:induction false} ReportSource(m: PreparedMatchers, log: seq<Event>, keys: bool, r: Match) returns (e: Event)
    requires r in ReportedFor(m, log, keys)
    ensures e in log && e.isKey == keys && r in Reported(m, e)
  {
    if log[0].isKey == keys && r in Reported(m, log[0]) {
      e := log[0];
    } else {
      e := ReportSource(m, log[1..], keys, r);
    }
  }

  lemma QuotesLater(r: Match, s: seq<Byte>, shift: nat, rest: seq<Byte>)
    requires shift <= |s| && rest == s[shift..] && Quotes(r, rest)
    ensures Quotes(r.(start := r.start + shift), s)
  {
    var start, end := r.start, r.start + r.length;
    SliceOfSlice(s, shift, |s|, start, end);
    assert rest[start..end] == s[start + shift..start + shift + r.length];
  }

  lemma LaterWindow(text: seq<Byte>, s: seq<Byte>, shift: nat, rest: seq<Byte>, start: nat, at: nat)
    requires IsWindowAt(text, s, at) && at == shift + start && rest == s[shift..]
    ensures IsWindowAt(text, rest, start)
  {
    SliceOfSlice(s, shift, |s|, start, start + |text|);
  }

  /** What one callback reports for a text that is in the body `shift` bytes further on. */
  lemma ReportedIsShifted(m: PreparedMatchers, s: seq<Byte>, e: Event, shift: nat, rest: seq<Byte>, r: Match)
    requires OraclesFit(m.regexes, e.text) && e.start >= 0 && r in Reported(m, e)
    requires shift <= |s| && rest == s[shift..] && IsWindowAt(Utf8(e.text), rest, e.start)
    ensures Quotes(r.(start := r.start + shift), s)
  {
    MatchedQuotes(m, e.start, 0, e.text, rest);
    QuotesLater(r, s, shift, rest);
  }

  /** Every byte is repeated `shift` bytes later. */
  predicate HasPeriod(text: seq<Byte>, shift: nat) {
    forall i :: 0 <= i < |text| - shift ==> text[i] == text[i + shift]
  }

  predicate IsRun(text: seq<Byte>) {
    forall i :: 0 <= i < |text| ==> text[i] == text[0]
  }

  lemma {:induction false} PeriodOneIsRun(text: seq<Byte>)
    ensures HasPeriod(text, 1) <==> IsRun(text)
  {
    if |text| > 1 {
      PeriodOneIsRun(text[1..]);
      if HasPeriod(text, 1) {
        forall i | 0 <= i < |text| - 2 ensures text[1..][i] == text[1..][i + 1] {
          assert text[i + 1] == text[i + 1 + 1];
        }
        assert text[0] == text[0 + 1];
        forall i | 1 <= i < |text| ensures text[i] == text[0] {
          assert text[1..][i - 1] == text[1..][0];
        }
      }
    }
  }

  /** The report quotes the body `shift` bytes behind its position. At the position itself it does only if
      it shows no text or the body, from there to the end of the quoted text, repeats with that period. */
  predicate OffBy(r: Match, s: seq<Byte>, shift: int) {
    && shift >= 1 && Quotes(r.(start := r.start + shift), s)
    && (Quotes(r, s) <==> r.style.NoReport? || HasPeriod(s[r.start..r.start + r.length + shift], shift))
  }

  lemma SlicesAgreeIff(s: seq<Byte>, start: nat, length: nat, shift: nat)
    requires start + length + shift <= |s|
    ensures s[start..start + length] == s[start + shift..start + shift + length]
       <==> HasPeriod(s[start..start + length + shift], shift)
  {
    var a, b, both := s[start..start + length], s[start + shift..start + shift + length],
      s[start..start + length + shift];
    assert forall i :: 0 <= i < length ==> a[i] == both[i] && b[i] == both[i + shift];
  }

  lemma IsOff(r: Match, s: seq<Byte>, shift: nat)
    requires shift >= 1 && Quotes(r.(start := r.start + shift), s)
    ensures OffBy(r, s, shift)
  {
    SlicesAgreeIff(s, r.start, r.length, shift);
  }

  lemma TextIsOff(m: PreparedMatchers, s: seq<Byte>, e: Event, text: seq<Byte>, at: nat, shift: nat, r: Match)
    requires OraclesFitAll(m) && r in Reported(m, e) && e.start >= 0
    requires at == shift + e.start && text == Utf8(e.text) && IsWindowAt(text, s, at)
    ensures Quotes(r.(start := r.start + shift), s)
  {
    var rest := s[shift..];
    LaterWindow(text, s, shift, rest, e.start, at);
    ReportedIsShifted(m, s, e, shift, rest, r);
  }

  lemma ReportedIsOff(m: PreparedMatchers, s: seq<Byte>, e: Event, shift: int, r: Match)
    requires OraclesFitAll(m) && PlainSpan(s, e) && r in Reported(m, e) && shift == ShiftOf(s, e)
    ensures OffBy(r, s, shift) && (!e.isKey ==> shift == 1)
  {
    PlainText(s, e);
    var at := BetweenIsAt(s, e, Quoted(s, e));
    TextIsOff(m, s, e, Between(s, e), at, shift, r);
    IsOff(r, s, shift);
  }

  /** Every report is that of one callback, whose range is exact. */
  lemma SourceOf(keys: PreparedMatchers, values: PreparedMatchers, s: seq<Byte>, r: Match) returns (e: Event)
    requires r in JsonMatches(keys, values, s)
    ensures e in Parse(s).log && IsSpan(s, e) && r in Reported(if e.isKey then keys else values, e)
  {
    var log := Parse(s).log;
    var isKey := r !in ReportedFor(values, log, false);
    e := ReportSource(if isKey then keys else values, log, isKey, r);
    SpansAreExact(s, NEVER);
  }

  /** The reports of a JSON body are off: for a string without escapes each report quotes the body, not at
      its own position but behind the opening quote, and for a key behind the white space before that too. */
  lemma ReportsAreOff(keys: PreparedMatchers, values: PreparedMatchers, s: seq<Byte>, r: Match)
    returns (e: Event, shift: int)
    requires OraclesFitAll(keys) && OraclesFitAll(values) && r in JsonMatches(keys, values, s)
    ensures e in Parse(s).log && IsSpan(s, e) && r in Reported(if e.isKey then keys else values, e)
    ensures shift == ShiftOf(s, e) && (PlainSpan(s, e) ==> OffBy(r, s, shift) && (!e.isKey ==> shift == 1))
  {
    e := SourceOf(keys, values, s, r);
    shift := ShiftOf(s, e);
    if PlainSpan(s, e) {
      ReportedIsOff(if e.isKey then keys else values, s, e, shift, r);
    }
  }

  // ----- Values

  /** A value's report lies one byte before the text that it quotes, between the quotes of the value; where
      it stands it quotes the body just when it shows no text or that byte and the text are a run of one byte. */
  predicate OffByOne(r: Match, s: seq<Byte>) {
    && Quotes(r.(start := r.start + 1), s)
    && (Quotes(r, s) <==> r.style.NoReport? || IsRun(s[r.start..r.start + r.length + 1]))
  }

  lemma ReportedInText(m: PreparedMatchers, e: Event, text: seq<Byte>, r: Match)
    requires OraclesFit(m.regexes, e.text) && e.start >= 0 && text == Utf8(e.text) && r in Reported(m, e)
    ensures r.start + r.length <= e.start + |text|
  {
    var padding: seq<Byte> := seq(e.start, _ => 0);
    assert (padding + text)[e.start..] == text;
    MatchedQuotes(m, e.start, 0, e.text, padding + text);
  }

  lemma {:induction false} NoQuoteInBytes(text: seq<Scalar>)
    requires QUOTE !in text
    ensures QUOTE !in Utf8(text)
  {
    if text != [] {
      NoQuoteInBytes(text[1..]);
      assert QUOTE !in Utf8Char(text[0]);
    }
  }

  lemma OffByIsOne(r: Match, s: seq<Byte>)
    requires OffBy(r, s, 1)
    ensures OffByOne(r, s)
  {
    PeriodOneIsRun(s[r.start..r.start + r.length + 1]);
  }

  lemma StartsDiffer(r: Match, s: seq<Byte>)
    requires OffByOne(r, s) && r.length > 0 && s[r.start] != s[r.start + 1]
    ensures Quotes(r, s) <==> r.style.NoReport?
  {
    var run := s[r.start..r.start + r.length + 1];
    assert run[0] == s[r.start] && run[1] == s[r.start + 1];
  }

  lemma ValueSource(values: PreparedMatchers, s: seq<Byte>, r: Match) returns (e: Event)
    requires r in ReportedFor(values, Parse(s).log, false)
    ensures e in Parse(s).log && !e.isKey && IsSpan(s, e) && r in Reported(values, e)
  {
    e := ReportSource(values, Parse(s).log, false, r);
    SpansAreExact(s, NEVER);
  }

  /** A value's report quotes its own position only within a run of one byte, and so never at the start of
      the text. */
  lemma ValueReportsAreOff(values: PreparedMatchers, s: seq<Byte>, r: Match) returns (e: Event)
    requires OraclesFitAll(values) && r in ReportedFor(values, Parse(s).log, false)
    ensures e in Parse(s).log && !e.isKey && IsSpan(s, e) && r in Reported(values, e)
    ensures PlainSpan(s, e) ==> OffByOne(r, s)
    ensures PlainSpan(s, e) && r.start == e.start && r.length > 0 ==> (Quotes(r, s) <==> r.style.NoReport?)
  {
    e := ValueSource(values, s, r);
    if PlainSpan(s, e) {
      ValueIsOff(values, s, e, r);
    }
  }

  lemma ValueIsOff(values: PreparedMatchers, s: seq<Byte>, e: Event, r: Match)
    requires OraclesFitAll(values) && PlainSpan(s, e) && !e.isKey && r in Reported(values, e)
    ensures OffByOne(r, s)
    ensures r.start == e.start && r.length > 0 ==> (Quotes(r, s) <==> r.style.NoReport?)
  {
    ReportedIsOff(values, s, e, ShiftOf(s, e), r);
    OffByIsOne(r, s);
    if r.start == e.start && r.length > 0 {
      StartIsQuote(values, s, e, r);
      StartsDiffer(r, s);
    }
  }

  lemma FirstIsNoQuote(s: seq<Byte>, text: seq<Byte>, at: nat)
    requires IsWindowAt(text, s, at) && text != [] && QUOTE !in text
    ensures at < |s| && s[at] != QUOTE
  {
    assert s[at] == text[0];
  }

  /** Behind the opening quote there is no quote. */
  lemma StartIsQuote(m: PreparedMatchers, s: seq<Byte>, e: Event, r: Match)
    requires OraclesFitAll(m) && PlainSpan(s, e) && !e.isKey && r in Reported(m, e)
    requires r.start == e.start && r.length > 0
    ensures e.start + 1 < |s| && s[e.start] != s[e.start + 1]
  {
    PlainText(s, e);
    var text := Utf8(e.text);
    var at := BetweenIsAt(s, e, Quoted(s, e));
    ReportedInText(m, e, text, r);
    NoQuoteInBytes(e.text);
    FirstIsNoQuote(s, text, at);
  }

  // ----- One needle

  lemma {:induction false} NotOfCategory(reports: seq<Match>, category: string, r: Match)
    requires r in reports && r.category == category
    ensures OfCategory(reports, category) != []
  {
    if reports[0] != r {
      NotOfCategory(reports[1..], category, r);
    }
  }

  /** A report of the category of raw `k` is the report of an occurrence of its needle. */
  lemma NeedleIsReported(m: PreparedMatchers, k: nat, e: Event, r: Match) returns (at: nat)
    requires IsSingle(m, k) && e.start >= 0 && r in Reported(m, e) && r.category == m.raws[k].metadata.category
    ensures Occurs(Utf8(e.text), Utf8(m.raws[k].raw), at)
    ensures r.start == e.start + at && r.length == |Utf8(m.raws[k].raw)| > 0 && r.style == m.raws[k].metadata.style
  {
    var before, after := MatchedAround(m, k, e.start, 0, e.text);
    var own := MatchedAlone(m, k, e.start, 0, e.text);
    if r in before {
      NotOfCategory(before, r.category, r);
    }
    if r in after {
      NotOfCategory(after, r.category, r);
    }
    assert r in own;
    OwnDirect(m, k, e.start, 0, e.text);
    var p := DirectSource(RawHits(m.raws[k], e.text), e.start, 0, Utf8(e.text), r);
    RawHitOccurs(m.raws[k], e.text, p);
    at := p.span.start;
  }

  lemma OccursBeforeIff(s: seq<Byte>, needle: seq<Byte>, start: nat)
    requires Occurs(s, needle, start + 1) && needle != []
    ensures Occurs(s, needle, start) <==> IsRun(needle) && s[start] == needle[0]
  {
    PeriodOneIsRun(needle);
    assert Occurs(s, needle, start) ==> HasPeriod(needle, 1);
    if IsRun(needle) && s[start] == needle[0] {
      forall i | 0 < i < |needle| ensures needle[i] == s[start + i] {
        assert needle[i - 1] == s[start + 1 + (i - 1)];
      }
    }
  }

  lemma OccursLater(s: seq<Byte>, text: seq<Byte>, textAt: nat, needle: seq<Byte>, at: nat)
    requires IsWindowAt(text, s, textAt) && Occurs(text, needle, at)
    ensures Occurs(s, needle, textAt + at)
  {
    forall i | 0 <= i < |needle| ensures needle[i] == s[textAt + at + i] {
      assert text[at + i] == s[textAt + (at + i)];
    }
  }

  lemma NeedleIsBehind(m: PreparedMatchers, k: nat, s: seq<Byte>, e: Event, r: Match)
    requires IsSingle(m, k) && PlainSpan(s, e) && !e.isKey && r in Reported(m, e)
    requires r.category == m.raws[k].metadata.category
    ensures Utf8(m.raws[k].raw) != [] && Occurs(s, Utf8(m.raws[k].raw), r.start + 1)
  {
    PlainText(s, e);
    var at := NeedleIsReported(m, k, e, r);
    var textAt := BetweenIsAt(s, e, Quoted(s, e));
    OccursLater(s, Utf8(e.text), textAt, Utf8(m.raws[k].raw), at);
  }

  /** The reports of one needle in the values: where such a report stands, the body has the needle if and only
      if the needle is a run of one byte and the byte before the occurrence is that byte too. */
  lemma NeedleIsThereIff(values: PreparedMatchers, k: nat, s: seq<Byte>, r: Match) returns (e: Event)
    requires IsSingle(values, k) && r in ReportedFor(values, Parse(s).log, false)
    requires r.category == values.raws[k].metadata.category
    ensures e in Parse(s).log && !e.isKey && IsSpan(s, e) && r in Reported(values, e)
    ensures var needle := Utf8(values.raws[k].raw);
      PlainSpan(s, e) ==>
        && needle != [] && Occurs(s, needle, r.start + 1)
        && (Occurs(s, needle, r.start) <==> IsRun(needle) && s[r.start] == needle[0])
  {
    e := ValueSource(values, s, r);
    if PlainSpan(s, e) {
      NeedleIsBehind(values, k, s, e, r);
      OccursBeforeIff(s, Utf8(values.raws[k].raw), r.start);
    }
  }

  // ----- Every key and value is reported

  /** The keys, or the values, among the first `n` events, in order. */
  ghost predicate AreEvents(at: seq<nat>, log: seq<Event>, n: nat, keys: bool)
    requires n <= |log|
  {
    Increasing(at, n) && forall i: nat :: i < n ==> (i in at <==> log[i].isKey == keys)
  }

  /** What the matchers report for the string of an event, at the position where its range starts. */
  ghost predicate AreEventReports(reports: seq<Match>, m: PreparedMatchers, e: Event) {
    e.start >= 0 && reports == Matched(m.raws, m.regexes, e.start, 0, e.text, m.correlations)
  }

  ghost predicate AreReportsOfEvents(parts: seq<seq<Match>>, m: PreparedMatchers, log: seq<Event>, at: seq<nat>) {
    |parts| == |at| && forall k :: 0 <= k < |at| ==> at[k] < |log| && AreEventReports(parts[k], m, log[at[k]])
  }

  lemma {:induction false} ReportedSnoc(m: PreparedMatchers, log: seq<Event>, e: Event, keys: bool, last: seq<Match>)
    requires last == Reported(m, e)
    ensures ReportedFor(m, log + [e], keys) == ReportedFor(m, log, keys) + if e.isKey == keys then last else []
    decreases |log|
  {
    var added := if e.isKey == keys then last else [];
    if log == [] {
      assert log + [e] == [e] && [e][1..] == [];
      Assoc(added, [], []);
    } else {
      assert (log + [e])[1..] == log[1..] + [e];
      ReportedSnoc(m, log[1..], e, keys, last);
      Assoc(if log[0].isKey == keys then Reported(m, log[0]) else [], ReportedFor(m, log[1..], keys), added);
    }
  }

  lemma ReportedIs(m: PreparedMatchers, e: Event)
    requires e.start >= 0
    ensures AreEventReports(Reported(m, e), m, e)
  {
    assert Max(e.start, 0) == e.start;
  }

  ghost function ReportsAt(m: PreparedMatchers, log: seq<Event>, at: seq<nat>): seq<seq<Match>>
    requires forall k :: 0 <= k < |at| ==> at[k] < |log|
  {
    seq(|at|, k requires 0 <= k < |at| => Reported(m, log[at[k]]))
  }

  lemma ReportsAtSnoc(m: PreparedMatchers, log: seq<Event>, at: seq<nat>, n: nat)
    requires n < |log| && forall k :: 0 <= k < |at| ==> at[k] < |log|
    ensures ReportsAt(m, log, at + [n]) == ReportsAt(m, log, at) + [Reported(m, log[n])]
  {
  }

  ghost function EventsOf(log: seq<Event>, n: nat, keys: bool): (at: seq<nat>)
    requires n <= |log|
    ensures forall k :: 0 <= k < |at| ==> at[k] < n
  {
    if n == 0 then []
    else if log[n - 1].isKey == keys then EventsOf(log, n - 1, keys) + [n - 1]
    else EventsOf(log, n - 1, keys)
  }

  lemma {:induction false} EventsOfAre(log: seq<Event>, n: nat, keys: bool)
    requires n <= |log|
    ensures AreEvents(EventsOf(log, n, keys), log, n, keys)
    decreases n
  {
    if n > 0 {
      EventsOfAre(log, n - 1, keys);
      IncreasingNext(EventsOf(log, n - 1, keys), n - 1);
    }
  }

  /** What is reported for the first `n` events. */
  ghost function ReportedUpTo(m: PreparedMatchers, log: seq<Event>, n: nat, keys: bool): seq<Match>
    requires n <= |log|
  {
    ReportedFor(m, log[..n], keys)
  }

  lemma {:induction false} NothingReported(m: PreparedMatchers, log: seq<Event>, keys: bool)
    ensures ReportedUpTo(m, log, 0, keys) == Concat(ReportsAt(m, log, EventsOf(log, 0, keys)))
  {
    assert log[..0] == [] && ReportsAt(m, log, []) == [];
  }

  lemma {:induction false} EventsAreReported(m: PreparedMatchers, log: seq<Event>, n: nat, keys: bool)
    requires n <= |log|
    ensures ReportedUpTo(m, log, n, keys) == Concat(ReportsAt(m, log, EventsOf(log, n, keys)))
    decreases n
  {
    if n == 0 {
      NothingReported(m, log, keys);
    } else {
      EventsAreReported(m, log, n - 1, keys);
      OneMoreReported(m, log, n - 1, keys, EventsOf(log, n - 1, keys), EventsOf(log, n, keys));
    }
  }

  lemma OneMoreReported(m: PreparedMatchers, log: seq<Event>, n: nat, keys: bool, before: seq<nat>, at: seq<nat>)
    requires n < |log| && forall k :: 0 <= k < |before| ==> before[k] < |log|
    requires at == if log[n].isKey == keys then before + [n] else before
    requires ReportedUpTo(m, log, n, keys) == Concat(ReportsAt(m, log, before))
    ensures ReportedUpTo(m, log, n + 1, keys) == Concat(ReportsAt(m, log, at))
  {
    var last := Reported(m, log[n]);
    UpToNext(log, n);
    ReportedSnoc(m, log[..n], log[n], keys, last);
    if log[n].isKey == keys {
      ConcatSnoc(ReportsAt(m, log, before), last);
      ReportsAtSnoc(m, log, before, n);
    } else {
      Assoc(ReportedFor(m, log[..n], keys), [], []);
    }
  }

  /** Every key, or every value, is reported for. */
  lemma AllAreReported(m: PreparedMatchers, log: seq<Event>, keys: bool)
    returns (parts: seq<seq<Match>>, at: seq<nat>)
    requires forall i :: 0 <= i < |log| ==> log[i].start >= 0
    ensures ReportedFor(m, log, keys) == Concat(parts)
    ensures AreEvents(at, log, |log|, keys) && AreReportsOfEvents(parts, m, log, at)
  {
    at := EventsOf(log, |log|, keys);
    EventsOfAre(log, |log|, keys);
    EventsAreReported(m, log, |log|, keys);
    parts := ReportsAt(m, log, at);
    assert log[..|log|] == log;
    forall k | 0 <= k < |at| ensures AreEventReports(parts[k], m, log[at[k]]) {
      ReportedIs(m, log[at[k]]);
    }
  }

  lemma StartsAreThere(s: seq<Byte>)
    ensures forall i :: 0 <= i < |Parse(s).log| ==> Parse(s).log[i].start >= 0
  {
    SpansAreExact(s, NEVER);
    forall i | 0 <= i < |Parse(s).log| ensures Parse(s).log[i].start >= 0 {
      assert Parse(s).log[i] in Parse(s).log;
    }
  }

  /** All reports of a JSON body: those of all its values, in order, and behind them, unless it is refused,
      those of all its keys, in order. */
  lemma JsonMatchesAre(keys: PreparedMatchers, values: PreparedMatchers, s: seq<Byte>)
    returns (valueParts: seq<seq<Match>>, valueAt: seq<nat>, keyParts: seq<seq<Match>>, keyAt: seq<nat>)
    ensures JsonMatches(keys, values, s)
         == Concat(valueParts) + if Parse(s).outcome.Failed? then [] else Concat(keyParts)
    ensures AreEvents(valueAt, Parse(s).log, |Parse(s).log|, false)
    ensures AreEvents(keyAt, Parse(s).log, |Parse(s).log|, true)
    ensures AreReportsOfEvents(valueParts, values, Parse(s).log, valueAt)
    ensures AreReportsOfEvents(keyParts, keys, Parse(s).log, keyAt)
  {
    var log := Parse(s).log;
    StartsAreThere(s);
    valueParts, valueAt := AllAreReported(values, log, false);
    keyParts, keyAt := AllAreReported(keys, log, true);
  }

  lemma {:induction false} EventIsIn(m: PreparedMatchers, log: seq<Event>, e: Event, keys: bool, r: Match)
    requires e in log && e.isKey == keys && r in Reported(m, e)
    ensures r in ReportedFor(m, log, keys)
  {
    if log[0] != e {
      EventIsIn(m, log[1..], e, keys, r);
    }
  }

  /** Whatever the value matchers report for a value is reported for the body, refused or not; and what the
      key matchers report for a key, unless the body is refused. */
  lemma NothingIsDropped(keys: PreparedMatchers, values: PreparedMatchers, s: seq<Byte>, e: Event, r: Match)
    requires e in Parse(s).log && (e.isKey ==> !Parse(s).outcome.Failed?)
    requires e.start >= 0
    requires var m := if e.isKey then keys else values;
      r in Matched(m.raws, m.regexes, e.start, 0, e.text, m.correlations)
    ensures r in JsonMatches(keys, values, s)
  {
    var m := if e.isKey then keys else values;
    assert Max(e.start, 0) == e.start;
    EventIsIn(m, Parse(s).log, e, e.isKey, r);
  }

  const AB: seq<Byte> := [QUOTE, 0x61, 0x62, QUOTE]

  const NEEDLE_A := OneNeedle(Metadata("", "a", Alert, ReportStyle.Raw, None), [0x61])

  lemma AbIsRead()
    ensures Parse(AB) == Parsed(Done([]), [Event(false, [0x61, 0x62], 0, 4)])
  {
    var e := Event(false, [0x61, 0x62], 0, 4);
    AbTextIsRead();
    AfterTextIs(e, [], 4, NEVER, []);
    assert [] + [e] == [e];
    AbIsOneText();
  }

  lemma AbIsOneText()
    ensures Parse(AB) == AfterTextRead(ReadString(AB[1..], []), 0, 4, NEVER, [])
  {
    assert ParseText(AB[1..], 4, NEVER, []) == AfterTextRead(ReadString(AB[1..], []), 0, 4, NEVER, []);
  }

  lemma AbTextIsRead()
    ensures ReadString(AB[1..], []) == Some(StringRead([0x61, 0x62], []))
  {
    AbIsText();
    assert AB[1..] == Utf8([0x61, 0x62]) + ([QUOTE] + []);
    PlainIsRead([0x61, 0x62], []);
  }

  lemma AbIsText()
    ensures Utf8([0x61, 0x62]) == [0x61, 0x62]
  {
    var ab: seq<Byte> := [0x61, 0x62];
    assert ab[1..] == [0x62] && [0x62 as Byte][1..] == [];
    assert AsciiText([0x62]) == [0x62] && AsciiText(ab) == [0x61, 0x62];
    AsciiIsUtf8(ab);
  }

  lemma AIsFound()
    ensures Greedy(Utf8([0x61, 0x62]), Utf8([0x61]), 0) == [0]
  {
    var ab: seq<Scalar>, a: seq<Scalar> := [0x61, 0x62], [0x61];
    assert ab[1..] == [0x62] && ab[1..][1..] == [] && a[1..] == [];
    assert Utf8(ab[1..]) == [0x62];
    assert Utf8(ab) == [0x61, 0x62] && Utf8(a) == [0x61];
    assert Occurs([0x61, 0x62], [0x61], 0);
    assert !Occurs([0x61, 0x62], [0x61], 1);
  }

  /** In "ab" the letter a is reported at the position of the quote. */
  lemma ReportsTheQuote()
    ensures JsonMatches(NEEDLE_A, NEEDLE_A, AB) == [Match("a", 0, 1, "", Some([0x61]), ReportStyle.Raw, Alert)]
    ensures AB[0] == QUOTE
  {
    var e := Event(false, [0x61, 0x62], 0, 4);
    AbIsRead();
    AIsFound();
    var m := NEEDLE_A;
    assert RawHits(m.raws[0], e.text) == [Prepared(m.raws[0].metadata, Span(0, 1))];
    assert Reported(m, e) == [Match("a", 0, 1, "", Some([0x61]), ReportStyle.Raw, Alert)];
    assert [e][1..] == [];
  }
}
