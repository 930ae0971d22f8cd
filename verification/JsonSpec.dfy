/** What the streaming JSON reader computes, as a function of the unread bytes: the events it
    reports, in the order in which it reports them, and how it ends. */
module JsonSpec {
  import opened Bytes
  import opened Unicode
  import opened JsonString
  import opened JsonNumber

  const LBRACE: Byte := 0x7B
  const RBRACE: Byte := 0x7D
  const LBRACKET: Byte := 0x5B
  const RBRACKET: Byte := 0x5D
  const COLON: Byte := 0x3A
  const COMMA: Byte := 0x2C

  /** `rue`, `alse` and `ull`: the keywords after their first letter. */
  const RUE: seq<Byte> := [0x72, 0x75, 0x65]
  const ALSE: seq<Byte> := [0x61, 0x6C, 0x73, 0x65]
  const ULL: seq<Byte> := [0x75, 0x6C, 0x6C]

  const LETTER_T: Byte := 0x74
  const LETTER_F: Byte := 0x66
  const LETTER_N: Byte := 0x6E

  predicate IsSpace(b: Byte) { b == 0x20 || b == 0x0A || b == 0x0D || b == 0x09 }

  /** The input from its first byte that is not white space. */
  function SkipSpace(s: seq<Byte>): (r: seq<Byte>)
    ensures |r| <= |s|
  {
    if s == [] || !IsSpace(s[0]) then s else SkipSpace(s[1..])
  }

  /** One call of a callback: a key or a string value, with its byte range. */
  datatype Event = Event(isKey: bool, text: seq<Scalar>, start: int, end: int)

  datatype Error =
    | UnexpectedEof
    | MissingDigit
    | UnknownKeyword(word: seq<Byte>)
    | UnexpectedByte(byte: Byte, at: int)
    | ExpectedKey(byte: Byte, at: int)
    | ExpectedColon(byte: Byte, at: int)
    | ExpectedCommaInObject(byte: Byte, at: int)
    | ExpectedCommaInArray(byte: Byte, at: int)

  /** `Done`: the value was read and so was the next byte that is not white space, if any. */
  datatype Outcome<+T> = Failed(error: Error) | Done(next: seq<Byte>) | Stopped(value: T)

  datatype Parsed<+T> = Parsed(outcome: Outcome<T>, log: seq<Event>)

  /** The callbacks: whether to return early, given all calls so far. */
  type Callback<T> = seq<Event> -> Option<T>

  /** `total_read().saturating_sub(1)` when `s` is unread */
  function Before(total: int, s: seq<Byte>): int {
    Max(total - |s| - 1, 0)
  }

  /** After a value that is not a number. */
  function After<T>(s: seq<Byte>, log: seq<Event>): Parsed<T> {
    Parsed(Done(SkipSpace(s)), log)
  }

  function ParseWord<T>(first: Byte, word: seq<Byte>, s: seq<Byte>, log: seq<Event>): Parsed<T> {
    if |s| < |word| then Parsed(Failed(UnexpectedEof), log)
    else if s[..|word|] != word then Parsed(Failed(UnknownKeyword([first] + s[..|word|])), log)
    else After(s[|word|..], log)
  }

  /** White space that follows a number must not run to the end of the input. */
  function ParseNumber<T>(first: Byte, s: seq<Byte>, log: seq<Event>): Parsed<T> {
    match ReadNumber(first, s)
    case NoInput => Parsed(Failed(UnexpectedEof), log)
    case MissingDigit => Parsed(Failed(Error.MissingDigit), log)
    case Ended => Parsed(Done([]), log)
    case Followed(next, rest) =>
      if !IsSpace(next) then Parsed(Done([next] + rest), log)
      else if SkipSpace(rest) == [] then Parsed(Failed(UnexpectedEof), log)
      else Parsed(Done(SkipSpace(rest)), log)
  }

  /** A string value after the quote that opens it. */
  function ParseText<T>(s: seq<Byte>, total: int, stop: Callback<T>, log: seq<Event>): Parsed<T> {
    AfterTextRead(ReadString(s, []), Before(total, s), total, stop, log)
  }

  /** A string value once it has been read. */
  function AfterTextRead<T>(read: Option<StringRead>, start: int, total: int, stop: Callback<T>,
                            log: seq<Event>): Parsed<T> {
    match read
    case None => Parsed(Failed(UnexpectedEof), log)
    case Some(StringRead(text, rest)) =>
      var log' := log + [Event(false, text, start, total - |rest|)];
      if stop(log').Some? then Parsed(Stopped(stop(log').value), log') else After(rest, log')
  }

  /** `parse_json_internal`, when `first` has been read, `s` is unread, and `total` bytes make up
      the whole input. */
  function ParseValue<T>(first: Byte, s: seq<Byte>, total: int, stop: Callback<T>, log: seq<Event>): (r: Parsed<T>)
    ensures r.outcome.Done? ==> |r.outcome.next| <= |s|
    decreases |s|, 3
  {
    if first == LBRACE then ParseMembers(s, total, stop, log, true)
    else if first == LBRACKET then ParseItems(s, total, stop, log, true)
    else if first == QUOTE then ParseText(s, total, stop, log)
    else if first == MINUS || IsDigit(first) then ParseNumber(first, s, log)
    else if first == LETTER_T then ParseWord(first, RUE, s, log)
    else if first == LETTER_F then ParseWord(first, ALSE, s, log)
    else if first == LETTER_N then ParseWord(first, ULL, s, log)
    else Parsed(Failed(UnexpectedByte(first, Before(total, s))), log)
  }

  /** The array loop. */
  function ParseItems<T>(s: seq<Byte>, total: int, stop: Callback<T>, log: seq<Event>, first: bool): (r: Parsed<T>)
    ensures r.outcome.Done? ==> |r.outcome.next| <= |s|
    decreases |s|, 2
  {
    var t := SkipSpace(s);
    if t == [] then Parsed(Failed(UnexpectedEof), log)
    else if first && t[0] == RBRACKET then After(t[1..], log)
    else
      var r := ParseValue(t[0], t[1..], total, stop, log);
      if !r.outcome.Done? then r
      else if r.outcome.next == [] then Parsed(Failed(UnexpectedEof), r.log)
      else
        var b, rest := r.outcome.next[0], r.outcome.next[1..];
        if b == COMMA then ParseItems(rest, total, stop, r.log, false)
        else if b == RBRACKET then After(rest, r.log)
        else Parsed(Failed(ExpectedCommaInArray(b, Before(total, rest))), r.log)
  }

  /** The object loop. */
  function ParseMembers<T>(s: seq<Byte>, total: int, stop: Callback<T>, log: seq<Event>, first: bool): (r: Parsed<T>)
    ensures r.outcome.Done? ==> |r.outcome.next| <= |s|
    decreases |s|, 2
  {
    var t := SkipSpace(s);
    if t == [] then Parsed(Failed(UnexpectedEof), log)
    else if first && t[0] == RBRACE then After(t[1..], log)
    else if t[0] != QUOTE then Parsed(Failed(ExpectedKey(t[0], total - |s|)), log)
    else
      var r := ParseMember(t[1..], total - |s|, total, stop, log);
      if !r.outcome.Done? then r
      else if r.outcome.next == [] then Parsed(Failed(UnexpectedEof), r.log)
      else
        var b, rest := r.outcome.next[0], r.outcome.next[1..];
        if b == COMMA then ParseMembers(rest, total, stop, r.log, false)
        else if b == RBRACE then After(rest, r.log)
        else Parsed(Failed(ExpectedCommaInObject(b, Before(total, rest))), r.log)
  }

  /** A member after the quote that opens its key. */
  function ParseMember<T>(s: seq<Byte>, start: int, total: int, stop: Callback<T>, log: seq<Event>): (r: Parsed<T>)
    ensures r.outcome.Done? ==> |r.outcome.next| <= |s|
    decreases |s|, 4
  {
    AfterKeyRead(ReadString(s, []), start, total, stop, log)
  }

  /** A member once its key has been read. */
  function AfterKeyRead<T>(read: Option<StringRead>, start: int, total: int, stop: Callback<T>,
                           log: seq<Event>): (r: Parsed<T>)
    ensures r.outcome.Done? ==> read.Some? && |r.outcome.next| <= |read.value.rest|
    decreases if read.Some? then |read.value.rest| else 0, 2
  {
    match read
    case None => Parsed(Failed(UnexpectedEof), log)
    case Some(StringRead(key, rest)) =>
      var log' := log + [Event(true, key, start, total - |rest|)];
      if stop(log').Some? then Parsed(Stopped(stop(log').value), log')
      else ParseMemberValue(rest, total, stop, log', start + 1)
  }

  /** The colon and the value after a key. */
  function ParseMemberValue<T>(s: seq<Byte>, total: int, stop: Callback<T>, log: seq<Event>, at: int): (r: Parsed<T>)
    ensures r.outcome.Done? ==> |r.outcome.next| <= |s|
    decreases |s|, 1
  {
    var t := SkipSpace(s);
    if t == [] then Parsed(Failed(UnexpectedEof), log)
    else if t[0] != COLON then Parsed(Failed(ExpectedColon(t[0], at)), log)
    else
      var u := SkipSpace(t[1..]);
      if u == [] then Parsed(Failed(UnexpectedEof), log)
      else ParseValue(u[0], u[1..], total, stop, log)
  }

  lemma AfterTextIs<T>(e: Event, rest: seq<Byte>, total: int, stop: Callback<T>, log: seq<Event>)
    requires !e.isKey && e.end == total - |rest|
    ensures AfterTextRead(Some(StringRead(e.text, rest)), e.start, total, stop, log) ==
      if stop(log + [e]).Some? then Parsed(Stopped(stop(log + [e]).value), log + [e]) else After(rest, log + [e])
  {
    assert e == Event(false, e.text, e.start, e.end);
  }

  lemma {:induction false} AfterKeyIs<T>(e: Event, rest: seq<Byte>, total: int, stop: Callback<T>, log: seq<Event>)
    requires e.isKey && e.end == total - |rest|
    ensures AfterKeyRead(Some(StringRead(e.text, rest)), e.start, total, stop, log) ==
      if stop(log + [e]).Some? then Parsed(Stopped(stop(log + [e]).value), log + [e])
      else ParseMemberValue(rest, total, stop, log + [e], e.start + 1)
  {
    assert e == Event(true, e.text, e.start, e.end);
  }

  /** `parse_json`: the early return, if any, or the error. What follows the value is ignored. */
  datatype Result<+T> = Ok(value: Option<T>) | Err(error: Error)

  function ParseJson<T>(s: seq<Byte>, total: int, stop: Callback<T>): Parsed<T> {
    var t := SkipSpace(s);
    if t == [] then Parsed(Failed(UnexpectedEof), [])
    else ParseValue(t[0], t[1..], total, stop, [])
  }
}
