/** Whole documents: which inputs the streaming JSON reader accepts, what it reports for every way
    to write a JSON tree, and where the reported ranges lie. */
module JsonDocument {
  import opened Bytes
  import opened Unicode
  import opened JsonString
  import opened JsonNumber
  import opened JsonSpec
  import opened JsonGrammar
  import opened JsonTheorems

  // ----- Acceptance

  /** White space, a relaxed value, and anything after it that does not disturb the value. */
  predicate IsDocument(s: seq<Byte>, space: Space, n: Node, tail: seq<Byte>) {
    AllSpace(space) && ValidNode(n) && NodeEnds(n, tail) && s == space + NodeText(n, tail)
  }

  lemma {:induction false} DocumentRead<T(!new)>(s: seq<Byte>, space: Space, n: Node, tail: seq<Byte>,
                                                 stop: Callback<T>)
    requires IsDocument(s, space, n, tail) && Silent(stop)
    ensures ParseJson(s, |s|, stop) == Parsed(Done(SkipSpace(tail)), NodeEvents(n, tail, |s|))
  {
    SkipSpaceInverts(space, NodeText(n, tail));
    NodeComplete(n, tail, |s|, stop, []);
    assert [] + NodeEvents(n, tail, |s|) == NodeEvents(n, tail, |s|);
  }

  lemma DocumentSound<T(!new)>(s: seq<Byte>, stop: Callback<T>) returns (space: Space, n: Node, tail: seq<Byte>)
    requires Silent(stop) && ParseJson(s, |s|, stop).outcome.Done?
    ensures IsDocument(s, space, n, tail)
  {
    space := SpaceSkipped(s);
    var t := SkipSpace(s);
    Uncons(t);
    n, tail := NodeSound(t[0], t[1..], |s|, stop, []);
  }

  /** The reader accepts exactly the relaxed documents, and reports exactly their events. */
  lemma {:induction false} ParsesExactlyDocuments<T(!new)>(s: seq<Byte>, stop: Callback<T>, log: seq<Event>)
    requires Silent(stop)
    ensures (ParseJson(s, |s|, stop).outcome.Done? && ParseJson(s, |s|, stop).log == log)
      <==> exists space, n, tail :: IsDocument(s, space, n, tail) && log == NodeEvents(n, tail, |s|)
  {
    if ParseJson(s, |s|, stop).outcome.Done? {
      var space, n, tail := DocumentSound(s, stop);
      DocumentRead(s, space, n, tail, stop);
    }
    forall space, n, tail | IsDocument(s, space, n, tail) && log == NodeEvents(n, tail, |s|)
      ensures ParseJson(s, |s|, stop).outcome.Done? && ParseJson(s, |s|, stop).log == log
    {
      DocumentRead(s, space, n, tail, stop);
    }
  }

  // ----- Round trip

  /** A JSON tree: sections 3, 4 and 5 of RFC 8259. The value of a number is not modelled. */
  datatype Json = Str(text: seq<Scalar>) | Num | Lit(keyword: Keyword) | Arr(elements: Elements) | Obj(fields: Fields)

  datatype Elements = NoElements | Element(value: Json, rest: Elements)

  datatype Fields = NoFields | Field(key: seq<Scalar>, value: Json, rest: Fields)

  /** What a reader should report: keys and strings in document order. */
  datatype Call = Call(isKey: bool, text: seq<Scalar>)

  function Calls(j: Json): seq<Call> {
    match j
    case Str(text) => [Call(false, text)]
    case Arr(elements) => ElementCalls(elements)
    case Obj(fields) => FieldCalls(fields)
    case _ => []
  }

  function ElementCalls(e: Elements): seq<Call> {
    if e.NoElements? then [] else Calls(e.value) + ElementCalls(e.rest)
  }

  function FieldCalls(f: Fields): seq<Call> {
    if f.NoFields? then [] else [Call(true, f.key)] + Calls(f.value) + FieldCalls(f.rest)
  }

  function CallsOf(log: seq<Event>): seq<Call> {
    seq(|log|, i requires 0 <= i < |log| => Call(log[i].isKey, log[i].text))
  }

  /** The body of a string is some spelling of the text. */
  ghost predicate WritesText(body: seq<Piece>, text: seq<Scalar>) {
    exists spelling :: SpellsText(spelling, text) && body == Concat(spelling)
  }

  /** `n` is one of the ways to write `j`, in any layout and any spelling. */
  ghost predicate Writes(n: Node, j: Json) {
    match j
    case Str(text) => n.Text? && WritesText(n.body, text)
    case Num => n.Numeral? && ValidNumber(n.number)
    case Lit(keyword) => n == Word(keyword)
    case Arr(elements) =>
      if elements.NoElements? then n.EmptyArray? && AllSpace(n.space)
      else n.Array? && WritesItems(n.items, elements)
    case Obj(fields) =>
      if fields.NoFields? then n.EmptyObject? && AllSpace(n.space)
      else n.Object? && WritesMembers(n.members, fields)
  }

  ghost predicate WritesItems(i: Items, e: Elements) {
    && e.Element? && AllSpace(i.lead) && Writes(i.value, e.value) && AllSpace(i.trail)
    && if e.rest.NoElements? then i.LastItem? else i.MoreItems? && WritesItems(i.rest, e.rest)
  }

  ghost predicate WritesMembers(m: Members, f: Fields) {
    && f.Field? && WritesMember(m.member, f.key, f.value) && AllSpace(m.trail)
    && if f.rest.NoFields? then m.LastMember? else m.MoreMembers? && WritesMembers(m.rest, f.rest)
  }

  ghost predicate WritesMember(m: Member, key: seq<Scalar>, value: Json) {
    && AllSpace(m.lead) && WritesText(m.key, key) && AllSpace(m.beforeColon) && AllSpace(m.afterColon)
    && Writes(m.value, value)
  }

  lemma {:induction false} WrittenTextMeans(body: seq<Piece>, text: seq<Scalar>)
    requires WritesText(body, text)
    ensures ValidPieces(body) && Meaning([], body) == text
  {
    var spelling :| SpellsText(spelling, text) && body == Concat(spelling);
    SpellingsAreValid(spelling, text);
    SpelledText(body, spelling, text);
  }

  lemma CallsOfAppend(a: seq<Event>, b: seq<Event>)
    ensures CallsOf(a + b) == CallsOf(a) + CallsOf(b)
  {
  }

  lemma {:induction false} WrittenNode(n: Node, j: Json, tail: seq<Byte>, total: int)
    requires Writes(n, j)
    ensures ValidNode(n) && CallsOf(NodeEvents(n, tail, total)) == Calls(j)
    decreases j
  {
    match j {
      case Str(text) => WrittenTextMeans(n.body, text);
      case Num =>
      case Lit(_) =>
      case Arr(elements) =>
        if elements.Element? {
          WrittenItems(n.items, elements, tail, total);
        }
      case Obj(fields) =>
        if fields.Field? {
          WrittenMembers(n.members, fields, tail, total);
        }
    }
  }

  lemma {:induction false} WrittenItems(i: Items, e: Elements, tail: seq<Byte>, total: int)
    requires WritesItems(i, e)
    ensures ValidItems(i) && CallsOf(ItemsEvents(i, tail, total)) == ElementCalls(e)
    decreases e
  {
    WrittenNode(i.value, e.value, AfterItem(i, tail), total);
    var events := NodeEvents(i.value, AfterItem(i, tail), total);
    if e.rest.Element? {
      WrittenItems(i.rest, e.rest, tail, total);
      CallsOfAppend(events, ItemsEvents(i.rest, tail, total));
    } else {
      Assoc(events, [], []);
      Assoc(Calls(e.value), [], []);
    }
  }

  lemma {:induction false} WrittenMembers(m: Members, f: Fields, tail: seq<Byte>, total: int)
    requires WritesMembers(m, f)
    ensures ValidMembers(m) && CallsOf(MembersEvents(m, tail, total)) == FieldCalls(f)
    decreases f, 1
  {
    WrittenMember(m.member, f, AfterMember(m, tail), total);
    var events := MemberEvents(m.member, AfterMember(m, tail), total);
    if f.rest.Field? {
      WrittenMembers(m.rest, f.rest, tail, total);
      CallsOfAppend(events, MembersEvents(m.rest, tail, total));
    } else {
      Assoc(events, [], []);
      Assoc([Call(true, f.key)] + Calls(f.value), [], []);
    }
  }

  lemma {:induction false} WrittenMember(m: Member, f: Fields, tail: seq<Byte>, total: int)
    requires f.Field? && WritesMember(m, f.key, f.value)
    ensures ValidMember(m) && CallsOf(MemberEvents(m, tail, total)) == [Call(true, f.key)] + Calls(f.value)
    decreases f, 0
  {
    WrittenTextMeans(m.key, f.key);
    WrittenNode(m.value, f.value, tail, total);
    var event := Event(true, Meaning([], m.key), total - |MemberText(m, tail)|, total - |AfterKey(m, tail)|);
    KeyFirst(m, tail, total, event);
    CallsOfAppend([event], NodeEvents(m.value, tail, total));
  }

  /** The round trip: however a tree that is not a number is written, in any layout and spelling,
      reading it succeeds and reports exactly its keys and strings, in document order. */
  lemma {:induction false} RoundTrip<T(!new)>(j: Json, n: Node, before: Space, after: Space, stop: Callback<T>)
    requires Writes(n, j) && !j.Num? && AllSpace(before) && AllSpace(after) && Silent(stop)
    ensures var s := before + NodeText(n, after);
      var r := ParseJson(s, |s|, stop);
      r.outcome == Done([]) && CallsOf(r.log) == Calls(j)
  {
    var s := before + NodeText(n, after);
    WrittenNode(n, j, after, |s|);
    DocumentRead(s, before, n, after, stop);
    assert after + [] == after;
    SkipSpaceInverts(after, []);
  }

  /** White space after a number must not run to the end of the input. */
  lemma {:induction false} SpaceToTheEnd<T>(number: Number, after: Space, t: seq<Byte>, total: int, stop: Callback<T>)
    requires ValidNumber(number) && AllSpace(after) && after != [] && t == NumberText(number) + after
    ensures t != [] && !IsSpace(t[0])
    ensures ParseValue(t[0], t[1..], total, stop, []) == Parsed(Failed(UnexpectedEof), [])
  {
    ReadNumberComplete(number, after);
    Assoc(after[1..], [], []);
    SkipSpaceInverts(after[1..], []);
  }

  /** A number at the root is read exactly when no white space follows it. */
  lemma {:induction false} NumberAtRoot<T(!new)>(number: Number, before: Space, after: Space, stop: Callback<T>)
    requires ValidNumber(number) && AllSpace(before) && AllSpace(after) && Silent(stop)
    ensures var s := before + NodeText(Numeral(number), after);
      ParseJson(s, |s|, stop) ==
        Parsed(if after == [] then Done([]) else Failed(UnexpectedEof), [])
  {
    var n := Numeral(number);
    var s := before + NodeText(n, after);
    if after == [] {
      DocumentRead(s, before, n, after, stop);
    } else {
      var t := NumberText(number) + after;
      SpaceToTheEnd(number, after, t, |s|, stop);
      SkipSpaceInverts(before, t);
    }
  }
}
