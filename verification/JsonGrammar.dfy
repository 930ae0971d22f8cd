/** Concrete syntax trees: JSON text with its white space and spelling. The structure is that of
    sections 4 and 5 of RFC 8259; numbers and strings follow the relaxed grammars of JsonNumber and
    JsonString. Text and events are defined with the input that follows, so that positions are
    distances from the end of the input. */
module JsonGrammar {
  import opened Bytes
  import opened JsonString
  import opened JsonNumber
  import opened JsonSpec

  type Space = seq<Byte>

  datatype Keyword = True | False | Null

  /** A value. The leading space of an item or a member precedes it, the trailing space is before
      the comma or the closing bracket. */
  datatype Node =
    | Text(body: seq<Piece>)
    | Numeral(number: Number)
    | Word(keyword: Keyword)
    | EmptyArray(space: Space)
    | Array(items: Items)
    | EmptyObject(space: Space)
    | Object(members: Members)

  datatype Items =
    | LastItem(lead: Space, value: Node, trail: Space)
    | MoreItems(lead: Space, value: Node, trail: Space, rest: Items)

  datatype Members =
    | LastMember(member: Member, trail: Space)
    | MoreMembers(member: Member, trail: Space, rest: Members)

  datatype Member = Member(lead: Space, key: seq<Piece>, beforeColon: Space, afterColon: Space, value: Node)

  predicate AllSpace(s: seq<Byte>) {
    forall i :: 0 <= i < |s| ==> IsSpace(s[i])
  }

  predicate ValidNode(n: Node) {
    match n
    case Text(body) => ValidPieces(body)
    case Numeral(number) => ValidNumber(number)
    case Word(_) => true
    case EmptyArray(space) => AllSpace(space)
    case Array(items) => ValidItems(items)
    case EmptyObject(space) => AllSpace(space)
    case Object(members) => ValidMembers(members)
  }

  predicate ValidItems(i: Items) {
    && AllSpace(i.lead) && ValidNode(i.value) && AllSpace(i.trail)
    && (i.MoreItems? ==> ValidItems(i.rest))
  }

  predicate ValidMembers(m: Members) {
    && ValidMember(m.member) && AllSpace(m.trail)
    && (m.MoreMembers? ==> ValidMembers(m.rest))
  }

  predicate ValidMember(m: Member) {
    && AllSpace(m.lead) && ValidPieces(m.key) && AllSpace(m.beforeColon) && AllSpace(m.afterColon)
    && ValidNode(m.value)
  }

  // ----- Text

  function KeywordText(k: Keyword): seq<Byte> {
    match k
    case True => [LETTER_T] + RUE
    case False => [LETTER_F] + ALSE
    case Null => [LETTER_N] + ULL
  }

  function NodeText(n: Node, tail: seq<Byte>): seq<Byte>
    decreases n, 1
  {
    match n
    case Text(body) => [QUOTE] + StringText(body, tail)
    case Numeral(number) => NumberText(number) + tail
    case Word(keyword) => KeywordText(keyword) + tail
    case EmptyArray(space) => [LBRACKET] + (space + ([RBRACKET] + tail))
    case Array(items) => [LBRACKET] + ItemsText(items, tail)
    case EmptyObject(space) => [LBRACE] + (space + ([RBRACE] + tail))
    case Object(members) => [LBRACE] + MembersText(members, tail)
  }

  /** After the value of an item or a member. */
  function AfterItem(i: Items, tail: seq<Byte>): seq<Byte>
    decreases i, 0
  {
    i.trail + (if i.MoreItems? then [COMMA] + ItemsText(i.rest, tail) else [RBRACKET] + tail)
  }

  function ItemsText(i: Items, tail: seq<Byte>): seq<Byte>
    decreases i, 1
  {
    i.lead + NodeText(i.value, AfterItem(i, tail))
  }

  function AfterMember(m: Members, tail: seq<Byte>): seq<Byte>
    decreases m, 0
  {
    m.trail + (if m.MoreMembers? then [COMMA] + MembersText(m.rest, tail) else [RBRACE] + tail)
  }

  function MembersText(m: Members, tail: seq<Byte>): seq<Byte>
    decreases m, 1
  {
    MemberText(m.member, AfterMember(m, tail))
  }

  function MemberText(m: Member, tail: seq<Byte>): seq<Byte>
    decreases m, 1
  {
    m.lead + ([QUOTE] + StringText(m.key, AfterKey(m, tail)))
  }

  function AfterKey(m: Member, tail: seq<Byte>): seq<Byte>
    decreases m, 0
  {
    m.beforeColon + ([COLON] + (m.afterColon + NodeText(m.value, tail)))
  }

  // ----- Events

  /** The events of a value, in document order. */
  function NodeEvents(n: Node, tail: seq<Byte>, total: int): seq<Event> {
    match n
    case Text(body) => [Event(false, Meaning([], body), total - |NodeText(n, tail)|, total - |tail|)]
    case Array(items) => ItemsEvents(items, tail, total)
    case Object(members) => MembersEvents(members, tail, total)
    case _ => []
  }

  function ItemsEvents(i: Items, tail: seq<Byte>, total: int): seq<Event> {
    NodeEvents(i.value, AfterItem(i, tail), total)
    + (if i.MoreItems? then ItemsEvents(i.rest, tail, total) else [])
  }

  function MembersEvents(m: Members, tail: seq<Byte>, total: int): seq<Event> {
    MemberEvents(m.member, AfterMember(m, tail), total)
    + (if m.MoreMembers? then MembersEvents(m.rest, tail, total) else [])
  }

  /** A key is reported from the start of the white space before it. */
  function MemberEvents(m: Member, tail: seq<Byte>, total: int): seq<Event> {
    [Event(true, Meaning([], m.key), total - |MemberText(m, tail)|, total - |AfterKey(m, tail)|)]
    + NodeEvents(m.value, tail, total)
  }

  // ----- The tokens

  /** The bytes of a text in ASCII. */
  function Written(s: string): seq<int> {
    seq(|s|, i requires 0 <= i < |s| => s[i] as int)
  }

  /** The structural characters, the keywords, the white space and the digits are those of sections 2, 3 and 6 of
      RFC 8259. */
  lemma TokensAre(b: Byte)
    ensures [LBRACE, RBRACE, LBRACKET, RBRACKET, COLON, COMMA, QUOTE, BACKSLASH] == Written("{}[]:,\"\\")
    ensures [MINUS, POINT, ZERO, LOWER_U] == Written("-.0u")
    ensures KeywordText(True) == Written("true") && KeywordText(False) == Written("false")
    ensures KeywordText(Null) == Written("null")
    ensures IsSpace(b) <==> b in Written(" \t\n\r")
    ensures IsDigit(b) <==> b in Written("0123456789")
    ensures IsExponentMark(b) <==> b in Written("eE")
    ensures IsExponentStart(b) <==> b in Written("0123456789+-")
  {
    assert forall i :: 0 <= i < 10 ==> Written("0123456789")[i] == 0x30 + i;
    assert forall i :: 0 <= i < 10 ==> Written("0123456789+-")[i] == 0x30 + i;
    assert Written("0123456789+-")[10] == 0x2B && Written("0123456789+-")[11] == 0x2D;
    assert Written(" \t\n\r") == [0x20, 0x09, 0x0A, 0x0D] && Written("eE") == [0x65, 0x45];
    if IsDigit(b) {
      assert Written("0123456789")[b - 0x30] == b && Written("0123456789+-")[b - 0x30] == b;
    }
  }
}
