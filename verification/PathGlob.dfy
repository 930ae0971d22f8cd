/** Path globs: their text form, how they are matched, and how they are ordered by specificity.
    Regular expressions are an oracle. */
module PathGlob {
  import opened Bytes

  /** `#...` matches the regular expression against the whole component. */
  datatype GlobComponent =
    | AnyOne
    | AnyMany
    | Regex(text: string)
    | Contains(text: string)
    | Prefix(text: string)
    | Suffix(text: string)
    | Literal(text: string)

  type PathGlob = seq<GlobComponent>

  /** The regular expression engine: which patterns compile, and which strings they match fully. */
  datatype Engine = Engine(compiles: string -> bool, matches: (string, string) -> bool)

  // ----- Text

  /** White space as the standard library trims it. */
  predicate IsWhite(c: char) {
    || '\U{0009}' <= c <= '\U{000D}' || c == ' ' || c == '\U{0085}' || c == '\U{00A0}' || c == '\U{1680}'
    || '\U{2000}' <= c <= '\U{200A}' || c == '\U{2028}' || c == '\U{2029}' || c == '\U{202F}'
    || c == '\U{205F}' || c == '\U{3000}'
  }

  function TrimStart(s: string): string {
    if s == [] || !IsWhite(s[0]) then s else TrimStart(s[1..])
  }

  function TrimEnd(s: string): string {
    if s == [] || !IsWhite(s[|s| - 1]) then s else TrimEnd(s[..|s| - 1])
  }

  function Trim(s: string): string {
    TrimEnd(TrimStart(s))
  }

  /** `split('/')`: always at least one piece. */
  function Split(s: string): (pieces: seq<string>)
    ensures pieces != []
  {
    if s == [] then [[]]
    else
      var rest := Split(s[1..]);
      if s[0] == '/' then [[]] + rest else [[s[0]] + rest[0]] + rest[1..]
  }

  /** Pieces are trimmed, and empty ones are dropped. */
  function Clean(pieces: seq<string>): seq<string> {
    if pieces == [] then []
    else (if Trim(pieces[0]) == [] then [] else [Trim(pieces[0])]) + Clean(pieces[1..])
  }

  function Components(s: string): seq<string> {
    Clean(Split(s))
  }

  function Join(pieces: seq<string>): string {
    if pieces == [] then [] else if |pieces| == 1 then pieces[0] else pieces[0] + ['/'] + Join(pieces[1..])
  }

  // ----- Parsing and printing

  function ParseComponent(item: string, engine: Engine): Option<GlobComponent> {
    if item == "*" then Some(AnyOne)
    else if item == "**" then Some(AnyMany)
    else if item != [] && item[0] == '#' then
      if engine.compiles(item[1..]) then Some(Regex(item)) else None
    else if item != [] && item[0] == '*' && item[|item| - 1] == '*' then Some(Contains(item))
    else if item != [] && item[0] == '*' then Some(Suffix(item))
    else if item != [] && item[|item| - 1] == '*' then Some(Prefix(item))
    else Some(Literal(item))
  }

  function ParseComponents(items: seq<string>, engine: Engine): Option<PathGlob> {
    if items == [] then Some([])
    else
      match (ParseComponent(items[0], engine), ParseComponents(items[1..], engine))
      case (Some(c), Some(cs)) => Some([c] + cs)
      case _ => None
  }

  /** `from_str` */
  function Parse(s: string, engine: Engine): Option<PathGlob> {
    ParseComponents(Components(s), engine)
  }

  /** `as_ref` */
  function ComponentText(c: GlobComponent): string {
    match c
    case AnyOne => "*"
    case AnyMany => "**"
    case _ => c.text
  }

  function Texts(glob: PathGlob): seq<string> {
    seq(|glob|, i requires 0 <= i < |glob| => ComponentText(glob[i]))
  }

  /** `Display` */
  function Print(glob: PathGlob): string {
    Join(Texts(glob))
  }

  /** What is between the stars of a parsed component can be sliced out. */
  predicate Sliceable(c: GlobComponent) {
    match c
    case Contains(s) => |s| >= 3 && s[0] == '*' && s[|s| - 1] == '*'
    case Prefix(s) => |s| >= 2 && s[|s| - 1] == '*'
    case Suffix(s) => |s| >= 2 && s[0] == '*'
    case _ => true
  }

  lemma ParsedComponent(item: string, engine: Engine)
    requires item != []
    ensures var c := ParseComponent(item, engine);
      c.Some? ==> ComponentText(c.value) == item && Sliceable(c.value)
  {
  }

  /** A piece that splitting and cleaning leave alone. */
  predicate IsItem(s: string) {
    s != [] && Trim(s) == s && '/' !in s
  }

  lemma {:induction false} TrimEnds(s: string)
    ensures TrimEnd(s) <= s
    ensures TrimEnd(s) != [] ==> !IsWhite(TrimEnd(s)[|TrimEnd(s)| - 1])
    ensures TrimEnd(TrimEnd(s)) == TrimEnd(s)
  {
    if s != [] && IsWhite(s[|s| - 1]) {
      TrimEnds(s[..|s| - 1]);
    }
  }

  lemma {:induction false} TrimStarts(s: string)
    ensures |TrimStart(s)| <= |s| && TrimStart(s) == s[|s| - |TrimStart(s)|..]
    ensures TrimStart(s) != [] ==> !IsWhite(TrimStart(s)[0])
  {
    if s != [] && IsWhite(s[0]) {
      TrimStarts(s[1..]);
    }
  }

  lemma TrimIsItem(s: string)
    requires '/' !in s && Trim(s) != []
    ensures IsItem(Trim(s))
  {
    var t := TrimStart(s);
    TrimStarts(s);
    TrimEnds(t);
    assert Trim(s)[0] == t[0];
    assert TrimStart(Trim(s)) == Trim(s);
    forall c | c in Trim(s) ensures c in s {
      assert c in t;
    }
  }

  lemma {:induction false} SplitHasNoSlash(s: string)
    ensures forall i :: 0 <= i < |Split(s)| ==> '/' !in Split(s)[i]
  {
    if s != [] {
      SplitHasNoSlash(s[1..]);
    }
  }

  lemma {:induction false} CleanGivesItems(pieces: seq<string>)
    requires forall i :: 0 <= i < |pieces| ==> '/' !in pieces[i]
    ensures forall i :: 0 <= i < |Clean(pieces)| ==> IsItem(Clean(pieces)[i])
  {
    if pieces != [] {
      CleanGivesItems(pieces[1..]);
      if Trim(pieces[0]) != [] {
        TrimIsItem(pieces[0]);
      }
    }
  }

  lemma {:induction false} CleanKeepsItems(items: seq<string>)
    requires forall i :: 0 <= i < |items| ==> IsItem(items[i])
    ensures Clean(items) == items
  {
    if items != [] {
      CleanKeepsItems(items[1..]);
    }
  }

  lemma {:induction false} SplitPrefix(a: string, b: string)
    requires '/' !in a
    ensures Split(a + ['/'] + b) == [a] + Split(b)
    ensures Split(a) == [a]
  {
    if a == [] {
      assert (a + ['/'] + b)[1..] == b;
    } else {
      assert (a + ['/'] + b)[1..] == a[1..] + ['/'] + b;
      SplitPrefix(a[1..], b);
      Uncons(a);
    }
  }

  lemma {:induction false} SplitInvertsJoin(items: seq<string>)
    requires items != [] && forall i :: 0 <= i < |items| ==> IsItem(items[i])
    ensures Split(Join(items)) == items
  {
    if |items| == 1 {
      SplitPrefix(items[0], []);
    } else {
      SplitInvertsJoin(items[1..]);
      SplitPrefix(items[0], Join(items[1..]));
    }
  }

  lemma {:induction false} TextsInvertParse(items: seq<string>, engine: Engine)
    requires forall i :: 0 <= i < |items| ==> IsItem(items[i])
    ensures var glob := ParseComponents(items, engine);
      glob.Some? ==> Texts(glob.value) == items && forall i :: 0 <= i < |glob.value| ==> Sliceable(glob.value[i])
  {
    if items != [] {
      ParsedComponent(items[0], engine);
      TextsInvertParse(items[1..], engine);
    }
  }

  /** Parsing the printed form of a parsed glob gives the same glob, and everything that matching
      slices is long enough. */
  lemma GlobRoundTrip(s: string, engine: Engine)
    requires Parse(s, engine).Some?
    ensures var glob := Parse(s, engine).value;
      && Parse(Print(glob), engine) == Some(glob)
      && forall i :: 0 <= i < |glob| ==> Sliceable(glob[i])
  {
    var items := Components(s);
    SplitHasNoSlash(s);
    CleanGivesItems(Split(s));
    TextsInvertParse(items, engine);
    if items == [] {
      assert Join([]) == [];
      assert Trim([]) == [];
      assert Components([]) == Clean([[]]) == [];
    } else {
      SplitInvertsJoin(items);
      CleanKeepsItems(items);
    }
  }
}
