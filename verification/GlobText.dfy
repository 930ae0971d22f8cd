/** What the text of a glob says: which path components a piece of it accepts, and which paths the whole. */
module GlobText {
  import opened Bytes
  import opened PathGlob
  import opened GlobMatching

  // ----- Paths and globs are cut into components

  /** The characters with the property White_Space in Unicode. */
  const WHITE_SPACE: set<char> :=
    {'\U{0009}', '\U{000A}', '\U{000B}', '\U{000C}', '\U{000D}', '\U{0020}', '\U{0085}', '\U{00A0}', '\U{1680}',
     '\U{2000}', '\U{2001}', '\U{2002}', '\U{2003}', '\U{2004}', '\U{2005}', '\U{2006}', '\U{2007}', '\U{2008}',
     '\U{2009}', '\U{200A}', '\U{2028}', '\U{2029}', '\U{202F}', '\U{205F}', '\U{3000}'}

  lemma WhiteIs(c: char)
    ensures IsWhite(c) <==> c in WHITE_SPACE
  {
  }

  predicate AllWhite(s: string) {
    forall i :: 0 <= i < |s| ==> IsWhite(s[i])
  }

  lemma {:induction false} TrimStartIs(s: string) returns (before: string)
    ensures s == before + TrimStart(s) && AllWhite(before)
  {
    if s == [] || !IsWhite(s[0]) {
      before := [];
    } else {
      var more := TrimStartIs(s[1..]);
      before := [s[0]] + more;
      Uncons(s);
    }
  }

  lemma OneMoreTrimmed(s: string, rest: string, more: string, last: char)
    requires s != [] && last == s[|s| - 1] && s[..|s| - 1] == rest + more
    ensures s == rest + (more + [last])
  {
    UpToNext(s, |s| - 1);
    Assoc(rest, more, [last]);
  }

  lemma {:induction false} TrimEndIs(s: string) returns (after: string)
    ensures s == TrimEnd(s) + after && AllWhite(after)
  {
    if s == [] || !IsWhite(s[|s| - 1]) {
      after := [];
    } else {
      var more := TrimEndIs(s[..|s| - 1]);
      after := more + [s[|s| - 1]];
      OneMoreTrimmed(s, TrimEnd(s), more, s[|s| - 1]);
    }
  }

  lemma TrimIsTight(s: string)
    requires Trim(s) != []
    ensures !IsWhite(Trim(s)[0]) && !IsWhite(Trim(s)[|Trim(s)| - 1])
  {
    TrimStarts(s);
    TrimEnds(TrimStart(s));
  }

  /** A piece without the white space around it. */
  lemma TrimIs(s: string) returns (before: string, after: string)
    ensures s == before + Trim(s) + after && AllWhite(before) && AllWhite(after)
    ensures Trim(s) != [] ==> !IsWhite(Trim(s)[0]) && !IsWhite(Trim(s)[|Trim(s)| - 1])
  {
    before := TrimStartIs(s);
    after := TrimEndIs(TrimStart(s));
    Assoc(before, Trim(s), after);
    if Trim(s) != [] {
      TrimIsTight(s);
    }
  }

  lemma {:induction false} SplitAppend(a: string, b: string)
    ensures Split(a + ['/'] + b) == Split(a) + Split(b)
  {
    if a == [] {
      assert (a + ['/'] + b)[1..] == b;
    } else {
      assert (a + ['/'] + b)[1..] == a[1..] + ['/'] + b;
      SplitAppend(a[1..], b);
    }
  }

  lemma {:induction false} CleanAppend(a: seq<string>, b: seq<string>)
    ensures Clean(a + b) == Clean(a) + Clean(b)
  {
    if a == [] {
      assert a + b == b;
    } else {
      assert (a + b)[1..] == a[1..] + b;
      CleanAppend(a[1..], b);
      Assoc(if Trim(a[0]) == [] then [] else [Trim(a[0])], Clean(a[1..]), Clean(b));
    }
  }

  /** Components are what is between the slashes, trimmed, and left out if nothing is left. */
  lemma ComponentsAre(a: string, b: string)
    ensures Components(a + ['/'] + b) == Components(a) + Components(b)
    ensures '/' !in a ==> Components(a) == if Trim(a) == [] then [] else [Trim(a)]
  {
    SplitAppend(a, b);
    CleanAppend(Split(a), Split(b));
    if '/' !in a {
      SplitPrefix(a, []);
      assert [a][1..] == [];
    }
  }

  lemma {:induction false} SplitKeepsChars(s: string, i: nat, c: char)
    requires i < |Split(s)| && c in Split(s)[i]
    ensures c in s
  {
    if s != [] {
      var rest := Split(s[1..]);
      if s[0] == '/' {
        if i > 0 {
          SplitKeepsChars(s[1..], i - 1, c);
        }
      } else if i > 0 || c in rest[0] {
        SplitKeepsChars(s[1..], i, c);
      }
    }
  }

  lemma {:induction false} CleanSource(pieces: seq<string>, i: nat) returns (j: nat)
    requires i < |Clean(pieces)|
    ensures j < |pieces| && Clean(pieces)[i] == Trim(pieces[j])
  {
    if Trim(pieces[0]) == [] {
      j := CleanSource(pieces[1..], i);
      j := j + 1;
    } else if i == 0 {
      j := 0;
    } else {
      j := CleanSource(pieces[1..], i - 1);
      j := j + 1;
    }
  }

  lemma ComponentKeepsChars(s: string, i: nat, c: char)
    requires i < |Components(s)| && c in Components(s)[i]
    ensures c in s
  {
    var j := CleanSource(Split(s), i);
    var before, after := TrimIs(Split(s)[j]);
    assert c in before + Trim(Split(s)[j]) + after;
    SplitKeepsChars(s, j, c);
  }

  // ----- One component

  predicate StartsOpen(item: string) {
    item != [] && item[0] == '*'
  }

  predicate EndsOpen(item: string) {
    |item| > 1 && item[|item| - 1] == '*'
  }

  /** The piece without a star at either end. */
  function Core(item: string): string {
    var (from, to) := (if StartsOpen(item) then 1 else 0, if EndsOpen(item) then |item| - 1 else |item|);
    item[from..to]
  }

  /** The component is the core of the piece, with anything in place of a star before or behind it. */
  ghost predicate IsAround(item: string, t: string) {
    exists before, after ::
      && t == before + Core(item) + after
      && (StartsOpen(item) || before == []) && (EndsOpen(item) || after == [])
  }

  /** What the text of one component accepts; `#` is followed by a regular expression. */
  ghost predicate TextAccepts(item: string, t: string, engine: Engine) {
    if item != [] && item[0] == '#' then engine.matches(item, t) else IsAround(item, t)
  }

  lemma WithinIff(core: string, t: string)
    ensures Within(core, t) <==> exists before, after :: t == before + core + after
  {
    if i :| 0 <= i <= |t| && At(core, t, i) {
      assert t == t[..i] + core + t[i + |core|..];
    }
    if before, after :| t == before + core + after {
      assert At(core, t, |before|);
    }
  }

  lemma ContainsText(item: string, t: string)
    requires StartsOpen(item) && EndsOpen(item)
    ensures Within(item[1..|item| - 1], t) <==> IsAround(item, t)
  {
    WithinIff(Core(item), t);
  }

  lemma PrefixText(item: string, t: string)
    requires !StartsOpen(item) && EndsOpen(item)
    ensures item[..|item| - 1] <= t <==> IsAround(item, t)
  {
    var core := Core(item);
    if core <= t {
      assert t == [] + core + t[|core|..];
    }
  }

  lemma SuffixText(item: string, t: string)
    requires StartsOpen(item) && !EndsOpen(item)
    ensures |item| - 1 <= |t| && t[|t| - (|item| - 1)..] == item[1..] <==> IsAround(item, t)
  {
    var core := Core(item);
    if |core| <= |t| && t[|t| - |core|..] == core {
      assert t == t[..|t| - |core|] + core + [];
    }
  }

  lemma LiteralText(item: string, t: string)
    requires !StartsOpen(item) && !EndsOpen(item)
    ensures t == item <==> IsAround(item, t)
  {
    if t == item {
      assert t == [] + Core(item) + [];
    }
  }

  lemma OpenText(item: string, t: string)
    requires item == "*" || item == "**"
    ensures IsAround(item, t)
  {
    assert t == t + Core(item) + [];
  }

  /** A parsed component accepts just what its text says, whatever kind of component it is parsed to. */
  lemma ComponentMeans(item: string, t: string, engine: Engine)
    requires item != []
    ensures ParseComponent(item, engine).Some? <==> (item[0] == '#' ==> engine.compiles(item[1..]))
    ensures ParseComponent(item, engine).Some? ==>
      && Sliceable(ParseComponent(item, engine).value)
      && (Matches(ParseComponent(item, engine).value, t, engine) <==> TextAccepts(item, t, engine))
  {
    if item == "*" || item == "**" {
      OpenText(item, t);
    } else if item[0] != '#' {
      if StartsOpen(item) && EndsOpen(item) {
        ContainsText(item, t);
      } else if StartsOpen(item) {
        SuffixText(item, t);
      } else if EndsOpen(item) {
        PrefixText(item, t);
      } else {
        LiteralText(item, t);
      }
    }
  }

  /** The text matches what it is parsed to. */
  predicate ParsesToMatch(item: string, t: string, engine: Engine) {
    var c := ParseComponent(item, engine);
    c.Some? && Sliceable(c.value) && Matches(c.value, t, engine)
  }

  /** The four written forms of a text without stars. */
  lemma WrittenForms(p: string, t: string, engine: Engine)
    requires p != [] && p[0] != '#' && '*' !in p
    ensures ParsesToMatch(p, t, engine) <==> t == p
    ensures ParsesToMatch(p + "*", t, engine) <==> exists rest :: t == p + rest
    ensures ParsesToMatch("*" + p, t, engine) <==> exists rest :: t == rest + p
    ensures ParsesToMatch("*" + p + "*", t, engine) <==> exists before, after :: t == before + p + after
  {
    LiteralForm(p, t, engine);
    PrefixForm(p, t, engine);
    SuffixForm(p, t, engine);
    ContainsForm(p, t, engine);
  }

  lemma LiteralForm(p: string, t: string, engine: Engine)
    requires p != [] && p[0] != '#' && '*' !in p
    ensures ParsesToMatch(p, t, engine) <==> t == p
  {
    ComponentMeans(p, t, engine);
    LiteralText(p, t);
  }

  lemma PrefixForm(p: string, t: string, engine: Engine)
    requires p != [] && p[0] != '#' && '*' !in p
    ensures ParsesToMatch(p + "*", t, engine) <==> exists rest :: t == p + rest
  {
    ComponentMeans(p + "*", t, engine);
    assert (p + "*")[0] == p[0] && Core(p + "*") == p;
    if before, after :| t == before + p + after && before == [] {
      assert t == p + after;
    }
    if rest :| t == p + rest {
      assert t == [] + p + rest;
    }
  }

  lemma SuffixForm(p: string, t: string, engine: Engine)
    requires p != [] && '*' !in p
    ensures ParsesToMatch("*" + p, t, engine) <==> exists rest :: t == rest + p
  {
    var item := "*" + p;
    ComponentMeans(item, t, engine);
    assert item[|item| - 1] == p[|p| - 1] && Core(item) == p;
    if before, after :| t == before + p + after && after == [] {
      assert t == before + p;
    }
    if rest :| t == rest + p {
      assert t == rest + p + [];
    }
  }

  lemma ContainsForm(p: string, t: string, engine: Engine)
    requires p != [] && '*' !in p
    ensures ParsesToMatch("*" + p + "*", t, engine) <==> exists before, after :: t == before + p + after
  {
    ComponentMeans("*" + p + "*", t, engine);
    assert Core("*" + p + "*") == p;
  }

  // ----- A whole glob

  /** What the text of a glob means: `**` is any number of components. */
  ghost predicate TextMeans(items: seq<string>, path: seq<string>, engine: Engine)
    decreases |items|
  {
    if items == [] then path == []
    else if items[0] == "**" then exists k | 0 <= k <= |path| :: TextMeans(items[1..], path[k..], engine)
    else path != [] && TextAccepts(items[0], path[0], engine) && TextMeans(items[1..], path[1..], engine)
  }

  lemma {:induction false} ItemsMean(items: seq<string>, path: seq<string>, engine: Engine)
    requires AllItems(items) && ParseComponents(items, engine).Some?
    ensures Ready(ParseComponents(items, engine).value)
    ensures Denotes(ParseComponents(items, engine).value, path, engine) <==> TextMeans(items, path, engine)
    decreases |items|
  {
    TextsInvertParse(items, engine);
    if items != [] {
      var glob := ParseComponents(items, engine).value;
      ComponentMeans(items[0], if path == [] then [] else path[0], engine);
      assert glob[1..] == ParseComponents(items[1..], engine).value;
      if items[0] == "**" {
        forall k | 0 <= k <= |path|
          ensures Denotes(glob[1..], path[k..], engine) <==> TextMeans(items[1..], path[k..], engine)
        {
          ItemsMean(items[1..], path[k..], engine);
        }
      } else if path != [] {
        ItemsMean(items[1..], path[1..], engine);
      }
    }
  }

  /** A glob means what its text says. */
  lemma {:induction false} GlobMeans(s: string, target: string, engine: Engine)
    requires Parse(s, engine).Some?
    ensures Ready(Parse(s, engine).value)
    ensures Denotes(Parse(s, engine).value, Components(target), engine)
       <==> TextMeans(Components(s), Components(target), engine)
  {
    ComponentsAreItems(s);
    ItemsMean(Components(s), Components(target), engine);
  }

  /** A parsed glob is printed as its components with slashes between them. */
  lemma {:induction false} PrintedText(s: string, engine: Engine)
    requires Parse(s, engine).Some?
    ensures Print(Parse(s, engine).value) == Join(Components(s))
  {
    ComponentsAreItems(s);
    TextsInvertParse(Components(s), engine);
  }

  // ----- Globs without stars

  predicate IsLiteral(item: string) {
    item != [] && item[0] != '#' && !StartsOpen(item) && !EndsOpen(item)
  }

  lemma {:induction false} LiteralsMatch(items: seq<string>, path: seq<string>, engine: Engine)
    requires forall i :: 0 <= i < |items| ==> IsLiteral(items[i])
    ensures ParseComponents(items, engine).Some? && Ready(ParseComponents(items, engine).value)
    ensures Lazy(ParseComponents(items, engine).value, path, engine) <==> path == items
    decreases |items|
  {
    if items != [] {
      LiteralsMatch(items[1..], if path == [] then [] else path[1..], engine);
      var glob := ParseComponents(items, engine).value;
      assert glob[0] == Literal(items[0]) && glob[1..] == ParseComponents(items[1..], engine).value;
      Uncons(items);
      if path != [] {
        Uncons(path);
      }
    }
  }

  /** A glob without stars and regular expressions is matched by exactly the paths with its components. */
  lemma {:induction false} LiteralGlob(s: string, target: string, engine: Engine)
    requires '*' !in s && '#' !in s
    ensures Parse(s, engine).Some? && Ready(Parse(s, engine).value)
    ensures Lazy(Parse(s, engine).value, Components(target), engine) <==> Components(target) == Components(s)
  {
    ComponentsAreItems(s);
    forall i | 0 <= i < |Components(s)| ensures IsLiteral(Components(s)[i]) {
      var item := Components(s)[i];
      assert IsItem(item);
      if item[0] == '#' || item[0] == '*' {
        ComponentKeepsChars(s, i, item[0]);
      }
      if item[|item| - 1] == '*' {
        ComponentKeepsChars(s, i, '*');
      }
    }
    LiteralsMatch(Components(s), Components(target), engine);
  }
}
