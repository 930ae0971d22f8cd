/** Matching a path against a glob: the one-pass loop, which commits `**` to the first component its
    follower matches, against the declarative meaning in which `**` stands for any components. */
module GlobMatching {
  import opened Bytes
  import opened PathGlob

  predicate At(needle: string, s: string, i: nat) {
    i + |needle| <= |s| && s[i..i + |needle|] == needle
  }

  predicate Within(needle: string, s: string) {
    exists i | 0 <= i <= |s| :: At(needle, s, i)
  }

  predicate Matches(c: GlobComponent, target: string, engine: Engine)
    requires Sliceable(c)
  {
    match c
    case AnyOne => true
    case AnyMany => true
    case Regex(s) => engine.matches(s, target)
    case Contains(s) => Within(s[1..|s| - 1], target)
    case Prefix(s) => s[..|s| - 1] <= target
    case Suffix(s) => |s| - 1 <= |target| && target[|target| - (|s| - 1)..] == s[1..]
    case Literal(s) => target == s
  }

  predicate Ready(glob: PathGlob) {
    forall i :: 0 <= i < |glob| ==> Sliceable(glob[i])
  }

  /** What the matching loop accepts. */
  ghost predicate Lazy(glob: PathGlob, path: seq<string>, engine: Engine)
    requires Ready(glob)
    decreases |path|
  {
    if glob == [] then path == []
    else if !glob[0].AnyMany? then
      path != [] && Matches(glob[0], path[0], engine) && Lazy(glob[1..], path[1..], engine)
    else if |glob| == 1 then true
    else if path == [] then false
    else if Matches(glob[1], path[0], engine) then Lazy(glob[2..], path[1..], engine)
    else Lazy(glob, path[1..], engine)
  }

  /** What a glob means: `**` stands for any number of components. */
  ghost predicate Denotes(glob: PathGlob, path: seq<string>, engine: Engine)
    requires Ready(glob)
    decreases |glob|
  {
    if glob == [] then path == []
    else if glob[0].AnyMany? then exists k | 0 <= k <= |path| :: Denotes(glob[1..], path[k..], engine)
    else path != [] && Matches(glob[0], path[0], engine) && Denotes(glob[1..], path[1..], engine)
  }

  /** What the loop makes of the rest of a path from its positions on. */
  ghost predicate LazyFrom(glob: PathGlob, path: seq<string>, g: nat, p: nat, engine: Engine)
    requires Ready(glob) && g <= |glob| && p <= |path|
  {
    Lazy(glob[g..], path[p..], engine)
  }

  /** One round of the loop. */
  lemma LazyAt(glob: PathGlob, path: seq<string>, g: nat, p: nat, engine: Engine)
    requires Ready(glob) && g < |glob| && p <= |path|
    ensures LazyFrom(glob, path, g, p, engine) ==
      if !glob[g].AnyMany? then
        p < |path| && Matches(glob[g], path[p], engine) && LazyFrom(glob, path, g + 1, p + 1, engine)
      else if g + 1 == |glob| then true
      else if p == |path| then false
      else if Matches(glob[g + 1], path[p], engine) then LazyFrom(glob, path, g + 2, p + 1, engine)
      else LazyFrom(glob, path, g, p + 1, engine)
  {
    assert glob[g..][1..] == glob[g + 1..];
    if g + 1 < |glob| {
      assert glob[g..][2..] == glob[g + 2..];
    }
    if p < |path| {
      assert path[p..][1..] == path[p + 1..];
    }
  }

  /** The loop after `**`: on to the first component that the follower matches, and past it. */
  method FindFollower(glob: PathGlob, path: seq<string>, many: nat, from: nat, engine: Engine)
    returns (found: bool, at: nat)
    requires Ready(glob) && many + 1 < |glob| && glob[many].AnyMany? && from <= |path|
    ensures at <= |path|
    ensures LazyFrom(glob, path, many, from, engine) == (found && LazyFrom(glob, path, many + 2, at, engine))
  {
    at := from;
    while true
      invariant at <= |path|
      invariant LazyFrom(glob, path, many, from, engine) == LazyFrom(glob, path, many, at, engine)
      decreases |path| - at
    {
      LazyAt(glob, path, many, at, engine);
      if at == |path| {
        return false, at;
      }
      var next := path[at];
      at := at + 1;
      if Matches(glob[many + 1], next, engine) {
        return true, at;
      }
    }
  }

  /** `matches_components` */
  method MatchesComponents(glob: PathGlob, target: seq<string>, engine: Engine) returns (matched: bool)
    requires Ready(glob)
    ensures matched == Lazy(glob, Clean(target), engine)
  {
    var components := Clean(target);
    var at, globI := 0, 0;
    ghost var result := Lazy(glob, components, engine);
    assert glob[0..] == glob && components[0..] == components;
    while true
      invariant 0 <= globI <= |glob| && 0 <= at <= |components|
      invariant result == LazyFrom(glob, components, globI, at, engine)
      decreases |glob| - globI
    {
      if globI == |glob| {
        return at == |components|;
      }
      LazyAt(glob, components, globI, at, engine);
      if glob[globI].AnyMany? {
        globI := globI + 1;
        if globI == |glob| {
          return true;
        }
        var found;
        found, at := FindFollower(glob, components, globI - 1, at, engine);
        if !found {
          return false;
        }
        globI := globI + 1;
        continue;
      }
      if at == |components| {
        return false;
      }
      var component := components[at];
      at := at + 1;
      globI := globI + 1;
      if !Matches(glob[globI - 1], component, engine) {
        return false;
      }
    }
  }

  /** `matches` */
  method MatchesPath(glob: PathGlob, target: string, engine: Engine) returns (matched: bool)
    requires Ready(glob)
    ensures matched == Lazy(glob, Components(target), engine)
  {
    matched := MatchesComponents(glob, Split(target), engine);
  }

  // ----- Soundness

  lemma {:induction false} SkipOne(glob: PathGlob, path: seq<string>, k: nat, engine: Engine)
    requires Ready(glob) && glob != [] && glob[0].AnyMany? && k <= |path|
    requires Denotes(glob, path[k..], engine)
    ensures Denotes(glob, path, engine)
  {
    var j :| 0 <= j <= |path[k..]| && Denotes(glob[1..], path[k..][j..], engine);
    assert path[k..][j..] == path[k + j..];
  }

  /** Whatever the loop accepts, the glob means. */
  lemma {:induction false} LazyIsSound(glob: PathGlob, path: seq<string>, engine: Engine)
    requires Ready(glob) && Lazy(glob, path, engine)
    ensures Denotes(glob, path, engine)
    decreases |path|
  {
    if glob == [] {
    } else if !glob[0].AnyMany? {
      LazyIsSound(glob[1..], path[1..], engine);
    } else if |glob| == 1 {
      assert path[|path|..] == [];
    } else if Matches(glob[1], path[0], engine) {
      LazyIsSound(glob[2..], path[1..], engine);
      FollowerTakes(glob, path, engine);
    } else {
      LazyIsSound(glob, path[1..], engine);
      SkipOne(glob, path, 1, engine);
    }
  }

  lemma {:induction false} FollowerTakes(glob: PathGlob, path: seq<string>, engine: Engine)
    requires Ready(glob) && |glob| >= 2 && glob[0].AnyMany?
    requires path != [] && Matches(glob[1], path[0], engine) && Denotes(glob[2..], path[1..], engine)
    ensures Denotes(glob, path, engine)
  {
    assert glob[1..][1..] == glob[2..];
    assert path[0..] == path;
    if glob[1].AnyMany? {
      assert Denotes(glob[1..], path[0..], engine);
    }
  }

  // ----- Exactness

  /** The component accepts every path component: `*`, or a regular expression that matches them all. */
  ghost predicate Universal(c: GlobComponent, engine: Engine) {
    Sliceable(c) && !c.AnyMany? && forall s :: IsItem(s) ==> Matches(c, s, engine)
  }

  /** Every `**` ends the glob, or has a follower other than `**` and then only universal components up to
      the next `**`. */
  ghost predicate Tame(glob: PathGlob, engine: Engine)
    decreases |glob|, 0
  {
    glob == []
    || (!glob[0].AnyMany? && Tame(glob[1..], engine))
    || (glob[0].AnyMany? && (|glob| == 1 || (!glob[1].AnyMany? && TameAfter(glob[2..], engine))))
  }

  ghost predicate TameAfter(glob: PathGlob, engine: Engine)
    decreases |glob|, 1
  {
    glob != []
    && ((glob[0].AnyMany? && Tame(glob, engine)) || (Universal(glob[0], engine) && TameAfter(glob[1..], engine)))
  }

  predicate AllItems(path: seq<string>) {
    forall i :: 0 <= i < |path| ==> IsItem(path[i])
  }

  /** What follows a tame follower accepts a path whenever it accepts a suffix of it. */
  lemma {:induction false} Absorbs(glob: PathGlob, path: seq<string>, k: nat, engine: Engine)
    requires Ready(glob) && TameAfter(glob, engine) && AllItems(path)
    requires k <= |path| && Denotes(glob, path[k..], engine)
    ensures Denotes(glob, path, engine)
    decreases |glob|
  {
    if glob[0].AnyMany? {
      SkipOne(glob, path, k, engine);
    } else {
      assert path[k..][1..] == path[1..][k..];
      Absorbs(glob[1..], path[1..], k, engine);
    }
  }

  lemma {:induction false} TameIsComplete(glob: PathGlob, path: seq<string>, engine: Engine)
    requires Ready(glob) && Tame(glob, engine) && AllItems(path) && Denotes(glob, path, engine)
    ensures Lazy(glob, path, engine)
    decreases |path|, |glob|
  {
    if glob == [] || (|glob| == 1 && glob[0].AnyMany?) {
    } else if !glob[0].AnyMany? {
      TameIsComplete(glob[1..], path[1..], engine);
    } else {
      var k :| 0 <= k <= |path| && Denotes(glob[1..], path[k..], engine);
      assert glob[1..][1..] == glob[2..];
      assert path[k..][1..] == path[1..][k..];
      if Matches(glob[1], path[0], engine) {
        Absorbs(glob[2..], path[1..], k, engine);
        TameAfterIsTame(glob[2..], engine);
        TameIsComplete(glob[2..], path[1..], engine);
      } else {
        assert path[k..] == path[1..][k - 1..];
        TameIsComplete(glob, path[1..], engine);
      }
    }
  }

  lemma {:induction false} TameAfterIsTame(glob: PathGlob, engine: Engine)
    requires TameAfter(glob, engine)
    ensures Tame(glob, engine)
  {
    if !glob[0].AnyMany? {
      TameAfterIsTame(glob[1..], engine);
    }
  }

  // ----- Nothing but a tame glob is exact

  ghost predicate Accepts(c: GlobComponent, s: string, engine: Engine) {
    IsItem(s) && Sliceable(c) && Matches(c, s, engine)
  }

  ghost predicate Refuses(c: GlobComponent, s: string, engine: Engine) {
    IsItem(s) && Sliceable(c) && !Matches(c, s, engine)
  }

  /** Some path component is accepted. */
  ghost predicate Satisfiable(c: GlobComponent, engine: Engine) {
    exists s :: Accepts(c, s, engine)
  }

  ghost predicate AllSatisfiable(glob: PathGlob, engine: Engine) {
    forall i :: 0 <= i < |glob| ==> Satisfiable(glob[i], engine)
  }

  ghost function Accepted(c: GlobComponent, engine: Engine): string
    requires Satisfiable(c, engine)
  {
    var s :| Accepts(c, s, engine);
    s
  }

  /** The shortest path a glob denotes: one accepted component for each part other than `**`. */
  ghost function Shortest(glob: PathGlob, engine: Engine): seq<string>
    requires AllSatisfiable(glob, engine)
  {
    if glob == [] then []
    else (if glob[0].AnyMany? then [] else [Accepted(glob[0], engine)]) + Shortest(glob[1..], engine)
  }

  lemma {:induction false} ShortestIsDenoted(glob: PathGlob, engine: Engine)
    requires AllSatisfiable(glob, engine)
    ensures Ready(glob) && Denotes(glob, Shortest(glob, engine), engine) && AllItems(Shortest(glob, engine))
  {
    if glob != [] {
      ShortestIsDenoted(glob[1..], engine);
      if glob[0].AnyMany? {
        assert Shortest(glob, engine)[0..] == Shortest(glob[1..], engine);
      }
    }
  }

  lemma {:induction false} NothingShorter(glob: PathGlob, path: seq<string>, engine: Engine)
    requires AllSatisfiable(glob, engine) && Ready(glob) && Denotes(glob, path, engine)
    ensures |path| >= |Shortest(glob, engine)|
    decreases |glob|
  {
    if glob == [] {
    } else if glob[0].AnyMany? {
      var k :| 0 <= k <= |path| && Denotes(glob[1..], path[k..], engine);
      NothingShorter(glob[1..], path[k..], engine);
    } else {
      NothingShorter(glob[1..], path[1..], engine);
    }
  }

  lemma {:induction false} OneMore(c: GlobComponent, glob: PathGlob, item: string, path: seq<string>, engine: Engine)
    requires Sliceable(c) && !c.AnyMany? && Matches(c, item, engine) && Ready(glob) && Denotes(glob, path, engine)
    ensures Ready([c] + glob) && Denotes([c] + glob, [item] + path, engine)
  {
    assert ([c] + glob)[1..] == glob && ([item] + path)[1..] == path;
  }

  /** A part without `**` takes one accepted component each, and the rest goes on. */
  lemma {:induction false} PlainPart(plain: PathGlob, rest: PathGlob, path: seq<string>, engine: Engine)
    requires AllSatisfiable(plain, engine) && Ready(rest) && Denotes(rest, path, engine)
    requires forall i :: 0 <= i < |plain| ==> !plain[i].AnyMany?
    ensures |Shortest(plain, engine)| == |plain|
    ensures Ready(plain + rest) && Denotes(plain + rest, Shortest(plain, engine) + path, engine)
  {
    if plain == [] {
      assert plain + rest == rest && Shortest(plain, engine) + path == path;
    } else {
      var more, item := plain[1..], Accepted(plain[0], engine);
      PlainPart(more, rest, path, engine);
      OneMore(plain[0], more + rest, item, Shortest(more, engine) + path, engine);
      Assoc([plain[0]], more, rest);
      Assoc([item], Shortest(more, engine), path);
      assert plain == [plain[0]] + more;
    }
  }

  lemma {:induction false} ShortestSnoc(glob: PathGlob, c: GlobComponent, engine: Engine)
    requires AllSatisfiable(glob, engine) && Satisfiable(c, engine) && !c.AnyMany?
    ensures Shortest(glob + [c], engine) == Shortest(glob, engine) + [Accepted(c, engine)]
  {
    if glob == [] {
      assert glob + [c] == [c];
    } else {
      assert (glob + [c])[1..] == glob[1..] + [c];
      ShortestSnoc(glob[1..], c, engine);
      Assoc(if glob[0].AnyMany? then [] else [Accepted(glob[0], engine)], Shortest(glob[1..], engine),
        [Accepted(c, engine)]);
    }
  }

  /** A denoted path that the loop refuses. */
  ghost predicate Missed(glob: PathGlob, path: seq<string>, engine: Engine)
    requires Ready(glob)
  {
    AllItems(path) && Denotes(glob, path, engine) && !Lazy(glob, path, engine)
  }

  /** Of two `**` in a row the second takes exactly one component. */
  lemma {:induction false} DoubleMisses(glob: PathGlob, engine: Engine)
    requires |glob| >= 2 && glob[0].AnyMany? && glob[1].AnyMany? && Ready(glob) && AllSatisfiable(glob, engine)
    ensures Missed(glob, Shortest(glob, engine), engine)
  {
    var path := Shortest(glob, engine);
    ShortestIsDenoted(glob, engine);
    assert path == Shortest(glob[1..], engine);
    assert path == Shortest(glob[1..][1..], engine);
    assert glob[1..][1..] == glob[2..];
    if Lazy(glob, path, engine) {
      LazyIsSound(glob[2..], path[1..], engine);
      NothingShorter(glob[2..], path[1..], engine);
    }
  }

  lemma {:induction false} StuckMisses(f: GlobComponent, glob: PathGlob, path: seq<string>, engine: Engine)
    requires Plain([f], engine) && Ready(glob) && Stuck([f], glob, path, engine)
    ensures var whole := [AnyMany] + ([f] + glob);
      Ready(whole) && Missed(whole, Shortest([f], engine) + path, engine)
  {
    var first := Shortest([f], engine);
    ShortestSnoc([], f, engine);
    assert [] + [f] == [f];
    assert first == [Accepted(f, engine)];
    assert (first + path)[1..] == path;
    assert ([AnyMany] + ([f] + glob))[2..] == glob;
  }

  lemma {:induction false} UntamedMisses(glob: PathGlob, engine: Engine) returns (path: seq<string>)
    requires Ready(glob) && AllSatisfiable(glob, engine) && !Tame(glob, engine)
    ensures Missed(glob, path, engine)
    decreases |glob|, 0
  {
    if !glob[0].AnyMany? {
      var rest := UntamedMisses(glob[1..], engine);
      var item := Accepted(glob[0], engine);
      path := [item] + rest;
      OneMore(glob[0], glob[1..], item, rest, engine);
      Uncons(glob);
      assert path[1..] == rest;
    } else if glob[1].AnyMany? {
      path := Shortest(glob, engine);
      DoubleMisses(glob, engine);
    } else {
      var rest := UntamedAfter([glob[1]], glob[2..], engine);
      path := Shortest([glob[1]], engine) + rest;
      StuckMisses(glob[1], glob[2..], rest, engine);
      assert [AnyMany] + ([glob[1]] + glob[2..]) == glob;
    }
  }

  /** After a follower and stars that took the first components they could, the loop is stuck where
      starting later would have succeeded. */
  ghost predicate Stuck(taken: PathGlob, glob: PathGlob, path: seq<string>, engine: Engine)
    requires Ready(taken) && Ready(glob) && AllSatisfiable(taken, engine)
  {
    && AllItems(path) && !Lazy(glob, path, engine)
    && Denotes([AnyMany] + (taken + glob), Shortest(taken, engine) + path, engine)
  }

  ghost predicate Plain(glob: PathGlob, engine: Engine) {
    && Ready(glob) && AllSatisfiable(glob, engine) && forall i :: 0 <= i < |glob| ==> !glob[i].AnyMany?
  }

  lemma StuckLater(taken: PathGlob, glob: PathGlob, path: seq<string>, engine: Engine)
    requires Plain(taken, engine) && Ready(glob) && Missed(glob, path, engine)
    ensures Stuck(taken, glob, path, engine)
  {
    var first := Shortest(taken, engine);
    PlainPart(taken, glob, path, engine);
    SkipFirst(taken + glob, [], first + path, engine);
    assert [] + (first + path) == first + path;
  }

  lemma StuckAfterOne(taken: PathGlob, c: GlobComponent, glob: PathGlob, path: seq<string>, engine: Engine)
    requires Plain(taken, engine) && Ready(glob) && Sliceable(c) && !c.AnyMany? && Satisfiable(c, engine)
    requires Stuck(taken + [c], glob, path, engine)
    ensures Stuck(taken, [c] + glob, [Accepted(c, engine)] + path, engine)
  {
    var item := Accepted(c, engine);
    ShortestSnoc(taken, c, engine);
    Assoc(Shortest(taken, engine), [item], path);
    Assoc(taken, [c], glob);
    assert ([c] + glob)[1..] == glob && ([item] + path)[1..] == path;
  }

  lemma {:induction false} StuckNow(taken: PathGlob, glob: PathGlob, skipped: seq<string>, engine: Engine,
                                    path: seq<string>)
    requires Plain(taken, engine) && Ready(glob) && AllSatisfiable(glob, engine)
    requires path == skipped + (Shortest(taken, engine) + Shortest(glob, engine))
    requires !Lazy(glob, path, engine) && AllItems(skipped)
    ensures Stuck(taken, glob, path, engine)
  {
    var first, again := Shortest(taken, engine), Shortest(glob, engine);
    ShortestIsDenoted(taken, engine);
    ShortestIsDenoted(glob, engine);
    PlainPart(taken, glob, again, engine);
    SkipFirst(taken + glob, first + skipped, first + again, engine);
    Assoc(first, skipped, first + again);
  }

  lemma {:induction false} UntamedAfter(taken: PathGlob, glob: PathGlob, engine: Engine) returns (path: seq<string>)
    requires taken != [] && Plain(taken, engine) && Ready(glob) && AllSatisfiable(glob, engine)
    requires !TameAfter(glob, engine)
    ensures Stuck(taken, glob, path, engine)
    decreases |glob|, 1
  {
    var whole := Shortest(taken, engine) + Shortest(glob, engine);
    if glob == [] {
      PlainPart(taken, [], [], engine);
      path := [] + whole;
      StuckNow(taken, glob, [], engine, path);
    } else if glob[0].AnyMany? {
      path := UntamedMisses(glob, engine);
      StuckLater(taken, glob, path, engine);
    } else if Universal(glob[0], engine) {
      var rest := UntamedAfter(taken + [glob[0]], glob[1..], engine);
      path := [Accepted(glob[0], engine)] + rest;
      StuckAfterOne(taken, glob[0], glob[1..], rest, engine);
      Uncons(glob);
    } else {
      var item :| IsItem(item) && !Matches(glob[0], item, engine);
      path := [item] + whole;
      StuckNow(taken, glob, [item], engine, path);
    }
  }

  lemma {:induction false} SkipFirst(glob: PathGlob, skipped: seq<string>, path: seq<string>, engine: Engine)
    requires Ready(glob) && Denotes(glob, path, engine)
    ensures Ready([AnyMany] + glob) && Denotes([AnyMany] + glob, skipped + path, engine)
  {
    assert ([AnyMany] + glob)[1..] == glob;
    assert (skipped + path)[|skipped|..] == path;
  }

  // ----- Parsed globs

  /** A glob component that a path piece parses to. */
  predicate Written(c: GlobComponent) {
    Sliceable(c) && IsItem(ComponentText(c))
  }

  lemma ItemEnds(s: string)
    requires s != [] && '/' !in s
    ensures IsItem(s) <==> !IsWhite(s[0]) && !IsWhite(s[|s| - 1])
  {
    TrimStarts(s);
    TrimEnds(TrimStart(s));
    if IsWhite(s[0]) {
      TrimStarts(s[1..]);
    }
  }

  lemma AcceptsContaining(s: string, engine: Engine) returns (item: string)
    requires Written(Contains(s))
    ensures Accepts(Contains(s), item, engine)
  {
    var inner := s[1..|s| - 1];
    item := "a" + inner + "a";
    assert item[1..1 + |inner|] == inner;
    assert At(inner, item, 1);
    ItemEnds(item);
  }

  lemma AcceptsEnding(s: string, engine: Engine) returns (item: string)
    requires Written(Suffix(s))
    ensures Accepts(Suffix(s), item, engine)
  {
    item := "a" + s[1..];
    ItemEnds(s);
    ItemEnds(item);
    assert item[|item| - (|s| - 1)..] == s[1..];
  }

  lemma AcceptsSome(c: GlobComponent, engine: Engine) returns (item: string)
    requires Written(c) && !c.Regex?
    ensures Accepts(c, item, engine)
  {
    match c
    case Contains(s) => item := AcceptsContaining(s, engine);
    case Prefix(s) =>
      item := s[..|s| - 1] + "a";
      ItemEnds(s);
      ItemEnds(item);
    case Suffix(s) => item := AcceptsEnding(s, engine);
    case Literal(s) => item := s;
    case _ =>
      item := "a";
      ItemEnds(item);
  }

  lemma NotWithin(needle: string, s: string)
    requires needle != [] && needle[0] !in s
    ensures !Within(needle, s)
  {
    forall i: nat ensures !At(needle, s, i) {
      if i + |needle| <= |s| {
        assert s[i..i + |needle|][0] == s[i];
      }
    }
  }

  /** A one-letter component that is not the given letter. */
  function Other(c: char): string {
    if c == 'a' then "b" else "a"
  }

  lemma RefusesEnding(s: string, engine: Engine)
    requires Written(Suffix(s))
    ensures Refuses(Suffix(s), Other(s[|s| - 1]), engine)
  {
    var item := Other(s[|s| - 1]);
    ItemEnds(item);
    if |s| == 2 {
      assert s[1..][0] == s[|s| - 1];
    }
  }

  lemma RefusesStarting(s: string, engine: Engine)
    requires Written(Prefix(s))
    ensures Refuses(Prefix(s), Other(s[0]), engine)
  {
    ItemEnds(Other(s[0]));
    assert s[..|s| - 1][0] == s[0];
  }

  lemma RefusesContaining(s: string, engine: Engine)
    requires Written(Contains(s))
    ensures Refuses(Contains(s), Other(s[1]), engine)
  {
    ItemEnds(Other(s[1]));
    NotWithin(s[1..|s| - 1], Other(s[1]));
  }

  lemma RefusesSome(c: GlobComponent, engine: Engine) returns (item: string)
    requires Written(c) && (c.Contains? || c.Prefix? || c.Suffix? || c.Literal?)
    ensures Refuses(c, item, engine)
  {
    var s := c.text;
    match c
    case Literal(_) =>
      item := Other(s[0]);
      ItemEnds(item);
    case Suffix(_) =>
      item := Other(s[|s| - 1]);
      RefusesEnding(s, engine);
    case Prefix(_) =>
      item := Other(s[0]);
      RefusesStarting(s, engine);
    case Contains(_) =>
      item := Other(s[1]);
      RefusesContaining(s, engine);
  }

  /** Apart from regular expressions, every written component accepts some path component, and only `*`
      accepts them all. */
  lemma WrittenAccepts(c: GlobComponent, engine: Engine)
    requires Written(c) && !c.Regex?
    ensures Satisfiable(c, engine) && (Universal(c, engine) <==> c.AnyOne?)
  {
    var accepted := AcceptsSome(c, engine);
    if !c.AnyOne? && !c.AnyMany? {
      var refused := RefusesSome(c, engine);
    }
  }

  lemma ParsedIsWritten(s: string, engine: Engine)
    requires Parse(s, engine).Some?
    ensures forall i :: 0 <= i < |Parse(s, engine).value| ==> Written(Parse(s, engine).value[i])
  {
    var items, glob := Components(s), Parse(s, engine).value;
    SplitHasNoSlash(s);
    CleanGivesItems(Split(s));
    TextsInvertParse(items, engine);
    forall i | 0 <= i < |glob| ensures Written(glob[i]) {
      assert Texts(glob)[i] == items[i];
    }
  }

  /** A path text whose components are the given ones. */
  lemma PathOf(path: seq<string>) returns (target: string)
    requires AllItems(path)
    ensures Components(target) == path
  {
    target := Join(path);
    if path == [] {
      assert Clean([[]]) == [];
    } else {
      SplitInvertsJoin(path);
      CleanKeepsItems(path);
    }
  }

  lemma ComponentsAreItems(target: string)
    ensures AllItems(Components(target))
  {
    SplitHasNoSlash(target);
    CleanGivesItems(Split(target));
  }

  /** A glob with a component that accepts nothing means no path. */
  lemma {:induction false} MeansNothing(glob: PathGlob, i: nat, path: seq<string>, engine: Engine)
    requires Ready(glob) && i < |glob| && !glob[i].AnyMany? && !Satisfiable(glob[i], engine) && AllItems(path)
    ensures !Denotes(glob, path, engine)
    decreases |glob|
  {
    if glob[0].AnyMany? {
      forall k | 0 <= k <= |path| ensures !Denotes(glob[1..], path[k..], engine) {
        MeansNothing(glob[1..], i - 1, path[k..], engine);
      }
    } else if path != [] {
      if i == 0 {
        assert !Accepts(glob[0], path[0], engine);
      } else {
        MeansNothing(glob[1..], i - 1, path[1..], engine);
      }
    }
  }

  /** On the components of a path the loop accepts what the glob means. */
  ghost predicate ExactOn(glob: PathGlob, target: string, engine: Engine)
    requires Ready(glob)
  {
    Lazy(glob, Components(target), engine) == Denotes(glob, Components(target), engine)
  }

  lemma {:induction false} TameIsExact(glob: PathGlob, target: string, engine: Engine)
    requires Ready(glob) && Tame(glob, engine)
    ensures ExactOn(glob, target, engine)
  {
    ComponentsAreItems(target);
    if Lazy(glob, Components(target), engine) {
      LazyIsSound(glob, Components(target), engine);
    }
    if Denotes(glob, Components(target), engine) {
      TameIsComplete(glob, Components(target), engine);
    }
  }

  lemma UnsatisfiableIsExact(glob: PathGlob, i: nat, target: string, engine: Engine)
    requires Ready(glob) && i < |glob| && !glob[i].AnyMany? && !Satisfiable(glob[i], engine)
    ensures ExactOn(glob, target, engine)
  {
    ComponentsAreItems(target);
    MeansNothing(glob, i, Components(target), engine);
    if Lazy(glob, Components(target), engine) {
      LazyIsSound(glob, Components(target), engine);
    }
  }

  /** Some component of the glob accepts nothing, so that the glob means no path. */
  ghost predicate MeansNone(glob: PathGlob, engine: Engine) {
    exists i :: 0 <= i < |glob| && !glob[i].AnyMany? && !Satisfiable(glob[i], engine)
  }

  /** A parsed glob, whatever its regular expressions match, is matched as it is meant on every path exactly
      when it is tame or means no path at all. */
  lemma {:induction false} ExactIffTame(s: string, engine: Engine)
    requires Parse(s, engine).Some?
    ensures var glob := Parse(s, engine).value;
      Ready(glob) && (Tame(glob, engine) || MeansNone(glob, engine) <==> forall target :: ExactOn(glob, target, engine))
  {
    var glob := Parse(s, engine).value;
    ParsedIsWritten(s, engine);
    if Tame(glob, engine) {
      forall target ensures ExactOn(glob, target, engine) {
        TameIsExact(glob, target, engine);
      }
    } else if i :| 0 <= i < |glob| && !glob[i].AnyMany? && !Satisfiable(glob[i], engine) {
      forall target ensures ExactOn(glob, target, engine) {
        UnsatisfiableIsExact(glob, i, target, engine);
      }
    } else {
      forall i | 0 <= i < |glob| ensures Satisfiable(glob[i], engine) {
        if glob[i].AnyMany? {
          WrittenAccepts(glob[i], engine);
        }
      }
      var path := UntamedMisses(glob, engine);
      var target := PathOf(path);
      assert !ExactOn(glob, target, engine);
    }
  }

  // ----- One `**`, path by path

  predicate NoMany(glob: PathGlob) {
    forall i :: 0 <= i < |glob| ==> !glob[i].AnyMany?
  }

  lemma {:induction false} WithoutMany(glob: PathGlob, path: seq<string>, engine: Engine)
    requires Ready(glob) && NoMany(glob)
    ensures Lazy(glob, path, engine) == Denotes(glob, path, engine)
    ensures Denotes(glob, path, engine) ==> |path| == |glob|
    decreases |glob|
  {
    if glob != [] && path != [] {
      WithoutMany(glob[1..], path[1..], engine);
    }
  }

  /** No component that the rest does not need is one that the follower of `**` matches. */
  ghost predicate FollowerAppearsOnce(glob: PathGlob, path: seq<string>, engine: Engine)
    requires Ready(glob) && glob != []
  {
    forall i :: 0 <= i < |path| - |glob| ==> !Matches(glob[0], path[i], engine)
  }

  lemma {:induction false} AfterMany(glob: PathGlob, path: seq<string>, engine: Engine)
    requires Ready([AnyMany] + glob) && Ready(glob) && glob != [] && NoMany(glob)
    ensures Lazy([AnyMany] + glob, path, engine)
      <==> Denotes([AnyMany] + glob, path, engine) && FollowerAppearsOnce(glob, path, engine)
    decreases |path|
  {
    var whole := [AnyMany] + glob;
    assert whole[1..] == glob && whole[2..] == glob[1..];
    if path == [] {
      WithoutMany(glob, path, engine);
      assert forall k | 0 <= k <= |path| :: path[k..] == path;
    } else if Matches(glob[0], path[0], engine) {
      WithoutMany(glob, path, engine);
      assert path[0..] == path;
      if Denotes(whole, path, engine) && FollowerAppearsOnce(glob, path, engine) {
        var k :| 0 <= k <= |path| && Denotes(glob, path[k..], engine);
        WithoutMany(glob, path[k..], engine);
      }
    } else {
      AfterMany(glob, path[1..], engine);
      DropFirst(glob, path, engine);
    }
  }

  /** A first component the follower refuses can only be skipped. */
  lemma {:induction false} DropFirst(glob: PathGlob, path: seq<string>, engine: Engine)
    requires Ready([AnyMany] + glob) && Ready(glob) && glob != [] && NoMany(glob)
    requires path != [] && !Matches(glob[0], path[0], engine)
    ensures Denotes([AnyMany] + glob, path, engine) == Denotes([AnyMany] + glob, path[1..], engine)
    ensures FollowerAppearsOnce(glob, path, engine) == FollowerAppearsOnce(glob, path[1..], engine)
  {
    var whole := [AnyMany] + glob;
    assert whole[1..] == glob;
    if Denotes(whole, path[1..], engine) {
      SkipOne(whole, path, 1, engine);
    }
    if Denotes(whole, path, engine) {
      var k :| 0 <= k <= |path| && Denotes(glob, path[k..], engine);
      assert path[k..] == path[1..][k - 1..];
    }
    if FollowerAppearsOnce(glob, path[1..], engine) {
      forall i | 0 <= i < |path| - |glob| ensures !Matches(glob[0], path[i], engine) {
        assert i > 0 ==> path[i] == path[1..][i - 1];
      }
    }
  }

  lemma {:induction false} FirstMatches(c: GlobComponent, glob: PathGlob, path: seq<string>, engine: Engine)
    requires Sliceable(c) && !c.AnyMany? && Ready(glob)
    ensures Ready([c] + glob)
    ensures Lazy([c] + glob, path, engine)
      <==> path != [] && Matches(c, path[0], engine) && Lazy(glob, path[1..], engine)
    ensures Denotes([c] + glob, path, engine)
      <==> path != [] && Matches(c, path[0], engine) && Denotes(glob, path[1..], engine)
  {
    assert ([c] + glob)[1..] == glob;
  }

  /** With one `**` before the end, the loop accepts exactly the denoted paths on which the follower
      matches nothing before the place it has to take. */
  lemma {:induction false} SingleSkip(before: PathGlob, after: PathGlob, path: seq<string>, engine: Engine)
    requires Ready(before) && Ready(after) && NoMany(before) && NoMany(after) && after != []
    ensures var glob := before + ([AnyMany] + after);
      && Ready(glob)
      && (Lazy(glob, path, engine)
          <==> Denotes(glob, path, engine) && |before| <= |path|
               && FollowerAppearsOnce(after, path[|before|..], engine))
    decreases |before|
  {
    var glob := before + ([AnyMany] + after);
    if before == [] {
      assert glob == [AnyMany] + after && path[0..] == path;
      AfterMany(after, path, engine);
    } else {
      var rest := before[1..] + ([AnyMany] + after);
      SingleSkip(before[1..], after, if path == [] then [] else path[1..], engine);
      FirstMatches(before[0], rest, path, engine);
      assert glob == [before[0]] + rest;
      if |before| <= |path| {
        assert path[|before|..] == path[1..][|before| - 1..];
      }
    }
  }

  /** Two stars followed by the literal a denote the path a/a, and the loop refuses it. */
  lemma CommitsTooEarly(engine: Engine)
    ensures Missed([AnyMany, Literal("a")], ["a", "a"], engine)
  {
    var glob := [AnyMany, Literal("a")];
    ItemEnds("a");
    WithoutMany(glob[1..], ["a"], engine);
    assert ["a", "a"][1..] == ["a"] && glob[1..] == [Literal("a")] && glob[2..] == [];
    assert Denotes([], [], engine);
  }
}
