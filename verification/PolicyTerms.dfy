/** What the terms of the resolution stand for: which pairs match, which entry of a configuration counts, and
    what the text of a glob says about how specific it is. */
module PolicyTerms {
  import opened Bytes
  import opened PathGlob
  import opened GlobMatching
  import opened PolicyResolution

  // ----- The matching pairs

  /** The globs of an endpoint that match the path, in order. */
  ghost predicate AreMatching(at: seq<nat>, globs: seq<PathGlob>, n: nat, path: seq<string>, engine: Engine)
    requires n <= |globs| && forall g :: 0 <= g < |globs| ==> Ready(globs[g])
  {
    Increasing(at, n) && forall g: nat :: g < n ==> (g in at <==> Lazy(globs[g], path, engine))
  }

  /** The pairs of one endpoint with its matching globs. */
  ghost predicate AreHitsOf(hits: seq<Hit>, endpoint: Endpoint, path: seq<string>, engine: Engine)
    requires forall g :: 0 <= g < |endpoint.globs| ==> Ready(endpoint.globs[g])
  {
    exists at :: AreMatching(at, endpoint.globs, |endpoint.globs|, path, engine) && ArePairs(hits, endpoint, at)
  }

  ghost predicate ArePairs(hits: seq<Hit>, endpoint: Endpoint, at: seq<nat>) {
    && |hits| == |at|
    && forall k :: 0 <= k < |at| ==>
         at[k] < |endpoint.globs| && hits[k].glob == endpoint.globs[at[k]] && hits[k].endpoint == endpoint
  }

  lemma {:induction false} PairsNext(hits: seq<Hit>, endpoint: Endpoint, at: seq<nat>, n: nat)
    requires ArePairs(hits, endpoint, at) && n < |endpoint.globs|
    ensures ArePairs(hits + [Hit(endpoint.globs[n], endpoint)], endpoint, at + [n])
  {
  }

  lemma {:induction false} OneMoreGlob(endpoint: Endpoint, n: nat, path: seq<string>, engine: Engine,
                                       hits: seq<Hit>, before: seq<nat>, more: seq<Hit>) returns (at: seq<nat>)
    requires n < |endpoint.globs| && (forall g :: 0 <= g < |endpoint.globs| ==> Ready(endpoint.globs[g]))
    requires AreMatching(before, endpoint.globs, n, path, engine) && ArePairs(hits, endpoint, before)
    requires more == hits + if Lazy(endpoint.globs[n], path, engine) then [Hit(endpoint.globs[n], endpoint)] else []
    ensures AreMatching(at, endpoint.globs, n + 1, path, engine) && ArePairs(more, endpoint, at)
  {
    IncreasingNext(before, n);
    PairsNext(hits, endpoint, before, n);
    Assoc(hits, [], []);
    at := if Lazy(endpoint.globs[n], path, engine) then before + [n] else before;
  }

  lemma {:induction false} HitsOfAt(endpoint: Endpoint, n: nat, path: seq<string>, engine: Engine)
    returns (at: seq<nat>)
    requires n <= |endpoint.globs| && forall g :: 0 <= g < |endpoint.globs| ==> Ready(endpoint.globs[g])
    ensures AreMatching(at, endpoint.globs, n, path, engine)
    ensures ArePairs(HitsOf(endpoint, n, path, engine), endpoint, at)
    decreases n
  {
    if n == 0 {
      at := [];
    } else {
      var before := HitsOfAt(endpoint, n - 1, path, engine);
      HitsOfNext(endpoint, n - 1, path, engine);
      at := OneMoreGlob(endpoint, n - 1, path, engine, HitsOf(endpoint, n - 1, path, engine), before,
        HitsOf(endpoint, n, path, engine));
    }
  }

  lemma {:induction false} HitsFollow(policy: Policy, n: nat, path: seq<string>, engine: Engine, parts: seq<seq<Hit>>)
    requires Usable(policy) && n <= |parts| == |policy.endpoints|
    requires forall e :: 0 <= e < |parts| ==>
      parts[e] == HitsOf(policy.endpoints[e], |policy.endpoints[e].globs|, path, engine)
    ensures Hits(policy, n, path, engine) == Concat(parts[..n])
    decreases n
  {
    if n > 0 {
      HitsFollow(policy, n - 1, path, engine, parts);
      ConcatUpTo(parts, n - 1);
    }
  }

  /** The matching pairs are those of every endpoint, one endpoint after another, and of an endpoint those with
      its matching globs, in order. */
  lemma {:induction false} HitsAre(policy: Policy, path: seq<string>, engine: Engine) returns (parts: seq<seq<Hit>>)
    requires Usable(policy)
    ensures Hits(policy, |policy.endpoints|, path, engine) == Concat(parts) && |parts| == |policy.endpoints|
    ensures forall e :: 0 <= e < |parts| ==> AreHitsOf(parts[e], policy.endpoints[e], path, engine)
  {
    parts := seq(|policy.endpoints|, e requires 0 <= e < |policy.endpoints| =>
      HitsOf(policy.endpoints[e], |policy.endpoints[e].globs|, path, engine));
    HitsFollow(policy, |policy.endpoints|, path, engine, parts);
    assert parts[..|parts|] == parts;
    forall e | 0 <= e < |parts| ensures AreHitsOf(parts[e], policy.endpoints[e], path, engine) {
      var at := HitsOfAt(policy.endpoints[e], |policy.endpoints[e].globs|, path, engine);
    }
  }

  // ----- The entry that counts

  /** Entry `i` is the last one for the category. */
  predicate IsLastFor(config: seq<(string, ConfiguredAction)>, category: string, i: int) {
    && 0 <= i < |config| && config[i].0 == category
    && forall k :: i < k < |config| ==> config[k].0 != category
  }

  lemma {:induction false} LookupIs(config: seq<(string, ConfiguredAction)>, category: string) returns (i: int)
    ensures match Lookup(config, category)
      case Some(action) => IsLastFor(config, category, i) && config[i].1 == action
      case None => forall k :: 0 <= k < |config| ==> config[k].0 != category
  {
    i := |config| - 1;
    if config != [] && config[i].0 != category {
      i := LookupIs(config[..i], category);
    }
  }

  // ----- Specificity

  /** `at` are the indices of the elements of a kind. */
  ghost predicate AreOfKind<T>(at: seq<nat>, s: seq<T>, n: nat, kind: T -> bool)
    requires n <= |s|
  {
    Increasing(at, n) && forall i: nat :: i < n ==> (i in at <==> kind(s[i]))
  }

  /** As many elements are of a kind. */
  ghost predicate AreSoMany<T>(count: nat, s: seq<T>, kind: T -> bool) {
    exists at :: AreOfKind(at, s, |s|, kind) && |at| == count
  }

  lemma {:induction false} CountSnoc(glob: PathGlob, c: GlobComponent, kind: GlobComponent -> bool)
    ensures Count(glob + [c], kind) == Count(glob, kind) + if kind(c) then 1 else 0
  {
    if glob == [] {
      assert glob + [c] == [c] && [c][1..] == [];
    } else {
      assert (glob + [c])[1..] == glob[1..] + [c];
      CountSnoc(glob[1..], c, kind);
    }
  }

  lemma {:induction false} CountAt(glob: PathGlob, n: nat, kind: GlobComponent -> bool) returns (at: seq<nat>)
    requires n <= |glob|
    ensures AreOfKind(at, glob, n, kind) && |at| == Count(glob[..n], kind)
    decreases n
  {
    if n == 0 {
      at := [];
    } else {
      at := CountAt(glob, n - 1, kind);
      UpToNext(glob, n - 1);
      CountSnoc(glob[..n - 1], glob[n - 1], kind);
      IncreasingNext(at, n - 1);
      if kind(glob[n - 1]) {
        at := at + [n - 1];
      }
    }
  }

  /** What is counted in a glob is counted in its text, when both are of the kind at the same places. */
  lemma {:induction false} CountInText(glob: PathGlob, kind: GlobComponent -> bool, items: seq<string>,
                                       written: string -> bool)
    requires |items| == |glob| && forall i :: 0 <= i < |glob| ==> kind(glob[i]) == written(items[i])
    ensures AreSoMany(Count(glob, kind), items, written)
  {
    var at := CountAt(glob, |glob|, kind);
    assert glob[..|glob|] == glob;
    assert AreOfKind(at, items, |items|, written);
  }

  /** A piece that is a pattern, but neither `*` nor `**`. */
  predicate IsPattern(item: string) {
    && item != "*" && item != "**" && item != []
    && (item[0] == '#' || item[0] == '*' || item[|item| - 1] == '*')
  }

  lemma {:induction false} KindFromText(item: string, engine: Engine)
    requires item != [] && ParseComponent(item, engine).Some?
    ensures var c := ParseComponent(item, engine).value;
      (IsMany(c) <==> item == "**") && (IsOne(c) <==> item == "*") && (Globish(c) <==> IsPattern(item))
  {
  }

  lemma {:induction false} KindsFromText(items: seq<string>, i: nat, engine: Engine)
    requires AllItems(items) && ParseComponents(items, engine).Some? && i < |items|
    ensures |ParseComponents(items, engine).value| == |items|
    ensures var c := ParseComponents(items, engine).value[i];
      (IsMany(c) <==> items[i] == "**") && (IsOne(c) <==> items[i] == "*") && (Globish(c) <==> IsPattern(items[i]))
    decreases i
  {
    TextsInvertParse(items, engine);
    KindFromText(items[0], engine);
    if i > 0 {
      KindsFromText(items[1..], i - 1, engine);
    }
  }

  /** How specific a parsed glob is can be told from its text: first its number of components, then how many of
      them are `**`, are `*`, and are other patterns. */
  lemma {:induction false} RankFromText(s: string, engine: Engine)
    requires Parse(s, engine).Some?
    ensures var items, rank := Components(s), RankOf(Parse(s, engine).value);
      && rank.length == |items|
      && AreSoMany(rank.many, items, (item: string) => item == "**")
      && AreSoMany(rank.ones, items, (item: string) => item == "*")
      && AreSoMany(rank.globish, items, (item: string) => IsPattern(item))
  {
    var items, glob := Components(s), Parse(s, engine).value;
    ComponentsAreItems(s);
    TextsInvertParse(items, engine);
    forall i | 0 <= i < |items|
      ensures (IsMany(glob[i]) <==> items[i] == "**") && (IsOne(glob[i]) <==> items[i] == "*")
      ensures Globish(glob[i]) <==> IsPattern(items[i])
    {
      KindsFromText(items, i, engine);
    }
    CountInText(glob, IsMany, items, (item: string) => item == "**");
    CountInText(glob, IsOne, items, (item: string) => item == "*");
    CountInText(glob, Globish, items, (item: string) => IsPattern(item));
  }
}
