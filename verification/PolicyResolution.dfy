/** Which configuration a policy gives a path: endpoints grouped by the specificity of the globs that
    match, applied from the least to the most specific. */
module PolicyResolution {
  import opened Bytes
  import opened PathGlob
  import opened GlobMatching
  import opened ReportStyle

  // ----- Specificity

  datatype Ordering = Less | Equal | Greater

  function CompareNat(a: nat, b: nat): Ordering {
    if a < b then Less else if a == b then Equal else Greater
  }

  function Count(glob: PathGlob, p: GlobComponent -> bool): nat {
    if glob == [] then 0 else (if p(glob[0]) then 1 else 0) + Count(glob[1..], p)
  }

  predicate IsMany(c: GlobComponent) {
    c.AnyMany?
  }

  predicate IsOne(c: GlobComponent) {
    c.AnyOne?
  }

  predicate Globish(c: GlobComponent) {
    c.Regex? || c.Contains? || c.Prefix? || c.Suffix?
  }

  /** `partial_cmp`: a longer glob comes first, then the one with fewer `**`, with fewer `*`, and with
      fewer patterns inside a component. */
  function Compare(a: PathGlob, b: PathGlob): Ordering {
    if |a| != |b| then CompareNat(|b|, |a|)
    else
      var many := CompareNat(Count(a, IsMany), Count(b, IsMany));
      if many != Equal then many
      else
        var ones := CompareNat(Count(a, IsOne), Count(b, IsOne));
        if ones != Equal then ones
        else CompareNat(Count(a, Globish), Count(b, Globish))
  }

  datatype Rank = Rank(length: nat, many: nat, ones: nat, globish: nat)

  function RankOf(glob: PathGlob): Rank {
    Rank(|glob|, Count(glob, IsMany), Count(glob, IsOne), Count(glob, Globish))
  }

  /** Strictly more specific. */
  predicate Above(a: Rank, b: Rank) {
    || a.length > b.length
    || (a.length == b.length && a.many < b.many)
    || (a.length == b.length && a.many == b.many && a.ones < b.ones)
    || (a.length == b.length && a.many == b.many && a.ones == b.ones && a.globish < b.globish)
  }

  /** The comparison is that of the ranks, so it is a total preorder and its classes are the globs of one
      rank. */
  lemma CompareIsByRank(a: PathGlob, b: PathGlob)
    ensures Compare(a, b) == Less <==> Above(RankOf(a), RankOf(b))
    ensures Compare(a, b) == Equal <==> RankOf(a) == RankOf(b)
    ensures Compare(a, b) == Greater <==> Above(RankOf(b), RankOf(a))
  {
  }

  lemma AboveIsStrictAndTotal(a: Rank, b: Rank, c: Rank)
    ensures !Above(a, a)
    ensures a == b || Above(a, b) || Above(b, a)
    ensures Above(a, b) && Above(b, c) ==> Above(a, c)
  {
  }

  // ----- The policy

  /** `settings` stands for the fields that resolution only passes on. */
  datatype ConfiguredAction = ConfiguredAction(settings: string, reportStyle: Option<DataReportStyle>)

  datatype Endpoint = Endpoint(
    globs: seq<PathGlob>,
    config: seq<(string, ConfiguredAction)>,
    tokenExtractor: Option<string>,
    reportStyle: Option<DataReportStyle>)

  datatype Policy = Policy(endpoints: seq<Endpoint>, reportStyle: DataReportStyle)

  datatype PathConfiguration = PathConfiguration(
    matcherPath: string,
    action: ConfiguredAction,
    reportStyle: DataReportStyle)

  datatype PathPolicy = PathPolicy(
    policyPath: string,
    configuration: map<string, PathConfiguration>,
    tokenExtractor: Option<string>)

  predicate Usable(policy: Policy) {
    forall e, g :: 0 <= e < |policy.endpoints| && 0 <= g < |policy.endpoints[e].globs|
      ==> Ready(policy.endpoints[e].globs[g])
  }

  function BeforeQuery(path: string): string {
    if path == [] || path[0] == '?' then [] else [path[0]] + BeforeQuery(path[1..])
  }

  /** The part of a path text before its first question mark. */
  ghost predicate IsBeforeQuery(left: string, path: string) {
    '?' !in left && (path == left || exists query :: path == left + ['?'] + query)
  }

  lemma {:induction false} BeforeQueryIs(path: string)
    ensures IsBeforeQuery(BeforeQuery(path), path)
  {
    if path != [] && path[0] != '?' {
      var left := BeforeQuery(path[1..]);
      BeforeQueryIs(path[1..]);
      Uncons(path);
      if query :| path[1..] == left + ['?'] + query {
        Assoc([path[0]], left, ['?'] + query);
        assert path == [path[0]] + left + ['?'] + query;
      }
    } else if path != [] {
      Uncons(path);
      assert path == [] + ['?'] + path[1..];
    }
  }

  lemma {:induction false} BeforeQueryIsOne(left: string, path: string)
    requires IsBeforeQuery(left, path)
    ensures left == BeforeQuery(path)
  {
    if left != [] {
      if path != left {
        var query :| path == left + ['?'] + query;
        assert path[1..] == left[1..] + ['?'] + query;
      }
      BeforeQueryIsOne(left[1..], path[1..]);
      Uncons(left);
    }
  }

  function Lookup(config: seq<(string, ConfiguredAction)>, category: string): Option<ConfiguredAction> {
    if config == [] then None
    else if config[|config| - 1].0 == category then Some(config[|config| - 1].1)
    else Lookup(config[..|config| - 1], category)
  }

  // ----- What should win

  /** An endpoint, with one of its globs that matches the path. */
  datatype Hit = Hit(glob: PathGlob, endpoint: Endpoint)

  ghost function HitsOf(endpoint: Endpoint, n: nat, path: seq<string>, engine: Engine): seq<Hit>
    requires n <= |endpoint.globs| && forall g :: 0 <= g < |endpoint.globs| ==> Ready(endpoint.globs[g])
  {
    if n == 0 then []
    else
      var rest := HitsOf(endpoint, n - 1, path, engine);
      if Lazy(endpoint.globs[n - 1], path, engine) then rest + [Hit(endpoint.globs[n - 1], endpoint)] else rest
  }

  /** The matching pairs, in policy order. */
  ghost function Hits(policy: Policy, n: nat, path: seq<string>, engine: Engine): seq<Hit>
    requires Usable(policy) && n <= |policy.endpoints|
  {
    if n == 0 then []
    else
      var endpoint := policy.endpoints[n - 1];
      Hits(policy, n - 1, path, engine) + HitsOf(endpoint, |endpoint.globs|, path, engine)
  }

  /** Pair `i` offers a value, no pair that offers one is more specific, and no later one is as specific. */
  ghost predicate Wins<X>(hits: seq<Hit>, i: int, pick: Endpoint -> Option<X>) {
    && 0 <= i < |hits| && pick(hits[i].endpoint).Some?
    && forall j :: 0 <= j < |hits| && pick(hits[j].endpoint).Some?
         ==> Compare(hits[i].glob, hits[j].glob) == Less
             || (Compare(hits[i].glob, hits[j].glob) == Equal && j <= i)
  }

  /** The earliest pair as specific as pair `i`: its glob names the class. */
  ghost predicate Names(hits: seq<Hit>, i: int, j: int) {
    && 0 <= i < |hits| && 0 <= j < |hits| && Compare(hits[i].glob, hits[j].glob) == Equal
    && forall k :: 0 <= k < j ==> Compare(hits[i].glob, hits[k].glob) != Equal
  }

  // ----- Grouping: a map sorted by specificity

  datatype Bucket = Bucket(key: PathGlob, endpoints: seq<Endpoint>)

  /** `entry(path).or_default().push(endpoint)` */
  function Push(buckets: seq<Bucket>, glob: PathGlob, endpoint: Endpoint): seq<Bucket> {
    if buckets == [] then [Bucket(glob, [endpoint])]
    else
      var first := buckets[0];
      match Compare(glob, first.key)
      case Less => [Bucket(glob, [endpoint])] + buckets
      case Equal => [Bucket(first.key, first.endpoints + [endpoint])] + buckets[1..]
      case Greater => [first] + Push(buckets[1..], glob, endpoint)
  }

  ghost predicate Sorted(buckets: seq<Bucket>) {
    forall i, j :: 0 <= i < j < |buckets| ==> Above(RankOf(buckets[i].key), RankOf(buckets[j].key))
  }

  ghost function Find(buckets: seq<Bucket>, rank: Rank): Option<Bucket> {
    if buckets == [] then None
    else if RankOf(buckets[0].key) == rank then Some(buckets[0])
    else Find(buckets[1..], rank)
  }

  ghost function Grouped(hits: seq<Hit>): seq<Bucket> {
    if hits == [] then []
    else var last := hits[|hits| - 1]; Push(Grouped(hits[..|hits| - 1]), last.glob, last.endpoint)
  }

  /** The endpoints of the pairs of one rank, in order, and the glob of the first of them. */
  ghost function Class(hits: seq<Hit>, rank: Rank): Option<Bucket> {
    if hits == [] then None
    else
      var last, rest := hits[|hits| - 1], Class(hits[..|hits| - 1], rank);
      if RankOf(last.glob) != rank then rest
      else if rest.None? then Some(Bucket(last.glob, [last.endpoint]))
      else Some(Bucket(rest.value.key, rest.value.endpoints + [last.endpoint]))
  }

  lemma {:induction false} PushFinds(buckets: seq<Bucket>, glob: PathGlob, endpoint: Endpoint, rank: Rank)
    requires Sorted(buckets)
    ensures Find(Push(buckets, glob, endpoint), rank)
         == if rank != RankOf(glob) then Find(buckets, rank)
            else if Find(buckets, rank).None? then Some(Bucket(glob, [endpoint]))
            else var b := Find(buckets, rank).value; Some(Bucket(b.key, b.endpoints + [endpoint]))
  {
    if buckets != [] {
      CompareIsByRank(glob, buckets[0].key);
      match Compare(glob, buckets[0].key)
      case Less => LowestHasNone(buckets, RankOf(glob));
      case Equal =>
      case Greater => PushFinds(buckets[1..], glob, endpoint, rank);
    }
  }

  lemma {:induction false} LowestHasNone(buckets: seq<Bucket>, rank: Rank)
    requires Sorted(buckets) && (buckets != [] ==> Above(rank, RankOf(buckets[0].key)))
    ensures Find(buckets, rank) == None
  {
    if buckets != [] {
      LowestHasNone(buckets[1..], rank);
    }
  }

  /** Every key of the new map is an old one or the one pushed. */
  lemma {:induction false} PushKeys(buckets: seq<Bucket>, glob: PathGlob, endpoint: Endpoint, j: nat)
    requires j < |Push(buckets, glob, endpoint)|
    ensures var pushed := Push(buckets, glob, endpoint);
      RankOf(pushed[j].key) == RankOf(glob)
      || exists k | 0 <= k < |buckets| :: RankOf(buckets[k].key) == RankOf(pushed[j].key)
  {
    if buckets != [] {
      var pushed := Push(buckets, glob, endpoint);
      if j > 0 && Compare(glob, buckets[0].key) == Greater {
        PushKeys(buckets[1..], glob, endpoint, j - 1);
        if RankOf(pushed[j].key) != RankOf(glob) {
          var k :| 0 <= k < |buckets[1..]| && RankOf(buckets[1..][k].key) == RankOf(pushed[j].key);
          assert buckets[k + 1] == buckets[1..][k];
        }
      } else if j > 0 && Compare(glob, buckets[0].key) == Less {
        assert pushed[j] == buckets[j - 1];
      }
    }
  }

  lemma {:induction false} PushSorts(buckets: seq<Bucket>, glob: PathGlob, endpoint: Endpoint)
    requires Sorted(buckets)
    ensures Sorted(Push(buckets, glob, endpoint))
  {
    if buckets != [] {
      CompareIsByRank(glob, buckets[0].key);
      if Compare(glob, buckets[0].key) == Greater {
        var rest := Push(buckets[1..], glob, endpoint);
        PushSorts(buckets[1..], glob, endpoint);
        forall j | 0 <= j < |rest| ensures Above(RankOf(buckets[0].key), RankOf(rest[j].key)) {
          PushKeys(buckets[1..], glob, endpoint, j);
        }
      }
    }
  }

  lemma {:induction false} GroupedIsByClass(hits: seq<Hit>, rank: Rank)
    ensures Sorted(Grouped(hits)) && Find(Grouped(hits), rank) == Class(hits, rank)
  {
    if hits != [] {
      var last, rest := hits[|hits| - 1], hits[..|hits| - 1];
      GroupedIsByClass(rest, rank);
      PushSorts(Grouped(rest), last.glob, last.endpoint);
      PushFinds(Grouped(rest), last.glob, last.endpoint, rank);
    }
  }

  // ----- Applying the groups from the last to the first

  ghost function Latest<X>(endpoints: seq<Endpoint>, pick: Endpoint -> Option<X>): Option<X> {
    if endpoints == [] then None
    else if pick(endpoints[|endpoints| - 1]).Some? then pick(endpoints[|endpoints| - 1])
    else Latest(endpoints[..|endpoints| - 1], pick)
  }

  /** The key and value of the first group that offers one. */
  ghost function Final<X>(buckets: seq<Bucket>, pick: Endpoint -> Option<X>): Option<(PathGlob, X)> {
    if buckets == [] then None
    else
      var value := Latest(buckets[0].endpoints, pick);
      if value.Some? then Some((buckets[0].key, value.value)) else Final(buckets[1..], pick)
  }

  ghost predicate Offers<X>(bucket: Option<Bucket>, pick: Endpoint -> Option<X>) {
    bucket.Some? && Latest(bucket.value.endpoints, pick).Some?
  }

  lemma {:induction false} FinalFinds<X>(buckets: seq<Bucket>, rank: Rank, pick: Endpoint -> Option<X>)
    requires Sorted(buckets) && Offers(Find(buckets, rank), pick)
    requires forall r :: Above(r, rank) ==> !Offers(Find(buckets, r), pick)
    ensures var b := Find(buckets, rank).value;
      Final(buckets, pick) == Some((b.key, Latest(b.endpoints, pick).value))
  {
    var first := RankOf(buckets[0].key);
    assert Find(buckets, first) == Some(buckets[0]);
    if first != rank {
      RanksBelow(buckets, rank);
      forall r | Above(r, rank) ensures !Offers(Find(buckets[1..], r), pick) {
        if r == first {
          LowestHasNone(buckets[1..], r);
        }
      }
      FinalFinds(buckets[1..], rank, pick);
    }
  }

  lemma {:induction false} RanksBelow(buckets: seq<Bucket>, rank: Rank)
    requires Sorted(buckets) && Find(buckets, rank).Some?
    ensures rank == RankOf(buckets[0].key) || Above(RankOf(buckets[0].key), rank)
  {
    if rank != RankOf(buckets[0].key) {
      RanksBelow(buckets[1..], rank);
    }
  }

  lemma {:induction false} FinalNone<X>(buckets: seq<Bucket>, pick: Endpoint -> Option<X>)
    requires Sorted(buckets) && forall r :: !Offers(Find(buckets, r), pick)
    ensures Final(buckets, pick) == None
  {
    if buckets != [] {
      var first := RankOf(buckets[0].key);
      assert Find(buckets, first) == Some(buckets[0]);
      forall r ensures !Offers(Find(buckets[1..], r), pick) {
        if r == first {
          LowestHasNone(buckets[1..], r);
        } else {
          assert Find(buckets, r) == Find(buckets[1..], r);
        }
      }
      FinalNone(buckets[1..], pick);
    }
  }

  lemma {:induction false} LatestSnoc<X>(endpoints: seq<Endpoint>, last: Endpoint, pick: Endpoint -> Option<X>)
    ensures Latest(endpoints + [last], pick) == if pick(last).Some? then pick(last) else Latest(endpoints, pick)
    ensures [] + [last] == [last]
  {
    assert (endpoints + [last])[..|endpoints|] == endpoints;
  }

  lemma LatestUpTo<X>(endpoints: seq<Endpoint>, n: nat, pick: Endpoint -> Option<X>)
    requires n < |endpoints|
    ensures Latest(endpoints[..n + 1], pick)
         == if pick(endpoints[n]).Some? then pick(endpoints[n]) else Latest(endpoints[..n], pick)
  {
    assert endpoints[..n + 1] == endpoints[..n] + [endpoints[n]];
    LatestSnoc(endpoints[..n], endpoints[n], pick);
  }

  lemma {:induction false} ClassOffersLast<X>(hits: seq<Hit>, i: nat, pick: Endpoint -> Option<X>)
    requires i < |hits| && pick(hits[i].endpoint).Some?
    requires forall j :: i < j < |hits| && RankOf(hits[j].glob) == RankOf(hits[i].glob) ==> pick(hits[j].endpoint).None?
    ensures var group := Class(hits, RankOf(hits[i].glob));
      group.Some? && Latest(group.value.endpoints, pick) == pick(hits[i].endpoint)
  {
    if i < |hits| - 1 {
      ClassOffersLast(hits[..|hits| - 1], i, pick);
    }
  }

  lemma {:induction false} ClassOffersNone<X>(hits: seq<Hit>, rank: Rank, pick: Endpoint -> Option<X>)
    requires forall j :: 0 <= j < |hits| && RankOf(hits[j].glob) == rank ==> pick(hits[j].endpoint).None?
    ensures !Offers(Class(hits, rank), pick)
  {
    if hits != [] {
      var last, rest := hits[|hits| - 1], Class(hits[..|hits| - 1], rank);
      ClassOffersNone(hits[..|hits| - 1], rank, pick);
      LatestSnoc(if rest.Some? then rest.value.endpoints else [], last.endpoint, pick);
    }
  }

  lemma {:induction false} ClassIsNamed(hits: seq<Hit>, rank: Rank, j: nat)
    requires j < |hits| && RankOf(hits[j].glob) == rank
    requires forall k :: 0 <= k < j ==> RankOf(hits[k].glob) != rank
    ensures Class(hits, rank).Some? && Class(hits, rank).value.key == hits[j].glob
  {
    if j < |hits| - 1 {
      ClassIsNamed(hits[..|hits| - 1], rank, j);
    } else {
      NoClass(hits[..|hits| - 1], rank);
    }
  }

  lemma {:induction false} NoClass(hits: seq<Hit>, rank: Rank)
    requires forall k :: 0 <= k < |hits| ==> RankOf(hits[k].glob) != rank
    ensures Class(hits, rank) == None
  {
    if hits != [] {
      NoClass(hits[..|hits| - 1], rank);
    }
  }

  // ----- What wins

  /** Grouping, and applying the groups in reverse with later values overriding earlier ones, leaves
      the winner's value under the name of its class. */
  lemma {:induction false} WinnerIsFinal<X>(hits: seq<Hit>, i: nat, j: nat, pick: Endpoint -> Option<X>)
    requires Wins(hits, i, pick) && Names(hits, i, j)
    ensures Final(Grouped(hits), pick) == Some((hits[j].glob, pick(hits[i].endpoint).value))
  {
    var rank := RankOf(hits[i].glob);
    forall k | 0 <= k < |hits| ensures Compare(hits[i].glob, hits[k].glob) == Equal <==> RankOf(hits[k].glob) == rank {
      CompareIsByRank(hits[i].glob, hits[k].glob);
    }
    ClassOffersLast(hits, i, pick);
    ClassIsNamed(hits, rank, j);
    GroupedIsByClass(hits, rank);
    forall r | Above(r, rank) ensures !Offers(Find(Grouped(hits), r), pick) {
      NoneAbove(hits, i, r, pick);
      GroupedIsByClass(hits, r);
    }
    FinalFinds(Grouped(hits), rank, pick);
  }

  lemma {:induction false} NoneAbove<X>(hits: seq<Hit>, i: nat, r: Rank, pick: Endpoint -> Option<X>)
    requires Wins(hits, i, pick) && Above(r, RankOf(hits[i].glob))
    ensures !Offers(Class(hits, r), pick)
  {
    forall j | 0 <= j < |hits| && RankOf(hits[j].glob) == r ensures pick(hits[j].endpoint).None? {
      CompareIsByRank(hits[i].glob, hits[j].glob);
    }
    ClassOffersNone(hits, r, pick);
  }

  lemma {:induction false} NothingIsFinal<X>(hits: seq<Hit>, pick: Endpoint -> Option<X>)
    requires forall i :: 0 <= i < |hits| ==> pick(hits[i].endpoint).None?
    ensures Final(Grouped(hits), pick) == None
  {
    forall r ensures !Offers(Find(Grouped(hits), r), pick) {
      GroupedIsByClass(hits, r);
      ClassOffersNone(hits, r, pick);
    }
    GroupedIsByClass(hits, Rank(0, 0, 0, 0));
    FinalNone(Grouped(hits), pick);
  }

  lemma ClassHasName(hits: seq<Hit>, i: nat) returns (j: nat)
    requires i < |hits|
    ensures Names(hits, i, j)
  {
    CompareIsByRank(hits[i].glob, hits[i].glob);
    j := 0;
    while Compare(hits[i].glob, hits[j].glob) != Equal
      invariant j <= i
      invariant forall m :: 0 <= m < j ==> Compare(hits[i].glob, hits[m].glob) != Equal
      decreases i - j
    {
      j := j + 1;
    }
  }

  /** As soon as some pair offers a value, there is a winner, and its class has a name. */
  lemma {:induction false} SomethingWins<X>(hits: seq<Hit>, k: nat, pick: Endpoint -> Option<X>) returns (i: nat,
                                            j: nat)
    requires k < |hits| && pick(hits[k].endpoint).Some?
    ensures Wins(hits, i, pick) && Names(hits, i, j)
  {
    i := k;
    var n := 0;
    while n < |hits|
      invariant n <= |hits| && i < |hits| && pick(hits[i].endpoint).Some?
      invariant forall j :: 0 <= j < n && pick(hits[j].endpoint).Some?
                  ==> Above(RankOf(hits[i].glob), RankOf(hits[j].glob))
                      || (RankOf(hits[i].glob) == RankOf(hits[j].glob) && j <= i)
    {
      if pick(hits[n].endpoint).Some? && !Above(RankOf(hits[i].glob), RankOf(hits[n].glob))
         && (n >= i || Above(RankOf(hits[n].glob), RankOf(hits[i].glob))) {
        i := n;
      }
      n := n + 1;
    }
    forall m | 0 <= m < |hits|
      ensures Compare(hits[i].glob, hits[m].glob) == Less <==> Above(RankOf(hits[i].glob), RankOf(hits[m].glob))
      ensures Compare(hits[i].glob, hits[m].glob) == Equal <==> RankOf(hits[i].glob) == RankOf(hits[m].glob)
    {
      CompareIsByRank(hits[i].glob, hits[m].glob);
    }
    j := ClassHasName(hits, i);
  }

  lemma {:induction false} FinalIffOffered<X>(hits: seq<Hit>, pick: Endpoint -> Option<X>)
    ensures Final(Grouped(hits), pick).Some? <==> exists i :: 0 <= i < |hits| && pick(hits[i].endpoint).Some?
  {
    if k :| 0 <= k < |hits| && pick(hits[k].endpoint).Some? {
      var i, j := SomethingWins(hits, k, pick);
      WinnerIsFinal(hits, i, j, pick);
    } else {
      NothingIsFinal(hits, pick);
    }
  }

  // ----- The resolution

  function Category(category: string): Endpoint -> Option<ConfiguredAction> {
    (e: Endpoint) => Lookup(e.config, category)
  }

  function Extractor(): Endpoint -> Option<string> {
    (e: Endpoint) => e.tokenExtractor
  }

  function Anything(): Endpoint -> Option<()> {
    (e: Endpoint) => Some(())
  }

  function Or<X>(a: Option<X>, b: Option<X>): Option<X> {
    if a.Some? then a else b
  }

  /** The style comes from the category's configuration or else from the policy; the endpoint's own
      style is shadowed. */
  function Configured(glob: PathGlob, action: ConfiguredAction, default: DataReportStyle): PathConfiguration {
    var style := Or(action.reportStyle, action.reportStyle);
    PathConfiguration(Print(glob), action, if style.Some? then style.value else default)
  }

  function Value(output: map<string, PathConfiguration>, category: string): Option<PathConfiguration> {
    if category in output then Some(output[category]) else None
  }

  /** What a found action shows as, and otherwise what was there. */
  function Shown(glob: PathGlob, found: Option<ConfiguredAction>, default: DataReportStyle,
                 before: Option<PathConfiguration>): Option<PathConfiguration>
  {
    if found.Some? then Some(Configured(glob, found.value, default)) else before
  }

  method ApplyConfig(key: PathGlob, config: seq<(string, ConfiguredAction)>, default: DataReportStyle,
                     before: map<string, PathConfiguration>)
    returns (output: map<string, PathConfiguration>)
    ensures forall c :: Value(output, c) == Shown(key, Lookup(config, c), default, Value(before, c))
  {
    output := before;
    for n := 0 to |config|
      invariant forall c :: Value(output, c) == Shown(key, Lookup(config[..n], c), default, Value(before, c))
    {
      var (category, action) := config[n];
      assert config[..n + 1][..n] == config[..n];
      output := output[category := Configured(key, action, default)];
    }
    assert config[..|config|] == config;
  }

  method ApplyBucket(bucket: Bucket, default: DataReportStyle, before: map<string, PathConfiguration>,
                     tokenBefore: Option<string>)
    returns (output: map<string, PathConfiguration>, token: Option<string>)
    ensures forall c :: Value(output, c)
                     == Shown(bucket.key, Latest(bucket.endpoints, Category(c)), default, Value(before, c))
    ensures var found := Latest(bucket.endpoints, Extractor()); token == if found.Some? then found else tokenBefore
  {
    output, token := before, tokenBefore;
    for n := 0 to |bucket.endpoints|
      invariant forall c :: Value(output, c)
                         == Shown(bucket.key, Latest(bucket.endpoints[..n], Category(c)), default, Value(before, c))
      invariant var found := Latest(bucket.endpoints[..n], Extractor());
        token == if found.Some? then found else tokenBefore
    {
      var endpoint := bucket.endpoints[n];
      LatestUpTo(bucket.endpoints, n, Extractor());
      forall c ensures Latest(bucket.endpoints[..n + 1], Category(c))
                    == if Category(c)(endpoint).Some? then Category(c)(endpoint)
                       else Latest(bucket.endpoints[..n], Category(c))
      {
        LatestUpTo(bucket.endpoints, n, Category(c));
      }
      output := ApplyConfig(bucket.key, endpoint.config, default, output);
      if endpoint.tokenExtractor.Some? {
        token := endpoint.tokenExtractor;
      }
    }
    assert bucket.endpoints[..|bucket.endpoints|] == bucket.endpoints;
  }

  /** The configuration shown for a category is that of the group that is final for it. */
  ghost predicate Resolves(buckets: seq<Bucket>, default: DataReportStyle, output: map<string, PathConfiguration>) {
    forall c :: var final := Final(buckets, Category(c));
      Value(output, c) == if final.Some? then Some(Configured(final.value.0, final.value.1, default)) else None
  }

  method ApplyBuckets(buckets: seq<Bucket>, default: DataReportStyle)
    returns (output: map<string, PathConfiguration>, token: Option<string>)
    ensures Resolves(buckets, default, output)
    ensures var final := Final(buckets, Extractor()); token == if final.Some? then Some(final.value.1) else None
  {
    output, token := map[], None;
    for n := |buckets| downto 0
      invariant Resolves(buckets[n..], default, output)
      invariant var final := Final(buckets[n..], Extractor());
        token == if final.Some? then Some(final.value.1) else None
    {
      assert buckets[n..][1..] == buckets[n + 1..];
      output, token := ApplyBucket(buckets[n], default, output, token);
    }
    assert buckets[0..] == buckets;
  }

  /** The entry passes on the action, under the printed glob, with the category's style or else the policy's. */
  predicate IsShown(shown: PathConfiguration, glob: PathGlob, action: ConfiguredAction, default: DataReportStyle) {
    match action.reportStyle
    case Some(style) => shown == PathConfiguration(Print(glob), action, style)
    case None => shown == PathConfiguration(Print(glob), action, default)
  }

  lemma ConfiguredIsShown(glob: PathGlob, action: ConfiguredAction, default: DataReportStyle)
    ensures forall shown :: IsShown(shown, glob, action, default) <==> shown == Configured(glob, action, default)
  {
  }

  /** A category is configured exactly when some matching pair configures it, and then by the winner for it,
      under the name of the winner's class. */
  ghost predicate EntriesWin(hits: seq<Hit>, default: DataReportStyle, output: map<string, PathConfiguration>) {
    && (forall c :: c in output <==> exists i :: 0 <= i < |hits| && Category(c)(hits[i].endpoint).Some?)
    && (forall c, i, j :: Wins(hits, i, Category(c)) && Names(hits, i, j)
          ==> ShowsWinner(hits, default, output, c, i, j))
  }

  ghost predicate ShowsWinner(hits: seq<Hit>, default: DataReportStyle, output: map<string, PathConfiguration>,
                              c: string, i: nat, j: nat)
    requires Wins(hits, i, Category(c)) && Names(hits, i, j)
  {
    match Value(output, c)
    case None => false
    case Some(shown) => IsShown(shown, hits[j].glob, Category(c)(hits[i].endpoint).value, default)
  }

  /** The same for the token extractor. */
  ghost predicate TokenWins(hits: seq<Hit>, token: Option<string>) {
    && (token.Some? <==> exists i :: 0 <= i < |hits| && Extractor()(hits[i].endpoint).Some?)
    && (forall i :: Wins(hits, i, Extractor()) ==> token == Extractor()(hits[i].endpoint))
  }

  /** The policy path names the most specific class. */
  ghost predicate PathWins(hits: seq<Hit>, policyPath: string) {
    && (hits == [] ==> policyPath == "")
    && (forall i, j :: Wins(hits, i, Anything()) && Names(hits, i, j) ==> policyPath == Print(hits[j].glob))
  }

  ghost predicate MostSpecificWins(hits: seq<Hit>, default: DataReportStyle, r: PathPolicy) {
    EntriesWin(hits, default, r.configuration) && TokenWins(hits, r.tokenExtractor) && PathWins(hits, r.policyPath)
  }

  lemma HitsOfNext(endpoint: Endpoint, n: nat, path: seq<string>, engine: Engine)
    requires n < |endpoint.globs| && forall g :: 0 <= g < |endpoint.globs| ==> Ready(endpoint.globs[g])
    ensures HitsOf(endpoint, n + 1, path, engine)
         == HitsOf(endpoint, n, path, engine)
            + if Lazy(endpoint.globs[n], path, engine) then [Hit(endpoint.globs[n], endpoint)] else []
  {
  }

  method GroupEndpoint(endpoint: Endpoint, components: seq<string>, engine: Engine,
                       before: seq<Bucket>, ghost earlier: seq<Hit>)
    returns (buckets: seq<Bucket>)
    requires forall g :: 0 <= g < |endpoint.globs| ==> Ready(endpoint.globs[g])
    requires Clean(components) == components && before == Grouped(earlier)
    ensures buckets == Grouped(earlier + HitsOf(endpoint, |endpoint.globs|, components, engine))
  {
    buckets := before;
    assert earlier + [] == earlier;
    for g := 0 to |endpoint.globs|
      invariant buckets == Grouped(earlier + HitsOf(endpoint, g, components, engine))
    {
      var glob := endpoint.globs[g];
      var matched := MatchesComponents(glob, components, engine);
      HitsOfNext(endpoint, g, components, engine);
      if matched {
        GroupedSnoc(earlier, HitsOf(endpoint, g, components, engine), Hit(glob, endpoint));
        buckets := Push(buckets, glob, endpoint);
      }
    }
  }

  method GroupEndpoints(policy: Policy, components: seq<string>, engine: Engine) returns (buckets: seq<Bucket>)
    requires Usable(policy) && Clean(components) == components
    ensures buckets == Grouped(Hits(policy, |policy.endpoints|, components, engine))
  {
    buckets := [];
    for e := 0 to |policy.endpoints|
      invariant buckets == Grouped(Hits(policy, e, components, engine))
    {
      buckets := GroupEndpoint(policy.endpoints[e], components, engine, buckets, Hits(policy, e, components, engine));
    }
  }

  lemma {:induction false} NoEmptyGroup(hits: seq<Hit>)
    ensures hits != [] ==> Grouped(hits) != []
    ensures forall n :: 0 <= n < |Grouped(hits)| ==> Grouped(hits)[n].endpoints != []
  {
    if hits != [] {
      NoEmptyGroup(hits[..|hits| - 1]);
      var last := hits[|hits| - 1];
      PushIsNotEmpty(Grouped(hits[..|hits| - 1]), last.glob, last.endpoint);
    }
  }

  lemma {:induction false} PushIsNotEmpty(buckets: seq<Bucket>, glob: PathGlob, endpoint: Endpoint)
    requires forall n :: 0 <= n < |buckets| ==> buckets[n].endpoints != []
    ensures forall n :: 0 <= n < |Push(buckets, glob, endpoint)| ==> Push(buckets, glob, endpoint)[n].endpoints != []
  {
    if buckets != [] {
      PushIsNotEmpty(buckets[1..], glob, endpoint);
    }
  }

  lemma {:induction false} FirstIsFinal(hits: seq<Hit>)
    requires hits != []
    ensures Grouped(hits) != [] && Final(Grouped(hits), Anything()) == Some((Grouped(hits)[0].key, ()))
  {
    NoEmptyGroup(hits);
  }

  lemma {:induction false} GroupedSnoc(earlier: seq<Hit>, hits: seq<Hit>, last: Hit)
    ensures Grouped(earlier + (hits + [last])) == Push(Grouped(earlier + hits), last.glob, last.endpoint)
  {
    var whole := earlier + (hits + [last]);
    assert whole[..|whole| - 1] == earlier + hits;
  }

  lemma ComponentsAreClean(s: string)
    ensures Clean(Components(s)) == Components(s)
  {
    SplitHasNoSlash(s);
    CleanGivesItems(Split(s));
    CleanKeepsItems(Components(s));
  }

  lemma {:induction false} WinnerIsShown(hits: seq<Hit>, default: DataReportStyle,
                                         output: map<string, PathConfiguration>, c: string, i: nat, j: nat)
    requires Resolves(Grouped(hits), default, output) && Wins(hits, i, Category(c)) && Names(hits, i, j)
    ensures ShowsWinner(hits, default, output, c, i, j)
  {
    WinnerIsFinal(hits, i, j, Category(c));
    ConfiguredIsShown(hits[j].glob, Category(c)(hits[i].endpoint).value, default);
    assert Value(output, c) == Some(Configured(hits[j].glob, Category(c)(hits[i].endpoint).value, default));
  }

  lemma {:induction false} OfferedIsShown(hits: seq<Hit>, default: DataReportStyle,
                                          output: map<string, PathConfiguration>, c: string)
    requires Resolves(Grouped(hits), default, output)
    ensures c in output <==> exists i :: 0 <= i < |hits| && Category(c)(hits[i].endpoint).Some?
  {
    FinalIffOffered(hits, Category(c));
    assert Value(output, c).Some? <==> Final(Grouped(hits), Category(c)).Some?;
  }

  lemma {:induction false} TokenIsWinners(hits: seq<Hit>, token: Option<string>)
    requires var final := Final(Grouped(hits), Extractor()); token == if final.Some? then Some(final.value.1) else None
    ensures TokenWins(hits, token)
  {
    FinalIffOffered(hits, Extractor());
    forall i | Wins(hits, i, Extractor()) ensures token == Extractor()(hits[i].endpoint) {
      var j := ClassHasName(hits, i);
      WinnerIsFinal(hits, i, j, Extractor());
    }
  }

  lemma {:induction false} PathIsFirst(hits: seq<Hit>, i: nat, j: nat)
    requires Wins(hits, i, Anything()) && Names(hits, i, j)
    ensures Grouped(hits) != [] && Grouped(hits)[0].key == hits[j].glob
  {
    WinnerIsFinal(hits, i, j, Anything());
    FirstIsFinal(hits);
  }

  lemma {:induction false} EntriesAreOffered(hits: seq<Hit>, default: DataReportStyle,
                                             output: map<string, PathConfiguration>)
    requires Resolves(Grouped(hits), default, output)
    ensures forall c :: c in output <==> exists i :: 0 <= i < |hits| && Category(c)(hits[i].endpoint).Some?
  {
    forall c ensures c in output <==> exists i :: 0 <= i < |hits| && Category(c)(hits[i].endpoint).Some? {
      OfferedIsShown(hits, default, output, c);
    }
  }

  lemma {:induction false} EntriesAreWinners(hits: seq<Hit>, default: DataReportStyle,
                                             output: map<string, PathConfiguration>)
    requires Resolves(Grouped(hits), default, output)
    ensures EntriesWin(hits, default, output)
  {
    EntriesAreOffered(hits, default, output);
    forall c, i, j | Wins(hits, i, Category(c)) && Names(hits, i, j)
      ensures ShowsWinner(hits, default, output, c, i, j)
    {
      WinnerIsShown(hits, default, output, c, i, j);
    }
  }

  lemma {:induction false} PathIsWinners(hits: seq<Hit>, policyPath: string)
    requires policyPath == if hits == [] then "" else Print(Grouped(hits)[0].key)
    ensures PathWins(hits, policyPath)
  {
    forall i, j | Wins(hits, i, Anything()) && Names(hits, i, j) ensures policyPath == Print(hits[j].glob) {
      PathIsFirst(hits, i, j);
    }
  }

  /** What applying the groups in reverse leaves is what the most specific pairs say. */
  lemma {:induction false} ResolvedIsMostSpecific(hits: seq<Hit>, default: DataReportStyle, r: PathPolicy)
    requires Resolves(Grouped(hits), default, r.configuration)
    requires var final := Final(Grouped(hits), Extractor());
      r.tokenExtractor == if final.Some? then Some(final.value.1) else None
    requires r.policyPath == if hits == [] then "" else Print(Grouped(hits)[0].key)
    ensures MostSpecificWins(hits, default, r)
  {
    EntriesAreWinners(hits, default, r.configuration);
    TokenIsWinners(hits, r.tokenExtractor);
    PathIsWinners(hits, r.policyPath);
  }

  /** `get_path_config` */
  method GetPathConfig(policy: Policy, path: string, engine: Engine) returns (r: PathPolicy)
    requires Usable(policy)
    ensures forall left :: IsBeforeQuery(left, path) ==>
      MostSpecificWins(Hits(policy, |policy.endpoints|, Components(left), engine), policy.reportStyle, r)
  {
    var components := Components(BeforeQuery(path));
    ComponentsAreClean(BeforeQuery(path));
    var buckets := GroupEndpoints(policy, components, engine);
    var output, token := ApplyBuckets(buckets, policy.reportStyle);
    r := PathPolicy(if buckets == [] then "" else Print(buckets[0].key), output, token);
    ResolvedIsMostSpecific(Hits(policy, |policy.endpoints|, components, engine), policy.reportStyle, r);
    forall left | IsBeforeQuery(left, path) ensures left == BeforeQuery(path) {
      BeforeQueryIsOne(left, path);
    }
  }

  lemma SameEntry(hits: seq<Hit>, default: DataReportStyle, r: PathPolicy, s: PathPolicy, c: string)
    requires MostSpecificWins(hits, default, r) && MostSpecificWins(hits, default, s)
    ensures Value(r.configuration, c) == Value(s.configuration, c)
  {
    if k :| 0 <= k < |hits| && Category(c)(hits[k].endpoint).Some? {
      var i, j := SomethingWins(hits, k, Category(c));
      ConfiguredIsShown(hits[j].glob, Category(c)(hits[i].endpoint).value, default);
      assert ShowsWinner(hits, default, r.configuration, c, i, j);
      assert ShowsWinner(hits, default, s.configuration, c, i, j);
    } else {
      assert c !in r.configuration && c !in s.configuration;
    }
  }

  lemma SameMap(a: map<string, PathConfiguration>, b: map<string, PathConfiguration>)
    requires forall c :: Value(a, c) == Value(b, c)
    ensures a == b
  {
    forall c ensures (c in a <==> c in b) && (c in a ==> a[c] == b[c]) {
      assert Value(a, c) == Value(b, c);
    }
  }

  lemma SameToken(hits: seq<Hit>, default: DataReportStyle, r: PathPolicy, s: PathPolicy)
    requires MostSpecificWins(hits, default, r) && MostSpecificWins(hits, default, s)
    ensures r.tokenExtractor == s.tokenExtractor
  {
    if k :| 0 <= k < |hits| && Extractor()(hits[k].endpoint).Some? {
      var i, j := SomethingWins(hits, k, Extractor());
    }
  }

  /** Resolution has one answer. */
  lemma OneAnswer(hits: seq<Hit>, default: DataReportStyle, r: PathPolicy, s: PathPolicy)
    requires MostSpecificWins(hits, default, r) && MostSpecificWins(hits, default, s)
    ensures r == s
  {
    forall c ensures Value(r.configuration, c) == Value(s.configuration, c) {
      SameEntry(hits, default, r, s, c);
    }
    SameMap(r.configuration, s.configuration);
    SameToken(hits, default, r, s);
    if hits != [] {
      var i, j := SomethingWins(hits, 0, Anything());
    }
  }

  /** What is configured for a path with a query is what is configured without it. */
  lemma QueryIsIgnored(policy: Policy, path: string, query: string, engine: Engine, r: PathPolicy, s: PathPolicy)
    requires Usable(policy) && '?' !in path
    requires forall left :: IsBeforeQuery(left, path + ['?'] + query) ==>
      MostSpecificWins(Hits(policy, |policy.endpoints|, Components(left), engine), policy.reportStyle, r)
    requires forall left :: IsBeforeQuery(left, path) ==>
      MostSpecificWins(Hits(policy, |policy.endpoints|, Components(left), engine), policy.reportStyle, s)
    ensures r == s
  {
    assert IsBeforeQuery(path, path + ['?'] + query) && IsBeforeQuery(path, path);
    OneAnswer(Hits(policy, |policy.endpoints|, Components(path), engine), policy.reportStyle, r, s);
  }

  // ----- The shadowed style

  /** The style with the endpoint's own setting between the category's and the policy's. */
  function IntendedStyle(action: ConfiguredAction, endpoint: Endpoint, default: DataReportStyle): DataReportStyle {
    var style := Or(action.reportStyle, endpoint.reportStyle);
    if style.Some? then style.value else default
  }

  /** The endpoint whose entry is shown for a category loses its own style, unless the category sets one,
      the endpoint sets none, or the endpoint's is the policy's anyway. */
  lemma {:induction false} ShadowedStyleIff(hits: seq<Hit>, default: DataReportStyle, r: PathPolicy, c: string, i: nat)
    requires MostSpecificWins(hits, default, r) && Wins(hits, i, Category(c))
    ensures var endpoint := hits[i].endpoint;
      var action := Lookup(endpoint.config, c).value;
      c in r.configuration
      && (r.configuration[c].reportStyle == IntendedStyle(action, endpoint, default)
          <==> action.reportStyle.Some? || endpoint.reportStyle.None? || endpoint.reportStyle == Some(default))
  {
    var j := ClassHasName(hits, i);
    assert ShowsWinner(hits, default, r.configuration, c, i, j);
  }

  /** One endpoint for all paths, which reports raw values, in a policy that reports none. */
  const SHADOWED := Policy(
    [Endpoint([[AnyMany]], [("ssn", ConfiguredAction("", None))], None, Some(Raw))], NoReport)

  lemma {:induction false} ShadowedHits(path: seq<string>, engine: Engine)
    ensures Hits(SHADOWED, 1, path, engine) == [Hit([AnyMany], SHADOWED.endpoints[0])]
  {
    assert HitsOf(SHADOWED.endpoints[0], 0, path, engine) == [];
    assert Hits(SHADOWED, 0, path, engine) == [];
    assert Lazy([AnyMany], path, engine);
  }

  lemma ShadowedWins(hits: seq<Hit>)
    requires hits == [Hit([AnyMany], SHADOWED.endpoints[0])]
    ensures Wins(hits, 0, Category("ssn"))
  {
    CompareIsByRank([AnyMany], [AnyMany]);
    assert Lookup(SHADOWED.endpoints[0].config, "ssn").Some?;
  }

  /** The endpoint's style is ignored on every path. */
  lemma {:induction false} StyleIsShadowed(path: seq<string>, engine: Engine, r: PathPolicy)
    requires MostSpecificWins(Hits(SHADOWED, 1, path, engine), SHADOWED.reportStyle, r)
    ensures "ssn" in r.configuration && r.configuration["ssn"].reportStyle == NoReport
  {
    var hits := [Hit([AnyMany], SHADOWED.endpoints[0])];
    ShadowedHits(path, engine);
    ShadowedWins(hits);
    var j := ClassHasName(hits, 0);
    assert ShowsWinner(hits, NoReport, r.configuration, "ssn", 0, j);
  }
}
