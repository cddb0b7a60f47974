/**
 * The classification of a release's assets by the patterns of its
 * repository: one bucket per distinct pattern text, each listing, in asset
 * order, the assets whose name the pattern finds a match in. A pattern that
 * is listed twice shares its bucket with its duplicate and adds the asset
 * once for each listing.
 */
module Assets {

  /** An asset of a release, known here by its file name. */
  datatype Asset = Asset(name: string)

  /** Number of times `p` is listed in `ps`. */
  function Count(ps: seq<string>, p: string): nat {
    if ps == [] then 0 else Count(ps[..|ps| - 1], p) + (if ps[|ps| - 1] == p then 1 else 0)
  }

  /** The copies of `a` that one pass over the patterns `ps` appends to the
      bucket of `p`: one for each listing of `p` whose search finds a match
      in the asset's name. */
  function Hits(ps: seq<string>, p: string, a: Asset, matches: (string, string) -> bool): (r: seq<Asset>)
  {
    if ps == [] then []
    else Hits(ps[..|ps| - 1], p, a, matches) + (if ps[|ps| - 1] == p && matches(p, a.name) then [a] else [])
  }

  /** The bucket of `p` once the assets `assets` are classified in order. */
  function Bucket(ps: seq<string>, p: string, assets: seq<Asset>, matches: (string, string) -> bool): (r: seq<Asset>)
    ensures r != [] ==> p in ps && assets != []
  {
    if assets == [] then []
    else
      HitsCount(ps, p, assets[|assets| - 1], matches);
      CountPositive(ps, p);
      Bucket(ps, p, assets[..|assets| - 1], matches) + Hits(ps, p, assets[|assets| - 1], matches)
  }

  /** The assets whose name `p` finds a match in, in their order. */
  function Matching(p: string, assets: seq<Asset>, matches: (string, string) -> bool): seq<Asset> {
    if assets == [] then []
    else Matching(p, assets[..|assets| - 1], matches) + (if matches(p, assets[|assets| - 1].name) then [assets[|assets| - 1]] else [])
  }

  /** The buckets of all the patterns, by pattern text. */
  function Buckets(patterns: seq<string>, assets: seq<Asset>, matches: (string, string) -> bool): (m: map<string, seq<Asset>>)
    ensures m.Keys == set p | p in patterns
  {
    map p | p in patterns :: Bucket(patterns, p, assets, matches)
  }

  /** The classification of `Work.releases`: a bucket for every pattern
      text, then each asset, in order, appended to the bucket of every
      listed pattern that matches its name. `matches(p, name)` stands for
      `re.compile(p).search(name)` finding a match. */
  method ClassifyAssets(patterns: seq<string>, assets: seq<Asset>, matches: (string, string) -> bool)
    returns (buckets: map<string, seq<Asset>>)
    ensures buckets.Keys == set p | p in patterns
    ensures forall p :: p in buckets ==> buckets[p] == Bucket(patterns, p, assets, matches)
    ensures buckets == Buckets(patterns, assets, matches)
  {
    buckets := map p | p in patterns :: [];
    for j := 0 to |assets|
      invariant buckets.Keys == set p | p in patterns
      invariant forall p :: p in buckets ==> buckets[p] == Bucket(patterns, p, assets[..j], matches)
    {
      assert assets[..j + 1][..j] == assets[..j];
      buckets := AppendAsset(buckets, patterns, assets[j], matches);
    }
    assert assets[..|assets|] == assets;
  }

  /** The inner loop of the classification: one asset tried against every
      pattern in order. */
  method AppendAsset(buckets0: map<string, seq<Asset>>, patterns: seq<string>, a: Asset, matches: (string, string) -> bool)
    returns (buckets: map<string, seq<Asset>>)
    requires buckets0.Keys == set p | p in patterns
    ensures buckets.Keys == buckets0.Keys
    ensures forall p :: p in buckets ==> buckets[p] == buckets0[p] + Hits(patterns, p, a, matches)
  {
    buckets := buckets0;
    for k := 0 to |patterns|
      invariant buckets.Keys == buckets0.Keys
      invariant forall p :: p in buckets ==> buckets[p] == buckets0[p] + Hits(patterns[..k], p, a, matches)
    {
      assert patterns[..k + 1][..k] == patterns[..k];
      assert patterns[k] in buckets0;
      if matches(patterns[k], a.name) {
        buckets := buckets[patterns[k] := buckets[patterns[k]] + [a]];
      }
    }
    assert patterns[..|patterns|] == patterns;
  }

  // Properties of the buckets

  /** One pass appends the asset once per listing of a matching pattern. */
  lemma {:induction false} HitsCount(ps: seq<string>, p: string, a: Asset, matches: (string, string) -> bool)
    ensures Hits(ps, p, a, matches) == if matches(p, a.name) then seq(Count(ps, p), _ => a) else []
  {
    if ps != [] {
      HitsCount(ps[..|ps| - 1], p, a, matches);
    }
  }

  /** An asset is in a bucket exactly when it is one of the assets, its
      pattern is listed and the pattern matches the asset's name. */
  lemma {:induction false} BucketContents(ps: seq<string>, p: string, assets: seq<Asset>, matches: (string, string) -> bool, a: Asset)
    ensures a in Bucket(ps, p, assets, matches) <==> a in assets && p in ps && matches(p, a.name)
  {
    if assets != [] {
      var last := assets[|assets| - 1];
      BucketContents(ps, p, assets[..|assets| - 1], matches, a);
      HitsCount(ps, p, last, matches);
      CountPositive(ps, p);
      assert assets == assets[..|assets| - 1] + [last];
      assert a in assets <==> a in assets[..|assets| - 1] || a == last;
    }
  }

  /** A pattern is listed exactly when its count is positive. */
  lemma {:induction false} CountPositive(ps: seq<string>, p: string)
    ensures Count(ps, p) > 0 <==> p in ps
  {
    if ps != [] {
      CountPositive(ps[..|ps| - 1], p);
      assert ps == ps[..|ps| - 1] + [ps[|ps| - 1]];
    }
  }

  /** Each of `xs` repeated `n` times in a row, in order. */
  function Stutter(xs: seq<Asset>, n: nat): seq<Asset> {
    if xs == [] then [] else Stutter(xs[..|xs| - 1], n) + seq(n, _ => xs[|xs| - 1])
  }

  /** A bucket holds the assets its pattern matches, in their order, each
      repeated once per listing of the pattern. */
  lemma {:induction false} BucketStutters(ps: seq<string>, p: string, assets: seq<Asset>, matches: (string, string) -> bool)
    ensures Bucket(ps, p, assets, matches) == Stutter(Matching(p, assets, matches), Count(ps, p))
  {
    if assets != [] {
      var init, last := assets[..|assets| - 1], assets[|assets| - 1];
      BucketStutters(ps, p, init, matches);
      HitsCount(ps, p, last, matches);
      var m := Matching(p, assets, matches);
      if matches(p, last.name) {
        assert m[..|m| - 1] == Matching(p, init, matches);
      } else {
        assert m == Matching(p, init, matches) + [] == Matching(p, init, matches);
        assert Bucket(ps, p, assets, matches) == Bucket(ps, p, init, matches) + [];
      }
    }
  }

  /** The bucket of a pattern listed once is exactly the assets it matches,
      in their order. */
  lemma BucketOfSingle(ps: seq<string>, p: string, assets: seq<Asset>, matches: (string, string) -> bool)
    requires Count(ps, p) == 1
    ensures Bucket(ps, p, assets, matches) == Matching(p, assets, matches)
  {
    BucketStutters(ps, p, assets, matches);
    StutterOnce(Matching(p, assets, matches));
  }

  lemma {:induction false} StutterOnce(xs: seq<Asset>)
    ensures Stutter(xs, 1) == xs
  {
    if xs != [] {
      StutterOnce(xs[..|xs| - 1]);
      assert xs == xs[..|xs| - 1] + [xs[|xs| - 1]];
    }
  }
}
