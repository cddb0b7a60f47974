/**
 * Releases and the two reorderings the program applies to the new ones it
 * collects: dropping those older than the boundary date, and the stable
 * sort that puts the newest first. Dates are instants counted from the
 * least one the program uses.
 */
module ReleaseOrder {
  import opened Assets

  /** A release as the listing gives it: its tag, when it was last
      modified, the commit it targets and its assets. */
  datatype Release = Release(tag: string, lastModified: nat, commit: string, assets: seq<Asset>)

  /** A new release with its assets classified: `ReleaseData`. */
  datatype ReleaseData = ReleaseData(
    raw: Release,
    repoId: string,
    lastModified: nat,
    commit: string,
    matchedAssets: map<string, seq<Asset>>)

  /** Newest first: dates never increase along the sequence. */
  predicate NewestFirst(rs: seq<ReleaseData>) {
    forall i, j :: 0 <= i < j < |rs| ==> rs[i].lastModified >= rs[j].lastModified
  }

  /** The releases dated exactly `d`, in their order. */
  function DatedAt(rs: seq<ReleaseData>, d: nat): seq<ReleaseData> {
    if rs == [] then []
    else (if rs[0].lastModified == d then [rs[0]] else []) + DatedAt(rs[1..], d)
  }

  // ---------------------------------------------------------------------
  // Pruning

  /** The releases not older than `boundary`, in their order. */
  function Prune(rs: seq<ReleaseData>, boundary: nat): (r: seq<ReleaseData>)
    ensures |r| <= |rs|
    ensures forall i :: 0 <= i < |r| ==> r[i] in rs && r[i].lastModified >= boundary
  {
    if rs == [] then []
    else (if rs[0].lastModified >= boundary then [rs[0]] else []) + Prune(rs[1..], boundary)
  }

  /** The second pass of `Work.releases`: from the last release back to the
      first, each one older than the boundary is deleted; `secondPass`
      tells whether any was. */
  method PruneOlder(releases: seq<ReleaseData>, boundary: nat) returns (kept: seq<ReleaseData>, secondPass: bool)
    ensures kept == Prune(releases, boundary)
    ensures secondPass <==> exists r :: r in releases && r.lastModified < boundary
  {
    kept := releases;
    secondPass := false;
    var i := |releases|;
    while i > 0
      invariant 0 <= i <= |releases|
      invariant kept == releases[..i] + Prune(releases[i..], boundary)
      invariant |kept| <= |releases|
      invariant secondPass <==> |kept| < |releases|
    {
      i := i - 1;
      PruneBack(releases, kept, i, boundary);
      if kept[i].lastModified < boundary {
        kept := kept[..i] + kept[i + 1..];
        secondPass := true;
      }
    }
    assert releases[0..] == releases;
    PruneShrinks(releases, boundary);
  }

  /** One step back of the second pass: deleting the release at `i` when it
      is older than the boundary extends the pruning to position `i`. */
  lemma PruneBack(rs: seq<ReleaseData>, kept: seq<ReleaseData>, i: nat, boundary: nat)
    requires i < |rs| && kept == rs[..i + 1] + Prune(rs[i + 1..], boundary)
    ensures i < |kept| && kept[i] == rs[i]
    ensures kept[i].lastModified < boundary ==> kept[..i] + kept[i + 1..] == rs[..i] + Prune(rs[i..], boundary)
    ensures kept[i].lastModified >= boundary ==> kept == rs[..i] + Prune(rs[i..], boundary)
  {
    assert rs[i..][1..] == rs[i + 1..];
    assert kept[..i] == rs[..i];
    assert kept[i + 1..] == Prune(rs[i + 1..], boundary);
    assert rs[..i + 1] == rs[..i] + [rs[i]];
  }

  /** A release survives the pruning exactly when it is one of the releases
      and is not older than the boundary. */
  lemma {:induction false} PruneMembers(rs: seq<ReleaseData>, boundary: nat, r: ReleaseData)
    ensures r in Prune(rs, boundary) <==> r in rs && r.lastModified >= boundary
  {
    if rs != [] {
      PruneMembers(rs[1..], boundary, r);
      assert rs == [rs[0]] + rs[1..];
    }
  }

  /** Nothing is pruned when no release is older than the boundary. */
  lemma {:induction false} PruneNothingOlder(rs: seq<ReleaseData>, boundary: nat)
    requires forall i :: 0 <= i < |rs| ==> rs[i].lastModified >= boundary
    ensures Prune(rs, boundary) == rs
  {
    if rs != [] {
      PruneNothingOlder(rs[1..], boundary);
      assert rs == [rs[0]] + rs[1..];
    }
  }

  /** Pruning shortens the releases exactly when one of them is older than
      the boundary. */
  lemma {:induction false} PruneShrinks(rs: seq<ReleaseData>, boundary: nat)
    ensures |Prune(rs, boundary)| <= |rs|
    ensures |Prune(rs, boundary)| < |rs| <==> exists r :: r in rs && r.lastModified < boundary
  {
    if rs != [] {
      PruneShrinks(rs[1..], boundary);
      assert rs == [rs[0]] + rs[1..];
      if exists r :: r in rs[1..] && r.lastModified < boundary {
        var r :| r in rs[1..] && r.lastModified < boundary;
        assert r in rs;
      }
    }
  }

  /** Pruning keeps the releases in their order. */
  lemma {:induction false} PruneInOrder(rs: seq<ReleaseData>, boundary: nat)
    ensures Subseq(Prune(rs, boundary), rs)
  {
    if rs != [] {
      PruneInOrder(rs[1..], boundary);
      var p := Prune(rs, boundary);
      if rs[0].lastModified >= boundary {
        assert p[0] == rs[0] && p[1..] == Prune(rs[1..], boundary);
      } else {
        assert p == Prune(rs[1..], boundary);
      }
    }
  }

  // ---------------------------------------------------------------------
  // Subsequences

  /** `xs` is `ys` with some elements left out, the rest in their order. */
  predicate Subseq<T(==)>(xs: seq<T>, ys: seq<T>)
    decreases |ys|
  {
    xs == [] || (ys != [] && ((xs[0] == ys[0] && Subseq(xs[1..], ys[1..])) || Subseq(xs, ys[1..])))
  }

  lemma {:induction false} SubseqExtend<T>(xs: seq<T>, ys: seq<T>, a: T)
    requires Subseq(xs, ys)
    ensures Subseq(xs, ys + [a])
    decreases |ys|
  {
    if xs != [] {
      assert (ys + [a])[1..] == ys[1..] + [a];
      if xs[0] == ys[0] && Subseq(xs[1..], ys[1..]) {
        SubseqExtend(xs[1..], ys[1..], a);
      } else {
        SubseqExtend(xs, ys[1..], a);
      }
    }
  }

  lemma {:induction false} SubseqSnoc<T>(xs: seq<T>, ys: seq<T>, a: T)
    requires Subseq(xs, ys)
    ensures Subseq(xs + [a], ys + [a])
    decreases |ys|
  {
    if ys == [] {
      assert xs + [a] == [a];
    } else {
      assert (ys + [a])[1..] == ys[1..] + [a];
      if xs == [] {
        SubseqSnoc(xs, ys[1..], a);
        assert xs + [a] == [a];
      } else {
        assert (xs + [a])[1..] == xs[1..] + [a];
        if xs[0] == ys[0] && Subseq(xs[1..], ys[1..]) {
          SubseqSnoc(xs[1..], ys[1..], a);
        } else {
          SubseqSnoc(xs, ys[1..], a);
        }
      }
    }
  }

  lemma {:induction false} SubseqTrans<T>(xs: seq<T>, ys: seq<T>, zs: seq<T>)
    requires Subseq(xs, ys) && Subseq(ys, zs)
    ensures Subseq(xs, zs)
    decreases |zs|
  {
    if xs != [] {
      if ys[0] == zs[0] && Subseq(ys[1..], zs[1..]) {
        if xs[0] == ys[0] && Subseq(xs[1..], ys[1..]) {
          SubseqTrans(xs[1..], ys[1..], zs[1..]);
        } else {
          SubseqTrans(xs, ys[1..], zs[1..]);
        }
      } else {
        SubseqTrans(xs, ys, zs[1..]);
      }
    }
  }

  /** A subsequence holds each element at most as often. */
  lemma {:induction false} SubseqMultiset<T>(xs: seq<T>, ys: seq<T>)
    requires Subseq(xs, ys)
    ensures multiset(xs) <= multiset(ys)
    decreases |ys|
  {
    if xs != [] {
      assert ys == [ys[0]] + ys[1..];
      if xs[0] == ys[0] && Subseq(xs[1..], ys[1..]) {
        SubseqMultiset(xs[1..], ys[1..]);
        assert xs == [xs[0]] + xs[1..];
      } else {
        SubseqMultiset(xs, ys[1..]);
      }
    }
  }

  // ---------------------------------------------------------------------
  // The stable sort, newest first

  /** Places `x` before the first release not newer than it. */
  function Insert(x: ReleaseData, rs: seq<ReleaseData>): (r: seq<ReleaseData>)
    ensures |r| == |rs| + 1
  {
    if rs == [] || x.lastModified >= rs[0].lastModified then [x] + rs
    else [rs[0]] + Insert(x, rs[1..])
  }

  /** `sort(key=lambda rel: rel.last_modified, reverse=True)`: the newest
      first, releases of the same date in their original order. */
  function SortNewestFirst(rs: seq<ReleaseData>): (r: seq<ReleaseData>)
    ensures |r| == |rs|
  {
    if rs == [] then [] else Insert(rs[0], SortNewestFirst(rs[1..]))
  }

  lemma {:induction false} InsertPermutes(x: ReleaseData, rs: seq<ReleaseData>)
    ensures multiset(Insert(x, rs)) == multiset(rs) + multiset{x}
  {
    if rs != [] && x.lastModified < rs[0].lastModified {
      InsertPermutes(x, rs[1..]);
      assert rs == [rs[0]] + rs[1..];
    }
  }

  lemma {:induction false} InsertOrders(x: ReleaseData, rs: seq<ReleaseData>)
    requires NewestFirst(rs)
    ensures NewestFirst(Insert(x, rs))
  {
    if rs != [] && x.lastModified < rs[0].lastModified {
      InsertOrders(x, rs[1..]);
      InsertPermutes(x, rs[1..]);
      var ins := Insert(x, rs[1..]);
      forall k | 0 <= k < |ins| ensures rs[0].lastModified >= ins[k].lastModified {
        assert ins[k] in multiset(ins);
        if ins[k] != x {
          assert ins[k] in rs[1..];
        }
      }
    }
  }

  /** The sort orders the releases newest first. */
  lemma {:induction false} SortOrders(rs: seq<ReleaseData>)
    ensures NewestFirst(SortNewestFirst(rs))
  {
    if rs != [] {
      SortOrders(rs[1..]);
      InsertOrders(rs[0], SortNewestFirst(rs[1..]));
    }
  }

  /** The sort rearranges the releases, dropping and adding none. */
  lemma {:induction false} SortPermutes(rs: seq<ReleaseData>)
    ensures multiset(SortNewestFirst(rs)) == multiset(rs)
  {
    if rs != [] {
      SortPermutes(rs[1..]);
      InsertPermutes(rs[0], SortNewestFirst(rs[1..]));
      assert rs == [rs[0]] + rs[1..];
    }
  }

  /** Releases already newest first are left as they are. */
  lemma {:induction false} SortKeepsOrdered(rs: seq<ReleaseData>)
    requires NewestFirst(rs)
    ensures SortNewestFirst(rs) == rs
  {
    if rs != [] {
      SortKeepsOrdered(rs[1..]);
    }
  }

  /** Inserting a release before the releases of its own date keeps, for
      every date, the releases of that date in order with it first. */
  lemma {:induction false} InsertDatedAt(x: ReleaseData, rs: seq<ReleaseData>, d: nat)
    ensures DatedAt(Insert(x, rs), d) == DatedAt([x] + rs, d)
  {
    if rs != [] && x.lastModified < rs[0].lastModified {
      InsertDatedAt(x, rs[1..], d);
      assert ([rs[0]] + Insert(x, rs[1..]))[1..] == Insert(x, rs[1..]);
      assert ([x] + rs)[1..] == rs;
      assert ([x] + rs[1..])[1..] == rs[1..];
      assert rs == [rs[0]] + rs[1..];
      if x.lastModified == d {
        assert rs[0].lastModified != d;
      }
    }
  }

  /** The sort is stable: the releases of any one date come out in the
      order they went in. */
  lemma {:induction false} SortStable(rs: seq<ReleaseData>, d: nat)
    ensures DatedAt(SortNewestFirst(rs), d) == DatedAt(rs, d)
  {
    if rs != [] {
      SortStable(rs[1..], d);
      InsertDatedAt(rs[0], SortNewestFirst(rs[1..]), d);
      assert ([rs[0]] + SortNewestFirst(rs[1..]))[1..] == SortNewestFirst(rs[1..]);
    }
  }
}
