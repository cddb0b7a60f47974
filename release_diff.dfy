/**
 * `Work.releases`: which releases of a repository are new since the last
 * one the user marked. The listing is scanned in its own order against the
 * repository's marker; a boundary date is fixed when the marked release is
 * met (by date, or by commit when that comparison is on); the releases
 * kept on the way have their assets classified; a second pass drops those
 * older than the boundary; and the rest are sorted newest first. The three
 * printed notices are returned as flags.
 */
module ReleaseDiff {
  import opened Wrappers
  import opened TomlValidation
  import opened Configuration
  import opened Assets
  import opened ReleaseOrder
  import opened SeenCache

  /** What the scan makes of one release, given the boundary so far. */
  datatype Verdict =
    | Older       // older than the boundary: skipped, or the scan stops
    | SeenDate    // the marker's date: it becomes the boundary
    | SeenCommit  // the marker's commit, no boundary yet: it becomes the boundary
    | New         // kept, with its assets classified

  /** The tests of the scan, in their order. */
  function Judge(rel: Release, boundary: Option<nat>, marker: Marker, compareCommits: bool): (v: Verdict)
    ensures v == Older ==> boundary.Some?
    ensures v == SeenDate || v == SeenCommit ==> rel.lastModified == marker.lastReleaseDate || rel.commit == marker.lastReleaseCommit
    ensures v == SeenCommit ==> compareCommits && boundary.None?
    ensures v == New ==> rel.lastModified != marker.lastReleaseDate
    ensures v == New && boundary.Some? ==> rel.lastModified >= boundary.value
  {
    if boundary.Some? && rel.lastModified < boundary.value then Older
    else if rel.lastModified == marker.lastReleaseDate then SeenDate
    else if compareCommits && rel.commit == marker.lastReleaseCommit && boundary.None? then SeenCommit
    else New
  }

  /** Once a boundary is set, the commit comparison no longer changes any
      verdict. */
  lemma JudgeIgnoresCommitsAfterBoundary(rel: Release, boundary: nat, marker: Marker)
    ensures Judge(rel, Some(boundary), marker, true) == Judge(rel, Some(boundary), marker, false)
  {
  }

  /** The record of a kept release. */
  function Record(rel: Release, repo: RepoSpec, matches: (string, string) -> bool): (d: ReleaseData)
    ensures d.lastModified == rel.lastModified && d.commit == rel.commit && d.repoId == Id(repo)
    ensures d.matchedAssets.Keys == set p | p in repo.matchers
  {
    ReleaseData(rel, Id(repo), rel.lastModified, rel.commit, Buckets(repo.matchers, rel.assets, matches))
  }

  /** Where the scan stands: the boundary date (`last_release_date`), the
      releases kept so far, whether the commit notice was printed, and
      whether the scan has stopped early. */
  datatype ScanState = ScanState(boundary: Option<nat>, found: seq<ReleaseData>, commitNotice: bool, stopped: bool)

  const Start := ScanState(None, [], false, false)

  /** The scan of one more release. */
  function Step(st: ScanState, rel: Release, marker: Marker, config: Config, repo: RepoSpec,
                matches: (string, string) -> bool): (r: ScanState)
    ensures st.stopped ==> r == st
    ensures st.boundary.Some? ==> r.boundary.Some?
    ensures r.found == st.found || r.found == st.found + [Record(rel, repo, matches)]
    ensures r.stopped ==> st.stopped || config.assumeReleasesDecreasing
    ensures st.commitNotice ==> r.commitNotice
  {
    if st.stopped then st
    else
      match Judge(rel, st.boundary, marker, config.compareCommits)
      case Older => st.(stopped := config.assumeReleasesDecreasing)
      case SeenDate => st.(boundary := Some(rel.lastModified), stopped := config.assumeReleasesDecreasing)
      case SeenCommit =>
        st.(boundary := Some(rel.lastModified), commitNotice := true, stopped := config.assumeReleasesDecreasing)
      case New => st.(found := st.found + [Record(rel, repo, matches)])
  }

  /** The scan of a prefix of the listing. */
  function Scan(stream: seq<Release>, marker: Marker, config: Config, repo: RepoSpec,
                matches: (string, string) -> bool): (r: ScanState)
    ensures |r.found| <= |stream|
    ensures r.stopped ==> config.assumeReleasesDecreasing
  {
    if stream == [] then Start
    else Step(Scan(stream[..|stream| - 1], marker, config, repo, matches), stream[|stream| - 1], marker, config, repo, matches)
  }

  /** The three notices `Work.releases` prints: a release matched by commit
      only, a second pass that pruned something, and a marker never met
      while some release was kept. */
  datatype Notices = Notices(commitMatched: bool, secondPass: bool, lastNotFound: bool)

  datatype Diff = Diff(releases: seq<ReleaseData>, notices: Notices)

  /** The releases kept once the scan is over: those not older than the
      boundary when there is one, all of them otherwise. */
  function Kept(st: ScanState): (r: seq<ReleaseData>)
    ensures |r| <= |st.found|
    ensures forall i :: 0 <= i < |r| ==> r[i] in st.found
    ensures st.boundary.Some? ==> forall i :: 0 <= i < |r| ==> r[i].lastModified >= st.boundary.value
  {
    if st.boundary.Some? then Prune(st.found, st.boundary.value) else st.found
  }

  /** What the scan leads to: the kept releases sorted, and the notices. */
  function Finish(st: ScanState): (d: Diff)
    ensures NewestFirst(d.releases)
    ensures multiset(d.releases) == multiset(Kept(st))
    ensures !(d.notices.secondPass && d.notices.lastNotFound)
  {
    SortOrders(Kept(st));
    SortPermutes(Kept(st));
    Diff(SortNewestFirst(Kept(st)),
         Notices(st.commitNotice,
                 st.boundary.Some? && exists r :: r in st.found && r.lastModified < st.boundary.value,
                 st.boundary.None? && st.found != []))
  }

  /** The new releases of a listing, given the repository's marker. */
  function NewReleases(stream: seq<Release>, marker: Marker, config: Config, repo: RepoSpec,
                       matches: (string, string) -> bool): (d: Diff)
    ensures NewestFirst(d.releases)
    ensures |d.releases| <= |stream|
  {
    Finish(Scan(stream, marker, config, repo, matches))
  }

  /** Once stopped, the scan ignores the rest of the listing. */
  lemma {:induction false} ScanAfterStop(stream: seq<Release>, k: nat, marker: Marker, config: Config, repo: RepoSpec,
                                         matches: (string, string) -> bool)
    requires k <= |stream| && Scan(stream[..k], marker, config, repo, matches).stopped
    ensures Scan(stream, marker, config, repo, matches) == Scan(stream[..k], marker, config, repo, matches)
    decreases |stream|
  {
    if k < |stream| {
      var init := stream[..|stream| - 1];
      assert init[..k] == stream[..k];
      ScanAfterStop(init, k, marker, config, repo, matches);
    } else {
      assert stream[..k] == stream;
    }
  }

  /** The scan of one more release of the listing. */
  lemma ScanNext(stream: seq<Release>, i: nat, marker: Marker, config: Config, repo: RepoSpec,
                 matches: (string, string) -> bool)
    requires i < |stream|
    ensures Scan(stream[..i + 1], marker, config, repo, matches)
         == Step(Scan(stream[..i], marker, config, repo, matches), stream[i], marker, config, repo, matches)
  {
    assert stream[..i + 1][..i] == stream[..i];
  }

  // ---------------------------------------------------------------------
  // Properties of the scan

  /** A release is the marked one when it has the marker's date or, with
      the commit comparison on, the marker's commit. */
  predicate IsMarked(rel: Release, marker: Marker, compareCommits: bool) {
    rel.lastModified == marker.lastReleaseDate || (compareCommits && rel.commit == marker.lastReleaseCommit)
  }

  /** The records of all the releases of a listing, in its order. */
  function Records(stream: seq<Release>, repo: RepoSpec, matches: (string, string) -> bool): (r: seq<ReleaseData>)
    ensures |r| == |stream|
    ensures forall i :: 0 <= i < |stream| ==> r[i] == Record(stream[i], repo, matches)
  {
    if stream == [] then []
    else Records(stream[..|stream| - 1], repo, matches) + [Record(stream[|stream| - 1], repo, matches)]
  }

  /** Until the marked release is met, every release is kept and nothing
      else changes. */
  lemma {:induction false} ScanBeforeMatch(stream: seq<Release>, marker: Marker, config: Config, repo: RepoSpec,
                                           matches: (string, string) -> bool)
    requires forall i :: 0 <= i < |stream| ==> !IsMarked(stream[i], marker, config.compareCommits)
    ensures Scan(stream, marker, config, repo, matches) == ScanState(None, Records(stream, repo, matches), false, false)
  {
    if stream != [] {
      ScanBeforeMatch(stream[..|stream| - 1], marker, config, repo, matches);
    }
  }

  /** One step sets a boundary exactly when the scan goes on and the
      release is the marked one; a boundary once set stays set. */
  lemma StepBoundary(st: ScanState, rel: Release, marker: Marker, config: Config, repo: RepoSpec,
                     matches: (string, string) -> bool)
    ensures Step(st, rel, marker, config, repo, matches).boundary.Some? <==>
      st.boundary.Some? || (!st.stopped && IsMarked(rel, marker, config.compareCommits))
  {
  }

  /** A boundary is set exactly when some release of the listing is the
      marked one. */
  lemma {:induction false} BoundaryMeansMatch(stream: seq<Release>, marker: Marker, config: Config, repo: RepoSpec,
                                              matches: (string, string) -> bool)
    ensures Scan(stream, marker, config, repo, matches).boundary.Some? <==>
      exists i :: 0 <= i < |stream| && IsMarked(stream[i], marker, config.compareCommits)
  {
    if forall i :: 0 <= i < |stream| ==> !IsMarked(stream[i], marker, config.compareCommits) {
      ScanBeforeMatch(stream, marker, config, repo, matches);
    } else {
      var init, last := stream[..|stream| - 1], stream[|stream| - 1];
      var st := Scan(init, marker, config, repo, matches);
      StepBoundary(st, last, marker, config, repo, matches);
      if forall i :: 0 <= i < |init| ==> !IsMarked(init[i], marker, config.compareCommits) {
        ScanBeforeMatch(init, marker, config, repo, matches);
        assert IsMarked(last, marker, config.compareCommits);
      } else {
        BoundaryMeansMatch(init, marker, config, repo, matches);
      }
    }
  }

  /** With the commit comparison off, a boundary is always the marker's
      date. */
  lemma {:induction false} BoundaryIsMarkerDate(stream: seq<Release>, marker: Marker, config: Config, repo: RepoSpec,
                                                matches: (string, string) -> bool)
    requires !config.compareCommits
    ensures Scan(stream, marker, config, repo, matches).boundary.Some? ==>
      Scan(stream, marker, config, repo, matches).boundary.value == marker.lastReleaseDate
  {
    if stream != [] {
      BoundaryIsMarkerDate(stream[..|stream| - 1], marker, config, repo, matches);
    }
  }

  /** With the assumption that the listing is newest first, the scan stops
      at the first marked release: the releases before it are kept, it
      becomes the boundary, and the commit notice tells whether it was
      found by commit only. */
  lemma ScanStopsAtMatch(stream: seq<Release>, k: nat, marker: Marker, config: Config, repo: RepoSpec,
                         matches: (string, string) -> bool)
    requires config.assumeReleasesDecreasing
    requires k < |stream| && IsMarked(stream[k], marker, config.compareCommits)
    requires forall i :: 0 <= i < k ==> !IsMarked(stream[i], marker, config.compareCommits)
    ensures Scan(stream, marker, config, repo, matches) ==
      ScanState(Some(stream[k].lastModified), Records(stream[..k], repo, matches),
                stream[k].lastModified != marker.lastReleaseDate, true)
  {
    ScanBeforeMatch(stream[..k], marker, config, repo, matches);
    ScanNext(stream, k, marker, config, repo, matches);
    ScanAfterStop(stream, k + 1, marker, config, repo, matches);
  }

  /** No release of the marker's date is ever kept. */
  lemma {:induction false} FoundOmitsMarkerDate(stream: seq<Release>, marker: Marker, config: Config, repo: RepoSpec,
                                                matches: (string, string) -> bool)
    ensures forall r :: r in Scan(stream, marker, config, repo, matches).found ==>
      r.lastModified != marker.lastReleaseDate
  {
    if stream != [] {
      FoundOmitsMarkerDate(stream[..|stream| - 1], marker, config, repo, matches);
    }
  }

  /** The kept releases are records of the listing, in its order. */
  lemma {:induction false} FoundInOrder(stream: seq<Release>, marker: Marker, config: Config, repo: RepoSpec,
                                        matches: (string, string) -> bool)
    ensures Subseq(Scan(stream, marker, config, repo, matches).found, Records(stream, repo, matches))
  {
    if stream != [] {
      var init, last := stream[..|stream| - 1], stream[|stream| - 1];
      FoundInOrder(init, marker, config, repo, matches);
      var st := Scan(init, marker, config, repo, matches);
      if !st.stopped && Judge(last, st.boundary, marker, config.compareCommits) == New {
        SubseqSnoc(st.found, Records(init, repo, matches), Record(last, repo, matches));
      } else {
        SubseqExtend(st.found, Records(init, repo, matches), Record(last, repo, matches));
      }
    }
  }

  /** The commit notice is printed only with the commit comparison on, for
      a release with the marker's commit but not its date. */
  lemma {:induction false} CommitNoticeMeans(stream: seq<Release>, marker: Marker, config: Config, repo: RepoSpec,
                                             matches: (string, string) -> bool)
    ensures Scan(stream, marker, config, repo, matches).commitNotice ==>
      config.compareCommits &&
      exists i :: 0 <= i < |stream| && stream[i].commit == marker.lastReleaseCommit &&
                  stream[i].lastModified != marker.lastReleaseDate
  {
    if stream != [] {
      var init := stream[..|stream| - 1];
      CommitNoticeMeans(init, marker, config, repo, matches);
      if Scan(init, marker, config, repo, matches).commitNotice {
        var i :| 0 <= i < |init| && init[i].commit == marker.lastReleaseCommit &&
                 init[i].lastModified != marker.lastReleaseDate;
        assert stream[i] == init[i];
      }
    }
  }

  /** With the commit comparison off, the marker's commit plays no part. */
  lemma {:induction false} ScanIgnoresCommits(stream: seq<Release>, marker: Marker, config: Config, repo: RepoSpec,
                                              matches: (string, string) -> bool, commit: string)
    requires !config.compareCommits
    ensures Scan(stream, marker.(lastReleaseCommit := commit), config, repo, matches)
         == Scan(stream, marker, config, repo, matches)
  {
    if stream != [] {
      ScanIgnoresCommits(stream[..|stream| - 1], marker, config, repo, matches, commit);
    }
  }

  // ---------------------------------------------------------------------
  // Properties of the new releases

  /** The new releases come out newest first, as a rearrangement of the
      kept ones. */
  lemma NewReleasesOrdered(stream: seq<Release>, marker: Marker, config: Config, repo: RepoSpec,
                           matches: (string, string) -> bool)
    ensures NewestFirst(NewReleases(stream, marker, config, repo, matches).releases)
    ensures multiset(NewReleases(stream, marker, config, repo, matches).releases)
         == multiset(Kept(Scan(stream, marker, config, repo, matches)))
  {
    var kept := Kept(Scan(stream, marker, config, repo, matches));
    SortOrders(kept);
    SortPermutes(kept);
  }

  /** Releases of the same date come out in the order of the listing. */
  lemma NewReleasesStable(stream: seq<Release>, marker: Marker, config: Config, repo: RepoSpec,
                          matches: (string, string) -> bool, d: nat)
    ensures DatedAt(NewReleases(stream, marker, config, repo, matches).releases, d)
         == DatedAt(Kept(Scan(stream, marker, config, repo, matches)), d)
  {
    SortStable(Kept(Scan(stream, marker, config, repo, matches)), d);
  }

  /** The kept releases are records of the listing, in its order; so the
      new releases are a rearrangement of some of the listing's records. */
  lemma KeptInOrder(stream: seq<Release>, marker: Marker, config: Config, repo: RepoSpec,
                    matches: (string, string) -> bool)
    ensures Subseq(Kept(Scan(stream, marker, config, repo, matches)), Records(stream, repo, matches))
    ensures multiset(NewReleases(stream, marker, config, repo, matches).releases) <= multiset(Records(stream, repo, matches))
  {
    var st := Scan(stream, marker, config, repo, matches);
    FoundInOrder(stream, marker, config, repo, matches);
    if st.boundary.Some? {
      PruneInOrder(st.found, st.boundary.value);
      SubseqTrans(Kept(st), st.found, Records(stream, repo, matches));
    }
    SubseqMultiset(Kept(st), Records(stream, repo, matches));
    SortPermutes(Kept(st));
  }

  /** No new release has the marker's date, and when a boundary was set
      none is older than it. */
  lemma NewReleasesAfterBoundary(stream: seq<Release>, marker: Marker, config: Config, repo: RepoSpec,
                                 matches: (string, string) -> bool)
    ensures forall r :: r in NewReleases(stream, marker, config, repo, matches).releases ==>
      r.lastModified != marker.lastReleaseDate &&
      (Scan(stream, marker, config, repo, matches).boundary.Some? ==>
         r.lastModified >= Scan(stream, marker, config, repo, matches).boundary.value)
  {
    var st := Scan(stream, marker, config, repo, matches);
    FoundOmitsMarkerDate(stream, marker, config, repo, matches);
    SortPermutes(Kept(st));
    forall r | r in NewReleases(stream, marker, config, repo, matches).releases
      ensures r in Kept(st)
    {
      assert r in multiset(Kept(st));
    }
    if st.boundary.Some? {
      forall r | r in Kept(st) ensures r in st.found && r.lastModified >= st.boundary.value {
        PruneMembers(st.found, st.boundary.value, r);
      }
    }
  }

  /** With the commit comparison off and the marker's date in the listing,
      every new release is strictly newer than the marked one. */
  lemma NewReleasesNewerThanMarker(stream: seq<Release>, marker: Marker, config: Config, repo: RepoSpec,
                                   matches: (string, string) -> bool)
    requires !config.compareCommits
    requires exists i :: 0 <= i < |stream| && stream[i].lastModified == marker.lastReleaseDate
    ensures forall r :: r in NewReleases(stream, marker, config, repo, matches).releases ==>
      r.lastModified > marker.lastReleaseDate
  {
    var i :| 0 <= i < |stream| && stream[i].lastModified == marker.lastReleaseDate;
    assert IsMarked(stream[i], marker, config.compareCommits);
    BoundaryMeansMatch(stream, marker, config, repo, matches);
    BoundaryIsMarkerDate(stream, marker, config, repo, matches);
    NewReleasesAfterBoundary(stream, marker, config, repo, matches);
  }

  /** When the marked release is not in the listing, nothing is pruned:
      every release is new, and the notice that the last release was not
      found is given exactly when there is any. */
  lemma MarkerNeverMet(stream: seq<Release>, marker: Marker, config: Config, repo: RepoSpec,
                       matches: (string, string) -> bool)
    requires forall i :: 0 <= i < |stream| ==> !IsMarked(stream[i], marker, config.compareCommits)
    ensures NewReleases(stream, marker, config, repo, matches)
         == Diff(SortNewestFirst(Records(stream, repo, matches)), Notices(false, false, stream != []))
  {
    ScanBeforeMatch(stream, marker, config, repo, matches);
  }

  /** With the assumption that the listing is newest first, nothing from
      the first marked release on is returned, and the commit notice tells
      whether that release was found by commit only. */
  lemma NewReleasesBeforeMatch(stream: seq<Release>, k: nat, marker: Marker, config: Config, repo: RepoSpec,
                               matches: (string, string) -> bool)
    requires config.assumeReleasesDecreasing
    requires k < |stream| && IsMarked(stream[k], marker, config.compareCommits)
    requires forall i :: 0 <= i < k ==> !IsMarked(stream[i], marker, config.compareCommits)
    ensures multiset(NewReleases(stream, marker, config, repo, matches).releases)
         <= multiset(Records(stream[..k], repo, matches))
    ensures NewReleases(stream, marker, config, repo, matches).notices.commitMatched
         == (stream[k].lastModified != marker.lastReleaseDate)
  {
    ScanStopsAtMatch(stream, k, marker, config, repo, matches);
    var st := Scan(stream, marker, config, repo, matches);
    PruneInOrder(st.found, st.boundary.value);
    SubseqMultiset(Kept(st), st.found);
    SortPermutes(Kept(st));
  }

  /** The second-pass notice is given exactly when the pruning drops
      something. */
  lemma SecondPassNotice(stream: seq<Release>, marker: Marker, config: Config, repo: RepoSpec,
                         matches: (string, string) -> bool)
    ensures NewReleases(stream, marker, config, repo, matches).notices.secondPass <==>
      |NewReleases(stream, marker, config, repo, matches).releases| < |Scan(stream, marker, config, repo, matches).found|
  {
    var st := Scan(stream, marker, config, repo, matches);
    SortPermutes(Kept(st));
    assert |SortNewestFirst(Kept(st))| == |multiset(Kept(st))|;
    if st.boundary.Some? {
      PruneShrinks(st.found, st.boundary.value);
    }
  }

  /** The notice that the last release was not found is given exactly when
      the listing has releases and none of them is the marked one. */
  lemma LastNotFoundNotice(stream: seq<Release>, marker: Marker, config: Config, repo: RepoSpec,
                           matches: (string, string) -> bool)
    ensures NewReleases(stream, marker, config, repo, matches).notices.lastNotFound <==>
      stream != [] && forall i :: 0 <= i < |stream| ==> !IsMarked(stream[i], marker, config.compareCommits)
  {
    BoundaryMeansMatch(stream, marker, config, repo, matches);
    if forall i :: 0 <= i < |stream| ==> !IsMarked(stream[i], marker, config.compareCommits) {
      ScanBeforeMatch(stream, marker, config, repo, matches);
    }
  }

  /** With the commit comparison off, the new releases do not depend on the
      marker's commit. */
  lemma NewReleasesIgnoreCommits(stream: seq<Release>, marker: Marker, config: Config, repo: RepoSpec,
                                 matches: (string, string) -> bool, commit: string)
    requires !config.compareCommits
    ensures NewReleases(stream, marker.(lastReleaseCommit := commit), config, repo, matches)
         == NewReleases(stream, marker, config, repo, matches)
  {
    ScanIgnoresCommits(stream, marker, config, repo, matches, commit);
  }

  /** The position of the first marked release, or the listing's length
      when none is marked. */
  function FirstMarked(stream: seq<Release>, marker: Marker, compareCommits: bool): (k: nat)
    ensures k <= |stream|
    ensures forall i :: 0 <= i < k ==> !IsMarked(stream[i], marker, compareCommits)
    ensures k < |stream| ==> IsMarked(stream[k], marker, compareCommits)
  {
    if stream == [] then 0
    else if IsMarked(stream[0], marker, compareCommits) then 0
    else 1 + FirstMarked(stream[1..], marker, compareCommits)
  }

  /** A listing that really is newest first, scanned with that assumption:
      the new releases are exactly the releases before the first marked
      one, in some order. */
  lemma NewAreBeforeMarked(stream: seq<Release>, marker: Marker, config: Config, repo: RepoSpec,
                           matches: (string, string) -> bool)
    requires config.assumeReleasesDecreasing
    requires forall i, j :: 0 <= i < j < |stream| ==> stream[i].lastModified >= stream[j].lastModified
    ensures multiset(NewReleases(stream, marker, config, repo, matches).releases)
         == multiset(Records(stream[..FirstMarked(stream, marker, config.compareCommits)], repo, matches))
  {
    var st := Scan(stream, marker, config, repo, matches);
    var k := FirstMarked(stream, marker, config.compareCommits);
    var recs := Records(stream[..k], repo, matches);
    if k < |stream| {
      ScanStopsAtMatch(stream, k, marker, config, repo, matches);
      forall i | 0 <= i < |recs| ensures recs[i].lastModified >= stream[k].lastModified {
        assert recs[i] == Record(stream[i], repo, matches);
      }
      PruneNothingOlder(recs, stream[k].lastModified);
    } else {
      ScanBeforeMatch(stream, marker, config, repo, matches);
      assert stream[..k] == stream;
    }
    assert Kept(st) == recs;
  }

  /** A newest-first arrangement of releases starts with a release of the
      date the original sequence starts with, when that date is the
      latest. */
  lemma HeadOfArrangement(out: seq<ReleaseData>, rs: seq<ReleaseData>)
    requires NewestFirst(out) && out != []
    requires multiset(out) == multiset(rs)
    requires forall i :: 0 <= i < |rs| ==> rs[0].lastModified >= rs[i].lastModified
    ensures rs != [] && rs[0] in out && out[0] in rs
    ensures out[0].lastModified == rs[0].lastModified
  {
    assert out[0] in multiset(rs);
    assert rs[0] in multiset(out);
    var j :| 0 <= j < |out| && out[j] == rs[0];
    var i :| 0 <= i < |rs| && rs[i] == out[0];
  }

  /** The records of the first `k` releases of a newest-first listing
      start with the latest one, and all belong to the repository. */
  lemma RecordsOfPrefix(stream: seq<Release>, k: nat, repo: RepoSpec, matches: (string, string) -> bool)
    requires k <= |stream|
    requires forall i, j :: 0 <= i < j < |stream| ==> stream[i].lastModified >= stream[j].lastModified
    ensures var rs := Records(stream[..k], repo, matches);
      && (rs != [] ==> rs[0] == Record(stream[0], repo, matches))
      && (forall i :: 0 <= i < |rs| ==> rs[0].lastModified >= rs[i].lastModified)
      && (forall i :: 0 <= i < |rs| ==> rs[i].repoId == Id(repo))
  {
    var rs := Records(stream[..k], repo, matches);
    forall i | 0 <= i < |rs|
      ensures rs[0].lastModified >= rs[i].lastModified && rs[i].repoId == Id(repo)
    {
      assert rs[0] == Record(stream[0], repo, matches);
      assert rs[i] == Record(stream[i], repo, matches);
    }
  }

  /** Under the same conditions, when anything is new, the first release
      of the listing is among the new ones, and the newest of them is of
      the listing's first date and of this repository. */
  lemma NewestIsFirst(stream: seq<Release>, marker: Marker, config: Config, repo: RepoSpec,
                      matches: (string, string) -> bool)
    requires config.assumeReleasesDecreasing
    requires forall i, j :: 0 <= i < j < |stream| ==> stream[i].lastModified >= stream[j].lastModified
    requires NewReleases(stream, marker, config, repo, matches).releases != []
    ensures stream != []
    ensures Record(stream[0], repo, matches) in NewReleases(stream, marker, config, repo, matches).releases
    ensures NewReleases(stream, marker, config, repo, matches).releases[0].lastModified == stream[0].lastModified
    ensures NewReleases(stream, marker, config, repo, matches).releases[0].repoId == Id(repo)
  {
    var out := NewReleases(stream, marker, config, repo, matches).releases;
    var k := FirstMarked(stream, marker, config.compareCommits);
    NewAreBeforeMarked(stream, marker, config, repo, matches);
    RecordsOfPrefix(stream, k, repo, matches);
    HeadOfArrangement(out, Records(stream[..k], repo, matches));
  }

  /** Marking the newest new release (what the automatic mode downloads)
      leaves nothing new in the same listing: with the listing newest first
      and the assumption on, a second run over it returns nothing. */
  lemma Idempotent(stream: seq<Release>, marker: Marker, config: Config, repo: RepoSpec,
                   matches: (string, string) -> bool)
    requires config.assumeReleasesDecreasing
    requires forall i, j :: 0 <= i < j < |stream| ==> stream[i].lastModified >= stream[j].lastModified
    requires NewReleases(stream, marker, config, repo, matches).releases != []
    ensures var top := NewReleases(stream, marker, config, repo, matches).releases[0];
      NewReleases(stream, Marker(top.commit, top.lastModified), config, repo, matches).releases == []
  {
    NewestIsFirst(stream, marker, config, repo, matches);
    var top := NewReleases(stream, marker, config, repo, matches).releases[0];
    var again := Marker(top.commit, top.lastModified);
    assert IsMarked(stream[0], again, config.compareCommits);
    ScanStopsAtMatch(stream, 0, again, config, repo, matches);
    assert Records(stream[..0], repo, matches) == [];
  }

  /** The same through the cache: after the newest new release is written
      as its repository's marker, the repository's next run over the same
      listing finds nothing new. */
  lemma IdempotentAfterUpdate(stream: seq<Release>, repos: map<string, Marker>, config: Config, repo: RepoSpec,
                              matches: (string, string) -> bool)
    requires config.assumeReleasesDecreasing
    requires forall i, j :: 0 <= i < j < |stream| ==> stream[i].lastModified >= stream[j].lastModified
    requires NewReleases(stream, Lookup(repos, Id(repo)), config, repo, matches).releases != []
    ensures var top := NewReleases(stream, Lookup(repos, Id(repo)), config, repo, matches).releases[0];
      NewReleases(stream, Lookup(repos[top.repoId := Marker(top.commit, top.lastModified)], Id(repo)),
                  config, repo, matches).releases == []
  {
    var marker := Lookup(repos, Id(repo));
    NewestIsFirst(stream, marker, config, repo, matches);
    Idempotent(stream, marker, config, repo, matches);
    var top := NewReleases(stream, marker, config, repo, matches).releases[0];
    LookupAfterUpdate(repos, top.repoId, Marker(top.commit, top.lastModified), Id(repo));
  }

  // ---------------------------------------------------------------------
  // The method

  /** The body of the scan loop of `Work.releases` for one release: the
      early `return`s stand for the loop's `continue` (`stop` false) and
      `break` (`stop` true). */
  method Visit(rel: Release, boundary0: Option<nat>, found0: seq<ReleaseData>, commitNotice0: bool,
               marker: Marker, config: Config, repo: RepoSpec, matches: (string, string) -> bool)
    returns (boundary: Option<nat>, found: seq<ReleaseData>, commitNotice: bool, stop: bool)
    ensures Step(ScanState(boundary0, found0, commitNotice0, false), rel, marker, config, repo, matches)
         == ScanState(boundary, found, commitNotice, stop)
  {
    boundary, found, commitNotice := boundary0, found0, commitNotice0;
    if boundary.Some? && rel.lastModified < boundary.value {
      return boundary, found, commitNotice, config.assumeReleasesDecreasing;
    }
    if rel.lastModified == marker.lastReleaseDate {
      boundary := Some(rel.lastModified);
      return boundary, found, commitNotice, config.assumeReleasesDecreasing;
    }
    if config.compareCommits && rel.commit == marker.lastReleaseCommit {
      if boundary.None? {
        commitNotice := true;
        boundary := Some(rel.lastModified);
        return boundary, found, commitNotice, config.assumeReleasesDecreasing;
      }
    }
    var buckets := ClassifyAssets(repo.matchers, rel.assets, matches);
    found := found + [ReleaseData(rel, Id(repo), rel.lastModified, rel.commit, buckets)];
    stop := false;
  }

  /** The scan loop of `Work.releases`: each release judged against the
      boundary and the marker, in the listing's order, until the end of the
      listing or an early stop. */
  method ScanListing(stream: seq<Release>, marker: Marker, config: Config, repo: RepoSpec,
                     matches: (string, string) -> bool)
    returns (boundary: Option<nat>, found: seq<ReleaseData>, commitNotice: bool)
    ensures var st := Scan(stream, marker, config, repo, matches);
      boundary == st.boundary && found == st.found && commitNotice == st.commitNotice
  {
    boundary, found, commitNotice := None, [], false;
    var i := 0;
    while i < |stream|
      invariant 0 <= i <= |stream|
      invariant Scan(stream[..i], marker, config, repo, matches) == ScanState(boundary, found, commitNotice, false)
    {
      ScanNext(stream, i, marker, config, repo, matches);
      var stop;
      boundary, found, commitNotice, stop := Visit(stream[i], boundary, found, commitNotice, marker, config, repo, matches);
      if stop {
        ScanAfterStop(stream, i + 1, marker, config, repo, matches);
        return;
      }
      i := i + 1;
    }
    assert stream[..i] == stream;
  }

  /** `Work.releases`: fails when the repository is not found (`listing`
      is `None`), then when the cache was not loaded; otherwise the new
      releases against the repository's marker, with the notices. */
  method Releases(settings: Settings, repo: RepoSpec, listing: Option<seq<Release>>, config: Config,
                  matches: (string, string) -> bool)
    returns (r: Outcome<Diff>)
    ensures listing.None? ==> r == Failure(Invalid(RepoNotFound(Id(repo))))
    ensures listing.Some? && settings.cache.None? ==> r == Failure(Invalid(CacheNotLoaded))
    ensures listing.Some? && settings.cache.Some? ==>
      r == Success(NewReleases(listing.value, Lookup(settings.cache.value, Id(repo)), config, repo, matches))
  {
    if listing.None? {
      return Failure(Invalid(RepoNotFound(Id(repo))));
    }
    var cached := settings.GetCached(Id(repo));
    if cached.Failure? {
      return Failure(cached.error);
    }
    var boundary, found, commitNotice := ScanListing(listing.value, cached.value, config, repo, matches);
    var secondPass, lastNotFound := false, false;
    if boundary.Some? {
      found, secondPass := PruneOlder(found, boundary.value);
    } else if found != [] {
      lastNotFound := true;
    }
    return Success(Diff(SortNewestFirst(found), Notices(commitNotice, secondPass, lastNotFound)));
  }
}
