/**
 * Worked listings for `Work.releases`: which releases come out, in which
 * order, with which notices, for a marker and a listing written out in
 * full. Dates are small numbers; assets play no part and are left empty.
 */
module DiffScenarios {
  import opened Wrappers
  import opened Configuration
  import opened ReleaseOrder
  import opened SeenCache
  import opened ReleaseDiff

  function Rel(tag: string, date: nat, commit: string): Release {
    Release(tag, date, commit, [])
  }

  const Repo := RepoSpec("someone", "tool", [".+"])

  function Switches(assumeDecreasing: bool, compare: bool): Config {
    Config(assumeDecreasing, compare, "", "", [])
  }

  /** A listing that is not newest first, with the marked release (date 3)
      second. */
  const Unsorted := [Rel("v5", 5, "c5"), Rel("v3", 3, "c3"), Rel("v4", 4, "c4"), Rel("v2", 2, "c2")]

  /** The marked release becomes the boundary; the newer release after it
      is kept, the older one skipped. */
  lemma MarkedInMiddle(matches: (string, string) -> bool)
    ensures NewReleases(Unsorted, Marker("c3", 3), Switches(false, false), Repo, matches)
         == Diff([Record(Unsorted[0], Repo, matches), Record(Unsorted[2], Repo, matches)], Notices(false, false, false))
  {
    var r0, r2 := Record(Unsorted[0], Repo, matches), Record(Unsorted[2], Repo, matches);
    MarkedInMiddleScan(matches);
    PruneNothingOlder([r0, r2], 3);
    SortKeepsOrdered([r0, r2]);
  }

  lemma MarkedInMiddleScan(matches: (string, string) -> bool)
    ensures Scan(Unsorted, Marker("c3", 3), Switches(false, false), Repo, matches)
         == ScanState(Some(3), [Record(Unsorted[0], Repo, matches), Record(Unsorted[2], Repo, matches)], false, false)
  {
    var stream, m, c := Unsorted, Marker("c3", 3), Switches(false, false);
    var r0, r2 := Record(stream[0], Repo, matches), Record(stream[2], Repo, matches);
    ScanNext(stream, 0, m, c, Repo, matches);
    assert Judge(stream[0], None, m, false) == New;
    ScanNext(stream, 1, m, c, Repo, matches);
    assert Judge(stream[1], None, m, false) == SeenDate;
    assert Scan(stream[..2], m, c, Repo, matches) == ScanState(Some(3), [r0], false, false);
    ScanNext(stream, 2, m, c, Repo, matches);
    assert Judge(stream[2], Some(3), m, false) == New;
    assert Scan(stream[..3], m, c, Repo, matches) == ScanState(Some(3), [r0, r2], false, false);
    assert Judge(stream[3], Some(3), m, false) == Older;
    ScanNext(stream, 3, m, c, Repo, matches);
    assert stream[..4] == stream;
  }

  /** The same listing with the assumption that it is newest first: the
      scan stops at the marked release. */
  lemma MarkedInMiddleAssumed(matches: (string, string) -> bool)
    ensures NewReleases(Unsorted, Marker("c3", 3), Switches(true, false), Repo, matches)
         == Diff([Record(Unsorted[0], Repo, matches)], Notices(false, false, false))
  {
    var r0 := Record(Unsorted[0], Repo, matches);
    ScanStopsAtMatch(Unsorted, 1, Marker("c3", 3), Switches(true, false), Repo, matches);
    assert Records(Unsorted[..1], Repo, matches) == [r0];
    PruneNothingOlder([r0], 3);
    SortKeepsOrdered([r0]);
  }

  /** A listing without the marked release (date 9, commit "c9"). */
  const Unmarked := [Rel("v2", 2, "c2"), Rel("v5", 5, "c5"), Rel("v4", 4, "c4")]

  /** Every release is new, sorted newest first, with the notice that the
      last release was not found. */
  lemma MarkerMissing(matches: (string, string) -> bool)
    ensures NewReleases(Unmarked, Marker("c9", 9), Switches(true, true), Repo, matches)
         == Diff([Record(Unmarked[1], Repo, matches), Record(Unmarked[2], Repo, matches), Record(Unmarked[0], Repo, matches)],
                 Notices(false, false, true))
  {
    var stream := Unmarked;
    var r0, r1, r2 := Record(stream[0], Repo, matches), Record(stream[1], Repo, matches), Record(stream[2], Repo, matches);
    forall i | 0 <= i < 3 ensures stream[i].commit != "c9" {
      assert stream[i].commit[1] != "c9"[1];
    }
    MarkerNeverMet(stream, Marker("c9", 9), Switches(true, true), Repo, matches);
    UnmarkedRecords(matches);
    SortKeepsOrdered([r1, r2]);
    assert Insert(r0, [r2]) == [r2, r0];
    assert Insert(r0, [r1, r2]) == [r1] + Insert(r0, [r2]);
  }

  lemma UnmarkedRecords(matches: (string, string) -> bool)
    ensures Records(Unmarked, Repo, matches)
         == [Record(Unmarked[0], Repo, matches), Record(Unmarked[1], Repo, matches), Record(Unmarked[2], Repo, matches)]
  {
    assert Unmarked[..2][..1] == Unmarked[..1];
    assert Unmarked[..3][..2] == Unmarked[..2];
  }

  /** A listing whose release with commit "c4" was re-published, so that
      its date no longer is the marker's. */
  const Republished := [Rel("v6", 6, "c6"), Rel("v4", 4, "c4"), Rel("v5", 5, "c5"), Rel("v3", 3, "c3")]

  /** With the commit comparison on, the re-published release is found by
      its commit, with the notice, and becomes the boundary. */
  lemma FoundByCommit(matches: (string, string) -> bool)
    ensures NewReleases(Republished, Marker("c4", 7), Switches(false, true), Repo, matches)
         == Diff([Record(Republished[0], Repo, matches), Record(Republished[2], Repo, matches)], Notices(true, false, false))
  {
    var r0, r2 := Record(Republished[0], Repo, matches), Record(Republished[2], Repo, matches);
    FoundByCommitScan(matches);
    PruneNothingOlder([r0, r2], 4);
    SortKeepsOrdered([r0, r2]);
  }

  lemma FoundByCommitScan(matches: (string, string) -> bool)
    ensures Scan(Republished, Marker("c4", 7), Switches(false, true), Repo, matches)
         == ScanState(Some(4), [Record(Republished[0], Repo, matches), Record(Republished[2], Repo, matches)], true, false)
  {
    var stream, m, c := Republished, Marker("c4", 7), Switches(false, true);
    var r0, r2 := Record(stream[0], Repo, matches), Record(stream[2], Repo, matches);
    assert stream[0].commit != m.lastReleaseCommit by { assert stream[0].commit[1] != m.lastReleaseCommit[1]; }
    assert stream[2].commit != m.lastReleaseCommit by { assert stream[2].commit[1] != m.lastReleaseCommit[1]; }
    ScanNext(stream, 0, m, c, Repo, matches);
    assert Judge(stream[0], None, m, true) == New;
    ScanNext(stream, 1, m, c, Repo, matches);
    assert Judge(stream[1], None, m, true) == SeenCommit;
    assert Scan(stream[..2], m, c, Repo, matches) == ScanState(Some(4), [r0], true, false);
    ScanNext(stream, 2, m, c, Repo, matches);
    assert Judge(stream[2], Some(4), m, true) == New;
    assert Scan(stream[..3], m, c, Repo, matches) == ScanState(Some(4), [r0, r2], true, false);
    assert Judge(stream[3], Some(4), m, true) == Older;
    ScanNext(stream, 3, m, c, Repo, matches);
    assert stream[..4] == stream;
  }

  /** A listing where the marked release (date 3) comes first and a newer
      release carries the marker's commit "c3". */
  const CommitLater := [Rel("v3", 3, "x"), Rel("v4", 4, "c3")]

  /** Once the boundary is set, the marker's commit no longer counts: the
      newer release with that commit is kept. */
  lemma CommitAfterBoundary(matches: (string, string) -> bool)
    ensures NewReleases(CommitLater, Marker("c3", 3), Switches(false, true), Repo, matches)
         == Diff([Record(CommitLater[1], Repo, matches)], Notices(false, false, false))
  {
    var stream, m, c := CommitLater, Marker("c3", 3), Switches(false, true);
    var r1 := Record(stream[1], Repo, matches);
    ScanNext(stream, 0, m, c, Repo, matches);
    assert Judge(stream[0], None, m, true) == SeenDate;
    ScanNext(stream, 1, m, c, Repo, matches);
    assert Judge(stream[1], Some(3), m, true) == New;
    assert stream[..2] == stream;
    assert Scan(stream, m, c, Repo, matches) == ScanState(Some(3), [r1], false, false);
    PruneNothingOlder([r1], 3);
    SortKeepsOrdered([r1]);
  }

  /** A listing where a release older than the marked one (date 3) comes
      before it. */
  const OlderFirst := [Rel("v1", 1, "c1"), Rel("v3", 3, "c3"), Rel("v5", 5, "c5")]

  /** The older release is kept by the scan, then dropped by the second
      pass, with its notice. */
  lemma OlderBeforeMarked(matches: (string, string) -> bool)
    ensures NewReleases(OlderFirst, Marker("c3", 3), Switches(false, false), Repo, matches)
         == Diff([Record(OlderFirst[2], Repo, matches)], Notices(false, true, false))
  {
    var r0, r2 := Record(OlderFirst[0], Repo, matches), Record(OlderFirst[2], Repo, matches);
    OlderBeforeMarkedScan(matches);
    OlderDropped(r0, r2);
    SortKeepsOrdered([r2]);
  }

  /** The second pass keeps only the release newer than the boundary 3. */
  lemma OlderDropped(r0: ReleaseData, r2: ReleaseData)
    requires r0.lastModified == 1 && r2.lastModified == 5
    ensures Kept(ScanState(Some(3), [r0, r2], false, false)) == [r2]
    ensures exists r :: r in [r0, r2] && r.lastModified < 3
  {
    assert Prune([r2], 3) == [r2] + Prune([], 3);
    assert Prune([r0, r2], 3) == Prune([r2], 3);
    assert r0 in [r0, r2];
  }

  lemma OlderBeforeMarkedScan(matches: (string, string) -> bool)
    ensures Scan(OlderFirst, Marker("c3", 3), Switches(false, false), Repo, matches)
         == ScanState(Some(3), [Record(OlderFirst[0], Repo, matches), Record(OlderFirst[2], Repo, matches)], false, false)
  {
    var stream, m, c := OlderFirst, Marker("c3", 3), Switches(false, false);
    var r0, r2 := Record(stream[0], Repo, matches), Record(stream[2], Repo, matches);
    ScanNext(stream, 0, m, c, Repo, matches);
    assert Judge(stream[0], None, m, false) == New;
    ScanNext(stream, 1, m, c, Repo, matches);
    assert Judge(stream[1], None, m, false) == SeenDate;
    ScanNext(stream, 2, m, c, Repo, matches);
    assert Judge(stream[2], Some(3), m, false) == New;
    assert stream[..3] == stream;
  }

  /** Two releases of the same date, never seen before. */
  const SameDate := [Rel("a", 5, "ca"), Rel("b", 5, "cb")]

  /** Releases of the same date keep their order in the listing. */
  lemma SameDateKeepsOrder(matches: (string, string) -> bool)
    ensures NewReleases(SameDate, NothingSeen, Switches(false, false), Repo, matches).releases
         == [Record(SameDate[0], Repo, matches), Record(SameDate[1], Repo, matches)]
  {
    var r0, r1 := Record(SameDate[0], Repo, matches), Record(SameDate[1], Repo, matches);
    MarkerNeverMet(SameDate, NothingSeen, Switches(false, false), Repo, matches);
    SameDateRecords(matches);
    SortKeepsOrdered([r0, r1]);
  }

  lemma SameDateRecords(matches: (string, string) -> bool)
    ensures Records(SameDate, Repo, matches) == [Record(SameDate[0], Repo, matches), Record(SameDate[1], Repo, matches)]
  {
    assert SameDate[..2][..1] == SameDate[..1];
  }
}
