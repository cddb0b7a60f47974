/**
 * The cache of seen releases: for each repository, by its identifier, the
 * commit and the date of the last release the user marked. It is checked
 * when it is connected (read from its parsed TOML table), looked up with a
 * default for repositories never seen, and overwritten one repository at a
 * time.
 */
module SeenCache {
  import opened Wrappers
  import opened TomlValidation
  import opened ReleaseOrder

  /** `CacheRepo`: the last release seen of one repository. */
  datatype Marker = Marker(lastReleaseCommit: string, lastReleaseDate: nat)

  /** What a repository never seen reads as: no commit, and the least date
      (0001-01-01), which every release is newer than. */
  const NothingSeen := Marker("", 0)

  const EntryPath := "repos[N]"

  /** The checks of one entry of the `repos` table, in their order: a table
      with a string `last_release_commit` and a datetime `last_release_date`. */
  function CheckEntry(entry: (string, Value)): (r: Outcome<Marker>)
    ensures r.Success? ==> entry.1.VTable?
    ensures r.Success? ==> Get(entry.1.entries, "last_release_commit") == VStr(r.value.lastReleaseCommit)
    ensures r.Success? ==> Get(entry.1.entries, "last_release_date") == VDateTime(r.value.lastReleaseDate)
  {
    var table :- TomlCheck(entry.1, Class(Dict), At(EntryPath));
    var commit :- TomlCheckGet(table.entries, "last_release_commit", Class(Str), EntryPath);
    var date :- TomlCheckGet(table.entries, "last_release_date", Class(DateTime), EntryPath);
    Success(Marker(commit.s, date.instant))
  }

  /** An entry passes its checks exactly when it has the two keys with
      their types. */
  lemma CheckEntryAccepted(entry: (string, Value))
    ensures CheckEntry(entry).Success? <==>
      && entry.1.VTable?
      && Get(entry.1.entries, "last_release_commit").VStr?
      && Get(entry.1.entries, "last_release_date").VDateTime?
  {
    ExactInstances(entry.1);
    if entry.1.VTable? {
      ExactInstances(Get(entry.1.entries, "last_release_commit"));
      ExactInstances(Get(entry.1.entries, "last_release_date"));
    }
  }

  /** The three checks of one entry in the loop of `connect_cache`, as the
      loop performs them one after the other; `CheckEntry` is the same
      checks as one expression and serves as this method's specification. */
  method CheckRepoEntry(entry: (string, Value)) returns (r: Outcome<()>)
    ensures r.Success? <==> CheckEntry(entry).Success?
    ensures r.Failure? ==> r.error == CheckEntry(entry).error
  {
    var table := TomlCheck(entry.1, Class(Dict), At(EntryPath));
    if table.Failure? {
      return Failure(table.error);
    }
    var commit := TomlCheckGet(table.value.entries, "last_release_commit", Class(Str), EntryPath);
    if commit.Failure? {
      return Failure(commit.error);
    }
    var date := TomlCheckGet(table.value.entries, "last_release_date", Class(DateTime), EntryPath);
    if date.Failure? {
      return Failure(date.error);
    }
    return Success(());
  }

  /** The loop of `connect_cache` over the entries of `repos`: stops at the
      first entry that fails its checks. */
  method CheckRepoEntries(entries: seq<(string, Value)>) returns (r: Outcome<()>)
    ensures r.Success? <==> Collect(entries, CheckEntry).Success?
    ensures r.Failure? ==> r.error == Collect(entries, CheckEntry).error
  {
    for i := 0 to |entries|
      invariant forall j :: 0 <= j < i ==> CheckEntry(entries[j]).Success?
    {
      var checked := CheckRepoEntry(entries[i]);
      if checked.Failure? {
        CollectFailsAt(entries, CheckEntry, i);
        return Failure(checked.error);
      }
      assert CheckEntry(entries[i]).Success?;
    }
    CollectElements(entries, CheckEntry);
    return Success(());
  }

  /** The markers of checked entries, by repository; the first entry of a
      key is the one that counts, as with `Get`. */
  function Markers(entries: seq<(string, Value)>): (m: map<string, Marker>)
    requires forall i :: 0 <= i < |entries| ==> CheckEntry(entries[i]).Success?
    ensures entries == [] ==> m == map[]
    ensures entries != [] ==> entries[0].0 in m && m[entries[0].0] == CheckEntry(entries[0]).value
  {
    if entries == [] then map[]
    else Markers(entries[1..])[entries[0].0 := CheckEntry(entries[0]).value]
  }

  /** A repository has a marker exactly when it has an entry, and the marker
      is what its entry holds. */
  lemma {:induction false} MarkersLookup(entries: seq<(string, Value)>, id: string)
    requires forall i :: 0 <= i < |entries| ==> CheckEntry(entries[i]).Success?
    ensures id in Markers(entries) <==> Get(entries, id) != VNone
    ensures id in Markers(entries) ==> CheckEntry((id, Get(entries, id))) == Success(Markers(entries)[id])
  {
    if entries != [] {
      MarkersLookup(entries[1..], id);
    }
  }

  /** The contents of a connected cache: an empty file stands for an empty
      `repos` table; otherwise `repos` must be a table whose every entry
      passes its checks. */
  function ValidateCache(root: seq<(string, Value)>): (r: Outcome<map<string, Marker>>)
    ensures root == [] ==> r == Success(map[])
    ensures r.Success? ==> root == [] || Get(root, "repos").VTable?
  {
    var data := if root == [] then [("repos", VTable([]))] else root;
    var repos :- TomlCheckGet(data, "repos", Class(Dict), "");
    var checked :- Collect(repos.entries, CheckEntry);
    CollectElements(repos.entries, CheckEntry);
    Success(Markers(repos.entries))
  }

  /** A cache file is accepted exactly when it is empty or its `repos` is a
      table of well-formed entries. */
  lemma ValidateCacheAccepted(root: seq<(string, Value)>)
    ensures ValidateCache(root).Success? <==>
      root == [] ||
      (Get(root, "repos").VTable? &&
       forall i :: 0 <= i < |Get(root, "repos").entries| ==> CheckEntry(Get(root, "repos").entries[i]).Success?)
  {
    ExactInstances(Get(root, "repos"));
    if root != [] && Get(root, "repos").VTable? {
      CollectElements(Get(root, "repos").entries, CheckEntry);
    }
  }

  /** An empty cache file holds no markers. */
  lemma EmptyCacheFile()
    ensures ValidateCache([]) == Success(map[])
  {
    assert Get([("repos", VTable([]))], "repos") == VTable([]);
  }

  /** A file whose first wrong entry is at position `k` is refused with
      that entry's error. */
  lemma ValidateCacheFailsAt(root: seq<(string, Value)>, k: nat)
    requires root != [] && Get(root, "repos").VTable?
    requires k < |Get(root, "repos").entries| && CheckEntry(Get(root, "repos").entries[k]).Failure?
    requires forall j :: 0 <= j < k ==> CheckEntry(Get(root, "repos").entries[j]).Success?
    ensures ValidateCache(root) == Failure(CheckEntry(Get(root, "repos").entries[k]).error)
  {
    CollectFailsAt(Get(root, "repos").entries, CheckEntry, k);
  }

  /** `get_cached` on the repositories of a loaded cache: the stored
      marker, or `NothingSeen` when there is none. */
  function Lookup(repos: map<string, Marker>, id: string): (m: Marker)
    ensures id !in repos ==> m == NothingSeen
    ensures m == NothingSeen || m in repos.Values
  {
    if id in repos then repos[id] else NothingSeen
  }

  /** After a repository's marker is overwritten, it reads as the new
      marker, and every other repository reads as before. */
  lemma LookupAfterUpdate(repos: map<string, Marker>, id: string, m: Marker, other: string)
    ensures Lookup(repos[id := m], id) == m
    ensures other != id ==> Lookup(repos[id := m], other) == Lookup(repos, other)
  {
  }

  /** `Settings`, with its cache of seen releases; `None` until the cache
      is connected. */
  class Settings {
    var cache: Option<map<string, Marker>>

    constructor ()
      ensures cache == None
    {
      cache := None;
    }

    /** `get_cached`: fails when the cache was not loaded. */
    function GetCached(id: string): (r: Outcome<Marker>)
      reads this
      ensures cache.None? ==> r == Failure(Invalid(CacheNotLoaded))
      ensures cache.Some? && id in cache.value ==> r == Success(cache.value[id])
      ensures cache.Some? && id !in cache.value ==> r == Success(NothingSeen)
    {
      if cache.None? then Failure(Invalid(CacheNotLoaded)) else Success(Lookup(cache.value, id))
    }

    /** `update_cache`: the release's repository now has the release's
        commit and date as its marker; nothing else changes. Fails, changing
        nothing, when the cache was not loaded. */
    method UpdateCache(rel: ReleaseData) returns (r: Outcome<()>)
      modifies this
      ensures old(cache).None? ==> r == Failure(Invalid(CacheNotLoaded)) && cache == old(cache)
      ensures old(cache).Some? ==> r.Success?
      ensures old(cache).Some? ==> cache == Some(old(cache).value[rel.repoId := Marker(rel.commit, rel.lastModified)])
      ensures old(cache).Some? ==> GetCached(rel.repoId) == Success(Marker(rel.commit, rel.lastModified))
      ensures forall other :: other != rel.repoId ==> GetCached(other) == old(GetCached(other))
    {
      if cache.None? {
        return Failure(Invalid(CacheNotLoaded));
      }
      cache := Some(cache.value[rel.repoId := Marker(rel.commit, rel.lastModified)]);
      return Success(());
    }

    /** The checks of `connect_cache` on the parsed file, entry by entry in
        the order of the table; the cache is set only when all pass. */
    method ConnectCache(root: seq<(string, Value)>) returns (r: Outcome<()>)
      modifies this
      ensures ValidateCache(root).Success? ==> r.Success? && cache == Some(ValidateCache(root).value)
      ensures ValidateCache(root).Failure? ==> r == Failure(ValidateCache(root).error) && cache == old(cache)
    {
      var data := root;
      if data == [] {
        data := [("repos", VTable([]))];
      }
      var repos := TomlCheckGet(data, "repos", Class(Dict), "");
      if repos.Failure? {
        return Failure(repos.error);
      }
      var entries := repos.value.entries;
      var checked := CheckRepoEntries(entries);
      if checked.Failure? {
        return Failure(checked.error);
      }
      CollectElements(entries, CheckEntry);
      cache := Some(Markers(entries));
      return Success(());
    }
  }
}
