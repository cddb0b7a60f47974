/**
 * The configuration file: which repositories to follow (grouped, each with
 * the patterns that pick its assets) and the switches of the comparison
 * against the last seen release. Each record is checked on construction and
 * imported from a parsed TOML table, failing with the first problem found.
 */
module Configuration {
  import opened Wrappers
  import opened Text
  import opened TomlValidation

  // ---------------------------------------------------------------------
  // Repositories

  /** A followed repository and the source text of its asset patterns. */
  datatype RepoSpec = RepoSpec(author: string, name: string, matchers: seq<string>)

  /** What construction of a `RepoSpec` demands. */
  predicate ValidRepoSpec(spec: RepoSpec) {
    '/' !in spec.author && '/' !in spec.name && |spec.matchers| >= 1
  }

  /** The checks made when a `RepoSpec` is constructed, in their order. */
  function NewRepoSpec(author: string, name: string, matchers: seq<string>): (r: Outcome<RepoSpec>)
    ensures r.Success? <==> ValidRepoSpec(RepoSpec(author, name, matchers))
    ensures r.Success? ==> r.value == RepoSpec(author, name, matchers)
  {
    if '/' in author then Failure(Invalid(AuthorHasSlash))
    else if '/' in name then Failure(Invalid(NameHasSlash))
    else if matchers == [] then Failure(Invalid(NoMatcher))
    else Success(RepoSpec(author, name, matchers))
  }

  /** The identifier `author/name`. */
  function Id(spec: RepoSpec): (s: string)
    ensures |s| == |spec.author| + 1 + |spec.name|
    ensures spec.author <= s && s[|spec.author|] == '/'
  {
    spec.author + "/" + spec.name
  }

  /** The identifier of a valid specification determines its author and name. */
  lemma IdSplits(spec: RepoSpec)
    requires ValidRepoSpec(spec)
    ensures Split(Id(spec), '/') == [spec.author, spec.name]
  {
    SplitPair(spec.author, spec.name, '/');
  }

  /** Valid specifications with the same identifier follow the same repository. */
  lemma IdInjective(a: RepoSpec, b: RepoSpec)
    requires ValidRepoSpec(a) && ValidRepoSpec(b)
    requires Id(a) == Id(b)
    ensures a.author == b.author && a.name == b.name
  {
    IdSplits(a);
    IdSplits(b);
  }

  const RepoPath := "group.X.repos[N]"
  const MatcherPath := "group.X.repos[N].matchers[N]"
  const OptionalList := Union([Class(List), Class(NoneType)])

  /** The patterns to check: the configured list, or the catch-all `.+` when
      the key is absent or the list is empty. */
  function PatternsOrDefault(listed: Value): (ps: seq<Value>)
    ensures |ps| >= 1
    ensures listed.VArray? && listed.items != [] ==> ps == listed.items
    ensures !(listed.VArray? && listed.items != []) ==> ps == [VStr(".+")]
  {
    if listed.VArray? && listed.items != [] then listed.items else [VStr(".+")]
  }

  /** The check of one pattern: it must be a string. */
  function CheckPattern(x: Value): (r: Outcome<Value>)
    ensures r.Success? <==> x.VStr?
    ensures r.Failure? ==> r.error == Mismatch(At(MatcherPath), Class(Str))
  {
    ExactInstances(x);
    TomlCheck(x, Class(Str), At(MatcherPath))
  }

  /** The text of each of a sequence of strings. */
  function Texts(vs: seq<Value>): (ts: seq<string>)
    requires forall i :: 0 <= i < |vs| ==> vs[i].VStr?
    ensures |ts| == |vs|
    ensures forall i :: 0 <= i < |vs| ==> vs[i] == VStr(ts[i])
  {
    if vs == [] then []
    else
      assert forall i :: 1 <= i < |vs| ==> vs[i] == vs[1..][i - 1];
      [vs[0].s] + Texts(vs[1..])
  }

  /** Imports one entry of a group's `repos` list: a table with an `id` of
      the form `author/name` and an optional list of pattern strings. */
  function ImportRepoSpec(value: Value): (r: Outcome<RepoSpec>)
    ensures r.Success? ==> ValidRepoSpec(r.value)
    ensures r.Success? ==> value.VTable? && Get(value.entries, "id") == VStr(Id(r.value))
  {
    var table :- TomlCheck(value, Class(Dict), At(RepoPath));
    RepoFromTable(table.entries)
  }

  /** The import of a table: its `id` must be a string. */
  function RepoFromTable(entries: seq<(string, Value)>): (r: Outcome<RepoSpec>)
    ensures r.Success? ==> ValidRepoSpec(r.value) && Get(entries, "id") == VStr(Id(r.value))
  {
    var id :- TomlCheckGet(entries, "id", Class(Str), RepoPath);
    RepoWithId(entries, id.s)
  }

  /** The rest of the import once the `id` string is read: it must split
      into author and name, then the patterns are read. */
  function RepoWithId(entries: seq<(string, Value)>, id: string): (r: Outcome<RepoSpec>)
    ensures r.Success? ==> ValidRepoSpec(r.value) && Id(r.value) == id
  {
    var parts := Split(id, '/');
    if |parts| != 2 then
      Failure(Invalid(IdNotAuthorName))
    else
      var listed :- TomlCheckGet(entries, "matchers", OptionalList, RepoPath);
      var patterns :- TomlCheckSeq(PatternsOrDefault(listed), CheckPattern);
      SplitInTwo(id, '/');
      NewRepoSpec(parts[0], parts[1], Texts(patterns))
  }

  /** When the entry is accepted, its patterns are the configured strings,
      or the single catch-all `.+` when none are configured. */
  lemma ImportedMatchers(value: Value)
    requires ImportRepoSpec(value).Success?
    ensures var listed := Get(value.entries, "matchers");
      && (listed == VNone || listed == VArray([]) ==> ImportRepoSpec(value).value.matchers == [".+"])
      && (listed.VArray? && listed.items != [] ==>
            |listed.items| == |ImportRepoSpec(value).value.matchers| &&
            forall i :: 0 <= i < |listed.items| ==> listed.items[i] == VStr(ImportRepoSpec(value).value.matchers[i]))
  {
  }

  /** An entry of `repos` that is not a table is rejected first. */
  lemma ImportRepoSpecNotTable(value: Value)
    requires !value.VTable?
    ensures ImportRepoSpec(value) == Failure(Mismatch(At(RepoPath), Class(Dict)))
  {
  }

  /** A table whose `id` is not a string (or is missing) is rejected next. */
  lemma ImportRepoSpecIdNotString(value: Value)
    requires value.VTable? && !Get(value.entries, "id").VStr?
    ensures ImportRepoSpec(value) == Failure(Mismatch(Under(RepoPath, "id"), Class(Str)))
  {
    assert !IsInstance(Get(value.entries, "id"), Class(Str));
  }

  /** An `id` string with other than exactly one `/` is rejected before the
      patterns are looked at. */
  lemma ImportRepoSpecIdMalformed(value: Value)
    requires value.VTable? && Get(value.entries, "id").VStr?
    requires Occurrences(Get(value.entries, "id").s, '/') != 1
    ensures ImportRepoSpec(value) == Failure(Invalid(IdNotAuthorName))
  {
    SplitCount(Get(value.entries, "id").s, '/');
  }

  /** An entry with a well-formed `id` is then rejected when `matchers` is
      neither a list nor absent. */
  lemma ImportRepoSpecMatchersError(value: Value)
    requires value.VTable? && Get(value.entries, "id").VStr?
    requires Occurrences(Get(value.entries, "id").s, '/') == 1
    requires !IsInstance(Get(value.entries, "matchers"), OptionalList)
    ensures ImportRepoSpec(value) == Failure(Mismatch(Under(RepoPath, "matchers"), OptionalList))
  {
    SplitCount(Get(value.entries, "id").s, '/');
    var e := Mismatch(Under(RepoPath, "matchers"), OptionalList);
    assert TomlCheckGet(value.entries, "matchers", OptionalList, RepoPath) == Failure(e);
    assert RepoWithId(value.entries, Get(value.entries, "id").s) == Failure(e);
  }

  /** An entry with a well-formed `id` and a list of patterns is rejected
      when one of the patterns is not a string. */
  lemma ImportRepoSpecPatternError(value: Value, i: nat)
    requires value.VTable? && Get(value.entries, "id").VStr?
    requires Occurrences(Get(value.entries, "id").s, '/') == 1
    requires Get(value.entries, "matchers").VArray?
    requires i < |Get(value.entries, "matchers").items| && !Get(value.entries, "matchers").items[i].VStr?
    ensures ImportRepoSpec(value) == Failure(Mismatch(At(MatcherPath), Class(Str)))
  {
    SplitCount(Get(value.entries, "id").s, '/');
    var listed := Get(value.entries, "matchers");
    var e := Mismatch(At(MatcherPath), Class(Str));
    assert IsInstance(listed, OptionalList.args[0]);
    assert TomlCheckGet(value.entries, "matchers", OptionalList, RepoPath) == Success(listed);
    assert PatternsOrDefault(listed) == listed.items;
    TomlCheckSeqFailure(listed.items, CheckPattern);
    assert RepoWithId(value.entries, Get(value.entries, "id").s) == Failure(e);
  }

  /** An entry passing every check is accepted: the construction checks
      never reject what the import lets through. */
  lemma ImportRepoSpecAccepted(value: Value)
    requires value.VTable? && Get(value.entries, "id").VStr?
    requires Occurrences(Get(value.entries, "id").s, '/') == 1
    requires IsInstance(Get(value.entries, "matchers"), OptionalList)
    requires forall i :: 0 <= i < |PatternsOrDefault(Get(value.entries, "matchers"))| ==>
               PatternsOrDefault(Get(value.entries, "matchers"))[i].VStr?
    ensures ImportRepoSpec(value).Success?
  {
    SplitCount(Get(value.entries, "id").s, '/');
    SplitInTwo(Get(value.entries, "id").s, '/');
  }

  // ---------------------------------------------------------------------
  // Groups

  /** A named group of repositories, downloaded under one folder. */
  datatype GroupSpec = GroupSpec(id: string, folder: string, repos: seq<RepoSpec>)

  /** The check made when a `GroupSpec` is constructed: the id, which is the
      group's key in the file, must not contain whitespace. */
  function NewGroupSpec(id: string, folder: string, repos: seq<RepoSpec>): (r: Outcome<GroupSpec>)
    ensures r.Success? <==> !HasSpace(id)
    ensures r.Success? ==> r.value == GroupSpec(id, folder, repos)
    ensures r.Failure? ==> r.error == Invalid(GroupIdHasSpace)
  {
    if HasSpace(id) then Failure(Invalid(GroupIdHasSpace))
    else Success(GroupSpec(id, folder, repos))
  }

  const GroupPath := "group.X"

  /** Imports the table of one group: a `folder` string and a `repos` list,
      each entry imported in order, then the group is constructed under its key. */
  function ImportGroupSpec(key: string, entries: seq<(string, Value)>): (r: Outcome<GroupSpec>)
    ensures r.Success? ==> r.value.id == key
  {
    var folder := TomlCheckGet(entries, "folder", Class(Str), GroupPath);
    if folder.Failure? then Failure(folder.error) else
    var repos := TomlCheckGet(entries, "repos", Class(List), GroupPath);
    if repos.Failure? then Failure(repos.error) else
    var specs := Collect(repos.value.items, ImportRepoSpec);
    if specs.Failure? then Failure(specs.error) else
    NewGroupSpec(key, folder.value.s, specs.value)
  }

  /** A group imports exactly when its `folder` is a string, its `repos` a
      list whose every entry imports, and its key is free of whitespace. */
  lemma ImportGroupSpecAccepted(key: string, entries: seq<(string, Value)>)
    ensures ImportGroupSpec(key, entries).Success? <==>
      && Get(entries, "folder").VStr? && Get(entries, "repos").VArray?
      && (forall i :: 0 <= i < |Get(entries, "repos").items| ==> ImportRepoSpec(Get(entries, "repos").items[i]).Success?)
      && !HasSpace(key)
  {
    ExactInstances(Get(entries, "folder"));
    ExactInstances(Get(entries, "repos"));
    if Get(entries, "repos").VArray? {
      CollectElements(Get(entries, "repos").items, ImportRepoSpec);
    }
  }

  /** An imported group has the configured folder. */
  lemma ImportedGroupFolder(key: string, entries: seq<(string, Value)>)
    requires ImportGroupSpec(key, entries).Success?
    ensures Get(entries, "folder") == VStr(ImportGroupSpec(key, entries).value.folder)
  {
  }

  /** An imported group holds, position by position, the repositories its
      entries import to. */
  lemma ImportedGroupRepos(key: string, entries: seq<(string, Value)>)
    requires ImportGroupSpec(key, entries).Success?
    ensures Get(entries, "repos").VArray?
    ensures |ImportGroupSpec(key, entries).value.repos| == |Get(entries, "repos").items|
    ensures forall i :: 0 <= i < |Get(entries, "repos").items| ==>
      ImportRepoSpec(Get(entries, "repos").items[i]) == Success(ImportGroupSpec(key, entries).value.repos[i])
  {
    ExactInstances(Get(entries, "repos"));
    CollectElements(Get(entries, "repos").items, ImportRepoSpec);
  }

  /** Every repository of an imported group is valid. */
  lemma ImportedGroupValid(key: string, entries: seq<(string, Value)>)
    requires ImportGroupSpec(key, entries).Success?
    ensures forall i :: 0 <= i < |ImportGroupSpec(key, entries).value.repos| ==>
      ValidRepoSpec(ImportGroupSpec(key, entries).value.repos[i])
  {
    ImportedGroupRepos(key, entries);
  }

  /** One entry of the `group` table, a key and its value, which must be a
      table. */
  function GroupEntry(entry: (string, Value)): (r: Outcome<GroupSpec>)
    ensures r.Success? ==> entry.1.VTable? && ImportGroupSpec(entry.0, entry.1.entries) == r
    ensures !entry.1.VTable? ==> r == Failure(Mismatch(At(GroupPath), Class(Dict)))
  {
    var table :- TomlCheck(entry.1, Class(Dict), At(GroupPath));
    ImportGroupSpec(entry.0, table.entries)
  }

  /** `GroupSpec.import_toml_many`: each entry checked to be a table and
      imported, in the order of the table, stopping at the first failure. */
  method ImportGroupSpecs(data: seq<(string, Value)>) returns (r: Outcome<seq<GroupSpec>>)
    ensures r == Collect(data, GroupEntry)
  {
    var result: seq<GroupSpec> := [];
    for i := 0 to |data|
      invariant |result| == i
      invariant forall j :: 0 <= j < i ==> GroupEntry(data[j]) == Success(result[j])
    {
      var (key, value) := data[i];
      var table := TomlCheck(value, Class(Dict), At(GroupPath));
      if table.Failure? {
        CollectFailsAt(data, GroupEntry, i);
        return Failure(table.error);
      }
      var group := ImportGroupSpec(key, table.value.entries);
      if group.Failure? {
        CollectFailsAt(data, GroupEntry, i);
        return Failure(group.error);
      }
      result := result + [group.value];
    }
    CollectAll(data, GroupEntry, result);
    return Success(result);
  }

  // ---------------------------------------------------------------------
  // The whole file

  /** The settings read from the configuration file. `downloadsRoot` is the
      configured text, before it is resolved against the program's folder. */
  datatype Config = Config(
    assumeReleasesDecreasing: bool,
    compareCommits: bool,
    apiToken: string,
    downloadsRoot: string,
    groups: seq<GroupSpec>)

  const OptionalBool := Union([Class(Bool), Class(NoneType)])
  const OptionalStr := Union([Class(Str), Class(NoneType)])

  /** A top-level boolean switch: a boolean or absent, and the default when
      absent, so that only the opposite of the default changes it. */
  function Switch(root: seq<(string, Value)>, key: string, default: bool): (r: Outcome<bool>)
    ensures r.Success? <==> Get(root, key).VBool? || Get(root, key) == VNone
    ensures r.Success? ==> r.value == if Get(root, key) == VBool(!default) then !default else default
    ensures r.Failure? ==> r.error == Mismatch(Under("", key), OptionalBool)
  {
    OptionalInstance(Get(root, key), Bool);
    var v :- TomlCheckGet(root, key, OptionalBool, "");
    Success(if v.VBool? then v.b else default)
  }

  /** An optional top-level string: its text, or the empty text when absent
      (an empty string and an absent key are alike). */
  function OptionalText(root: seq<(string, Value)>, key: string): (r: Outcome<string>)
    ensures r.Success? <==> Get(root, key).VStr? || Get(root, key) == VNone
    ensures r.Success? ==> Get(root, key) == VStr(r.value) || (Get(root, key) == VNone && r.value == "")
    ensures r.Failure? ==> r.error == Mismatch(Under("", key), OptionalStr)
  {
    OptionalInstance(Get(root, key), Str);
    var v :- TomlCheckGet(root, key, OptionalStr, "");
    Success(if v.VStr? then v.s else "")
  }

  /** `Config.import_toml`: each key checked in turn, in the order of the
      fields; "assume decreasing" defaults to on and "compare commits" to off. */
  function ImportConfig(root: seq<(string, Value)>): (r: Outcome<Config>)
    ensures r.Success? ==> (r.value.assumeReleasesDecreasing <==> Get(root, "assume_releases_decreasing") != VBool(false))
    ensures r.Success? ==> (r.value.compareCommits <==> Get(root, "compare_commits") == VBool(true))
    ensures r.Success? ==> Get(root, "api_token") == VStr(r.value.apiToken)
    ensures r.Success? ==>
      (Get(root, "downloads_root") == VStr(r.value.downloadsRoot) ||
       (Get(root, "downloads_root") == VNone && r.value.downloadsRoot == ""))
  {
    var decreasing :- Switch(root, "assume_releases_decreasing", true);
    var compare :- Switch(root, "compare_commits", false);
    var token :- TomlCheckGet(root, "api_token", Class(Str), "");
    ExactInstances(token);
    var downloadsRoot :- OptionalText(root, "downloads_root");
    var groupData :- TomlCheckGet(root, "group", Class(Dict), "");
    ExactInstances(groupData);
    var groups :- Collect(groupData.entries, GroupEntry);
    Success(Config(decreasing, compare, token.s, downloadsRoot, groups))
  }

  /** The file imports exactly when each key has its type and every group
      imports. */
  lemma ImportConfigAccepted(root: seq<(string, Value)>)
    ensures ImportConfig(root).Success? <==>
      && (Get(root, "assume_releases_decreasing").VBool? || Get(root, "assume_releases_decreasing") == VNone)
      && (Get(root, "compare_commits").VBool? || Get(root, "compare_commits") == VNone)
      && Get(root, "api_token").VStr?
      && (Get(root, "downloads_root").VStr? || Get(root, "downloads_root") == VNone)
      && Get(root, "group").VTable?
      && forall i :: 0 <= i < |Get(root, "group").entries| ==> GroupEntry(Get(root, "group").entries[i]).Success?
  {
    ExactInstances(Get(root, "api_token"));
    ExactInstances(Get(root, "group"));
    if Get(root, "group").VTable? {
      CollectElements(Get(root, "group").entries, GroupEntry);
    }
  }

  /** The groups are those of the `group` table, position by position. */
  lemma ImportedGroups(root: seq<(string, Value)>)
    ensures ImportConfig(root).Success? ==>
      && Get(root, "group").VTable?
      && |ImportConfig(root).value.groups| == |Get(root, "group").entries|
      && forall i :: 0 <= i < |Get(root, "group").entries| ==>
           GroupEntry(Get(root, "group").entries[i]) == Success(ImportConfig(root).value.groups[i])
  {
    if ImportConfig(root).Success? {
      ExactInstances(Get(root, "group"));
      CollectElements(Get(root, "group").entries, GroupEntry);
    }
  }

  /** A malformed "assume decreasing" switch is the first error reported,
      whatever else is wrong. */
  lemma ImportConfigFirstError(root: seq<(string, Value)>)
    requires !Get(root, "assume_releases_decreasing").VBool? && Get(root, "assume_releases_decreasing") != VNone
    ensures ImportConfig(root) == Failure(Mismatch(Under("", "assume_releases_decreasing"), OptionalBool))
  {
  }

  // ---------------------------------------------------------------------
  // Menu answers

  /** `range(start, stop)`: the integers from `start` up to, not including, `stop`. */
  datatype IntRange = IntRange(start: int, stop: int)

  /** `maybe_int`: the integer a text denotes, if it denotes one and that one
      lies in the range when a range is given. `parse` stands for `int()`,
      giving `None` where it raises. */
  function MaybeInt(x: string, range: Option<IntRange>, parse: string -> Option<int>): (r: Option<int>)
    ensures r.Some? ==> parse(x) == Some(r.value)
    ensures r.Some? && range.Some? ==> range.value.start <= r.value < range.value.stop
    ensures r.None? ==> parse(x).None? || (range.Some? && !(range.value.start <= parse(x).value < range.value.stop))
  {
    match parse(x)
    case None => None
    case Some(n) =>
      if range.Some? && !(range.value.start <= n < range.value.stop) then None else Some(n)
  }
}
