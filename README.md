# github_releases_dl, modelled in Dafny

`github_releases_dl` follows GitHub repositories, grouped in a TOML
configuration file, and downloads the assets of their new releases. For each
repository, a TOML cache file remembers the last release the user marked as
seen: its commit and its date. This project models the core of that program
and proves properties of the model:

- **Finding the new releases of a repository** (`Work.releases`). The scan
  walks the release listing in the order GitHub gives it and decides, release
  by release, one of four things:
  - it is older than a boundary date already found;
  - it has the marker's date;
  - it has the marker's commit, when commits are compared;
  - it is new, and its assets are sorted into one bucket per pattern.

  With `assume_releases_decreasing`, the scan stops at the first marked
  release (an older release can only follow a boundary, and the scan has
  already stopped there). A second pass then drops the kept releases that are older
  than the boundary. The result is sorted newest first by a stable sort. The
  three notices the program prints are modelled as flags:
  - the commit matched but the date did not;
  - there was a second pass;
  - the last release date was not found.
- **The cache of seen releases** (`Settings`): `connect_cache`, which checks
  the parsed file, plus `get_cached` and `update_cache`. `Settings` is a class
  whose `cache` field the methods update, and `None` until the cache is
  connected.
- **Importing the configuration** (`Config.import_toml`, `GroupSpec`,
  `RepoSpec`), with the construction checks of `GroupSpec` and `RepoSpec`.
  Every check happens in the order of the source, so the model raises the
  same first error.
- **The TOML type checks** of `_toml_validation.py`, including the name
  each type gets in an error message and the module's own tests.
- **`maybe_int`.**

Exceptions are modelled as values of `TomlValidation.Error`:
- a failed type check, with its path and type;
- `NotImplementedError` for a type without a TOML name;
- the program's fixed-text `ValueError`s.

Every fallible operation returns a `Result`. `TomlValidation.Message`
renders the text of each exception.

Modules, in dependency order:

- `Wrappers`: `Option`, `Result`, and `Collect` for "each item in order,
  stop at the first exception".
- `Text`: `str.split`, `str.join` and `\s`.
- `TomlValidation`: TOML values, Python classes, `toml_check`,
  `toml_check_get`, `toml_check_seq` and the messages.
- `Configuration`: `RepoSpec`, `GroupSpec`, `Config` and `maybe_int`.
- `Assets`: the bucketing of a release's assets by pattern.
- `ReleaseOrder`: releases, the second-pass pruning, the stable newest-first
  sort, and subsequences.
- `SeenCache`: cache markers and the `Settings` class.
- `ReleaseDiff`: the scan as a state machine (`Step` and `Scan`) and its
  specification `NewReleases`. It also holds the imperative `Releases`
  method, which is proved equal to the specification, and the properties of
  the result.
- `DiffScenarios`: listings written out in full, with the exact result for
  each.

Dates are natural numbers. The cache's default date `0001-01-01` is `0`,
which every release's date is at least.

Where the program's description and its code differ, this model follows the
code:
- The result is newest first, but not strictly decreasing: new releases
  may share a date, and the stable sort keeps them in listing order
  (`DiffScenarios.SameDateKeepsOrder`). Without commit comparison, a
  release dated at the boundary itself is never kept: the boundary is then
  the marker's date (`ReleaseDiff.BoundaryIsMarkerDate`), and no release of
  that date is kept (`ReleaseDiff.FoundOmitsMarkerDate`). When the boundary
  comes from a commit match, it is that release's date, and other releases
  of the same date survive the second pass.
- When the marked release is never met, nothing is pruned. Every release of
  the listing is returned, however old.

## Model

| member | source | states |
|---|---|---|
| `ReleaseDiff.Releases` | github_releases_dl.py:260-326 | Repository not found raises `repo is not found: <id>`. A cache that was not loaded raises next. Otherwise the result is exactly `NewReleases` of the listing, given the repository's cached marker. |
| `ReleaseDiff.ScanListing` | github_releases_dl.py:272-311 | The loop over the listing ends in the boundary, kept releases and commit notice of `Scan`. This holds whether the loop breaks or runs to the end. |
| `ReleaseDiff.Visit` | github_releases_dl.py:277-311 | One pass of the loop body does exactly what `Step` says: skip, record the boundary (with the notice for a commit match), stop, or append the release with its asset buckets. |
| `ReleaseDiff.ScanAfterStop` | github_releases_dl.py:280-297 | After a `break`, the rest of the listing changes nothing. |
| `ReleaseDiff.ScanNext` | github_releases_dl.py:274-311 | The scan of one more release is one more step. |
| `ReleaseDiff.Records` | github_releases_dl.py:305-311 | There is one record per release of the listing. |
| `ReleaseDiff.ScanBeforeMatch` | github_releases_dl.py:280-311 | Until a release with the marker's date (or commit) is met, every release is appended. No boundary or notice is set, and the scan does not stop. |
| `ReleaseDiff.BoundaryMeansMatch` | github_releases_dl.py:285-297 | The boundary is set exactly when some release of the listing has the marker's date, or the marker's commit with comparison on. |
| `ReleaseDiff.BoundaryIsMarkerDate` | github_releases_dl.py:285-290 | Without commit comparison, the boundary is the marker's date. |
| `ReleaseDiff.ScanStopsAtMatch` | github_releases_dl.py:282-296 | With `assume_releases_decreasing`, the scan stops at the first marked release. It keeps exactly the releases before it, the boundary is that release's date, and the notice is given exactly when its date differs from the marker's. |
| `ReleaseDiff.FoundOmitsMarkerDate` | github_releases_dl.py:285-290 | No kept release has the marker's date. |
| `ReleaseDiff.FoundInOrder` | github_releases_dl.py:305-311 | The kept releases are records of the listing, in listing order. |
| `ReleaseDiff.CommitNoticeMeans` | github_releases_dl.py:291-294 | The commit notice implies that commits are compared and that some release has the marker's commit but not its date. |
| `ReleaseDiff.ScanIgnoresCommits` | github_releases_dl.py:291 | Without commit comparison, the scan does not depend on the marker's commit. |
| `ReleaseDiff.NewReleasesOrdered` | github_releases_dl.py:324-326 | The result is newest first and is a permutation of the releases kept after pruning. |
| `ReleaseDiff.NewReleasesStable` | github_releases_dl.py:325 | Releases of one date keep their listing order. |
| `ReleaseDiff.KeptInOrder` | github_releases_dl.py:313-318 | What survives pruning is a subsequence of the listing's records. The result holds each record at most as often as the listing does. |
| `ReleaseDiff.NewReleasesAfterBoundary` | github_releases_dl.py:280-318 | No returned release has the marker's date. When a boundary was found, none is older than it. |
| `ReleaseDiff.NewReleasesNewerThanMarker` | github_releases_dl.py:280-318 | Without commit comparison, when the marker's date occurs in the listing, every returned release is strictly newer than the marker. |
| `ReleaseDiff.MarkerNeverMet` | github_releases_dl.py:313-326 | When no release is marked, the result is every release sorted. The only notice is "last release date not found", given when the listing is not empty. |
| `ReleaseDiff.NewReleasesBeforeMatch` | github_releases_dl.py:282-296 | With `assume_releases_decreasing`, only releases before the first marked one can be returned. The commit notice is given exactly when that release's date differs from the marker's. |
| `ReleaseDiff.SecondPassNotice` | github_releases_dl.py:313-320 | The second-pass notice is given exactly when pruning removes something. |
| `ReleaseDiff.LastNotFoundNotice` | github_releases_dl.py:321-322 | "Last release date not found" is given exactly when the listing is not empty and no release in it is marked. |
| `ReleaseDiff.NewReleasesIgnoreCommits` | github_releases_dl.py:291 | Without commit comparison, the result does not depend on the marker's commit. |
| `ReleaseDiff.NewReleases` | github_releases_dl.py:272-326 | The result is newest first and no longer than the listing. What it holds is stated by `NewReleasesOrdered`, `KeptInOrder`, `NewReleasesAfterBoundary` and `NewReleasesNewerThanMarker`. |
| `ReleaseDiff.Judge` | github_releases_dl.py:280-297 | Only a release after a boundary is older. A release taken as seen has the marker's date or commit, and by commit only when commits are compared and no boundary is set. A new release is not of the marker's date and not older than the boundary. |
| `ReleaseDiff.JudgeIgnoresCommitsAfterBoundary` | github_releases_dl.py:291-292 | Once a boundary is set, the commit comparison changes no verdict. |
| `ReleaseDiff.Step` | github_releases_dl.py:277-311 | A stopped scan stays as it is. A boundary, once set, stays set, and so does the commit notice. One step appends at most the release's record. Only `assume_releases_decreasing` stops the scan. |
| `ReleaseDiff.Scan` | github_releases_dl.py:274-311 | The scan keeps at most one record per release, and stops only under `assume_releases_decreasing`. |
| `ReleaseDiff.Record` | github_releases_dl.py:298-311 | A record has the release's date and commit, the repository's id, and one bucket for each listed pattern. |
| `ReleaseDiff.Kept` | github_releases_dl.py:313-318 | What the second pass keeps is among the kept releases, no more of them, and none older than the boundary. |
| `ReleaseDiff.Finish` | github_releases_dl.py:313-326 | The result is the pruned releases rearranged newest first, and the two notices never come together. |
| `ReleaseDiff.FirstMarked` | github_releases_dl.py:282-296 | The position of the first release with the marker's date or commit; no release before it is marked. |
| `ReleaseDiff.NewAreBeforeMarked` | github_releases_dl.py:282-318 | For a listing that is newest first, with `assume_releases_decreasing`, the result holds exactly the records of the releases before the first marked one. |
| `ReleaseDiff.HeadOfArrangement` | github_releases_dl.py:325 | Sorting newest first puts first a release of the latest date, when the unsorted releases start with it. |
| `ReleaseDiff.RecordsOfPrefix` | github_releases_dl.py:305-311 | The records of the start of a newest-first listing begin with the latest release, and all carry the repository's id. |
| `ReleaseDiff.NewestIsFirst` | github_releases_dl.py:282-326 | For a listing that is newest first, with `assume_releases_decreasing`, a non-empty result contains the listing's first release, and its first release has the listing's first date and the repository's id. |
| `ReleaseDiff.Idempotent` | github_releases_dl.py:272-326 | For such a listing, marking the first new release (its commit and date) and scanning the same listing again gives no new release. |
| `ReleaseDiff.IdempotentAfterUpdate` | github_releases_dl.py:489-497 | In the automatic mode, after `update_cache` stores the first new release as its repository's marker, the next run over the same listing gives nothing new. |
| `DiffScenarios.MarkedInMiddle` | github_releases_dl.py:280-326 | In an unsorted listing, the release after the marked one is kept if newer and skipped if older. |
| `DiffScenarios.MarkedInMiddleScan` | github_releases_dl.py:274-311 | The scan of that listing, release by release. |
| `DiffScenarios.MarkedInMiddleAssumed` | github_releases_dl.py:285-290 | With `assume_releases_decreasing`, the same listing stops at the marked release. |
| `DiffScenarios.MarkerMissing` | github_releases_dl.py:321-326 | Without the marked release, everything comes back newest first, with the "not found" notice. |
| `DiffScenarios.FoundByCommit` | github_releases_dl.py:291-297 | A re-published release is found by its commit, with the notice, and becomes the boundary. |
| `DiffScenarios.FoundByCommitScan` | github_releases_dl.py:274-311 | The scan of that listing, release by release. |
| `DiffScenarios.CommitAfterBoundary` | github_releases_dl.py:291-292 | Once the boundary is set, a later release with the marker's commit is kept. |
| `DiffScenarios.OlderBeforeMarked` | github_releases_dl.py:313-320 | A release older than the marked one but listed before it is dropped by the second pass, with its notice. |
| `DiffScenarios.SameDateKeepsOrder` | github_releases_dl.py:325 | Two new releases of one date keep their listing order. |
| `ReleaseOrder.PruneOlder` | github_releases_dl.py:313-320 | Deleting from the back leaves exactly the releases not older than the boundary, in order. `second_pass` is set exactly when some release is older. |
| `ReleaseOrder.PruneBack` | github_releases_dl.py:315-318 | Deleting at index `i` leaves the earlier indices untouched, so the loop's invariant carries over. |
| `ReleaseOrder.PruneMembers` | github_releases_dl.py:316-317 | A release survives exactly when it is not older than the boundary. |
| `ReleaseOrder.PruneNothingOlder` | github_releases_dl.py:316 | Nothing is deleted when nothing is older. |
| `ReleaseOrder.PruneShrinks` | github_releases_dl.py:316-318 | Pruning never lengthens the releases. It shortens them exactly when some release is older than the boundary. |
| `ReleaseOrder.PruneInOrder` | github_releases_dl.py:317 | Pruning keeps the remaining releases in order. |
| `ReleaseOrder.SortOrders` | github_releases_dl.py:325 | The sort leaves dates non-increasing. |
| `ReleaseOrder.SortPermutes` | github_releases_dl.py:325 | The sort is a permutation. |
| `ReleaseOrder.SortStable` | github_releases_dl.py:325 | The sort is stable: releases of one date keep their order. |
| `ReleaseOrder.SortKeepsOrdered` | github_releases_dl.py:325 | Releases already newest first are left as they are. |
| `ReleaseOrder.InsertPermutes` | github_releases_dl.py:325 | One insertion adds exactly the inserted release. |
| `ReleaseOrder.InsertOrders` | github_releases_dl.py:325 | Insertion keeps releases newest first. |
| `ReleaseOrder.InsertDatedAt` | github_releases_dl.py:325 | Insertion puts a release before the releases of its own date. |
| `ReleaseOrder.Prune` | github_releases_dl.py:313-318 | The second pass keeps only releases of the input, none older than the boundary, and never more of them. `PruneOlder` and `PruneMembers` state exactly which. |
| `ReleaseOrder.SortNewestFirst` | github_releases_dl.py:325 | The sort keeps the length. `SortOrders`, `SortPermutes` and `SortStable` state its order, contents and stability. |
| `ReleaseOrder.Insert` | github_releases_dl.py:325 | One insertion adds one element. `InsertPermutes`, `InsertOrders` and `InsertDatedAt` state which and where. |
| `Assets.ClassifyAssets` | github_releases_dl.py:298-304 | There is one bucket per distinct pattern. The nested loops build, for each pattern, the bucket `Bucket` specifies. |
| `Assets.AppendAsset` | github_releases_dl.py:302-304 | One asset is appended to the bucket of each listing of a pattern that matches it. |
| `Assets.HitsCount` | github_releases_dl.py:302-304 | One asset is appended once per listing of a matching pattern. |
| `Assets.BucketContents` | github_releases_dl.py:298-304 | An asset is in a bucket exactly when it is an asset of the release and the bucket's pattern is listed and matches its name. |
| `Assets.CountPositive` | github_releases_dl.py:299 | A pattern has a bucket exactly when it is listed. |
| `Assets.BucketStutters` | github_releases_dl.py:298-304 | A bucket is the matching assets in asset order, each repeated once per listing of the pattern. |
| `Assets.BucketOfSingle` | github_releases_dl.py:298-304 | The bucket of a pattern listed once is exactly the assets it matches, in order. |
| `Assets.Buckets` | github_releases_dl.py:299 | There is a bucket for each listed pattern and for nothing else. |
| `Assets.Bucket` | github_releases_dl.py:298-304 | A bucket is empty unless its pattern is listed and the release has assets. `BucketContents` and `BucketStutters` state its contents. |
| `SeenCache.Settings.constructor` | github_releases_dl.py:95-97 | A new `Settings` has no cache. |
| `SeenCache.Settings.GetCached` | github_releases_dl.py:104-119 | A cache that was not loaded raises. Otherwise the result is the stored marker, or an empty commit with the least date. |
| `SeenCache.Settings.UpdateCache` | github_releases_dl.py:109-113 | The release's repository now reads as the release's commit and date, and every other repository reads as before. A cache that was not loaded raises and changes nothing. |
| `SeenCache.Settings.ConnectCache` | github_releases_dl.py:121-135 | The cache is set to the file's markers exactly when `ValidateCache` accepts the file. Otherwise it raises the first error and the cache is unchanged. |
| `SeenCache.CheckEntry` | github_releases_dl.py:132-134 | An accepted entry is a table with a string commit and a datetime date, and the marker holds them. |
| `SeenCache.CheckEntryAccepted` | github_releases_dl.py:132-134 | An entry is accepted exactly when it has both keys with their types. |
| `SeenCache.CheckRepoEntry` | github_releases_dl.py:132-134 | The three checks in order raise what `CheckEntry` does. |
| `SeenCache.CheckRepoEntries` | github_releases_dl.py:131-134 | The loop raises the error of the first wrong entry, and succeeds exactly when every entry passes. |
| `SeenCache.MarkersLookup` | github_releases_dl.py:116 | A repository has a marker exactly when the table has its key, and the marker is what the first such entry holds. |
| `SeenCache.ValidateCacheAccepted` | github_releases_dl.py:128-134 | A file is accepted exactly when it is empty, or its `repos` is a table whose every entry passes. |
| `SeenCache.EmptyCacheFile` | github_releases_dl.py:128-129 | An empty file is a cache with no markers. |
| `SeenCache.ValidateCacheFailsAt` | github_releases_dl.py:130-134 | A file is refused with the error of its first wrong entry. |
| `SeenCache.LookupAfterUpdate` | github_releases_dl.py:109-119 | After an update, the updated repository reads as its new marker and the others are unchanged. |
| `SeenCache.Markers` | github_releases_dl.py:130-135 | An empty table has no markers, and the first entry's key has that entry's marker. `MarkersLookup` states the rest. |
| `SeenCache.ValidateCache` | github_releases_dl.py:128-134 | An empty file holds no markers, and an accepted non-empty file has a `repos` table. `ValidateCacheAccepted` and `ValidateCacheFailsAt` give both directions. |
| `SeenCache.Lookup` | github_releases_dl.py:115-119 | A repository without a marker reads as an empty commit with the least date. Otherwise the result is one of the stored markers. |
| `Configuration.ImportConfig` | github_releases_dl.py:151-168 | `assume_releases_decreasing` is true unless it is `false`. `compare_commits` is true only if it is `true`. `api_token` is the configured string. `downloads_root` is the configured string, or empty when it is absent. |
| `Configuration.ImportConfigAccepted` | github_releases_dl.py:151-168 | The file imports exactly when every key has its type and every group imports. |
| `Configuration.ImportedGroups` | github_releases_dl.py:162-168 | The groups are those of the `group` table, one for each entry, in order. |
| `Configuration.ImportConfigFirstError` | github_releases_dl.py:153 | A malformed `assume_releases_decreasing` is the first error raised, whatever else is wrong. |
| `Configuration.Switch` | github_releases_dl.py:153-158 | A switch is a boolean or absent, and absent means its default. Anything else raises with the switch's path. |
| `Configuration.OptionalText` | github_releases_dl.py:160 | An optional string is the string or, when it is absent, the empty text. Anything else raises. |
| `Configuration.ImportGroupSpecs` | github_releases_dl.py:182-188 | Each `group` entry is checked as a table and imported, in order, stopping at the first error. |
| `Configuration.GroupEntry` | github_releases_dl.py:185-187 | An entry that is not a table raises the `group.X` error, and a table is imported as a group. |
| `Configuration.ImportGroupSpec` | github_releases_dl.py:190-195 | An imported group takes the key as its id. |
| `Configuration.ImportGroupSpecAccepted` | github_releases_dl.py:190-195 | A group imports exactly when `folder` is a string, `repos` is a list whose every entry imports, and the key has no whitespace. |
| `Configuration.ImportedGroupFolder` | github_releases_dl.py:192 | An imported group has the configured folder. |
| `Configuration.ImportedGroupRepos` | github_releases_dl.py:193-194 | An imported group's repositories are the imports of its `repos` entries, one for each entry, in order. |
| `Configuration.ImportedGroupValid` | github_releases_dl.py:194 | Every repository of an imported group passes the `RepoSpec` construction checks. |
| `Configuration.NewGroupSpec` | github_releases_dl.py:177-179 | A group is constructed exactly when its id has no whitespace. Otherwise it raises `id should contain no whitespace`. |
| `Configuration.NewRepoSpec` | github_releases_dl.py:204-210 | A `RepoSpec` is constructed exactly when author and name contain no `/` and there is at least one pattern. |
| `Configuration.IdSplits` | github_releases_dl.py:216-228 | Splitting a valid repository's id at `/` gives back its author and name. |
| `Configuration.IdInjective` | github_releases_dl.py:227-228 | Valid repositories with the same id have the same author and name. |
| `Configuration.Id` | github_releases_dl.py:227-228 | The id is the author, a `/`, then the name. |
| `Configuration.PatternsOrDefault` | github_releases_dl.py:219-221 | A non-empty list of `matchers` is used as it is. Absent or empty `matchers` fall back to the one pattern `.+`. |
| `Configuration.CheckPattern` | github_releases_dl.py:222 | A pattern is accepted exactly when it is a string. Otherwise it raises with the `matchers[N]` path. |
| `Configuration.Texts` | github_releases_dl.py:222-225 | The pattern texts are the checked strings, in order. |
| `Configuration.ImportRepoSpec` | github_releases_dl.py:213-225 | An imported repository is valid, and its id is the configured `id`. |
| `Configuration.RepoFromTable` | github_releases_dl.py:215-225 | The same, once the entry is known to be a table. |
| `Configuration.RepoWithId` | github_releases_dl.py:216-225 | The same, once the `id` string is read. |
| `Configuration.ImportedMatchers` | github_releases_dl.py:219-225 | The patterns are the configured strings in order, or `.+` when none are configured. |
| `Configuration.ImportRepoSpecNotTable` | github_releases_dl.py:214 | An entry that is not a table raises first. |
| `Configuration.ImportRepoSpecIdNotString` | github_releases_dl.py:215 | A missing or non-string `id` raises next. |
| `Configuration.ImportRepoSpecIdMalformed` | github_releases_dl.py:216-218 | An `id` without exactly one `/` raises `should be of form "author/name"`. |
| `Configuration.ImportRepoSpecMatchersError` | github_releases_dl.py:219 | A `matchers` that is neither a list nor absent raises next. |
| `Configuration.ImportRepoSpecPatternError` | github_releases_dl.py:222 | A non-string pattern raises next. |
| `Configuration.ImportRepoSpecAccepted` | github_releases_dl.py:213-225 | An entry passing every check is accepted. |
| `Configuration.MaybeInt` | github_releases_dl.py:329-336 | A result is the parsed integer, and lies in the range when one is given. No result means the text does not parse or its integer lies outside the range. |
| `Text.Split` | github_releases_dl.py:216 | `str.split` yields at least one piece. |
| `Text.SplitPiecesLackSeparator` | github_releases_dl.py:216 | No piece contains the separator. |
| `Text.SplitCount` | github_releases_dl.py:217 | There is one piece more than there are separators. |
| `Text.SplitJoin` | github_releases_dl.py:216 | Joining the pieces with the separator gives back the string. |
| `Text.SplitWithout` | github_releases_dl.py:216 | A string without the separator is one piece. |
| `Text.SplitPair` | github_releases_dl.py:227-228 | Joining two separator-free strings around the separator splits back into them. |
| `Text.SplitInTwo` | github_releases_dl.py:216-218 | Two pieces are separator-free and rebuild the string around one separator. |
| `Text.IsSpace` | github_releases_dl.py:178 | Space, tab, newline, carriage return, vertical tab and form feed are whitespace; `/`, `.`, `-` and `_` are not. |
| `Text.HasSpace` | github_releases_dl.py:178 | A string holding a space, tab or newline has whitespace; an empty one has none. |
| `TomlValidation.TomlCheck` | _toml_validation.py:48-54 | An instance of the type is returned as it is. Anything else raises `ValueError` with the type's name, or `NotImplementedError` when the type has no TOML name. |
| `TomlValidation.TomlCheckGet` | _toml_validation.py:63-68 | Checks the key's value, `None` when absent, under the path `pre_path.key`, or just `key` when `pre_path` is empty. |
| `TomlValidation.TomlCheckSeq` | _toml_validation.py:75-83 | The sequence is returned as it is exactly when the checker accepts every element. |
| `TomlValidation.TomlCheckSeqFailure` | _toml_validation.py:81-82 | A rejected sequence raises the checker's error for its first rejected element. |
| `TomlValidation.GetFirst` | _toml_validation.py:68 | `get` returns the value of the key's entry. |
| `TomlValidation.GetMissing` | _toml_validation.py:68 | A missing key reads as `None`. |
| `TomlValidation.IsInstance` | _toml_validation.py:52 | Every value is an instance of its own class, only `None` is an instance of `NoneType`, and an empty union admits nothing. |
| `TomlValidation.KeyPath` | _toml_validation.py:67 | The path ends with the key. It is the key alone when the prefix is empty, and starts with the prefix and a dot otherwise. |
| `TomlValidation.Message` | _toml_validation.py:39-54 | A failed check reads `` `<path>` should be a `` followed by the type's name. An unknown class's message ends with its name. |
| `TomlValidation.LookupName` | _toml_validation.py:34-39 | The search of the name table succeeds for every class but `tuple`, and raises `unknown type: tuple` for it. |
| `TomlValidation.LookupOwnName` | _toml_validation.py:16-39 | Searching the table in its order gives each class its own name, `bool` before `int` and `datetime` before `date`. `None` is named `absent`. |
| `TomlValidation.TypeName` | _toml_validation.py:30-39 | A type is named exactly when all its classes have TOML names. Otherwise it raises `unknown type: tuple`. |
| `TomlValidation.ArgNames` | _toml_validation.py:31-33 | The names of a union's members, in order, one for each member. |
| `TomlValidation.UnionName` | _toml_validation.py:31-33 | A union is named by its members' names joined by ` or `. |
| `TomlValidation.OptionalName` | _toml_validation.py:31-36 | An optional class (a union of a class with `None`) is named `<name of the class> or absent`. |
| `TomlValidation.OptionalInstance` | _toml_validation.py:52 | A union of a class with `None` admits instances of the class and the absent value, and nothing else. |
| `TomlValidation.AbsentAccepted` | _toml_validation.py:52-53 | A union listing `None` accepts an absent value. |
| `TomlValidation.ExactInstances` | _toml_validation.py:52 | For `str`, `bool`, `dict`, `list` and `datetime`, the instance check is a test of the value's kind. |
| `TomlValidation.SubclassInstances` | _toml_validation.py:52 | A `bool` passes as an `int` and a datetime as a `date`, but not the other way round. |
| `TomlValidation.MismatchMessage` | _toml_validation.py:54 | A failed check of a class names the class by its TOML name. |
| `TomlValidation.UnknownTypeRaises` | _toml_validation.py:39 | A value rejected by a type that mentions `tuple` raises `unknown type: tuple`. |
| `TomlValidation.CheckAcceptsInt` | _toml_validation.py:94 | The module's test: `2` is an `int`. |
| `TomlValidation.CheckAcceptsOptionalInt` | _toml_validation.py:95 | The module's test: `2` is an optional `int`. |
| `TomlValidation.CheckAcceptsAbsentOptionalInt` | _toml_validation.py:96 | The module's test: `None` is an optional `int`. |
| `TomlValidation.CheckAcceptsList` | _toml_validation.py:97 | The module's test: `[34]` is a `list`. |
| `TomlValidation.CheckRejectsIntAsString` | _toml_validation.py:98 | The module's test: `` `x` should be a string ``. |
| `TomlValidation.CheckRejectsTableAsOptionalArray` | _toml_validation.py:99 | The module's test: `` `y` should be a array or absent ``. |
| `TomlValidation.CheckRejectsTupleAsArray` | _toml_validation.py:100 | The module's test: a tuple is not an array. |
| `TomlValidation.CheckRejectsAbsentBool` | _toml_validation.py:101 | The module's test: `` `z` should be a bool ``. |
| `TomlValidation.CheckGetAcceptsNone` | _toml_validation.py:103 | The module's test: `None` under `a` passes an optional `str`. |
| `TomlValidation.CheckGetRejectsNone` | _toml_validation.py:104-105 | The module's test: `` `a` should be a string ``. |
| `TomlValidation.CheckGetPrefixesPath` | _toml_validation.py:106-107 | The module's test: `` `b.a` should be a table ``. |
| `TomlValidation.CheckSeqAcceptsExample` | _toml_validation.py:109-110 | The module's test: `[1, 'ba', []]` passes the union of `list`, `str` and `int`. |
| `TomlValidation.CheckSeqRejectsExample` | _toml_validation.py:111-113 | The module's test: the same list fails an optional `str` at its first element. |
| `TomlValidation.OptionalStringMessage` | _toml_validation.py:111-113 | The module's test: `` `c[]` should be a string or absent ``. |

## Left out

- The GitHub API: authentication (github_releases_dl.py:261-263), `sleep`, `rel.complete()` and paging. The listing is a parameter, and `None` stands for `UnknownObjectException`.
- The regular-expression engine: `regex.search(name)` is a parameter `matches(pattern, name)`. Compiling the patterns with `re.ASCII`, and the `re.error` an invalid pattern raises, are not modelled.
- TOML parsing and writing, opening files, and creating the cache file: the model starts from the parsed table. `Settings.save`, `Settings.config` and the paths of the files are not modelled.
- Configuration.ImportConfig: `downloads_root` is kept as the configured text, because resolving it against the script's directory (github_releases_dl.py:161) is file-system work.
- Timezones and the `datetime` type: dates are natural numbers, ordered as instants. Only their order and equality matter here.
- The text the program prints: the three notices of `Work.releases` are the flags of `Notices`, and the text of the commit notice is not modelled.
- Configuration.MaybeInt: `int(x)` is a parameter, because Python's integer parsing (signs, underscores, whitespace, Unicode digits) is outside the core.
- Configuration.MaybeInt: the range is a start and a stop with step 1. `maybe_int` accepts any `range`, but every call passes `range(1, n + 1)` (github_releases_dl.py:493 and 534).
- `Release.lastModified` is a `nat`, so a release always has a date. The program asserts this (github_releases_dl.py:278) and raises `AssertionError` on a release without one; that failure is not modelled.
- A `GitRelease` is reduced to its tag, date, commit and assets (`ReleaseOrder.Release`); its name and other fields are not modelled.
- `matched_assets` is a Dafny `map`, which has no insertion order; the order of a Python dict's keys is lost.
- Keys of the cache file other than `repos` are not kept.
- Dict iteration order: a TOML table is a sequence of key and value pairs, and a key's first entry is its value.
- `ReleaseDiff.Visit`, `ReleaseDiff.ScanListing`, `SeenCache.CheckRepoEntry` and `SeenCache.CheckRepoEntries` are loop bodies and loops taken out of their methods. Their `break` and `continue` become early returns.
- The rest of the program is outside this model: downloading and its user interface, `input_int`, size formatting and the menus.
