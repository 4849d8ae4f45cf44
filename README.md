# onetable-migrate: the migration engine, modelled and verified in Dafny

This project models the `Migrate` class of onetable-migrate (`src/index.js`),
the engine that applies and rolls back versioned migrations of a OneTable
(DynamoDB) schema, and proves what it promises.

The model has four parts:

- The **catalog** (module `Catalog`) is the in-memory list of migration
  descriptors. `getVersions` lists their identifiers.
  - `getSemVersions` keeps the valid semantic versions, ascending.
  - `getNamedVersions` keeps the others, in catalog order.
  - `loadMigration` finds a descriptor by version and checks its schema and
    version. A migration body is an abstract outcome: it returns, or it
    throws an error with a message.
- The **ledger** (module `Ledger`) holds the `_Migration` records in the
  table. The queries over it are `findPastMigrations`, `getCurrentVersion`
  and `getOutstandingVersions`. The writes are the store's `create`,
  `update` and `remove`.
- **`apply`** (module `Semantics`) is stated as pure functions. They map the
  store before the call to the store after it, the outcome, and the list of
  bodies invoked. The module covers each action: `up`, `repeat`, `down`,
  `reset`, and a named migration.
- **The class `Migrate`** (module `Engine`) holds the catalog, the ledger,
  the saved schema and a clock. Its methods update these fields in place,
  loop by loop, as the source does. Each method is proved to end exactly
  where the `Semantics` functions say.

The store is reduced to three things: the ledger records, the last saved
schema, and a clock that stands for `new Date()`. Module `Properties` states
independent reference definitions: `Plan` is the versions a scan should
visit, and `Calls` is the bodies it should invoke. Modules `Properties` and
`Laws` prove `apply` against them.

Two libraries the engine uses are modelled alongside:

- the `semver` package's `valid` and `compare` (module `Semver`), over
  major.minor.patch[-prerelease] with the precedence of section 11 of
  Semantic Versioning 2.0.0;
- the array operations `filter`, `sort`, `reverse` and `slice` (module
  `Seqs`).

Three points of the code's behaviour are easy to misread, and the model
follows the code on each:

- A plain `up` records its outcome with `create(…, {exists: null})`
  (src/index.js:151-152), which overwrites an existing record. It never
  fails with a duplicate-entry error. Only the `create` without options in
  the `reset` loop (src/index.js:67) refuses a version that is already
  recorded.
- `repeat` reaches `updateTable` with the action `'up'`, so it takes the
  same `create` branch.
- A non-dry `down` reads the current version again after each step
  (src/index.js:103). It can then skip versions between the target and the
  original current version that no record carries, though it never skips a
  recorded one (see `Laws.DownRollsBack` below).

## Model

| member | source | states |
|---|---|---|
| Catalog.Versions | src/index.js:217-218 | one identifier per descriptor, the i-th being the i-th descriptor's version |
| Catalog.StripExtension | src/index.js:220 | the name is a prefix of the file name. When it is shorter, it ends right before a '.' that is followed by a non-empty run with no '.' or '/'. When nothing is stripped, no such '.' exists |
| Catalog.ListingVersions | src/index.js:220 | a directory listing gives one name per file, with the extension stripped |
| Catalog.SemVersions | src/index.js:226-228 | exactly the catalog identifiers that are valid versions, each as often as it occurs, sorted ascending by precedence |
| Catalog.NamedVersions | src/index.js:231-233 | exactly the catalog identifiers that are not valid versions, in catalog order: the i-th is the identifier at the i-th position `Seqs.Kept` lists |
| Catalog.VersionsPartition | src/index.js:226-233 | the two lists together hold every identifier of the catalog exactly as often as it occurs |
| Catalog.SemVersionsFit | src/index.js:226-228 | there are never more versions than descriptors |
| Catalog.NamedMigrations | src/index.js:207-209 | a prefix of the named versions of length `slice(0, limit)`, a negative limit counting back from the end |
| Catalog.FindIndex | src/index.js:242 | the index of the first descriptor carrying the name, or the catalog's length when none does |
| Catalog.LoadMigration | src/index.js:239-264 | a loaded migration carries the requested name as its version and the path 'memory' |
| Catalog.LoadMigrationChecks | src/index.js:241-263 | "not found" exactly when no descriptor has the version. "Missing schema" exactly when the first descriptor with it declares none. Success exactly when the name is not empty and the first descriptor with it declares a schema. On success the description, schema and bodies are that first descriptor's |
| Catalog.LoadMigrationAsWritten | src/index.js:253-254 | the validation as written: wherever the corrected load reports a missing version, it throws a ReferenceError instead; everywhere else it agrees |
| Catalog.MissingVersionMessageThrows | src/index.js:253-254 | for a descriptor with an empty version and a schema, looked up by the empty name, the corrected load reports the missing version and the code as written throws a ReferenceError |
| Catalog.MissingVersionOnlyForEmptyName | src/index.js:241-255 | the missing-version error arises exactly for the empty name, when the descriptor found declares a schema |
| Catalog.LoadAll | src/index.js:196-200 | a list that loads in full has one migration per version |
| Catalog.LoadAllChecks | src/index.js:196-200 | the list loads in full exactly when every version loads, and then holds each version's migration at its index. Otherwise the error is that of the first version that fails |
| Ledger.PastMigrations | src/index.js:162-164 | every record, as often as it occurs, ordered by date |
| Ledger.RecordedPast | src/index.js:163 | sorting by date neither adds nor loses a version |
| Ledger.VersionsOf | src/index.js:172-173 | the i-th version is the i-th record's version |
| Ledger.CurrentVersion | src/index.js:167-177 | always a valid version. It is '0.0.0' when no record carries a valid version. Otherwise it is a recorded version that is at least every valid recorded version |
| Ledger.CurrentVersionFacts | src/index.js:172-176 | the sorted list of valid recorded versions is empty exactly when the ledger has none. Its last element is recorded and is the greatest |
| Ledger.LastIsGreatest | src/index.js:176 | the last element of an ascending list of versions is at least every member |
| Ledger.Pending | src/index.js:184-186 | ascending, and holding exactly the valid catalog versions that no record carries |
| Ledger.OutstandingVersions | src/index.js:183-188 | the prefix of the pending versions that `slice(0, limit)` keeps: ascending, at most `limit` long for a non-negative limit, holding only valid catalog versions that no record carries |
| Ledger.OutstandingPrefix | src/index.js:187 | a smaller limit gives a prefix of what a larger one gives |
| Ledger.OutstandingComplete | src/index.js:183-188 | with a limit at least the catalog's size, every valid catalog version that no record carries is listed |
| Ledger.Without | src/index.js:101 | no record keyed by the version is left, and exactly the other records are kept |
| Ledger.Put | src/index.js:151-154 | a write with `{exists: null}` replaces any record of the version by a new one, last in the ledger and dated by the clock. It leaves the saved schema alone and advances the clock |
| Ledger.Create | src/index.js:67-73 | a plain `create` fails with a duplicate-entry error exactly when the version is recorded. Otherwise it appends the new record and advances the clock |
| Ledger.Remove | src/index.js:101 | removing a record drops every record of that version and keeps all others, the schema and the clock |
| Ledger.WithoutKeepsOrder | src/index.js:101 | removing records keeps the ledger well formed: one record per version, dates increasing in ledger order, all before the clock |
| Ledger.PutKeepsWellFormed | src/index.js:151-154 | a keyed write keeps the ledger well formed |
| Ledger.CreateKeepsWellFormed | src/index.js:67-73 | a successful plain create keeps the ledger well formed |
| Ledger.RemoveKeepsWellFormed | src/index.js:101 | a removal keeps the ledger well formed |
| Ledger.PastMigrationsInLedgerOrder | src/index.js:163 | on a well-formed ledger, sorting by date returns the ledger as it is |
| Semantics.ParseAction | src/index.js:58-113 | 'reset', 'up', 'repeat' and 'down' select their actions; every other word, and only those, names a migration |
| Semantics.UpdateTable | src/index.js:143-159 | `up` and `reset` (and `repeat`) write a keyed record dated by the clock. Every other action writes none. The migration's schema is saved in every case |
| Semantics.Invoke | src/index.js:117-141 | a load failure invokes nothing and writes nothing. Otherwise the body runs once and its error is re-thrown unchanged. Unless dry, an `up` records "success" or the error's message under the version and saves the schema. A `down` records nothing but saves the schema. A dry run writes nothing |
| Semantics.RestoreSchema | src/index.js:103-107 | fails exactly when the migration of the current version does not load, with its error. Otherwise it saves that migration's schema and changes nothing else |
| Semantics.UpScan | src/index.js:77-85 | the `up` loop; no contract of its own. Its properties are stated by `Properties.UpFollowsPlan`, `Properties.UpStopsAtFirstFailure`, `Properties.UpRecordsPlan`, `Properties.UpDryWritesNothing`, `Properties.UpInvalidTarget` and `Properties.UpKeepsWellFormed` |
| Semantics.DownScan | src/index.js:89-109 | the `down` loop; no contract of its own. Its properties are stated by `Properties.DownStaysInRange`, `Properties.DownRemovesInvoked`, `Properties.DownReachesRecorded`, `Properties.DryDownFollowsPlan`, `Properties.DryDownStopsAtFirstFailure`, `Properties.DownDryWritesNothing`, `Properties.DownInvalidTarget` and `Properties.DownKeepsWellFormed` |
| Semantics.Rebuild | src/index.js:65-74 | the reset loop; no contract of its own. Its properties are stated by `Properties.RebuildSucceedsExactly`, `Properties.RebuildAppends` and `Properties.RebuildKeepsWellFormed` |
| Semantics.Apply | src/index.js:51-115 | `apply`'s dispatch; no contract of its own. Its properties are stated by the lemmas of module `Laws` |
| Semantics.Settle | src/index.js:98-108 | a dry step goes on unchanged. Otherwise the snapshot's record of the version is removed and the clock is kept. The loop goes on with the current version read from the ledger after the removal |
| Properties.Plan | src/index.js:77-85 | reference definition: exactly the versions of the list between the two bounds inclusive, in list order |
| Properties.Calls | src/index.js:84 | reference definition: one invocation of the body per version, in order |
| Properties.UpFollowsPlan | src/index.js:77-85 | over ascending versions, `up` invokes a prefix of the planned calls from the current version to the target. It invokes all of them when it succeeds, and writes nothing when nothing is planned |
| Properties.FirstFailure | src/index.js:77-97 | reference definition: the position of the first planned version that does not load or whose body fails, or the plan's length; every version before it loads and passes |
| Properties.UpStopsAtFirstFailure | src/index.js:77-85 | `up` succeeds exactly when every planned version loads and its body passes. Otherwise it throws the error of the first that fails, having invoked the planned versions before it and, if it loaded, that one |
| Properties.UpRecordsPlan | src/index.js:77-85 | after a non-dry `up` that succeeds, every planned version has a "success" record |
| Properties.UpKeepsSucceeded | src/index.js:77-85 | a successful non-dry `up` never loses a "success" record it started with |
| Properties.DryDownFollowsPlan | src/index.js:89-97 | over descending versions, a dry `down` invokes a prefix of the planned calls from the current version down to the target. It invokes all of them when it succeeds, and writes nothing when nothing is planned |
| Properties.DryDownStopsAtFirstFailure | src/index.js:89-97 | a dry `down` succeeds exactly when every planned version loads and its `down` body passes. Otherwise it throws the error of the first that fails, having invoked the planned versions before it and, if it loaded, that one |
| Properties.DownStaysInRange | src/index.js:89-109 | `down` invokes only `down`, only on listed versions between the target and the starting current version, in descending order |
| Properties.DownRemovesInvoked | src/index.js:98-103 | a non-dry `down` never adds or rewrites a record. When it succeeds, the records left are exactly those of the versions it did not roll back |
| Properties.DownReachesRecorded | src/index.js:89-108 | a successful non-dry `down` that starts from the ledger's current version invokes `down` on every listed version at or above the target that the ledger records |
| Properties.UpDryWritesNothing | src/index.js:77-85 | a dry `up` leaves the store as it was |
| Properties.DownDryWritesNothing | src/index.js:89-108 | a dry `down` leaves the store as it was |
| Properties.UpInvalidTarget | src/index.js:78-82 | with an invalid target, `up` invokes and writes nothing. It throws the invalid-version error exactly when some version is not below the current one |
| Properties.DownInvalidTarget | src/index.js:90-94 | with an invalid target, `down` invokes and writes nothing. It throws the invalid-version error exactly when some version is not above the current one |
| Properties.InvokeKeepsWellFormed | src/index.js:117-141 | invoking a body keeps the store well formed |
| Properties.UpKeepsWellFormed | src/index.js:77-85 | the `up` loop keeps the store well formed |
| Properties.SettleKeepsWellFormed | src/index.js:98-108 | settling a `down` step keeps the store well formed, whether it goes on or stops |
| Properties.DownKeepsWellFormed | src/index.js:89-109 | the `down` loop keeps the store well formed |
| Properties.RebuildSucceedsExactly | src/index.js:65-74 | the reset loop invokes no body. It succeeds exactly when every version loads, none repeats and none is recorded already |
| Properties.RebuildAppends | src/index.js:65-74 | a successful reset loop appends one "success" record per version, in order, after the records it started from |
| Properties.RebuildKeepsWellFormed | src/index.js:65-74 | the reset loop keeps the store well formed |
| Laws.VersionsInScanOrder | src/index.js:89 | the scanned versions are valid and ascending. Their reverse descends and has the same members |
| Laws.DryRunWritesNothing | src/index.js:51-115 | with `dry`, no action changes the ledger, the saved schema or the clock, even when a body fails |
| Laws.UpRunsFromCurrentToTarget | src/index.js:76-85 | `up` and `repeat` invoke `up` on exactly the catalog versions from the current version to the target inclusive, ascending. They succeed exactly when every one of those loads and passes, and otherwise throw the first failure's error right after it. With nothing in range they return 'success' and write nothing |
| Laws.UpRecordsSuccess | src/index.js:76-85 | a successful non-dry `up` leaves a "success" record for every catalog version from the current version to the target |
| Laws.UpRerunsCurrent | src/index.js:78-80 | when the current version is in the catalog and not above the target, a successful `up` invokes it again |
| Laws.UpToOlderTargetDoesNothing | src/index.js:76-85 | `up` to a valid target below the current version returns 'success', invokes nothing and writes nothing |
| Laws.DryDownRunsFromCurrentToTarget | src/index.js:86-109 | a dry `down` invokes `down` on exactly the catalog versions from the current version down to the target, descending. It succeeds exactly when every one of those loads and passes, and otherwise throws the first failure's error right after it |
| Laws.DownRollsBack | src/index.js:86-109 | `down` invokes only `down`, on catalog versions between the target and the current version, descending. Unless dry, it never adds or rewrites a record. When it succeeds, exactly the records of the versions it rolled back are gone, and every catalog version at or above the target that was recorded has been rolled back |
| Laws.InvalidTargetRunsNothing | src/index.js:76-109 | with an invalid target, `up`, `repeat` and `down` invoke nothing and write nothing. Any error they throw is the invalid-version error |
| Laws.ResetRebuildsLedger | src/index.js:58-75 | when the 'reset' body fails, `reset` throws and does nothing more. Otherwise the body is the only one invoked, and the ledger becomes one "success" record per catalog version, ascending, whatever it held before. This fails exactly when a version does not load or occurs twice |
| Laws.ApplyKeepsWellFormed | src/index.js:51-115 | every action keeps the store well formed |
| Laws.DownPastLastRecordNeedsZeroMigration | src/index.js:98-107 | rolling back the only recorded version removes its record and then throws "not found" for '0.0.0' when the catalog has no migration of that version |
| Semver.ZeroIsValid | src/index.js:170 | '0.0.0' parses as the version 0.0.0 with no pre-release part |
| Semver.Compare | src/index.js:78 | the comparison of two valid versions is -1, 0 or 1 |
| Semver.CompareFlip | src/index.js:175 | swapping the arguments negates the comparison, and a version equals itself |
| Semver.CompareTrans | src/index.js:175 | precedence is transitive, and strictly so when either step is strict |
| Semver.LeIsTotalPreorder | src/index.js:227 | on valid versions, "compares at most 0" is a total preorder |
| Semver.SortOrdersVersions | src/index.js:227 | `sort(Semver.compare)` puts any list of valid versions in ascending order |
| Seqs.Filter | src/index.js:227 | `filter` never lengthens the list |
| Seqs.FilterMembers | src/index.js:227 | `filter` keeps exactly the elements that satisfy the predicate |
| Seqs.FilterPartition | src/index.js:227-232 | filtering by a predicate and by its negation splits the list with nothing lost or invented |
| Seqs.Kept | src/index.js:232 | the positions of the list whose elements satisfy the predicate: ascending, in range, and every such position |
| Seqs.FilterKept | src/index.js:227-232 | `filter` keeps the list's order: its i-th element is the one at the i-th position `Kept` lists |
| Seqs.FilterKeepsSorted | src/index.js:186 | filtering a sorted list leaves it sorted |
| Seqs.Insert | src/index.js:227 | one insertion step of the sort adds exactly the one element |
| Seqs.InsertKeepsSorted | src/index.js:227 | under a total preorder, insertion keeps a sorted list sorted |
| Seqs.Sort | src/index.js:227 | the comparator sort is a permutation |
| Seqs.SortSorts | src/index.js:227 | under a total preorder, the comparator sort orders the list |
| Seqs.SortOfSorted | src/index.js:163 | sorting a list that is already in order changes nothing |
| Seqs.Reverse | src/index.js:89 | `reverse` puts the i-th element from the end at position i |
| Seqs.ReverseSorted | src/index.js:89 | reversing an ascending list gives a descending one |
| Seqs.ReverseMembers | src/index.js:89 | reversing keeps the members |
| Seqs.SliceEnd | src/index.js:187 | `slice(0, end)` keeps `end` elements, at most all of them. A negative end counts back from the end, with 0 as the floor |
| Seqs.Slice | src/index.js:187 | `slice(0, end)` is a prefix of the list, `min(end, length)` long for a non-negative end and `max(0, length + end)` long for a negative one |
| Seqs.SliceMonotone | src/index.js:187 | a larger non-negative end only extends the slice |
| Engine.Migrate.constructor | src/index.js:21-38 | the instance holds the given catalog and store, with nothing invoked yet |
| Engine.Migrate.UpdateTable | src/index.js:143-159 | updates the fields to exactly the store `Semantics.UpdateTable` gives |
| Engine.Migrate.InvokeMigration | src/index.js:117-141 | ends in the store, outcome and invocations `Semantics.Invoke` gives |
| Engine.Migrate.CreateEntry | src/index.js:67-73 | fails without a change exactly where `Ledger.Create` fails. Otherwise the ledger becomes the created one |
| Engine.Migrate.Apply | src/index.js:51-115 | dispatches on the action word as `Semantics.ParseAction` does, and ends in the store, outcome and invocations `Semantics.Apply` gives, so every law about `Semantics.Apply` holds of the method |
| Engine.Migrate.RebuildLedger | src/index.js:61-75 | clears the ledger, then ends where the reset loop `Semantics.Rebuild` ends |
| Engine.Migrate.RunUp | src/index.js:77-85 | the `continue`/`break` loop ends in the store, outcome and invocations `Semantics.UpScan` gives |
| Engine.Migrate.UpStep | src/index.js:78-84 | one pass of the `up` loop either goes on where the scan goes on with the rest, or stops where the scan stops |
| Engine.Migrate.SettleStep | src/index.js:98-108 | ends where `Semantics.Settle` ends, with its current version or its error |
| Engine.Migrate.RemoveRecord | src/index.js:99-102 | the store becomes `Ledger.Remove` of the old one |
| Engine.Migrate.RestoreSavedSchema | src/index.js:103-107 | ends where `Semantics.RestoreSchema` ends, unchanged on failure |
| Engine.Migrate.RunDown | src/index.js:89-109 | the `down` loop, with its re-read current version, ends in the store, outcome and invocations `Semantics.DownScan` gives |
| Engine.Migrate.DownStep | src/index.js:90-108 | one pass of the `down` loop either goes on where the scan goes on with the rest and the new current version, or stops where it stops |
| Engine.Migrate.OutstandingMigrations | src/index.js:194-201 | the result is `Catalog.LoadAll` of the outstanding versions, so `Catalog.LoadAllChecks` describes it |
| Engine.Migrate.LoadMigrations | src/index.js:196-200 | the push loop gives exactly `Catalog.LoadAll` of its versions |

## Left out

- Directory mode is not modelled: `Fs.readdirSync` and `await import(path)` read the file system and load code. The catalog is the in-memory list. Only the extension stripping of a listing is modelled (`Catalog.StripExtension`). The path of a loaded migration is therefore always 'memory'.
- The OneTable and DynamoDB layer is not modelled: `Table` construction, `init`, `getModel` and `setSchema` (the active schema set before a body runs). The store is reduced to the ledger records, the last saved schema and a clock. `Migration.find/create/update/remove` become operations on the ledger. The ledger is keyed by version, as the `_Migration` model keys it. The store itself never fails, except for the duplicate-key refusal of a plain `create`.
- Migration bodies are user code. Each descriptor carries the outcome of its `up` and of its `down`: it returns, or it throws with a message. What a body does to the database, and a body that is missing (a TypeError in JavaScript), are not modelled.
- `new Date()` becomes a clock that each write advances. Two writes never share a date.
- `async`/`await`, logging, and the `log` and `helpers` parameters are not modelled. Execution is sequential.
- The legacy numeric actions `0`, `1`, `2` and `-1` and the `v === 0` 'latest' path are not modelled. Actions form a closed datatype.
- `sortMigrations` is not modelled: it is commented out and never called.
- `src/index.d.ts` is not modelled: it holds type declarations only.
- An absent `version` is modelled as the empty string and an absent `schema` as `None`. In JavaScript, `m.version == name` is false for an undefined version and any string name, and other falsy values (0, '') are not distinguished; the model does not capture these loose comparisons and falsy values.
- The `semver` package is reimplemented over major.minor.patch[-prerelease]. A leading 'v' or '=', surrounding whitespace, build metadata ('+…'), the 256-character cap and the numeric limit of `semver.valid` are not modelled.
- `pastMigrations.reverse()` inside the `down` loop is not modelled. It reverses the snapshot in place on every step, but a keyed ledger holds at most one record per version, so `find` returns the same record in either direction.
- Out-of-range and fractional `limit` arguments are not modelled, including the default `Number.MAX_SAFE_INTEGER`. Limits are integers, with the negative case of `slice(0, limit)` modelled.
- Laws.DownRollsBack: for a non-dry `down` it states the range, the order, the records left and that every recorded version in [target, current] is rolled back, not that every catalog version in that range is invoked. The code re-reads the current version after each removal and then skips unrecorded versions above it. For example, with the ledger holding 1.0.0 and 3.0.0, the catalog's 2.0.0 is skipped on the way down. The exact sequence is stated for dry runs by `Laws.DryDownRunsFromCurrentToTarget`.
- Laws.UpRunsFromCurrentToTarget: requires a valid target. The invalid target is covered by `Laws.InvalidTargetRunsNothing`.

## Findings

| source | as written | input that shows it | evidently intended | confidence | as-written member | corrected member |
|---|---|---|---|---|---|---|
| src/index.js:253-254 | the missing-version error message interpolates `version`, which is not declared in `loadMigration`, so building the message throws a ReferenceError | an in-memory migration with version '' and a schema, loaded by `loadMigration('')` (or `apply('')`) | throw the error "Migration "" is missing a version property" | not executed | Catalog.LoadMigrationAsWritten, Catalog.MissingVersionMessageThrows | Catalog.LoadMigration, Catalog.LoadMigrationChecks |
