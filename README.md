# Surrealigrate migration engine, modelled in Dafny

Surrealigrate applies and reverts SurrealDB schema migrations. A migration
directory holds files named `<version>.<action>.<title>.surql`. `do` files
apply a version and `undo` files revert it. The `migrations` table (the
ledger) holds one row per applied version. This project models the engine in
`index.js` and proves what its commands do to the ledger:

- **the migration catalog** (`getMigrationFiles`). The directory listing is
  filtered to names containing `.do.` or `.undo.`. Each name is split on `.`
  into version, action and title. The names are folded into one entry per
  version string. The fold is a method with a loop (`Catalog.GetMigrationFiles`).
  It is proved equal to the left fold `Catalog.CatalogOf`, whose properties are
  lemmas.
- **the ledger** (`getCurrentVersion`, `getCurrentVersionInfo`,
  `setCurrentVersion`, the `DELETE` query). The table is a map from version to
  an optional title. The map's keys stand for the unique index on `version`.
- **`migrate`, `rollback` and `getInfo`** are specified as functions of the
  catalog, the ledger and the database's answers (`Planner`). The class
  `Engine.Migrator` holds the ledger and a log of executed files. It runs the
  same loops step by step, and each command is proved to end in the state the
  planner function gives.
- **JavaScript built-ins** the engine relies on (`Js`): `split`/`join` on `.`,
  `includes`, `path.basename` with a suffix, `parseInt`, `Math.max`, and
  comparisons of a number that may be `-Infinity` or `NaN` with an integer.

The engine's behaviour, as modelled and proved:

- **Catalog keys** are the version strings as written (`"001"`). Versions are
  compared by `parseInt`, so `"001"` and `"1"` are two keys with the same
  version. When both are in the range of a `migrate`, it cannot finish
  (`Planner.MigrateSucceeds`). If the run gets as far as the second of them
  and its do file is present and accepted, that do file is committed and then
  its ledger row is refused by the unique index (`Planner.FailedAt`, reached
  through `Planner.MigrateAborted`).
- **Default target.** Without `--to`, `migrate` targets `Math.max` over every
  key:
  - An empty catalog gives `-Infinity`, so `migrate` refuses, as if current
    were above target.
  - One key that is not a number gives `NaN`. No comparison with `NaN` holds,
    so `migrate` selects nothing and ends without error while versions are
    still pending (`Planner.NonNumericKeyStallsMigrate`).
- **Failures.** A step fails exactly when its entry has no file for the
  direction, the database rejects the file, or (for `migrate`) its version
  already has a row. A failing step ends the loop. Earlier steps stay
  committed and recorded. The failing step's row is neither written nor
  deleted. A run whose every step can succeed ends without error
  (`Planner.ApplySucceeds`).
- **Missing files.** An entry without the needed `do`/`undo` file makes
  `path.join` throw before anything is executed (`MissingFile`).

Error handling in `index.js`, as modelled:

- A failed ledger query makes `getCurrentVersion` return 0 on every path,
  including `migrate` and `rollback`.
- A failed query in `getCurrentVersionInfo` gives the title "Error retrieving
  version info". An empty table gives "No migrations applied".
- An unreadable migration directory ends the command (`process.exit`). The
  directory is not created.

## Model

| member | source | states |
|---|---|---|
| Js.Split | index.js:28-30 | `split('.')` yields one more part than there are dots, and no part contains a dot |
| Js.JoinSplit | index.js:28-31 | joining the parts of a split with the separator gives back the string |
| Js.SplitJoin | index.js:28-31 | splitting a join of dot-free parts gives back the parts |
| Js.StripSuffix | index.js:28-29 | `path.basename(file, '.surql')` removes the extension exactly when the name ends with it, and otherwise leaves the name alone |
| Js.ParseInt | index.js:103 | `parseInt` gives a number exactly for non-empty decimal digit strings (NaN otherwise) |
| Js.LeadingZero | index.js:103 | zero padding does not change a version: `"002"` and `"2"` parse alike |
| Js.MathMax | index.js:108 | `Math.max` of no values is `-Infinity`, of a list containing `NaN` is `NaN`, and otherwise the largest value, which is one of the arguments |
| Catalog.ParseMigrationFile | index.js:26-31 | every name that passes the `.do.`/`.undo.` filter splits into at least a version and an action, neither holding a dot, and version, action and title reassemble the name without its extension |
| Catalog.NameRoundTrip | index.js:28-31 | a name built as `<version>.<action>.<title>.surql` from a dot-free version and action parses back into exactly that version, action and title (which may hold dots) |
| Catalog.CatalogOf | index.js:24-36 | every catalog entry has a `title` property |
| Catalog.CatalogVersions | index.js:26-35 | a version is a catalog key if and only if some file that passes the filter names it |
| Catalog.TitleFromFirst | index.js:32-34 | an entry's title is the title of the first kept file of its version (unless some file uses the action name `title`, which overwrites the property) |
| Catalog.ActionFile | index.js:35 | each action property holds the last kept file of that version and action |
| Catalog.ActionOrigin | index.js:32-35 | every property other than `title` comes from a kept file of that version with that action |
| Catalog.GetMigrationFiles | index.js:22-42 | an unreadable directory ends the command; otherwise the in-place loop over the listing returns exactly the fold `CatalogOf` |
| Ledger.CurrentVersion | index.js:44-55 | current version is 0 when the table is empty or the query fails, and otherwise the largest version in the table |
| Ledger.CurrentVersionInfo | index.js:171-181 | the reported row has the current version; its title is the placeholder for a failed query, the placeholder for an empty table, or the top row's own title |
| Ledger.StoredTitle | index.js:59-72 | a row is written without a title exactly when the title is empty (falsy); a non-empty title is stored as given |
| Ledger.Append | index.js:57-78 | `CREATE migrations` fails exactly when the version already has a row; otherwise it adds that one row and keeps every other row |
| Ledger.Delete | index.js:164-166 | `DELETE migrations WHERE version` removes that version's row and keeps every other row |
| Ledger.DeleteUndoesAppend | index.js:132 | deleting a just-appended version gives back the previous ledger |
| Ledger.AppendAboveCurrent | index.js:44-78 | appending a version above current always succeeds and makes it the current version |
| Planner.SortedKeysExist | index.js:102-104 | every catalog has a version list sorted by `parseInt` in either direction, holding each version key once |
| Planner.LatestVersion | index.js:192 | the latest version is `-Infinity` for an empty catalog, `NaN` if one key is not a number, and otherwise the largest key's version |
| Planner.PlanMembers | index.js:122-126 | the loop acts on a key if and only if it is in the list and its version passes the range test |
| Planner.PlanOrdered | index.js:122 | the keys acted on keep the list's order |
| Planner.PlanVersions | index.js:122-126 | the versions acted on are exactly the catalog versions in range |
| Planner.PlanSelects | index.js:122-126 | the plan over a sorted list is in list order and holds exactly the catalog keys in range; with distinct versions the order is strict |
| Planner.Execute | index.js:80-96 | `executeMigration` logs the file as committed or cancelled and fails exactly when the database rejects it; the ledger is untouched |
| Planner.ApplyStep | index.js:127-132 | one loop step fails exactly when the entry has no file for the direction (`path.join` throws), the database rejects the file, or under do the version already has a row, and its error names that cause; a failed step leaves the ledger unchanged; a successful step logs the committed file and appends (do) or deletes (undo) its version's row |
| Planner.StepFailureLog | index.js:57-96 | a failed step logged nothing for a missing file, the cancelled file for a rejected one, and the committed file when its row was refused as a duplicate |
| Planner.Apply | index.js:122-134 | the execution log only grows over a loop |
| Planner.ApplyLedger | index.js:122-134 | under do the ledger only grows, under undo it only shrinks, only by planned versions; no row is rewritten; a run without error added (do) or removed (undo) every planned version |
| Planner.ApplyConcat | index.js:122 | running two plans in sequence is running their concatenation, stopped by the first error |
| Planner.ApplyLog | index.js:122-134 | after a run without error the log holds exactly one committed step per planned key, in plan order |
| Planner.ApplyStops | index.js:131-132 | a run that stopped is a run of a prefix without error followed by the one failing step |
| Planner.ApplyFresh | index.js:132 | a finished do run recorded only versions that had no row, no two alike |
| Planner.ApplyTitles | index.js:127-132 | a finished do run gave every planned version a row with its entry's title |
| Planner.ApplySucceeds | index.js:122-134 | a run ends without error if and only if every planned key has its file for the direction and the database accepts it, and under do no planned version has a row or shares its version with another planned key |
| Planner.ApplyAborted | index.js:131-134 | a failed run stopped at one planned key: earlier keys stay committed and recorded, the failing key failed for the cause its error names with its row unchanged, later keys were not attempted |
| Planner.PlanNaN | index.js:125 | no key passes a range test against `NaN` |
| Planner.Migrate | index.js:98-135 | `migrate` only appends to the log and never removes a ledger row |
| Planner.Rollback | index.js:137-169 | `rollback` only appends to the log and never adds a ledger row |
| Planner.MigrateDecision | index.js:106-120 | `migrate` refuses if and only if target < current (always for an empty catalog without `--to`), is a no-op if and only if target === current, and otherwise runs its plan |
| Planner.MigrateSelects | index.js:102-126 | `migrate` runs exactly the catalog keys with current < version ≤ target, ascending (strictly with distinct versions) |
| Planner.MigrateFinished | index.js:122-134 | a finished `migrate` logged one committed do step per planned key in order and appended exactly the planned versions, none previously present, each with its entry's title; older rows are kept |
| Planner.MigrateAborted | index.js:122-134 | a failed `migrate` stopped at one planned key, for the cause its error names; earlier versions stay applied and recorded and the failing version gets no row |
| Planner.MigrateSucceeds | index.js:106-134 | `migrate` fails if and only if it passes the target checks and some planned key lacks its do file or has it rejected, a planned version already has a row, or two planned keys share a version; with a readable ledger no planned version has a row |
| Planner.MigrateCompletes | index.js:106-134 | with a readable ledger, distinct versions and every do file present and accepted, `migrate` does not fail |
| Planner.NonNumericKeyStallsMigrate | index.js:106-126 | with one non-numeric catalog key and no `--to`, `migrate` changes nothing and reports no error |
| Planner.MigrateReachesLatest | index.js:106-134 | after a `migrate` without `--to` that did not fail, over a non-empty catalog whose keys are all numbers, with a readable ledger, current is at least the latest catalog version |
| Planner.MigrateLeavesNothingPending | index.js:98-135 | after a `migrate` without `--to` that did not fail, over a catalog whose keys are all numbers, with a readable ledger, `getInfo` lists nothing pending |
| Planner.RollbackDecision | index.js:145-152 | without `--to` the rollback target is current − 1; `rollback` refuses if and only if target ≥ current, and otherwise runs its plan |
| Planner.RollbackSelects | index.js:141-158 | `rollback` undoes exactly the catalog keys with target < version ≤ current, descending (strictly with distinct versions) |
| Planner.RollbackDefaultUndoesCurrent | index.js:145-158 | `rollback` without `--to` undoes exactly the catalog keys of the current version |
| Planner.RollbackFinished | index.js:154-168 | a finished `rollback` logged one committed undo step per planned key in order and deleted exactly the planned versions' rows; other rows are kept |
| Planner.RollbackAborted | index.js:154-168 | a failed `rollback` stopped at one planned key, for the cause its error names; earlier versions stay reverted and deleted, and the failing version keeps its row |
| Planner.RollbackSucceeds | index.js:145-168 | `rollback` fails if and only if its target is below current and some planned key lacks its undo file or has it rejected |
| Planner.RollbackCompletes | index.js:145-168 | with every undo file present and accepted, `rollback` does not fail |
| Planner.MigrateNewCurrent | index.js:122-134 | after a finished `migrate --to t`, current is unchanged if nothing was planned, and otherwise is the highest planned version, in (old current, t] |
| Planner.MigrateRollbackRoundTrip | index.js:98-169 | `migrate --to t` followed by `rollback --to` the previous current version restores the ledger, unless a step failed |
| Planner.AboveMembers | index.js:195 | the pending filter keeps a key if and only if its version is above current |
| Planner.AboveOrdered | index.js:194-195 | the pending filter keeps the list's order |
| Planner.PendingExact | index.js:194-199 | every pending item is a catalog version above current, shown with its title or "Untitled", and every catalog version above current is pending |
| Planner.PendingAscending | index.js:189-199 | the pending list is in ascending version order with no key twice, strictly ascending when versions are distinct |
| Planner.NothingAbove | index.js:195 | nothing is pending once current has reached every version |
| Engine.SortVersions | index.js:102-104 | the sort yields every version key exactly once, ordered by `parseInt` (ascending for `migrate`/`getInfo`, descending for `rollback`) |
| Engine.Migrator.ExecuteMigration | index.js:80-96 | the file is logged as committed or cancelled; the call fails exactly when the database rejects the file; the ledger is untouched |
| Engine.Migrator.SetCurrentVersion | index.js:57-78 | the row is added exactly when its version had none, with the title stored as in `Append`; otherwise a duplicate-version error is raised and nothing changes |
| Engine.Migrator.DeleteVersion | index.js:164-166 | the version's row is removed and nothing else changes |
| Engine.Migrator.RunKey | index.js:127-132 | one loop body ends in the state and error that `ApplyStep` gives |
| Engine.Migrator.Walk | index.js:122-134 | the loop over the sorted list ends in the state and outcome of the planned run |
| Engine.Migrator.Migrate | index.js:98-135 | an unreadable directory changes nothing; otherwise the command ends in the report `Planner.Migrate` gives for the sorted list it walked |
| Engine.Migrator.Rollback | index.js:137-169 | an unreadable directory changes nothing; otherwise the command ends in the report `Planner.Rollback` gives for the sorted list it walked |
| Engine.Migrator.GetInfo | index.js:184-207 | an unreadable directory gives no info; otherwise the info has the current row, the latest version and the pending list of the sorted list, and nothing changes |

## Left out

- Connecting to the database and the SurrealDB client (`lib/surrealdb.js`) are not part of this model. The database is represented by the files it rejects and by whether the ledger query succeeds (`Planner.Database`).
- The command line (`cli.js`), the configuration loader and its files are not part of this model.
- Logging and `displayInfo` (index.js:209-231) are left out because they only print.
- Reading the directory and file contents are inputs. The listing is a parameter (`None` when it cannot be read). A file the database rejects stands for any failure inside `executeMigration`, including a failed read.
- Snapshot-based fast-forward, schema introspection and migration-file generation are not part of this model.
- `Js.ParseInt` reads only plain decimal digit strings. `parseInt`'s leniency (leading whitespace, signs, trailing junk such as `"12abc"`) is not modelled; such keys count as `NaN`.
- `--to` arrives as an already-parsed natural number. JavaScript truthiness of the raw option (a `--to 0` given as the number 0) is not modelled.
- `Engine.SortVersions`: for two keys with the same version the source's order is fixed. `Object.keys` lists an integer-like key such as `"1"` before a key such as `"01"` (integer-like keys come first, the rest in insertion order), and the sort is stable. The model over-approximates and allows either order, so every ordering result holds for both.
- `Engine.SortVersions`: when a key is not a number, the comparator `parseInt(a) - parseInt(b)` returns `NaN`, which the sort reads as "equal". The comparator is then inconsistent, and the order of the numeric keys themselves is left to the JavaScript engine. For example, the keys `"5"`, `""`, `"003"` can stay in that order, and `migrate --to 10` then runs 5 before 3. The model always walks the numerically sorted list, which is one order the engine may give. The ordering parts of `Planner.MigrateSelects`, `Planner.RollbackSelects` and `Planner.PendingAscending` hold only for that order. Which keys are selected does not depend on order (`Planner.PlanMembers`). Keys that are not numbers are left out of the sorted list, since no range test or pending filter ever selects them.
- Versions are exact natural numbers. In the source, `parseInt` returns a double, which loses precision above 2^53 and becomes `Infinity` for digit strings of more than about 309 digits. Versions that large are not modelled.
- Catalog keys that collide with `Object.prototype` property names (`"constructor"`, `"__proto__"`) are not modelled. The catalog is a plain map.
- The directory prefix of `path.join(directory, file)` is not modelled. Files are identified by their names.
- Migration files are assumed never to write the `migrations` table. A file is arbitrary SurrealQL run by `db.query(content)`, but `Planner.Execute` leaves the ledger as it was, so every ledger result (older rows kept, the `migrate`/`rollback` round trip) rests on that assumption.
- The `DELETE` query in `rollback` is modelled as always succeeding. Its result is ignored by the source.
- `setCurrentVersion` is modelled as failing only on a duplicate version. Other write failures (lost connection, permissions) are not modelled.
- Concurrency between separate processes on one ledger is not modelled. Each command runs alone.
