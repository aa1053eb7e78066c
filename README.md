# Franchino Er Criminale bot: updater and validators in Dafny

A Telegram bot reads a list of shops from a spreadsheet and keeps it in a relational database. This project models the three parts that do the work, and proves what they promise.

- **The reconciler.** `DatabaseUpdater.update_from_excel` merges the four sheets into four tables: `category`, `city`, `neighborhood` and `store`.
  - For categories, cities and neighborhoods, a record is inserted only when no stored row has the same primary key *and* natural key.
  - A store matched by `(id, name)` is updated in place. Any other store is bulk-inserted.
  - Everything is committed once, at the end. Any exception makes the call return `False`.
- **The file replacer.** `RemoteFileUpdater.download_file` fetches the spreadsheet into `<file>.tmp`. It replaces `<file>` only when the download's MD5 fingerprint differs from the one kept in the sidecar `<file>.md5`. `check_loop` repeats this until `stop()` is called, and runs a callback after each change.
- **The validators.** `InputValidator.validate_name` and `validate_category_id` check what a user types.

Modules:

- `Wrappers`: `Option` and `Result`.
- `Text`: Python's `str.isspace` and `str.strip()`.
- `Entities`: the table rows and the database state.
- `Staging`: the generic "stage what is not present, then bulk-insert" step, with its lemmas.
- `Reconciliation`: `Reconcile`, the function one run computes, with the properties of a run.
- `DatabaseUpdater`: the class whose method runs the four loops and commits. It is proved to commit exactly `Reconcile`'s result, or nothing.
- `RemoteFileUpdater`:
  - `Fetch` and `Run`, the specifications of one download and of the loop, with their lemmas;
  - the class with `SaveMd5`, `DownloadFile`, `Stop` and `CheckLoop`, proved against them.
- `InputValidator`: the two validators as functions returning a `Result`.

Inputs that the source reads from the outside are parameters:

- **Clock.** `datetime.now()` is `now`. One value is used for the whole run.
- **Spreadsheet.** The parsed workbook is an `Artifact`: missing, unreadable, or four sequences of records. A record's cell is `Missing` when the sheet lacks that column.
- **Network.** The HTTP download is a `Download`: the bytes written, or `Failed`.
- **Fingerprint.** MD5 is an uninterpreted function from bytes to 32 lower-case hex digits.
- **Number parsing.** `int()` is a given partial function.

Where the code and its messages or comments disagree, the model follows the code:

- **Name length.** `validate_name` rejects names longer than 20 characters, although its message says 50.
- **No rollback.** On failure the session is neither rolled back nor closed, because the guard `'session' in locals()` is always false (src/database_updater.py:134, 138).
- **Stale `updated_at`.** Every matched store gets a new `updated_at` on every run, even when no column changes.
- **Missing optional columns.** A sheet without an optional column (`latitude`, `comment`, …) makes the run fail, because `row[...]` raises `KeyError`.
- **Renamed rows fail.** A record whose `id` is stored under a different natural key is staged as new. Its insert then collides on the primary key, so the spreadsheet cannot rename a row: the whole run fails (`ReconcileRenamedStoreFails`).
- **Duplicates fail.** Two records for the same new row are both staged, because the existence checks look only at the table. The second one collides and the run fails.

## Model

| member | source | states |
|---|---|---|
| Text.TrimStart | src/input_validator.py:12 | the result is a suffix of the input, what it drops is whitespace, and it does not start with whitespace |
| Text.TrimEnd | src/input_validator.py:12 | the result is a prefix of the input, what it drops is whitespace, and it does not end with whitespace |
| Text.Strip | src/input_validator.py:12 | the result is a contiguous slice of the input, with only whitespace cut on either side and no whitespace at either end |
| Text.StripTrimmed | src/remote_file_updater.py:43 | stripping a string with no whitespace at either end returns it unchanged |
| Text.StripIdempotent | src/input_validator.py:12 | `strip()` applied twice equals `strip()` applied once |
| Text.StripBlank | src/input_validator.py:12-15 | a string of whitespace only strips to the empty string |
| Staging.StageNewMember | src/database_updater.py:41-51 | a row is staged exactly when it is in the input and no stored row has its primary and natural key |
| Staging.StageNewMembers | src/database_updater.py:41-51 | the same, for all rows at once |
| Staging.StageNewDuplicate | src/database_updater.py:44-51 | two unstored rows with the same primary key are both staged, so the batch has a duplicate key |
| Staging.StageNewDuplicateSource | src/database_updater.py:44-51 | a duplicate key in the staged batch comes from two unstored input rows sharing that key |
| Staging.StageNewAllPresent | src/database_updater.py:44-51 | when every row is already stored, nothing is staged |
| Staging.InsertAllSucceeds | src/database_updater.py:52-53 | a bulk insert succeeds exactly when no row's key is stored and no two rows share a key |
| Staging.InsertAllContents | src/database_updater.py:52-53 | a successful bulk insert keeps every stored row and stores each inserted row under its key |
| Staging.InsertAllKeys | src/database_updater.py:52-53 | after a bulk insert, every key was stored before or belongs to an inserted row |
| Staging.InsertAllKeyed | src/database_updater.py:52-53 | a bulk insert into a table keyed by primary key leaves it keyed |
| Staging.StagedInsertFails | src/database_updater.py:44-53 | staging followed by the bulk insert fails exactly when an unstored row reuses a stored key, or two unstored rows share a key |
| Staging.StagedInsertKeeps | src/database_updater.py:44-53 | on success, stored rows stay as they were and every unstored row is stored under its key |
| Staging.StagedInsertOnly | src/database_updater.py:44-53 | on success, the only new keys are those of unstored rows |
| Staging.StagedInsertAllPresent | src/database_updater.py:44-53 | on success, every input row is present in the result |
| Reconciliation.MergeCategoriesFails | src/database_updater.py:39-53 | the category insert fails exactly when a new category reuses a stored id, or two new categories share an id |
| Reconciliation.MergeCategoriesResult | src/database_updater.py:39-53 | on success, stored categories are untouched, each new one is inserted with `created_at = now`, nothing else is added, and every record is then stored |
| Reconciliation.MergeCitiesFails | src/database_updater.py:55-69 | the city insert fails exactly on an id collision of a new city |
| Reconciliation.MergeCitiesResult | src/database_updater.py:55-69 | on success, cities are append-only, each new city is inserted with `created_at = now`, and every record is then stored |
| Reconciliation.MergeNeighborhoodsFails | src/database_updater.py:71-87 | the neighborhood insert fails exactly on an id collision of a new (id, name, city_id) record |
| Reconciliation.MergeNeighborhoodsResult | src/database_updater.py:71-87 | on success, neighborhoods are append-only, each new one is inserted with `created_at = now`, and every record is then stored |
| Reconciliation.LastMatch | src/database_updater.py:92-93 | the result is the last record that matches stored store `k` by (id, name), or none when no record does |
| Reconciliation.MergeStoresFrame | src/database_updater.py:92-104 | the store loop keeps the table's keys and every store's id, name and `created_at` |
| Reconciliation.MergeStoresAt | src/database_updater.py:92-104 | after the loop, each stored store is as it was, or as its last matching record made it |
| Reconciliation.MergeStoresStaged | src/database_updater.py:105-119 | the stores staged are exactly the unmatched records, in order, as new rows |
| Reconciliation.UpsertStoresFails | src/database_updater.py:92-126 | the store insert fails exactly when an unmatched record reuses a stored id, or two unmatched records share one |
| Reconciliation.UpsertStoresResult | src/database_updater.py:105-126 | on success: the keys are the stored ones plus the unmatched ids; each unmatched record is inserted with `created_at = updated_at = now` under an id no other record uses; every record then matches |
| Reconciliation.UpsertStoresExisting | src/database_updater.py:93-104 | on success, a stored store is unchanged or updated from its last matching record |
| Reconciliation.UpsertStoresUpdated | src/database_updater.py:93-104 | the last matching record sets address, vote, latitude, longitude, full_vote, comment, criminal_category_id, neighborhood_id and `updated_at = now`; id, name and created_at are unchanged |
| Reconciliation.UpsertStoresUntouched | src/database_updater.py:92-104 | a stored store that no record matches is left exactly as it was |
| Reconciliation.ReconcileFailsExactly | src/database_updater.py:23-136 | a run returns `False` exactly when the file is missing or unreadable, a row lacks a column, or a family's insert collides |
| Reconciliation.MergeCategoriesAgain | src/database_updater.py:39-53 | merging the same categories again changes nothing |
| Reconciliation.MergeCitiesAgain | src/database_updater.py:55-69 | merging the same cities again changes nothing |
| Reconciliation.MergeNeighborhoodsAgain | src/database_updater.py:71-87 | merging the same neighborhoods again changes nothing |
| Reconciliation.LastMatchSameEntry | src/database_updater.py:93 | which record matches store `k` depends only on the name stored under `k` |
| Reconciliation.UpsertStoresAgainAt | src/database_updater.py:92-126 | a second store merge leaves each store equal except for `updated_at`, and equal outright at the same instant |
| Reconciliation.UpsertStoresAgain | src/database_updater.py:92-126 | a second store merge succeeds, inserts nothing, and only restamps `updated_at` |
| Reconciliation.ReconcileIdempotent | src/database_updater.py:39-128 | re-running on the same file succeeds, leaves categories, cities and neighborhoods equal and all store keys the same, and changes stores only in `updated_at`; at the same instant it is a fixpoint |
| Reconciliation.ReconcileKeepsKeyed | src/database_updater.py:39-128 | a run keeps every table keyed by its rows' primary keys |
| Reconciliation.ReconcileNeverDeletes | src/database_updater.py:39-128 | a successful run keeps every stored key of all four tables; stored categories, cities and neighborhoods are unchanged, and stored stores keep id, name and `created_at` |
| Reconciliation.ReconcileRenamedStoreFails | src/database_updater.py:92-136 | a store record whose id is stored under another name makes the run fail |
| Reconciliation.ReconcileDuplicateNewStoreFails | src/database_updater.py:105-136 | two records for the same new store make the run fail |
| DatabaseUpdater.DatabaseUpdater.constructor | src/database_updater.py:12-21 | the updater starts over the given, keyed tables |
| DatabaseUpdater.DatabaseUpdater.UpdateFromExcel | src/database_updater.py:23-139 | returns `True` and commits exactly `Reconcile`'s tables, or returns `False` and leaves them unchanged; a missing file returns `False`; tables stay keyed |
| DatabaseUpdater.DatabaseUpdater.StageCategories | src/database_updater.py:40-51 | the category loop stops exactly on a missing column, else stages the records not stored by (id, title) |
| DatabaseUpdater.DatabaseUpdater.StageCities | src/database_updater.py:56-67 | the city loop stops exactly on a missing column, else stages the records not stored by (id, name) |
| DatabaseUpdater.DatabaseUpdater.StageNeighborhoods | src/database_updater.py:72-85 | the neighborhood loop stops exactly on a missing column, else stages the records not stored by (id, name, city_id) |
| DatabaseUpdater.DatabaseUpdater.StageStores | src/database_updater.py:90-119 | the store loop stops exactly on a missing column, else yields the updated table and the staged stores of `MergeStores` |
| DatabaseUpdater.DatabaseUpdater.PrePopulateDb | src/database_updater.py:141-143 | the same outcome as `UpdateFromExcel` |
| RemoteFileUpdater.PathsDistinct | src/remote_file_updater.py:18-20 | the file, `<file>.tmp` and `<file>.md5` are three different paths |
| RemoteFileUpdater.DecodeEncodeDigest | src/remote_file_updater.py:35-43 | text-mode reading of the bytes a fingerprint is written as returns the fingerprint |
| RemoteFileUpdater.SidecarRoundTrip | src/remote_file_updater.py:33-43 | `_load_md5` after `_save_md5(h)` returns `h` |
| RemoteFileUpdater.FetchUrlMissing | src/remote_file_updater.py:50-52 | without a remote URL nothing changes and the call returns `False` |
| RemoteFileUpdater.FetchChanged | src/remote_file_updater.py:62-76 | on a new fingerprint, the file holds the download, the sidecar loads the new fingerprint, the temp file is gone, `last_update = now`, other paths are unchanged, and the call returns `True` |
| RemoteFileUpdater.FetchWithoutSidecar | src/remote_file_updater.py:38-46 | a missing or unreadable sidecar makes every download a change |
| RemoteFileUpdater.FetchUnchanged | src/remote_file_updater.py:77-81 | on the stored fingerprint only the temp file goes away, and the call returns `False` |
| RemoteFileUpdater.FetchFailed | src/remote_file_updater.py:83-87 | a failed download removes only the temp file, keeps `last_update`, and returns `False` |
| RemoteFileUpdater.LoadDigestFrame | src/remote_file_updater.py:38-46 | loading the fingerprint depends on the sidecar path only |
| RemoteFileUpdater.FetchTwice | src/remote_file_updater.py:66-81 | downloading the same bytes again returns `False` and changes nothing |
| RemoteFileUpdater.RunSameContent | src/remote_file_updater.py:101-105 | loop iterations that all download the same bytes report a change at most in the first one |
| RemoteFileUpdater.RemoteFileUpdater.constructor | src/remote_file_updater.py:10-23 | the updater starts with no `last_update` and the stop event clear |
| RemoteFileUpdater.RemoteFileUpdater.SaveMd5 | src/remote_file_updater.py:33-36 | the sidecar is overwritten, after which it loads the saved fingerprint |
| RemoteFileUpdater.RemoteFileUpdater.DownloadFile | src/remote_file_updater.py:48-87 | the new state and the value returned are those of `Fetch` |
| RemoteFileUpdater.RemoteFileUpdater.Stop | src/remote_file_updater.py:89-91 | sets the stop event and changes nothing else |
| RemoteFileUpdater.RemoteFileUpdater.CheckLoop | src/remote_file_updater.py:101-105 | the callback runs only in an iteration whose download returned `True`, once at most; no iteration starts after a stop; the loop ends only on a stop or when the input runs out; the stop flag at the end is set exactly when it was set before the loop or `stop()` was called during the last iteration's sleep; the state is that of `Run` |
| InputValidator.ValidateName | src/input_validator.py:7-22 | a name is accepted exactly when it is not `None`, its stripped form is 2 to 20 characters long, and every character is allowed; the result is the stripped name; an empty or `None` name gets the emptiness error |
| InputValidator.BlankNameRejected | src/input_validator.py:9-15 | a whitespace-only name is rejected as too short |
| InputValidator.LongNameRejected | src/input_validator.py:16-17 | a stripped name longer than 20 characters is rejected |
| InputValidator.AcceptedNameShape | src/input_validator.py:14-22 | an accepted name is 2 to 20 characters long, all from the class `[a-zA-ZÀ-ÿ\s\-'.]` |
| InputValidator.NameIdempotent | src/input_validator.py:12-22 | validating an accepted name again returns it unchanged |
| InputValidator.CheckCategoryRange | src/input_validator.py:29-31 | the inner check accepts exactly 1 to 10 |
| InputValidator.ValidateCategoryId | src/input_validator.py:25-33 | returns `n` exactly when the text parses as `n` with 1 ≤ n ≤ 10; every failure carries "ID categoria non valido" |

## Left out

- Excel parsing with pandas (src/database_updater.py:31-37). It is replaced by the `Artifact` input. Converting cells to integers, strings and reals is not modelled.
- Logging, and the `updated_count` counter used only for a log line (src/database_updater.py:90, 104, 121-122).
- The constructors' environment, engine and session setup are not modelled. Only the state they leave is.
- Database constraints other than the primary key are not modelled: NOT NULL, and the foreign keys from neighborhood to city and from store to category and neighborhood. Their failures are not among the run's failures.
- Integer width of the `Integer` id columns (src/bot_db_entities.py:9, 17, 24, 31) is not modelled. Ids are unbounded, so the database's out-of-range failure is not among the run's failures.
- Blank cells: pandas reads a blank cell as NaN, not as `None`. The model reads a blank nullable cell as SQL NULL (`Has(None)`). In the source, the float columns of such a store then hold NaN rather than NULL, and a NaN `full_vote` is rejected by the `Boolean` column, which fails the run.
- SQLAlchemy session internals are not modelled: autoflush, and the state a failed run leaves in the session, which is never rolled back (src/database_updater.py:134-135). Each run of the model starts from the committed tables, so `UpdateFromExcel`'s contract describes one call on a clean session, not repeated calls on the same updater. In the source:
  - after an integrity error in a bulk insert, the session waits for a rollback that never comes, and every later `update_from_excel` call on that updater returns `False` until the process restarts;
  - after a missing column (`KeyError`), the families already inserted and the stores already updated stay pending in the session, and the next successful run commits them together with its own changes.
- ORM objects updated in place are modelled as map entries replaced by updated values. No aliasing between rows is modelled.
- `_calculate_md5` and its chunked read loop are not modelled. The fingerprint is a given function of the bytes.
- HTTP, timeouts and status codes are not modelled. They fold into `Download`.
- Text-mode newline translation when reading the sidecar is not modelled.
- The thread, `time.sleep`, `threading.Event` and the interval are not modelled. `CheckLoop` runs the loop body over a finite sequence of iterations. A stop during the sleep is part of each iteration's input.
- An exception raised by the callback, which ends the thread in the source, is not modelled.
- Python `int()` parsing rules are not modelled. `ValidateCategoryId` takes the parser as a parameter.
- Floating-point columns are exact reals. They are only copied.
- src/bot.py and src/dao.py (the Telegram handlers and query wrappers) are not part of this model.
- DatabaseUpdater.DatabaseUpdater.UpdateFromExcel: uses one `now` for every timestamp of a run, where the source reads the clock once per row.
- DatabaseUpdater.DatabaseUpdater.UpdateFromExcel: all failures lead to the same outcome (return `False` without committing), so the model does not say which row or family raised first.
- RemoteFileUpdater.Fetch: a failure after the old file is removed (src/remote_file_updater.py:72-75) is not modelled. A download either fails before that point or runs to the end.
- RemoteFileUpdater.DecodeText: treats any non-ASCII byte in the sidecar as a decoding error. The platform's text encoding may instead decode it, and `strip()` may then remove a non-ASCII whitespace character after a valid fingerprint.
- RemoteFileUpdater.FileSystem: models only whether each path holds readable bytes. Permissions, directories and the effect of a failed `os.remove` are not modelled.
