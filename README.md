# A verified model of a two-stage Glacier backup client

The system backs up local files in two stages.

- **Local stage** (`LocalIncrementalBackup.py`). It scans the configured trees and skips excluded directories and file extensions. It fingerprints every file and compares the scan with the state saved by the previous run. It builds either a *full* archive (every scanned path) or an *incremental* one (only new or changed paths). It names the archive and counts incrementals since the last full. When the chain of incrementals is complete, it writes a set-complete flag file for the second stage.
- **Remote stage** (`GlacierBackup.py`). It keeps a local cache of what the Glacier vault holds, because real vault inventories arrive hours later through asynchronous jobs. It polls the outstanding inventory jobs and reconciles the cache against any inventory that has arrived. It requests a new inventory when the last one is old enough. It estimates the vault's size and the next archive's size. It uploads the ready archive set only when the estimate fits in the remaining space.
- **Shared** (`BackupSupport.py`). It merges an options file over the hard-coded configuration.

The Dafny project has four modules:

| file | module | contents |
|---|---|---|
| `util.dfy` | `Util` | `Option`, `Result`, duplicate-freedom and the ordered-subsequence relation, with their lemmas |
| `backup_support.dfy` | `BackupSupport` | the configuration merge of `loadOptions` |
| `local_incremental_backup.dfy` | `LocalIncrementalBackup` | the exclusion state (a class `Exclusions` holding the two module-level globals), the directory filter, the change-set resolver, the rotation policy, and one run of the local stage |
| `glacier_backup.dfy` | `GlacierBackup` | inventory reconciliation, vault-size and next-archive estimates, the job poll, upload recording, and one run of the main block |

Loops in the source are methods, each proved equal to a specification function. The properties of the source are lemmas about those functions.

The outside world enters as parameters. These stand in for the file scan (`Snapshot`), the clock (`ts`, `now` for the reading at GlacierBackup.py:343, `Upload.uploadTime` for the one at line 318), the glob for an existing full archive (`fullArchiveExists`), the presence of the ready marker (`markerExists`), each Glacier reply (`Reply`, `newJobId`, `Upload`) and the parsed options file (`newCfg`). The `int(x * 1.1)` scaling of the size estimate is a function parameter `scale`.

A Python exception that the code does not catch becomes an `Err` value:

- the `KeyError` or `TypeError` that `generateNewMetadata` raises on an incremental path without a usable `lastBackupTS`;
- the `KeyError` on `lastActualInventoryTime` in the main block.

## Model

| member | source | states |
|---|---|---|
| BackupSupport.LoadOptions | BackupSupport.py:70-84 | without a loaded file the defaults come back unchanged; otherwise the result has exactly the default keys, each taking the loaded value when the file has one and the default otherwise |
| BackupSupport.MergeIdempotent | BackupSupport.py:74-81 | merging the same overrides twice gives the same configuration as merging them once |
| LocalIncrementalBackup.ExtensionsOf | LocalIncrementalBackup.py:79-81 | each forbidden extension comes from a `*` pattern, and every `*` pattern contributes its remainder |
| LocalIncrementalBackup.DirsOf | LocalIncrementalBackup.py:82-85 | a name is an excluded directory exactly when it is a pattern that does not start with `*` |
| LocalIncrementalBackup.ExclusionPartition | LocalIncrementalBackup.py:74-85 | every pattern goes to exactly one list: `*` patterns to extensions and not to directories, the rest to directories; the two lists together have one entry per pattern |
| LocalIncrementalBackup.Exclusions.constructor | LocalIncrementalBackup.py:37-39 | the module-level exclusion state starts as an empty extension list and an empty directory set |
| LocalIncrementalBackup.Exclusions.PrepareExclusionLists | LocalIncrementalBackup.py:74-85 | the forbidden extensions are extended (not reset) by the `*` suffixes in pattern order; the excluded directories are replaced by the set of the other patterns |
| LocalIncrementalBackup.Exclusions.MatchFileExtension | LocalIncrementalBackup.py:90-97 | true exactly when some forbidden extension is a suffix of the file name |
| LocalIncrementalBackup.FilterDirs | LocalIncrementalBackup.py:121 | the walk keeps a directory name exactly when it is listed and not excluded |
| LocalIncrementalBackup.FilterDirsKeepsOrder | LocalIncrementalBackup.py:121 | the kept directory names keep the walk's order |
| LocalIncrementalBackup.Paths | LocalIncrementalBackup.py:138 | the full list holds every scanned path, one per entry, in scan order |
| LocalIncrementalBackup.SnapshotMapAt | LocalIncrementalBackup.py:66-70 | the saved file list maps every scanned path to its own fingerprint |
| LocalIncrementalBackup.ChangedPaths | LocalIncrementalBackup.py:160-169 | every new path and every path whose fingerprint differs is listed, and every listed path is such a path of the scan |
| LocalIncrementalBackup.BuildFileListToBackup | LocalIncrementalBackup.py:130-169 | a missing record, no history, a missing or exceeded counter, or no full archive on disk gives every scanned path; otherwise exactly the changed paths; the full-backup override is raised exactly in the no-full-archive case |
| LocalIncrementalBackup.ChangedPathsInOrder | LocalIncrementalBackup.py:161-167 | the incremental list is an ordered subsequence of the scanned paths |
| LocalIncrementalBackup.ChangedPathsDistinct | LocalIncrementalBackup.py:161-167 | the incremental list has no duplicates |
| LocalIncrementalBackup.NothingChangedNothingListed | LocalIncrementalBackup.py:161-167 | when nothing is new or changed, the incremental list is empty |
| LocalIncrementalBackup.UnchangedSnapshotNeedsNothing | LocalIncrementalBackup.py:130-169 | re-running the resolver on the same scan, against the file list it just saved, gives an empty incremental list |
| LocalIncrementalBackup.GenerateNewMetadata | LocalIncrementalBackup.py:172-201 | the flag is raised exactly when the counter equals the maximum; a full resets the counter to 0 and is named `<ts>_full`; an incremental adds one to the counter and is named `<ts>_incr_from_<last>`; it fails exactly on an incremental path without a stamp; with a non-negative maximum the counter never exceeds maximum + 1 |
| LocalIncrementalBackup.RunChain | LocalIncrementalBackup.py:172-201 | successive runs of `generateNewMetadata`, each on the previous run's result: one result per timestamp until the first failure, which ends the chain, and the first result is that of the first run |
| LocalIncrementalBackup.RolloverChain | LocalIncrementalBackup.py:178-196 | from counter `c`, successive runs are incrementals `c+1` through `max+1`, then a forced full with counter 0; the flag is raised only on the last incremental |
| LocalIncrementalBackup.LocalRun | LocalIncrementalBackup.py:214-235 | a run fails exactly when the metadata record is missing, or when there is no history and the counter does not force a full; a failure inside `generateNewMetadata` still reports whether the flag file was written; a successful run archives the resolver's list, raises the flag exactly when the counter equals the maximum, takes the metadata `generateNewMetadata` produces with the resolver's override, and saves it with the current scan as the next file list |
| LocalIncrementalBackup.FlagWrittenBeforeFailure | LocalIncrementalBackup.py:178-196 | with the counter at the maximum but no usable stamp, the run writes the set-complete flag and then fails |
| LocalIncrementalBackup.IncrementalNameIsNotFull | LocalIncrementalBackup.py:189-196 | an incremental archive name never equals the full name for the same stamp |
| LocalIncrementalBackup.FullArchiveHoldsAllPaths | LocalIncrementalBackup.py:151-156 | whenever a run names a full archive it archives every scanned path and resets the counter; the override connects the resolver's no-full-archive case to the full name |
| LocalIncrementalBackup.IncrementalListMeansIncrementalArchive | LocalIncrementalBackup.py:158-196 | when the resolver picks an incremental, the run succeeds, archives exactly the changed paths, and names the archive from the previous stamp with the counter advanced by one |
| LocalIncrementalBackup.BlankPreviousState | LocalIncrementalBackup.py:62-63 | the blank state has no file list, a zero stamp and no counter, so it forces a full backup whatever the maximum |
| LocalIncrementalBackup.BlankStateTakesFull | LocalIncrementalBackup.py:55-63 | a run from the blank state archives every scanned path as a full, with counter 0 and no flag |
| GlacierBackup.Authoritative | GlacierBackup.py:184-190 | the inventory's archives are copied in order, one cache entry each, with the same id, description, time and size |
| GlacierBackup.NewerThanMembers | GlacierBackup.py:193-196 | a cached entry is kept exactly when its upload time is after the inventory date |
| GlacierBackup.NewerThanInOrder | GlacierBackup.py:193-196 | the kept entries keep their cached order |
| GlacierBackup.ReconcileInventory | GlacierBackup.py:171-198 | the two append loops build exactly the reconciled cache |
| GlacierBackup.ReconcileInvariant | GlacierBackup.py:171-198 | name and size limit are kept and the inventory date becomes the cut-off; the inventory's entries come first, in order, followed by the kept cached entries in their cached order |
| GlacierBackup.ReconcileMembership | GlacierBackup.py:183-196 | every entry comes from the inventory or is newer than the cut-off; no newer cached entry is lost; an older cached entry missing from the inventory is dropped |
| GlacierBackup.VaultSizeAppend | GlacierBackup.py:201-208 | the vault size is additive over concatenated contents |
| GlacierBackup.VaultSizeNonNegative | GlacierBackup.py:201-208 | with no negative sizes the vault size is not negative |
| GlacierBackup.CalculateVaultSize | GlacierBackup.py:201-208 | the accumulator loop gives the sum of the entry sizes |
| GlacierBackup.NewestUploadBounds | GlacierBackup.py:214-219 | the running maximum is 0 or some entry's upload time, it bounds every upload time, and at 0 the size is 0 |
| GlacierBackup.NewestUploadPicksFirstNewest | GlacierBackup.py:214-219 | the scan settles on the first entry with the greatest positive upload time, since ties do not replace it |
| GlacierBackup.NewestUploadOfNoUploads | GlacierBackup.py:214-219 | with no positive upload time the scan finds nothing |
| GlacierBackup.EstimateNextBackupSize | GlacierBackup.py:211-225 | the estimate is the scaled size of the first newest upload when that size is positive, otherwise the 110 MiB default, which is also the result when no upload time is positive |
| GlacierBackup.StillOutstanding | GlacierBackup.py:109-127 | only tracked jobs are kept, and every job whose status query failed or which is neither `Succeeded` nor `Failed` is kept |
| GlacierBackup.CheckOutstandingJobs | GlacierBackup.py:102-129 | the poll loop keeps exactly the still-outstanding jobs, and the inventory cache is the original cache reconciled with the last success, if any |
| GlacierBackup.StillOutstandingInOrder | GlacierBackup.py:109-127 | kept jobs keep their tracked order |
| GlacierBackup.StillOutstandingExactly | GlacierBackup.py:109-127 | for distinct jobs, a job is kept exactly when its query failed or it is neither `Succeeded` nor `Failed` |
| GlacierBackup.LastSucceededIsLast | GlacierBackup.py:118-121 | only the last `Succeeded` job's inventory counts, since each success reconciles the cache the poll was given |
| GlacierBackup.NoSuccessKeepsCache | GlacierBackup.py:106-127 | without a success the poll returns the cache unchanged |
| GlacierBackup.PollAsWrittenFrom | GlacierBackup.py:109-127 | the poll as written from job `i` on: once a response has been read the loop never raises; before that it raises exactly when the current query fails; the jobs kept so far stay a prefix, and every further kept job is a later tracked one |
| GlacierBackup.PollAsWritten | GlacierBackup.py:102-129 | the poll as written raises exactly when the first status query fails, and otherwise keeps only tracked jobs |
| GlacierBackup.StaleResponseDuplicatesJob | GlacierBackup.py:110-127 | as written, a failed query after a pending job lists the failed job twice, and a failed query on the first job raises; the corrected poll keeps each such job once |
| GlacierBackup.RecordUpload | GlacierBackup.py:292-331 | without the marker the cache is returned unchanged; with it, exactly one entry with the upload's id, path, time and size is appended after the existing entries, and name, limit and inventory time are kept |
| GlacierBackup.UploadGrowsVaultSize | GlacierBackup.py:292-331 | recording an upload grows the vault size by exactly the archive's size when the marker exists, and not at all otherwise |
| GlacierBackup.RemoteRun | GlacierBackup.py:337-361 | the run fails exactly when the polled cache has no inventory time; a new inventory is requested exactly when no job is outstanding and the last inventory is a window old, and it is then the only tracked job; total, remaining and estimate are as computed; the upload is admitted exactly when the estimate is below the remaining space; without an admitted upload the cache is the polled one, and with one it is the polled cache after `RecordUpload` |
| GlacierBackup.DefaultInventoryCacheAsWritten | GlacierBackup.py:71-75 | the default cache has the configured vault and limit, no archives, and no inventory time |
| GlacierBackup.FreshInstallNeverStarts | GlacierBackup.py:71-75 | as written, a first run from the default cache raises before any inventory is requested |
| GlacierBackup.FreshInstallRequestsInventory | GlacierBackup.py:343-348 | with the corrected default, a first run requests exactly one inventory and admits an upload only if 110 MiB fits in the limit |
| GlacierBackup.DefaultLimitAdmitsNoFirstUpload | GlacierBackup.py:33 | with the default 1 MiB limit and an empty cache, no upload is ever admitted and the cache is unchanged |

## Left out

- File-system and network I/O are not modelled. This covers reading and writing the JSON state files, `os.walk`, file hashing (BLAKE2b), tar creation, encryption through `openssl`, `glob`, the Glacier client calls and file deletion after an upload. Their results are parameters, and a read error becomes the `Sentinel` fingerprint.
- Logging and the debug and info printing are not modelled, because they do not affect any decision.
- ISO-8601 parsing of `InventoryDate` and `CreationDate` is not modelled. Dates arrive as Unix seconds.
- `retrieveInventoryResults`, `requestNewInventoryFromAmazon` and `uploadArchiveFileToGlacier` exit the process on a Glacier error. The model supplies their successful results only.
- `getFileSpecs` exiting when the specification file is missing is not modelled. Neither is `loadLastActualInventory`, which the main block never calls.
- The pruning branch is a TODO in the source and does nothing. The model does no pruning.
- `ExtensionsOf`, `DirsOf`, `PrepareExclusionLists`: these require non-empty patterns. An empty exclusion pattern makes the source raise `IndexError` on `exCand[0]`, and the model does not cover that failure.
- `EstimateNextBackupSize`: the floating-point `int(x * 1.1)` is an uninterpreted `scale` parameter, so no bound on the scaled value is stated.
- `RemoteRun`: the three estimates that the source stores in the saved cache (lines 352-354) are returned as fields of the plan instead.
- `LoadOptions`: dictionary key order is not kept, because the merged configuration is a map.
- `GenerateNewMetadata`: the full-backup override is a parameter. In the source, once `OverrideTakeFullBackup` is set in the module's configuration it stays set for the rest of the process. The model covers one run per process, which is how the script is used.
- `RolloverChain`: fixes the override to false, meaning a full archive exists on every run of the chain.
- The chain is one full backup followed by `max + 1` incrementals. The flag is raised when the counter equals the maximum, and a full is forced only once it exceeds the maximum. The model follows the code.
- The modelled success, upload and save paths show the behaviour the code would have once these defects are repaired. As the code stands, each defect stops the run with an exception before it reaches the modelled step:
  - GlacierBackup.py never imports `json` (its imports are lines 15-20), but `retrieveInventoryResults` calls `json.loads` at line 139. The `except` at line 140 catches only `ClientError`, so every job that reports `Succeeded` raises `NameError`. That is the reconcile-on-success path of `CheckOutstandingJobs`, `PolledCache` and `PollAsWritten`.
  - GlacierBackup.py:259 calls `encryptLocalFile` with two arguments, but BackupSupport.py:87 takes three. With the default non-empty key (line 30), an admitted upload raises `TypeError` before the append that `RecordUpload` models.
  - LocalIncrementalBackup.py:70 passes three arguments to the two-parameter `saveDataAsJSONFile` (BackupSupport.py:43), so the state in `LocalRun`'s `saved` field is never written.
  - LocalIncrementalBackup.py:230 passes four arguments to the three-parameter `encryptLocalFile` when a local key is set.
  - LocalIncrementalBackup.py:241 constructs `BackupSupport.BSLogHelper`, which BackupSupport.py does not define.
  - GlacierBackup.py:283 has the `prinf` typo on the upload-failure path, which the model does not cover.

## Findings

| source | as written | input that shows it | evidently intended | confidence | as-written member | corrected member |
|---|---|---|---|---|---|---|
| GlacierBackup.py:110-127 | after a `ClientError` from `describe_job` the job is appended, then the loop goes on to read the `response` of the previous iteration, or an unbound one on the first job | jobs `[a, b]`, where `a` answers `InProgress` and `b`'s query fails: `b` is kept twice. Job `[b]` alone with a failed query: `UnboundLocalError` | a job whose status cannot be read is kept once, and the loop moves on to the next job | not executed | GlacierBackup.StaleResponseDuplicatesJob | GlacierBackup.CheckOutstandingJobs |
| GlacierBackup.py:71-75, 343 | the default inventory cache, used when no cache file exists, has no `lastActualInventoryTime`, and the main block reads that key before any inventory has been requested | a first run with no cache file and no job file raises `KeyError`, so no inventory is ever requested and nothing is saved | the default cache starts with the cut-off of an empty inventory (0), so the first run requests an inventory | not executed | GlacierBackup.FreshInstallNeverStarts | GlacierBackup.FreshInstallRequestsInventory |
