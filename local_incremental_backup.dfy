/**
 * The local stage of the backup pipeline (LocalIncrementalBackup.py): the
 * exclusion rules applied while scanning, the change-set resolver that picks
 * the files of the next archive, and the rotation policy that names the
 * archive and counts incrementals since the last full backup.
 *
 * Walking the file system, hashing file contents, building the tar archive,
 * the clock and the archive-directory glob are not modelled: their results
 * are parameters (a snapshot, a timestamp string, a boolean).
 */
module LocalIncrementalBackup {
  import opened Util

  // ---------------------------------------------------------------------
  // Exclusion rules

  /** `filename.endswith(suffix)`; the empty suffix ends every name. */
  predicate EndsWith(filename: string, suffix: string) {
    |suffix| <= |filename| && filename[|filename| - |suffix|..] == suffix
  }

  /** Every exclusion pattern has a first character to inspect. */
  predicate NonEmptyPatterns(exclusions: seq<string>) {
    forall i :: 0 <= i < |exclusions| ==> exclusions[i] != []
  }

  /** The file-extension suffixes of the patterns that start with `*`, in input order. */
  function ExtensionsOf(exclusions: seq<string>): (exts: seq<string>)
    requires NonEmptyPatterns(exclusions)
    ensures forall e :: e in exts ==> "*" + e in exclusions
    ensures forall p :: p in exclusions && p[0] == '*' ==> p[1..] in exts
    decreases |exclusions|
  {
    if exclusions == [] then []
    else
      var rest, last := exclusions[..|exclusions| - 1], exclusions[|exclusions| - 1];
      assert exclusions == rest + [last];
      assert last[0] == '*' ==> "*" + last[1..] == last;
      ExtensionsOf(rest) + (if last[0] == '*' then [last[1..]] else [])
  }

  /** The directory names: the patterns that do not start with `*`, in input order. */
  function DirsOf(exclusions: seq<string>): (dirs: seq<string>)
    requires NonEmptyPatterns(exclusions)
    ensures forall d :: d in dirs <==> d in exclusions && d[0] != '*'
    decreases |exclusions|
  {
    if exclusions == [] then []
    else
      var rest, last := exclusions[..|exclusions| - 1], exclusions[|exclusions| - 1];
      assert exclusions == rest + [last];
      DirsOf(rest) + (if last[0] == '*' then [] else [last])
  }

  /**
   * Every pattern lands in exactly one of the two lists: a `*` pattern gives its
   * remainder to the extensions and is not a directory name, any other pattern
   * is a directory name; together the two lists have one entry per pattern.
   */
  lemma {:induction false} ExclusionPartition(exclusions: seq<string>)
    requires NonEmptyPatterns(exclusions)
    ensures |ExtensionsOf(exclusions)| + |DirsOf(exclusions)| == |exclusions|
    ensures forall i :: 0 <= i < |exclusions| && exclusions[i][0] == '*' ==>
              exclusions[i][1..] in ExtensionsOf(exclusions) && exclusions[i] !in DirsOf(exclusions)
    ensures forall i :: 0 <= i < |exclusions| && exclusions[i][0] != '*' ==>
              exclusions[i] in DirsOf(exclusions)
    decreases |exclusions|
  {
    if exclusions != [] {
      ExclusionPartition(exclusions[..|exclusions| - 1]);
    }
  }

  /**
   * The module-level exclusion state of the scanner (lines 38-39), which
   * `prepareExclusionLists` fills in and `matchFileExtension` consults.
   */
  class Exclusions {
    var forbiddenFileExtensions: seq<string>
    var excludeList: set<string>

    constructor ()
      ensures forbiddenFileExtensions == [] && excludeList == {}
    {
      forbiddenFileExtensions := [];
      excludeList := {};
    }

    /**
     * Appends the suffix of every `*` pattern to the forbidden extensions (the
     * list is extended, not reset) and replaces the excluded directory names
     * by the set of the other patterns.
     */
    method PrepareExclusionLists(exclusions: seq<string>)
      requires NonEmptyPatterns(exclusions)
      modifies this
      ensures forbiddenFileExtensions == old(forbiddenFileExtensions) + ExtensionsOf(exclusions)
      ensures excludeList == set d | d in DirsOf(exclusions)
    {
      var exDirs: seq<string> := [];
      var i := 0;
      while i < |exclusions|
        invariant 0 <= i <= |exclusions|
        invariant forbiddenFileExtensions == old(forbiddenFileExtensions) + ExtensionsOf(exclusions[..i])
        invariant exDirs == DirsOf(exclusions[..i])
      {
        var exCand := exclusions[i];
        assert exclusions[..i + 1][..i] == exclusions[..i];
        if exCand[0] == '*' {
          forbiddenFileExtensions := forbiddenFileExtensions + [exCand[1..]];
        } else {
          exDirs := exDirs + [exCand];
        }
        i := i + 1;
      }
      assert exclusions[..i] == exclusions;
      excludeList := set d | d in exDirs;
    }

    /** True exactly when some forbidden extension ends `filename`. */
    method MatchFileExtension(filename: string) returns (matched: bool)
      ensures matched <==> exists ext :: ext in forbiddenFileExtensions && EndsWith(filename, ext)
    {
      var i := 0;
      while i < |forbiddenFileExtensions|
        invariant 0 <= i <= |forbiddenFileExtensions|
        invariant forall j :: 0 <= j < i ==> !EndsWith(filename, forbiddenFileExtensions[j])
      {
        if EndsWith(filename, forbiddenFileExtensions[i]) {
          return true;
        }
        i := i + 1;
      }
      return false;
    }
  }

  /**
   * The directory names the walk descends into (line 121): those not in the
   * excluded set.
   */
  function FilterDirs(dirs: seq<string>, excludeList: set<string>): (kept: seq<string>)
    ensures forall d :: d in kept <==> d in dirs && d !in excludeList
    decreases |dirs|
  {
    if dirs == [] then []
    else
      var rest, last := dirs[..|dirs| - 1], dirs[|dirs| - 1];
      assert dirs == rest + [last];
      FilterDirs(rest, excludeList) + (if last in excludeList then [] else [last])
  }

  /** The kept directory names are in the order the walk listed them. */
  lemma {:induction false} FilterDirsKeepsOrder(dirs: seq<string>, excludeList: set<string>)
    ensures IsSubsequence(FilterDirs(dirs, excludeList), dirs)
    decreases |dirs|
  {
    if dirs != [] {
      var rest, last := dirs[..|dirs| - 1], dirs[|dirs| - 1];
      assert dirs == rest + [last];
      FilterDirsKeepsOrder(rest, excludeList);
      if last in excludeList {
        assert FilterDirs(dirs, excludeList) == FilterDirs(rest, excludeList);
        SubsequenceSkip(FilterDirs(rest, excludeList), rest, last);
      } else {
        SubsequenceKeep(FilterDirs(rest, excludeList), rest, last);
      }
    }
  }

  // ---------------------------------------------------------------------
  // Snapshots and persisted state

  /** A file fingerprint: a BLAKE2b hex digest, or the `0` that a failed read yields. */
  datatype Hash = Digest(hex: string) | Sentinel

  /** `lastBackupTS`: the integer `0` of a blank state, or a `%Y%m%d%H%M%S` stamp. */
  datatype Timestamp = Zero | Stamp(text: string)

  /** The persisted `metadata` record; every key is optional in a loaded file. */
  datatype Metadata = Metadata(
    lastBackupTS: Option<Timestamp>,
    numIncrementals: Option<int>,
    archiveName: Option<string>)

  /** One item of the current scan: a path and its fingerprint. */
  datatype FileEntry = FileEntry(path: string, hash: Hash)

  /** The current scan, in the order the walk inserted paths into the dictionary. */
  type Snapshot = seq<FileEntry>

  /** The persisted `filelist`: path to fingerprint. */
  type FileList = map<string, Hash>

  /** The loaded previous state; either key may be missing. */
  datatype PreviousState = PreviousState(metadata: Option<Metadata>, filelist: Option<FileList>)

  /** The state used when no previous state could be loaded (line 63). */
  function BlankPreviousState(): (b: PreviousState)
    ensures b.filelist.None? && b.metadata.Some?
    ensures NoHistory(b.metadata.value) && b.metadata.value.numIncrementals.None?
    ensures forall maxIncr: int :: StateForcesFull(b, maxIncr)
  {
    PreviousState(Some(Metadata(Some(Zero), None, None)), None)
  }

  /** A dictionary's keys are unique. */
  ghost predicate DistinctPaths(s: Snapshot) {
    forall i, j :: 0 <= i < j < |s| ==> s[i].path != s[j].path
  }

  /** `list(current.keys())`. */
  function Paths(s: Snapshot): (ps: seq<string>)
    ensures |ps| == |s|
    ensures forall i :: 0 <= i < |s| ==> ps[i] == s[i].path
    decreases |s|
  {
    if s == [] then [] else Paths(s[..|s| - 1]) + [s[|s| - 1].path]
  }

  /** The snapshot as the dictionary that is saved as the next `filelist`. */
  function SnapshotMap(s: Snapshot): FileList
    decreases |s|
  {
    if s == [] then map[] else SnapshotMap(s[..|s| - 1])[s[|s| - 1].path := s[|s| - 1].hash]
  }

  /** With unique paths, the saved dictionary maps each path to its own fingerprint. */
  lemma {:induction false} SnapshotMapAt(s: Snapshot)
    requires DistinctPaths(s)
    ensures forall i :: 0 <= i < |s| ==> s[i].path in SnapshotMap(s) && SnapshotMap(s)[s[i].path] == s[i].hash
    decreases |s|
  {
    if s != [] {
      SnapshotMapAt(s[..|s| - 1]);
    }
  }

  // ---------------------------------------------------------------------
  // Change-set resolver (buildfileListToBackup)

  /** Line 142: no usable last-backup time. */
  predicate NoHistory(m: Metadata) {
    m.lastBackupTS.None? || m.lastBackupTS.value.Zero?
  }

  /** Line 147: the counter is missing or already beyond the maximum. */
  predicate CounterForcesFull(m: Metadata, maxIncr: int) {
    m.numIncrementals.None? || m.numIncrementals.value > maxIncr
  }

  /** Lines 137-149: the checks made before the archive directory is consulted. */
  predicate StateForcesFull(previous: PreviousState, maxIncr: int) {
    || previous.metadata.None?
    || previous.filelist.None?
    || NoHistory(previous.metadata.value)
    || CounterForcesFull(previous.metadata.value, maxIncr)
  }

  /** Lines 137-156: the list holds every current path. */
  predicate IsFullBackup(previous: PreviousState, maxIncr: int, fullArchiveExists: bool) {
    StateForcesFull(previous, maxIncr) || !fullArchiveExists
  }

  /** Line 154: only the missing-base case sets `OverrideTakeFullBackup`. */
  predicate OverrideRaised(previous: PreviousState, maxIncr: int, fullArchiveExists: bool) {
    !StateForcesFull(previous, maxIncr) && !fullArchiveExists
  }

  /** Lines 163-167: the path is new, or its fingerprint differs from the saved one. */
  predicate IsChanged(entry: FileEntry, prevFiles: FileList) {
    entry.path !in prevFiles || prevFiles[entry.path] != entry.hash
  }

  /** The incremental change set: the changed paths of `current`, in its order. */
  function ChangedPaths(current: Snapshot, prevFiles: FileList): (changed: seq<string>)
    ensures forall e :: e in current && IsChanged(e, prevFiles) ==> e.path in changed
    ensures forall p :: p in changed ==> exists e :: e in current && e.path == p && IsChanged(e, prevFiles)
    decreases |current|
  {
    if current == [] then []
    else
      var rest, last := current[..|current| - 1], current[|current| - 1];
      assert current == rest + [last];
      ChangedPaths(rest, prevFiles) + (if IsChanged(last, prevFiles) then [last.path] else [])
  }

  /** The files of the next archive, as `buildfileListToBackup` returns them. */
  function FileListToBackup(current: Snapshot, previous: PreviousState, maxIncr: int, fullArchiveExists: bool): seq<string>
  {
    if IsFullBackup(previous, maxIncr, fullArchiveExists) then Paths(current)
    else ChangedPaths(current, previous.filelist.value)
  }

  /**
   * `buildfileListToBackup`: the first-match-wins decision table, then the
   * append loop over the current snapshot. The second result is whether the
   * function sets `cfg['OverrideTakeFullBackup']`.
   */
  method BuildFileListToBackup(current: Snapshot, previous: PreviousState, maxIncr: int, fullArchiveExists: bool)
    returns (backupFileList: seq<string>, overrideFull: bool)
    ensures IsFullBackup(previous, maxIncr, fullArchiveExists) ==> backupFileList == Paths(current)
    ensures !IsFullBackup(previous, maxIncr, fullArchiveExists) ==>
              backupFileList == ChangedPaths(current, previous.filelist.value)
    ensures overrideFull <==> OverrideRaised(previous, maxIncr, fullArchiveExists)
  {
    overrideFull := false;
    if previous.metadata.None? || previous.filelist.None? {
      return Paths(current), false;
    }
    var prevMeta := previous.metadata.value;
    if prevMeta.lastBackupTS.None? || prevMeta.lastBackupTS.value == Zero {
      return Paths(current), false;
    }
    if prevMeta.numIncrementals.None? || prevMeta.numIncrementals.value > maxIncr {
      return Paths(current), false;
    }
    if !fullArchiveExists {
      return Paths(current), true;
    }
    var prevFiles := previous.filelist.value;
    backupFileList := [];
    var i := 0;
    while i < |current|
      invariant 0 <= i <= |current|
      invariant backupFileList == ChangedPaths(current[..i], prevFiles)
    {
      var entry := current[i];
      assert current[..i + 1] == current[..i] + [entry];
      assert current[..i + 1][..i] == current[..i];
      if entry.path !in prevFiles {
        backupFileList := backupFileList + [entry.path];
      } else if entry.hash != prevFiles[entry.path] {
        backupFileList := backupFileList + [entry.path];
      }
      i := i + 1;
    }
    assert current[..i] == current;
  }

  /** The change set lists its paths in the order of the current snapshot. */
  lemma {:induction false} ChangedPathsInOrder(current: Snapshot, prevFiles: FileList)
    ensures IsSubsequence(ChangedPaths(current, prevFiles), Paths(current))
    decreases |current|
  {
    if current != [] {
      var rest, last := current[..|current| - 1], current[|current| - 1];
      var before := ChangedPaths(rest, prevFiles);
      ChangedPathsInOrder(rest, prevFiles);
      assert Paths(current) == Paths(rest) + [last.path];
      if IsChanged(last, prevFiles) {
        assert ChangedPaths(current, prevFiles) == before + [last.path];
        SubsequenceKeep(before, Paths(rest), last.path);
      } else {
        assert ChangedPaths(current, prevFiles) == before;
        SubsequenceSkip(before, Paths(rest), last.path);
      }
    }
  }

  /** With unique paths in the snapshot, the change set has no duplicates. */
  lemma ChangedPathsDistinct(current: Snapshot, prevFiles: FileList)
    requires DistinctPaths(current)
    ensures Distinct(ChangedPaths(current, prevFiles))
  {
    ChangedPathsInOrder(current, prevFiles);
    assert Distinct(Paths(current));
    SubsequenceOfDistinct(ChangedPaths(current, prevFiles), Paths(current));
  }

  /** When no path of the snapshot is new or changed, the change set is empty. */
  lemma {:induction false} NothingChangedNothingListed(current: Snapshot, prevFiles: FileList)
    requires forall i :: 0 <= i < |current| ==> !IsChanged(current[i], prevFiles)
    ensures ChangedPaths(current, prevFiles) == []
    decreases |current|
  {
    if current != [] {
      NothingChangedNothingListed(current[..|current| - 1], prevFiles);
    }
  }

  /**
   * Re-running the resolver against the file list it just saved, with no full
   * backup forced, yields an empty change set.
   */
  lemma UnchangedSnapshotNeedsNothing(current: Snapshot, meta: Metadata, maxIncr: int)
    requires DistinctPaths(current)
    requires !IsFullBackup(PreviousState(Some(meta), Some(SnapshotMap(current))), maxIncr, true)
    ensures FileListToBackup(current, PreviousState(Some(meta), Some(SnapshotMap(current))), maxIncr, true) == []
  {
    SnapshotMapAt(current);
    NothingChangedNothingListed(current, SnapshotMap(current));
  }

  // ---------------------------------------------------------------------
  // Rotation policy (generateNewMetadata)

  /** Why the incremental branch of `generateNewMetadata` raises. */
  datatype MetadataError =
    | MissingLastBackupTS    // KeyError at line 196
    | NonStringLastBackupTS  // TypeError: string + 0 at line 196

  /** The new metadata, and whether the set-complete flag file is written (lines 178-188). */
  datatype Generated = Generated(readyFlag: bool, metadata: Result<Metadata, MetadataError>)

  /** Line 189: this run is a full backup. */
  predicate TakesFull(prev: Metadata, overrideFull: bool, maxIncr: int) {
    overrideFull || CounterForcesFull(prev, maxIncr)
  }

  /**
   * `generateNewMetadata` with the clock reading `ts` and the presence of
   * `cfg['OverrideTakeFullBackup']` as `overrideFull`.
   */
  function GenerateNewMetadata(prev: Metadata, ts: string, overrideFull: bool, maxIncr: int): (g: Generated)
    ensures g.readyFlag <==> prev.numIncrementals == Some(maxIncr)
    ensures TakesFull(prev, overrideFull, maxIncr) ==>
              g.metadata == Ok(Metadata(Some(Stamp(ts)), Some(0), Some(ts + "_full")))
    ensures !TakesFull(prev, overrideFull, maxIncr) && prev.lastBackupTS.Some? && prev.lastBackupTS.value.Stamp? ==>
              g.metadata == Ok(Metadata(Some(Stamp(ts)), Some(prev.numIncrementals.value + 1),
                                        Some(ts + "_incr_from_" + prev.lastBackupTS.value.text)))
    ensures g.metadata.Err? <==> !TakesFull(prev, overrideFull, maxIncr) && NoHistory(prev)
    ensures g.metadata.Ok? ==> g.metadata.value.numIncrementals.Some?
    ensures g.metadata.Ok? && maxIncr >= 0 ==> g.metadata.value.numIncrementals.value <= maxIncr + 1
  {
    var readyFlag := prev.numIncrementals.Some? && prev.numIncrementals.value == maxIncr;
    if TakesFull(prev, overrideFull, maxIncr) then
      Generated(readyFlag, Ok(Metadata(Some(Stamp(ts)), Some(0), Some(ts + "_full"))))
    else
      match prev.lastBackupTS
      case None => Generated(readyFlag, Err(MissingLastBackupTS))
      case Some(Zero) => Generated(readyFlag, Err(NonStringLastBackupTS))
      case Some(Stamp(last)) =>
        Generated(readyFlag, Ok(Metadata(Some(Stamp(ts)), Some(prev.numIncrementals.value + 1),
                                         Some(ts + "_incr_from_" + last))))
  }

  /**
   * Successive runs without the override (a full archive is present), each
   * starting from the metadata the previous run produced; stops at an error.
   */
  function RunChain(m: Metadata, timestamps: seq<string>, maxIncr: int): (chain: seq<Generated>)
    ensures |chain| <= |timestamps|
    ensures timestamps == [] <==> chain == []
    ensures timestamps != [] ==> chain[0] == GenerateNewMetadata(m, timestamps[0], false, maxIncr)
    ensures forall i :: 0 <= i < |chain| - 1 ==> chain[i].metadata.Ok?
    ensures |chain| < |timestamps| ==> chain[|chain| - 1].metadata.Err?
    decreases |timestamps|
  {
    if timestamps == [] then []
    else
      var g := GenerateNewMetadata(m, timestamps[0], false, maxIncr);
      if g.metadata.Err? then [g]
      else [g] + RunChain(g.metadata.value, timestamps[1..], maxIncr)
  }

  /**
   * Rollover: from a counter `c` (0 right after a full), the next
   * `maxIncr + 1 - c` runs are incrementals numbered `c + 1` up to `maxIncr + 1`,
   * and the run after them is forced full and resets the counter to 0. The
   * set-complete flag is raised on exactly one of these runs: the last
   * incremental, just before the forced full.
   */
  lemma {:induction false} RolloverChain(m: Metadata, timestamps: seq<string>, maxIncr: int, c: int)
    requires m.numIncrementals == Some(c) && 0 <= c <= maxIncr + 1
    requires m.lastBackupTS.Some? && m.lastBackupTS.value.Stamp?
    requires |timestamps| == maxIncr + 2 - c
    ensures |RunChain(m, timestamps, maxIncr)| == |timestamps|
    ensures forall i :: 0 <= i < |timestamps| ==> RunChain(m, timestamps, maxIncr)[i].metadata.Ok?
    ensures forall i :: 0 <= i < |timestamps| - 1 ==>
              RunChain(m, timestamps, maxIncr)[i].metadata.value.numIncrementals == Some(c + i + 1)
    ensures RunChain(m, timestamps, maxIncr)[|timestamps| - 1].metadata.value ==
              Metadata(Some(Stamp(timestamps[|timestamps| - 1])), Some(0),
                       Some(timestamps[|timestamps| - 1] + "_full"))
    ensures forall i :: 0 <= i < |timestamps| ==>
              (RunChain(m, timestamps, maxIncr)[i].readyFlag <==> i == |timestamps| - 2)
    decreases |timestamps|
  {
    var runs := RunChain(m, timestamps, maxIncr);
    var g := GenerateNewMetadata(m, timestamps[0], false, maxIncr);
    if c == maxIncr + 1 {
      assert timestamps[1..] == [];
      assert RunChain(g.metadata.value, timestamps[1..], maxIncr) == [];
      assert runs == [g];
    } else {
      var next := g.metadata.value;
      assert next.numIncrementals == Some(c + 1);
      var rest := RunChain(next, timestamps[1..], maxIncr);
      RolloverChain(next, timestamps[1..], maxIncr, c + 1);
      assert runs == [g] + rest;
      forall i | 1 <= i < |timestamps|
        ensures runs[i] == rest[i - 1]
      {
      }
    }
  }

  // ---------------------------------------------------------------------
  // One run of the local stage (runLocalBackup without its I/O)

  /** Why a run raises before its archive is built. */
  datatype LocalError =
    | MissingMetadata                                         // KeyError at line 226
    | MetadataFailure(reason: MetadataError, readyFlag: bool)  // the flag file is already written

  /** What one run decides: the archive's files, the flag, the new metadata, the state saved for next time. */
  datatype LocalOutcome = LocalOutcome(files: seq<string>, readyFlag: bool, metadata: Metadata, saved: PreviousState)

  /**
   * Lines 221-232: resolve the file list, generate the metadata with the
   * override the resolver raised, and save the new metadata with the current
   * snapshot as the next `filelist`. A failure inside `generateNewMetadata`
   * comes after the set-complete flag file may have been written, so the
   * error carries whether it was.
   */
  function LocalRun(current: Snapshot, previous: PreviousState, ts: string, maxIncr: int, fullArchiveExists: bool)
    : (r: Result<LocalOutcome, LocalError>)
    ensures r.Err? <==>
              previous.metadata.None? ||
              (NoHistory(previous.metadata.value) && !CounterForcesFull(previous.metadata.value, maxIncr))
    ensures r == Err(MissingMetadata) <==> previous.metadata.None?
    ensures r.Err? && r.error.MetadataFailure? ==>
              (r.error.readyFlag <==> previous.metadata.value.numIncrementals == Some(maxIncr))
    ensures r.Ok? ==> r.value.files == FileListToBackup(current, previous, maxIncr, fullArchiveExists)
    ensures r.Ok? ==> (r.value.readyFlag <==> previous.metadata.value.numIncrementals == Some(maxIncr))
    ensures r.Ok? ==>
              r.value.metadata == GenerateNewMetadata(previous.metadata.value, ts,
                                                      OverrideRaised(previous, maxIncr, fullArchiveExists), maxIncr).metadata.value
    ensures r.Ok? ==> r.value.saved == PreviousState(Some(r.value.metadata), Some(SnapshotMap(current)))
  {
    var files := FileListToBackup(current, previous, maxIncr, fullArchiveExists);
    if previous.metadata.None? then Err(MissingMetadata)
    else
      var g := GenerateNewMetadata(previous.metadata.value, ts,
                                   OverrideRaised(previous, maxIncr, fullArchiveExists), maxIncr);
      match g.metadata
      case Err(e) => Err(MetadataFailure(e, g.readyFlag))
      case Ok(m) => Ok(LocalOutcome(files, g.readyFlag, m, PreviousState(Some(m), Some(SnapshotMap(current)))))
  }

  /**
   * A run whose counter has reached the maximum but whose record lacks a
   * usable stamp writes the set-complete flag and then fails: the remote stage
   * sees a ready set although this run saved nothing.
   */
  lemma FlagWrittenBeforeFailure(current: Snapshot, fileList: FileList, stamp: Option<Timestamp>, ts: string,
                                 maxIncr: int, fullArchiveExists: bool)
    requires stamp.None? || stamp == Some(Zero)
    ensures LocalRun(current, PreviousState(Some(Metadata(stamp, Some(maxIncr), None)), Some(fileList)),
                     ts, maxIncr, fullArchiveExists)
              == Err(MetadataFailure(if stamp.None? then MissingLastBackupTS else NonStringLastBackupTS, true))
  {
  }

  /** An incremental archive name never reads as a full one. */
  lemma IncrementalNameIsNotFull(ts: string, last: string)
    ensures ts + "_incr_from_" + last != ts + "_full"
  {
    assert (ts + "_incr_from_" + last)[|ts| + 1] == 'i';
    assert (ts + "_full")[|ts| + 1] == 'f';
  }

  /**
   * Whenever the run names a full archive, the archive holds every current
   * path: the override is raised only on a full-list path.
   */
  lemma FullArchiveHoldsAllPaths(current: Snapshot, previous: PreviousState, ts: string, maxIncr: int, fullArchiveExists: bool)
    requires LocalRun(current, previous, ts, maxIncr, fullArchiveExists).Ok?
    requires LocalRun(current, previous, ts, maxIncr, fullArchiveExists).value.metadata.archiveName == Some(ts + "_full")
    ensures LocalRun(current, previous, ts, maxIncr, fullArchiveExists).value.files == Paths(current)
    ensures LocalRun(current, previous, ts, maxIncr, fullArchiveExists).value.metadata.numIncrementals == Some(0)
  {
    var stamp := previous.metadata.value.lastBackupTS;
    IncrementalNameIsNotFull(ts, if stamp.Some? && stamp.value.Stamp? then stamp.value.text else "");
  }

  /**
   * When the resolver picks an incremental, the run names an incremental
   * archive from the previous stamp and advances the counter by one.
   */
  lemma IncrementalListMeansIncrementalArchive(current: Snapshot, previous: PreviousState, ts: string, maxIncr: int, fullArchiveExists: bool)
    requires !IsFullBackup(previous, maxIncr, fullArchiveExists)
    ensures LocalRun(current, previous, ts, maxIncr, fullArchiveExists).Ok?
    ensures LocalRun(current, previous, ts, maxIncr, fullArchiveExists).value.files
              == ChangedPaths(current, previous.filelist.value)
    ensures LocalRun(current, previous, ts, maxIncr, fullArchiveExists).value.metadata
              == Metadata(Some(Stamp(ts)), Some(previous.metadata.value.numIncrementals.value + 1),
                          Some(ts + "_incr_from_" + previous.metadata.value.lastBackupTS.value.text))
  {
  }

  /** A run from the blank state is a full backup of every scanned file. */
  lemma BlankStateTakesFull(current: Snapshot, ts: string, maxIncr: int, fullArchiveExists: bool)
    ensures LocalRun(current, BlankPreviousState(), ts, maxIncr, fullArchiveExists)
              == Ok(LocalOutcome(Paths(current), false, Metadata(Some(Stamp(ts)), Some(0), Some(ts + "_full")),
                                 PreviousState(Some(Metadata(Some(Stamp(ts)), Some(0), Some(ts + "_full"))),
                                               Some(SnapshotMap(current)))))
  {
  }
}
