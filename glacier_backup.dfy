/**
 * The remote stage of the backup pipeline (GlacierBackup.py): the locally
 * cached view of the vault, its reconciliation against an inventory that
 * Glacier delivers asynchronously, the poll of outstanding inventory jobs,
 * the capacity estimates, and the admission decisions of the main block.
 *
 * Every Glacier call is replaced by its outcome, supplied as a parameter: the
 * status reply and output of each job, the id of a newly requested job, the
 * result of an upload. Timestamps arrive already converted to Unix seconds.
 */
module GlacierBackup {
  import opened Util

  /** The estimate used when no earlier upload gives a size (line 225): 110 MiB. */
  const DEFAULT_NEXT_ARCHIVE_SIZE: int := 110 * 1024 * 1024

  /** The default `VaultSizeLimit` of the configuration (line 33): 1 MiB. */
  const DEFAULT_VAULT_SIZE_LIMIT: int := 1048576

  /** An entry of the cache's `vaultContents` (lines 185-190 and 315-320). */
  datatype Archive = Archive(archiveId: string, description: string, uploadTime: int, size: int)

  /** An entry of an inventory's `ArchiveList`, with `CreationDate` in Unix seconds. */
  datatype InventoryArchive = InventoryArchive(archiveId: string, archiveDescription: string, creationDate: int, size: int)

  /** A retrieved vault inventory, with `InventoryDate` in Unix seconds. */
  datatype Inventory = Inventory(inventoryDate: int, archiveList: seq<InventoryArchive>)

  /**
   * The inventory cache. `lastActualInventoryTime` is optional because the
   * default cache of `loadInventoryCache` does not have it.
   */
  datatype InventoryCache = InventoryCache(
    vaultName: string,
    vaultMaxSize: int,
    lastActualInventoryTime: Option<int>,
    vaultContents: seq<Archive>)

  /** An outstanding inventory-retrieval job, as stored at line 348. */
  datatype Job = Job(vaultId: string, jobId: string)

  /** What `describe_job` gave: a response with its `StatusCode`, or a `ClientError`. */
  datatype Query = Response(statusCode: string) | ClientError

  /** The poll of one job: its status query and what `get_job_output` would return for it. */
  datatype Reply = Reply(query: Query, output: Inventory)

  // ---------------------------------------------------------------------
  // Reconciliation (reconcileInventory)

  /** Lines 185-190: an authoritative entry in the cache's format. */
  function ToCacheEntry(a: InventoryArchive): Archive {
    Archive(a.archiveId, a.archiveDescription, a.creationDate, a.size)
  }

  /** The inventory's archives, copied in order. */
  function Authoritative(list: seq<InventoryArchive>): (entries: seq<Archive>)
    ensures |entries| == |list|
    ensures forall i :: 0 <= i < |list| ==> entries[i] == ToCacheEntry(list[i])
    decreases |list|
  {
    if list == [] then [] else Authoritative(list[..|list| - 1]) + [ToCacheEntry(list[|list| - 1])]
  }

  /** The cached entries uploaded strictly after `cutoff`, in their cached order. */
  function NewerThan(entries: seq<Archive>, cutoff: int): seq<Archive>
    decreases |entries|
  {
    if entries == [] then []
    else NewerThan(entries[..|entries| - 1], cutoff)
         + (if entries[|entries| - 1].uploadTime > cutoff then [entries[|entries| - 1]] else [])
  }

  /** A cached entry is kept exactly when it was uploaded after the cut-off. */
  lemma {:induction false} NewerThanMembers(entries: seq<Archive>, cutoff: int)
    ensures forall e :: e in NewerThan(entries, cutoff) <==> e in entries && e.uploadTime > cutoff
    decreases |entries|
  {
    if entries != [] {
      var rest, last := entries[..|entries| - 1], entries[|entries| - 1];
      assert entries == rest + [last];
      NewerThanMembers(rest, cutoff);
    }
  }

  /** The kept entries are a subsequence of the cached ones. */
  lemma {:induction false} NewerThanInOrder(entries: seq<Archive>, cutoff: int)
    ensures IsSubsequence(NewerThan(entries, cutoff), entries)
    decreases |entries|
  {
    if entries != [] {
      var rest, last := entries[..|entries| - 1], entries[|entries| - 1];
      assert entries == rest + [last];
      NewerThanInOrder(rest, cutoff);
      if last.uploadTime > cutoff {
        SubsequenceKeep(NewerThan(rest, cutoff), rest, last);
      } else {
        assert NewerThan(entries, cutoff) == NewerThan(rest, cutoff);
        SubsequenceSkip(NewerThan(rest, cutoff), rest, last);
      }
    }
  }

  /** The cache that `reconcileInventory` returns. */
  function Reconciled(cache: InventoryCache, inv: Inventory): InventoryCache {
    InventoryCache(cache.vaultName, cache.vaultMaxSize, Some(inv.inventoryDate),
                   Authoritative(inv.archiveList) + NewerThan(cache.vaultContents, inv.inventoryDate))
  }

  /** `reconcileInventory`: the two append loops that fill the new `vaultContents`. */
  method ReconcileInventory(inventoryCache: InventoryCache, newInventory: Inventory) returns (newInventoryCache: InventoryCache)
    ensures newInventoryCache == Reconciled(inventoryCache, newInventory)
  {
    var cutoff := newInventory.inventoryDate;
    var contents: seq<Archive> := [];
    var list := newInventory.archiveList;
    var i := 0;
    while i < |list|
      invariant 0 <= i <= |list|
      invariant contents == Authoritative(list[..i])
    {
      assert list[..i + 1][..i] == list[..i];
      assert Authoritative(list[..i + 1]) == Authoritative(list[..i]) + [ToCacheEntry(list[i])];
      contents := contents + [ToCacheEntry(list[i])];
      i := i + 1;
    }
    assert list[..i] == list;
    var cached := inventoryCache.vaultContents;
    var j := 0;
    while j < |cached|
      invariant 0 <= j <= |cached|
      invariant contents == Authoritative(list) + NewerThan(cached[..j], cutoff)
    {
      assert cached[..j + 1][..j] == cached[..j];
      if cached[j].uploadTime > cutoff {
        contents := contents + [cached[j]];
      }
      j := j + 1;
    }
    assert cached[..j] == cached;
    newInventoryCache := InventoryCache(inventoryCache.vaultName, inventoryCache.vaultMaxSize, Some(cutoff), contents);
  }

  /**
   * The reconciled cache keeps the vault's name and size limit, takes the
   * inventory's date as its cut-off, and lists every inventory entry in order
   * followed by the cached entries it keeps, which are in their cached order.
   */
  lemma ReconcileInvariant(cache: InventoryCache, inv: Inventory)
    ensures Reconciled(cache, inv).vaultName == cache.vaultName
    ensures Reconciled(cache, inv).vaultMaxSize == cache.vaultMaxSize
    ensures Reconciled(cache, inv).lastActualInventoryTime == Some(inv.inventoryDate)
    ensures |Reconciled(cache, inv).vaultContents| == |inv.archiveList| + |NewerThan(cache.vaultContents, inv.inventoryDate)|
    ensures forall i :: 0 <= i < |inv.archiveList| ==>
              Reconciled(cache, inv).vaultContents[i] == ToCacheEntry(inv.archiveList[i])
    ensures IsSubsequence(Reconciled(cache, inv).vaultContents[|inv.archiveList|..], cache.vaultContents)
  {
    var auth := Authoritative(inv.archiveList);
    var newer := NewerThan(cache.vaultContents, inv.inventoryDate);
    NewerThanInOrder(cache.vaultContents, inv.inventoryDate);
    assert (auth + newer)[|auth|..] == newer;
  }

  /**
   * Every reconciled entry comes from the inventory or is newer than the
   * cut-off; no cached entry newer than the cut-off is lost; an older cached
   * entry that the inventory lacks does not survive.
   */
  lemma ReconcileMembership(cache: InventoryCache, inv: Inventory)
    ensures forall e :: e in Reconciled(cache, inv).vaultContents ==>
              e in Authoritative(inv.archiveList) || e.uploadTime > inv.inventoryDate
    ensures forall e :: e in cache.vaultContents && e.uploadTime > inv.inventoryDate ==>
              e in Reconciled(cache, inv).vaultContents
    ensures forall e :: e in cache.vaultContents && e.uploadTime <= inv.inventoryDate && e !in Authoritative(inv.archiveList) ==>
              e !in Reconciled(cache, inv).vaultContents
  {
    var auth := Authoritative(inv.archiveList);
    var newer := NewerThan(cache.vaultContents, inv.inventoryDate);
    NewerThanMembers(cache.vaultContents, inv.inventoryDate);
    assert Reconciled(cache, inv).vaultContents == auth + newer;
    assert forall e :: e in auth + newer <==> e in auth || e in newer;
  }

  // ---------------------------------------------------------------------
  // Capacity (calculateVaultSize, estimateNextBackupSize)

  /** The sum of the entries' sizes. */
  function VaultSize(entries: seq<Archive>): int
    decreases |entries|
  {
    if entries == [] then 0 else VaultSize(entries[..|entries| - 1]) + entries[|entries| - 1].size
  }

  /** The total is additive over concatenation. */
  lemma {:induction false} VaultSizeAppend(a: seq<Archive>, b: seq<Archive>)
    ensures VaultSize(a + b) == VaultSize(a) + VaultSize(b)
    decreases |b|
  {
    if b != [] {
      var b' := b[..|b| - 1];
      assert (a + b)[..|a + b| - 1] == a + b';
      assert (a + b)[|a + b| - 1] == b[|b| - 1];
      VaultSizeAppend(a, b');
    } else {
      assert a + b == a;
    }
  }

  /** With no negative sizes the total is not negative. */
  lemma {:induction false} VaultSizeNonNegative(entries: seq<Archive>)
    requires forall i :: 0 <= i < |entries| ==> entries[i].size >= 0
    ensures VaultSize(entries) >= 0
    decreases |entries|
  {
    if entries != [] {
      VaultSizeNonNegative(entries[..|entries| - 1]);
    }
  }

  /** `calculateVaultSize`: the accumulator loop over `vaultContents`. */
  method CalculateVaultSize(inventoryCache: InventoryCache) returns (vaultSize: int)
    ensures vaultSize == VaultSize(inventoryCache.vaultContents)
  {
    var contents := inventoryCache.vaultContents;
    vaultSize := 0;
    var i := 0;
    while i < |contents|
      invariant 0 <= i <= |contents|
      invariant vaultSize == VaultSize(contents[..i])
    {
      assert contents[..i + 1][..i] == contents[..i];
      vaultSize := vaultSize + contents[i].size;
      i := i + 1;
    }
    assert contents[..i] == contents;
  }

  /** The running maximum of `estimateNextBackupSize`: newest upload time seen and its size. */
  datatype Newest = Newest(latestBackupDate: int, lastBackupSize: int)

  /** The running maximum after scanning `entries`, starting from (0, 0). */
  function NewestUpload(entries: seq<Archive>): Newest
    decreases |entries|
  {
    if entries == [] then Newest(0, 0)
    else
      var before := NewestUpload(entries[..|entries| - 1]);
      var last := entries[|entries| - 1];
      if last.uploadTime > before.latestBackupDate then Newest(last.uploadTime, last.size) else before
  }

  /** `k` is the first entry with the greatest upload time, and that time is positive. */
  ghost predicate FirstNewest(entries: seq<Archive>, k: int) {
    && 0 <= k < |entries|
    && entries[k].uploadTime > 0
    && (forall j :: 0 <= j < |entries| ==> entries[j].uploadTime <= entries[k].uploadTime)
    && (forall j :: 0 <= j < k ==> entries[j].uploadTime < entries[k].uploadTime)
  }

  /** The scan's date is 0 or some entry's time, and bounds every entry's time. */
  lemma {:induction false} NewestUploadBounds(entries: seq<Archive>)
    ensures NewestUpload(entries).latestBackupDate >= 0
    ensures forall j :: 0 <= j < |entries| ==> entries[j].uploadTime <= NewestUpload(entries).latestBackupDate
    ensures NewestUpload(entries).latestBackupDate == 0 ==> NewestUpload(entries).lastBackupSize == 0
    ensures NewestUpload(entries).latestBackupDate == 0 ||
            exists j :: 0 <= j < |entries| && entries[j].uploadTime == NewestUpload(entries).latestBackupDate
    decreases |entries|
  {
    if entries != [] {
      NewestUploadBounds(entries[..|entries| - 1]);
    }
  }

  /** The scan settles on the first entry with the greatest positive upload time. */
  lemma {:induction false} NewestUploadPicksFirstNewest(entries: seq<Archive>, k: int)
    requires FirstNewest(entries, k)
    ensures NewestUpload(entries) == Newest(entries[k].uploadTime, entries[k].size)
    decreases |entries|
  {
    var rest := entries[..|entries| - 1];
    if k == |entries| - 1 {
      NewestUploadBounds(rest);
      if NewestUpload(rest).latestBackupDate != 0 {
        var j :| 0 <= j < |rest| && rest[j].uploadTime == NewestUpload(rest).latestBackupDate;
        assert rest[j].uploadTime < entries[k].uploadTime;
      }
    } else {
      assert FirstNewest(rest, k);
      NewestUploadPicksFirstNewest(rest, k);
    }
  }

  /** With no positive upload time the scan finds nothing. */
  lemma {:induction false} NewestUploadOfNoUploads(entries: seq<Archive>)
    requires forall j :: 0 <= j < |entries| ==> entries[j].uploadTime <= 0
    ensures NewestUpload(entries) == Newest(0, 0)
    decreases |entries|
  {
    if entries != [] {
      NewestUploadOfNoUploads(entries[..|entries| - 1]);
    }
  }

  /**
   * The value `estimateNextBackupSize` returns, with `int(size * 1.1)` left
   * abstract as `scale`.
   */
  function NextArchiveEstimate(entries: seq<Archive>, scale: int -> int): int {
    var size := NewestUpload(entries).lastBackupSize;
    if size > 0 then scale(size) else DEFAULT_NEXT_ARCHIVE_SIZE
  }

  /**
   * `estimateNextBackupSize`: the running-maximum loop. The estimate is the
   * scaled size of the first entry with the greatest positive upload time, or
   * the default when there is no such entry or its size is not positive.
   */
  method EstimateNextBackupSize(inventoryCache: InventoryCache, scale: int -> int) returns (estimate: int)
    ensures estimate == NextArchiveEstimate(inventoryCache.vaultContents, scale)
    ensures (forall j :: 0 <= j < |inventoryCache.vaultContents| ==> inventoryCache.vaultContents[j].uploadTime <= 0) ==>
              estimate == DEFAULT_NEXT_ARCHIVE_SIZE
    ensures forall k :: FirstNewest(inventoryCache.vaultContents, k) ==>
              estimate == if inventoryCache.vaultContents[k].size > 0
                          then scale(inventoryCache.vaultContents[k].size) else DEFAULT_NEXT_ARCHIVE_SIZE
  {
    var contents := inventoryCache.vaultContents;
    var latestBackupDate, lastBackupSize := 0, 0;
    var i := 0;
    while i < |contents|
      invariant 0 <= i <= |contents|
      invariant Newest(latestBackupDate, lastBackupSize) == NewestUpload(contents[..i])
    {
      assert contents[..i + 1][..i] == contents[..i];
      if contents[i].uploadTime > latestBackupDate {
        latestBackupDate := contents[i].uploadTime;
        lastBackupSize := contents[i].size;
      }
      i := i + 1;
    }
    assert contents[..i] == contents;
    if lastBackupSize > 0 {
      estimate := scale(lastBackupSize);
    } else {
      estimate := DEFAULT_NEXT_ARCHIVE_SIZE;
    }
    if forall j :: 0 <= j < |contents| ==> contents[j].uploadTime <= 0 {
      NewestUploadOfNoUploads(contents);
    }
    forall k | FirstNewest(contents, k)
      ensures estimate == if contents[k].size > 0 then scale(contents[k].size) else DEFAULT_NEXT_ARCHIVE_SIZE
    {
      NewestUploadPicksFirstNewest(contents, k);
    }
  }

  // ---------------------------------------------------------------------
  // Outstanding jobs (checkOutstandingJobsAndUpdateInventoryIfNeeded)

  /** The job reported `Succeeded`. */
  predicate ReportsSucceeded(r: Reply) {
    r.query.Response? && r.query.statusCode == "Succeeded"
  }

  /** The job stays tracked: its query failed, or it is neither `Succeeded` nor `Failed`. */
  predicate StaysOutstanding(r: Reply) {
    !(r.query.Response? && (r.query.statusCode == "Succeeded" || r.query.statusCode == "Failed"))
  }

  /** The jobs kept for the next run, in their original order. */
  function StillOutstanding(jobs: seq<Job>, replies: seq<Reply>): (kept: seq<Job>)
    requires |replies| == |jobs|
    ensures forall j :: j in kept ==> j in jobs
    ensures forall i :: 0 <= i < |jobs| && StaysOutstanding(replies[i]) ==> jobs[i] in kept
    decreases |jobs|
  {
    if jobs == [] then []
    else
      var n := |jobs| - 1;
      StillOutstanding(jobs[..n], replies[..n]) + (if StaysOutstanding(replies[n]) then [jobs[n]] else [])
  }

  /** The output of the last job that reported `Succeeded`, if any. */
  function LastSucceeded(replies: seq<Reply>): Option<Inventory>
    decreases |replies|
  {
    if replies == [] then None
    else if ReportsSucceeded(replies[|replies| - 1]) then Some(replies[|replies| - 1].output)
    else LastSucceeded(replies[..|replies| - 1])
  }

  /**
   * The cache after the poll: every success reconciles the cache the poll was
   * given (line 121), so only the last success counts.
   */
  function PolledCache(cache: InventoryCache, replies: seq<Reply>): InventoryCache {
    match LastSucceeded(replies)
    case None => cache
    case Some(inv) => Reconciled(cache, inv)
  }

  /**
   * The poll loop, with a failed status query keeping its job exactly once
   * (see the findings for the code as written).
   */
  method CheckOutstandingJobs(jobCache: seq<Job>, inventoryCache: InventoryCache, replies: seq<Reply>)
    returns (newJobCache: seq<Job>, newInventoryCache: InventoryCache)
    requires |replies| == |jobCache|
    ensures newJobCache == StillOutstanding(jobCache, replies)
    ensures newInventoryCache == PolledCache(inventoryCache, replies)
  {
    newJobCache := [];
    newInventoryCache := inventoryCache;
    var i := 0;
    while i < |jobCache|
      invariant 0 <= i <= |jobCache|
      invariant newJobCache == StillOutstanding(jobCache[..i], replies[..i])
      invariant newInventoryCache == PolledCache(inventoryCache, replies[..i])
    {
      assert jobCache[..i + 1][..i] == jobCache[..i];
      assert replies[..i + 1][..i] == replies[..i];
      var reply := replies[i];
      match reply.query {
        case ClientError =>
          newJobCache := newJobCache + [jobCache[i]];
        case Response(jStatus) =>
          if jStatus == "Succeeded" {
            newInventoryCache := ReconcileInventory(inventoryCache, reply.output);
          } else if jStatus != "Failed" {
            newJobCache := newJobCache + [jobCache[i]];
          }
      }
      i := i + 1;
    }
    assert jobCache[..i] == jobCache;
    assert replies[..i] == replies;
  }

  /** The kept jobs are a subsequence of the tracked ones. */
  lemma {:induction false} StillOutstandingInOrder(jobs: seq<Job>, replies: seq<Reply>)
    requires |replies| == |jobs|
    ensures IsSubsequence(StillOutstanding(jobs, replies), jobs)
    decreases |jobs|
  {
    if jobs != [] {
      var n := |jobs| - 1;
      assert jobs == jobs[..n] + [jobs[n]];
      StillOutstandingInOrder(jobs[..n], replies[..n]);
      if StaysOutstanding(replies[n]) {
        SubsequenceKeep(StillOutstanding(jobs[..n], replies[..n]), jobs[..n], jobs[n]);
      } else {
        assert StillOutstanding(jobs, replies) == StillOutstanding(jobs[..n], replies[..n]);
        SubsequenceSkip(StillOutstanding(jobs[..n], replies[..n]), jobs[..n], jobs[n]);
      }
    }
  }

  /** Of distinct jobs, exactly those whose reply is neither `Succeeded` nor `Failed` are kept. */
  lemma {:induction false} StillOutstandingExactly(jobs: seq<Job>, replies: seq<Reply>)
    requires |replies| == |jobs| && Distinct(jobs)
    ensures forall i :: 0 <= i < |jobs| ==> (jobs[i] in StillOutstanding(jobs, replies) <==> StaysOutstanding(replies[i]))
    decreases |jobs|
  {
    if jobs != [] {
      var n := |jobs| - 1;
      var before := StillOutstanding(jobs[..n], replies[..n]);
      StillOutstandingExactly(jobs[..n], replies[..n]);
      forall i | 0 <= i < |jobs|
        ensures jobs[i] in StillOutstanding(jobs, replies) <==> StaysOutstanding(replies[i])
      {
        if i < n {
          assert jobs[i] != jobs[n];
          assert jobs[..n][i] == jobs[i];
        } else {
          assert forall j :: 0 <= j < n ==> jobs[..n][j] != jobs[n];
          assert jobs[n] !in before;
        }
      }
    }
  }

  /** The poll's inventory is that of the last success in the input order, or none. */
  lemma {:induction false} LastSucceededIsLast(replies: seq<Reply>, k: int)
    requires 0 <= k < |replies| && ReportsSucceeded(replies[k])
    requires forall j :: k < j < |replies| ==> !ReportsSucceeded(replies[j])
    ensures LastSucceeded(replies) == Some(replies[k].output)
    decreases |replies|
  {
    if k < |replies| - 1 {
      LastSucceededIsLast(replies[..|replies| - 1], k);
    }
  }

  /** Without a success the poll leaves the cache as it was. */
  lemma {:induction false} NoSuccessKeepsCache(cache: InventoryCache, replies: seq<Reply>)
    requires forall j :: 0 <= j < |replies| ==> !ReportsSucceeded(replies[j])
    ensures PolledCache(cache, replies) == cache
    decreases |replies|
  {
    if replies != [] {
      NoSuccessKeepsCache(cache, replies[..|replies| - 1]);
    }
  }

  // ---------------------------------------------------------------------
  // The poll as written: a failed query falls through to the stale response

  /** Why the poll as written raises. */
  datatype PollError = UnboundResponse

  /**
   * Lines 109-127 as written, from job `i` on: after a `ClientError` the job
   * is appended and the loop goes on to read `response`, which is unbound on
   * the first job and otherwise the previous job's response.
   */
  function PollAsWrittenFrom(jobs: seq<Job>, cache: InventoryCache, replies: seq<Reply>, i: nat,
                             response: Option<string>, kept: seq<Job>, current: InventoryCache)
    : (r: Result<(seq<Job>, InventoryCache), PollError>)
    requires |replies| == |jobs| && i <= |jobs|
    ensures response.Some? ==> r.Ok?
    ensures i < |jobs| && response.None? ==> (r.Err? <==> replies[i].query.ClientError?)
    ensures r.Ok? ==> |kept| <= |r.value.0| && r.value.0[..|kept|] == kept
    ensures r.Ok? ==> forall j :: j in r.value.0 ==> j in kept || j in jobs[i..]
    decreases |jobs| - i
  {
    if i == |jobs| then Ok((kept, current))
    else
      var kept' := if replies[i].query.ClientError? then kept + [jobs[i]] else kept;
      var response' := if replies[i].query.Response? then Some(replies[i].query.statusCode) else response;
      if response'.None? then Err(UnboundResponse)
      else if response'.value == "Succeeded" then
        PollAsWrittenFrom(jobs, cache, replies, i + 1, response', kept', Reconciled(cache, replies[i].output))
      else if response'.value == "Failed" then
        PollAsWrittenFrom(jobs, cache, replies, i + 1, response', kept', current)
      else
        PollAsWrittenFrom(jobs, cache, replies, i + 1, response', kept' + [jobs[i]], current)
  }

  /**
   * `checkOutstandingJobsAndUpdateInventoryIfNeeded` as written: it raises
   * exactly when the first status query fails, and otherwise keeps only
   * tracked jobs.
   */
  function PollAsWritten(jobs: seq<Job>, cache: InventoryCache, replies: seq<Reply>)
    : (r: Result<(seq<Job>, InventoryCache), PollError>)
    requires |replies| == |jobs|
    ensures r.Err? <==> |jobs| > 0 && replies[0].query.ClientError?
    ensures r.Ok? ==> forall j :: j in r.value.0 ==> j in jobs
  {
    PollAsWrittenFrom(jobs, cache, replies, 0, None, [], cache)
  }

  /**
   * A failed query after a pending job lists the failed job twice as written,
   * once when the intended poll keeps it; a failed query on the first job
   * raises as written.
   */
  lemma StaleResponseDuplicatesJob(cache: InventoryCache, inv: Inventory, a: Job, b: Job)
    ensures PollAsWritten([a, b], cache, [Reply(Response("InProgress"), inv), Reply(ClientError, inv)])
              == Ok(([a, b, b], cache))
    ensures StillOutstanding([a, b], [Reply(Response("InProgress"), inv), Reply(ClientError, inv)]) == [a, b]
    ensures PollAsWritten([b], cache, [Reply(ClientError, inv)]) == Err(UnboundResponse)
    ensures StillOutstanding([b], [Reply(ClientError, inv)]) == [b]
  {
    var replies := [Reply(Response("InProgress"), inv), Reply(ClientError, inv)];
    assert "InProgress" != "Succeeded" && "InProgress" != "Failed";
    assert [a, b][..1] == [a];
    assert replies[..1] == [replies[0]];
    assert [a] + [b] + [b] == [a, b, b];
    assert StillOutstanding([a], [replies[0]]) == [a];
    assert PollAsWrittenFrom([a, b], cache, replies, 2, Some("InProgress"), [a, b, b], cache) == Ok(([a, b, b], cache));
    assert PollAsWrittenFrom([a, b], cache, replies, 1, Some("InProgress"), [a], cache) == Ok(([a, b, b], cache));
    assert PollAsWrittenFrom([a, b], cache, replies, 0, None, [], cache) == Ok(([a, b, b], cache));
  }

  // ---------------------------------------------------------------------
  // The main block: poll, inventory request, capacity and upload admission

  /** The configuration values the main block reads. */
  datatype RemoteConfig = RemoteConfig(glacierVault: string, vaultSizeLimit: int, vaultInventoryRequestWindow: int)

  /**
   * The result of a successful upload: archive id, uploaded file, its size,
   * and the clock reading taken after the upload (line 318).
   */
  datatype Upload = Upload(archiveId: string, archivePath: string, size: int, uploadTime: int)

  /** Lines 315-320: the cache entry recorded for an upload. */
  function UploadedEntry(upload: Upload): Archive {
    Archive(upload.archiveId, upload.archivePath, upload.uploadTime, upload.size)
  }

  /** Why the main block raises. */
  datatype RemoteError = MissingLastActualInventoryTime  // KeyError at line 343

  /** What one run of the main block decides, with the three estimates of lines 352-354. */
  datatype RemotePlan = RemotePlan(
    jobCache: seq<Job>,
    inventoryCache: InventoryCache,
    inventoryRequested: bool,
    vaultEstimatedTotalSize: int,
    vaultEstimatedSpaceRemaining: int,
    nextArchiveEstimatedSize: int,
    uploadAdmitted: bool)

  /** Line 345: no job outstanding and the inventory at least a window old. */
  predicate ShouldRequestInventory(jobCache: seq<Job>, timeSinceLastInventory: int, window: int) {
    |jobCache| == 0 && timeSinceLastInventory >= window
  }

  /** Line 356: the estimate fits strictly in the remaining space. */
  predicate HasRoomFor(nextArchiveEstimatedSize: int, spaceRemaining: int) {
    nextArchiveEstimatedSize < spaceRemaining
  }

  /**
   * `backupLocalFilesIfNecessary` without its file and network work: with the
   * ready marker present, the uploaded archive is appended to the cache and
   * nothing else changes; without it the cache is returned as it was.
   */
  function RecordUpload(cache: InventoryCache, markerExists: bool, upload: Upload): (recorded: InventoryCache)
    ensures recorded.vaultName == cache.vaultName && recorded.vaultMaxSize == cache.vaultMaxSize
    ensures recorded.lastActualInventoryTime == cache.lastActualInventoryTime
    ensures !markerExists ==> recorded == cache
    ensures markerExists ==>
              |recorded.vaultContents| == |cache.vaultContents| + 1 &&
              recorded.vaultContents[..|cache.vaultContents|] == cache.vaultContents &&
              recorded.vaultContents[|cache.vaultContents|] == UploadedEntry(upload)
  {
    if !markerExists then cache
    else
      var contents := cache.vaultContents + [UploadedEntry(upload)];
      assert contents[..|cache.vaultContents|] == cache.vaultContents;
      cache.(vaultContents := contents)
  }

  /** A recorded upload grows the estimated vault size by exactly the archive's size. */
  lemma UploadGrowsVaultSize(cache: InventoryCache, markerExists: bool, upload: Upload)
    ensures VaultSize(RecordUpload(cache, markerExists, upload).vaultContents)
              == VaultSize(cache.vaultContents) + (if markerExists then upload.size else 0)
  {
    if markerExists {
      VaultSizeAppend(cache.vaultContents, [UploadedEntry(upload)]);
      assert VaultSize([UploadedEntry(upload)]) == upload.size;
    }
  }

  /**
   * Lines 337-361 from the loaded caches on: poll the jobs, request one new
   * inventory when none is outstanding and the last is a window old, estimate
   * the space, and upload only when the estimate fits in what is left of
   * `VaultSizeLimit`.
   */
  function RemoteRun(cfg: RemoteConfig, inventoryCache: InventoryCache, jobCache: seq<Job>, replies: seq<Reply>,
                     now: int, newJobId: string, markerExists: bool, upload: Upload, scale: int -> int)
    : (r: Result<RemotePlan, RemoteError>)
    requires |replies| == |jobCache|
    ensures r.Err? <==> PolledCache(inventoryCache, replies).lastActualInventoryTime.None?
    ensures r.Ok? ==>
              (r.value.inventoryRequested <==>
                 |StillOutstanding(jobCache, replies)| == 0 &&
                 now - PolledCache(inventoryCache, replies).lastActualInventoryTime.value >= cfg.vaultInventoryRequestWindow)
    ensures r.Ok? ==>
              r.value.jobCache == StillOutstanding(jobCache, replies) +
                                  (if r.value.inventoryRequested then [Job(cfg.glacierVault, newJobId)] else [])
    ensures r.Ok? && r.value.inventoryRequested ==> r.value.jobCache == [Job(cfg.glacierVault, newJobId)]
    ensures r.Ok? ==> r.value.vaultEstimatedTotalSize == VaultSize(PolledCache(inventoryCache, replies).vaultContents)
    ensures r.Ok? ==> r.value.vaultEstimatedSpaceRemaining == cfg.vaultSizeLimit - r.value.vaultEstimatedTotalSize
    ensures r.Ok? ==> r.value.nextArchiveEstimatedSize == NextArchiveEstimate(PolledCache(inventoryCache, replies).vaultContents, scale)
    ensures r.Ok? ==>
              (r.value.uploadAdmitted <==> r.value.nextArchiveEstimatedSize < r.value.vaultEstimatedSpaceRemaining)
    ensures r.Ok? && !(r.value.uploadAdmitted && markerExists) ==> r.value.inventoryCache == PolledCache(inventoryCache, replies)
    ensures r.Ok? && r.value.uploadAdmitted ==>
              r.value.inventoryCache == RecordUpload(PolledCache(inventoryCache, replies), markerExists, upload)
    ensures r.Ok? ==>
              VaultSize(r.value.inventoryCache.vaultContents) ==
                r.value.vaultEstimatedTotalSize + (if r.value.uploadAdmitted && markerExists then upload.size else 0)
  {
    var jobs := StillOutstanding(jobCache, replies);
    var cache := PolledCache(inventoryCache, replies);
    if cache.lastActualInventoryTime.None? then Err(MissingLastActualInventoryTime)
    else
      var timeSinceLastInventory := now - cache.lastActualInventoryTime.value;
      var request := ShouldRequestInventory(jobs, timeSinceLastInventory, cfg.vaultInventoryRequestWindow);
      var jobs' := if request then jobs + [Job(cfg.glacierVault, newJobId)] else jobs;
      var total := VaultSize(cache.vaultContents);
      var remaining := cfg.vaultSizeLimit - total;
      var next := NextArchiveEstimate(cache.vaultContents, scale);
      var admitted := HasRoomFor(next, remaining);
      var cache' := if admitted then RecordUpload(cache, markerExists, upload) else cache;
      UploadGrowsVaultSize(cache, markerExists, upload);
      Ok(RemotePlan(jobs', cache', request, total, remaining, next, admitted))
  }

  /**
   * The default cache of `loadInventoryCache` as written (lines 71-75): the
   * configured vault and limit, no archives, and no inventory time at all.
   */
  function DefaultInventoryCacheAsWritten(cfg: RemoteConfig): (c: InventoryCache)
    ensures c.vaultName == cfg.glacierVault && c.vaultMaxSize == cfg.vaultSizeLimit
    ensures c.vaultContents == [] && c.lastActualInventoryTime.None?
  {
    InventoryCache(cfg.glacierVault, cfg.vaultSizeLimit, None, [])
  }

  /**
   * On a first run (no cache file, no job file) the main block raises before
   * anything is saved, so no inventory is ever requested.
   */
  lemma FreshInstallNeverStarts(cfg: RemoteConfig, now: int, newJobId: string, markerExists: bool, upload: Upload, scale: int -> int)
    ensures RemoteRun(cfg, DefaultInventoryCacheAsWritten(cfg), [], [], now, newJobId, markerExists, upload, scale)
              == Err(MissingLastActualInventoryTime)
  {
  }

  /** The default cache with the cut-off of an empty inventory, 0. */
  function DefaultInventoryCache(cfg: RemoteConfig): InventoryCache {
    InventoryCache(cfg.glacierVault, cfg.vaultSizeLimit, Some(0), [])
  }

  /**
   * From that default a first run requests exactly one inventory, and with an
   * empty cache it estimates the default size against the whole limit.
   */
  lemma FreshInstallRequestsInventory(cfg: RemoteConfig, now: int, newJobId: string, markerExists: bool, upload: Upload, scale: int -> int)
    requires now >= cfg.vaultInventoryRequestWindow
    ensures RemoteRun(cfg, DefaultInventoryCache(cfg), [], [], now, newJobId, markerExists, upload, scale).Ok?
    ensures RemoteRun(cfg, DefaultInventoryCache(cfg), [], [], now, newJobId, markerExists, upload, scale).value.jobCache
              == [Job(cfg.glacierVault, newJobId)]
    ensures (RemoteRun(cfg, DefaultInventoryCache(cfg), [], [], now, newJobId, markerExists, upload, scale).value.uploadAdmitted
             <==> DEFAULT_NEXT_ARCHIVE_SIZE < cfg.vaultSizeLimit)
  {
  }

  /**
   * With the default size limit, a run whose cache lists no archive never
   * admits an upload: the default estimate exceeds the whole limit.
   */
  lemma DefaultLimitAdmitsNoFirstUpload(cfg: RemoteConfig, cache: InventoryCache, now: int, newJobId: string,
                                        markerExists: bool, upload: Upload, scale: int -> int)
    requires cfg.vaultSizeLimit == DEFAULT_VAULT_SIZE_LIMIT
    requires cache.vaultContents == [] && cache.lastActualInventoryTime.Some?
    ensures RemoteRun(cfg, cache, [], [], now, newJobId, markerExists, upload, scale).Ok?
    ensures !RemoteRun(cfg, cache, [], [], now, newJobId, markerExists, upload, scale).value.uploadAdmitted
    ensures RemoteRun(cfg, cache, [], [], now, newJobId, markerExists, upload, scale).value.inventoryCache == cache
  {
  }
}
