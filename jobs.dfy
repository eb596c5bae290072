/**
 * The batch-job engine of the server: the `JobManager` class with its
 * status machine, claim cursor, completion counter, result list and the set
 * of SSE clients it broadcasts to.
 *
 * JavaScript runs `worker` on one thread, so everything between two `await`s
 * is atomic. A worker iteration is therefore three steps of the class:
 * `Claim` (loop test, cursor increment, backup decision), `Announce` (the
 * log lines) and `Complete` (push, increment, progress and completion
 * events). Any interleaving of these steps by any number of workers keeps
 * `Valid()`.
 */
module Jobs {
  import opened Common
  import opened Paths
  import opened Backup
  import opened Compression
  import opened ImageFiles

  datatype Status = Idle | Running | Paused | Cancelled | Completed

  /** An SSE response stream, by identity. */
  type Client = nat

  datatype LogMessage =
    | BackupWarning(file: string)                                        // `[警告] 备份失败: <file> - …`
    | Processing(position: nat, count: nat, folder: string, file: string) // `正在处理 (<position>/<count>): <folder>/<file>`

  /** The JSON objects written to the streams. */
  datatype Event =
    | Init(status: Status, current: nat, total: nat)
    | JobStarted(total: nat)                   // status running, current 0
    | JobPaused
    | JobResumed(total: nat, current: nat)     // status running again
    | JobCancelled
    | ItemProgress(current: nat, total: nat, percent: Option<int>, processed: Option<nat>, result: CompressionResult)
    | JobCompleted(total: nat, current: nat, results: seq<CompressionResult>)
    | Log(message: LogMessage)

  /**
   * `Math.round(c / t * 100)` on exact rationals; `None` is the JSON `null`
   * that `Infinity` and `NaN` become when the total is 0.
   */
  function Percent(c: nat, t: nat): (r: Option<int>)
    ensures r.None? <==> t == 0
  {
    if t == 0 then None else Some((200 * c + t) / (2 * t))
  }

  /** A finished job reports 100%, and a job in progress between 0% and 100%, growing with the count. */
  lemma PercentBounds(c: nat, c': nat, t: nat)
    requires 0 < t && c <= c' <= t
    ensures Percent(t, t) == Some(100)
    ensures 0 <= Percent(c, t).value <= Percent(c', t).value <= 100
  {
    DivIs(200 * t + t, 2 * t, 100);
    DivMonotone(200 * c + t, 200 * c' + t, 2 * t);
    DivMonotone(200 * c' + t, 200 * t + t, 2 * t);
  }

  lemma MulCancelLt(d: int, a: int, b: int)
    requires 0 < d && d * a < d * b
    ensures a < b
  {
  }

  lemma DivIs(x: nat, d: nat, q: nat)
    requires 0 < d && q * d <= x < q * d + d
    ensures x / d == q
  {
    var r := x / d;
    assert d * r <= x < d * r + d;
    assert d * r < d * (q + 1);
    assert d * q < d * (r + 1);
    MulCancelLt(d, r, q + 1);
    MulCancelLt(d, q, r + 1);
  }

  lemma DivMonotone(a: nat, b: nat, d: nat)
    requires 0 < d && a <= b
    ensures a / d <= b / d
  {
    assert d * (a / d) <= a <= b < d * (b / d) + d;
    MulCancelLt(d, a / d, b / d + 1);
  }

  /**
   * `ended` streams lose their place in the client set; every other client
   * in `clients` receives `es` after what it had.
   */
  ghost predicate Delivered(before: map<Client, seq<Event>>, clients: set<Client>, ended: set<Client>,
                            es: seq<Event>, after: map<Client, seq<Event>>)
  {
    && after.Keys == before.Keys
    && forall c :: c in before ==>
         after[c] == (if c in clients && c !in ended then before[c] + es else before[c])
  }

  /** Two broadcasts in one atomic step deliver both events, in order. */
  lemma DeliveredTwice(s0: map<Client, seq<Event>>, s1: map<Client, seq<Event>>, s2: map<Client, seq<Event>>,
                       clients: set<Client>, ended: set<Client>, e1: Event, e2: Event)
    requires Delivered(s0, clients, ended, [e1], s1)
    requires Delivered(s1, clients - ended, ended, [e2], s2)
    ensures Delivered(s0, clients, ended, [e1, e2], s2)
  {
    forall c | c in s0
      ensures s2[c] == (if c in clients && c !in ended then s0[c] + [e1, e2] else s0[c])
    {
      if c in clients && c !in ended {
        assert s2[c] == s0[c] + [e1] + [e2];
      }
    }
  }

  /** What `Claim` hands a worker: the index, the file and the backup step taken for it. */
  datatype Claimed = Claimed(index: nat, file: Path, backup: Outcome)

  /** Which run a completion belongs to: the current one, or one reset since the claim. */
  datatype Ticket = Current(index: nat) | Stale

  /** `path.extname(filePath).toLowerCase() === '.png'`. */
  predicate IsPngFile(file: Path) {
    Lower(Extname(Basename(file))) == ".png"
  }

  /** The result `compressImageCore` gives a worker for one file. */
  function ResultFor(file: Path, images: Path -> SourceImage, codecs: Path -> Codec, selected: seq<Path>)
    : (r: CompressionResult)
    ensures r.fullPath == file
  {
    Compressed(file, images(file), codecs(file), IsPngFile(file), selected).0
  }

  /**
   * `compress` gives each file the result `compressImageCore` computes for it
   * from the image store and the codecs.
   */
  ghost predicate Compresses(compress: Path -> CompressionResult, images: Path -> SourceImage, codecs: Path -> Codec,
                             selected: seq<Path>)
  {
    forall f {:trigger ResultFor(f, images, codecs, selected)} :: compress(f) == ResultFor(f, images, codecs, selected)
  }

  /** Run `compressImageCore` on one file. */
  method CompressFile(file: Path, images: Path -> SourceImage, codecs: Path -> Codec, selected: seq<Path>,
                      ghost compress: Path -> CompressionResult) returns (result: CompressionResult)
    requires Compresses(compress, images, codecs, selected)
    ensures result == compress(file) && result.fullPath == file
  {
    var written;
    result, written := CompressImageCore(file, images(file), codecs(file), IsPngFile(file), selected);
    assert result == ResultFor(file, images, codecs, selected);
  }

  /** The results a worker collects for the files at indices `lo` up to `hi` of `fs`, in order. */
  function Outcomes(fs: seq<Path>, lo: nat, hi: nat, compress: Path -> CompressionResult): (r: seq<CompressionResult>)
    requires lo <= hi <= |fs|
    ensures |r| == hi - lo
    decreases hi
  {
    if hi == lo then [] else Outcomes(fs, lo, hi - 1, compress) + [compress(fs[hi - 1])]
  }

  /**
   * Ghost bookkeeping of a job: the indices of the current run claimed and
   * not yet completed, the index behind each current-run completion in
   * completion order, the claims still in flight from runs reset since,
   * and the completions of such claims that landed in the current run.
   */
  datatype Ledger = Ledger(inFlight: set<nat>, origin: seq<nat>, stale: nat, late: nat)

  /** The cursor, the counter and the ghost bookkeeping agree. */
  ghost predicate Agree(files: seq<Path>, results: seq<CompressionResult>, total: nat, processedCount: nat,
                        completedCount: nat, ledger: Ledger)
  {
    && total == |files|
    && processedCount <= total
    && (forall i :: i in ledger.inFlight ==> i < processedCount)
    && (forall k :: 0 <= k < |ledger.origin| ==> ledger.origin[k] < processedCount && ledger.origin[k] !in ledger.inFlight)
    && NoDup(ledger.origin)
    && |ledger.origin| + |ledger.inFlight| == processedCount
    && completedCount == |results| == |ledger.origin| + ledger.late
    && (ledger.late == 0 ==> forall k :: 0 <= k < |ledger.origin| ==> results[k].fullPath == files[ledger.origin[k]])
  }

  class JobManager {
    var files: seq<Path>
    var results: seq<CompressionResult>
    var total: nat
    /** The claim cursor. */
    var processedCount: nat
    var completedCount: nat
    var status: Status
    var selectedPaths: seq<Path>
    var doBackup: bool
    var rootPath: Option<Path>
    var clients: set<Client>
    /** Everything written to each stream so far. */
    var sent: map<Client, seq<Event>>
    const concurrency: nat

    /** Ghost bookkeeping of the claims and completions. */
    ghost var ledger: Ledger

    /** The cursor, the counter and the ghost bookkeeping agree. */
    ghost predicate Counters()
      reads this
    {
      Agree(files, results, total, processedCount, completedCount, ledger) && clients <= sent.Keys
    }

    ghost predicate Valid()
      reads this
    {
      && Counters()
      && status != Cancelled
      && (status == Idle ==> files == [] && processedCount == 0)
      && (status == Completed ==> total > 0)
      && (ledger.late == 0 && total > 0 ==> (status == Completed <==> completedCount == total))
    }

    constructor()
      ensures Valid() && fresh(this)
      ensures status == Idle && files == [] && results == [] && total == 0
      ensures processedCount == 0 && completedCount == 0
      ensures clients == {} && sent == map[] && concurrency == 4
      ensures ledger.inFlight == {} && ledger.stale == 0 && ledger.late == 0
    {
      files, results, total := [], [], 0;
      processedCount, completedCount := 0, 0;
      status := Idle;
      selectedPaths, doBackup, rootPath := [], false, None;
      clients, sent := {}, map[];
      concurrency := 4;
      ledger := Ledger({}, [], 0, 0);
    }

    /** `reset()`: an empty idle job. Claims in flight become stale; the clients stay. */
    method Reset()
      requires clients <= sent.Keys
      modifies this`files, this`results, this`total, this`processedCount, this`completedCount, this`status,
               this`selectedPaths, this`doBackup, this`rootPath,
               this`ledger
      ensures Valid()
      ensures status == Idle && files == [] && results == [] && total == 0
      ensures processedCount == 0 && completedCount == 0
      ensures selectedPaths == [] && !doBackup && rootPath == None
      ensures ledger.inFlight == {} && ledger.stale == old(ledger.stale) + |old(ledger.inFlight)| && ledger.late == 0
    {
      files, results, total := [], [], 0;
      processedCount, completedCount := 0, 0;
      status := Idle;
      selectedPaths, doBackup, rootPath := [], false, None;
      ledger := Ledger({}, [], ledger.stale + |ledger.inFlight|, 0);
    }

    /** `broadcast(data)`: write to every live client, dropping the ended ones on the way. */
    method Broadcast(e: Event, ended: set<Client>)
      requires clients <= sent.Keys
      modifies this`clients, this`sent
      ensures clients == old(clients) - ended
      ensures Delivered(old(sent), old(clients), ended, [e], sent)
    {
      var pending := clients;
      while pending != {}
        invariant pending <= old(clients)
        invariant clients == old(clients) - (ended * (old(clients) - pending))
        invariant sent.Keys == old(sent).Keys
        invariant forall c :: c in old(sent) ==>
          sent[c] == (if c in old(clients) - pending && c !in ended then old(sent)[c] + [e] else old(sent)[c])
        decreases pending
      {
        var c :| c in pending;
        if c !in ended {
          sent := sent[c := sent[c] + [e]];
        } else {
          clients := clients - {c};
        }
        pending := pending - {c};
      }
    }

    /** `addClient(res)`: the new stream gets the current state at once. */
    method AddClient(c: Client)
      modifies this`clients, this`sent
      ensures clients == old(clients) + {c}
      ensures sent == old(sent)[c := (if c in old(sent) then old(sent)[c] else []) + [Init(status, completedCount, total)]]
    {
      clients := clients + {c};
      var before := if c in sent then sent[c] else [];
      sent := sent[c := before + [Init(status, completedCount, total)]];
    }

    method RemoveClient(c: Client)
      modifies this`clients
      ensures clients == old(clients) - {c}
    {
      clients := clients - {c};
    }

    /**
     * `start(files, options)` up to the spawning of the workers, which then
     * run as `Claim` / `Announce` / `Complete` steps.
     */
    method Start(newFiles: seq<Path>, selected: seq<Path>, backup: bool, root: Option<Path>, ended: set<Client>)
      requires Valid()
      modifies this
      ensures Valid()
      ensures status == Running && files == newFiles && total == |newFiles| && results == []
      ensures processedCount == 0 && completedCount == 0
      ensures selectedPaths == selected && doBackup == backup && rootPath == root
      ensures clients == old(clients) - ended
      ensures Delivered(old(sent), old(clients), ended, [JobStarted(|newFiles|)], sent)
      ensures ledger.inFlight == {} && ledger.late == 0 && ledger.stale == old(ledger.stale) + |old(ledger.inFlight)|
    {
      Reset();
      files := newFiles;
      total := |newFiles|;
      selectedPaths, doBackup, rootPath := selected, backup, root;
      status := Running;
      Broadcast(JobStarted(total), ended);
    }

    /**
     * The head of the worker loop and the synchronous start of its body:
     * while the job runs and the cursor is below the total, take the next
     * index and decide its backup against the files `existing` on disk.
     */
    method Claim(existing: set<Path>, ioFails: Path -> bool) returns (c: Option<Claimed>)
      requires Valid()
      modifies this`processedCount, this`ledger
      ensures Valid()
      ensures c.Some? <==> old(status) == Running && old(processedCount) < total
      ensures c.None? ==> processedCount == old(processedCount) && ledger.inFlight == old(ledger.inFlight)
      ensures c.Some? ==>
        && c.value.index == old(processedCount) < total
        && c.value.index !in old(ledger.inFlight) && c.value.index !in ledger.origin
        && processedCount == old(processedCount) + 1
        && ledger.inFlight == old(ledger.inFlight) + {c.value.index}
        && c.value.file == files[c.value.index]
        && c.value.backup == BackupFile(doBackup, rootPath, c.value.file, existing, ioFails(c.value.file))
    {
      if !(status == Running && processedCount < total) {
        return None;
      }
      var index := processedCount;
      processedCount := processedCount + 1;
      ledger := ledger.(inFlight := ledger.inFlight + {index});
      var file := files[index];
      c := Some(Claimed(index, file, BackupFile(doBackup, rootPath, file, existing, ioFails(file))));
    }

    /** After the backup: a warning if it failed, then the "processing" line. */
    method Announce(c: Claimed, ended: set<Client>)
      requires Valid()
      modifies this`clients, this`sent
      ensures Valid()
      ensures clients == old(clients) - ended
      ensures var line := Log(Processing(c.index + 1, total, Basename(Dirname(c.file)), Basename(c.file)));
              if c.backup.Failed? then Delivered(old(sent), old(clients), ended, [Log(BackupWarning(Basename(c.file))), line], sent)
              else Delivered(old(sent), old(clients), ended, [line], sent)
    {
      var line := Log(Processing(c.index + 1, total, Basename(Dirname(c.file)), Basename(c.file)));
      if c.backup.Failed? {
        ghost var s0 := sent;
        Broadcast(Log(BackupWarning(Basename(c.file))), ended);
        ghost var s1 := sent;
        Broadcast(line, ended);
        DeliveredTwice(s0, s1, sent, old(clients), ended, Log(BackupWarning(Basename(c.file))), line);
      } else {
        Broadcast(line, ended);
      }
    }

    /** The bookkeeping of a completion: push the result and count it. */
    method Record(ghost ticket: Ticket, result: CompressionResult)
      requires Counters()
      requires ticket.Current? ==> ticket.index in ledger.inFlight && result.fullPath == files[ticket.index]
      requires ticket.Stale? ==> ledger.stale > 0
      modifies this`results, this`completedCount, this`ledger
      ensures Counters()
      ensures results == old(results) + [result] && completedCount == old(completedCount) + 1
      ensures ticket.Current? ==>
        ledger.inFlight == old(ledger.inFlight) - {ticket.index} && ledger.origin == old(ledger.origin) + [ticket.index] &&
        ledger.late == old(ledger.late) && ledger.stale == old(ledger.stale)
      ensures ticket.Stale? ==>
        ledger.inFlight == old(ledger.inFlight) && ledger.origin == old(ledger.origin) && ledger.late == old(ledger.late) + 1 && ledger.stale == old(ledger.stale) - 1
    {
      if ticket.Current? {
        var i := ticket.index;
        ledger := ledger.(inFlight := ledger.inFlight - {i}, origin := ledger.origin + [i]);
      } else {
        ledger := ledger.(stale := ledger.stale - 1, late := ledger.late + 1);
      }
      results := results + [result];
      completedCount := completedCount + 1;
    }

    /**
     * The end of a worker iteration: push the result, count it, report
     * progress, and close the job when the count reaches the total. The
     * progress event is the one server.js writes, without `processed`.
     */
    method Complete(ghost ticket: Ticket, result: CompressionResult, ended: set<Client>)
      requires Valid()
      requires ticket.Current? ==> ticket.index in ledger.inFlight && result.fullPath == files[ticket.index]
      requires ticket.Stale? ==> ledger.stale > 0
      modifies this`results, this`completedCount, this`status, this`clients, this`sent,
               this`ledger
      ensures Valid()
      ensures results == old(results) + [result] && completedCount == old(completedCount) + 1
      ensures status == (if completedCount == total then Completed else old(status))
      ensures clients == old(clients) - ended
      ensures var progress := ProgressAsWritten(completedCount, total, result);
              if completedCount == total then Delivered(old(sent), old(clients), ended, [progress, JobCompleted(total, completedCount, results)], sent)
              else Delivered(old(sent), old(clients), ended, [progress], sent)
      ensures ticket.Current? ==>
        ledger.inFlight == old(ledger.inFlight) - {ticket.index} && ledger.origin == old(ledger.origin) + [ticket.index] && ledger.late == old(ledger.late)
      ensures ticket.Current? && ledger.late == 0 ==> processedCount - completedCount == |ledger.inFlight|
      ensures ticket.Stale? ==> ledger.late == old(ledger.late) + 1 && ledger.stale == old(ledger.stale) - 1
    {
      Record(ticket, result);
      var progress := ProgressAsWritten(completedCount, total, result);
      if completedCount == total {
        status := Completed;
        ghost var s0 := sent;
        Broadcast(progress, ended);
        ghost var s1 := sent;
        Broadcast(JobCompleted(total, completedCount, results), ended);
        DeliveredTwice(s0, s1, sent, old(clients), ended, progress, JobCompleted(total, completedCount, results));
      } else {
        Broadcast(progress, ended);
      }
    }

    /** `pause()`: only a running job pauses; otherwise nothing happens. */
    method Pause(ended: set<Client>) returns (ok: bool)
      requires Valid()
      modifies this`status, this`clients, this`sent
      ensures Valid()
      ensures ok <==> old(status) == Running
      ensures ok ==> status == Paused && clients == old(clients) - ended && Delivered(old(sent), old(clients), ended, [JobPaused], sent)
      ensures !ok ==> status == old(status) && clients == old(clients) && sent == old(sent)
    {
      if status == Running {
        status := Paused;
        Broadcast(JobPaused, ended);
        return true;
      }
      return false;
    }

    /**
     * `resume()`: only a paused job resumes, keeping its cursor, count and
     * results; the fresh workers it spawns are further `Claim` steps.
     */
    method Resume(ended: set<Client>) returns (ok: bool)
      requires Valid()
      modifies this`status, this`clients, this`sent
      ensures Valid()
      ensures ok <==> old(status) == Paused
      ensures ok ==> status == Running && clients == old(clients) - ended &&
                     Delivered(old(sent), old(clients), ended, [JobResumed(total, completedCount)], sent)
      ensures !ok ==> status == old(status) && clients == old(clients) && sent == old(sent)
    {
      if status == Paused {
        status := Running;
        Broadcast(JobResumed(total, completedCount), ended);
        return true;
      }
      return false;
    }

    /** `cancel()`: from any state, announce the cancellation and reset. */
    method Cancel(ended: set<Client>)
      requires Valid()
      modifies this
      ensures Valid()
      ensures status == Idle && files == [] && results == [] && total == 0
      ensures processedCount == 0 && completedCount == 0
      ensures clients == old(clients) - ended
      ensures Delivered(old(sent), old(clients), ended, [JobCancelled], sent)
      ensures ledger.inFlight == {} && ledger.late == 0 && ledger.stale == old(ledger.stale) + |old(ledger.inFlight)|
    {
      status := Cancelled;
      Broadcast(JobCancelled, ended);
      Reset();
    }

    /** When a run with no stale completions ends, every file has exactly one result. */
    lemma CompletedRunHasEveryResult()
      requires Valid() && ledger.late == 0 && status == Completed
      ensures |results| == total
      ensures forall i :: 0 <= i < total ==> Reported(results, files[i])
    {
      assert completedCount == total;
      EveryIndexCompleted(files, results, total, processedCount, completedCount, ledger);
      forall i | 0 <= i < total
        ensures Reported(results, files[i])
      {
        assert i in ledger.origin;
        var k :| 0 <= k < |ledger.origin| && ledger.origin[k] == i;
        assert results[k].fullPath == files[i];
      }
    }

    /** Since the cursor stood at `start`, the results `prior` have been extended by those of the files claimed. */
    ghost predicate RanFrom(prior: seq<CompressionResult>, start: nat, compress: Path -> CompressionResult)
      reads this
    {
      start <= processedCount <= |files| &&
      results == prior + Outcomes(files, start, processedCount, compress)
    }

    /**
     * The body of the worker loop for a worker that is alone, from a state
     * with nothing in flight: claim, back up, announce, compress, complete.
     * The source's `index >= total` break cannot fire here, because the
     * claim directly follows the loop test.
     */
    method Step(images: Path -> SourceImage, codecs: Path -> Codec, ghost compress: Path -> CompressionResult,
                existing: set<Path>, ioFails: Path -> bool, ended: set<Client>,
                ghost prior: seq<CompressionResult>, ghost start: nat) returns (onDisk: set<Path>)
      requires Compresses(compress, images, codecs, selectedPaths)
      requires Valid() && ledger.late == 0 && ledger.inFlight == {}
      requires status == Running && processedCount < total
      requires RanFrom(prior, start, compress)
      modifies this
      ensures Valid() && ledger.late == 0 && ledger.inFlight == {}
      ensures files == old(files) && total == old(total) && selectedPaths == old(selectedPaths)
      ensures old(clients) - ended <= clients <= old(clients)
      ensures existing <= onDisk
      ensures processedCount == old(processedCount) + 1
      ensures RanFrom(prior, start, compress)
      ensures status == (if processedCount == total then Completed else Running)
    {
      var claimed := Begin(existing, ioFails, ended);
      onDisk := FilesAfter(existing, claimed.backup);
      var result := CompressFile(claimed.file, images, codecs, selectedPaths, compress);
      Finish(claimed, result, ended, compress, prior, start);
    }

    /** The synchronous part of an iteration up to the call of `compressImageCore`. */
    method Begin(existing: set<Path>, ioFails: Path -> bool, ended: set<Client>) returns (claimed: Claimed)
      requires Valid() && ledger.late == 0 && ledger.inFlight == {}
      requires status == Running && processedCount < total
      modifies this`processedCount, this`ledger, this`clients, this`sent
      ensures Valid() && ledger.late == 0 && ledger.inFlight == {claimed.index}
      ensures claimed.index == old(processedCount) && processedCount == old(processedCount) + 1
      ensures claimed.file == files[claimed.index]
      ensures claimed.backup == BackupFile(doBackup, rootPath, claimed.file, existing, ioFails(claimed.file))
      ensures old(clients) - ended <= clients <= old(clients)
    {
      var c := Claim(existing, ioFails);
      claimed := c.value;
      Announce(claimed, ended);
    }

    /** The rest of an iteration, once `compressImageCore` has returned: complete the claimed file. */
    method Finish(claimed: Claimed, result: CompressionResult, ended: set<Client>,
                  ghost compress: Path -> CompressionResult, ghost prior: seq<CompressionResult>, ghost start: nat)
      requires Valid() && ledger.late == 0 && ledger.inFlight == {claimed.index}
      requires status == Running && claimed.index + 1 == processedCount && claimed.file == files[claimed.index]
      requires start <= claimed.index
      requires result == compress(claimed.file) && result.fullPath == claimed.file
      requires results == prior + Outcomes(files, start, claimed.index, compress)
      modifies this`results, this`completedCount, this`status, this`clients, this`sent, this`ledger
      ensures Valid() && ledger.late == 0 && ledger.inFlight == {}
      ensures old(clients) - ended <= clients <= old(clients)
      ensures RanFrom(prior, start, compress)
      ensures status == (if processedCount == total then Completed else Running)
    {
      ghost var before := results;
      Complete(Current(claimed.index), result, ended);
      OutcomesSnoc(prior, before, results, files, start, claimed.index, compress);
    }

    /**
     * `worker()` alone, from a state with nothing in flight: while the job
     * runs and the cursor is below the total it claims, announces and
     * completes the next index, so a running job ends completed with the
     * results of the remaining files appended in order.
     */
    method Worker(images: Path -> SourceImage, codecs: Path -> Codec, ghost compress: Path -> CompressionResult,
                  existing: set<Path>, ioFails: Path -> bool, ended: set<Client>) returns (onDisk: set<Path>)
      requires Compresses(compress, images, codecs, selectedPaths)
      requires Valid() && ledger.late == 0 && ledger.inFlight == {}
      modifies this
      ensures Valid() && ledger.late == 0 && ledger.inFlight == {}
      ensures files == old(files) && total == old(total) && old(clients) - ended <= clients <= old(clients)
      ensures existing <= onDisk
      ensures old(status) == Running && old(processedCount) < total ==>
        && status == Completed && processedCount == total && completedCount == total
        && results == old(results) + Outcomes(files, old(processedCount), total, compress)
      ensures !(old(status) == Running && old(processedCount) < total) ==>
        status == old(status) && processedCount == old(processedCount) && results == old(results)
    {
      onDisk := existing;
      ghost var start := processedCount;
      while status == Running && processedCount < total
        invariant Valid() && ledger.late == 0 && ledger.inFlight == {}
        invariant files == old(files) && total == old(total) && selectedPaths == old(selectedPaths)
        invariant old(clients) - ended <= clients <= old(clients)
        invariant existing <= onDisk
        invariant RanFrom(old(results), start, compress)
        invariant status == old(status) || (old(status) == Running && status == Completed)
        invariant old(status) != Running ==> processedCount == start
        decreases total - processedCount
      {
        onDisk := Step(images, codecs, compress, onDisk, ioFails, ended, old(results), start);
      }
    }
  }

  lemma OutcomesSnoc(prior: seq<CompressionResult>, before: seq<CompressionResult>, after: seq<CompressionResult>,
                     fs: seq<Path>, lo: nat, hi: nat, compress: Path -> CompressionResult)
    requires lo <= hi < |fs|
    requires before == prior + Outcomes(fs, lo, hi, compress)
    requires after == before + [compress(fs[hi])]
    ensures after == prior + Outcomes(fs, lo, hi + 1, compress)
  {
  }

  /** Some result in `results` is the one for `file`. */
  ghost predicate Reported(results: seq<CompressionResult>, file: Path)
  {
    exists k :: 0 <= k < |results| && results[k].fullPath == file
  }

  /** Once the count reaches the total with no stale completions, every index has been completed. */
  lemma EveryIndexCompleted(files: seq<Path>, results: seq<CompressionResult>, total: nat, processedCount: nat,
                            completedCount: nat, ledger: Ledger)
    requires Agree(files, results, total, processedCount, completedCount, ledger)
    requires ledger.late == 0 && completedCount == total
    ensures forall i :: 0 <= i < total ==> i in ledger.origin
  {
    var origin := ledger.origin;
    var done := set k | 0 <= k < |origin| :: origin[k];
    assert done <= Below(total);
    NoDupCard(origin, done);
    SubsetOfBelowWithFullSize(done, total);
    forall i | 0 <= i < total
      ensures i in origin
    {
      assert i in done;
    }
  }

  /** A duplicate-free list of a set's elements has the set's size. */
  lemma {:induction false} NoDupCard(s: seq<nat>, t: set<nat>)
    requires NoDup(s) && forall i :: i in s <==> i in t
    ensures |s| == |t|
    decreases |s|
  {
    if s != [] {
      var last := s[|s| - 1];
      var init := s[..|s| - 1];
      assert forall i :: i in init <==> i in t - {last} by {
        forall i ensures i in init <==> i in t - {last} {
          if i in init {
            var j :| 0 <= j < |init| && init[j] == i;
            assert s[j] == i;
          }
          if i in s && i != last {
            var j :| 0 <= j < |s| && s[j] == i;
            assert j < |s| - 1;
            assert init[j] == i;
          }
        }
      }
      NoDupCard(init, t - {last});
    }
  }

  // ---------------------------------------------------------------------
  // The progress event as the server writes it.

  /**
   * The progress event of server.js as written: the counter, the total, the
   * percentage and the result, but no `processed` field. The percentage is
   * null only for an empty job and otherwise lies within 0 to 100.
   */
  function ProgressAsWritten(current: nat, total: nat, result: CompressionResult): (e: Event)
    ensures e.ItemProgress? && e.current == current && e.total == total && e.result == result
    ensures e.processed.None?
    ensures e.percent.None? <==> total == 0
    ensures 0 < total && current <= total ==> 0 <= e.percent.value <= 100
  {
    var percent := Percent(current, total);
    if 0 < total && current <= total then
      PercentBounds(current, current, total);
      ItemProgress(current, total, percent, None, result)
    else ItemProgress(current, total, percent, None, result)
  }

  /** The progress event with the claim cursor sent as `processed`, as the client expects it. */
  function ProgressWithClaims(current: nat, total: nat, processed: nat, result: CompressionResult): (e: Event)
    ensures e.ItemProgress? && e.processed == Some(processed)
    ensures e.(processed := None) == ProgressAsWritten(current, total, result)
  {
    ItemProgress(current, total, Percent(current, total), Some(processed), result)
  }
}
