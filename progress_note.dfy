/**
 * The client's progress line: "current / total (percent%)", followed by
 * "(Processing N...)" when the event says more files have been claimed than
 * completed.
 */
module ProgressNote {
  import opened Common
  import opened Paths
  import opened Compression
  import opened Jobs

  /**
   * The "Processing N" count of `handleMessage` for a progress event:
   * `data.processed > data.current`, where an absent `processed` compares
   * false.
   */
  function ProcessingNote(processed: Option<nat>, current: nat): (n: Option<nat>)
    ensures n.Some? ==> n.value > 0
  {
    if processed.Some? && processed.value > current then Some(processed.value - current) else None
  }

  /** As the server writes its progress event, the note never appears. */
  lemma NoteNeverShownAsWritten(current: nat, total: nat, result: CompressionResult)
    ensures var e := ProgressAsWritten(current, total, result);
            ProcessingNote(e.processed, e.current).None?
  {
  }

  /**
   * With the claim cursor sent as `processed`, the note appears exactly
   * while files of the run are in flight, and counts them.
   */
  lemma NoteCountsInFlight(files: seq<Path>, results: seq<CompressionResult>, total: nat, processedCount: nat,
                           completedCount: nat, ledger: Ledger, result: CompressionResult)
    requires Agree(files, results, total, processedCount, completedCount, ledger) && ledger.late == 0
    ensures var e := ProgressWithClaims(completedCount, total, processedCount, result);
            && (ProcessingNote(e.processed, e.current).Some? <==> ledger.inFlight != {})
            && (ledger.inFlight != {} ==> ProcessingNote(e.processed, e.current) == Some(|ledger.inFlight|))
  {
  }
}
