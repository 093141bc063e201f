/** The signals the worker threads emit, kept as an append-only log, and the
    reasons an operation stops. */
module Events {
  import opened Paths

  /** Why an operation raised. */
  datatype Error =
    | OpenFailed(path: Path)       // `open` of a file to read raised
    | NotUtf8(path: Path)          // strict UTF-8 decoding of its bytes raised
    | StatFailed                   // `getsize` raised (a dangling link)
    | ZeroDivision                 // `processed_size / total_size` with a zero total
    | KeyRejected                  // `Fernet(key)` refused the key
    | InvalidToken                 // `Fernet.decrypt` refused the file
    | NotEnoughValues              // `header, data = block.split('\n', 1)` without a newline
    | NoPathSpecified              // `os.path.relpath('')`
    | BadZip                       // the archive could not be opened as a ZIP file
    | NoSource                     // the backup file could not be opened or read as text
    | PlainNotUtf8                 // `.decode()` of the decrypted bytes raised
    | OperationFailed(path: Path)  // a copy, move, delete or extraction raised
    | EmptySelection               // `source_paths[0]` of an empty selection

  /** Which restore helper reported a failure. */
  datatype Stage = FromZip | Uncompressed

  datatype Event =
    | Progress(processed: nat, total: nat)   // `progress_updated`, before the percentage
    | FileProcessed(path: Path, size: nat)   // `file_processed` of a backup or restore
    | Message(text: string)                  // `file_processed` of the file processor
    | BackupCompleted(backupPath: Path)
    | BackupFailed(cause: Error)
    | RestoreCompleted
    | RestoreFailed(stage: Stage, cause: Error)
    | ProcessingCompleted
    | ProcessingFailed(cause: Error)

  /** The progress reported so far never goes backwards and never passes
      `bound`: of any two progress events the later reports at least as much,
      and none reports more than `bound`. */
  predicate ProgressUpTo(evs: seq<Event>, bound: nat) {
    (forall i, j :: 0 <= i < j < |evs| && evs[i].Progress? && evs[j].Progress? ==>
      evs[i].processed <= evs[j].processed) &&
    (forall i :: 0 <= i < |evs| && evs[i].Progress? ==> evs[i].processed <= bound)
  }

  /** Reporting a new running sum at or above the old bound, followed by the
      file it came from, keeps the reported progress ordered. */
  lemma ProgressReport(evs: seq<Event>, bound: nat, next: nat, total: nat, path: Path, size: nat)
    requires ProgressUpTo(evs, bound) && bound <= next
    ensures ProgressUpTo(evs + [Progress(next, total), FileProcessed(path, size)], next)
  {
    var s := evs + [Progress(next, total), FileProcessed(path, size)];
    assert forall i :: 0 <= i < |evs| ==> s[i] == evs[i];
    assert s[|evs|] == Progress(next, total) && !s[|evs| + 1].Progress?;
  }

  /** Raising the bound keeps the progress within it. */
  lemma ProgressWeaken(evs: seq<Event>, bound: nat, bound': nat)
    requires ProgressUpTo(evs, bound) && bound <= bound'
    ensures ProgressUpTo(evs, bound')
  {
  }
}
