/** The first revision's backup thread (`BackupHandler`): a text file holding a
    timestamp line and then, for every visited file, a framed record of its
    text. Any exception ends the run with `backup_failed`. */
module Backup {
  import opened Text
  import opened Paths
  import opened FileTree
  import opened Events
  import Utils

  /** Reading a file opened in text mode with `encoding='utf-8'`: the decoded
      text, or `None` where decoding raises. */
  type Decoder = seq<Byte> -> Option<string>

  /** The output file as written so far, the signals emitted so far, the running
      `processed_size`, and the exception that stopped the run, if any. */
  datatype Writer = Writer(out: string, events: seq<Event>, processed: nat, failure: Option<Error>)

  function Header(timestamp: string): string {
    "Backup created on " + timestamp + "\n\n"
  }

  function FrameLine(path: Path): string {
    "--- " + path + " ---\n"
  }

  function Record(path: Path, text: string): string {
    FrameLine(path) + text + "\n\n"
  }

  /** A file `_write_file` reads through: it opens and its bytes decode. */
  predicate Good(e: Entry, decode: Decoder) {
    e.blob.access == Readable && decode(e.blob.data).Some?
  }

  /** The exception `_write_file` raises on a file that is not `Good`. */
  function Cause(e: Entry, decode: Decoder): Error
    requires !Good(e, decode)
  {
    if e.blob.access != Readable then OpenFailed(e.path) else NotUtf8(e.path)
  }

  /** `_write_file(f, path)`: the frame line is written before the file is
      opened, so a file that cannot be read leaves its frame line behind. */
  function WriteFile(out: string, e: Entry, decode: Decoder): (string, Option<Error>) {
    var framed := out + FrameLine(e.path);
    if Good(e, decode) then (framed + decode(e.blob.data).value + "\n\n", None)
    else (framed, Some(Cause(e, decode)))
  }

  /** One pass of the inner loop body of `_backup` on a running writer: write
      the file, add its size, then emit progress (raising where the total is
      zero) and `file_processed`. */
  function Visit(w: Writer, e: Entry, total: nat, decode: Decoder): Writer {
    var (out, err) := WriteFile(w.out, e, decode);
    if err.Some? then w.(out := out, failure := err)
    else
      var processed := w.processed + Size(e);
      if total == 0 then w.(out := out, processed := processed, failure := Some(ZeroDivision))
      else w.(out := out, processed := processed,
              events := w.events + [Progress(processed, total), FileProcessed(e.path, Size(e))])
  }

  /** The visits of a run of files, stopping at the first exception. */
  function Apply(w: Writer, es: seq<Entry>, total: nat, decode: Decoder): Writer
    decreases |es|
  {
    if es == [] || w.failure.Some? then w
    else Apply(Visit(w, es[0], total, decode), es[1..], total, decode)
  }

  /** What `_backup` leaves behind: the header is written before the total is
      computed, so a failing `get_total_size` leaves just the header. */
  function BackupSpec(fs: Fs, items: seq<Path>, includeSubdirs: bool, timestamp: string, decode: Decoder): Writer {
    var start := Writer(Header(timestamp), [], 0, None);
    match TotalSize(fs, items, includeSubdirs)
    case None => start.(failure := Some(StatFailed))
    case Some(total) => Apply(start, Selected(fs, items, includeSubdirs), total, decode)
  }

  /** The output is only ever appended to. */
  lemma {:induction false} ApplyExtends(w: Writer, es: seq<Entry>, total: nat, decode: Decoder)
    ensures StartsWith(Apply(w, es, total, decode).out, w.out)
    decreases |es|
  {
    if es != [] && w.failure.None? {
      var w1 := Visit(w, es[0], total, decode);
      assert StartsWith(w1.out, w.out) by {
        var framed := w.out + FrameLine(es[0].path);
        assert framed[..|w.out|] == w.out;
        if Good(es[0], decode) {
          assert w1.out == framed + decode(es[0].blob.data).value + "\n\n";
          assert w1.out[..|w.out|] == w.out;
        }
      }
      ApplyExtends(w1, es[1..], total, decode);
      StartsWithTrans(Apply(w1, es[1..], total, decode).out, w1.out, w.out);
    }
  }

  /** Whatever happens, the backup file begins with its header line. */
  lemma OutputStartsWithHeader(fs: Fs, items: seq<Path>, includeSubdirs: bool, timestamp: string, decode: Decoder)
    ensures StartsWith(BackupSpec(fs, items, includeSubdirs, timestamp, decode).out, Header(timestamp))
  {
    var start := Writer(Header(timestamp), [], 0, None);
    match TotalSize(fs, items, includeSubdirs) {
      case None =>
      case Some(total) => ApplyExtends(start, Selected(fs, items, includeSubdirs), total, decode);
    }
  }

  /** `run()`: the final signal follows what `_backup` raised. */
  function Finish(w: Writer, backupPath: Path): seq<Event> {
    w.events + [if w.failure.Some? then BackupFailed(w.failure.value) else BackupCompleted(backupPath)]
  }

  // ---------------------------------------------------------------------------
  // The thread, step by step

  /** `_write_file(f, file_path)`. */
  method WriteFileText(out: string, e: Entry, decode: Decoder) returns (out': string, err: Option<Error>)
    ensures (out', err) == WriteFile(out, e, decode)
    ensures StartsWith(out', out + FrameLine(e.path))
    ensures err.None? <==> Good(e, decode)
  {
    out' := out + FrameLine(e.path);
    if e.blob.access != Readable {
      return out', Some(OpenFailed(e.path));
    }
    var text := decode(e.blob.data);
    if text.None? {
      return out', Some(NotUtf8(e.path));
    }
    out' := out' + text.value;
    out' := out' + "\n\n";
    err := None;
  }

  /** One pass of the inner loop body. */
  method VisitFile(w: Writer, e: Entry, total: nat, decode: Decoder) returns (w': Writer)
    requires w.failure.None?
    ensures w' == Visit(w, e, total, decode)
    ensures w'.processed >= w.processed
  {
    var out, err := WriteFileText(w.out, e, decode);
    if err.Some? {
      return w.(out := out, failure := err);
    }
    var fileSize := |e.blob.data|;
    var processed := w.processed + fileSize;
    if total == 0 {
      return w.(out := out, processed := processed, failure := Some(ZeroDivision));
    }
    var events := w.events + [Progress(processed, total)];
    events := events + [FileProcessed(e.path, fileSize)];
    w' := Writer(out, events, processed, None);
  }

  /** `for file in files:` of one kept walk step. */
  method VisitFiles(w: Writer, root: Path, files: seq<Blob>, total: nat, decode: Decoder) returns (w': Writer)
    ensures w' == Apply(w, FileEntries(root, files), total, decode)
  {
    w' := w;
    var j := 0;
    while j < |files| && w'.failure.None?
      invariant 0 <= j <= |files|
      invariant Apply(w', FileEntries(root, files[j..]), total, decode) == Apply(w, FileEntries(root, files), total, decode)
    {
      FileEntriesAt(root, files, j);
      w' := VisitFile(w', Entry(Join(root, files[j].name), files[j]), total, decode);
      j := j + 1;
    }
    assert j == |files| ==> files[j..] == [];
  }

  /** `for root, _, files in os.walk(item):` with the skip rule. */
  method VisitWalk(w: Writer, item: Path, steps: seq<Step>, includeSubdirs: bool, total: nat, decode: Decoder)
    returns (w': Writer)
    ensures w' == Apply(w, WalkEntries(item, steps, includeSubdirs), total, decode)
  {
    w' := w;
    var k := 0;
    assert steps[0..] == steps;
    while k < |steps| && w'.failure.None?
      invariant 0 <= k <= |steps|
      invariant Apply(w', WalkEntries(item, steps[k..], includeSubdirs), total, decode) ==
        Apply(w, WalkEntries(item, steps, includeSubdirs), total, decode)
    {
      WalkEntriesAt(item, steps, k, includeSubdirs);
      var here := if Kept(item, steps[k], includeSubdirs) then FileEntries(steps[k].root, steps[k].files) else [];
      ApplyAppend(w', here, WalkEntries(item, steps[k + 1..], includeSubdirs), total, decode);
      if !includeSubdirs && steps[k].root != item {
        k := k + 1;
        continue;
      }
      w' := VisitFiles(w', steps[k].root, steps[k].files, total, decode);
      k := k + 1;
    }
    if k == |steps| {
      assert steps[k..] == [];
    } else {
      ApplyStopped(w', WalkEntries(item, steps[k..], includeSubdirs), total, decode);
    }
  }

  /** The body of `for item in self.files:`. */
  method VisitItem(w: Writer, fs: Fs, item: Path, includeSubdirs: bool, total: nat, decode: Decoder) returns (w': Writer)
    ensures w' == Apply(w, ItemEntries(fs, item, includeSubdirs), total, decode)
  {
    if w.failure.Some? {
      return w;
    }
    if IsDir(fs, item) {
      w' := VisitWalk(w, item, Walk(item, fs[item].children), includeSubdirs, total, decode);
    } else if IsFile(fs, item) {
      var e := Entry(item, fs[item].blob);
      w' := VisitFile(w, e, total, decode);
      assert [e][1..] == [];
    } else {
      w' := w;
    }
  }

  /** `_backup()` on the filesystem `fs`, with `timestamp` standing for
      `datetime.now().isoformat()`. */
  method RunBackup(fs: Fs, items: seq<Path>, includeSubdirs: bool, timestamp: string, decode: Decoder)
    returns (w: Writer)
    ensures w == BackupSpec(fs, items, includeSubdirs, timestamp, decode)
  {
    w := Writer(Header(timestamp), [], 0, None);
    var total := Utils.GetTotalSize(fs, items, includeSubdirs);
    if total.None? {
      return w.(failure := Some(StatFailed));
    }
    w := VisitItems(w, fs, items, includeSubdirs, total.value, decode);
  }

  /** `for item in self.files:`, stopping at the first exception. */
  method VisitItems(w: Writer, fs: Fs, items: seq<Path>, includeSubdirs: bool, total: nat, decode: Decoder)
    returns (w': Writer)
    ensures w' == Apply(w, Selected(fs, items, includeSubdirs), total, decode)
  {
    ghost var all := Apply(w, Selected(fs, items, includeSubdirs), total, decode);
    w' := w;
    var i := 0;
    SliceAll(items);
    while i < |items| && w'.failure.None?
      invariant 0 <= i <= |items|
      invariant Apply(w', Selected(fs, items[i..], includeSubdirs), total, decode) == all
    {
      SelectedAt(fs, items, i, includeSubdirs);
      ApplyAppend(w', ItemEntries(fs, items[i], includeSubdirs), Selected(fs, items[i + 1..], includeSubdirs), total, decode);
      w' := VisitItem(w', fs, items[i], includeSubdirs, total, decode);
      i := i + 1;
    }
    if i == |items| {
      assert items[i..] == [];
    } else {
      ApplyStopped(w', Selected(fs, items[i..], includeSubdirs), total, decode);
    }
  }

  /** `run()`: the events of the whole thread, ending in `backup_completed`
      or `backup_failed`. */
  method Run(fs: Fs, items: seq<Path>, includeSubdirs: bool, timestamp: string, decode: Decoder, backupPath: Path)
    returns (out: string, events: seq<Event>)
    ensures var w := BackupSpec(fs, items, includeSubdirs, timestamp, decode);
      out == w.out && events == Finish(w, backupPath)
  {
    var w := RunBackup(fs, items, includeSubdirs, timestamp, decode);
    out := w.out;
    if w.failure.Some? {
      events := w.events + [BackupFailed(w.failure.value)];
    } else {
      events := w.events + [BackupCompleted(backupPath)];
    }
  }

  // ---------------------------------------------------------------------------
  // The fold

  lemma ApplyStopped(w: Writer, es: seq<Entry>, total: nat, decode: Decoder)
    requires w.failure.Some?
    ensures Apply(w, es, total, decode) == w
  {
  }

  lemma {:induction false} ApplyAppend(w: Writer, a: seq<Entry>, b: seq<Entry>, total: nat, decode: Decoder)
    ensures Apply(w, a + b, total, decode) == Apply(Apply(w, a, total, decode), b, total, decode)
    decreases |a|
  {
    if a == [] {
      assert a + b == b;
    } else if w.failure.None? {
      assert (a + b)[0] == a[0];
      assert (a + b)[1..] == a[1..] + b;
      ApplyAppend(Visit(w, a[0], total, decode), a[1..], b, total, decode);
    }
  }

  /** The framed records of files that all read through. */
  function Records(es: seq<Entry>, decode: Decoder): string
    requires forall i :: 0 <= i < |es| ==> Good(es[i], decode)
  {
    if es == [] then []
    else
      assert Good(es[0], decode);
      Record(es[0].path, decode(es[0].blob.data).value) + Records(es[1..], decode)
  }

  /** The signals of files that all read through, starting from the running
      sum `done`: one progress event and one `file_processed` per file. */
  function EntryEvents(es: seq<Entry>, done: nat, total: nat): seq<Event> {
    if es == [] then []
    else
      [Progress(done + Size(es[0]), total), FileProcessed(es[0].path, Size(es[0]))]
        + EntryEvents(es[1..], done + Size(es[0]), total)
  }

  /** On files that all read through and a non-zero total, every file is
      written as a record, every file is reported, and the running sum grows
      by exactly the sizes of the files. */
  lemma {:induction false} ApplyGood(w: Writer, es: seq<Entry>, total: nat, decode: Decoder)
    requires w.failure.None? && total > 0
    requires forall i :: 0 <= i < |es| ==> Good(es[i], decode)
    ensures Apply(w, es, total, decode) ==
      Writer(w.out + Records(es, decode), w.events + EntryEvents(es, w.processed, total), w.processed + SumSizes(es), None)
    decreases |es|
  {
    if es != [] {
      assert Good(es[0], decode);
      var w1 := Visit(w, es[0], total, decode);
      var rec := Record(es[0].path, decode(es[0].blob.data).value);
      var evs := [Progress(w.processed + Size(es[0]), total), FileProcessed(es[0].path, Size(es[0]))];
      VisitGood(w, es[0], total, decode);
      ApplyGood(w1, es[1..], total, decode);
      AppendAssoc(w.out, rec, Records(es[1..], decode));
      AppendAssoc(w.events, evs, EntryEvents(es[1..], w1.processed, total));
    } else {
      assert w.out + [] == w.out;
      assert w.events + [] == w.events;
    }
  }

  /** A file that reads through, under a non-zero total, is written as a
      record and reported. */
  lemma VisitGood(w: Writer, e: Entry, total: nat, decode: Decoder)
    requires w.failure.None? && total > 0 && Good(e, decode)
    ensures Visit(w, e, total, decode) ==
      Writer(w.out + Record(e.path, decode(e.blob.data).value),
             w.events + [Progress(w.processed + Size(e), total), FileProcessed(e.path, Size(e))],
             w.processed + Size(e), None)
  {
    var t := decode(e.blob.data).value;
    assert w.out + FrameLine(e.path) + t + "\n\n" == w.out + Record(e.path, t);
  }

  lemma AppendAssoc<T>(a: seq<T>, b: seq<T>, c: seq<T>)
    ensures a + b + c == a + (b + c)
  {
  }

  /** At the first file that does not read through, the run stops with that
      file's frame line as the last thing written. */
  lemma {:induction false} ApplyFirstBad(w: Writer, es: seq<Entry>, k: nat, total: nat, decode: Decoder)
    requires w.failure.None? && (total > 0 || k == 0) && k < |es|
    requires forall i :: 0 <= i < k ==> Good(es[i], decode)
    requires !Good(es[k], decode)
    ensures Apply(w, es, total, decode) ==
      Writer(w.out + Records(es[..k], decode) + FrameLine(es[k].path),
             w.events + EntryEvents(es[..k], w.processed, total),
             w.processed + SumSizes(es[..k]),
             Some(Cause(es[k], decode)))
  {
    ApplyAppend(w, es[..k], es[k..], total, decode);
    assert es[..k] + es[k..] == es;
    if k > 0 {
      ApplyGood(w, es[..k], total, decode);
    } else {
      assert es[..k] == [];
      assert w.out + [] == w.out && w.events + [] == w.events;
    }
    assert es[k..][0] == es[k];
  }

  /** With a zero total, the first file that reads through stops the run at the
      percentage division, after its record and its size have been taken in
      but before any signal. */
  lemma ApplyZeroTotal(w: Writer, es: seq<Entry>, decode: Decoder)
    requires w.failure.None? && es != [] && Good(es[0], decode)
    ensures Apply(w, es, 0, decode) ==
      Writer(w.out + Record(es[0].path, decode(es[0].blob.data).value), w.events, w.processed + Size(es[0]), Some(ZeroDivision))
  {
  }

  // ---------------------------------------------------------------------------
  // What a backup promises

  /** The first file, if any, that does not read through. */
  function FirstBad(es: seq<Entry>, decode: Decoder): (k: nat)
    ensures k <= |es|
    ensures forall i :: 0 <= i < k ==> Good(es[i], decode)
    ensures k < |es| ==> !Good(es[k], decode)
  {
    if es == [] then 0
    else if !Good(es[0], decode) then 0
    else 1 + FirstBad(es[1..], decode)
  }

  /** A backup that reports success wrote the header followed by one record
      per visited file, in visiting order, with the full joined walk path in
      each frame; it reported each file once, with progress; and its running
      sum ended equal to `get_total_size()`. */
  lemma BackupSucceeds(fs: Fs, items: seq<Path>, includeSubdirs: bool, timestamp: string, decode: Decoder)
    requires BackupSpec(fs, items, includeSubdirs, timestamp, decode).failure.None?
    ensures var es := Selected(fs, items, includeSubdirs);
      var w := BackupSpec(fs, items, includeSubdirs, timestamp, decode);
      TotalSize(fs, items, includeSubdirs).Some? &&
      (forall i :: 0 <= i < |es| ==> Good(es[i], decode)) &&
      w.out == Header(timestamp) + Records(es, decode) &&
      w.events == EntryEvents(es, 0, TotalSize(fs, items, includeSubdirs).value) &&
      w.processed == TotalSize(fs, items, includeSubdirs).value
  {
    var es := Selected(fs, items, includeSubdirs);
    var total := TotalSize(fs, items, includeSubdirs).value;
    var start := Writer(Header(timestamp), [], 0, None);
    var k := FirstBad(es, decode);
    if es == [] {
    } else if total == 0 {
      if Good(es[0], decode) {
        ApplyZeroTotal(start, es, decode);
      } else {
        ApplyFirstBad(start, es, 0, 0, decode);
      }
    } else if k < |es| {
      ApplyFirstBad(start, es, k, total, decode);
    } else {
      ApplyGood(start, es, total, decode);
    }
  }

  /** A backup fails exactly when `get_total_size` raises, when some visited
      file does not read through, or when files are visited under a zero
      total. */
  lemma BackupFailsIff(fs: Fs, items: seq<Path>, includeSubdirs: bool, timestamp: string, decode: Decoder)
    ensures var es := Selected(fs, items, includeSubdirs);
      BackupSpec(fs, items, includeSubdirs, timestamp, decode).failure.Some? <==>
        TotalSize(fs, items, includeSubdirs).None? ||
        (exists i :: 0 <= i < |es| && !Good(es[i], decode)) ||
        (TotalSize(fs, items, includeSubdirs) == Some(0) && es != [])
  {
    var es := Selected(fs, items, includeSubdirs);
    var t := TotalSize(fs, items, includeSubdirs);
    var start := Writer(Header(timestamp), [], 0, None);
    if t.Some? {
      var k := FirstBad(es, decode);
      if es == [] {
      } else if t.value == 0 {
        if Good(es[0], decode) {
          ApplyZeroTotal(start, es, decode);
        } else {
          ApplyFirstBad(start, es, 0, 0, decode);
        }
      } else if k < |es| {
        ApplyFirstBad(start, es, k, t.value, decode);
      } else {
        ApplyGood(start, es, t.value, decode);
      }
    }
  }

  /** An unreadable or undecodable file aborts the backup: the output ends
      with that file's frame line, after the records of the files before it,
      and the run ends with `backup_failed`. */
  lemma BadFileAborts(fs: Fs, items: seq<Path>, includeSubdirs: bool, timestamp: string, decode: Decoder, k: nat)
    requires var es := Selected(fs, items, includeSubdirs);
      k < |es| && !Good(es[k], decode) && forall i :: 0 <= i < k ==> Good(es[i], decode)
    requires TotalSize(fs, items, includeSubdirs).Some? && TotalSize(fs, items, includeSubdirs).value > 0
    ensures var es := Selected(fs, items, includeSubdirs);
      var w := BackupSpec(fs, items, includeSubdirs, timestamp, decode);
      w.out == Header(timestamp) + Records(es[..k], decode) + FrameLine(es[k].path) &&
      w.failure == Some(Cause(es[k], decode))
  {
    var es := Selected(fs, items, includeSubdirs);
    ApplyFirstBad(Writer(Header(timestamp), [], 0, None), es, k, TotalSize(fs, items, includeSubdirs).value, decode);
  }

  /** A zero total with at least one visited file ends in `backup_failed`,
      never in `backup_completed`. */
  lemma ZeroTotalFails(fs: Fs, items: seq<Path>, includeSubdirs: bool, timestamp: string, decode: Decoder, backupPath: Path)
    requires TotalSize(fs, items, includeSubdirs) == Some(0) && Selected(fs, items, includeSubdirs) != []
    ensures var events := Finish(BackupSpec(fs, items, includeSubdirs, timestamp, decode), backupPath);
      events[|events| - 1].BackupFailed? && BackupCompleted(backupPath) !in events
  {
    BackupFailsIff(fs, items, includeSubdirs, timestamp, decode);
    var es := Selected(fs, items, includeSubdirs);
    var start := Writer(Header(timestamp), [], 0, None);
    if Good(es[0], decode) {
      ApplyZeroTotal(start, es, decode);
    } else {
      ApplyFirstBad(start, es, 0, 0, decode);
    }
  }

  /** Every visit keeps the reported progress ordered and within the running
      sum, and the running sum grows by at most the sizes of the files. */
  lemma {:induction false} ApplyProgress(w: Writer, es: seq<Entry>, total: nat, decode: Decoder)
    requires ProgressUpTo(w.events, w.processed)
    ensures ProgressUpTo(Apply(w, es, total, decode).events, Apply(w, es, total, decode).processed)
    ensures Apply(w, es, total, decode).processed <= w.processed + SumSizes(es)
    decreases |es|
  {
    if es != [] && w.failure.None? {
      var w1 := Visit(w, es[0], total, decode);
      if w1.events == w.events {
        ProgressWeaken(w.events, w.processed, w1.processed);
      } else {
        assert w1.events == w.events + [Progress(w1.processed, total), FileProcessed(es[0].path, Size(es[0]))];
        ProgressReport(w.events, w.processed, w1.processed, total, es[0].path, Size(es[0]));
      }
      ApplyProgress(w1, es[1..], total, decode);
    }
  }

  /** The progress a backup reports never goes backwards and never passes the
      total. */
  lemma BackupProgressMonotone(fs: Fs, items: seq<Path>, includeSubdirs: bool, timestamp: string, decode: Decoder)
    requires TotalSize(fs, items, includeSubdirs).Some?
    ensures ProgressUpTo(BackupSpec(fs, items, includeSubdirs, timestamp, decode).events, TotalSize(fs, items, includeSubdirs).value)
  {
    var es := Selected(fs, items, includeSubdirs);
    var total := TotalSize(fs, items, includeSubdirs).value;
    var start := Writer(Header(timestamp), [], 0, None);
    ApplyProgress(start, es, total, decode);
    var w := Apply(start, es, total, decode);
    ProgressWeaken(w.events, w.processed, total);
  }

  /** A selected path that is neither a directory nor a file changes nothing
      in the output or in the signals. */
  lemma MissingItemIgnored(fs: Fs, a: seq<Path>, x: Path, b: seq<Path>, includeSubdirs: bool, timestamp: string, decode: Decoder)
    requires !IsDir(fs, x) && !IsFile(fs, x)
    ensures BackupSpec(fs, a + [x] + b, includeSubdirs, timestamp, decode) == BackupSpec(fs, a + b, includeSubdirs, timestamp, decode)
  {
    NonexistentItemIgnored(fs, a, x, b, includeSubdirs);
  }
}
