/** The second revision's worker (`BackupRestoreHandler`). A backup is written
    either as text or, when a key is set, as a sequence of Fernet tokens, one
    per write; records carry no blank-line separator, a file that cannot be
    read is replaced by an error line, and the exceptions that escape the
    per-file handler only stop the loop: the run still reports
    `backup_completed`. A restore reuses the first revision's parse, after
    decrypting the whole file as one token when a key is set. */
module BackupRestore {
  import opened Text
  import opened Paths
  import opened FileTree
  import opened Events
  import Utils
  import Backup
  import Restore

  /** What Fernet is given to encrypt: the UTF-8 encoding of a text, or the
      bytes of a file as read. */
  datatype Plaintext = Encoded(text: string) | Raw(bytes: seq<Byte>)

  /** One `f.write(...)` to the backup file: a text, or the token
      `Fernet(key).encrypt(payload)`. */
  datatype Unit = Plain(text: string) | Sealed(key: seq<Byte>, payload: Plaintext)

  /** What the handler is given and what it cannot see into: the encryption
      key (`None` and an empty key are both `[]`), whether `Fernet(key)`
      accepts that key, `bytes.decode('utf-8', errors='ignore')`, and
      `str(e)` of the exception `open` raises on a path. */
  datatype Env = Env(key: seq<Byte>, keyValid: bool, lossy: seq<Byte> -> string, reason: Path -> string)

  /** `if self.encryption_key:` */
  predicate Encrypted(env: Env) {
    env.key != []
  }

  /** One text written as it is, or sealed under the key. */
  function Seal(env: Env, text: string): Unit {
    if Encrypted(env) then Sealed(env.key, Encoded(text)) else Plain(text)
  }

  function ErrorLine(path: Path, reason: string): string {
    "Error reading file " + path + ": " + reason + "\n"
  }

  /** What `_write_file` writes for one file: the frame line and the content
      (two tokens when encrypted, the content decoded with bad bytes dropped
      when not), or, where `open` raises, a single error line in their place. */
  function FileUnits(e: Entry, env: Env): (r: seq<Unit>)
    ensures |r| >= 1
  {
    if e.blob.access != Readable then [Seal(env, ErrorLine(e.path, env.reason(e.path)))]
    else if Encrypted(env) then [Sealed(env.key, Encoded(Backup.FrameLine(e.path))), Sealed(env.key, Raw(e.blob.data))]
    else [Plain(Backup.FrameLine(e.path)), Plain(env.lossy(e.blob.data))]
  }

  /** The units written so far, the signals emitted so far, the running
      `processed_size`, and the exception that left the loop, if any (it is
      logged and nothing more). */
  datatype Writer = Writer(units: seq<Unit>, events: seq<Event>, processed: nat, stopped: Option<Error>)

  /** One pass of the inner loop body of `_write_backup`: write the file, take
      its size (raising on a dangling link), then report progress (raising on
      a zero total) and the file. */
  function Visit(w: Writer, e: Entry, total: nat, env: Env): Writer {
    var units := w.units + FileUnits(e, env);
    if e.blob.access == Dangling then w.(units := units, stopped := Some(StatFailed))
    else
      var processed := w.processed + Size(e);
      if total == 0 then w.(units := units, processed := processed, stopped := Some(ZeroDivision))
      else w.(units := units, processed := processed,
              events := w.events + [Progress(processed, total), FileProcessed(e.path, Size(e))])
  }

  /** The visits of a run of files, leaving the loop at the first exception. */
  function Apply(w: Writer, es: seq<Entry>, total: nat, env: Env): Writer
    decreases |es|
  {
    if es == [] || w.stopped.Some? then w
    else Apply(Visit(w, es[0], total, env), es[1..], total, env)
  }

  /** What `_write_backup` leaves behind. `get_total_size()` runs before the
      `try`, so where it raises nothing is written and the exception reaches
      `_backup` (`None`). Inside the `try`, a key that `Fernet` refuses stops
      everything before the header. */
  function WriteBackupSpec(fs: Fs, items: seq<Path>, includeSubdirs: bool, timestamp: string, env: Env): Option<Writer> {
    match TotalSize(fs, items, includeSubdirs)
    case None => None
    case Some(total) =>
      if Encrypted(env) && !env.keyValid then Some(Writer([], [], 0, Some(KeyRejected)))
      else Some(Apply(Writer([Seal(env, Backup.Header(timestamp))], [], 0, None), Selected(fs, items, includeSubdirs), total, env))
  }

  /** The signals of `_backup`: `backup_failed` only where `_write_backup`
      raised, `backup_completed` otherwise. */
  function BackupSignals(result: Option<Writer>, backupPath: Path): seq<Event> {
    match result
    case None => [BackupFailed(StatFailed)]
    case Some(w) => w.events + [BackupCompleted(backupPath)]
  }

  // ---------------------------------------------------------------------------
  // The backup, step by step

  /** `_write_file(f, file_path, encrypted)`. */
  method WriteFile(units: seq<Unit>, e: Entry, env: Env) returns (units': seq<Unit>)
    ensures units' == units + FileUnits(e, env)
  {
    var header := Backup.FrameLine(e.path);
    if e.blob.access != Readable {
      var message := ErrorLine(e.path, env.reason(e.path));
      if Encrypted(env) {
        units' := units + [Sealed(env.key, Encoded(message))];
      } else {
        units' := units + [Plain(message)];
      }
      return;
    }
    var content := e.blob.data;
    if Encrypted(env) {
      units' := units + [Sealed(env.key, Encoded(header))];
      units' := units' + [Sealed(env.key, Raw(content))];
    } else {
      units' := units + [Plain(header)];
      units' := units' + [Plain(env.lossy(content))];
    }
  }

  /** One pass of the inner loop body. */
  method VisitFile(w: Writer, e: Entry, total: nat, env: Env) returns (w': Writer)
    ensures w' == Visit(w, e, total, env)
  {
    var units := WriteFile(w.units, e, env);
    if e.blob.access == Dangling {
      return w.(units := units, stopped := Some(StatFailed));
    }
    var fileSize := |e.blob.data|;
    var processed := w.processed + fileSize;
    if total == 0 {
      return w.(units := units, processed := processed, stopped := Some(ZeroDivision));
    }
    var events := w.events + [Progress(processed, total), FileProcessed(e.path, fileSize)];
    w' := Writer(units, events, processed, w.stopped);
  }

  /** `for file in files:` of one kept walk step. */
  method VisitFiles(w: Writer, root: Path, files: seq<Blob>, total: nat, env: Env) returns (w': Writer)
    ensures w' == Apply(w, FileEntries(root, files), total, env)
  {
    ghost var all := Apply(w, FileEntries(root, files), total, env);
    w' := w;
    var j := 0;
    SliceAll(files);
    while j < |files| && w'.stopped.None?
      invariant 0 <= j <= |files|
      invariant Apply(w', FileEntries(root, files[j..]), total, env) == all
    {
      FileEntriesAt(root, files, j);
      w' := VisitFile(w', Entry(Join(root, files[j].name), files[j]), total, env);
      j := j + 1;
    }
    if j == |files| {
      assert files[j..] == [];
    }
  }

  /** `for root, _, files in os.walk(item):` with the skip rule. */
  method VisitWalk(w: Writer, item: Path, steps: seq<Step>, includeSubdirs: bool, total: nat, env: Env)
    returns (w': Writer)
    ensures w' == Apply(w, WalkEntries(item, steps, includeSubdirs), total, env)
  {
    ghost var all := Apply(w, WalkEntries(item, steps, includeSubdirs), total, env);
    w' := w;
    var k := 0;
    SliceAll(steps);
    while k < |steps| && w'.stopped.None?
      invariant 0 <= k <= |steps|
      invariant Apply(w', WalkEntries(item, steps[k..], includeSubdirs), total, env) == all
    {
      WalkEntriesAt(item, steps, k, includeSubdirs);
      var here := if Kept(item, steps[k], includeSubdirs) then FileEntries(steps[k].root, steps[k].files) else [];
      ApplyAppend(w', here, WalkEntries(item, steps[k + 1..], includeSubdirs), total, env);
      if !includeSubdirs && steps[k].root != item {
        k := k + 1;
        continue;
      }
      w' := VisitFiles(w', steps[k].root, steps[k].files, total, env);
      k := k + 1;
    }
    if k == |steps| {
      assert steps[k..] == [];
    }
  }

  /** The body of `for item in self.files:`. */
  method VisitItem(w: Writer, fs: Fs, item: Path, includeSubdirs: bool, total: nat, env: Env) returns (w': Writer)
    ensures w' == Apply(w, ItemEntries(fs, item, includeSubdirs), total, env)
  {
    if w.stopped.Some? {
      return w;
    }
    if IsDir(fs, item) {
      w' := VisitWalk(w, item, Walk(item, fs[item].children), includeSubdirs, total, env);
    } else if IsFile(fs, item) {
      var e := Entry(item, fs[item].blob);
      w' := VisitFile(w, e, total, env);
      assert [e][1..] == [];
    } else {
      w' := w;
    }
  }

  /** `for item in self.files:`, leaving the loop at the first exception. */
  method VisitItems(w: Writer, fs: Fs, items: seq<Path>, includeSubdirs: bool, total: nat, env: Env)
    returns (w': Writer)
    ensures w' == Apply(w, Selected(fs, items, includeSubdirs), total, env)
  {
    ghost var all := Apply(w, Selected(fs, items, includeSubdirs), total, env);
    w' := w;
    var i := 0;
    SliceAll(items);
    while i < |items| && w'.stopped.None?
      invariant 0 <= i <= |items|
      invariant Apply(w', Selected(fs, items[i..], includeSubdirs), total, env) == all
    {
      SelectedAt(fs, items, i, includeSubdirs);
      ApplyAppend(w', ItemEntries(fs, items[i], includeSubdirs), Selected(fs, items[i + 1..], includeSubdirs), total, env);
      w' := VisitItem(w', fs, items[i], includeSubdirs, total, env);
      i := i + 1;
    }
    if i == |items| {
      assert items[i..] == [];
    }
  }

  /** `_write_backup(f, encrypted)`, with `timestamp` standing for
      `datetime.now().isoformat()`. */
  method WriteBackup(fs: Fs, items: seq<Path>, includeSubdirs: bool, timestamp: string, env: Env)
    returns (result: Option<Writer>)
    ensures result == WriteBackupSpec(fs, items, includeSubdirs, timestamp, env)
  {
    var total := Utils.GetTotalSize(fs, items, includeSubdirs);
    if total.None? {
      return None;
    }
    if Encrypted(env) && !env.keyValid {
      return Some(Writer([], [], 0, Some(KeyRejected)));
    }
    var w := Writer([Seal(env, Backup.Header(timestamp))], [], 0, None);
    w := VisitItems(w, fs, items, includeSubdirs, total.value, env);
    result := Some(w);
  }

  /** `_backup()`: the file is written as tokens exactly when a key is set;
      `compress` is accepted and never read. */
  method RunBackup(fs: Fs, items: seq<Path>, includeSubdirs: bool, compress: bool, timestamp: string, env: Env, backupPath: Path)
    returns (units: seq<Unit>, events: seq<Event>)
    ensures var result := WriteBackupSpec(fs, items, includeSubdirs, timestamp, env);
      units == (if result.Some? then result.value.units else []) && events == BackupSignals(result, backupPath)
    ensures !Encrypted(env) ==> AllPlain(units)
    ensures Encrypted(env) ==> forall i :: 0 <= i < |units| ==> units[i].Sealed? && units[i].key == env.key
  {
    var result := WriteBackup(fs, items, includeSubdirs, timestamp, env);
    if result.None? {
      units := [];
      events := [BackupFailed(StatFailed)];
    } else {
      units := result.value.units;
      events := result.value.events + [BackupCompleted(backupPath)];
      OutputUniform(fs, items, includeSubdirs, timestamp, env);
    }
  }

  // ---------------------------------------------------------------------------
  // The fold

  lemma ApplyStopped(w: Writer, es: seq<Entry>, total: nat, env: Env)
    requires w.stopped.Some?
    ensures Apply(w, es, total, env) == w
  {
  }

  lemma {:induction false} ApplyAppend(w: Writer, a: seq<Entry>, b: seq<Entry>, total: nat, env: Env)
    ensures Apply(w, a + b, total, env) == Apply(Apply(w, a, total, env), b, total, env)
    decreases |a|
  {
    if a == [] {
      assert a + b == b;
    } else if w.stopped.None? {
      assert (a + b)[0] == a[0];
      assert (a + b)[1..] == a[1..] + b;
      ApplyAppend(Visit(w, a[0], total, env), a[1..], b, total, env);
    }
  }

  /** The units of files written one after the other. */
  function AllUnits(es: seq<Entry>, env: Env): seq<Unit> {
    if es == [] then [] else FileUnits(es[0], env) + AllUnits(es[1..], env)
  }

  lemma StatableTail(es: seq<Entry>)
    requires es != [] && Statable(es)
    ensures es[0].blob.access != Dangling && Statable(es[1..])
  {
    assert forall i :: 0 <= i < |es| - 1 ==> es[1..][i] == es[i + 1];
  }

  /** Where no visited file is a dangling link and the total is not zero,
      nothing leaves the loop: every file is written, in order, unreadable
      ones as error lines, every file is reported with progress, and the
      running sum grows by exactly the sizes of the files. */
  lemma {:induction false} ApplyStatable(w: Writer, es: seq<Entry>, total: nat, env: Env)
    requires w.stopped.None? && total > 0 && Statable(es)
    ensures Apply(w, es, total, env) ==
      Writer(w.units + AllUnits(es, env), w.events + Backup.EntryEvents(es, w.processed, total), w.processed + SumSizes(es), None)
    decreases |es|
  {
    if es == [] {
      assert w.units + [] == w.units && w.events + [] == w.events;
    } else {
      StatableTail(es);
      var w1 := Visit(w, es[0], total, env);
      var evs := [Progress(w.processed + Size(es[0]), total), FileProcessed(es[0].path, Size(es[0]))];
      assert w1 == Writer(w.units + FileUnits(es[0], env), w.events + evs, w.processed + Size(es[0]), None);
      ApplyStatable(w1, es[1..], total, env);
      Backup.AppendAssoc(w.units, FileUnits(es[0], env), AllUnits(es[1..], env));
      Backup.AppendAssoc(w.events, evs, Backup.EntryEvents(es[1..], w1.processed, total));
    }
  }

  /** Units are only ever appended, and they keep the form the key decides:
      all text without a key, all tokens under the key with one. */
  predicate Uniform(units: seq<Unit>, env: Env) {
    forall i :: 0 <= i < |units| ==>
      if Encrypted(env) then units[i].Sealed? && units[i].key == env.key else units[i].Plain?
  }

  lemma UniformAppend(a: seq<Unit>, b: seq<Unit>, env: Env)
    requires Uniform(a, env) && Uniform(b, env)
    ensures Uniform(a + b, env)
  {
    assert forall i :: 0 <= i < |b| ==> (a + b)[|a| + i] == b[i];
  }

  lemma {:induction false} ApplyUniform(w: Writer, es: seq<Entry>, total: nat, env: Env)
    requires Uniform(w.units, env)
    ensures Uniform(Apply(w, es, total, env).units, env)
    ensures |Apply(w, es, total, env).units| >= |w.units|
    ensures Apply(w, es, total, env).units[..|w.units|] == w.units
    ensures es != [] && w.stopped.None? ==> |Apply(w, es, total, env).units| > |w.units|
    decreases |es|
  {
    if es != [] && w.stopped.None? {
      var w1 := Visit(w, es[0], total, env);
      UniformAppend(w.units, FileUnits(es[0], env), env);
      ApplyUniform(w1, es[1..], total, env);
      assert w1.units[..|w.units|] == w.units;
    }
  }

  /** Whatever happens, a written backup holds only text without a key and
      only tokens under the key with one, and it begins with the header
      unless the key was refused. */
  lemma OutputUniform(fs: Fs, items: seq<Path>, includeSubdirs: bool, timestamp: string, env: Env)
    requires WriteBackupSpec(fs, items, includeSubdirs, timestamp, env).Some?
    ensures var w := WriteBackupSpec(fs, items, includeSubdirs, timestamp, env).value;
      Uniform(w.units, env) &&
      (w.units == [] <==> Encrypted(env) && !env.keyValid) &&
      (w.units != [] ==> w.units[0] == Seal(env, Backup.Header(timestamp)))
  {
    if !Encrypted(env) || env.keyValid {
      var start := Writer([Seal(env, Backup.Header(timestamp))], [], 0, None);
      var total := TotalSize(fs, items, includeSubdirs).value;
      ApplyUniform(start, Selected(fs, items, includeSubdirs), total, env);
    }
  }

  // ---------------------------------------------------------------------------
  // What a backup promises

  /** Where the total is not zero and the key is accepted, nothing stops the
      loop: the file holds the header and then the units of every visited
      file in visiting order, every file is reported, the running sum ends
      equal to `get_total_size()`, and the run reports `backup_completed`. */
  lemma BackupReachesTotal(fs: Fs, items: seq<Path>, includeSubdirs: bool, timestamp: string, env: Env, backupPath: Path)
    requires TotalSize(fs, items, includeSubdirs).Some? && TotalSize(fs, items, includeSubdirs).value > 0
    requires !Encrypted(env) || env.keyValid
    ensures var es := Selected(fs, items, includeSubdirs);
      var total := TotalSize(fs, items, includeSubdirs).value;
      var result := WriteBackupSpec(fs, items, includeSubdirs, timestamp, env);
      result == Some(Writer([Seal(env, Backup.Header(timestamp))] + AllUnits(es, env),
                            Backup.EntryEvents(es, 0, total), total, None)) &&
      BackupSignals(result, backupPath) == Backup.EntryEvents(es, 0, total) + [BackupCompleted(backupPath)]
  {
    var es := Selected(fs, items, includeSubdirs);
    var total := TotalSize(fs, items, includeSubdirs).value;
    assert Statable(es) && total == SumSizes(es);
    var start := Writer([Seal(env, Backup.Header(timestamp))], [], 0, None);
    ApplyStatable(start, es, total, env);
    assert [] + Backup.EntryEvents(es, 0, total) == Backup.EntryEvents(es, 0, total);
  }

  /** With a zero total, the first visited file is written and then the
      percentage division leaves the loop before any signal; the exception is
      only logged, so the run reports `backup_completed` and nothing else. */
  lemma ZeroTotalStillCompletes(fs: Fs, items: seq<Path>, includeSubdirs: bool, timestamp: string, env: Env, backupPath: Path)
    requires TotalSize(fs, items, includeSubdirs) == Some(0) && Selected(fs, items, includeSubdirs) != []
    requires !Encrypted(env) || env.keyValid
    ensures var es := Selected(fs, items, includeSubdirs);
      var result := WriteBackupSpec(fs, items, includeSubdirs, timestamp, env);
      result.Some? && result.value.stopped == Some(ZeroDivision) &&
      result.value.units == [Seal(env, Backup.Header(timestamp))] + FileUnits(es[0], env) &&
      BackupSignals(result, backupPath) == [BackupCompleted(backupPath)]
  {
    var es := Selected(fs, items, includeSubdirs);
    assert Statable(es);
    StatableTail(es);
    var start := Writer([Seal(env, Backup.Header(timestamp))], [], 0, None);
    var w1 := Visit(start, es[0], 0, env);
    assert w1 == Writer(start.units + FileUnits(es[0], env), [], Size(es[0]), Some(ZeroDivision));
    ApplyStopped(w1, es[1..], 0, env);
    assert Apply(start, es, 0, env) == w1;
  }

  /** Signals that are progress and file reports only. */
  predicate ReportsOnly(evs: seq<Event>) {
    forall i :: 0 <= i < |evs| ==> evs[i].Progress? || evs[i].FileProcessed?
  }

  /** The signals of the loop are progress and file reports only. */
  lemma {:induction false} ApplyReportsOnly(w: Writer, es: seq<Entry>, total: nat, env: Env)
    requires ReportsOnly(w.events)
    ensures ReportsOnly(Apply(w, es, total, env).events)
    decreases |es|
  {
    if es != [] && w.stopped.None? {
      var w1 := Visit(w, es[0], total, env);
      if w1.events != w.events {
        var e := es[0];
        var s := w.events + [Progress(w1.processed, total), FileProcessed(e.path, Size(e))];
        assert w1.events == s;
        assert forall i :: 0 <= i < |w.events| ==> s[i] == w.events[i];
        assert s[|w.events|].Progress? && s[|w.events| + 1].FileProcessed?;
      }
      ApplyReportsOnly(w1, es[1..], total, env);
    }
  }

  /** `_backup` reports `backup_failed` exactly when `get_total_size` raises;
      every other exception (a refused key, a dangling link, a zero total)
      ends in `backup_completed`, after progress and file reports only. */
  lemma CompletedUnlessTotalFails(fs: Fs, items: seq<Path>, includeSubdirs: bool, timestamp: string, env: Env, backupPath: Path)
    ensures var s := BackupSignals(WriteBackupSpec(fs, items, includeSubdirs, timestamp, env), backupPath);
      (TotalSize(fs, items, includeSubdirs).None? <==> s == [BackupFailed(StatFailed)]) &&
      (TotalSize(fs, items, includeSubdirs).Some? <==> s[|s| - 1] == BackupCompleted(backupPath) && ReportsOnly(s[..|s| - 1]))
  {
    var result := WriteBackupSpec(fs, items, includeSubdirs, timestamp, env);
    if result.Some? {
      if !Encrypted(env) || env.keyValid {
        var start := Writer([Seal(env, Backup.Header(timestamp))], [], 0, None);
        ApplyReportsOnly(start, Selected(fs, items, includeSubdirs), TotalSize(fs, items, includeSubdirs).value, env);
      }
      var s := BackupSignals(result, backupPath);
      assert s[..|s| - 1] == result.value.events;
    }
  }

  /** Every unit was written as plain text. */
  predicate AllPlain(units: seq<Unit>) {
    forall i :: 0 <= i < |units| ==> units[i].Plain?
  }

  /** The text of a backup written without a key. */
  function Render(units: seq<Unit>): string
    requires AllPlain(units)
  {
    if units == [] then [] else units[0].text + Render(units[1..])
  }

  /** The text written for files without a key: each frame line runs straight
      into the file's text, and that text straight into the next frame line,
      with no blank line between records. */
  function PlainRecords(es: seq<Entry>, env: Env): string {
    if es == [] then []
    else
      var e := es[0];
      (if e.blob.access != Readable then ErrorLine(e.path, env.reason(e.path))
       else Backup.FrameLine(e.path) + env.lossy(e.blob.data)) + PlainRecords(es[1..], env)
  }

  lemma PlainAppend(a: seq<Unit>, b: seq<Unit>)
    requires AllPlain(a)
    requires AllPlain(b)
    ensures AllPlain(a + b)
  {
    forall i | 0 <= i < |a + b| ensures (a + b)[i].Plain? {
      AppendAt(a, b, i);
    }
  }

  lemma {:induction false} RenderAppend(a: seq<Unit>, b: seq<Unit>)
    requires AllPlain(a)
    requires AllPlain(b)
    ensures AllPlain(a + b)
    ensures Render(a + b) == Render(a) + Render(b)
    decreases |a|
  {
    PlainAppend(a, b);
    if a == [] {
      assert a + b == b;
    } else {
      var ab := a + b;
      var tail := a[1..];
      assert ab[0] == a[0] && ab[1..] == tail + b;
      assert forall i :: 0 <= i < |tail| ==> tail[i] == a[i + 1];
      RenderAppend(tail, b);
      assert Render(ab) == a[0].text + Render(tail + b);
      assert Render(a) == a[0].text + Render(tail);
    }
  }

  lemma {:induction false} RenderAll(es: seq<Entry>, env: Env)
    requires !Encrypted(env)
    ensures AllPlain(AllUnits(es, env))
    ensures Render(AllUnits(es, env)) == PlainRecords(es, env)
    decreases |es|
  {
    if es != [] {
      var u := FileUnits(es[0], env);
      RenderAll(es[1..], env);
      RenderAppend(u, AllUnits(es[1..], env));
      if es[0].blob.access == Readable {
        assert Render(u) == Backup.FrameLine(es[0].path) + env.lossy(es[0].blob.data);
      }
    }
  }

  /** Without a key, a backup that runs to the end is the header followed by
      the records of every visited file, none separated from the next. */
  lemma PlainBackupText(fs: Fs, items: seq<Path>, includeSubdirs: bool, timestamp: string, env: Env)
    requires TotalSize(fs, items, includeSubdirs).Some? && TotalSize(fs, items, includeSubdirs).value > 0
    requires !Encrypted(env)
    ensures var w := WriteBackupSpec(fs, items, includeSubdirs, timestamp, env).value;
      AllPlain(w.units) &&
      Render(w.units) == Backup.Header(timestamp) + PlainRecords(Selected(fs, items, includeSubdirs), env)
  {
    var es := Selected(fs, items, includeSubdirs);
    var hd := [Plain(Backup.Header(timestamp))];
    BackupReachesTotal(fs, items, includeSubdirs, timestamp, env, []);
    RenderAll(es, env);
    RenderAppend(hd, AllUnits(es, env));
    assert Render(hd) == Backup.Header(timestamp);
  }

  /** Rendered text begins with the text of any prefix of the units. */
  lemma RenderPrefix(units: seq<Unit>, k: nat)
    requires k <= |units| && AllPlain(units)
    ensures AllPlain(units[..k])
    ensures StartsWith(Render(units), Render(units[..k]))
  {
    assert units == units[..k] + units[k..];
    RenderAppend(units[..k], units[k..]);
  }

  // ---------------------------------------------------------------------------
  // The restore

  /** `.decode('utf-8')` of a decrypted plaintext: text encoded on the way in
      comes back unchanged, raw bytes go through strict decoding. */
  function Opened(p: Plaintext, strict: Backup.Decoder): Option<string> {
    match p
    case Encoded(t) => Some(t)
    case Raw(b) => strict(b)
  }

  /** `Fernet.decrypt` of the whole file succeeds only on a file that is one
      token made under the same key. */
  predicate OneToken(file: seq<Unit>, key: seq<Byte>) {
    |file| == 1 && file[0].Sealed? && file[0].key == key
  }

  /** The keyed branch of `restore_uncompressed`: read the file's bytes
      (`None` where `open` raises), then `Fernet(key)`, decrypt, decode and
      the text parse; no line-ending translation happens on a file read in
      binary mode. */
  function SealedSpec(file: Option<seq<Unit>>, env: Env, strict: Backup.Decoder, restoreDir: Path, cwd: Path): Restore.Restorer {
    if file.None? then Restore.Fresh.(failure := Some(NoSource))
    else if !env.keyValid then Restore.Fresh.(failure := Some(KeyRejected))
    else if !OneToken(file.value, env.key) then Restore.Fresh.(failure := Some(InvalidToken))
    else match Opened(file.value[0].payload, strict)
      case None => Restore.Fresh.(failure := Some(PlainNotUtf8))
      case Some(text) => Restore.TextSpec(text, restoreDir, cwd, false)
  }

  /** `restore_uncompressed()`: `file` is the backup file's units, read as
      bytes when a key is set; `content` is its text, read in text mode; each
      is `None` where its `open` raises. */
  function UncompressedSpec(file: Option<seq<Unit>>, content: Option<string>, env: Env, strict: Backup.Decoder,
                            restoreDir: Path, cwd: Path): Restore.Restorer {
    if Encrypted(env) then SealedSpec(file, env, strict, restoreDir, cwd)
    else Restore.UncompressedSpec(content, restoreDir, cwd)
  }

  method RestoreUncompressed(file: Option<seq<Unit>>, content: Option<string>, env: Env, strict: Backup.Decoder,
                             restoreDir: Path, cwd: Path) returns (r: Restore.Restorer)
    ensures r == UncompressedSpec(file, content, env, strict, restoreDir, cwd)
  {
    if !Encrypted(env) {
      r := Restore.RestoreUncompressed(content, restoreDir, cwd);
      return;
    }
    if file.None? {
      return Restore.Fresh.(failure := Some(NoSource));
    }
    var units := file.value;
    if !env.keyValid {
      return Restore.Fresh.(failure := Some(KeyRejected));
    }
    if |units| != 1 || !units[0].Sealed? || units[0].key != env.key {
      return Restore.Fresh.(failure := Some(InvalidToken));
    }
    var text := Opened(units[0].payload, strict);
    if text.None? {
      return Restore.Fresh.(failure := Some(PlainNotUtf8));
    }
    r := Restore.RestoreText(text.value, restoreDir, cwd);
  }

  /** `_restore()`: the archive branch on the name alone, then
      `restore_completed` whatever the helper reported. */
  method RunRestore(backupFile: Path, archive: Option<seq<Restore.ZipInfo>>, file: Option<seq<Unit>>, content: Option<string>,
                    env: Env, strict: Backup.Decoder, restoreDir: Path, cwd: Path)
    returns (written: seq<Restore.Output>, events: seq<Event>)
    ensures Restore.IsZipName(backupFile) ==>
      var r := Restore.ZipSpec(archive, restoreDir);
      written == r.written && events == Restore.Signals(r, FromZip)
    ensures !Restore.IsZipName(backupFile) ==>
      var r := UncompressedSpec(file, content, env, strict, restoreDir, cwd);
      written == r.written && events == Restore.Signals(r, Uncompressed)
    ensures |events| >= 1 && events[|events| - 1] == RestoreCompleted
  {
    var r: Restore.Restorer;
    var stage: Stage;
    if EndsWith(Lower(backupFile), ".zip") {
      r := Restore.RestoreFromZip(archive, restoreDir);
      stage := FromZip;
    } else {
      r := RestoreUncompressed(file, content, env, strict, restoreDir, cwd);
      stage := Uncompressed;
    }
    written := r.written;
    events := r.events;
    if r.failure.Some? {
      events := events + [RestoreFailed(stage, r.failure.value)];
    }
    events := events + [RestoreCompleted];
    Restore.SignalsEnd(r, stage);
  }

  // ---------------------------------------------------------------------------
  // Restoring what this handler wrote

  /** A sealed header alone decrypts to the header text, whose first block
      has no newline. */
  lemma SealedHeaderRefused(timestamp: string, env: Env, strict: Backup.Decoder, restoreDir: Path, cwd: Path)
    requires Encrypted(env) && env.keyValid && '\n' !in timestamp
    ensures UncompressedSpec(Some([Seal(env, Backup.Header(timestamp))]), None, env, strict, restoreDir, cwd)
         == Restore.Fresh.(failure := Some(NotEnoughValues))
  {
    var h := Restore.HeaderBlock(timestamp);
    assert Backup.Header(timestamp) == h + "\n\n" + "";
    Restore.HeaderNotBlank(timestamp);
    NoNewlineNoBreak(h);
    SplitCons(h, "");
    Restore.FirstBlockRejected(Backup.Header(timestamp), restoreDir, cwd);
  }

  /** With a key, a backup of at least one file is several tokens, which the
      restore refuses as a whole; a backup of nothing is the header alone,
      which decrypts but holds no newline. Either way nothing is restored and
      the run reports `restore_failed` and then `restore_completed`.
      The timestamp has the 19 or 26 characters `isoformat()` produces, so the
      header is 39 or 46 bytes and its token 105 bytes, 140 base64 characters
      without `=` padding: Fernet's lenient base64 decoding therefore reads on
      past the header token into the next one, and the whole file is refused. */
  lemma EncryptedOwnBackupRejected(fs: Fs, items: seq<Path>, includeSubdirs: bool, timestamp: string, env: Env,
                                   strict: Backup.Decoder, restoreDir: Path, cwd: Path)
    requires TotalSize(fs, items, includeSubdirs).Some?
    requires Encrypted(env) && env.keyValid && '\n' !in timestamp
    requires |timestamp| == 19 || |timestamp| == 26
    ensures var w := WriteBackupSpec(fs, items, includeSubdirs, timestamp, env).value;
      var r := UncompressedSpec(Some(w.units), None, env, strict, restoreDir, cwd);
      var cause := if Selected(fs, items, includeSubdirs) == [] then NotEnoughValues else InvalidToken;
      r == Restore.Fresh.(failure := Some(cause)) &&
      Restore.Signals(r, Uncompressed) == [RestoreFailed(Uncompressed, cause), RestoreCompleted]
  {
    var es := Selected(fs, items, includeSubdirs);
    var total := TotalSize(fs, items, includeSubdirs).value;
    var start := Writer([Seal(env, Backup.Header(timestamp))], [], 0, None);
    var units := Apply(start, es, total, env).units;
    assert WriteBackupSpec(fs, items, includeSubdirs, timestamp, env).value.units == units;
    ApplyUniform(start, es, total, env);
    if es == [] {
      assert units == start.units;
      SealedHeaderRefused(timestamp, env, strict, restoreDir, cwd);
    } else {
      assert |units| > 1;
      assert UncompressedSpec(Some(units), None, env, strict, restoreDir, cwd) == Restore.Fresh.(failure := Some(InvalidToken));
    }
  }

  /** Without a key the restore reads the header line as its first block and
      raises there, so it cannot read a backup this handler wrote, complete
      or cut short. */
  lemma PlainOwnBackupRejected(fs: Fs, items: seq<Path>, includeSubdirs: bool, timestamp: string, env: Env,
                               strict: Backup.Decoder, restoreDir: Path, cwd: Path)
    requires TotalSize(fs, items, includeSubdirs).Some?
    requires !Encrypted(env) && '\n' !in timestamp && '\r' !in timestamp
    ensures var w := WriteBackupSpec(fs, items, includeSubdirs, timestamp, env).value;
      AllPlain(w.units) &&
      var r := UncompressedSpec(Some(w.units), Some(Render(w.units)), env, strict, restoreDir, cwd);
      r == Restore.Fresh.(failure := Some(NotEnoughValues)) &&
      Restore.Signals(r, Uncompressed) == [RestoreFailed(Uncompressed, NotEnoughValues), RestoreCompleted]
  {
    OutputUniform(fs, items, includeSubdirs, timestamp, env);
    var w := WriteBackupSpec(fs, items, includeSubdirs, timestamp, env).value;
    RenderPrefix(w.units, 1);
    assert w.units[..1] == [Plain(Backup.Header(timestamp))];
    assert Render(w.units[..1]) == Backup.Header(timestamp);
    Restore.HeaderedRejected(Render(w.units), timestamp, restoreDir, cwd);
  }
}
