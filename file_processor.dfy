/** The file processor worker: copy, move, zip, unzip or delete a selection
    of paths, reporting one message per item and finally either completion or
    the failure that stopped it.

    Every action is planned as a list of tasks over the filesystem as it is
    when the worker starts: an operation on the filesystem (`Do`), a
    `file_processed` message (`Say`) or an exception raised by the worker's own
    code (`Raise`). Which filesystem operations raise is a parameter. */
module FileProcessor {
  import opened Text
  import opened Paths
  import opened FileTree
  import opened Events
  import Utils

  /** The calls into `shutil`, `zipfile` and `os` that change the filesystem. */
  datatype Op =
    | CopyFile(source: Path, target: Path)     // `shutil.copy2`
    | CopyTree(source: Path, target: Path)     // `shutil.copytree`
    | Move(source: Path, target: Path)         // `shutil.move`
    | CreateArchive(archive: Path)             // `zipfile.ZipFile(archive, 'w')`
    | Store(file: Path, arcname: Path)         // `zipf.write(file, arcname)`
    | Extract(archive: Path, target: Path)     // open `archive` and `extractall(target)`
    | Remove(path: Path)                       // `os.remove`
    | RemoveTree(path: Path)                   // `shutil.rmtree`

  datatype Task = Do(op: Op) | Say(text: string) | Raise(cause: Error)

  /** The operations carried out so far, the signals emitted so far and the
      exception that stopped the worker, if any. */
  datatype Processor = Processor(done: seq<Op>, events: seq<Event>, failure: Option<Error>)

  const Idle := Processor([], [], None)

  /** Which operations raise: the filesystem and archive contents the model
      does not hold. */
  type Fails = Op -> bool

  /** The path an operation's exception names. */
  function Subject(op: Op): Path {
    match op
    case CopyFile(s, _) => s
    case CopyTree(s, _) => s
    case Move(s, _) => s
    case CreateArchive(a) => a
    case Store(f, _) => f
    case Extract(a, _) => a
    case Remove(p) => p
    case RemoveTree(p) => p
  }

  function Perform(p: Processor, t: Task, fails: Fails): Processor {
    match t
    case Do(op) =>
      if fails(op) then p.(failure := Some(OperationFailed(Subject(op))))
      else p.(done := p.done + [op])
    case Say(m) => p.(events := p.events + [Message(m)])
    case Raise(c) => p.(failure := Some(c))
  }

  /** Carrying out tasks in order; the first exception ends the action. */
  function Exec(p: Processor, ts: seq<Task>, fails: Fails): Processor
    decreases |ts|
  {
    if ts == [] || p.failure.Some? then p
    else Exec(Perform(p, ts[0], fails), ts[1..], fails)
  }

  // ---------------------------------------------------------------------------
  // The plans of the five actions

  /** `_copy_files` for one source: a file is copied into the destination, a
      directory becomes a new directory of the same name inside it, anything
      else is skipped. */
  function CopyItem(fs: Fs, source: Path, dest: Path): seq<Task> {
    if IsFile(fs, source) then [Do(CopyFile(source, dest)), Say("Copied: " + source)]
    else if IsDir(fs, source) then
      [Do(CopyTree(source, MoveTarget(source, dest))), Say("Copied directory: " + source)]
    else []
  }

  function CopyPlan(fs: Fs, sources: seq<Path>, dest: Path): seq<Task> {
    if sources == [] then [] else CopyItem(fs, sources[0], dest) + CopyPlan(fs, sources[1..], dest)
  }

  /** `_move_files` for one source: moved to the name it has, inside the
      destination. */
  function MoveItem(source: Path, dest: Path): seq<Task> {
    [Do(Move(source, MoveTarget(source, dest))), Say("Moved: " + source)]
  }

  /** `os.path.join(destination, os.path.basename(source))`. */
  function MoveTarget(source: Path, dest: Path): Path {
    Join(dest, BaseName(source))
  }

  function MovePlan(sources: seq<Path>, dest: Path): seq<Task> {
    if sources == [] then [] else MoveItem(sources[0], dest) + MovePlan(sources[1..], dest)
  }

  /** How the files of a zipped directory are named in the archive; `None`
      where the naming raises. */
  type ArcNaming = Path -> Option<Path>

  /** `os.path.relpath(file_path, parent)`: `relpath` of an empty path raises. */
  function RelativeTo(parent: Path, cwd: Path): ArcNaming {
    p => RelPath(p, parent, cwd)
  }

  /** One walked file of a zipped directory. */
  function ZipEntry(e: Entry, arc: ArcNaming): seq<Task> {
    match arc(e.path)
    case None => [Raise(NoPathSpecified)]
    case Some(arcname) => [Do(Store(e.path, arcname)), Say("Added to zip: " + e.path)]
  }

  function ZipEntries(es: seq<Entry>, arc: ArcNaming): seq<Task> {
    if es == [] then [] else ZipEntry(es[0], arc) + ZipEntries(es[1..], arc)
  }

  /** The files of a directory always include its subdirectories: the walk
      has no skip rule. */
  function DirEntries(fs: Fs, source: Path): seq<Entry>
    requires IsDir(fs, source)
  {
    WalkEntries(source, Walk(source, fs[source].children), true)
  }

  /** `_zip_files` for one source: a file is stored under its base name, a
      directory file by file, anything else is skipped. */
  function ZipItem(fs: Fs, source: Path, cwd: Path): seq<Task> {
    if IsFile(fs, source) then [Do(Store(source, BaseName(source))), Say("Added to zip: " + source)]
    else if IsDir(fs, source) then ZipEntries(DirEntries(fs, source), RelativeTo(DirName(source), cwd))
    else []
  }

  function ZipItems(fs: Fs, sources: seq<Path>, cwd: Path): seq<Task> {
    if sources == [] then [] else ZipItem(fs, sources[0], cwd) + ZipItems(fs, sources[1..], cwd)
  }

  function ZipPlan(fs: Fs, sources: seq<Path>, dest: Path, cwd: Path): seq<Task> {
    [Do(CreateArchive(dest))] + ZipItems(fs, sources, cwd)
  }

  function Extracted(names: seq<string>): seq<Task> {
    if names == [] then [] else [Say("Extracted: " + names[0])] + Extracted(names[1..])
  }

  /** `_unzip_files`: only the first selected path is opened as an archive;
      `namelist` gives the member names of an archive. */
  function UnzipPlan(sources: seq<Path>, dest: Path, namelist: Path -> seq<string>): seq<Task> {
    if sources == [] then [Raise(EmptySelection)]
    else [Do(Extract(sources[0], dest))] + Extracted(namelist(sources[0]))
  }

  /** `q` is `s` or lies inside it. */
  predicate Covers(s: Path, q: Path) {
    q == s || StartsWith(q, s + "/")
  }

  /** `shutil.rmtree(s)`: the directory and everything below it disappear. */
  function Prune(fs: Fs, s: Path): Fs {
    map q | q in fs && !Covers(s, q) :: fs[q]
  }

  /** The filesystem after deleting one source. */
  function Without(fs: Fs, source: Path): Fs {
    if IsFile(fs, source) then fs - {source}
    else if IsDir(fs, source) then Prune(fs, source)
    else fs
  }

  function DeleteItem(fs: Fs, source: Path): seq<Task> {
    if IsFile(fs, source) then [Do(Remove(source)), Say("Deleted: " + source)]
    else if IsDir(fs, source) then [Do(RemoveTree(source)), Say("Deleted directory: " + source)]
    else []
  }

  /** `_delete_files`: each source is tested against the filesystem the
      earlier deletions left. */
  function DeletePlan(fs: Fs, sources: seq<Path>): seq<Task> {
    if sources == [] then []
    else DeleteItem(fs, sources[0]) + DeletePlan(Without(fs, sources[0]), sources[1..])
  }

  function AfterDelete(fs: Fs, sources: seq<Path>): Fs {
    if sources == [] then fs else AfterDelete(Without(fs, sources[0]), sources[1..])
  }

  /** The plan `run` dispatches to; an unknown action does nothing. */
  function Plan(action: string, fs: Fs, sources: seq<Path>, dest: Path, cwd: Path,
                namelist: Path -> seq<string>): seq<Task>
  {
    if action == "copy" then CopyPlan(fs, sources, dest)
    else if action == "move" then MovePlan(sources, dest)
    else if action == "zip" then ZipPlan(fs, sources, dest, cwd)
    else if action == "unzip" then UnzipPlan(sources, dest, namelist)
    else if action == "delete" then DeletePlan(fs, sources)
    else []
  }

  /** Carrying out a plan from the start: its messages, then
      `processing_completed` or `processing_failed`. */
  function Outcome(ts: seq<Task>, fails: Fails): seq<Event> {
    var p := Exec(Idle, ts, fails);
    p.events + [if p.failure.Some? then ProcessingFailed(p.failure.value) else ProcessingCompleted]
  }

  /** `run`: the outcome of the plan of the chosen action. */
  function RunSpec(action: string, fs: Fs, sources: seq<Path>, dest: Path, cwd: Path,
                   namelist: Path -> seq<string>, fails: Fails): seq<Event>
  {
    Outcome(Plan(action, fs, sources, dest, cwd, namelist), fails)
  }

  // ---------------------------------------------------------------------------
  // The worker

  lemma {:induction false} ExecAppend(p: Processor, a: seq<Task>, b: seq<Task>, fails: Fails)
    ensures Exec(p, a + b, fails) == Exec(Exec(p, a, fails), b, fails)
    decreases |a|
  {
    if a == [] {
      assert a + b == b;
    } else if p.failure.None? {
      assert (a + b)[1..] == a[1..] + b;
      ExecAppend(Perform(p, a[0], fails), a[1..], b, fails);
    } else {
      ExecStopped(p, b, fails);
    }
  }

  lemma ExecStopped(p: Processor, ts: seq<Task>, fails: Fails)
    requires p.failure.Some?
    ensures Exec(p, ts, fails) == p
  {
  }

  /** One operation and the message that follows it. */
  method Attempt(p: Processor, op: Op, message: string, fails: Fails) returns (p': Processor)
    requires p.failure.None?
    ensures p' == Exec(p, [Do(op), Say(message)], fails)
  {
    var ts := [Do(op), Say(message)];
    assert ts[1..] == [Say(message)] && ts[1..][1..] == [];
    var q := Perform(p, Do(op), fails);
    assert Exec(p, ts, fails) == Exec(q, [Say(message)], fails);
    if fails(op) {
      p' := p.(failure := Some(OperationFailed(Subject(op))));
    } else {
      p' := p.(done := p.done + [op], events := p.events + [Message(message)]);
      assert Exec(q, [Say(message)], fails) == Exec(p', [], fails);
    }
  }

  /** One source of `_copy_files`. */
  method CopyOne(p: Processor, fs: Fs, source: Path, dest: Path, fails: Fails) returns (p': Processor)
    requires p.failure.None?
    ensures p' == Exec(p, CopyItem(fs, source, dest), fails)
  {
    if IsFile(fs, source) {
      p' := Attempt(p, CopyFile(source, dest), "Copied: " + source, fails);
    } else if IsDir(fs, source) {
      var target := Join(dest, BaseName(source));
      p' := Attempt(p, CopyTree(source, target), "Copied directory: " + source, fails);
    } else {
      p' := p;
    }
  }

  method CopyFiles(p: Processor, fs: Fs, sources: seq<Path>, dest: Path, fails: Fails) returns (p': Processor)
    ensures p' == Exec(p, CopyPlan(fs, sources, dest), fails)
  {
    p' := p;
    var i := 0;
    assert sources[0..] == sources;
    while i < |sources| && p'.failure.None?
      invariant 0 <= i <= |sources|
      invariant Exec(p', CopyPlan(fs, sources[i..], dest), fails) == Exec(p, CopyPlan(fs, sources, dest), fails)
    {
      assert sources[i..][1..] == sources[i + 1..];
      ExecAppend(p', CopyItem(fs, sources[i], dest), CopyPlan(fs, sources[i + 1..], dest), fails);
      p' := CopyOne(p', fs, sources[i], dest, fails);
      i := i + 1;
    }
    if i == |sources| {
      assert sources[i..] == [];
    } else {
      ExecStopped(p', CopyPlan(fs, sources[i..], dest), fails);
    }
  }

  method MoveFiles(p: Processor, sources: seq<Path>, dest: Path, fails: Fails) returns (p': Processor)
    ensures p' == Exec(p, MovePlan(sources, dest), fails)
  {
    p' := p;
    var i := 0;
    assert sources[0..] == sources;
    while i < |sources| && p'.failure.None?
      invariant 0 <= i <= |sources|
      invariant Exec(p', MovePlan(sources[i..], dest), fails) == Exec(p, MovePlan(sources, dest), fails)
    {
      var source := sources[i];
      assert sources[i..][1..] == sources[i + 1..];
      ExecAppend(p', MoveItem(source, dest), MovePlan(sources[i + 1..], dest), fails);
      var target := Join(dest, BaseName(source));
      p' := Attempt(p', Move(source, target), "Moved: " + source, fails);
      i := i + 1;
    }
    if i == |sources| {
      assert sources[i..] == [];
    } else {
      ExecStopped(p', MovePlan(sources[i..], dest), fails);
    }
  }

  /** `for root, _, files in os.walk(source): for file in files: ...` */
  method ZipDirectory(p: Processor, es: seq<Entry>, arc: ArcNaming, fails: Fails) returns (p': Processor)
    ensures p' == Exec(p, ZipEntries(es, arc), fails)
  {
    p' := p;
    var i := 0;
    assert es[0..] == es;
    while i < |es| && p'.failure.None?
      invariant 0 <= i <= |es|
      invariant Exec(p', ZipEntries(es[i..], arc), fails) == Exec(p, ZipEntries(es, arc), fails)
    {
      var e := es[i];
      assert es[i..][1..] == es[i + 1..];
      ExecAppend(p', ZipEntry(e, arc), ZipEntries(es[i + 1..], arc), fails);
      var arcname := arc(e.path);
      if arcname.None? {
        p' := p'.(failure := Some(NoPathSpecified));
      } else {
        p' := Attempt(p', Store(e.path, arcname.value), "Added to zip: " + e.path, fails);
      }
      i := i + 1;
    }
    if i == |es| {
      assert es[i..] == [];
    } else {
      ExecStopped(p', ZipEntries(es[i..], arc), fails);
    }
  }

  method ZipFiles(p: Processor, fs: Fs, sources: seq<Path>, dest: Path, cwd: Path, fails: Fails)
    returns (p': Processor)
    requires p.failure.None?
    ensures p' == Exec(p, ZipPlan(fs, sources, dest, cwd), fails)
  {
    ExecAppend(p, [Do(CreateArchive(dest))], ZipItems(fs, sources, cwd), fails);
    if fails(CreateArchive(dest)) {
      p' := p.(failure := Some(OperationFailed(dest)));
      ExecStopped(p', ZipItems(fs, sources, cwd), fails);
      return;
    }
    p' := p.(done := p.done + [CreateArchive(dest)]);
    var i := 0;
    assert sources[0..] == sources;
    while i < |sources| && p'.failure.None?
      invariant 0 <= i <= |sources|
      invariant Exec(p', ZipItems(fs, sources[i..], cwd), fails) == Exec(p, ZipPlan(fs, sources, dest, cwd), fails)
    {
      var source := sources[i];
      assert sources[i..][1..] == sources[i + 1..];
      ExecAppend(p', ZipItem(fs, source, cwd), ZipItems(fs, sources[i + 1..], cwd), fails);
      if IsFile(fs, source) {
        p' := Attempt(p', Store(source, BaseName(source)), "Added to zip: " + source, fails);
      } else if IsDir(fs, source) {
        p' := ZipDirectory(p', DirEntries(fs, source), RelativeTo(DirName(source), cwd), fails);
      }
      i := i + 1;
    }
    if i == |sources| {
      assert sources[i..] == [];
    } else {
      ExecStopped(p', ZipItems(fs, sources[i..], cwd), fails);
    }
  }

  method UnzipFiles(p: Processor, sources: seq<Path>, dest: Path, namelist: Path -> seq<string>, fails: Fails)
    returns (p': Processor)
    requires p.failure.None?
    ensures p' == Exec(p, UnzipPlan(sources, dest, namelist), fails)
  {
    if sources == [] {
      return p.(failure := Some(EmptySelection));
    }
    var archive := sources[0];
    ExecAppend(p, [Do(Extract(archive, dest))], Extracted(namelist(archive)), fails);
    if fails(Extract(archive, dest)) {
      p' := p.(failure := Some(OperationFailed(archive)));
      ExecStopped(p', Extracted(namelist(archive)), fails);
      return;
    }
    p' := p.(done := p.done + [Extract(archive, dest)]);
    var names := namelist(archive);
    var i := 0;
    assert names[0..] == names;
    while i < |names|
      invariant 0 <= i <= |names| && p'.failure.None?
      invariant Exec(p', Extracted(names[i..]), fails) == Exec(p, UnzipPlan(sources, dest, namelist), fails)
    {
      assert names[i..][1..] == names[i + 1..];
      p' := p'.(events := p'.events + [Message("Extracted: " + names[i])]);
      i := i + 1;
    }
    assert names[i..] == [];
  }

  /** Deleting, with the filesystem each later test sees. */
  method DeleteFiles(p: Processor, fs: Fs, sources: seq<Path>, fails: Fails) returns (p': Processor, fs': Fs)
    ensures p' == Exec(p, DeletePlan(fs, sources), fails)
    ensures p'.failure.None? && p.failure.None? ==> fs' == AfterDelete(fs, sources)
  {
    p', fs' := p, fs;
    var i := 0;
    assert sources[0..] == sources;
    while i < |sources| && p'.failure.None?
      invariant 0 <= i <= |sources|
      invariant Exec(p', DeletePlan(fs', sources[i..]), fails) == Exec(p, DeletePlan(fs, sources), fails)
      invariant p.failure.None? ==> AfterDelete(fs', sources[i..]) == AfterDelete(fs, sources)
    {
      var source := sources[i];
      assert sources[i..][1..] == sources[i + 1..];
      ExecAppend(p', DeleteItem(fs', source), DeletePlan(Without(fs', source), sources[i + 1..]), fails);
      if IsFile(fs', source) {
        p' := Attempt(p', Remove(source), "Deleted: " + source, fails);
      } else if IsDir(fs', source) {
        p' := Attempt(p', RemoveTree(source), "Deleted directory: " + source, fails);
      }
      fs' := Without(fs', source);
      i := i + 1;
    }
    if i == |sources| {
      assert sources[i..] == [];
    } else {
      ExecStopped(p', DeletePlan(fs', sources[i..]), fails);
    }
  }

  /** `FileProcessor.run`. The options are not read by any action. */
  method Run(action: string, fs: Fs, sources: seq<Path>, dest: Path, cwd: Path,
             namelist: Path -> seq<string>, fails: Fails) returns (events: seq<Event>)
    ensures events == RunSpec(action, fs, sources, dest, cwd, namelist, fails)
  {
    var p := Idle;
    if action == "copy" {
      p := CopyFiles(p, fs, sources, dest, fails);
    } else if action == "move" {
      p := MoveFiles(p, sources, dest, fails);
    } else if action == "zip" {
      p := ZipFiles(p, fs, sources, dest, cwd, fails);
    } else if action == "unzip" {
      p := UnzipFiles(p, sources, dest, namelist, fails);
    } else if action == "delete" {
      var remaining;
      p, remaining := DeleteFiles(p, fs, sources, fails);
    }
    if p.failure.Some? {
      events := p.events + [ProcessingFailed(p.failure.value)];
    } else {
      events := p.events + [ProcessingCompleted];
    }
  }

  // ---------------------------------------------------------------------------
  // What a plan does when nothing raises

  /** The operations a plan performs, in order. */
  function Ops(ts: seq<Task>): seq<Op> {
    if ts == [] then [] else (if ts[0].Do? then [ts[0].op] else []) + Ops(ts[1..])
  }

  /** The messages a plan emits, in order. */
  function Said(ts: seq<Task>): seq<Event> {
    if ts == [] then [] else (if ts[0].Say? then [Message(ts[0].text)] else []) + Said(ts[1..])
  }

  /** No task of the plan raises. */
  predicate Succeeds(ts: seq<Task>, fails: Fails) {
    forall i :: 0 <= i < |ts| ==> !ts[i].Raise? && !(ts[i].Do? && fails(ts[i].op))
  }

  lemma {:induction false} OpsAppend(a: seq<Task>, b: seq<Task>)
    ensures Ops(a + b) == Ops(a) + Ops(b)
    decreases |a|
  {
    if a == [] {
      assert a + b == b;
    } else {
      assert (a + b)[1..] == a[1..] + b;
      OpsAppend(a[1..], b);
      AppendAssoc(if a[0].Do? then [a[0].op] else [], Ops(a[1..]), Ops(b));
    }
  }

  lemma {:induction false} SaidAppend(a: seq<Task>, b: seq<Task>)
    ensures Said(a + b) == Said(a) + Said(b)
    decreases |a|
  {
    if a == [] {
      assert a + b == b;
    } else {
      assert (a + b)[1..] == a[1..] + b;
      SaidAppend(a[1..], b);
      AppendAssoc(if a[0].Say? then [Message(a[0].text)] else [], Said(a[1..]), Said(b));
    }
  }

  predicate TaskOk(t: Task, fails: Fails) {
    !t.Raise? && !(t.Do? && fails(t.op))
  }

  lemma SucceedsAppend(a: seq<Task>, b: seq<Task>, fails: Fails)
    ensures Succeeds(a + b, fails) <==> Succeeds(a, fails) && Succeeds(b, fails)
  {
    if Succeeds(a + b, fails) {
      forall i | 0 <= i < |b| ensures TaskOk(b[i], fails) {
        assert (a + b)[|a| + i] == b[i];
      }
      forall i | 0 <= i < |a| ensures TaskOk(a[i], fails) {
        assert (a + b)[i] == a[i];
      }
    }
  }

  lemma SucceedsCons(ts: seq<Task>, fails: Fails)
    requires ts != []
    ensures Succeeds(ts, fails) <==> TaskOk(ts[0], fails) && Succeeds(ts[1..], fails)
  {
    if TaskOk(ts[0], fails) && Succeeds(ts[1..], fails) {
      forall i | 1 <= i < |ts| ensures TaskOk(ts[i], fails) {
        assert ts[1..][i - 1] == ts[i];
      }
    }
  }

  /** A plan runs to its end exactly when none of its tasks raises. */
  lemma {:induction false} ExecFinishes(p: Processor, ts: seq<Task>, fails: Fails)
    requires p.failure.None?
    ensures Exec(p, ts, fails).failure.None? <==> Succeeds(ts, fails)
    decreases |ts|
  {
    if ts != [] {
      SucceedsCons(ts, fails);
      var q := Perform(p, ts[0], fails);
      if TaskOk(ts[0], fails) {
        ExecFinishes(q, ts[1..], fails);
      } else {
        ExecStopped(q, ts[1..], fails);
      }
    }
  }

  /** A plan that runs to its end has performed every operation and emitted
      every message of the plan, after what came before. */
  lemma {:induction false} ExecClean(p: Processor, ts: seq<Task>, fails: Fails)
    requires p.failure.None? && Succeeds(ts, fails)
    ensures Exec(p, ts, fails) == Processor(p.done + Ops(ts), p.events + Said(ts), None)
    decreases |ts|
  {
    if ts == [] {
      assert p.done + [] == p.done && p.events + [] == p.events;
    } else {
      SucceedsCons(ts, fails);
      var q := Perform(p, ts[0], fails);
      PerformClean(p, ts[0], fails);
      ExecClean(q, ts[1..], fails);
      AppendAssoc(p.done, Ops([ts[0]]), Ops(ts[1..]));
      AppendAssoc(p.events, Said([ts[0]]), Said(ts[1..]));
      OpsAppend([ts[0]], ts[1..]);
      SaidAppend([ts[0]], ts[1..]);
      assert [ts[0]] + ts[1..] == ts;
    }
  }

  lemma PerformClean(p: Processor, t: Task, fails: Fails)
    requires p.failure.None? && TaskOk(t, fails)
    ensures Perform(p, t, fails) == Processor(p.done + Ops([t]), p.events + Said([t]), None)
  {
    assert [t][1..] == [];
    assert Ops([t]) == (if t.Do? then [t.op] else []);
    assert Said([t]) == (if t.Say? then [Message(t.text)] else []);
    assert p.done + [] == p.done && p.events + [] == p.events;
  }

  /** `run` emits the messages of the plan it carried out and then exactly one
      final signal: `processing_completed` exactly when nothing raised, which
      for an unknown action is at once. */
  lemma RunOutcome(action: string, fs: Fs, sources: seq<Path>, dest: Path, cwd: Path,
                   namelist: Path -> seq<string>, fails: Fails)
    ensures var r := RunSpec(action, fs, sources, dest, cwd, namelist, fails);
            var ts := Plan(action, fs, sources, dest, cwd, namelist);
            |r| >= 1 &&
            (forall i :: 0 <= i < |r| - 1 ==> r[i].Message?) &&
            (r[|r| - 1] == ProcessingCompleted <==> Succeeds(ts, fails)) &&
            (!Succeeds(ts, fails) ==> r[|r| - 1].ProcessingFailed?) &&
            (Succeeds(ts, fails) ==> r == Said(ts) + [ProcessingCompleted]) &&
            (action !in {"copy", "move", "zip", "unzip", "delete"} ==> r == [ProcessingCompleted])
  {
    OutcomeShape(Plan(action, fs, sources, dest, cwd, namelist), fails);
    if action !in {"copy", "move", "zip", "unzip", "delete"} {
      assert Said([]) == [];
    }
  }

  /** Carrying out any plan emits its messages and then exactly one final
      signal, which reports completion exactly when no task raised. */
  lemma OutcomeShape(ts: seq<Task>, fails: Fails)
    ensures var r := Outcome(ts, fails);
            |r| >= 1 &&
            (forall i :: 0 <= i < |r| - 1 ==> r[i].Message?) &&
            (r[|r| - 1] == ProcessingCompleted <==> Succeeds(ts, fails)) &&
            (!Succeeds(ts, fails) ==> r[|r| - 1].ProcessingFailed?) &&
            (Succeeds(ts, fails) ==> r == Said(ts) + [ProcessingCompleted])
  {
    ExecFinishes(Idle, ts, fails);
    if Succeeds(ts, fails) {
      ExecClean(Idle, ts, fails);
    }
    ExecMessages(Idle, ts, fails);
    var p := Exec(Idle, ts, fails);
    var r := Outcome(ts, fails);
    assert forall i :: 0 <= i < |r| - 1 ==> r[i] == p.events[i];
  }

  predicate Messages(evs: seq<Event>) {
    forall i :: 0 <= i < |evs| ==> evs[i].Message?
  }

  /** Every signal emitted while a plan runs is a message. */
  lemma {:induction false} ExecMessages(p: Processor, ts: seq<Task>, fails: Fails)
    requires Messages(p.events)
    ensures Messages(Exec(p, ts, fails).events)
    decreases |ts|
  {
    if ts != [] && p.failure.None? {
      var q := Perform(p, ts[0], fails);
      if ts[0].Say? {
        var e := Message(ts[0].text);
        assert q.events == p.events + [e];
        forall i | 0 <= i < |q.events| ensures q.events[i].Message? {
          if i < |p.events| {
            assert q.events[i] == p.events[i];
          }
        }
      }
      ExecMessages(q, ts[1..], fails);
    }
  }

  // ---------------------------------------------------------------------------
  // Move and copy

  /** The operation that moves one source. */
  function MoveOp(source: Path, dest: Path): Op {
    Move(source, MoveTarget(source, dest))
  }

  lemma MoveItemShape(source: Path, dest: Path)
    ensures Ops(MoveItem(source, dest)) == [MoveOp(source, dest)]
    ensures Said(MoveItem(source, dest)) == [Message("Moved: " + source)]
  {
    var op, say := MoveOp(source, dest), Say("Moved: " + source);
    var item := MoveItem(source, dest);
    assert item == [Do(op), say] && item[1..] == [say] && [say][1..] == [];
    assert Ops([say]) == [] + Ops([]);
    assert Ops(item) == [op] + Ops([say]);
    assert Said([say]) == [Message("Moved: " + source)] + Said([]);
    assert Said(item) == [] + Said([say]);
  }

  lemma MoveItemSucceeds(source: Path, dest: Path, fails: Fails)
    ensures Succeeds(MoveItem(source, dest), fails) <==> !fails(MoveOp(source, dest))
  {
    var item := MoveItem(source, dest);
    var said := [Say("Moved: " + source)];
    assert item[1..] == said && said[1..] == [];
    SucceedsCons(item, fails);
    SucceedsCons(said, fails);
  }

  /** No source of a move plan fails to move. */
  predicate MovesOk(sources: seq<Path>, dest: Path, fails: Fails) {
    forall i :: 0 <= i < |sources| ==> !fails(MoveOp(sources[i], dest))
  }

  lemma MovesOkCons(sources: seq<Path>, dest: Path, fails: Fails)
    requires sources != []
    ensures MovesOk(sources, dest, fails) <==> !fails(MoveOp(sources[0], dest)) && MovesOk(sources[1..], dest, fails)
  {
    var tail := sources[1..];
    assert forall i :: 1 <= i < |sources| ==> sources[i] == tail[i - 1];
  }

  /** Moving runs to the end exactly when no source fails to move. */
  lemma {:induction false} MoveSucceeds(sources: seq<Path>, dest: Path, fails: Fails)
    ensures Succeeds(MovePlan(sources, dest), fails) <==> MovesOk(sources, dest, fails)
  {
    if sources != [] {
      var item := MoveItem(sources[0], dest);
      var rest := MovePlan(sources[1..], dest);
      assert MovePlan(sources, dest) == item + rest;
      MoveItemSucceeds(sources[0], dest, fails);
      MoveSucceeds(sources[1..], dest, fails);
      SucceedsAppend(item, rest, fails);
      MovesOkCons(sources, dest, fails);
    }
  }

  lemma {:induction false} MoveOpsAt(sources: seq<Path>, dest: Path)
    ensures |Ops(MovePlan(sources, dest))| == |sources|
    ensures forall i :: 0 <= i < |sources| ==> Ops(MovePlan(sources, dest))[i] == MoveOp(sources[i], dest)
  {
    if sources != [] {
      var tail := sources[1..];
      var rest := MovePlan(tail, dest);
      assert MovePlan(sources, dest) == MoveItem(sources[0], dest) + rest;
      MoveItemShape(sources[0], dest);
      MoveOpsAt(tail, dest);
      OpsAppend(MoveItem(sources[0], dest), rest);
      var ops := Ops(MovePlan(sources, dest));
      assert ops == [MoveOp(sources[0], dest)] + Ops(rest);
      forall i | 1 <= i < |sources| ensures ops[i] == MoveOp(sources[i], dest) {
        assert tail[i - 1] == sources[i];
        ConsAt(MoveOp(sources[0], dest), Ops(rest), i);
      }
    }
  }

  lemma {:induction false} MoveSaidAt(sources: seq<Path>, dest: Path)
    ensures |Said(MovePlan(sources, dest))| == |sources|
    ensures forall i :: 0 <= i < |sources| ==> Said(MovePlan(sources, dest))[i] == Message("Moved: " + sources[i])
  {
    if sources != [] {
      var tail := sources[1..];
      var rest := MovePlan(tail, dest);
      assert MovePlan(sources, dest) == MoveItem(sources[0], dest) + rest;
      MoveItemShape(sources[0], dest);
      MoveSaidAt(tail, dest);
      SaidAppend(MoveItem(sources[0], dest), rest);
      var said := Said(MovePlan(sources, dest));
      assert said == [Message("Moved: " + sources[0])] + Said(rest);
      forall i | 1 <= i < |sources| ensures said[i] == Message("Moved: " + sources[i]) {
        assert tail[i - 1] == sources[i];
        ConsAt(Message("Moved: " + sources[0]), Said(rest), i);
      }
    }
  }

  /** Every source is moved, in order, to the name it has inside the
      destination, and each move is reported. */
  lemma MoveAll(sources: seq<Path>, dest: Path)
    ensures |Ops(MovePlan(sources, dest))| == |sources| == |Said(MovePlan(sources, dest))|
    ensures forall i :: 0 <= i < |sources| ==>
      Ops(MovePlan(sources, dest))[i] == MoveOp(sources[i], dest) &&
      Said(MovePlan(sources, dest))[i] == Message("Moved: " + sources[i])
  {
    MoveOpsAt(sources, dest);
    MoveSaidAt(sources, dest);
  }

  /** A moved or copied directory lands directly inside the destination,
      under its own name. */
  lemma IntoDestination(source: Path, dest: Path, cwd: Path)
    requires dest != [] && dest[|dest| - 1] != '/' && PlainName(BaseName(source))
    ensures BaseName(MoveTarget(source, dest)) == BaseName(source)
    ensures AbsComponents(MoveTarget(source, dest), cwd) == AbsComponents(dest, cwd) + [BaseName(source)]
  {
    BaseNameJoin(dest, BaseName(source));
    AbsJoin(dest, BaseName(source), cwd);
  }

  /** The sources that exist when the copy starts. */
  function Existing(fs: Fs, sources: seq<Path>): (r: seq<Path>)
    ensures |r| <= |sources|
  {
    if sources == [] then []
    else (if Exists(fs, sources[0]) then [sources[0]] else []) + Existing(fs, sources[1..])
  }

  /** What copying an existing source does: a file is copied into the
      destination itself, a directory to its own name inside it. */
  function CopyOp(fs: Fs, source: Path, dest: Path): (op: Op)
    requires Exists(fs, source)
    ensures (op.CopyFile? || op.CopyTree?) && op.source == source
    ensures op.CopyFile? <==> IsFile(fs, source)
  {
    if IsFile(fs, source) then CopyFile(source, dest) else CopyTree(source, MoveTarget(source, dest))
  }

  lemma CopyItemFacts(fs: Fs, source: Path, dest: Path)
    ensures !Exists(fs, source) ==> CopyItem(fs, source, dest) == []
    ensures Exists(fs, source) ==>
      Ops(CopyItem(fs, source, dest)) == [CopyOp(fs, source, dest)] && |Said(CopyItem(fs, source, dest))| == 1
  {
    var item := CopyItem(fs, source, dest);
    if Exists(fs, source) {
      var said := item[1..];
      assert |said| == 1 && said[0].Say? && said[1..] == [];
      assert Ops(said) == [] && |Said(said)| == 1;
    }
  }

  /** Copying touches exactly the sources that exist, in order, and reports
      each; every other selected path is passed over without a message. */
  lemma {:induction false} CopyAll(fs: Fs, sources: seq<Path>, dest: Path)
    ensures |Ops(CopyPlan(fs, sources, dest))| == |Existing(fs, sources)| == |Said(CopyPlan(fs, sources, dest))|
    ensures forall i :: 0 <= i < |Existing(fs, sources)| ==>
      Exists(fs, Existing(fs, sources)[i]) &&
      Ops(CopyPlan(fs, sources, dest))[i] == CopyOp(fs, Existing(fs, sources)[i], dest)
  {
    if sources != [] {
      var s0 := sources[0];
      var item := CopyItem(fs, s0, dest);
      var rest := CopyPlan(fs, sources[1..], dest);
      CopyItemFacts(fs, s0, dest);
      CopyAll(fs, sources[1..], dest);
      OpsAppend(item, rest);
      SaidAppend(item, rest);
      var ex := Existing(fs, sources);
      var ex' := Existing(fs, sources[1..]);
      var ops := Ops(CopyPlan(fs, sources, dest));
      if Exists(fs, s0) {
        assert ex == [s0] + ex';
        assert ops == [CopyOp(fs, s0, dest)] + Ops(rest);
        forall i | 1 <= i < |ex| ensures Exists(fs, ex[i]) && ops[i] == CopyOp(fs, ex[i], dest) {
          ConsAt(s0, ex', i);
          ConsAt(CopyOp(fs, s0, dest), Ops(rest), i);
        }
      } else {
        assert ex == ex';
        assert item + rest == rest;
      }
    }
  }

  // ---------------------------------------------------------------------------
  // Unzip

  lemma {:induction false} ExtractedMessages(names: seq<string>, fails: Fails)
    ensures Succeeds(Extracted(names), fails) && Ops(Extracted(names)) == []
    ensures |Said(Extracted(names))| == |names|
    ensures forall i :: 0 <= i < |names| ==> Said(Extracted(names))[i] == Message("Extracted: " + names[i])
  {
    if names != [] {
      ExtractedMessages(names[1..], fails);
      OpsAppend([Say("Extracted: " + names[0])], Extracted(names[1..]));
      SaidAppend([Say("Extracted: " + names[0])], Extracted(names[1..]));
      SucceedsAppend([Say("Extracted: " + names[0])], Extracted(names[1..]), fails);
      assert [Say("Extracted: " + names[0])][1..] == [];
      forall i | 1 <= i < |names| ensures Said(Extracted(names))[i] == Message("Extracted: " + names[i]) {
        assert names[1..][i - 1] == names[i];
      }
    }
  }

  /** Unzipping opens only the first selected path: an empty selection
      raises at once; otherwise the whole archive is extracted into the
      destination and each member name reported, unless the archive cannot be
      opened or extracted. */
  lemma UnzipFirstOnly(sources: seq<Path>, dest: Path, namelist: Path -> seq<string>, fails: Fails)
    ensures sources == [] ==> Exec(Idle, UnzipPlan(sources, dest, namelist), fails) == Idle.(failure := Some(EmptySelection))
    ensures sources != [] && fails(Extract(sources[0], dest)) ==>
      Exec(Idle, UnzipPlan(sources, dest, namelist), fails) == Idle.(failure := Some(OperationFailed(sources[0])))
    ensures sources != [] && !fails(Extract(sources[0], dest)) ==>
      var p := Exec(Idle, UnzipPlan(sources, dest, namelist), fails);
      var names := namelist(sources[0]);
      p.failure.None? && p.done == [Extract(sources[0], dest)] && |p.events| == |names| &&
      forall i :: 0 <= i < |names| ==> p.events[i] == Message("Extracted: " + names[i])
  {
    if sources != [] {
      var names := namelist(sources[0]);
      var head := [Do(Extract(sources[0], dest))];
      ExtractedMessages(names, fails);
      OpsAppend(head, Extracted(names));
      SaidAppend(head, Extracted(names));
      SucceedsAppend(head, Extracted(names), fails);
      assert head[1..] == [];
      ExecAppend(Idle, head, Extracted(names), fails);
      if fails(Extract(sources[0], dest)) {
        ExecStopped(Exec(Idle, head, fails), Extracted(names), fails);
      } else {
        ExecFinishes(Idle, UnzipPlan(sources, dest, namelist), fails);
        ExecClean(Idle, UnzipPlan(sources, dest, namelist), fails);
      }
    }
  }

  // ---------------------------------------------------------------------------
  // Delete

  /** Every path of `a` is in `b`, naming the same node. */
  predicate Sub(a: Fs, b: Fs) {
    forall q :: q in a ==> q in b && a[q] == b[q]
  }

  lemma WithoutFacts(fs: Fs, source: Path)
    ensures Sub(Without(fs, source), fs) && !Exists(Without(fs, source), source)
    ensures forall q :: q in fs && !Covers(source, q) ==> q in Without(fs, source)
    ensures IsDir(fs, source) ==> forall q :: q in Without(fs, source) ==> !Covers(source, q)
  {
  }

  /** After deleting, no selected path exists any more, what is left is part
      of what was there, and every path outside all the selected ones is
      still there. */
  lemma {:induction false} DeleteClears(fs: Fs, sources: seq<Path>)
    ensures Sub(AfterDelete(fs, sources), fs)
    ensures forall i :: 0 <= i < |sources| ==> !Exists(AfterDelete(fs, sources), sources[i])
    ensures forall q :: q in fs && (forall i :: 0 <= i < |sources| ==> !Covers(sources[i], q)) ==>
      q in AfterDelete(fs, sources)
  {
    if sources != [] {
      var fs1 := Without(fs, sources[0]);
      var after := AfterDelete(fs, sources);
      WithoutFacts(fs, sources[0]);
      DeleteClears(fs1, sources[1..]);
      forall i | 0 <= i < |sources| ensures !Exists(after, sources[i]) {
        if i > 0 {
          assert sources[1..][i - 1] == sources[i];
        }
      }
      forall q | q in fs && (forall i :: 0 <= i < |sources| ==> !Covers(sources[i], q)) ensures q in after {
        assert !Covers(sources[0], q);
        forall i | 0 <= i < |sources[1..]| ensures !Covers(sources[1..][i], q) {
          assert sources[1..][i] == sources[i + 1];
        }
      }
    }
  }

  /** A deletion: the file removed or the directory removed with its contents. */
  predicate Deletes(fs: Fs, op: Op) {
    (op.Remove? && IsFile(fs, op.path)) || (op.RemoveTree? && IsDir(fs, op.path))
  }

  /** Deleting `later` after `earlier`: not the same path again, and nothing
      inside a directory already removed. */
  predicate Apart(earlier: Op, later: Op) {
    Subject(earlier) != Subject(later) && (earlier.RemoveTree? ==> !Covers(earlier.path, Subject(later)))
  }

  lemma DeleteItemFacts(fs: Fs, source: Path)
    ensures !Exists(fs, source) ==> DeleteItem(fs, source) == []
    ensures Exists(fs, source) ==>
      |Ops(DeleteItem(fs, source))| == 1 &&
      Deletes(fs, Ops(DeleteItem(fs, source))[0]) && Subject(Ops(DeleteItem(fs, source))[0]) == source
  {
    var item := DeleteItem(fs, source);
    if Exists(fs, source) {
      var said := item[1..];
      assert |said| == 1 && said[0].Say? && said[1..] == [];
      assert Ops(said) == [];
    }
  }

  /** What is a deletion in a part of the filesystem is one in the whole. */
  lemma DeletesSub(small: Fs, fs: Fs, op: Op)
    requires Sub(small, fs) && Deletes(small, op)
    ensures Deletes(fs, op)
  {
    assert Subject(op) in small;
  }

  /** Deleting removes only what existed when the worker started. */
  lemma {:induction false} DeleteExisting(fs: Fs, sources: seq<Path>)
    ensures forall i :: 0 <= i < |Ops(DeletePlan(fs, sources))| ==> Deletes(fs, Ops(DeletePlan(fs, sources))[i])
  {
    if sources != [] {
      var s0 := sources[0];
      var fs1 := Without(fs, s0);
      var item := DeleteItem(fs, s0);
      var rest := Ops(DeletePlan(fs1, sources[1..]));
      var ops := Ops(DeletePlan(fs, sources));
      WithoutFacts(fs, s0);
      DeleteItemFacts(fs, s0);
      DeleteExisting(fs1, sources[1..]);
      OpsAppend(item, DeletePlan(fs1, sources[1..]));
      assert ops == Ops(item) + rest;
      forall i | 0 <= i < |ops| ensures Deletes(fs, ops[i]) {
        AppendAt(Ops(item), rest, i);
        if i >= |Ops(item)| {
          DeletesSub(fs1, fs, rest[i - |Ops(item)|]);
        }
      }
    }
  }

  /** A deletion planned after the first source is deleted is apart from it. */
  lemma ApartFromFirst(fs: Fs, source: Path, op: Op)
    requires Exists(fs, source) && Deletes(Without(fs, source), op)
    ensures Apart(Ops(DeleteItem(fs, source))[0], op)
  {
    WithoutFacts(fs, source);
    DeleteItemFacts(fs, source);
    assert Subject(op) in Without(fs, source);
  }

  /** Each path is deleted at most once, and nothing inside a directory
      already removed is deleted: a selected path inside an earlier selected
      directory is passed over. */
  lemma {:induction false} DeleteOnce(fs: Fs, sources: seq<Path>)
    ensures forall i, j :: 0 <= i < j < |Ops(DeletePlan(fs, sources))| ==>
      Apart(Ops(DeletePlan(fs, sources))[i], Ops(DeletePlan(fs, sources))[j])
  {
    if sources != [] {
      var s0 := sources[0];
      var fs1 := Without(fs, s0);
      var item := DeleteItem(fs, s0);
      var rest := Ops(DeletePlan(fs1, sources[1..]));
      var ops := Ops(DeletePlan(fs, sources));
      WithoutFacts(fs, s0);
      DeleteItemFacts(fs, s0);
      DeleteOnce(fs1, sources[1..]);
      DeleteExisting(fs1, sources[1..]);
      OpsAppend(item, DeletePlan(fs1, sources[1..]));
      if Exists(fs, s0) {
        var op := Ops(item)[0];
        assert ops == [op] + rest;
        forall i, j | 0 <= i < j < |ops| ensures Apart(ops[i], ops[j]) {
          ConsAt(op, rest, j);
          if i > 0 {
            ConsAt(op, rest, i);
          } else {
            ApartFromFirst(fs, s0, rest[j - 1]);
          }
        }
      } else {
        assert ops == rest;
      }
    }
  }

  // ---------------------------------------------------------------------------
  // Zip

  /** Every name in the tree is a plain name. */
  predicate PlainTree(cs: seq<Node>)
    decreases cs
  {
    forall i :: 0 <= i < |cs| ==>
      PlainName(NodeName(cs[i])) && (cs[i].Dir? ==> PlainTree(cs[i].children))
  }

  ghost predicate Prefix<T>(a: seq<T>, b: seq<T>) {
    |a| <= |b| && b[..|a|] == a
  }

  /** A non-empty path without a trailing separator. */
  predicate GoodRoot(p: Path) {
    p != [] && p[|p| - 1] != '/'
  }

  /** `p` is a walk root at or below the directory whose absolute components
      are `top`. */
  ghost predicate Below(top: seq<string>, p: Path, cwd: Path) {
    GoodRoot(p) && Prefix(top, AbsComponents(p, cwd))
  }

  /** `p` lies strictly below the directory whose absolute components are `top`. */
  ghost predicate StrictlyBelow(top: seq<string>, p: Path, cwd: Path) {
    p != [] && |AbsComponents(p, cwd)| > |top| && Prefix(top, AbsComponents(p, cwd))
  }

  ghost predicate StepBelow(top: seq<string>, st: Step, cwd: Path) {
    Below(top, st.root, cwd) && forall j :: 0 <= j < |st.files| ==> PlainName(st.files[j].name)
  }

  lemma PrefixSnoc<T>(a: seq<T>, b: seq<T>, x: T)
    requires Prefix(a, b)
    ensures Prefix(a, b + [x]) && |b + [x]| > |a|
  {
    assert (b + [x])[..|a|] == b[..|a|];
  }

  lemma PlainTreeHead(cs: seq<Node>)
    requires cs != [] && PlainTree(cs)
    ensures PlainName(NodeName(cs[0])) && (cs[0].Dir? ==> PlainTree(cs[0].children))
    ensures PlainTree(cs[1..])
  {
    forall i | 0 <= i < |cs[1..]|
      ensures PlainName(NodeName(cs[1..][i])) && (cs[1..][i].Dir? ==> PlainTree(cs[1..][i].children))
    {
      assert cs[1..][i] == cs[i + 1];
    }
  }

  lemma {:induction false} FilesOfPlain(cs: seq<Node>)
    requires PlainTree(cs)
    ensures forall j :: 0 <= j < |FilesOf(cs)| ==> PlainName(FilesOf(cs)[j].name)
  {
    if cs != [] {
      PlainTreeHead(cs);
      FilesOfPlain(cs[1..]);
      var head := if cs[0].File? then [cs[0].blob] else [];
      forall j | 0 <= j < |FilesOf(cs)| ensures PlainName(FilesOf(cs)[j].name) {
        if j >= |head| {
          assert FilesOf(cs)[j] == FilesOf(cs[1..])[j - |head|];
        }
      }
    }
  }

  /** Joining a plain name to a walk root below `top` goes one level down. */
  lemma JoinBelow(top: seq<string>, root: Path, name: string, cwd: Path)
    requires Below(top, root, cwd) && PlainName(name)
    ensures Below(top, Join(root, name), cwd) && StrictlyBelow(top, Join(root, name), cwd)
  {
    assert name[0] in name && name[|name| - 1] in name;
    assert Join(root, name) == root + "/" + name;
    AbsJoin(root, name, cwd);
    PrefixSnoc(top, AbsComponents(root, cwd), name);
  }

  /** Under plain names, every `os.walk` root lies below the directory walked. */
  lemma {:induction false} WalkBelow(top: seq<string>, root: Path, cs: seq<Node>, cwd: Path)
    requires Below(top, root, cwd) && PlainTree(cs)
    ensures forall k :: 0 <= k < |Walk(root, cs)| ==> StepBelow(top, Walk(root, cs)[k], cwd)
    decreases cs, 1
  {
    FilesOfPlain(cs);
    WalkSubdirsBelow(top, root, cs, cwd);
    var first := Step(root, FilesOf(cs));
    var rest := WalkSubdirs(root, cs);
    assert Walk(root, cs) == [first] + rest;
    forall k | 1 <= k < |rest| + 1 ensures StepBelow(top, ([first] + rest)[k], cwd) {
      ConsAt(first, rest, k);
    }
  }

  lemma {:induction false} WalkSubdirsBelow(top: seq<string>, root: Path, cs: seq<Node>, cwd: Path)
    requires Below(top, root, cwd) && PlainTree(cs)
    ensures forall k :: 0 <= k < |WalkSubdirs(root, cs)| ==> StepBelow(top, WalkSubdirs(root, cs)[k], cwd)
    decreases cs, 0
  {
    if cs != [] {
      assert cs[0] in cs;
      PlainTreeHead(cs);
      WalkSubdirsBelow(top, root, cs[1..], cwd);
      var tail := WalkSubdirs(root, cs[1..]);
      match cs[0]
      case Dir(name, sub) =>
        var r := Join(root, name);
        JoinBelow(top, root, name, cwd);
        WalkBelow(top, r, sub, cwd);
        var w := Walk(r, sub);
        assert WalkSubdirs(root, cs) == w + tail;
        forall k | 0 <= k < |w + tail| ensures StepBelow(top, (w + tail)[k], cwd) {
          AppendAt(w, tail, k);
        }
      case File(_) =>
        assert WalkSubdirs(root, cs) == tail;
    }
  }

  lemma {:induction false} FileEntriesBelow(top: seq<string>, root: Path, files: seq<Blob>, cwd: Path)
    requires Below(top, root, cwd) && forall j :: 0 <= j < |files| ==> PlainName(files[j].name)
    ensures forall i :: 0 <= i < |FileEntries(root, files)| ==> StrictlyBelow(top, FileEntries(root, files)[i].path, cwd)
  {
    if files != [] {
      var tail := files[1..];
      var first := Entry(Join(root, files[0].name), files[0]);
      var rest := FileEntries(root, tail);
      var all := FileEntries(root, files);
      assert all == [first] + rest;
      JoinBelow(top, root, files[0].name, cwd);
      assert forall j :: 0 <= j < |tail| ==> tail[j] == files[j + 1];
      FileEntriesBelow(top, root, tail, cwd);
      forall i | 0 <= i < |all| ensures StrictlyBelow(top, all[i].path, cwd) {
        if i > 0 {
          ConsAt(first, rest, i);
        }
      }
    }
  }

  lemma {:induction false} WalkEntriesBelow(top: seq<string>, item: Path, steps: seq<Step>, cwd: Path)
    requires forall k :: 0 <= k < |steps| ==> StepBelow(top, steps[k], cwd)
    ensures forall i :: 0 <= i < |WalkEntries(item, steps, true)| ==>
      StrictlyBelow(top, WalkEntries(item, steps, true)[i].path, cwd)
  {
    if steps != [] {
      var here := FileEntries(steps[0].root, steps[0].files);
      FileEntriesBelow(top, steps[0].root, steps[0].files, cwd);
      assert forall k :: 0 <= k < |steps[1..]| ==> steps[1..][k] == steps[k + 1];
      WalkEntriesBelow(top, item, steps[1..], cwd);
      var rest := WalkEntries(item, steps[1..], true);
      var all: seq<Entry> := here + rest;
      assert WalkEntries(item, steps, true) == all;
      forall i | 0 <= i < |all| ensures StrictlyBelow(top, all[i].path, cwd) {
        AppendAt(here, rest, i);
      }
    }
  }

  /** Every file a zipped directory contributes lies strictly below it. */
  lemma DirEntriesBelow(fs: Fs, source: Path, cwd: Path)
    requires IsDir(fs, source) && GoodRoot(source) && PlainTree(fs[source].children)
    ensures forall i :: 0 <= i < |DirEntries(fs, source)| ==>
      StrictlyBelow(AbsComponents(source, cwd), DirEntries(fs, source)[i].path, cwd)
  {
    var top := AbsComponents(source, cwd);
    assert top[..|top|] == top;
    WalkBelow(top, source, fs[source].children, cwd);
    WalkEntriesBelow(top, source, Walk(source, fs[source].children), cwd);
  }

  /** No task of the plan is an exception of the worker's own code. */
  predicate NoRaise(ts: seq<Task>) {
    forall i :: 0 <= i < |ts| ==> !ts[i].Raise?
  }

  /** A store of `e` under the name `arc` gives it. */
  predicate StoresAs(op: Op, e: Entry, arc: ArcNaming) {
    op.Store? && op.file == e.path && arc(e.path) == Some(op.arcname)
  }

  lemma ZipEntryFacts(e: Entry, arc: ArcNaming)
    requires arc(e.path).Some?
    ensures NoRaise(ZipEntry(e, arc)) && |Ops(ZipEntry(e, arc))| == 1
    ensures StoresAs(Ops(ZipEntry(e, arc))[0], e, arc)
  {
    var ts := ZipEntry(e, arc);
    assert |ts| == 2 && ts[1].Say? && ts[1..][1..] == [];
    assert Ops(ts[1..]) == [];
  }

  /** When every file can be named, zipping them stores each one, in order,
      under its name, and raises nothing itself. */
  lemma {:induction false} ZipEntriesStore(es: seq<Entry>, arc: ArcNaming)
    requires forall i :: 0 <= i < |es| ==> arc(es[i].path).Some?
    ensures NoRaise(ZipEntries(es, arc)) && |Ops(ZipEntries(es, arc))| == |es|
    ensures forall i :: 0 <= i < |es| ==> StoresAs(Ops(ZipEntries(es, arc))[i], es[i], arc)
  {
    if es != [] {
      var one := ZipEntry(es[0], arc);
      var rest := ZipEntries(es[1..], arc);
      ZipEntryFacts(es[0], arc);
      assert forall i :: 0 <= i < |es[1..]| ==> es[1..][i] == es[i + 1];
      ZipEntriesStore(es[1..], arc);
      OpsAppend(one, rest);
      var op := Ops(one)[0];
      assert Ops(one) == [op];
      forall i | 1 <= i < |es| ensures StoresAs(([op] + Ops(rest))[i], es[i], arc) {
        ConsAt(op, Ops(rest), i);
      }
      NoRaiseAppend(one, rest);
    }
  }

  lemma NoRaiseAppend(a: seq<Task>, b: seq<Task>)
    requires NoRaise(a) && NoRaise(b)
    ensures NoRaise(a + b)
  {
    forall i | 0 <= i < |a + b| ensures !(a + b)[i].Raise? {
      if i >= |a| {
        assert (a + b)[i] == b[i - |a|];
      } else {
        assert (a + b)[i] == a[i];
      }
    }
  }

  /** Zipping a directory stores every file of its full walk, whatever the
      subdirectory option says, in walk order, each under its path relative
      to the directory's parent; only a failing store can stop it. */
  lemma ZipDirStoresAll(fs: Fs, source: Path, cwd: Path)
    requires IsDir(fs, source) && GoodRoot(source) && PlainTree(fs[source].children)
    ensures NoRaise(ZipItem(fs, source, cwd))
    ensures |Ops(ZipItem(fs, source, cwd))| == Utils.FileCount(fs, source, true) >= Utils.FileCount(fs, source, false)
    ensures forall i :: 0 <= i < |DirEntries(fs, source)| ==>
      StoresAs(Ops(ZipItem(fs, source, cwd))[i], DirEntries(fs, source)[i], RelativeTo(DirName(source), cwd))
  {
    DirEntriesBelow(fs, source, cwd);
    ZipEntriesStore(DirEntries(fs, source), RelativeTo(DirName(source), cwd));
    Utils.CountMonotone(fs, source);
  }

  /** The name under which a file of a zipped directory `d/n` is stored
      starts with `n` and continues with the file's path below `d/n`: the
      archive keeps the directory's own name as its top level, and every
      component is a plain name, never "..". `d` is what `dirname` gives for
      a source without a trailing separator: a clean directory, the empty
      string for a bare relative source such as `mydir` (whose names are then
      taken relative to the working directory), or "/" for a directory at the
      filesystem root. */
  lemma ZipArcNames(fs: Fs, d: Path, n: string, cwd: Path, i: nat)
    requires GoodRoot(d) || d == "" || d == "/"
    requires PlainName(n)
    requires IsDir(fs, Join(d, n)) && PlainTree(fs[Join(d, n)].children)
    requires i < |DirEntries(fs, Join(d, n))|
    ensures var e := DirEntries(fs, Join(d, n))[i];
      |AbsComponents(e.path, cwd)| >= |AbsComponents(d, cwd)| + 2 &&
      var rest := AbsComponents(e.path, cwd)[|AbsComponents(d, cwd)|..];
      |rest| >= 2 && rest[0] == n &&
      (forall k :: 0 <= k < |rest| ==> PlainName(rest[k])) &&
      AbsComponents(e.path, cwd) == AbsComponents(d, cwd) + rest &&
      RelPath(e.path, DirName(Join(d, n)), cwd) == Some(JoinOn(rest, '/'))
  {
    var s := Join(d, n);
    var e := DirEntries(fs, s)[i];
    ParentJoin(d, n, cwd);
    DirEntriesBelow(fs, s, cwd);
    var base := AbsComponents(d, cwd);
    var p := AbsComponents(e.path, cwd);
    assert StrictlyBelow(base + [n], e.path, cwd);
    AbsPlain(e.path, cwd);
    ArcParts(base, n, p);
    RelPathBelow(e.path, d, cwd, p[|base|..]);
  }

  lemma ArcParts(base: seq<string>, n: string, p: seq<string>)
    requires Prefix(base + [n], p) && |p| > |base| + 1
    requires forall k :: 0 <= k < |p| ==> PlainName(p[k])
    ensures |p| >= |base| + 2
    ensures var rest := p[|base|..];
      |rest| >= 2 && rest[0] == n && (forall k :: 0 <= k < |rest| ==> PlainName(rest[k])) && p == base + rest
  {
    PrefixSplit(base, n, p);
    var rest := p[|base|..];
    assert forall k :: 0 <= k < |rest| ==> rest[k] == p[|base| + k];
  }

  lemma PrefixSplit<T>(base: seq<T>, n: T, p: seq<T>)
    requires Prefix(base + [n], p) && |p| > |base| + 1
    ensures p == base + p[|base|..] && |p[|base|..]| >= 2 && p[|base|..][0] == n
  {
    assert p[..|base|] == (base + [n])[..|base|] == base;
    assert p[|base|] == (base + [n])[|base|];
    assert p == p[..|base|] + p[|base|..];
  }
}
