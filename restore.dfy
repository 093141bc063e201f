/** The first revision's restore thread (`RestoreThread`): a ZIP archive is
    extracted member by member; anything else is read as text, cut into blocks
    at every blank line, and each block is parsed as a frame line naming a
    path followed by that file's text. Both helpers catch their own
    exceptions, report `restore_failed`, and return normally, so `run()` then
    reports `restore_completed` as well. The second revision's handler uses
    the same helpers. */
module Restore {
  import opened Text
  import opened Paths
  import opened Events
  import opened FileTree
  import Backup

  /** A member of the archive as `infolist()` describes it. */
  datatype ZipInfo = ZipInfo(filename: string, fileSize: nat)

  /** What a restore writes: a file of recovered text, or an extracted member. */
  datatype Output = TextFile(path: Path, data: string) | Extracted(member: string)

  /** What has been written, the signals emitted, the running `processed_size`,
      and the exception that stopped the helper, if any. */
  datatype Restorer = Restorer(written: seq<Output>, events: seq<Event>, processed: nat, failure: Option<Error>)

  const Fresh := Restorer([], [], 0, None)

  // ---------------------------------------------------------------------------
  // restore_from_zip

  /** `sum(info.file_size for info in zf.infolist())`. */
  function ZipTotal(infos: seq<ZipInfo>): nat {
    if infos == [] then 0 else infos[0].fileSize + ZipTotal(infos[1..])
  }

  /** One pass of the extraction loop. */
  function ExtractOne(r: Restorer, info: ZipInfo, total: nat, restoreDir: Path): Restorer {
    var processed := r.processed + info.fileSize;
    var r1 := r.(written := r.written + [Extracted(info.filename)], processed := processed);
    if total == 0 then r1.(failure := Some(ZeroDivision))
    else r1.(events := r.events + [Progress(processed, total), FileProcessed(Join(restoreDir, info.filename), info.fileSize)])
  }

  function ExtractAll(r: Restorer, infos: seq<ZipInfo>, total: nat, restoreDir: Path): Restorer
    decreases |infos|
  {
    if infos == [] || r.failure.Some? then r
    else ExtractAll(ExtractOne(r, infos[0], total, restoreDir), infos[1..], total, restoreDir)
  }

  /** `restore_from_zip()`; `archive` is `None` where the file does not open as
      a ZIP archive. */
  function ZipSpec(archive: Option<seq<ZipInfo>>, restoreDir: Path): Restorer {
    match archive
    case None => Fresh.(failure := Some(BadZip))
    case Some(infos) => ExtractAll(Fresh, infos, ZipTotal(infos), restoreDir)
  }

  /** One member: extract it, add its size, then report progress. */
  method ExtractMember(r: Restorer, info: ZipInfo, total: nat, restoreDir: Path) returns (r': Restorer)
    ensures r' == ExtractOne(r, info, total, restoreDir)
  {
    var processed := r.processed + info.fileSize;
    r' := r.(written := r.written + [Extracted(info.filename)], processed := processed);
    if total == 0 {
      r' := r'.(failure := Some(ZeroDivision));
    } else {
      r' := r'.(events := r'.events + [Progress(processed, total)]);
      r' := r'.(events := r'.events + [FileProcessed(Join(restoreDir, info.filename), info.fileSize)]);
    }
  }

  method RestoreFromZip(archive: Option<seq<ZipInfo>>, restoreDir: Path) returns (r: Restorer)
    ensures r == ZipSpec(archive, restoreDir)
  {
    if archive.None? {
      return Fresh.(failure := Some(BadZip));
    }
    var infos := archive.value;
    var total := SumFileSizes(infos);
    r := ExtractMembers(infos, total, restoreDir);
  }

  /** `sum(info.file_size for info in zip_ref.infolist())`. */
  method SumFileSizes(infos: seq<ZipInfo>) returns (total: nat)
    ensures total == ZipTotal(infos)
  {
    total := 0;
    var i := 0;
    while i < |infos|
      invariant 0 <= i <= |infos|
      invariant total + ZipTotal(infos[i..]) == ZipTotal(infos)
    {
      SliceTail(infos, i);
      total := total + infos[i].fileSize;
      i := i + 1;
    }
  }

  /** The loop over members, stopping at the first exception. */
  method ExtractMembers(infos: seq<ZipInfo>, total: nat, restoreDir: Path) returns (r: Restorer)
    ensures r == ExtractAll(Fresh, infos, total, restoreDir)
  {
    ghost var all := ExtractAll(Fresh, infos, total, restoreDir);
    r := Fresh;
    var i := 0;
    SliceAll(infos);
    while i < |infos| && r.failure.None?
      invariant 0 <= i <= |infos|
      invariant ExtractAll(r, infos[i..], total, restoreDir) == all
    {
      SliceTail(infos, i);
      r := ExtractMember(r, infos[i], total, restoreDir);
      i := i + 1;
    }
  }

  /** The signals of members extracted under a non-zero total. */
  function ZipEvents(infos: seq<ZipInfo>, done: nat, total: nat, restoreDir: Path): seq<Event> {
    if infos == [] then []
    else
      var d := done + infos[0].fileSize;
      [Progress(d, total), FileProcessed(Join(restoreDir, infos[0].filename), infos[0].fileSize)]
        + ZipEvents(infos[1..], d, total, restoreDir)
  }

  function Members(infos: seq<ZipInfo>): seq<Output> {
    if infos == [] then [] else [Extracted(infos[0].filename)] + Members(infos[1..])
  }

  lemma {:induction false} ExtractAllGood(r: Restorer, infos: seq<ZipInfo>, total: nat, restoreDir: Path)
    requires r.failure.None? && total > 0
    ensures ExtractAll(r, infos, total, restoreDir) ==
      Restorer(r.written + Members(infos), r.events + ZipEvents(infos, r.processed, total, restoreDir),
               r.processed + ZipTotal(infos), None)
    decreases |infos|
  {
    if infos == [] {
      assert r.written + [] == r.written && r.events + [] == r.events;
    } else {
      var info, tail := infos[0], infos[1..];
      var d := r.processed + info.fileSize;
      var x := Extracted(info.filename);
      var more := [Progress(d, total), FileProcessed(Join(restoreDir, info.filename), info.fileSize)];
      var r1 := ExtractOne(r, info, total, restoreDir);
      assert r1.written == r.written + [x] && r1.events == r.events + more;
      assert r1.processed == d && r1.failure.None?;
      ExtractAllGood(r1, tail, total, restoreDir);
      var ms, evs := Members(tail), ZipEvents(tail, d, total, restoreDir);
      assert Members(infos) == [x] + ms;
      assert ZipEvents(infos, r.processed, total, restoreDir) == more + evs;
      AppendAssoc(r.written, [x], ms);
      AppendAssoc(r.events, more, evs);
    }
  }

  /** Extracting an archive whose members hold some data extracts every member
      in order, reports each once, and ends with the running sum equal to the
      total. */
  lemma ZipProcessedIsTotal(infos: seq<ZipInfo>, restoreDir: Path)
    requires ZipTotal(infos) > 0
    ensures var r := ZipSpec(Some(infos), restoreDir);
      r.failure.None? && r.written == Members(infos) && r.processed == ZipTotal(infos) &&
      r.events == ZipEvents(infos, 0, ZipTotal(infos), restoreDir)
  {
    ExtractAllGood(Fresh, infos, ZipTotal(infos), restoreDir);
    assert [] + Members(infos) == Members(infos);
    assert [] + ZipEvents(infos, 0, ZipTotal(infos), restoreDir) == ZipEvents(infos, 0, ZipTotal(infos), restoreDir);
  }

  /** An archive whose members are all empty fails at the first percentage,
      after extracting that member and before any signal. */
  lemma ZipZeroTotalFails(infos: seq<ZipInfo>, restoreDir: Path)
    requires infos != [] && ZipTotal(infos) == 0
    ensures var r := ZipSpec(Some(infos), restoreDir);
      r.failure == Some(ZeroDivision) && r.events == [] && r.written == [Extracted(infos[0].filename)]
  {
    var r1 := ExtractOne(Fresh, infos[0], 0, restoreDir);
    assert r1.failure == Some(ZeroDivision) && r1.events == [] && r1.written == [Extracted(infos[0].filename)];
    assert ExtractAll(r1, infos[1..], 0, restoreDir) == r1;
  }

  // ---------------------------------------------------------------------------
  // restore_uncompressed

  /** How the loop body reads one block. */
  datatype Parsed = Blank | Malformed(cause: Error) | Item(path: Path, data: string)

  /** `if file.strip():`, `header, data = file.split('\n', 1)`,
      `header.strip("--- ").strip()`. With `lenient` a non-blank block without
      a newline is passed over instead of raising; the program as written is
      `lenient == false`. */
  function ParseBlock(block: string, lenient: bool): Parsed {
    if StripSpace(block) == [] then Blank
    else match SplitLine(block)
      case None => if lenient then Blank else Malformed(NotEnoughValues)
      case Some((header, data)) => Item(StripSpace(Strip(header, IsFrameChar)), data)
  }

  /** `os.path.join(restore_dir, os.path.relpath(file_path))`; `None` where
      `relpath` raises on an empty path. */
  function Target(path: Path, restoreDir: Path, cwd: Path): Option<Path> {
    match RelPath(path, ".", cwd)
    case None => None
    case Some(rel) => Some(Join(restoreDir, rel))
  }

  /** Writing one parsed record to the target its path resolves to (`None`
      where `relpath` raises): write, count, report. */
  function RestoreItem(r: Restorer, target: Option<Path>, data: string, total: nat): Restorer {
    match target
    case None => r.(failure := Some(NoPathSpecified))
    case Some(target) =>
      var processed := r.processed + |data|;
      var r1 := r.(written := r.written + [TextFile(target, data)], processed := processed);
      if total == 0 then r1.(failure := Some(ZeroDivision))
      else r1.(events := r.events + [Progress(processed, total), FileProcessed(target, |data|)])
  }

  /** One pass of the loop over blocks. */
  function RestoreOne(r: Restorer, block: string, total: nat, restoreDir: Path, cwd: Path, lenient: bool): Restorer {
    match ParseBlock(block, lenient)
    case Blank => r
    case Malformed(e) => r.(failure := Some(e))
    case Item(path, data) => RestoreItem(r, Target(path, restoreDir, cwd), data, total)
  }

  function RestoreAll(r: Restorer, blocks: seq<string>, total: nat, restoreDir: Path, cwd: Path, lenient: bool): Restorer
    decreases |blocks|
  {
    if blocks == [] || r.failure.Some? then r
    else RestoreAll(RestoreOne(r, blocks[0], total, restoreDir, cwd, lenient), blocks[1..], total, restoreDir, cwd, lenient)
  }

  lemma RestoreAllFirst(r: Restorer, blocks: seq<string>, total: nat, restoreDir: Path, cwd: Path, lenient: bool)
    requires blocks != [] && r.failure.None?
    ensures RestoreAll(r, blocks, total, restoreDir, cwd, lenient) ==
      RestoreAll(RestoreOne(r, blocks[0], total, restoreDir, cwd, lenient), blocks[1..], total, restoreDir, cwd, lenient)
  {
  }

  lemma RestoreAllStopped(r: Restorer, blocks: seq<string>, total: nat, restoreDir: Path, cwd: Path, lenient: bool)
    requires r.failure.Some?
    ensures RestoreAll(r, blocks, total, restoreDir, cwd, lenient) == r
  {
  }

  /** `sum(len(file) for file in files)`. */
  function SumLengths(blocks: seq<string>): nat {
    if blocks == [] then 0 else |blocks[0]| + SumLengths(blocks[1..])
  }

  /** The parse of a whole text. */
  function TextSpec(text: string, restoreDir: Path, cwd: Path, lenient: bool): Restorer {
    var blocks := SplitBlocks(text);
    RestoreAll(Fresh, blocks, SumLengths(blocks), restoreDir, cwd, lenient)
  }

  /** `restore_uncompressed()`: `content` is the text of the backup file, or
      `None` where opening or decoding it raises; text mode translates line
      endings before the parse. */
  function UncompressedSpec(content: Option<string>, restoreDir: Path, cwd: Path): Restorer {
    match content
    case None => Fresh.(failure := Some(NoSource))
    case Some(c) => TextSpec(Newlines(c), restoreDir, cwd, false)
  }

  /** The body of the loop over blocks in `restore_uncompressed`. */
  method RestoreBlock(r: Restorer, block: string, total: nat, restoreDir: Path, cwd: Path) returns (r': Restorer)
    ensures r' == RestoreOne(r, block, total, restoreDir, cwd, false)
  {
    if StripSpace(block) == [] {
      r' := r;
    } else {
      var split := SplitLine(block);
      if split.None? {
        r' := r.(failure := Some(NotEnoughValues));
      } else {
        var header, data := split.value.0, split.value.1;
        var filePath := StripSpace(Strip(header, IsFrameChar));
        ParsedHeader(block, false);
        RestoreOneItem(r, block, total, restoreDir, cwd, false, filePath, data);
        var target := Target(filePath, restoreDir, cwd);
        r' := WriteItem(r, target, data, total);
      }
    }
  }

  /** A non-blank block with a newline is a record: its header, stripped,
      names the path and the rest is the text. */
  lemma ParsedHeader(block: string, lenient: bool)
    requires StripSpace(block) != [] && '\n' in block
    ensures var split := SplitLine(block).value;
      ParseBlock(block, lenient) == Item(StripSpace(Strip(split.0, IsFrameChar)), split.1)
  {
  }

  lemma RestoreOneMalformed(r: Restorer, block: string, total: nat, restoreDir: Path, cwd: Path, lenient: bool, e: Error)
    requires ParseBlock(block, lenient) == Malformed(e)
    ensures RestoreOne(r, block, total, restoreDir, cwd, lenient) == r.(failure := Some(e))
  {
  }

  lemma RestoreOneBlank(r: Restorer, block: string, total: nat, restoreDir: Path, cwd: Path, lenient: bool)
    requires ParseBlock(block, lenient) == Blank
    ensures RestoreOne(r, block, total, restoreDir, cwd, lenient) == r
  {
  }

  lemma RestoreOneItem(r: Restorer, block: string, total: nat, restoreDir: Path, cwd: Path, lenient: bool, path: Path, data: string)
    requires ParseBlock(block, lenient) == Item(path, data)
    ensures RestoreOne(r, block, total, restoreDir, cwd, lenient) == RestoreItem(r, Target(path, restoreDir, cwd), data, total)
  {
  }

  /** The part of the loop body after the path is resolved (`target` is
      `None` where `relpath` raises). */
  method WriteItem(r: Restorer, target: Option<Path>, data: string, total: nat) returns (r': Restorer)
    ensures r' == RestoreItem(r, target, data, total)
  {
    if target.None? {
      ItemUnresolved(r, data, total);
      return r.(failure := Some(NoPathSpecified));
    }
    var restorePath := target.value;
    ItemWrites(r, restorePath, data, total);
    var written := r.written + [TextFile(restorePath, data)];
    var fileSize := |data|;
    var processed := r.processed + fileSize;
    if total == 0 {
      return Restorer(written, r.events, processed, Some(ZeroDivision));
    }
    var events := r.events + [Progress(processed, total), FileProcessed(restorePath, fileSize)];
    r' := Restorer(written, events, processed, r.failure);
  }

  /** `total_size = sum(len(file) for file in files)`. */
  method SumBlockLengths(blocks: seq<string>) returns (total: nat)
    ensures total == SumLengths(blocks)
  {
    total := 0;
    var i := 0;
    while i < |blocks|
      invariant 0 <= i <= |blocks|
      invariant total + SumLengths(blocks[i..]) == SumLengths(blocks)
    {
      assert blocks[i..][1..] == blocks[i + 1..];
      total := total + |blocks[i]|;
      i := i + 1;
    }
  }

  /** The loop over blocks, stopping at the first exception. */
  method RestoreBlocks(blocks: seq<string>, total: nat, restoreDir: Path, cwd: Path) returns (r: Restorer)
    ensures r == RestoreAll(Fresh, blocks, total, restoreDir, cwd, false)
  {
    ghost var all := RestoreAll(Fresh, blocks, total, restoreDir, cwd, false);
    r := Fresh;
    var i := 0;
    assert blocks[0..] == blocks;
    while i < |blocks| && r.failure.None?
      invariant 0 <= i <= |blocks|
      invariant RestoreAll(r, blocks[i..], total, restoreDir, cwd, false) == all
    {
      assert blocks[i..][1..] == blocks[i + 1..];
      r := RestoreBlock(r, blocks[i], total, restoreDir, cwd);
      i := i + 1;
    }
  }

  /** The split, the total and the loop over blocks of `restore_uncompressed`. */
  method RestoreText(text: string, restoreDir: Path, cwd: Path) returns (r: Restorer)
    ensures r == TextSpec(text, restoreDir, cwd, false)
  {
    var blocks := SplitBlocks(text);
    var total := SumBlockLengths(blocks);
    r := RestoreBlocks(blocks, total, restoreDir, cwd);
  }

  method RestoreUncompressed(content: Option<string>, restoreDir: Path, cwd: Path) returns (r: Restorer)
    ensures r == UncompressedSpec(content, restoreDir, cwd)
  {
    if content.None? {
      return Fresh.(failure := Some(NoSource));
    }
    r := RestoreText(Newlines(content.value), restoreDir, cwd);
  }

  // ---------------------------------------------------------------------------
  // run()

  /** `self.backup_file.lower().endswith('.zip')`. */
  predicate IsZipName(backupFile: Path) {
    EndsWith(Lower(backupFile), ".zip")
  }

  /** The signals of `run()` after a helper returned: its own signals, its
      `restore_failed` if it caught an exception, and `restore_completed`
      in every case. */
  function Signals(r: Restorer, stage: Stage): seq<Event> {
    r.events + (if r.failure.Some? then [RestoreFailed(stage, r.failure.value)] else []) + [RestoreCompleted]
  }

  /** `run()`: the archive branch is taken on the name alone. */
  method Run(backupFile: Path, archive: Option<seq<ZipInfo>>, content: Option<string>, restoreDir: Path, cwd: Path)
    returns (written: seq<Output>, events: seq<Event>)
    ensures IsZipName(backupFile) ==>
      written == ZipSpec(archive, restoreDir).written && events == Signals(ZipSpec(archive, restoreDir), FromZip)
    ensures !IsZipName(backupFile) ==>
      written == UncompressedSpec(content, restoreDir, cwd).written &&
      events == Signals(UncompressedSpec(content, restoreDir, cwd), Uncompressed)
    ensures |events| >= 1 && events[|events| - 1] == RestoreCompleted
  {
    var r: Restorer;
    var stage: Stage;
    if IsZipName(backupFile) {
      r := RestoreFromZip(archive, restoreDir);
      stage := FromZip;
    } else {
      r := RestoreUncompressed(content, restoreDir, cwd);
      stage := Uncompressed;
    }
    written := r.written;
    events := r.events;
    if r.failure.Some? {
      events := events + [RestoreFailed(stage, r.failure.value)];
    }
    events := events + [RestoreCompleted];
    SignalsEnd(r, stage);
  }

  /** `run()` ends with `restore_completed` whatever the helper did. */
  lemma SignalsEnd(r: Restorer, stage: Stage)
    ensures var s := Signals(r, stage); |s| >= 1 && s[|s| - 1] == RestoreCompleted
  {
  }

  /** The archive branch is chosen whatever the case of the extension. */
  lemma ZipNameAnyCase(stem: Path, ext: string)
    requires |ext| == 4 && Lower(ext) == ".zip"
    ensures IsZipName(stem + ext)
  {
    var s := Lower(stem + ext);
    assert s[|s| - 4..] == Lower(ext);
  }

  /** A name that does not end in a dot and the three letters is read as text. */
  lemma TextUnlessZipSuffix(backupFile: Path)
    requires |backupFile| < 4 || Lower(backupFile[|backupFile| - 4..]) != ".zip"
    ensures !IsZipName(backupFile)
  {
    if |backupFile| >= 4 {
      assert Lower(backupFile)[|backupFile| - 4..] == Lower(backupFile[|backupFile| - 4..]);
    }
  }

  // ---------------------------------------------------------------------------
  // What the parse promises

  /** A path that survives the frame strip and `strip()` unchanged. */
  predicate SafePath(p: Path) {
    p != [] && '\n' !in p && '\r' !in p &&
    !IsFrameChar(p[0]) && !IsFrameChar(p[|p| - 1]) && !IsSpace(p[0]) && !IsSpace(p[|p| - 1])
  }

  /** A text that stays in one block: not empty, no blank line inside, and no
      newline at either end. */
  predicate SafeText(t: string) {
    t != [] && !HasBreak(t) && t[0] != '\n' && t[|t| - 1] != '\n' && '\r' !in t
  }

  /** The header of a block is stripped of any run of dashes and spaces at
      either end, not just of the literal frame: a path surrounded by such
      runs is recovered without them. */
  lemma ParseFramed(x: string, p: Path, y: string, data: string, block: string, lenient: bool)
    requires forall i :: 0 <= i < |x| ==> IsFrameChar(x[i])
    requires forall i :: 0 <= i < |y| ==> IsFrameChar(y[i])
    requires SafePath(p) && block == x + p + y + "\n" + data
    ensures ParseBlock(block, lenient) == Item(p, data)
  {
    var header := x + p + y;
    assert '\n' !in header by {
      forall i | 0 <= i < |header| ensures header[i] != '\n' {
        if i < |x| {
          assert header[i] == x[i];
        } else if i < |x| + |p| {
          assert header[i] == p[i - |x|];
        } else {
          assert header[i] == y[i - |x| - |p|];
        }
      }
    }
    SplitLineAt(header, data);
    StripFrame(x, p, y, IsFrameChar);
    StripKeeps(p, IsSpace);
    assert StripSpace(block) != [] by {
      BlankIffAllSpace(block);
      assert block[|x|] == p[0];
    }
  }

  /** A record as the backup writes it parses back to its path and text. */
  lemma ParseRecord(p: Path, data: string, lenient: bool)
    requires SafePath(p)
    ensures ParseBlock(Backup.FrameLine(p) + data, lenient) == Item(p, data)
  {
    var block := Backup.FrameLine(p) + data;
    assert block == "--- " + p + " ---" + "\n" + data;
    ParseFramed("--- ", p, " ---", data, block, lenient);
  }

  /** A path that begins with a dash loses it: the restored name differs from
      the one that was backed up. */
  lemma LeadingDashLost(q: Path, data: string)
    requires SafePath(q)
    ensures ParseBlock("--- " + ("-" + q) + " ---\n" + data, false) == Item(q, data)
  {
    var block := "--- " + ("-" + q) + " ---\n" + data;
    assert block == "--- -" + q + " ---" + "\n" + data;
    ParseFramed("--- -", q, " ---", data, block, false);
  }

  /** A non-blank block without a newline makes the unpacking raise. */
  lemma NoNewlineRaises(block: string)
    requires '\n' !in block && exists i :: 0 <= i < |block| && !IsSpace(block[i])
    ensures ParseBlock(block, false) == Malformed(NotEnoughValues)
  {
    BlankIffAllSpace(block);
  }

  /** A parsed record's text is shorter than its block. */
  lemma ParsedShorter(block: string, lenient: bool)
    ensures ParseBlock(block, lenient).Item? ==> |ParseBlock(block, lenient).data| < |block|
  {
    if '\n' in block {
      var split := SplitLine(block);
      assert |block| == |split.value.0| + 1 + |split.value.1|;
    }
  }

  /** Writing a record whose path resolves appends the file, adds its length
      to the running sum and reports the new sum, unless the total is zero. */
  lemma ItemWrites(r: Restorer, target: Path, data: string, total: nat)
    ensures var p := r.processed + |data|;
      var w := r.written + [TextFile(target, data)];
      RestoreItem(r, Some(target), data, total) ==
        if total == 0 then Restorer(w, r.events, p, Some(ZeroDivision))
        else Restorer(w, r.events + [Progress(p, total), FileProcessed(target, |data|)], p, r.failure)
  {
  }

  /** A record whose path does not resolve stops the restore and changes
      nothing else. */
  lemma ItemUnresolved(r: Restorer, data: string, total: nat)
    ensures RestoreItem(r, None, data, total) == r.(failure := Some(NoPathSpecified))
  {
  }

  /** Writing one record adds its length to the running sum and reports the
      new sum, if anything. */
  lemma ItemBound(r: Restorer, target: Option<Path>, data: string, total: nat)
    requires ProgressUpTo(r.events, r.processed)
    ensures var r1 := RestoreItem(r, target, data, total);
      ProgressUpTo(r1.events, r1.processed) && r.processed <= r1.processed <= r.processed + |data|
  {
    var r1 := RestoreItem(r, target, data, total);
    match target {
      case None =>
        ItemUnresolved(r, data, total);
      case Some(path) =>
        ItemWrites(r, path, data, total);
        if total > 0 {
          ProgressReport(r.events, r.processed, r1.processed, total, path, |data|);
        } else {
          ProgressWeaken(r.events, r.processed, r1.processed);
        }
    }
  }

  lemma OneBound(r: Restorer, block: string, total: nat, restoreDir: Path, cwd: Path, lenient: bool)
    requires ProgressUpTo(r.events, r.processed)
    ensures var r1 := RestoreOne(r, block, total, restoreDir, cwd, lenient);
      ProgressUpTo(r1.events, r1.processed) && r.processed <= r1.processed <= r.processed + |block|
  {
    ParsedShorter(block, lenient);
    var parsed := ParseBlock(block, lenient);
    if parsed.Item? {
      RestoreOneItem(r, block, total, restoreDir, cwd, lenient, parsed.path, parsed.data);
      ItemBound(r, Target(parsed.path, restoreDir, cwd), parsed.data, total);
    }
  }

  /** The running sum only grows, each step by less than the block it came
      from, so it never passes the total. */
  lemma {:induction false} RestoreAllBound(r: Restorer, blocks: seq<string>, total: nat, restoreDir: Path, cwd: Path, lenient: bool)
    requires ProgressUpTo(r.events, r.processed)
    requires r.processed + SumLengths(blocks) <= total
    ensures var r' := RestoreAll(r, blocks, total, restoreDir, cwd, lenient);
      ProgressUpTo(r'.events, r'.processed) && r.processed <= r'.processed <= total
    decreases |blocks|
  {
    if blocks != [] && r.failure.None? {
      OneBound(r, blocks[0], total, restoreDir, cwd, lenient);
      RestoreAllBound(RestoreOne(r, blocks[0], total, restoreDir, cwd, lenient), blocks[1..], total, restoreDir, cwd, lenient);
    }
  }

  /** In text mode `processed_size` never passes `total_size`, and the progress
      reported never goes backwards. */
  lemma TextProgressBound(text: string, restoreDir: Path, cwd: Path, lenient: bool)
    ensures var r := TextSpec(text, restoreDir, cwd, lenient);
      r.processed <= SumLengths(SplitBlocks(text)) && ProgressUpTo(r.events, SumLengths(SplitBlocks(text)))
  {
    var r := TextSpec(text, restoreDir, cwd, lenient);
    RestoreAllBound(Fresh, SplitBlocks(text), SumLengths(SplitBlocks(text)), restoreDir, cwd, lenient);
    ProgressWeaken(r.events, r.processed, SumLengths(SplitBlocks(text)));
  }

  /** A block that is restored is non-empty, so the total is never zero when a
      percentage is taken: the text branch never divides by zero. */
  lemma {:induction false} RestoreAllNoZeroDivision(r: Restorer, blocks: seq<string>, restoreDir: Path, cwd: Path, lenient: bool)
    requires r.failure != Some(ZeroDivision)
    requires SumLengths(blocks) == 0
    ensures RestoreAll(r, blocks, 0, restoreDir, cwd, lenient).failure != Some(ZeroDivision)
    decreases |blocks|
  {
    if blocks != [] && r.failure.None? {
      assert blocks[0] == [];
      assert StripSpace(blocks[0]) == [];
      RestoreAllNoZeroDivision(r, blocks[1..], restoreDir, cwd, lenient);
    }
  }

  lemma TextNeverDividesByZero(text: string, restoreDir: Path, cwd: Path, lenient: bool)
    ensures TextSpec(text, restoreDir, cwd, lenient).failure != Some(ZeroDivision)
  {
    var blocks := SplitBlocks(text);
    if SumLengths(blocks) == 0 {
      RestoreAllNoZeroDivision(Fresh, blocks, restoreDir, cwd, lenient);
    } else {
      RestoreAllPositive(Fresh, blocks, SumLengths(blocks), restoreDir, cwd, lenient);
    }
  }

  lemma OnePositive(r: Restorer, block: string, total: nat, restoreDir: Path, cwd: Path, lenient: bool)
    requires r.failure.None? && total > 0
    ensures RestoreOne(r, block, total, restoreDir, cwd, lenient).failure != Some(ZeroDivision)
  {
    var parsed := ParseBlock(block, lenient);
    if parsed.Item? {
      RestoreOneItem(r, block, total, restoreDir, cwd, lenient, parsed.path, parsed.data);
    }
  }

  lemma {:induction false} RestoreAllPositive(r: Restorer, blocks: seq<string>, total: nat, restoreDir: Path, cwd: Path, lenient: bool)
    requires r.failure != Some(ZeroDivision) && total > 0
    ensures RestoreAll(r, blocks, total, restoreDir, cwd, lenient).failure != Some(ZeroDivision)
    decreases |blocks|
  {
    if blocks != [] && r.failure.None? {
      OnePositive(r, blocks[0], total, restoreDir, cwd, lenient);
      RestoreAllPositive(RestoreOne(r, blocks[0], total, restoreDir, cwd, lenient), blocks[1..], total, restoreDir, cwd, lenient);
    }
  }

  /** A failing helper is followed by both `restore_failed` and
      `restore_completed`. */
  lemma FailureAlsoCompletes(r: Restorer, stage: Stage)
    requires r.failure.Some?
    ensures var s := Signals(r, stage);
      s[|s| - 2] == RestoreFailed(stage, r.failure.value) && s[|s| - 1] == RestoreCompleted
  {
  }

  // ---------------------------------------------------------------------------
  // Restoring what the backup thread wrote

  /** The block the header line of a backup file becomes. */
  function HeaderBlock(timestamp: string): string {
    "Backup created on " + timestamp
  }

  /** As written, the restore cannot read a backup file: its first block is
      the header line, which holds no newline, so the unpacking raises before
      anything is written. This holds for every backup output, complete or
      cut short. */
  lemma OwnBackupRejected(fs: Fs, items: seq<Path>, includeSubdirs: bool, timestamp: string, decode: Backup.Decoder,
                          restoreDir: Path, cwd: Path)
    requires '\n' !in timestamp && '\r' !in timestamp
    ensures var r := UncompressedSpec(Some(Backup.BackupSpec(fs, items, includeSubdirs, timestamp, decode).out), restoreDir, cwd);
      r == Fresh.(failure := Some(NotEnoughValues)) &&
      Signals(r, Uncompressed) == [RestoreFailed(Uncompressed, NotEnoughValues), RestoreCompleted]
  {
    Backup.OutputStartsWithHeader(fs, items, includeSubdirs, timestamp, decode);
    HeaderedRejected(Backup.BackupSpec(fs, items, includeSubdirs, timestamp, decode).out, timestamp, restoreDir, cwd);
  }

  /** Any file that begins with the header line is refused at that line. */
  lemma HeaderedRejected(out: string, timestamp: string, restoreDir: Path, cwd: Path)
    requires StartsWith(out, Backup.Header(timestamp))
    requires '\n' !in timestamp && '\r' !in timestamp
    ensures var r := UncompressedSpec(Some(out), restoreDir, cwd);
      r == Fresh.(failure := Some(NotEnoughValues)) &&
      Signals(r, Uncompressed) == [RestoreFailed(Uncompressed, NotEnoughValues), RestoreCompleted]
  {
    HeaderFirst(out, timestamp);
    HeaderNotBlank(timestamp);
    FirstBlockRejected(Newlines(out), restoreDir, cwd);
  }

  /** The header line is a single line that is not blank. */
  lemma HeaderNotBlank(timestamp: string)
    requires '\n' !in timestamp
    ensures '\n' !in HeaderBlock(timestamp) && StripSpace(HeaderBlock(timestamp)) != []
  {
    var h := HeaderBlock(timestamp);
    assert h[0] == 'B' && !IsSpace(h[0]);
    BlankIffAllSpace(h);
  }

  /** Read in text mode, a file that begins with the header line splits into
      that line first. */
  lemma HeaderFirst(text: string, timestamp: string)
    requires StartsWith(text, Backup.Header(timestamp))
    requires '\n' !in timestamp && '\r' !in timestamp
    ensures SplitBlocks(Newlines(text))[0] == HeaderBlock(timestamp)
  {
    var h := HeaderBlock(timestamp);
    var rest := text[|Backup.Header(timestamp)|..];
    assert text == h + "\n\n" + rest by {
      assert text[..|Backup.Header(timestamp)|] == h + "\n\n";
    }
    assert '\n' !in h && '\r' !in h;
    NewlinesPrefix(h + "\n\n", rest);
    assert Newlines(text) == h + "\n\n" + Newlines(rest);
    NoNewlineNoBreak(h);
    SplitCons(h, Newlines(rest));
  }

  /** A text whose first block is not blank and holds no newline is refused
      at that block, before anything is written. */
  lemma FirstBlockRejected(text: string, restoreDir: Path, cwd: Path)
    requires '\n' !in SplitBlocks(text)[0] && StripSpace(SplitBlocks(text)[0]) != []
    ensures TextSpec(text, restoreDir, cwd, false) == Fresh.(failure := Some(NotEnoughValues))
  {
    var blocks := SplitBlocks(text);
    var total := SumLengths(blocks);
    RestoreOneMalformed(Fresh, blocks[0], total, restoreDir, cwd, false, NotEnoughValues);
    RestoreAllFirst(Fresh, blocks, total, restoreDir, cwd, false);
    RestoreAllStopped(Fresh.(failure := Some(NotEnoughValues)), blocks[1..], total, restoreDir, cwd, false);
  }

  /** A backed-up file the corrected parse restores intact. */
  predicate SafeEntry(e: Entry, decode: Backup.Decoder) {
    SafePath(e.path) && Backup.Good(e, decode) && SafeText(decode(e.blob.data).value)
  }

  /** The block each backed-up file becomes: its frame line and its text. */
  function Bodies(es: seq<Entry>, decode: Backup.Decoder): (r: seq<string>)
    requires forall i :: 0 <= i < |es| ==> SafeEntry(es[i], decode)
    ensures |r| == |es|
  {
    if es == [] then []
    else
      assert SafeEntry(es[0], decode);
      [Backup.FrameLine(es[0].path) + decode(es[0].blob.data).value] + Bodies(es[1..], decode)
  }

  /** The files a restore of these records should write, in order. */
  function Restored(es: seq<Entry>, decode: Backup.Decoder, restoreDir: Path, cwd: Path): (r: seq<Output>)
    requires forall i :: 0 <= i < |es| ==> SafeEntry(es[i], decode)
    ensures |r| == |es|
  {
    if es == [] then []
    else
      assert SafeEntry(es[0], decode);
      [TextFile(Join(restoreDir, RelPath(es[0].path, ".", cwd).value), decode(es[0].blob.data).value)]
        + Restored(es[1..], decode, restoreDir, cwd)
  }

  /** The frame line and the text of a safe entry hold no blank line. */
  lemma BodyNoBreak(p: Path, t: string)
    requires SafePath(p) && SafeText(t)
    ensures !HasBreak(Backup.FrameLine(p) + t)
    ensures (Backup.FrameLine(p) + t)[|Backup.FrameLine(p) + t| - 1] != '\n'
  {
    var x := "--- " + p + " ---";
    assert '\n' !in x by {
      forall i | 0 <= i < |x| ensures x[i] != '\n' {
        if 4 <= i < 4 + |p| {
          assert x[i] == p[i - 4];
        }
      }
    }
    NoNewlineNoBreak(x);
    assert !HasBreak("\n") by {
      assert !BreakAt("\n", 0);
    }
    NoBreakConcat(x, "\n");
    assert Backup.FrameLine(p) == x + "\n";
    NoBreakConcat(x + "\n", t);
  }

  /** The records of safe entries split into one block per entry and a final
      empty block after the last blank line. */
  lemma SafeGood(es: seq<Entry>, decode: Backup.Decoder)
    requires forall i :: 0 <= i < |es| ==> SafeEntry(es[i], decode)
    ensures forall i :: 0 <= i < |es| ==> Backup.Good(es[i], decode)
  {
  }

  lemma {:induction false} SplitRecords(es: seq<Entry>, decode: Backup.Decoder)
    requires forall i :: 0 <= i < |es| ==> SafeEntry(es[i], decode)
    requires forall i :: 0 <= i < |es| ==> Backup.Good(es[i], decode)
    ensures SplitBlocks(Backup.Records(es, decode)) == Bodies(es, decode) + [""]
    decreases |es|
  {
    if es == [] {
      assert Backup.Records(es, decode) == [];
      assert FindBreak([], 0).None?;
    } else {
      assert SafeEntry(es[0], decode);
      var p, t := es[0].path, decode(es[0].blob.data).value;
      var b := Backup.FrameLine(p) + t;
      var tail := Backup.Records(es[1..], decode);
      SplitRecords(es[1..], decode);
      BodyNoBreak(p, t);
      assert Backup.Records(es, decode) == b + "\n\n" + tail;
      SplitCons(b, tail);
      var bodies := Bodies(es[1..], decode);
      assert Bodies(es, decode) == [b] + bodies;
      ConsAppend(b, bodies, "");
    }
  }

  /** The empty block after the last record is passed over. */
  lemma EmptyBlockSkipped(r: Restorer, total: nat, restoreDir: Path, cwd: Path)
    requires r.failure.None?
    ensures RestoreAll(r, [""], total, restoreDir, cwd, true) == r
  {
    assert ParseBlock("", true) == Blank;
    RestoreOneBlank(r, "", total, restoreDir, cwd, true);
    RestoreAllFirst(r, [""], total, restoreDir, cwd, true);
  }

  lemma ConsAppend<T>(x: T, xs: seq<T>, y: T)
    ensures [x] + (xs + [y]) == ([x] + xs) + [y]
  {
  }

  lemma TailFrom<T>(xs: seq<T>, k: nat, y: T)
    requires k < |xs|
    ensures (xs[k..] + [y])[0] == xs[k] && (xs[k..] + [y])[1..] == xs[k + 1..] + [y]
  {
  }

  lemma SliceStep<T>(a: seq<T>, xs: seq<T>, k: nat)
    requires k < |xs|
    ensures (a + [xs[k]]) + xs[k + 1..] == a + xs[k..]
  {
    assert xs[k..] == [xs[k]] + xs[k + 1..];
  }

  /** A block that the corrected parse reads as a record whose path resolves
      to the file `o` writes. */
  predicate RestoresTo(block: string, o: Output, restoreDir: Path, cwd: Path) {
    var parsed := ParseBlock(block, true);
    parsed.Item? && o.TextFile? && Target(parsed.path, restoreDir, cwd) == Some(o.path) && o.data == parsed.data
  }

  /** Such a block writes its file and lets the restore go on. */
  lemma OneRestores(r: Restorer, block: string, o: Output, total: nat, restoreDir: Path, cwd: Path)
    requires RestoresTo(block, o, restoreDir, cwd) && r.failure.None? && total > 0
    ensures var r1 := RestoreOne(r, block, total, restoreDir, cwd, true);
      r1.failure.None? && r1.written == r.written + [o]
  {
    var parsed := ParseBlock(block, true);
    RestoreOneItem(r, block, total, restoreDir, cwd, true, parsed.path, parsed.data);
    ItemWrites(r, o.path, parsed.data, total);
  }

  /** Blocks that each restore to a file, followed by the empty block after
      the last blank line, write those files in order and nothing else: from
      block `k` on, the files from `k` on. */
  lemma {:induction false} RestoreEach(r: Restorer, blocks: seq<string>, outs: seq<Output>, k: nat,
                                       total: nat, restoreDir: Path, cwd: Path)
    requires |blocks| == |outs| && k <= |blocks|
    requires forall i :: 0 <= i < |blocks| ==> RestoresTo(blocks[i], outs[i], restoreDir, cwd)
    requires r.failure.None? && total > 0
    ensures var r' := RestoreAll(r, blocks[k..] + [""], total, restoreDir, cwd, true);
      r'.failure.None? && r'.written == r.written + outs[k..]
    decreases |blocks| - k
  {
    if k == |blocks| {
      assert blocks[k..] + [""] == [""];
      EmptyBlockSkipped(r, total, restoreDir, cwd);
      assert r.written + outs[k..] == r.written;
    } else {
      var rest := blocks[k..] + [""];
      TailFrom(blocks, k, "");
      RestoreAllFirst(r, rest, total, restoreDir, cwd, true);
      OneRestores(r, blocks[k], outs[k], total, restoreDir, cwd);
      var r1 := RestoreOne(r, blocks[k], total, restoreDir, cwd, true);
      RestoreEach(r1, blocks, outs, k + 1, total, restoreDir, cwd);
      SliceStep(r.written, outs, k);
    }
  }

  /** The `i`-th block of safe records is the `i`-th entry's frame and text. */
  lemma {:induction false} BodyAt(es: seq<Entry>, decode: Backup.Decoder, i: nat)
    requires forall j :: 0 <= j < |es| ==> SafeEntry(es[j], decode)
    requires i < |es|
    ensures Bodies(es, decode)[i] == Backup.FrameLine(es[i].path) + decode(es[i].blob.data).value
    decreases i
  {
    if i > 0 {
      BodyAt(es[1..], decode, i - 1);
    }
  }

  /** The `i`-th file restored is the `i`-th entry's text at its path. */
  lemma {:induction false} RestoredAt(es: seq<Entry>, decode: Backup.Decoder, restoreDir: Path, cwd: Path, i: nat)
    requires forall j :: 0 <= j < |es| ==> SafeEntry(es[j], decode)
    requires i < |es|
    ensures Restored(es, decode, restoreDir, cwd)[i] ==
      TextFile(Join(restoreDir, RelPath(es[i].path, ".", cwd).value), decode(es[i].blob.data).value)
    decreases i
  {
    var tail := es[1..];
    assert forall j :: 0 <= j < |tail| ==> tail[j] == es[j + 1];
    var head := TextFile(Join(restoreDir, RelPath(es[0].path, ".", cwd).value), decode(es[0].blob.data).value);
    assert Restored(es, decode, restoreDir, cwd) == [head] + Restored(tail, decode, restoreDir, cwd);
    if i > 0 {
      RestoredAt(tail, decode, restoreDir, cwd, i - 1);
      ConsAt(head, Restored(tail, decode, restoreDir, cwd), i);
    }
  }

  /** Each record of a safe entry restores to its file. */
  lemma BodiesRestore(es: seq<Entry>, decode: Backup.Decoder, restoreDir: Path, cwd: Path)
    requires forall j :: 0 <= j < |es| ==> SafeEntry(es[j], decode)
    ensures forall i :: 0 <= i < |es| ==>
      RestoresTo(Bodies(es, decode)[i], Restored(es, decode, restoreDir, cwd)[i], restoreDir, cwd)
  {
    forall i | 0 <= i < |es|
      ensures RestoresTo(Bodies(es, decode)[i], Restored(es, decode, restoreDir, cwd)[i], restoreDir, cwd)
    {
      assert SafeEntry(es[i], decode);
      BodyAt(es, decode, i);
      RestoredAt(es, decode, restoreDir, cwd, i);
      var p, t := es[i].path, decode(es[i].blob.data).value;
      ParseRecord(p, t, true);
      assert Target(p, restoreDir, cwd) == Some(Join(restoreDir, RelPath(p, ".", cwd).value));
    }
  }

  /** With blocks that hold no newline passed over, restoring a complete backup
      of safe files writes each file's text back, in the order the backup
      visited them, under the restore directory at the path relative to the
      working directory. */
  lemma FixedRoundTrip(fs: Fs, items: seq<Path>, includeSubdirs: bool, timestamp: string, decode: Backup.Decoder,
                       restoreDir: Path, cwd: Path)
    requires Backup.BackupSpec(fs, items, includeSubdirs, timestamp, decode).failure.None?
    requires '\n' !in timestamp && '\r' !in timestamp
    requires var es := Selected(fs, items, includeSubdirs);
      forall i :: 0 <= i < |es| ==> SafeEntry(es[i], decode)
    ensures var r := TextSpec(Newlines(Backup.BackupSpec(fs, items, includeSubdirs, timestamp, decode).out), restoreDir, cwd, true);
      r.failure.None? && r.written == Restored(Selected(fs, items, includeSubdirs), decode, restoreDir, cwd)
  {
    var es := Selected(fs, items, includeSubdirs);
    var out := Backup.BackupSpec(fs, items, includeSubdirs, timestamp, decode).out;
    var h := HeaderBlock(timestamp);
    var blocks := SplitBlocks(Newlines(out));
    BackupBlocks(fs, items, includeSubdirs, timestamp, decode);
    var total := SumLengths(blocks);
    assert total >= |h| > 0;
    HeaderSkipped(timestamp, blocks[1..], total, restoreDir, cwd);
    BodiesRestore(es, decode, restoreDir, cwd);
    var bodies, restored := Bodies(es, decode), Restored(es, decode, restoreDir, cwd);
    RestoreEach(Fresh, bodies, restored, 0, total, restoreDir, cwd);
    assert bodies[0..] == bodies && restored[0..] == restored && [] + restored == restored;
  }

  /** A backup of safe files reads back, in text mode, as its header line,
      one block per file and a final empty block. */
  lemma BackupBlocks(fs: Fs, items: seq<Path>, includeSubdirs: bool, timestamp: string, decode: Backup.Decoder)
    requires Backup.BackupSpec(fs, items, includeSubdirs, timestamp, decode).failure.None?
    requires '\n' !in timestamp && '\r' !in timestamp
    requires var es := Selected(fs, items, includeSubdirs);
      forall i :: 0 <= i < |es| ==> SafeEntry(es[i], decode)
    ensures var es := Selected(fs, items, includeSubdirs);
      SplitBlocks(Newlines(Backup.BackupSpec(fs, items, includeSubdirs, timestamp, decode).out)) ==
        [HeaderBlock(timestamp)] + (Bodies(es, decode) + [""])
  {
    var es := Selected(fs, items, includeSubdirs);
    Backup.BackupSucceeds(fs, items, includeSubdirs, timestamp, decode);
    HeaderRecordsBlocks(timestamp, es, decode);
  }

  lemma HeaderRecordsBlocks(timestamp: string, es: seq<Entry>, decode: Backup.Decoder)
    requires '\n' !in timestamp && '\r' !in timestamp
    requires forall i :: 0 <= i < |es| ==> SafeEntry(es[i], decode)
    requires forall i :: 0 <= i < |es| ==> Backup.Good(es[i], decode)
    ensures SplitBlocks(Newlines(Backup.Header(timestamp) + Backup.Records(es, decode))) ==
      [HeaderBlock(timestamp)] + (Bodies(es, decode) + [""])
  {
    var h := HeaderBlock(timestamp);
    assert Backup.Header(timestamp) == h + "\n\n";
    HeaderNotBlank(timestamp);
    HeaderedBlocks(h, es, decode);
  }

  /** A header line followed by a blank line and the records of safe entries
      reads back, in text mode, as that line, one block per entry and a final
      empty block. */
  lemma HeaderedBlocks(h: string, es: seq<Entry>, decode: Backup.Decoder)
    requires h != [] && '\n' !in h && '\r' !in h
    requires forall i :: 0 <= i < |es| ==> SafeEntry(es[i], decode)
    requires forall i :: 0 <= i < |es| ==> Backup.Good(es[i], decode)
    ensures SplitBlocks(Newlines(h + "\n\n" + Backup.Records(es, decode))) == [h] + (Bodies(es, decode) + [""])
  {
    var recs := Backup.Records(es, decode);
    var out := h + "\n\n" + recs;
    RecordsNoReturn(es, decode);
    assert '\r' !in out;
    NewlinesKeep(out);
    NoNewlineNoBreak(h);
    SplitCons(h, recs);
    SplitRecords(es, decode);
  }

  /** The corrected parse passes over the header line. */
  lemma HeaderSkipped(timestamp: string, rest: seq<string>, total: nat, restoreDir: Path, cwd: Path)
    requires '\n' !in timestamp
    ensures RestoreAll(Fresh, [HeaderBlock(timestamp)] + rest, total, restoreDir, cwd, true) ==
      RestoreAll(Fresh, rest, total, restoreDir, cwd, true)
  {
    var h := HeaderBlock(timestamp);
    HeaderNotBlank(timestamp);
    assert ParseBlock(h, true) == Blank;
    RestoreOneBlank(Fresh, h, total, restoreDir, cwd, true);
    RestoreAllFirst(Fresh, [h] + rest, total, restoreDir, cwd, true);
    assert ([h] + rest)[1..] == rest;
  }

  /** Records of safe entries hold no carriage return, so reading them in text
      mode changes nothing. */
  lemma {:induction false} RecordsNoReturn(es: seq<Entry>, decode: Backup.Decoder)
    requires forall i :: 0 <= i < |es| ==> SafeEntry(es[i], decode)
    requires forall i :: 0 <= i < |es| ==> Backup.Good(es[i], decode)
    ensures '\r' !in Backup.Records(es, decode)
    decreases |es|
  {
    if es != [] {
      assert SafeEntry(es[0], decode);
      var p, t := es[0].path, decode(es[0].blob.data).value;
      RecordsNoReturn(es[1..], decode);
      assert Backup.Records(es, decode) == "--- " + p + " ---\n" + t + "\n\n" + Backup.Records(es[1..], decode);
    }
  }
}
