# ProjectToFile archive engine, modelled in Dafny

ProjectToFile is a PyQt desktop application that backs up a selection of files
and folders, restores them, and copies, moves, zips, unzips or deletes a
selection. This project models the engine behind those windows and proves
properties of it. The engine comes in two revisions:

- the first revision: the `BackupHandler` and `RestoreThread` workers and the
  size helpers in `src/utils.py`;
- the second revision: the `BackupRestoreHandler` worker (with optional Fernet
  encryption), the `FileProcessor` worker, `generate_file_tree`, and the
  main window's selection list and `settings.json` handling.

The model runs over an abstract filesystem (`FileTree`). It is a map from each
selected path to the node it names. A node is a file, or a directory whose
children are listed in the order `os.walk` reports them. `Walk` yields the
`(root, files)` steps of a top-down `os.walk`. Each worker thread is a state
record that holds:

- what has been written;
- the signals emitted so far, an append-only log of `Event`s;
- the running `processed_size`;
- the exception that stopped it, if any.

Each thread is specified by a fold that stops at the first exception. Every
loop of the source is a `method` proved equal to its fold, and the properties
are lemmas about the folds.

Modules and what they model:

| module | file | models |
|---|---|---|
| `Text` | `text.dfy` | the `str` operations the engine uses: `split`, `strip`, `find`, `lower`, `endswith`, universal-newline reading |
| `Paths` | `paths.dfy` | `posixpath.join`, `basename`, `dirname`, `abspath`/`normpath` and `relpath` |
| `FileTree` | `filetree.dfy` | the filesystem, `os.walk`, the selection traversal with its skip rule, and file sizes |
| `Events` | `events.dfy` | the signals and the exceptions that stop a worker |
| `Utils` | `utils.dfy` | `src/utils.py`: `format_size`, `count_files_in_directory`, `get_total_size` |
| `Backup` | `backup.dfy` | `src/backup.py`: `BackupHandler` |
| `Restore` | `restore.dfy` | `src/restore.py`: `RestoreThread` |
| `BackupRestore` | `backup_restore.dfy` | `src/src/backup_restore.py`: `BackupRestoreHandler` |
| `TreeUtils` | `tree_utils.dfy` | `src/src/utils.py`: `generate_file_tree` |
| `FileProcessor` | `file_processor.dfy` | `src/src/file_processor.py`: `FileProcessor` |
| `Gui` | `gui.dfy` | `src/src/gui.py`: selection list, settings file, tree export |

The following helpers are logically identical across the two revisions (they
differ only in docstrings, logging and default arguments no caller changes),
so each is modelled once:

- `format_size` (`src/utils.py`, `src/src/utils.py`, `BackupHandler._format_size`);
- `get_total_size` (`src/utils.py`, `BackupHandler`, `BackupRestoreHandler`);
- `restore_from_zip` (both restore workers).

The main results:

- The first revision's backup ends with its running sum equal to
  `get_total_size()` when the backup file lies outside every selected item
  (the model never adds the file being written to the walked tree). It aborts
  at the first unreadable file, and a zero total makes it fail.
- The restore, as written, cannot read any backup the application writes (see
  Findings). With that block passed over, a backup of files whose paths and
  text survive the parse round-trips exactly.
- The second revision reports `backup_completed` after every failure except
  one in `get_total_size`. Its encrypted backups cannot be restored.
- The file processor:
  - emits exactly one final signal;
  - moves and copies into `destination/basename(source)`;
  - deletes each path at most once, leaving everything outside the selection
    (with each file spelled one way);
  - names the zip entries of a directory below the directory's own name
    (for an archive saved outside the zipped directory).
- The main window:
  - `add_files` never selects a path twice, while a drop can;
  - saving settings merges keys;
  - the selection round-trips through `settings.json`;
  - the exported tree has one line per key, indented by depth.

## Model

| member | source | states |
|---|---|---|
| Text.LStrip | src/restore.py:52 | `lstrip(chars)` removes exactly the longest prefix of stripped characters: what is left is a suffix whose first character is kept |
| Text.RStrip | src/restore.py:52 | `rstrip(chars)` removes exactly the longest suffix of stripped characters |
| Text.StripFrame | src/restore.py:52 | stripping `x + p + y`, where `x` and `y` hold only stripped characters and `p` starts and ends with kept ones, gives `p` |
| Text.BlankIffAllSpace | src/restore.py:50 | `file.strip()` is empty exactly when every character is whitespace |
| Text.FindBreak | src/restore.py:45 | the search for `"\n\n"` returns the first separator at or after the start, or none when there is none |
| Text.JoinSplit | src/restore.py:45 | joining the blocks of `split('\n\n')` with the separator gives the text back |
| Text.SplitBlocksHaveNoBreak | src/restore.py:45 | no block of `split('\n\n')` contains the separator |
| Text.SplitJoin | src/restore.py:45 | splitting a join gives back the blocks when none holds the separator and none but the last ends in a newline |
| Text.SplitLine | src/restore.py:51 | `split('\n', 1)` unpacks into two values exactly when the block holds a newline; the first part has no newline and the parts rebuild the block |
| Text.FindChar | src/restore.py:51 | the search for one character returns its first occurrence at or after the start |
| Text.SplitOn | src/src/utils.py:31 | `split(os.sep)` gives at least one part and no part holds the separator |
| Text.JoinSplitOn | src/src/utils.py:31 | joining the parts of `split(sep)` with the separator gives the path back |
| Text.NewlinesPrefix | src/restore.py:43-44 | reading in text mode leaves a prefix without carriage returns as written |
| Paths.Join | src/src/file_processor.py:48 | `os.path.join(a, b)` ends with `b` and is longer than `a` when `b` is a relative name |
| Paths.BaseName | src/src/file_processor.py:48 | `basename` holds no separator and is a suffix of the path |
| Paths.SplitLast | src/src/file_processor.py:62 | `basename` and `dirname` of `d/n` are `n` and `d` |
| Paths.CommonPrefix | src/src/file_processor.py:62 | the common prefix length of `relpath` is the longest prefix shared by both component lists |
| Paths.RelPathBelow | src/src/file_processor.py:62 | `relpath` of a path below `start` is its remaining components joined by `/` |
| Paths.BaseNameJoin | src/src/file_processor.py:42-43 | `basename(join(a, n))` is `n` for a plain name `n` |
| Paths.AbsJoin | src/src/file_processor.py:61 | joining a plain name adds exactly that component to the absolute path |
| Paths.ParentJoin | src/src/file_processor.py:61-62 | for a clean directory, the empty string or "/", `dirname(join(d, n))` is `d` and the absolute path of the join is `d`'s plus `n` |
| Paths.NormalizePlain | src/src/file_processor.py:62 | `normpath` leaves only plain names (non-empty, no separator, not `.` or `..`) |
| Paths.AbsPlain | src/src/file_processor.py:62 | every component of `abspath` is a plain name |
| FileTree.SubdirRootsLonger | src/backup.py:39-41 | under real names every later walk root is strictly longer than the walked directory, so the skip rule drops it |
| FileTree.FileEntriesJoined | src/backup.py:42-43 | the `j`-th file of a walk step is visited at `join(root, files[j])` with that file's contents |
| FileTree.SelectedAppend | src/backup.py:37 | the traversal of two selections in a row is the concatenation of their traversals |
| FileTree.NonexistentItemIgnored | src/backup.py:38-49 | a selected path that is neither a directory nor a file visits nothing |
| FileTree.SkippedSteps | src/backup.py:40-41 | without subdirectories, walk steps whose root is not the selected directory contribute nothing |
| FileTree.TopLevelOnly | src/backup.py:38-44 | without subdirectories, a selected directory contributes exactly its own files, at their joined paths |
| FileTree.AllStepsKept | src/backup.py:40-42 | with subdirectories, the traversal of a walk is every file of every step, in walk order, at its joined path |
| FileTree.AllEntriesAppend | src/backup.py:39-43 | the files of two runs of walk steps are the files of the first run followed by those of the second |
| FileTree.WalkVisitsTree | src/backup.py:39-43 | `os.walk` visits every file anywhere below the directory exactly once, at the path joined from the directories above it |
| FileTree.SubdirsVisitTree | src/backup.py:39-43 | a directory's own files together with its subdirectories' walks are every file of the tree below it |
| FileTree.TotalAppend | src/utils.py:35-42 | the total of two runs of files is the sum of their totals, and fails where either fails |
| FileTree.TotalSizeAppend | src/utils.py:35-42 | the total of two selections is the sum of their totals, and fails where either fails |
| FileTree.WalkEntriesShrink | src/utils.py:37-40 | excluding subdirectories visits no more files and no more bytes, and never adds a dangling link |
| FileTree.SelectedShrink | src/utils.py:35-42 | the same for a whole selection |
| FileTree.TotalSizeMonotone | src/utils.py:30-43 | `get_total_size(paths, False) <= get_total_size(paths, True)`, and the former succeeds whenever the latter does |
| Events.ProgressReport | src/backup.py:45-48 | reporting a running sum at least the old one, then the file, keeps the reported progress ordered |
| Utils.UnitIndex | src/utils.py:13-17 | the unit index is the least `k` below 5 with `size < 1024^(k+1)`, or 5 |
| Utils.UnitIndexUnique | src/utils.py:13-17 | any `k` with those two properties is the unit index |
| Utils.QuotientBelow | src/utils.py:14 | `x / p < 1024.0` exactly when `x < 1024 * p` |
| Utils.DivideAgain | src/utils.py:16 | one more division by 1024.0 divides by the next power of 1024 |
| Utils.FormatSize | src/utils.py:9-17 | the unit is `Units[UnitIndex(size)]` and the magnitude is `size / 1024^k`; "B" exactly when `size < 1024`, with the size unchanged; below 1024 unless "PB"; at least 1 unless "B" |
| Utils.CountFilesInDirectory | src/utils.py:19-28 | the loop counts the files of the walk steps the skip rule keeps |
| Utils.CountMonotone | src/utils.py:19-28 | counting without subdirectories never counts more than counting with them |
| Utils.CountTopLevel | src/utils.py:24-27 | without subdirectories the count is the number of files directly inside the directory |
| Utils.CountAll | src/utils.py:19-28 | with subdirectories the count is the number of files anywhere in the tree below the directory |
| Utils.SumFileSizes | src/utils.py:40 | the `sum(getsize(...))` of one walk step adds up its files' sizes and fails at the first dangling link |
| Utils.BlobsTotalIsTotal | src/utils.py:40 | sizing the files of a step does not depend on the root they are joined to |
| Utils.WalkTotal | src/utils.py:36-40 | the walk part of `get_total_size` adds up the files of every step the skip rule keeps and fails at the first dangling link |
| Utils.StepsTotalIsTotal | src/utils.py:37-40 | the step-by-step sum equals the total of the visited files |
| Utils.ItemTotal | src/utils.py:36-42 | a directory contributes its walk, a file its size, anything else 0 |
| Utils.ItemSize | src/utils.py:36-42 | the loop body computes that contribution |
| Utils.AddUpTotal | src/utils.py:30-43 | adding up the contribution of each selected path in turn gives the total of the whole traversal |
| Utils.GetTotalSize | src/utils.py:30-43 | `get_total_size` is the summed size of every file the traversal visits, or fails at a dangling link |
| Utils.TotalSizeDuplicates | src/utils.py:35 | a path listed twice is counted twice |
| Utils.TotalSizeIgnoresMissing | src/utils.py:41 | a path that is neither a directory nor a file adds nothing |
| Backup.ApplyExtends | src/backup.py:56-60 | the backup file is only ever appended to |
| Backup.OutputStartsWithHeader | src/backup.py:32-33 | whatever happens, the file begins with `"Backup created on " + timestamp + "\n\n"` |
| Backup.WriteFileText | src/backup.py:56-60 | `_write_file` writes the frame line first and raises exactly when the file does not open or decode |
| Backup.VisitFile | src/backup.py:44-48 | one pass of the inner loop is one visit and never lowers the running sum |
| Backup.VisitFiles | src/backup.py:42-48 | the loop over the files of a step is the fold over its joined files |
| Backup.VisitWalk | src/backup.py:39-48 | the walk loop with the skip rule is the fold over the kept files |
| Backup.VisitItem | src/backup.py:38-54 | the body for one selected item is the fold over what it contributes |
| Backup.VisitItems | src/backup.py:37-54 | the item loop is the fold over the whole traversal |
| Backup.RunBackup | src/backup.py:30-54 | `_backup` is the header, `get_total_size`, then the fold |
| Backup.Run | src/backup.py:21-28 | `run` writes what `_backup` writes and ends with `backup_completed` or `backup_failed` accordingly |
| Backup.ApplyAppend | src/backup.py:37-54 | visiting two runs of files is visiting one after the other |
| Backup.ApplyGood | src/backup.py:42-60 | readable files under a non-zero total are written as framed records, each reported once with progress, and the running sum grows by their sizes |
| Backup.VisitGood | src/backup.py:44-60 | one readable file is written as `"--- path ---\n" + text + "\n\n"` and reported |
| Backup.ApplyFirstBad | src/backup.py:44-59 | at the first unreadable file the output ends with its frame line and the run stops with its error |
| Backup.ApplyZeroTotal | src/backup.py:47 | with a zero total the first file is written and the division stops the run before any signal |
| Backup.FirstBad | src/backup.py:58-59 | the first file that does not read through, with every earlier one readable |
| Backup.BackupSucceeds | src/backup.py:30-72 | a successful backup is the header then one record per visited file, with the full walk path in each frame; each file is reported once; the running sum ends equal to `get_total_size()` |
| Backup.BackupFailsIff | src/backup.py:21-69 | the backup fails exactly when `get_total_size` raises, some visited file is unreadable, or the total is 0 with a file visited |
| Backup.BadFileAborts | src/backup.py:26-59 | an unreadable file aborts the backup after the records before it; there is no per-file recovery |
| Backup.ZeroTotalFails | src/backup.py:21-53 | a zero total with a file visited ends in `backup_failed` and never `backup_completed` |
| Backup.ApplyProgress | src/backup.py:45-47 | every visit keeps the reported progress ordered and within the running sum |
| Backup.BackupProgressMonotone | src/backup.py:45-72 | the reported progress never goes backwards and never passes `get_total_size()` |
| Backup.MissingItemIgnored | src/backup.py:38-70 | a selected path that is neither a directory nor a file changes nothing in the output, the signals or the total |
| Restore.ExtractMember | src/restore.py:33-37 | one member is extracted, its size added, and progress reported |
| Restore.RestoreFromZip | src/restore.py:28-39 | `restore_from_zip` is the fold over the archive's members, or fails when the archive does not open |
| Restore.SumFileSizes | src/restore.py:31 | the total is the sum of the members' uncompressed sizes |
| Restore.ExtractMembers | src/restore.py:33-37 | the member loop is the fold over the members |
| Restore.ExtractAllGood | src/restore.py:33-37 | under a non-zero total every member is extracted and reported, and the running sum grows by their sizes |
| Restore.ZipProcessedIsTotal | src/restore.py:31-37 | extracting an archive with some data extracts every member in order, and the running sum ends equal to the total |
| Restore.ZipZeroTotalFails | src/restore.py:36 | an archive of empty members fails at the first percentage, after extracting one member and before any signal |
| Restore.RestoreBlock | src/restore.py:49-60 | the loop body is one step of the fold over blocks |
| Restore.WriteItem | src/restore.py:53-60 | writing one resolved record appends the file, adds `len(data)` and reports progress |
| Restore.SumBlockLengths | src/restore.py:46 | the total is the summed length of all blocks |
| Restore.RestoreBlocks | src/restore.py:49-60 | the block loop is the fold over the blocks |
| Restore.RestoreText | src/restore.py:45-60 | the split, the total and the loop of `restore_uncompressed` |
| Restore.RestoreUncompressed | src/restore.py:41-62 | `restore_uncompressed` is the parse of the file's text, or fails when it does not open |
| Restore.Run | src/restore.py:18-26 | `run` takes the ZIP branch exactly on the name; every run ends with `restore_completed` |
| Restore.ZipNameAnyCase | src/restore.py:20 | a ".zip" extension in any case takes the ZIP branch |
| Restore.TextUnlessZipSuffix | src/restore.py:20-23 | any other name is parsed as text |
| Restore.ParseFramed | src/restore.py:51-52 | the header is stripped of any run of dashes and spaces at either end |
| Restore.ParseRecord | src/restore.py:51-52 | a record written as `"--- path ---\n" + data` parses back to the path and the data when the path survives the strip |
| Restore.LeadingDashLost | src/restore.py:52 | a path that begins with `-` comes back without it |
| Restore.NoNewlineRaises | src/restore.py:51 | a non-blank block without a newline makes the unpacking raise |
| Restore.ParsedShorter | src/restore.py:51-57 | a record's data is shorter than its block |
| Restore.RestoreAllBound | src/restore.py:46-59 | the running sum only grows, by less than each block, and the progress stays ordered |
| Restore.TextProgressBound | src/restore.py:46-59 | in text mode `processed_size` never passes `total_size` and the reported progress is ordered |
| Restore.TextNeverDividesByZero | src/restore.py:46-59 | the text parse never divides by a zero total |
| Restore.FailureAlsoCompletes | src/restore.py:21-62 | a failing helper is followed by `restore_failed` and then `restore_completed` |
| Restore.OwnBackupRejected | src/restore.py:51 | as written, restoring any backup file the first revision writes fails at its header line and restores nothing |
| Restore.HeaderedRejected | src/restore.py:45-51 | any text beginning with the header line is refused at that line |
| Restore.FirstBlockRejected | src/restore.py:49-51 | a text whose first block is non-blank and has no newline is refused before anything is written |
| Restore.SplitRecords | src/restore.py:45 | the records of safe files split into one block per file and a final empty block |
| Restore.RestoreEach | src/restore.py:49-60 | blocks that each restore to a file are restored in order |
| Restore.ItemBound | src/restore.py:53-60 | one record keeps the reported progress ordered and within the running sum, and adds at most the length of its data |
| Restore.FixedRoundTrip | src/restore.py:45-60 | with blocks without a newline passed over, a complete backup of safe files restores each file's text at its path, in visiting order |
| Restore.BackupBlocks | src/backup.py:33-60 | a backup of safe files reads back as its header line, one block per file and an empty block |
| BackupRestore.FileUnits | src/src/backup_restore.py:82-101 | `_write_file` writes at least one unit: the frame and the content, or the error line |
| BackupRestore.WriteFile | src/src/backup_restore.py:82-101 | the method appends exactly those units |
| BackupRestore.VisitFile | src/src/backup_restore.py:66-72 | one pass of the inner loop is one visit |
| BackupRestore.VisitFiles | src/src/backup_restore.py:66-72 | the file loop is the fold over the step's joined files |
| BackupRestore.VisitWalk | src/src/backup_restore.py:63-72 | the walk loop with the skip rule is the fold over the kept files |
| BackupRestore.VisitItem | src/src/backup_restore.py:62-78 | the body for one item is the fold over what it contributes |
| BackupRestore.VisitItems | src/src/backup_restore.py:61-78 | the item loop is the fold over the whole traversal |
| BackupRestore.WriteBackup | src/src/backup_restore.py:49-80 | `_write_backup` is `get_total_size`, then the header and the fold; only a failing `get_total_size` escapes |
| BackupRestore.RunBackup | src/src/backup_restore.py:35-47 | every unit is sealed under the key exactly when a key is set; the `compress` flag is never read |
| BackupRestore.ApplyAppend | src/src/backup_restore.py:61-78 | visiting two runs of files is visiting one after the other |
| BackupRestore.ApplyStatable | src/src/backup_restore.py:66-72 | without dangling links and with a non-zero total every file is written and reported |
| BackupRestore.ApplyUniform | src/src/backup_restore.py:55-101 | units are only appended, each sealed exactly when a key is set |
| BackupRestore.OutputUniform | src/src/backup_restore.py:55-101 | a written backup is all text without a key and all tokens with one |
| BackupRestore.BackupReachesTotal | src/src/backup_restore.py:49-80 | under a non-zero total and an accepted key, the header and every file's units are written, every file reported, the sum ends equal to the total, and the run reports `backup_completed` |
| BackupRestore.ZeroTotalStillCompletes | src/src/backup_restore.py:43-80 | a zero total stops the loop after the first file, before any signal, yet the run reports `backup_completed` |
| BackupRestore.ApplyReportsOnly | src/src/backup_restore.py:71-72 | the loop emits only progress and file reports |
| BackupRestore.CompletedUnlessTotalFails | src/src/backup_restore.py:35-80 | `backup_failed` exactly when `get_total_size` raises; otherwise `backup_completed`, after reports only |
| BackupRestore.RenderAll | src/src/backup_restore.py:91-93 | without a key, the text of the units is each frame line followed directly by the file's text |
| BackupRestore.PlainBackupText | src/src/backup_restore.py:59-93 | without a key a complete backup is the header followed by the records, with no separator after each file |
| BackupRestore.RenderPrefix | src/src/backup_restore.py:59-78 | the rendered text begins with the text of any prefix of the units |
| BackupRestore.RestoreUncompressed | src/src/backup_restore.py:140-168 | `restore_uncompressed` fails when the file does not open, before any key is used; otherwise it decrypts the whole file as one token when a key is set, then parses as the first revision does |
| BackupRestore.RunRestore | src/src/backup_restore.py:115-124 | `_restore` takes the ZIP branch on the name alone and ends with `restore_completed` whatever the helper reported |
| BackupRestore.EncryptedOwnBackupRejected | src/src/backup_restore.py:87-146 | for an `isoformat()` timestamp (19 or 26 characters), a keyed backup cannot be restored: several tokens are refused as a whole, and the header alone has no newline |
| BackupRestore.PlainOwnBackupRejected | src/src/backup_restore.py:59-157 | without a key the restore fails at the header line of any backup this handler wrote |
| TreeUtils.Find | src/src/utils.py:32 | the position of a key is the first binding holding it |
| TreeUtils.Put | src/src/utils.py:34 | `d[k] = v` binds `k` to `v`, keeps every other key, keeps existing keys in place, and grows only for a new key |
| TreeUtils.AddFiles | src/src/utils.py:33-34 | every file of a walk root is a key mapped to `None`; other keys are unchanged |
| TreeUtils.Descend | src/src/utils.py:31-34 | the descent through the root's components keeps every key already present |
| TreeUtils.SetFiles | src/src/utils.py:33-34 | the file loop computes that binding |
| TreeUtils.Place | src/src/utils.py:30-34 | the descent loop computes the descent |
| TreeUtils.GenerateFileTree | src/src/utils.py:27-35 | `generate_file_tree` is the fold of all walk steps |
| TreeUtils.DescendPlaces | src/src/utils.py:31-34 | following a root's components reaches a folder holding every file of that root, mapped to `None` |
| TreeUtils.DescendKeeps | src/src/utils.py:32 | `setdefault` never replaces a folder: every folder on the way keeps its keys in place |
| TreeUtils.BuildExtends | src/src/utils.py:29-34 | the top-level keys stay in their places as steps are added |
| TreeUtils.FirstKeyFromRoot | src/src/utils.py:31 | the first top-level key is the first component of `root_dir` itself |
| TreeUtils.AbsoluteRootEmptyKey | src/src/utils.py:31 | for an absolute `root_dir` that key is the empty string |
| TreeUtils.DescendKeepsPlaced | src/src/utils.py:31-34 | a later step whose root does not lie strictly above a placed folder leaves every file placed there bound to `None` |
| TreeUtils.BuildKeepsPlaced | src/src/utils.py:29-34 | files placed in a folder stay placed through later steps none of whose roots lies above that folder |
| TreeUtils.BuildPlaces | src/src/utils.py:29-34 | when no walk root lies above an earlier one, the finished tree holds every file of every step under the folder its root's components reach |
| TreeUtils.JoinDeeper | src/src/utils.py:29-31 | the components of `join(root, name)` are the root's followed by `name` |
| TreeUtils.WalkShape | src/src/utils.py:29 | under distinct usable names the walk is top-down: every root lies at or below `root_dir` and none lies above an earlier root |
| TreeUtils.SubdirsShape | src/src/utils.py:29 | the roots after the first lie below `root_dir` under one of its entries' names, and are top-down among themselves |
| TreeUtils.TopDownAppend | src/src/utils.py:29 | two top-down runs of roots that part at one level form a top-down run |
| TreeUtils.TreePlaces | src/src/utils.py:27-35 | for a clean `root_dir` with distinct usable names, `generate_file_tree` holds every file of every walk root, bound to `None`, in the folder its components reach |
| FileProcessor.ExecAppend | src/src/file_processor.py:20-34 | carrying out two plans in a row is carrying out their concatenation |
| FileProcessor.Attempt | src/src/file_processor.py:39-40 | one operation followed by its message |
| FileProcessor.CopyOne | src/src/file_processor.py:38-44 | the body of `_copy_files` for one source |
| FileProcessor.CopyFiles | src/src/file_processor.py:36-44 | `_copy_files` carries out the copy plan, stopping at the first exception |
| FileProcessor.MoveFiles | src/src/file_processor.py:46-50 | `_move_files` carries out the move plan |
| FileProcessor.ZipDirectory | src/src/file_processor.py:59-64 | the walk loop of `_zip_files` stores each walked file under its relative name |
| FileProcessor.ZipFiles | src/src/file_processor.py:52-64 | `_zip_files` opens the archive, then stores each source |
| FileProcessor.UnzipFiles | src/src/file_processor.py:66-70 | `_unzip_files` carries out the unzip plan |
| FileProcessor.DeleteFiles | src/src/file_processor.py:72-79 | `_delete_files` carries out the delete plan; when nothing raises, the filesystem ends as the plan predicts |
| FileProcessor.Run | src/src/file_processor.py:20-34 | `run` emits what the dispatched plan emits, then the final signal |
| FileProcessor.ExecFinishes | src/src/file_processor.py:20-34 | a plan runs to its end exactly when none of its tasks raises |
| FileProcessor.ExecClean | src/src/file_processor.py:20-34 | a plan that runs to its end performed every operation and emitted every message, in order |
| FileProcessor.OutcomeShape | src/src/file_processor.py:20-34 | carrying out any plan emits its messages and then one final signal, `processing_completed` exactly when no task raised |
| FileProcessor.RunOutcome | src/src/file_processor.py:20-34 | `run` emits messages then exactly one final signal; `processing_completed` exactly when nothing raised, `processing_failed` otherwise; an unknown action emits only `processing_completed` |
| FileProcessor.ExecMessages | src/src/file_processor.py:40-79 | every signal a plan emits is a message |
| FileProcessor.MoveSucceeds | src/src/file_processor.py:46-50 | moving runs to the end exactly when no source fails to move |
| FileProcessor.MoveAll | src/src/file_processor.py:46-50 | every source is moved, in order, to `join(destination, basename(source))`, and each move is reported |
| FileProcessor.IntoDestination | src/src/file_processor.py:42-48 | a moved or copied directory keeps its name and lands directly inside the destination |
| FileProcessor.CopyOp | src/src/file_processor.py:38-43 | an existing file is copied into the destination; an existing directory is copied as a tree |
| FileProcessor.CopyAll | src/src/file_processor.py:36-44 | copying touches exactly the existing sources, in order, and reports each; other paths are passed over silently |
| FileProcessor.ExtractedMessages | src/src/file_processor.py:69-70 | each member name is reported once, in order |
| FileProcessor.UnzipFirstOnly | src/src/file_processor.py:66-70 | only the first selected path is opened; an empty selection raises at once |
| FileProcessor.WithoutFacts | src/src/file_processor.py:74-78 | deleting a source removes it, and a directory's contents with it, and keeps everything else |
| FileProcessor.DeleteClears | src/src/file_processor.py:72-79 | after deleting, no selected path exists, and every path outside the selection is still there |
| FileProcessor.DeleteExisting | src/src/file_processor.py:73-79 | every deletion removes a file or directory that existed when the worker started |
| FileProcessor.DeleteOnce | src/src/file_processor.py:73-79 | no path is deleted twice, and nothing inside a directory already removed is deleted |
| FileProcessor.WalkBelow | src/src/file_processor.py:59 | under plain names every walk root lies below the directory walked |
| FileProcessor.DirEntriesBelow | src/src/file_processor.py:59-61 | every file a zipped directory contributes lies strictly below it |
| FileProcessor.ZipEntriesStore | src/src/file_processor.py:60-63 | when every file can be named, each is stored, in order, under its name |
| FileProcessor.ZipDirStoresAll | src/src/file_processor.py:58-63 | a directory is zipped with its whole walk, whatever the subdirectory option, each file under its path relative to the parent |
| FileProcessor.ZipArcNames | src/src/file_processor.py:62 | for a source `join(d, n)` whose `d` is a clean directory, the empty string (a bare relative source) or "/", the archive name of each file starts with `n`, continues with the file's path below the source, and holds only plain names |
| Gui.AddNew | src/src/gui.py:252-257 | `add_files` keeps the old list as a prefix and only appends |
| Gui.AddNewMembers | src/src/gui.py:252-257 | after `add_files` every chosen path is selected, and nothing is selected that was neither selected nor chosen |
| Gui.AddNewNoDup | src/src/gui.py:254-256 | `add_files` never selects a path twice |
| Gui.AddNewSelected | src/src/gui.py:254-255 | adding already selected paths changes nothing |
| Gui.WithFolderNoDup | src/src/gui.py:260-264 | `add_folder` never selects a folder twice, selects a non-empty folder, and adds nothing else |
| Gui.ExistingMembers | src/src/gui.py:31-34 | a drop keeps exactly the dropped paths that exist |
| Gui.DropAdmitsDuplicates | src/src/gui.py:27-34 | a drop appends without a duplicate check, so a path dropped again is selected twice, where `add_files` would not add it |
| Gui.Merge | src/src/gui.py:341-351 | `update` merges: new keys win, every other stored key is kept |
| Gui.SettingsRoundTrip | src/src/gui.py:341-368 | saving the selection and then loading it gives back the same files and options |
| Gui.TreeSaveKeepsSelection | src/src/gui.py:353-378 | saving the tree folder leaves the stored selection; on a fresh file the selection loads as the defaults: empty, both options off |
| Gui.TreeSettingsNeverLoad | src/src/gui.py:380-383 | once any setting has been saved, loading the tree settings raises |
| Gui.TreeFolderRestored | src/src/gui.py:376-385 | with the file opened as intended, the folder the tree view saved is the one it rebuilds |
| Gui.Indent | src/src/gui.py:248 | `'  ' * n` is `2n` spaces |
| Gui.TreeLinesCount | src/src/gui.py:246-250 | the exported text has one line per key at every level |
| Gui.TreeLinesIndented | src/src/gui.py:246-250 | every exported line starts with two spaces per level and ends with a newline |
| Gui.App.constructor | src/src/gui.py:37-43 | the window starts with an empty selection and then loads the settings |
| Gui.App.SaveSettings | src/src/gui.py:341-351 | the file becomes the merge of what was stored and the update; a file that is not JSON raises and is left as it was |
| Gui.App.LoadSettings | src/src/gui.py:353-360 | `files` is replaced by the stored list (default empty) and appended to the list widget; the options default to off |
| Gui.App.SaveBackupSettings | src/src/gui.py:362-368 | the selection and both options are merged into the file |
| Gui.App.AddFiles | src/src/gui.py:252-257 | the selection becomes `AddNew`, the widget shows exactly the added paths appended, and the settings are saved |
| Gui.App.AddFolder | src/src/gui.py:260-264 | the selection gains the folder when it is new and non-empty; the settings are saved |
| Gui.App.ClearFiles | src/src/gui.py:267-269 | the selection and the widget are empty, and the empty selection is saved |
| Gui.App.Drop | src/src/gui.py:27-34 | every existing dropped path is appended to the selection and the widget, and nothing is saved |
| Gui.App.ShowFileTree | src/src/gui.py:214-222 | a chosen folder's tree is generated and the folder saved; a cancelled dialog changes nothing |
| Gui.App.ExportFileTree | src/src/gui.py:230-241 | without a generated tree nothing is written; otherwise the text is the indented tree |
| Gui.App.LoadFileTreeSettings | src/src/gui.py:380-383 | as written, it returns normally only without a settings file |
| Gui.App.LoadFileTreeSettingsFixed | src/src/gui.py:380-388 | with the file opened as intended, the saved folder, when it exists, is walked again into the tree |

## Left out

- Qt: widgets, dialogs, message boxes, stylesheets, threads and the signal machinery. Signals are an event log; dialogs become parameters.
- Real filesystem and library calls are not modelled. These are `open`, `os.walk`, `getsize`, `shutil`, `zipfile`, `makedirs` and `json`. The filesystem is a value. Archive contents are a list of `(name, size)`. In the file processor a copy, move, store, extract or removal is an abstract operation, and a parameter says which operations raise.
- Restore.ExtractMember, Restore.WriteItem: `zf.extract`, `os.makedirs` and `open(restore_path, 'w')` never raise in the model (in both revisions' restore); only a zero total, an unresolvable path, a file that does not open or a failed parse stops a restore.
- Backup.BackupSucceeds, BackupRestore.BackupReachesTotal, FileProcessor.ZipDirStoresAll: the file a worker writes (`backup_path`, or the archive at `destination`) is not part of the walked tree. The source creates it before `get_total_size()` and the walk (`src/backup.py:31-39`, `src/src/backup_restore.py:38-63`, `src/src/file_processor.py:53-59`). When it lies inside a selected item, the walk reaches the partly written file, so the sum can differ from the total and the output contains a copy of itself. These results hold only when the output lies outside every selected item.
- Text.Lower: folds ASCII letters only. Python's `lower()` also folds other letters and can change the length of non-ASCII text; the model needs it only for the `.endswith('.zip')` test.
- TreeUtils.TreePlaces: it assumes the build succeeds, that is, no `setdefault` lands on a file's `None`. The model does not prove that distinct names rule that failure out.
- The ZIP container format and DEFLATE compression inside `zipfile`. A failure to open an archive is folded into the failing `CreateArchive` or `Extract` operation.
- Fernet encryption is not modelled inside. A token is a unit sealed under a key, and a flag says whether the key is valid.
- BackupRestore.RestoreUncompressed, BackupRestore.OneToken: a file of more than one token is always refused as `InvalidToken`. `Fernet.decrypt` decodes base64 leniently and stops at the first `=` padding, so a file whose first token ends in padding decrypts to that token alone; the model does not capture this. A backup this handler writes starts with a 140-character header token without padding (for the 19 or 26 characters of an `isoformat()` timestamp), so BackupRestore.EncryptedOwnBackupRejected, which requires such a timestamp, is unaffected.
- FileProcessor.ZipArcNames: a source with a trailing separator (`mydir/`) has an empty `basename`; its files are stored without the directory's own name, and the lemma does not cover it. Nor does it cover a source whose parent is spelled with repeated or trailing separators.
- UTF-8 decoding, strict or with `errors='ignore'`, is a function parameter.
- `datetime.now().isoformat()` is a timestamp parameter; `os.path.relpath` uses a working-directory parameter.
- Utils.FormatSize: the `.2f` rendering is not modelled. The magnitude is computed exactly as a real, and the float percentage `int(processed / total * 100)` appears only as the division by zero it raises on a zero total.
- Logging, and the `schedule`-based scheduler with its endless loop (`src/src/utils.py:4-15`).
- `print_file_tree` is not modelled; it prints the same lines as `write_tree_to_file`.
- `src/src/utils.py` uses `os` without importing it, so `get_file_size` and `generate_file_tree` raise as written. TreeUtils.GenerateFileTree models the intended logic.
- FileProcessor.CopyFiles: copy and move consult the filesystem as it was when the worker started. A later source that an earlier copy or move created or removed is not re-examined.
- FileProcessor.DeleteFiles: a deletion removes paths from the map, but parent directories' children lists are not updated. Paths are compared as spelled: the model assumes one spelling per file, so `./d` and `d`, or `d/` and `d`, are unrelated keys. For sources `["./d", "d"]` the source deletes once, while the model plans two removals. FileProcessor.DeleteOnce and FileProcessor.DeleteClears hold under that assumption only.
- FileProcessor.Run: the `options` argument is never read by any action, so it is not modelled.
- Copy and move destinations that already exist are left out. `shutil` behaviour on those (merging into a directory, overwriting) is part of the failing-operation parameter.
- `src/gui.py` (the first revision's window) is widget wiring only. Its add and clear logic duplicates `src/src/gui.py:252-270`.
- `src/main.py` and `src/src/main.py` are launchers only. `src/src/main.py` imports a `BackupApp` that `src/src/gui.py` does not define.
- `start_backup`, `start_restore`, the log and result slots and `populate_tree_widget` of the main window are widget wiring.
- `load_backup_settings` and `load_restore_settings` only call `load_settings`, which Gui.App.LoadSettings models.
- Gui.App.LoadSettings: it requires the stored `files`, `compress`, `subdirs` and `last_tree_folder` values to have the kinds the window writes. A hand-edited file with other kinds is not modelled.
- Gui.App.constructor: a settings file that is not JSON makes `__init__` raise. The constructor then returns with the initial empty state instead.
- JSON encoding itself is not modelled. The settings file is a map from keys to typed values, or missing, or not JSON.

## Findings

| source | as written | input that shows it | evidently intended | confidence | as-written member | corrected member |
|---|---|---|---|---|---|---|
| src/restore.py:51 | every non-blank block is unpacked as `header, data = file.split('\n', 1)` | any backup written by src/backup.py: its first block `"Backup created on <ts>"` has no newline, so the unpacking raises, nothing is restored, and `restore_failed` is followed by `restore_completed` | pass over blocks that are not framed records, so the header line is skipped and every record is restored | not executed | Restore.OwnBackupRejected | Restore.FixedRoundTrip |
| src/src/gui.py:382-383 | `with open(SETTINGS_FILE, ...):` binds no name, and the body calls `json.load(f)` | any state in which `settings.json` exists, e.g. after `show_file_tree` saved `last_tree_folder`: `f` is unbound and the call raises | `with open(...) as f:`, so the saved folder's tree is rebuilt | not executed | Gui.TreeSettingsNeverLoad | Gui.TreeFolderRestored |
