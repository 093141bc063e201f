/** The state the main window keeps besides its widgets: the selected files
    and folders, the two option boxes, the settings file `settings.json` and
    the last generated file tree, with the window's operations on them. */
module Gui {
  import opened Text
  import opened Paths
  import opened FileTree
  import TreeUtils
  import opened FileProcessor

  /** A value stored in the settings file. */
  datatype Setting = PathList(paths: seq<Path>) | Flag(on: bool) | Name(text: string)

  /** The settings file: absent, not valid JSON, or a JSON object. */
  datatype SettingsFile = Missing | Corrupt | Stored(entries: map<string, Setting>)

  /** The keys the window reads hold values of the kinds the window writes. */
  predicate Shaped(file: SettingsFile) {
    file.Stored? ==>
      var m := file.entries;
      ("files" in m ==> m["files"].PathList?) &&
      ("compress" in m ==> m["compress"].Flag?) &&
      ("subdirs" in m ==> m["subdirs"].Flag?) &&
      ("last_tree_folder" in m ==> m["last_tree_folder"].Name?)
  }

  predicate NoDup<T(==)>(s: seq<T>) {
    forall i, j :: 0 <= i < j < |s| ==> s[i] != s[j]
  }

  // ---------------------------------------------------------------------------
  // The selection list

  /** `add_files`: each chosen path not yet selected is appended, in the
      order chosen. */
  function AddNew(files: seq<Path>, chosen: seq<Path>): (r: seq<Path>)
    ensures |files| <= |r| && r[..|files|] == files
    decreases |chosen|
  {
    if chosen == [] then files
    else
      var next := if chosen[0] in files then files else files + [chosen[0]];
      var r := AddNew(next, chosen[1..]);
      assert r[..|files|] == r[..|next|][..|files|];
      r
  }

  /** `add_files` selects every chosen path and nothing else. */
  lemma {:induction false} AddNewMembers(files: seq<Path>, chosen: seq<Path>)
    ensures forall x :: x in chosen ==> x in AddNew(files, chosen)
    ensures forall x :: x in AddNew(files, chosen) ==> x in files || x in chosen
    decreases |chosen|
  {
    if chosen != [] {
      var next := if chosen[0] in files then files else files + [chosen[0]];
      var r := AddNew(next, chosen[1..]);
      assert r == AddNew(files, chosen);
      AddNewMembers(next, chosen[1..]);
      assert chosen[0] in next && r[..|next|] == next;
      assert forall x :: x in chosen ==> x == chosen[0] || x in chosen[1..];
      assert forall x :: x in next ==> x in files || x == chosen[0];
    }
  }

  /** `add_files` never selects a path twice. */
  lemma {:induction false} AddNewNoDup(files: seq<Path>, chosen: seq<Path>)
    requires NoDup(files)
    ensures NoDup(AddNew(files, chosen))
    decreases |chosen|
  {
    if chosen != [] {
      var next := if chosen[0] in files then files else files + [chosen[0]];
      if chosen[0] !in files {
        assert forall i :: 0 <= i < |files| ==> next[i] == files[i];
      }
      AddNewNoDup(next, chosen[1..]);
    }
  }

  /** Adding paths already selected changes nothing. */
  lemma {:induction false} AddNewSelected(files: seq<Path>, chosen: seq<Path>)
    requires forall x :: x in chosen ==> x in files
    ensures AddNew(files, chosen) == files
    decreases |chosen|
  {
    if chosen != [] {
      assert chosen[0] in chosen;
      assert forall x :: x in chosen[1..] ==> x in chosen;
      AddNewSelected(files, chosen[1..]);
    }
  }

  /** `add_folder`: a chosen folder that is not yet selected is appended; an
      empty path (the dialog was cancelled) is not. */
  function WithFolder(files: seq<Path>, folder: Path): seq<Path> {
    if folder != [] && folder !in files then files + [folder] else files
  }

  /** Adding a folder never selects anything twice, and afterwards a chosen
      folder is selected. */
  lemma WithFolderNoDup(files: seq<Path>, folder: Path)
    ensures NoDup(files) ==> NoDup(WithFolder(files, folder))
    ensures folder != [] ==> folder in WithFolder(files, folder)
    ensures forall x :: x in WithFolder(files, folder) ==> x in files || x == folder
  {
    var r := WithFolder(files, folder);
    if folder != [] && folder !in files {
      assert r[|files|] == folder;
      assert forall i :: 0 <= i < |files| ==> r[i] == files[i];
    }
  }

  /** A drop keeps exactly the dropped paths that exist, the same filter the
      file processor applies to its sources. */
  lemma {:induction false} ExistingMembers(fs: Fs, urls: seq<Path>)
    ensures forall x :: x in Existing(fs, urls) <==> x in urls && Exists(fs, x)
  {
    if urls != [] {
      ExistingMembers(fs, urls[1..]);
      assert forall x :: x in urls <==> x == urls[0] || x in urls[1..];
    }
  }

  /** A drop appends every existing dropped path without asking whether it
      is selected already, so a path dropped twice is selected twice. */
  lemma DropAdmitsDuplicates(fs: Fs, p: Path)
    requires Exists(fs, p)
    ensures NoDup([p]) && !NoDup([p] + Existing(fs, [p]))
    ensures AddNew([p], [p]) == [p]
  {
    assert Existing(fs, [p][1..]) == [];
    assert Existing(fs, [p]) == [p];
    assert ([p] + [p])[0] == ([p] + [p])[1];
    AddNewSelected([p], [p]);
  }

  // ---------------------------------------------------------------------------
  // The settings file

  /** `existing_settings.update(settings)`: the new entries win, every other
      stored entry is kept. */
  function Merge(existing: map<string, Setting>, update: map<string, Setting>): (r: map<string, Setting>)
    ensures forall k :: k in r <==> k in existing || k in update
    ensures forall k :: k in update ==> r[k] == update[k]
    ensures forall k :: k in existing && k !in update ==> r[k] == existing[k]
  {
    existing + update
  }

  /** The settings file after `save_settings(update)`: a file that is not
      JSON makes `json.load` raise before anything is written. */
  function Saved(file: SettingsFile, update: map<string, Setting>): SettingsFile {
    match file
    case Missing => Stored(update)
    case Corrupt => Corrupt
    case Stored(m) => Stored(Merge(m, update))
  }

  /** `save_backup_settings`. */
  function BackupSettings(files: seq<Path>, compress: bool, subdirs: bool): map<string, Setting> {
    map["files" := PathList(files), "compress" := Flag(compress), "subdirs" := Flag(subdirs)]
  }

  /** `save_file_tree_settings`. */
  function TreeSettings(folder: Path): map<string, Setting> {
    map["last_tree_folder" := Name(folder)]
  }

  /** What `load_settings` takes from the file. */
  datatype Loaded = Loaded(files: seq<Path>, compress: bool, subdirs: bool)

  /** `settings.get(key, default)` for the three keys `load_settings` reads;
      `None` when there is no file to read (a missing file is skipped, a
      file that is not JSON raises). */
  function Load(file: SettingsFile): Option<Loaded>
    requires Shaped(file)
  {
    match file
    case Stored(m) =>
      Some(Loaded(
        if "files" in m then m["files"].paths else [],
        if "compress" in m then m["compress"].on else false,
        if "subdirs" in m then m["subdirs"].on else false))
    case _ => None
  }

  /** Saving the selection and then loading it gives back the same selection
      and options, whatever else the file held. */
  lemma SettingsRoundTrip(file: SettingsFile, files: seq<Path>, compress: bool, subdirs: bool)
    requires Shaped(file) && !file.Corrupt?
    ensures Shaped(Saved(file, BackupSettings(files, compress, subdirs)))
    ensures Load(Saved(file, BackupSettings(files, compress, subdirs))) == Some(Loaded(files, compress, subdirs))
  {
    var u := BackupSettings(files, compress, subdirs);
    assert "files" in u && "compress" in u && "subdirs" in u;
  }

  /** Saving the tree folder leaves the stored selection as it was; on a
      fresh file the selection loads as the defaults: nothing selected and
      both options off. */
  lemma TreeSaveKeepsSelection(file: SettingsFile, folder: Path)
    requires Shaped(file)
    ensures Shaped(Saved(file, TreeSettings(folder)))
    ensures file.Stored? ==> Load(Saved(file, TreeSettings(folder))) == Load(file)
    ensures file.Missing? ==> Load(Saved(file, TreeSettings(folder))) == Some(Loaded([], false, false))
  {
    var u := TreeSettings(folder);
    assert "files" !in u && "compress" !in u && "subdirs" !in u;
  }

  /** The folder `load_file_tree_settings` means to rebuild:
      `settings.get('last_tree_folder')` when it is a non-empty path. */
  function TreeFolder(file: SettingsFile): Option<Path>
    requires Shaped(file)
  {
    if file.Stored? && "last_tree_folder" in file.entries && file.entries["last_tree_folder"].text != []
    then Some(file.entries["last_tree_folder"].text)
    else None
  }

  /** As written, `load_file_tree_settings` raises whenever the settings file
      exists, because it reads from a name it never bound; and once any
      setting has been saved, the file exists. */
  lemma TreeSettingsNeverLoad(file: SettingsFile, update: map<string, Setting>)
    requires !file.Corrupt?
    ensures !TreeLoadAsWritten(Saved(file, update))
  {
  }

  /** Whether `load_file_tree_settings`, as written, returns normally. */
  function TreeLoadAsWritten(file: SettingsFile): (ok: bool)
    ensures ok <==> file.Missing?
  {
    match file
    case Missing => true
    case _ => false
  }

  /** With the file opened as intended, the folder saved by the tree view is
      the one the tree is rebuilt from. */
  lemma TreeFolderRestored(file: SettingsFile, folder: Path)
    requires Shaped(file) && !file.Corrupt? && folder != []
    ensures Shaped(Saved(file, TreeSettings(folder)))
    ensures TreeFolder(Saved(file, TreeSettings(folder))) == Some(folder)
  {
    var u := TreeSettings(folder);
    assert "last_tree_folder" in u;
  }

  // ---------------------------------------------------------------------------
  // Exporting the tree

  /** `'  ' * n`. */
  function Indent(n: nat): (r: string)
    ensures |r| == 2 * n && forall i :: 0 <= i < |r| ==> r[i] == ' '
  {
    if n == 0 then [] else "  " + Indent(n - 1)
  }

  /** `write_tree_to_file(f, tree, indent)`: one line per key, indented two
      spaces per level, descending into folders only. */
  function TreeLines(d: seq<TreeUtils.Binding>, indent: nat): seq<string>
    decreases d
  {
    if d == [] then []
    else
      assert d[0] in d;
      [Indent(indent) + d[0].key + "\n"]
      + (match d[0].value
         case Folder(es) => TreeLines(es, indent + 1)
         case Leaf => [])
      + TreeLines(d[1..], indent)
  }

  /** The number of keys in a tree, at every level. */
  function Keys(d: seq<TreeUtils.Binding>): nat
    decreases d
  {
    if d == [] then 0
    else
      assert d[0] in d;
      1 + (match d[0].value case Folder(es) => Keys(es) case Leaf => 0) + Keys(d[1..])
  }

  /** The exported text has exactly one line per key of the tree. */
  lemma {:induction false} TreeLinesCount(d: seq<TreeUtils.Binding>, indent: nat)
    ensures |TreeLines(d, indent)| == Keys(d)
    decreases d
  {
    if d != [] {
      assert d[0] in d;
      match d[0].value {
        case Folder(es) => TreeLinesCount(es, indent + 1);
        case Leaf =>
      }
      TreeLinesCount(d[1..], indent);
    }
  }

  /** Every line starts with `prefix` and ends the line. */
  predicate Lines(ls: seq<string>, prefix: string) {
    forall i :: 0 <= i < |ls| ==> StartsWith(ls[i], prefix) && EndsWith(ls[i], "\n")
  }

  lemma LinesAppend(a: seq<string>, b: seq<string>, prefix: string)
    requires Lines(a, prefix) && Lines(b, prefix)
    ensures Lines(a + b, prefix)
  {
    forall i | 0 <= i < |a + b| ensures StartsWith((a + b)[i], prefix) && EndsWith((a + b)[i], "\n") {
      if i >= |a| {
        assert (a + b)[i] == b[i - |a|];
      }
    }
  }

  lemma LinesDeeper(ls: seq<string>, n: nat)
    requires Lines(ls, Indent(n + 1))
    ensures Lines(ls, Indent(n))
  {
    assert Indent(n + 1)[..|Indent(n)|] == Indent(n);
    forall i | 0 <= i < |ls| ensures StartsWith(ls[i], Indent(n)) {
      StartsWithTrans(ls[i], Indent(n + 1), Indent(n));
    }
  }

  /** Every exported line is a key at its depth: it starts with at least two
      spaces per level of the tree it is in and ends its line. */
  lemma {:induction false} TreeLinesIndented(d: seq<TreeUtils.Binding>, indent: nat)
    ensures Lines(TreeLines(d, indent), Indent(indent))
    decreases d
  {
    if d != [] {
      assert d[0] in d;
      var line := Indent(indent) + d[0].key + "\n";
      assert line[..|Indent(indent)|] == Indent(indent);
      assert Lines([line], Indent(indent));
      var inner := match d[0].value case Folder(es) => TreeLines(es, indent + 1) case Leaf => [];
      match d[0].value {
        case Folder(es) =>
          TreeLinesIndented(es, indent + 1);
          LinesDeeper(inner, indent);
        case Leaf =>
      }
      TreeLinesIndented(d[1..], indent);
      LinesAppend([line], inner, Indent(indent));
      LinesAppend([line] + inner, TreeLines(d[1..], indent), Indent(indent));
    }
  }

  /** The text of an exported tree. */
  function TreeText(tree: seq<TreeUtils.Binding>): string {
    Concat(TreeLines(tree, 0))
  }

  // ---------------------------------------------------------------------------
  // The window

  class App {
    /** `self.files`: the selected files and folders. */
    var files: seq<Path>
    /** The items the selection list widget shows. */
    var shown: seq<Path>
    /** The two option check boxes. */
    var compress: bool
    var subdirs: bool
    /** The settings file as it is on disk. */
    var settings: SettingsFile
    /** `self.tree`, once a tree has been generated. */
    var tree: Option<seq<TreeUtils.Binding>>

    /** `__init__`: an empty selection, then `load_settings`. */
    constructor (file: SettingsFile)
      requires Shaped(file)
      ensures settings == file && tree == None
      ensures Load(file).None? ==> files == [] && shown == [] && !compress && !subdirs
      ensures Load(file).Some? ==>
        var l := Load(file).value;
        files == l.files && shown == l.files && compress == l.compress && subdirs == l.subdirs
    {
      files, shown := [], [];
      compress, subdirs := false, false;
      settings := file;
      tree := None;
      new;
      var _ := LoadSettings();
    }

    /** `save_settings(update)`; `false` where it raises. */
    method SaveSettings(update: map<string, Setting>) returns (ok: bool)
      modifies this`settings
      ensures settings == Saved(old(settings), update)
      ensures ok <==> !old(settings).Corrupt?
    {
      ok := !settings.Corrupt?;
      match settings {
        case Missing => settings := Stored(update);
        case Corrupt =>
        case Stored(m) => settings := Stored(m + update);
      }
    }

    /** `load_settings`: the stored selection replaces `files` and is added to
        what the list widget shows; `false` where it raises. */
    method LoadSettings() returns (ok: bool)
      requires Shaped(settings)
      modifies this`files, this`shown, this`compress, this`subdirs
      ensures ok <==> !settings.Corrupt?
      ensures Load(settings).None? ==>
        files == old(files) && shown == old(shown) && compress == old(compress) && subdirs == old(subdirs)
      ensures Load(settings).Some? ==>
        var l := Load(settings).value;
        files == l.files && shown == old(shown) + l.files && compress == l.compress && subdirs == l.subdirs
    {
      ok := !settings.Corrupt?;
      if settings.Stored? {
        var m := settings.entries;
        files := if "files" in m then m["files"].paths else [];
        shown := shown + files;
        compress := if "compress" in m then m["compress"].on else false;
        subdirs := if "subdirs" in m then m["subdirs"].on else false;
      }
    }

    method SaveBackupSettings() returns (ok: bool)
      modifies this`settings
      ensures settings == Saved(old(settings), BackupSettings(files, compress, subdirs))
      ensures ok <==> !old(settings).Corrupt?
    {
      ok := SaveSettings(BackupSettings(files, compress, subdirs));
    }

    /** `add_files` with the paths the dialog returned. */
    method AddFiles(chosen: seq<Path>) returns (ok: bool)
      modifies this`files, this`shown, this`settings
      ensures files == AddNew(old(files), chosen)
      ensures shown == old(shown) + files[|old(files)|..]
      ensures settings == Saved(old(settings), BackupSettings(files, compress, subdirs))
      ensures ok <==> !old(settings).Corrupt?
    {
      ghost var added: seq<Path> := [];
      var i := 0;
      assert chosen[0..] == chosen;
      while i < |chosen|
        invariant 0 <= i <= |chosen|
        invariant files == old(files) + added && shown == old(shown) + added
        invariant settings == old(settings)
        invariant AddNew(files, chosen[i..]) == AddNew(old(files), chosen)
      {
        var file := chosen[i];
        assert chosen[i..][0] == file && chosen[i..][1..] == chosen[i + 1..];
        assert AddNew(files, chosen[i..]) ==
          AddNew(if file in files then files else files + [file], chosen[i + 1..]);
        if file !in files {
          files := files + [file];
          shown := shown + [file];
          added := added + [file];
        }
        i := i + 1;
      }
      assert chosen[i..] == [];
      assert files == AddNew(old(files), chosen);
      assert files[|old(files)|..] == added;
      assert shown == old(shown) + files[|old(files)|..];
      ok := SaveBackupSettings();
    }

    /** `add_folder` with the path the dialog returned (empty if cancelled). */
    method AddFolder(folder: Path) returns (ok: bool)
      modifies this`files, this`shown, this`settings
      ensures files == WithFolder(old(files), folder)
      ensures shown == old(shown) + files[|old(files)|..]
      ensures settings == Saved(old(settings), BackupSettings(files, compress, subdirs))
      ensures ok <==> !old(settings).Corrupt?
    {
      if folder != [] && folder !in files {
        files := files + [folder];
        shown := shown + [folder];
      }
      ok := SaveBackupSettings();
    }

    /** `clear_files`. */
    method ClearFiles() returns (ok: bool)
      modifies this`files, this`shown, this`settings
      ensures files == [] && shown == []
      ensures settings == Saved(old(settings), BackupSettings([], compress, subdirs))
      ensures ok <==> !old(settings).Corrupt?
    {
      files, shown := [], [];
      ok := SaveBackupSettings();
    }

    /** `FileListWidget.dropEvent` with the dropped paths: no duplicate check
        and no save. */
    method Drop(fs: Fs, urls: seq<Path>)
      modifies this`files, this`shown
      ensures files == old(files) + Existing(fs, urls)
      ensures shown == old(shown) + Existing(fs, urls)
    {
      ghost var added: seq<Path> := [];
      var i := 0;
      assert urls[0..] == urls;
      while i < |urls|
        invariant 0 <= i <= |urls|
        invariant files == old(files) + added && shown == old(shown) + added
        invariant added + Existing(fs, urls[i..]) == Existing(fs, urls)
      {
        var path := urls[i];
        ghost var rest := Existing(fs, urls[i + 1..]);
        assert urls[i..][0] == path && urls[i..][1..] == urls[i + 1..];
        if Exists(fs, path) {
          assert Existing(fs, urls[i..]) == [path] + rest;
          AppendAssoc(added, [path], rest);
          files := files + [path];
          shown := shown + [path];
          added := added + [path];
        } else {
          assert Existing(fs, urls[i..]) == [] + rest;
        }
        i := i + 1;
      }
      assert urls[i..] == [];
      assert added + [] == added;
    }

    /** `show_file_tree` with the folder the dialog returned; `false` where
        building the tree raises, which leaves everything as it was. */
    method ShowFileTree(fs: Fs, folder: Path) returns (ok: bool)
      modifies this`tree, this`settings
      ensures folder == [] ==> ok && tree == old(tree) && settings == old(settings)
      ensures folder != [] && TreeUtils.TreeSpec(fs, folder).None? ==>
        !ok && tree == old(tree) && settings == old(settings)
      ensures folder != [] && TreeUtils.TreeSpec(fs, folder).Some? ==>
        tree == TreeUtils.TreeSpec(fs, folder) && settings == Saved(old(settings), TreeSettings(folder)) &&
        (ok <==> !old(settings).Corrupt?)
    {
      if folder == [] {
        return true;
      }
      var t := TreeUtils.GenerateFileTree(fs, folder);
      if t.None? {
        return false;
      }
      tree := t;
      ok := SaveSettings(TreeSettings(folder));
    }

    /** `export_file_tree`: the text written, or `None` when no tree has been
        generated yet. */
    method ExportFileTree() returns (text: Option<string>)
      ensures tree.None? ==> text.None?
      ensures tree.Some? ==> text == Some(TreeText(tree.value))
    {
      if tree.None? {
        return None;
      }
      var lines := TreeLines(tree.value, 0);
      text := Some(Concat(lines));
    }

    /** `load_file_tree_settings` as written: it raises as soon as the file
        exists, before reading anything. */
    method LoadFileTreeSettings() returns (ok: bool)
      ensures ok <==> TreeLoadAsWritten(settings)
    {
      ok := settings.Missing?;
    }

    /** `load_file_tree_settings` with the file opened as `f`, as intended:
        the saved folder, when it exists, is walked again. */
    method LoadFileTreeSettingsFixed(fs: Fs) returns (ok: bool)
      requires Shaped(settings)
      modifies this`tree
      ensures settings.Corrupt? ==> !ok && tree == old(tree)
      ensures !settings.Corrupt? && (TreeFolder(settings).None? || !Exists(fs, TreeFolder(settings).value)) ==>
        ok && tree == old(tree)
      ensures !settings.Corrupt? && TreeFolder(settings).Some? && Exists(fs, TreeFolder(settings).value) ==>
        var t := TreeUtils.TreeSpec(fs, TreeFolder(settings).value);
        (ok <==> t.Some?) && tree == (if t.Some? then t else old(tree))
    {
      if settings.Corrupt? {
        return false;
      }
      var folder := TreeFolder(settings);
      if folder.None? || !Exists(fs, folder.value) {
        return true;
      }
      var t := TreeUtils.GenerateFileTree(fs, folder.value);
      if t.None? {
        return false;
      }
      tree := t;
      ok := true;
    }
  }
}
