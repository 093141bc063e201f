/** The filesystem the engine reads, as a value: a tree whose walk yields
    `(root, files)` pairs in top-down order, exactly as `os.walk` does, and the
    selection traversal shared by every size estimate and every writer:
    walk each selected item, and when subdirectories are excluded keep only the
    walk root that equals the selected directory. */
module FileTree {
  import opened Text
  import opened Paths

  type Byte = b: int | 0 <= b < 256

  /** How a directory entry that is not a directory behaves:
      `Readable` opens and stats; `Unreadable` stats but `open` raises
      (permission denied); `Dangling` is a broken symbolic link, which
      `os.walk` lists among the files but `isfile`, `getsize` and `open` reject. */
  datatype Access = Readable | Unreadable | Dangling

  datatype Blob = Blob(name: string, data: seq<Byte>, access: Access)

  /** A directory lists its children in the order `os.walk` reports them. */
  datatype Node = File(blob: Blob) | Dir(name: string, children: seq<Node>)

  /** The filesystem as seen from the selection: the node each path names.
      A path outside the map does not exist. */
  type Fs = map<Path, Node>

  /** One triple of `os.walk`, without the directory names (no caller uses them). */
  datatype Step = Step(root: Path, files: seq<Blob>)

  /** A file the traversal visits: the joined walk path and the file itself. */
  datatype Entry = Entry(path: Path, blob: Blob)

  predicate IsDir(fs: Fs, p: Path) {
    p in fs && fs[p].Dir?
  }

  /** `os.path.isfile` follows links, so a dangling link is not a file. */
  predicate IsFile(fs: Fs, p: Path) {
    p in fs && fs[p].File? && fs[p].blob.access != Dangling
  }

  /** `os.path.exists`. */
  predicate Exists(fs: Fs, p: Path) {
    IsDir(fs, p) || IsFile(fs, p)
  }

  // ---------------------------------------------------------------------------
  // os.walk

  /** The non-directory children, in order. */
  function FilesOf(cs: seq<Node>): (r: seq<Blob>)
    ensures |r| <= |cs|
  {
    if cs == [] then []
    else (if cs[0].File? then [cs[0].blob] else []) + FilesOf(cs[1..])
  }

  /** `os.walk(root)` of a directory with children `cs`, top-down: the root
      first, then the walk of each subdirectory in order. */
  function Walk(root: Path, cs: seq<Node>): (r: seq<Step>)
    ensures |r| >= 1 && r[0] == Step(root, FilesOf(cs))
    decreases cs, 1
  {
    [Step(root, FilesOf(cs))] + WalkSubdirs(root, cs)
  }

  function WalkSubdirs(root: Path, cs: seq<Node>): seq<Step>
    decreases cs, 0
  {
    if cs == [] then []
    else
      assert cs[0] in cs;
      (match cs[0]
       case Dir(name, sub) => Walk(Join(root, name), sub)
       case File(_) => [])
      + WalkSubdirs(root, cs[1..])
  }

  /** A name a real directory can hold: non-empty and without a separator. */
  predicate NameOk(n: string) {
    n != [] && '/' !in n
  }

  function NodeName(n: Node): string {
    match n
    case File(b) => b.name
    case Dir(name, _) => name
  }

  /** Every name in the tree is one a real directory can hold. */
  predicate NamesOk(cs: seq<Node>)
    decreases cs
  {
    forall i :: 0 <= i < |cs| ==>
      NameOk(NodeName(cs[i])) && (cs[i].Dir? ==> NamesOk(cs[i].children))
  }

  /** The names of `cs`, in order. */
  function NodeNames(cs: seq<Node>): seq<string> {
    seq(|cs|, i requires 0 <= i < |cs| => NodeName(cs[i]))
  }

  /** Names as a real directory holds them: each one usable, no two siblings
      sharing one, and the same all the way down. */
  predicate RealNames(cs: seq<Node>)
    decreases cs
  {
    forall i :: 0 <= i < |cs| ==>
      NameOk(NodeName(cs[i])) && NodeName(cs[i]) !in NodeNames(cs[i + 1..])
      && (cs[i].Dir? ==> RealNames(cs[i].children))
  }

  /** `RealNames` at the head and along the tail of a list of siblings. */
  lemma RealNamesTail(cs: seq<Node>)
    requires cs != [] && RealNames(cs)
    ensures NameOk(NodeName(cs[0])) && NodeName(cs[0]) !in NodeNames(cs[1..])
    ensures cs[0].Dir? ==> RealNames(cs[0].children)
    ensures RealNames(cs[1..])
    ensures forall x :: x in NodeNames(cs[1..]) ==> x in NodeNames(cs)
  {
    var tail := cs[1..];
    forall i | 0 <= i < |tail|
      ensures NameOk(NodeName(tail[i])) && NodeName(tail[i]) !in NodeNames(tail[i + 1..])
      ensures tail[i].Dir? ==> RealNames(tail[i].children)
    {
      assert tail[i] == cs[i + 1] && tail[i + 1..] == cs[i + 2..];
    }
    forall x | x in NodeNames(tail) ensures x in NodeNames(cs) {
      var m :| 0 <= m < |tail| && NodeNames(tail)[m] == x;
      assert NodeNames(cs)[m + 1] == x;
    }
  }

  /** Under real names, every walk root below the top is strictly longer than
      the top: a subdirectory's walk never revisits its parent's path. */
  lemma {:induction false} SubdirRootsLonger(root: Path, cs: seq<Node>)
    requires root != [] && NamesOk(cs)
    ensures forall k :: 0 <= k < |WalkSubdirs(root, cs)| ==> |WalkSubdirs(root, cs)[k].root| > |root|
    decreases cs
  {
    if cs != [] {
      assert cs[0] in cs;
      SubdirRootsLonger(root, cs[1..]);
      assert NamesOk(cs[1..]) by {
        forall i | 0 <= i < |cs[1..]| ensures NameOk(NodeName(cs[1..][i])) && (cs[1..][i].Dir? ==> NamesOk(cs[1..][i].children)) {
          assert cs[1..][i] == cs[i + 1];
        }
      }
      var tail := WalkSubdirs(root, cs[1..]);
      match cs[0]
      case Dir(name, sub) =>
        var r := Join(root, name);
        assert NameOk(NodeName(cs[0])) && NamesOk(sub);
        assert |r| > |root|;
        SubdirRootsLonger(r, sub);
        var w := Walk(r, sub);
        assert w == [Step(r, FilesOf(sub))] + WalkSubdirs(r, sub);
        assert forall k :: 0 <= k < |w| ==> |w[k].root| > |root| by {
          forall k | 0 <= k < |w| ensures |w[k].root| > |root| {
            if k > 0 {
              assert w[k] == WalkSubdirs(r, sub)[k - 1];
            }
          }
        }
        assert WalkSubdirs(root, cs) == w + tail;
        forall k | 0 <= k < |w + tail| ensures |(w + tail)[k].root| > |root| {
          if k >= |w| {
            assert (w + tail)[k] == tail[k - |w|];
          }
        }
      case File(_) =>
        assert WalkSubdirs(root, cs) == tail;
    }
  }

  // ---------------------------------------------------------------------------
  // The selection traversal

  /** The files of one walk step as joined paths (`os.path.join(root, file)`). */
  function FileEntries(root: Path, files: seq<Blob>): (r: seq<Entry>)
    ensures |r| == |files|
  {
    if files == [] then []
    else [Entry(Join(root, files[0].name), files[0])] + FileEntries(root, files[1..])
  }

  /** The skip rule: `if not include_subdirs and root != item: continue`. */
  predicate Kept(item: Path, st: Step, includeSubdirs: bool) {
    includeSubdirs || st.root == item
  }

  /** The files visited in the walk steps of one selected directory. */
  function WalkEntries(item: Path, steps: seq<Step>, includeSubdirs: bool): seq<Entry> {
    if steps == [] then []
    else
      (if Kept(item, steps[0], includeSubdirs) then FileEntries(steps[0].root, steps[0].files) else [])
      + WalkEntries(item, steps[1..], includeSubdirs)
  }

  /** The files one selected item contributes: a directory is walked, a file
      stands for itself, anything else contributes nothing. */
  function ItemEntries(fs: Fs, item: Path, includeSubdirs: bool): seq<Entry> {
    if IsDir(fs, item) then WalkEntries(item, Walk(item, fs[item].children), includeSubdirs)
    else if IsFile(fs, item) then [Entry(item, fs[item].blob)]
    else []
  }

  /** Every file the traversal visits, in visiting order. */
  function Selected(fs: Fs, items: seq<Path>, includeSubdirs: bool): seq<Entry> {
    if items == [] then []
    else ItemEntries(fs, items[0], includeSubdirs) + Selected(fs, items[1..], includeSubdirs)
  }

  /** Unfolding the traversals at a position, for loops that walk them. */
  lemma FileEntriesAt(root: Path, files: seq<Blob>, j: nat)
    requires j < |files|
    ensures FileEntries(root, files[j..]) == [Entry(Join(root, files[j].name), files[j])] + FileEntries(root, files[j + 1..])
  {
    assert files[j..][1..] == files[j + 1..];
  }

  lemma WalkEntriesAt(item: Path, steps: seq<Step>, k: nat, includeSubdirs: bool)
    requires k < |steps|
    ensures WalkEntries(item, steps[k..], includeSubdirs) ==
      (if Kept(item, steps[k], includeSubdirs) then FileEntries(steps[k].root, steps[k].files) else [])
      + WalkEntries(item, steps[k + 1..], includeSubdirs)
  {
    assert steps[k..][1..] == steps[k + 1..];
  }

  lemma SelectedAt(fs: Fs, items: seq<Path>, i: nat, includeSubdirs: bool)
    requires i < |items|
    ensures Selected(fs, items[i..], includeSubdirs) ==
      ItemEntries(fs, items[i], includeSubdirs) + Selected(fs, items[i + 1..], includeSubdirs)
  {
    assert items[i..][1..] == items[i + 1..];
  }

  /** The traversal of a concatenated selection is the concatenation of traversals. */
  lemma {:induction false} SelectedAppend(fs: Fs, a: seq<Path>, b: seq<Path>, includeSubdirs: bool)
    ensures Selected(fs, a + b, includeSubdirs) == Selected(fs, a, includeSubdirs) + Selected(fs, b, includeSubdirs)
  {
    if a == [] {
      assert a + b == b;
    } else {
      var e := ItemEntries(fs, a[0], includeSubdirs);
      SelectedAppend(fs, a[1..], b, includeSubdirs);
      assert (a + b)[0] == a[0];
      assert (a + b)[1..] == a[1..] + b;
      assert Selected(fs, a + b, includeSubdirs) == e + Selected(fs, a[1..] + b, includeSubdirs);
      AppendAssoc(e, Selected(fs, a[1..], includeSubdirs), Selected(fs, b, includeSubdirs));
    }
  }

  /** A selected path that is neither a directory nor a file changes nothing:
      removing it from the selection leaves the traversal as it was. */
  lemma NonexistentItemIgnored(fs: Fs, a: seq<Path>, x: Path, b: seq<Path>, includeSubdirs: bool)
    requires !IsDir(fs, x) && !IsFile(fs, x)
    ensures Selected(fs, a + [x] + b, includeSubdirs) == Selected(fs, a + b, includeSubdirs)
  {
    SelectedAppend(fs, a + [x], b, includeSubdirs);
    SelectedAppend(fs, a, [x], includeSubdirs);
    SelectedAppend(fs, a, b, includeSubdirs);
    assert Selected(fs, [x], includeSubdirs) == [];
  }

  /** A selected directory contributes nothing from the walk steps whose root
      differs from it when subdirectories are excluded. */
  lemma {:induction false} SkippedSteps(item: Path, steps: seq<Step>)
    requires forall k :: 0 <= k < |steps| ==> steps[k].root != item
    ensures WalkEntries(item, steps, false) == []
  {
    if steps != [] {
      SkippedSteps(item, steps[1..]);
    }
  }

  /** Without subdirectories, a selected directory with real names contributes
      exactly the files directly inside it, joined onto its own path. */
  lemma TopLevelOnly(fs: Fs, item: Path)
    requires IsDir(fs, item) && item != [] && NamesOk(fs[item].children)
    ensures ItemEntries(fs, item, false) == FileEntries(item, FilesOf(fs[item].children))
  {
    var cs := fs[item].children;
    var steps := Walk(item, cs);
    SubdirRootsLonger(item, cs);
    assert steps[1..] == WalkSubdirs(item, cs);
    SkippedSteps(item, steps[1..]);
    assert FileEntries(item, FilesOf(cs)) + [] == FileEntries(item, FilesOf(cs));
  }

  /** The files of one walk step are visited in order, each at its path
      joined onto the step's root. */
  lemma {:induction false} FileEntriesJoined(root: Path, files: seq<Blob>)
    ensures forall j :: 0 <= j < |files| ==> FileEntries(root, files)[j] == Entry(Join(root, files[j].name), files[j])
  {
    if files != [] {
      var r, rest := FileEntries(root, files), FileEntries(root, files[1..]);
      FileEntriesJoined(root, files[1..]);
      assert r == [Entry(Join(root, files[0].name), files[0])] + rest;
      forall j | 1 <= j < |files| ensures r[j] == Entry(Join(root, files[j].name), files[j]) {
        assert r[j] == rest[j - 1] && files[1..][j - 1] == files[j];
      }
    }
  }

  /** The files of every walk step, in walk order, at their joined paths. */
  function AllEntries(steps: seq<Step>): seq<Entry> {
    if steps == [] then [] else FileEntries(steps[0].root, steps[0].files) + AllEntries(steps[1..])
  }

  lemma {:induction false} AllEntriesAppend(a: seq<Step>, b: seq<Step>)
    ensures AllEntries(a + b) == AllEntries(a) + AllEntries(b)
  {
    if a == [] {
      assert a + b == b;
    } else {
      AllEntriesAppend(a[1..], b);
      assert (a + b)[0] == a[0];
      assert (a + b)[1..] == a[1..] + b;
      AppendAssoc(FileEntries(a[0].root, a[0].files), AllEntries(a[1..]), AllEntries(b));
    }
  }

  /** With subdirectories the skip rule keeps every step, so a selected
      directory contributes the files of every step of its walk. */
  lemma {:induction false} AllStepsKept(item: Path, steps: seq<Step>)
    ensures WalkEntries(item, steps, true) == AllEntries(steps)
  {
    if steps != [] {
      AllStepsKept(item, steps[1..]);
    }
  }

  /** Every file of a directory tree, each at its path joined onto `root`, as
      many times as it occurs: a definition by the shape of the tree,
      independent of the walk order. */
  function TreeFiles(root: Path, cs: seq<Node>): multiset<Entry>
    decreases cs
  {
    if cs == [] then multiset{}
    else
      assert cs[0] in cs;
      (match cs[0]
       case File(b) => multiset{Entry(Join(root, b.name), b)}
       case Dir(name, sub) => TreeFiles(Join(root, name), sub))
      + TreeFiles(root, cs[1..])
  }

  /** `os.walk` visits every file of the tree exactly once, at the path
      joined from the walked directory through its subdirectories, and
      nothing else. */
  lemma {:induction false} WalkVisitsTree(root: Path, cs: seq<Node>)
    ensures multiset(AllEntries(Walk(root, cs))) == TreeFiles(root, cs)
    decreases cs, 1
  {
    var top := Step(root, FilesOf(cs));
    AllEntriesAppend([top], WalkSubdirs(root, cs));
    assert AllEntries([top]) == FileEntries(root, FilesOf(cs)) + AllEntries([]);
    SubdirsVisitTree(root, cs);
  }

  /** The files directly in `cs` and the walks of its subdirectories together
      visit the whole tree. */
  lemma {:induction false} SubdirsVisitTree(root: Path, cs: seq<Node>)
    ensures multiset(FileEntries(root, FilesOf(cs))) + multiset(AllEntries(WalkSubdirs(root, cs))) == TreeFiles(root, cs)
    decreases cs, 0
  {
    if cs != [] {
      assert cs[0] in cs;
      var here, rest := FileEntries(root, FilesOf(cs[1..])), AllEntries(WalkSubdirs(root, cs[1..]));
      SubdirsVisitTree(root, cs[1..]);
      if cs[0].File? {
        FileFirst(root, cs);
        MultisetCons(Entry(Join(root, cs[0].blob.name), cs[0].blob), here, rest);
      } else {
        DirFirst(root, cs);
        var sub := Join(root, cs[0].name);
        WalkVisitsTree(sub, cs[0].children);
        MultisetMiddle(here, AllEntries(Walk(sub, cs[0].children)), rest);
      }
    }
  }

  lemma MultisetCons<T>(x: T, a: seq<T>, b: seq<T>)
    ensures multiset([x] + a) + multiset(b) == multiset{x} + (multiset(a) + multiset(b))
  {
  }

  lemma MultisetMiddle<T>(a: seq<T>, m: seq<T>, b: seq<T>)
    ensures multiset(a) + multiset(m + b) == multiset(m) + (multiset(a) + multiset(b))
  {
  }

  /** Unfolding the walk and the tree at a leading file. */
  lemma FileFirst(root: Path, cs: seq<Node>)
    requires cs != [] && cs[0].File?
    ensures var e := Entry(Join(root, cs[0].blob.name), cs[0].blob);
      FileEntries(root, FilesOf(cs)) == [e] + FileEntries(root, FilesOf(cs[1..])) &&
      WalkSubdirs(root, cs) == WalkSubdirs(root, cs[1..]) &&
      TreeFiles(root, cs) == multiset{e} + TreeFiles(root, cs[1..])
  {
    var b, later := cs[0].blob, FilesOf(cs[1..]);
    assert FilesOf(cs) == [b] + later;
    assert ([b] + later)[0] == b && ([b] + later)[1..] == later;
    assert WalkSubdirs(root, cs) == [] + WalkSubdirs(root, cs[1..]);
  }

  /** Unfolding the walk and the tree at a leading subdirectory. */
  lemma DirFirst(root: Path, cs: seq<Node>)
    requires cs != [] && cs[0].Dir?
    ensures var sub := Join(root, cs[0].name);
      FilesOf(cs) == FilesOf(cs[1..]) &&
      AllEntries(WalkSubdirs(root, cs)) ==
        AllEntries(Walk(sub, cs[0].children)) + AllEntries(WalkSubdirs(root, cs[1..])) &&
      TreeFiles(root, cs) == TreeFiles(sub, cs[0].children) + TreeFiles(root, cs[1..])
  {
    var sub := Join(root, cs[0].name);
    assert FilesOf(cs) == [] + FilesOf(cs[1..]);
    assert WalkSubdirs(root, cs) == Walk(sub, cs[0].children) + WalkSubdirs(root, cs[1..]);
    AllEntriesAppend(Walk(sub, cs[0].children), WalkSubdirs(root, cs[1..]));
  }

  // ---------------------------------------------------------------------------
  // Sizes

  /** `os.path.getsize` of a file that can be stat'ed. */
  function Size(e: Entry): nat {
    |e.blob.data|
  }

  function SumSizes(es: seq<Entry>): nat {
    if es == [] then 0 else Size(es[0]) + SumSizes(es[1..])
  }

  lemma {:induction false} SumSizesAppend(a: seq<Entry>, b: seq<Entry>)
    ensures SumSizes(a + b) == SumSizes(a) + SumSizes(b)
  {
    if a == [] {
      assert a + b == b;
    } else {
      SumSizesAppend(a[1..], b);
      assert (a + b)[0] == a[0];
      assert (a + b)[1..] == a[1..] + b;
    }
  }

  /** No visited file is a dangling link, so `getsize` succeeds on each. */
  predicate Statable(es: seq<Entry>) {
    forall i :: 0 <= i < |es| ==> es[i].blob.access != Dangling
  }

  /** The summed size of some visited files, or `None` when one of them is a
      dangling link on which `getsize` raises. */
  function Total(es: seq<Entry>): Option<nat> {
    if Statable(es) then Some(SumSizes(es)) else None
  }

  /** A running sum `n` added to the total of what is left. */
  function Shift(n: nat, rest: Option<nat>): Option<nat> {
    match rest
    case None => None
    case Some(v) => Some(n + v)
  }

  lemma ShiftShift(a: nat, b: nat, rest: Option<nat>)
    ensures Shift(a, Shift(b, rest)) == Shift(a + b, rest)
  {
  }

  /** Peeling one file off the front of the files still to be sized. */
  lemma TotalCons(e: Entry, t: seq<Entry>)
    ensures Total([e] + t) == if e.blob.access == Dangling then None else Shift(Size(e), Total(t))
  {
    assert ([e] + t)[0] == e;
    assert ([e] + t)[1..] == t;
    assert forall i :: 0 <= i < |t| ==> ([e] + t)[i + 1] == t[i];
  }

  /** Sizing two runs of files one after the other. */
  lemma TotalAppend(a: seq<Entry>, b: seq<Entry>)
    ensures Total(a + b) == match Total(a) case None => None case Some(n) => Shift(n, Total(b))
  {
    SumSizesAppend(a, b);
    StatableAppend(a, b);
  }

  /** `get_total_size()`: the summed size of every visited file; `None` where
      `getsize` raises on a dangling link met in a walk. */
  function TotalSize(fs: Fs, items: seq<Path>, includeSubdirs: bool): Option<nat> {
    Total(Selected(fs, items, includeSubdirs))
  }

  lemma StatableAppend(a: seq<Entry>, b: seq<Entry>)
    ensures Statable(a + b) <==> Statable(a) && Statable(b)
  {
    assert forall i :: 0 <= i < |a| ==> (a + b)[i] == a[i];
    assert forall i :: 0 <= i < |b| ==> (a + b)[|a| + i] == b[i];
  }

  /** The total of a selection is the sum of the totals of its parts (a path
      listed twice is counted twice), and it fails exactly when a part fails. */
  lemma TotalSizeAppend(fs: Fs, a: seq<Path>, b: seq<Path>, includeSubdirs: bool)
    ensures TotalSize(fs, a + b, includeSubdirs).Some? <==>
      TotalSize(fs, a, includeSubdirs).Some? && TotalSize(fs, b, includeSubdirs).Some?
    ensures TotalSize(fs, a + b, includeSubdirs).Some? ==>
      TotalSize(fs, a + b, includeSubdirs).value ==
      TotalSize(fs, a, includeSubdirs).value + TotalSize(fs, b, includeSubdirs).value
  {
    var ea, eb := Selected(fs, a, includeSubdirs), Selected(fs, b, includeSubdirs);
    SelectedAppend(fs, a, b, includeSubdirs);
    SumSizesAppend(ea, eb);
    StatableAppend(ea, eb);
  }

  // ---------------------------------------------------------------------------
  // Excluding subdirectories only ever removes files

  /** What excluding subdirectories does to one walk: fewer files, a smaller
      total, and no dangling link that the full walk does not also meet. */
  lemma {:induction false} WalkEntriesShrink(item: Path, steps: seq<Step>)
    ensures |WalkEntries(item, steps, false)| <= |WalkEntries(item, steps, true)|
    ensures SumSizes(WalkEntries(item, steps, false)) <= SumSizes(WalkEntries(item, steps, true))
    ensures Statable(WalkEntries(item, steps, true)) ==> Statable(WalkEntries(item, steps, false))
  {
    if steps != [] {
      WalkEntriesShrink(item, steps[1..]);
      var here := FileEntries(steps[0].root, steps[0].files);
      var f, t := WalkEntries(item, steps[1..], false), WalkEntries(item, steps[1..], true);
      var kf := if Kept(item, steps[0], false) then here else [];
      SumSizesAppend(kf, f);
      SumSizesAppend(here, t);
      StatableAppend(kf, f);
      StatableAppend(here, t);
    }
  }

  /** The same, for a whole selection. */
  lemma {:induction false} SelectedShrink(fs: Fs, items: seq<Path>)
    ensures |Selected(fs, items, false)| <= |Selected(fs, items, true)|
    ensures SumSizes(Selected(fs, items, false)) <= SumSizes(Selected(fs, items, true))
    ensures Statable(Selected(fs, items, true)) ==> Statable(Selected(fs, items, false))
  {
    if items != [] {
      SelectedShrink(fs, items[1..]);
      var x := items[0];
      var f, t := ItemEntries(fs, x, false), ItemEntries(fs, x, true);
      var rf, rt := Selected(fs, items[1..], false), Selected(fs, items[1..], true);
      if IsDir(fs, x) {
        WalkEntriesShrink(x, Walk(x, fs[x].children));
      }
      SumSizesAppend(f, rf);
      SumSizesAppend(t, rt);
      StatableAppend(f, rf);
      StatableAppend(t, rt);
    }
  }

  /** `get_total_size(paths, False) <= get_total_size(paths, True)`: whenever the
      recursive total exists, the top-level total exists and is no larger. */
  lemma TotalSizeMonotone(fs: Fs, items: seq<Path>)
    requires TotalSize(fs, items, true).Some?
    ensures TotalSize(fs, items, false).Some?
    ensures TotalSize(fs, items, false).value <= TotalSize(fs, items, true).value
  {
    SelectedShrink(fs, items);
  }
}
