/** The size helpers of the first revision: the human-readable size, the file
    count of a directory and the total size of a selection. The same
    `format_size` and `get_total_size` loops appear again, unchanged, in the
    backup handlers of both revisions and in the second revision's utilities;
    the backup and restore models use these definitions for all of them. */
module Utils {
  import opened Text
  import opened Paths
  import opened FileTree

  const Units: seq<string> := ["B", "KB", "MB", "GB", "TB", "PB"]

  function Pow1024(k: nat): (r: nat)
    ensures r >= 1
  {
    if k == 0 then 1 else 1024 * Pow1024(k - 1)
  }

  /** The first size too large for unit `k`. */
  function Threshold(k: nat): nat {
    Pow1024(k + 1)
  }

  /** The unit `format_size` settles on: the least `k` below 5 with
      `size / 1024^k < 1024`, and 5 ("PB") when there is none. */
  function UnitIndex(size: nat): (k: nat)
    ensures k <= 5
    ensures k < 5 ==> size < Threshold(k)
    ensures forall j :: 0 <= j < k ==> Threshold(j) <= size
  {
    UnitFrom(size, 0)
  }

  function UnitFrom(size: nat, k: nat): (r: nat)
    requires k <= 5
    requires forall j :: 0 <= j < k ==> Threshold(j) <= size
    ensures k <= r <= 5
    ensures r < 5 ==> size < Threshold(r)
    ensures forall j :: 0 <= j < r ==> Threshold(j) <= size
    decreases 5 - k
  {
    if k == 5 || size < Threshold(k) then k else UnitFrom(size, k + 1)
  }

  /** Two characterisations of the least unit agree. */
  lemma UnitIndexUnique(size: nat, k: nat)
    requires k <= 5
    requires k < 5 ==> size < Threshold(k)
    requires forall j :: 0 <= j < k ==> Threshold(j) <= size
    ensures UnitIndex(size) == k
  {
  }

  lemma MulLess(a: real, b: real, p: real)
    requires p > 0.0 && a < b
    ensures a * p < b * p
  {
  }

  /** A real quotient stays below 1024 exactly when the dividend is below
      1024 times the divisor. */
  lemma QuotientBelow(x: nat, p: nat)
    requires p >= 1
    ensures x as real / p as real < 1024.0 <==> x < 1024 * p
  {
    var q, pr, n := x as real / p as real, p as real, 1024 * p;
    assert q * pr == x as real;
    assert n as real == 1024.0 * pr;
    if q < 1024.0 {
      MulLess(q, 1024.0, pr);
      assert x as real < n as real;
    } else {
      if 1024.0 < q {
        MulLess(1024.0, q, pr);
      }
      assert n as real <= x as real;
    }
  }

  /** One more division by 1024.0 moves to the next power. */
  lemma DivideAgain(x: nat, k: nat)
    ensures x as real / Pow1024(k) as real / 1024.0 == x as real / Pow1024(k + 1) as real
  {
    var pr := Pow1024(k) as real;
    assert Pow1024(k + 1) as real == 1024.0 * pr;
    var q := x as real / pr;
    assert q * pr == x as real;
    assert (q / 1024.0) * (1024.0 * pr) == x as real;
  }

  /** `format_size(size)`: the magnitude shown (before its two-decimal
      rendering) and the unit. Dividing by 1024.0 is exact for sizes that
      fit a float, so the magnitude is `size / 1024^k` as a real. */
  method FormatSize(size: nat) returns (magnitude: real, unit: string)
    ensures unit == Units[UnitIndex(size)]
    ensures magnitude == size as real / Pow1024(UnitIndex(size)) as real
    ensures unit == "B" <==> size < 1024
    ensures unit == "B" ==> magnitude == size as real
    ensures unit != "PB" ==> magnitude < 1024.0
    ensures unit != "B" ==> magnitude >= 1.0
  {
    magnitude := size as real;
    var i := 0;
    while i < 5
      invariant 0 <= i <= 5
      invariant magnitude == size as real / Pow1024(i) as real
      invariant forall j :: 0 <= j < i ==> Threshold(j) <= size
    {
      QuotientBelow(size, Pow1024(i));
      if magnitude < 1024.0 {
        UnitIndexUnique(size, i);
        unit := Units[i];
        if i > 0 {
          MagnitudeAtLeastOne(size, i);
        }
        return;
      }
      DivideAgain(size, i);
      magnitude := magnitude / 1024.0;
      i := i + 1;
    }
    UnitIndexUnique(size, 5);
    MagnitudeAtLeastOne(size, 5);
    unit := "PB";
  }

  lemma MagnitudeAtLeastOne(size: nat, k: nat)
    requires 1 <= k && Pow1024(k) <= size
    ensures size as real / Pow1024(k) as real >= 1.0
  {
    AtLeastOne(size as real, Pow1024(k) as real);
  }

  lemma AtLeastOne(x: real, p: real)
    requires 0.0 < p <= x
    ensures x / p >= 1.0
  {
    var q := x / p;
    assert q * p == x;
    if q < 1.0 {
      MulLess(q, 1.0, p);
    }
  }

  // ---------------------------------------------------------------------------

  /** What `count_files_in_directory` counts: the files of the kept walk steps;
      `os.walk` of anything but a directory yields nothing. */
  function FileCount(fs: Fs, directory: Path, includeSubdirs: bool): nat {
    if IsDir(fs, directory)
    then |WalkEntries(directory, Walk(directory, fs[directory].children), includeSubdirs)|
    else 0
  }

  /** `count_files_in_directory(directory, include_subdirs)`. */
  method CountFilesInDirectory(fs: Fs, directory: Path, includeSubdirs: bool) returns (count: nat)
    ensures count == FileCount(fs, directory, includeSubdirs)
  {
    count := 0;
    if !IsDir(fs, directory) {
      return;
    }
    var steps := Walk(directory, fs[directory].children);
    var i := 0;
    while i < |steps|
      invariant 0 <= i <= |steps|
      invariant count + |WalkEntries(directory, steps[i..], includeSubdirs)| == |WalkEntries(directory, steps, includeSubdirs)|
    {
      assert steps[i..][1..] == steps[i + 1..];
      if includeSubdirs || steps[i].root == directory {
        count := count + |steps[i].files|;
      }
      i := i + 1;
    }
  }

  /** Counting only the top level never counts more than counting everything. */
  lemma CountMonotone(fs: Fs, directory: Path)
    ensures FileCount(fs, directory, false) <= FileCount(fs, directory, true)
  {
    if IsDir(fs, directory) {
      WalkEntriesShrink(directory, Walk(directory, fs[directory].children));
    }
  }

  /** With subdirectories the count is the number of files anywhere in the
      tree below the directory, each counted once. */
  lemma CountAll(fs: Fs, directory: Path)
    requires IsDir(fs, directory)
    ensures var cs := fs[directory].children;
      FileCount(fs, directory, true) == |AllEntries(Walk(directory, cs))| == |TreeFiles(directory, cs)|
  {
    var cs := fs[directory].children;
    AllStepsKept(directory, Walk(directory, cs));
    WalkVisitsTree(directory, cs);
  }

  /** Without subdirectories the count is the number of files directly inside
      the directory. */
  lemma CountTopLevel(fs: Fs, directory: Path)
    requires IsDir(fs, directory) && directory != [] && NamesOk(fs[directory].children)
    ensures FileCount(fs, directory, false) == |FilesOf(fs[directory].children)|
  {
    TopLevelOnly(fs, directory);
  }

  // ---------------------------------------------------------------------------

  /** `sum(getsize(os.path.join(root, file)) for file in files)`: `None` where a
      `getsize` raises. */
  method SumFileSizes(root: Path, files: seq<Blob>) returns (r: Option<nat>)
    ensures r == BlobsTotal(files)
  {
    var s: nat := 0;
    var j := 0;
    SliceAll(files);
    while j < |files|
      invariant 0 <= j <= |files|
      invariant BlobsTotal(files) == Shift(s, BlobsTotal(files[j..]))
    {
      SliceTail(files, j);
      if files[j].access == Dangling {
        return None;
      }
      ShiftShift(s, |files[j].data|, BlobsTotal(files[j + 1..]));
      s := s + |files[j].data|;
      j := j + 1;
    }
    r := Some(s);
  }

  /** The sizes of some files of one directory, `None` at a dangling link. */
  function BlobsTotal(files: seq<Blob>): Option<nat> {
    if files == [] then Some(0)
    else if files[0].access == Dangling then None
    else Shift(|files[0].data|, BlobsTotal(files[1..]))
  }

  /** Sizing the files of a directory does not depend on where it is. */
  lemma {:induction false} BlobsTotalIsTotal(root: Path, files: seq<Blob>)
    ensures Total(FileEntries(root, files)) == BlobsTotal(files)
    decreases |files|
  {
    if files == [] {
      assert Statable([]);
    } else {
      BlobsTotalIsTotal(root, files[1..]);
      TotalCons(Entry(Join(root, files[0].name), files[0]), FileEntries(root, files[1..]));
    }
  }

  /** The `os.walk` part of `get_total_size` for one selected directory: the
      sizes of the files of every kept walk step. */
  method WalkTotal(item: Path, steps: seq<Step>, includeSubdirs: bool) returns (r: Option<nat>)
    ensures r == StepsTotal(item, steps, includeSubdirs)
  {
    var total: nat := 0;
    var k := 0;
    SliceAll(steps);
    while k < |steps|
      invariant 0 <= k <= |steps|
      invariant StepsTotal(item, steps, includeSubdirs) == Shift(total, StepsTotal(item, steps[k..], includeSubdirs))
    {
      StepsTotalAt(item, steps, k, includeSubdirs);
      if includeSubdirs || steps[k].root == item {
        var s := SumFileSizes(steps[k].root, steps[k].files);
        if s.None? {
          return None;
        }
        ShiftShift(total, s.value, StepsTotal(item, steps[k + 1..], includeSubdirs));
        total := total + s.value;
      }
      k := k + 1;
    }
    r := Some(total);
  }

  /** The sizes of the files of the kept walk steps, `None` at a dangling link. */
  function StepsTotal(item: Path, steps: seq<Step>, includeSubdirs: bool): Option<nat> {
    if steps == [] then Some(0)
    else if !Kept(item, steps[0], includeSubdirs) then StepsTotal(item, steps[1..], includeSubdirs)
    else match BlobsTotal(steps[0].files)
      case None => None
      case Some(n) => Shift(n, StepsTotal(item, steps[1..], includeSubdirs))
  }

  /** The total from step `k` on starts with what step `k` adds. */
  lemma StepsTotalAt(item: Path, steps: seq<Step>, k: nat, includeSubdirs: bool)
    requires k < |steps|
    ensures StepsTotal(item, steps[k..], includeSubdirs) ==
      if !Kept(item, steps[k], includeSubdirs) then StepsTotal(item, steps[k + 1..], includeSubdirs)
      else match BlobsTotal(steps[k].files)
        case None => None
        case Some(n) => Shift(n, StepsTotal(item, steps[k + 1..], includeSubdirs))
  {
    assert steps[k..][0] == steps[k] && steps[k..][1..] == steps[k + 1..];
  }

  lemma {:induction false} StepsTotalIsTotal(item: Path, steps: seq<Step>, includeSubdirs: bool)
    ensures Total(WalkEntries(item, steps, includeSubdirs)) == StepsTotal(item, steps, includeSubdirs)
    decreases |steps|
  {
    if steps == [] {
      assert Statable([]);
    } else {
      var here := if Kept(item, steps[0], includeSubdirs) then FileEntries(steps[0].root, steps[0].files) else [];
      StepsTotalIsTotal(item, steps[1..], includeSubdirs);
      TotalAppend(here, WalkEntries(item, steps[1..], includeSubdirs));
      BlobsTotalIsTotal(steps[0].root, steps[0].files);
      assert Statable([]);
    }
  }

  /** What one selected path adds to the total. */
  lemma ItemTotal(fs: Fs, path: Path, includeSubdirs: bool)
    ensures Total(ItemEntries(fs, path, includeSubdirs)) ==
      if IsDir(fs, path) then Total(WalkEntries(path, Walk(path, fs[path].children), includeSubdirs))
      else if IsFile(fs, path) then Some(|fs[path].blob.data|)
      else Some(0)
  {
    if !IsDir(fs, path) && IsFile(fs, path) {
      TotalCons(Entry(path, fs[path].blob), []);
      assert [Entry(path, fs[path].blob)] + [] == [Entry(path, fs[path].blob)];
    }
  }

  /** The body of the loop of `get_total_size` for one selected path. */
  method ItemSize(fs: Fs, path: Path, includeSubdirs: bool) returns (contribution: Option<nat>)
    ensures contribution == Total(ItemEntries(fs, path, includeSubdirs))
  {
    if IsDir(fs, path) {
      contribution := WalkTotal(path, Walk(path, fs[path].children), includeSubdirs);
      StepsTotalIsTotal(path, Walk(path, fs[path].children), includeSubdirs);
    } else if IsFile(fs, path) {
      contribution := Some(|fs[path].blob.data|);
    } else {
      contribution := Some(0);
    }
    ItemTotal(fs, path, includeSubdirs);
  }

  /** Contributions added up one after the other, as the loop of
      `get_total_size` does; `None` from the first that raises. */
  function AddUp(parts: seq<Option<nat>>): Option<nat> {
    if parts == [] then Some(0)
    else match parts[0]
      case None => None
      case Some(n) => Shift(n, AddUp(parts[1..]))
  }

  /** Adding up the contribution of each path gives the total of the whole
      traversal. */
  lemma {:induction false} AddUpTotal(fs: Fs, paths: seq<Path>, includeSubdirs: bool, parts: seq<Option<nat>>)
    requires |parts| == |paths|
    requires forall j :: 0 <= j < |paths| ==> parts[j] == Total(ItemEntries(fs, paths[j], includeSubdirs))
    ensures AddUp(parts) == TotalSize(fs, paths, includeSubdirs)
  {
    if paths == [] {
      assert Statable([]);
    } else {
      var tail, rest := paths[1..], parts[1..];
      assert forall j :: 0 <= j < |tail| ==> tail[j] == paths[j + 1] && rest[j] == parts[j + 1];
      AddUpTotal(fs, tail, includeSubdirs, rest);
      TotalAppend(ItemEntries(fs, paths[0], includeSubdirs), Selected(fs, tail, includeSubdirs));
    }
  }

  /** The contribution of each selected path, in order. */
  ghost function Parts(fs: Fs, paths: seq<Path>, includeSubdirs: bool): (r: seq<Option<nat>>)
    ensures |r| == |paths|
  {
    seq(|paths|, j requires 0 <= j < |paths| => Total(ItemEntries(fs, paths[j], includeSubdirs)))
  }

  lemma PartsAt(fs: Fs, paths: seq<Path>, includeSubdirs: bool, i: nat)
    requires i < |paths|
    ensures Parts(fs, paths, includeSubdirs)[i] == Total(ItemEntries(fs, paths[i], includeSubdirs))
  {
  }

  lemma PartsTotal(fs: Fs, paths: seq<Path>, includeSubdirs: bool)
    ensures AddUp(Parts(fs, paths, includeSubdirs)) == TotalSize(fs, paths, includeSubdirs)
  {
    AddUpTotal(fs, paths, includeSubdirs, Parts(fs, paths, includeSubdirs));
  }

  /** The sum from position `i` on starts with the contribution at `i`. */
  lemma AddUpAt(parts: seq<Option<nat>>, i: nat)
    requires i < |parts|
    ensures AddUp(parts[i..]) ==
      match parts[i]
      case None => None
      case Some(n) => Shift(n, AddUp(parts[i + 1..]))
  {
    assert parts[i..][0] == parts[i] && parts[i..][1..] == parts[i + 1..];
  }

  /** `get_total_size(paths, include_subdirs)`: `None` where a `getsize`
      raises. */
  method GetTotalSize(fs: Fs, paths: seq<Path>, includeSubdirs: bool) returns (r: Option<nat>)
    ensures r == TotalSize(fs, paths, includeSubdirs)
  {
    ghost var parts := Parts(fs, paths, includeSubdirs);
    PartsTotal(fs, paths, includeSubdirs);
    assert parts[0..] == parts;
    var total: nat := 0;
    var i := 0;
    while i < |paths|
      invariant 0 <= i <= |paths|
      invariant AddUp(parts) == Shift(total, AddUp(parts[i..]))
    {
      var contribution := ItemSize(fs, paths[i], includeSubdirs);
      PartsAt(fs, paths, includeSubdirs, i);
      AddUpAt(parts, i);
      if contribution.None? {
        return None;
      }
      ShiftShift(total, contribution.value, AddUp(parts[i + 1..]));
      total := total + contribution.value;
      i := i + 1;
    }
    assert parts[i..] == [];
    r := Some(total);
  }

  /** The total of a selection adds up the contributions of its paths, so a
      path listed twice is counted twice. */
  lemma TotalSizeDuplicates(fs: Fs, paths: seq<Path>, p: Path, includeSubdirs: bool)
    requires TotalSize(fs, [p], includeSubdirs).Some?
    requires TotalSize(fs, paths, includeSubdirs).Some?
    ensures TotalSize(fs, paths + [p, p], includeSubdirs) ==
      Some(TotalSize(fs, paths, includeSubdirs).value + 2 * TotalSize(fs, [p], includeSubdirs).value)
  {
    TotalSizeAppend(fs, paths, [p, p], includeSubdirs);
    assert [p, p] == [p] + [p];
    TotalSizeAppend(fs, [p], [p], includeSubdirs);
  }

  /** A path that is neither a directory nor a file contributes nothing. */
  lemma TotalSizeIgnoresMissing(fs: Fs, a: seq<Path>, x: Path, b: seq<Path>, includeSubdirs: bool)
    requires !IsDir(fs, x) && !IsFile(fs, x)
    ensures TotalSize(fs, a + [x] + b, includeSubdirs) == TotalSize(fs, a + b, includeSubdirs)
  {
    NonexistentItemIgnored(fs, a, x, b, includeSubdirs);
  }
}
