/** The second revision's `generate_file_tree`: the walk of a directory folded
    into nested dictionaries, one level per path component of each walk root,
    with every file a key mapped to `None`. Dictionaries keep insertion order,
    so a dictionary is a list of bindings with distinct keys. */
module TreeUtils {
  import opened Text
  import opened Paths
  import opened FileTree

  /** A dictionary value: `None` (a file) or a nested dictionary (a folder). */
  datatype Value = Leaf | Folder(entries: seq<Binding>)

  datatype Binding = Binding(key: string, value: Value)

  /** The position of key `k`, or the length where there is none. */
  function Find(d: seq<Binding>, k: string): (i: nat)
    ensures i <= |d|
    ensures i < |d| ==> d[i].key == k
    ensures forall j :: 0 <= j < i ==> d[j].key != k
  {
    if d == [] then 0
    else if d[0].key == k then 0
    else 1 + Find(d[1..], k)
  }

  /** `d.get(k)`. */
  function Get(d: seq<Binding>, k: string): Option<Value> {
    var i := Find(d, k);
    if i < |d| then Some(d[i].value) else None
  }

  /** The position of a key is the first one holding it. */
  lemma FindIs(d: seq<Binding>, k: string, i: nat)
    requires i <= |d| && (i < |d| ==> d[i].key == k)
    requires forall j :: 0 <= j < i ==> d[j].key != k
    ensures Find(d, k) == i
  {
  }

  /** `after` holds the keys of `before` at the same positions, and perhaps more
      after them. */
  predicate Extends(before: seq<Binding>, after: seq<Binding>) {
    |before| <= |after| && forall j :: 0 <= j < |before| ==> after[j].key == before[j].key
  }

  lemma ExtendsTrans(a: seq<Binding>, b: seq<Binding>, c: seq<Binding>)
    requires Extends(a, b) && Extends(b, c)
    ensures Extends(a, c)
  {
  }

  /** `d[k] = v`: an existing key keeps its place and takes the new value; a
      new key goes last. Every other key keeps its value. */
  function Put(d: seq<Binding>, k: string, v: Value): (r: seq<Binding>)
    ensures Get(r, k) == Some(v)
    ensures forall k' :: k' != k ==> Get(r, k') == Get(d, k')
    ensures Extends(d, r)
    ensures |r| == if Get(d, k).Some? then |d| else |d| + 1
  {
    var i := Find(d, k);
    var r := if i < |d| then d[i := Binding(k, v)] else d + [Binding(k, v)];
    FindIs(r, k, i);
    forall k' | k' != k ensures Get(r, k') == Get(d, k') {
      var f := Find(d, k');
      if f < |d| {
        FindIs(r, k', f);
      } else {
        FindIs(r, k', |r|);
      }
    }
    r
  }

  /** The names of the files of one walk step. */
  function Names(files: seq<Blob>): (r: seq<string>)
    ensures |r| == |files| && forall i :: 0 <= i < |files| ==> r[i] == files[i].name
  {
    if files == [] then [] else [files[0].name] + Names(files[1..])
  }

  /** `for file in files: folder_tree[file] = None`. */
  function AddFiles(d: seq<Binding>, names: seq<string>): (r: seq<Binding>)
    ensures Extends(d, r)
    ensures forall i :: 0 <= i < |names| ==> Get(r, names[i]) == Some(Leaf)
    ensures forall k :: k !in names ==> Get(r, k) == Get(d, k)
    decreases |names|
  {
    if names == [] then d
    else
      var d1 := Put(d, names[0], Leaf);
      var r := AddFiles(d1, names[1..]);
      ExtendsTrans(d, d1, r);
      AddFilesStep(d, d1, r, names);
      r
  }

  /** The step of `AddFiles`: the first name is bound to `None` either by its
      own assignment or by a later one, and the rest follows from the later
      assignments. */
  lemma AddFilesStep(d: seq<Binding>, d1: seq<Binding>, r: seq<Binding>, names: seq<string>)
    requires names != [] && d1 == Put(d, names[0], Leaf)
    requires forall i :: 0 <= i < |names[1..]| ==> Get(r, names[1..][i]) == Some(Leaf)
    requires forall k :: k !in names[1..] ==> Get(r, k) == Get(d1, k)
    ensures forall i :: 0 <= i < |names| ==> Get(r, names[i]) == Some(Leaf)
    ensures forall k :: k !in names ==> Get(r, k) == Get(d, k)
  {
    forall i | 0 <= i < |names| ensures Get(r, names[i]) == Some(Leaf) {
      if i > 0 {
        assert names[i] == names[1..][i - 1];
      }
    }
    forall k | k !in names ensures Get(r, k) == Get(d, k) {
      assert k !in names[1..] && k != names[0];
    }
  }

  /** The inner loops of `generate_file_tree` for one walk step:
      `folder_tree = folder_tree.setdefault(part, {})` for each component, then
      the files. `None` where a component is already bound to `None`, on which
      the next `setdefault` (or the file assignment) raises. One input differs:
      when the last component is bound to `None` and the step has no files,
      Python's `setdefault` returns that `None` and nothing raises, while the
      model still answers `None`. That needs a file and a directory of the same
      name in one directory, which a real filesystem never holds. */
  function Descend(d: seq<Binding>, parts: seq<string>, names: seq<string>): (r: Option<seq<Binding>>)
    ensures r.Some? ==> Extends(d, r.value)
    ensures r.Some? && parts != [] ==> forall k :: k != parts[0] ==> Get(r.value, k) == Get(d, k)
    decreases |parts|
  {
    if parts == [] then Some(AddFiles(d, names))
    else
      var child := match Get(d, parts[0]) case Some(v) => v case None => Folder([]);
      if child.Leaf? then None
      else match Descend(child.entries, parts[1..], names)
        case None => None
        case Some(c) => Some(Put(d, parts[0], Folder(c)))
  }

  /** The value reached by following the keys `path` from the top. */
  function Lookup(d: seq<Binding>, path: seq<string>): Option<Value>
    decreases |path|
  {
    if path == [] then Some(Folder(d))
    else match Get(d, path[0])
      case None => None
      case Some(Leaf) => if |path| == 1 then Some(Leaf) else None
      case Some(Folder(e)) => Lookup(e, path[1..])
  }

  /** `generate_file_tree` over a sequence of walk steps; each root is split
      at the separator into its components. */
  function Build(d: seq<Binding>, steps: seq<Step>): Option<seq<Binding>>
    decreases |steps|
  {
    if steps == [] then Some(d)
    else match Descend(d, SplitOn(steps[0].root, '/'), Names(steps[0].files))
      case None => None
      case Some(d1) => Build(d1, steps[1..])
  }

  /** `generate_file_tree(root_dir)`: `os.walk` of anything but a directory
      yields nothing, leaving the empty dictionary. */
  function TreeSpec(fs: Fs, rootDir: Path): Option<seq<Binding>> {
    if IsDir(fs, rootDir) then Build([], Walk(rootDir, fs[rootDir].children)) else Some([])
  }

  // ---------------------------------------------------------------------------
  // The function, step by step

  /** `for file in files: folder_tree[file] = None`. */
  method SetFiles(d: seq<Binding>, names: seq<string>) returns (d': seq<Binding>)
    ensures d' == AddFiles(d, names)
  {
    ghost var all := AddFiles(d, names);
    d' := d;
    var i := 0;
    SliceAll(names);
    while i < |names|
      invariant 0 <= i <= |names|
      invariant AddFiles(d', names[i..]) == all
    {
      SliceTail(names, i);
      d' := Put(d', names[i], Leaf);
      i := i + 1;
    }
  }

  /** The descent through the components of one walk root, then the files of
      that root, in the folder the descent reached. */
  method Place(d: seq<Binding>, parts: seq<string>, names: seq<string>) returns (r: Option<seq<Binding>>)
    ensures r == Descend(d, parts, names)
    decreases |parts|
  {
    if parts == [] {
      var d' := SetFiles(d, names);
      return Some(d');
    }
    var got := Get(d, parts[0]);
    var child := if got.Some? then got.value else Folder([]);
    if child.Leaf? {
      return None;
    }
    var c := Place(child.entries, parts[1..], names);
    if c.None? {
      return None;
    }
    r := Some(Put(d, parts[0], Folder(c.value)));
  }

  /** `generate_file_tree(root_dir)`. */
  method GenerateFileTree(fs: Fs, rootDir: Path) returns (tree: Option<seq<Binding>>)
    ensures tree == TreeSpec(fs, rootDir)
  {
    if !IsDir(fs, rootDir) {
      return Some([]);
    }
    var steps := Walk(rootDir, fs[rootDir].children);
    ghost var all := Build([], steps);
    var d: seq<Binding> := [];
    var k := 0;
    SliceAll(steps);
    while k < |steps|
      invariant 0 <= k <= |steps|
      invariant Build(d, steps[k..]) == all
    {
      SliceTail(steps, k);
      var next := Place(d, SplitOn(steps[k].root, '/'), Names(steps[k].files));
      if next.None? {
        return None;
      }
      d := next.value;
      k := k + 1;
    }
    assert steps[k..] == [];
    tree := Some(d);
  }

  // ---------------------------------------------------------------------------
  // What the tree promises

  /** After one walk step, following the components of its root from the top
      reaches a folder, and every file of that root is a key there mapped to
      `None`. */
  lemma {:induction false} DescendPlaces(d: seq<Binding>, parts: seq<string>, names: seq<string>)
    requires Descend(d, parts, names).Some?
    ensures var v := Lookup(Descend(d, parts, names).value, parts);
      v.Some? && v.value.Folder? && forall i :: 0 <= i < |names| ==> Get(v.value.entries, names[i]) == Some(Leaf)
    decreases |parts|
  {
    if parts != [] {
      var child := match Get(d, parts[0]) case Some(v) => v case None => Folder([]);
      DescendPlaces(child.entries, parts[1..], names);
    }
  }

  /** `setdefault` never replaces a folder: every folder met along the
      components of the root keeps all its keys, in their places, and gains
      new ones only after them. */
  lemma {:induction false} DescendKeeps(d: seq<Binding>, parts: seq<string>, names: seq<string>, j: nat)
    requires Descend(d, parts, names).Some? && j <= |parts|
    requires Lookup(d, parts[..j]).Some? && Lookup(d, parts[..j]).value.Folder?
    ensures var v := Lookup(Descend(d, parts, names).value, parts[..j]);
      v.Some? && v.value.Folder? && Extends(Lookup(d, parts[..j]).value.entries, v.value.entries)
    decreases |parts|
  {
    if j > 0 {
      var child := match Get(d, parts[0]) case Some(v) => v case None => Folder([]);
      assert parts[..j][0] == parts[0] && parts[..j][1..] == parts[1..][..j - 1];
      assert Get(d, parts[0]).Some?;
      DescendKeeps(child.entries, parts[1..], names, j - 1);
    }
  }

  /** Following `parts` from the top reaches a folder in which every name of
      `names` is a key bound to `None`. */
  predicate Placed(t: seq<Binding>, parts: seq<string>, names: seq<string>) {
    var v := Lookup(t, parts);
    v.Some? && v.value.Folder? && forall i :: 0 <= i < |names| ==> Get(v.value.entries, names[i]) == Some(Leaf)
  }

  /** The components `a` lie strictly above `b`: a proper prefix of them. */
  predicate Above(a: seq<string>, b: seq<string>) {
    |a| < |b| && b[..|a|] == a
  }

  /** No walk root lies strictly above an earlier one: the walk never comes
      back to an ancestor of a directory it has already visited. */
  predicate TopDown(steps: seq<Step>) {
    forall i, j :: 0 <= i < j < |steps| ==> !Above(SplitOn(steps[j].root, '/'), SplitOn(steps[i].root, '/'))
  }

  /** Lookup depends on the top only through the first key followed. */
  lemma LookupHead(a: seq<Binding>, b: seq<Binding>, parts: seq<string>)
    requires parts != [] && Get(a, parts[0]) == Get(b, parts[0])
    ensures Lookup(a, parts) == Lookup(b, parts)
  {
  }

  lemma AboveTail(q: seq<string>, parts: seq<string>)
    requires q != [] && parts != [] && q[0] == parts[0]
    ensures Above(q[1..], parts[1..]) ==> Above(q, parts)
  {
    if Above(q[1..], parts[1..]) {
      assert parts[..|q|] == [parts[0]] + parts[1..][..|q| - 1];
    }
  }

  /** A later step whose root does not lie strictly above `parts` leaves the
      files placed at `parts` where they are: `setdefault` never replaces a
      folder, and a file name bound again is bound to `None` again. */
  lemma {:induction false} DescendKeepsPlaced(t: seq<Binding>, q: seq<string>, more: seq<string>,
                                             parts: seq<string>, names: seq<string>)
    requires Descend(t, q, more).Some? && Placed(t, parts, names) && !Above(q, parts)
    ensures Placed(Descend(t, q, more).value, parts, names)
    decreases |q|
  {
    var r := Descend(t, q, more).value;
    if q == [] {
      assert parts[..0] == [];
      forall i | 0 <= i < |names| ensures Get(r, names[i]) == Some(Leaf) {
        if names[i] in more {
          var k :| 0 <= k < |more| && more[k] == names[i];
        }
      }
    } else {
      var child := match Get(t, q[0]) case Some(v) => v case None => Folder([]);
      var c := Descend(child.entries, q[1..], more).value;
      assert r == Put(t, q[0], Folder(c));
      if parts == [] {
        forall i | 0 <= i < |names| ensures Get(r, names[i]) == Some(Leaf) {
          assert Get(t, names[i]) == Some(Leaf);
        }
      } else if parts[0] != q[0] {
        LookupHead(r, t, parts);
      } else {
        assert Get(t, parts[0]).Some? && Get(t, parts[0]).value.Folder?;
        AboveTail(q, parts);
        DescendKeepsPlaced(child.entries, q[1..], more, parts[1..], names);
      }
    }
  }

  /** The files placed at `parts` stay placed through later steps none of
      whose roots lies strictly above `parts`. */
  lemma {:induction false} BuildKeepsPlaced(t: seq<Binding>, steps: seq<Step>, parts: seq<string>, names: seq<string>)
    requires Build(t, steps).Some? && Placed(t, parts, names)
    requires forall j :: 0 <= j < |steps| ==> !Above(SplitOn(steps[j].root, '/'), parts)
    ensures Placed(Build(t, steps).value, parts, names)
    decreases |steps|
  {
    if steps != [] {
      var q := SplitOn(steps[0].root, '/');
      var t1 := Descend(t, q, Names(steps[0].files)).value;
      DescendKeepsPlaced(t, q, Names(steps[0].files), parts, names);
      var tail := steps[1..];
      assert forall j :: 0 <= j < |tail| ==> tail[j] == steps[j + 1];
      BuildKeepsPlaced(t1, tail, parts, names);
    }
  }

  /** In the tree built from a top-down walk, following the components of
      every step's root reaches a folder in which each file of that step is a
      key bound to `None`. */
  lemma {:induction false} BuildPlaces(d: seq<Binding>, steps: seq<Step>)
    requires Build(d, steps).Some? && TopDown(steps)
    ensures forall k :: 0 <= k < |steps| ==>
      Placed(Build(d, steps).value, SplitOn(steps[k].root, '/'), Names(steps[k].files))
    decreases |steps|
  {
    if steps != [] {
      var parts, names := SplitOn(steps[0].root, '/'), Names(steps[0].files);
      var d1 := Descend(d, parts, names).value;
      var tail := steps[1..];
      assert forall j :: 0 <= j < |tail| ==> tail[j] == steps[j + 1];
      DescendPlaces(d, parts, names);
      BuildKeepsPlaced(d1, tail, parts, names);
      BuildPlaces(d1, tail);
    }
  }

  /** A walk root joins keep clean: non-empty, without a trailing separator. */
  predicate CleanRoot(p: Path) {
    p != [] && p[|p| - 1] != '/'
  }

  /** The components `q` lie one level or more below `p`, and the first one
      past `p` is among `names`. */
  predicate Deeper(p: seq<string>, q: seq<string>, names: seq<string>) {
    |p| < |q| && q[..|p|] == p && q[|p|] in names
  }

  /** Two component lists that part at position `n`. */
  predicate Apart(a: seq<string>, b: seq<string>, n: nat) {
    n < |a| && n < |b| && a[n] != b[n]
  }

  /** Joining a usable name to a clean root adds exactly one component. */
  lemma JoinDeeper(root: Path, name: string)
    requires CleanRoot(root) && NameOk(name)
    ensures CleanRoot(Join(root, name))
    ensures SplitOn(Join(root, name), '/') == SplitOn(root, '/') + [name]
  {
    assert name[0] in name && name[|name| - 1] in name;
    assert Join(root, name) == root + ['/'] + name;
    SplitOnSnoc(root, '/', name);
  }

  lemma ApartNotAbove(a: seq<string>, b: seq<string>, n: nat)
    requires Apart(a, b, n)
    ensures !Above(b, a) && !Above(a, b)
  {
    if |b| < |a| {
      assert a[..|b|][n] == a[n];
    }
    if |a| < |b| {
      assert b[..|a|][n] == b[n];
    }
  }

  /** Every root of `steps` is clean and its components extend `p`. */
  predicate RootsUnder(steps: seq<Step>, p: seq<string>) {
    forall k :: 0 <= k < |steps| ==>
      CleanRoot(steps[k].root) && |p| <= |SplitOn(steps[k].root, '/')| && SplitOn(steps[k].root, '/')[..|p|] == p
  }

  /** Every root of `steps` is clean and lies below `p` under one of `names`. */
  predicate RootsBelow(steps: seq<Step>, p: seq<string>, names: seq<string>) {
    forall k :: 0 <= k < |steps| ==> CleanRoot(steps[k].root) && Deeper(p, SplitOn(steps[k].root, '/'), names)
  }

  /** Two top-down walks, one after the other, stay top-down when every root
      of the first parts from every root of the second. */
  lemma TopDownAppend(head: seq<Step>, rest: seq<Step>, n: nat)
    requires TopDown(head) && TopDown(rest)
    requires forall i, j :: 0 <= i < |head| && 0 <= j < |rest| ==>
      Apart(SplitOn(head[i].root, '/'), SplitOn(rest[j].root, '/'), n)
    ensures TopDown(head + rest)
  {
    var w := head + rest;
    forall i, j | 0 <= i < j < |w|
      ensures !Above(SplitOn(w[j].root, '/'), SplitOn(w[i].root, '/'))
    {
      if j < |head| {
        assert w[i] == head[i] && w[j] == head[j];
      } else if |head| <= i {
        assert w[i] == rest[i - |head|] && w[j] == rest[j - |head|];
      } else {
        assert w[i] == head[i] && w[j] == rest[j - |head|];
        ApartNotAbove(SplitOn(head[i].root, '/'), SplitOn(rest[j - |head|].root, '/'), n);
      }
    }
  }

  /** The roots of a subdirectory's walk lie below its parent under its name. */
  lemma UnderChild(head: seq<Step>, p: seq<string>, name: string)
    requires RootsUnder(head, p + [name])
    ensures RootsBelow(head, p, [name])
  {
    forall k | 0 <= k < |head|
      ensures Deeper(p, SplitOn(head[k].root, '/'), [name])
    {
      var q := SplitOn(head[k].root, '/');
      assert q[..|p| + 1] == p + [name];
      assert q[..|p|] == q[..|p| + 1][..|p|];
      assert q[|p|] == q[..|p| + 1][|p|];
    }
  }

  /** Roots under different children of one directory part at that level. */
  lemma SiblingsApart(head: seq<Step>, rest: seq<Step>, p: seq<string>, name: string, others: seq<string>)
    requires RootsBelow(head, p, [name]) && RootsBelow(rest, p, others) && name !in others
    ensures forall i, j :: 0 <= i < |head| && 0 <= j < |rest| ==>
      Apart(SplitOn(head[i].root, '/'), SplitOn(rest[j].root, '/'), |p|)
  {
  }

  lemma BelowAppend(head: seq<Step>, rest: seq<Step>, p: seq<string>, a: seq<string>, b: seq<string>, c: seq<string>)
    requires RootsBelow(head, p, a) && RootsBelow(rest, p, b)
    requires (forall x :: x in a ==> x in c) && (forall x :: x in b ==> x in c)
    ensures RootsBelow(head + rest, p, c)
  {
    var w := head + rest;
    forall k | 0 <= k < |w| ensures CleanRoot(w[k].root) && Deeper(p, SplitOn(w[k].root, '/'), c) {
      if k < |head| {
        assert w[k] == head[k];
      } else {
        assert w[k] == rest[k - |head|];
      }
    }
  }

  /** A clean top followed by roots below it, top-down among themselves. */
  lemma TopFirst(top: Step, s: seq<Step>, names: seq<string>)
    requires CleanRoot(top.root) && TopDown(s) && RootsBelow(s, SplitOn(top.root, '/'), names)
    ensures TopDown([top] + s) && RootsUnder([top] + s, SplitOn(top.root, '/'))
  {
    var w, p := [top] + s, SplitOn(top.root, '/');
    forall k | 0 <= k < |w|
      ensures CleanRoot(w[k].root) && |p| <= |SplitOn(w[k].root, '/')| && SplitOn(w[k].root, '/')[..|p|] == p
    {
      if k == 0 {
        assert p[..|p|] == p;
      } else {
        assert w[k] == s[k - 1];
      }
    }
    forall i, j | 0 <= i < j < |w|
      ensures !Above(SplitOn(w[j].root, '/'), SplitOn(w[i].root, '/'))
    {
      assert w[j] == s[j - 1];
      if i > 0 {
        assert w[i] == s[i - 1];
      }
    }
  }

  lemma BelowWiden(steps: seq<Step>, p: seq<string>, a: seq<string>, b: seq<string>)
    requires RootsBelow(steps, p, a) && forall x :: x in a ==> x in b
    ensures RootsBelow(steps, p, b)
  {
  }

  /** The walk of the first child followed by the roots under its siblings. */
  lemma ChildThenSiblings(head: seq<Step>, rest: seq<Step>, p: seq<string>, name: string,
                          others: seq<string>, all: seq<string>)
    requires TopDown(head) && RootsUnder(head, p + [name])
    requires TopDown(rest) && RootsBelow(rest, p, others)
    requires name !in others && name in all && forall x :: x in others ==> x in all
    ensures TopDown(head + rest) && RootsBelow(head + rest, p, all)
  {
    UnderChild(head, p, name);
    SiblingsApart(head, rest, p, name, others);
    TopDownAppend(head, rest, |p|);
    BelowAppend(head, rest, p, [name], others, all);
  }

  /** `os.walk` is top-down: under real names and a clean top, no walk root
      lies above an earlier one, and every root lies at or below the top. */
  lemma {:induction false} WalkShape(root: Path, cs: seq<Node>)
    requires CleanRoot(root) && RealNames(cs)
    ensures TopDown(Walk(root, cs)) && RootsUnder(Walk(root, cs), SplitOn(root, '/'))
    decreases cs, 1
  {
    var s := WalkSubdirs(root, cs);
    SubdirsShape(root, cs);
    TopFirst(Step(root, FilesOf(cs)), s, NodeNames(cs));
  }

  /** The roots below the top's subdirectories: top-down among themselves,
      each one level or more below the top under one of its children's names. */
  lemma {:induction false} SubdirsShape(root: Path, cs: seq<Node>)
    requires CleanRoot(root) && RealNames(cs)
    ensures TopDown(WalkSubdirs(root, cs))
    ensures RootsBelow(WalkSubdirs(root, cs), SplitOn(root, '/'), NodeNames(cs))
    decreases cs, 0
  {
    if cs != [] {
      assert cs[0] in cs;
      var p := SplitOn(root, '/');
      RealNamesTail(cs);
      SubdirsShape(root, cs[1..]);
      var rest := WalkSubdirs(root, cs[1..]);
      match cs[0]
      case File(_) =>
        assert WalkSubdirs(root, cs) == rest;
        BelowWiden(rest, p, NodeNames(cs[1..]), NodeNames(cs));
      case Dir(name, sub) =>
        var r := Join(root, name);
        var head := Walk(r, sub);
        assert WalkSubdirs(root, cs) == head + rest;
        JoinDeeper(root, name);
        WalkShape(r, sub);
        assert NodeNames(cs)[0] == name;
        ChildThenSiblings(head, rest, p, name, NodeNames(cs[1..]), NodeNames(cs));
    }
  }

  /** With a clean `root_dir` and real names, the finished tree holds every
      file of every walk root in the folder reached by that root's
      components: nothing a later step does displaces an earlier one. */
  lemma TreePlaces(fs: Fs, rootDir: Path)
    requires IsDir(fs, rootDir) && CleanRoot(rootDir) && RealNames(fs[rootDir].children)
    requires TreeSpec(fs, rootDir).Some?
    ensures var steps := Walk(rootDir, fs[rootDir].children);
      forall k :: 0 <= k < |steps| ==>
        Placed(TreeSpec(fs, rootDir).value, SplitOn(steps[k].root, '/'), Names(steps[k].files))
  {
    WalkShape(rootDir, fs[rootDir].children);
    BuildPlaces([], Walk(rootDir, fs[rootDir].children));
  }

  /** The keys already at the top of the tree stay in their places. */
  lemma {:induction false} BuildExtends(d: seq<Binding>, steps: seq<Step>)
    requires Build(d, steps).Some?
    ensures Extends(d, Build(d, steps).value)
    decreases |steps|
  {
    if steps != [] {
      var d1 := Descend(d, SplitOn(steps[0].root, '/'), Names(steps[0].files)).value;
      BuildExtends(d1, steps[1..]);
      ExtendsTrans(d, d1, Build(d, steps).value);
    }
  }

  /** The first top-level key is the first component of `root_dir` itself,
      the top of the tree being built from the full root path. */
  lemma FirstKeyFromRoot(fs: Fs, rootDir: Path)
    requires IsDir(fs, rootDir) && TreeSpec(fs, rootDir).Some?
    ensures var t := TreeSpec(fs, rootDir).value;
      |t| >= 1 && t[0].key == SplitOn(rootDir, '/')[0]
  {
    var steps := Walk(rootDir, fs[rootDir].children);
    var parts := SplitOn(rootDir, '/');
    var d1 := Descend([], parts, Names(steps[0].files)).value;
    assert Get(d1, parts[0]).Some?;
    assert d1[0].key == parts[0];
    BuildExtends(d1, steps[1..]);
  }

  /** For an absolute `root_dir` that first key is the empty string. */
  lemma AbsoluteRootEmptyKey(fs: Fs, rootDir: Path)
    requires IsDir(fs, rootDir) && TreeSpec(fs, rootDir).Some?
    requires |rootDir| >= 1 && rootDir[0] == '/'
    ensures var t := TreeSpec(fs, rootDir).value; |t| >= 1 && t[0].key == ""
  {
    FirstKeyFromRoot(fs, rootDir);
    assert rootDir == [] + ['/'] + rootDir[1..];
    SplitOnCons([], '/', rootDir[1..]);
  }
}
