/** POSIX path operations (Python's `posixpath`) used by the engine:
    `join`, `basename`, `dirname`, `abspath` and `relpath`. */
module Paths {
  import opened Text

  type Path = string

  /** `os.path.join(a, b)`: an absolute `b` replaces `a`; otherwise one separator
      is put between them unless `a` is empty or already ends in one. */
  function Join(a: Path, b: string): (r: Path)
    ensures EndsWith(r, b)
    ensures |b| > 0 && b[0] != '/' && a != [] ==> |r| > |a|
  {
    if |b| > 0 && b[0] == '/' then b
    else if a == [] || a[|a| - 1] == '/' then a + b
    else a + "/" + b
  }

  /** Index just past the last separator of `p` (`p.rfind('/') + 1`). */
  function TailStart(p: Path): (i: nat)
    ensures i <= |p|
    ensures i > 0 ==> p[i - 1] == '/'
    ensures '/' !in p[i..]
  {
    if p == [] then 0
    else if p[|p| - 1] == '/' then |p|
    else
      var i := TailStart(p[..|p| - 1]);
      assert p[i..] == p[..|p| - 1][i..] + [p[|p| - 1]];
      i
  }

  /** `os.path.basename(p)`: what follows the last separator. */
  function BaseName(p: Path): (r: string)
    ensures '/' !in r && EndsWith(p, r)
  {
    p[TailStart(p)..]
  }

  /** `os.path.dirname(p)`: what precedes the last separator, with trailing
      separators removed unless it consists of separators only. */
  function DirName(p: Path): Path {
    var head := p[..TailStart(p)];
    if head != [] && exists i | 0 <= i < |head| :: head[i] != '/' then RStrip(head, c => c == '/')
    else head
  }

  /** For a path `d + "/" + n` where `n` holds no separator and `d` does not end
      in one, `basename` is `n` and `dirname` is `d` when `d` is not empty. */
  lemma SplitLast(d: Path, n: string)
    requires '/' !in n
    requires d != [] && d[|d| - 1] != '/'
    ensures BaseName(d + "/" + n) == n
    ensures DirName(d + "/" + n) == d
  {
    var p := d + "/" + n;
    var t := TailStart(p);
    assert p[|d|] == '/';
    assert t == |d| + 1;
    assert p[t..] == n;
    var head := p[..t];
    assert head == d + "/";
    assert head[|d| - 1] != '/';
    assert RStrip(d + "/", c => c == '/') == d by {
      assert (d + "/")[..|d|] == d;
    }
  }

  // ---------------------------------------------------------------------------
  // abspath and relpath

  /** The non-empty components of a path (`[x for x in p.split('/') if x]`). */
  function Components(p: Path): (r: seq<string>)
    ensures forall i :: 0 <= i < |r| ==> r[i] != [] && '/' !in r[i]
  {
    NonEmpty(SplitOn(p, '/'))
  }

  function NonEmpty(parts: seq<string>): (r: seq<string>)
    requires forall i :: 0 <= i < |parts| ==> '/' !in parts[i]
    ensures forall i :: 0 <= i < |r| ==> r[i] != [] && '/' !in r[i]
  {
    if parts == [] then []
    else if parts[0] == [] then NonEmpty(parts[1..])
    else [parts[0]] + NonEmpty(parts[1..])
  }

  /** `normpath` on the components of an absolute path: "." is dropped and ".."
      removes the previous component (or nothing at the root). */
  function Normalize(cs: seq<string>, acc: seq<string>): seq<string> {
    if cs == [] then acc
    else if cs[0] == "." then Normalize(cs[1..], acc)
    else if cs[0] == ".." then Normalize(cs[1..], if acc == [] then [] else acc[..|acc| - 1])
    else Normalize(cs[1..], acc + [cs[0]])
  }

  /** `p` made absolute against the working directory `cwd`, before `normpath`. */
  function FullPath(p: Path, cwd: Path): Path {
    if |p| > 0 && p[0] == '/' then p else Join(cwd, p)
  }

  /** The components of `os.path.abspath(p)` when the working directory is `cwd`. */
  function AbsComponents(p: Path, cwd: Path): seq<string> {
    Normalize(Components(FullPath(p, cwd)), [])
  }

  /** Length of the longest common prefix of two lists (`os.path.commonprefix`). */
  function CommonPrefix(a: seq<string>, b: seq<string>): (n: nat)
    ensures n <= |a| && n <= |b| && a[..n] == b[..n]
    ensures n < |a| && n < |b| ==> a[n] != b[n]
  {
    if a == [] || b == [] || a[0] != b[0] then 0
    else
      var n := CommonPrefix(a[1..], b[1..]);
      assert a[..n + 1] == [a[0]] + a[1..][..n];
      assert b[..n + 1] == [b[0]] + b[1..][..n];
      n + 1
  }

  /** `os.path.relpath(path, start)` with working directory `cwd`; `None` where
      Python raises ValueError for an empty `path`. */
  function RelPath(path: Path, start: Path, cwd: Path): Option<Path> {
    if path == [] then None
    else
      var s := AbsComponents(start, cwd);
      var p := AbsComponents(path, cwd);
      var i := CommonPrefix(s, p);
      var rel := seq(|s| - i, _ => "..") + p[i..];
      Some(if rel == [] then "." else JoinOn(rel, '/'))
  }

  /** When `path` lies below `start`, `relpath` is the remaining components. */
  lemma RelPathBelow(path: Path, start: Path, cwd: Path, rest: seq<string>)
    requires path != []
    requires AbsComponents(path, cwd) == AbsComponents(start, cwd) + rest
    requires rest != []
    ensures RelPath(path, start, cwd) == Some(JoinOn(rest, '/'))
  {
    var s := AbsComponents(start, cwd);
    var p := s + rest;
    var i := CommonPrefix(s, p);
    assert i == |s|;
    assert p[i..] == rest;
    assert seq(|s| - i, _ => "..") + p[i..] == rest;
    assert rest != [];
  }

  // ---------------------------------------------------------------------------
  // Joining one more name

  /** A name a directory can hold that `normpath` keeps as it is. */
  predicate PlainName(n: string) {
    n != [] && '/' !in n && n != "." && n != ".."
  }

  /** The last separator of `x + b` is the one ending `x` when `b` has none. */
  lemma {:induction false} TailStartSuffix(x: Path, b: string)
    requires '/' !in b && (x == [] || x[|x| - 1] == '/')
    ensures TailStart(x + b) == |x|
    decreases |b|
  {
    if b != [] {
      var s := x + b;
      assert s[|s| - 1] == b[|b| - 1] && s[|s| - 1] in b;
      assert s[..|s| - 1] == x + b[..|b| - 1];
      TailStartSuffix(x, b[..|b| - 1]);
    } else {
      assert x + b == x;
    }
  }

  /** `basename(join(a, b))` is `b` for a name `b`: what is moved or copied
      into a directory keeps its name. */
  lemma BaseNameJoin(a: Path, b: string)
    requires b != [] && '/' !in b
    ensures BaseName(Join(a, b)) == b
  {
    assert b[0] in b;
    var x := if a == [] || a[|a| - 1] == '/' then a else a + "/";
    assert Join(a, b) == x + b;
    TailStartSuffix(x, b);
    assert (x + b)[|x|..] == b;
  }

  /** Splitting at the last separator: a text with no separator after it
      becomes the last part. */
  lemma {:induction false} SplitOnSnoc(x: string, c: char, y: string)
    requires c !in y
    ensures SplitOn(x + [c] + y, c) == SplitOn(x, c) + [y]
    decreases |x|
  {
    var s := x + [c] + y;
    match FindChar(x, c, 0)
    case None =>
      assert x[0..] == x;
      FindCharAt(s, c, 0, |x|);
      assert s[..|x|] == x && s[|x| + 1..] == y;
      assert y[0..] == y;
      assert FindChar(y, c, 0) == None;
    case Some(i) =>
      assert x[0..i] == s[0..i];
      FindCharAt(s, c, 0, i);
      assert s[..i] == x[..i];
      assert s[i + 1..] == x[i + 1..] + [c] + y;
      SplitOnSnoc(x[i + 1..], c, y);
      assert x[0..i] == x[..i];
  }

  lemma {:induction false} NonEmptySnoc(parts: seq<string>, y: string)
    requires forall i :: 0 <= i < |parts| ==> '/' !in parts[i]
    requires y != [] && '/' !in y
    ensures NonEmpty(parts + [y]) == NonEmpty(parts) + [y]
    decreases |parts|
  {
    if parts == [] {
      assert [] + [y] == [y];
      assert [y][1..] == [];
    } else {
      assert (parts + [y])[1..] == parts[1..] + [y];
      NonEmptySnoc(parts[1..], y);
    }
  }

  lemma {:induction false} NormalizeSnoc(cs: seq<string>, acc: seq<string>, n: string)
    requires n != "." && n != ".."
    ensures Normalize(cs + [n], acc) == Normalize(cs, acc) + [n]
    decreases |cs|
  {
    if cs == [] {
      assert [] + [n] == [n];
      assert [n][1..] == [];
    } else {
      assert (cs + [n])[1..] == cs[1..] + [n];
      var acc' := if cs[0] == "." then acc
        else if cs[0] == ".." then (if acc == [] then [] else acc[..|acc| - 1])
        else acc + [cs[0]];
      NormalizeSnoc(cs[1..], acc', n);
    }
  }

  /** Joining a plain name to a path adds exactly that name to its absolute
      components. */
  lemma AbsJoin(root: Path, name: string, cwd: Path)
    requires root != [] && root[|root| - 1] != '/' && PlainName(name)
    ensures AbsComponents(Join(root, name), cwd) == AbsComponents(root, cwd) + [name]
  {
    FullJoin(root, name, cwd);
    ComponentsSnoc(FullPath(root, cwd), name);
    NormalizeSnoc(Components(FullPath(root, cwd)), [], name);
  }

  /** A trailing separator adds no component. */
  lemma ComponentsSlash(p: Path)
    ensures Components(p + "/") == Components(p)
  {
    SplitOnSnoc(p, '/', "");
    assert p + "/" == p + ['/'] + "";
    NonEmptyEmptyLast(SplitOn(p, '/'));
  }

  lemma {:induction false} NonEmptyEmptyLast(parts: seq<string>)
    requires forall i :: 0 <= i < |parts| ==> '/' !in parts[i]
    ensures NonEmpty(parts + [""]) == NonEmpty(parts)
    decreases |parts|
  {
    if parts == [] {
      assert [] + [""] == [""];
      assert [""][1..] == [];
    } else {
      assert (parts + [""])[1..] == parts[1..] + [""];
      NonEmptyEmptyLast(parts[1..]);
    }
  }

  /** A name without a separator is a single component. */
  lemma ComponentsName(n: string)
    requires PlainName(n)
    ensures Components(n) == [n]
  {
    assert SplitOn(n, '/') == [n];
    assert [n][1..] == [];
    assert NonEmpty([]) == [];
  }

  /** The parent `d` of a source `join(d, n)`, for the three shapes `dirname`
      returns for a source without a trailing separator: a clean directory,
      the empty string (a bare relative name) and the filesystem root. In each
      `dirname` gives `d` back and the absolute components grow by `n`. */
  lemma ParentJoin(d: Path, n: string, cwd: Path)
    requires (d != [] && d[|d| - 1] != '/') || d == "" || d == "/"
    requires PlainName(n)
    ensures DirName(Join(d, n)) == d
    ensures AbsComponents(Join(d, n), cwd) == AbsComponents(d, cwd) + [n]
  {
    assert n[0] in n;
    if d == "" {
      assert Join(d, n) == [] + n;
      TailStartSuffix([], n);
      ParentRelative(n, cwd);
    } else if d == "/" {
      assert Join(d, n) == "/" + n;
      ParentRoot(n, cwd);
    } else {
      SplitLast(d, n);
      assert Join(d, n) == d + "/" + n;
      AbsJoin(d, n, cwd);
    }
  }

  /** A bare name lies in the working directory. */
  lemma ParentRelative(n: string, cwd: Path)
    requires PlainName(n)
    ensures AbsComponents(n, cwd) == AbsComponents("", cwd) + [n]
  {
    assert n[0] in n;
    assert FullPath("", cwd) == Join(cwd, "");
    assert FullPath(n, cwd) == Join(cwd, n);
    CwdComponents(n, cwd);
    NormalizeSnoc(Components(Join(cwd, "")), [], n);
  }

  lemma CwdComponents(n: string, cwd: Path)
    requires PlainName(n)
    ensures Components(Join(cwd, n)) == Components(Join(cwd, "")) + [n]
  {
    assert n[0] in n;
    if cwd == [] {
      assert Join(cwd, n) == n && Join(cwd, "") == "";
      ComponentsName(n);
      assert Components("") == [];
      assert [] + [n] == [n];
    } else if cwd[|cwd| - 1] == '/' {
      var c := cwd[..|cwd| - 1];
      assert cwd == c + "/";
      assert Join(cwd, n) == c + "/" + n && Join(cwd, "") == c + "/";
      ComponentsSnoc(c, n);
      ComponentsSlash(c);
    } else {
      assert Join(cwd, n) == cwd + "/" + n && Join(cwd, "") == cwd + "/";
      ComponentsSnoc(cwd, n);
      ComponentsSlash(cwd);
    }
  }

  /** A name directly under the filesystem root. */
  lemma ParentRoot(n: string, cwd: Path)
    requires PlainName(n)
    ensures DirName("/" + n) == "/"
    ensures AbsComponents("/" + n, cwd) == AbsComponents("/", cwd) + [n]
  {
    TailStartSuffix("/", n);
    assert "/" + n == "" + "/" + n;
    ComponentsSnoc("", n);
    assert Components("") == [];
    ComponentsSlash("");
    assert "" + "/" == "/";
    NormalizeSnoc([], [], n);
  }

  lemma FullJoin(root: Path, name: string, cwd: Path)
    requires root != [] && root[|root| - 1] != '/' && PlainName(name)
    ensures FullPath(Join(root, name), cwd) == FullPath(root, cwd) + "/" + name
  {
    assert name[0] in name;
    var p := root + "/" + name;
    assert Join(root, name) == p;
    assert p[0] == root[0];
    if root[0] != '/' {
      if cwd == [] || cwd[|cwd| - 1] == '/' {
        assert cwd + p == (cwd + root) + "/" + name;
      } else {
        assert cwd + "/" + p == (cwd + "/" + root) + "/" + name;
      }
    }
  }

  lemma ComponentsSnoc(full: Path, name: string)
    requires PlainName(name)
    ensures Components(full + "/" + name) == Components(full) + [name]
  {
    SplitOnSnoc(full, '/', name);
    assert full + "/" + name == full + ['/'] + name;
    NonEmptySnoc(SplitOn(full, '/'), name);
  }

  /** `normpath` leaves only plain names: no empty component, no separator,
      no "." and no "..". */
  lemma {:induction false} NormalizePlain(cs: seq<string>, acc: seq<string>)
    requires forall k :: 0 <= k < |cs| ==> cs[k] != [] && '/' !in cs[k]
    requires forall k :: 0 <= k < |acc| ==> PlainName(acc[k])
    ensures forall k :: 0 <= k < |Normalize(cs, acc)| ==> PlainName(Normalize(cs, acc)[k])
    decreases |cs|
  {
    if cs != [] {
      var acc' := if cs[0] == "." then acc
        else if cs[0] == ".." then (if acc == [] then [] else acc[..|acc| - 1])
        else acc + [cs[0]];
      assert forall k :: 0 <= k < |acc'| ==> PlainName(acc'[k]) by {
        if cs[0] != "." && cs[0] != ".." {
          assert forall k :: 0 <= k < |acc| ==> acc'[k] == acc[k];
        }
      }
      assert forall k :: 0 <= k < |cs[1..]| ==> cs[1..][k] == cs[k + 1];
      NormalizePlain(cs[1..], acc');
    }
  }

  /** Every component of an absolute path is a plain name. */
  lemma AbsPlain(p: Path, cwd: Path)
    ensures forall k :: 0 <= k < |AbsComponents(p, cwd)| ==> PlainName(AbsComponents(p, cwd)[k])
  {
    NormalizePlain(Components(FullPath(p, cwd)), []);
  }
}
