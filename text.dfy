/** Python `str` operations the archive engine relies on.  A Dafny `char` is a
    Unicode scalar value, which is what one element of a Python `str` holds, so
    `|s|` is Python's `len(s)`. */
module Text {

  datatype Option<+T> = None | Some(value: T)

  /** Python's `str.isspace()` on one character: the ASCII controls 9..13 and
      28..31, the space, and the Unicode space separators. */
  predicate IsSpace(c: char) {
    var n := c as int;
    (9 <= n <= 13) || (28 <= n <= 32) || n == 0x85 || n == 0xA0 || n == 0x1680
    || (0x2000 <= n <= 0x200A) || n == 0x2028 || n == 0x2029 || n == 0x202F
    || n == 0x205F || n == 0x3000
  }

  /** The characters of the argument of `strip("--- ")`: a dash or a space. */
  predicate IsFrameChar(c: char) {
    c == '-' || c == ' '
  }

  /** `s.lstrip(...)`: the longest prefix of characters satisfying `drop` is removed. */
  function LStrip(s: string, drop: char -> bool): (r: string)
    ensures |r| <= |s| && r == s[|s| - |r|..]
    ensures forall i :: 0 <= i < |s| - |r| ==> drop(s[i])
    ensures r != [] ==> !drop(r[0])
    decreases |s|
  {
    if s != [] && drop(s[0]) then LStrip(s[1..], drop) else s
  }

  /** `s.rstrip(...)`: the longest suffix of characters satisfying `drop` is removed. */
  function RStrip(s: string, drop: char -> bool): (r: string)
    ensures |r| <= |s| && r == s[..|r|]
    ensures forall i :: |r| <= i < |s| ==> drop(s[i])
    ensures r != [] ==> !drop(r[|r| - 1])
    decreases |s|
  {
    if s != [] && drop(s[|s| - 1]) then RStrip(s[..|s| - 1], drop) else s
  }

  /** `s.strip(...)`: both ends. */
  function Strip(s: string, drop: char -> bool): string {
    RStrip(LStrip(s, drop), drop)
  }

  /** Stripping a string whose two ends are already kept returns it unchanged. */
  lemma StripKeeps(s: string, drop: char -> bool)
    requires s != [] ==> !drop(s[0]) && !drop(s[|s| - 1])
    ensures Strip(s, drop) == s
  {
  }

  /** `lstrip` removes a droppable prefix `x` and stops at a kept character. */
  lemma {:induction false} LStripPrefix(x: string, q: string, drop: char -> bool)
    requires forall i :: 0 <= i < |x| ==> drop(x[i])
    requires q != [] ==> !drop(q[0])
    ensures LStrip(x + q, drop) == q
  {
    if x == [] {
      assert x + q == q;
    } else {
      assert (x + q)[0] == x[0];
      assert (x + q)[1..] == x[1..] + q;
      LStripPrefix(x[1..], q, drop);
    }
  }

  /** `rstrip` removes a droppable suffix `y` and stops at a kept character. */
  lemma {:induction false} RStripSuffix(q: string, y: string, drop: char -> bool)
    requires forall i :: 0 <= i < |y| ==> drop(y[i])
    requires q != [] ==> !drop(q[|q| - 1])
    ensures RStrip(q + y, drop) == q
  {
    if y == [] {
      assert q + y == q;
    } else {
      assert (q + y)[|q + y| - 1] == y[|y| - 1];
      assert (q + y)[..|q + y| - 1] == q + y[..|y| - 1];
      RStripSuffix(q, y[..|y| - 1], drop);
    }
  }

  /** Stripping `x + p + y`, where every character of `x` and `y` is dropped
      and `p` starts and ends with kept characters, yields exactly `p`. */
  lemma StripFrame(x: string, p: string, y: string, drop: char -> bool)
    requires forall i :: 0 <= i < |x| ==> drop(x[i])
    requires forall i :: 0 <= i < |y| ==> drop(y[i])
    requires p != [] ==> !drop(p[0]) && !drop(p[|p| - 1])
    ensures Strip(x + p + y, drop) == p
  {
    if p == [] {
      assert x + p + y == x + y + [];
      LStripPrefix(x + y, [], drop);
    } else {
      assert x + p + y == x + (p + y);
      LStripPrefix(x, p + y, drop);
      RStripSuffix(p, y, drop);
    }
  }

  /** Python's `s.strip()`. */
  function StripSpace(s: string): string {
    Strip(s, IsSpace)
  }

  /** Python's `not s.strip()`: every character is whitespace. */
  lemma BlankIffAllSpace(s: string)
    ensures StripSpace(s) == [] <==> forall i :: 0 <= i < |s| ==> IsSpace(s[i])
  {
    var l := LStrip(s, IsSpace);
    if l != [] {
      assert !IsSpace(l[0]);
      assert RStrip(l, IsSpace) != [];
    }
  }

  // ---------------------------------------------------------------------------
  // Splitting

  /** A "\n\n" separator starts at index `i` of `s`. */
  predicate BreakAt(s: string, i: int) {
    0 <= i && i + 1 < |s| && s[i] == '\n' && s[i + 1] == '\n'
  }

  predicate HasBreak(s: string) {
    exists i | 0 <= i < |s| :: BreakAt(s, i)
  }

  /** `s.find("\n\n", from)`, with `None` for -1. */
  function FindBreak(s: string, from: nat): (r: Option<nat>)
    requires from <= |s|
    ensures r.Some? ==> from <= r.value && BreakAt(s, r.value)
    ensures r.Some? ==> forall j :: from <= j < r.value ==> !BreakAt(s, j)
    ensures r.None? ==> forall j :: from <= j ==> !BreakAt(s, j)
    decreases |s| - from
  {
    if from + 1 >= |s| then None
    else if s[from] == '\n' && s[from + 1] == '\n' then Some(from)
    else FindBreak(s, from + 1)
  }

  /** `s.split("\n\n")`: cut at every separator, scanning left to right. */
  function SplitBlocks(s: string): (r: seq<string>)
    ensures |r| >= 1
    decreases |s|
  {
    match FindBreak(s, 0)
    case None => [s]
    case Some(i) => [s[..i]] + SplitBlocks(s[i + 2..])
  }

  /** `"\n\n".join(bs)`. */
  function JoinBlocks(bs: seq<string>): string
    requires |bs| >= 1
  {
    if |bs| == 1 then bs[0] else bs[0] + "\n\n" + JoinBlocks(bs[1..])
  }

  /** Joining the blocks of a split gives back the text: nothing is lost by `split`. */
  lemma {:induction false} JoinSplit(s: string)
    ensures JoinBlocks(SplitBlocks(s)) == s
    decreases |s|
  {
    match FindBreak(s, 0)
    case None =>
    case Some(i) =>
      JoinSplit(s[i + 2..]);
      assert s == s[..i] + "\n\n" + s[i + 2..];
  }

  /** No block of a split contains the separator. */
  lemma {:induction false} SplitBlocksHaveNoBreak(s: string)
    ensures forall b :: b in SplitBlocks(s) ==> !HasBreak(b)
    decreases |s|
  {
    match FindBreak(s, 0)
    case None =>
    case Some(i) =>
      SplitBlocksHaveNoBreak(s[i + 2..]);
      assert !HasBreak(s[..i]) by {
        forall j | BreakAt(s[..i], j) ensures false {
          assert BreakAt(s, j);
        }
      }
  }

  /** When `b` holds no separator and does not end in a newline, the first
      separator of `b + "\n\n" + rest` is the one right after `b`. */
  lemma SplitCons(b: string, rest: string)
    requires !HasBreak(b)
    requires b != [] ==> b[|b| - 1] != '\n'
    ensures SplitBlocks(b + "\n\n" + rest) == [b] + SplitBlocks(rest)
  {
    var s := b + "\n\n" + rest;
    assert BreakAt(s, |b|);
    forall j | 0 <= j < |b| ensures !BreakAt(s, j) {
      if j + 1 < |b| {
        assert !BreakAt(b, j);
      } else {
        assert s[j] == b[|b| - 1];
      }
    }
    var f := FindBreak(s, 0);
    assert f == Some(|b|);
    assert s[..|b|] == b;
    assert s[|b| + 2..] == rest;
  }

  /** Splitting a join gives back the blocks, provided no block holds the
      separator and no block but the last ends in a newline. */
  lemma {:induction false} SplitJoin(bs: seq<string>)
    requires |bs| >= 1
    requires forall i :: 0 <= i < |bs| ==> !HasBreak(bs[i])
    requires forall i :: 0 <= i < |bs| - 1 ==> bs[i] != [] ==> bs[i][|bs[i]| - 1] != '\n'
    ensures SplitBlocks(JoinBlocks(bs)) == bs
  {
    if |bs| == 1 {
      assert !HasBreak(bs[0]);
    } else {
      SplitJoin(bs[1..]);
      SplitCons(bs[0], JoinBlocks(bs[1..]));
    }
  }

  /** `s.find(c, from)` for one character, with `None` for -1. */
  function FindChar(s: string, c: char, from: nat): (r: Option<nat>)
    requires from <= |s|
    ensures r.Some? ==> from <= r.value < |s| && s[r.value] == c
    ensures r.Some? ==> c !in s[from..r.value]
    ensures r.None? ==> c !in s[from..]
    decreases |s| - from
  {
    if from == |s| then None
    else if s[from] == c then Some(from)
    else
      var r := FindChar(s, c, from + 1);
      assert s[from..] == [s[from]] + s[from + 1..];
      assert r.Some? ==> s[from..r.value] == [s[from]] + s[from + 1..r.value];
      r
  }

  /** `s.split("\n", 1)` unpacked into two names: the text up to the first
      newline and the rest; `None` where Python's unpacking raises because
      there is no newline. */
  function SplitLine(s: string): (r: Option<(string, string)>)
    ensures r.Some? <==> '\n' in s
    ensures r.Some? ==> s == r.value.0 + "\n" + r.value.1 && '\n' !in r.value.0
  {
    match FindChar(s, '\n', 0)
    case None => assert s[0..] == s; None
    case Some(i) =>
      assert s[0..i] == s[..i];
      assert s == s[..i] + "\n" + s[i + 1..];
      Some((s[..i], s[i + 1..]))
  }

  /** The search stops at the first occurrence at or after `from`. */
  lemma {:induction false} FindCharAt(s: string, c: char, from: nat, k: nat)
    requires from <= k < |s| && s[k] == c
    requires forall i :: from <= i < k ==> s[i] != c
    ensures FindChar(s, c, from) == Some(k)
    decreases k - from
  {
    if from < k {
      FindCharAt(s, c, from + 1, k);
    }
  }

  /** Splitting a line off recovers a newline-free first line and the rest. */
  lemma SplitLineAt(h: string, t: string)
    requires '\n' !in h
    ensures SplitLine(h + "\n" + t) == Some((h, t))
  {
    var s := h + "\n" + t;
    FindCharAt(s, '\n', 0, |h|);
    assert s[..|h|] == h && s[|h| + 1..] == t;
  }

  /** `s.split(c)` for a one-character separator. */
  function SplitOn(s: string, c: char): (r: seq<string>)
    ensures |r| >= 1
    ensures forall i :: 0 <= i < |r| ==> c !in r[i]
    decreases |s|
  {
    match FindChar(s, c, 0)
    case None => assert s[0..] == s; [s]
    case Some(i) => assert s[0..i] == s[..i]; [s[..i]] + SplitOn(s[i + 1..], c)
  }

  /** `c.join(parts)`, the inverse of `SplitOn`. */
  function JoinOn(parts: seq<string>, c: char): string
    requires |parts| >= 1
  {
    if |parts| == 1 then parts[0] else parts[0] + [c] + JoinOn(parts[1..], c)
  }

  lemma {:induction false} JoinSplitOn(s: string, c: char)
    ensures JoinOn(SplitOn(s, c), c) == s
    decreases |s|
  {
    match FindChar(s, c, 0)
    case None =>
    case Some(i) =>
      var rest := SplitOn(s[i + 1..], c);
      JoinSplitOn(s[i + 1..], c);
      assert SplitOn(s, c) == [s[..i]] + rest;
      JoinCons(s[..i], rest, c);
      assert s == s[..i] + [c] + s[i + 1..];
  }

  lemma JoinCons(a: string, rest: seq<string>, c: char)
    requires |rest| >= 1
    ensures JoinOn([a] + rest, c) == a + [c] + JoinOn(rest, c)
  {
    assert ([a] + rest)[1..] == rest;
  }

  /** Splitting at the separator right after a separator-free prefix. */
  lemma SplitOnCons(a: string, c: char, b: string)
    requires c !in a
    ensures SplitOn(a + [c] + b, c) == [a] + SplitOn(b, c)
  {
    var s := a + [c] + b;
    assert s[|a|] == c;
    assert s[0..|a|] == a;
    var f := FindChar(s, c, 0);
    assert s[|a|] in s[0..];
    assert f == Some(|a|);
    assert s[|a| + 1..] == b;
  }

  /** A text without newlines has no blank line. */
  lemma NoNewlineNoBreak(s: string)
    requires '\n' !in s
    ensures !HasBreak(s)
  {
    forall i | 0 <= i < |s| ensures !BreakAt(s, i) {
      assert s[i] in s;
    }
  }

  /** Dropping the first element of a suffix leaves the next suffix. */
  lemma SliceTail<T>(xs: seq<T>, i: nat)
    requires i < |xs|
    ensures xs[i..][0] == xs[i] && xs[i..][1..] == xs[i + 1..]
  {
  }

  /** The suffix from 0 is the whole sequence. */
  lemma SliceAll<T>(xs: seq<T>)
    ensures xs[0..] == xs
  {
  }

  /** No separator straddles the seam of `a + b` when `a` does not end in a
      newline or `b` does not start with one. */
  lemma NoBreakConcat(a: string, b: string)
    requires !HasBreak(a) && !HasBreak(b)
    requires a == [] || b == [] || a[|a| - 1] != '\n' || b[0] != '\n'
    ensures !HasBreak(a + b)
  {
    var s := a + b;
    forall i | 0 <= i < |s| ensures !BreakAt(s, i) {
      if i + 1 < |a| {
        assert !BreakAt(a, i);
      } else if i >= |a| {
        assert !BreakAt(b, i - |a|);
      }
    }
  }

  // ---------------------------------------------------------------------------
  // Reading in text mode

  /** The universal-newline translation of a file opened for reading in text
      mode: "\r\n" and a lone "\r" both become "\n". */
  function Newlines(s: string): (r: string)
    ensures |r| <= |s|
    decreases |s|
  {
    if s == [] then []
    else if s[0] == '\r' then "\n" + Newlines(if |s| > 1 && s[1] == '\n' then s[2..] else s[1..])
    else [s[0]] + Newlines(s[1..])
  }

  /** A text without carriage returns reads back as written, and reading it
      before anything else does not disturb what follows. */
  lemma {:induction false} NewlinesPrefix(a: string, b: string)
    requires '\r' !in a
    ensures Newlines(a + b) == a + Newlines(b)
  {
    if a != [] {
      assert (a + b)[0] == a[0];
      assert (a + b)[1..] == a[1..] + b;
      assert a[0] in a;
      NewlinesPrefix(a[1..], b);
    } else {
      assert a + b == b;
    }
  }

  lemma NewlinesKeep(s: string)
    requires '\r' !in s
    ensures Newlines(s) == s
  {
    NewlinesPrefix(s, []);
    assert s + [] == s;
  }

  // ---------------------------------------------------------------------------
  // Case and affixes

  /** ASCII case folding of `str.lower()`; non-ASCII letters are left alone. */
  function LowerChar(c: char): char {
    if 'A' <= c <= 'Z' then (c as int + 32) as char else c
  }

  function Lower(s: string): (r: string)
    ensures |r| == |s| && forall i :: 0 <= i < |s| ==> r[i] == LowerChar(s[i])
  {
    seq(|s|, i requires 0 <= i < |s| => LowerChar(s[i]))
  }

  /** `s.endswith(suffix)`. */
  predicate EndsWith(s: string, suffix: string) {
    |suffix| <= |s| && s[|s| - |suffix|..] == suffix
  }

  /** `s.startswith(prefix)`. */
  predicate StartsWith(s: string, prefix: string) {
    |prefix| <= |s| && s[..|prefix|] == prefix
  }

  lemma StartsWithTrans(c: string, b: string, a: string)
    requires StartsWith(c, b) && StartsWith(b, a)
    ensures StartsWith(c, a)
  {
    assert c[..|a|] == c[..|b|][..|a|];
  }

  /** `"".join(parts)`. */
  function Concat(parts: seq<string>): string {
    if parts == [] then [] else parts[0] + Concat(parts[1..])
  }

  lemma {:induction false} ConcatAppend(a: seq<string>, b: seq<string>)
    ensures Concat(a + b) == Concat(a) + Concat(b)
  {
    if a != [] {
      ConcatAppend(a[1..], b);
      assert (a + b)[0] == a[0];
      assert (a + b)[1..] == a[1..] + b;
    } else {
      assert a + b == b;
    }
  }

  // ---------------------------------------------------------------------------
  // Indexing into built sequences

  lemma ConsAt<T>(x: T, xs: seq<T>, i: nat)
    requires 1 <= i <= |xs|
    ensures ([x] + xs)[i] == xs[i - 1]
  {
  }

  lemma AppendAt<T>(a: seq<T>, b: seq<T>, i: nat)
    requires i < |a| + |b|
    ensures (a + b)[i] == if i < |a| then a[i] else b[i - |a|]
  {
  }

  lemma AppendAssoc<T>(a: seq<T>, b: seq<T>, c: seq<T>)
    ensures a + b + c == a + (b + c)
  {
  }
}
