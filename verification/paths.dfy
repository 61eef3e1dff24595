/** POSIX path handling as the conversion tool relies on it: `split("/")`,
    `join("/")`, dot-segment removal as done by URL resolution and
    `path.resolve`, and `path.relative` between two absolute paths. Absolute
    paths are sequences of segments below the file-system root. */
module Paths {

  /** `s.split("/")`: never empty, and no piece contains a slash. */
  function Split(s: string): (r: seq<string>)
    ensures |r| >= 1
    ensures forall i :: 0 <= i < |r| ==> '/' !in r[i]
    decreases |s|
  {
    if |s| == 0 then [""]
    else
      var rest := Split(s[1..]);
      if s[0] == '/' then [""] + rest
      else [[s[0]] + rest[0]] + rest[1..]
  }

  /** `segs.join("/")`. */
  function Join(segs: seq<string>): string
    decreases |segs|
  {
    if |segs| == 0 then ""
    else if |segs| == 1 then segs[0]
    else segs[0] + "/" + Join(segs[1..])
  }

  /** `s.split("/")[0]`: everything before the first slash. */
  function FirstSegment(s: string): (r: string)
    ensures '/' !in r
    ensures |r| <= |s| && s[..|r|] == r
    ensures |r| < |s| ==> s[|r|] == '/'
  {
    JoinSplit(s);
    var parts := Split(s);
    if |parts| > 1 then JoinPrefix(parts); parts[0] else parts[0]
  }

  /** A slash-free head followed by a slash is the first segment. */
  lemma FirstSegmentOf(a: string, b: string)
    requires '/' !in a
    ensures FirstSegment(a + "/" + b) == a
  {
    SplitAfterSegment(a, b);
    assert FirstSegment(a + "/" + b) == Split(a + "/" + b)[0];
  }

  lemma {:induction false} JoinPrefix(segs: seq<string>)
    requires |segs| > 1
    ensures Join(segs) == segs[0] + "/" + Join(segs[1..])
  {
  }

  /** Splitting and re-joining gives back the original string. */
  lemma {:induction false} JoinSplit(s: string)
    ensures Join(Split(s)) == s
    decreases |s|
  {
    if |s| > 0 {
      var rest := Split(s[1..]);
      JoinSplit(s[1..]);
      if s[0] == '/' {
        assert Split(s) == [""] + rest;
        assert Join([""] + rest) == "" + "/" + Join(rest);
        assert s == [s[0]] + s[1..];
      } else if |rest| == 1 {
        assert s == [s[0]] + s[1..];
      } else {
        assert Join(rest) == rest[0] + "/" + Join(rest[1..]);
        assert Split(s)[1..] == rest[1..];
        assert s == [s[0]] + s[1..];
      }
    }
  }

  /** A slash-free head followed by a slash splits off as one piece. */
  lemma {:induction false} SplitAfterSegment(a: string, b: string)
    requires '/' !in a
    ensures Split(a + "/" + b) == [a] + Split(b)
    decreases |a|
  {
    if |a| == 0 {
      assert a + "/" + b == "/" + b;
      assert ("/" + b)[1..] == b;
    } else {
      SplitAfterSegment(a[1..], b);
      assert (a + "/" + b)[1..] == a[1..] + "/" + b;
      assert [a[0]] + a[1..] == a;
    }
  }

  lemma {:induction false} SplitOfSegment(a: string)
    requires '/' !in a
    ensures Split(a) == [a]
    decreases |a|
  {
    if |a| > 0 {
      SplitOfSegment(a[1..]);
      assert [a[0]] + a[1..] == a;
    }
  }

  /** Joining slash-free pieces and splitting again gives back the pieces. */
  lemma {:induction false} SplitJoin(segs: seq<string>)
    requires |segs| >= 1
    requires forall i :: 0 <= i < |segs| ==> '/' !in segs[i]
    ensures Split(Join(segs)) == segs
    decreases |segs|
  {
    if |segs| == 1 {
      SplitOfSegment(segs[0]);
    } else {
      SplitJoin(segs[1..]);
      SplitAfterSegment(segs[0], Join(segs[1..]));
      assert segs == [segs[0]] + segs[1..];
    }
  }

  /** A segment of a normalised path: not empty, not `.` or `..`, no slash. */
  predicate NormalSegment(x: string) {
    x != "" && x != "." && x != ".." && '/' !in x
  }

  predicate NormalPath(p: seq<string>) {
    forall i :: 0 <= i < |p| ==> NormalSegment(p[i])
  }

  /** One step of dot-segment removal: empty and `.` segments vanish, `..`
      drops the last segment (and stays at the root), anything else is appended. */
  function Step(acc: seq<string>, seg: string): seq<string> {
    if seg == "" || seg == "." then acc
    else if seg == ".." then (if |acc| == 0 then acc else acc[..|acc| - 1])
    else acc + [seg]
  }

  /** Resolve the segments `segs` against the absolute directory `acc`. */
  function Normalize(acc: seq<string>, segs: seq<string>): (r: seq<string>)
    requires NormalPath(acc)
    requires forall i :: 0 <= i < |segs| ==> '/' !in segs[i]
    ensures NormalPath(r)
    decreases |segs|
  {
    if |segs| == 0 then acc
    else Normalize(Step(acc, segs[0]), segs[1..])
  }

  /** The absolute path a `/`-separated path string denotes, taken from `dir`
      when it is relative (`path.resolve(dir, s)`; a leading slash restarts at the root). */
  function Resolve(dir: seq<string>, s: string): (r: seq<string>)
    requires NormalPath(dir)
    ensures NormalPath(r)
  {
    var parts := Split(s);
    if parts[0] == "" && |parts| > 1 then Normalize([], parts) else Normalize(dir, parts)
  }

  /** Dot-segment removal only ever lands on normalised paths, so resolving a
      normalised path against anything returns it. */
  lemma {:induction false} NormalizeNormal(acc: seq<string>, segs: seq<string>)
    requires NormalPath(acc) && NormalPath(segs)
    ensures Normalize(acc, segs) == acc + segs
    decreases |segs|
  {
    if |segs| > 0 {
      NormalizeNormal(acc + [segs[0]], segs[1..]);
      assert acc + [segs[0]] + segs[1..] == acc + segs;
    }
  }

  function Ups(n: nat): (r: seq<string>)
    ensures |r| == n
    ensures forall i :: 0 <= i < n ==> r[i] == ".."
  {
    if n == 0 then [] else [".."] + Ups(n - 1)
  }

  lemma {:induction false} NormalizeUps(acc: seq<string>, n: nat, rest: seq<string>)
    requires NormalPath(acc) && n <= |acc|
    requires forall i :: 0 <= i < |rest| ==> '/' !in rest[i]
    ensures Normalize(acc, Ups(n) + rest) == Normalize(acc[..|acc| - n], rest)
    decreases n
  {
    if n > 0 {
      assert (Ups(n) + rest)[0] == "..";
      assert (Ups(n) + rest)[1..] == Ups(n - 1) + rest;
      assert Normalize(acc, Ups(n) + rest) == Normalize(acc[..|acc| - 1], Ups(n - 1) + rest);
      NormalizeUps(acc[..|acc| - 1], n - 1, rest);
      assert acc[..|acc| - 1][..|acc| - 1 - (n - 1)] == acc[..|acc| - n];
    } else {
      assert Ups(n) + rest == rest;
      assert acc[..|acc| - n] == acc;
    }
  }

  /** Length of the longest common prefix. */
  function CommonPrefix(a: seq<string>, b: seq<string>): (k: nat)
    ensures k <= |a| && k <= |b|
    ensures a[..k] == b[..k]
    ensures k < |a| && k < |b| ==> a[k] != b[k]
    decreases |a|
  {
    if |a| == 0 || |b| == 0 || a[0] != b[0] then 0
    else
      var k := CommonPrefix(a[1..], b[1..]);
      assert a[..k + 1] == [a[0]] + a[1..][..k];
      assert b[..k + 1] == [b[0]] + b[1..][..k];
      k + 1
  }

  /** `path.relative(from, to)` as segments: climb out of `from` to the
      common ancestor, then descend into `to`. */
  function RelativeSegments(from: seq<string>, to: seq<string>): seq<string> {
    var k := CommonPrefix(from, to);
    Ups(|from| - k) + to[k..]
  }

  /** `path.relative(from, to)` between two absolute paths. */
  function Relative(from: seq<string>, to: seq<string>): string {
    Join(RelativeSegments(from, to))
  }

  /** The pieces of a relative path are `..` or segments of `to`: never
      empty and free of slashes. */
  lemma RelativeSegmentsShape(from: seq<string>, to: seq<string>)
    requires NormalPath(to)
    ensures forall i :: 0 <= i < |RelativeSegments(from, to)| ==>
              RelativeSegments(from, to)[i] != "" && '/' !in RelativeSegments(from, to)[i]
  {
    var k := CommonPrefix(from, to);
    var segs := RelativeSegments(from, to);
    forall i | 0 <= i < |segs|
      ensures segs[i] != "" && '/' !in segs[i]
    {
      if i >= |from| - k {
        assert segs[i] == to[k + (i - (|from| - k))];
      }
    }
  }

  lemma SuffixNormal(to: seq<string>, k: nat)
    requires NormalPath(to) && k <= |to|
    ensures NormalPath(to[k..])
  {
    forall i | 0 <= i < |to[k..]|
      ensures NormalSegment(to[k..][i])
    {
      assert to[k..][i] == to[k + i];
    }
  }

  /** `relative` of a path to itself is empty, and resolving the empty
      path stays where it is. */
  lemma ResolveEmpty(from: seq<string>)
    requires NormalPath(from)
    ensures Resolve(from, "") == from
  {
    assert Split("") == [""];
    assert Normalize(from, [""]) == Normalize(Step(from, ""), [""][1..]) == from;
  }

  /** Resolving the relative path from `from` to `to` against `from` lands
      on `to`: `relative` and `resolve` are inverse. */
  lemma {:induction false} ResolveRelative(from: seq<string>, to: seq<string>)
    requires NormalPath(from) && NormalPath(to)
    ensures Resolve(from, Relative(from, to)) == to
  {
    var k := CommonPrefix(from, to);
    var segs := RelativeSegments(from, to);
    var tail := to[k..];
    SuffixNormal(to, k);
    if |segs| == 0 {
      assert Relative(from, to) == "";
      ResolveEmpty(from);
      assert k == |from| && k == |to|;
      assert from == from[..k] == to[..k] == to;
    } else {
      RelativeSegmentsShape(from, to);
      SplitJoin(segs);
      NormalizeUps(from, |from| - k, tail);
      NormalizeNormal(from[..k], tail);
      assert from[..k] == to[..k];
      SliceSplit(to, k);
    }
  }

  lemma SliceSplit<T>(s: seq<T>, k: nat)
    requires k <= |s|
    ensures s[..k] + s[k..] == s
  {
  }

  /** A path produced by `relative` never starts at the root, so resolving
      it against any directory walks its pieces from that directory. */
  lemma RelativeIsNotRooted(from: seq<string>, to: seq<string>, dir: seq<string>)
    requires NormalPath(to) && NormalPath(dir)
    ensures Resolve(dir, Relative(from, to)) == Normalize(dir, Split(Relative(from, to)))
  {
    var segs := RelativeSegments(from, to);
    RelativeSegmentsShape(from, to);
    if |segs| > 0 {
      SplitJoin(segs);
    }
  }

  /** The common prefix of a path and a path below it is the former. */
  lemma {:induction false} CommonPrefixBelow(a: seq<string>, x: seq<string>)
    ensures CommonPrefix(a, a + x) == |a|
    decreases |a|
  {
    if |a| > 0 {
      assert (a + x)[0] == a[0] && (a + x)[1..] == a[1..] + x;
      CommonPrefixBelow(a[1..], x);
    }
  }

  /** `relative(a, p)` for `p` below `a` lists the segments below `a`. */
  lemma RelativeBelow(a: seq<string>, x: seq<string>)
    ensures Relative(a, a + x) == Join(x)
  {
    CommonPrefixBelow(a, x);
    assert (a + x)[|a|..] == x;
    assert RelativeSegments(a, a + x) == Ups(0) + x;
    assert Ups(0) + x == x;
  }

  lemma AppendAssoc<T>(a: seq<T>, b: seq<T>, c: seq<T>)
    ensures a + b + c == a + (b + c)
  {
  }

  lemma JoinHead(head: string, rest: seq<string>)
    requires |rest| > 0
    ensures Join([head] + rest) == head + "/" + Join(rest)
  {
    var x := [head] + rest;
    JoinPrefix(x);
    assert x[0] == head && x[1..] == rest;
  }

  /** A path inside package directory `pkg` is `pkg/...` relative to the
      working directory. */
  lemma PathInPackage(cwd: seq<string>, pkg: string, rest: seq<string>)
    requires |rest| > 0
    ensures Relative(cwd, cwd + [pkg] + rest) == pkg + "/" + Join(rest)
  {
    var x := [pkg] + rest;
    AppendAssoc(cwd, [pkg], rest);
    RelativeBelow(cwd, x);
    JoinHead(pkg, rest);
  }
}
