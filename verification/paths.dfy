/** Paths as lists of components, and the `os.path` operations the scripts use
    on them: `basename`, `join`, `relpath` and `commonpath`. Paths are taken
    already normalised (no empty, `.` or `..` components in watched paths). */
module Paths {

  /** `["src", "a.js"]` stands for `src/a.js` below some directory. */
  type Path = seq<string>

  /** A name the file system can hold as one component: it has no separator. */
  predicate PlainName(c: string)
  {
    '/' !in c
  }

  predicate PlainPath(p: Path)
  {
    forall i :: 0 <= i < |p| ==> PlainName(p[i])
  }

  /** `os.path.basename`: the last component, or "" for the empty path. */
  function Basename(p: Path): string
  {
    if |p| == 0 then "" else p[|p| - 1]
  }

  /** `os.sep.join(components)`. */
  function Join(p: Path): string
  {
    if |p| == 0 then ""
    else if |p| == 1 then p[0]
    else p[0] + "/" + Join(p[1..])
  }

  /** `s.split('/')`: always at least one part. */
  function Split(s: string): (r: Path)
    ensures |r| >= 1
  {
    if |s| == 0 then [""]
    else
      var rest := Split(s[1..]);
      if s[0] == '/' then [""] + rest
      else [[s[0]] + rest[0]] + rest[1..]
  }

  lemma {:induction false} SplitPlain(a: string)
    requires PlainName(a)
    ensures Split(a) == [a]
  {
    if |a| > 0 {
      SplitPlain(a[1..]);
      assert [a[0]] + a[1..] == a;
    }
  }

  lemma {:induction false} SplitAfterName(a: string, t: string)
    requires PlainName(a)
    ensures Split(a + "/" + t) == [a] + Split(t)
  {
    var s := a + "/" + t;
    if |a| == 0 {
      assert s[1..] == t;
    } else {
      assert s[1..] == a[1..] + "/" + t;
      SplitAfterName(a[1..], t);
      assert [a[0]] + a[1..] == a;
    }
  }

  /** Splitting a joined path of plain names gives the names back. */
  lemma {:induction false} SplitJoin(p: Path)
    requires |p| >= 1 && PlainPath(p)
    ensures Split(Join(p)) == p
  {
    if |p| == 1 {
      SplitPlain(p[0]);
    } else {
      SplitAfterName(p[0], Join(p[1..]));
      SplitJoin(p[1..]);
      assert p == [p[0]] + p[1..];
    }
  }

  /** Joining the parts of a split string gives the string back. */
  lemma {:induction false} JoinSplit(s: string)
    ensures Join(Split(s)) == s
  {
    if |s| > 0 {
      var rest := Split(s[1..]);
      JoinSplit(s[1..]);
      if s[0] == '/' {
        assert Split(s) == [""] + rest;
        assert (["" ] + rest)[1..] == rest;
      } else {
        var r := [[s[0]] + rest[0]] + rest[1..];
        assert Split(s) == r;
        assert r[1..] == rest[1..];
        if |rest| == 1 {
          assert Join(r) == [s[0]] + rest[0];
        } else {
          assert Join(rest) == rest[0] + "/" + Join(rest[1..]);
          assert Join(r) == [s[0]] + rest[0] + "/" + Join(rest[1..]);
        }
        assert s == [s[0]] + s[1..];
      }
    }
  }

  /** Distinct non-empty paths of plain names join to distinct strings. */
  lemma JoinInjective(p: Path, q: Path)
    requires |p| >= 1 && PlainPath(p)
    requires |q| >= 1 && PlainPath(q)
    requires Join(p) == Join(q)
    ensures p == q
  {
    SplitJoin(p);
    SplitJoin(q);
  }

  /** Length of the longest common prefix of two component lists. */
  function CommonPrefixLen(a: Path, b: Path): (n: nat)
    ensures n <= |a| && n <= |b|
    ensures a[..n] == b[..n]
    ensures n < |a| && n < |b| ==> a[n] != b[n]
  {
    if |a| == 0 || |b| == 0 || a[0] != b[0] then 0
    else
      var n := 1 + CommonPrefixLen(a[1..], b[1..]);
      assert a == [a[0]] + a[1..] && b == [b[0]] + b[1..];
      n
  }

  /** `os.path.commonpath([a, b])` on normalised paths of the same kind. */
  function CommonPath(a: Path, b: Path): (r: Path)
    ensures r <= a && r <= b
    ensures |r| < |a| && |r| < |b| ==> a[|r|] != b[|r|]
  {
    a[..CommonPrefixLen(a, b)]
  }

  /** `commonpath([path, dir]) == dir` holds exactly when `dir` is an
      ancestor of (or equal to) `path`, component by component; a mere
      string prefix such as `mytest-data` against `test` does not count. */
  lemma CommonPathIsAncestor(path: Path, dir: Path)
    ensures CommonPath(path, dir) == dir <==> dir <= path
  {
    if dir <= path {
      CommonPrefixOfAncestor(path, dir);
    }
  }

  lemma {:induction false} CommonPrefixOfAncestor(path: Path, dir: Path)
    requires dir <= path
    ensures CommonPrefixLen(path, dir) == |dir|
  {
    if |dir| > 0 {
      assert dir[1..] <= path[1..];
      CommonPrefixOfAncestor(path[1..], dir[1..]);
    }
  }

  /** `os.path.relpath(path, start)`: climb out of `start` with `..` as far as
      the common prefix, then descend; the empty result is `.`. */
  function RelPath(start: Path, path: Path): (r: string)
    ensures path == start ==> r == "."
    ensures !(start <= path) ==> ".." <= r
  {
    var i := CommonPrefixLen(path, start);
    var rel := seq(|start| - i, _ => "..") + path[i..];
    if rel == [] then "." else Join(rel)
  }

  /** Below the start directory, `relpath` is the join of the remaining components. */
  lemma RelPathBelow(start: Path, path: Path)
    requires start <= path && |start| < |path|
    ensures RelPath(start, path) == Join(path[|start|..])
  {
    CommonPrefixOfAncestor(path, start);
    var rel := seq(|start| - |start|, _ => "..") + path[|start|..];
    assert rel == path[|start|..];
  }
}
