/** The directory tree both scripts scan, and the `os.walk` traversal they run
    over it: top-down, `dirs[:]` pruned of excluded names, `dirs.sort()` and
    `files.sort()`, each directory's files handled before its subdirectories. */
module FileTree {
  import opened Strings
  import opened Sorted
  import opened Paths

  datatype Option<T> = None | Some(value: T)

  /** What `open(path, 'r', encoding='utf-8').read()` gives: the text, or a
      failure (permission, decoding, a file gone in the meantime). */
  datatype Read = Ok(text: string) | ReadError

  /** A directory: its files by name, and its subdirectories by name. */
  datatype Tree = Dir(files: map<string, Read>, subdirs: map<string, Tree>)

  /** Every name in the tree is a plain path component. */
  predicate WellFormed(t: Tree)
  {
    && (forall n :: n in t.files ==> PlainName(n))
    && (forall d :: d in t.subdirs ==> PlainName(d) && WellFormed(t.subdirs[d]))
  }

  /** The file at relative path `p`, if there is one. */
  function Lookup(t: Tree, p: Path): Option<Read>
    decreases |p|
  {
    if |p| == 0 then None
    else if |p| == 1 then (if p[0] in t.files then Some(t.files[p[0]]) else None)
    else if p[0] in t.subdirs then Lookup(t.subdirs[p[0]], p[1..])
    else None
  }

  lemma {:induction false} LookupPlain(t: Tree, p: Path)
    requires WellFormed(t) && Lookup(t, p).Some?
    ensures |p| >= 1 && PlainPath(p)
    decreases |p|
  {
    if |p| > 1 {
      LookupPlain(t.subdirs[p[0]], p[1..]);
      assert p == [p[0]] + p[1..];
    }
  }

  /** Some directory on the way to the file `p` has an excluded name, so a
      walk pruning those names never reaches it. */
  predicate Pruned(p: Path, excludeDirs: seq<string>)
  {
    exists i :: 0 <= i < |p| - 1 && p[i] in excludeDirs
  }

  lemma PrunedStep(p: Path, excludeDirs: seq<string>)
    requires |p| >= 2
    ensures Pruned(p, excludeDirs) <==> p[0] in excludeDirs || Pruned(p[1..], excludeDirs)
  {
    if Pruned(p, excludeDirs) && p[0] !in excludeDirs {
      var i :| 0 <= i < |p| - 1 && p[i] in excludeDirs;
      assert p[1..][i - 1] == p[i];
    }
    if Pruned(p[1..], excludeDirs) {
      var i :| 0 <= i < |p| - 2 && p[1..][i] in excludeDirs;
      assert p[i + 1] == p[1..][i];
    }
  }

  /** The subdirectories the walk descends into, in order. */
  function KeptDirs(t: Tree, excludeDirs: seq<string>): seq<string>
  {
    SortedKeys(set d | d in t.subdirs && d !in excludeDirs)
  }

  /** Prefix every path of a subdirectory's walk with the subdirectory's name. */
  function Under(d: string, items: seq<(Path, Read)>): (r: seq<(Path, Read)>)
    ensures |r| == |items|
    ensures forall i :: 0 <= i < |r| ==> r[i] == ([d] + items[i].0, items[i].1)
  {
    seq(|items|, i requires 0 <= i < |items| => ([d] + items[i].0, items[i].1))
  }

  /** The files an `os.walk` over `t` hands to the loop body and that `keep`
      accepts by bare name, with their relative paths and reads, in walk order. */
  function Visit(t: Tree, keep: string -> bool, excludeDirs: seq<string>): seq<(Path, Read)>
    decreases t, 1, 0
  {
    VisitFiles(SortedKeys(t.files.Keys), t.files, keep)
    + VisitDirs(t, KeptDirs(t, excludeDirs), keep, excludeDirs)
  }

  function VisitFiles(names: seq<string>, files: map<string, Read>, keep: string -> bool): seq<(Path, Read)>
    requires forall n :: n in names ==> n in files
  {
    if names == [] then []
    else
      (if keep(names[0]) then [([names[0]], files[names[0]])] else [])
      + VisitFiles(names[1..], files, keep)
  }

  function VisitDirs(t: Tree, names: seq<string>, keep: string -> bool, excludeDirs: seq<string>): seq<(Path, Read)>
    requires forall n :: n in names ==> n in t.subdirs
    decreases t, 0, |names|
  {
    if names == [] then []
    else
      Under(names[0], Visit(t.subdirs[names[0]], keep, excludeDirs))
      + VisitDirs(t, names[1..], keep, excludeDirs)
  }

  /** The reference meaning of one walk item: a file of the tree, accepted by
      name, on no pruned directory. */
  ghost predicate Reached(t: Tree, keep: string -> bool, excludeDirs: seq<string>, p: Path, r: Read)
  {
    Lookup(t, p) == Some(r) && keep(Basename(p)) && !Pruned(p, excludeDirs)
  }

  lemma {:induction false} VisitFilesMembers(names: seq<string>, files: map<string, Read>, keep: string -> bool, p: Path, r: Read)
    requires forall n :: n in names ==> n in files
    ensures (p, r) in VisitFiles(names, files, keep)
      <==> |p| == 1 && p[0] in names && keep(p[0]) && r == files[p[0]]
  {
    if names != [] {
      var n := names[0];
      var head := if keep(n) then [([n], files[n])] else [];
      VisitFilesMembers(names[1..], files, keep, p, r);
      assert VisitFiles(names, files, keep) == head + VisitFiles(names[1..], files, keep);
      if |p| == 1 && p[0] == n && keep(n) && r == files[n] {
        assert p == [n];
        assert (p, r) in head;
      }
      if |p| == 1 && p[0] in names && p[0] != n {
        assert p[0] in names[1..];
      }
    }
  }

  lemma UnderMembers(d: string, items: seq<(Path, Read)>, p: Path, r: Read)
    ensures (p, r) in Under(d, items) <==> |p| >= 1 && p[0] == d && (p[1..], r) in items
  {
    var u := Under(d, items);
    if (p, r) in u {
      var i :| 0 <= i < |u| && u[i] == (p, r);
      assert p[1..] == items[i].0;
    }
    if |p| >= 1 && p[0] == d && (p[1..], r) in items {
      var i :| 0 <= i < |items| && items[i] == (p[1..], r);
      assert [d] + p[1..] == p;
      assert u[i] == (p, r);
    }
  }

  lemma {:induction false} VisitDirsMembers(t: Tree, names: seq<string>, keep: string -> bool, excludeDirs: seq<string>, p: Path, r: Read)
    requires forall n :: n in names ==> n in t.subdirs
    ensures (p, r) in VisitDirs(t, names, keep, excludeDirs)
      <==> |p| >= 2 && p[0] in names && Reached(t.subdirs[p[0]], keep, excludeDirs, p[1..], r)
    decreases t, 0, |names|
  {
    if names != [] {
      var d := names[0];
      var sub := Visit(t.subdirs[d], keep, excludeDirs);
      VisitDirsMembers(t, names[1..], keep, excludeDirs, p, r);
      UnderMembers(d, sub, p, r);
      if |p| >= 1 {
        VisitMembers(t.subdirs[d], keep, excludeDirs, p[1..], r);
      }
      if |p| >= 1 && p[0] in names && p[0] != d {
        assert p[0] in names[1..];
      }
    }
  }

  lemma VisitNonEmptyPaths(t: Tree, keep: string -> bool, excludeDirs: seq<string>, i: int)
    requires 0 <= i < |Visit(t, keep, excludeDirs)|
    ensures |Visit(t, keep, excludeDirs)[i].0| >= 1
    decreases t, 2, 0
  {
    var v := Visit(t, keep, excludeDirs);
    VisitMembers(t, keep, excludeDirs, v[i].0, v[i].1);
    assert v[i] in v;
  }

  /** The walk hands over exactly the reached files of the tree: every file
      accepted by name and not below a pruned directory, with its own read,
      and nothing else. */
  lemma {:induction false} VisitMembers(t: Tree, keep: string -> bool, excludeDirs: seq<string>, p: Path, r: Read)
    ensures (p, r) in Visit(t, keep, excludeDirs) <==> Reached(t, keep, excludeDirs, p, r)
    decreases t, 1, 0
  {
    var names := SortedKeys(t.files.Keys);
    var dirs := KeptDirs(t, excludeDirs);
    VisitFilesMembers(names, t.files, keep, p, r);
    VisitDirsMembers(t, dirs, keep, excludeDirs, p, r);
    if |p| >= 2 {
      PrunedStep(p, excludeDirs);
      assert Basename(p) == Basename(p[1..]);
    }
    if |p| == 1 {
      assert !Pruned(p, excludeDirs);
    }
  }

  /** The order `os.walk` visits files in, stated on the paths alone: within a
      directory, its files in name order, then its subdirectories in name
      order. It is not the lexicographic order of the joined paths. */
  predicate WalkBefore(p: Path, q: Path)
    decreases |p|
  {
    if |p| == 0 || |q| == 0 then false
    else if |p| == 1 && |q| == 1 then Less(p[0], q[0])
    else if |p| == 1 then true
    else if |q| == 1 then false
    else if p[0] == q[0] then WalkBefore(p[1..], q[1..])
    else Less(p[0], q[0])
  }

  predicate WalkOrdered(items: seq<(Path, Read)>)
  {
    forall i, j :: 0 <= i < j < |items| ==> WalkBefore(items[i].0, items[j].0)
  }

  lemma WalkOrderedConcat(a: seq<(Path, Read)>, b: seq<(Path, Read)>)
    requires WalkOrdered(a) && WalkOrdered(b)
    requires forall x, y :: x in a && y in b ==> WalkBefore(x.0, y.0)
    ensures WalkOrdered(a + b)
  {
    var c := a + b;
    forall i, j | 0 <= i < j < |c|
      ensures WalkBefore(c[i].0, c[j].0)
    {
      if j < |a| {
        assert c[i] == a[i] && c[j] == a[j];
      } else if i >= |a| {
        assert c[i] == b[i - |a|] && c[j] == b[j - |a|];
      } else {
        assert c[i] == a[i] && c[j] == b[j - |a|];
        assert a[i] in a && b[j - |a|] in b;
      }
    }
  }

  lemma {:induction false} VisitFilesOrdered(names: seq<string>, files: map<string, Read>, keep: string -> bool)
    requires forall n :: n in names ==> n in files
    requires StrictlyAscending(names)
    ensures WalkOrdered(VisitFiles(names, files, keep))
  {
    if names != [] {
      var head := if keep(names[0]) then [([names[0]], files[names[0]])] else [];
      var tail := VisitFiles(names[1..], files, keep);
      VisitFilesOrdered(names[1..], files, keep);
      forall x, y | x in head && y in tail
        ensures WalkBefore(x.0, y.0)
      {
        VisitFilesMembers(names[1..], files, keep, y.0, y.1);
        var k :| 0 <= k < |names[1..]| && names[1..][k] == y.0[0];
        assert names[k + 1] == y.0[0];
      }
      WalkOrderedConcat(head, tail);
    }
  }

  lemma UnderOrdered(d: string, items: seq<(Path, Read)>)
    requires WalkOrdered(items)
    requires forall i :: 0 <= i < |items| ==> |items[i].0| >= 1
    ensures WalkOrdered(Under(d, items))
  {
    var u := Under(d, items);
    forall i, j | 0 <= i < j < |u|
      ensures WalkBefore(u[i].0, u[j].0)
    {
      assert u[i].0[1..] == items[i].0 && u[j].0[1..] == items[j].0;
    }
  }

  lemma {:induction false} VisitDirsOrdered(t: Tree, names: seq<string>, keep: string -> bool, excludeDirs: seq<string>)
    requires forall n :: n in names ==> n in t.subdirs
    requires StrictlyAscending(names)
    ensures WalkOrdered(VisitDirs(t, names, keep, excludeDirs))
    decreases t, 0, |names|
  {
    if names != [] {
      var d := names[0];
      var sub := Visit(t.subdirs[d], keep, excludeDirs);
      var here := Under(d, sub);
      var rest := VisitDirs(t, names[1..], keep, excludeDirs);
      VisitOrdered(t.subdirs[d], keep, excludeDirs);
      forall i | 0 <= i < |sub|
        ensures |sub[i].0| >= 1
      {
        VisitNonEmptyPaths(t.subdirs[d], keep, excludeDirs, i);
      }
      UnderOrdered(d, sub);
      VisitDirsOrdered(t, names[1..], keep, excludeDirs);
      forall x, y | x in here && y in rest
        ensures WalkBefore(x.0, y.0)
      {
        EarlierDirFirst(t, names, keep, excludeDirs, x, y);
      }
      WalkOrderedConcat(here, rest);
    }
  }

  /** Everything under the first directory walks before everything under the later ones. */
  lemma EarlierDirFirst(t: Tree, names: seq<string>, keep: string -> bool, excludeDirs: seq<string>, x: (Path, Read), y: (Path, Read))
    requires forall n :: n in names ==> n in t.subdirs
    requires StrictlyAscending(names) && names != []
    requires x in Under(names[0], Visit(t.subdirs[names[0]], keep, excludeDirs))
    requires y in VisitDirs(t, names[1..], keep, excludeDirs)
    ensures WalkBefore(x.0, y.0)
  {
    var d := names[0];
    var here := Under(d, Visit(t.subdirs[d], keep, excludeDirs));
    UnderMembers(d, Visit(t.subdirs[d], keep, excludeDirs), x.0, x.1);
    VisitDirsMembers(t, names[1..], keep, excludeDirs, y.0, y.1);
    var k :| 0 <= k < |names[1..]| && names[1..][k] == y.0[0];
    assert names[k + 1] == y.0[0];
    assert Less(d, y.0[0]);
    LessIrreflexive(d);
    assert |x.0| >= 1 && x.0[0] == d && |y.0| >= 2;
  }

  /** The walk lists files in `WalkBefore` order: each directory's own files
      (sorted) come before everything in its subdirectories (sorted). */
  lemma {:induction false} VisitOrdered(t: Tree, keep: string -> bool, excludeDirs: seq<string>)
    ensures WalkOrdered(Visit(t, keep, excludeDirs))
    decreases t, 1, 0
  {
    var names := SortedKeys(t.files.Keys);
    var dirs := KeptDirs(t, excludeDirs);
    var fs := VisitFiles(names, t.files, keep);
    var ds := VisitDirs(t, dirs, keep, excludeDirs);
    VisitFilesOrdered(names, t.files, keep);
    VisitDirsOrdered(t, dirs, keep, excludeDirs);
    forall x, y | x in fs && y in ds
      ensures WalkBefore(x.0, y.0)
    {
      VisitFilesMembers(names, t.files, keep, x.0, x.1);
      VisitDirsMembers(t, dirs, keep, excludeDirs, y.0, y.1);
    }
    WalkOrderedConcat(fs, ds);
  }
}
