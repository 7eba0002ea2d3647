/** `sorted(...)` over a finite set of strings, under Python's code-point order. */
module Sorted {
  import opened Strings

  predicate StrictlyAscending(s: seq<string>)
  {
    forall i, j :: 0 <= i < j < |s| ==> Less(s[i], s[j])
  }

  /** `m` is the smallest element of `s`. */
  predicate IsLeast(m: string, s: set<string>)
  {
    m in s && forall y :: y in s && y != m ==> Less(m, y)
  }

  lemma {:induction false} LeastExists(s: set<string>)
    requires s != {}
    ensures exists m :: IsLeast(m, s)
    decreases |s|
  {
    var x :| x in s;
    if s - {x} == {} {
      assert s == {x};
      assert IsLeast(x, s);
    } else {
      LeastExists(s - {x});
      var m :| IsLeast(m, s - {x});
      LessIsStrictTotalOrder();
      if Less(x, m) {
        assert IsLeast(x, s);
      } else {
        assert IsLeast(m, s);
      }
    }
  }

  lemma LeastUnique(s: set<string>)
    ensures forall m, m' :: IsLeast(m, s) && IsLeast(m', s) ==> m == m'
  {
    LessIsStrictTotalOrder();
  }

  lemma PrependLeast(m: string, rest: seq<string>)
    requires StrictlyAscending(rest)
    requires forall x :: x in rest ==> Less(m, x)
    ensures StrictlyAscending([m] + rest)
  {
    var r := [m] + rest;
    forall i, j | 0 <= i < j < |r|
      ensures Less(r[i], r[j])
    {
      assert r[j] == rest[j - 1];
      if i > 0 {
        assert r[i] == rest[i - 1];
      } else {
        assert r[j] in rest;
      }
    }
  }

  /** `sorted(s)`: the elements of `s`, each once, in ascending order. */
  function SortedKeys(s: set<string>): (r: seq<string>)
    ensures StrictlyAscending(r)
    ensures |r| == |s|
    ensures forall x :: x in r <==> x in s
    decreases |s|
  {
    if s == {} then []
    else
      LeastExists(s);
      LeastUnique(s);
      var m :| IsLeast(m, s);
      var rest := SortedKeys(s - {m});
      PrependLeast(m, rest);
      [m] + rest
  }

  lemma HeadIsLeast(a: seq<string>)
    requires StrictlyAscending(a) && a != []
    ensures IsLeast(a[0], set x | x in a)
  {
    forall y | y in a && y != a[0]
      ensures Less(a[0], y)
    {
      var k :| 0 <= k < |a| && a[k] == y;
    }
  }

  /** At most one strictly ascending sequence lists a given set, so `SortedKeys`
      is determined by its contract. */
  lemma {:induction false} AscendingUnique(a: seq<string>, b: seq<string>)
    requires StrictlyAscending(a) && StrictlyAscending(b)
    requires forall x :: x in a <==> x in b
    ensures a == b
    decreases |a|
  {
    LessIsStrictTotalOrder();
    if a != [] {
      assert a[0] in a;
    }
    if b != [] {
      assert b[0] in b;
    }
    if a != [] && b != [] {
      var elems := set x | x in a;
      assert elems == set x | x in b;
      HeadIsLeast(a);
      HeadIsLeast(b);
      LeastUnique(elems);
      forall x | x in a[1..]
        ensures x in b[1..]
      {
        var i :| 1 <= i < |a| && a[i] == x;
        assert x in a;
        var j :| 0 <= j < |b| && b[j] == x;
        assert Less(a[0], a[i]);
        assert j != 0;
        assert b[1..][j - 1] == x;
      }
      forall x | x in b[1..]
        ensures x in a[1..]
      {
        var j :| 1 <= j < |b| && b[j] == x;
        assert x in b;
        var i :| 0 <= i < |a| && a[i] == x;
        assert Less(b[0], b[j]);
        assert i != 0;
        assert a[1..][i - 1] == x;
      }
      AscendingUnique(a[1..], b[1..]);
      assert a == [a[0]] + a[1..];
      assert b == [b[0]] + b[1..];
    }
  }

  /** Slotting `k` between the elements below it and those above it keeps a
      strictly ascending sequence strictly ascending. */
  lemma InsertAscending(ks: seq<string>, i: nat, k: string)
    requires StrictlyAscending(ks) && i <= |ks|
    requires forall j :: 0 <= j < i ==> Less(ks[j], k)
    requires forall j :: i <= j < |ks| ==> Less(k, ks[j])
    ensures StrictlyAscending(ks[..i] + [k] + ks[i..])
  {
    var c := ks[..i] + [k] + ks[i..];
    forall a, b | 0 <= a < b < |c|
      ensures Less(c[a], c[b])
    {
      if b < i {
        assert c[a] == ks[a] && c[b] == ks[b];
      } else if b == i {
        assert c[a] == ks[a] && c[b] == k;
      } else if a < i {
        assert c[a] == ks[a] && c[b] == ks[b - 1];
        LessTransitive(ks[a], k, ks[b - 1]);
      } else if a == i {
        assert c[a] == k && c[b] == ks[b - 1];
      } else {
        assert c[a] == ks[a - 1] && c[b] == ks[b - 1];
      }
    }
  }

  /** The position in an ascending sequence that separates the elements below
      `k` from those above it, when `k` itself is absent. */
  lemma SplitPoint(ks: seq<string>, k: string) returns (i: nat)
    requires StrictlyAscending(ks) && k !in ks
    ensures i <= |ks|
    ensures forall j :: 0 <= j < i ==> Less(ks[j], k)
    ensures forall j :: i <= j < |ks| ==> Less(k, ks[j])
  {
    i := 0;
    while i < |ks| && Less(ks[i], k)
      invariant 0 <= i <= |ks|
      invariant forall j :: 0 <= j < i ==> Less(ks[j], k)
    {
      i := i + 1;
    }
    if i < |ks| {
      LessTotal(k, ks[i]);
      forall j | i < j < |ks|
        ensures Less(k, ks[j])
      {
        LessTransitive(k, ks[i], ks[j]);
      }
    }
  }

  /** Sorting a set with one more element `k` slots `k` in between the smaller
      and the larger elements, which keep their relative order. */
  lemma SortedKeysInsert(s: set<string>, k: string) returns (i: nat)
    requires k !in s
    ensures i <= |SortedKeys(s)|
    ensures SortedKeys(s + {k}) == SortedKeys(s)[..i] + [k] + SortedKeys(s)[i..]
    ensures forall j :: 0 <= j < i ==> Less(SortedKeys(s)[j], k)
    ensures forall j :: i <= j < |SortedKeys(s)| ==> Less(k, SortedKeys(s)[j])
  {
    var ks := SortedKeys(s);
    i := SplitPoint(ks, k);
    InsertAscending(ks, i, k);
    var candidate := ks[..i] + [k] + ks[i..];
    var all := SortedKeys(s + {k});
    forall x
      ensures x in candidate <==> x in all
    {
      assert ks == ks[..i] + ks[i..];
      assert x in candidate <==> x in ks[..i] || x == k || x in ks[i..];
    }
    AscendingUnique(candidate, all);
  }
}
