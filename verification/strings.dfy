/** Python string primitives the two scripts rely on: `str.endswith`, the
    `any(name.endswith(x) for x in suffixes)` idiom (and the equivalent
    `name.endswith(tuple)`), and the code-point ordering that `sorted` uses. */
module Strings {

  /** `s.endswith(suffix)`; the empty suffix ends every string. */
  predicate EndsWith(s: string, suffix: string)
  {
    |suffix| <= |s| && s[|s| - |suffix|..] == suffix
  }

  /** `any(name.endswith(x) for x in suffixes)`, scanned left to right. */
  predicate AnyEndsWith(name: string, suffixes: seq<string>)
  {
    if suffixes == [] then false
    else EndsWith(name, suffixes[0]) || AnyEndsWith(name, suffixes[1..])
  }

  /** The left-to-right scan answers exactly "some listed suffix ends the name". */
  lemma {:induction false} AnyEndsWithMeansSome(name: string, suffixes: seq<string>)
    ensures AnyEndsWith(name, suffixes) <==> exists x :: x in suffixes && EndsWith(name, x)
    decreases |suffixes|
  {
    if suffixes != [] {
      AnyEndsWithMeansSome(name, suffixes[1..]);
      if !EndsWith(name, suffixes[0]) {
        forall x | x in suffixes && EndsWith(name, x)
          ensures x in suffixes[1..]
        {
          var i :| 0 <= i < |suffixes| && suffixes[i] == x;
          assert i != 0;
          assert suffixes[1..][i - 1] == x;
        }
      }
    }
  }

  /** Python's `a < b` on `str`: lexicographic by code point, and a proper
      prefix sorts before the longer string. */
  predicate Less(a: string, b: string)
    decreases |a|
  {
    if |a| == 0 then |b| > 0
    else if |b| == 0 then false
    else if a[0] != b[0] then a[0] < b[0]
    else Less(a[1..], b[1..])
  }

  lemma LessIrreflexive(a: string)
    ensures !Less(a, a)
    decreases |a|
  {
    if |a| > 0 {
      LessIrreflexive(a[1..]);
    }
  }

  lemma LessTransitive(a: string, b: string, c: string)
    requires Less(a, b) && Less(b, c)
    ensures Less(a, c)
    decreases |a|
  {
    if |a| > 0 && |b| > 0 && |c| > 0 && a[0] == b[0] && b[0] == c[0] {
      LessTransitive(a[1..], b[1..], c[1..]);
    }
  }

  lemma LessTotal(a: string, b: string)
    requires a != b
    ensures Less(a, b) || Less(b, a)
    decreases |a|
  {
    if |a| > 0 && |b| > 0 && a[0] == b[0] {
      assert a == [a[0]] + a[1..] && b == [b[0]] + b[1..];
      LessTotal(a[1..], b[1..]);
    }
  }

  lemma LessAsymmetric(a: string, b: string)
    requires Less(a, b)
    ensures !Less(b, a)
  {
    if Less(b, a) {
      LessTransitive(a, b, a);
      LessIrreflexive(a);
    }
  }

  /** `Less` is a strict total order on strings. */
  lemma LessIsStrictTotalOrder()
    ensures forall a: string :: !Less(a, a)
    ensures forall a: string, b: string :: Less(a, b) ==> !Less(b, a)
    ensures forall a: string, b: string, c: string :: Less(a, b) && Less(b, c) ==> Less(a, c)
    ensures forall a: string, b: string :: a != b ==> Less(a, b) || Less(b, a)
  {
    forall a: string
      ensures !Less(a, a)
    {
      LessIrreflexive(a);
    }
    forall a: string, b: string | Less(a, b)
      ensures !Less(b, a)
    {
      LessAsymmetric(a, b);
    }
    forall a: string, b: string, c: string | Less(a, b) && Less(b, c)
      ensures Less(a, c)
    {
      LessTransitive(a, b, c);
    }
    forall a: string, b: string | a != b
      ensures Less(a, b) || Less(b, a)
    {
      LessTotal(a, b);
    }
  }

  /** A sequence is what comes before position `j`, its element there, and the rest. */
  lemma SplitAt<T>(s: seq<T>, j: nat)
    requires j < |s|
    ensures s == s[..j] + [s[j]] + s[j + 1..]
  {
  }

  /** The middle piece of a three-part string sits right after the first. */
  lemma MiddleSlice(a: string, b: string, d: string)
    ensures (a + b + d)[|a|..|a| + |b|] == b
  {
  }

  /** The same, behind a further prefix `h`. */
  lemma InnerSlice(h: string, a: string, b: string, d: string)
    ensures |h| + |a| + |b| <= |h + (a + b + d)|
    ensures (h + (a + b + d))[|h| + |a|..|h| + |a| + |b|] == b
  {
    assert h + (a + b + d) == (h + a) + b + d;
    MiddleSlice(h + a, b, d);
  }
}
