/** Absolute, already normalized paths, as sequences of name segments.
    The empty sequence is the root directory "/". */
module Paths {

  type Name = string
  type Path = seq<Name>

  /** `Path.getFileName()`: the last segment. Java returns null for the root,
      and `String.format("%s", null)` prints it as "null". */
  function FileName(p: Path): (r: string)
    ensures p != [] ==> r == p[|p| - 1]
  {
    if p == [] then "null" else p[|p| - 1]
  }

  /** The directory that holds `p`. */
  function Parent(p: Path): Path
    requires p != []
  {
    p[..|p| - 1]
  }

  /** `b` is `a` itself or lies somewhere below `a`. */
  predicate IsPrefix(a: Path, b: Path)
  {
    |a| <= |b| && b[..|a|] == a
  }

  /** `b` lies strictly below `a`. */
  predicate Under(a: Path, b: Path)
  {
    |a| < |b| && b[..|a|] == a
  }

  /** Neither path lies in the tree of the other. */
  predicate Disjoint(a: Path, b: Path)
  {
    !IsPrefix(a, b) && !IsPrefix(b, a)
  }

  /** `Path.toString()` of an absolute path: "/" for the root, "/a/b" otherwise. */
  function Render(p: Path): (r: string)
    ensures |r| > 0 && r[0] == '/'
  {
    if p == [] then "/" else Join(p)
  }

  function Join(p: Path): (r: string)
    ensures |r| >= |p|
    ensures p != [] ==> r[0] == '/'
  {
    if p == [] then "" else "/" + p[0] + Join(p[1..])
  }

  /** Dropping a shared last name keeps the prefix relation. */
  lemma PrefixDropLast(a: Path, b: Path, n: Name)
    ensures IsPrefix(a + [n], b + [n]) ==> IsPrefix(a, b)
  {
    if |a| <= |b| {
      assert (b + [n])[..|a|] == b[..|a|];
      assert (a + [n])[..|a|] == a;
      assert (b + [n])[..|a| + 1][..|a|] == (b + [n])[..|a|];
    }
  }

  /** Appending the same name keeps two paths disjoint. */
  lemma DisjointChildren(a: Path, b: Path, n: Name)
    requires Disjoint(a, b)
    ensures Disjoint(a + [n], b + [n])
  {
    PrefixDropLast(a, b, n);
    PrefixDropLast(b, a, n);
  }

  /** Whatever lies in the tree of `a` lies outside any path disjoint from `a`. */
  lemma DisjointTrees(a: Path, b: Path, q: Path)
    requires Disjoint(a, b) && IsPrefix(a, q)
    ensures !IsPrefix(b, q)
  {
    if |a| <= |b| <= |q| {
      assert q[..|b|][..|a|] == q[..|a|];
    }
    if |b| < |a| {
      assert q[..|a|][..|b|] == q[..|b|];
    }
  }

  lemma PrefixTransitive(a: Path, b: Path, c: Path)
    requires IsPrefix(a, b) && IsPrefix(b, c)
    ensures IsPrefix(a, c)
    ensures Under(a, b) ==> Under(a, c)
    ensures Under(b, c) ==> Under(a, c)
  {
    assert c[..|b|][..|a|] == c[..|a|];
  }

  /** A path one segment below `s` is `s` followed by its basename. */
  lemma ChildShape(s: Path, c: Path)
    requires |c| == |s| + 1 && IsPrefix(s, c)
    ensures c == s + [FileName(c)]
  {
    assert c == c[..|s|] + [c[|s|]];
  }

  /** `s + r` lies in the tree of `s`, and in the tree of its first step. */
  lemma AppendedPrefix(s: Path, r: Path)
    requires r != []
    ensures IsPrefix(s, s + r) && IsPrefix(s + [r[0]], s + r)
  {
    assert (s + r)[..|s|] == s;
    assert (s + r)[..|s| + 1] == s + [r[0]];
  }
}
