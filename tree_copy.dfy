/** What a recursive copy achieves as a whole: copying a directory to a fresh
    path outside its own tree reproduces the tree there (regular files and
    directories; entries of any other kind are skipped) and changes nothing
    else. */
module TreeCopy {
  import opened Paths
  import opened Host
  import opened CopyablePath
  import CopyableFile
  import CopyableFolder

  /** The kinds of entry the listing loop copies. */
  ghost predicate Copyable(fs: map<Path, Node>, q: Path)
  {
    RegularFileAt(fs, q) || DirectoryAt(fs, q)
  }

  /** No entry outside the tree of `d` differs between `fs` and `fs'`. */
  ghost predicate SameOutside(fs: map<Path, Node>, fs': map<Path, Node>, d: Path)
  {
    forall p :: !IsPrefix(d, p) ==> (p in fs <==> p in fs') && (p in fs ==> fs'[p] == fs[p])
  }

  /** The tree of `s` is the same in `fs0` and in `fs`. */
  ghost predicate AgreeBelow(fs0: map<Path, Node>, fs: map<Path, Node>, s: Path)
  {
    forall q :: IsPrefix(s, q) ==> (q in fs0 <==> q in fs) && (q in fs0 ==> fs[q] == fs0[q])
  }

  /** The tree of `d` in `fs` is the tree of `s` in `fs0`, less its entries
      that are neither regular files nor directories. */
  ghost predicate MirrorsTree(fs0: map<Path, Node>, s: Path, d: Path, fs: map<Path, Node>)
  {
    forall p {:trigger IsPrefix(d, p)} :: IsPrefix(d, p) ==>
      (p in fs <==> Copyable(fs0, s + p[|d|..])) &&
      (p in fs ==> fs[p] == fs0[s + p[|d|..]])
  }

  /** Part way through the children of `s`: `d` is a directory, and below it
      are exactly the copies of the children of `s` whose names are in `done`,
      each with its whole tree. */
  ghost predicate MirroredSoFar(fs0: map<Path, Node>, s: Path, d: Path, fs: map<Path, Node>, done: set<Name>)
  {
    DirectoryAt(fs, d) &&
    forall p {:trigger Under(d, p)} :: Under(d, p) ==>
      (p in fs <==> p[|d|] in done && Copyable(fs0, s + p[|d|..])) &&
      (p in fs ==> fs[p] == fs0[s + p[|d|..]])
  }

  /** What copying the tree of `s` needs from its surroundings: every
      directory in it can be listed, directory streams yield every name, and
      the call stack has room for two frames per level. */
  ghost predicate CopyPrerequisites(env: Env, fs0: map<Path, Node>, s: Path, stack: nat)
  {
    (forall q :: IsPrefix(s, q) && DirectoryAt(fs0, q) ==> q !in env.unlistable) &&
    StreamsComplete(env) &&
    (forall q :: IsPrefix(s, q) && q in fs0 ==> 2 * (|q| - |s|) + 2 <= stack)
  }

  function Names(ps: seq<Path>): set<Name>
  {
    set k | 0 <= k < |ps| :: FileName(ps[k])
  }

  /** In a tree, everything strictly above an entry is a directory. */
  lemma {:induction false} AncestorsAreDirectories(fs: map<Path, Node>, a: Path, q: Path)
    requires Tree(fs)
    ensures q in fs && Under(a, q) ==> DirectoryAt(fs, a)
    decreases |q|
  {
    if q in fs && Under(a, q) {
      var up := Parent(q);
      assert up[..|a|] == q[..|a|];
      AncestorsAreDirectories(fs, a, up);
    }
  }

  /** Below `d`, an entry outside the tree of `d + [n]` is outside it too. */
  lemma StillOutside(d: Path, n: Name, p: Path)
    requires !IsPrefix(d, p)
    ensures !IsPrefix(d + [n], p)
  {
    if IsPrefix(d + [n], p) {
      PrefixTransitive(d, d + [n], p);
    }
  }

  /** Copying a directory to a fresh path whose parent is a directory, where
      neither lies in the tree of the other, succeeds, reads no input,
      changes nothing outside the new tree, and makes that tree a copy of the
      source's. */
  lemma CopyReproducesTree(env: Env, cfg: Config, stack: nat, w: World, s: Path, d: Path)
    requires Tree(w.fs) && DirectoryAt(w.fs, s) && cfg.allowCopyRecursively
    requires d !in w.fs && ParentIsDir(w.fs, d) && Disjoint(s, d)
    requires CopyPrerequisites(env, w.fs, s, stack)
    ensures var r := CopyableFolder.CopySpec(env, cfg, stack, w, s, d);
      r.0 == Done && r.1.stdin == w.stdin &&
      SameOutside(w.fs, r.1.fs, d) && MirrorsTree(w.fs, s, d, r.1.fs)
  {
    forall p | IsPrefix(d, p)
      ensures p !in w.fs
    {
      assert |p| == |d| ==> p == p[..|d|];
      AncestorsAreDirectories(w.fs, d, p);
    }
    FolderMirror(env, cfg, stack, w.fs, w, s, d);
  }

  /** The folder `copy` of `s` to an absent `d`: create `d`, re-enter, copy
      the children. */
  lemma {:induction false} FolderMirror(env: Env, cfg: Config, stack: nat, fs0: map<Path, Node>, w: World, s: Path, d: Path)
    requires Tree(fs0) && DirectoryAt(fs0, s) && CopyPrerequisites(env, fs0, s, stack)
    requires AgreeBelow(fs0, w.fs, s) && Disjoint(s, d) && cfg.allowCopyRecursively
    requires ParentIsDir(w.fs, d) && forall p :: IsPrefix(d, p) ==> p !in w.fs
    ensures var r := CopyableFolder.CopySpec(env, cfg, stack, w, s, d);
      r.0 == Done && r.1.stdin == w.stdin &&
      SameOutside(w.fs, r.1.fs, d) && MirrorsTree(fs0, s, d, r.1.fs)
    decreases stack, 0, 0
  {
    assert IsPrefix(s, s) && s in fs0;
    assert 2 <= stack;
    assert d !in w.fs by {
      assert IsPrefix(d, d);
    }
    var w1 := w.(fs := w.fs[d := Dir]);
    assert CopyableFolder.CopySpec(env, cfg, stack, w, s, d) == CopyableFolder.CopySpec(env, cfg, stack - 1, w1, s, d);
    assert CopyableFolder.CopySpec(env, cfg, stack - 1, w1, s, d) == CopyableFolder.CopyChildren(env, cfg, stack - 2, w1, s, d);
    forall p | Under(d, p)
      ensures p !in w1.fs
    {
      assert IsPrefix(d, p);
    }
    ChildrenMirror(env, cfg, stack - 2, fs0, w1, s, d);
    var r := CopyableFolder.CopyChildren(env, cfg, stack - 2, w1, s, d);
    assert forall p :: !IsPrefix(d, p) ==> p != d;
  }

  /** `copyFilesAndSubdirectories` of `s` into the empty directory `d`. */
  lemma {:induction false} ChildrenMirror(env: Env, cfg: Config, stack: nat, fs0: map<Path, Node>, w: World, s: Path, d: Path)
    requires Tree(fs0) && DirectoryAt(fs0, s) && CopyPrerequisites(env, fs0, s, stack + 2)
    requires AgreeBelow(fs0, w.fs, s) && Disjoint(s, d) && cfg.allowCopyRecursively
    requires DirectoryAt(w.fs, d) && forall p :: Under(d, p) ==> p !in w.fs
    ensures var r := CopyableFolder.CopyChildren(env, cfg, stack, w, s, d);
      r.0 == Done && r.1.stdin == w.stdin &&
      SameOutside(w.fs, r.1.fs, d) && MirrorsTree(fs0, s, d, r.1.fs)
    decreases stack, 2, 0
  {
    assert IsPrefix(s, s);
    var items := List(env, w.fs, s).value;
    var (files, subdirectories) := CopyableFolder.Partition(w.fs, items);
    ListedChildren(env, fs0, w.fs, s, stack + 2);
    assert MirroredSoFar(fs0, s, d, w.fs, {});
    FilesMirror(cfg, stack, fs0, w, files, s, d, {});
    var w1 := CopyableFolder.CopyFiles(cfg, stack, w, files, d).1;
    assert {} + Names(files) == Names(files);
    SubdirectoriesMirror(env, cfg, stack, fs0, w1, subdirectories, s, d, Names(files));
    var w2 := CopyableFolder.CopySubdirectories(env, cfg, stack, w1, subdirectories, d).1;
    CopyableFolder.ChildrenUnfold(env, cfg, stack, w, s, d);
    SameOutsideCompose(w.fs, w1.fs, w2.fs, d);
    ChildrenAllDone(env, fs0, w.fs, s, d);
    MirrorComplete(fs0, s, d, w2.fs, Names(files) + Names(subdirectories));
  }

  /** What the listing loop of `s` hands to the two copy loops: files and
      directories one level below `s`, each once, no name in both lists, and
      files only when the stack has room for a file copy. */
  lemma ListedChildren(env: Env, fs0: map<Path, Node>, fs: map<Path, Node>, s: Path, stack: nat)
    requires DirectoryAt(fs0, s) && CopyPrerequisites(env, fs0, s, stack) && AgreeBelow(fs0, fs, s)
    ensures List(env, fs, s).Some?
    ensures var (files, subdirectories) := CopyableFolder.Partition(fs, List(env, fs, s).value);
      CopyableFolder.NoDuplicates(files) && CopyableFolder.NoDuplicates(subdirectories) &&
      (files == [] || 4 <= stack) &&
      (forall k :: 0 <= k < |files| ==>
        |files[k]| == |s| + 1 && IsPrefix(s, files[k]) && RegularFileAt(fs0, files[k])) &&
      (forall k :: 0 <= k < |subdirectories| ==>
        |subdirectories[k]| == |s| + 1 && IsPrefix(s, subdirectories[k]) && DirectoryAt(fs0, subdirectories[k]) &&
        FileName(subdirectories[k]) !in Names(files))
  {
    assert IsPrefix(s, s);
    var items := List(env, fs, s).value;
    var (files, subdirectories) := CopyableFolder.Partition(fs, items);
    ListedBelow(env, fs0, fs, s);
    forall k | 0 <= k < |files|
      ensures |files[k]| == |s| + 1 && IsPrefix(s, files[k]) && RegularFileAt(fs0, files[k])
    {
      assert files[k] in items;
    }
    forall k | 0 <= k < |subdirectories|
      ensures |subdirectories[k]| == |s| + 1 && IsPrefix(s, subdirectories[k]) && DirectoryAt(fs0, subdirectories[k])
    {
      assert subdirectories[k] in items;
    }
    if files != [] {
      assert IsPrefix(s, files[0]) && files[0] in fs0;
    }
    NamesApart(fs0, s, files, subdirectories);
  }

  /** Every entry a listing of `s` yields is a child of `s` that `fs`
      shares with `fs0`. */
  lemma ListedBelow(env: Env, fs0: map<Path, Node>, fs: map<Path, Node>, s: Path)
    requires List(env, fs, s).Some? && AgreeBelow(fs0, fs, s)
    ensures forall q :: q in List(env, fs, s).value ==>
      |q| == |s| + 1 && IsPrefix(s, q) && q in fs0 && fs[q] == fs0[q]
  {
    var items := List(env, fs, s).value;
    forall q | q in items
      ensures |q| == |s| + 1 && IsPrefix(s, q) && q in fs0 && fs[q] == fs0[q]
    {
      var m :| 0 <= m < |items| && items[m] == q;
    }
  }

  /** A regular file and a directory among the children of `s` never share
      a name. */
  lemma NamesApart(fs0: map<Path, Node>, s: Path, files: seq<Path>, subdirectories: seq<Path>)
    requires forall k :: 0 <= k < |files| ==>
      |files[k]| == |s| + 1 && IsPrefix(s, files[k]) && RegularFileAt(fs0, files[k])
    requires forall k :: 0 <= k < |subdirectories| ==>
      |subdirectories[k]| == |s| + 1 && IsPrefix(s, subdirectories[k]) && DirectoryAt(fs0, subdirectories[k])
    ensures forall k :: 0 <= k < |subdirectories| ==> FileName(subdirectories[k]) !in Names(files)
  {
    forall k | 0 <= k < |subdirectories|
      ensures FileName(subdirectories[k]) !in Names(files)
    {
      if FileName(subdirectories[k]) in Names(files) {
        var m :| 0 <= m < |files| && FileName(files[m]) == FileName(subdirectories[k]);
        ChildShape(s, files[m]);
        ChildShape(s, subdirectories[k]);
      }
    }
  }

  /** Every copyable entry below `s` lies under a child of `s` that the
      listing yields, so its name is among the names copied. */
  lemma ChildrenAllDone(env: Env, fs0: map<Path, Node>, fs: map<Path, Node>, s: Path, d: Path)
    requires Tree(fs0) && DirectoryAt(fs0, s)
    requires (forall q :: IsPrefix(s, q) && DirectoryAt(fs0, q) ==> q !in env.unlistable)
    requires StreamsComplete(env)
    requires AgreeBelow(fs0, fs, s)
    ensures List(env, fs, s).Some?
    ensures var (files, subdirectories) := CopyableFolder.Partition(fs, List(env, fs, s).value);
      forall p :: Under(d, p) && Copyable(fs0, s + p[|d|..]) ==> p[|d|] in Names(files) + Names(subdirectories)
  {
    assert IsPrefix(s, s);
    var items := List(env, fs, s).value;
    var (files, subdirectories) := CopyableFolder.Partition(fs, items);
    forall p | Under(d, p) && Copyable(fs0, s + p[|d|..])
      ensures p[|d|] in Names(files) + Names(subdirectories)
    {
      var q := s + p[|d|..];
      var c := s + [p[|d|]];
      AppendedPrefix(s, p[|d|..]);
      assert |q| == |c| ==> q == q[..|c|];
      AncestorsAreDirectories(fs0, c, q);
      assert IsPrefix(s, c) && Under(s, c);
      assert c in fs && c[..|s|] == s && c[|s|] == p[|d|];
      ListComplete(env, fs, s, c);
      if RegularFileAt(fs, c) {
        var m :| 0 <= m < |files| && files[m] == c;
        assert FileName(files[m]) in Names(files);
      } else {
        var m :| 0 <= m < |subdirectories| && subdirectories[m] == c;
        assert FileName(subdirectories[m]) in Names(subdirectories);
      }
    }
  }

  /** Once every child name is done, the tree of `d` is a whole copy. */
  lemma MirrorComplete(fs0: map<Path, Node>, s: Path, d: Path, fs: map<Path, Node>, done: set<Name>)
    requires DirectoryAt(fs0, s) && MirroredSoFar(fs0, s, d, fs, done)
    requires forall p :: Under(d, p) && Copyable(fs0, s + p[|d|..]) ==> p[|d|] in done
    ensures MirrorsTree(fs0, s, d, fs)
  {
    forall p | IsPrefix(d, p)
      ensures (p in fs <==> Copyable(fs0, s + p[|d|..]))
      ensures (p in fs ==> fs[p] == fs0[s + p[|d|..]])
    {
      if |p| == |d| {
        assert p == p[..|d|];
        assert s + p[|d|..] == s;
      } else {
        assert Under(d, p);
      }
    }
  }

  lemma SameOutsideCompose(fs0: map<Path, Node>, fs1: map<Path, Node>, fs2: map<Path, Node>, d: Path)
    requires SameOutside(fs0, fs1, d) && SameOutside(fs1, fs2, d)
    ensures SameOutside(fs0, fs2, d)
  {
  }

  lemma NamesSplit(ps: seq<Path>)
    requires ps != []
    ensures Names(ps) == {FileName(ps[0])} + Names(ps[1..])
  {
    forall x | x in Names(ps) ensures x in {FileName(ps[0])} + Names(ps[1..]) {
      var k :| 0 <= k < |ps| && FileName(ps[k]) == x;
      if k > 0 {
        assert ps[1..][k - 1] == ps[k];
      }
    }
    forall x | x in Names(ps[1..]) ensures x in Names(ps) {
      var k :| 0 <= k < |ps[1..]| && FileName(ps[1..][k]) == x;
      assert ps[1..][k] == ps[k + 1];
    }
  }

  /** Distinct children of `s` have distinct names: after the first is
      done, the names of the rest are still fresh. */
  lemma RestStillFresh(ps: seq<Path>, s: Path, done: set<Name>)
    requires ps != [] && CopyableFolder.NoDuplicates(ps)
    requires forall k :: 0 <= k < |ps| ==> |ps[k]| == |s| + 1 && IsPrefix(s, ps[k]) && FileName(ps[k]) !in done
    ensures CopyableFolder.NoDuplicates(ps[1..])
    ensures forall k :: 0 <= k < |ps[1..]| ==> FileName(ps[1..][k]) !in done + {FileName(ps[0])}
  {
    forall k | 1 <= k < |ps|
      ensures FileName(ps[k]) != FileName(ps[0])
    {
      ChildShape(s, ps[k]);
      ChildShape(s, ps[0]);
      assert ps[k] != ps[0];
    }
  }

  /** One round of the file loop: the file child `f` of `s` lands at
      `d + [basename f]`, and nothing else changes. */
  lemma FileStep(cfg: Config, stack: nat, fs0: map<Path, Node>, w: World, f: Path, s: Path, d: Path, done: set<Name>)
    requires Tree(fs0) && AgreeBelow(fs0, w.fs, s) && Disjoint(s, d) && 2 <= stack
    requires |f| == |s| + 1 && IsPrefix(s, f) && RegularFileAt(fs0, f) && FileName(f) !in done
    requires MirroredSoFar(fs0, s, d, w.fs, done)
    ensures var r := CopyableFile.CopySpec(cfg, stack, w, f, d);
      r.0 == Done && r.1.stdin == w.stdin && SameOutside(w.fs, r.1.fs, d) &&
      AgreeBelow(fs0, r.1.fs, s) && MirroredSoFar(fs0, s, d, r.1.fs, done + {FileName(f)})
  {
    var n := FileName(f);
    var t := d + [n];
    ChildShape(s, f);
    DisjointTrees(s, d, f);
    assert Under(d, t) && t[|d|] == n;
    assert t !in w.fs;
    assert IsPrefix(s, f) && RegularFileAt(w.fs, f);
    assert CopyableFile.CopySpec(cfg, stack, w, f, d) == CopyableFile.CopySpec(cfg, stack - 1, w, f, t);
    assert CopyableFile.CopySpec(cfg, stack - 1, w, f, t) == CopyableFile.CopyProxySpec(cfg, w, f, t, false);
    var w1 := CopyableFile.CopyProxySpec(cfg, w, f, t, false).1;
    assert w1.fs == w.fs[t := fs0[f]];
    forall p | Under(d, p)
      ensures (p in w1.fs <==> p[|d|] in done + {n} && Copyable(fs0, s + p[|d|..]))
      ensures (p in w1.fs ==> w1.fs[p] == fs0[s + p[|d|..]])
    {
      if p == t {
        assert p[|d|..] == [n];
      } else if p[|d|] == n {
        var q := s + p[|d|..];
        assert p[..|d| + 1] == t;
        assert q[..|f|] == f;
        AncestorsAreDirectories(fs0, f, q);
        assert q !in fs0;
      }
    }
    forall q | IsPrefix(s, q)
      ensures q != t
    {
      DisjointTrees(s, d, q);
    }
  }

  /** The file loop: each file child `s + [n]` lands at `d + [n]`, through the
      directory branch of the file copy. */
  lemma {:induction false} FilesMirror(cfg: Config, stack: nat, fs0: map<Path, Node>, w: World, files: seq<Path>, s: Path, d: Path, done: set<Name>)
    requires Tree(fs0) && AgreeBelow(fs0, w.fs, s) && Disjoint(s, d)
    requires files == [] || 2 <= stack
    requires forall k :: 0 <= k < |files| ==>
      |files[k]| == |s| + 1 && IsPrefix(s, files[k]) && RegularFileAt(fs0, files[k]) && FileName(files[k]) !in done
    requires CopyableFolder.NoDuplicates(files)
    requires MirroredSoFar(fs0, s, d, w.fs, done)
    ensures var r := CopyableFolder.CopyFiles(cfg, stack, w, files, d);
      r.0 == Done && r.1.stdin == w.stdin && SameOutside(w.fs, r.1.fs, d) &&
      AgreeBelow(fs0, r.1.fs, s) && MirroredSoFar(fs0, s, d, r.1.fs, done + Names(files))
    decreases |files|
  {
    if files == [] {
      assert Names(files) == {};
    } else {
      var f := files[0];
      FileStep(cfg, stack, fs0, w, f, s, d, done);
      var w1 := CopyableFile.CopySpec(cfg, stack, w, f, d).1;
      RestStillFresh(files, s, done);
      FilesMirror(cfg, stack, fs0, w1, files[1..], s, d, done + {FileName(f)});
      var w2 := CopyableFolder.CopyFiles(cfg, stack, w1, files[1..], d).1;
      SameOutsideCompose(w.fs, w1.fs, w2.fs, d);
      NamesSplit(files);
      assert done + {FileName(f)} + Names(files[1..]) == done + Names(files);
    }
  }

  /** What the recursive copy of the subdirectory child `item` of `s` to
      `d + [basename item]` needs, given where the copy of `s` stands. */
  lemma SubtreeReady(env: Env, stack: nat, fs0: map<Path, Node>, fs: map<Path, Node>, item: Path, s: Path, d: Path, done: set<Name>)
    requires CopyPrerequisites(env, fs0, s, stack + 2) && AgreeBelow(fs0, fs, s) && Disjoint(s, d)
    requires |item| == |s| + 1 && IsPrefix(s, item) && FileName(item) !in done
    requires MirroredSoFar(fs0, s, d, fs, done)
    ensures CopyPrerequisites(env, fs0, item, stack) && AgreeBelow(fs0, fs, item)
    ensures Disjoint(item, d + [FileName(item)]) && ParentIsDir(fs, d + [FileName(item)])
    ensures forall p :: IsPrefix(d + [FileName(item)], p) ==> p !in fs
  {
    var n := FileName(item);
    var t := d + [n];
    ChildShape(s, item);
    DisjointChildren(s, d, n);
    forall q | IsPrefix(item, q)
      ensures IsPrefix(s, q) && |q| - |item| == |q| - |s| - 1
    {
      PrefixTransitive(s, item, q);
    }
    forall p | IsPrefix(t, p)
      ensures p !in fs
    {
      PrefixTransitive(d, t, p);
      assert p[|d|] == n;
    }
  }

  /** After the copy of the subdirectory child `item` to `t = d + [basename
      item]` has mirrored its tree, one more name of `s` is done. */
  lemma SubtreeStep(fs0: map<Path, Node>, fs: map<Path, Node>, fs': map<Path, Node>, item: Path, s: Path, d: Path, done: set<Name>)
    requires Disjoint(s, d) && |item| == |s| + 1 && IsPrefix(s, item)
    requires AgreeBelow(fs0, fs, s) && MirroredSoFar(fs0, s, d, fs, done)
    requires SameOutside(fs, fs', d + [FileName(item)]) && MirrorsTree(fs0, item, d + [FileName(item)], fs')
    ensures SameOutside(fs, fs', d) && AgreeBelow(fs0, fs', s)
    ensures MirroredSoFar(fs0, s, d, fs', done + {FileName(item)})
  {
    var n := FileName(item);
    var t := d + [n];
    ChildShape(s, item);
    forall p | !IsPrefix(d, p)
      ensures !IsPrefix(t, p)
    {
      StillOutside(d, n, p);
    }
    forall q | IsPrefix(s, q)
      ensures !IsPrefix(t, q)
    {
      DisjointTrees(s, d, q);
      StillOutside(d, n, q);
    }
    forall p | Under(d, p)
      ensures (p in fs' <==> p[|d|] in done + {n} && Copyable(fs0, s + p[|d|..]))
      ensures (p in fs' ==> fs'[p] == fs0[s + p[|d|..]])
    {
      if p[|d|] == n {
        assert IsPrefix(t, p);
        assert s + p[|d|..] == item + p[|t|..];
      } else {
        assert !IsPrefix(t, p);
      }
    }
    assert DirectoryAt(fs', d) by {
      assert !IsPrefix(t, d);
    }
  }

  /** The subdirectory loop: each subdirectory child `s + [n]` is copied, as
      a whole tree, to the fresh path `d + [n]`. */
  lemma {:induction false} SubdirectoriesMirror(env: Env, cfg: Config, stack: nat, fs0: map<Path, Node>, w: World, subdirectories: seq<Path>, s: Path, d: Path, done: set<Name>)
    requires Tree(fs0) && CopyPrerequisites(env, fs0, s, stack + 2) && AgreeBelow(fs0, w.fs, s) && Disjoint(s, d)
    requires cfg.allowCopyRecursively
    requires forall k :: 0 <= k < |subdirectories| ==>
      |subdirectories[k]| == |s| + 1 && IsPrefix(s, subdirectories[k]) && DirectoryAt(fs0, subdirectories[k]) &&
      FileName(subdirectories[k]) !in done
    requires CopyableFolder.NoDuplicates(subdirectories)
    requires MirroredSoFar(fs0, s, d, w.fs, done)
    ensures var r := CopyableFolder.CopySubdirectories(env, cfg, stack, w, subdirectories, d);
      r.0 == Done && r.1.stdin == w.stdin && SameOutside(w.fs, r.1.fs, d) &&
      AgreeBelow(fs0, r.1.fs, s) && MirroredSoFar(fs0, s, d, r.1.fs, done + Names(subdirectories))
    decreases stack, 1, |subdirectories|
  {
    if subdirectories == [] {
      assert Names(subdirectories) == {};
    } else {
      var item := subdirectories[0];
      var t := d + [FileName(item)];
      SubtreeReady(env, stack, fs0, w.fs, item, s, d, done);
      FolderMirror(env, cfg, stack, fs0, w, item, t);
      var w1 := CopyableFolder.CopySpec(env, cfg, stack, w, item, t).1;
      SubtreeStep(fs0, w.fs, w1.fs, item, s, d, done);
      RestSubdirectories(fs0, subdirectories, s, done);
      SubdirectoriesMirror(env, cfg, stack, fs0, w1, subdirectories[1..], s, d, done + {FileName(item)});
      var w2 := CopyableFolder.CopySubdirectories(env, cfg, stack, w1, subdirectories[1..], d).1;
      SubdirectoriesUnfold(env, cfg, stack, w, subdirectories, d);
      SameOutsideCompose(w.fs, w1.fs, w2.fs, d);
      NamesSplit(subdirectories);
      assert done + {FileName(item)} + Names(subdirectories[1..]) == done + Names(subdirectories);
    }
  }

  /** The subdirectories after the first still meet the loop's demands,
      with the first one's name done. */
  lemma RestSubdirectories(fs0: map<Path, Node>, subdirectories: seq<Path>, s: Path, done: set<Name>)
    requires subdirectories != [] && CopyableFolder.NoDuplicates(subdirectories)
    requires forall k :: 0 <= k < |subdirectories| ==>
      |subdirectories[k]| == |s| + 1 && IsPrefix(s, subdirectories[k]) && DirectoryAt(fs0, subdirectories[k]) &&
      FileName(subdirectories[k]) !in done
    ensures CopyableFolder.NoDuplicates(subdirectories[1..])
    ensures forall k :: 0 <= k < |subdirectories[1..]| ==>
      |subdirectories[1..][k]| == |s| + 1 && IsPrefix(s, subdirectories[1..][k]) && DirectoryAt(fs0, subdirectories[1..][k]) &&
      FileName(subdirectories[1..][k]) !in done + {FileName(subdirectories[0])}
  {
    RestStillFresh(subdirectories, s, done);
  }

  /** After a successful copy of the first subdirectory the loop goes on
      with the rest. */
  lemma SubdirectoriesUnfold(env: Env, cfg: Config, stack: nat, w: World, subdirectories: seq<Path>, d: Path)
    requires subdirectories != []
    ensures var item := subdirectories[0];
      var r1 := CopyableFolder.CopySpec(env, cfg, stack, w, item, d + [FileName(item)]);
      !r1.0.Failed? ==>
        CopyableFolder.CopySubdirectories(env, cfg, stack, w, subdirectories, d) ==
        CopyableFolder.CopySubdirectories(env, cfg, stack, r1.1, subdirectories[1..], d)
  {
  }

  // ---------------------------------------------------------------------------
  // Copying a directory into its own tree

  /** Creating `a + [n]` in an empty directory `a` of a tree makes `n` its
      only child and leaves the new directory empty. */
  lemma CreatedOnlyChild(fs: map<Path, Node>, a: Path, n: Name)
    requires Tree(fs) && DirectoryAt(fs, a) && ChildNames(fs, a) == {}
    ensures a + [n] !in fs
    ensures ChildNames(fs[a + [n] := Dir], a) == {n}
    ensures ChildNames(fs[a + [n] := Dir], a + [n]) == {}
  {
    var fs1 := fs[a + [n] := Dir];
    assert (a + [n])[..|a|] == a && (a + [n])[|a|] == n;
    assert a + [n] in fs ==> n in ChildNames(fs, a);
    assert n in ChildNames(fs1, a);
    forall x | x in ChildNames(fs1, a)
      ensures x == n
    {
      var q :| q in fs1 && |q| == |a| + 1 && q[..|a|] == a && q[|a|] == x;
      assert q == a + [n] || x in ChildNames(fs, a);
    }
    forall q | q in fs1 && |q| == |a| + 2
      ensures q[..|a| + 1] != a + [n]
    {
      if q != a + [n] {
        assert Parent(q) == q[..|a| + 1];
        assert DirectoryAt(fs, Parent(q));
      }
    }
    assert ChildNames(fs1, a + [n]) == {};
  }

  /** A stream order that knows `n` lists the single name `n` once. */
  lemma {:induction false} PickOne(order: seq<Name>, n: Name)
    requires n in order
    ensures Pick(order, {n}) == [n]
    decreases |order|
  {
    if order[0] == n {
      PickNone(order[1..]);
      assert {n} - {n} == {};
    } else {
      PickOne(order[1..], n);
    }
  }

  lemma {:induction false} PickNone(order: seq<Name>)
    ensures Pick(order, {}) == []
    decreases |order|
  {
    if order != [] {
      PickNone(order[1..]);
    }
  }

  /** A directory whose only child is `a + [n]` lists just that child. */
  lemma ListsOnlyChild(env: Env, fs: map<Path, Node>, a: Path, n: Name)
    requires DirectoryAt(fs, a) && ChildNames(fs, a) == {n}
    requires StreamsComplete(env) && a !in env.unlistable
    ensures List(env, fs, a) == Some([a + [n]])
  {
    assert n in env.stream(a, {n});
    PickOne(env.stream(a, {n}), n);
    assert Entries(a, [n]) == [a + [n]];
  }

  /** A single directory entry is sorted among the subdirectories. */
  lemma PartitionOneDirectory(fs: map<Path, Node>, d: Path)
    requires DirectoryAt(fs, d)
    ensures CopyableFolder.Partition(fs, [d]) == ([], [d])
  {
    assert [d][..0] == [];
    assert CopyableFolder.Partition(fs, []) == ([], []);
    assert [] + [d] == [d];
  }

  /** When `a + [n]` is the only child of `a`, copying the children of `a`
      into `a + [n]` is copying `a + [n]` into `a + [n, n]`. */
  lemma OnlyChildCopied(env: Env, cfg: Config, stack: nat, w: World, a: Path, n: Name)
    requires DirectoryAt(w.fs, a) && DirectoryAt(w.fs, a + [n]) && ChildNames(w.fs, a) == {n}
    requires StreamsComplete(env) && a !in env.unlistable
    ensures var (o, w1) := CopyableFolder.CopySpec(env, cfg, stack, w, a + [n], a + [n] + [n]);
      CopyableFolder.CopyChildren(env, cfg, stack, w, a, a + [n]) == if o.Failed? then (o, w1) else (Done, w1)
  {
    var d := a + [n];
    ListsOnlyChild(env, w.fs, a, n);
    PartitionOneDirectory(w.fs, d);
    assert CopyableFolder.CopyFiles(cfg, stack, w, [], d) == (Done, w);
    assert CopyableFolder.CopyChildren(env, cfg, stack, w, a, d) ==
      CopyableFolder.CopySubdirectories(env, cfg, stack, w, [d], d);
    SubdirectoryOne(env, cfg, stack, w, d, n);
  }

  /** The subdirectory loop over one entry `d` copies it to `dest/basename`. */
  lemma SubdirectoryOne(env: Env, cfg: Config, stack: nat, w: World, d: Path, n: Name)
    requires d != [] && FileName(d) == n
    ensures var (o, w1) := CopyableFolder.CopySpec(env, cfg, stack, w, d, d + [n]);
      CopyableFolder.CopySubdirectories(env, cfg, stack, w, [d], d) == if o.Failed? then (o, w1) else (Done, w1)
  {
    assert [d][0] == d && [d][1..] == [];
  }

  /** Copying an empty directory `a` to a new directory `a + [n]` inside
      itself never finishes: the new directory is listed as a child of `a`
      and copied into itself one level deeper, again and again, until the
      call stack is exhausted, whatever its depth. */
  lemma {:induction false} IntoItselfOverflows(env: Env, cfg: Config, stack: nat, w: World, a: Path, n: Name)
    requires Tree(w.fs) && DirectoryAt(w.fs, a) && ChildNames(w.fs, a) == {}
    requires cfg.allowCopyRecursively && StreamsComplete(env)
    requires forall q :: IsPrefix(a, q) ==> q !in env.unlistable
    ensures CopyableFolder.CopySpec(env, cfg, stack, w, a, a + [n]).0 == Failed(StackOverflow)
    decreases stack
  {
    var d := a + [n];
    CreatedOnlyChild(w.fs, a, n);
    if stack > 1 {
      var w1 := w.(fs := w.fs[d := Dir]);
      assert Parent(d) == a;
      TreeKeptByMakeDirectory(w.fs, d);
      assert CopyableFolder.CopySpec(env, cfg, stack, w, a, d) == CopyableFolder.CopySpec(env, cfg, stack - 1, w1, a, d);
      assert CopyableFolder.CopySpec(env, cfg, stack - 1, w1, a, d) == CopyableFolder.CopyChildren(env, cfg, stack - 2, w1, a, d);
      assert IsPrefix(a, a);
      OnlyChildCopied(env, cfg, stack - 2, w1, a, n);
      forall q | IsPrefix(d, q)
        ensures IsPrefix(a, q)
      {
        PrefixTransitive(a, d, q);
      }
      IntoItselfOverflows(env, cfg, stack - 2, w1, d, n);
    }
  }
}
