/** Copying a directory tree: the recursion gate, the refusal to put a
    directory onto a file, creating a missing destination and re-entering,
    and the listing that copies every file before any subdirectory. */
module CopyableFolder {
  import opened Paths
  import opened Host
  import opened CopyablePath
  import CopyableFile

  predicate NoDuplicates(s: seq<Path>)
  {
    forall i, j :: 0 <= i < j < |s| ==> s[i] != s[j]
  }

  /** `x` occurs in `items` before an occurrence of `y`. */
  ghost predicate Before(items: seq<Path>, x: Path, y: Path)
  {
    exists a, b :: 0 <= a < b < |items| && items[a] == x && items[b] == y
  }

  /** Any two entries of `sub` appear in `items` in the same order. */
  ghost predicate KeepsOrder(sub: seq<Path>, items: seq<Path>)
  {
    forall i, j :: 0 <= i < j < |sub| ==> Before(items, sub[i], sub[j])
  }

  /** Order is kept when an entry is appended to `items`, whether or not it
      is appended to `sub` too. */
  lemma KeepsOrderExtend(sub: seq<Path>, items: seq<Path>, x: Path)
    requires KeepsOrder(sub, items) && forall p :: p in sub ==> p in items
    ensures KeepsOrder(sub, items + [x]) && KeepsOrder(sub + [x], items + [x])
  {
    var items' := items + [x];
    forall i, j | 0 <= i < j < |sub|
      ensures Before(items', sub[i], sub[j])
    {
      assert Before(items, sub[i], sub[j]);
      var a, b :| 0 <= a < b < |items| && items[a] == sub[i] && items[b] == sub[j];
      assert items'[a] == items[a] && items'[b] == items[b];
    }
    var sub' := sub + [x];
    forall i, j | 0 <= i < j < |sub'|
      ensures Before(items', sub'[i], sub'[j])
    {
      if j < |sub| {
        assert Before(items, sub[i], sub[j]);
        var a, b :| 0 <= a < b < |items| && items[a] == sub[i] && items[b] == sub[j];
        assert items'[a] == sub'[i] && items'[b] == sub'[j];
      } else {
        assert sub'[i] == sub[i] && sub[i] in items;
        var a :| 0 <= a < |items| && items[a] == sub[i];
        assert items'[a] == sub'[i] && items'[|items|] == sub'[j];
      }
    }
  }

  /** The two lists the listing loop fills: regular files and directories,
      each in listing order; entries of any other kind are skipped. */
  function Partition(fs: map<Path, Node>, items: seq<Path>): (r: (seq<Path>, seq<Path>))
    ensures forall p :: p in r.0 <==> p in items && RegularFileAt(fs, p)
    ensures forall p :: p in r.1 <==> p in items && DirectoryAt(fs, p)
    ensures KeepsOrder(r.0, items) && KeepsOrder(r.1, items)
    ensures NoDuplicates(items) ==> NoDuplicates(r.0) && NoDuplicates(r.1)
  {
    if items == [] then ([], [])
    else
      var (files, subdirectories) := Partition(fs, items[..|items| - 1]);
      var item := items[|items| - 1];
      assert items == items[..|items| - 1] + [item];
      assert NoDuplicates(items) ==> NoDuplicates(items[..|items| - 1]) && item !in items[..|items| - 1];
      KeepsOrderExtend(files, items[..|items| - 1], item);
      KeepsOrderExtend(subdirectories, items[..|items| - 1], item);
      (if RegularFileAt(fs, item) then files + [item] else files,
       if DirectoryAt(fs, item) then subdirectories + [item] else subdirectories)
  }

  /** `copy(dest)` of a folder handle. Each call takes one frame of `stack`. */
  function CopySpec(env: Env, cfg: Config, stack: nat, w: World, src: Path, dest: Path): (Outcome, World)
    decreases stack, 0, 0
  {
    if stack == 0 then (Failed(StackOverflow), w)
    else if !cfg.allowCopyRecursively then (Failed(Cp(IsADirectory(FileName(src)))), w)
    else if RegularFileAt(w.fs, dest) then (Failed(Cp(IsADirectory(FileName(src)))), w)
    else if dest !in w.fs then
      match MakeDirectory(w.fs, dest)
      case None => (Failed(Cp(PermissionDenied(FileName(src)))), w)
      case Some(fs') => CopySpec(env, cfg, stack - 1, w.(fs := fs'), src, dest)
    else if DirectoryAt(w.fs, dest) then CopyChildren(env, cfg, stack - 1, w, src, dest)
    else (Done, w)
  }

  /** `copyFilesAndSubdirectories(dest)`: list `src`, then copy its files into
      `dest`, then each subdirectory to `dest/basename`; the first failure
      ends the whole copy. */
  function CopyChildren(env: Env, cfg: Config, stack: nat, w: World, src: Path, dest: Path): (Outcome, World)
    decreases stack, 2, 0
  {
    match List(env, w.fs, src)
    case None => (Failed(Cp(PermissionDenied(FileName(src)))), w)
    case Some(items) =>
      var (files, subdirectories) := Partition(w.fs, items);
      var (o, w1) := CopyFiles(cfg, stack, w, files, dest);
      if o.Failed? then (o, w1) else CopySubdirectories(env, cfg, stack, w1, subdirectories, dest)
  }

  /** The loop over the files: each one is copied into `dest`. */
  function CopyFiles(cfg: Config, stack: nat, w: World, files: seq<Path>, dest: Path): (Outcome, World)
    decreases |files|
  {
    if files == [] then (Done, w)
    else
      var (o, w1) := CopyableFile.CopySpec(cfg, stack, w, files[0], dest);
      if o.Failed? then (o, w1) else CopyFiles(cfg, stack, w1, files[1..], dest)
  }

  /** The loop over the subdirectories: each one is copied to `dest/basename`. */
  function CopySubdirectories(env: Env, cfg: Config, stack: nat, w: World, subdirectories: seq<Path>, dest: Path): (Outcome, World)
    decreases stack, 1, |subdirectories|
  {
    if subdirectories == [] then (Done, w)
    else
      var item := subdirectories[0];
      var (o, w1) := CopySpec(env, cfg, stack, w, item, dest + [FileName(item)]);
      if o.Failed? then (o, w1) else CopySubdirectories(env, cfg, stack, w1, subdirectories[1..], dest)
  }

  method Copy(h: Host, cfg: Config, stack: nat, src: Path, dest: Path) returns (r: Outcome)
    modifies h
    ensures (r, h.State()) == CopySpec(h.env, cfg, stack, old(h.State()), src, dest)
    decreases stack, 0
  {
    ghost var w := h.State();
    if stack == 0 {
      r := Failed(StackOverflow);
    } else if !cfg.allowCopyRecursively {
      r := Failed(Cp(IsADirectory(FileName(src))));
    } else if h.Exists(dest) && h.IsRegularFile(dest) {
      r := Failed(Cp(IsADirectory(FileName(src))));
    } else if !h.Exists(dest) {
      var created := h.CreateDirectory(dest);
      if !created {
        r := Failed(Cp(PermissionDenied(FileName(src))));
      } else {
        assert CopySpec(h.env, cfg, stack, w, src, dest) == CopySpec(h.env, cfg, stack - 1, h.State(), src, dest);
        r := Copy(h, cfg, stack - 1, src, dest);
      }
    } else if h.Exists(dest) && h.IsDirectory(dest) {
      r := CopyFilesAndSubdirectories(h, cfg, stack - 1, src, dest);
    } else {
      r := Done;
    }
  }

  method CopyFilesAndSubdirectories(h: Host, cfg: Config, stack: nat, src: Path, dest: Path) returns (r: Outcome)
    modifies h
    ensures (r, h.State()) == CopyChildren(h.env, cfg, stack, old(h.State()), src, dest)
    decreases stack, 2
  {
    var listing := h.NewDirectoryStream(src);
    if listing.None? {
      return Failed(Cp(PermissionDenied(FileName(src))));
    }
    var items := listing.value;
    var files: seq<Path> := [];
    var subdirectories: seq<Path> := [];
    var i := 0;
    while i < |items|
      invariant 0 <= i <= |items|
      invariant (files, subdirectories) == Partition(h.fs, items[..i])
    {
      var item := items[i];
      assert items[..i + 1][..i] == items[..i];
      if h.IsRegularFile(item) {
        files := files + [item];
      }
      if h.IsDirectory(item) {
        subdirectories := subdirectories + [item];
      }
      i := i + 1;
    }
    assert items[..|items|] == items;

    ghost var w0 := h.State();
    i := 0;
    while i < |files|
      invariant 0 <= i <= |files|
      invariant CopyFiles(cfg, stack, w0, files, dest) == CopyFiles(cfg, stack, h.State(), files[i..], dest)
    {
      r := CopyableFile.Copy(h, cfg, stack, files[i], dest);
      if r.Failed? {
        return;
      }
      i := i + 1;
    }

    ghost var w1 := h.State();
    i := 0;
    while i < |subdirectories|
      invariant 0 <= i <= |subdirectories|
      invariant CopySubdirectories(h.env, cfg, stack, w1, subdirectories, dest) ==
        CopySubdirectories(h.env, cfg, stack, h.State(), subdirectories[i..], dest)
    {
      var item := subdirectories[i];
      r := Copy(h, cfg, stack, item, dest + [FileName(item)]);
      if r.Failed? {
        return;
      }
      i := i + 1;
    }
    r := Done;
  }

  // ---------------------------------------------------------------------------
  // Properties of a directory copy

  /** Without -r every directory copy fails as "is a directory", even of an
      empty directory, and changes nothing. */
  lemma RecursionGate(env: Env, cfg: Config, stack: nat, w: World, src: Path, dest: Path)
    requires stack > 0 && !cfg.allowCopyRecursively
    ensures CopySpec(env, cfg, stack, w, src, dest) == (Failed(Cp(IsADirectory(FileName(src)))), w)
  {
  }

  /** A directory is never copied onto an existing regular file. */
  lemma FileDestinationRejected(env: Env, cfg: Config, stack: nat, w: World, src: Path, dest: Path)
    requires stack > 0 && RegularFileAt(w.fs, dest)
    ensures CopySpec(env, cfg, stack, w, src, dest) == (Failed(Cp(IsADirectory(FileName(src)))), w)
  {
  }

  /** A missing destination is created, one level only, and the copy then
      proceeds exactly as into an existing empty directory; when it cannot be
      created the error names the source's basename and nothing changes. */
  lemma CreatesOneLevel(env: Env, cfg: Config, stack: nat, w: World, src: Path, dest: Path)
    requires stack > 0 && cfg.allowCopyRecursively && dest !in w.fs
    ensures !ParentIsDir(w.fs, dest) ==>
      CopySpec(env, cfg, stack, w, src, dest) == (Failed(Cp(PermissionDenied(FileName(src)))), w)
    ensures ParentIsDir(w.fs, dest) ==>
      CopySpec(env, cfg, stack, w, src, dest) == CopySpec(env, cfg, stack - 1, w.(fs := w.fs[dest := Dir]), src, dest)
  {
  }

  /** Copying into an existing directory lists the source; a source that
      cannot be listed fails with "permission denied" on its basename. */
  lemma ListingFailure(env: Env, cfg: Config, stack: nat, w: World, src: Path, dest: Path)
    requires stack > 0 && cfg.allowCopyRecursively && DirectoryAt(w.fs, dest)
    requires !DirectoryAt(w.fs, src) || src in env.unlistable
    ensures CopySpec(env, cfg, stack, w, src, dest) == (Failed(Cp(PermissionDenied(FileName(src)))), w)
  {
  }

  /** The file loop stops at the first failure: files after it are never
      copied. */
  lemma {:induction false} CopyFilesAppend(cfg: Config, stack: nat, w: World, a: seq<Path>, b: seq<Path>, dest: Path)
    ensures var (o, w1) := CopyFiles(cfg, stack, w, a, dest);
      CopyFiles(cfg, stack, w, a + b, dest) ==
        if o.Failed? then (o, w1) else CopyFiles(cfg, stack, w1, b, dest)
    decreases |a|
  {
    if a != [] {
      assert (a + b)[0] == a[0] && (a + b)[1..] == a[1..] + b;
      var (o, w1) := CopyableFile.CopySpec(cfg, stack, w, a[0], dest);
      if !o.Failed? {
        CopyFilesAppend(cfg, stack, w1, a[1..], b, dest);
      }
    } else {
      assert a + b == b;
    }
  }

  /** The subdirectory loop stops at the first failure: later subdirectories
      are never copied. */
  lemma {:induction false} CopySubdirectoriesAppend(env: Env, cfg: Config, stack: nat, w: World, a: seq<Path>, b: seq<Path>, dest: Path)
    ensures var (o, w1) := CopySubdirectories(env, cfg, stack, w, a, dest);
      CopySubdirectories(env, cfg, stack, w, a + b, dest) ==
        if o.Failed? then (o, w1) else CopySubdirectories(env, cfg, stack, w1, b, dest)
    decreases |a|
  {
    if a != [] {
      assert (a + b)[0] == a[0] && (a + b)[1..] == a[1..] + b;
      var (o, w1) := CopySpec(env, cfg, stack, w, a[0], dest + [FileName(a[0])]);
      if !o.Failed? {
        CopySubdirectoriesAppend(env, cfg, stack, w1, a[1..], b, dest);
      }
    } else {
      assert a + b == b;
    }
  }

  // ---------------------------------------------------------------------------
  // The order of the verbose notices

  /** Between `w` and `w'` output was only appended, and every verbose notice
      printed names a source in the tree of `s` at least `depth` segments long. */
  ghost predicate NoticesBelow(w: World, w': World, s: Path, depth: nat)
  {
    w.stdout <= w'.stdout &&
    forall i :: |w.stdout| <= i < |w'.stdout| && w'.stdout[i].Copying? ==>
      IsPrefix(s, w'.stdout[i].src) && |w'.stdout[i].src| >= depth
  }

  /** Between `w` and `w'` output was only appended, and every verbose notice
      printed names one of `files`. */
  ghost predicate NoticesFrom(w: World, w': World, files: seq<Path>)
  {
    w.stdout <= w'.stdout &&
    forall i :: |w.stdout| <= i < |w'.stdout| && w'.stdout[i].Copying? ==> w'.stdout[i].src in files
  }

  lemma NoticesBelowCompose(w0: World, w1: World, w2: World, s: Path, depth: nat)
    requires NoticesBelow(w0, w1, s, depth) && NoticesBelow(w1, w2, s, depth)
    ensures NoticesBelow(w0, w2, s, depth)
  {
    forall i | |w0.stdout| <= i < |w1.stdout|
      ensures w2.stdout[i] == w1.stdout[i]
    {
      assert w2.stdout[..|w1.stdout|] == w1.stdout;
    }
  }

  lemma NoticesBelowWiden(w0: World, w1: World, s: Path, item: Path)
    requires NoticesBelow(w0, w1, item, |item| + 1)
    requires IsPrefix(s, item) && |item| == |s| + 1
    ensures NoticesBelow(w0, w1, s, |s| + 2)
  {
    forall i | |w0.stdout| <= i < |w1.stdout| && w1.stdout[i].Copying?
      ensures IsPrefix(s, w1.stdout[i].src)
    {
      PrefixTransitive(s, item, w1.stdout[i].src);
    }
  }

  /** The file loop prints notices only about the files it was given. */
  lemma {:induction false} FilesNotices(cfg: Config, stack: nat, w: World, files: seq<Path>, dest: Path)
    ensures NoticesFrom(w, CopyFiles(cfg, stack, w, files, dest).1, files)
    decreases |files|
  {
    if files != [] {
      var (o, w1) := CopyableFile.CopySpec(cfg, stack, w, files[0], dest);
      CopyableFile.CopyWritesOnlyLanding(cfg, stack, w, files[0], dest);
      assert NoticesFrom(w, w1, files);
      if !o.Failed? {
        var w2 := CopyFiles(cfg, stack, w1, files[1..], dest).1;
        FilesNotices(cfg, stack, w1, files[1..], dest);
        forall i | |w.stdout| <= i < |w2.stdout| && w2.stdout[i].Copying?
          ensures w2.stdout[i].src in files
        {
          if i < |w1.stdout| {
            assert w2.stdout[..|w1.stdout|] == w1.stdout;
            assert w2.stdout[i] == w1.stdout[i];
          }
        }
      }
    }
  }

  /** A directory copy prints notices only about paths strictly inside the source. */
  lemma {:induction false} FolderNotices(env: Env, cfg: Config, stack: nat, w: World, src: Path, dest: Path)
    ensures NoticesBelow(w, CopySpec(env, cfg, stack, w, src, dest).1, src, |src| + 1)
    decreases stack, 0, 0
  {
    if stack == 0 || !cfg.allowCopyRecursively || RegularFileAt(w.fs, dest) {
    } else if dest !in w.fs {
      if ParentIsDir(w.fs, dest) {
        FolderNotices(env, cfg, stack - 1, w.(fs := w.fs[dest := Dir]), src, dest);
      }
    } else if DirectoryAt(w.fs, dest) {
      ChildrenNotices(env, cfg, stack - 1, w, src, dest);
    }
  }

  /** Between `w` and `w'` the notices are about paths strictly inside
      `src`; those about its direct children are about regular files of `fs`,
      and they all come before any notice about a deeper path. */
  ghost predicate FilesFirst(w: World, w': World, src: Path, fs: map<Path, Node>)
  {
    NoticesBelow(w, w', src, |src| + 1) &&
    (forall i :: |w.stdout| <= i < |w'.stdout| && w'.stdout[i].Copying? && |w'.stdout[i].src| == |src| + 1 ==>
      RegularFileAt(fs, w'.stdout[i].src)) &&
    (forall i, j ::
      |w.stdout| <= i < j < |w'.stdout| && w'.stdout[i].Copying? && w'.stdout[j].Copying? && |w'.stdout[j].src| == |src| + 1
      ==> |w'.stdout[i].src| == |src| + 1)
  }

  /** Listing and copying the children of `src` prints notices only about
      paths strictly inside `src`; the notices about its direct children are
      about regular files, and they all come before any notice about a deeper
      path: every file is copied before any subdirectory. */
  lemma {:induction false} ChildrenNotices(env: Env, cfg: Config, stack: nat, w: World, src: Path, dest: Path)
    ensures FilesFirst(w, CopyChildren(env, cfg, stack, w, src, dest).1, src, w.fs)
    decreases stack, 2, 0
  {
    match List(env, w.fs, src)
    case None =>
    case Some(items) =>
      var (files, subdirectories) := Partition(w.fs, items);
      var (o, w1) := CopyFiles(cfg, stack, w, files, dest);
      FilesNotices(cfg, stack, w, files, dest);
      ListingShape(env, w.fs, src);
      FilesOnly(w, w1, src, files, w.fs);
      if !o.Failed? {
        var w2 := CopySubdirectories(env, cfg, stack, w1, subdirectories, dest).1;
        ChildrenUnfold(env, cfg, stack, w, src, dest);
        SubdirectoriesNotices(env, cfg, stack, w1, subdirectories, src, dest);
        FilesThenDeeper(w, w1, w2, src, w.fs);
      }
  }

  /** Notices about regular-file children only keep the files first. */
  lemma FilesOnly(w: World, w1: World, src: Path, files: seq<Path>, fs: map<Path, Node>)
    requires NoticesFrom(w, w1, files)
    requires forall f :: f in files ==> |f| == |src| + 1 && IsPrefix(src, f) && RegularFileAt(fs, f)
    ensures FilesFirst(w, w1, src, fs)
  {
  }

  /** Notices at least two levels down, after the files, keep the files first. */
  lemma FilesThenDeeper(w: World, w1: World, w2: World, src: Path, fs: map<Path, Node>)
    requires FilesFirst(w, w1, src, fs) && NoticesBelow(w1, w2, src, |src| + 2)
    ensures FilesFirst(w, w2, src, fs)
  {
    assert w2.stdout[..|w1.stdout|] == w1.stdout;
    forall i | |w.stdout| <= i < |w1.stdout|
      ensures w2.stdout[i] == w1.stdout[i]
    {
    }
  }

  /** The two lists of a listing of `src` hold children of `src` only, and
      the file list regular files only. */
  lemma ListingShape(env: Env, fs: map<Path, Node>, src: Path)
    requires List(env, fs, src).Some?
    ensures var (files, subdirectories) := Partition(fs, List(env, fs, src).value);
      (forall f :: f in files ==> |f| == |src| + 1 && IsPrefix(src, f) && RegularFileAt(fs, f)) &&
      (forall k :: 0 <= k < |subdirectories| ==> |subdirectories[k]| == |src| + 1 && IsPrefix(src, subdirectories[k]))
  {
    var items := List(env, fs, src).value;
    var (files, subdirectories) := Partition(fs, items);
    forall f | f in files
      ensures |f| == |src| + 1 && IsPrefix(src, f)
    {
      var k :| 0 <= k < |items| && items[k] == f;
    }
    forall k | 0 <= k < |subdirectories|
      ensures |subdirectories[k]| == |src| + 1 && IsPrefix(src, subdirectories[k])
    {
      assert subdirectories[k] in items;
      var m :| 0 <= m < |items| && items[m] == subdirectories[k];
    }
  }

  /** Once the file loop has succeeded, copying the children goes on with
      the subdirectory loop. */
  lemma ChildrenUnfold(env: Env, cfg: Config, stack: nat, w: World, src: Path, dest: Path)
    requires List(env, w.fs, src).Some?
    ensures var (files, subdirectories) := Partition(w.fs, List(env, w.fs, src).value);
      var r1 := CopyFiles(cfg, stack, w, files, dest);
      !r1.0.Failed? ==>
        CopyChildren(env, cfg, stack, w, src, dest) == CopySubdirectories(env, cfg, stack, r1.1, subdirectories, dest)
  {
  }

  /** The subdirectory loop, given children of `s`, prints notices only about
      paths at least two levels below `s`. */
  lemma {:induction false} SubdirectoriesNotices(env: Env, cfg: Config, stack: nat, w: World, subdirectories: seq<Path>, s: Path, dest: Path)
    requires forall k :: 0 <= k < |subdirectories| ==> |subdirectories[k]| == |s| + 1 && IsPrefix(s, subdirectories[k])
    ensures NoticesBelow(w, CopySubdirectories(env, cfg, stack, w, subdirectories, dest).1, s, |s| + 2)
    decreases stack, 1, |subdirectories|
  {
    if subdirectories != [] {
      var item := subdirectories[0];
      var (o, w1) := CopySpec(env, cfg, stack, w, item, dest + [FileName(item)]);
      FolderNotices(env, cfg, stack, w, item, dest + [FileName(item)]);
      NoticesBelowWiden(w, w1, s, item);
      if !o.Failed? {
        SubdirectoriesNotices(env, cfg, stack, w1, subdirectories[1..], s, dest);
        NoticesBelowCompose(w, w1, CopySubdirectories(env, cfg, stack, w1, subdirectories[1..], dest).1, s, |s| + 2);
      }
    }
  }

  // ---------------------------------------------------------------------------
  // Standard input

  /** Without -i a directory copy never reads standard input. */
  lemma {:induction false} FolderNoInput(env: Env, cfg: Config, stack: nat, w: World, src: Path, dest: Path)
    requires !cfg.permitToOverwrite
    ensures CopySpec(env, cfg, stack, w, src, dest).1.stdin == w.stdin
    ensures CopySpec(env, cfg, stack, w, src, dest).0 != Failed(NoInput)
    decreases stack, 0, 0
  {
    if stack == 0 || !cfg.allowCopyRecursively || RegularFileAt(w.fs, dest) {
    } else if dest !in w.fs {
      if ParentIsDir(w.fs, dest) {
        FolderNoInput(env, cfg, stack - 1, w.(fs := w.fs[dest := Dir]), src, dest);
      }
    } else if DirectoryAt(w.fs, dest) {
      ChildrenNoInput(env, cfg, stack - 1, w, src, dest);
    }
  }

  lemma {:induction false} ChildrenNoInput(env: Env, cfg: Config, stack: nat, w: World, src: Path, dest: Path)
    requires !cfg.permitToOverwrite
    ensures CopyChildren(env, cfg, stack, w, src, dest).1.stdin == w.stdin
    ensures CopyChildren(env, cfg, stack, w, src, dest).0 != Failed(NoInput)
    decreases stack, 2, 0
  {
    match List(env, w.fs, src)
    case None =>
    case Some(items) =>
      var (files, subdirectories) := Partition(w.fs, items);
      var (o, w1) := CopyFiles(cfg, stack, w, files, dest);
      FilesNoInput(cfg, stack, w, files, dest);
      if !o.Failed? {
        SubdirectoriesNoInput(env, cfg, stack, w1, subdirectories, dest);
      }
  }

  lemma {:induction false} FilesNoInput(cfg: Config, stack: nat, w: World, files: seq<Path>, dest: Path)
    requires !cfg.permitToOverwrite
    ensures CopyFiles(cfg, stack, w, files, dest).1.stdin == w.stdin
    ensures CopyFiles(cfg, stack, w, files, dest).0 != Failed(NoInput)
    decreases |files|
  {
    if files != [] {
      var (o, w1) := CopyableFile.CopySpec(cfg, stack, w, files[0], dest);
      CopyableFile.NoInputWithoutPrompt(cfg, stack, w, files[0], dest);
      if !o.Failed? {
        FilesNoInput(cfg, stack, w1, files[1..], dest);
      }
    }
  }

  lemma {:induction false} SubdirectoriesNoInput(env: Env, cfg: Config, stack: nat, w: World, subdirectories: seq<Path>, dest: Path)
    requires !cfg.permitToOverwrite
    ensures CopySubdirectories(env, cfg, stack, w, subdirectories, dest).1.stdin == w.stdin
    ensures CopySubdirectories(env, cfg, stack, w, subdirectories, dest).0 != Failed(NoInput)
    decreases stack, 1, |subdirectories|
  {
    if subdirectories != [] {
      var item := subdirectories[0];
      var (o, w1) := CopySpec(env, cfg, stack, w, item, dest + [FileName(item)]);
      FolderNoInput(env, cfg, stack, w, item, dest + [FileName(item)]);
      if !o.Failed? {
        SubdirectoriesNoInput(env, cfg, stack, w1, subdirectories[1..], dest);
      }
    }
  }
}
