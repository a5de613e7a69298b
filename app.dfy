/** The entry points: `copy`, which sets the flags, resolves the source,
    infers the destination and starts the copy, and `main`, which runs it as
    `cp -rv` and prints the message of a failed copy. */
module App {
  import opened Paths
  import opened Host
  import opened CopyablePath
  import CopyableFile
  import CopyableFolder
  import TreeCopy

  /** The flags `main` always uses: -r and -v on, -n and -i off. */
  const MainConfig := Config(true, false, true, false)

  /** The destination handle: of the source's kind for the path given, but
      an existing directory means "inside it, under the source's basename".
      The root has no basename, and resolving against it throws. */
  function Destination(fs: map<Path, Node>, src: Handle, destPath: Path): (r: Result<Handle>)
    ensures !DirectoryAt(fs, destPath) ==>
      r.Ok? && r.value.path == destPath && (r.value.FileHandle? <==> src.FileHandle?)
    ensures DirectoryAt(fs, destPath) && src.path != [] ==>
      r == Ok(FolderHandle(destPath + [FileName(src.path)])) && IsPrefix(destPath, r.value.path)
    ensures DirectoryAt(fs, destPath) && src.path == [] ==> r == Err(NullPointer)
  {
    if DirectoryAt(fs, destPath) then
      if src.path == [] then Err(NullPointer) else Ok(FolderHandle(destPath + [FileName(src.path)]))
    else if src.FileHandle? then Ok(FileHandle(destPath))
    else Ok(FolderHandle(destPath))
  }

  /** `src.copy(dest)`: the source's kind picks the copy; the destination is
      used only through its path. */
  function Dispatch(env: Env, cfg: Config, stack: nat, w: World, src: Handle, dest: Handle): (Outcome, World)
  {
    match src
    case FileHandle(p) => CopyableFile.CopySpec(cfg, stack, w, p, dest.path)
    case FolderHandle(p) => CopyableFolder.CopySpec(env, cfg, stack, w, p, dest.path)
  }

  /** `copy(src_path, dest_path, -r, -n, -v, -i)`. */
  function CopySpec(env: Env, cfg: Config, stack: nat, w: World, srcPath: Path, destPath: Path): (Outcome, World)
  {
    match PathFactory(w.fs, srcPath)
    case Err(f) => (Failed(f), w)
    case Ok(src) =>
      match Destination(w.fs, src, destPath)
      case Err(f) => (Failed(f), w)
      case Ok(dest) => Dispatch(env, cfg, stack, w, src, dest)
  }

  /** `main(args)`: exactly two arguments, or nothing happens; a
      `CopyBaseException` is caught and its message printed, while the JVM
      errors propagate. */
  function RunSpec(env: Env, stack: nat, w: World, args: seq<Path>): (Outcome, World)
  {
    if |args| != 2 then (Done, w)
    else
      var (o, w1) := CopySpec(env, MainConfig, stack, w, args[0], args[1]);
      if o.Failed? && o.failure.Cp? then (Done, w1.(stdout := w1.stdout + [Text(Message(o.failure.error))]))
      else (o, w1)
  }

  method Copy(h: Host, stack: nat, srcPath: Path, destPath: Path,
              allowCopyRecursively: bool, doNotOverwrite: bool, verboseMode: bool, permitToOverwrite: bool)
    returns (r: Outcome)
    modifies h
    ensures (r, h.State()) ==
      CopySpec(h.env, Config(allowCopyRecursively, doNotOverwrite, verboseMode, permitToOverwrite),
               stack, old(h.State()), srcPath, destPath)
  {
    var cfg := Config(allowCopyRecursively, doNotOverwrite, verboseMode, permitToOverwrite);
    var src: Handle;
    if h.IsRegularFile(srcPath) {
      src := FileHandle(srcPath);
    } else if h.IsDirectory(srcPath) {
      src := FolderHandle(srcPath);
    } else {
      return Failed(Cp(NoSuchFile(srcPath)));
    }
    var dest: Handle := if src.FileHandle? then FileHandle(destPath) else FolderHandle(destPath);
    if h.Exists(dest.path) && h.IsDirectory(dest.path) {
      if src.path == [] {
        return Failed(NullPointer);
      }
      dest := FolderHandle(dest.path + [FileName(src.path)]);
    }
    if src.FileHandle? {
      r := CopyableFile.Copy(h, cfg, stack, src.path, dest.path);
    } else {
      r := CopyableFolder.Copy(h, cfg, stack, src.path, dest.path);
    }
  }

  method Run(h: Host, stack: nat, args: seq<Path>) returns (r: Outcome)
    modifies h
    ensures (r, h.State()) == RunSpec(h.env, stack, old(h.State()), args)
  {
    if |args| != 2 {
      return Done;
    }
    r := Copy(h, stack, args[0], args[1], true, false, true, false);
    if r.Failed? && r.failure.Cp? {
      h.Print(Text(Message(r.failure.error)));
      r := Done;
    }
  }

  // ---------------------------------------------------------------------------
  // Properties of the entry points

  /** With any number of arguments other than two, `main` does nothing. */
  lemma WrongArgumentCount(env: Env, stack: nat, w: World, args: seq<Path>)
    requires |args| != 2
    ensures RunSpec(env, stack, w, args) == (Done, w)
  {
  }

  /** A source that is neither a regular file nor a directory aborts the copy
      before anything is printed or changed. */
  lemma SourceErrorAborts(env: Env, cfg: Config, stack: nat, w: World, srcPath: Path, destPath: Path)
    requires !RegularFileAt(w.fs, srcPath) && !DirectoryAt(w.fs, srcPath)
    ensures CopySpec(env, cfg, stack, w, srcPath, destPath) == (Failed(Cp(NoSuchFile(srcPath))), w)
  {
  }

  /** An existing directory as destination means the source's basename
      inside it; any other destination path is used as given. */
  lemma NestsIntoExistingDirectory(env: Env, cfg: Config, stack: nat, w: World, srcPath: Path, destPath: Path)
    requires RegularFileAt(w.fs, srcPath) || DirectoryAt(w.fs, srcPath)
    requires srcPath != []
    ensures var target := if DirectoryAt(w.fs, destPath) then destPath + [FileName(srcPath)] else destPath;
      CopySpec(env, cfg, stack, w, srcPath, destPath) ==
        if RegularFileAt(w.fs, srcPath) then CopyableFile.CopySpec(cfg, stack, w, srcPath, target)
        else CopyableFolder.CopySpec(env, cfg, stack, w, srcPath, target)
  {
  }

  /** `main` turns every `CopyBaseException` into its "cp: " message on the
      console and ends normally. Because -i is off it never reads standard
      input, so the only failures that escape are the JVM errors of a stack
      too shallow and of copying the root into a directory. */
  lemma MainReportsErrors(env: Env, stack: nat, w: World, src: Path, dest: Path)
    ensures var (o, w1) := CopySpec(env, MainConfig, stack, w, src, dest);
      var r := RunSpec(env, stack, w, [src, dest]);
      r.1.stdin == w.stdin &&
      (o.Failed? && o.failure.Cp? ==>
        r == (Done, w1.(stdout := w1.stdout + [Text(Message(o.failure.error))])) &&
        r.1.stdout[|r.1.stdout| - 1].message[..4] == "cp: ") &&
      (r.0.Failed? ==> r.0.failure == StackOverflow || r.0.failure == NullPointer)
  {
    var (o, w1) := CopySpec(env, MainConfig, stack, w, src, dest);
    match PathFactory(w.fs, src)
    case Err(_) =>
    case Ok(s) =>
      match Destination(w.fs, s, dest)
      case Err(_) =>
      case Ok(d) =>
        if s.FileHandle? {
          CopyableFile.NoInputWithoutPrompt(MainConfig, stack, w, s.path, d.path);
        } else {
          CopyableFolder.FolderNoInput(env, MainConfig, stack, w, s.path, d.path);
        }
  }

  /** Copying a regular file to a new path in an existing directory creates
      that file with the source's content and changes nothing else. */
  lemma FileToNewPath(env: Env, cfg: Config, stack: nat, w: World, src: Path, dest: Path)
    requires stack > 0 && RegularFileAt(w.fs, src) && dest !in w.fs && ParentIsDir(w.fs, dest)
    ensures CopySpec(env, cfg, stack, w, src, dest).0 == Done
    ensures CopySpec(env, cfg, stack, w, src, dest).1.fs == w.fs[dest := w.fs[src]]
  {
    assert src != dest;
  }

  /** Copying a regular file into an existing directory that has no entry of
      that name creates `dir/basename` with the source's content. */
  lemma FileIntoDirectory(env: Env, cfg: Config, stack: nat, w: World, src: Path, dir: Path)
    requires stack > 0 && RegularFileAt(w.fs, src) && src != [] && DirectoryAt(w.fs, dir)
    requires dir + [FileName(src)] !in w.fs
    ensures CopySpec(env, cfg, stack, w, src, dir).0 == Done
    ensures CopySpec(env, cfg, stack, w, src, dir).1.fs == w.fs[dir + [FileName(src)] := w.fs[src]]
  {
    assert Parent(dir + [FileName(src)]) == dir;
  }

  /** Copying a directory to a new name next to it reproduces its whole
      tree under that name and changes nothing else. */
  lemma FolderToNewName(env: Env, cfg: Config, stack: nat, w: World, src: Path, dest: Path)
    requires Tree(w.fs) && DirectoryAt(w.fs, src) && cfg.allowCopyRecursively
    requires dest !in w.fs && ParentIsDir(w.fs, dest) && Disjoint(src, dest)
    requires TreeCopy.CopyPrerequisites(env, w.fs, src, stack)
    ensures var r := CopySpec(env, cfg, stack, w, src, dest);
      r.0 == Done && r.1.stdin == w.stdin &&
      TreeCopy.SameOutside(w.fs, r.1.fs, dest) && TreeCopy.MirrorsTree(w.fs, src, dest, r.1.fs)
  {
    TreeCopy.CopyReproducesTree(env, cfg, stack, w, src, dest);
  }

  /** Copying a directory into an existing directory (such as ".") that has
      no entry of its basename reproduces its tree as `dir/basename`. */
  lemma FolderIntoDirectory(env: Env, cfg: Config, stack: nat, w: World, src: Path, dir: Path)
    requires Tree(w.fs) && DirectoryAt(w.fs, src) && src != [] && cfg.allowCopyRecursively
    requires DirectoryAt(w.fs, dir) && dir + [FileName(src)] !in w.fs
    requires Disjoint(src, dir + [FileName(src)])
    requires TreeCopy.CopyPrerequisites(env, w.fs, src, stack)
    ensures var target := dir + [FileName(src)];
      var r := CopySpec(env, cfg, stack, w, src, dir);
      r.0 == Done && r.1.stdin == w.stdin &&
      TreeCopy.SameOutside(w.fs, r.1.fs, target) && TreeCopy.MirrorsTree(w.fs, src, target, r.1.fs)
  {
    var target := dir + [FileName(src)];
    assert Parent(target) == dir;
    TreeCopy.CopyReproducesTree(env, cfg, stack, w, src, target);
  }

  /** Copying a regular file onto itself, or into the directory that holds
      it, fails as "identical" under the flags of `main` and changes nothing;
      `main` prints the message. */
  lemma SelfCopyFails(env: Env, stack: nat, w: World, src: Path, dest: Path)
    requires stack > 0 && RegularFileAt(w.fs, src) && src != []
    requires dest == src || dest == Parent(src)
    requires DirectoryAt(w.fs, Parent(src))
    ensures CopySpec(env, MainConfig, stack, w, src, dest).0 == Failed(Cp(Identical(src, src)))
    ensures CopySpec(env, MainConfig, stack, w, src, dest).1 == w
    ensures RunSpec(env, stack, w, [src, dest]) ==
      (Done, w.(stdout := w.stdout + [Text(Message(Identical(src, src)))]))
  {
    assert Parent(src) + [FileName(src)] == src;
    assert Parent(src) != src;
    assert [src, dest][0] == src && [src, dest][1] == dest;
  }
}
