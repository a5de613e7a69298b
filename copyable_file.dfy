/** Copying one regular file: the identity check and the byte copy
    (`copyProxy`), and the three-way dispatch on what the destination is
    (`copy`). */
module CopyableFile {
  import opened Paths
  import opened Host
  import opened CopyablePath

  /** `copyProxy(src, dest[, REPLACE_EXISTING])`: refuses to copy a path onto
      itself before anything happens; otherwise prints the verbose notice and
      then copies, mapping a failed copy to "permission denied" on the
      destination's basename. */
  function CopyProxySpec(cfg: Config, w: World, src: Path, dest: Path, replace: bool): (r: (Outcome, World))
    ensures src == dest ==> r == (Failed(Cp(Identical(src, dest))), w)
    ensures src != dest ==>
      r.1.stdout == w.stdout + (if cfg.verboseMode then [Copying(src, dest)] else [])
    ensures r.1.stdin == w.stdin
    ensures r.0 == Done <==> src != dest && CopyBytes(w.fs, src, dest, replace).Some?
    ensures r.0 == Done ==> r.1.fs == w.fs[dest := w.fs[src]] && w.fs[src].File?
    ensures r.0 != Done ==> r.1.fs == w.fs
    ensures src != dest && r.0 != Done ==> r.0 == Failed(Cp(PermissionDenied(FileName(dest))))
  {
    if src == dest then (Failed(Cp(Identical(src, dest))), w)
    else
      var logged := if cfg.verboseMode then w.(stdout := w.stdout + [Copying(src, dest)]) else w;
      match CopyBytes(w.fs, src, dest, replace)
      case None => (Failed(Cp(PermissionDenied(FileName(dest)))), logged)
      case Some(fs') => (Done, logged.(fs := fs'))
  }

  /** `copy(dest)` of a file handle. A missing destination is copied to; an
      existing regular file is replaced only when the overwrite policy says
      so; an existing directory re-targets the copy to `dest/basename(src)`;
      anything else is left alone. Each call takes one frame of `stack`. */
  function CopySpec(cfg: Config, stack: nat, w: World, src: Path, dest: Path): (Outcome, World)
    decreases stack
  {
    if stack == 0 then (Failed(StackOverflow), w)
    else if dest !in w.fs then CopyProxySpec(cfg, w, src, dest, false)
    else if w.fs[dest].File? then
      var (permitted, w1) := PromptOverwrite(cfg, w, dest);
      match permitted
      case Err(f) => (Failed(f), w1)
      case Ok(yes) => if yes then CopyProxySpec(cfg, w1, src, dest, true) else (Done, w1)
    else if w.fs[dest].Dir? then CopySpec(cfg, stack - 1, w, src, dest + [FileName(src)])
    else (Done, w)
  }

  /** Where a copy of `src` aimed at `dest` comes to rest: existing
      directories are entered by the source's basename. */
  function Landing(fs: map<Path, Node>, src: Path, dest: Path, stack: nat): (t: Path)
    ensures IsPrefix(dest, t)
    ensures stack > 0 && !DirectoryAt(fs, dest) ==> t == dest
    decreases stack
  {
    if stack > 0 && DirectoryAt(fs, dest) then
      var t := Landing(fs, src, dest + [FileName(src)], stack - 1);
      assert t[..|dest|] == t[..|dest| + 1][..|dest|];
      t
    else dest
  }

  method CopyProxy(h: Host, cfg: Config, src: Path, dest: Path, replace: bool) returns (r: Outcome)
    modifies h
    ensures (r, h.State()) == CopyProxySpec(cfg, old(h.State()), src, dest, replace)
  {
    if src == dest {
      return Failed(Cp(Identical(src, dest)));
    }
    if cfg.verboseMode {
      h.Print(Copying(src, dest));
    }
    var ok := h.Copy(src, dest, replace);
    if !ok {
      return Failed(Cp(PermissionDenied(FileName(dest))));
    }
    r := Done;
  }

  method Copy(h: Host, cfg: Config, stack: nat, src: Path, dest: Path) returns (r: Outcome)
    modifies h
    ensures (r, h.State()) == CopySpec(cfg, stack, old(h.State()), src, dest)
    decreases stack
  {
    if stack == 0 {
      return Failed(StackOverflow);
    }
    if !h.Exists(dest) {
      r := CopyProxy(h, cfg, src, dest, false);
      return;
    }
    if h.IsRegularFile(dest) {
      var permitted := AskOverwrite(h, cfg, dest);
      if permitted.Err? {
        return Failed(permitted.failure);
      }
      if permitted.value {
        r := CopyProxy(h, cfg, src, dest, true);
        return;
      }
      return Done;
    }
    if h.IsDirectory(dest) {
      r := Copy(h, cfg, stack - 1, src, dest + [FileName(src)]);
      return;
    }
    r := Done;
  }

  // ---------------------------------------------------------------------------
  // Properties of a file copy

  /** A missing destination whose parent is a directory receives the source's
      content; the source and every other entry stay as they were. */
  lemma CopyToMissing(cfg: Config, stack: nat, w: World, src: Path, dest: Path)
    requires stack > 0 && RegularFileAt(w.fs, src) && src != dest
    requires dest !in w.fs && ParentIsDir(w.fs, dest)
    ensures CopySpec(cfg, stack, w, src, dest).0 == Done
    ensures CopySpec(cfg, stack, w, src, dest).1.fs == w.fs[dest := w.fs[src]]
    ensures CopySpec(cfg, stack, w, src, dest).1.fs[src] == w.fs[src]
  {
  }

  /** A missing destination whose parent is not a directory fails with
      "permission denied" on the destination's basename, after the verbose
      notice, and changes no entry. */
  lemma CopyToOrphan(cfg: Config, stack: nat, w: World, src: Path, dest: Path)
    requires stack > 0 && src != dest && dest !in w.fs && !ParentIsDir(w.fs, dest)
    ensures CopySpec(cfg, stack, w, src, dest) ==
      (Failed(Cp(PermissionDenied(FileName(dest)))),
       w.(stdout := w.stdout + if cfg.verboseMode then [Copying(src, dest)] else []))
  {
  }

  /** An existing regular file is replaced exactly when the policy permits it;
      when it does not, the filesystem is untouched and no error is raised. */
  lemma CopyOntoFile(cfg: Config, stack: nat, w: World, src: Path, dest: Path)
    requires stack > 0 && RegularFileAt(w.fs, src) && src != dest
    requires RegularFileAt(w.fs, dest) && ParentIsDir(w.fs, dest)
    ensures var (permitted, w1) := PromptOverwrite(cfg, w, dest);
      permitted.Ok? ==>
        var r := CopySpec(cfg, stack, w, src, dest);
        r.0 == Done &&
        r.1.fs == (if permitted.value then w.fs[dest := w.fs[src]] else w.fs)
  {
  }

  /** An existing directory as destination is the same as aiming at the
      source's basename inside it. */
  lemma CopyIntoDirectory(cfg: Config, stack: nat, w: World, src: Path, dest: Path)
    requires stack > 0 && DirectoryAt(w.fs, dest)
    ensures CopySpec(cfg, stack, w, src, dest) == CopySpec(cfg, stack - 1, w, src, dest + [FileName(src)])
  {
  }

  /** With -n, copying a file onto itself is a silent no-op: the identity
      check sits in `copyProxy`, which the policy never lets the call reach. */
  lemma SelfCopyUnderNoClobber(cfg: Config, stack: nat, w: World, src: Path)
    requires stack > 0 && cfg.doNotOverwrite && RegularFileAt(w.fs, src)
    ensures CopySpec(cfg, stack, w, src, src) == (Done, w)
  {
  }

  /** Without -n and -i, copying a file onto itself is rejected as identical,
      with nothing printed and nothing changed. */
  lemma SelfCopyRejected(cfg: Config, stack: nat, w: World, src: Path)
    requires stack > 0 && !cfg.doNotOverwrite && !cfg.permitToOverwrite && RegularFileAt(w.fs, src)
    ensures CopySpec(cfg, stack, w, src, src) == (Failed(Cp(Identical(src, src))), w)
  {
  }

  /** A file copy writes at most one entry, the landing path, and what it
      writes there is the source node; it prints at most one prompt and one
      notice (naming the source and the landing path) and reads at most one
      answer. What it writes there could have been written by `Files.copy`
      with REPLACE_EXISTING. */
  lemma {:induction false} CopyWritesOnlyLanding(cfg: Config, stack: nat, w: World, src: Path, dest: Path)
    ensures var r := CopySpec(cfg, stack, w, src, dest);
      var t := Landing(w.fs, src, dest, stack);
      (r.1.fs == w.fs || (CopyBytes(w.fs, src, t, true).Some? && r.1.fs == w.fs[t := w.fs[src]])) &&
      (r.1.stdin == w.stdin || (w.stdin != [] && r.1.stdin == w.stdin[1..])) &&
      w.stdout <= r.1.stdout &&
      (forall l :: l in r.1.stdout[|w.stdout|..] && l.Copying? ==> l == Copying(src, t))
    decreases stack
  {
    var r := CopySpec(cfg, stack, w, src, dest);
    if stack == 0 {
    } else if dest !in w.fs {
      assert Landing(w.fs, src, dest, stack) == dest;
      assert r == CopyProxySpec(cfg, w, src, dest, false);
      assert CopyBytes(w.fs, src, dest, false).Some? ==> CopyBytes(w.fs, src, dest, true).Some?;
    } else if w.fs[dest].File? {
      assert Landing(w.fs, src, dest, stack) == dest;
      var (permitted, w1) := PromptOverwrite(cfg, w, dest);
      if permitted == Ok(true) {
        assert r == CopyProxySpec(cfg, w1, src, dest, true);
        assert w1.fs == w.fs;
        assert r.1.stdout[|w.stdout|..] == w1.stdout[|w.stdout|..] + r.1.stdout[|w1.stdout|..];
      }
    } else if w.fs[dest].Dir? {
      CopyWritesOnlyLanding(cfg, stack - 1, w, src, dest + [FileName(src)]);
    }
  }

  /** Without -i a file copy never reads standard input, so it cannot fail
      for want of an answer. */
  lemma {:induction false} NoInputWithoutPrompt(cfg: Config, stack: nat, w: World, src: Path, dest: Path)
    requires !cfg.permitToOverwrite
    ensures CopySpec(cfg, stack, w, src, dest).1.stdin == w.stdin
    ensures CopySpec(cfg, stack, w, src, dest).0 != Failed(NoInput)
    decreases stack
  {
    if stack > 0 && dest in w.fs && w.fs[dest].Dir? {
      NoInputWithoutPrompt(cfg, stack - 1, w, src, dest + [FileName(src)]);
    }
  }
}
