/** What every copyable path shares: the four copy flags, the error
    taxonomy with its "cp: " messages, the overwrite policy and the factory
    that turns a source path into a file or folder handle. */
module CopyablePath {
  import opened Paths
  import opened Host

  /** The four process-wide flags, fixed for one top-level copy:
      -r (allowCopyRecursively), -n (doNotOverwrite), -v (verboseMode),
      -i (permitToOverwrite: ask before overwriting). */
  datatype Config = Config(
    allowCopyRecursively: bool,
    doNotOverwrite: bool,
    verboseMode: bool,
    permitToOverwrite: bool)

  /** The cases a `CopyBaseException` reports. */
  datatype CpError =
    | NoSuchFile(path: Path)
    | Identical(src: Path, dest: Path)
    | IsADirectory(name: string)
    | PermissionDenied(name: string)

  /** Why a copy stops early: a `CopyBaseException`, or one of the JVM
      errors the program never catches. */
  datatype Failure =
    | Cp(error: CpError)
    | NoInput        // Scanner.next() found standard input exhausted
    | StackOverflow  // the recursion ran out of call stack
    | NullPointer    // Path.resolve(null): the root has no basename

  /** How a `void` copy call ends: normally, or by throwing. */
  datatype Outcome = Done | Failed(failure: Failure)

  datatype Result<T> = Ok(value: T) | Err(failure: Failure)

  /** A copyable path: a file or folder variant around a path that never changes after construction. */
  datatype Handle = FileHandle(path: Path) | FolderHandle(path: Path)

  /** The message of a `CopyBaseException`: every one starts with "cp: ". */
  function Message(e: CpError): (m: string)
    ensures |m| > 4 && m[..4] == "cp: "
  {
    "cp: " +
    match e
    case NoSuchFile(p) => Render(p) + ": No such file or directory"
    case Identical(s, d) => Render(s) + " and " + Render(d) + " are identical (not copied)."
    case IsADirectory(n) => n + " is a directory (not copied)."
    case PermissionDenied(n) => "permission denied: " + n
  }

  function LowerChar(c: char): char
  {
    if 'A' <= c <= 'Z' then (c as int - 'A' as int + 'a' as int) as char else c
  }

  /** `String.toLowerCase()`, on ASCII letters. */
  function Lower(s: string): string
  {
    if s == [] then [] else [LowerChar(s[0])] + Lower(s[1..])
  }

  /** The answer that permits an overwrite: "y" or "yes" once lower-cased. */
  predicate Accepts(token: string)
  {
    Lower(token) == "y" || Lower(token) == "yes"
  }

  /** The spellings accepted are exactly the ten case variants of "y" and "yes". */
  lemma {:induction false} AcceptsExactly(token: string)
    ensures Accepts(token) <==>
      token in {"y", "Y", "yes", "yeS", "yEs", "yES", "Yes", "YeS", "YEs", "YES"}
  {
    if |token| == 1 {
      assert Lower(token) == [LowerChar(token[0])];
      assert token == [token[0]];
    } else if |token| == 3 {
      assert Lower(token[2..]) == [LowerChar(token[2])];
      assert Lower(token[1..]) == [LowerChar(token[1]), LowerChar(token[2])];
      assert Lower(token) == [LowerChar(token[0]), LowerChar(token[1]), LowerChar(token[2])];
      assert token == [token[0], token[1], token[2]];
    } else {
      LowerLength(token);
    }
  }

  lemma {:induction false} LowerLength(s: string)
    ensures |Lower(s)| == |s|
  {
    if s != [] {
      LowerLength(s[1..]);
    }
  }

  /** Is the overwrite of `dest` permitted? -n refuses without asking; without
      -i the answer is yes without asking; with -i the basename of `dest` is
      shown in a prompt and one token is read from standard input. */
  function PromptOverwrite(cfg: Config, w: World, dest: Path): (r: (Result<bool>, World))
    ensures r.1.fs == w.fs
    ensures r.0 == Ok(true) <==>
      !cfg.doNotOverwrite && (!cfg.permitToOverwrite || (w.stdin != [] && Accepts(w.stdin[0])))
    ensures r.0.Err? <==> !cfg.doNotOverwrite && cfg.permitToOverwrite && w.stdin == []
    ensures r.0.Err? ==> r.0.failure == NoInput
    ensures cfg.doNotOverwrite || !cfg.permitToOverwrite ==> r.1 == w
    ensures !cfg.doNotOverwrite && cfg.permitToOverwrite ==>
      r.1.stdout == w.stdout + [Ask(FileName(dest))] &&
      r.1.stdin == if w.stdin == [] then [] else w.stdin[1..]
  {
    if cfg.doNotOverwrite then (Ok(false), w)
    else if !cfg.permitToOverwrite then (Ok(true), w)
    else
      var asked := w.(stdout := w.stdout + [Ask(FileName(dest))]);
      if w.stdin == [] then (Err(NoInput), asked)
      else (Ok(Accepts(w.stdin[0])), asked.(stdin := w.stdin[1..]))
  }

  /** `promptOverwrite`, acting on the console. */
  method AskOverwrite(h: Host, cfg: Config, dest: Path) returns (r: Result<bool>)
    modifies h
    ensures (r, h.State()) == PromptOverwrite(cfg, old(h.State()), dest)
  {
    if cfg.doNotOverwrite {
      return Ok(false);
    }
    if !cfg.permitToOverwrite {
      return Ok(true);
    }
    h.Print(Ask(FileName(dest)));
    var token := h.Next();
    if token.None? {
      return Err(NoInput);
    }
    var choice := Lower(token.value);
    r := Ok(choice == "y" || choice == "yes");
  }

  /** `pathFactory`: a file handle for a regular file, a folder handle for a
      directory (in that order), "No such file or directory" otherwise. */
  function PathFactory(fs: map<Path, Node>, p: Path): (r: Result<Handle>)
    ensures r.Ok? <==> RegularFileAt(fs, p) || DirectoryAt(fs, p)
    ensures r.Ok? ==> r.value.path == p && (r.value.FileHandle? <==> RegularFileAt(fs, p))
    ensures r.Err? ==> r.failure == Cp(NoSuchFile(p))
  {
    if p !in fs then Err(Cp(NoSuchFile(p)))
    else if fs[p].File? then Ok(FileHandle(p))
    else if fs[p].Dir? then Ok(FolderHandle(p))
    else Err(Cp(NoSuchFile(p)))
  }
}
