/** The world the copy engine acts on: an in-memory filesystem, the console
    output and the tokens waiting on standard input. The primitives here stand
    for the `java.nio.file.Files` calls and the console streams the engine
    uses; they are not part of the program being modelled. */
module Host {
  import opened Paths

  datatype Option<T> = None | Some(value: T)

  /** What a path denotes. `Special` is anything that exists but is neither a
      regular file nor a directory (a device, a socket, ...). */
  datatype Node = File(content: string) | Dir | Special

  /** One piece of console output. */
  datatype Line =
    | Copying(src: Path, dest: Path)  // verbose notice "src -> dest"
    | Ask(name: string)               // prompt "overwrite 'name'? "
    | Text(message: string)           // a message printed by the entry point

  datatype World = World(fs: map<Path, Node>, stdout: seq<Line>, stdin: seq<string>)

  /** What the engine cannot see but the operating system decides: the order
      in which a directory stream yields names, and the directories whose
      listing fails. `stream(p, names)` is the order of the names when the
      directory `p` holds `names`, so each directory, and each content of it,
      may have an order of its own. */
  datatype Env = Env(stream: (Path, set<Name>) -> seq<Name>, unlistable: set<Path>)

  /** A directory stream yields every name the directory holds. */
  ghost predicate StreamsComplete(env: Env)
  {
    forall p: Path, names: set<Name>, n: Name :: n in names ==> n in env.stream(p, names)
  }

  predicate RegularFileAt(fs: map<Path, Node>, p: Path)
  {
    p in fs && fs[p].File?
  }

  predicate DirectoryAt(fs: map<Path, Node>, p: Path)
  {
    p in fs && fs[p].Dir?
  }

  predicate ParentIsDir(fs: map<Path, Node>, p: Path)
  {
    p != [] && DirectoryAt(fs, Parent(p))
  }

  /** A well-formed tree: the root is a directory and every other entry sits in a directory. */
  ghost predicate Tree(fs: map<Path, Node>)
  {
    DirectoryAt(fs, []) &&
    forall p {:trigger Parent(p)} :: p in fs && p != [] ==> DirectoryAt(fs, Parent(p))
  }

  /** `Files.copy(src, dest[, REPLACE_EXISTING])`: fails when the source is not
      a regular file, when the destination's parent is not a directory, or when
      the destination exists and may not be (or cannot be) replaced. */
  function CopyBytes(fs: map<Path, Node>, src: Path, dest: Path, replace: bool): (r: Option<map<Path, Node>>)
    ensures r.Some? <==> RegularFileAt(fs, src) && ParentIsDir(fs, dest) && (dest !in fs || (replace && RegularFileAt(fs, dest)))
    ensures r.Some? ==> r.value == fs[dest := fs[src]] && fs[src].File?
  {
    if RegularFileAt(fs, src) && ParentIsDir(fs, dest) && (dest !in fs || (replace && RegularFileAt(fs, dest)))
    then Some(fs[dest := fs[src]])
    else None
  }

  /** `Files.createDirectory(p)`: creates one level; fails when `p` exists or its parent is not a directory. */
  function MakeDirectory(fs: map<Path, Node>, p: Path): (r: Option<map<Path, Node>>)
    ensures r.Some? <==> p !in fs && ParentIsDir(fs, p)
    ensures r.Some? ==> r.value == fs[p := Dir]
  {
    if p !in fs && ParentIsDir(fs, p) then Some(fs[p := Dir]) else None
  }

  /** The names of the entries directly inside `p`. */
  function ChildNames(fs: map<Path, Node>, p: Path): set<Name>
  {
    set q | q in fs && |q| == |p| + 1 && q[..|p|] == p :: q[|p|]
  }

  /** The names of `names` in the order they take in `order`, each once. */
  function Pick(order: seq<Name>, names: set<Name>): (r: seq<Name>)
    ensures forall i :: 0 <= i < |r| ==> r[i] in names && r[i] in order
    ensures forall i, j :: 0 <= i < j < |r| ==> r[i] != r[j]
    ensures forall n :: n in names && n in order ==> n in r
  {
    if order == [] then []
    else if order[0] in names then [order[0]] + Pick(order[1..], names - {order[0]})
    else Pick(order[1..], names)
  }

  function Entries(p: Path, names: seq<Name>): (r: seq<Path>)
    ensures |r| == |names|
    ensures forall i :: 0 <= i < |r| ==> r[i] == p + [names[i]]
  {
    seq(|names|, i requires 0 <= i < |names| => p + [names[i]])
  }

  /** `Files.newDirectoryStream(p)`: the children of a listable directory, in stream order. */
  function List(env: Env, fs: map<Path, Node>, p: Path): (r: Option<seq<Path>>)
    ensures r.Some? <==> DirectoryAt(fs, p) && p !in env.unlistable
    ensures r.Some? ==> forall i :: 0 <= i < |r.value| ==>
      r.value[i] in fs && |r.value[i]| == |p| + 1 && r.value[i][..|p|] == p
    ensures r.Some? ==> forall i, j :: 0 <= i < j < |r.value| ==> r.value[i] != r.value[j]
  {
    if DirectoryAt(fs, p) && p !in env.unlistable then
      var names := Pick(env.stream(p, ChildNames(fs, p)), ChildNames(fs, p));
      var entries := Entries(p, names);
      assert forall i :: 0 <= i < |entries| ==> entries[i] in fs && |entries[i]| == |p| + 1 && entries[i][..|p|] == p by {
        forall i | 0 <= i < |entries|
          ensures entries[i] in fs && |entries[i]| == |p| + 1 && entries[i][..|p|] == p
        {
          var q :| q in fs && |q| == |p| + 1 && q[..|p|] == p && q[|p|] == names[i];
          assert q == p + [names[i]];
        }
      }
      Some(entries)
    else None
  }

  /** With complete streams, a listing yields every child of the directory,
      each once. */
  lemma ListComplete(env: Env, fs: map<Path, Node>, p: Path, q: Path)
    requires StreamsComplete(env) && List(env, fs, p).Some?
    requires q in fs && |q| == |p| + 1 && q[..|p|] == p
    ensures q in List(env, fs, p).value
  {
    var names := Pick(env.stream(p, ChildNames(fs, p)), ChildNames(fs, p));
    var entries := Entries(p, names);
    assert q[|p|] in ChildNames(fs, p);
    assert q[|p|] in env.stream(p, ChildNames(fs, p));
    var i :| 0 <= i < |names| && names[i] == q[|p|];
    assert q == p + [q[|p|]];
    assert entries[i] == q;
  }

  /** Some enumeration of any set of names. */
  ghost function Enumerate(names: set<Name>): (r: seq<Name>)
    ensures forall n :: n in names ==> n in r
    decreases names
  {
    if names == {} then []
    else
      var n :| n in names;
      [n] + Enumerate(names - {n})
  }

  /** Complete directory streams exist: listing any set of names in some
      order of its own. */
  lemma StreamsCanBeComplete()
    ensures StreamsComplete(Env((p: Path, names: set<Name>) => Enumerate(names), {}))
  {
  }

  /** A successful directory creation keeps the filesystem a tree. */
  lemma TreeKeptByMakeDirectory(fs: map<Path, Node>, p: Path)
    requires Tree(fs) && MakeDirectory(fs, p).Some?
    ensures Tree(MakeDirectory(fs, p).value)
  {
  }

  /** The operating system and the console as one object the engine mutates. */
  class Host {
    var fs: map<Path, Node>
    var stdout: seq<Line>
    var stdin: seq<string>
    const env: Env

    constructor (fs0: map<Path, Node>, stdin0: seq<string>, env0: Env)
      ensures State() == World(fs0, [], stdin0) && env == env0
    {
      fs, stdout, stdin, env := fs0, [], stdin0, env0;
    }

    function State(): World
      reads this
    {
      World(fs, stdout, stdin)
    }

    /** `Files.exists` */
    predicate Exists(p: Path)
      reads this
    {
      p in fs
    }

    /** `Files.isRegularFile` */
    predicate IsRegularFile(p: Path)
      reads this
    {
      RegularFileAt(fs, p)
    }

    /** `Files.isDirectory` */
    predicate IsDirectory(p: Path)
      reads this
    {
      DirectoryAt(fs, p)
    }

    /** `Files.copy`; `ok` is false where Java throws an IOException. */
    method Copy(src: Path, dest: Path, replace: bool) returns (ok: bool)
      modifies this
      ensures ok == CopyBytes(old(fs), src, dest, replace).Some?
      ensures fs == if ok then CopyBytes(old(fs), src, dest, replace).value else old(fs)
      ensures stdout == old(stdout) && stdin == old(stdin)
    {
      var r := CopyBytes(fs, src, dest, replace);
      ok := r.Some?;
      if ok {
        fs := r.value;
      }
    }

    /** `Files.createDirectory`; `ok` is false where Java throws an IOException. */
    method CreateDirectory(p: Path) returns (ok: bool)
      modifies this
      ensures ok == MakeDirectory(old(fs), p).Some?
      ensures fs == if ok then old(fs)[p := Dir] else old(fs)
      ensures stdout == old(stdout) && stdin == old(stdin)
    {
      ok := p !in fs && ParentIsDir(fs, p);
      if ok {
        fs := fs[p := Dir];
      }
    }

    /** `Files.newDirectoryStream`, drained; `None` where Java throws. */
    method NewDirectoryStream(p: Path) returns (r: Option<seq<Path>>)
      ensures r == List(env, fs, p)
    {
      r := List(env, fs, p);
    }

    /** `System.out.printf` / `println` */
    method Print(line: Line)
      modifies this
      ensures stdout == old(stdout) + [line]
      ensures fs == old(fs) && stdin == old(stdin)
    {
      stdout := stdout + [line];
    }

    /** `Scanner.next()` on standard input; `None` where Java throws NoSuchElementException. */
    method Next() returns (token: Option<string>)
      modifies this
      ensures old(stdin) == [] ==> token == None && stdin == []
      ensures old(stdin) != [] ==> token == Some(old(stdin)[0]) && stdin == old(stdin)[1..]
      ensures fs == old(fs) && stdout == old(stdout)
    {
      if stdin == [] {
        token := None;
      } else {
        token := Some(stdin[0]);
        stdin := stdin[1..];
      }
    }
  }
}
