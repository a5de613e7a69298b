# A verified model of a `cp -rv` clone's copy engine

This project models the copy-resolution engine of a small Java clone of
`cp -rv`. Given a source and a destination path, the engine does four things:

- It resolves the source into a file or folder handle (`pathFactory`).
- It infers the destination. An existing directory means "inside it, under
  the source's basename".
- It dispatches on the kind of the source and of the destination:
  - a file onto a missing path, an existing file or a directory;
  - a folder onto a missing path (create one level, then re-enter), an
    existing file (refused) or a directory (list it, then copy every regular
    file before any subdirectory).
- It applies the `-n`/`-i` overwrite policy. Under `-i` this reads a
  yes/no answer from standard input.

`main` runs the engine with the flags of `cp -rv`. It prints the message of
every `CopyBaseException`, each of which starts with "cp: ".

The world the engine acts on is an in-memory filesystem. It is a map from
absolute paths (sequences of name segments, the root being the empty
sequence) to `File(content)`, `Dir` or `Special` nodes. `Special` stands for
anything that exists but is neither a regular file nor a directory. The world
also holds the console output, as a sequence of lines, and the tokens waiting
on standard input.

Two things the operating system decides become parameters (`Env`):

- the order in which a directory stream yields names. This is a function
  of the directory and of the names it holds, so each directory can have an
  order of its own, and so can each content of a directory.
- the set of directories whose listing fails.

A real directory stream yields every entry. `StreamsComplete` states this of
an environment, and `StreamsCanBeComplete` shows such an environment exists.
The lemmas that depend on a complete listing require it.

The depth of the Java call stack becomes a `stack: nat` budget. Every `copy`
call takes one frame, and running out is the `StackOverflowError` the program
never catches.

Layout:

- `paths.dfy`: paths, basenames, prefixes.
- `host.dfy`: the filesystem and console primitives. The `Host` class is the
  mutable world that the methods change.
- `copyable_path.dfy`: flags, errors and messages, the overwrite policy and
  `pathFactory`.
- `copyable_file.dfy`: `copyProxy` and the file `copy`.
- `copyable_folder.dfy`: the folder `copy` and `copyFilesAndSubdirectories`.
- `tree_copy.dfy`: what a recursive copy achieves as a whole.
- `app.dfy`: `App.copy` and `App.main`.

Every operation is written twice:

- a pure specification function over a `World` value;
- an imperative method on `Host`, with the source's branches, loops and
  early exits. Its `ensures` ties the returned outcome and the new state of
  the host to the specification function, applied to the old state.

The properties are then proved about the specification functions.

## Model

| member | source | states |
|---|---|---|
| CopyablePath.Message | src/main/java/ru/spbstu/telematics/java/CopyBaseException.java:8-10 | every error message starts with "cp: " and has text after it |
| CopyablePath.AcceptsExactly | src/main/java/ru/spbstu/telematics/java/CopyablePath.java:70-71 | an answer permits the overwrite iff it is one of the ten upper/lower-case spellings of "y" and "yes" |
| CopyablePath.PromptOverwrite | src/main/java/ru/spbstu/telematics/java/CopyablePath.java:63-72 | -n gives false and -i off gives true, both with nothing printed or read; under -i only, the prompt shows the basename of the destination and one token is consumed; the result is true iff the token lower-cases to "y" or "yes"; it fails for want of input iff -i is on, -n is off and standard input is empty; the filesystem never changes |
| CopyablePath.AskOverwrite | src/main/java/ru/spbstu/telematics/java/CopyablePath.java:63-72 | the console-driven method returns exactly what PromptOverwrite decides and leaves the host in the state it describes |
| CopyablePath.PathFactory | src/main/java/ru/spbstu/telematics/java/CopyablePath.java:79-94 | it succeeds iff the path is a regular file or a directory; the handle keeps the path and is a file handle iff the path is a regular file; a missing path and a special entry both fail with "No such file or directory" on that path |
| CopyableFile.CopyProxySpec | src/main/java/ru/spbstu/telematics/java/CopyableFile.java:25-36 | src == dest fails as identical with nothing printed or changed; otherwise the verbose notice is printed even if the copy then fails; it succeeds iff the underlying copy can happen, and then exactly dest receives the source's content; a failure is "permission denied" on dest's basename and leaves the filesystem unchanged; stdin is untouched |
| CopyableFile.CopyProxy | src/main/java/ru/spbstu/telematics/java/CopyableFile.java:25-46 | the method's outcome and new host state are those of CopyProxySpec (both overloads: with and without replace) |
| CopyableFile.Copy | src/main/java/ru/spbstu/telematics/java/CopyableFile.java:58-73 | the method's outcome and new host state are those of the file copy's specification, branch for branch |
| CopyableFile.Landing | src/main/java/ru/spbstu/telematics/java/CopyableFile.java:68-72 | the path where a copy comes to rest lies in the tree of the destination, and is the destination itself when that is not a directory |
| CopyableFile.CopyToMissing | src/main/java/ru/spbstu/telematics/java/CopyableFile.java:59-62 | a missing destination in an existing directory receives the source's content; nothing else changes and the source keeps its content |
| CopyableFile.CopyToOrphan | src/main/java/ru/spbstu/telematics/java/CopyableFile.java:59-62 | a missing destination whose parent is not a directory fails with "permission denied" on its basename, after the verbose notice, with the filesystem unchanged |
| CopyableFile.CopyOntoFile | src/main/java/ru/spbstu/telematics/java/CopyableFile.java:63-67 | an existing regular file is replaced iff the overwrite policy permits; otherwise the copy ends normally and the filesystem is unchanged |
| CopyableFile.CopyIntoDirectory | src/main/java/ru/spbstu/telematics/java/CopyableFile.java:68-72 | an existing directory as destination gives the same result as copying to dest/basename(src) |
| CopyableFile.SelfCopyUnderNoClobber | src/main/java/ru/spbstu/telematics/java/CopyableFile.java:63-66 | with -n, copying a file onto itself is a silent no-op, because the identity check is never reached |
| CopyableFile.SelfCopyRejected | src/main/java/ru/spbstu/telematics/java/CopyableFile.java:63-67 | without -n and -i, copying a file onto itself fails as identical with nothing printed or changed |
| CopyableFile.CopyWritesOnlyLanding | src/main/java/ru/spbstu/telematics/java/CopyableFile.java:58-73 | a file copy writes nothing, or writes the source node at the landing path and at no other entry; it reads at most one token and only appends output; every notice it prints names the source and the landing path |
| CopyableFile.NoInputWithoutPrompt | src/main/java/ru/spbstu/telematics/java/CopyableFile.java:58-73 | without -i a file copy never reads standard input and never fails for want of an answer |
| Host.ListComplete | src/main/java/ru/spbstu/telematics/java/CopyableFolder.java:30-31 | when directory streams are complete, listing a directory yields every child it holds |
| CopyableFolder.Partition | src/main/java/ru/spbstu/telematics/java/CopyableFolder.java:30-34 | an entry is in the file list iff it was listed and is a regular file, and in the subdirectory list iff it was listed and is a directory; other kinds are dropped; each list keeps the listing order (any two of its entries appear in the listing in the same order); a duplicate-free listing gives duplicate-free lists |
| CopyableFolder.Copy | src/main/java/ru/spbstu/telematics/java/CopyableFolder.java:64-82 | the method's outcome and new host state are those of the folder copy's specification, including the re-entry after creating the destination |
| CopyableFolder.CopyFilesAndSubdirectories | src/main/java/ru/spbstu/telematics/java/CopyableFolder.java:26-51 | the listing loop builds exactly the partition of the listing; the file loop and then the subdirectory loop, each stopping at its first failure, leave the host as the specification of copying the children describes |
| CopyableFolder.RecursionGate | src/main/java/ru/spbstu/telematics/java/CopyableFolder.java:65-66 | without -r, copying any directory, even an empty one, fails with "is a directory" on its basename and changes nothing |
| CopyableFolder.FileDestinationRejected | src/main/java/ru/spbstu/telematics/java/CopyableFolder.java:67-68 | a directory is never copied onto an existing regular file: it fails with "is a directory" and nothing changes |
| CopyableFolder.CreatesOneLevel | src/main/java/ru/spbstu/telematics/java/CopyableFolder.java:69-79 | a missing destination whose parent is a directory is created, one level only, and the copy goes on as into that new empty directory; otherwise the copy fails with "permission denied" on the source's basename and nothing changes |
| CopyableFolder.ListingFailure | src/main/java/ru/spbstu/telematics/java/CopyableFolder.java:30-37 | a source that cannot be listed fails with "permission denied" on the source's basename, with nothing changed |
| CopyableFolder.CopyFilesAppend | src/main/java/ru/spbstu/telematics/java/CopyableFolder.java:39-43 | the file loop over a + b is the loop over a followed by the loop over b, unless a fails; then b is never copied |
| CopyableFolder.CopySubdirectoriesAppend | src/main/java/ru/spbstu/telematics/java/CopyableFolder.java:45-50 | the same first-failure-aborts law for the subdirectory loop |
| CopyableFolder.FilesNotices | src/main/java/ru/spbstu/telematics/java/CopyableFolder.java:39-43 | the file loop only appends output, and each notice it prints names one of the files it was given |
| CopyableFolder.FolderNotices | src/main/java/ru/spbstu/telematics/java/CopyableFolder.java:64-82 | a directory copy only appends output, and each notice it prints names a path strictly inside the source |
| CopyableFolder.ChildrenNotices | src/main/java/ru/spbstu/telematics/java/CopyableFolder.java:26-51 | copying the children prints notices only about paths strictly inside the source; notices about direct children are about regular files; and each of them comes before any notice about a deeper path, so every file is copied before any subdirectory |
| CopyableFolder.SubdirectoriesNotices | src/main/java/ru/spbstu/telematics/java/CopyableFolder.java:45-50 | the subdirectory loop prints notices only about paths at least two levels below the source |
| CopyableFolder.FolderNoInput | src/main/java/ru/spbstu/telematics/java/CopyableFolder.java:64-82 | without -i a directory copy never reads standard input and never fails for want of an answer |
| CopyableFolder.ChildrenNoInput | src/main/java/ru/spbstu/telematics/java/CopyableFolder.java:26-51 | the same for copying the children |
| CopyableFolder.FilesNoInput | src/main/java/ru/spbstu/telematics/java/CopyableFolder.java:39-43 | the same for the file loop |
| CopyableFolder.SubdirectoriesNoInput | src/main/java/ru/spbstu/telematics/java/CopyableFolder.java:45-50 | the same for the subdirectory loop |
| TreeCopy.CopyReproducesTree | src/main/java/ru/spbstu/telematics/java/CopyableFolder.java:26-82 | copying a directory to a fresh path, where neither path lies in the tree of the other, ends normally and reads no input. Afterwards the new tree holds exactly the regular files and directories of the source tree, at the same relative paths and with the same content. Nothing outside it changes. This needs a well-formed tree, listable directories, complete directory streams in any per-directory order, and two stack frames per level |
| TreeCopy.FolderMirror | src/main/java/ru/spbstu/telematics/java/CopyableFolder.java:64-82 | the folder copy to an absent destination reproduces the source tree there (the inductive form of CopyReproducesTree) |
| TreeCopy.ChildrenMirror | src/main/java/ru/spbstu/telematics/java/CopyableFolder.java:26-51 | copying the children into an empty directory reproduces the source tree below it and changes nothing outside it |
| TreeCopy.FilesMirror | src/main/java/ru/spbstu/telematics/java/CopyableFolder.java:39-43 | each file child s/n lands at d/n through the directory branch of the file copy; the copy of the source tree so far grows by exactly those names |
| TreeCopy.SubdirectoriesMirror | src/main/java/ru/spbstu/telematics/java/CopyableFolder.java:45-50 | each subdirectory child s/n is copied with its whole tree to d/n; the copy of the source tree so far grows by exactly those names |
| TreeCopy.IntoItselfOverflows | src/main/java/ru/spbstu/telematics/java/CopyableFolder.java:69-81 | copying an empty directory a to a new a/n inside itself never ends normally, whatever the stack depth: a/n is created, then listed as a child of a and copied into a/n/n, and so on until the stack overflows |
| App.Destination | src/main/java/ru/spbstu/telematics/java/App.java:61-69 | a destination that is not a directory is used as given, as a handle of the source's kind; an existing directory becomes dir/basename(src); when the source is the root, which has no basename, resolving fails |
| App.Copy | src/main/java/ru/spbstu/telematics/java/App.java:45-73 | the method sets the four flags, resolves the source, infers the destination and dispatches; its outcome and new host state are those of the copy's specification |
| App.Run | src/main/java/ru/spbstu/telematics/java/App.java:19-34 | the method's outcome and new host state are those of main's specification |
| App.WrongArgumentCount | src/main/java/ru/spbstu/telematics/java/App.java:20-21 | with any number of arguments other than two, main does nothing |
| App.SourceErrorAborts | src/main/java/ru/spbstu/telematics/java/App.java:60 | a source that is neither a regular file nor a directory aborts with "No such file or directory" before anything is printed or changed |
| App.NestsIntoExistingDirectory | src/main/java/ru/spbstu/telematics/java/App.java:68-72 | an existing directory as destination means the source's basename inside it; any other destination is used as given, for both kinds of source |
| App.MainReportsErrors | src/main/java/ru/spbstu/telematics/java/App.java:19-34 | main never reads standard input; every copy error is printed as its "cp: " message and main then ends normally; the only failures that escape are a stack overflow and resolving against the root |
| App.FileToNewPath | src/test/java/ru/spbstu/telematics/java/AppTest.java:64-71 | copying a file to a new path in an existing directory creates exactly that file with the source's content |
| App.FileIntoDirectory | src/test/java/ru/spbstu/telematics/java/AppTest.java:73-80 | copying a file into a directory with no entry of its name creates dir/basename with the source's content and changes nothing else |
| App.FolderToNewName | src/test/java/ru/spbstu/telematics/java/AppTest.java:82-92 | copying a directory to a new name reproduces its whole tree under that name, reads no input and changes nothing else |
| App.FolderIntoDirectory | src/test/java/ru/spbstu/telematics/java/AppTest.java:94-115 | copying a directory into an existing directory such as "." reproduces its tree as dir/basename; an empty directory gives an empty copy |
| App.SelfCopyFails | src/test/java/ru/spbstu/telematics/java/AppTest.java:117-123 | under main's flags, copying parent/f onto itself, or into parent, fails as identical with nothing changed, and main prints that message |

## Left out

- Paths are taken as absolute, already-normalized sequences of name
  segments. `Path.normalize`, `toAbsolutePath` and the working directory are
  not modelled, and neither are `..`, `.` or symbolic links in an argument.
  So the fact that `pathFactory` does not normalize, while the handle
  constructors do, makes no difference here. A handle is an immutable value,
  so its path cannot change after construction.
- File attributes (`COPY_ATTRIBUTES`) are not modelled. A copied file
  carries its content only.
- `Files.copy`, `Files.createDirectory` and `Files.newDirectoryStream` fail
  only for the causes the model names:
  - a missing or non-directory parent;
  - an existing destination that may not be replaced;
  - a source that is not a regular file;
  - a directory listed as unlistable.
  Other I/O errors, disk space and concurrent changes by other processes are
  left out.
- `Files.notExists` and `Files.exists` are taken as exact complements. The
  "cannot tell" case of `java.nio` is not modelled.
- Host.List: the order of a directory stream is a parameter, a function of
  the directory and its names. The listing is complete only for an
  environment that meets `StreamsComplete`. For any other environment a name
  the stream leaves out is not listed, and the lemmas about whole listings
  require `StreamsComplete`.
- `String.toLowerCase` is modelled on ASCII letters only. Locale-dependent
  and non-ASCII case mapping is left out.
- Console formatting: `printf`/`println` output is a sequence of `Line`
  values (a notice, a prompt, a message text), not characters. A path in a
  message is rendered as "/a/b". `Scanner` buffering and whitespace
  tokenizing are reduced to a sequence of ready tokens.
- The depth of the Java call stack is a parameter (`stack`), one frame per
  `copy` call. The real frame size and thread stack size are not modelled.
  Stack traces printed for errors that `main` does not catch are not
  modelled either.
- The process-wide static flags are an immutable `Config` passed to every
  call. Nothing in the engine changes them during a copy. `App.Copy` takes
  the four flags before it resolves the source, as the source does.
- `pathFactory` tests for a regular file before a directory. In the model
  the two kinds are exclusive, so the order of the two tests makes no
  difference.
- TreeCopy.CopyReproducesTree: proved for a fresh destination outside the
  source tree. Copying onto an existing directory that already has content
  (a merge) is covered only branch by branch, by the file and folder
  lemmas.
