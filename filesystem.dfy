/**
 * The filesystem the program reads and writes, as a map from path strings to
 * entries, and the `std::fs`/`tokio::fs` calls it makes on it.
 *
 * Each call takes an `IoOutcome`: whether the operating system lets it run or
 * fails it (permissions, full disk, a race with another process). Failures that
 * follow from the tree itself (writing onto a directory, a missing parent,
 * copying from something that is not a file) are derived from the map. A failing
 * call changes nothing.
 */
module FileSystem {
  import opened Wrappers
  import opened Paths

  datatype Entry = File(content: string) | Dir

  type Tree = map<string, Entry>

  /** How the operating system answers one I/O call. */
  datatype IoOutcome = Proceeds | FailsWith(reason: string)

  /** The new tree after an operation together with what the operation returned. */
  datatype Effect<+T> = Effect(fs: Tree, result: T)

  const ErrNotFound := "No such file or directory (os error 2)"
  const ErrNotDir := "Not a directory (os error 20)"
  const ErrIsDir := "Is a directory (os error 21)"
  const ErrExists := "File exists (os error 17)"
  const ErrNotRegular := "the source path is neither a regular file nor a symlink to a regular file"

  predicate IsFile(fs: Tree, p: string) {
    p in fs && fs[p].File?
  }

  predicate IsDir(fs: Tree, p: string) {
    p in fs && fs[p].Dir?
  }

  /** A directory new entries can be made in: the working directory "" or an existing directory. */
  predicate DirReady(fs: Tree, d: string) {
    d == "" || IsDir(fs, d)
  }

  /**
   * Every entry sits in a directory that exists. The program does not rely on it,
   * but every call below preserves it.
   */
  predicate WellFormed(fs: Tree) {
    forall p :: p in fs && Parent(p).Some? ==> DirReady(fs, Parent(p).value)
  }

  /** `fs` is a part of `fs'`, and everything `fs'` adds is a directory. */
  predicate OnlyAddsDirs(fs: Tree, fs': Tree) {
    && (forall q :: q in fs ==> q in fs' && fs'[q] == fs[q])
    && (forall q :: q in fs' && q !in fs ==> fs'[q] == Dir)
  }

  /** The tree after a call that returned `r`: its new tree on success, `fs` otherwise. */
  function Commit(fs: Tree, r: Result<Tree>): Tree {
    if r.Ok? then r.value else fs
  }

  /** What a call that returned `r` tells its caller. */
  function Status(r: Result<Tree>): Result<()> {
    if r.Ok? then Ok(()) else Err(r.error)
  }

  /** Why creating an entry at `p` fails because of where it would go, if it does. */
  function PlacementError(fs: Tree, p: string): Option<string> {
    if IsDir(fs, p) then Some(ErrIsDir)
    else match Parent(p)
      case None => Some(ErrNotFound)
      case Some(d) =>
        if DirReady(fs, d) then None
        else if d in fs then Some(ErrNotDir)
        else Some(ErrNotFound)
  }

  /** `read` / `read_to_string`: the content of a regular file. */
  function Read(fs: Tree, p: string, io: IoOutcome): (r: Result<string>)
    ensures r.Ok? <==> io.Proceeds? && IsFile(fs, p)
    ensures r.Ok? ==> r.value == fs[p].content
  {
    if io.FailsWith? then Err(io.reason)
    else if p !in fs then Err(ErrNotFound)
    else match fs[p]
      case Dir => Err(ErrIsDir)
      case File(c) => Ok(c)
  }

  /** `write`: create or truncate the file at `p` and fill it with `content`. */
  function Write(fs: Tree, p: string, content: string, io: IoOutcome): (r: Result<Tree>)
    ensures r.Ok? <==> io.Proceeds? && PlacementError(fs, p).None?
    ensures r.Ok? ==> r.value == fs[p := File(content)]
  {
    if io.FailsWith? then Err(io.reason)
    else match PlacementError(fs, p)
      case Some(e) => Err(e)
      case None => Ok(fs[p := File(content)])
  }

  /** `copy`: the file at `dest` receives the content of the regular file at `src`. */
  function Copy(fs: Tree, src: string, dest: string, io: IoOutcome): (r: Result<Tree>)
    ensures r.Ok? <==> io.Proceeds? && IsFile(fs, src) && PlacementError(fs, dest).None?
    ensures r.Ok? ==> r.value == fs[dest := File(fs[src].content)]
  {
    if io.FailsWith? then Err(io.reason)
    else if src !in fs then Err(ErrNotFound)
    else if fs[src].Dir? then Err(ErrNotRegular)
    else Write(fs, dest, fs[src].content, Proceeds)
  }

  /**
   * The directory-creating part of `create_dir_all`: make `p` and every missing
   * ancestor, failing when one of them is in the way as a file.
   */
  function MkdirAll(fs: Tree, p: string): (r: Result<Tree>)
    ensures r.Ok? ==> OnlyAddsDirs(fs, r.value)
    ensures r.Ok? && p != "" ==> IsDir(r.value, p)
    ensures r.Ok? ==> forall q :: q in r.value && q !in fs ==> |q| <= |p|
    ensures DirReady(fs, p) ==> r == Ok(fs)
    ensures p != "" && IsFile(fs, p) ==> r.Err?
    decreases |p|
  {
    if p == "" then Ok(fs)
    else if p in fs then (if fs[p].Dir? then Ok(fs) else Err(ErrExists))
    else match Parent(p)
      case None => Ok(fs[p := Dir])
      case Some(d) =>
        if DirReady(fs, d) then Ok(fs[p := Dir])
        else if d in fs then Err(ErrNotDir)
        else
          var up := MkdirAll(fs, d);
          if up.Err? then up else Ok(up.value[p := Dir])
  }

  /** `create_dir_all`: returns at once for the empty path, otherwise asks the system. */
  function CreateDirAll(fs: Tree, p: string, io: IoOutcome): (r: Result<Tree>)
    ensures r.Ok? ==> OnlyAddsDirs(fs, r.value)
    ensures r.Ok? && p != "" ==> IsDir(r.value, p)
    ensures r.Ok? ==> forall q :: q in r.value && q !in fs ==> |q| <= |p|
    ensures p == "" ==> r == Ok(fs)
    ensures r.Err? ==> p != "" && (io.FailsWith? || MkdirAll(fs, p).Err?)
  {
    if p == "" then Ok(fs)
    else if io.FailsWith? then Err(io.reason)
    else MkdirAll(fs, p)
  }

  lemma {:induction false} MkdirAllWellFormed(fs: Tree, p: string)
    requires WellFormed(fs)
    requires MkdirAll(fs, p).Ok?
    ensures WellFormed(MkdirAll(fs, p).value)
    decreases |p|
  {
    if p != "" && p !in fs {
      match Parent(p)
      case None =>
        WellFormedAddDir(fs, p);
      case Some(d) =>
        if DirReady(fs, d) {
          WellFormedAddDir(fs, p);
        } else {
          var up := MkdirAll(fs, d);
          MkdirAllWellFormed(fs, d);
          assert IsDir(up.value, d);
          WellFormedAddDir(up.value, p);
          assert MkdirAll(fs, p) == Ok(up.value[p := Dir]);
        }
    }
  }

  /** Adding a directory whose parent exists keeps the tree well formed. */
  lemma WellFormedAddDir(fs: Tree, p: string)
    requires WellFormed(fs)
    requires Parent(p).Some? ==> DirReady(fs, Parent(p).value)
    ensures WellFormed(fs[p := Dir])
  {
    var fs' := fs[p := Dir];
    forall q | q in fs' && Parent(q).Some?
      ensures DirReady(fs', Parent(q).value)
    {
      if q != p { assert DirReady(fs, Parent(q).value); }
    }
  }

  /** Writing a file where the tree lets it go keeps the tree well formed. */
  lemma WriteWellFormed(fs: Tree, p: string, content: string, io: IoOutcome)
    requires WellFormed(fs)
    requires Write(fs, p, content, io).Ok?
    ensures WellFormed(Write(fs, p, content, io).value)
  {
    var fs' := fs[p := File(content)];
    assert !IsDir(fs, p);
    forall q | q in fs' && Parent(q).Some?
      ensures DirReady(fs', Parent(q).value)
    {
      var d := Parent(q).value;
      if q != p {
        assert DirReady(fs, d);
        assert d != p;
      } else {
        assert PlacementError(fs, p).None?;
        assert DirReady(fs, d) && |d| < |p|;
      }
    }
  }

  /** The disk the server and the client work on; each method is one system call. */
  class Disk {
    var entries: Tree

    constructor (initial: Tree)
      ensures entries == initial
    {
      entries := initial;
    }

    method WriteFile(p: string, content: string, io: IoOutcome) returns (r: Result<()>)
      modifies this
      ensures entries == Commit(old(entries), Write(old(entries), p, content, io))
      ensures r == Status(Write(old(entries), p, content, io))
    {
      var w := Write(entries, p, content, io);
      entries := Commit(entries, w);
      r := Status(w);
    }

    method CopyFile(src: string, dest: string, io: IoOutcome) returns (r: Result<()>)
      modifies this
      ensures entries == Commit(old(entries), Copy(old(entries), src, dest, io))
      ensures r == Status(Copy(old(entries), src, dest, io))
    {
      var c := Copy(entries, src, dest, io);
      entries := Commit(entries, c);
      r := Status(c);
    }

    method CreateDirAllAt(p: string, io: IoOutcome) returns (r: Result<()>)
      modifies this
      ensures entries == Commit(old(entries), CreateDirAll(old(entries), p, io))
      ensures r == Status(CreateDirAll(old(entries), p, io))
    {
      var c := CreateDirAll(entries, p, io);
      entries := Commit(entries, c);
      r := Status(c);
    }
  }
}
