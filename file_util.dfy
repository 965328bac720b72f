/** `create_and_write` (src/lib/util/file.rs): make the parent directories, then write. */
module FileUtil {
  import opened Wrappers
  import opened Paths
  import opened FileSystem

  /** What `create_and_write` does to the tree and returns. */
  function CreateAndWriteSpec(fs: Tree, path: string, contents: string, mkdirIo: IoOutcome, writeIo: IoOutcome): Effect<Result<()>> {
    var dir := Parent(path);
    var made := if dir.Some? && dir.value !in fs then CreateDirAll(fs, dir.value, mkdirIo) else Ok(fs);
    if made.Err? then Effect(fs, Err(made.error))
    else
      var written := Write(made.value, path, contents, writeIo);
      Effect(Commit(made.value, written), Status(written))
  }

  method CreateAndWrite(disk: Disk, path: string, contents: string, mkdirIo: IoOutcome, writeIo: IoOutcome)
    returns (r: Result<()>)
    modifies disk
    ensures Effect(disk.entries, r) == CreateAndWriteSpec(old(disk.entries), path, contents, mkdirIo, writeIo)
  {
    var dir := Parent(path);
    if dir.Some? && dir.value !in disk.entries {
      var made := disk.CreateDirAllAt(dir.value, mkdirIo);
      if made.Err? {
        return Err(made.error);
      }
    }
    r := disk.WriteFile(path, contents, writeIo);
  }

  /** On success the file holds exactly `contents`, and everything else that changed is a new directory. */
  lemma CreateAndWriteSucceeds(fs: Tree, path: string, contents: string, mkdirIo: IoOutcome, writeIo: IoOutcome)
    requires CreateAndWriteSpec(fs, path, contents, mkdirIo, writeIo).result.Ok?
    ensures var fs' := CreateAndWriteSpec(fs, path, contents, mkdirIo, writeIo).fs;
            && fs'[path] == File(contents)
            && (forall q :: q in fs && q != path ==> q in fs' && fs'[q] == fs[q])
            && (forall q :: q in fs' && q !in fs && q != path ==> fs'[q] == Dir)
  {
    var dir := Parent(path);
    var made := if dir.Some? && dir.value !in fs then CreateDirAll(fs, dir.value, mkdirIo) else Ok(fs);
    assert made.Ok? && OnlyAddsDirs(fs, made.value);
    assert Write(made.value, path, contents, writeIo).Ok?;
    AddsDirsThenFile(fs, made.value, path, contents);
  }

  /** New directories and then one file: every other entry is old and unchanged, or a new directory. */
  lemma AddsDirsThenFile(fs: Tree, fs1: Tree, path: string, contents: string)
    requires OnlyAddsDirs(fs, fs1)
    ensures var fs' := fs1[path := File(contents)];
            && fs'[path] == File(contents)
            && (forall q :: q in fs && q != path ==> q in fs' && fs'[q] == fs[q])
            && (forall q :: q in fs' && q !in fs && q != path ==> fs'[q] == Dir)
  {
  }

  /** A missing parent is created, with its missing ancestors, before the write. */
  lemma CreateAndWriteMakesParent(fs: Tree, path: string, contents: string, mkdirIo: IoOutcome, writeIo: IoOutcome)
    requires Parent(path).Some? && Parent(path).value != "" && Parent(path).value !in fs
    requires CreateAndWriteSpec(fs, path, contents, mkdirIo, writeIo).result.Ok?
    ensures IsDir(CreateAndWriteSpec(fs, path, contents, mkdirIo, writeIo).fs, Parent(path).value)
  {
  }

  /** An existing parent (or no parent at all) means no directory is created. */
  lemma CreateAndWriteNoMkdir(fs: Tree, path: string, contents: string, mkdirIo: IoOutcome, writeIo: IoOutcome)
    requires Parent(path).None? || Parent(path).value in fs
    ensures CreateAndWriteSpec(fs, path, contents, mkdirIo, writeIo)
            == Effect(Commit(fs, Write(fs, path, contents, writeIo)), Status(Write(fs, path, contents, writeIo)))
  {
  }

  /** A failed directory creation is returned as it is, and nothing is written. */
  lemma CreateAndWriteMkdirFails(fs: Tree, path: string, contents: string, reason: string, writeIo: IoOutcome)
    requires Parent(path).Some? && Parent(path).value != "" && Parent(path).value !in fs
    ensures CreateAndWriteSpec(fs, path, contents, FailsWith(reason), writeIo) == Effect(fs, Err(reason))
  {
  }
}
