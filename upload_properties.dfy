/**
 * What the upload handler promises, stated over the functions that specify it:
 * where backups go, when a safe write stops early, what it leaves on disk on
 * every path, how the multipart fields fold into a form, and that a successful
 * upload can be downloaded back.
 */
module UploadProperties {
  import opened Wrappers
  import opened Strings
  import opened Paths
  import opened FileSystem
  import opened Http
  import opened Schema
  import opened Upload
  import Download

  // ---------------------------------------------------------------------------
  // Backup naming
  // ---------------------------------------------------------------------------

  /** The backup directory of a target that has a file name. */
  function BackupDirFor(target: string): string
    requires FileName(target).Some?
  {
    BackupDirOf(Parent(target).value, FileName(target).value)
  }

  /** The snapshot a safe write made at `now` saves the old version of `target` in. */
  function SnapshotFor(target: string, now: string): string
    requires FileName(target).Some?
  {
    SnapshotPathOf(BackupDirFor(target), FileName(target).value, now)
  }

  /** The `%Y%m%d_%H%M%S` shape of the local time used in snapshot names. */
  predicate IsTimestamp(now: string) {
    && |now| == 15
    && now[8] == '_'
    && forall i :: 0 <= i < 15 && i != 8 ==> '0' <= now[i] <= '9'
  }

  /** A parent as `Path::parent` returns it is its own trimmed form, except "/". */
  lemma TrimParent(dir: string)
    requires dir == "/" || Trimmed(dir)
    ensures TrimEnd(dir) == (if dir == "/" then "" else dir)
  {
    if dir == "/" {
      assert TrimEnd(dir) == TrimEnd("");
    }
  }

  /**
   * The backup directory sits next to the target: its parent is the target's
   * parent, except that a target with the empty parent (a bare relative name)
   * is backed up under the root "/".
   */
  lemma BackupDirPlacement(target: string)
    requires FileName(target).Some?
    ensures var dir := Parent(target).value;
            Parent(BackupDirFor(target)) == Some(if dir == "" || dir == "/" then "/" else dir)
    ensures BackupDirFor(target) != "" && Trimmed(BackupDirFor(target))
  {
    var dir := Parent(target).value;
    var name := FileName(target).value;
    var stem := FileStem(name);
    assert '/' !in stem by {
      forall j | 0 <= j < |stem| ensures stem[j] != '/' {
        assert stem[j] == name[j];
        assert name[j] in name;
      }
    }
    assert BackupDirFor(target) == dir + "/" + ("." + stem);
    ChildPath(dir, "." + stem);
    TrimParent(dir);
  }

  /** `name.now` has no separator when neither part has one. */
  lemma DottedNoSeparator(name: string, now: string)
    requires name != "" && name != "." && '/' !in name && '/' !in now
    ensures '/' !in name + "." + now
    ensures name + "." + now != "." && name + "." + now != ".."
  {
    assert (name + "." + now)[..|name|] == name;
    var seg := name + "." + now;
    forall j | 0 <= j < |seg| ensures seg[j] != '/' {
      if j < |name| {
        assert seg[j] == name[j] && name[j] in name;
      } else if j > |name| {
        assert seg[j] == now[j - |name| - 1] && now[j - |name| - 1] in now;
      }
    }
  }

  /** The snapshot path is the backup directory joined with `<name>.<now>`. */
  lemma SnapshotJoin(target: string, now: string)
    requires FileName(target).Some?
    ensures SnapshotFor(target, now) == BackupDirFor(target) + "/" + (FileName(target).value + "." + now)
  {
  }

  /**
   * The snapshot is the file `<name>.<now>` directly inside the backup directory,
   * so it is never the target itself.
   */
  lemma SnapshotPlacement(target: string, now: string)
    requires FileName(target).Some?
    requires '/' !in now
    ensures Parent(SnapshotFor(target, now)) == Some(BackupDirFor(target))
    ensures FileName(SnapshotFor(target, now)) == Some(FileName(target).value + "." + now)
    ensures |SnapshotFor(target, now)| > |BackupDirFor(target)|
    ensures SnapshotFor(target, now) != target
  {
    var name := FileName(target).value;
    BackupDirPlacement(target);
    DottedNoSeparator(name, now);
    SnapshotJoin(target, now);
    ChildOf(BackupDirFor(target), name + "." + now);
  }

  /** Timestamps have no separator in them. */
  lemma TimestampHasNoSeparator(now: string)
    requires IsTimestamp(now)
    ensures '/' !in now
  {
    forall j | 0 <= j < |now| ensures now[j] != '/' {
    }
  }

  /** A directory as a caller writes it: non-empty, without a trailing separator or `.` component. */
  predicate PlainDir(dir: string) {
    dir != "" && Trimmed(dir)
  }

  /**
   * The layout of the backup store: `dir/base.ext` is backed up in `dir/.base`,
   * as `dir/.base/base.ext.<now>`; only the last extension is dropped, so
   * `a/b.tar.gz` is backed up in `a/.b.tar`.
   */
  lemma BackupStripsLastExtension(dir: string, base: string, ext: string, now: string)
    requires PlainDir(dir)
    requires base != "" && base != "." && '/' !in base
    requires '/' !in ext && '.' !in ext
    ensures var t := dir + "/" + (base + "." + ext);
            && FileName(t) == Some(base + "." + ext) && Parent(t) == Some(dir)
            && BackupDirFor(t) == dir + "/." + base
            && SnapshotFor(t, now) == dir + "/." + base + "/" + base + "." + ext + "." + now
  {
    var name := base + "." + ext;
    var t := dir + "/" + name;
    DottedNoSeparator(base, ext);
    ChildOf(dir, name);
    DottedStem(base, ext);
    SnapshotJoin(t, now);
  }

  /** The stem of `base.ext` is `base` when `base` is not empty and `ext` has no dot. */
  lemma DottedStem(base: string, ext: string)
    requires base != "" && '.' !in ext
    ensures FileStem(base + "." + ext) == base
  {
    assert base + "." + ext == base + ['.'] + ext;
    LastIndexOfAfter(base, '.', ext);
  }

  /** A leading dot is not an extension: `dir/.rest` is backed up in `dir/..rest`. */
  lemma BackupKeepsDotfileName(dir: string, rest: string)
    requires PlainDir(dir)
    requires rest != "" && '/' !in rest && '.' !in rest
    ensures var t := dir + "/" + ("." + rest);
            FileName(t) == Some("." + rest) && BackupDirFor(t) == dir + "/.." + rest
  {
    var name := "." + rest;
    assert rest[0] in rest && name[1] == rest[0];
    assert '/' !in name && name != "..";
    ChildOf(dir, name);
    assert name == "" + ['.'] + rest;
    LastIndexOfAfter("", '.', rest);
    assert FileStem(name) == name;
  }

  /** A bare relative name has the empty parent, so its backups go under the root "/". */
  lemma BareNameBacksUpAtRoot(name: string)
    requires name != "" && name != "." && name != ".." && '/' !in name
    ensures FileName(name) == Some(name) && Parent(name) == Some("")
    ensures BackupDirFor(name) == "/." + FileStem(name)
  {
    assert name[|name| - 1] in name;
    TrimKeeps(name);
    assert LastIndexOf(name, '/') == -1;
  }

  /**
   * A file name of three dots is its own stem plus a dot, so its backup
   * directory is the target path itself.
   */
  lemma ThreeDotsIsItsOwnBackupDir(dir: string)
    requires PlainDir(dir)
    ensures FileName(dir + "/...") == Some("...") && BackupDirFor(dir + "/...") == dir + "/..."
  {
    assert dir + "/..." == dir + "/" + "...";
    ChildOf(dir, "...");
    ThreeDotsStem();
  }

  /** The stem of "..." is "..": its last dot starts an (empty) extension. */
  lemma ThreeDotsStem()
    ensures FileStem("...") == ".."
  {
    assert "..." == ".." + ['.'] + "";
    LastIndexOfAfter("..", '.', "");
  }

  // ---------------------------------------------------------------------------
  // The safe write
  // ---------------------------------------------------------------------------

  /**
   * The early stop: the safe write answers "file is not changed." exactly when
   * the target exists and reads back as the new content (an unreadable target
   * reads as ""), and then it touches nothing.
   */
  lemma SafeWriteUnchangedIff(fs: Tree, target: string, content: string, now: string, io: WriteIo)
    ensures SafeWriteSpec(fs, target, content, now, io).result == Returned(Ok(MsgUnchanged)) <==>
              target in fs && ReadOrDefault(fs, target, io.read) == content
    ensures SafeWriteSpec(fs, target, content, now, io).result == Returned(Ok(MsgUnchanged)) ==>
              SafeWriteSpec(fs, target, content, now, io).fs == fs
  {
  }

  /** Uploading "" over a directory or a file that cannot be read reports no change. */
  lemma UnreadableTargetLooksEmpty(fs: Tree, target: string, now: string, io: WriteIo)
    requires target in fs && (io.read.FailsWith? || IsDir(fs, target))
    ensures SafeWriteSpec(fs, target, "", now, io) == Effect(fs, Returned(Ok(MsgUnchanged)))
  {
  }

  /** A target with no file name (`/`, `..`, `a/..`) that has to be written makes the handler panic. */
  lemma SafeWriteNoFileNamePanics(fs: Tree, target: string, content: string, now: string, io: WriteIo)
    requires FileName(target).None?
    requires !(target in fs && ReadOrDefault(fs, target, io.read) == content)
    ensures SafeWriteSpec(fs, target, content, now, io) == Effect(fs, Panicked(UnwrapNone))
  {
  }

  /** A backup path taken by a file stops the write before anything changes. */
  lemma SafeWriteConflict(fs: Tree, target: string, content: string, now: string, io: WriteIo)
    requires FileName(target).Some?
    requires !(target in fs && ReadOrDefault(fs, target, io.read) == content)
    requires BackupDirFor(target) in fs && !IsDir(fs, BackupDirFor(target))
    ensures SafeWriteSpec(fs, target, content, now, io) ==
              Effect(fs, Returned(Err("backup dir is conflicted: " + BackupDirFor(target))))
  {
  }

  /** Whenever a safe write reports "safe write ok", the target holds the new content. */
  lemma SafeWriteWritesTarget(fs: Tree, target: string, content: string, now: string, io: WriteIo)
    requires SafeWriteSpec(fs, target, content, now, io).result == Returned(Ok(MsgSafeWritten))
    ensures target in SafeWriteSpec(fs, target, content, now, io).fs
    ensures SafeWriteSpec(fs, target, content, now, io).fs[target] == File(content)
  {
  }

  /** A safe write that did not stop early and did not panic had a file name to work with. */
  lemma SafeWriteHadName(fs: Tree, target: string, content: string, now: string, io: WriteIo)
    requires SafeWriteSpec(fs, target, content, now, io).result.Returned?
    requires SafeWriteSpec(fs, target, content, now, io).result.value != Ok(MsgUnchanged)
    ensures FileName(target).Some?
  {
  }

  /**
   * A safe write that got past the comparison and the backup directory is the
   * snapshot step on the tree the directory guard left.
   */
  lemma SafeWriteReachedSnapshot(fs: Tree, target: string, content: string, now: string, io: WriteIo)
    requires FileName(target).Some?
    requires !(target in fs && ReadOrDefault(fs, target, io.read) == content)
    requires SafeCreateBackupDirSpec(fs, BackupDirFor(target), io.mkdir).Ok?
    ensures SafeWriteSpec(fs, target, content, now, io) ==
              SnapshotAndWrite(SafeCreateBackupDirSpec(fs, BackupDirFor(target), io.mkdir).value,
                               target, SnapshotFor(target, now), content, io)
  {
    var b, snap := BackupDirFor(target), SnapshotFor(target, now);
    assert SafeWriteSpec(fs, target, content, now, io) == BackUpAndWrite(fs, target, b, snap, content, io);
  }

  /** A safe write that succeeded past the comparison made its backup directory. */
  lemma SafeWriteMadeBackupDir(fs: Tree, target: string, content: string, now: string, io: WriteIo)
    requires FileName(target).Some?
    requires !(target in fs && ReadOrDefault(fs, target, io.read) == content)
    requires SafeWriteSpec(fs, target, content, now, io).result.value.Ok?
    ensures SafeCreateBackupDirSpec(fs, BackupDirFor(target), io.mkdir).Ok?
  {
    var b := BackupDirFor(target);
    var snap := SnapshotFor(target, now);
    assert SafeWriteSpec(fs, target, content, now, io) == BackUpAndWrite(fs, target, b, snap, content, io);
  }

  /** The snapshot step for a target that does not exist: no copy, just the write. */
  lemma SnapshotAndWriteNewTarget(fs: Tree, fs1: Tree, target: string, snapshot: string, content: string, io: WriteIo)
    requires target !in fs && OnlyAddsDirs(fs, fs1)
    requires SnapshotAndWrite(fs1, target, snapshot, content, io).result.value.Ok?
    ensures var e := SnapshotAndWrite(fs1, target, snapshot, content, io);
            e.fs == fs1[target := File(content)] && OnlyAddsDirs(fs, e.fs - {target})
  {
    var e := SnapshotAndWrite(fs1, target, snapshot, content, io);
    assert e.fs == fs1[target := File(content)];
  }

  /**
   * The snapshot step over an existing target: a failed copy stops with the tree
   * as it was; a copy that goes through saves the target's entry as the snapshot
   * before the final write.
   */
  lemma SnapshotAndWriteOverTarget(fs: Tree, target: string, snapshot: string, content: string, io: WriteIo)
    requires target in fs && snapshot != target
    ensures var e := SnapshotAndWrite(fs, target, snapshot, content, io);
            && (io.copy.FailsWith? ==> e == Effect(fs, Returned(Err("copy backup err: " + io.copy.reason))))
            && (io.copy.Proceeds? && IsFile(fs, target) && PlacementError(fs, snapshot).None? ==>
                  e == FinishSafeWrite(fs[snapshot := fs[target]], target, content, io.write))
            && (e.result.value.Ok? ==>
                  IsFile(fs, target) && e.fs == fs[snapshot := fs[target]][target := File(content)])
  {
  }

  /**
   * Idempotence: once a safe write of `content` has succeeded, a second one of
   * the same content stops early, makes no snapshot and changes nothing.
   */
  lemma SafeWriteIdempotent(fs: Tree, target: string, content: string, now: string, io: WriteIo,
                            later: string, io2: WriteIo)
    requires io.read.Proceeds? && io2.read.Proceeds?
    requires SafeWriteSpec(fs, target, content, now, io).result.Returned?
    requires SafeWriteSpec(fs, target, content, now, io).result.value.Ok?
    ensures var fs1 := SafeWriteSpec(fs, target, content, now, io).fs;
            SafeWriteSpec(fs1, target, content, later, io2) == Effect(fs1, Returned(Ok(MsgUnchanged)))
  {
    var e := SafeWriteSpec(fs, target, content, now, io);
    if e.result != Returned(Ok(MsgUnchanged)) {
      SafeWriteWritesTarget(fs, target, content, now, io);
    }
  }

  /** A successful snapshot step over an existing file, on top of a backup directory and other new directories. */
  lemma SnapshotOutcome(fs: Tree, fs1: Tree, backupDir: string, target: string, snapshot: string, content: string, io: WriteIo)
    requires OnlyAddsDirs(fs, fs1) && IsDir(fs1, backupDir) && IsFile(fs, target)
    requires snapshot != target && |snapshot| > |backupDir|
    requires SnapshotAndWrite(fs1, target, snapshot, content, io).result.value.Ok?
    ensures var fs' := SnapshotAndWrite(fs1, target, snapshot, content, io).fs;
            && snapshot in fs' && fs'[snapshot] == fs[target]
            && fs'[target] == File(content)
            && IsDir(fs', backupDir)
            && (forall q :: q in fs' && q != target && q != snapshot ==>
                  (q in fs && fs'[q] == fs[q]) || (q !in fs && fs'[q] == Dir))
            && (forall q :: q in fs ==> q in fs')
  {
    SnapshotAndWriteOverTarget(fs1, target, snapshot, content, io);
    SavedTreeShape(fs, fs1, target, snapshot, content);
  }

  /** The tree after a snapshot of `target` and its overwrite, on top of new directories. */
  lemma SavedTreeShape(fs: Tree, fs1: Tree, target: string, snapshot: string, content: string)
    requires OnlyAddsDirs(fs, fs1) && target in fs && snapshot != target
    ensures var fs' := fs1[snapshot := fs1[target]][target := File(content)];
            && fs'[snapshot] == fs[target]
            && (forall q :: q in fs' && q != target && q != snapshot ==>
                  (q in fs && fs'[q] == fs[q]) || (q !in fs && fs'[q] == Dir))
            && (forall q :: q in fs ==> q in fs')
  {
  }

  /**
   * On success, a target that held other content has its old content saved in
   * the snapshot `<backup dir>/<name>.<now>`; apart from the target and the
   * snapshot, the only entries that change are new directories.
   */
  lemma SafeWriteBackupOnChange(fs: Tree, target: string, old_: string, content: string, now: string, io: WriteIo)
    requires IsTimestamp(now)
    requires target in fs && fs[target] == File(old_) && old_ != content
    requires SafeWriteSpec(fs, target, content, now, io).result == Returned(Ok(MsgSafeWritten))
    ensures FileName(target).Some?
    ensures var fs' := SafeWriteSpec(fs, target, content, now, io).fs;
            var snap := SnapshotFor(target, now);
            && snap in fs' && fs'[snap] == File(old_)
            && fs'[target] == File(content)
            && IsDir(fs', BackupDirFor(target))
            && (forall q :: q in fs' && q != target && q != snap ==>
                  (q in fs && fs'[q] == fs[q]) || (q !in fs && fs'[q] == Dir))
            && (forall q :: q in fs ==> q in fs')
  {
    SafeWriteHadName(fs, target, content, now, io);
    TimestampHasNoSeparator(now);
    SnapshotPlacement(target, now);
    SafeWriteMadeBackupDir(fs, target, content, now, io);
    SafeWriteReachedSnapshot(fs, target, content, now, io);
    var fs1 := SafeCreateBackupDirSpec(fs, BackupDirFor(target), io.mkdir).value;
    SnapshotOutcome(fs, fs1, BackupDirFor(target), target, SnapshotFor(target, now), content, io);
  }

  /**
   * On success, a target that did not exist gets the content and no snapshot is
   * made: the backup directory exists all the same, everything else the write
   * adds is a directory, and nothing that existed changes.
   */
  lemma SafeWriteNoSnapshotOnCreate(fs: Tree, target: string, content: string, now: string, io: WriteIo)
    requires target !in fs
    requires SafeWriteSpec(fs, target, content, now, io).result.Returned?
    requires SafeWriteSpec(fs, target, content, now, io).result.value.Ok?
    ensures var fs' := SafeWriteSpec(fs, target, content, now, io).fs;
            && target in fs' && fs'[target] == File(content)
            && IsDir(fs', BackupDirFor(target))
            && OnlyAddsDirs(fs, fs' - {target})
  {
    SafeWriteHadName(fs, target, content, now, io);
    SafeWriteMadeBackupDir(fs, target, content, now, io);
    SafeWriteReachedSnapshot(fs, target, content, now, io);
    var b := BackupDirFor(target);
    var fs1 := SafeCreateBackupDirSpec(fs, b, io.mkdir).value;
    SnapshotAndWriteKeepsDir(fs1, target, b, SnapshotFor(target, now), content, io);
    SnapshotAndWriteNewTarget(fs, fs1, target, SnapshotFor(target, now), content, io);
  }

  /**
   * A directory survives a successful snapshot step. In particular a target that
   * is a directory (a name of three dots is its own backup directory) cannot be
   * written over.
   */
  lemma SnapshotAndWriteKeepsDir(fs1: Tree, target: string, dir: string, snap: string, content: string, io: WriteIo)
    requires IsDir(fs1, dir)
    requires SnapshotAndWrite(fs1, target, snap, content, io).result.value.Ok?
    ensures target != dir && IsDir(SnapshotAndWrite(fs1, target, snap, content, io).fs, dir)
  {
  }

  /** The backup directory guard has nothing left to do once it has succeeded. */
  lemma BackupDirGuardIdempotent(fs: Tree, dirPath: string, io: IoOutcome, io2: IoOutcome)
    requires dirPath != ""
    requires SafeCreateBackupDirSpec(fs, dirPath, io).Ok?
    ensures var fs1 := SafeCreateBackupDirSpec(fs, dirPath, io).value;
            SafeCreateBackupDirSpec(fs1, dirPath, io2) == Ok(fs1)
  {
  }

  /** The conditions under which the backup step of a safe write over `target` can go through. */
  predicate CanBackUp(fs: Tree, target: string, now: string) {
    && WellFormed(fs)
    && IsFile(fs, target)
    && FileName(target).Some?
    && IsTimestamp(now)
    && !(BackupDirFor(target) in fs && !IsDir(fs, BackupDirFor(target)))
    && !IsDir(fs, SnapshotFor(target, now))
    && !IsFile(fs, "/")
  }

  /** The root "/" has no parent. */
  lemma RootHasNoParent()
    ensures Parent("/") == None
  {
    assert TrimEnd("/") == TrimEnd("");
  }

  /**
   * In a well-formed tree, the backup directory of an existing file can always
   * be made when the system lets it, unless a non-directory is in its place.
   */
  lemma BackupDirReady(fs: Tree, target: string, io: IoOutcome)
    requires WellFormed(fs) && target in fs && FileName(target).Some?
    requires !(BackupDirFor(target) in fs && !IsDir(fs, BackupDirFor(target)))
    requires !IsFile(fs, "/")
    requires io.Proceeds?
    ensures SafeCreateBackupDirSpec(fs, BackupDirFor(target), io).Ok?
  {
    var b := BackupDirFor(target);
    var dir := Parent(target).value;
    BackupDirPlacement(target);
    if !IsDir(fs, b) {
      assert DirReady(fs, dir);
      var up := if dir == "" || dir == "/" then "/" else dir;
      if !DirReady(fs, up) {
        RootHasNoParent();
        assert MkdirAll(fs, "/") == Ok(fs["/" := Dir]);
      }
    }
  }

  /**
   * Progress of a safe write over an existing file with other content: the
   * backup directory is made, then a failed copy stops with nothing but new
   * directories on disk; a failed final write leaves the snapshot behind and the
   * target as it was; otherwise the snapshot holds the old content and the
   * target the new.
   */
  lemma SafeWriteOverwrite(fs: Tree, target: string, content: string, now: string, io: WriteIo)
    requires CanBackUp(fs, target, now)
    requires fs[target].content != content
    requires io.read.Proceeds? && io.mkdir.Proceeds?
    ensures SafeCreateBackupDirSpec(fs, BackupDirFor(target), io.mkdir).Ok?
    ensures var fs1 := SafeCreateBackupDirSpec(fs, BackupDirFor(target), io.mkdir).value;
            var saved := fs1[SnapshotFor(target, now) := fs[target]];
            var e := SafeWriteSpec(fs, target, content, now, io);
            && OnlyAddsDirs(fs, fs1)
            && IsDir(fs1, BackupDirFor(target))
            && (io.copy.FailsWith? ==>
                  e == Effect(fs1, Returned(Err("copy backup err: " + io.copy.reason))))
            && (io.copy.Proceeds? && io.write.FailsWith? ==>
                  e == Effect(saved, Returned(Err("write file err: " + io.write.reason))))
            && (io.copy.Proceeds? && io.write.Proceeds? ==>
                  e == Effect(saved[target := File(content)], Returned(Ok(MsgSafeWritten))))
  {
    BackupDirReady(fs, target, io.mkdir);
    TimestampHasNoSeparator(now);
    SnapshotPlacement(target, now);
    var b := BackupDirFor(target);
    var snap := SnapshotFor(target, now);
    var fs1 := SafeCreateBackupDirSpec(fs, b, io.mkdir).value;
    assert ReadOrDefault(fs, target, io.read) == fs[target].content;
    SnapshotSlotFree(fs, fs1, b, snap);
    TargetWritable(fs, fs1, target, snap);
    SafeWriteReachedSnapshot(fs, target, content, now, io);
    SnapshotAndWriteOverTarget(fs1, target, snap, content, io);
  }

  /** A snapshot path longer than the new directories, and not a directory before, can take a file. */
  lemma SnapshotSlotFree(fs: Tree, fs1: Tree, backupDir: string, snapshot: string)
    requires OnlyAddsDirs(fs, fs1)
    requires forall q :: q in fs1 && q !in fs ==> |q| <= |backupDir|
    requires |snapshot| > |backupDir| && !IsDir(fs, snapshot)
    requires IsDir(fs1, backupDir) && Parent(snapshot) == Some(backupDir)
    ensures PlacementError(fs1, snapshot).None?
  {
    assert !IsDir(fs1, snapshot);
  }

  /** After new directories and a snapshot elsewhere, an existing file of a well-formed tree can still be written. */
  lemma TargetWritable(fs: Tree, fs1: Tree, target: string, snapshot: string)
    requires WellFormed(fs) && IsFile(fs, target) && Parent(target).Some?
    requires OnlyAddsDirs(fs, fs1)
    requires snapshot != target && !IsDir(fs, snapshot)
    ensures PlacementError(fs1[snapshot := fs[target]], target).None?
  {
    var dir := Parent(target).value;
    assert DirReady(fs, dir);
  }

  // ---------------------------------------------------------------------------
  // The force write
  // ---------------------------------------------------------------------------

  /** Over an existing file in a well-formed tree, a force write replaces the content and nothing else. */
  lemma ForceWriteOverwritesFile(fs: Tree, target: string, content: string, io: IoOutcome)
    requires WellFormed(fs) && IsFile(fs, target) && Parent(target).Some? && io.Proceeds?
    ensures ForceWriteSpec(fs, target, content, io) == Effect(fs[target := File(content)], Ok(MsgForceWritten))
  {
    assert DirReady(fs, Parent(target).value);
  }

  /** Repeating a successful force write with the same content changes nothing more. */
  lemma ForceWriteIdempotent(fs: Tree, target: string, content: string, io: IoOutcome, io2: IoOutcome)
    requires ForceWriteSpec(fs, target, content, io).result.Ok? && io2.Proceeds?
    ensures var fs1 := ForceWriteSpec(fs, target, content, io).fs;
            ForceWriteSpec(fs1, target, content, io2) == Effect(fs1, Ok(MsgForceWritten))
  {
    var fs1 := ForceWriteSpec(fs, target, content, io).fs;
    assert fs1[target := File(content)] == fs1;
    assert Parent(target).Some?;
    var dir := Parent(target).value;
    assert DirReady(fs, dir);
    if dir != "" {
      assert dir != target;
    }
  }

  // ---------------------------------------------------------------------------
  // Validation
  // ---------------------------------------------------------------------------

  /** An empty target is refused first. */
  lemma ValidateEmptyTarget()
    ensures ValidateUploadArgs(UploadForm(Safe, "", "")) == Err(ErrEmptyTarget)
  {
  }

  /** The depth rule counts bytes, not segments: a two-letter bare name passes. */
  lemma ValidateBareNamePasses()
    ensures ValidateUploadArgs(UploadForm(Safe, "", "ab")) == Ok(())
  {
    RemoveNone("ab", '/');
  }

  /** A single two-byte character is deep enough. */
  lemma ValidateTwoByteCharacterPasses()
    ensures ValidateUploadArgs(UploadForm(Safe, "", "\U{E9}")) == Ok(())
  {
    RemoveNone("\U{E9}", '/');
    assert Utf8Len("\U{E9}") == 2;
  }

  /** One ASCII letter between separators is refused as too shallow. */
  lemma ValidateOneLetterRefused()
    ensures ValidateUploadArgs(UploadForm(Safe, "", "/a/")) == Err(ErrShallowTarget)
  {
    assert "/a/" == "/" + "a/";
    RemoveAppend("/", "a/", '/');
    assert "a/" == "a" + "/";
    RemoveAppend("a", "/", '/');
    RemoveNone("a", '/');
  }

  /** Any target with at least two characters besides the separators passes. */
  lemma ValidateTwoCharactersPass(form: UploadForm)
    requires |Remove(form.targetFilePath, '/')| >= 2
    ensures ValidateUploadArgs(form) == Ok(())
  {
  }

  /** A form that fails validation is answered with 400 and leaves the disk alone. */
  lemma ValidationFailureWritesNothing(fs: Tree, form: UploadForm, now: string, io: WriteIo)
    requires ValidateUploadArgs(form).Err?
    ensures WriteFormSpec(fs, form, now, io) ==
              Effect(fs, Returned(Ok(Plain(BAD_REQUEST, "validate form err: " + ValidateUploadArgs(form).error))))
  {
  }

  // ---------------------------------------------------------------------------
  // Reading the fields
  // ---------------------------------------------------------------------------

  /** A field's chunks gather into bytes exactly when none of them is an error. */
  lemma {:induction false} GatherOkIff(chunks: seq<Chunk>)
    ensures Gather(chunks).Ok? <==> forall k :: 0 <= k < |chunks| ==> chunks[k].Data?
  {
    if chunks != [] {
      GatherOkIff(chunks[1..]);
      assert forall k :: 1 <= k < |chunks| ==> chunks[k] == chunks[1..][k - 1];
    }
  }

  /** Every part of the body is a field whose content can be read and decoded. */
  predicate AllReadable(parts: seq<Part>, decode: Decoder) {
    forall i :: 0 <= i < |parts| ==> parts[i].Field? && ReadFieldSpec(parts[i].chunks, decode).Ok?
  }

  /** The (name, text) pairs a readable body carries, in order. */
  function Pairs(parts: seq<Part>, decode: Decoder): seq<(string, string)>
    requires AllReadable(parts, decode)
  {
    seq(|parts|, i requires 0 <= i < |parts| && AllReadable(parts, decode) =>
      (KeyOf(parts[i].name), ReadFieldSpec(parts[i].chunks, decode).value))
  }

  /** The form after dispatching the pairs in order: an independent reading of the field loop. */
  function Fold(form: UploadForm, pairs: seq<(string, string)>): UploadForm
    decreases |pairs|
  {
    if pairs == [] then form else Fold(Dispatch(form, pairs[0].0, pairs[0].1), pairs[1..])
  }

  /** When every part can be read, ingestion is the fold of its pairs. */
  lemma {:induction false} IngestIsFold(form: UploadForm, parts: seq<Part>, decode: Decoder)
    requires AllReadable(parts, decode)
    ensures Ingest(form, parts, decode) == Parsed(Fold(form, Pairs(parts, decode)))
    decreases |parts|
  {
    if parts != [] {
      var pairs := Pairs(parts, decode);
      assert AllReadable(parts[1..], decode) by {
        forall i | 0 <= i < |parts[1..]| ensures parts[1..][i] == parts[i + 1] { }
      }
      assert pairs[1..] == Pairs(parts[1..], decode);
      IngestIsFold(Dispatch(form, pairs[0].0, pairs[0].1), parts[1..], decode);
    }
  }

  /**
   * The first field that cannot be read or decoded ends ingestion with a 500
   * "read content disposition err", whatever follows it.
   */
  lemma {:induction false} IngestStopsAtUnreadable(form: UploadForm, parts: seq<Part>, decode: Decoder, j: nat)
    requires j < |parts|
    requires AllReadable(parts[..j], decode)
    requires parts[j].Field? && ReadFieldSpec(parts[j].chunks, decode).Err?
    ensures Ingest(form, parts, decode) == Rejected(Plain(INTERNAL_SERVER_ERROR, MsgUnreadableField))
    decreases j
  {
    if j > 0 {
      assert parts[..j][0] == parts[0];
      assert parts[1..][..j - 1] == parts[..j][1..];
      var value := ReadFieldSpec(parts[0].chunks, decode).value;
      IngestStopsAtUnreadable(Dispatch(form, KeyOf(parts[0].name), value), parts[1..], decode, j - 1);
    }
  }

  /** A stream error before any unreadable field ends ingestion with that error. */
  lemma {:induction false} IngestStopsAtStreamError(form: UploadForm, parts: seq<Part>, decode: Decoder, j: nat)
    requires j < |parts|
    requires AllReadable(parts[..j], decode)
    requires parts[j].StreamError?
    ensures Ingest(form, parts, decode) == Broken(parts[j].reason)
    decreases j
  {
    if j > 0 {
      assert parts[..j][0] == parts[0];
      assert parts[1..][..j - 1] == parts[..j][1..];
      var value := ReadFieldSpec(parts[0].chunks, decode).value;
      IngestStopsAtStreamError(Dispatch(form, KeyOf(parts[0].name), value), parts[1..], decode, j - 1);
    }
  }

  /** A field no pair names keeps its value through the fold. */
  lemma {:induction false} FoldKeeps(form: UploadForm, pairs: seq<(string, string)>, key: string)
    requires forall i :: 0 <= i < |pairs| ==> pairs[i].0 != key
    ensures key == "action" ==> Fold(form, pairs).action == form.action
    ensures key == "file" ==> Fold(form, pairs).content == form.content
    ensures key == "target_file_path" ==> Fold(form, pairs).targetFilePath == form.targetFilePath
    decreases |pairs|
  {
    if pairs != [] {
      FoldKeeps(Dispatch(form, pairs[0].0, pairs[0].1), pairs[1..], key);
    }
  }

  /** Fields with names the handler does not know are ignored. */
  lemma {:induction false} FoldIgnoresUnknownNames(form: UploadForm, pairs: seq<(string, string)>)
    requires forall i :: 0 <= i < |pairs| ==> pairs[i].0 != "action" && pairs[i].0 != "file" && pairs[i].0 != "target_file_path"
    ensures Fold(form, pairs) == form
    decreases |pairs|
  {
    if pairs != [] {
      assert Dispatch(form, pairs[0].0, pairs[0].1) == form;
      FoldIgnoresUnknownNames(form, pairs[1..]);
    }
  }

  /** When a field name repeats, the last occurrence wins. */
  lemma {:induction false} FoldLastWins(form: UploadForm, pairs: seq<(string, string)>, j: nat)
    requires j < |pairs|
    requires forall i :: j < i < |pairs| ==> pairs[i].0 != pairs[j].0
    ensures pairs[j].0 == "action" ==> Fold(form, pairs).action == FromStr(pairs[j].1)
    ensures pairs[j].0 == "file" ==> Fold(form, pairs).content == pairs[j].1
    ensures pairs[j].0 == "target_file_path" ==> Fold(form, pairs).targetFilePath == pairs[j].1
    decreases j
  {
    var next := Dispatch(form, pairs[0].0, pairs[0].1);
    if j == 0 {
      FoldKeeps(next, pairs[1..], pairs[0].0);
    } else {
      FoldLastWins(next, pairs[1..], j - 1);
    }
  }

  /** A body with no "action" field asks for a safe write. */
  lemma DefaultIsSafe(parts: seq<Part>, decode: Decoder)
    requires AllReadable(parts, decode)
    requires forall i :: 0 <= i < |parts| ==> KeyOf(parts[i].name) != "action"
    ensures Ingest(DefaultUploadForm(), parts, decode).Parsed?
    ensures Ingest(DefaultUploadForm(), parts, decode).form.action == Safe
  {
    IngestIsFold(DefaultUploadForm(), parts, decode);
    FoldKeeps(DefaultUploadForm(), Pairs(parts, decode), "action");
  }

  // ---------------------------------------------------------------------------
  // The handler's answer
  // ---------------------------------------------------------------------------

  /**
   * The handler answers 200 "Upload Successfully!" exactly when the form is valid
   * and the policy succeeded, and every other answer it gives is a 400.
   */
  lemma WriteFormResponses(fs: Tree, form: UploadForm, now: string, io: WriteIo)
    ensures var r := WriteFormSpec(fs, form, now, io).result;
            r == Returned(Ok(Plain(OK, MsgUploaded))) <==>
              ValidateUploadArgs(form).Ok? && ApplyPolicy(fs, form, now, io).result.Returned?
              && ApplyPolicy(fs, form, now, io).result.value.Ok?
    ensures var r := WriteFormSpec(fs, form, now, io).result;
            r.Returned? ==> r.value.Ok? && (r.value.value.status == OK || r.value.value.status == BAD_REQUEST)
    ensures var r := WriteFormSpec(fs, form, now, io).result;
            r.Returned? && r.value.value.status == OK ==> r.value.value == Plain(OK, MsgUploaded)
    ensures WriteFormSpec(fs, form, now, io).result.Panicked? <==>
              ValidateUploadArgs(form).Ok? && ApplyPolicy(fs, form, now, io).result.Panicked?
  {
  }

  /** A body with a field that cannot be read is answered with 500 and writes nothing. */
  lemma UploadRejectsUnreadableField(fs: Tree, parts: seq<Part>, decode: Decoder, now: string, io: WriteIo, j: nat)
    requires j < |parts|
    requires AllReadable(parts[..j], decode)
    requires parts[j].Field? && ReadFieldSpec(parts[j].chunks, decode).Err?
    ensures UploadSpec(fs, parts, decode, now, io) ==
              Effect(fs, Returned(Ok(Plain(INTERNAL_SERVER_ERROR, MsgUnreadableField))))
  {
    IngestStopsAtUnreadable(DefaultUploadForm(), parts, decode, j);
  }

  /** A readable body is folded into a form, which is then validated and written. */
  lemma UploadIsFoldThenWrite(fs: Tree, parts: seq<Part>, decode: Decoder, now: string, io: WriteIo)
    requires AllReadable(parts, decode)
    ensures UploadSpec(fs, parts, decode, now, io) ==
              WriteFormSpec(fs, Fold(DefaultUploadForm(), Pairs(parts, decode)), now, io)
  {
    IngestIsFold(DefaultUploadForm(), parts, decode);
  }

  /**
   * Round trip: after an upload answered with 200, downloading the target gives
   * back the uploaded content (provided the target was not a directory and could
   * be read when the safe policy compared it).
   */
  lemma UploadThenDownload(fs: Tree, form: UploadForm, now: string, io: WriteIo)
    requires WriteFormSpec(fs, form, now, io).result == Returned(Ok(Plain(OK, MsgUploaded)))
    requires io.read.Proceeds? && !IsDir(fs, form.targetFilePath)
    ensures Download.DownloadFile(WriteFormSpec(fs, form, now, io).fs, form.targetFilePath, Proceeds) ==
              Ok(Response(OK, Some(Download.ContentType), [form.content]))
  {
    WriteFormResponses(fs, form, now, io);
    var t := form.targetFilePath;
    var fs' := WriteFormSpec(fs, form, now, io).fs;
    if form.action == Safe {
      var e := SafeWriteSpec(fs, t, form.content, now, io);
      assert fs' == e.fs;
      if e.result == Returned(Ok(MsgUnchanged)) {
        SafeWriteUnchangedIff(fs, t, form.content, now, io);
      } else {
        SafeWriteWritesTarget(fs, t, form.content, now, io);
      }
    }
    assert IsFile(fs', t) && fs'[t].content == form.content;
  }
}
