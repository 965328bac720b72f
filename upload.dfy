/**
 * The server's write-policy engine (src/lib/apis/upload.rs): it decodes the
 * multipart upload field by field, validates the target path, and then applies
 * the safe policy (compare, back up the old version, overwrite) or the force
 * policy (overwrite) to the disk.
 */
module Upload {
  import opened Wrappers
  import opened Strings
  import opened Paths
  import opened FileSystem
  import opened Http
  import opened Schema

  type byte = x: int | 0 <= x < 256

  /** One piece of a field's body as the multipart stream hands it over. */
  datatype Chunk = Data(bytes: seq<byte>) | ChunkError(reason: string)

  /** One item of the multipart stream: a field with its name and body, or a stream error. */
  datatype Part = Field(name: Option<string>, chunks: seq<Chunk>) | StreamError(reason: string)

  /** UTF-8 decoding of a field's bytes, `String::from_utf8`: `None` when they are not valid UTF-8. */
  type Decoder = seq<byte> -> Option<string>

  /** The system's answers to the I/O calls of one write, in the order they may be made. */
  datatype WriteIo = WriteIo(read: IoOutcome, mkdir: IoOutcome, copy: IoOutcome, write: IoOutcome)

  const MsgUnchanged := "file is not changed."
  const MsgSafeWritten := "safe write ok"
  const MsgForceWritten := "force write ok"
  const MsgUploaded := "Upload Successfully!"
  const MsgUnreadableField := "read content disposition err"
  const ErrEmptyTarget := "target_file_path is empty"
  const ErrShallowTarget := "require level of dir is more than 2"
  const ErrInvalidUtf8 := "invalid utf-8 sequence"

  // ---------------------------------------------------------------------------
  // Path validator and content comparison (pure)
  // ---------------------------------------------------------------------------

  /**
   * `validate_upload_args`: the target must be non-empty, and what is left of it
   * once every `/` is deleted must be at least two bytes long in UTF-8.
   */
  function ValidateUploadArgs(form: UploadForm): (r: Result<()>)
    ensures r == Err(ErrEmptyTarget) <==> form.targetFilePath == ""
    ensures r == Err(ErrShallowTarget) <==>
              form.targetFilePath != "" && Utf8Len(Remove(form.targetFilePath, '/')) < 2
    ensures r.Ok? <==> form.targetFilePath != "" && Utf8Len(Remove(form.targetFilePath, '/')) >= 2
  {
    ConcatSplit(form.targetFilePath, '/');
    if form.targetFilePath == "" then Err(ErrEmptyTarget)
    else if Utf8Len(Concat(Split(form.targetFilePath, '/'))) < 2 then Err(ErrShallowTarget)
    else Ok(())
  }

  /**
   * `if_content_md5_equal`: both digests are computed only to be logged; the
   * verdict is plain equality of the two texts.
   */
  function IfContentMd5Equal(newContent: string, oldContent: string): bool {
    newContent == oldContent
  }

  // ---------------------------------------------------------------------------
  // Backup store
  // ---------------------------------------------------------------------------

  /** `<parent>/.<file stem>`: the hidden directory holding the old versions of a file. */
  function BackupDirOf(dir: string, name: string): string {
    dir + "/" + ("." + FileStem(name))
  }

  /** `<backup dir>/<file name>.<timestamp>`: one saved version. */
  function SnapshotPathOf(backupDir: string, name: string, now: string): string {
    backupDir + "/" + (name + "." + now)
  }

  /**
   * `safe_create_backup_dir`: refuse a path taken by something other than a
   * directory, create the directory with its ancestors when it is missing, and
   * leave an existing directory alone.
   */
  function SafeCreateBackupDirSpec(fs: Tree, dirPath: string, io: IoOutcome): (r: Result<Tree>)
    ensures dirPath in fs && !IsDir(fs, dirPath) ==> r == Err("backup dir is conflicted: " + dirPath)
    ensures IsDir(fs, dirPath) ==> r == Ok(fs)
    ensures r.Ok? ==> OnlyAddsDirs(fs, r.value) && (dirPath != "" ==> IsDir(r.value, dirPath))
    ensures r.Ok? ==> forall q :: q in r.value && q !in fs ==> |q| <= |dirPath|
  {
    if dirPath in fs && !IsDir(fs, dirPath) then Err("backup dir is conflicted: " + dirPath)
    else if dirPath !in fs then
      var made := CreateDirAll(fs, dirPath, io);
      if made.Err? then Err("create backup dir err: " + made.error) else made
    else Ok(fs)
  }

  method SafeCreateBackupDir(disk: Disk, dirPath: string, io: IoOutcome) returns (r: Result<()>)
    modifies disk
    ensures disk.entries == Commit(old(disk.entries), SafeCreateBackupDirSpec(old(disk.entries), dirPath, io))
    ensures r == Status(SafeCreateBackupDirSpec(old(disk.entries), dirPath, io))
  {
    if dirPath in disk.entries && !IsDir(disk.entries, dirPath) {
      return Err("backup dir is conflicted: " + dirPath);
    }
    if dirPath !in disk.entries {
      var made := disk.CreateDirAllAt(dirPath, io);
      if made.Err? {
        return Err("create backup dir err: " + made.error);
      }
    }
    r := Ok(());
  }

  // ---------------------------------------------------------------------------
  // Write policies
  // ---------------------------------------------------------------------------

  /** `read_to_string(..).unwrap_or_default()`: an unreadable file reads as "". */
  function ReadOrDefault(fs: Tree, p: string, io: IoOutcome): string {
    var r := Read(fs, p, io);
    if r.Ok? then r.value else ""
  }

  /** The last step of a safe write: truncate the target and write the new content. */
  function FinishSafeWrite(fs: Tree, target: string, content: string, io: IoOutcome): (e: Effect<Outcome<Result<string>>>)
    ensures e.result.Returned?
    ensures e.result.value.Ok? ==> e.result.value.value == MsgSafeWritten && e.fs == fs[target := File(content)]
    ensures e.result.value.Err? ==> e.fs == fs
  {
    var w := Write(fs, target, content, io);
    if w.Err? then Effect(fs, Returned(Err("write file err: " + w.error)))
    else Effect(w.value, Returned(Ok(MsgSafeWritten)))
  }

  /** After the backup directory exists: save the current target (if any) as `snapshot`, then write. */
  function SnapshotAndWrite(fs: Tree, target: string, snapshot: string, content: string, io: WriteIo)
    : (e: Effect<Outcome<Result<string>>>)
    ensures e.result.Returned?
    ensures e.result.value.Ok? ==> e.result.value.value == MsgSafeWritten && target in e.fs && e.fs[target] == File(content)
    ensures target !in fs ==> e == FinishSafeWrite(fs, target, content, io.write)
  {
    if target in fs then
      var copied := Copy(fs, target, snapshot, io.copy);
      if copied.Err? then Effect(fs, Returned(Err("copy backup err: " + copied.error)))
      else FinishSafeWrite(copied.value, target, content, io.write)
    else FinishSafeWrite(fs, target, content, io.write)
  }

  /** Everything a safe write does once the content is known to differ and the file has a name. */
  function BackUpAndWrite(fs: Tree, target: string, backupDir: string, snapshot: string, content: string, io: WriteIo)
    : (e: Effect<Outcome<Result<string>>>)
    ensures e.result.Returned?
    ensures e.result.value.Ok? ==> e.result.value.value == MsgSafeWritten && target in e.fs && e.fs[target] == File(content)
  {
    var made := SafeCreateBackupDirSpec(fs, backupDir, io.mkdir);
    if made.Err? then Effect(fs, Returned(Err(made.error)))
    else SnapshotAndWrite(made.value, target, snapshot, content, io)
  }

  /**
   * `safe_write`: stop when the target already holds the content; otherwise make
   * sure the backup directory exists, copy the current target (if any) into a
   * timestamped snapshot there, and write the new content.
   */
  function SafeWriteSpec(fs: Tree, target: string, content: string, now: string, io: WriteIo): Effect<Outcome<Result<string>>> {
    if target in fs && IfContentMd5Equal(content, ReadOrDefault(fs, target, io.read)) then
      Effect(fs, Returned(Ok(MsgUnchanged)))
    else match FileName(target)
      case None => Effect(fs, Panicked(UnwrapNone))
      case Some(name) =>
        var backupDir := BackupDirOf(Parent(target).value, name);
        BackUpAndWrite(fs, target, backupDir, SnapshotPathOf(backupDir, name, now), content, io)
  }

  method SafeWrite(disk: Disk, form: UploadForm, now: string, io: WriteIo) returns (r: Outcome<Result<string>>)
    modifies disk
    ensures Effect(disk.entries, r) == SafeWriteSpec(old(disk.entries), form.targetFilePath, form.content, now, io)
  {
    var target := form.targetFilePath;
    if target in disk.entries {
      var oldContent := ReadOrDefault(disk.entries, target, io.read);
      if IfContentMd5Equal(form.content, oldContent) {
        return Returned(Ok(MsgUnchanged));
      }
    }
    var fileName := FileName(target);
    if fileName.None? {
      return Panicked(UnwrapNone);
    }
    var name := fileName.value;
    var backupDir := BackupDirOf(Parent(target).value, name);
    r := BackUpAndWriteOn(disk, target, backupDir, SnapshotPathOf(backupDir, name, now), form.content, io);
  }

  /** The backup and write steps of `safe_write`, on the disk. */
  method BackUpAndWriteOn(disk: Disk, target: string, backupDir: string, snapshot: string, content: string, io: WriteIo)
    returns (r: Outcome<Result<string>>)
    modifies disk
    ensures Effect(disk.entries, r) == BackUpAndWrite(old(disk.entries), target, backupDir, snapshot, content, io)
  {
    var made := SafeCreateBackupDir(disk, backupDir, io.mkdir);
    if made.Err? {
      return Returned(Err(made.error));
    }
    r := SnapshotAndWriteOn(disk, target, snapshot, content, io);
  }

  /** The snapshot and write steps of `safe_write`, once the backup directory exists. */
  method SnapshotAndWriteOn(disk: Disk, target: string, snapshot: string, content: string, io: WriteIo)
    returns (r: Outcome<Result<string>>)
    modifies disk
    ensures Effect(disk.entries, r) == SnapshotAndWrite(old(disk.entries), target, snapshot, content, io)
  {
    if target in disk.entries {
      var copied := disk.CopyFile(target, snapshot, io.copy);
      if copied.Err? {
        return Returned(Err("copy backup err: " + copied.error));
      }
    }
    var written := disk.WriteFile(target, content, io.write);
    if written.Err? {
      return Returned(Err("write file err: " + written.error));
    }
    r := Returned(Ok(MsgSafeWritten));
  }

  /** `force_write`: truncate and write, with no comparison and no backup. */
  function ForceWriteSpec(fs: Tree, target: string, content: string, io: IoOutcome): (e: Effect<Result<string>>)
    ensures e.result.Ok? ==> e.fs == fs[target := File(content)] && e.result.value == MsgForceWritten
    ensures e.result.Err? ==> e.fs == fs
  {
    var w := Write(fs, target, content, io);
    if w.Err? then Effect(fs, Err("write file err: " + w.error))
    else Effect(w.value, Ok(MsgForceWritten))
  }

  method ForceWrite(disk: Disk, form: UploadForm, io: IoOutcome) returns (r: Result<string>)
    modifies disk
    ensures Effect(disk.entries, r) == ForceWriteSpec(old(disk.entries), form.targetFilePath, form.content, io)
  {
    var written := disk.WriteFile(form.targetFilePath, form.content, io);
    if written.Err? {
      return Err("write file err: " + written.error);
    }
    r := Ok(MsgForceWritten);
  }

  // ---------------------------------------------------------------------------
  // Ingestion: reading the multipart fields into a form
  // ---------------------------------------------------------------------------

  /** The bytes of a field's chunks in order, or the error of the first chunk that failed. */
  function Gather(chunks: seq<Chunk>): Result<seq<byte>> {
    if chunks == [] then Ok([])
    else if chunks[0].ChunkError? then Err("read chunk err: " + chunks[0].reason)
    else
      var rest := Gather(chunks[1..]);
      if rest.Err? then rest else Ok(chunks[0].bytes + rest.value)
  }

  /** What `read_content_disposition` yields for a field with these chunks. */
  function ReadFieldSpec(chunks: seq<Chunk>, decode: Decoder): Result<string> {
    var bytes := Gather(chunks);
    if bytes.Err? then Err(bytes.error)
    else
      var text := decode(bytes.value);
      if text.None? then Err(ErrInvalidUtf8) else Ok(text.value)
  }

  /** Put `buf` in front of the bytes still to come. */
  function Prepend(buf: seq<byte>, r: Result<seq<byte>>): Result<seq<byte>> {
    if r.Ok? then Ok(buf + r.value) else r
  }

  lemma PrependTwice(a: seq<byte>, b: seq<byte>, r: Result<seq<byte>>)
    ensures Prepend(a, Prepend(b, r)) == Prepend(a + b, r)
  {
    if r.Ok? { assert a + (b + r.value) == (a + b) + r.value; }
  }

  /** `read_content_disposition`: gather the field's chunks into one buffer, then decode it. */
  method ReadContentDisposition(chunks: seq<Chunk>, decode: Decoder) returns (r: Result<string>)
    ensures r == ReadFieldSpec(chunks, decode)
  {
    var buf: seq<byte> := [];
    var i := 0;
    assert chunks[0..] == chunks;
    assert Gather(chunks).Ok? ==> [] + Gather(chunks).value == Gather(chunks).value;
    while i < |chunks|
      invariant 0 <= i <= |chunks|
      invariant Gather(chunks) == Prepend(buf, Gather(chunks[i..]))
    {
      assert chunks[i..][1..] == chunks[i + 1..];
      match chunks[i]
      case ChunkError(e) =>
        return Err("read chunk err: " + e);
      case Data(bytes) =>
        PrependTwice(buf, bytes, Gather(chunks[i + 1..]));
        buf := buf + bytes;
      i := i + 1;
    }
    assert chunks[i..] == [];
    assert buf + [] == buf;
    var text := decode(buf);
    if text.None? {
      return Err(ErrInvalidUtf8);
    }
    r := Ok(text.value);
  }

  /** The field name actix reports, "" when the part has none. */
  function KeyOf(name: Option<string>): string {
    name.GetOr("")
  }

  /** One arm of the field `match`: a known key sets its field, any other key is ignored. */
  function Dispatch(form: UploadForm, key: string, value: string): UploadForm {
    match key
    case "action" => form.(action := FromStr(value))
    case "file" => form.(content := value)
    case "target_file_path" => form.(targetFilePath := value)
    case _ => form
  }

  /** The result of reading the whole multipart body. */
  datatype Ingested =
    | Parsed(form: UploadForm)      // every field was read
    | Rejected(response: Response)  // a field could not be read or decoded: answered at once
    | Broken(error: string)         // the stream itself failed: the handler returns the error

  /** The fields of `parts`, read in order on top of `form`. */
  function Ingest(form: UploadForm, parts: seq<Part>, decode: Decoder): Ingested
    decreases |parts|
  {
    if parts == [] then Parsed(form)
    else match parts[0]
      case StreamError(e) => Broken(e)
      case Field(name, chunks) =>
        var value := ReadFieldSpec(chunks, decode);
        if value.Err? then Rejected(Plain(INTERNAL_SERVER_ERROR, MsgUnreadableField))
        else Ingest(Dispatch(form, KeyOf(name), value.value), parts[1..], decode)
  }

  /** The write policy the form chose, applied to its target; only the safe policy can panic. */
  function ApplyPolicy(fs: Tree, form: UploadForm, now: string, io: WriteIo): (e: Effect<Outcome<Result<string>>>)
    ensures form.action != Safe ==> e.result.Returned?
  {
    if form.action == Safe then SafeWriteSpec(fs, form.targetFilePath, form.content, now, io)
    else
      var f := ForceWriteSpec(fs, form.targetFilePath, form.content, io.write);
      Effect(f.fs, Returned(f.result))
  }

  /** Validation and the chosen policy, turned into the response. */
  function WriteFormSpec(fs: Tree, form: UploadForm, now: string, io: WriteIo): Effect<Outcome<Result<Response>>> {
    var valid := ValidateUploadArgs(form);
    if valid.Err? then Effect(fs, Returned(Ok(Plain(BAD_REQUEST, "validate form err: " + valid.error))))
    else
      var written := ApplyPolicy(fs, form, now, io);
      match written.result
      case Panicked(m) => Effect(written.fs, Panicked(m))
      case Returned(Err(e)) => Effect(written.fs, Returned(Ok(Plain(BAD_REQUEST, "write file err: " + e))))
      case Returned(Ok(_)) => Effect(written.fs, Returned(Ok(Plain(OK, MsgUploaded))))
  }

  /** The `upload` handler from the multipart body to the response. */
  function UploadSpec(fs: Tree, parts: seq<Part>, decode: Decoder, now: string, io: WriteIo): Effect<Outcome<Result<Response>>> {
    match Ingest(DefaultUploadForm(), parts, decode)
    case Broken(e) => Effect(fs, Returned(Err(e)))
    case Rejected(response) => Effect(fs, Returned(Ok(response)))
    case Parsed(form) => WriteFormSpec(fs, form, now, io)
  }

  method WriteForm(disk: Disk, form: UploadForm, now: string, io: WriteIo) returns (r: Outcome<Result<Response>>)
    modifies disk
    ensures Effect(disk.entries, r) == WriteFormSpec(old(disk.entries), form, now, io)
  {
    var valid := ValidateUploadArgs(form);
    if valid.Err? {
      return Returned(Ok(Plain(BAD_REQUEST, "validate form err: " + valid.error)));
    }
    var written: Outcome<Result<string>>;
    if form.action == Safe {
      written := SafeWrite(disk, form, now, io);
    } else {
      var forced := ForceWrite(disk, form, io.write);
      written := Returned(forced);
    }
    match written
    case Panicked(m) =>
      r := Panicked(m);
    case Returned(Err(e)) =>
      r := Returned(Ok(Plain(BAD_REQUEST, "write file err: " + e)));
    case Returned(Ok(_)) =>
      r := Returned(Ok(Plain(OK, MsgUploaded)));
  }

  /**
   * `upload`: read the multipart fields one by one into a default form, then
   * validate it and write it with its policy.
   */
  method Upload(disk: Disk, parts: seq<Part>, decode: Decoder, now: string, io: WriteIo)
    returns (r: Outcome<Result<Response>>)
    modifies disk
    ensures Effect(disk.entries, r) == UploadSpec(old(disk.entries), parts, decode, now, io)
  {
    var form := DefaultUploadForm();
    var i := 0;
    while i < |parts|
      invariant 0 <= i <= |parts|
      invariant disk.entries == old(disk.entries)
      invariant Ingest(DefaultUploadForm(), parts, decode) == Ingest(form, parts[i..], decode)
    {
      assert parts[i..][1..] == parts[i + 1..];
      match parts[i]
      case StreamError(e) =>
        return Returned(Err(e));
      case Field(name, chunks) =>
        var key := KeyOf(name);
        var value := ReadContentDisposition(chunks, decode);
        if value.Err? {
          return Returned(Ok(Plain(INTERNAL_SERVER_ERROR, MsgUnreadableField)));
        }
        match key {
          case "action" => form := form.(action := FromStr(value.value));
          case "file" => form := form.(content := value.value);
          case "target_file_path" => form := form.(targetFilePath := value.value);
          case _ =>
        }
      i := i + 1;
    }
    assert parts[i..] == [];
    r := WriteForm(disk, form, now, io);
  }
}
