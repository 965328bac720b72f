# sync-file: a verified model of the write-policy engine

sync-file keeps files in step between a command-line client and an HTTP
server. The client sends a multipart upload with three fields:

- `action`: the write policy, `safe` or `force`;
- `file`: the new content;
- `target_file_path`: where the content goes.

The server handles the upload in four steps:

1. It reads the fields into an upload form.
2. It checks that the target path is deep enough.
3. It writes the content with one of two policies:
   - **safe**: compare with the content on disk and stop when it is the same; otherwise make sure the hidden backup directory `<parent>/.<file stem>` exists, copy the current file into `<backup dir>/<file name>.<YYYYMMDD_HHMMSS>`, and overwrite the file;
   - **force**: overwrite the file.
4. It answers with an HTTP response.

A download handler sends a file back in one piece.

The model is written in Dafny and covers:

- the upload handler and its write policies;
- both copies of the form schema;
- both download handlers;
- the helpers `create_and_write` and `verify_file_existed`;
- the endpoint URL builders;
- the size gate of the standalone server;
- the client's decision logic: log level, the `local:remote` mapping list, the request protocol, the configuration and the local-file check.

The filesystem is a map from path strings to `File(content) | Dir` (`FileSystem.Tree`).
Each system call takes an `IoOutcome`, which says whether the operating system lets the call run or fails it.

- Failures that follow from the tree itself are derived from the map. These are writing onto a directory, a missing parent directory, and copying from something that is not a file.
- A failing call changes nothing.
- The `FileSystem.Disk` class holds the tree. Its methods are the system calls, and they update the tree in place.

The imperative parts are methods, each proved equal to a specification function of its inputs:

- the field loop of `upload`, the step-by-step `safe_write`, `safe_create_backup_dir` and `force_write`, and `create_and_write` are module methods that take the `Disk` and change its tree; each is proved to leave the tree and return the result that its specification function computes from the old tree;
- the buffer loop of `read_content_disposition` and the map-filling loop of `parse_file_mappings` touch no disk; each is proved to return what its specification function computes from the input.

The properties are lemmas over the specification functions. Rust panics (`unwrap` on `None`, an index out of bounds, `unreachable!`, `panic!`) are the `Panicked` case of `Wrappers.Outcome`.

Two behaviours of the code are easy to misread, and the model follows the code in both:

- **Path depth.** The error text of `validate_upload_args` speaks of directory levels. But src/lib/apis/upload.rs:141 deletes every `/` and counts the UTF-8 bytes that remain. So the bare name `ab` passes, the single two-byte character `é` passes, and `/a/` is refused.
- **Bare names.** A bare relative name such as `notes.txt` has the empty parent, and `format!("{}/.{}", dir, stem)` puts its backup directory at the filesystem root, `/.notes`.

## Model

| member | source | states |
|---|---|---|
| Upload.ValidateUploadArgs | src/lib/apis/upload.rs:135-146 | "target_file_path is empty" exactly when the target is empty; "require level of dir is more than 2" exactly when it is non-empty and fewer than two UTF-8 bytes remain once every `/` is deleted; `Ok` exactly when neither holds |
| Upload.SafeCreateBackupDirSpec | src/lib/apis/upload.rs:120-133 | a path taken by a non-directory gives "backup dir is conflicted: <path>"; an existing directory leaves the tree as it is; on success only directories are added, the path is a directory, and no new entry is longer than the path |
| Upload.SafeCreateBackupDir | src/lib/apis/upload.rs:120-133 | the disk and the result after the guard are those of `SafeCreateBackupDirSpec` on the old disk |
| Upload.FinishSafeWrite | src/lib/apis/upload.rs:103-109 | the final write never panics; on success it reports "safe write ok" and the tree is the old one with the target holding the content; on failure the tree is unchanged |
| Upload.SnapshotAndWrite | src/lib/apis/upload.rs:89-109 | never panics; a success leaves the target holding the new content; over a target that does not exist, no copy is made and it is just the final write |
| Upload.BackUpAndWrite | src/lib/apis/upload.rs:84-109 | never panics; a success reports "safe write ok" with the target holding the new content |
| Upload.SafeWrite | src/lib/apis/upload.rs:60-110 | the disk and the outcome of a safe write are those of `SafeWriteSpec` on the old disk |
| Upload.BackUpAndWriteOn | src/lib/apis/upload.rs:84-109 | the disk and the outcome of the guard, copy and write steps are those of `BackUpAndWrite` on the old disk |
| Upload.SnapshotAndWriteOn | src/lib/apis/upload.rs:89-109 | the disk and the outcome of the copy and write steps are those of `SnapshotAndWrite` on the old disk |
| Upload.ForceWriteSpec | src/lib/apis/upload.rs:164-170 | on success the tree is the old one with the target set to the content, so no backup directory or snapshot is made, and the message is "force write ok"; on failure the tree is unchanged |
| Upload.ForceWrite | src/lib/apis/upload.rs:164-170 | the disk and the result of a force write are those of `ForceWriteSpec` on the old disk |
| Upload.ApplyPolicy | src/lib/apis/upload.rs:50-53 | `Force` takes the force write and `Safe` the safe write; only the safe write can panic |
| Upload.ReadContentDisposition | src/lib/apis/upload.rs:148-162 | the loop that gathers the chunks returns the first chunk error as "read chunk err: …", otherwise the decoded text of all the bytes in order, or the UTF-8 error |
| Upload.WriteForm | src/lib/apis/upload.rs:46-57 | the disk and the answer after validation and the chosen policy are those of `WriteFormSpec` on the old disk |
| Upload.Upload | src/lib/apis/upload.rs:10-58 | the loop over the fields leaves the disk alone and ends in the form `Ingest` describes; the disk and the answer are those of `UploadSpec` on the old disk |
| UploadProperties.BackupDirPlacement | src/lib/apis/upload.rs:76-85 | the backup directory's parent is the target's parent, or "/" when that parent is "" or "/"; the directory path is non-empty with no trailing separator |
| UploadProperties.SnapshotPlacement | src/lib/apis/upload.rs:89-96 | the snapshot is the entry `<file name>.<now>` directly inside the backup directory, so it is never the target |
| UploadProperties.TimestampHasNoSeparator | src/lib/apis/upload.rs:95 | a `%Y%m%d_%H%M%S` timestamp contains no `/` |
| UploadProperties.BackupStripsLastExtension | src/lib/apis/upload.rs:76-96 | `dir/base.ext` is backed up in `dir/.base`, as `dir/.base/base.ext.<now>`; only the last extension is dropped |
| UploadProperties.BackupKeepsDotfileName | src/lib/apis/upload.rs:77-85 | a leading dot is not an extension: `dir/.rest` is backed up in `dir/..rest` |
| UploadProperties.BareNameBacksUpAtRoot | src/lib/apis/upload.rs:82-85 | a bare name has the empty parent, and its backup directory is `/.<stem>` at the filesystem root |
| UploadProperties.ThreeDotsIsItsOwnBackupDir | src/lib/apis/upload.rs:77-85 | the backup directory of `dir/...` is `dir/...`, the target path itself |
| UploadProperties.SafeWriteUnchangedIff | src/lib/apis/upload.rs:63-73 | a safe write answers "file is not changed." exactly when the target exists and reads back as the new content, where an unreadable target reads as ""; it then changes nothing |
| UploadProperties.UnreadableTargetLooksEmpty | src/lib/apis/upload.rs:64-72 | uploading "" over a directory, or over a file that cannot be read, reports "file is not changed." and changes nothing |
| UploadProperties.SafeWriteNoFileNamePanics | src/lib/apis/upload.rs:76 | a target with no file name (`/`, `..`, `a/..`) that has to be written makes the handler panic, with the disk untouched |
| UploadProperties.SafeWriteConflict | src/lib/apis/upload.rs:85-87 | a backup path taken by a non-directory stops the safe write with "backup dir is conflicted: <dir>" before anything changes |
| UploadProperties.SafeWriteWritesTarget | src/lib/apis/upload.rs:104-109 | whenever a safe write reports "safe write ok", the target holds the new content |
| UploadProperties.SafeWriteHadName | src/lib/apis/upload.rs:72-76 | a safe write that neither stopped early nor panicked had a file name |
| UploadProperties.SafeWriteReachedSnapshot | src/lib/apis/upload.rs:84-109 | past the comparison and a successful guard, the safe write is the snapshot-and-write step on the tree the guard left |
| UploadProperties.SafeWriteMadeBackupDir | src/lib/apis/upload.rs:87 | a safe write that succeeded past the comparison made its backup directory |
| UploadProperties.SnapshotAndWriteNewTarget | src/lib/apis/upload.rs:90-106 | over a target that did not exist, no snapshot is made: the result is the directories the guard made plus the target |
| UploadProperties.SnapshotAndWriteOverTarget | src/lib/apis/upload.rs:90-106 | over an existing target, a failed copy returns "copy backup err: …" with the tree unchanged; a copy that goes through saves the target's entry as the snapshot before the final write; success means the target was a file |
| UploadProperties.SafeWriteIdempotent | src/lib/apis/upload.rs:63-73 | after a successful safe write of some content, a second one of the same content stops early with "file is not changed." and changes nothing |
| UploadProperties.SnapshotOutcome | src/lib/apis/upload.rs:89-109 | a successful copy-and-write over a file leaves the old entry in the snapshot, the new content in the target and the backup directory in place; everything else is old and unchanged, or a new directory |
| UploadProperties.SafeWriteBackupOnChange | src/lib/apis/upload.rs:84-109 | a successful safe write of B over a file holding other content A leaves A in `<backup dir>/<name>.<now>`, B in the target and the backup directory in place; every other entry is old and unchanged, or a new directory, and nothing is removed |
| UploadProperties.SafeWriteNoSnapshotOnCreate | src/lib/apis/upload.rs:84-109 | a successful safe write to an absent target creates it with the content and leaves the backup directory in place; everything else it adds is a directory, so there is no snapshot, and nothing old changes |
| UploadProperties.BackupDirGuardIdempotent | src/lib/apis/upload.rs:120-133 | once the backup directory guard has succeeded, running it again returns `Ok` and changes nothing |
| UploadProperties.BackupDirReady | src/lib/apis/upload.rs:120-133 | in a well-formed tree the guard succeeds for the backup directory of an existing entry, unless a non-directory sits in its place or the system refuses |
| UploadProperties.SafeWriteOverwrite | src/lib/apis/upload.rs:84-109 | over an existing file with other content, the guard makes the backup directory. A failed copy then leaves only new directories. A failed final write leaves the snapshot and the old target, with "write file err: …". Otherwise the snapshot holds the old content and the target the new. |
| UploadProperties.ForceWriteOverwritesFile | src/lib/apis/upload.rs:164-170 | over an existing file in a well-formed tree, a force write replaces its content and nothing else |
| UploadProperties.ForceWriteIdempotent | src/lib/apis/upload.rs:164-170 | repeating a successful force write with the same content succeeds and changes nothing more |
| UploadProperties.ValidateEmptyTarget | src/lib/apis/upload.rs:138-140 | an empty target is refused with "target_file_path is empty" |
| UploadProperties.ValidateBareNamePasses | src/lib/apis/upload.rs:141-143 | the two-letter bare name `ab` passes, because the rule counts bytes and not segments |
| UploadProperties.ValidateTwoByteCharacterPasses | src/lib/apis/upload.rs:141-143 | a single two-byte character passes |
| UploadProperties.ValidateOneLetterRefused | src/lib/apis/upload.rs:141-143 | `/a/` is refused as too shallow |
| UploadProperties.ValidateTwoCharactersPass | src/lib/apis/upload.rs:141-145 | any target with at least two characters besides the separators passes |
| UploadProperties.ValidationFailureWritesNothing | src/lib/apis/upload.rs:46-48 | a form that fails validation gets 400 "validate form err: …" and the disk is unchanged |
| UploadProperties.GatherOkIff | src/lib/apis/upload.rs:150-159 | a field's chunks gather into bytes exactly when none of them is an error |
| UploadProperties.IngestIsFold | src/lib/apis/upload.rs:16-44 | when every field can be read, the field loop is the fold of the (name, text) pairs in order |
| UploadProperties.IngestStopsAtUnreadable | src/lib/apis/upload.rs:22-27 | the first field that cannot be read or decoded ends the loop with 500 "read content disposition err", whatever follows it |
| UploadProperties.IngestStopsAtStreamError | src/lib/apis/upload.rs:16-17 | a stream error before any unreadable field ends the loop with that error |
| UploadProperties.FoldKeeps | src/lib/apis/upload.rs:30-43 | a known field that no later pair names keeps its value |
| UploadProperties.FoldIgnoresUnknownNames | src/lib/apis/upload.rs:40-42 | fields with names other than `action`, `file` and `target_file_path` leave the form as it is |
| UploadProperties.FoldLastWins | src/lib/apis/upload.rs:30-39 | when a known field name repeats, the last occurrence sets the field |
| UploadProperties.DefaultIsSafe | src/lib/apis/upload.rs:14-33 | a readable body with no `action` field asks for a safe write |
| UploadProperties.WriteFormResponses | src/lib/apis/upload.rs:46-57 | the answer is 200 "Upload Successfully!" exactly when the form is valid and the policy (`Upload.ApplyPolicy`) succeeded; every other answer is a 400; the handler panics exactly when the policy does |
| UploadProperties.UploadRejectsUnreadableField | src/lib/apis/upload.rs:22-27 | a body with an unreadable field gets 500 and the disk is unchanged |
| UploadProperties.UploadIsFoldThenWrite | src/lib/apis/upload.rs:10-58 | a readable body is folded into a form that is then validated and written |
| UploadProperties.UploadThenDownload | src/lib/apis/upload.rs:57 | after an upload answered with 200, downloading the target gives 200 with the uploaded content as its single body chunk |
| Schema.FromStr | src/lib/util/schema.rs:15-21 | the result is `Force` exactly for "force"; every other text, including "Force" and "", is `Safe` |
| Schema.ToString | src/lib/util/schema.rs:23-28 | prints "safe" or "force", and `from_str` reads the text back as the same action |
| Schema.ToStringInjective | src/lib/util/schema.rs:23-28 | different actions print differently |
| Schema.DefaultIsFallback | src/lib/util/schema.rs:15-21 | every text but "force" reads as the default action, and a default form carries it: `Safe` (lines 31-35 and 1-6) |
| LegacySchema.FromStr | src/util/schema.rs:16-22 | "fore" is the one text read as `Force` |
| LegacySchema.ForceSpelledOutIsSafe | src/util/schema.rs:17-20 | "force" and "safe" are both read as `Safe` |
| LegacySchema.DefaultIsFallback | src/util/schema.rs:16-22 | every text but "fore" reads as the default action, and a default form carries it: `Safe` (lines 25-29 and 2-7) |
| Download.DownloadFile | src/lib/apis/download.rs:13-30 | an empty path gets 400 "invalid file path" and a missing path 400 "not found path: <path>", both before any read. 200 comes exactly when the path names a file that can be read, and the answer is then content type "application/json" with the whole file as one chunk. An existing directory passes the check and fails as an error, not a 400. |
| ServerDownload.ValidateArgs | src/sync-server/bin/api/download.rs:26-37 | succeeds exactly when the path is non-empty and names a regular file; otherwise "require source_file_path is not empty" or "require source_file_path is valid, but not found" |
| ServerDownload.Download | src/sync-server/bin/api/download.rs:14-24 | 200 exactly when validation passes, echoing "source_file_path = <path>" rather than the content; otherwise 400 "bad request err: <error>" |
| FileUtil.CreateAndWrite | src/lib/util/file.rs:3-14 | the disk and the result are those of `CreateAndWriteSpec` on the old disk |
| FileUtil.CreateAndWriteSucceeds | src/lib/util/file.rs:7-13 | after success the file holds exactly the contents, every other old entry is unchanged, and everything new besides the file is a directory |
| FileUtil.CreateAndWriteMakesParent | src/lib/util/file.rs:8-9 | a missing parent is a directory after success |
| FileUtil.CreateAndWriteNoMkdir | src/lib/util/file.rs:7-8 | when the parent exists or there is none, no directory is created: it is just the write |
| FileUtil.CreateAndWriteMkdirFails | src/lib/util/file.rs:9 | a failed directory creation is returned as it is, with nothing written |
| Validate.VerifyFileExisted | src/lib/util/validate.rs:3-11 | every `Ok` carries the input; the result is an error exactly when the name is not "..." and the existence probe itself fails, so "..." never consults the system |
| Validate.VerifyIgnoresDisk | src/lib/util/validate.rs:8-10 | what is on disk never changes the result, so a missing file is accepted like a present one |
| Urls.EndpointsDistinct | src/lib/apis/mod.rs:7-27 | for one protocol and address the ping, upload and download URLs are `protocol://addr/` followed by "ping", "upload" and "download", and differ from each other |
| Client.LogFilterLevel | src/sync-client/bin/main.rs:16-22 | 0 gives Info, 1 gives Debug, 2 or more gives Trace |
| Client.LogFilterLevelMonotone | src/sync-client/bin/main.rs:16-22 | more `-v` flags never select a less verbose level |
| Client.ParseFileMappings | src/sync-client/bin/main.rs:140-148 | the loop that inserts each chunk's pair returns the map of `ParseFileMappingsSpec`, or its panic |
| Client.ParseFileMappingsPanics | src/sync-client/bin/main.rs:142-144 | the parse panics exactly when some `,`-chunk has no `:` |
| Client.ParseFileMappingsKeys | src/sync-client/bin/main.rs:142-145 | when the parse returns, its keys are exactly the texts before the first `:` of the chunks |
| Client.ParseFileMappingsLastWins | src/sync-client/bin/main.rs:142-145 | when the parse returns, each key maps to the remote side of the last chunk naming it |
| Client.ParseTwoPairs | src/sync-client/bin/main.rs:135-147 | `l1:r1,l2:r2` gives l1→r1 and l2→r2 |
| Client.ParseLaterWins | src/sync-client/bin/main.rs:142-145 | `l:r1,l:r2` gives l→r2 |
| Client.ParseDropsThirdPiece | src/sync-client/bin/main.rs:143-145 | `l:r:x` gives l→r |
| Client.ParsePanicsWithoutColon | src/sync-client/bin/main.rs:143-144 | the empty list and a list with a chunk lacking `:` both panic with an index out of bounds |
| Client.NewReqProtocol | src/sync-client/bin/main.rs:261-276 | the input is lower-cased; it returns exactly for "http" and "https" in any case, `data()` is the lower-cased name, and `Https` means "https"; anything else is unreachable |
| Client.NewReqProtocolExamples | src/sync-client/bin/main.rs:261-269 | "http" and "HTTP" give `Http("http")`, "HTTPS" gives `Https("https")`, and "ftp" panics |
| Client.NewConfig | src/sync-client/bin/main.rs:298-308 | the address and host are kept; the protocol is https exactly when insecure TLS is enabled, and http otherwise |
| Client.PanicIfNotExpectFile | src/sync-client/bin/main.rs:83-95 | returns exactly when the path names a regular file; a missing path panics with "not found local file(…)" and a directory with "local_file_path is not a file(…)" |
| ServerMain.UploadSizeGate | src/sync-server/bin/main.rs:16-36 | size 0 gets 400 with no body; above 10485760 gets 400 naming the 10485760-byte maximum; 1 to 10485760 inclusive gets 200 "Upload Successfully!"; nothing is written |
| ServerMain.MaxFileSizeDecimal | src/sync-server/bin/main.rs:18-25 | `MAX_FILE_SIZE` is 10485760, and the message prints it as "10485760" |
| Paths.FileName | src/lib/apis/upload.rs:76 | `file_name` is a non-empty component without `/` that is not "." or "..", after trailing separators and `.` components are skipped; a path with a file name has a parent |
| Paths.Parent | src/lib/apis/upload.rs:82 | `parent` is shorter than the path and, except for "/", ends in neither a separator nor a `.` component; it is missing exactly when nothing is left of the path once trailing separators and `.` components are skipped |
| Paths.FileStem | src/lib/apis/upload.rs:77-81 | the stem is a non-empty prefix of the name, the whole name when no `.` follows the first character, and otherwise the part before the last `.` |
| Paths.ChildOf | src/lib/apis/upload.rs:76-82 | `dir/name` has file name `name` and parent `dir` |
| Paths.TrailingDotSkipped | src/lib/apis/upload.rs:76-82 | a trailing `/.` changes neither the file name nor the parent, as `Path::components` skips it |
| Strings.ConcatSplit | src/lib/apis/upload.rs:141 | collecting the pieces of `split("/")` into one string deletes every `/` |
| FileSystem.MkdirAll | src/lib/apis/upload.rs:127 | `create_dir_all` only adds directories, leaves the path a directory, and adds nothing longer than the path; it is a no-op on an existing directory and fails on a file |
| FileSystem.MkdirAllWellFormed | src/lib/util/file.rs:9 | creating directories keeps every entry inside an existing directory |
| FileSystem.WriteWellFormed | src/lib/apis/upload.rs:104 | a write that goes through keeps every entry inside an existing directory |
| FileSystem.Disk.WriteFile | src/lib/apis/upload.rs:104 | the disk and the result of one write are those of `Write` on the old disk |
| FileSystem.Disk.CopyFile | src/lib/apis/upload.rs:97 | the disk and the result of one copy are those of `Copy` on the old disk |
| FileSystem.Disk.CreateDirAllAt | src/lib/apis/upload.rs:127 | the disk and the result of one `create_dir_all` are those of `CreateDirAll` on the old disk |

## Left out

- HTTP machinery (actix-web, actix-multipart, reqwest) is not modelled. Responses are values: a status, an optional content type and the body chunks. A stream error that the handler returns with `?` is the `Err` result of the handler; actix's conversion of it into a response is not modelled.
- The multipart stream is a sequence of parts, each field a sequence of chunks. Polling, back-pressure and partial reads are not modelled.
- The async runtime and concurrency are not modelled. Two safe writes racing on one target are outside the model.
- `md5::compute` is not modelled. Its digests are only logged, and the verdict is equality of the texts.
- The clock is not modelled. The timestamp of a snapshot is the `now` parameter. The lemmas that need its `%Y%m%d_%H%M%S` shape say so with `IsTimestamp`.
- UTF-8 decoding (`String::from_utf8`) is a parameter of type `seq<byte> -> Option<string>`. Only whether it succeeds and what it yields matter. The message of the decoding error is a fixed text.
- Logging (`debug!`, `warn!`, `error!`) is not modelled. It changes nothing the handler returns.
- Paths are plain strings. The parent, file name and file stem follow Rust's `std::path` on `/`-separated paths, trailing separators and trailing `.` components included (`x/y/.` has file name `y` and parent `x`). The keys of the tree, however, are paths as written, not normalised: `a//b`, `a/./b` and `x/y/.` are keys of their own. So a write to `x/y/.` creates that key where the system would write `x/y` or refuse, and a safe write of "" to `x/y/.` when `x/y` is a directory goes ahead where the system reports no change.
- `create_dir_all` either succeeds as a whole or fails as a whole. A system failure half-way that leaves some of the directories behind is not modelled.
- Symbolic links, permissions and file metadata are not modelled. A file that cannot be read is an `IoOutcome` failure of the read.
- The ping handlers, src/sync-server/bin/api/mod.rs, the server bootstrap, clap parsing, env_logger setup, TLS client construction (`new_client`) and the client's network loops (`upload_file`, `upload_file_mappings`, `download_file_mappings`, `ping_server`) are not modelled. They are network I/O, process exits or declarations only.
- `Action::from_str(&value).unwrap()` in the upload handler does not type-check as written against src/lib/util/schema.rs: the inherent `from_str` there returns an `Action`, which has no `unwrap`. The model reads the `action` field with that lenient parser, `Schema.FromStr`, and gives the call no panic of its own.
- Client.NewReqProtocol: lower-cases ASCII letters only. Rust's `to_lowercase` also folds non-ASCII letters, but the only names that matter ("http", "https") are ASCII.
- Client.PanicIfNotExpectFile: the missing-file message puts the path between quotes, as the `Debug` format of a path does, but does not model its escaping of quotes and backslashes.
- UploadProperties.UploadThenDownload: requires that the comparison read succeeded and that the target was not a directory. Without these, an upload of "" over an unreadable file or a directory is answered with 200 "Upload Successfully!" (the safe write reports "file is not changed."), and the download does not return the content.
- UploadProperties.SafeWriteIdempotent: requires the comparison reads to succeed. An unreadable target reads as "" and makes the second write go ahead.
- ServerMain.UploadSizeGate: the uploaded file's temporary path and name are read and dropped by the source; the model takes only the size.
