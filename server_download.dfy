/**
 * The standalone server's download endpoint (src/sync-server/bin/api/download.rs):
 * it validates the requested path and, for now, only echoes it back.
 */
module ServerDownload {
  import opened Wrappers
  import opened Strings
  import opened FileSystem
  import opened Http

  const ErrEmptySource := "require source_file_path is not empty"
  const ErrMissingSource := "require source_file_path is valid, but not found"

  /** `validate_args`: the path must be non-empty and name an existing regular file. */
  function ValidateArgs(fs: Tree, sourceFilePath: string): (r: Result<()>)
    ensures r.Ok? <==> sourceFilePath != "" && IsFile(fs, sourceFilePath)
    ensures sourceFilePath == "" ==> r == Err(ErrEmptySource)
    ensures sourceFilePath != "" && !IsFile(fs, sourceFilePath) ==> r == Err(ErrMissingSource)
  {
    if Utf8Len(sourceFilePath) == 0 then Err(ErrEmptySource)
    else if !(sourceFilePath in fs) || !IsFile(fs, sourceFilePath) then Err(ErrMissingSource)
    else Ok(())
  }

  /** `download`: 400 with the validation error, or 200 echoing the path (never the content). */
  function Download(fs: Tree, sourceFilePath: string): (resp: Response)
    ensures resp.status == OK <==> sourceFilePath != "" && IsFile(fs, sourceFilePath)
    ensures resp.status == OK ==> resp == Plain(OK, "source_file_path = " + sourceFilePath)
    ensures resp.status != OK ==>
              resp == Plain(BAD_REQUEST, "bad request err: " + ValidateArgs(fs, sourceFilePath).error)
  {
    var valid := ValidateArgs(fs, sourceFilePath);
    if valid.Err? then Plain(BAD_REQUEST, "bad request err: " + valid.error)
    else Plain(OK, "source_file_path = " + sourceFilePath)
  }
}
