/**
 * The library's download handler (src/lib/apis/download.rs): it checks the
 * requested path and answers with the whole file as a single body chunk.
 */
module Download {
  import opened Wrappers
  import opened FileSystem
  import opened Http

  const ContentType := "application/json"

  /**
   * `download_file`: an empty path or a path that does not exist is answered with
   * 400 before anything is read; otherwise the file is read in full and sent as
   * one chunk. A failed read (a directory, an I/O error) leaves the handler as an
   * error, not as a 400.
   */
  function DownloadFile(fs: Tree, filePath: string, io: IoOutcome): (r: Result<Response>)
    ensures filePath == "" ==> r == Ok(Plain(BAD_REQUEST, "invalid file path"))
    ensures filePath != "" && filePath !in fs ==> r == Ok(Plain(BAD_REQUEST, "not found path: " + filePath))
    ensures r.Ok? && r.value.status == OK <==> filePath != "" && io.Proceeds? && IsFile(fs, filePath)
    ensures r.Ok? && r.value.status == OK ==>
              r.value == Response(OK, Some(ContentType), [fs[filePath].content])
    ensures filePath != "" && IsDir(fs, filePath) ==> r.Err?
  {
    if filePath == "" then Ok(Plain(BAD_REQUEST, "invalid file path"))
    else if filePath !in fs then Ok(Plain(BAD_REQUEST, "not found path: " + filePath))
    else
      var body := Read(fs, filePath, io);
      if body.Err? then Err(body.error)
      else Ok(Response(OK, Some(ContentType), [body.value]))
  }
}
