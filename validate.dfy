/** `verify_file_existed` (src/lib/util/validate.rs). */
module Validate {
  import opened Wrappers
  import opened FileSystem

  /**
   * `verify_file_existed`: "..." is accepted without asking the system; for any
   * other name the existence probe runs, but its answer is thrown away, so only a
   * failure of the probe itself is an error.
   */
  function VerifyFileExisted(fs: Tree, file: string, probe: IoOutcome): (r: Result<string>)
    ensures r.Ok? ==> r.value == file
    ensures r.Err? <==> file != "..." && probe.FailsWith?
  {
    if file == "..." then Ok(file)
    else
      var probed: Result<bool> := if probe.FailsWith? then Err(probe.reason) else Ok(file in fs);
      if probed.Err? then Err(probed.error) else Ok(file)
  }

  /** What is on disk never matters: a missing file is accepted like a present one. */
  lemma VerifyIgnoresDisk(fs1: Tree, fs2: Tree, file: string, probe: IoOutcome)
    ensures VerifyFileExisted(fs1, file, probe) == VerifyFileExisted(fs2, file, probe)
  {
  }
}
