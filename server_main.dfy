/**
 * The upload handler of the standalone server binary (src/sync-server/bin/main.rs).
 * It is not registered with the server; it only classifies the upload's size and
 * writes nothing.
 */
module ServerMain {
  import opened Strings
  import opened Http

  /** `MAX_FILE_SIZE`: 10 MiB. */
  const MaxFileSize: nat := 1024 * 1024 * 10

  function TooLargeMessage(): string {
    "The uploaded file is too large. Maximum size is " + NatToDecimal(MaxFileSize) + " bytes."
  }

  /** The size gate: empty is refused, larger than the maximum is refused, the rest is accepted. */
  function UploadSizeGate(size: nat): (resp: Response)
    ensures size == 0 ==> resp == Empty(BAD_REQUEST)
    ensures size > 10485760 ==>
              resp == Plain(BAD_REQUEST, "The uploaded file is too large. Maximum size is 10485760 bytes.")
    ensures 1 <= size <= 10485760 ==> resp == Plain(OK, "Upload Successfully!")
  {
    MaxFileSizeDecimal();
    if size == 0 then Empty(BAD_REQUEST)
    else if size > MaxFileSize then Plain(BAD_REQUEST, TooLargeMessage())
    else Plain(OK, "Upload Successfully!")
  }

  /** The first digits of the maximum, printed in decimal. */
  lemma DecimalPrefix()
    ensures NatToDecimal(10485) == "10485"
  {
    assert NatToDecimal(1) == "1";
    assert NatToDecimal(10) == "10";
    assert NatToDecimal(104) == "104";
    assert NatToDecimal(1048) == "1048";
  }

  /** The maximum printed in decimal. */
  lemma MaxFileSizeDecimal()
    ensures MaxFileSize == 10485760
    ensures NatToDecimal(MaxFileSize) == "10485760"
    ensures TooLargeMessage() == "The uploaded file is too large. Maximum size is 10485760 bytes."
  {
    DecimalMiddle();
    assert NatToDecimal(10485760) == "10485760";
  }

  /** The first seven digits of the maximum, printed in decimal. */
  lemma DecimalMiddle()
    ensures NatToDecimal(1048576) == "1048576"
  {
    DecimalPrefix();
    assert NatToDecimal(104857) == "104857";
  }
}
