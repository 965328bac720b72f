/**
 * The older copy of the upload schema (src/util/schema.rs). Its parser spells
 * the force policy "fore", so "force" falls through to the safe default.
 */
module LegacySchema {

  datatype Action = Safe | Force

  /** `Default for Action`. */
  function DefaultAction(): Action {
    Safe
  }

  /** `Action::from_str`: "fore" is the one text that asks for a force write. */
  function FromStr(text: string): (a: Action)
    ensures a == Force <==> text == "fore"
  {
    match text
    case "safe" => Safe
    case "fore" => Force
    case _ => Safe
  }

  /** The correctly spelled policy name is read as a safe write. */
  lemma ForceSpelledOutIsSafe()
    ensures FromStr("force") == Safe
    ensures FromStr("safe") == Safe
  {
  }

  datatype UploadForm = UploadForm(action: Action, content: string, targetFilePath: string)

  /** `#[derive(Default)]` on `UploadForm`. */
  function DefaultUploadForm(): UploadForm {
    UploadForm(DefaultAction(), "", "")
  }

  /**
   * The default is the parser's fallback: every text but "fore" reads as the
   * default action, and that is the action a default form carries.
   */
  lemma DefaultIsFallback()
    ensures forall text :: text != "fore" ==> FromStr(text) == DefaultAction()
    ensures DefaultUploadForm().action == DefaultAction() == Safe
  {
  }
}
