/**
 * The upload form and its write policy, as the shared library declares them
 * (src/lib/util/schema.rs).
 */
module Schema {

  /** How an upload reconciles new content with what is on disk. */
  datatype Action = Safe | Force

  /** `Default for Action`. */
  function DefaultAction(): Action {
    Safe
  }

  /**
   * `Action::from_str`: lenient, never fails. Only the exact text "force" asks for
   * a force write; every other text, "Force" and "" included, is a safe write.
   */
  function FromStr(text: string): (a: Action)
    ensures a == Force <==> text == "force"
    ensures a == Safe <==> text != "force"
  {
    match text
    case "safe" => Safe
    case "force" => Force
    case _ => Safe
  }

  /** `Action::to_string`. */
  function ToString(a: Action): (text: string)
    ensures text == "safe" || text == "force"
    ensures FromStr(text) == a
  {
    match a
    case Safe => "safe"
    case Force => "force"
  }

  /** Different actions print differently. */
  lemma ToStringInjective(a: Action, b: Action)
    requires ToString(a) == ToString(b)
    ensures a == b
  {
    assert FromStr(ToString(a)) == a && FromStr(ToString(b)) == b;
  }

  /** One decoded upload: policy, new content and where it goes. */
  datatype UploadForm = UploadForm(action: Action, content: string, targetFilePath: string)

  /** `#[derive(Default)]` on `UploadForm`: a safe write of "" to "". */
  function DefaultUploadForm(): UploadForm {
    UploadForm(DefaultAction(), "", "")
  }

  /**
   * The default is the parser's fallback: every text but "force" reads as the
   * default action, and that is the action a default form carries.
   */
  lemma DefaultIsFallback()
    ensures forall text :: text != "force" ==> FromStr(text) == DefaultAction()
    ensures DefaultUploadForm().action == DefaultAction() == Safe
  {
  }
}
