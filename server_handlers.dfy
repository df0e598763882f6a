/**
 * The stub handler of service/server/app/core/handlers.py: it validates
 * and encodes the text, then answers a constant prediction without
 * calling any model.
 */
module ServerHandlers {
  import opened Wrappers
  import opened Canonical
  import opened ServerUtils
  import opened ServiceTypes

  const StubLanguage: string := "Gibberish"
  const StubConfidence: real := 0.99

  /**
   * `identify_lang`: validation first; the encoding is computed (its length
   * is what the source prints) but never used, and every accepted text
   * gets the same answer.
   */
  function IdentifyLang(h: Handler, u: Transliterator, text: string): (r: Result<Prediction, HandlerError>)
    ensures r.Err? <==> |text| < h.minLen
    ensures r.Err? ==> r.error == InputValidationErr(h.minLen)
    ensures r.Ok? ==> r.value == Prediction(StubLanguage, StubConfidence)
  {
    match ValidateInput(h, text)
    case Err(e) => Err(e)
    case Ok(_) =>
      var codes := StrToCodes(NormalizeText(u, text), MaxTextLen);
      assert |codes| == MaxTextLen;
      Ok(Prediction(StubLanguage, StubConfidence))
  }

  /** The answer does not depend on the text, only on whether it passes validation. */
  lemma AnswerIndependentOfText(h: Handler, u1: Transliterator, u2: Transliterator, t1: string, t2: string)
    requires |t1| >= h.minLen && |t2| >= h.minLen
    ensures IdentifyLang(h, u1, t1) == IdentifyLang(h, u2, t2) == Ok(Prediction("Gibberish", 0.99))
  {
  }

  /** `pad_length` is stored but never read. */
  lemma PadLengthUnused(p1: int, p2: int, minLen: int, u: Transliterator, text: string)
    ensures IdentifyLang(Handler(p1, minLen), u, text) == IdentifyLang(Handler(p2, minLen), u, text)
  {
  }
}
