/**
 * What the two `LangRecModelHandler` classes (service/src and
 * service/server) have in common: the stored settings, the input check of
 * `validate_input`, the shape of a prediction and the exceptions
 * `identify_lang` can raise.
 */
module ServiceTypes {
  import opened Wrappers
  import opened ServerUtils

  /** The classifier's answer; `confidence` is the softmax score, a float in the source. */
  datatype Prediction = Prediction(language: string, confidence: real)

  datatype HandlerError =
    | InputValidationErr(minLen: int)   // "Input text is too short! Minimum length is %d"
    | EmptyModelOutput                  // ValueError from np.max of an empty array
    | LabelOutOfRange(index: nat)       // IndexError from LANGUAGES[lang_idx]

  /** The handler's two fields, set once by `__init__` and never changed. */
  datatype Handler = Handler(padLength: int, minLen: int)

  const DefaultMinLen: int := 8

  /** `__init__(pad_length=MAX_TEXT_LEN, min_len=8)`. */
  function NewHandler(padLength: int := MaxTextLen, minLen: int := DefaultMinLen): (h: Handler)
    ensures h.padLength == padLength && h.minLen == minLen
  {
    Handler(padLength, minLen)
  }

  /** `validate_input`: the raw text, before any normalization, must have at least `min_len` characters. */
  function ValidateInput(h: Handler, text: string): (r: Result<(), HandlerError>)
    ensures r.Err? <==> |text| < h.minLen
    ensures r.Err? ==> r.error == InputValidationErr(h.minLen)
  {
    if |text| < h.minLen then Err(InputValidationErr(h.minLen)) else Ok(())
  }

  /** With the default handler, seven characters are refused and eight accepted. */
  lemma DefaultValidationExamples()
    ensures ValidateInput(NewHandler(), "bonjour") == Err(InputValidationErr(8))
    ensures ValidateInput(NewHandler(), "bonjour!").Ok?
  {
  }
}
