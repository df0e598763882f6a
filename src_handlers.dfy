/**
 * The model-backed handler of service/src/app/core/handlers.py: validate,
 * normalize, encode, run the classifier, and report the label with the
 * highest score.
 */
module SrcHandlers {
  import opened Wrappers
  import opened Chars
  import opened Canonical
  import opened ServerUtils
  import opened ServiceTypes

  /** `LANGUAGES`: `sorted` of the six labels, which are already in order. */
  const Languages: seq<string> := ["English", "French", "Italian", "Portuguese", "Spanish", "Turkish"]

  /** Python's `<` on strings: code point by code point, a proper prefix first. */
  predicate LexLess(a: string, b: string)
    decreases |a|
  {
    if a == [] then b != []
    else if b == [] then false
    else if a[0] != b[0] then a[0] < b[0]
    else LexLess(a[1..], b[1..])
  }

  lemma {:induction false} LexLessIrreflexive(a: string)
    ensures !LexLess(a, a)
    decreases |a|
  {
    if a != [] {
      LexLessIrreflexive(a[1..]);
    }
  }

  lemma {:induction false} LexLessTransitive(a: string, b: string, c: string)
    requires LexLess(a, b) && LexLess(b, c)
    ensures LexLess(a, c)
    decreases |a|
  {
    if a != [] && b != [] && c != [] && a[0] == b[0] && b[0] == c[0] {
      LexLessTransitive(a[1..], b[1..], c[1..]);
    }
  }

  /** Each label sorts strictly before the next. */
  lemma LanguagesAdjacent()
    ensures forall i :: 0 <= i < |Languages| - 1 ==> LexLess(Languages[i], Languages[i + 1])
  {
    assert LexLess(Languages[0], Languages[1]);
    assert LexLess(Languages[1], Languages[2]);
    assert LexLess(Languages[2], Languages[3]);
    assert LexLess(Languages[3], Languages[4]);
    assert LexLess(Languages[4], Languages[5]);
  }

  /**
   * `LANGUAGES` is strictly increasing, so it is its own `sorted` order and
   * holds no label twice.
   */
  lemma LanguagesSorted()
    ensures |Languages| == 6
    ensures forall i, j :: 0 <= i < j < |Languages| ==> LexLess(Languages[i], Languages[j])
    ensures forall i, j :: 0 <= i < |Languages| && 0 <= j < |Languages| && i != j ==> Languages[i] != Languages[j]
  {
    LanguagesAdjacent();
    forall i, j | 0 <= i < j < |Languages| ensures LexLess(Languages[i], Languages[j]) {
      var k := i + 1;
      while k < j
        invariant i < k <= j
        invariant LexLess(Languages[i], Languages[k])
      {
        LexLessTransitive(Languages[i], Languages[k], Languages[k + 1]);
        k := k + 1;
      }
    }
    forall i, j | 0 <= i < |Languages| && 0 <= j < |Languages| && i != j ensures Languages[i] != Languages[j] {
      if Languages[i] == Languages[j] {
        LexLessIrreflexive(Languages[i]);
        assert false;
      }
    }
  }

  /**
   * `model_call` followed by `flatten()`: the classifier, a function from
   * the encoded text to one score per label.
   */
  type Model = seq<int> -> seq<real>

  /** `np.argmax`: the first index holding the greatest score. */
  function ArgMax(xs: seq<real>): (i: nat)
    requires |xs| > 0
    ensures i < |xs|
    ensures forall j :: 0 <= j < |xs| ==> xs[j] <= xs[i]
    ensures forall j :: 0 <= j < i ==> xs[j] < xs[i]
    decreases |xs|
  {
    if |xs| == 1 then 0
    else
      var k := ArgMax(xs[..|xs| - 1]);
      if xs[|xs| - 1] > xs[k] then |xs| - 1 else k
  }

  /** The first greatest score is at one index only: the contract of ArgMax fixes it. */
  lemma ArgMaxUnique(xs: seq<real>, i: nat)
    requires i < |xs|
    requires forall j :: 0 <= j < |xs| ==> xs[j] <= xs[i]
    requires forall j :: 0 <= j < i ==> xs[j] < xs[i]
    ensures ArgMax(xs) == i
  {
  }

  /** `np.max`: the greatest score. */
  function MaxScore(xs: seq<real>): (m: real)
    requires |xs| > 0
    ensures exists j :: 0 <= j < |xs| && xs[j] == m
    ensures forall j :: 0 <= j < |xs| ==> xs[j] <= m
    decreases |xs|
  {
    if |xs| == 1 then xs[0]
    else
      var m := MaxScore(xs[..|xs| - 1]);
      assert forall j :: 0 <= j < |xs| - 1 ==> xs[..|xs| - 1][j] == xs[j];
      if xs[|xs| - 1] > m then xs[|xs| - 1] else m
  }

  /** The reported confidence is the score of the reported label. */
  lemma MaxScoreAtArgMax(xs: seq<real>)
    requires |xs| > 0
    ensures MaxScore(xs) == xs[ArgMax(xs)]
  {
  }

  /** `identify_lang`: validate, `normalize_text`, `str_to_codes` at its default length, classify, pick the label. */
  function IdentifyLang(h: Handler, u: Transliterator, model: Model, text: string): (r: Result<Prediction, HandlerError>)
    ensures |text| < h.minLen ==> r == Err(InputValidationErr(h.minLen))
    ensures var out := model(StrToCodes(NormalizeText(u, text), MaxTextLen));
      r.Ok? <==> |text| >= h.minLen && |out| > 0 && ArgMax(out) < |Languages|
    ensures var out := model(StrToCodes(NormalizeText(u, text), MaxTextLen));
      r.Ok? ==>
        exists i :: 0 <= i < |out| && i < |Languages|
          && r.value.language == Languages[i] && r.value.confidence == out[i]
          && (forall j :: 0 <= j < |out| ==> out[j] <= out[i])
          && (forall j :: 0 <= j < i ==> out[j] < out[i])
    ensures var out := model(StrToCodes(NormalizeText(u, text), MaxTextLen));
      |text| >= h.minLen && |out| == 0 ==> r == Err(EmptyModelOutput)
    ensures var out := model(StrToCodes(NormalizeText(u, text), MaxTextLen));
      |text| >= h.minLen && |out| > 0 && ArgMax(out) >= |Languages| ==> r == Err(LabelOutOfRange(ArgMax(out)))
    ensures r.Err? && r.error.InputValidationErr? ==> |text| < h.minLen
  {
    match ValidateInput(h, text)
    case Err(e) => Err(e)
    case Ok(_) =>
      var codes := StrToCodes(NormalizeText(u, text), MaxTextLen);
      var out := model(codes);
      if |out| == 0 then Err(EmptyModelOutput)
      else
        var conf := MaxScore(out);
        var idx := ArgMax(out);
        if idx < |Languages| then
          MaxScoreAtArgMax(out);
          Ok(Prediction(Languages[idx], conf))
        else Err(LabelOutOfRange(idx))
  }

  /** A refused text never reaches normalization, encoding or the classifier. */
  lemma RefusedBeforeModel(h: Handler, u1: Transliterator, u2: Transliterator, m1: Model, m2: Model, text: string)
    requires |text| < h.minLen
    ensures IdentifyLang(h, u1, m1, text) == IdentifyLang(h, u2, m2, text) == Err(InputValidationErr(h.minLen))
  {
  }

  /**
   * Validation looks at the raw text: eight separators pass the default
   * check although they normalize to a single space.
   */
  lemma RawLengthIsChecked(u: Transliterator, text: string)
    requires |text| >= DefaultMinLen
    requires forall i :: 0 <= i < |text| ==> IsSeparator(text[i])
    requires u(text) == text
    ensures ValidateInput(NewHandler(), text).Ok?
    ensures NormalizeText(u, text) == " "
  {
    CollapseOfRun(text);
  }

  /** `pad_length` is stored but not passed on: the encoding always uses `MAX_TEXT_LEN`. */
  lemma PadLengthIgnored(p1: int, p2: int, minLen: int, u: Transliterator, model: Model, text: string)
    ensures IdentifyLang(Handler(p1, minLen), u, model, text) == IdentifyLang(Handler(p2, minLen), u, model, text)
  {
  }

  /** With scores for the six labels, an accepted text always gets one of them. */
  lemma SixScoresAlwaysLabel(h: Handler, u: Transliterator, model: Model, text: string)
    requires |text| >= h.minLen
    requires |model(StrToCodes(NormalizeText(u, text), MaxTextLen))| == |Languages|
    ensures IdentifyLang(h, u, model, text).Ok?
  {
  }

  /**
   * An example of a tie: of the two equal top scores the earlier label wins.
   * The general rule is ArgMax's last ensures (every earlier score is strictly smaller).
   */
  lemma TieGoesToFirstLabel()
    ensures ArgMax([0.1, 0.4, 0.4, 0.05, 0.05, 0.0]) == 1
  {
    ArgMaxUnique([0.1, 0.4, 0.4, 0.05, 0.05, 0.0], 1);
  }
}
