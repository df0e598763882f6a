/**
 * The serving-side text utilities of service/server/app/core/utils.py:
 * `normalize_text` (transliterate, collapse separator runs, truncate) and
 * `str_to_codes` (code points of a prefix, left-padded with zeros).
 */
module ServerUtils {
  import opened Wrappers
  import opened Canonical

  /**
   * `constants.MAX_TEXT_LEN`. The constants module is not part of this
   * model. Most lemmas hold for any value; NormalizeKeepsMarkExample needs
   * at least 3 and SrcHandlers.RawLengthIsChecked at least 1.
   */
  const MaxTextLen: nat := 256

  function Min(a: int, b: int): int { if a <= b then a else b }

  function Max(a: int, b: int): int { if a >= b then a else b }

  /** `normalize_text`: the collapsed transliteration, cut to `MAX_TEXT_LEN` characters. */
  function NormalizeText(u: Transliterator, text: string): (r: string)
    ensures |r| == Min(|Collapse(u(text))|, MaxTextLen)
    ensures r == Collapse(u(text))[..|r|]
  {
    var clean := Collapse(u(text));
    if |clean| <= MaxTextLen then clean else clean[..MaxTextLen]
  }

  /** A prefix of collapsed text is collapsed text. */
  lemma CollapsedPrefix(s: string, n: nat)
    requires Collapsed(s) && n <= |s|
    ensures Collapsed(s[..n])
  {
    var p := s[..n];
    forall i | 0 <= i < |p| - 1 && p[i] == ' ' ensures p[i + 1] != ' ' {
      assert s[i] == ' ';
    }
  }

  /**
   * The normalized text has the collapsed shape (only ' ' among the
   * separators, never two in a row) and is never longer than the input
   * or than `MAX_TEXT_LEN`.
   */
  lemma NormalizeTextShape(u: Transliterator, text: string)
    ensures Collapsed(NormalizeText(u, text))
    ensures |NormalizeText(u, text)| <= MaxTextLen && |NormalizeText(u, text)| <= |u(text)|
  {
    var clean := Collapse(u(text));
    CollapsedPrefix(clean, |NormalizeText(u, text)|);
  }

  /**
   * When nothing is cut, `!` and `?` and every other character outside the
   * separator class reach the model unchanged: unlike the dataset builder,
   * the serving path does not rewrite marks.
   */
  lemma NormalizeTextKeepsOthers(u: Transliterator, text: string)
    requires |Collapse(u(text))| <= MaxTextLen
    ensures Kept(NormalizeText(u, text)) == Kept(u(text))
  {
    CollapseKeepsOthers(u(text));
  }

  /** The training text and the serving text agree up to the mark rewrite and the cut. */
  lemma TrainServeAgree(u: Transliterator, text: string)
    ensures var served := NormalizeText(u, text);
      ReplaceMarks(served) == ReplaceMarks(Collapse(u(text)))[..|served|]
  {
    var clean := Collapse(u(text));
    var served := NormalizeText(u, text);
    var n := |served|;
    assert ReplaceMarks(served) == ReplaceMarks(clean)[..n] by {
      forall i | 0 <= i < n ensures ReplaceMarks(served)[i] == ReplaceMarks(clean)[..n][i] {
        assert served[i] == clean[i];
      }
    }
  }

  /** Python's `text[:n]`: a negative stop counts from the end. */
  function SliceTo(s: string, n: int): (r: string)
    ensures |r| == if n >= 0 then Min(n, |s|) else Max(0, |s| + n)
    ensures r == s[..|r|]
  {
    if n >= 0 then (if n <= |s| then s[..n] else s)
    else if |s| + n >= 0 then s[..|s| + n]
    else []
  }

  /** `[0 for _ in range(k)]`: empty when `k <= 0`. */
  function ZeroList(k: int): (r: seq<int>)
    ensures |r| == Max(0, k)
    ensures forall i :: 0 <= i < |r| ==> r[i] == 0
  {
    seq(Max(0, k), i => 0)
  }

  /** `ord` of each character, in order. */
  function Ords(s: string): (r: seq<int>)
    ensures |r| == |s|
    ensures forall i :: 0 <= i < |s| ==> r[i] == s[i] as int
  {
    seq(|s|, i requires 0 <= i < |s| => s[i] as int)
  }

  /** `str_to_codes`: code points of `text[:pad_length]`, left-padded with zeros to `pad_length`. */
  function StrToCodes(text: string, padLength: int): (r: seq<int>)
    ensures padLength >= 0 ==> |r| == padLength
    ensures padLength < 0 ==> r == Ords(SliceTo(text, padLength))
    ensures forall i :: 0 <= i < |r| ==> r[i] >= 0
  {
    var codes := Ords(SliceTo(text, padLength));
    ZeroList(padLength - |codes|) + codes
  }

  /**
   * For `n >= 0`: the first `n - min(|text|, n)` codes are zero and the
   * rest are the code points of `text[:n]`, in order; the tail of a long
   * text is what is dropped.
   */
  lemma StrToCodesLayout(text: string, n: int)
    requires n >= 0
    ensures var r, k := StrToCodes(text, n), Min(|text|, n);
      (forall i :: 0 <= i < n - k ==> r[i] == 0)
      && (forall i :: n - k <= i < n ==> r[i] == text[i - (n - k)] as int)
  {
  }

  lemma StrToCodesExample()
    ensures StrToCodes("hi", 5) == [0, 0, 0, 104, 105]
  {
    var r := StrToCodes("hi", 5);
    StrToCodesLayout("hi", 5);
    assert r[3] == 'h' as int && r[4] == 'i' as int;
  }

  /** Drops the zeros at the front of a code list. */
  function DropLeadingZeros(codes: seq<int>): (r: seq<int>)
    ensures |r| <= |codes| && r == codes[|codes| - |r|..]
    ensures r == [] || r[0] != 0
    ensures forall i :: 0 <= i < |codes| - |r| ==> codes[i] == 0
  {
    if codes != [] && codes[0] == 0 then
      var r := DropLeadingZeros(codes[1..]);
      assert codes[1..][|codes| - 1 - |r|..] == codes[|codes| - |r|..];
      assert forall i :: 1 <= i < |codes| - |r| ==> codes[i] == codes[1..][i - 1];
      r
    else codes
  }

  /** `chr`, defined on the Unicode scalar values. */
  function Chr(k: int): (r: Option<char>)
    ensures r.Some? ==> r.value as int == k
    ensures (0 <= k < 0xD800 || 0xE000 <= k < 0x11_0000) ==> r.Some?
  {
    if 0 <= k < 0xD800 || 0xE000 <= k < 0x11_0000 then Some(k as char) else None
  }

  /** `chr` of each code, failing if any code is not a character. */
  function Chrs(codes: seq<int>): Option<string> {
    if codes == [] then Some([])
    else match (Chrs(codes[..|codes| - 1]), Chr(codes[|codes| - 1]))
      case (Some(s), Some(c)) => Some(s + [c])
      case _ => None
  }

  lemma {:induction false} ChrsOfOrds(s: string)
    ensures Chrs(Ords(s)) == Some(s)
    decreases |s|
  {
    if s != [] {
      var n := |s| - 1;
      ChrsOfOrds(s[..n]);
      assert Ords(s)[..n] == Ords(s[..n]);
      assert s == s[..n] + [s[n]];
    }
  }

  lemma {:induction false} DropZerosBeforeNonzero(zeros: seq<int>, rest: seq<int>)
    requires forall i :: 0 <= i < |zeros| ==> zeros[i] == 0
    requires rest == [] || rest[0] != 0
    ensures DropLeadingZeros(zeros + rest) == rest
    decreases |zeros|
  {
    if zeros == [] {
      assert zeros + rest == rest;
    } else {
      assert (zeros + rest)[1..] == zeros[1..] + rest;
      DropZerosBeforeNonzero(zeros[1..], rest);
    }
  }

  /** Text without NUL that fits in the pad length is recovered from its codes. */
  lemma StrToCodesRoundTrip(text: string, n: int)
    requires |text| <= n
    requires forall i :: 0 <= i < |text| ==> text[i] as int != 0
    ensures Chrs(DropLeadingZeros(StrToCodes(text, n))) == Some(text)
  {
    var codes := Ords(SliceTo(text, n));
    assert SliceTo(text, n) == text;
    DropZerosBeforeNonzero(ZeroList(n - |codes|), codes);
    ChrsOfOrds(text);
  }

  /**
   * Encoding normalized text at the default pad length never truncates:
   * the model sees every normalized character, after the zero padding.
   */
  lemma EncodeNormalizedKeepsAll(u: Transliterator, text: string)
    ensures var t := NormalizeText(u, text);
      var r := StrToCodes(t, MaxTextLen);
      |r| == MaxTextLen
      && (forall i :: 0 <= i < MaxTextLen - |t| ==> r[i] == 0)
      && r[MaxTextLen - |t|..] == Ords(t)
  {
    var t := NormalizeText(u, text);
    assert SliceTo(t, MaxTextLen) == t;
  }

  /** The mark survives normalization: "ok!" is served as "ok!". */
  lemma NormalizeKeepsMarkExample(u: Transliterator)
    requires u("ok!") == "ok!"
    ensures NormalizeText(u, "ok!") == "ok!"
  {
    CollapseKeptExample(u("ok!"));
  }
}
