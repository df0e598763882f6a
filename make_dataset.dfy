/**
 * The offline dataset builder of data-preparation/make_dataset.py: text
 * canonicalisation, sentence segmentation with a length filter, the output
 * file name, the train/test partition of one language's table and the loop
 * over the language tables.
 *
 * File output is modelled as returned values: a written file is its name
 * and the lines written to it, a language's output is its two lists of
 * files (train and test) in file-number order.
 */
module MakeDataset {
  import opened Chars
  import opened Wrappers
  import opened Canonical

  /** `LANG_FILES`: csv name and language name, in the dict's insertion order. */
  const LangFiles: seq<(string, string)> := [
    ("ted_talks_en.csv", "English"),
    ("ted_talks_fr.csv", "French"),
    ("ted_talks_it.csv", "Italian"),
    ("ted_talks_pt-br.csv", "Portuguese"),
    ("ted_talks_es.csv", "Spanish"),
    ("ted_talks_tr.csv", "Turkish")
  ]

  /** `RANDOM_SEED`. */
  const RandomSeed: int := 12345

  /** Defaults of `save_text` and `process_file`. */
  const DefaultMinLength: int := 64
  const DefaultMaxLength: int := 128
  const DefaultRatio: int := 5

  // ---------------------------------------------------------------------
  // process_text
  // ---------------------------------------------------------------------

  /** The two substitutions of `process_text`, applied after transliteration. */
  function Rewrite(s: string): (r: string)
    ensures |r| <= |s|
    ensures forall i :: 0 <= i < |r| ==> !IsMark(r[i])
  {
    ReplaceMarks(Collapse(s))
  }

  /** Rewriting leaves collapsed text and keeps ASCII text ASCII. */
  lemma RewriteShape(s: string)
    ensures Collapsed(Rewrite(s))
    ensures AllAscii(s) ==> AllAscii(Rewrite(s))
  {
    ReplaceMarksKeepsCollapsed(Collapse(s));
    if AllAscii(s) {
      ReplaceMarksKeepsAscii(Collapse(s));
    }
  }

  /** `process_text`: transliterate, then the two substitutions. */
  function ProcessText(u: Transliterator, text: string): (r: string)
    ensures |r| <= |u(text)|
    ensures forall i :: 0 <= i < |r| ==> !IsMark(r[i])
  {
    Rewrite(u(text))
  }

  /** The rewrite pass is idempotent. */
  lemma RewriteIdempotent(s: string)
    ensures Rewrite(Rewrite(s)) == Rewrite(s)
  {
    var r := Rewrite(s);
    RewriteShape(s);
    CollapseFixpoint(r);
    assert ReplaceMarks(r) == r;
  }

  /**
   * `process_text` is idempotent, given only that the transliteration makes
   * this text ASCII and leaves ASCII text alone.
   */
  lemma ProcessTextIdempotent(u: Transliterator, text: string)
    requires IdentityOnAscii(u)
    requires AllAscii(u(text))
    ensures ProcessText(u, ProcessText(u, text)) == ProcessText(u, text)
  {
    var p := ProcessText(u, text);
    RewriteShape(u(text));
    assert u(p) == p;
    RewriteIdempotent(u(text));
  }

  /**
   * What is left after `process_text`: no `!` or `?`, no separator but the
   * plain space, never two spaces in a row, hence no newline either.
   */
  lemma ProcessTextShape(u: Transliterator, text: string)
    ensures forall i :: 0 <= i < |ProcessText(u, text)| ==>
      !IsMark(ProcessText(u, text)[i])
      && (IsSeparator(ProcessText(u, text)[i]) ==> ProcessText(u, text)[i] == ' ')
      && ProcessText(u, text)[i] != '\n'
    ensures forall i :: 0 <= i < |ProcessText(u, text)| - 1 && ProcessText(u, text)[i] == ' ' ==>
      ProcessText(u, text)[i + 1] != ' '
  {
    var r := ProcessText(u, text);
    RewriteShape(u(text));
    forall i | 0 <= i < |r| ensures r[i] != '\n' {
      assert IsSpace('\n');
    }
  }

  /** Each mark becomes a period, one for one: "ok!" is trained on as "ok.". */
  lemma ProcessTextMarkExample(u: Transliterator, text: string)
    requires text == "ok!" && u(text) == text
    ensures ProcessText(u, text) == "ok."
  {
    CollapseKeptExample(text);
    var r := ReplaceMarks(text);
    assert r[0] == 'o' && r[1] == 'k' && r[2] == '.';
  }

  /** A run of separators becomes one space: "a, b" is trained on as "a b". */
  lemma ProcessTextRunExample(u: Transliterator, text: string)
    requires text == "a, b" && u(text) == text
    ensures ProcessText(u, text) == "a b"
  {
    assert text == ['a', ',', ' ', 'b'];
    CollapseRunExample('a', 'b');
    var c := Collapse(text);
    var r := ReplaceMarks(c);
    assert r[0] == 'a' && r[1] == ' ' && r[2] == 'b';
  }

  // ---------------------------------------------------------------------
  // save_text: segmentation and filter
  // ---------------------------------------------------------------------

  /** Length of the run of `[\w\-\s']` characters at the front of `s`. */
  function RunLength(s: string): (n: nat)
    ensures n <= |s|
    ensures forall i :: 0 <= i < n ==> IsSpanChar(s[i])
    ensures n == |s| || !IsSpanChar(s[n])
  {
    if s != [] && IsSpanChar(s[0]) then 1 + RunLength(s[1..]) else 0
  }

  predicate IsRun(r: string) {
    r != [] && forall i :: 0 <= i < |r| ==> IsSpanChar(r[i])
  }

  /** `re.findall(r"[\w\-\s']+", s)`: the maximal runs, left to right. */
  function FindAll(s: string): (runs: seq<string>)
    ensures s == [] ==> runs == []
    ensures forall k :: 0 <= k < |runs| ==> IsRun(runs[k])
    decreases |s|
  {
    if s == [] then []
    else if !IsSpanChar(s[0]) then FindAll(s[1..])
    else
      var n := RunLength(s);
      [s[..n]] + FindAll(s[n..])
  }

  lemma {:induction false} RunLengthAppend(x: string, y: string)
    ensures RunLength(x + y) == if RunLength(x) < |x| then RunLength(x) else |x| + RunLength(y)
    decreases |x|
  {
    if x == [] {
      assert x + y == y;
    } else {
      assert (x + y)[0] == x[0];
      if IsSpanChar(x[0]) {
        assert (x + y)[1..] == x[1..] + y;
        RunLengthAppend(x[1..], y);
      }
    }
  }

  /** A whole run is found as one match. */
  lemma FindAllOfRun(r: string)
    requires IsRun(r)
    ensures FindAll(r) == [r]
  {
    assert RunLength(r) == |r| by {
      RunLengthAppend(r, []);
      assert r + [] == r;
    }
    assert r[..|r|] == r;
  }

  /**
   * A character outside the class separates matches: no match reaches
   * across it. With FindAllOfRun and the empty case of FindAll's contract
   * this determines FindAll on every string.
   */
  lemma {:induction false} FindAllSplit(a: string, c: char, b: string)
    requires !IsSpanChar(c)
    ensures FindAll(a + [c] + b) == FindAll(a) + FindAll(b)
    decreases |a|
  {
    var cb := [c] + b;
    ConcatAssoc(a, [c], b);
    if a == [] {
      assert a + cb == cb;
      FindAllUnfoldSkip(cb);
      assert cb[1..] == b;
    } else {
      assert (a + cb)[0] == a[0];
      if !IsSpanChar(a[0]) {
        assert (a + cb)[1..] == a[1..] + cb;
        ConcatAssoc(a[1..], [c], b);
        FindAllSplit(a[1..], c, b);
        FindAllUnfoldSkip(a + cb);
        FindAllUnfoldSkip(a);
      } else {
        var n := RunLength(a);
        RunLengthAppend(a, cb);
        assert (a + cb)[..n] == a[..n];
        assert (a + cb)[n..] == a[n..] + cb;
        ConcatAssoc(a[n..], [c], b);
        FindAllSplit(a[n..], c, b);
        var head, fr, fb := a[..n], FindAll(a[n..]), FindAll(b);
        calc {
          FindAll(a + cb);
          { FindAllUnfoldRun(a + cb); }
          [head] + FindAll(a[n..] + cb);
          [head] + (fr + fb);
          ([head] + fr) + fb;
          { FindAllUnfoldRun(a); }
          FindAll(a) + fb;
        }
      }
    }
  }

  lemma FindAllUnfoldSkip(s: string)
    requires s != [] && !IsSpanChar(s[0])
    ensures FindAll(s) == FindAll(s[1..])
  {
  }

  lemma FindAllUnfoldRun(s: string)
    requires s != [] && IsSpanChar(s[0])
    ensures FindAll(s) == [s[..RunLength(s)]] + FindAll(s[RunLength(s)..])
  {
  }

  /** Every match is a piece of the input, so it has only the input's characters. */
  lemma {:induction false} FindAllCharsFromInput(s: string, k: nat, i: nat)
    requires k < |FindAll(s)| && i < |FindAll(s)[k]|
    ensures FindAll(s)[k][i] in s
    decreases |s|
  {
    if s != [] {
      if !IsSpanChar(s[0]) {
        FindAllCharsFromInput(s[1..], k, i);
      } else {
        var n := RunLength(s);
        if k > 0 {
          FindAllCharsFromInput(s[n..], k - 1, i);
        } else {
          assert FindAll(s)[0] == s[..n];
        }
      }
    }
  }

  /**
   * `r` is what `str.strip()` leaves of `s`, found at index `a`: no
   * whitespace at either end of `r`, only whitespace around it.
   */
  ghost predicate StrippedAt(s: string, r: string, a: nat) {
    a + |r| <= |s| && r == s[a..a + |r|]
    && (r == [] || (!IsSpace(r[0]) && !IsSpace(r[|r| - 1])))
    && (forall i :: 0 <= i < |s| && !(a <= i < a + |r|) ==> IsSpace(s[i]))
  }

  /** `str.strip()`: drop whitespace from the front, then from the back. */
  function Strip(s: string): (r: string)
    ensures exists a :: StrippedAt(s, r, a)
    decreases |s|
  {
    if s == [] then
      assert StrippedAt(s, s, 0);
      s
    else if IsSpace(s[0]) then
      var r := Strip(s[1..]);
      StripFront(s, r);
      r
    else if IsSpace(s[|s| - 1]) then
      var t := s[..|s| - 1];
      var r := Strip(t);
      StripBack(s, t, r);
      r
    else
      assert StrippedAt(s, s, 0) by {
        assert s[0..|s|] == s;
      }
      s
  }

  /** At most one text is `s` stripped, so the contract of `Strip` determines it. */
  lemma StrippedAtUnique(s: string, r1: string, a1: nat, r2: string, a2: nat)
    requires StrippedAt(s, r1, a1) && StrippedAt(s, r2, a2)
    ensures r1 == r2
  {
    // The ends of either result are not whitespace, so they lie inside the other.
    if r1 != [] {
      assert !IsSpace(s[a1]) && !IsSpace(s[a1 + |r1| - 1]);
      assert a2 <= a1 && a1 + |r1| <= a2 + |r2|;
    }
    if r2 != [] {
      assert !IsSpace(s[a2]) && !IsSpace(s[a2 + |r2| - 1]);
      assert a1 <= a2 && a2 + |r2| <= a1 + |r1|;
    }
  }

  /** Whitespace of any kind goes from both ends, and only from the ends. */
  lemma StripExample(s: string)
    requires s == " a b\t"
    ensures Strip(s) == "a b"
  {
    var a: nat :| StrippedAt(s, Strip(s), a);
    assert StrippedAt(s, "a b", 1) by {
      assert s[1..4] == "a b";
    }
    StrippedAtUnique(s, Strip(s), a, "a b", 1);
  }

  /** A leading space is outside the stripped text. */
  lemma StripFront(s: string, r: string)
    requires s != [] && IsSpace(s[0])
    requires exists a :: StrippedAt(s[1..], r, a)
    ensures exists a :: StrippedAt(s, r, a)
  {
    var t := s[1..];
    var a: nat :| StrippedAt(t, r, a);
    assert t[a..a + |r|] == s[a + 1..a + 1 + |r|];
    forall i | 0 <= i < |s| && !(a + 1 <= i < a + 1 + |r|) ensures IsSpace(s[i]) {
      if i > 0 {
        assert t[i - 1] == s[i];
      }
    }
    assert StrippedAt(s, r, a + 1);
  }

  /** A trailing space is outside the stripped text. */
  lemma StripBack(s: string, t: string, r: string)
    requires s != [] && IsSpace(s[|s| - 1]) && t == s[..|s| - 1]
    requires exists a :: StrippedAt(t, r, a)
    ensures exists a :: StrippedAt(s, r, a)
  {
    var a: nat :| StrippedAt(t, r, a);
    assert t[a..a + |r|] == s[a..a + |r|];
    forall i | 0 <= i < |s| && !(a <= i < a + |r|) ensures IsSpace(s[i]) {
      if i < |s| - 1 {
        assert t[i] == s[i];
      }
    }
    assert StrippedAt(s, r, a);
  }

  predicate Qualifies(stripped: string, minLength: int, maxLength: int) {
    maxLength >= |stripped| >= minLength
  }

  /** What one match contributes to the file. */
  function LineFor(run: string, minLength: int, maxLength: int): seq<string> {
    var stripped := Strip(run);
    if Qualifies(stripped, minLength, maxLength) then [stripped + "\n"] else []
  }

  /** The lines written for the matches `runs`, in order. */
  function KeptLines(runs: seq<string>, minLength: int, maxLength: int): seq<string>
    decreases |runs|
  {
    if runs == [] then []
    else KeptLines(runs[..|runs| - 1], minLength, maxLength) + LineFor(runs[|runs| - 1], minLength, maxLength)
  }

  /** The lines follow the matches in order: the filter distributes over concatenation. */
  lemma {:induction false} KeptLinesAppend(xs: seq<string>, ys: seq<string>, minLength: int, maxLength: int)
    ensures KeptLines(xs + ys, minLength, maxLength) == KeptLines(xs, minLength, maxLength) + KeptLines(ys, minLength, maxLength)
    decreases |ys|
  {
    if ys == [] {
      assert xs + ys == xs;
    } else {
      var init, last := ys[..|ys| - 1], ys[|ys| - 1];
      assert ys == init + [last];
      ConcatAssoc(xs, init, [last]);
      KeptLinesSnoc(xs + init, last, minLength, maxLength);
      KeptLinesSnoc(init, last, minLength, maxLength);
      KeptLinesAppend(xs, init, minLength, maxLength);
      ConcatAssoc(KeptLines(xs, minLength, maxLength), KeptLines(init, minLength, maxLength), LineFor(last, minLength, maxLength));
    }
  }

  lemma KeptLinesSnoc(runs: seq<string>, run: string, minLength: int, maxLength: int)
    ensures KeptLines(runs + [run], minLength, maxLength) == KeptLines(runs, minLength, maxLength) + LineFor(run, minLength, maxLength)
  {
    assert (runs + [run])[..|runs|] == runs;
  }

  /**
   * Each written line is a stripped match, of a length within the bounds,
   * followed by one newline.
   */
  lemma {:induction false} KeptLinesShape(runs: seq<string>, minLength: int, maxLength: int, j: nat)
    requires j < |KeptLines(runs, minLength, maxLength)|
    ensures var line := KeptLines(runs, minLength, maxLength)[j];
      |line| >= 1 && line[|line| - 1] == '\n'
      && minLength <= |line| - 1 <= maxLength
      && exists k :: 0 <= k < |runs| && line == Strip(runs[k]) + "\n"
    decreases |runs|
  {
    var init, last := runs[..|runs| - 1], runs[|runs| - 1];
    var prev := KeptLines(init, minLength, maxLength);
    var lines := KeptLines(runs, minLength, maxLength);
    assert lines == prev + LineFor(last, minLength, maxLength);
    if j < |prev| {
      KeptLinesShape(init, minLength, maxLength, j);
      var k :| 0 <= k < |init| && prev[j] == Strip(init[k]) + "\n";
      assert lines[j] == prev[j] && runs[k] == init[k];
    } else {
      var stripped := Strip(last);
      assert Qualifies(stripped, minLength, maxLength);
      assert lines[j] == stripped + "\n";
      assert runs[|runs| - 1] == last;
    }
  }

  /**
   * Each match is judged on its own, in place: match `k` contributes its
   * stripped text plus "\n" exactly when that text is within the bounds,
   * and nothing otherwise, between the lines of the matches before and after it.
   */
  lemma KeptLinesAt(runs: seq<string>, k: nat, minLength: int, maxLength: int)
    requires k < |runs|
    ensures var stripped := Strip(runs[k]);
      KeptLines(runs, minLength, maxLength)
      == KeptLines(runs[..k], minLength, maxLength)
         + (if maxLength >= |stripped| >= minLength then [stripped + "\n"] else [])
         + KeptLines(runs[k + 1..], minLength, maxLength)
  {
    var before, after := runs[..k], runs[k + 1..];
    assert runs == before + [runs[k]] + after;
    KeptLinesAppend(before + [runs[k]], after, minLength, maxLength);
    KeptLinesSnoc(before, runs[k], minLength, maxLength);
  }

  /** A text that is one qualifying match, with no space at its ends, is written as exactly one line. */
  lemma SavedTextOneLineExample(text: string, fileNumber: int, minLength: int, maxLength: int)
    requires IsRun(text) && !IsSpace(text[0]) && !IsSpace(text[|text| - 1])
    requires minLength <= |text| <= maxLength
    ensures SavedText(text, fileNumber, minLength, maxLength).lines == [text + "\n"]
  {
    FindAllOfRun(text);
    assert Strip(text) == text by {
      assert StrippedAt(text, text, 0) by { assert text[0..|text|] == text; }
      var a: nat :| StrippedAt(text, Strip(text), a);
      StrippedAtUnique(text, text, 0, Strip(text), a);
    }
    KeptLinesAt([text], 0, minLength, maxLength);
  }

  /** No qualifying match: the file is created and left empty. */
  lemma {:induction false} NothingQualifiesEmptyFile(runs: seq<string>, minLength: int, maxLength: int)
    requires forall k :: 0 <= k < |runs| ==> !Qualifies(Strip(runs[k]), minLength, maxLength)
    ensures KeptLines(runs, minLength, maxLength) == []
    decreases |runs|
  {
    if runs != [] {
      NothingQualifiesEmptyFile(runs[..|runs| - 1], minLength, maxLength);
    }
  }

  /**
   * For canonical text (no newline inside) every written line is one line
   * of the file: its only newline is the terminating one.
   */
  lemma ProcessedLinesAreSingleLines(u: Transliterator, text: string, minLength: int, maxLength: int, j: nat)
    requires j < |KeptLines(FindAll(ProcessText(u, text)), minLength, maxLength)|
    ensures var line := KeptLines(FindAll(ProcessText(u, text)), minLength, maxLength)[j];
      forall i :: 0 <= i < |line| - 1 ==> line[i] != '\n'
  {
    var p := ProcessText(u, text);
    var runs := FindAll(p);
    var line := KeptLines(runs, minLength, maxLength)[j];
    KeptLinesShape(runs, minLength, maxLength, j);
    var k :| 0 <= k < |runs| && line == Strip(runs[k]) + "\n";
    assert '\n' !in p by {
      ProcessTextShape(u, text);
    }
    forall x | 0 <= x < |runs[k]| ensures runs[k][x] != '\n' {
      FindAllCharsFromInput(p, k, x);
    }
    StrippedHasNoNewline(runs[k]);
  }

  lemma StrippedHasNoNewline(run: string)
    requires forall x :: 0 <= x < |run| ==> run[x] != '\n'
    ensures forall i :: 0 <= i < |Strip(run)| ==> Strip(run)[i] != '\n'
  {
    var a: nat :| StrippedAt(run, Strip(run), a);
    forall i | 0 <= i < |Strip(run)| ensures Strip(run)[i] != '\n' {
      assert Strip(run)[i] == run[a + i];
    }
  }

  // ---------------------------------------------------------------------
  // save_text: the file name f"text-{file_number:05d}.txt"
  // ---------------------------------------------------------------------

  function DigitChar(d: nat): (c: char)
    requires d < 10
    ensures IsDigit(c)
  {
    ('0' as int + d) as char
  }

  /** Decimal digits of `n`, most significant first, no leading zero. */
  function Decimal(n: nat): (s: string)
    ensures |s| >= 1
    ensures forall i :: 0 <= i < |s| ==> IsDigit(s[i])
  {
    if n < 10 then [DigitChar(n)] else Decimal(n / 10) + [DigitChar(n % 10)]
  }

  /** The number a string of decimal digits denotes. */
  function DecimalValue(s: string): int
    requires forall i :: 0 <= i < |s| ==> IsDigit(s[i])
  {
    if s == [] then 0 else 10 * DecimalValue(s[..|s| - 1]) + (s[|s| - 1] as int - '0' as int)
  }

  function Zeros(n: nat): (z: string)
    ensures |z| == n && forall i :: 0 <= i < n ==> z[i] == '0'
  {
    if n == 0 then [] else Zeros(n - 1) + "0"
  }

  /** Left-pads with '0' to `width`; never shortens. */
  function ZeroPad(s: string, width: nat): (r: string)
    ensures |r| == if |s| >= width then |s| else width
    ensures r == Zeros(|r| - |s|) + s
  {
    if |s| >= width then Zeros(0) + s else Zeros(width - |s|) + s
  }

  /** Python's `format(n, "05d")`: the sign counts towards the width of five. */
  function Format05d(n: int): string {
    if n < 0 then "-" + ZeroPad(Decimal(-n), 4) else ZeroPad(Decimal(n), 5)
  }

  function FileName(fileNumber: int): string {
    "text-" + Format05d(fileNumber) + ".txt"
  }

  lemma {:induction false} DecimalValueOfDecimal(n: nat)
    ensures DecimalValue(Decimal(n)) == n
  {
    if n >= 10 {
      var s := Decimal(n);
      assert s[..|s| - 1] == Decimal(n / 10);
      DecimalValueOfDecimal(n / 10);
    }
  }

  lemma {:induction false} DecimalValueZeroPrefix(k: nat, s: string)
    requires forall i :: 0 <= i < |s| ==> IsDigit(s[i])
    ensures forall i :: 0 <= i < |Zeros(k) + s| ==> IsDigit((Zeros(k) + s)[i])
    ensures DecimalValue(Zeros(k) + s) == DecimalValue(s)
    decreases |s| + k
  {
    var z := Zeros(k) + s;
    if s == [] {
      assert z == Zeros(k);
      if k > 0 {
        assert z[..|z| - 1] == Zeros(k - 1) + [];
        DecimalValueZeroPrefix(k - 1, []);
      }
    } else {
      var init := s[..|s| - 1];
      assert z[..|z| - 1] == Zeros(k) + init;
      assert z[|z| - 1] == s[|s| - 1];
      DecimalValueZeroPrefix(k, init);
    }
  }

  lemma {:induction false} DecimalShort(n: nat, width: nat, bound: nat)
    requires width >= 1 && n < bound && bound == Pow10(width)
    ensures |Decimal(n)| <= width
    decreases width
  {
    if n >= 10 {
      assert Pow10(1) == 10;
      DecimalShort(n / 10, width - 1, Pow10(width - 1));
    }
  }

  function Pow10(k: nat): nat {
    if k == 0 then 1 else 10 * Pow10(k - 1)
  }

  /**
   * The number part of the file name: all digits, exactly five of them below
   * 100000, at least five otherwise, and it reads back as the number, so
   * nothing is cut off.
   */
  lemma FileNumberRoundTrip(n: nat)
    ensures var f := Format05d(n);
      (forall i :: 0 <= i < |f| ==> IsDigit(f[i]))
      && |f| >= 5 && (n < 100000 ==> |f| == 5)
      && DecimalValue(f) == n
  {
    var d := Decimal(n);
    var f := ZeroPad(d, 5);
    assert Format05d(n) == f;
    assert f == Zeros(|f| - |d|) + d;
    DecimalValueOfDecimal(n);
    DecimalValueZeroPrefix(|f| - |d|, d);
    if n < 100000 {
      DecimalShort(n, 5, 100000);
    }
  }

  /** The name always has the form text-NNNNN.txt around the formatted number. */
  lemma FileNameShape(n: int)
    ensures FileName(n)[..5] == "text-"
    ensures FileName(n)[|FileName(n)| - 4..] == ".txt"
    ensures FileName(n)[5..|FileName(n)| - 4] == Format05d(n)
  {
  }

  lemma FileNameExamples()
    ensures FileName(7) == "text-00007.txt"
    ensures FileName(-3) == "text--0003.txt"
  {
    assert Decimal(7) == "7";
    assert Decimal(3) == "3";
    assert Zeros(4) == "0000";
    assert Zeros(3) == "000";
  }

  // ---------------------------------------------------------------------
  // save_text: the file
  // ---------------------------------------------------------------------

  /** A written text file: its name and its lines, each ending in "\n". */
  datatype TextFile = TextFile(name: string, lines: seq<string>)

  /** The file `save_text` leaves behind. */
  function SavedText(text: string, fileNumber: int, minLength: int, maxLength: int): TextFile {
    TextFile(FileName(fileNumber), KeptLines(FindAll(text), minLength, maxLength))
  }

  method SaveText(textProcessed: string, fileNumber: int, minLength: int, maxLength: int)
    returns (f: TextFile)
    ensures f == SavedText(textProcessed, fileNumber, minLength, maxLength)
  {
    var fpath := FileName(fileNumber);
    var written: seq<string> := [];
    var matches := FindAll(textProcessed);
    for k := 0 to |matches|
      invariant written == KeptLines(matches[..k], minLength, maxLength)
    {
      assert matches[..k + 1][..k] == matches[..k];
      var stripped := Strip(matches[k]);
      if maxLength >= |stripped| >= minLength {
        written := written + [stripped + "\n"];
      }
    }
    assert matches[..|matches|] == matches;
    f := TextFile(fpath, written);
  }

  // ---------------------------------------------------------------------
  // process_file: the train/test partition
  // ---------------------------------------------------------------------

  /** `range(n)` as a sequence. */
  function Range(n: nat): (r: seq<nat>)
    ensures |r| == n && forall i :: 0 <= i < n ==> r[i] == i
  {
    if n == 0 then [] else Range(n - 1) + [n - 1]
  }

  /** `perm` lists each of 0 .. n-1 exactly once. */
  predicate IsPermutation(perm: seq<nat>, n: nat) {
    |perm| == n
    && (forall j :: 0 <= j < |perm| ==> perm[j] < n)
    && multiset(perm) == multiset(Range(n))
  }

  /** The row indices sent to each split, in the order they are visited. */
  datatype Routing = Routing(train: seq<nat>, test: seq<nat>)

  /** Routing of `perm`, walked 1-based: position p goes to test iff p % ratio == 0. */
  function Assign(perm: seq<nat>, ratio: int): (r: Routing)
    requires ratio != 0
    ensures |r.train| + |r.test| == |perm|
    decreases |perm|
  {
    if perm == [] then Routing([], [])
    else
      var prev := Assign(perm[..|perm| - 1], ratio);
      var last := perm[|perm| - 1];
      if |perm| % ratio == 0 then Routing(prev.train, prev.test + [last])
      else Routing(prev.train + [last], prev.test)
  }

  function Abs(x: int): nat {
    if x < 0 then -x else x
  }

  /** Dafny's `%` and Python's `%` agree on divisibility, for either sign of the ratio. */
  lemma DivisibleIffAbs(p: int, ratio: int)
    requires ratio != 0
    ensures p % ratio == 0 <==> p % Abs(ratio) == 0
  {
    if ratio < 0 {
      if p % ratio == 0 {
        DivUnique(p, Abs(ratio), -(p / ratio), 0);
      }
      if p % Abs(ratio) == 0 {
        DivUnique(p, ratio, -(p / Abs(ratio)), 0);
      }
    }
  }

  lemma MulAtLeast(d: int, k: int)
    requires d > 0 && k >= 1
    ensures d * k >= d
  {
  }

  lemma Distrib(d: int, y: int, k: int)
    ensures d * (y + k) == d * y + d * k
  {
  }

  lemma MulGap(d: int, x: int, y: int)
    requires d != 0 && x > y
    ensures Abs(d * x - d * y) >= Abs(d)
  {
    var k := x - y;
    Distrib(d, y, k);
    assert d * x - d * y == d * k;
    MulAtLeast(Abs(d), k);
    if d < 0 {
      Distrib(-d, 0, k);
      assert (-d) * k == -(d * k);
    }
  }

  /** Quotient and remainder are unique (Dafny's division is Euclidean). */
  lemma DivUnique(p: int, d: int, q: int, r: int)
    requires d != 0 && p == d * q + r && 0 <= r < Abs(d)
    ensures p / d == q && p % d == r
  {
    var q', r' := p / d, p % d;
    if q > q' {
      MulGap(d, q, q');
    } else if q < q' {
      MulGap(d, q', q);
    }
  }

  /** One more position adds one to the multiples count exactly when it is a multiple. */
  lemma CountStep(n: nat, k: nat)
    requires k > 0
    ensures (n + 1) / k == n / k + (if (n + 1) % k == 0 then 1 else 0)
  {
    var q, r := n / k, n % k;
    if r + 1 == k {
      DivUnique(n + 1, k, q + 1, 0);
    } else {
      DivUnique(n + 1, k, q, r + 1);
    }
  }

  /** After n items, test holds n / |ratio| of them and train the rest. */
  lemma {:induction false} AssignCounts(perm: seq<nat>, ratio: int)
    requires ratio != 0
    ensures |Assign(perm, ratio).test| == |perm| / Abs(ratio)
    ensures |Assign(perm, ratio).train| == |perm| - |perm| / Abs(ratio)
    decreases |perm|
  {
    if perm != [] {
      var n := |perm| - 1;
      AssignCounts(perm[..n], ratio);
      CountStep(n, Abs(ratio));
      DivisibleIffAbs(n + 1, ratio);
    }
  }

  /** Routing a longer walk extends the routing of its prefix. */
  lemma {:induction false} AssignPrefix(perm: seq<nat>, m: nat, ratio: int)
    requires ratio != 0 && m <= |perm|
    ensures Assign(perm[..m], ratio).train <= Assign(perm, ratio).train
    ensures Assign(perm[..m], ratio).test <= Assign(perm, ratio).test
    decreases |perm|
  {
    if m < |perm| {
      var init := perm[..|perm| - 1];
      assert init[..m] == perm[..m];
      AssignPrefix(init, m, ratio);
    } else {
      assert perm[..m] == perm;
    }
  }

  /**
   * The item at 1-based position p goes to test iff p % ratio == 0; it is
   * the (p / |ratio|)-th test file there and the (p - p / |ratio|)-th train
   * file otherwise.
   */
  lemma AssignPosition(perm: seq<nat>, ratio: int, j: nat)
    requires ratio != 0 && j < |perm|
    ensures var p, rt := j + 1, Assign(perm, ratio);
      if p % ratio == 0 then
        0 < p / Abs(ratio) <= |rt.test| && rt.test[p / Abs(ratio) - 1] == perm[j]
      else
        p / Abs(ratio) < p <= |rt.train| + p / Abs(ratio) && rt.train[p - p / Abs(ratio) - 1] == perm[j]
  {
    var p := j + 1;
    var pre := perm[..p];
    AssignPrefix(perm, p, ratio);
    AssignCounts(pre, ratio);
    AssignCounts(perm[..j], ratio);
    assert pre[..j] == perm[..j];
    CountStep(j, Abs(ratio));
    DivisibleIffAbs(p, ratio);
  }

  /** Every visited item lands in exactly one split: nothing lost or duplicated. */
  lemma {:induction false} AssignCovers(perm: seq<nat>, ratio: int)
    requires ratio != 0
    ensures multiset(Assign(perm, ratio).train) + multiset(Assign(perm, ratio).test) == multiset(perm)
    decreases |perm|
  {
    if perm != [] {
      var init := perm[..|perm| - 1];
      AssignCovers(init, ratio);
      assert perm == init + [perm[|perm| - 1]];
    }
  }

  lemma RangeCount(n: nat, i: nat)
    ensures multiset(Range(n))[i] == if i < n then 1 else 0
  {
    CountInIota(Range(n), i);
  }

  /** In a sequence holding 0, 1, 2, ... in order, each value below its length occurs once. */
  lemma {:induction false} CountInIota(r: seq<nat>, i: nat)
    requires forall k :: 0 <= k < |r| ==> r[k] == k
    ensures multiset(r)[i] == if i < |r| then 1 else 0
    decreases |r|
  {
    if r != [] {
      var prev := r[..|r| - 1];
      assert r == prev + [|r| - 1];
      CountInIota(prev, i);
      MultisetSnocCount(prev, |r| - 1, i);
    }
  }

  lemma MultisetSnocCount(s: seq<nat>, x: nat, i: nat)
    ensures multiset(s + [x])[i] == multiset(s)[i] + if x == i then 1 else 0
  {
    assert multiset(s + [x]) == multiset(s) + multiset([x]);
  }

  /** With a shuffled index, each row of the table is processed exactly once. */
  lemma EachRowOnce(perm: seq<nat>, n: nat, ratio: int, i: nat)
    requires ratio != 0 && IsPermutation(perm, n)
    ensures multiset(Assign(perm, ratio).train + Assign(perm, ratio).test)[i] == if i < n then 1 else 0
  {
    AssignCovers(perm, ratio);
    RangeCount(n, i);
  }

  // ---------------------------------------------------------------------
  // process_file: the files of one language
  // ---------------------------------------------------------------------

  /** The numpy shuffle, seen as a function of the seed and the table size. */
  type Shuffler = (int, nat) -> seq<nat>

  /** The output of one language: its train and test files in file-number order. */
  datatype LanguageOutput = LanguageOutput(language: string, train: seq<TextFile>, test: seq<TextFile>)

  datatype DatasetError =
    | InputDirNotFound   // FileNotFoundError from prepare_dataset
    | ZeroRatio          // ZeroDivisionError from `fnum % train_test_ratio`

  /** The file written for row `x` of the table under file number `n`. */
  function RowFile(u: Transliterator, texts: seq<string>, x: nat, n: int): TextFile
    requires x < |texts|
  {
    SavedText(ProcessText(u, texts[x]), n, DefaultMinLength, DefaultMaxLength)
  }

  /** The files written for `rows`, numbered 1, 2, ... in order. */
  function SaveRows(u: Transliterator, texts: seq<string>, rows: seq<nat>): (files: seq<TextFile>)
    requires forall k :: 0 <= k < |rows| ==> rows[k] < |texts|
    ensures |files| == |rows|
    decreases |rows|
  {
    if rows == [] then []
    else
      SaveRows(u, texts, rows[..|rows| - 1])
      + [RowFile(u, texts, rows[|rows| - 1], |rows|)]
  }

  /** File k (0-based) of a split is row rows[k], named with the number k + 1. */
  lemma {:induction false} SaveRowsAt(u: Transliterator, texts: seq<string>, rows: seq<nat>, k: nat)
    requires forall k :: 0 <= k < |rows| ==> rows[k] < |texts|
    requires k < |rows|
    ensures SaveRows(u, texts, rows)[k]
      == SavedText(ProcessText(u, texts[rows[k]]), k + 1, DefaultMinLength, DefaultMaxLength)
    ensures SaveRows(u, texts, rows)[k].name == FileName(k + 1)
    decreases |rows|
  {
    if k < |rows| - 1 {
      SaveRowsAt(u, texts, rows[..|rows| - 1], k);
    }
  }

  /** Every routed row is below `n`. */
  predicate RoutedBelow(rt: Routing, n: nat) {
    (forall k :: 0 <= k < |rt.train| ==> rt.train[k] < n)
    && (forall k :: 0 <= k < |rt.test| ==> rt.test[k] < n)
  }

  lemma AssignBounded(perm: seq<nat>, n: nat, ratio: int)
    requires ratio != 0 && forall j :: 0 <= j < |perm| ==> perm[j] < n
    ensures RoutedBelow(Assign(perm, ratio), n)
  {
    var rt := Assign(perm, ratio);
    AssignCovers(perm, ratio);
    forall k | 0 <= k < |rt.train| ensures rt.train[k] < n {
      assert rt.train[k] in multiset(perm);
    }
    forall k | 0 <= k < |rt.test| ensures rt.test[k] < n {
      assert rt.test[k] in multiset(perm);
    }
  }

  /** One more step of the walk appends the item to the split its 1-based position picks. */
  lemma AssignSnoc(perm: seq<nat>, p: nat, ratio: int)
    requires ratio != 0 && p < |perm|
    ensures Assign(perm[..p + 1], ratio)
      == if (p + 1) % ratio == 0 then Routing(Assign(perm[..p], ratio).train, Assign(perm[..p], ratio).test + [perm[p]])
         else Routing(Assign(perm[..p], ratio).train + [perm[p]], Assign(perm[..p], ratio).test)
  {
    assert perm[..p + 1][..p] == perm[..p];
  }

  lemma SaveRowsSnoc(u: Transliterator, texts: seq<string>, rows: seq<nat>, x: nat)
    requires forall k :: 0 <= k < |rows| ==> rows[k] < |texts|
    requires x < |texts|
    ensures forall k :: 0 <= k < |rows + [x]| ==> (rows + [x])[k] < |texts|
    ensures SaveRows(u, texts, rows + [x])
      == SaveRows(u, texts, rows) + [RowFile(u, texts, x, |rows| + 1)]
  {
    assert (rows + [x])[..|rows|] == rows;
  }

  /** What `process_file` writes for one language, given the shuffled index. */
  function SplitLanguage(u: Transliterator, language: string, texts: seq<string>, perm: seq<nat>, ratio: int)
    : LanguageOutput
    requires ratio != 0 && forall j :: 0 <= j < |perm| ==> perm[j] < |texts|
  {
    var rt := Assign(perm, ratio);
    AssignBounded(perm, |texts|, ratio);
    LanguageOutput(language, SaveRows(u, texts, rt.train), SaveRows(u, texts, rt.test))
  }

  /** Appending a row below `n` to either split keeps every routed row below `n`. */
  lemma RoutedBelowSnoc(before: Routing, after: Routing, x: nat, n: nat)
    requires RoutedBelow(before, n) && x < n
    requires after == Routing(before.train, before.test + [x]) || after == Routing(before.train + [x], before.test)
    ensures RoutedBelow(after, n)
  {
  }

  /** A step of the walk at a multiple of the ratio appends the row to test. */
  lemma WalkToTest(u: Transliterator, texts: seq<string>, idx: seq<nat>, ratio: int, p: nat)
    requires ratio != 0 && forall j :: 0 <= j < |idx| ==> idx[j] < |texts|
    requires p < |idx| && (p + 1) % ratio == 0
    requires RoutedBelow(Assign(idx[..p], ratio), |texts|)
    ensures Assign(idx[..p + 1], ratio).train == Assign(idx[..p], ratio).train
    ensures Assign(idx[..p + 1], ratio).test == Assign(idx[..p], ratio).test + [idx[p]]
    ensures RoutedBelow(Assign(idx[..p + 1], ratio), |texts|)
    ensures SaveRows(u, texts, Assign(idx[..p + 1], ratio).test)
      == SaveRows(u, texts, Assign(idx[..p], ratio).test)
        + [RowFile(u, texts, idx[p], |Assign(idx[..p], ratio).test| + 1)]
  {
    var before, after := Assign(idx[..p], ratio), Assign(idx[..p + 1], ratio);
    AssignSnoc(idx, p, ratio);
    assert after == Routing(before.train, before.test + [idx[p]]);
    RoutedBelowSnoc(before, after, idx[p], |texts|);
    SaveRowsSnoc(u, texts, before.test, idx[p]);
  }

  /** Any other step appends the row to train. */
  lemma WalkToTrain(u: Transliterator, texts: seq<string>, idx: seq<nat>, ratio: int, p: nat)
    requires ratio != 0 && forall j :: 0 <= j < |idx| ==> idx[j] < |texts|
    requires p < |idx| && (p + 1) % ratio != 0
    requires RoutedBelow(Assign(idx[..p], ratio), |texts|)
    ensures Assign(idx[..p + 1], ratio).test == Assign(idx[..p], ratio).test
    ensures Assign(idx[..p + 1], ratio).train == Assign(idx[..p], ratio).train + [idx[p]]
    ensures RoutedBelow(Assign(idx[..p + 1], ratio), |texts|)
    ensures SaveRows(u, texts, Assign(idx[..p + 1], ratio).train)
      == SaveRows(u, texts, Assign(idx[..p], ratio).train)
        + [RowFile(u, texts, idx[p], |Assign(idx[..p], ratio).train| + 1)]
  {
    var before, after := Assign(idx[..p], ratio), Assign(idx[..p + 1], ratio);
    AssignSnoc(idx, p, ratio);
    assert after == Routing(before.train + [idx[p]], before.test);
    RoutedBelowSnoc(before, after, idx[p], |texts|);
    SaveRowsSnoc(u, texts, before.train, idx[p]);
  }

  /** One pass of the loop of `process_file`: `process_text` on the row, then `save_text` under number `n`. */
  method SaveRow(u: Transliterator, texts: seq<string>, x: nat, n: int) returns (f: TextFile)
    requires x < |texts|
    ensures f == RowFile(u, texts, x, n)
  {
    var processed := ProcessText(u, texts[x]);
    f := SaveText(processed, n, DefaultMinLength, DefaultMaxLength);
  }

  /**
   * The loop of `process_file` over the shuffled index: walk it 1-based,
   * send every ratio-th row to test, and number each split's files from 1
   * with its own counter.
   */
  method SaveShuffled(u: Transliterator, texts: seq<string>, idx: seq<nat>, ratio: int)
    returns (train: seq<TextFile>, test: seq<TextFile>)
    requires ratio != 0 && forall j :: 0 <= j < |idx| ==> idx[j] < |texts|
    ensures RoutedBelow(Assign(idx, ratio), |texts|)
    ensures train == SaveRows(u, texts, Assign(idx, ratio).train)
    ensures test == SaveRows(u, texts, Assign(idx, ratio).test)
  {
    train, test := [], [];
    var trainCount := 0;
    var testCount := 0;
    AssignBounded(idx[..0], |texts|, ratio);
    for p := 0 to |idx|
      invariant trainCount == |train| && testCount == |test|
      invariant RoutedBelow(Assign(idx[..p], ratio), |texts|)
      invariant train == SaveRows(u, texts, Assign(idx[..p], ratio).train)
      invariant test == SaveRows(u, texts, Assign(idx[..p], ratio).test)
    {
      var fnum, i := p + 1, idx[p];
      if fnum % ratio == 0 {
        WalkToTest(u, texts, idx, ratio, p);
        testCount := testCount + 1;
        var f := SaveRow(u, texts, i, testCount);
        test := test + [f];
      } else {
        WalkToTrain(u, texts, idx, ratio, p);
        trainCount := trainCount + 1;
        var f := SaveRow(u, texts, i, trainCount);
        train := train + [f];
      }
    }
    assert idx[..|idx|] == idx;
  }

  /**
   * `process_file`: re-seed the generator with RANDOM_SEED, shuffle the row
   * index, then save every row into train or test.
   */
  method ProcessFile(u: Transliterator, shuffle: Shuffler, texts: seq<string>, language: string, ratio: int)
    returns (r: Result<LanguageOutput, DatasetError>)
    requires IsPermutation(shuffle(RandomSeed, |texts|), |texts|)
    ensures r.Err? <==> ratio == 0 && |texts| > 0
    ensures r.Err? ==> r.error == ZeroRatio
    ensures r.Ok? && ratio == 0 ==> r.value == LanguageOutput(language, [], [])
    ensures r.Ok? && ratio != 0 ==>
      r.value == SplitLanguage(u, language, texts, shuffle(RandomSeed, |texts|), ratio)
  {
    var idx := shuffle(RandomSeed, |texts|);
    if ratio == 0 {
      if |idx| > 0 {
        return Err(ZeroRatio);
      }
      return Ok(LanguageOutput(language, [], []));
    }
    var train, test := SaveShuffled(u, texts, idx, ratio);
    return Ok(LanguageOutput(language, train, test));
  }

  // ---------------------------------------------------------------------
  // prepare_dataset
  // ---------------------------------------------------------------------

  /** One entry of `LANG_FILES`: processed, or reported missing and skipped. */
  datatype LanguageOutcome = Processed(output: LanguageOutput) | Missing(csvName: string)

  /** What `prepare_dataset` does with one `LANG_FILES` entry. */
  function EntryOutcome(u: Transliterator, shuffle: Shuffler, csvFiles: map<string, seq<string>>, entry: (string, string))
    : LanguageOutcome
    requires entry.0 in csvFiles ==>
      IsPermutation(shuffle(RandomSeed, |csvFiles[entry.0]|), |csvFiles[entry.0]|)
  {
    if entry.0 in csvFiles then
      var texts := csvFiles[entry.0];
      Processed(SplitLanguage(u, entry.1, texts, shuffle(RandomSeed, |texts|), DefaultRatio))
    else
      Missing(entry.0)
  }

  /** One iteration of the `prepare_dataset` loop. */
  method ProcessEntry(u: Transliterator, shuffle: Shuffler, csvFiles: map<string, seq<string>>, entry: (string, string))
    returns (outcome: LanguageOutcome)
    requires entry.0 in csvFiles ==>
      IsPermutation(shuffle(RandomSeed, |csvFiles[entry.0]|), |csvFiles[entry.0]|)
    ensures outcome == EntryOutcome(u, shuffle, csvFiles, entry)
  {
    var (csvName, languageName) := entry;
    if csvName in csvFiles {
      var done := ProcessFile(u, shuffle, csvFiles[csvName], languageName, DefaultRatio);
      outcome := Processed(done.value);
    } else {
      outcome := Missing(csvName);
    }
  }

  /**
   * `prepare_dataset`: fails when the input directory is missing; otherwise
   * handles every `LANG_FILES` entry in order, skipping the missing csvs.
   * `csvFiles` holds the text column of each csv present in the directory.
   */
  method PrepareDataset(u: Transliterator, shuffle: Shuffler, inputDirExists: bool, csvFiles: map<string, seq<string>>)
    returns (r: Result<seq<LanguageOutcome>, DatasetError>)
    requires forall name :: name in csvFiles ==>
      IsPermutation(shuffle(RandomSeed, |csvFiles[name]|), |csvFiles[name]|)
    ensures r.Err? <==> !inputDirExists
    ensures r.Err? ==> r.error == InputDirNotFound
    ensures r.Ok? ==> |r.value| == |LangFiles|
    ensures r.Ok? ==> forall k :: 0 <= k < |LangFiles| ==>
      r.value[k] == EntryOutcome(u, shuffle, csvFiles, LangFiles[k])
  {
    if !inputDirExists {
      return Err(InputDirNotFound);
    }
    var outcomes: seq<LanguageOutcome> := [];
    for k := 0 to |LangFiles|
      invariant |outcomes| == k
      invariant forall m :: 0 <= m < k ==> outcomes[m] == EntryOutcome(u, shuffle, csvFiles, LangFiles[m])
    {
      var outcome := ProcessEntry(u, shuffle, csvFiles, LangFiles[k]);
      outcomes := outcomes + [outcome];
    }
    return Ok(outcomes);
  }
}
