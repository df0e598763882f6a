/**
 * The closed-vocabulary character tokenizer of training/tokenizer.py.
 *
 * The vocabulary is the 52 Latin letters interleaved upper/lower case, the
 * ten digits and the marker "[UNK]", numbered from 1; code 0 is never
 * assigned. The object's three fields are computed once by the
 * constructor and never change, so a tokenizer is a value here.
 */
module Tokenizer {
  import opened Chars
  import opened Wrappers
  import opened Canonical

  function LetterAt(i: nat): (c: char)
    requires i < 52
  {
    if i % 2 == 0 then ('A' as int + i / 2) as char else ('a' as int + i / 2) as char
  }

  /** `LETTERS`: upper and lower case interleaved, "A", "a", "B", "b", ..., "Z", "z". */
  function Letters(): (r: seq<string>)
    ensures |r| == 52 && forall i :: 0 <= i < 52 ==> r[i] == [LetterAt(i)]
  {
    seq(52, i requires 0 <= i < 52 => [LetterAt(i)])
  }

  /** `DIGITS = [str(i) for i in range(10)]`. */
  function Digits(): (r: seq<string>)
    ensures |r| == 10 && forall i :: 0 <= i < 10 ==> r[i] == [('0' as int + i) as char]
  {
    seq(10, i requires 0 <= i < 10 => [('0' as int + i) as char])
  }

  const Unk: string := "[UNK]"

  /** `LETTERS + DIGITS + ["[UNK]"]`. */
  function Symbols(): seq<string> {
    Letters() + Digits() + [Unk]
  }

  /** `dict(enumerate(xs, start=start))`: entry `start + k` is `xs[k]`. */
  function Enumerate(xs: seq<string>, start: int): (m: map<int, string>)
    ensures forall i :: i in m <==> start <= i < start + |xs|
    ensures forall i :: start <= i < start + |xs| ==> m[i] == xs[i - start]
  {
    if xs == [] then map[]
    else Enumerate(xs[..|xs| - 1], start)[start + |xs| - 1 := xs[|xs| - 1]]
  }

  ghost predicate Injective(m: map<int, string>) {
    forall a, b :: a in m && b in m && m[a] == m[b] ==> a == b
  }

  /** The evident intent of the inverse `{v: k for k, v in m}`: `{v: k for k, v in m.items()}`. */
  function Invert(m: map<int, string>): (r: map<string, int>)
    requires Injective(m)
    ensures r.Keys == m.Values
    ensures forall k :: k in m ==> r[m[k]] == k
    ensures forall v :: v in r ==> r[v] in m && m[r[v]] == v
  {
    map k | k in m :: m[k] := k
  }

  datatype TokenizerError =
    | CannotUnpack   // TypeError: cannot unpack non-iterable int object
    | MissingKey     // KeyError

  /**
   * The inverse as written, `{v: k for k, v in m}`: iterating a dict yields
   * its int keys, and unpacking the first one into `k, v` raises TypeError.
   */
  function InvertAsWritten(m: map<int, string>): Result<map<string, int>, TokenizerError> {
    if m == map[] then Ok(map[]) else Err(CannotUnpack)
  }

  datatype CharTokenizer = CharTokenizer(inverseMapping: map<int, string>, mapping: map<string, int>, unkToken: int)

  /** The code of a character by its position in the vocabulary; 63 outside it. */
  function Code(c: char): (k: int)
    ensures 1 <= k <= 63
    ensures k == 63 <==> !IsAlnum(c)
  {
    if IsUpper(c) then 2 * (c as int - 'A' as int) + 1
    else if IsLower(c) then 2 * (c as int - 'a' as int) + 2
    else if IsDigit(c) then 53 + (c as int - '0' as int)
    else 63
  }

  /** Entries 0 .. 61 are one alphanumeric character each, whose code is the position + 1. */
  lemma SymbolAt(i: nat)
    requires i < 62
    ensures |Symbols()[i]| == 1 && IsAlnum(Symbols()[i][0]) && Code(Symbols()[i][0]) == i + 1
  {
    if i < 52 {
      assert Symbols()[i] == Letters()[i];
    } else {
      assert Symbols()[i] == Digits()[i - 52];
    }
  }

  /** Each alphanumeric character is the entry at its code. */
  lemma SymbolOfCode(c: char)
    requires IsAlnum(c)
    ensures Symbols()[Code(c) - 1] == [c]
  {
    var i := Code(c) - 1;
    if i < 52 {
      assert Symbols()[i] == Letters()[i];
    } else {
      assert Symbols()[i] == Digits()[i - 52];
    }
  }

  lemma SymbolsDistinct()
    ensures |Symbols()| == 63 && Symbols()[62] == Unk
    ensures forall i, j :: 0 <= i < |Symbols()| && 0 <= j < |Symbols()| && Symbols()[i] == Symbols()[j] ==> i == j
  {
    forall i, j | 0 <= i < |Symbols()| && 0 <= j < |Symbols()| && Symbols()[i] == Symbols()[j] ensures i == j {
      if i < 62 { SymbolAt(i); }
      if j < 62 { SymbolAt(j); }
    }
  }

  lemma InverseMappingInjective()
    ensures Injective(Enumerate(Symbols(), 1))
  {
    SymbolsDistinct();
  }

  /** The constructor, with the inverse taken over `m.items()` as evidently intended. */
  function New(): CharTokenizer {
    var inv := Enumerate(Symbols(), 1);
    InverseMappingInjective();
    var m := Invert(inv);
    assert inv[63] == Unk;
    CharTokenizer(inv, m, m[Unk])
  }

  /**
   * The fields `__init__` sets: codes 1..63 (never 0) for the vocabulary in
   * order, `mapping` the exact inverse of `inverse_mapping`, and the
   * unknown-character token 63.
   */
  lemma NewFields()
    ensures forall i :: i in New().inverseMapping <==> 1 <= i <= 63
    ensures forall i :: 1 <= i <= 63 ==> New().inverseMapping[i] == Symbols()[i - 1]
    ensures New().mapping.Keys == New().inverseMapping.Values
    ensures forall i :: i in New().inverseMapping ==> New().mapping[New().inverseMapping[i]] == i
    ensures forall s :: s in New().mapping ==>
      New().mapping[s] in New().inverseMapping && New().inverseMapping[New().mapping[s]] == s
    ensures New().unkToken == 63
  {
    InverseMappingInjective();
    SymbolsDistinct();
  }

  /** The constructor as written. */
  function NewAsWritten(): Result<CharTokenizer, TokenizerError> {
    var inv := Enumerate(Symbols(), 1);
    match InvertAsWritten(inv)
    case Err(e) => Err(e)
    case Ok(m) => if Unk in m then Ok(CharTokenizer(inv, m, m[Unk])) else Err(MissingKey)
  }

  /** As written, constructing a CharTokenizer always raises TypeError. */
  lemma NewAsWrittenRaises()
    ensures NewAsWritten() == Err(CannotUnpack)
  {
    var inv := Enumerate(Symbols(), 1);
    assert 1 in inv;
  }

  /** `self.mapping.get(c, self.unk_token)`. */
  function Token(t: CharTokenizer, c: char): int {
    if [c] in t.mapping then t.mapping[[c]] else t.unkToken
  }

  /** The lookup agrees with the positional code of every character. */
  lemma TokenIsCode(c: char)
    ensures Token(New(), c) == Code(c)
  {
    NewFields();
    var t := New();
    if IsAlnum(c) {
      SymbolOfCode(c);
      assert t.inverseMapping[Code(c)] == [c];
    } else {
      if [c] in t.mapping {
        var k := t.mapping[[c]];
        assert t.inverseMapping[k] == [c];
        assert 1 <= k <= 63;
        if k < 63 {
          SymbolAt(k - 1);
        }
      }
    }
  }

  lemma TokenExamples()
    ensures Token(New(), 'A') == 1 && Token(New(), 'a') == 2 && Token(New(), 'B') == 3
    ensures Token(New(), 'z') == 52 && Token(New(), '0') == 53 && Token(New(), '9') == 62
    ensures Token(New(), ' ') == 63 && Token(New(), '.') == 63 && Token(New(), '\'') == 63
    ensures Token(New(), 'é') == 63
  {
    TokenIsCode('A'); TokenIsCode('a'); TokenIsCode('B'); TokenIsCode('z');
    TokenIsCode('0'); TokenIsCode('9'); TokenIsCode(' '); TokenIsCode('.');
    TokenIsCode('\''); TokenIsCode('é');
  }

  /** The text that is tokenized: transliterated first when `decode` is set. */
  function Input(u: Transliterator, s: string, decode: bool): string {
    if decode then u(s) else s
  }

  /**
   * `string_to_tokens`: one token per character, no padding, no
   * truncation; `decode` first transliterates.
   */
  function StringToTokens(t: CharTokenizer, u: Transliterator, s: string, decode: bool): (r: seq<int>)
    requires t == New()
    ensures |r| == |Input(u, s, decode)|
    ensures forall i :: 0 <= i < |r| ==> 1 <= r[i] <= 63 && r[i] == Code(Input(u, s, decode)[i])
    ensures forall i :: 0 <= i < |r| ==> (r[i] == 63 <==> !IsAlnum(Input(u, s, decode)[i]))
  {
    var text := Input(u, s, decode);
    var r := seq(|text|, i requires 0 <= i < |text| => Token(t, text[i]));
    assert forall i :: 0 <= i < |r| ==> r[i] == Code(text[i]) by {
      forall i | 0 <= i < |r| ensures r[i] == Code(text[i]) {
        TokenIsCode(text[i]);
      }
    }
    r
  }

  /** The symbols of `tokens` read back through `inverse_mapping`, concatenated. */
  function Detokenize(t: CharTokenizer, tokens: seq<int>): string
    requires forall i :: 0 <= i < |tokens| ==> tokens[i] in t.inverseMapping
  {
    if tokens == [] then []
    else Detokenize(t, tokens[..|tokens| - 1]) + t.inverseMapping[tokens[|tokens| - 1]]
  }

  /** Tokens each read back as one character read back as those characters. */
  lemma {:induction false} DetokenizeSingles(t: CharTokenizer, tokens: seq<int>, s: string)
    requires |tokens| == |s|
    requires forall i :: 0 <= i < |s| ==> tokens[i] in t.inverseMapping && t.inverseMapping[tokens[i]] == [s[i]]
    ensures Detokenize(t, tokens) == s
    decreases |s|
  {
    if s != [] {
      var n := |s| - 1;
      DetokenizeSingles(t, tokens[..n], s[..n]);
      assert s == s[..n] + [s[n]];
    }
  }

  /** Alphanumeric text comes back from its tokens unchanged. */
  lemma AlnumRoundTrip(u: Transliterator, s: string)
    requires AllAlnum(s)
    ensures forall i :: 0 <= i < |StringToTokens(New(), u, s, false)| ==>
      StringToTokens(New(), u, s, false)[i] in New().inverseMapping
    ensures Detokenize(New(), StringToTokens(New(), u, s, false)) == s
  {
    NewFields();
    var t := New();
    var tokens := StringToTokens(t, u, s, false);
    forall i | 0 <= i < |s| ensures tokens[i] in t.inverseMapping && t.inverseMapping[tokens[i]] == [s[i]] {
      SymbolOfCode(s[i]);
    }
    DetokenizeSingles(t, tokens, s);
  }

  /** Every character outside the vocabulary reads back as the marker. */
  lemma UnknownReadsBack(c: char)
    requires !IsAlnum(c)
    ensures Token(New(), c) in New().inverseMapping && New().inverseMapping[Token(New(), c)] == Unk
  {
    TokenIsCode(c);
    NewFields();
    SymbolsDistinct();
  }
}
