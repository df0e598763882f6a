/**
 * Character classes used by the regular expressions and string methods of
 * the pipeline. Python's `\s` and `str.isspace()` agree on the whitespace
 * set below; `\w` is restricted to its ASCII members (letters, digits, `_`).
 */
module Chars {

  predicate IsAscii(c: char) {
    c as int < 128
  }

  predicate AllAscii(s: string) {
    forall i :: 0 <= i < |s| ==> IsAscii(s[i])
  }

  /** The characters for which `str.isspace()` holds (and which `\s` matches). */
  predicate IsSpace(c: char) {
    ('\t' <= c <= '\r') || ('\U{1c}' <= c <= ' ') || c == '\U{85}' || c == '\U{a0}'
    || c == '\U{1680}' || ('\U{2000}' <= c <= '\U{200a}') || c == '\U{2028}'
    || c == '\U{2029}' || c == '\U{202f}' || c == '\U{205f}' || c == '\U{3000}'
  }

  predicate IsUpper(c: char) { 'A' <= c <= 'Z' }
  predicate IsLower(c: char) { 'a' <= c <= 'z' }
  predicate IsDigit(c: char) { '0' <= c <= '9' }

  predicate IsAlnum(c: char) {
    IsUpper(c) || IsLower(c) || IsDigit(c)
  }

  predicate AllAlnum(s: string) {
    forall i :: 0 <= i < |s| ==> IsAlnum(s[i])
  }

  /** ASCII members of the regex class `\w`. */
  predicate IsWordChar(c: char) {
    IsAlnum(c) || c == '_'
  }

  /** The class `[\s_()\-,:;%&]` whose runs collapse to one space. */
  predicate IsSeparator(c: char) {
    IsSpace(c) || c == '_' || c == '(' || c == ')' || c == '-' || c == ','
    || c == ':' || c == ';' || c == '%' || c == '&'
  }

  /** The class `[\w\-\s']` whose maximal runs are the candidate sentences. */
  predicate IsSpanChar(c: char) {
    IsWordChar(c) || c == '-' || IsSpace(c) || c == '\''
  }

  predicate IsMark(c: char) {
    c == '!' || c == '?'
  }
}
