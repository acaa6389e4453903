/**
 * Character classes and small string and number helpers shared by the
 * segmenter and the row comparison. Only the ASCII behaviour of the original regular
 * expressions and string methods is modelled: `\d` is an ASCII digit,
 * `[A-Z]` an ASCII capital and `upper()` maps ASCII letters only.
 */
module Chars {

  predicate IsDigit(c: char) { '0' <= c <= '9' }

  predicate IsUpper(c: char) { 'A' <= c <= 'Z' }

  predicate IsLower(c: char) { 'a' <= c <= 'z' }

  function Min(a: nat, b: nat): nat { if a < b then a else b }

  function Max(a: nat, b: nat): nat { if a < b then b else a }

  /** The characters Python treats as whitespace in `\s` and `str.rstrip()`. */
  predicate IsSpace(c: char)
  {
    || '\U{0009}' <= c <= '\U{000D}'
    || '\U{001C}' <= c <= '\U{0020}'
    || c == '\U{0085}' || c == '\U{00A0}' || c == '\U{1680}'
    || '\U{2000}' <= c <= '\U{200A}'
    || c == '\U{2028}' || c == '\U{2029}' || c == '\U{202F}'
    || c == '\U{205F}' || c == '\U{3000}'
  }

  /** `str.upper()` on one character, ASCII letters only. */
  function ToUpper(c: char): (u: char)
    ensures !IsLower(u)
    ensures IsLower(c) ==> IsUpper(u) && u as int - 'A' as int == c as int - 'a' as int
    ensures !IsLower(c) ==> u == c
  {
    if IsLower(c) then (c as int - 32) as char else c
  }


  /** `str.rstrip()`: drops trailing whitespace, keeps inner whitespace. */
  function TrimRight(s: string): (r: string)
    ensures |r| <= |s| && r == s[..|r|]
    ensures r == [] || !IsSpace(r[|r| - 1])
    ensures forall i :: |r| <= i < |s| ==> IsSpace(s[i])
  {
    if s == [] || !IsSpace(s[|s| - 1]) then s else TrimRight(s[..|s| - 1])
  }

  /** `n` blank characters, the padding of `str.ljust`. */
  function Blanks(n: nat): string
  {
    seq(n, _ => ' ')
  }

  /** Trimming a string padded with blanks gives back the string, when it ends in no whitespace. */
  lemma {:induction false} TrimRightBlanks(s: string, n: nat)
    requires s == [] || !IsSpace(s[|s| - 1])
    ensures TrimRight(s + Blanks(n)) == s
  {
    if n > 0 {
      assert (s + Blanks(n))[..|s| + n - 1] == s + Blanks(n - 1);
      TrimRightBlanks(s, n - 1);
    } else {
      assert s + Blanks(0) == s;
    }
  }
}
