/** Character classes used by the cleaning path of app.py.

    Python's `str.lower()` and the regular-expression class `\w` are modelled on
    ASCII only; whitespace (`\s`, `\S`, `str.split()`, `str.strip()`) uses
    Python's full Unicode whitespace set. */
module Chars {

  predicate IsUpper(c: char) { 'A' <= c <= 'Z' }

  predicate IsLower(c: char) { 'a' <= c <= 'z' }

  predicate IsDigit(c: char) { '0' <= c <= '9' }

  predicate IsAsciiLetter(c: char) { IsUpper(c) || IsLower(c) }

  /** `[A-Za-z0-9_]`: the class of the mention pattern, and `\w` restricted to ASCII. */
  predicate IsWordChar(c: char) { IsAsciiLetter(c) || IsDigit(c) || c == '_' }

  /** The characters Python treats as whitespace in `\s`, `str.split()` and `str.strip()`. */
  predicate IsSpace(c: char) {
    var n := c as int;
    || 0x09 <= n <= 0x0D
    || 0x1C <= n <= 0x20
    || n == 0x85 || n == 0xA0 || n == 0x1680
    || 0x2000 <= n <= 0x200A
    || n == 0x2028 || n == 0x2029 || n == 0x202F || n == 0x205F || n == 0x3000
  }

  /** The characters `[A-Za-z0-9' ]` that survive the whitelist step. */
  predicate IsWhitelisted(c: char) { IsAsciiLetter(c) || IsDigit(c) || c == '\'' || c == ' ' }

  /** Every character is one of `[A-Za-z0-9' ]`. */
  predicate Whitelisted(s: string) {
    forall i | 0 <= i < |s| :: IsWhitelisted(s[i])
  }

  /** ASCII `lower()` of one character. */
  function ToLower(c: char): (r: char)
    ensures !IsUpper(r)
    ensures IsUpper(c) ==> IsLower(r) && r as int == c as int + 32
    ensures !IsUpper(c) ==> r == c
  {
    if IsUpper(c) then (c as int + 32) as char else c
  }

  /** `str.lower()`, restricted to ASCII letters. */
  function Lower(s: string): (r: string)
    ensures |r| == |s|
    ensures forall i | 0 <= i < |s| :: !IsUpper(r[i]) && (IsUpper(s[i]) || r[i] == s[i])
    ensures forall i | 0 <= i < |s| :: IsUpper(s[i]) ==> IsLower(r[i]) && r[i] as int == s[i] as int + 32
  {
    seq(|s|, i requires 0 <= i < |s| => ToLower(s[i]))
  }

  lemma LowerIdempotent(s: string)
    ensures Lower(Lower(s)) == Lower(s)
  {
  }

  /** A string without upper-case letters is its own lower-case form. */
  lemma LowerOfLowerCase(s: string)
    requires forall i | 0 <= i < |s| :: !IsUpper(s[i])
    ensures Lower(s) == s
  {
  }

  /** Character classes a regular-expression quantifier can run over. */
  datatype CharClass = Word | Space | NonSpace

  predicate InClass(k: CharClass, c: char) {
    match k
    case Word => IsWordChar(c)
    case Space => IsSpace(c)
    case NonSpace => !IsSpace(c)
  }

  /** Length of the longest prefix of `s` whose characters all lie in class `k`:
      what a greedy `k*` matches at the start of `s`. */
  function RunLength(k: CharClass, s: string): (n: nat)
    ensures n <= |s|
    ensures forall i | 0 <= i < n :: InClass(k, s[i])
    ensures n == |s| || !InClass(k, s[n])
    decreases |s|
  {
    if s == [] || !InClass(k, s[0]) then 0 else 1 + RunLength(k, s[1..])
  }
}
