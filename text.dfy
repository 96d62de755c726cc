/**
  Character classes and literal matching as the extractor's regular expressions
  use them: Python's `\s` on ASCII characters and IGNORECASE as ASCII case folding.
*/
module Text {

  /** Python's `\s` on ASCII: tab, line feed, vertical tab, form feed, carriage
      return, the four separators 0x1C-0x1F and space. */
  predicate IsSpace(c: char) {
    ('\t' <= c <= '\r') || ('\U{1C}' <= c <= ' ')
  }

  predicate IsQuote(c: char) {
    c == '\'' || c == '"'
  }

  /** The character classes the patterns repeat: `\s`, `[^'"\s>]` and `.`
      (which, without DOTALL, is anything but a line feed). */
  datatype CharClass = Whitespace | ValueChar | NotNewline {
    predicate Has(c: char) {
      match this
      case Whitespace => IsSpace(c)
      case ValueChar => !IsQuote(c) && !IsSpace(c) && c != '>'
      case NotNewline => c != '\n'
    }
  }

  /** ASCII lower-casing; every other character is left as it is. */
  function Lower(c: char): char {
    if 'A' <= c <= 'Z' then (c as int + 32) as char else c
  }

  /** The lower-case literal `lit` occurs at position `i` of `s`, ignoring ASCII case. */
  predicate CiAt(s: string, i: nat, lit: string) {
    i + |lit| <= |s| && forall k :: 0 <= k < |lit| ==> Lower(s[i + k]) == lit[k]
  }

  /** `re.search(lit, s, re.IGNORECASE)` for a lower-case literal without metacharacters. */
  predicate CiContains(s: string, lit: string) {
    exists i: nat | i <= |s| :: CiAt(s, i, lit)
  }

  /** Python's case-sensitive `str.startswith`. */
  predicate StartsWith(s: string, lit: string) {
    |lit| <= |s| && s[..|lit|] == lit
  }

  /** Every character of `s[i..j]` belongs to `cc`. */
  predicate AllIn(s: string, i: nat, j: nat, cc: CharClass) {
    i <= j <= |s| && forall k :: i <= k < j ==> cc.Has(s[k])
  }

  /** The end of the run of `cc`-characters starting at `i` (a greedy `[..]*`). */
  function SkipWhile(s: string, i: nat, cc: CharClass): (r: nat)
    requires i <= |s|
    ensures i <= r <= |s|
    decreases |s| - i
  {
    if i < |s| && cc.Has(s[i]) then SkipWhile(s, i + 1, cc) else i
  }

  /** `SkipWhile` stops at the first character from `i` on that is not in `cc`. */
  lemma {:induction false} SkipWhileSpec(s: string, i: nat, cc: CharClass)
    requires i <= |s|
    ensures AllIn(s, i, SkipWhile(s, i, cc), cc)
    ensures SkipWhile(s, i, cc) == |s| || !cc.Has(s[SkipWhile(s, i, cc)])
    decreases |s| - i
  {
    if i < |s| && cc.Has(s[i]) {
      SkipWhileSpec(s, i + 1, cc);
    }
  }

  /** A run of `cc`-characters that stops at another character (or the end) is the greedy one. */
  lemma SkipWhileUnique(s: string, i: nat, j: nat, cc: CharClass)
    requires i <= |s|
    requires AllIn(s, i, j, cc)
    requires j == |s| || !cc.Has(s[j])
    ensures SkipWhile(s, i, cc) == j
  {
    SkipWhileSpec(s, i, cc);
  }
}
