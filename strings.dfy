/**
 * String primitives shared by the editor (JavaScript) and the wiki hooks (PHP):
 * runs of one character, the two languages' `trim`, and the decimal form of a
 * leaf index.
 *
 * Strings are sequences of `char`, and a `char` is one Unicode scalar value. The
 * editor's offsets (`caretPos`, `text.length`) count UTF-16 code units, so they
 * agree with the lengths here only for text inside the Basic Multilingual Plane;
 * a character outside it counts 1 here and 2 in the editor.
 */
module Strings {

  /** Whitespace stripped by JavaScript's `String.prototype.trim`: the WhiteSpace
      and LineTerminator characters of ECMAScript (tab, vertical tab, form feed,
      space, no-break space, the byte order mark, every Zs space, LF, CR, LS, PS). */
  predicate IsJsWhitespace(c: char) {
    c == '\t' || c == '\n' || c == '\U{000B}' || c == '\U{000C}' || c == '\r' || c == ' '
    || c == '\U{00A0}' || c == '\U{1680}' || ('\U{2000}' <= c <= '\U{200A}')
    || c == '\U{2028}' || c == '\U{2029}' || c == '\U{202F}' || c == '\U{205F}'
    || c == '\U{3000}' || c == '\U{FEFF}'
  }

  /** Characters stripped by PHP's `trim` with its default character list:
      space, tab, LF, CR, NUL and vertical tab (not form feed, not Unicode spaces). */
  predicate IsPhpWhitespace(c: char) {
    c == ' ' || c == '\t' || c == '\n' || c == '\r' || c == '\0' || c == '\U{000B}'
  }

  /** Length of the run of `c` at the start of `s` (a greedy `c*` in a regular expression). */
  function CharRun(s: string, c: char): (n: nat)
    ensures n <= |s|
    ensures forall i :: 0 <= i < n ==> s[i] == c
    ensures n < |s| ==> s[n] != c
  {
    if |s| > 0 && s[0] == c then 1 + CharRun(s[1..], c) else 0
  }

  /** A run is determined by the characters up to and including the first one that ends it. */
  lemma CharRunAgrees(s: string, t: string, c: char)
    requires CharRun(s, c) < |s| && CharRun(s, c) < |t|
    requires forall i :: 0 <= i <= CharRun(s, c) ==> t[i] == s[i]
    ensures CharRun(t, c) == CharRun(s, c)
  {
  }

  /** Number of characters satisfying `ws` at the start of `s`. */
  function LeadingCount(s: string, ws: char -> bool): (n: nat)
    ensures n <= |s|
    ensures forall i :: 0 <= i < n ==> ws(s[i])
    ensures n < |s| ==> !ws(s[n])
  {
    if |s| > 0 && ws(s[0]) then 1 + LeadingCount(s[1..], ws) else 0
  }

  /** Number of characters satisfying `ws` at the end of `s`. */
  function TrailingCount(s: string, ws: char -> bool): (n: nat)
    ensures n <= |s|
    ensures forall i :: |s| - n <= i < |s| ==> ws(s[i])
    ensures n < |s| ==> !ws(s[|s| - n - 1])
  {
    if |s| > 0 && ws(s[|s| - 1]) then 1 + TrailingCount(s[..|s| - 1], ws) else 0
  }

  /** Neither end of `s` is a `ws` character. */
  predicate IsTrimmed(s: string, ws: char -> bool) {
    s == [] || (!ws(s[0]) && !ws(s[|s| - 1]))
  }

  /** `s` without its leading and trailing `ws` characters. */
  function TrimBy(s: string, ws: char -> bool): (r: string)
    ensures IsTrimmed(r, ws)
    ensures LeadingCount(s, ws) + |r| <= |s|
    ensures r == s[LeadingCount(s, ws)..LeadingCount(s, ws) + |r|]
    ensures forall i :: LeadingCount(s, ws) + |r| <= i < |s| ==> ws(s[i])
    ensures IsTrimmed(s, ws) ==> r == s
  {
    var a := LeadingCount(s, ws);
    var t := s[a..];
    var b := TrailingCount(t, ws);
    assert forall i :: a + |t| - b <= i < |s| ==> s[i] == t[i - a];
    assert IsTrimmed(s, ws) && s != [] ==> a == 0 && b == 0;
    t[..|t| - b]
  }

  /** JavaScript's `s.trim()`. */
  function JsTrim(s: string): (r: string)
    ensures IsTrimmed(r, IsJsWhitespace)
    ensures |r| <= |s|
    ensures IsTrimmed(s, IsJsWhitespace) ==> r == s
  {
    TrimBy(s, IsJsWhitespace)
  }

  /** PHP's `trim($s)`. */
  function PhpTrim(s: string): (r: string)
    ensures IsTrimmed(r, IsPhpWhitespace)
    ensures |r| <= |s|
    ensures IsTrimmed(s, IsPhpWhitespace) ==> r == s
  {
    TrimBy(s, IsPhpWhitespace)
  }

  /** JavaScript's trim keeps one stretch of the text: what follows the leading whitespace. */
  lemma JsTrimIsSlice(s: string)
    ensures LeadingCount(s, IsJsWhitespace) + |JsTrim(s)| <= |s|
    ensures JsTrim(s) == s[LeadingCount(s, IsJsWhitespace)..LeadingCount(s, IsJsWhitespace) + |JsTrim(s)|]
  {
  }

  /** Trimming twice is trimming once. */
  lemma TrimIdempotent(s: string, ws: char -> bool)
    ensures TrimBy(TrimBy(s, ws), ws) == TrimBy(s, ws)
  {
  }

  /** A trimmed, non-empty string followed by one whitespace character trims back to itself. */
  lemma {:induction false} TrimDropsAppended(s: string, c: char, ws: char -> bool)
    requires s != [] && IsTrimmed(s, ws) && ws(c)
    ensures TrimBy(s + [c], ws) == s
  {
    var t := s + [c];
    assert t[0] == s[0];
    assert LeadingCount(t, ws) == 0;
    assert t[..|t| - 1] == s;
    assert TrailingCount(s, ws) == 0;
    assert TrailingCount(t, ws) == 1;
  }

  /** Decimal digit character for `d`. */
  function Digit(d: nat): (c: char)
    requires d < 10
    ensures '0' <= c <= '9'
  {
    ('0' as int + d) as char
  }

  /** JavaScript's `String(n)` for a non-negative integer: its decimal digits, no leading zeros. */
  function DecimalString(n: nat): (r: string)
    ensures 1 <= |r|
    ensures forall i :: 0 <= i < |r| ==> '0' <= r[i] <= '9'
    ensures |r| > 1 ==> r[0] != '0'
    decreases n
  {
    if n < 10 then [Digit(n)] else DecimalString(n / 10) + [Digit(n % 10)]
  }

  /** Different numbers have different decimal forms. */
  lemma {:induction false} DecimalStringInjective(a: nat, b: nat)
    requires DecimalString(a) == DecimalString(b)
    ensures a == b
    decreases a
  {
    var s := DecimalString(a);
    assert Digit(a % 10) == s[|s| - 1] == Digit(b % 10);
    if a >= 10 && b >= 10 {
      assert DecimalString(a / 10) == s[..|s| - 1] == DecimalString(b / 10);
      DecimalStringInjective(a / 10, b / 10);
    }
  }
}
