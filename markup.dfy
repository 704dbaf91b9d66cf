/**
 * Character classes and small scanners shared by every text pass: the JavaScript
 * regular-expression classes the passes use (`\d`, `\w`, `[ -~]`, the name-box and
 * legacy whitelists), maximal runs of a class, and decimal digits both ways.
 * JavaScript `\w` (without the `u` flag) is the ASCII class `[A-Za-z0-9_]`.
 */
module Markup {

  predicate IsDigit(c: char) { '0' <= c <= '9' }

  /** JavaScript `\w`. */
  predicate IsWordChar(c: char) {
    'A' <= c <= 'Z' || 'a' <= c <= 'z' || IsDigit(c) || c == '_'
  }

  /** The class `[ -~]`: printable ASCII, from space to tilde. */
  predicate IsPrintableAscii(c: char) { ' ' <= c <= '~' }

  /** The name-box whitelist `[\w.,?!*_ -]`. */
  predicate IsNameBoxChar(c: char) {
    IsWordChar(c) || c == '.' || c == ',' || c == '?' || c == '!' || c == '*' || c == ' ' || c == '-'
  }

  /** The whitelist of the earlier plugin version, `[\w.,?!':_ -]`. */
  predicate IsLegacyTextChar(c: char) {
    IsWordChar(c) || c == '.' || c == ',' || c == '?' || c == '!' || c == '\'' || c == ':' || c == ' ' || c == '-'
  }

  /** The classes whose maximal runs the scanners measure. */
  datatype CharClass = Digit | Word | Backslash | NotNameBox | NotLegacyText

  predicate InClass(k: CharClass, c: char) {
    match k
    case Digit => IsDigit(c)
    case Word => IsWordChar(c)
    case Backslash => c == '\\'
    case NotNameBox => !IsNameBoxChar(c)
    case NotLegacyText => !IsLegacyTextChar(c)
  }

  /** Length of the longest prefix of `s` made of characters of class `k` (a greedy `k*`). */
  function Run(k: CharClass, s: string): (n: nat)
    ensures n <= |s|
    ensures forall i | 0 <= i < n :: InClass(k, s[i])
    ensures n == |s| || !InClass(k, s[n])
  {
    if s == [] || !InClass(k, s[0]) then 0 else 1 + Run(k, s[1..])
  }

  /** A run is determined by its content: a class prefix followed by a non-class character. */
  lemma {:induction false} RunOfPrefix(k: CharClass, a: string, b: string)
    requires forall i | 0 <= i < |a| :: InClass(k, a[i])
    requires b == [] || !InClass(k, b[0])
    ensures Run(k, a + b) == |a|
  {
    if a != [] {
      assert (a + b)[1..] == a[1..] + b;
      RunOfPrefix(k, a[1..], b);
    } else {
      assert a + b == b;
    }
  }

  predicate AllDigits(s: string) { forall i | 0 <= i < |s| :: IsDigit(s[i]) }

  function DigitValue(c: char): (v: nat)
    requires IsDigit(c)
    ensures v < 10
  {
    (c - '0') as nat
  }

  function DigitChar(v: nat): (c: char)
    requires v < 10
    ensures IsDigit(c) && DigitValue(c) == v
  {
    ('0' as int + v) as char
  }

  /** The number a string of decimal digits denotes (leading zeros allowed, as with `Number("01")`). */
  function ParseDigits(d: string): nat
    requires AllDigits(d)
  {
    if d == [] then 0 else 10 * ParseDigits(d[..|d| - 1]) + DigitValue(d[|d| - 1])
  }

  /** Decimal notation of a natural number, as JavaScript's string concatenation prints it. */
  function NatToString(n: nat): (s: string)
    ensures s != [] && AllDigits(s)
  {
    if n < 10 then [DigitChar(n)] else NatToString(n / 10) + [DigitChar(n % 10)]
  }

  /** Printing and parsing are inverse: `ParseDigits(NatToString(n)) == n`. */
  lemma {:induction false} ParsePrinted(n: nat)
    ensures ParseDigits(NatToString(n)) == n
  {
    var s := NatToString(n);
    if n >= 10 {
      ParsePrinted(n / 10);
      assert s[..|s| - 1] == NatToString(n / 10);
    } else {
      assert s[..|s| - 1] == [];
    }
  }

  /** Printed numbers carry no leading zero, so different numbers print differently. */
  lemma PrintedInjective(m: nat, n: nat)
    requires NatToString(m) == NatToString(n)
    ensures m == n
  {
    ParsePrinted(m);
    ParsePrinted(n);
  }
}
