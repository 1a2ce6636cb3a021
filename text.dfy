/**
 * Character classes and decimal numerals, restricted to ASCII.
 * `\d` is an ASCII digit, `\s` an ASCII character for which Python's
 * `str.isspace()` holds, and `int(...)` / `str(...)` are decimal conversions.
 */
module Text {

  /** Python's `\d` on ASCII text. */
  predicate IsDigit(c: char) {
    '0' <= c <= '9'
  }

  /** Python's `\s` on ASCII text: space, \t \n \v \f \r and the separators \x1c-\x1f. */
  predicate IsSpace(c: char) {
    c == ' ' || '\t' <= c <= '\r' || '\U{1C}' <= c <= '\U{1F}'
  }

  /** ASCII lower-casing, the folding `re.I` applies to the letters of the size pattern. */
  function ToLower(c: char): (r: char)
    ensures 'A' <= c <= 'Z' ==> 'a' <= r <= 'z' && r as int == c as int + 32
    ensures !('A' <= c <= 'Z') ==> r == c
  {
    if 'A' <= c <= 'Z' then (c as int + 32) as char else c
  }

  predicate AllDigits(s: string) {
    forall m :: 0 <= m < |s| ==> IsDigit(s[m])
  }

  /**
   * The end of the longest run of characters satisfying `P` that starts at `i`:
   * the greedy part of `\d+`, `\s*` and `[\d.]+`.
   */
  function Span(s: string, i: nat, P: char -> bool): (j: nat)
    requires i <= |s|
    ensures i <= j <= |s|
    ensures forall m :: i <= m < j ==> P(s[m])
    ensures j == |s| || !P(s[j])
    decreases |s| - i
  {
    if i < |s| && P(s[i]) then Span(s, i + 1, P) else i
  }

  /** A run of `P` characters that ends at a non-`P` character (or the end) is the greedy span. */
  lemma SpanUnique(s: string, i: nat, P: char -> bool, j: nat)
    requires i <= j <= |s|
    requires forall m :: i <= m < j ==> P(s[m])
    requires j == |s| || !P(s[j])
    ensures Span(s, i, P) == j
  {
  }

  function DigitValue(c: char): (d: nat)
    requires IsDigit(c)
    ensures d < 10
  {
    c as int - '0' as int
  }

  function DigitChar(d: nat): (c: char)
    requires d < 10
    ensures IsDigit(c) && DigitValue(c) == d
  {
    ('0' as int + d) as char
  }

  /** Python's `int(ds)` for a string of ASCII digits: the decimal value, leading zeros allowed. */
  function DigitsValue(ds: string): nat
    requires AllDigits(ds)
    decreases |ds|
  {
    if ds == [] then 0 else 10 * DigitsValue(ds[..|ds| - 1]) + DigitValue(ds[|ds| - 1])
  }

  /** Python's `str(n)` for a non-negative integer: a non-empty digit string without leading zeros. */
  function Decimal(n: nat): (s: string)
    ensures |s| > 0 && AllDigits(s)
    ensures s[0] == '0' ==> n == 0 && |s| == 1
    decreases n
  {
    if n < 10 then [DigitChar(n)] else Decimal(n / 10) + [DigitChar(n % 10)]
  }

  /** A decimal numeral without leading zeros, the form `str(n)` produces. */
  predicate Canonical(ds: string) {
    |ds| > 0 && AllDigits(ds) && (ds[0] == '0' ==> |ds| == 1)
  }

  /** `int(str(n)) == n`. */
  lemma {:induction false} DecimalRoundTrip(n: nat)
    ensures DigitsValue(Decimal(n)) == n
    decreases n
  {
    if n >= 10 {
      var s := Decimal(n);
      assert s[..|s| - 1] == Decimal(n / 10);
      DecimalRoundTrip(n / 10);
    }
  }

  /** A numeral whose first digit is not zero has a positive value. */
  lemma {:induction false} LeadingDigitPositive(ds: string)
    requires |ds| > 0 && AllDigits(ds) && ds[0] != '0'
    ensures DigitsValue(ds) > 0
    decreases |ds|
  {
    if |ds| > 1 {
      LeadingDigitPositive(ds[..|ds| - 1]);
    }
  }

  /** `str(int(ds)) == ds` for every canonical numeral. */
  lemma {:induction false} DigitsValueRoundTrip(ds: string)
    requires Canonical(ds)
    ensures Decimal(DigitsValue(ds)) == ds
    decreases |ds|
  {
    var last := ds[|ds| - 1];
    assert DigitChar(DigitValue(last)) == last;
    if |ds| > 1 {
      var init := ds[..|ds| - 1];
      LeadingDigitPositive(init);
      DigitsValueRoundTrip(init);
      assert ds == init + [last];
    }
  }
}
