/**
 * Decimal numerals as Python writes and reads them: `str(n)`, the
 * `{n:02d}` format used for month numbers, and `int(s)`.
 */
module Numerals {
  import opened Outcomes
  import opened Text

  predicate IsDigit(c: char) {
    '0' <= c <= '9'
  }

  predicate AllDigits(s: string) {
    forall i :: 0 <= i < |s| ==> IsDigit(s[i])
  }

  function DigitChar(d: nat): (c: char)
    requires d < 10
    ensures IsDigit(c)
  {
    ('0' as int + d) as char
  }

  function DigitValue(c: char): nat
    requires IsDigit(c)
  {
    c as int - '0' as int
  }

  /** The shortest decimal numeral of `n`, most significant digit first. */
  function Digits(n: nat): (r: string)
    ensures |r| >= 1 && AllDigits(r)
    ensures |r| == 1 <==> n < 10
    decreases n
  {
    if n < 10 then [DigitChar(n)] else Digits(n / 10) + [DigitChar(n % 10)]
  }

  /** The number a run of decimal digits denotes, 0 for the empty run. */
  function Value(s: string): nat
    requires AllDigits(s)
  {
    if |s| == 0 then 0 else Value(s[..|s| - 1]) * 10 + DigitValue(s[|s| - 1])
  }

  /** Reading a numeral back gives the number it was written from. */
  lemma {:induction false} ValueOfDigits(n: nat)
    ensures Value(Digits(n)) == n
    decreases n
  {
    if n >= 10 {
      ValueOfDigits(n / 10);
      var s := Digits(n);
      assert s[..|s| - 1] == Digits(n / 10);
    }
  }

  /** Two numbers with the same numeral are equal. */
  lemma DigitsInjective(n: nat, m: nat)
    requires Digits(n) == Digits(m)
    ensures n == m
  {
    ValueOfDigits(n);
    ValueOfDigits(m);
  }

  /** Python's `str(n)` for an integer. */
  function Str(n: int): string {
    if n < 0 then "-" + Digits(-n) else Digits(n)
  }

  /** Python's `f'{n:02d}'`: at least two characters, zero-padded after the
      sign, so a negative number is its sign followed by its digits. */
  function Pad2(n: int): string {
    if n < 0 then "-" + Digits(-n)
    else if n < 10 then "0" + Digits(n)
    else Digits(n)
  }

  /** The characters a numeral written by `Str` or `Pad2` can contain. */
  predicate NumeralChar(c: char) {
    IsDigit(c) || c == '-'
  }

  /** The whitespace `int(s)` skips around a numeral. CPython first turns
      every non-ASCII character `str.isspace()` accepts into a space and
      copies ASCII characters unchanged, then skips only " \t\n\v\f\r"; so
      the ASCII separators U+001C..U+001F, which `str.strip()` removes, are
      not skipped here. */
  predicate IntSpace(c: char) {
    if c as int < 128 then c == ' ' || ('\t' <= c <= '\r') else IsSpace(c)
  }

  /** Python's `int(s)` in base 10: surrounding whitespace is ignored, one
      optional sign is allowed, then at least one ASCII digit; anything else
      raises `ValueError`, modelled as `None`. */
  function ParseInt(s: string): Option<int> {
    ParseSigned(StripBy(s, IntSpace))
  }

  /** The reading of `int(s)` once the whitespace is gone. */
  function ParseSigned(t: string): Option<int> {
    if |t| > 0 && (t[0] == '-' || t[0] == '+') then
      var body := t[1..];
      if |body| > 0 && AllDigits(body) then
        var v: int := Value(body);
        Some(if t[0] == '-' then -v else v)
      else None
    else if |t| > 0 && AllDigits(t) then Some(Value(t))
    else None
  }

  /** A numeral has no whitespace at either end. */
  lemma NumeralUnstripped(s: string)
    requires |s| > 0 && (s[0] == '-' || IsDigit(s[0])) && IsDigit(s[|s| - 1])
    ensures StripBy(s, IntSpace) == s
  {
    StripByUnchanged(s, IntSpace);
  }

  /** Neither does a minus sign followed by digits. */
  lemma NegativeUnstripped(d: string)
    requires |d| > 0 && AllDigits(d)
    ensures StripBy("-" + d, IntSpace) == "-" + d
  {
    var s := "-" + d;
    assert s[0] == '-' && s[|s| - 1] == d[|d| - 1];
    NumeralUnstripped(s);
  }

  /** Both writers use only digits and the minus sign. */
  lemma NumeralsOfDigits(n: int)
    ensures forall i :: 0 <= i < |Str(n)| ==> NumeralChar(Str(n)[i])
    ensures forall i :: 0 <= i < |Pad2(n)| ==> NumeralChar(Pad2(n)[i])
  {
    var d := if n < 0 then Digits(-n) else Digits(n);
    assert forall i :: 0 <= i < |d| ==> NumeralChar(d[i]);
  }

  /** `Pad2` writes at least two characters, digits and '-' only; for 0..99
      they are exactly the two decimal digits of the number. */
  lemma Pad2Shape(n: int)
    ensures |Pad2(n)| >= 2
    ensures forall i :: 0 <= i < |Pad2(n)| ==> NumeralChar(Pad2(n)[i])
    ensures 0 <= n < 100 ==> Pad2(n) == [DigitChar(n / 10), DigitChar(n % 10)]
  {
    NumeralsOfDigits(n);
    if 10 <= n < 100 {
      assert Digits(n / 10) == [DigitChar(n / 10)];
    }
  }

  /** A non-negative number's padded numeral is a run of digits denoting it. */
  lemma Pad2Value(n: nat)
    ensures |Pad2(n)| > 0 && AllDigits(Pad2(n)) && Value(Pad2(n)) == n
  {
    ValueOfDigits(n);
    if n < 10 {
      var s := Pad2(n);
      assert s == [DigitChar(0), DigitChar(n)];
      assert s[..1] == [DigitChar(0)];
      assert Value(s[..1]) == 0;
    }
  }
}
