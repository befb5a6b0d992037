/**
 * What `int(s)` makes of the numerals `str(n)` and `{n:02d}` write: each
 * reads back as the number it was written from.
 */
module Reading {
  import opened Outcomes
  import opened Text
  import opened Numerals

  /** Once stripping changes nothing, `int` is the signed reading. */
  lemma ParseStripped(s: string)
    requires StripBy(s, IntSpace) == s
    ensures ParseInt(s) == ParseSigned(s)
  {
  }

  /** A run of digits denoting `m` is read as `m`. */
  lemma ParseDigits(d: string, m: int)
    requires |d| > 0 && AllDigits(d) && Value(d) as int == m
    ensures ParseInt(d) == Some(m)
  {
    NumeralUnstripped(d);
    ParseStripped(d);
    SignedDigits(d, m);
  }

  lemma SignedDigits(d: string, m: int)
    requires |d| > 0 && AllDigits(d) && Value(d) as int == m
    ensures ParseSigned(d) == Some(m)
  {
    assert IsDigit(d[0]);
  }

  /** A minus sign followed by a run of digits denoting `m` is read as `-m`. */
  lemma ParseNegated(d: string, m: int)
    requires |d| > 0 && AllDigits(d) && Value(d) as int == m
    ensures ParseInt("-" + d) == Some(-m)
  {
    NegativeUnstripped(d);
    ParseStripped("-" + d);
    SignedNegated(d, m);
  }

  lemma SignedNegated(d: string, m: int)
    requires |d| > 0 && AllDigits(d) && Value(d) as int == m
    ensures ParseSigned("-" + d) == Some(-m)
  {
    assert ("-" + d)[1..] == d;
  }

  /** A negative number written with its sign is read back. */
  lemma NegativeRoundTrip(n: int)
    requires n < 0
    ensures ParseInt(Str(n)) == Some(n)
    ensures ParseInt(Pad2(n)) == Some(n)
  {
    ValueOfDigits(-n);
    ParseNegated(Digits(-n), -n);
    assert Str(n) == "-" + Digits(-n) == Pad2(n);
  }

  /** `Str` writes a non-empty numeral over digits and '-' that `ParseInt`
      reads back as the same number. */
  lemma StrRoundTrip(n: int)
    ensures |Str(n)| >= 1
    ensures forall i :: 0 <= i < |Str(n)| ==> NumeralChar(Str(n)[i])
    ensures ParseInt(Str(n)) == Some(n)
  {
    NumeralsOfDigits(n);
    if n < 0 {
      NegativeRoundTrip(n);
    } else {
      ValueOfDigits(n);
      ParseDigits(Digits(n), n);
      assert Str(n) == Digits(n);
    }
  }

  /** `ParseInt` reads what `Pad2` writes back as the same number. */
  lemma Pad2RoundTrip(n: int)
    ensures ParseInt(Pad2(n)) == Some(n)
  {
    if n < 0 {
      NegativeRoundTrip(n);
    } else {
      Pad2Value(n);
      ParseDigits(Pad2(n), n);
    }
  }

  /** `int()` skips less than `str.strip()`: the file separator U+001C is
      stripped as whitespace but makes `int()` raise. */
  lemma SeparatorNotSkipped()
    ensures Strip("\U{1C}7") == "7"
    ensures ParseInt("\U{1C}7") == None
  {
    var s := "\U{1C}7";
    assert s[1..] == "7";
    assert TrimStart(s, IsSpace) == "7";
    assert TrimStart(s, IntSpace) == s;
    assert !AllDigits(s);
  }
}
