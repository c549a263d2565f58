/**
 Python's `f'{n:02d}'` for a non-negative `n`: the decimal digits of `n`,
 padded on the left with zeros to at least two characters. `ParseDecimal`
 reads such a string back and serves as its inverse.
 */
module Decimal {

  function DigitChar(d: nat): (c: char)
    requires d < 10
    ensures '0' <= c <= '9'
  {
    ('0' as int + d) as char
  }

  predicate IsDigit(c: char)
  {
    '0' <= c <= '9'
  }

  function DigitValue(c: char): (d: nat)
    requires IsDigit(c)
    ensures d < 10 && DigitChar(d) == c
  {
    (c as int - '0' as int) as nat
  }

  predicate AllDigits(s: string)
  {
    forall k :: 0 <= k < |s| ==> IsDigit(s[k])
  }

  /** `str(n)`: the decimal digits of `n`, most significant first, without leading zeros. */
  function Digits(n: nat): (s: string)
    ensures |s| >= 1 && AllDigits(s)
    ensures (n < 10) == (|s| == 1)
    ensures |s| > 1 ==> s[0] != '0'
  {
    if n < 10 then [DigitChar(n)] else Digits(n / 10) + [DigitChar(n % 10)]
  }

  /** `f'{n:02d}'`: a zero before a single digit, the plain digits otherwise. */
  function Pad2(n: nat): (s: string)
    ensures |s| >= 2 && AllDigits(s)
    ensures (s[0] == '0') == (n < 10)
  {
    if n < 10 then ['0', DigitChar(n)] else Digits(n)
  }

  /** `int(s)` for a string of decimal digits. */
  function ParseDecimal(s: string): nat
    requires AllDigits(s)
  {
    if s == [] then 0 else ParseDecimal(s[..|s| - 1]) * 10 + DigitValue(s[|s| - 1])
  }

  lemma {:induction false} DigitsRoundTrip(n: nat)
    ensures ParseDecimal(Digits(n)) == n
  {
    var s := Digits(n);
    if n >= 10 {
      DigitsRoundTrip(n / 10);
      assert s[..|s| - 1] == Digits(n / 10);
    }
  }

  lemma LeadingZero(s: string)
    requires AllDigits(s)
    ensures AllDigits("0" + s) && ParseDecimal("0" + s) == ParseDecimal(s)
    decreases |s|
  {
    if s != [] {
      var t := "0" + s;
      assert t[..|t| - 1] == "0" + s[..|s| - 1];
      LeadingZero(s[..|s| - 1]);
    }
  }

  /**
   `Pad2(n)` is a string of at least two decimal digits that reads back as `n`,
   exactly two digits long when `n` < 100. It is padded no further: it starts
   with a zero only when `n` < 10, and from 10 on it is as long as `str(n)`.
   */
  lemma Pad2Spec(n: nat)
    ensures AllDigits(Pad2(n)) && ParseDecimal(Pad2(n)) == n
    ensures |Pad2(n)| >= 2
    ensures (|Pad2(n)| == 2) == (n < 100)
    ensures (Pad2(n)[0] == '0') == (n < 10)
    ensures |Pad2(n)| == if n < 10 then 2 else |Digits(n)|
  {
    DigitsRoundTrip(n);
    if n < 10 {
      LeadingZero(Digits(n));
    }
    DigitsLength(n);
  }

  lemma {:induction false} DigitsLength(n: nat)
    ensures (|Digits(n)| <= 2) == (n < 100)
  {
    if n >= 10 {
      DigitsLength(n / 10);
    }
  }

  /** Distinct indices give distinct padded strings. */
  lemma Pad2Injective(a: nat, b: nat)
    requires Pad2(a) == Pad2(b)
    ensures a == b
  {
    Pad2Spec(a);
    Pad2Spec(b);
  }

  /** Two-digit padding below 100 is the tens digit then the units digit. */
  lemma Pad2TwoDigits(n: nat)
    requires n < 100
    ensures Pad2(n) == [DigitChar(n / 10), DigitChar(n % 10)]
  {
    if n >= 10 {
      assert Digits(n / 10) == [DigitChar(n / 10)];
    }
  }

  /** Python's `<` on strings: lexicographic by code point, a proper prefix first. */
  predicate StrLess(a: string, b: string)
  {
    if a == [] then b != []
    else if b == [] then false
    else if a[0] != b[0] then a[0] < b[0]
    else StrLess(a[1..], b[1..])
  }

  /** Below 100 the padded strings sort in the numeric order of their indices. */
  lemma Pad2Ordered(a: nat, b: nat)
    requires a < b < 100
    ensures StrLess(Pad2(a), Pad2(b))
  {
    Pad2TwoDigits(a);
    Pad2TwoDigits(b);
    var x, y := Pad2(a), Pad2(b);
    if a / 10 == b / 10 {
      assert x[1..] == [DigitChar(a % 10)] && y[1..] == [DigitChar(b % 10)];
      assert StrLess(x[1..], y[1..]) by {
        assert x[1..][1..] == [] && y[1..][1..] == [];
      }
    }
  }

  /** The ordering stops at 100: "100" sorts before "99". */
  lemma Pad2OrderBreaksAt100()
    ensures StrLess(Pad2(100), Pad2(99))
  {
    assert Digits(1) == "1";
    assert Digits(10) == "10";
    assert Pad2(100) == "100";
    Pad2TwoDigits(99);
  }
}
