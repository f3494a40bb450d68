/**
  Signed base-10 rendering of integers, as Go's `%d` verb prints them:
  an optional '-', then the digits of the magnitude, no padding, no '+'.
 */
module DecimalText {
  import opened Optional

  predicate IsDigit(c: char) {
    '0' <= c <= '9'
  }

  function DigitChar(d: nat): (c: char)
    requires d < 10
    ensures IsDigit(c) && c as int - '0' as int == d
  {
    "0123456789"[d]
  }

  function DigitValue(c: char): (d: nat)
    requires IsDigit(c)
    ensures d < 10
  {
    c as int - '0' as int
  }

  predicate AllDigits(s: string) {
    forall i :: 0 <= i < |s| ==> IsDigit(s[i])
  }

  /** Decimal digits of n, most significant first, without leading zeros. */
  function Digits(n: nat): (s: string)
    ensures |s| >= 1
    ensures AllDigits(s)
    ensures |s| > 1 ==> s[0] != '0'
    ensures s[0] == '0' ==> n == 0
  {
    if n < 10 then [DigitChar(n)] else Digits(n / 10) + [DigitChar(n % 10)]
  }

  /** Signed decimal text of x: non-empty, with a leading '-' exactly for negative x. */
  function Decimal(x: int): (s: string)
    ensures |s| >= 1
    ensures s[0] == '-' <==> x < 0
  {
    if x < 0 then "-" + Digits(-x) else Digits(x)
  }

  /** Apart from a leading '-', the text is all digits. */
  lemma DecimalShape(x: int)
    ensures IsDigit(Decimal(x)[0]) <==> x >= 0
    ensures AllDigits(Decimal(x)[1..])
  {
    if x < 0 {
      assert Decimal(x)[1..] == Digits(-x);
    }
  }

  /** Value of a digit string, most significant first. */
  function DigitsValue(s: string): nat
    requires AllDigits(s)
  {
    if s == [] then 0 else 10 * DigitsValue(s[..|s| - 1]) + DigitValue(s[|s| - 1])
  }

  /** Reads back an optionally signed, non-empty digit string. */
  function ParseDecimal(s: string): Option<int> {
    if |s| >= 2 && s[0] == '-' && AllDigits(s[1..]) then Some(-(DigitsValue(s[1..]) as int))
    else if |s| >= 1 && AllDigits(s) then Some(DigitsValue(s))
    else None
  }

  lemma {:induction false} DigitsValueOfDigits(n: nat)
    ensures DigitsValue(Digits(n)) == n
  {
    var s := Digits(n);
    if n >= 10 {
      DigitsValueOfDigits(n / 10);
      assert s[..|s| - 1] == Digits(n / 10);
    }
  }

  /** Reading the rendering back gives the number: the text is unambiguous. */
  lemma ParseDecimalOfDecimal(x: int)
    ensures ParseDecimal(Decimal(x)) == Some(x)
  {
    var s := Decimal(x);
    DecimalShape(x);
    if x < 0 {
      var d := Digits(-x);
      assert s == "-" + d;
      assert s[1..] == d;
      assert AllDigits(s[1..]);
      DigitsValueOfDigits(-x);
    } else {
      assert AllDigits(s);
      DigitsValueOfDigits(x);
    }
  }

  /** Different numbers never render the same. */
  lemma DecimalInjective(x: int, y: int)
    requires Decimal(x) == Decimal(y)
    ensures x == y
  {
    ParseDecimalOfDecimal(x);
    ParseDecimalOfDecimal(y);
  }
}
