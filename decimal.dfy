/**
 * Decimal rendering of non-negative integers, as `printf`'s `%lu` and `%zd`
 * conversions write them for non-negative values: the digits of the number,
 * most significant first, with no sign, padding or leading zero.
 */
module Decimal {

  predicate IsDigit(c: char)
  {
    '0' <= c <= '9'
  }

  predicate AllDigits(s: string)
  {
    forall i | 0 <= i < |s| :: IsDigit(s[i])
  }

  /** A decimal numeral as `printf` writes one: non-empty, and no leading zero unless it is "0". */
  predicate IsCanonical(s: string)
  {
    |s| > 0 && AllDigits(s) && (s[0] == '0' ==> |s| == 1)
  }

  function DigitValue(c: char): (d: nat)
    requires IsDigit(c)
    ensures d < 10
  {
    c as int - '0' as int
  }

  function DigitChar(d: nat): (c: char)
    requires d < 10
    ensures IsDigit(c) && DigitValue(c) == d
  {
    ('0' as int + d) as char
  }

  /** The numeral of `n`. */
  function NatToDecimal(n: nat): (s: string)
    ensures IsCanonical(s)
    ensures s == "0" <==> n == 0
    decreases n
  {
    if n < 10 then [DigitChar(n)] else NatToDecimal(n / 10) + [DigitChar(n % 10)]
  }

  /** The number a string of digits denotes. */
  function DecimalValue(s: string): nat
    requires AllDigits(s)
  {
    if s == [] then 0 else DecimalValue(s[..|s| - 1]) * 10 + DigitValue(s[|s| - 1])
  }

  /** Reading back a rendered number gives the number. */
  lemma {:induction false} DecimalValueOfNatToDecimal(n: nat)
    ensures DecimalValue(NatToDecimal(n)) == n
    decreases n
  {
    var s := NatToDecimal(n);
    if n < 10 {
      assert s[..0] == [];
    } else {
      DecimalValueOfNatToDecimal(n / 10);
      assert s[..|s| - 1] == NatToDecimal(n / 10);
    }
  }

  /** A numeral whose first digit is not zero denotes a positive number. */
  lemma {:induction false} LeadingDigitPositive(s: string)
    requires |s| > 0 && AllDigits(s) && s[0] != '0'
    ensures DecimalValue(s) > 0
    decreases |s|
  {
    if |s| == 1 {
      assert s[..0] == [];
    } else {
      LeadingDigitPositive(s[..|s| - 1]);
    }
  }

  /** Rendering the number a canonical numeral denotes gives that numeral back. */
  lemma {:induction false} NatToDecimalOfDecimalValue(s: string)
    requires IsCanonical(s)
    ensures NatToDecimal(DecimalValue(s)) == s
    decreases |s|
  {
    var init := s[..|s| - 1];
    var last := s[|s| - 1];
    if |s| == 1 {
      assert init == [];
      assert s == [last];
    } else {
      assert s[0] != '0';
      assert init[0] == s[0];
      LeadingDigitPositive(init);
      NatToDecimalOfDecimalValue(init);
      var v := DecimalValue(s);
      assert v == DecimalValue(init) * 10 + DigitValue(last);
      assert v / 10 == DecimalValue(init) && v % 10 == DigitValue(last);
      assert DigitChar(DigitValue(last)) == last;
      assert s == init + [last];
    }
  }
}
