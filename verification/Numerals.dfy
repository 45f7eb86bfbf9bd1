/** Decimal numerals as code units. */
module Numerals {
  import opened JsText

  /** `String(n)` of a natural number. */
  function Digits(n: nat): Text {
    if n < 10 then [0x30 + n] else Digits(n / 10) + [0x30 + n % 10]
  }

  predicate IsDigit(c: CodeUnit) { 0x30 <= c <= 0x39 }

  predicate IsNumeral(t: Text) { forall i :: 0 <= i < |t| ==> IsDigit(t[i]) }

  /** `Number(t)` of a string of decimal digits. */
  function Number(t: Text): nat
    requires IsNumeral(t)
  {
    if t == [] then 0 else Number(t[..|t| - 1]) * 10 + (t[|t| - 1] - 0x30)
  }

  lemma NumberOne(d: nat)
    requires d < 10
    ensures IsNumeral([0x30 + d]) && Number([0x30 + d]) == d
  {
    assert [0x30 + d][..0] == [];
  }

  lemma NumberSnoc(t: Text, d: nat)
    requires IsNumeral(t) && d < 10
    ensures IsNumeral(t + [0x30 + d]) && Number(t + [0x30 + d]) == Number(t) * 10 + d
  {
    assert (t + [0x30 + d])[..|t|] == t;
  }

  /** A numeral does not start with a zero, except that of 0. */
  lemma {:induction false} NoLeadingZero(n: nat)
    ensures n == 0 ==> Digits(n) == [0x30]
    ensures n > 0 ==> Digits(n) != [] && Digits(n)[0] != 0x30
  {
    if n >= 10 {
      NoLeadingZero(n / 10);
    }
  }

  lemma DigitsStep(n: nat)
    ensures n < 10 ==> Digits(n) == [0x30 + n]
    ensures n >= 10 ==> Digits(n) == Digits(n / 10) + [0x30 + n % 10]
  {
  }

  /** Reading the digits of a number gives it back. */
  lemma {:induction false} NumberOfDigits(n: nat)
    ensures IsNumeral(Digits(n)) && Number(Digits(n)) == n
  {
    hide *;
    DigitsStep(n);
    if n < 10 {
      NumberOne(n);
    } else {
      NumberOfDigits(n / 10);
      NumberSnoc(Digits(n / 10), n % 10);
    }
  }

  /** The digits of an integer, after its sign when it is negative. */
  function Decimal(n: int): Text { if n < 0 then [0x2D] + Digits(-n) else Digits(n) }

  /** Different integers have different numerals. */
  lemma DecimalIsInjective(m: int, n: int)
    ensures Decimal(m) == Decimal(n) <==> m == n
  {
    DecimalMeans(m);
    DecimalMeans(n);
    hide Decimal, Number, IsNumeral;
  }

  /** The integer can be read off its numeral. */
  lemma DecimalMeans(n: int)
    ensures Decimal(n) != []
    ensures n < 0 <==> Decimal(n)[0] == 0x2D
    ensures n < 0 ==> IsNumeral(Decimal(n)[1..]) && Number(Decimal(n)[1..]) == -n
    ensures n >= 0 ==> IsNumeral(Decimal(n)) && Number(Decimal(n)) == n
  {
    var k := if n < 0 then -n else n;
    NumberOfDigits(k);
    DigitsNotEmpty(k);
    hide Digits, Number;
    assert n < 0 ==> Decimal(n)[1..] == Digits(k);
    assert IsDigit(Digits(k)[0]);
  }

  lemma DigitsNotEmpty(n: nat)
    ensures Digits(n) != []
  {
  }
}
