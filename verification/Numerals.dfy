/** Decimal numerals. */
module Numerals {

  function Digit(n: nat): char
    requires n < 10
  {
    "0123456789"[n]
  }

  function Decimal(n: nat): string {
    if n < 10 then [Digit(n)] else Decimal(n / 10) + [Digit(n % 10)]
  }

  ghost predicate AllDigits(s: string) {
    forall i | 0 <= i < |s| :: '0' <= s[i] <= '9'
  }

  /** What the digits are worth, by their distance from '0'. */
  ghost function ValueOf(s: string): int {
    if s == [] then 0 else ValueOf(s[..|s| - 1]) * 10 + (s[|s| - 1] as int - '0' as int)
  }

  /** Digits worth `n`, without a leading zero but for zero itself. */
  ghost predicate IsNumeral(s: string, n: nat) {
    s != [] && AllDigits(s) && ValueOf(s) == n && (s[0] == '0' ==> s == "0")
  }

  lemma DigitIs(n: nat)
    requires n < 10
    ensures Digit(n) as int - '0' as int == n && '0' <= Digit(n) <= '9' && (Digit(n) == '0' <==> n == 0)
  {}

  lemma ValueSnoc(s: string, c: char)
    ensures ValueOf(s + [c]) == ValueOf(s) * 10 + (c as int - '0' as int)
  {
    assert (s + [c])[..|s|] == s;
  }

  /** One more digit, after digits worth something. */
  lemma NumeralSnoc(s: string, c: char, n: nat)
    requires IsNumeral(s, n) && n > 0 && '0' <= c <= '9'
    ensures s[0] != '0' && IsNumeral(s + [c], n * 10 + (c as int - '0' as int)) && (s + [c])[0] == s[0]
  {
    ValueSnoc(s, c);
    ValueSnoc([], '0');
    assert [] + ['0'] == "0";
  }

  lemma {:induction false} DecimalIsNumeral(n: nat)
    ensures IsNumeral(Decimal(n), n)
  {
    hide Digit, IsNumeral;
    DigitIs(n % 10);
    if n < 10 {
      OneDigit(Digit(n));
    } else {
      DecimalIsNumeral(n / 10);
      NumeralSnoc(Decimal(n / 10), Digit(n % 10), n / 10);
    }
  }

  lemma OneDigit(c: char)
    requires '0' <= c <= '9'
    ensures IsNumeral([c], c as int - '0' as int)
  {
    ValueSnoc([], c);
    assert [] + [c] == [c];
  }

  lemma {:induction false} ValueNonnegative(s: string)
    requires AllDigits(s)
    ensures ValueOf(s) >= 0 && (s != [] && s[0] != '0' ==> ValueOf(s) > 0)
  {
    if s != [] {
      ValueNonnegative(s[..|s| - 1]);
      if |s| > 1 { assert s[..|s| - 1][0] == s[0]; }
    }
  }

  /** A number has one numeral. */
  lemma {:induction false} NumeralIsDecimal(s: string, n: nat)
    requires IsNumeral(s, n)
    ensures s == Decimal(n)
  {
    hide Digit;
    var m := |s| - 1;
    var front, d := s[..m], s[m] as int - '0' as int;
    assert s == front + [s[m]] && 0 <= d < 10;
    DigitIs(d);
    assert Digit(d) == s[m];
    if front != [] {
      assert front[0] == s[0];
      ValueNonnegative(front);
      assert ValueOf(front) == n / 10 && d == n % 10;
      NumeralIsDecimal(front, n / 10);
    } else {
      assert ValueOf(front) == 0 && n == d;
    }
  }
}
