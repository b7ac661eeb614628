/**
 * Decimal notation of the whole numbers, most significant digit first and
 * without superfluous zeros.
 */
module Numerals {
  const DIGITS := "0123456789"

  function Digit(d: nat): char
    requires d < 10
  {
    DIGITS[d]
  }

  function Numeral(n: nat): (s: string)
    ensures s != ""
  {
    if n < 10 then [Digit(n)] else Numeral(n / 10) + [Digit(n % 10)]
  }

  predicate AllDigits(s: string) {
    forall i | 0 <= i < |s| :: s[i] in DIGITS
  }

  function Zeros(n: nat): string {
    seq(n, _ => '0')
  }

  lemma DigitChar(d: nat)
    requires d < 10
    ensures Digit(d) in DIGITS && Digit(d) as int == '0' as int + d
  {
  }

  lemma {:induction false} NumeralDigits(n: nat)
    ensures AllDigits(Numeral(n)) && (n > 0 ==> Numeral(n)[0] != '0')
  {
    DigitChar(n % 10);
    if n >= 10 {
      NumeralDigits(n / 10);
    }
  }

  /** Digits without a superfluous zero are the notation of a number. */
  lemma {:induction false} NumeralOf(s: string) returns (n: nat)
    requires s != "" && AllDigits(s) && (s[0] == '0' ==> |s| == 1)
    ensures s == Numeral(n) && (s[0] != '0' ==> n > 0)
    decreases |s|
  {
    var t, c := s[..|s| - 1], s[|s| - 1];
    var d := DigitOf(c);
    assert s == t + [c];
    if t == "" {
      n := d;
      assert t + [c] == [c];
    } else {
      var k := NumeralOf(t);
      n := 10 * k + d;
      assert n / 10 == k && n % 10 == d;
    }
  }

  lemma DigitOf(c: char) returns (d: nat)
    requires c in DIGITS
    ensures d < 10 && Digit(d) == c
  {
    d :| 0 <= d < |DIGITS| && DIGITS[d] == c;
  }

  lemma DigitRange(c: char)
    ensures c in DIGITS <==> '0' <= c <= '9'
  {
    if '0' <= c <= '9' {
      DigitChar(c as int - '0' as int);
    }
  }
}
