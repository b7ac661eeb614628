/**
 * The 64-bit multiply-then-divide of compat/backport-5.9.c.  Words are natural
 * numbers below 2^64; every product and sum the C code forms in a word is
 * reduced modulo 2^64 here.
 */
module MulDiv {
  const TWO_64: nat := 0x1_0000_0000_0000_0000

  function Times(m: nat, n: nat): nat {
    m * n
  }

  /** The quotient rounded down. */
  function Quotient(n: nat, d: nat): nat
    requires d > 0
  {
    n / d
  }

  function Remainder(n: nat, d: nat): (r: nat)
    requires d > 0
    ensures r < d
  {
    n % d
  }

  /** The value of n kept in a 64-bit word. */
  function Wrap(n: nat): (r: nat)
    ensures r < TWO_64
    ensures n < TWO_64 ==> r == n
  {
    n % TWO_64
  }

  lemma TimesSum(a: nat, m: nat, n: nat)
    ensures Times(a, m + n) == Times(a, m) + Times(a, n)
  {
  }

  lemma TimesCommutes(m: nat, n: nat)
    ensures Times(m, n) == Times(n, m)
  {
  }

  lemma TimesAssociates(a: nat, b: nat, c: nat)
    ensures Times(Times(a, b), c) == Times(a, Times(b, c))
  {
  }

  lemma TimesGrows(a: nat, m: nat, n: nat)
    requires m <= n
    ensures Times(a, m) <= Times(a, n)
    ensures a > 0 && m < n ==> Times(a, m) + a <= Times(a, n)
  {
    hide Times;
    TimesSum(a, m, n - m);
    if m < n {
      TimesSum(a, 1, n - m - 1);
      assert Times(a, 1) == a by {
        TimesOne(a);
      }
    }
  }

  lemma TimesOne(a: nat)
    ensures Times(a, 1) == a && Times(1, a) == a && Times(a, 0) == 0 && Times(0, a) == 0
  {
  }

  lemma DivisionRule(n: nat, d: nat)
    requires d > 0
    ensures n == Times(d, Quotient(n, d)) + Remainder(n, d)
  {
  }

  lemma QuotientUnique(n: nat, d: nat, q: nat, r: nat)
    requires n == Times(d, q) + r && r < d
    ensures Quotient(n, d) == q
  {
    hide Times, Quotient, Remainder;
    DivisionRule(n, d);
    if q < Quotient(n, d) {
      TimesGrows(d, q, Quotient(n, d));
    } else if Quotient(n, d) < q {
      TimesGrows(d, Quotient(n, d), q);
    }
  }

  lemma QuotientBelow(n: nat, d: nat, q: nat)
    requires d > 0 && n < Times(d, q)
    ensures Quotient(n, d) < q
  {
    hide Times, Quotient, Remainder;
    DivisionRule(n, d);
    if q <= Quotient(n, d) {
      TimesGrows(d, q, Quotient(n, d));
    }
  }

  lemma WrapSum(m: nat, n: nat)
    ensures Wrap(Wrap(m) + n) == Wrap(m + n)
  {
  }

  function Pow2(n: nat): (r: nat)
    ensures r > 0
  {
    if n == 0 then 1 else 2 * Pow2(n - 1)
  }

  /** The index of the highest set bit, -1 for zero: fls64(n) - 1. */
  function Log2(n: nat): (r: int)
    ensures r >= -1
    ensures (r == -1) == (n == 0)
    ensures n > 0 ==> Pow2(r) <= n
    ensures n < Pow2(r + 1)
  {
    if n == 0 then -1 else
      var r := Log2(n / 2);
      assert Pow2(r + 2) == 2 * Pow2(r + 1);
      r + 1
  }

  lemma {:induction false} Pow2Sum(m: nat, n: nat)
    ensures Pow2(m + n) == Times(Pow2(m), Pow2(n))
  {
    hide Times;
    if m == 0 {
      TimesOne(Pow2(n));
    } else {
      Pow2Sum(m - 1, n);
      assert m + n - 1 == m - 1 + n;
      TimesSum(Pow2(n), Pow2(m - 1), Pow2(m - 1));
      TimesCommutes(Pow2(n), Pow2(m - 1));
      TimesCommutes(Pow2(n), Pow2(m));
    }
  }

  lemma {:induction false} Pow2Grows(m: nat, n: nat)
    requires m <= n
    ensures Pow2(m) <= Pow2(n)
    decreases n
  {
    if m < n {
      Pow2Grows(m, n - 1);
    }
  }

  lemma Pow2Of64()
    ensures Pow2(2) == 4 && Pow2(64) == TWO_64 == 2 * Pow2(63)
  {
    assert Pow2(4) == 16;
    Pow2Sum(4, 4);
    Pow2Sum(8, 8);
    Pow2Sum(16, 16);
    Pow2Sum(32, 32);
  }

  lemma Log2OfWord(n: nat)
    requires n < TWO_64
    ensures Log2(n) <= 63
    ensures Log2(n) == 63 <==> n >= Pow2(63)
  {
    hide Log2;
    Pow2Of64();
    if Log2(n) > 63 {
      Pow2Grows(64, Log2(n));
    } else if Log2(n) < 63 {
      Pow2Grows(Log2(n) + 1, 63);
    }
  }

  lemma ProductBelow(a: nat, b: nat, m: nat, n: nat)
    requires a < Pow2(m) && b < Pow2(n)
    ensures Times(a, b) < Pow2(m + n)
  {
    hide Times, Pow2;
    Pow2Sum(m, n);
    TimesGrows(a, b, Pow2(n));
    TimesCommutes(a, Pow2(n));
    TimesCommutes(Pow2(m), Pow2(n));
    TimesGrows(Pow2(n), a, Pow2(m));
  }

  /** Two words whose logarithms add up to at most 62 have a product that fits in a word. */
  lemma ProductFits(a: nat, b: nat)
    requires Log2(a) + Log2(b) <= 62
    ensures Times(a, b) < TWO_64
  {
    hide Times, Pow2, Log2;
    Pow2Of64();
    if a == 0 || b == 0 {
      TimesOne(a);
      TimesOne(b);
    } else {
      ProductBelow(a, b, Log2(a) + 1, Log2(b) + 1);
      Pow2Grows(Log2(a) + 1 + (Log2(b) + 1), 64);
    }
  }

  /** After dropping the low bits the product fits too. */
  lemma ShiftedProductFits(a: nat, b: nat, shift: nat)
    requires a < TWO_64 && b > 0
    requires shift == Log2(a) + Log2(b) - 62
    ensures Times(a, Quotient(b, Pow2(shift))) < TWO_64
  {
    hide Times, Quotient, Pow2, Log2;
    Log2OfWord(a);
    Pow2Of64();
    var n := Log2(b) + 1 - shift;
    Pow2Sum(shift, n);
    QuotientBelow(b, Pow2(shift), Pow2(n));
    ProductBelow(a, Quotient(b, Pow2(shift)), Log2(a) + 1, n);
  }

  /** The code distrusts the plain product. */
  predicate MayOverflow(a: nat, b: nat) {
    Log2(a) + Log2(b) > 62
  }

  function Shift(a: nat, b: nat, c: nat): int
    requires c > 0
  {
    Log2(a) + Log2(Remainder(b, c)) - 62
  }

  /** The low bits of the remainder and of the divisor are thrown away. */
  predicate DropsBits(a: nat, b: nat, c: nat)
    requires c > 0
  {
    MayOverflow(a, b) && Shift(a, b, c) > 0
  }

  /** Nothing is lost: no bits are dropped, or only zero bits are. */
  predicate Lossless(a: nat, b: nat, c: nat)
    requires c > 0
  {
    DropsBits(a, b, c) ==>
      var d := Pow2(Shift(a, b, c));
      Remainder(Remainder(b, c), d) == 0 && Remainder(c, d) == 0
  }

  /** The shift count stays below the word size; a caller sees this from two top bits. */
  lemma ShiftBelowWordSize(a: nat, b: nat, c: nat)
    requires a < TWO_64 && b < TWO_64 && 0 < c < TWO_64
    ensures Shift(a, b, c) < 64 <==> !(a >= Pow2(63) && Remainder(b, c) >= Pow2(63))
  {
    hide Pow2, Log2, Remainder;
    Log2OfWord(a);
    Log2OfWord(Remainder(b, c));
  }

  /** a * b / c from the quotient and the remainder of b. */
  lemma SplitQuotient(a: nat, b: nat, c: nat)
    requires c > 0
    ensures Quotient(Times(a, b), c)
         == Times(Quotient(b, c), a) + Quotient(Times(a, Remainder(b, c)), c)
  {
    hide Times, Quotient, Remainder;
    var q, r := Quotient(b, c), Remainder(b, c);
    var p := Times(a, r);
    DivisionRule(b, c);
    DivisionRule(p, c);
    calc {
      Times(a, b);
      { TimesSum(a, Times(c, q), r); }
      Times(a, Times(c, q)) + p;
      { TimesCommutes(a, Times(c, q)); TimesAssociates(c, q, a); }
      Times(c, Times(q, a)) + p;
      { TimesSum(c, Times(q, a), Quotient(p, c)); }
      Times(c, Times(q, a) + Quotient(p, c)) + Remainder(p, c);
    }
    QuotientUnique(Times(a, b), c, Times(q, a) + Quotient(p, c), Remainder(p, c));
  }

  /** Removing a common factor from the dividend and the divisor keeps the quotient. */
  lemma CancelFactor(n: nat, c: nat, d: nat)
    requires c > 0 && d > 0
    ensures Times(d, c) > 0
    ensures Quotient(Times(d, n), Times(d, c)) == Quotient(n, c)
  {
    hide Times, Quotient, Remainder;
    var q, r := Quotient(n, c), Remainder(n, c);
    DivisionRule(n, c);
    TimesSum(d, Times(c, q), r);
    TimesAssociates(d, c, q);
    TimesGrows(d, r, c);
    QuotientUnique(Times(d, n), Times(d, c), q, Times(d, r));
  }

  lemma CancelShift(a: nat, b: nat, c: nat, d: nat)
    requires d > 0 && c > 0 && Remainder(b, d) == 0 && Remainder(c, d) == 0
    ensures Quotient(c, d) > 0
    ensures Quotient(Times(a, Quotient(b, d)), Quotient(c, d)) == Quotient(Times(a, b), c)
  {
    hide Times, Quotient, Remainder;
    var b', c' := Quotient(b, d), Quotient(c, d);
    DivisionRule(b, d);
    DivisionRule(c, d);
    TimesOne(d);
    TimesCommutes(a, Times(d, b'));
    TimesAssociates(d, b', a);
    TimesCommutes(a, b');
    CancelFactor(Times(a, b'), c', d);
  }

  /** What the two-part sum is when bits are dropped. */
  function Truncated(a: nat, b: nat, c: nat): nat
    requires c > 0 && DropsBits(a, b, c)
  {
    var d := Pow2(Shift(a, b, c));
    var low, divisor := Quotient(Remainder(b, c), d), Quotient(c, d);
    Times(Quotient(b, c), a) + if divisor == 0 then 0 else Quotient(Times(a, low), divisor)
  }

  /**
   * mul_u64_u64_div_u64.  Division by zero and a shift by the whole word size
   * are undefined in C and left to the caller.
   */
  method MulDivWords(a: nat, b: nat, c: nat) returns (result: nat)
    requires a < TWO_64 && b < TWO_64 && 0 < c < TWO_64
    requires Shift(a, b, c) < 64
    ensures result < TWO_64
    ensures Lossless(a, b, c) ==> result == Wrap(Quotient(Times(a, b), c))
    ensures DropsBits(a, b, c) ==> result == Wrap(Truncated(a, b, c))
  {
    hide Times, Quotient, Remainder, Wrap, Pow2, Log2;
    var res: nat, low: nat, divisor: nat := 0, b, c;
    if Log2(a) + Log2(b) > 62 {
      SplitQuotient(a, b, c);
      var div := Quotient(b, c);
      res := Wrap(Times(div, a));
      low := Remainder(b, c);
      var shift := Log2(a) + Log2(low) - 62;
      if shift > 0 {
        Log2OfWord(a);
        ShiftedProductFits(a, low, shift);
        if Lossless(a, b, c) {
          CancelShift(a, low, c, Pow2(shift));
        }
        low := Quotient(low, Pow2(shift));
        divisor := Quotient(c, Pow2(shift));
        if divisor == 0 {
          return res;
        }
      } else {
        ProductFits(a, low);
      }
      WrapSum(Times(div, a), Quotient(Times(a, low), divisor));
    } else {
      ProductFits(a, b);
    }
    result := Wrap(res + Quotient(Wrap(Times(a, low)), divisor));
  }

  /** Dropping bits can lose the whole result: 2^63 * 3 / 5 comes out as 0. */
  lemma TruncatedExample()
    ensures DropsBits(Pow2(63), 3, 5) && !Lossless(Pow2(63), 3, 5)
    ensures Truncated(Pow2(63), 3, 5) == 0
    ensures Quotient(Times(Pow2(63), 3), 5) > 0x4000_0000_0000_0000
  {
    Pow2Of64();
    Log2OfWord(Pow2(63));
    assert Log2(3) == 1;
    assert Shift(Pow2(63), 3, 5) == 2;
  }
}
