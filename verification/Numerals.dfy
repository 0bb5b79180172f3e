/** Positional notation: a number as digits, highest first, in any base. */
module Numerals {
  import opened Arithmetic

  type Byte = x: int | 0 <= x < 256

  function Value(digits: seq<int>, base: int): int {
    if digits == [] then 0 else Product(Value(digits[..|digits| - 1], base), base) + digits[|digits| - 1]
  }

  // The low len digits of v.
  function Numeral(v: int, base: int, len: nat): (digits: seq<int>)
    requires base > 0
    ensures |digits| == len
    decreases len
  {
    if len == 0 then [] else Numeral(Quotient(v, base), base, len - 1) + [Modulo(v, base)]
  }

  predicate AreDigits(digits: seq<int>, base: int) {
    forall k :: 0 <= k < |digits| ==> 0 <= digits[k] < base
  }

  function PowerStep(p: nat, base: nat): nat {
    MulMono(0, p, base);
    Product(p, base)
  }

  function Power(base: nat, k: nat): nat {
    if k == 0 then 1 else PowerStep(Power(base, k - 1), base)
  }

  lemma ValueSnoc(digits: seq<int>, d: int, base: int)
    ensures Value(digits + [d], base) == Value(digits, base) * base + d
  {
    assert (digits + [d])[..|digits|] == digits;
  }

  lemma NumeralSnoc(v: int, d: int, base: int, len: nat)
    requires 0 <= d < base
    ensures Numeral(v * base + d, base, len + 1) == Numeral(v, base, len) + [d]
  {
    QuotientFacts(v, base, d);
    hide Quotient, Modulo;
  }

  lemma {:induction false} NumeralIsDigits(v: int, base: int, len: nat)
    requires base > 0
    ensures AreDigits(Numeral(v, base, len), base)
    decreases len
  {
    hide Quotient, Modulo;
    if len > 0 {
      RemainderBound(v, base);
      NumeralIsDigits(Quotient(v, base), base, len - 1);
    }
  }

  lemma {:induction false} ValueOfNumeral(v: int, base: nat, len: nat)
    requires base > 0 && 0 <= v < Power(base, len)
    ensures Value(Numeral(v, base, len), base) == v
    decreases len
  {
    hide Quotient, Modulo, Product;
    if len > 0 {
      RemainderBound(v, base);
      QuotientBelow(v, base, Power(base, len - 1));
      ValueOfNumeral(Quotient(v, base), base, len - 1);
      var init, last := Numeral(Quotient(v, base), base, len - 1), Modulo(v, base);
      assert (init + [last])[..|init|] == init;
    }
  }

  lemma {:induction false} ValueBelow(digits: seq<int>, base: nat)
    requires AreDigits(digits, base)
    ensures 0 <= Value(digits, base) < Power(base, |digits|)
  {
    hide Product;
    if digits != [] {
      var init := digits[..|digits| - 1];
      ValueBelow(init, base);
      ProductBelow(Value(init, base), digits[|digits| - 1], base, Power(base, |init|));
    }
  }

  lemma {:induction false} NumeralOfValue(digits: seq<int>, base: int)
    requires base > 0 && AreDigits(digits, base)
    ensures Numeral(Value(digits, base), base, |digits|) == digits
  {
    hide *;
    if digits == [] {
      NoDigits(base);
    } else {
      var n := |digits| - 1;
      LastDigit(digits, base);
      ValueOfLast(digits, base);
      NumeralOfValue(digits[..n], base);
      QuotientFacts(Value(digits[..n], base), base, digits[n]);
      LastOfNumeral(Value(digits, base), base, n);
    }
  }

  lemma NoDigits(base: int)
    requires base > 0
    ensures Numeral(Value([], base), base, 0) == []
  {}

  lemma LastDigit(digits: seq<int>, base: int)
    requires digits != [] && AreDigits(digits, base)
    ensures var n := |digits| - 1;
      AreDigits(digits[..n], base) && 0 <= digits[n] < base && digits == digits[..n] + [digits[n]]
  {}

  lemma ValueOfLast(digits: seq<int>, base: int)
    requires digits != []
    ensures Value(digits, base) == Product(Value(digits[..|digits| - 1], base), base) + digits[|digits| - 1]
  {
    hide Product;
  }

  lemma LastOfNumeral(v: int, base: int, len: nat)
    requires base > 0
    ensures Numeral(v, base, len + 1) == Numeral(Quotient(v, base), base, len) + [Modulo(v, base)]
  {
    hide Quotient, Modulo;
  }

  // ----- Powers of two, remainders of remainders -----

  lemma {:induction false} TwoToSum(a: nat, b: nat)
    ensures TwoTo(a + b) == TwoTo(a) * TwoTo(b)
  {
    if a > 0 {
      TwoToSum(a - 1, b);
      DoubleProduct(TwoTo(a - 1), TwoTo(b));
    }
  }

  lemma DoubleProduct(x: int, y: int)
    ensures (2 * x) * y == 2 * (x * y)
  {}

  lemma {:induction false} PowerOfTwoTo(k: nat, len: nat)
    ensures Power(TwoTo(k), len) == TwoTo(k * len)
  {
    if len > 0 {
      PowerOfTwoTo(k, len - 1);
      assert k * len == k * (len - 1) + k;
      TwoToSum(k * (len - 1), k);
    }
  }

  lemma SplitRemainder(x: int, m: int, n: int)
    requires m > 0 && n > 0
    ensures m * n > 0 && x % (m * n) == (x / m % n) * m + x % m
  {
    var q, r := x / m, x % m;
    MulMono(1, n, m);
    MulMono(0, q % n, m);
    MulMono(q % n + 1, n, m);
    assert q == q / n * n + q % n;
    assert x == q / n * (m * n) + ((q % n) * m + r) by {
      assert (q / n * n + q % n) * m == q / n * n * m + (q % n) * m;
      assert q / n * n * m == q / n * (m * n);
    }
    DivMod(q / n, m * n, (q % n) * m + r);
  }

  lemma RemainderOfRemainder(x: int, m: int, n: int)
    requires m > 0 && n > 0
    ensures m * n > 0 && x % (m * n) % m == x % m
  {
    SplitRemainder(x, m, n);
    DivMod(x / m % n, m, x % m);
  }
}
