/** Facts about products and quotients that the solver does not find by itself. */
module Arithmetic {
  function TwoTo(k: nat): nat {
    if k == 0 then 1 else 2 * TwoTo(k - 1)
  }

  lemma {:induction false} TwoToPositive(k: nat)
    ensures TwoTo(k) > 0
  {
    if k > 0 {
      TwoToPositive(k - 1);
    }
  }

  lemma {:induction false} DivideTwice(val: nat, k: nat)
    ensures TwoTo(k) > 0 && val / TwoTo(k) / 2 == val / TwoTo(k + 1)
  {
    TwoToPositive(k);
    var t := TwoTo(k);
    var q, odd := val / t / 2, (val / t) % 2;
    assert val == t * (val / t) + val % t;
    assert t * (2 * q + odd) == q * (2 * t) + t * odd;
    DivMod(q, 2 * t, t * odd + val % t);
  }

  lemma MulMono(x: int, y: int, n: int)
    requires x <= y && 0 <= n
    ensures x * n <= y * n
  {}

  lemma DivMod(j: int, n: int, i: int)
    requires 0 <= i < n
    ensures (j * n + i) / n == j && (j * n + i) % n == i
  {
    var q, r := (j * n + i) / n, (j * n + i) % n;
    assert j * n + i == q * n + r;
    assert (j - q) * n == r - i;
    if j < q {
      MulMono(1, q - j, n);
    } else if j > q {
      MulMono(1, j - q, n);
    }
  }

  lemma DivisionWithin(p: int, n: int, m: int)
    requires 0 < n && 0 <= p < m * n
    ensures 0 <= p / n < m && 0 <= p % n < n && p / n * n + p % n == p
  {
    if p / n >= m {
      MulMono(m, p / n, n);
    }
  }

  // Products and quotients by name, so that proofs can hide what they are.
  function Product(a: int, b: int): int { a * b }

  function Quotient(v: int, n: int): int
    requires n > 0
  {
    v / n
  }

  function Modulo(v: int, n: int): int
    requires n > 0
  {
    v % n
  }

  lemma ProductMono(x: int, y: int, n: int)
    requires x <= y && 0 <= n
    ensures Product(x, n) <= Product(y, n)
  {
    MulMono(x, y, n);
  }

  lemma ProductNext(x: int, n: int)
    ensures Product(0, n) == 0 && Product(x + 1, n) == Product(x, n) + n
  {}

  lemma ProductSum(x: int, y: int, n: int)
    ensures Product(x + y, n) == Product(x, n) + Product(y, n)
  {}

  lemma ProductComm(x: int, y: int)
    ensures Product(x, y) == Product(y, x)
  {}

  lemma QuotientFacts(q: int, n: int, r: int)
    requires 0 <= r < n
    ensures Quotient(Product(q, n) + r, n) == q && Modulo(Product(q, n) + r, n) == r
  {
    DivMod(q, n, r);
  }

  lemma RemainderBound(v: int, n: int)
    requires n > 0
    ensures 0 <= Modulo(v, n) < n && Product(Quotient(v, n), n) + Modulo(v, n) == v
  {}

  lemma QuotientBelow(v: int, n: int, m: int)
    requires 0 < n && 0 <= v < Product(m, n)
    ensures 0 <= Quotient(v, n) < m
  {
    DivisionWithin(v, n, m);
  }

  lemma NextMultiple(p: int, m: int, r: int)
    requires 0 < r <= m
    ensures (Product(p, m) + r) % m == 0 <==> r == m
  {
    if r < m {
      DivMod(p, m, r);
    } else {
      DivMod(p + 1, m, 0);
    }
  }

  lemma ProductBelow(q: int, r: int, n: int, m: int)
    requires 0 <= q < m && 0 <= r < n
    ensures 0 <= Product(q, n) + r < Product(m, n)
  {
    MulMono(0, q, n);
    MulMono(q + 1, m, n);
  }

  // ----- Bytes and numbers -----

  lemma NextByte(b: bv8)
    requires b != 255
    ensures (b + 1) as int == b as int + 1
  {}

  lemma {:induction false} SomeByte(x: int) returns (b: bv8)
    requires 0 <= x < 256
    ensures b as int == x
  {
    if x == 0 {
      b := 0;
    } else {
      var before := SomeByte(x - 1);
      NextByte(before);
      b := before + 1;
    }
  }

  lemma ByteOfInt(b: bv8)
    ensures (b as int) as bv8 == b
  {}

  // The solver does not convert a number to a byte and back.
  lemma IntOfByte(x: int)
    requires 0 <= x < 256
    ensures (x as bv8) as int == x
  {
    var b := SomeByte(x);
    ByteOfInt(b);
  }
}
