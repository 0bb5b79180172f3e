/**
 The field of 256 elements behind the QR encoder: a byte is a polynomial over GF(2) modulo
 x^8 + x^4 + x^3 + x^2 + 1 (0x11D), and addition is exclusive or.

 Facts about single bit-vector expressions come first; the field laws are then proved by
 induction on the second factor with every definition hidden, so that the solver never sees
 a whole multiplication as a circuit.
 */
module GaloisField {
  import opened Arithmetic

  function Add(a: bv8, b: bv8): bv8 { a ^ b }

  // Multiplication by the generator 2.
  function Double(z: bv8): bv8 { (z << 1) ^ ((z >> 7) * 0x1D) }

  // x or 0, selected by the lowest bit of y.
  function Pick(y: bv8, x: bv8): bv8 { (y & 1) * x }

  function Half(y: bv8): bv8 { y >> 1 }

  function Mul(x: bv8, y: bv8): bv8
    decreases y
  {
    if y == 0 then 0 else Add(Double(Mul(x, Half(y))), Pick(y, x))
  }

  function Pow(x: bv8, n: nat): bv8 {
    if n == 0 then 1 else Mul(x, Pow(x, n - 1))
  }

  // ----- The program's multiplication -----

  // (uint8_t)((z << 1) ^ ((z >> 7) * 0x11D)), computed in a wider type.
  function ShiftAndReduce(z: bv8): bv8 {
    ((((z as bv16) << 1) ^ (((z as bv16) >> 7) * 0x11D)) & 0xFF) as bv8
  }

  // The bits of y from bit i upward.
  function From(y: bv8, i: nat): bv8
    requires i <= 8
  {
    y >> i
  }

  // From the highest bit of y down to the lowest.
  method Multiply(x: bv8, y: bv8) returns (z: bv8)
    ensures z == Mul(x, y)
  {
    z := 0;
    Ends(x, y);
    hide *;
    var i := 7;
    while i >= 0
      invariant -1 <= i <= 7
      invariant z == Mul(x, From(y, i + 1))
    {
      MulStep(x, y, i);
      z := ShiftAndReduce(z);
      z := Add(z, Pick(From(y, i), x));
      i := i - 1;
    }
  }

  lemma Ends(x: bv8, y: bv8)
    ensures Mul(x, From(y, 8)) == 0 && From(y, 0) == y
  {}

  lemma MulStep(x: bv8, y: bv8, i: nat)
    requires i < 8
    ensures Mul(x, From(y, i)) == Add(ShiftAndReduce(Mul(x, From(y, i + 1))), Pick(From(y, i), x))
  {
    hide *;
    ShiftAndReduceDoubles(Mul(x, From(y, i + 1)));
    HalfFrom(y, i);
    Unroll(x, From(y, i));
  }

  lemma ShiftAndReduceDoubles(z: bv8) ensures ShiftAndReduce(z) == Double(z) {}

  lemma HalfFrom(y: bv8, i: nat)
    requires i < 8
    ensures Half(From(y, i)) == From(y, i + 1)
  {}

  // ----- Facts about single expressions -----

  lemma AddZero(a: bv8) ensures Add(a, 0) == a == Add(0, a) {}

  lemma AddComm(a: bv8, b: bv8) ensures Add(a, b) == Add(b, a) {}

  lemma AddSelf(a: bv8) ensures Add(a, a) == 0 {}

  lemma AddIsZero(a: bv8, b: bv8) ensures Add(a, b) == 0 <==> a == b {}

  lemma AddAssoc(a: bv8, b: bv8, c: bv8) ensures Add(Add(a, b), c) == Add(a, Add(b, c)) {}

  lemma AddSwap(a: bv8, b: bv8, c: bv8, d: bv8)
    ensures Add(Add(a, b), Add(c, d)) == Add(Add(a, c), Add(b, d))
  {
    hide *;
    AddAssoc(a, b, Add(c, d));
    AddAssoc(b, c, d);
    AddComm(b, c);
    AddAssoc(c, b, d);
    AddAssoc(a, c, Add(b, d));
  }

  lemma DoubleAdd(a: bv8, b: bv8) ensures Double(Add(a, b)) == Add(Double(a), Double(b)) {}

  lemma DoubleInjective(a: bv8, b: bv8)
    requires Double(a) == Double(b)
    ensures a == b
  {}

  lemma PickCases(y: bv8, x: bv8)
    ensures (y & 1 == 0 && Pick(y, x) == 0) || (y & 1 == 1 && Pick(y, x) == x)
  {}

  lemma PickAddLeft(k: bv8, a: bv8, b: bv8) ensures Pick(Add(a, b), k) == Add(Pick(a, k), Pick(b, k)) {}

  lemma PickAddRight(k: bv8, a: bv8, b: bv8)
    ensures Pick(k, Add(a, b)) == Add(Pick(k, a), Pick(k, b))
  {
    PickCases(k, a);
    PickCases(k, b);
    PickCases(k, Add(a, b));
    AddZero(0);
    hide *;
  }

  lemma PickDouble(k: bv8, a: bv8) ensures Pick(k, Double(a)) == Double(Pick(k, a)) {}

  lemma HalfAdd(a: bv8, b: bv8) ensures Half(Add(a, b)) == Add(Half(a), Half(b)) {}

  lemma HalfLess(y: bv8)
    requires y != 0
    ensures Half(y) < y
  {}

  lemma HalvesLess(a: bv8, b: bv8)
    requires a | b != 0
    ensures Half(a) | Half(b) < a | b
  {}

  lemma Zeros(x: bv8)
    ensures Double(0) == 0 && Half(0) == 0 && Pick(0, x) == 0 == Pick(x, 0) && Add(0, 0) == 0
  {}

  lemma SplitLow(y: bv8) ensures y == Add(Double(Half(y)), y & 1) {}

  lemma SplitTop(y: bv8)
    ensures y == Add(y & 0x7F, y & 0x80) && (y & 0x7F) & 0x80 == 0 && (y & 0x80 == 0 || y & 0x80 == 0x80)
  {}

  // ----- Multiplication is bilinear -----

  lemma Unroll(x: bv8, y: bv8)
    ensures Mul(x, y) == Add(Double(Mul(x, Half(y))), Pick(y, x))
  {
    if y == 0 {
      Zeros(x);
      assert Mul(x, 0) == 0;
    }
  }

  lemma {:induction false} MulAddLeft(a: bv8, b: bv8, y: bv8)
    ensures Mul(Add(a, b), y) == Add(Mul(a, y), Mul(b, y))
    decreases y
  {
    if y == 0 {
      AddZero(0);
    } else {
      var h := Half(y);
      HalfLess(y);
      hide *;
      MulAddLeft(a, b, h);
      Unroll(a, y);
      Unroll(b, y);
      Unroll(Add(a, b), y);
      DoubleAdd(Mul(a, h), Mul(b, h));
      PickAddRight(y, a, b);
      AddSwap(Double(Mul(a, h)), Double(Mul(b, h)), Pick(y, a), Pick(y, b));
    }
  }

  lemma {:induction false} MulAddRight(x: bv8, a: bv8, b: bv8)
    ensures Mul(x, Add(a, b)) == Add(Mul(x, a), Mul(x, b))
    decreases a | b
  {
    if a | b == 0 {
      assert a == 0 && b == 0;
      AddZero(0);
    } else {
      HalvesLess(a, b);
      hide *;
      MulAddRight(x, Half(a), Half(b));
      HalfAdd(a, b);
      Unroll(x, a);
      Unroll(x, b);
      Unroll(x, Add(a, b));
      DoubleAdd(Mul(x, Half(a)), Mul(x, Half(b)));
      PickAddLeft(x, a, b);
      AddSwap(Double(Mul(x, Half(a))), Double(Mul(x, Half(b))), Pick(a, x), Pick(b, x));
    }
  }

  lemma {:induction false} MulDoubleLeft(x: bv8, y: bv8)
    ensures Mul(Double(x), y) == Double(Mul(x, y))
    decreases y
  {
    if y == 0 {
      Zeros(x);
    } else {
      HalfLess(y);
      hide *;
      MulDoubleLeft(x, Half(y));
      Unroll(x, y);
      Unroll(Double(x), y);
      DoubleAdd(Double(Mul(x, Half(y))), Pick(y, x));
      PickDouble(y, x);
    }
  }

  // ----- Doubling the right factor: where the reduction polynomial matters -----

  lemma MulShifted(x: bv8, y: bv8)
    requires y & 0x80 == 0
    ensures Mul(x, Double(y)) == Double(Mul(x, y))
  {
    assert Half(Double(y)) == y && Pick(Double(y), x) == 0;
    hide *;
    Unroll(x, Double(y));
    AddZero(Double(Mul(x, y)));
  }

  lemma MulOne(x: bv8)
    ensures Mul(x, 1) == x
  {
    assert Half(1) == 0 && Pick(1, x) == x;
    Zeros(x);
    AddZero(x);
    Unroll(x, 1);
  }

  // x^8 = x^4 + x^3 + x^2 + 1
  lemma DoubleEight(x: bv8)
    ensures Double(Double(Double(Double(Double(Double(Double(Double(x))))))))
         == Add(Add(Double(Double(Double(Double(x)))), Double(Double(Double(x)))), Add(Double(Double(x)), x))
  {}

  lemma PowersOfTwo()
    ensures Double(1) == 2 && Double(2) == 4 && Double(4) == 8 && Double(8) == 0x10 && Double(0x10) == 0x20
    ensures Double(0x20) == 0x40 && Double(0x40) == 0x80 && Double(0x80) == 0x1D
    ensures Add(Add(0x10, 8), Add(4, 1)) == 0x1D
  {}

  lemma MulReduced(x: bv8)
    ensures Mul(x, 0x1D) == Double(Mul(x, 0x80))
  {
    hide *;
    PowersOfTwo();
    MulOne(x);
    DoubleEight(x);
    MulShifted(x, 1);
    MulShifted(x, 2);
    MulShifted(x, 4);
    MulShifted(x, 8);
    MulShifted(x, 0x10);
    MulShifted(x, 0x20);
    MulShifted(x, 0x40);
    MulAddRight(x, Add(0x10, 8), Add(4, 1));
    MulAddRight(x, 0x10, 8);
    MulAddRight(x, 4, 1);
  }

  lemma MulDoubleRight(x: bv8, y: bv8)
    ensures Mul(x, Double(y)) == Double(Mul(x, y))
  {
    var low, top := y & 0x7F, y & 0x80;
    SplitTop(y);
    if top == 0 {
      MulShifted(x, y);
    } else {
      hide *;
      PowersOfTwo();
      MulReduced(x);
      MulShifted(x, low);
      DoubleAdd(low, top);
      MulAddRight(x, low, top);
      MulAddRight(x, Double(low), Double(top));
      DoubleAdd(Mul(x, low), Mul(x, top));
    }
  }

  // ----- Field laws -----

  lemma {:induction false} MulZeroLeft(y: bv8)
    ensures Mul(0, y) == 0
    decreases y
  {
    if y != 0 {
      HalfLess(y);
      MulZeroLeft(Half(y));
      Zeros(y);
      Unroll(0, y);
    }
  }

  lemma {:induction false} MulOneLeft(y: bv8)
    ensures Mul(1, y) == y
    decreases y
  {
    if y != 0 {
      HalfLess(y);
      PickCases(y, 1);
      SplitLow(y);
      hide *;
      MulOneLeft(Half(y));
      Unroll(1, y);
    }
  }

  lemma {:induction false} MulComm(x: bv8, y: bv8)
    ensures Mul(x, y) == Mul(y, x)
    decreases y
  {
    if y == 0 {
      MulZeroLeft(x);
    } else {
      var h := Half(y);
      HalfLess(y);
      PickCases(y, x);
      SplitLow(y);
      MulZeroLeft(x);
      MulOneLeft(x);
      hide *;
      MulComm(x, h);
      Unroll(x, y);
      MulAddLeft(Double(h), y & 1, x);
      MulDoubleLeft(h, x);
    }
  }

  lemma {:induction false} MulAssoc(x: bv8, y: bv8, z: bv8)
    ensures Mul(Mul(x, y), z) == Mul(x, Mul(y, z))
    decreases z
  {
    if z == 0 {
      assert Mul(y, 0) == 0;
    } else {
      var h := Half(z);
      HalfLess(z);
      PickCases(z, y);
      PickCases(z, Mul(x, y));
      assert Mul(x, 0) == 0;
      hide *;
      MulAssoc(x, y, h);
      Unroll(Mul(x, y), z);
      Unroll(y, z);
      MulAddRight(x, Double(Mul(y, h)), Pick(z, y));
      MulDoubleRight(x, Mul(y, h));
    }
  }

  // ----- Mul is the carry-less product reduced modulo 0x11D -----

  // One step of long multiplication: shift, then add the selected multiple.
  function Extend(c: bv16, bit: bv8, x: bv16): bv16 { (c << 1) ^ ((bit as bv16) * x) }

  function Plus(k: bv16, z: bv8): bv16 { k ^ (z as bv16) }

  function Carryless(x: bv16, y: bv8): bv16
    decreases y
  {
    if y == 0 then 0 else Extend(Carryless(x, Half(y)), y & 1, x)
  }

  function Append(q: bv8, bit: bv8): bv8 { (q << 1) | bit }

  function Quotient(x: bv8, y: bv8): bv8
    decreases y
  {
    if y == 0 then 0 else Append(Quotient(x, Half(y)), Mul(x, Half(y)) >> 7)
  }

  lemma CarrylessStep(x: bv16, y: bv8)
    ensures Carryless(x, y) == Extend(Carryless(x, Half(y)), y & 1, x)
  {
    if y == 0 {
      assert Carryless(x, Half(0)) == 0;
    }
  }

  lemma AppendFacts(q: bv8, t: bv8, h: bv8, y: bv8)
    requires h == Half(y) && y != 0 && t <= 1
    requires q < h || (h == 0 && q == 0 && t == 0)
    ensures Append(q, t) < y && Half(Append(q, t)) == q && Append(q, t) & 1 == t
  {}

  lemma ReductionStep(k: bv16, z: bv8, y: bv8, x: bv8)
    ensures Extend(Plus(k, z), y & 1, x as bv16) == Plus(Extend(k, z >> 7, 0x11D), Add(Double(z), Pick(y, x)))
  {}

  lemma TopBit(z: bv8) ensures z >> 7 <= 1 && (z == 0 ==> z >> 7 == 0) {}

  // The product of the two polynomials differs from Mul by a multiple of 0x11D.
  lemma {:induction false} MulIsReducedProduct(x: bv8, y: bv8)
    ensures Carryless(x as bv16, y) == Plus(Carryless(0x11D, Quotient(x, y)), Mul(x, y))
    ensures Quotient(x, y) < y || (y == 0 && Quotient(x, y) == 0)
    decreases y
  {
    if y == 0 {
      assert Plus(0, 0) == 0;
    } else {
      var h := Half(y);
      var q, z := Quotient(x, h), Mul(x, h);
      HalfLess(y);
      MulIsReducedProduct(x, h);
      TopBit(z);
      hide Add, Double, Pick, Half, Extend, Plus, Append;
      AppendFacts(q, z >> 7, h, y);
      CarrylessStep(x as bv16, y);
      CarrylessStep(0x11D, Append(q, z >> 7));
      ReductionStep(Carryless(0x11D, q), z, y, x);
    }
  }

  // ----- No zero divisors -----

  predicate Next(z: bv8, b: bv8, x: bv8, w: bv8) {
    w == (z << 1) ^ ((z >> 7) * 0x1D) ^ (b * x)
  }

  // The eight steps of one multiplication whose factors both have their top bit set.
  lemma TopStepsNotZero(x: bv8, y: bv8, m: bv8, n: bv8, o: bv8, p: bv8, q: bv8, r: bv8, s: bv8)
    requires x & 0x80 != 0 && y & 0x80 != 0
    requires Next(x, (y >> 6) & 1, x, m) && Next(m, (y >> 5) & 1, x, n) && Next(n, (y >> 4) & 1, x, o)
    requires Next(o, (y >> 3) & 1, x, p) && Next(p, (y >> 2) & 1, x, q) && Next(q, (y >> 1) & 1, x, r)
    requires Next(r, y & 1, x, s)
    ensures s != 0
  {}

  lemma MulNext(x: bv8, y: bv8, h: bv8)
    requires Half(y) == h
    ensures Next(Mul(x, h), y & 1, x, Mul(x, y))
  {
    hide Mul;
    Unroll(x, y);
  }

  lemma Halves(y: bv8)
    requires y & 0x80 != 0
    ensures Half(y) == y >> 1 && Half(y >> 1) == y >> 2 && Half(y >> 2) == y >> 3 && Half(y >> 3) == y >> 4
    ensures Half(y >> 4) == y >> 5 && Half(y >> 5) == y >> 6 && Half(y >> 6) == 1
  {}

  lemma TopTopProduct(x: bv8, y: bv8)
    requires x & 0x80 != 0 && y & 0x80 != 0
    ensures Mul(x, y) != 0
  {
    hide *;
    Halves(y);
    MulOne(x);
    MulNext(x, y >> 6, 1);
    MulNext(x, y >> 5, y >> 6);
    MulNext(x, y >> 4, y >> 5);
    MulNext(x, y >> 3, y >> 4);
    MulNext(x, y >> 2, y >> 3);
    MulNext(x, y >> 1, y >> 2);
    MulNext(x, y, y >> 1);
    TopStepsNotZero(x, y, Mul(x, y >> 6), Mul(x, y >> 5), Mul(x, y >> 4), Mul(x, y >> 3),
      Mul(x, y >> 2), Mul(x, y >> 1), Mul(x, y));
  }

  lemma DoubleGrows(y: bv8)
    requires y & 0x80 == 0 && y != 0
    ensures y < Double(y)
  {}

  lemma {:induction false} ZeroProduct(x: bv8, y: bv8)
    requires Mul(x, y) == 0
    ensures x == 0 || y == 0
    decreases 0xFF - x, 0xFF - y
  {
    if x != 0 && y != 0 {
      if y & 0x80 == 0 {
        DoubleGrows(y);
        MulDoubleRight(x, y);
        Zeros(x);
        ZeroProduct(x, Double(y));
      } else if x & 0x80 == 0 {
        DoubleGrows(x);
        MulDoubleLeft(x, y);
        Zeros(y);
        ZeroProduct(Double(x), y);
      } else {
        TopTopProduct(x, y);
      }
    }
  }

  // ----- Powers -----

  lemma {:induction false} PowAdd(x: bv8, m: nat, n: nat)
    ensures Pow(x, m + n) == Mul(Pow(x, m), Pow(x, n))
  {
    if m == 0 {
      MulOneLeft(Pow(x, n));
    } else {
      PowAdd(x, m - 1, n);
      MulAssoc(x, Pow(x, m - 1), Pow(x, n));
    }
  }

  lemma {:induction false} PowMul(x: bv8, m: nat, n: nat)
    ensures Pow(Pow(x, m), n) == Pow(x, m * n)
  {
    if n > 0 {
      PowMul(x, m, n - 1);
      assert m * n == m + m * (n - 1);
      PowAdd(x, m, m * (n - 1));
    }
  }

  lemma PowTwo(n: nat)
    ensures Pow(2, n + 1) == Double(Pow(2, n))
  {
    PowersOfTwo();
    MulDoubleLeft(1, Pow(2, n));
    MulOneLeft(Pow(2, n));
  }

  // ----- The generator 2 has order 255 -----

  // z doubled 2^k times.
  function Skip(z: bv8, k: nat): bv8
    decreases k
  {
    if k == 0 then Double(z) else Skip(Skip(z, k - 1), k - 1)
  }

  // 1 is not among the first 2^k doublings of z, z included.
  predicate Avoids(z: bv8, k: nat)
    decreases k
  {
    if k == 0 then z != 1 else Avoids(z, k - 1) && Avoids(Skip(z, k - 1), k - 1)
  }

  lemma {:induction false} SkipIsPower(m: nat, k: nat)
    ensures Skip(Pow(2, m), k) == Pow(2, m + TwoTo(k))
    decreases k
  {
    if k == 0 {
      PowTwo(m);
    } else {
      SkipIsPower(m, k - 1);
      SkipIsPower(m + TwoTo(k - 1), k - 1);
    }
  }

  lemma {:induction false} AvoidsMeans(m: nat, k: nat, j: nat)
    requires Avoids(Pow(2, m), k) && j < TwoTo(k)
    ensures Pow(2, m + j) != 1
    decreases k
  {
    if k > 0 {
      var half := TwoTo(k - 1);
      if j < half {
        AvoidsMeans(m, k - 1, j);
      } else {
        SkipIsPower(m, k - 1);
        AvoidsMeans(m + half, k - 1, j - half);
      }
    }
  }

  // From each 2^(32i + 1) in turn: no 1 on the way to the next, up to 2^129.
  lemma AvoidsFrom2() ensures Avoids(2, 5) {}

  lemma AvoidsFrom33() ensures Avoids(0x27, 5) {}

  lemma AvoidsFrom65() ensures Avoids(0xBE, 5) {}

  lemma AvoidsFrom97() ensures Avoids(0xAF, 5) {}

  lemma SkipsTo129()
    ensures Skip(2, 5) == 0x27 && Skip(0x27, 5) == 0xBE && Skip(0xBE, 5) == 0xAF && Skip(0xAF, 5) == 0x17
  {}

  lemma SkipsTo257()
    ensures Skip(0x17, 5) == 0xD1 && Skip(0xD1, 5) == 0x19 && Skip(0x19, 5) == 0x24 && Skip(0x24, 5) == 4
  {}

  lemma LandingPoints()
    ensures Pow(2, 1) == 2 && Pow(2, 33) == 0x27 && Pow(2, 65) == 0xBE && Pow(2, 97) == 0xAF && Pow(2, 255) == 1
  {
    hide Double, Skip;
    MulOne(2);
    SkipsTo129();
    SkipsTo257();
    assert TwoTo(5) == 32;
    SkipIsPower(1, 5);
    SkipIsPower(33, 5);
    SkipIsPower(65, 5);
    SkipIsPower(97, 5);
    SkipIsPower(129, 5);
    SkipIsPower(161, 5);
    SkipIsPower(193, 5);
    SkipIsPower(225, 5);
    PowTwo(256);
    PowTwo(255);
    PowersOfTwo();
    DoubleInjective(Pow(2, 256), 2);
    DoubleInjective(Pow(2, 255), 1);
  }

  lemma NotOneInFirstHalf(n: nat)
    requires 1 <= n <= 128
    ensures Pow(2, n) != 1
  {
    hide *;
    LandingPoints();
    if n < 33 {
      AvoidsFrom2();
      NotOneAfter(1, n - 1);
    } else if n < 65 {
      AvoidsFrom33();
      NotOneAfter(33, n - 33);
    } else if n < 97 {
      AvoidsFrom65();
      NotOneAfter(65, n - 65);
    } else {
      AvoidsFrom97();
      NotOneAfter(97, n - 97);
    }
  }

  lemma NotOneAfter(m: nat, j: nat)
    requires Avoids(Pow(2, m), 5) && j < 32
    ensures Pow(2, m + j) != 1
  {
    assert TwoTo(5) == 32;
    hide *;
    AvoidsMeans(m, 5, j);
  }

  lemma OrderIs255(n: nat)
    requires 0 < n < 255
    ensures Pow(2, n) != 1
  {
    hide *;
    if n <= 128 {
      NotOneInFirstHalf(n);
    } else if Pow(2, n) == 1 {
      LandingPoints();
      PowAdd(2, n, 255 - n);
      MulOneLeft(Pow(2, 255 - n));
      NotOneInFirstHalf(255 - n);
    }
  }

  // Distinct exponents below 255 give distinct powers of the generator.
  lemma PowersDistinct(m: nat, n: nat)
    requires m < n < 255
    ensures Pow(2, m) != Pow(2, n)
  {
    hide *;
    if Pow(2, m) == Pow(2, n) {
      LandingPoints();
      PowAdd(2, n, 255 - n);
      PowAdd(2, m, 255 - n);
      OrderIs255(m + 255 - n);
    }
  }
}
