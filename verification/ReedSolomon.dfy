/**
 Reed-Solomon error correction as the QR encoder computes it, ISO/IEC 18004 section 7.5.

 Polynomials over the field are sequences of coefficients, highest power first. The two array
 methods follow the program; the lemmas below them say that every block followed by its error
 correction bytes vanishes at 2^0 .. 2^(degree-1), that those bytes are the only ones that do
 this, and that two blocks of at most 255 bytes that differ, differ in more than degree places.
 */
module ReedSolomon {
  import opened GaloisField

  const DEGREE_MAX := 30

  // ----- Polynomials -----

  function Eval(p: seq<bv8>, a: bv8): bv8 {
    if p == [] then 0 else Add(Mul(Eval(p[..|p| - 1], a), a), p[|p| - 1])
  }

  function Zeroes(n: nat): (z: seq<bv8>)
    ensures |z| == n && forall k :: 0 <= k < n ==> z[k] == 0
  {
    seq(n, _ => 0)
  }

  function Plus(p: seq<bv8>, q: seq<bv8>): (s: seq<bv8>)
    requires |p| == |q|
    ensures |s| == |p|
  {
    seq(|p|, k requires 0 <= k < |p| => Add(p[k], q[k]))
  }

  function Times(p: seq<bv8>, f: bv8): (s: seq<bv8>)
    ensures |s| == |p|
  {
    seq(|p|, k requires 0 <= k < |p| => Mul(p[k], f))
  }

  // p multiplied by (x - root).
  function TimesRoot(p: seq<bv8>, root: bv8): (s: seq<bv8>)
    ensures |s| == |p| + 1
  {
    Plus(p + [0], Times([0] + p, root))
  }

  // (x - 2^0)(x - 2^1)..(x - 2^(d-1))
  function Generator(d: nat): (g: seq<bv8>)
    ensures |g| == d + 1
  {
    if d == 0 then [1] else TimesRoot(Generator(d - 1), Pow(2, d - 1))
  }

  // ----- The divisor -----

  function Padded(d: nat, i: nat): (p: seq<bv8>)
    requires i <= d
    ensures |p| == d + 1
  {
    Zeroes(d - i) + Generator(i)
  }

  lemma PaddedStep(d: nat, i: nat, k: nat)
    requires i < d && k <= d
    ensures Padded(d, i + 1)[k] == Add(Mul(Padded(d, i)[k], Pow(2, i)), if k < d then Padded(d, i)[k + 1] else 0)
  {
    var g, r := Generator(i), Pow(2, i);
    MulZeroLeft(r);
    AddZero(0);
    if k + 1 >= d - i {
      var j := k + 1 - (d - i);
      assert Padded(d, i + 1)[k] == TimesRoot(g, r)[j];
      AddComm((g + [0])[j], Mul(([0] + g)[j], r));
    }
  }

  lemma {:induction false} GeneratorIsMonic(d: nat)
    ensures Generator(d)[0] == 1
  {
    if d > 0 {
      GeneratorIsMonic(d - 1);
      MulZeroLeft(Pow(2, d - 1));
      AddZero(1);
    }
  }

  // One pass of the program's inner loop: the product so far times (x - root).
  method MultiplyByRoot(degree: nat, result: array<bv8>, root: bv8)
    requires degree <= result.Length
    modifies result
    ensures forall k :: 0 <= k < degree ==>
      result[k] == Add(Mul(old(result[k]), root), if k + 1 < degree then old(result[k + 1]) else 0)
    ensures forall k :: degree <= k < result.Length ==> result[k] == old(result[k])
  {
    hide *;
    for j := 0 to degree
      invariant forall k :: 0 <= k < j ==>
        result[k] == Add(Mul(old(result[k]), root), if k + 1 < degree then old(result[k + 1]) else 0)
      invariant forall k :: j <= k < result.Length ==> result[k] == old(result[k])
    {
      var product := Multiply(result[j], root);
      AddZero(product);
      result[j] := product;
      if j + 1 < degree {
        result[j] := Add(result[j], result[j + 1]);
      }
    }
  }

  method ComputeDivisor(degree: nat, result: array<bv8>)
    requires 1 <= degree <= DEGREE_MAX && degree <= result.Length
    modifies result
    ensures [1] + result[..degree] == Generator(degree)
    ensures forall k :: degree <= k < result.Length ==> result[k] == old(result[k])
  {
    hide *;
    PaddedEnds(degree);
    forall j | 0 <= j < degree {
      result[j] := 0;
    }
    result[degree - 1] := 1;
    var root: bv8 := 1;
    PowZero();
    StartCoefficients(degree, result[..degree]);
    for i := 0 to degree
      invariant root == Pow(2, i)
      invariant forall k :: 0 <= k < degree ==> result[k] == Padded(degree, i)[k + 1]
      invariant forall k :: degree <= k < result.Length ==> result[k] == old(result[k])
    {
      MultiplyByRoot(degree, result, root);
      ghost var after := result[..];
      forall k | 0 <= k < degree ensures after[k] == Padded(degree, i + 1)[k + 1] {
        PaddedStep(degree, i, k + 1);
      }
      root := Multiply(root, 2);
      NextPower(i);
    }
    assert [1] + result[..degree] == Generator(degree);
  }

  lemma StartCoefficients(d: nat, coefficients: seq<bv8>)
    requires |coefficients| == d > 0 && coefficients[d - 1] == 1 && forall k :: 0 <= k < d - 1 ==> coefficients[k] == 0
    ensures forall k :: 0 <= k < d ==> coefficients[k] == Padded(d, 0)[k + 1]
  {
    PaddedEnds(d);
    hide Padded;
  }

  lemma PowZero() ensures Pow(2, 0) == 1 {}

  lemma NextPower(i: nat)
    ensures Mul(Pow(2, i), 2) == Pow(2, i + 1)
  {
    MulComm(Pow(2, i), 2);
  }

  lemma PaddedEnds(d: nat)
    ensures Padded(d, 0) == Zeroes(d) + [1]
    ensures Padded(d, d) == Generator(d) && Generator(d)[0] == 1
  {
    GeneratorIsMonic(d);
  }

  // ----- The remainder -----

  // One step of long division: bring down b, subtract the multiple of the divisor.
  function DivisionStep(rem: seq<bv8>, b: bv8, gen: seq<bv8>): (r: seq<bv8>)
    requires |rem| == |gen| > 0
    ensures |r| == |gen|
  {
    Plus(rem[1..] + [0], Times(gen, Add(b, rem[0])))
  }

  // The bytes that the program appends to data: the remainder of data * x^|gen|.
  function Remainder(data: seq<bv8>, gen: seq<bv8>): (r: seq<bv8>)
    requires |gen| > 0
    ensures |r| == |gen|
  {
    if data == [] then Zeroes(|gen|)
    else DivisionStep(Remainder(data[..|data| - 1], gen), data[|data| - 1], gen)
  }

  // Error correction bytes of one block.
  function Ecc(data: seq<bv8>, d: nat): (r: seq<bv8>)
    requires d > 0
    ensures |r| == d
  {
    Remainder(data, Generator(d)[1..])
  }

  // data[dat..dat + dataLen] is divided; the remainder is left in result[res..res + degree].
  // The two arrays may be one, as they are for the caller, if the ranges do not overlap.
  method ComputeRemainder(data: array<bv8>, dat: nat, dataLen: nat,
      generator: array<bv8>, degree: nat, result: array<bv8>, res: nat)
    requires dat + dataLen <= data.Length && degree <= generator.Length && res + degree <= result.Length
    requires 1 <= degree <= DEGREE_MAX && generator != data && generator != result
    requires data == result ==> dat + dataLen <= res || res + degree <= dat
    modifies result
    ensures result[res..res + degree] == Remainder(old(data[dat..dat + dataLen]), generator[..degree])
    ensures forall k :: 0 <= k < result.Length && !(res <= k < res + degree) ==> result[k] == old(result[k])
  {
    hide *;
    ghost var block, gen := data[dat..dat + dataLen], generator[..degree];
    forall j | 0 <= j < degree {
      result[res + j] := 0;
    }
    assert result[res..res + degree] == Zeroes(degree);
    RemainderOfNothing(block, gen);
    for i := 0 to dataLen
      invariant result[res..res + degree] == Remainder(block[..i], gen)
      invariant forall k :: 0 <= k < result.Length && !(res <= k < res + degree) ==> result[k] == old(result[k])
      invariant generator[..degree] == gen
    {
      assert data[dat + i] == block[i];
      RemainderOfNext(block, i, gen);
      DivideOnce(data[dat + i], generator, degree, result, res);
    }
    assert block[..dataLen] == block;
  }

  lemma RemainderOfNothing(block: seq<bv8>, gen: seq<bv8>)
    requires |gen| > 0
    ensures Remainder(block[..0], gen) == Zeroes(|gen|)
  {}

  lemma RemainderOfNext(block: seq<bv8>, i: nat, gen: seq<bv8>)
    requires |gen| > 0 && i < |block|
    ensures Remainder(block[..i + 1], gen) == DivisionStep(Remainder(block[..i], gen), block[i], gen)
  {
    hide *;
    assert block[..i + 1][..i] == block[..i];
    LastRemainder(block[..i + 1], gen);
  }

  lemma LastRemainder(block: seq<bv8>, gen: seq<bv8>)
    requires |gen| > 0 && block != []
    ensures Remainder(block, gen) == DivisionStep(Remainder(block[..|block| - 1], gen), block[|block| - 1], gen)
  {
    hide DivisionStep;
  }

  method DivideOnce(b: bv8, generator: array<bv8>, degree: nat, result: array<bv8>, res: nat)
    requires 1 <= degree <= generator.Length && res + degree <= result.Length && generator != result
    modifies result
    ensures result[res..res + degree] == DivisionStep(old(result[res..res + degree]), b, generator[..degree])
    ensures forall k :: 0 <= k < result.Length && !(res <= k < res + degree) ==> result[k] == old(result[k])
  {
    hide Add, Mul;
    var factor := Add(b, result[res]);
    ShiftLeft(degree, result, res);
    ghost var shifted := result[res..res + degree];
    for j := 0 to degree
      invariant forall k :: 0 <= k < j ==> result[res + k] == Add(shifted[k], Mul(generator[k], factor))
      invariant forall k :: j <= k < degree ==> result[res + k] == shifted[k]
      invariant forall k :: 0 <= k < result.Length && !(res <= k < res + degree) ==> result[k] == old(result[k])
    {
      var product := Multiply(generator[j], factor);
      result[res + j] := Add(result[res + j], product);
    }
  }

  method ShiftLeft(degree: nat, result: array<bv8>, res: nat)
    requires 1 <= degree && res + degree <= result.Length
    modifies result
    ensures result[res..res + degree] == old(result[res..res + degree])[1..] + [0]
    ensures forall k :: 0 <= k < result.Length && !(res <= k < res + degree) ==> result[k] == old(result[k])
  {
    forall j | 0 <= j < degree - 1 {
      result[res + j] := result[res + j + 1];
    }
    result[res + degree - 1] := 0;
  }

  // ----- Evaluation -----

  lemma {:induction false} EvalConcat(p: seq<bv8>, q: seq<bv8>, a: bv8)
    ensures Eval(p + q, a) == Add(Mul(Eval(p, a), Pow(a, |q|)), Eval(q, a))
  {
    hide Add, Mul, Pow;
    if q == [] {
      assert p + q == p;
      PowNone(a);
      MulOne(Eval(p, a));
      AddZero(Eval(p, a));
    } else {
      var n := |q| - 1;
      assert (p + q)[..|p + q| - 1] == p + q[..n];
      EvalConcat(p, q[..n], a);
      var e, f := Eval(p, a), Eval(q[..n], a);
      MulAddLeft(Mul(e, Pow(a, n)), f, a);
      MulAssoc(e, Pow(a, n), a);
      MulComm(Pow(a, n), a);
      PowNext(a, n);
      AddAssoc(Mul(e, Pow(a, n + 1)), Mul(f, a), q[n]);
    }
  }

  lemma PowNone(a: bv8) ensures Pow(a, 0) == 1 {}

  lemma PowNext(a: bv8, n: nat) ensures Pow(a, n + 1) == Mul(a, Pow(a, n)) {}

  lemma {:induction false} EvalPlus(p: seq<bv8>, q: seq<bv8>, a: bv8)
    requires |p| == |q|
    ensures Eval(Plus(p, q), a) == Add(Eval(p, a), Eval(q, a))
  {
    hide Add, Mul;
    if p == [] {
      AddZero(0);
    } else {
      var n := |p| - 1;
      assert Plus(p, q)[..n] == Plus(p[..n], q[..n]);
      EvalPlus(p[..n], q[..n], a);
      MulAddLeft(Eval(p[..n], a), Eval(q[..n], a), a);
      AddSwap(Mul(Eval(p[..n], a), a), Mul(Eval(q[..n], a), a), p[n], q[n]);
    }
  }

  lemma {:induction false} EvalTimes(p: seq<bv8>, f: bv8, a: bv8)
    ensures Eval(Times(p, f), a) == Mul(Eval(p, a), f)
  {
    hide Add, Mul;
    if p == [] {
      MulZeroLeft(f);
    } else {
      var n := |p| - 1;
      var e := Eval(p[..n], a);
      assert Times(p, f)[..n] == Times(p[..n], f);
      EvalTimes(p[..n], f, a);
      MulAddLeft(Mul(e, a), p[n], f);
      MulAssoc(e, f, a);
      MulAssoc(e, a, f);
      MulComm(f, a);
    }
  }

  lemma EvalOne(c: bv8, a: bv8)
    ensures Eval([c], a) == c
  {
    assert [c][..0] == [];
    MulZeroLeft(a);
    AddZero(c);
  }

  lemma {:induction false} EvalZeroes(n: nat, a: bv8)
    ensures Eval(Zeroes(n), a) == 0
  {
    if n > 0 {
      assert Zeroes(n)[..n - 1] == Zeroes(n - 1);
      EvalZeroes(n - 1, a);
      MulZeroLeft(a);
      AddZero(0);
    }
  }

  lemma EvalTimesRoot(p: seq<bv8>, root: bv8, a: bv8)
    ensures Eval(TimesRoot(p, root), a) == Mul(Eval(p, a), Add(a, root))
  {
    hide Add, Mul, Pow;
    EvalPlus(p + [0], Times([0] + p, root), a);
    EvalTimes([0] + p, root, a);
    EvalConcat(p, [0], a);
    EvalConcat([0], p, a);
    EvalOne(0, a);
    MulZeroLeft(Pow(a, |p|));
    AddZero(Eval(p, a));
    PowNext(a, 0);
    PowNone(a);
    MulOne(a);
    AddZero(Mul(Eval(p, a), a));
    MulAddRight(Eval(p, a), a, root);
  }

  lemma {:induction false} GeneratorVanishes(d: nat, i: nat)
    requires i < d
    ensures Eval(Generator(d), Pow(2, i)) == 0
  {
    hide Add, Mul, Pow;
    var a := Pow(2, i);
    EvalTimesRoot(Generator(d - 1), Pow(2, d - 1), a);
    if i < d - 1 {
      GeneratorVanishes(d - 1, i);
      MulZeroLeft(Add(a, Pow(2, d - 1)));
    } else {
      AddSelf(a);
      MulComm(Eval(Generator(d - 1), a), 0);
      MulZeroLeft(Eval(Generator(d - 1), a));
    }
  }

  // ----- Every block and its error correction bytes form a multiple of the generator -----

  function DivisionQuotient(data: seq<bv8>, gen: seq<bv8>): (q: seq<bv8>)
    requires |gen| > 0
    ensures |q| == |data|
  {
    if data == [] then []
    else
      var init := data[..|data| - 1];
      DivisionQuotient(init, gen) + [Add(data[|data| - 1], Remainder(init, gen)[0])]
  }

  lemma EvalDivisionStep(rem: seq<bv8>, b: bv8, gen: seq<bv8>, a: bv8)
    requires |rem| == |gen| > 0
    ensures Eval(DivisionStep(rem, b, gen), a)
         == Add(Add(Mul(Eval(rem, a), a), Mul(rem[0], Pow(a, |gen|))), Mul(Eval(gen, a), Add(b, rem[0])))
  {
    hide Add, Mul, Pow;
    var n := |rem| - 1;
    var tail := rem[1..];
    EvalPlus(tail + [0], Times(gen, Add(b, rem[0])), a);
    EvalTimes(gen, Add(b, rem[0]), a);
    EvalConcat(tail, [0], a);
    EvalOne(0, a);
    PowNext(a, 0);
    PowNone(a);
    MulOne(a);
    AddZero(Mul(Eval(tail, a), a));
    assert rem == [rem[0]] + tail;
    EvalConcat([rem[0]], tail, a);
    EvalOne(rem[0], a);
    PowNext(a, n);
    FoldShift(rem[0], Pow(a, n), a, Eval(tail, a));
  }

  lemma FoldShift(r: bv8, p: bv8, a: bv8, t: bv8)
    ensures Add(Mul(Add(Mul(r, p), t), a), Mul(r, Mul(a, p))) == Mul(t, a)
  {
    hide *;
    MulAddLeft(Mul(r, p), t, a);
    MulAssoc(r, p, a);
    MulComm(p, a);
    var m := Mul(r, Mul(a, p));
    AddComm(m, Mul(t, a));
    AddAssoc(Mul(t, a), m, m);
    AddSelf(m);
    AddZero(Mul(t, a));
  }

  lemma {:induction false} CodewordIsMultiple(data: seq<bv8>, gen: seq<bv8>, a: bv8)
    requires |gen| > 0
    ensures Eval(data + Remainder(data, gen), a) == Mul(Eval(DivisionQuotient(data, gen), a), Eval([1] + gen, a))
  {
    hide Add, Mul, Pow;
    var d := |gen|;
    var p, g := Pow(a, d), Eval(gen, a);
    EvalConcat(data, Remainder(data, gen), a);
    EvalConcat([1], gen, a);
    EvalOne(1, a);
    MulOneLeft(p);
    if data == [] {
      EvalZeroes(d, a);
      MulZeroLeft(p);
      MulZeroLeft(Add(p, g));
      AddZero(0);
    } else {
      var init, b := data[..|data| - 1], data[|data| - 1];
      var rem := Remainder(init, gen);
      var q, e, r := Eval(DivisionQuotient(init, gen), a), Eval(init, a), Eval(rem, a);
      CodewordIsMultiple(init, gen, a);
      EvalConcat(init, rem, a);
      EvalDivisionStep(rem, b, gen, a);
      assert DivisionQuotient(data, gen)[..|data| - 1] == DivisionQuotient(init, gen);
      DivisionAlgebra(e, r, q, a, b, rem[0], p, g);
    }
  }

  // With e*p + r = q*(p + g): the same equation one data byte later.
  lemma DivisionAlgebra(e: bv8, r: bv8, q: bv8, a: bv8, b: bv8, r0: bv8, p: bv8, g: bv8)
    requires Add(Mul(e, p), r) == Mul(q, Add(p, g))
    ensures Add(Mul(Add(Mul(e, a), b), p), Add(Add(Mul(r, a), Mul(r0, p)), Mul(g, Add(b, r0))))
         == Mul(Add(Mul(q, a), Add(b, r0)), Add(p, g))
  {
    hide *;
    var f := Add(b, r0);
    calc {
      Add(Mul(Add(Mul(e, a), b), p), Add(Add(Mul(r, a), Mul(r0, p)), Mul(g, f)));
      { MulAddLeft(Mul(e, a), b, p); MulAssoc(e, a, p); MulComm(a, p); MulAssoc(e, p, a); MulComm(g, f); }
      Add(Add(Mul(Mul(e, p), a), Mul(b, p)), Add(Add(Mul(r, a), Mul(r0, p)), Mul(f, g)));
      { AddAssoc(Add(Mul(Mul(e, p), a), Mul(b, p)), Add(Mul(r, a), Mul(r0, p)), Mul(f, g)); }
      Add(Add(Add(Mul(Mul(e, p), a), Mul(b, p)), Add(Mul(r, a), Mul(r0, p))), Mul(f, g));
      { AddSwap(Mul(Mul(e, p), a), Mul(b, p), Mul(r, a), Mul(r0, p)); }
      Add(Add(Add(Mul(Mul(e, p), a), Mul(r, a)), Add(Mul(b, p), Mul(r0, p))), Mul(f, g));
      { MulAddLeft(Mul(e, p), r, a); MulAddLeft(b, r0, p); }
      Add(Add(Mul(Mul(q, Add(p, g)), a), Mul(f, p)), Mul(f, g));
      { AddAssoc(Mul(Mul(q, Add(p, g)), a), Mul(f, p), Mul(f, g)); MulAddRight(f, p, g); }
      Add(Mul(Mul(q, Add(p, g)), a), Mul(f, Add(p, g)));
      { MulAssoc(q, Add(p, g), a); MulComm(Add(p, g), a); MulAssoc(q, a, Add(p, g)); }
      Add(Mul(Mul(q, a), Add(p, g)), Mul(f, Add(p, g)));
      { MulAddLeft(Mul(q, a), f, Add(p, g)); }
      Mul(Add(Mul(q, a), f), Add(p, g));
    }
  }

  // A word that vanishes at 2^0 .. 2^(d-1).
  predicate IsCodeword(c: seq<bv8>, d: nat) {
    forall i :: 0 <= i < d ==> Eval(c, Pow(2, i)) == 0
  }

  // Reed-Solomon correctness, for data of any length.
  lemma EccMakesCodeword(data: seq<bv8>, d: nat)
    requires d > 0
    ensures IsCodeword(data + Ecc(data, d), d)
  {
    hide Add, Mul, Pow, Eval;
    var gen := Generator(d)[1..];
    GeneratorIsMonic(d);
    assert Generator(d) == [1] + gen;
    forall i | 0 <= i < d ensures Eval(data + Ecc(data, d), Pow(2, i)) == 0 {
      var a := Pow(2, i);
      CodewordIsMultiple(data, gen, a);
      GeneratorVanishes(d, i);
      MulComm(Eval(DivisionQuotient(data, gen), a), 0);
      MulZeroLeft(Eval(DivisionQuotient(data, gen), a));
    }
  }

  // ----- Minimum distance -----

  // c[0] * xs[0]^i + c[1] * xs[1]^i + ..
  function PowerSum(c: seq<bv8>, xs: seq<bv8>, i: nat): bv8
    requires |c| == |xs|
  {
    if c == [] then 0 else Add(Mul(c[0], Pow(xs[0], i)), PowerSum(c[1..], xs[1..], i))
  }

  function Weight(c: seq<bv8>): nat {
    if c == [] then 0 else (if c[0] == 0 then 0 else 1) + Weight(c[1..])
  }

  function Distance(c: seq<bv8>, e: seq<bv8>): nat
    requires |c| == |e|
  {
    if c == [] then 0 else (if c[0] == e[0] then 0 else 1) + Distance(c[1..], e[1..])
  }

  predicate Distinct(xs: seq<bv8>) {
    forall j, k :: 0 <= j < k < |xs| ==> xs[j] != xs[k]
  }

  // Each coefficient multiplied by the difference between its own place and x.
  function Eliminate(c: seq<bv8>, xs: seq<bv8>, x: bv8): (g: seq<bv8>)
    requires |c| == |xs|
    ensures |g| == |c|
  {
    seq(|c|, k requires 0 <= k < |c| => Mul(c[k], Add(xs[k], x)))
  }

  lemma {:induction false} EliminatedPowerSum(c: seq<bv8>, xs: seq<bv8>, x: bv8, i: nat)
    requires |c| == |xs|
    ensures PowerSum(Eliminate(c, xs, x), xs, i) == Add(PowerSum(c, xs, i + 1), Mul(x, PowerSum(c, xs, i)))
  {
    hide Add, Mul, Pow;
    if c == [] {
      MulComm(x, 0);
      MulZeroLeft(x);
      AddZero(0);
    } else {
      assert Eliminate(c, xs, x)[1..] == Eliminate(c[1..], xs[1..], x);
      EliminatedPowerSum(c[1..], xs[1..], x, i);
      var p := Pow(xs[0], i);
      PowNext(xs[0], i);
      EliminatedTerm(c[0], xs[0], x, p);
      MulAddRight(x, Mul(c[0], p), PowerSum(c[1..], xs[1..], i));
      AddSwap(Mul(c[0], Mul(xs[0], p)), Mul(x, Mul(c[0], p)),
        PowerSum(c[1..], xs[1..], i + 1), Mul(x, PowerSum(c[1..], xs[1..], i)));
    }
  }

  lemma EliminatedTerm(c: bv8, y: bv8, x: bv8, p: bv8)
    ensures Mul(Mul(c, Add(y, x)), p) == Add(Mul(c, Mul(y, p)), Mul(x, Mul(c, p)))
  {
    hide *;
    MulAssoc(c, Add(y, x), p);
    MulAddLeft(y, x, p);
    MulAddRight(c, Mul(y, p), Mul(x, p));
    MulAssoc(c, x, p);
    MulComm(c, x);
    MulAssoc(x, c, p);
  }

  lemma {:induction false} EliminateWeight(c: seq<bv8>, xs: seq<bv8>, x: bv8)
    requires |c| == |xs|
    ensures Weight(Eliminate(c, xs, x)) <= Weight(c)
  {
    hide Add, Mul;
    if c != [] {
      assert Eliminate(c, xs, x)[1..] == Eliminate(c[1..], xs[1..], x);
      EliminateWeight(c[1..], xs[1..], x);
      MulZeroLeft(Add(xs[0], x));
    }
  }

  // A word of weight at most d whose first d power sums are zero is zero.
  lemma {:induction false} FewTermsVanish(c: seq<bv8>, xs: seq<bv8>, d: nat)
    requires |c| == |xs| && Distinct(xs) && Weight(c) <= d
    requires forall i :: 0 <= i < d ==> PowerSum(c, xs, i) == 0
    ensures c == Zeroes(|c|)
    decreases |c|
  {
    hide Add, Mul, Pow;
    if c != [] {
      var x, rest, ys := xs[0], c[1..], xs[1..];
      if c[0] == 0 {
        forall i | 0 <= i < d ensures PowerSum(rest, ys, i) == 0 {
          assert PowerSum(c, xs, i) == 0;
          MulZeroLeft(Pow(x, i));
          AddZero(PowerSum(rest, ys, i));
        }
        FewTermsVanish(rest, ys, d);
      } else {
        assert PowerSum(c, xs, 0) == 0;
        var g := Eliminate(rest, ys, x);
        EliminateWeight(rest, ys, x);
        forall i | 0 <= i < d - 1 ensures PowerSum(g, ys, i) == 0 {
          FirstTermEliminated(c, xs, i);
        }
        FewTermsVanish(g, ys, d - 1);
        forall k | 0 <= k < |rest| ensures rest[k] == 0 {
          assert g[k] == 0 && ys[k] == xs[k + 1];
          ZeroProduct(rest[k], Add(ys[k], x));
          AddIsZero(ys[k], x);
        }
        assert rest == Zeroes(|rest|);
        OnlyFirstTerm(c, xs);
        assert false;
      }
    }
  }

  lemma FirstTermEliminated(c: seq<bv8>, xs: seq<bv8>, i: nat)
    requires |c| == |xs| > 0
    requires PowerSum(c, xs, i) == 0 && PowerSum(c, xs, i + 1) == 0
    ensures PowerSum(Eliminate(c[1..], xs[1..], xs[0]), xs[1..], i) == 0
  {
    hide Add, Mul, Pow;
    var x := xs[0];
    EliminatedPowerSum(c, xs, x, i);
    assert Eliminate(c, xs, x)[1..] == Eliminate(c[1..], xs[1..], x);
    AddSelf(x);
    MulComm(c[0], 0);
    MulZeroLeft(c[0]);
    MulZeroLeft(Pow(x, i));
    MulComm(x, 0);
    MulZeroLeft(x);
    AddZero(0);
    AddZero(PowerSum(Eliminate(c[1..], xs[1..], x), xs[1..], i));
  }

  lemma {:induction false} PowerSumOfZeroes(xs: seq<bv8>, i: nat)
    ensures PowerSum(Zeroes(|xs|), xs, i) == 0
  {
    hide Add, Mul, Pow;
    if xs != [] {
      assert Zeroes(|xs|)[1..] == Zeroes(|xs[1..]|);
      PowerSumOfZeroes(xs[1..], i);
      MulZeroLeft(Pow(xs[0], i));
      AddZero(0);
    }
  }

  lemma OnlyFirstTerm(c: seq<bv8>, xs: seq<bv8>)
    requires |c| == |xs| > 0 && c[1..] == Zeroes(|c| - 1)
    ensures PowerSum(c, xs, 0) == c[0]
  {
    hide Add, Mul, Pow;
    PowerSumOfZeroes(xs[1..], 0);
    PowNone(xs[0]);
    MulOne(c[0]);
    AddZero(c[0]);
  }

  // The place of coefficient k in a word of n bytes: 2^(n-1-k).
  function Places(n: nat): (xs: seq<bv8>)
    ensures |xs| == n
  {
    seq(n, k requires 0 <= k < n => Pow(2, n - 1 - k))
  }

  lemma {:induction false} EvalIsPowerSum(c: seq<bv8>, i: nat)
    ensures Eval(c, Pow(2, i)) == PowerSum(c, Places(|c|), i)
  {
    hide Add, Mul, Pow;
    if c != [] {
      var n := |c| - 1;
      assert c == [c[0]] + c[1..];
      assert Places(|c|)[1..] == Places(n);
      EvalIsPowerSum(c[1..], i);
      EvalConcat([c[0]], c[1..], Pow(2, i));
      EvalOne(c[0], Pow(2, i));
      PowMul(2, i, n);
      PowMul(2, n, i);
      assert i * n == n * i;
    }
  }

  lemma {:induction false} WeightOfDifference(c: seq<bv8>, e: seq<bv8>)
    requires |c| == |e|
    ensures Weight(Plus(c, e)) == Distance(c, e)
  {
    hide Add;
    if c != [] {
      assert Plus(c, e)[1..] == Plus(c[1..], e[1..]);
      WeightOfDifference(c[1..], e[1..]);
      AddIsZero(c[0], e[0]);
    }
  }

  // Two different blocks of at most 255 bytes differ in more than d places.
  lemma MinimumDistance(c: seq<bv8>, e: seq<bv8>, d: nat)
    requires |c| == |e| <= 255
    requires IsCodeword(c, d) && IsCodeword(e, d)
    ensures c == e || Distance(c, e) > d
  {
    hide Add, Mul, Pow, Eval;
    if Distance(c, e) <= d {
      var s, xs := Plus(c, e), Places(|c|);
      WeightOfDifference(c, e);
      forall j, k | 0 <= j < k < |xs| ensures xs[j] != xs[k] {
        PowersDistinct(|c| - 1 - k, |c| - 1 - j);
      }
      forall i | 0 <= i < d ensures PowerSum(s, xs, i) == 0 {
        EvalIsPowerSum(s, i);
        EvalPlus(c, e, Pow(2, i));
        AddZero(0);
      }
      FewTermsVanish(s, xs, d);
      forall k | 0 <= k < |c| ensures c[k] == e[k] {
        assert s[k] == 0;
        AddIsZero(c[k], e[k]);
      }
    }
  }

  lemma {:induction false} SharedPrefix(data: seq<bv8>, p: seq<bv8>, q: seq<bv8>)
    requires |p| == |q|
    ensures Distance(data + p, data + q) == Distance(p, q) <= |p|
  {
    if data != [] {
      assert (data + p)[1..] == data[1..] + p && (data + q)[1..] == data[1..] + q;
      SharedPrefix(data[1..], p, q);
    } else {
      assert data + p == p && data + q == q;
      DistanceBound(p, q);
    }
  }

  lemma {:induction false} DistanceBound(p: seq<bv8>, q: seq<bv8>)
    requires |p| == |q|
    ensures Distance(p, q) <= |p|
  {
    if p != [] {
      DistanceBound(p[1..], q[1..]);
    }
  }

  // The program's bytes are the only ones that complete the data to a codeword.
  lemma EccIsUnique(data: seq<bv8>, ecc: seq<bv8>, d: nat)
    requires d > 0 && |ecc| == d && |data| + d <= 255
    ensures IsCodeword(data + ecc, d) <==> ecc == Ecc(data, d)
  {
    hide Add, Mul, Pow, Eval;
    EccMakesCodeword(data, d);
    if IsCodeword(data + ecc, d) {
      SharedPrefix(data, ecc, Ecc(data, d));
      MinimumDistance(data + ecc, data + Ecc(data, d), d);
      assert ecc == (data + ecc)[|data|..];
    }
  }

  lemma {:induction false} Triangle(p: seq<bv8>, q: seq<bv8>, r: seq<bv8>)
    requires |p| == |q| == |r|
    ensures Distance(p, r) <= Distance(p, q) + Distance(q, r) && Distance(p, q) == Distance(q, p)
  {
    if p != [] {
      Triangle(p[1..], q[1..], r[1..]);
    }
  }

  // Up to half as many wrong bytes as there are error correction bytes leave one block only.
  lemma UniqueCorrection(received: seq<bv8>, c: seq<bv8>, e: seq<bv8>, d: nat)
    requires |received| == |c| == |e| <= 255 && IsCodeword(c, d) && IsCodeword(e, d)
    requires 2 * Distance(received, c) <= d && 2 * Distance(received, e) <= d
    ensures c == e
  {
    Triangle(c, received, e);
    Triangle(received, c, e);
    MinimumDistance(c, e, d);
  }
}
