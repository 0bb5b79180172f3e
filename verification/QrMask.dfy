/**
 Masking and the choice of the mask: ISO/IEC 18004 section 7.8.
 */
module QrMask {
  import opened Arithmetic
  import opened QrGrid
  import opened QrTables
  import opened QrFormat

  predicate Inverts(m: int, x: int, y: int) {
    match m
    case 0 => (x + y) % 2 == 0
    case 1 => y % 2 == 0
    case 2 => x % 3 == 0
    case 3 => (x + y) % 3 == 0
    case 4 => (x / 3 + y / 2) % 2 == 0
    case 5 => x * y % 2 + x * y % 3 == 0
    case 6 => (x * y % 2 + x * y % 3) % 2 == 0
    case _ => ((x + y) % 2 + x * y % 3) % 2 == 0
  }

  lemma InSixths(z: int)
    requires 0 <= z
    ensures z % 2 == z % 6 % 2 && z % 3 == z % 6 % 3 && z / 3 % 2 == z % 6 / 3
  {
    var q, r := z / 6, z % 6;
    DivMod(3 * q + r / 2, 2, r % 2);
    DivMod(2 * q + r / 3, 3, r % 3);
    DivMod(q, 2, r / 3);
  }

  lemma Sixths(z: int)
    requires 0 <= z
    ensures z % 2 + z % 3 == 0 <==> z % 6 == 0
    ensures (z % 2 + z % 3) % 2 == 0 <==> z % 6 < 3
  {
    InSixths(z);
    var r := z % 6;
    if r == 0 {
    } else if r == 1 {
    } else if r == 2 {
    } else if r == 3 {
    } else if r == 4 {
    } else {
      assert r == 5;
    }
  }

  lemma InQuarters(y: int)
    requires 0 <= y
    ensures y / 2 % 2 == y % 4 / 2
  {
    var q, r := y / 4, y % 4;
    DivMod(2 * q + r / 2, 2, r % 2);
    DivMod(q, 2, r / 2);
  }

  lemma SumInHalves(x: int, y: int)
    ensures (x + y) % 2 == 0 <==> x % 2 == y % 2
  {
    var q, r := x / 2 + y / 2, x % 2 + y % 2;
    if r < 2 {
      DivMod(q, 2, r);
    } else {
      DivMod(q + 1, 2, 0);
    }
  }

  lemma SumInThirds(x: int, y: int)
    ensures (x + y) % 3 == 0 <==> x % 3 == (3 - y % 3) % 3
  {
    var q, r := x / 3 + y / 3, x % 3 + y % 3;
    if r < 3 {
      DivMod(q, 3, r);
    } else {
      DivMod(q + 1, 3, r - 3);
    }
  }

  lemma CheckersAndThirds(s: int, z: int)
    ensures (s % 2 + z % 3) % 2 == 0 <==> (s % 2 == 0) == (z % 3 != 1)
  {}

  // The eight patterns by what they look like: checkers, rows, columns, diagonals, blocks of three
  // by two, and three patterns that repeat every six modules.
  lemma MaskPatterns(x: int, y: int)
    requires 0 <= x && 0 <= y
    ensures Inverts(0, x, y) <==> x % 2 == y % 2
    ensures Inverts(1, x, y) <==> y % 2 == 0
    ensures Inverts(2, x, y) <==> x % 3 == 0
    ensures Inverts(3, x, y) <==> x % 3 == (3 - y % 3) % 3
    ensures Inverts(4, x, y) <==> (x % 6 < 3) == (y % 4 < 2)
    ensures Inverts(5, x, y) <==> x * y % 6 == 0
    ensures Inverts(6, x, y) <==> x * y % 6 < 3
    ensures Inverts(7, x, y) <==> (x % 2 == y % 2) == (x * y % 3 != 1)
  {
    NotNegative(x, y);
    Sixths(x * y);
    CheckersAndThirds(x + y, x * y);
    SumInHalves(x, y);
    SumInThirds(x, y);
    InSixths(x);
    InQuarters(y);
    SumInHalves(x / 3, y / 2);
  }

  lemma NotNegative(x: int, y: int)
    requires 0 <= x && 0 <= y
    ensures 0 <= x * y
  {}

  function MaskedColor(functions: seq<bool>, g: seq<bool>, n: int, m: int, c: int): bool
    requires |functions| == |g| && 0 <= c < |g| && n > 0
  {
    if functions[c] then g[c] else g[c] != Inverts(m, c % n, c / n)
  }

  function Masked(functions: seq<bool>, g: seq<bool>, n: int, m: int): (h: seq<bool>)
    requires |functions| == |g| && n > 0
    ensures |h| == |g|
  {
    seq(|g|, c requires 0 <= c < |g| => MaskedColor(functions, g, n, m, c))
  }

  // Masked up to cell k, in the order in which the program visits the modules.
  ghost predicate MaskedUpTo(functions: seq<bool>, g: seq<bool>, n: int, m: int, qr: seq<bv8>, k: int) {
    && n >= 21 && |functions| == |g| == n * n && 0 <= k <= n * n && IsGrid(qr, n)
    && forall c :: 0 <= c < n * n ==> Cells(qr, n)[c] == if c < k then MaskedColor(functions, g, n, m, c) else g[c]
  }

  method ApplyToModule(functionModules: array<bv8>, qr: array<bv8>, m: int, x: int, y: int, ghost n: int,
      ghost g: seq<bool>)
    requires functionModules != qr && IsMask(m) && InGrid(n, x, y) && IsGrid(functionModules[..], n)
    requires MaskedUpTo(Cells(functionModules[..], n), g, n, m, qr[..], Cell(n, x, y))
    modifies qr
    ensures MaskedUpTo(Cells(functionModules[..], n), g, n, m, qr[..], Cell(n, x, y) + 1)
  {
    hide *;
    ghost var functions, before, c := Cells(functionModules[..], n), qr[..], Cell(n, x, y);
    CellFacts(n, x, y);
    NotYetMasked(functions, g, n, m, before, x, y);
    var isFunction := GetModule(functionModules, n, x, y);
    if !isFunction {
      var invert := Inverts(m, x, y);
      var val := GetModule(qr, n, x, y);
      SetModule(qr, n, x, y, val != invert);
    }
    MaskedNext(functions, g, n, m, before, qr[..], c);
  }

  lemma NotYetMasked(functions: seq<bool>, g: seq<bool>, n: int, m: int, qr: seq<bv8>, x: int, y: int)
    requires InGrid(n, x, y) && MaskedUpTo(functions, g, n, m, qr, Cell(n, x, y))
    ensures var c := Cell(n, x, y);
      && 0 <= c < n * n && |functions| == |g| == n * n && n > 0 && IsGrid(qr, n) && Cells(qr, n)[c] == g[c]
      && MaskedColor(functions, g, n, m, c) == if functions[c] then g[c] else g[c] != Inverts(m, x, y)
  {
    CellFacts(n, x, y);
    hide Cells, Inverts, IsGrid, Cell;
  }

  lemma MaskedNext(functions: seq<bool>, g: seq<bool>, n: int, m: int, before: seq<bv8>, after: seq<bv8>, c: int)
    requires MaskedUpTo(functions, g, n, m, before, c) && c < n * n && IsGrid(after, n)
    requires Cells(after, n) == Cells(before, n)[c := MaskedColor(functions, g, n, m, c)]
    ensures MaskedUpTo(functions, g, n, m, after, c + 1)
  {
    hide Cells, Inverts, IsGrid, MaskedColor;
  }

  method ApplyMask(functionModules: array<bv8>, qr: array<bv8>, m: int, ghost n: int)
    requires functionModules != qr && IsMask(m) && IsGrid(functionModules[..], n) && IsGrid(qr[..], n)
    modifies qr
    ensures IsGrid(qr[..], n)
    ensures Cells(qr[..], n) == Masked(Cells(functionModules[..], n), old(Cells(qr[..], n)), n, m)
  {
    hide *;
    ghost var functions, g := Cells(functionModules[..], n), Cells(qr[..], n);
    GridFacts(qr[..], n);
    MaskStart(functions, g, n, m, qr[..]);
    var qrsize := qr[0] as int;
    for y := 0 to qrsize
      invariant MaskedUpTo(functions, g, n, m, qr[..], Cell(n, 0, y))
    {
      for x := 0 to qrsize
        invariant MaskedUpTo(functions, g, n, m, qr[..], Cell(n, x, y))
      {
        NextCell(n, x, y);
        ApplyToModule(functionModules, qr, m, x, y, n, g);
      }
      NextCell(n, n - 1, y);
    }
    NextCell(n, n - 1, n - 1);
    MaskEnd(functions, g, n, m, qr[..]);
  }

  lemma NextCell(n: int, x: int, y: int)
    requires 0 <= x < n
    ensures InGrid(n, x, y) <==> 0 <= y < n
    ensures Cell(n, x, y) + 1 == Cell(n, x + 1, y) && Cell(n, n, y) == Cell(n, 0, y + 1) && Cell(n, 0, n) == n * n
  {}

  lemma MaskStart(functions: seq<bool>, g: seq<bool>, n: int, m: int, qr: seq<bv8>)
    requires n >= 21 && IsGrid(qr, n) && |functions| == n * n && g == Cells(qr, n)
    ensures MaskedUpTo(functions, g, n, m, qr, Cell(n, 0, 0))
  {}

  lemma MaskEnd(functions: seq<bool>, g: seq<bool>, n: int, m: int, qr: seq<bv8>)
    requires MaskedUpTo(functions, g, n, m, qr, n * n)
    ensures IsGrid(qr, n) && Cells(qr, n) == Masked(functions, g, n, m)
  {}

  // Masking twice changes nothing.
  lemma MaskTwice(functions: seq<bool>, g: seq<bool>, n: int, m: int)
    requires |functions| == |g| && n > 0
    ensures Masked(functions, Masked(functions, g, n, m), n, m) == g
  {
    hide Inverts;
  }

  // ----- Choosing the mask -----

  const LONG_MAX := 0x7FFF_FFFF

  // The format bits lie on function modules.
  ghost predicate FormatInside(functions: seq<bool>, n: int)
    requires |functions| == n * n && n >= 21
  {
    forall c :: 0 <= c < n * n && (FirstIndex(c % n, c / n) != -1 || SecondIndex(n, c % n, c / n) != -1) ==>
      functions[c]
  }

  // The finished symbol for one mask.
  function Trial(functions: seq<bool>, g: seq<bool>, n: int, e: int, m: int): (h: seq<bool>)
    requires |functions| == |g| && n >= 21 && IsLevel(e) && IsMask(m)
    ensures |h| == |g|
  {
    WithFormat(Masked(functions, g, n, m), n, FormatBits(e, m), 15, 16)
  }

  // g, possibly with other format bits drawn over it.
  ghost predicate UpToFormat(g: seq<bool>, h: seq<bool>, n: int)
    requires n >= 21
  {
    |h| == |g| && (h == g || exists bits :: h == WithFormat(g, n, bits, 15, 16))
  }

  lemma TrialIgnoresFormat(functions: seq<bool>, g: seq<bool>, h: seq<bool>, n: int, e: int, m: int)
    requires |functions| == |g| == n * n && n >= 21 && IsLevel(e) && IsMask(m)
    requires FormatInside(functions, n) && UpToFormat(g, h, n)
    ensures Trial(functions, h, n, e, m) == Trial(functions, g, n, e, m)
  {
    hide FormatBit, Inverts, FirstIndex, SecondIndex, FormatBits;
  }

  // Unmasking after a trial restores everything but the format bits.
  lemma TrialUndone(functions: seq<bool>, g: seq<bool>, n: int, e: int, m: int)
    requires |functions| == |g| == n * n && n >= 21 && IsLevel(e) && IsMask(m)
    requires FormatInside(functions, n)
    ensures Masked(functions, Trial(functions, g, n, e, m), n, m) == WithFormat(g, n, FormatBits(e, m), 15, 16)
  {
    hide FormatBit, Inverts, FirstIndex, SecondIndex, FormatBits;
  }

  lemma FormatOnlyOnFunctions(functions: seq<bool>, g: seq<bool>, n: int, bits: bv16)
    requires |functions| == |g| == n * n && n >= 21 && FormatInside(functions, n)
    ensures forall c :: 0 <= c < n * n && !functions[c] ==> WithFormat(g, n, bits, 15, 16)[c] == g[c]
  {
    hide FormatBit, FirstIndex, SecondIndex;
  }

  ghost predicate Smallest(functions: seq<bool>, g: seq<bool>, n: int, e: int, penalty: seq<bool> -> int, m: int,
      k: int)
    requires |functions| == |g| && n >= 21 && IsLevel(e) && 0 <= k <= 8
  {
    && 0 <= m < k
    && (forall i :: 0 <= i < m ==> penalty(Trial(functions, g, n, e, m)) < penalty(Trial(functions, g, n, e, i)))
    && (forall i :: m <= i < k ==> penalty(Trial(functions, g, n, e, m)) <= penalty(Trial(functions, g, n, e, i)))
  }

  method TryMask(functionModules: array<bv8>, qr: array<bv8>, e: int, m: int, ghost n: int, ghost g: seq<bool>,
      penalty: seq<bool> -> int) returns (score: int)
    requires functionModules != qr && IsLevel(e) && IsMask(m) && IsGrid(functionModules[..], n) && IsGrid(qr[..], n)
    requires |g| == n * n && FormatInside(Cells(functionModules[..], n), n) && UpToFormat(g, Cells(qr[..], n), n)
    modifies qr
    ensures IsGrid(qr[..], n) && UpToFormat(g, Cells(qr[..], n), n)
    ensures score == penalty(Trial(Cells(functionModules[..], n), g, n, e, m))
  {
    hide *;
    ghost var functions, h := Cells(functionModules[..], n), Cells(qr[..], n);
    GridFacts(qr[..], n);
    ApplyMask(functionModules, qr, m, n);
    DrawFormatBits(e, m, qr, n);
    TrialIs(functions, h, n, e, m);
    TrialIgnoresFormat(functions, g, h, n, e, m);
    GridFacts(qr[..], n);
    score := penalty(Cells(qr[..], qr[0] as int));
    ApplyMask(functionModules, qr, m, n);
    TrialUndone(functions, g, n, e, m);
    FormatIsUpToFormat(g, n, FormatBits(e, m));
  }

  lemma TrialIs(functions: seq<bool>, g: seq<bool>, n: int, e: int, m: int)
    requires |functions| == |g| && n >= 21 && IsLevel(e) && IsMask(m)
    ensures Trial(functions, g, n, e, m) == WithFormat(Masked(functions, g, n, m), n, FormatBits(e, m), 15, 16)
  {}

  lemma FormatIsUpToFormat(g: seq<bool>, n: int, bits: bv16)
    requires n >= 21
    ensures UpToFormat(g, WithFormat(g, n, bits, 15, 16), n) && UpToFormat(g, g, n)
  {}

  // mask is -1 for the automatic choice.
  method MaskAndFormat(functionModules: array<bv8>, qr: array<bv8>, e: int, mask: int, ghost n: int,
      penalty: seq<bool> -> int) returns (m: int)
    requires functionModules != qr && IsLevel(e) && -1 <= mask <= 7
    requires IsGrid(functionModules[..], n) && IsGrid(qr[..], n) && FormatInside(Cells(functionModules[..], n), n)
    requires forall h: seq<bool> :: penalty(h) < LONG_MAX
    modifies qr
    ensures IsGrid(qr[..], n) && IsMask(m)
    ensures Cells(qr[..], n) == Trial(Cells(functionModules[..], n), old(Cells(qr[..], n)), n, e, m)
    ensures mask != -1 ==> m == mask
    ensures mask == -1 ==> Smallest(Cells(functionModules[..], n), old(Cells(qr[..], n)), n, e, penalty, m, 8)
  {
    hide Cells, IsGrid, ByteCount, FormatInside, UpToFormat, Trial;
    ghost var functions, g := Cells(functionModules[..], n), Cells(qr[..], n);
    GridFacts(qr[..], n);
    FormatIsUpToFormat(g, n, 0);
    m := mask;
    if mask == -1 {
      var minPenalty := LONG_MAX;
      for i := 0 to 8
        invariant IsGrid(qr[..], n) && UpToFormat(g, Cells(qr[..], n), n)
        invariant i == 0 ==> m == -1 && minPenalty == LONG_MAX
        invariant i > 0 ==>
          Smallest(functions, g, n, e, penalty, m, i) && minPenalty == penalty(Trial(functions, g, n, e, m))
      {
        var score := TryMask(functionModules, qr, e, i, n, g, penalty);
        if score < minPenalty {
          m, minPenalty := i, score;
        }
      }
    }
    ghost var h := Cells(qr[..], n);
    ApplyMask(functionModules, qr, m, n);
    DrawFormatBits(e, m, qr, n);
    TrialIs(functions, h, n, e, m);
    TrialIgnoresFormat(functions, g, h, n, e, m);
  }
}
