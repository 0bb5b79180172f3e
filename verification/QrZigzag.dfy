/**
 The order in which codeword bits are placed in the grid, and the placement itself:
 ISO/IEC 18004 section 7.7.3. Column pairs are scanned from the right, alternately upward and
 downward; column 6 holds a timing pattern and is stepped over.
 */
module QrZigzag {
  import opened Arithmetic
  import opened BitString
  import opened QrGrid

  predicate IsOddSize(n: int) { IsSize(n) && n % 2 == 1 }

  function Pairs(n: int): int { (n - 1) / 2 }

  // The right column of pair p.
  function Right(n: int, p: int): int {
    var right := n - 1 - 2 * p;
    if right > 6 then right else right - 1
  }

  predicate Upward(right: int) { (right + 1) / 2 % 2 == 0 }

  function Row(n: int, right: int, vert: int): int {
    if Upward(right) then n - 1 - vert else vert
  }

  function Steps(n: int): int { Product(Pairs(n), n) * 2 }

  function StepOf(n: int, p: int, vert: int, j: int): int { (Product(p, n) + vert) * 2 + j }

  // The column pair of step t, and how many rows of it were visited before.
  function PairAt(n: int, t: int): int
    requires n > 0
  {
    Quotient(t / 2, n)
  }

  function VertAt(n: int, t: int): int
    requires n > 0
  {
    Modulo(t / 2, n)
  }

  // The cell visited at step t.
  function Visited(n: int, t: int): int
    requires n > 0
  {
    var right := Right(n, PairAt(n, t));
    Cell(n, right - t % 2, Row(n, right, VertAt(n, t)))
  }

  // The column pair of column x, and which of its two columns x is, counted from the right.
  function PairOf(n: int, x: int): int { (n - 1 - (if x > 6 then x else x + 1)) / 2 }

  function SideOf(n: int, x: int): int { (n - 1 - (if x > 6 then x else x + 1)) % 2 }

  // The step that visits cell c.
  function VisitOf(n: int, c: int): int
    requires n > 0
  {
    var p := PairOf(n, c % n);
    StepOf(n, p, Row(n, Right(n, p), c / n), SideOf(n, c % n))
  }

  lemma ColumnOfPair(n: int, p: int, j: int)
    requires IsOddSize(n) && 0 <= p < Pairs(n) && 0 <= j < 2
    ensures var x := Right(n, p) - j; 0 <= x < n && x != 6 && PairOf(n, x) == p && SideOf(n, x) == j
  {}

  lemma PairOfColumn(n: int, x: int)
    requires IsOddSize(n) && 0 <= x < n && x != 6
    ensures 0 <= PairOf(n, x) < Pairs(n) && 0 <= SideOf(n, x) < 2 && Right(n, PairOf(n, x)) - SideOf(n, x) == x
  {}

  lemma RowTwice(n: int, right: int, y: int)
    requires 0 <= y < n
    ensures 0 <= Row(n, right, y) < n && Row(n, right, Row(n, right, y)) == y
  {}

  lemma StepFacts(n: int, p: int, vert: int, j: int)
    requires IsOddSize(n) && 0 <= p < Pairs(n) && 0 <= vert < n && 0 <= j < 2
    ensures 0 <= StepOf(n, p, vert, j) < Steps(n)
    ensures PairAt(n, StepOf(n, p, vert, j)) == p && VertAt(n, StepOf(n, p, vert, j)) == vert
    ensures StepOf(n, p, vert, j) % 2 == j
    ensures InGrid(n, Right(n, p) - j, Row(n, Right(n, p), vert))
    ensures Visited(n, StepOf(n, p, vert, j)) == Cell(n, Right(n, p) - j, Row(n, Right(n, p), vert))
  {
    StepParts(n, p, vert, j);
    ColumnOfPair(n, p, j);
    RowTwice(n, Right(n, p), vert);
    hide Right, Row, Cell, StepOf, PairAt, VertAt, Steps;
  }

  lemma StepParts(n: int, p: int, vert: int, j: int)
    requires n > 0 && 0 <= p < Pairs(n) && 0 <= vert < n && 0 <= j < 2
    ensures 0 <= StepOf(n, p, vert, j) < Steps(n)
    ensures PairAt(n, StepOf(n, p, vert, j)) == p && VertAt(n, StepOf(n, p, vert, j)) == vert
    ensures StepOf(n, p, vert, j) % 2 == j
  {
    hide Product, Quotient, Modulo, Pairs;
    ProductNext(p, n);
    ProductMono(0, p, n);
    ProductMono(p + 1, Pairs(n), n);
    QuotientFacts(p, n, vert);
    assert StepOf(n, p, vert, j) / 2 == Product(p, n) + vert;
  }

  lemma SplitStep(n: int, t: int)
    requires IsOddSize(n) && 0 <= t < Steps(n)
    ensures 0 <= PairAt(n, t) < Pairs(n) && 0 <= VertAt(n, t) < n
    ensures t == StepOf(n, PairAt(n, t), VertAt(n, t), t % 2)
  {
    hide Product, Quotient, Modulo, Pairs;
    QuotientBelow(t / 2, n, Pairs(n));
    RemainderBound(t / 2, n);
  }

  // Every step visits its own cell, outside column 6.
  lemma VisitedOnce(n: int, t: int)
    requires IsOddSize(n) && 0 <= t < Steps(n)
    ensures 0 <= Visited(n, t) < n * n && Visited(n, t) % n != 6 && VisitOf(n, Visited(n, t)) == t
  {
    hide Right, Row, PairOf, SideOf, Steps, Cell, PairAt, VertAt;
    SplitStep(n, t);
    var p, vert, j := PairAt(n, t), VertAt(n, t), t % 2;
    StepFacts(n, p, vert, j);
    ColumnOfPair(n, p, j);
    RowTwice(n, Right(n, p), vert);
    CellFacts(n, Right(n, p) - j, Row(n, Right(n, p), vert));
  }

  // Every cell outside column 6 is visited.
  lemma EveryCellVisited(n: int, c: int)
    requires IsOddSize(n) && 0 <= c < n * n && c % n != 6
    ensures 0 <= VisitOf(n, c) < Steps(n) && Visited(n, VisitOf(n, c)) == c
  {
    hide Right, Row, PairOf, SideOf, Steps, Cell, StepOf, Visited;
    CellOfQuotient(n, c);
    var p := PairOf(n, c % n);
    PairOfColumn(n, c % n);
    RowTwice(n, Right(n, p), c / n);
    StepFacts(n, p, Row(n, Right(n, p), c / n), SideOf(n, c % n));
  }

  // ----- The path -----

  // Two steps in a row: of the same pair at the same height, of the same pair one row on, or the
  // last of a pair and the first of the next.
  lemma StepAndNext(n: int, t: int) returns (p: int, vert: int)
    requires IsOddSize(n) && 0 <= t && t + 1 < Steps(n)
    ensures 0 <= p < Pairs(n) && 0 <= vert < n && t == StepOf(n, p, vert, t % 2)
    ensures t + 1 == if t % 2 == 0 then StepOf(n, p, vert, 1)
      else if vert < n - 1 then StepOf(n, p, vert + 1, 0) else StepOf(n, p + 1, 0, 0)
    ensures t % 2 == 1 && vert == n - 1 ==> p + 1 < Pairs(n)
  {
    hide *;
    SplitStep(n, t);
    p, vert := PairAt(n, t), VertAt(n, t);
    StepIs(n, p, vert);
    if t % 2 == 1 && vert == n - 1 && p + 1 >= Pairs(n) {
      assert p + 1 == Pairs(n);
      NextSteps(n, p, n);
    }
  }

  lemma StepIs(n: int, p: int, vert: int)
    ensures StepOf(n, p, vert, 1) == StepOf(n, p, vert, 0) + 1
    ensures StepOf(n, p, vert + 1, 0) == StepOf(n, p, vert, 1) + 1
    ensures StepOf(n, p, n, 0) == StepOf(n, p + 1, 0, 0)
  {}

  // A pair is done after 2 n steps.
  lemma PairEnds(n: int, p: int, vert: int, j: int)
    requires 0 <= vert < n && 0 <= j < 2
    ensures (StepOf(n, p, vert, j) + 1) % (2 * n) == 0 <==> j == 1 && vert == n - 1
  {
    assert StepOf(n, p, vert, j) + 1 == Product(p, 2 * n) + (2 * vert + j + 1);
    hide *;
    NextMultiple(p, 2 * n, 2 * vert + j + 1);
  }

  lemma RowsOfPair(n: int, p: int, vert: int)
    requires 0 <= vert < n - 1
    ensures var y, y' := Row(n, Right(n, p), vert), Row(n, Right(n, p), vert + 1); y' == y - 1 || y' == y + 1
  {}

  lemma NextPair(n: int, p: int)
    requires IsOddSize(n) && 0 <= p && p + 1 < Pairs(n)
    ensures Row(n, Right(n, p + 1), 0) == Row(n, Right(n, p), n - 1)
    ensures Right(n, p + 1) == if Right(n, p) - 2 == 6 then 5 else Right(n, p) - 2
  {}

  // The scan starts in the lower right corner, and so goes upward there.
  lemma PathStarts(n: int)
    requires IsOddSize(n) && n % 4 == 1
    ensures Visited(n, 0) == n * n - 1
  {
    hide *;
    SizeIsPositive(n);
    FirstRow(n);
    FirstStep(n);
    StepFacts(n, 0, 0, 0);
    LastCell(n);
  }

  lemma FirstRow(n: int)
    requires IsOddSize(n) && n % 4 == 1
    ensures 0 < Pairs(n) && Right(n, 0) == n - 1 == Row(n, Right(n, 0), 0)
  {}

  lemma FirstStep(n: int)
    ensures StepOf(n, 0, 0, 0) == 0
  {}

  lemma LastCell(n: int)
    ensures Cell(n, n - 1, n - 1) == n * n - 1
  {
    assert (n - 1) * n == n * n - n;
  }

  // How a scan goes on from cell c of step t to cell d: from the right column of a pair to the left
  // one in the same row; from there to a row next to it in the right column, or, after 2 n steps in
  // the pair, to the next pair in the same row, over column 6.
  predicate GoesOn(n: int, t: int, c: int, d: int)
    requires n > 0
  {
    var (x, y, x', y') := (c % n, c / n, d % n, d / n);
    && (t % 2 == 0 ==> x' == x - 1 && y' == y)
    && (t % 2 == 1 && (t + 1) % (2 * n) != 0 ==> x' == x + 1 && (y' == y - 1 || y' == y + 1))
    && (t % 2 == 1 && (t + 1) % (2 * n) == 0 ==> x' == (if x - 1 == 6 then 5 else x - 1) && y' == y)
  }

  lemma PathSteps(n: int, t: int)
    requires IsOddSize(n) && 0 <= t && t + 1 < Steps(n)
    ensures GoesOn(n, t, Visited(n, t), Visited(n, t + 1))
  {
    hide Visited, Steps, Right, Row, StepOf, Pairs, IsOddSize;
    SizeIsPositive(n);
    var p, vert := StepAndNext(n, t);
    PairEnds(n, p, vert, t % 2);
    VisitedPlace(n, p, vert, t % 2);
    if t % 2 == 0 {
      VisitedPlace(n, p, vert, 1);
    } else if vert < n - 1 {
      VisitedPlace(n, p, vert + 1, 0);
      RowsOfPair(n, p, vert);
    } else {
      VisitedPlace(n, p + 1, 0, 0);
      NextPair(n, p);
    }
  }

  // A way through the grid that starts in the lower right corner, goes on like this, and comes to
  // no cell twice.
  ghost predicate IsScan(n: int, path: seq<int>)
    requires n > 0
  {
    && path != [] && path[0] == n * n - 1
    && (forall t :: 0 <= t < |path| ==> 0 <= path[t] < n * n)
    && (forall t, u :: 0 <= t < u < |path| ==> path[t] != path[u])
    && forall t, u :: 0 <= t < |path| - 1 && u == t + 1 ==> GoesOn(n, t, path[t], path[u])
  }

  lemma SizeIsPositive(n: int)
    requires IsOddSize(n)
    ensures n > 0
  {}

  lemma VisitedPlace(n: int, p: int, vert: int, j: int)
    requires IsOddSize(n) && 0 <= p < Pairs(n) && 0 <= vert < n && 0 <= j < 2
    ensures var c := Visited(n, StepOf(n, p, vert, j));
      0 <= c < n * n && c % n == Right(n, p) - j && c / n == Row(n, Right(n, p), vert)
  {
    hide *;
    StepFacts(n, p, vert, j);
    CellFacts(n, Right(n, p) - j, Row(n, Right(n, p), vert));
  }

  lemma ScanFacts(n: int, path: seq<int>, t: int)
    requires n > 0 && IsScan(n, path) && 0 <= t < |path|
    ensures path[0] == n * n - 1 && 0 <= path[t] < n * n
    ensures t > 0 ==> GoesOn(n, t - 1, path[t - 1], path[t])
    ensures t >= 4 ==> path[t] != path[t - 4]
  {
    hide GoesOn;
  }

  // Such a way is the program's: where it starts and how it goes on leave no choice.
  lemma {:induction false} OneScan(n: int, path: seq<int>, t: int)
    requires IsOddSize(n) && n % 4 == 1 && |path| <= Steps(n) && IsScan(n, path) && 0 <= t < |path|
    ensures path[t] == Visited(n, t)
    decreases t
  {
    hide *;
    SizeIsPositive(n);
    ScanFacts(n, path, t);
    if t == 0 {
      PathStarts(n);
    } else {
      OneScan(n, path, t - 1);
      var p, vert := StepAndNext(n, t - 1);
      if t % 2 == 0 && vert < n - 1 {
        OtherRow(n, p, vert, t - 1, path[t]);
        if t >= 4 {
          OneScan(n, path, t - 4);
        }
      } else {
        PairEnds(n, p, vert, (t - 1) % 2);
        PathSteps(n, t - 1);
        VisitedOnce(n, t);
        OneWayOn(n, t - 1, path[t - 1], path[t], Visited(n, t));
      }
    }
  }

  lemma OneWayOn(n: int, t: int, c: int, d: int, e: int)
    requires n > 0 && 0 <= t && 0 <= d < n * n && 0 <= e < n * n && GoesOn(n, t, c, d) && GoesOn(n, t, c, e)
    requires t % 2 == 0 || (t + 1) % (2 * n) == 0
    ensures d == e
  {
    SameCell(n, d, e);
  }

  lemma SameCell(n: int, d: int, e: int)
    requires n > 0 && 0 <= d < n * n && 0 <= e < n * n && d % n == e % n && d / n == e / n
    ensures d == e
  {
    CellOfQuotient(n, d);
    CellOfQuotient(n, e);
  }

  lemma ToNextRow(n: int, t: int, c: int, d: int)
    requires n > 0 && t % 2 == 1 && (t + 1) % (2 * n) != 0 && GoesOn(n, t, c, d)
    ensures d % n == c % n + 1 && (d / n == c / n - 1 || d / n == c / n + 1)
  {}

  // The row on the other side was visited before, or is outside.
  lemma OtherRow(n: int, p: int, vert: int, t: int, d: int)
    requires IsOddSize(n) && n > 0 && 0 <= p < Pairs(n) && 0 <= vert < n - 1 && t == StepOf(n, p, vert, 1)
    requires 0 <= d < n * n && GoesOn(n, t, Visited(n, t), d) && t % 2 == 1
    ensures d == Visited(n, t + 1) || (t >= 3 && d == Visited(n, t - 3))
  {
    hide *;
    PairEnds(n, p, vert, 1);
    ToNextRow(n, t, Visited(n, t), d);
    VisitedPlace(n, p, vert, 1);
    CellOfQuotient(n, d);
    Neighbours(n, Right(n, p), vert, d / n);
    StepIs(n, p, vert);
    if d / n == Row(n, Right(n, p), vert + 1) {
      VisitedPlace(n, p, vert + 1, 0);
      SameCell(n, d, Visited(n, t + 1));
    } else {
      StepIs(n, p, vert - 1);
      NextSteps(n, p, vert - 1);
      VisitedPlace(n, p, vert - 1, 0);
      SameCell(n, d, Visited(n, t - 3));
    }
  }

  lemma Neighbours(n: int, right: int, vert: int, y: int)
    requires 0 <= vert < n - 1 && 0 <= y < n
    requires y == Row(n, right, vert) - 1 || y == Row(n, right, vert) + 1
    ensures y == Row(n, right, vert + 1) || (vert > 0 && y == Row(n, right, vert - 1))
  {}

  // ----- Reading and drawing -----

  // The modules of g met in the first t steps, leaving out those that are dark in functions.
  function ReadZigzag(functions: seq<bool>, g: seq<bool>, n: int, t: int): seq<bool>
    requires IsOddSize(n) && |functions| == |g| == n * n && 0 <= t <= Steps(n)
    decreases t
  {
    if t == 0 then []
    else
      VisitedOnce(n, t - 1);
      var c := Visited(n, t - 1);
      ReadZigzag(functions, g, n, t - 1) + if functions[c] then [] else [g[c]]
  }

  function Min(a: int, b: int): int { if a < b then a else b }

  // After t steps of drawing bits over the grid before.
  ghost predicate Drawn(n: int, before: seq<bool>, now: seq<bool>, bits: seq<bool>, t: int, i: int)
    requires IsOddSize(n) && |before| == n * n && 0 <= t <= Steps(n)
  {
    && |now| == n * n
    && (forall c :: 0 <= c < n * n && (before[c] || c % n == 6 || VisitOf(n, c) >= t) ==> now[c] == before[c])
    && var read := ReadZigzag(before, now, n, t);
       i == Min(|read|, |bits|) && read[..i] == bits[..i] && forall k :: i <= k < |read| ==> !read[k]
  }

  lemma {:induction false} ReadFrame(functions: seq<bool>, g: seq<bool>, h: seq<bool>, n: int, t: int)
    requires IsOddSize(n) && |functions| == |g| == |h| == n * n && 0 <= t <= Steps(n)
    requires forall c :: 0 <= c < n * n && !functions[c] && VisitOf(n, c) < t ==> g[c] == h[c]
    ensures ReadZigzag(functions, g, n, t) == ReadZigzag(functions, h, n, t)
    decreases t
  {
    hide *;
    NothingRead(functions, g, h, n);
    if t > 0 {
      VisitedOnce(n, t - 1);
      ReadFrame(functions, g, h, n, t - 1);
      ReadNext(functions, g, n, t - 1);
      ReadNext(functions, h, n, t - 1);
    }
  }

  lemma NothingRead(functions: seq<bool>, g: seq<bool>, h: seq<bool>, n: int)
    requires IsOddSize(n) && |functions| == |g| == |h| == n * n
    ensures 0 <= Steps(n) ==> ReadZigzag(functions, g, n, 0) == ReadZigzag(functions, h, n, 0) == []
  {}

  // The module met at step t.
  lemma ReadNext(functions: seq<bool>, g: seq<bool>, n: int, t: int)
    requires IsOddSize(n) && |functions| == |g| == n * n && 0 <= t < Steps(n)
    ensures 0 <= Visited(n, t) < n * n
    ensures ReadZigzag(functions, g, n, t + 1) ==
      ReadZigzag(functions, g, n, t) + if functions[Visited(n, t)] then [] else [g[Visited(n, t)]]
  {
    VisitedOnce(n, t);
    hide Visited, VisitOf, Steps;
  }

  function DrawStep(now: seq<bool>, bits: seq<bool>, c: int, i: int): (seq<bool>, int)
    requires 0 <= c < |now| && 0 <= i <= |bits|
  {
    if !now[c] && i < |bits| then (now[c := bits[i]], i + 1) else (now, i)
  }

  lemma DrawnStep(n: int, before: seq<bool>, now: seq<bool>, bits: seq<bool>, t: int, i: int)
    requires IsOddSize(n) && |before| == n * n && 0 <= t < Steps(n)
    requires Drawn(n, before, now, bits, t, i)
    ensures 0 <= Visited(n, t) < n * n && 0 <= i <= |bits|
    ensures var (next, i') := DrawStep(now, bits, Visited(n, t), i); Drawn(n, before, next, bits, t + 1, i')
  {
    VisitedOnce(n, t);
    hide Visited, VisitOf;
    var c := Visited(n, t);
    var (next, i') := DrawStep(now, bits, c, i);
    assert now[c] == before[c];
    ReadFrame(before, now, next, n, t);
    var read := ReadZigzag(before, now, n, t);
    assert ReadZigzag(before, next, n, t + 1) == read + if before[c] then [] else [next[c]];
  }

  // One visit: a module that is still light takes the next bit.
  method DrawAt(data: array<bv8>, dataLen: int, qr: array<bv8>, ghost n: int, x: int, y: int, i: int) returns (i': int)
    requires data != qr && 0 <= dataLen <= data.Length && IsGrid(qr[..], n) && InGrid(n, x, y) && 0 <= i <= 8 * dataLen
    modifies qr
    ensures IsGrid(qr[..], n) && 0 <= Cell(n, x, y) < n * n
    ensures (Cells(qr[..], n), i') == DrawStep(old(Cells(qr[..], n)), Bits(data[..dataLen]), Cell(n, x, y), i)
  {
    i' := i;
    hide Cells, BitOf, IsGrid;
    var dark := GetModule(qr, n, x, y);
    if !dark && i < dataLen * 8 {
      SetModule(qr, n, x, y, BitOf(data[i / 8], 7 - i % 8));
      i' := i + 1;
    }
  }

  lemma NextSteps(n: int, p: int, vert: int)
    requires IsOddSize(n) && 0 <= p < Pairs(n) && 0 <= vert <= n
    ensures vert < n ==> 0 <= StepOf(n, p, vert, 1) < StepOf(n, p, vert + 1, 0) <= Steps(n)
    ensures 0 <= StepOf(n, p, vert, 0) <= Steps(n)
    ensures StepOf(n, p, n, 0) == StepOf(n, p + 1, 0, 0)
    ensures StepOf(n, p, vert, 2) == StepOf(n, p, vert + 1, 0)
    ensures StepOf(n, p, vert, 1) == StepOf(n, p, vert, 0) + 1 && StepOf(n, p, vert, 2) == StepOf(n, p, vert, 1) + 1
    ensures StepOf(n, Pairs(n), 0, 0) == Steps(n)
  {
    hide Product, Pairs;
    ProductNext(p, n);
    ProductMono(0, p, n);
    ProductMono(p + 1, Pairs(n), n);
  }

  lemma {:induction false} SameLength(functions: seq<bool>, g: seq<bool>, h: seq<bool>, n: int, t: int)
    requires IsOddSize(n) && |functions| == |g| == |h| == n * n && 0 <= t <= Steps(n)
    ensures |ReadZigzag(functions, g, n, t)| == |ReadZigzag(functions, h, n, t)|
    decreases t
  {
    hide *;
    NothingRead(functions, g, h, n);
    if t > 0 {
      SameLength(functions, g, h, n, t - 1);
      ReadNext(functions, g, n, t - 1);
      ReadNext(functions, h, n, t - 1);
    }
  }

  ghost predicate Drawing(n: int, before: seq<bool>, qr: seq<bv8>, bits: seq<bool>, t: int, i: int) {
    && IsOddSize(n) && |before| == n * n && 0 <= t <= Steps(n) && IsGrid(qr, n)
    && Drawn(n, before, Cells(qr, n), bits, t, i)
  }

  lemma DrawingFacts(n: int, before: seq<bool>, qr: seq<bv8>, bits: seq<bool>, t: int, i: int)
    requires Drawing(n, before, qr, bits, t, i)
    ensures |qr| > 0 && qr[0] as int == n > 0 && IsOddSize(n) && 0 < Pairs(n)
  {}

  // The visit at step t.
  method DrawNext(data: array<bv8>, dataLen: int, qr: array<bv8>, ghost n: int, x: int, y: int, i: int,
      ghost before: seq<bool>, ghost t: int) returns (i': int)
    requires data != qr && 0 <= dataLen <= data.Length && 0 <= t < Steps(n)
    requires Drawing(n, before, qr[..], Bits(data[..dataLen]), t, i)
    requires InGrid(n, x, y) && Cell(n, x, y) == Visited(n, t)
    modifies qr
    ensures Drawing(n, before, qr[..], Bits(data[..dataLen]), t + 1, i')
  {
    DrawnStep(n, before, Cells(qr[..], n), Bits(data[..dataLen]), t, i);
    hide Drawn, Cells, Visited, Bits, Cell, DrawStep;
    i' := DrawAt(data, dataLen, qr, n, x, y, i);
  }

  method DrawRowOfPair(data: array<bv8>, dataLen: int, qr: array<bv8>, ghost n: int, ghost p: int, right: int,
      vert: int,
      ghost before: seq<bool>, start: int) returns (i: int)
    requires data != qr && 0 <= dataLen <= data.Length && 0 <= p < Pairs(n) && right == Right(n, p) && 0 <= vert < n
    requires Drawing(n, before, qr[..], Bits(data[..dataLen]), StepOf(n, p, vert, 0), start)
    modifies qr
    ensures Drawing(n, before, qr[..], Bits(data[..dataLen]), StepOf(n, p, vert + 1, 0), i)
  {
    hide *;
    i := start;
    ghost var bits := Bits(data[..dataLen]);
    for j := 0 to 2
      invariant Drawing(n, before, qr[..], bits, StepOf(n, p, vert, j), i)
    {
      DrawingFacts(n, before, qr[..], bits, StepOf(n, p, vert, j), i);
      StepFacts(n, p, vert, j);
      NextSteps(n, p, vert);
      i := DrawNext(data, dataLen, qr, n, right - j, Row(qr[0] as int, right, vert), i, before, StepOf(n, p, vert, j));
    }
    DrawingFacts(n, before, qr[..], bits, StepOf(n, p, vert, 2), i);
    NextSteps(n, p, vert);
  }

  // One pair of columns, from one end to the other.
  method DrawPair(data: array<bv8>, dataLen: int, qr: array<bv8>, ghost n: int, ghost p: int, right: int,
      ghost before: seq<bool>, start: int) returns (i: int)
    requires data != qr && 0 <= dataLen <= data.Length && 0 <= p < Pairs(n) && right == Right(n, p)
    requires Drawing(n, before, qr[..], Bits(data[..dataLen]), StepOf(n, p, 0, 0), start)
    modifies qr
    ensures Drawing(n, before, qr[..], Bits(data[..dataLen]), StepOf(n, p + 1, 0, 0), i)
  {
    hide *;
    i := start;
    ghost var bits := Bits(data[..dataLen]);
    DrawingFacts(n, before, qr[..], bits, StepOf(n, p, 0, 0), i);
    NextSteps(n, p, n);
    var qrsize := qr[0] as int;
    for vert := 0 to qrsize
      invariant Drawing(n, before, qr[..], bits, StepOf(n, p, vert, 0), i)
    {
      i := DrawRowOfPair(data, dataLen, qr, n, p, right, vert, before, i);
    }
  }

  // The program's column counter at the head of its loop: after pair p - 1, before the step over 6.
  function Head(n: int, p: int): int {
    if n - 1 - 2 * p >= 6 then n - 1 - 2 * p else n - 2 - 2 * p
  }

  lemma HeadFacts(n: int, p: int)
    requires IsOddSize(n) && 0 <= p <= Pairs(n)
    ensures Head(n, 0) == n - 1 && (Head(n, p) >= 1 <==> p < Pairs(n))
    ensures var right := if Head(n, p) == 6 then 5 else Head(n, p); right == Right(n, p) && right - 2 == Head(n, p + 1)
  {}

  method DrawCodewords(data: array<bv8>, dataLen: int, qr: array<bv8>, ghost n: int)
    requires data != qr && 0 <= dataLen <= data.Length && IsGrid(qr[..], n) && IsOddSize(n)
    requires 8 * dataLen <= |ReadZigzag(Cells(qr[..], n), Cells(qr[..], n), n, Steps(n))|
    modifies qr
    ensures Drawing(n, old(Cells(qr[..], n)), qr[..], Bits(data[..dataLen]), Steps(n), 8 * dataLen)
  {
    hide *;
    ghost var before, bits := Cells(qr[..], n), Bits(data[..dataLen]);
    NothingDrawn(n, before, qr[..], bits);
    DrawingFacts(n, before, qr[..], bits, StepOf(n, 0, 0, 0), 0);
    HeadFacts(n, 0);
    var i := 0;
    var right := qr[0] as int - 1;
    ghost var p := 0;
    while right >= 1
      invariant 0 <= p <= Pairs(n) && right == Head(n, p)
      invariant Drawing(n, before, qr[..], bits, StepOf(n, p, 0, 0), i)
      decreases right
    {
      HeadFacts(n, p);
      if right == 6 {
        right := 5;
      }
      i := DrawPair(data, dataLen, qr, n, p, right, before, i);
      right := right - 2;
      p := p + 1;
    }
    HeadFacts(n, p);
    AllStepsTaken(n, before, qr[..], bits, i);
    assert i == 8 * dataLen;
  }

  lemma NothingDrawn(n: int, before: seq<bool>, qr: seq<bv8>, bits: seq<bool>)
    requires IsOddSize(n) && IsGrid(qr, n) && before == Cells(qr, n)
    ensures Drawing(n, before, qr, bits, StepOf(n, 0, 0, 0), 0)
  {
    NextSteps(n, 0, 0);
  }

  lemma AllStepsTaken(n: int, before: seq<bool>, qr: seq<bv8>, bits: seq<bool>, i: int)
    requires IsOddSize(n) && |before| == n * n && |bits| <= |ReadZigzag(before, before, n, Steps(n))|
    requires Drawing(n, before, qr, bits, StepOf(n, Pairs(n), 0, 0), i)
    ensures Drawing(n, before, qr, bits, Steps(n), |bits|) && i == |bits|
  {
    assert StepOf(n, Pairs(n), 0, 0) == Steps(n);
    SameLength(before, before, Cells(qr, n), n, Steps(n));
  }
}
