/**
 The light parts of the function modules: timing and finder patterns, alignment patterns and
 version blocks, ISO/IEC 18004 sections 6.3 and 7.10.
 */
module QrLight {
  import opened Arithmetic
  import opened QrGrid
  import opened QrTables
  import opened QrFunctions

  // ----- What a function module looks like -----

  // Timing patterns are light at odd places.
  predicate TimingLight(n: int, end: int, x: int, y: int) {
    (x == 6 && 7 <= y < end && y % 2 == 1) || (y == 6 && 7 <= x < end && x % 2 == 1)
  }

  function Abs(k: int): int { if k < 0 then -k else k }

  function RingOf(dx: int, dy: int): int { if Abs(dy) > Abs(dx) then Abs(dy) else Abs(dx) }

  // The rings of distance 2 and 4 around a finder's center are light; (endX, endY) bounds the
  // part drawn so far, row by row.
  predicate RingLight(dx: int, dy: int, endX: int, endY: int) {
    && -4 <= dx <= 4 && -4 <= dy <= 4 && (RingOf(dx, dy) == 2 || RingOf(dx, dy) == 4)
    && (dy < endY || (dy == endY && dx < endX))
  }

  predicate FinderLight(n: int, endX: int, endY: int, x: int, y: int) {
    RingLight(x - 3, y - 3, endX, endY) || RingLight(x - (n - 4), y - 3, endX, endY)
      || RingLight(x - 3, y - (n - 4), endX, endY)
  }

  predicate Before(i: int, j: int, endI: int, endJ: int) { i < endI || (i == endI && j < endJ) }

  // Inside the inner nine modules of an alignment pattern before (endI, endJ), or at its center.
  predicate AlignInner(v: int, endI: int, endJ: int, x: int, y: int)
    requires v >= 2
  {
    exists i, j :: 0 <= i < NumAlign(v) && 0 <= j < NumAlign(v) && Aligned(v, i, j) && Before(i, j, endI, endJ)
      && Abs(x - AlignPos(v, i)) <= 1 && Abs(y - AlignPos(v, j)) <= 1
  }

  predicate AlignCenter(v: int, endI: int, endJ: int, x: int, y: int)
    requires v >= 2
  {
    exists i, j :: 0 <= i < NumAlign(v) && 0 <= j < NumAlign(v) && Aligned(v, i, j) && Before(i, j, endI, endJ)
      && x == AlignPos(v, i) && y == AlignPos(v, j)
  }

  function VersionStep(rem: bv32): bv32 { (rem << 1) ^ ((rem >> 11) * 0x1F25) }

  function VersionRemainder(v: bv32, k: nat): bv32 {
    if k == 0 then v else VersionStep(VersionRemainder(v, k - 1))
  }

  function VersionWord(v: int): bv32
    requires IsVersion(v)
  {
    (v as bv8) as bv32
  }

  function PackVersion(version: bv32, rem: bv32): bv32 { (version << 12) | rem }

  function VersionBits(v: int): bv32
    requires IsVersion(v)
  {
    PackVersion(VersionWord(v), VersionRemainder(VersionWord(v), 12))
  }

  function NextBit(bits: bv32): bv32 { bits >> 1 }

  function Shifted(bits: bv32, k: nat): bv32 {
    if k == 0 then bits else NextBit(Shifted(bits, k - 1))
  }

  predicate LowBit(bits: bv32) { bits & 1 != 0 }

  // The bit of the version block that stands at (x, y), or -1: each copy is six by three.
  function VersionIndex(n: int, x: int, y: int): int {
    if 0 <= y < 6 && n - 11 <= x < n - 8 then y * 3 + (x - (n - 11))
    else if 0 <= x < 6 && n - 11 <= y < n - 8 then x * 3 + (y - (n - 11))
    else -1
  }

  function VersionColor(v: int, k: int): bool
    requires IsVersion(v) && k >= 0
  {
    LowBit(Shifted(VersionBits(v), k))
  }

  // The finished color of a module, given its color in the grid of all-dark function modules.
  function FinalColor(v: int, x: int, y: int, was: bool): bool
    requires IsVersion(v)
  {
    var n := Size(v);
    if v >= 7 && VersionIndex(n, x, y) >= 0 then VersionColor(v, VersionIndex(n, x, y))
    else if v >= 2 && AlignInner(v, NumAlign(v), 0, x, y) then AlignCenter(v, NumAlign(v), 0, x, y)
    else if FinderLight(n, 0, 5, x, y) || TimingLight(n, n - 7, x, y) then false
    else was
  }

  // ----- Setting one module, seen by coordinates -----

  ghost predicate Colored(qr: seq<bv8>, n: int, color: (int, int) -> bool) {
    IsGrid(qr, n) && n > 0 && forall c :: 0 <= c < n * n ==> Cells(qr, n)[c] == color(c % n, c / n)
  }

  function Over(color: (int, int) -> bool, x: int, y: int, dark: bool): (int, int) -> bool {
    (a, b) => if a == x && b == y then dark else color(a, b)
  }

  method SetColor(qr: array<bv8>, ghost n: int, x: int, y: int, dark: bool, ghost color: (int, int) -> bool)
    requires Colored(qr[..], n, color) && InGrid(n, x, y)
    modifies qr
    ensures Colored(qr[..], n, Over(color, x, y, dark))
  {
    hide Cells, IsGrid;
    SetModule(qr, n, x, y, dark);
    forall c | 0 <= c < n * n ensures (c % n == x && c / n == y) <==> c == Cell(n, x, y) {
      CellFacts(n, x, y);
      CellOfQuotient(n, c);
    }
  }

  lemma Recolor(qr: seq<bv8>, n: int, color: (int, int) -> bool, other: (int, int) -> bool)
    requires Colored(qr, n, color)
    requires forall x, y :: InGrid(n, x, y) ==> color(x, y) == other(x, y)
    ensures Colored(qr, n, other)
  {
    forall c | 0 <= c < n * n ensures InGrid(n, c % n, c / n) {
      CellOfQuotient(n, c);
    }
  }

  // ----- Timing patterns -----

  function TimingPhase(base: (int, int) -> bool, n: int, end: int): (int, int) -> bool {
    (x, y) => if TimingLight(n, end, x, y) then false else base(x, y)
  }

  lemma TimingStep(base: (int, int) -> bool, n: int, i: int, x: int, y: int)
    requires i % 2 == 1 && i >= 7
    ensures Over(Over(TimingPhase(base, n, i), 6, i, false), i, 6, false)(x, y) == TimingPhase(base, n, i + 2)(x, y)
  {
    assert TimingLight(n, i + 2, x, y) <==> TimingLight(n, i, x, y) || (x == 6 && y == i) || (x == i && y == 6);
  }

  method DrawTiming(qr: array<bv8>, ghost n: int, ghost base: (int, int) -> bool)
    requires Colored(qr[..], n, base) && n % 2 == 1
    modifies qr
    ensures Colored(qr[..], n, TimingPhase(base, n, n - 7))
  {
    hide *;
    ColoredSize(qr[..], n, base);
    var qrsize := qr[0] as int;
    var i := 7;
    forall x, y | InGrid(n, x, y) ensures base(x, y) == TimingPhase(base, n, 7)(x, y) {
      TimingStart(base, n, x, y);
    }
    Recolor(qr[..], n, base, TimingPhase(base, n, 7));
    while i < qrsize - 7
      invariant i % 2 == 1 && 7 <= i <= n - 6 && Colored(qr[..], n, TimingPhase(base, n, i))
    {
      ghost var color := TimingPhase(base, n, i);
      TimingInside(n, i);
      SetColor(qr, n, 6, i, false, color);
      SetColor(qr, n, i, 6, false, Over(color, 6, i, false));
      forall x, y | InGrid(n, x, y)
        ensures Over(Over(color, 6, i, false), i, 6, false)(x, y) == TimingPhase(base, n, i + 2)(x, y)
      {
        TimingStep(base, n, i, x, y);
      }
      Recolor(qr[..], n, Over(Over(color, 6, i, false), i, 6, false), TimingPhase(base, n, i + 2));
      i := i + 2;
    }
    forall x, y | InGrid(n, x, y)
      ensures TimingPhase(base, n, i)(x, y) == TimingPhase(base, n, n - 7)(x, y)
    {
      TimingEnd(base, n, x, y);
    }
    Recolor(qr[..], n, TimingPhase(base, n, i), TimingPhase(base, n, n - 7));
  }

  lemma TimingStart(base: (int, int) -> bool, n: int, x: int, y: int)
    ensures TimingPhase(base, n, 7)(x, y) == base(x, y)
  {
    assert !TimingLight(n, 7, x, y);
  }

  lemma TimingInside(n: int, i: int)
    requires 7 <= i < n - 7
    ensures InGrid(n, 6, i) && InGrid(n, i, 6)
  {}

  lemma TimingEnd(base: (int, int) -> bool, n: int, x: int, y: int)
    requires n % 2 == 1
    ensures TimingPhase(base, n, n - 6)(x, y) == TimingPhase(base, n, n - 7)(x, y)
  {
    assert TimingLight(n, n - 6, x, y) <==> TimingLight(n, n - 7, x, y);
  }

  // ----- Finder patterns -----

  function FinderPhase(base: (int, int) -> bool, n: int, endX: int, endY: int): (int, int) -> bool {
    (x, y) => if FinderLight(n, endX, endY, x, y) then false else base(x, y)
  }

  method SetUnbounded(qr: array<bv8>, ghost n: int, x: int, y: int, ghost color: (int, int) -> bool)
    requires Colored(qr[..], n, color)
    modifies qr
    ensures Colored(qr[..], n, Over(color, x, y, false))
  {
    hide Cells, ByteCount;
    GridFacts(qr[..], n);
    var qrsize := qr[0] as int;
    if 0 <= x < qrsize && 0 <= y < qrsize {
      SetColor(qr, n, x, y, false, color);
    } else {
      Recolor(qr[..], n, color, Over(color, x, y, false));
    }
  }

  lemma FinderStep(base: (int, int) -> bool, n: int, dx: int, dy: int, x: int, y: int)
    requires -4 <= dx <= 4 && -4 <= dy <= 4
    ensures var color := FinderPhase(base, n, dx, dy);
      (if RingOf(dx, dy) == 2 || RingOf(dx, dy) == 4 then
        Over(Over(Over(color, 3 + dx, 3 + dy, false), n - 4 + dx, 3 + dy, false), 3 + dx, n - 4 + dy, false)(x, y)
      else color(x, y)) == FinderPhase(base, n, dx + 1, dy)(x, y)
  {
    RingStep(x - 3, y - 3, dx, dy);
    RingStep(x - (n - 4), y - 3, dx, dy);
    RingStep(x - 3, y - (n - 4), dx, dy);
    hide RingLight, RingOf;
    FinderLightIs(n, dx + 1, dy, x, y);
    FinderLightIs(n, dx, dy, x, y);
  }

  lemma FinderLightIs(n: int, endX: int, endY: int, x: int, y: int)
    ensures FinderLight(n, endX, endY, x, y) ==
      (RingLight(x - 3, y - 3, endX, endY) || RingLight(x - (n - 4), y - 3, endX, endY)
        || RingLight(x - 3, y - (n - 4), endX, endY))
  {}

  lemma RingStep(ex: int, ey: int, dx: int, dy: int)
    requires -4 <= dx <= 4 && -4 <= dy <= 4
    ensures RingLight(ex, ey, dx + 1, dy) <==>
      RingLight(ex, ey, dx, dy) || ((RingOf(dx, dy) == 2 || RingOf(dx, dy) == 4) && ex == dx && ey == dy)
    ensures RingLight(ex, ey, 5, dy) <==> RingLight(ex, ey, -4, dy + 1)
  {}

  lemma FinderRowEnd(base: (int, int) -> bool, n: int, dy: int, x: int, y: int)
    ensures FinderPhase(base, n, 5, dy)(x, y) == FinderPhase(base, n, -4, dy + 1)(x, y)
    ensures FinderPhase(base, n, -4, -4)(x, y) == base(x, y)
    ensures FinderPhase(base, n, -4, 5)(x, y) == FinderPhase(base, n, 0, 5)(x, y)
  {
    assert FinderLight(n, 5, dy, x, y) <==> FinderLight(n, -4, dy + 1, x, y);
    assert !FinderLight(n, -4, -4, x, y);
    assert FinderLight(n, -4, 5, x, y) <==> FinderLight(n, 0, 5, x, y);
  }

  method DrawFinderRow(qr: array<bv8>, ghost n: int, dy: int, ghost base: (int, int) -> bool)
    requires Colored(qr[..], n, FinderPhase(base, n, -4, dy)) && -4 <= dy <= 4
    modifies qr
    ensures Colored(qr[..], n, FinderPhase(base, n, -4, dy + 1))
  {
    hide *;
    for dx := -4 to 5
      invariant Colored(qr[..], n, FinderPhase(base, n, dx, dy))
    {
      DrawRing(qr, n, dx, dy, base);
    }
    forall x, y | InGrid(n, x, y) ensures FinderPhase(base, n, 5, dy)(x, y) == FinderPhase(base, n, -4, dy + 1)(x, y) {
      FinderRowEnd(base, n, dy, x, y);
    }
    Recolor(qr[..], n, FinderPhase(base, n, 5, dy), FinderPhase(base, n, -4, dy + 1));
  }

  method DrawRing(qr: array<bv8>, ghost n: int, dx: int, dy: int, ghost base: (int, int) -> bool)
    requires Colored(qr[..], n, FinderPhase(base, n, dx, dy)) && -4 <= dx <= 4 && -4 <= dy <= 4
    modifies qr
    ensures Colored(qr[..], n, FinderPhase(base, n, dx + 1, dy))
  {
    hide *;
    ghost var color := FinderPhase(base, n, dx, dy);
    ColoredSize(qr[..], n, color);
    var qrsize := qr[0] as int;
    var dist := RingOf(dx, dy);
    if dist == 2 || dist == 4 {
      SetUnbounded(qr, n, 3 + dx, 3 + dy, color);
      color := Over(color, 3 + dx, 3 + dy, false);
      SetUnbounded(qr, n, qrsize - 4 + dx, 3 + dy, color);
      color := Over(color, n - 4 + dx, 3 + dy, false);
      SetUnbounded(qr, n, 3 + dx, qrsize - 4 + dy, color);
      color := Over(color, 3 + dx, n - 4 + dy, false);
    }
    forall x, y | InGrid(n, x, y) ensures color(x, y) == FinderPhase(base, n, dx + 1, dy)(x, y) {
      FinderStep(base, n, dx, dy, x, y);
    }
    Recolor(qr[..], n, color, FinderPhase(base, n, dx + 1, dy));
  }

  lemma ColoredSize(qr: seq<bv8>, n: int, color: (int, int) -> bool)
    requires Colored(qr, n, color)
    ensures |qr| > 0 && qr[0] as int == n && 21 <= n <= 177
  {}

  method DrawFinders(qr: array<bv8>, ghost n: int, ghost base: (int, int) -> bool)
    requires Colored(qr[..], n, base)
    modifies qr
    ensures Colored(qr[..], n, FinderPhase(base, n, 0, 5))
  {
    hide *;
    forall x, y | InGrid(n, x, y)
      ensures base(x, y) == FinderPhase(base, n, -4, -4)(x, y)
        && FinderPhase(base, n, -4, 5)(x, y) == FinderPhase(base, n, 0, 5)(x, y)
    {
      FinderRowEnd(base, n, 0, x, y);
    }
    Recolor(qr[..], n, base, FinderPhase(base, n, -4, -4));
    for dy := -4 to 5
      invariant Colored(qr[..], n, FinderPhase(base, n, -4, dy))
    {
      DrawFinderRow(qr, n, dy, base);
    }
    Recolor(qr[..], n, FinderPhase(base, n, -4, 5), FinderPhase(base, n, 0, 5));
  }

  // ----- Alignment patterns -----

  predicate InnerDone(px: int, py: int, endX: int, endY: int, x: int, y: int) {
    Abs(x - px) <= 1 && Abs(y - py) <= 1 && Before(y - py, x - px, endY, endX)
  }

  function InnerPhase(base: (int, int) -> bool, px: int, py: int, endX: int, endY: int): (int, int) -> bool {
    (x, y) => if InnerDone(px, py, endX, endY, x, y) then x == px && y == py else base(x, y)
  }

  lemma InnerStep(base: (int, int) -> bool, px: int, py: int, dx: int, dy: int, x: int, y: int)
    requires -1 <= dx <= 1 && -1 <= dy <= 1
    ensures Over(InnerPhase(base, px, py, dx, dy), px + dx, py + dy, dx == 0 && dy == 0)(x, y) ==
      InnerPhase(base, px, py, dx + 1, dy)(x, y)
    ensures InnerPhase(base, px, py, 2, dy)(x, y) == InnerPhase(base, px, py, -1, dy + 1)(x, y)
    ensures InnerPhase(base, px, py, -1, -1)(x, y) == base(x, y)
  {
    assert InnerDone(px, py, dx + 1, dy, x, y) <==> (InnerDone(px, py, dx, dy, x, y) || (x == px + dx && y == py + dy));
    assert InnerDone(px, py, 2, dy, x, y) <==> InnerDone(px, py, -1, dy + 1, x, y);
    assert !InnerDone(px, py, -1, -1, x, y);
  }

  method DrawInner(qr: array<bv8>, ghost n: int, px: int, py: int, ghost base: (int, int) -> bool)
    requires Colored(qr[..], n, base) && 1 <= px < n - 1 && 1 <= py < n - 1
    modifies qr
    ensures Colored(qr[..], n, InnerPhase(base, px, py, -1, 2))
  {
    hide *;
    forall x, y | InGrid(n, x, y) ensures base(x, y) == InnerPhase(base, px, py, -1, -1)(x, y) {
      InnerStep(base, px, py, 0, 0, x, y);
    }
    Recolor(qr[..], n, base, InnerPhase(base, px, py, -1, -1));
    for dy := -1 to 2
      invariant Colored(qr[..], n, InnerPhase(base, px, py, -1, dy))
    {
      for dx := -1 to 2
        invariant Colored(qr[..], n, InnerPhase(base, px, py, dx, dy))
      {
        ghost var color := InnerPhase(base, px, py, dx, dy);
        PointInside(n, px + dx, py + dy);
        SetColor(qr, n, px + dx, py + dy, dx == 0 && dy == 0, color);
        forall x, y | InGrid(n, x, y)
          ensures Over(color, px + dx, py + dy, dx == 0 && dy == 0)(x, y) == InnerPhase(base, px, py, dx + 1, dy)(x, y)
        {
          InnerStep(base, px, py, dx, dy, x, y);
        }
        Recolor(qr[..], n, Over(color, px + dx, py + dy, dx == 0 && dy == 0), InnerPhase(base, px, py, dx + 1, dy));
      }
      forall x, y | InGrid(n, x, y)
        ensures InnerPhase(base, px, py, 2, dy)(x, y) == InnerPhase(base, px, py, -1, dy + 1)(x, y)
      {
        InnerStep(base, px, py, 0, dy, x, y);
      }
      Recolor(qr[..], n, InnerPhase(base, px, py, 2, dy), InnerPhase(base, px, py, -1, dy + 1));
    }
  }

  lemma PointInside(n: int, x: int, y: int)
    requires 0 <= x < n && 0 <= y < n
    ensures InGrid(n, x, y)
  {}

  function AlignPhase(base: (int, int) -> bool, v: int, endI: int, endJ: int): (int, int) -> bool
    requires v >= 2
  {
    (x, y) => if AlignInner(v, endI, endJ, x, y) then AlignCenter(v, endI, endJ, x, y) else base(x, y)
  }

  // Alignment patterns are far enough apart that their inner modules do not meet.
  lemma AlignGap(v: int, i: int, k: int)
    requires IsVersion(v) && v >= 2 && 0 <= i < k < NumAlign(v)
    ensures AlignPos(v, k) - AlignPos(v, i) >= 3
  {
    AlignStepFacts(v);
    hide NumAlign, AlignStep;
    var n, step := NumAlign(v), AlignStep(v);
    if i > 0 {
      MulMono(1, k - i, step);
      assert (n - 1 - i) * step - (n - 1 - k) * step == (k - i) * step;
    } else {
      MulMono(n - 1 - k, n - 2, step);
    }
  }

  lemma AlignGapBothWays(v: int, i: int, k: int)
    requires IsVersion(v) && v >= 2 && 0 <= i < NumAlign(v) && 0 <= k < NumAlign(v)
    requires Abs(AlignPos(v, i) - AlignPos(v, k)) <= 2
    ensures i == k
  {
    if i < k {
      AlignGap(v, i, k);
    } else if k < i {
      AlignGap(v, k, i);
    }
  }

  lemma AlignStepColor(base: (int, int) -> bool, v: int, i: int, j: int, x: int, y: int)
    requires IsVersion(v) && v >= 2 && 0 <= i < NumAlign(v) && 0 <= j < NumAlign(v)
    ensures (if Aligned(v, i, j) then InnerPhase(AlignPhase(base, v, i, j), AlignPos(v, i), AlignPos(v, j), -1, 2)(x, y)
      else AlignPhase(base, v, i, j)(x, y)) == AlignPhase(base, v, i, j + 1)(x, y)
  {
    hide AlignPos, NumAlign, Aligned;
    var px, py := AlignPos(v, i), AlignPos(v, j);
    var here := Aligned(v, i, j) && Abs(x - px) <= 1 && Abs(y - py) <= 1;
    assert InnerDone(px, py, -1, 2, x, y) <==> (Abs(x - px) <= 1 && Abs(y - py) <= 1);
    assert AlignInner(v, i, j + 1, x, y) <==> (AlignInner(v, i, j, x, y) || here);
    assert AlignCenter(v, i, j + 1, x, y) <==> (AlignCenter(v, i, j, x, y) || (Aligned(v, i, j) && x == px && y == py));
    if here && AlignCenter(v, i, j, x, y) {
      var a, b :| 0 <= a < NumAlign(v) && 0 <= b < NumAlign(v) && Aligned(v, a, b) && Before(a, b, i, j)
        && x == AlignPos(v, a) && y == AlignPos(v, b);
      AlignGapBothWays(v, a, i);
      AlignGapBothWays(v, b, j);
    }
  }

  lemma AlignRowEnd(base: (int, int) -> bool, v: int, i: int, x: int, y: int)
    requires v >= 2
    ensures AlignPhase(base, v, i, NumAlign(v))(x, y) == AlignPhase(base, v, i + 1, 0)(x, y)
    ensures AlignPhase(base, v, 0, 0)(x, y) == base(x, y)
  {
    hide AlignPos, NumAlign, Aligned;
    assert AlignInner(v, i, NumAlign(v), x, y) <==> AlignInner(v, i + 1, 0, x, y);
    assert AlignCenter(v, i, NumAlign(v), x, y) <==> AlignCenter(v, i + 1, 0, x, y);
    assert !AlignInner(v, 0, 0, x, y);
  }

  method DrawAlignments(v: int, qr: array<bv8>, ghost base: (int, int) -> bool)
    requires IsVersion(v) && v >= 2 && Colored(qr[..], Size(v), base)
    modifies qr
    ensures Colored(qr[..], Size(v), AlignPhase(base, v, NumAlign(v), 0))
  {
    hide *;
    ghost var n := Size(v);
    var alignPatPos := new int[7];
    var numAlign := GetAlignmentPatternPositions(v, alignPatPos);
    NumAlignPositive(v);
    forall x, y | InGrid(n, x, y) ensures base(x, y) == AlignPhase(base, v, 0, 0)(x, y) {
      AlignRowEnd(base, v, 0, x, y);
    }
    Recolor(qr[..], n, base, AlignPhase(base, v, 0, 0));
    for i := 0 to numAlign
      invariant Colored(qr[..], n, AlignPhase(base, v, i, 0))
      invariant forall k :: 0 <= k < numAlign ==> alignPatPos[k] == AlignPos(v, k)
    {
      for j := 0 to numAlign
        invariant Colored(qr[..], n, AlignPhase(base, v, i, j))
        invariant forall k :: 0 <= k < numAlign ==> alignPatPos[k] == AlignPos(v, k)
      {
        DrawAlignment(v, i, j, numAlign, alignPatPos[i], alignPatPos[j], qr, base);
      }
      forall x, y | InGrid(n, x, y)
        ensures AlignPhase(base, v, i, NumAlign(v))(x, y) == AlignPhase(base, v, i + 1, 0)(x, y)
      {
        AlignRowEnd(base, v, i, x, y);
      }
      Recolor(qr[..], n, AlignPhase(base, v, i, numAlign), AlignPhase(base, v, i + 1, 0));
    }
  }

  method DrawAlignment(v: int, i: int, j: int, numAlign: int, px: int, py: int, qr: array<bv8>,
      ghost base: (int, int) -> bool)
    requires IsVersion(v) && v >= 2 && numAlign == NumAlign(v) && 0 <= i < numAlign && 0 <= j < numAlign
    requires px == AlignPos(v, i) && py == AlignPos(v, j) && Colored(qr[..], Size(v), AlignPhase(base, v, i, j))
    modifies qr
    ensures Colored(qr[..], Size(v), AlignPhase(base, v, i, j + 1))
  {
    AlignedIs(v, i, j);
    hide *;
    ghost var n, color := Size(v), AlignPhase(base, v, i, j);
    ColoredSize(qr[..], n, color);
    if !((i == 0 && j == 0) || (i == 0 && j == numAlign - 1) || (i == numAlign - 1 && j == 0)) {
      AlignPosInside(v, i);
      AlignPosInside(v, j);
      DrawInner(qr, n, px, py, color);
      color := InnerPhase(color, px, py, -1, 2);
    }
    forall x, y | InGrid(n, x, y) ensures color(x, y) == AlignPhase(base, v, i, j + 1)(x, y) {
      AlignStepColor(base, v, i, j, x, y);
    }
    Recolor(qr[..], n, color, AlignPhase(base, v, i, j + 1));
  }

  lemma AlignedIs(v: int, i: int, j: int)
    requires 0 <= i < NumAlign(v) && 0 <= j < NumAlign(v)
    ensures Aligned(v, i, j) <==>
      !((i == 0 && j == 0) || (i == 0 && j == NumAlign(v) - 1) || (i == NumAlign(v) - 1 && j == 0))
  {}

  // ----- Version blocks -----

  function VersionPhase(base: (int, int) -> bool, v: int, end: int): (int, int) -> bool
    requires IsVersion(v)
  {
    (x, y) => var k := VersionIndex(Size(v), x, y); if 0 <= k < end then VersionColor(v, k) else base(x, y)
  }

  lemma VersionPhaseStep(base: (int, int) -> bool, v: int, i: int, j: int, x: int, y: int)
    requires IsVersion(v) && 0 <= i < 6 && 0 <= j < 3
    ensures var n, dark, color := Size(v), VersionColor(v, i * 3 + j), VersionPhase(base, v, i * 3 + j);
      Over(Over(color, n - 11 + j, i, dark), i, n - 11 + j, dark)(x, y) == VersionPhase(base, v, i * 3 + j + 1)(x, y)
    ensures VersionPhase(base, v, 0)(x, y) == base(x, y)
  {
    hide VersionColor;
    var n, k := Size(v), VersionIndex(Size(v), x, y);
    assert k == i * 3 + j <==> (x == n - 11 + j && y == i) || (x == i && y == n - 11 + j);
    assert VersionColor(v, i * 3 + j) || !VersionColor(v, i * 3 + j);
    if k >= 0 {
      assert VersionColor(v, k) || !VersionColor(v, k);
    }
  }

  lemma VersionShift(v: int, k: nat)
    requires IsVersion(v)
    ensures VersionColor(v, k) == LowBit(Shifted(VersionBits(v), k))
    ensures NextBit(Shifted(VersionBits(v), k)) == Shifted(VersionBits(v), k + 1)
    ensures Shifted(VersionBits(v), 0) == VersionBits(v)
  {
    hide VersionBits, NextBit, LowBit;
  }

  method ComputeVersionBits(v: int) returns (bits: bv32)
    requires IsVersion(v)
    ensures bits == VersionBits(v)
  {
    hide VersionStep, VersionWord, PackVersion;
    var version := VersionWord(v);
    var rem := version;
    for i := 0 to 12
      invariant rem == VersionRemainder(version, i)
    {
      rem := VersionStep(rem);
    }
    bits := PackVersion(version, rem);
  }

  method DrawVersion(v: int, qr: array<bv8>, ghost base: (int, int) -> bool)
    requires IsVersion(v) && Colored(qr[..], Size(v), base)
    modifies qr
    ensures Colored(qr[..], Size(v), VersionPhase(base, v, 18))
  {
    hide *;
    ghost var n := Size(v);
    var bits := ComputeVersionBits(v);
    forall x, y | InGrid(n, x, y) ensures base(x, y) == VersionPhase(base, v, 0)(x, y) {
      VersionPhaseStep(base, v, 0, 0, x, y);
    }
    Recolor(qr[..], n, base, VersionPhase(base, v, 0));
    VersionShift(v, 0);
    for i := 0 to 6
      invariant Colored(qr[..], n, VersionPhase(base, v, i * 3)) && bits == Shifted(VersionBits(v), i * 3)
    {
      for j := 0 to 3
        invariant Colored(qr[..], n, VersionPhase(base, v, i * 3 + j)) && bits == Shifted(VersionBits(v), i * 3 + j)
      {
        VersionShift(v, i * 3 + j);
        DrawVersionBit(v, i, j, LowBit(bits), qr, base);
        bits := NextBit(bits);
      }
    }
  }

  method DrawVersionBit(v: int, i: int, j: int, dark: bool, qr: array<bv8>, ghost base: (int, int) -> bool)
    requires IsVersion(v) && 0 <= i < 6 && 0 <= j < 3 && dark == VersionColor(v, i * 3 + j)
    requires Colored(qr[..], Size(v), VersionPhase(base, v, i * 3 + j))
    modifies qr
    ensures Colored(qr[..], Size(v), VersionPhase(base, v, i * 3 + j + 1))
  {
    hide *;
    ghost var n, color := Size(v), VersionPhase(base, v, i * 3 + j);
    ColoredSize(qr[..], n, color);
    var k := qr[0] as int - 11 + j;
    PointInside(n, k, i);
    PointInside(n, i, k);
    SetColor(qr, n, k, i, dark, color);
    SetColor(qr, n, i, k, dark, Over(color, k, i, dark));
    forall x, y | InGrid(n, x, y)
      ensures Over(Over(color, k, i, dark), i, k, dark)(x, y) == VersionPhase(base, v, i * 3 + j + 1)(x, y)
    {
      VersionPhaseStep(base, v, i, j, x, y);
    }
    Recolor(qr[..], n, Over(Over(color, k, i, dark), i, k, dark), VersionPhase(base, v, i * 3 + j + 1));
  }

  // ----- The whole drawing -----

  function GridColor(g: seq<bool>, n: int): (int, int) -> bool
    requires |g| == n * n
  {
    (x, y) => if InGrid(n, x, y) then (CellFacts(n, x, y); g[Cell(n, x, y)]) else false
  }

  lemma GridIsColored(qr: seq<bv8>, n: int)
    requires IsGrid(qr, n)
    ensures Colored(qr, n, GridColor(Cells(qr, n), n))
  {
    forall c | 0 <= c < n * n ensures Cells(qr, n)[c] == GridColor(Cells(qr, n), n)(c % n, c / n) {
      CellOfQuotient(n, c);
    }
  }

  // Every cell of after has its finished color.
  ghost predicate Finished(v: int, before: seq<bool>, after: seq<bool>)
    requires IsVersion(v)
  {
    var n := Size(v);
    |before| == |after| == n * n && forall c :: 0 <= c < n * n ==> after[c] == FinalColor(v, c % n, c / n, before[c])
  }

  method DrawLightFunctionModules(qr: array<bv8>, v: int)
    requires IsVersion(v) && IsGrid(qr[..], Size(v))
    modifies qr
    ensures IsGrid(qr[..], Size(v)) && Finished(v, old(Cells(qr[..], Size(v))), Cells(qr[..], Size(v)))
  {
    hide *;
    ghost var n := Size(v);
    SizeFacts(v);
    ghost var g := Cells(qr[..], n);
    ghost var base := GridColor(g, n);
    GridIsColored(qr[..], n);
    DrawTiming(qr, n, base);
    ghost var color := TimingPhase(base, n, n - 7);
    DrawFinders(qr, n, color);
    color := FinderPhase(color, n, 0, 5);
    if v >= 2 {
      DrawAlignments(v, qr, color);
      color := AlignPhase(color, v, NumAlign(v), 0);
    }
    if v >= 7 {
      DrawVersion(v, qr, color);
      color := VersionPhase(color, v, 18);
    }
    AllPhases(v, g, color, qr[..]);
  }

  lemma AllPhases(v: int, g: seq<bool>, color: (int, int) -> bool, qr: seq<bv8>)
    requires IsVersion(v) && Size(v) > 0 && |g| == Size(v) * Size(v) && Colored(qr, Size(v), color)
    requires var n := Size(v);
      var finder := FinderPhase(TimingPhase(GridColor(g, n), n, n - 7), n, 0, 5);
      var align := if v >= 2 then AlignPhase(finder, v, NumAlign(v), 0) else finder;
      color == if v >= 7 then VersionPhase(align, v, 18) else align
    ensures IsGrid(qr, Size(v)) && Finished(v, g, Cells(qr, Size(v)))
  {
    var n := Size(v);
    hide Size, Cells, AlignInner, AlignCenter, FinderLight, TimingLight, VersionColor, NumAlign, IsGrid;
    forall c | 0 <= c < n * n ensures color(c % n, c / n) == FinalColor(v, c % n, c / n, g[c]) {
      CellOfQuotient(n, c);
      PhasesAt(v, g, c % n, c / n, color);
      assert GridColor(g, n)(c % n, c / n) == g[c];
    }
    assert IsGrid(qr, n);
  }

  lemma PhasesAt(v: int, g: seq<bool>, x: int, y: int, color: (int, int) -> bool)
    requires IsVersion(v) && Size(v) > 0 && |g| == Size(v) * Size(v) && InGrid(Size(v), x, y)
    requires var n := Size(v);
      var finder := FinderPhase(TimingPhase(GridColor(g, n), n, n - 7), n, 0, 5);
      var align := if v >= 2 then AlignPhase(finder, v, NumAlign(v), 0) else finder;
      color == if v >= 7 then VersionPhase(align, v, 18) else align
    ensures color(x, y) == FinalColor(v, x, y, GridColor(g, Size(v))(x, y))
  {
    var n := Size(v);
    var k := VersionIndex(n, x, y);
    assert k < 18;
    hide AlignInner, AlignCenter, FinderLight, TimingLight, VersionColor, NumAlign, Size;
  }

  // ----- Only function modules change -----

  lemma FinishedOutsideFunctions(v: int, x: int, y: int, was: bool)
    requires IsVersion(v) && InGrid(Size(v), x, y) && !IsFunction(v, x, y)
    ensures FinalColor(v, x, y, was) == was
  {
    hide AlignPos, NumAlign, AlignCenter;
  }
}
