/**
 What the finished function modules look like to a scanner: finder, timing and alignment patterns
 and version blocks, ISO/IEC 18004 sections 6.3 and 7.10.
 */
module QrPatterns {
  import opened Arithmetic
  import opened QrGrid
  import opened QrTables
  import opened QrFunctions
  import opened QrLight

  function Larger(a: int, b: int): int { if a < b then b else a }

  // ----- Where alignment patterns are -----

  lemma StepIsEven(v: int)
    requires IsVersion(v) && v >= 2
    ensures AlignStep(v) % 2 == 0
  {
    hide NumAlign;
  }

  lemma EvenMultiple(k: int, step: int)
    requires step % 2 == 0
    ensures (k * step) % 2 == 0
  {
    assert step == step / 2 * 2;
    assert k * step == (k * (step / 2)) * 2;
  }

  lemma AlignPosIsEven(v: int, i: int)
    requires IsVersion(v) && v >= 2
    ensures AlignPos(v, i) % 2 == 0 && AlignPos(v, 0) == 6
  {
    hide AlignStep, NumAlign;
    StepIsEven(v);
    EvenMultiple(NumAlign(v) - 1 - i, AlignStep(v));
  }

  // A position is 6 or far from it, the last or far from it, and even.
  lemma AlignPosFacts(v: int, i: int)
    requires IsVersion(v) && v >= 2 && 0 <= i < NumAlign(v)
    ensures var p, n := AlignPos(v, i), Size(v);
      && (if i == 0 then p == 6 else p >= 16)
      && (if i == NumAlign(v) - 1 then p == n - 7 else p <= n - 17)
      && p % 2 == 0
  {
    AtLeastTwo(v);
    hide AlignPos, NumAlign;
    AlignPosIsEven(v, i);
    if i > 0 {
      AlignSpacing(v, 0, i);
    }
    if i < NumAlign(v) - 1 {
      AlignSpacing(v, i, NumAlign(v) - 1);
    }
  }

  lemma AtLeastTwo(v: int)
    requires v >= 2
    ensures NumAlign(v) >= 2
  {}

  // With n positions both the regular gap and the first one are in range.
  predicate GapsFit(v: int, n: int) {
    && n > 1
    && var step := (v * 8 + n * 3 + 5) / (n * 4 - 4) * 2;
       12 <= step <= 28 && 12 <= 4 * v + 4 - (n - 2) * step <= 28
  }

  lemma StepOfTwo(v: int)
    requires 2 <= v < 7
    ensures GapsFit(v, 2)
  {}

  lemma StepOfThree(v: int)
    requires 7 <= v < 14
    ensures GapsFit(v, 3)
  {}

  lemma StepOfFour(v: int)
    requires 14 <= v < 21
    ensures GapsFit(v, 4)
  {}

  lemma StepOfFive(v: int)
    requires 21 <= v < 28
    ensures GapsFit(v, 5)
  {}

  lemma StepOfSix(v: int)
    requires 28 <= v < 35
    ensures GapsFit(v, 6)
  {}

  lemma StepOfSeven(v: int)
    requires 35 <= v < 41
    ensures GapsFit(v, 7)
  {}

  lemma StepOfAlignment(v: int)
    requires IsVersion(v) && v >= 2
    ensures NumAlign(v) >= 2 && GapsFit(v, NumAlign(v))
  {
    NumberOfPositions(v);
    hide NumAlign, GapsFit;
    if v < 7 {
      StepOfTwo(v);
    } else if v < 14 {
      StepOfThree(v);
    } else if v < 21 {
      StepOfFour(v);
    } else if v < 28 {
      StepOfFive(v);
    } else if v < 35 {
      StepOfSix(v);
    } else {
      StepOfSeven(v);
    }
  }

  lemma GapsMean(v: int)
    requires v >= 2 && GapsFit(v, NumAlign(v))
    ensures var n, step := NumAlign(v), AlignStep(v); 12 <= step <= 28 && 12 <= 4 * v + 4 - (n - 2) * step <= 28
  {
    hide NumAlign;
  }

  lemma NumberOfPositions(v: int)
    requires IsVersion(v) && v >= 2
    ensures NumAlign(v) ==
      if v < 7 then 2 else if v < 14 then 3 else if v < 21 then 4 else if v < 28 then 5 else if v < 35 then 6 else 7
  {}

  // Neighbouring positions are 12 to 28 modules apart, and except for the first two all equally far.
  lemma AlignGaps(v: int, i: int)
    requires IsVersion(v) && v >= 2 && 0 <= i && i + 1 < NumAlign(v)
    ensures var last := NumAlign(v) - 1;
      && 12 <= AlignPos(v, i + 1) - AlignPos(v, i) <= 28
      && (i > 0 ==> AlignPos(v, i + 1) - AlignPos(v, i) == AlignPos(v, last) - AlignPos(v, last - 1))
  {
    StepOfAlignment(v);
    GapsMean(v);
    hide NumAlign, AlignStep, GapsFit;
    var k, step := NumAlign(v) - 2 - i, AlignStep(v);
    assert (k + 1) * step == k * step + step;
  }

  // Alignment pattern (i, j) has a module at (x, y).
  predicate Covers(v: int, i: int, j: int, x: int, y: int)
    requires v >= 2
  {
    Aligned(v, i, j) && Abs(x - AlignPos(v, i)) <= 2 && Abs(y - AlignPos(v, j)) <= 2
  }

  lemma AwayFromCorners(v: int, i: int, j: int, x: int, y: int)
    requires IsVersion(v) && v >= 2 && Covers(v, i, j, x, y)
    ensures var n := Size(v); !(x < 9 && y < 9) && !(x >= n - 11 && y < 9) && !(x < 9 && y >= n - 11)
  {
    AlignPosFacts(v, i);
    AlignPosFacts(v, j);
    hide AlignPos;
  }

  lemma NoInnerAtCorners(v: int, x: int, y: int)
    requires IsVersion(v) && v >= 2
    requires var n := Size(v); (x < 9 && y < 9) || (x >= n - 11 && y < 9) || (x < 9 && y >= n - 11)
    ensures !AlignInner(v, NumAlign(v), 0, x, y)
  {
    hide AlignPos, NumAlign, Size;
    forall i, j | 0 <= i < NumAlign(v) && 0 <= j < NumAlign(v) && Aligned(v, i, j)
      ensures !(Abs(x - AlignPos(v, i)) <= 1 && Abs(y - AlignPos(v, j)) <= 1)
    {
      if Covers(v, i, j, x, y) {
        AwayFromCorners(v, i, j, x, y);
      }
    }
  }

  // ----- Finder patterns -----

  lemma OwnRing(n: int, cx: int, cy: int, dx: int, dy: int)
    requires n >= 21 && -4 <= dx <= 4 && -4 <= dy <= 4 && InGrid(n, cx + dx, cy + dy)
    requires (cx, cy) == (3, 3) || (cx, cy) == (n - 4, 3) || (cx, cy) == (3, n - 4)
    ensures var ring := Larger(Abs(dx), Abs(dy));
      FinderLight(n, 0, 5, cx + dx, cy + dy) <==> ring == 2 || ring == 4
    ensures TimingLight(n, n - 7, cx + dx, cy + dy) ==> Larger(Abs(dx), Abs(dy)) == 4
    ensures VersionIndex(n, cx + dx, cy + dy) == -1
  {}

  // Around the center of a finder pattern the rings are dark, dark, light, dark, light.
  lemma FinderColors(v: int, cx: int, cy: int, dx: int, dy: int)
    requires IsVersion(v) && -4 <= dx <= 4 && -4 <= dy <= 4 && InGrid(Size(v), cx + dx, cy + dy)
    requires var n := Size(v); (cx, cy) == (3, 3) || (cx, cy) == (n - 4, 3) || (cx, cy) == (3, n - 4)
    ensures var ring := Larger(Abs(dx), Abs(dy));
      FinalColor(v, cx + dx, cy + dy, true) == (ring == 0 || ring == 1 || ring == 3)
  {
    if v >= 2 {
      NoInnerAtCorners(v, cx + dx, cy + dy);
    }
    OwnRing(Size(v), cx, cy, dx, dy);
    hide AlignInner, AlignCenter, VersionColor, VersionIndex, NumAlign, FinderLight, TimingLight;
  }

  // ----- Timing patterns -----

  lemma InnerOnTiming(v: int, i: int)
    requires IsVersion(v) && v >= 2
    ensures AlignInner(v, NumAlign(v), 0, 6, i) ==> (AlignCenter(v, NumAlign(v), 0, 6, i) <==> i % 2 == 0)
    ensures AlignInner(v, NumAlign(v), 0, i, 6) ==> (AlignCenter(v, NumAlign(v), 0, i, 6) <==> i % 2 == 0)
  {
    hide NumAlign, AlignPos;
    forall a | 0 <= a < NumAlign(v)
      ensures AlignPos(v, a) % 2 == 0 && (Abs(6 - AlignPos(v, a)) <= 1 ==> AlignPos(v, a) == 6)
    {
      AlignPosFacts(v, a);
    }
  }

  lemma OnlyTiming(n: int, i: int)
    requires 8 <= i < n - 8
    ensures !FinderLight(n, 0, 5, 6, i) && !FinderLight(n, 0, 5, i, 6)
    ensures TimingLight(n, n - 7, 6, i) == TimingLight(n, n - 7, i, 6) == (i % 2 == 1)
    ensures n >= 45 ==> VersionIndex(n, 6, i) == VersionIndex(n, i, 6) == -1
  {}

  // Between the finder patterns row 6 and column 6 are dark at even places and light at odd ones,
  // alignment patterns or not.
  lemma TimingColors(v: int, i: int)
    requires IsVersion(v) && 8 <= i < Size(v) - 8
    ensures FinalColor(v, 6, i, true) == FinalColor(v, i, 6, true) == (i % 2 == 0)
  {
    if v >= 2 {
      InnerOnTiming(v, i);
    }
    OnlyTiming(Size(v), i);
    hide VersionColor, VersionIndex, NumAlign, AlignInner, AlignCenter, FinderLight, TimingLight;
  }

  // ----- Alignment patterns -----

  lemma OnePattern(v: int, i: int, j: int, a: int, b: int, x: int, y: int)
    requires IsVersion(v) && v >= 2 && Covers(v, i, j, x, y) && Covers(v, a, b, x, y)
    ensures a == i && b == j
  {
    hide AlignPos, NumAlign;
    if a != i {
      AlignSpacing(v, if a < i then a else i, if a < i then i else a);
    }
    if b != j {
      AlignSpacing(v, if b < j then b else j, if b < j then j else b);
    }
  }

  lemma OwnInner(v: int, i: int, j: int, x: int, y: int)
    requires IsVersion(v) && v >= 2 && Covers(v, i, j, x, y)
    ensures AlignInner(v, NumAlign(v), 0, x, y) <==> Abs(x - AlignPos(v, i)) <= 1 && Abs(y - AlignPos(v, j)) <= 1
    ensures AlignCenter(v, NumAlign(v), 0, x, y) <==> x == AlignPos(v, i) && y == AlignPos(v, j)
  {
    hide NumAlign, AlignPos;
    forall a, b | 0 <= a < NumAlign(v) && 0 <= b < NumAlign(v) && Aligned(v, a, b) && Covers(v, a, b, x, y)
      ensures a == i && b == j
    {
      OnePattern(v, i, j, a, b, x, y);
    }
    assert Aligned(v, i, j) && Before(i, j, NumAlign(v), 0);
  }

  lemma NothingBesides(n: int, px: int, py: int, x: int, y: int)
    requires n >= 25 && Abs(x - px) <= 2 && Abs(y - py) <= 2 && px % 2 == 0 && py % 2 == 0
    requires (px == 6 || px >= 16) && (py == 6 || py >= 16)
    requires !(x < 9 && y < 9) && !(x >= n - 11 && y < 9) && !(x < 9 && y >= n - 11)
    ensures !FinderLight(n, 0, 5, x, y) && VersionIndex(n, x, y) == -1
    ensures Larger(Abs(x - px), Abs(y - py)) == 2 ==> !TimingLight(n, n - 7, x, y)
  {}

  lemma Rings(dx: int, dy: int)
    requires -2 <= dx <= 2 && -2 <= dy <= 2
    ensures var ring := Larger(Abs(dx), Abs(dy));
      && 0 <= ring <= 2 && Abs(dx) <= 2 && Abs(dy) <= 2
      && (ring == 0 <==> dx == 0 && dy == 0) && (ring <= 1 <==> Abs(dx) <= 1 && Abs(dy) <= 1)
  {}

  lemma FinalOfAligned(v: int, x: int, y: int)
    requires IsVersion(v) && v >= 2 && !FinderLight(Size(v), 0, 5, x, y) && VersionIndex(Size(v), x, y) == -1
    ensures FinalColor(v, x, y, true) ==
      if AlignInner(v, NumAlign(v), 0, x, y) then AlignCenter(v, NumAlign(v), 0, x, y)
      else !TimingLight(Size(v), Size(v) - 7, x, y)
  {
    hide AlignInner, AlignCenter, VersionColor, NumAlign, FinderLight, TimingLight, VersionIndex, Size;
  }

  // Around the center of an alignment pattern the rings are dark, light, dark.
  lemma AlignmentColors(v: int, i: int, j: int, dx: int, dy: int)
    requires IsVersion(v) && v >= 2 && Aligned(v, i, j) && -2 <= dx <= 2 && -2 <= dy <= 2
    ensures var ring := Larger(Abs(dx), Abs(dy));
      FinalColor(v, AlignPos(v, i) + dx, AlignPos(v, j) + dy, true) == (ring == 0 || ring == 2)
  {
    hide *;
    var px, py := AlignPos(v, i), AlignPos(v, j);
    var x, y := px + dx, py + dy;
    Rings(dx, dy);
    AlignedIs(v, i, j, x, y);
    OwnInner(v, i, j, x, y);
    AwayFromCorners(v, i, j, x, y);
    AlignPosFacts(v, i);
    AlignPosFacts(v, j);
    LargeEnough(v);
    NothingBesides(Size(v), px, py, x, y);
    FinalOfAligned(v, x, y);
  }

  lemma AlignedIs(v: int, i: int, j: int, x: int, y: int)
    requires v >= 2 && Aligned(v, i, j)
    ensures 0 <= i < NumAlign(v) && 0 <= j < NumAlign(v)
    ensures Covers(v, i, j, x, y) <==> Abs(x - AlignPos(v, i)) <= 2 && Abs(y - AlignPos(v, j)) <= 2
  {}

  lemma LargeEnough(v: int)
    requires v >= 2
    ensures Size(v) >= 25
  {}

  // ----- Version blocks -----

  lemma VersionPlaces(n: int, i: int, j: int)
    requires n >= 45 && 0 <= i < 6 && 0 <= j < 3
    ensures VersionIndex(n, n - 11 + j, i) == VersionIndex(n, i, n - 11 + j) == 3 * i + j
  {}

  // From version 7 on both blocks, six by three modules, show the bits of the version word.
  lemma VersionBlocks(v: int, i: int, j: int, was: bool)
    requires IsVersion(v) && v >= 7 && 0 <= i < 6 && 0 <= j < 3
    ensures var n := Size(v);
      FinalColor(v, n - 11 + j, i, was) == FinalColor(v, i, n - 11 + j, was) ==
        LowBit(Shifted(VersionBits(v), 3 * i + j))
  {
    VersionPlaces(Size(v), i, j);
    hide VersionBits, Shifted, LowBit, VersionIndex;
  }

  function Ones(w: bv32): bv32 {
    (w & 1) + ((w >> 1) & 1) + ((w >> 2) & 1) + ((w >> 3) & 1) + ((w >> 4) & 1) + ((w >> 5) & 1) + ((w >> 6) & 1)
    + ((w >> 7) & 1) + ((w >> 8) & 1) + ((w >> 9) & 1) + ((w >> 10) & 1) + ((w >> 11) & 1) + ((w >> 12) & 1)
    + ((w >> 13) & 1) + ((w >> 14) & 1) + ((w >> 15) & 1) + ((w >> 16) & 1) + ((w >> 17) & 1)
  }

  // The exclusive or by name, so that proofs can hide it.
  function Xor(a: bv32, b: bv32): bv32 { a ^ b }

  function Distance(a: bv32, b: bv32): bv32 { Ones(Xor(a, b)) }

  // The remainder as the sum of those of the single bits.
  function LowRows(d: bv32): bv32 {
    ((d & 1) * 0xF25) ^ (((d >> 1) & 1) * 0x16F) ^ (((d >> 2) & 1) * 0x2DE)
  }

  function HighRows(d: bv32): bv32 {
    (((d >> 3) & 1) * 0x5BC) ^ (((d >> 4) & 1) * 0xB78) ^ (((d >> 5) & 1) * 0x9D5)
  }

  function Rows(d: bv32): bv32 { Xor(LowRows(d), HighRows(d)) }

  lemma FarFromZero(d: bv32)
    requires d != 0 && d < 0x40
    ensures Ones(PackVersion(d, Rows(d))) >= 8
  {}

  lemma LowIsLinear(d: bv32, other: bv32)
    ensures Xor(LowRows(d), LowRows(other)) == LowRows(Xor(d, other))
  {}

  lemma HighIsLinear(d: bv32, other: bv32)
    ensures Xor(HighRows(d), HighRows(other)) == HighRows(Xor(d, other))
  {}

  lemma XorAssoc(a: bv32, b: bv32, c: bv32)
    ensures Xor(Xor(a, b), c) == Xor(a, Xor(b, c))
  {}

  lemma XorSwap(a: bv32, b: bv32, c: bv32)
    ensures Xor(a, Xor(b, c)) == Xor(b, Xor(a, c))
  {}

  lemma Regrouped(a: bv32, b: bv32, c: bv32, d: bv32)
    ensures Xor(Xor(a, b), Xor(c, d)) == Xor(Xor(a, c), Xor(b, d))
  {
    hide Xor;
    XorAssoc(a, b, Xor(c, d));
    XorSwap(b, c, d);
    XorAssoc(a, c, Xor(b, d));
  }

  lemma XorOfRows(d: bv32, other: bv32)
    ensures Xor(Rows(d), Rows(other)) == Rows(Xor(d, other))
  {
    hide LowRows, HighRows, Xor;
    LowIsLinear(d, other);
    HighIsLinear(d, other);
    Regrouped(LowRows(d), HighRows(d), LowRows(other), HighRows(other));
  }

  lemma RowsAreShort(d: bv32)
    ensures Rows(d) < 0x1000
  {}

  lemma PackingIsLinear(d: bv32, a: bv32, other: bv32, b: bv32)
    requires d < 0x40 && other < 0x40 && a < 0x1000 && b < 0x1000
    ensures PackVersion(d, a) ^ PackVersion(other, b) == PackVersion(d ^ other, a ^ b)
  {}

  lemma StillShort(d: bv32, other: bv32)
    requires d < 0x40 && other < 0x40 && d != other
    ensures Xor(d, other) != 0 && Xor(d, other) < 0x40
  {}

  lemma XorOfPacked(d: bv32, a: bv32, other: bv32, b: bv32)
    requires d < 0x40 && other < 0x40 && a < 0x1000 && b < 0x1000
    ensures Xor(PackVersion(d, a), PackVersion(other, b)) == PackVersion(Xor(d, other), Xor(a, b))
  {
    PackingIsLinear(d, a, other, b);
    hide PackVersion;
  }

  lemma PackedDistance(d: bv32, other: bv32)
    requires d < 0x40 && other < 0x40 && d != other
    ensures Distance(PackVersion(d, Rows(d)), PackVersion(other, Rows(other))) >= 8
  {
    hide PackVersion, Rows, Ones, Xor;
    RowsAreShort(d);
    RowsAreShort(other);
    StillShort(d, other);
    XorOfRows(d, other);
    XorOfPacked(d, Rows(d), other, Rows(other));
    FarFromZero(Xor(d, other));
  }

  lemma FourSteps(d: bv32)
    ensures VersionRemainder(d, 4) == VersionStep(VersionStep(VersionStep(VersionStep(d))))
  {
    hide VersionStep;
    assert VersionRemainder(d, 0) == d;
    assert VersionRemainder(d, 1) == VersionStep(d);
    assert VersionRemainder(d, 2) == VersionStep(VersionStep(d));
  }

  lemma {:induction false} StepsAdd(d: bv32, j: nat, k: nat)
    ensures VersionRemainder(VersionRemainder(d, j), k) == VersionRemainder(d, j + k)
  {
    hide VersionStep;
    if k > 0 {
      StepsAdd(d, j, k - 1);
    }
  }

  // After eight steps.
  function EarlierRows(d: bv32): bv32 {
    ((d & 1) * 0x100) ^ (((d >> 1) & 1) * 0x200) ^ (((d >> 2) & 1) * 0x400)
    ^ (((d >> 3) & 1) * 0x800) ^ (((d >> 4) & 1) * 0xF25) ^ (((d >> 5) & 1) * 0x16F)
  }

  lemma FirstFour(d: bv32)
    requires d < 0x40
    ensures VersionStep(VersionStep(VersionStep(VersionStep(d)))) == d << 4
  {}

  lemma NextFour(d: bv32)
    requires d < 0x40
    ensures VersionStep(VersionStep(VersionStep(VersionStep(d << 4)))) == EarlierRows(d)
  {}

  lemma LastFour(d: bv32)
    requires d < 0x40
    ensures VersionStep(VersionStep(VersionStep(VersionStep(EarlierRows(d))))) == Rows(d)
  {}

  lemma TwelveSteps(d: bv32)
    requires d < 0x40
    ensures VersionRemainder(d, 12) == Rows(d)
  {
    hide *;
    FourSteps(d);
    FourSteps(VersionRemainder(d, 4));
    StepsAdd(d, 4, 4);
    FourSteps(VersionRemainder(d, 8));
    StepsAdd(d, 8, 4);
    FirstFour(d);
    NextFour(d);
    LastFour(d);
  }

  lemma VersionBitsAre(v: int)
    requires IsVersion(v)
    ensures VersionWord(v) < 0x40
    ensures VersionBits(v) == PackVersion(VersionWord(v), VersionRemainder(VersionWord(v), 12))
  {
    hide PackVersion, VersionRemainder;
  }

  lemma VersionWordsDiffer(v: int, w: int)
    requires IsVersion(v) && IsVersion(w) && v != w
    ensures VersionWord(v) != VersionWord(w)
  {
    IntOfByte(v);
    IntOfByte(w);
  }

  lemma HighBits(d: bv32, rem: bv32)
    requires d < 0x40 && rem < 0x1000
    ensures PackVersion(d, rem) >> 12 == d
  {}

  // The high six bits of a version word are the version, and the words of two versions differ in
  // at least eight of their eighteen bits.
  lemma VersionWordsAreFarApart(v: int, w: int)
    requires IsVersion(v) && IsVersion(w) && v != w
    ensures VersionBits(v) >> 12 == VersionWord(v)
    ensures Distance(VersionBits(v), VersionBits(w)) >= 8
  {
    hide *;
    VersionBitsAre(v);
    VersionBitsAre(w);
    VersionWordsDiffer(v, w);
    TwelveSteps(VersionWord(v));
    TwelveSteps(VersionWord(w));
    PackedDistance(VersionWord(v), VersionWord(w));
    RowsAreShort(VersionWord(v));
    HighBits(VersionWord(v), Rows(VersionWord(v)));
  }

  // The example of the standard: version 7 gives 000111110010010100.
  lemma VersionExample()
    ensures VersionBits(7) == 0x7C94
  {
    assert VersionWord(7) == 7;
    assert Rows(7) == 0xC94 && PackVersion(7, 0xC94) == 0x7C94;
    hide *;
    VersionBitsAre(7);
    TwelveSteps(7);
  }
}
