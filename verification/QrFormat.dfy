/**
 The format bits, which tell a reader the error correction level and the mask:
 ISO/IEC 18004 section 7.9.
 */
module QrFormat {
  import opened QrGrid
  import opened QrTables
  import opened QrFunctions

  predicate IsMask(m: int) { 0 <= m <= 7 }

  // How a level is written in the format bits.
  function LevelCode(e: int): bv16 {
    match e
    case 0 => 1
    case 1 => 0
    case 2 => 3
    case _ => 2
  }

  function FormatData(e: int, m: int): bv16
    requires IsLevel(e) && IsMask(m)
  {
    (LevelCode(e) << 3) | (m as bv16)
  }

  function RemainderStep(rem: bv16): bv16 { (rem << 1) ^ ((rem >> 9) * 0x537) }

  function FormatRemainder(data: bv16, k: nat): bv16 {
    if k == 0 then data else RemainderStep(FormatRemainder(data, k - 1))
  }

  function PackFormat(data: bv16, rem: bv16): bv16 { ((data << 10) | rem) ^ 0x5412 }

  function FormatBits(e: int, m: int): bv16
    requires IsLevel(e) && IsMask(m)
  {
    PackFormat(FormatData(e, m), FormatRemainder(FormatData(e, m), 10))
  }

  predicate FormatBit(bits: bv16, i: nat)
    requires i < 16
  {
    (bits >> i) & 1 != 0
  }

  // Where bit i of the first copy stands, and of the second; place 15 of the second is always dark.
  function FirstPlace(i: int): (int, int) {
    if i <= 5 then (8, i) else if i == 6 then (8, 7) else if i == 7 then (8, 8) else if i == 8 then (7, 8)
      else (14 - i, 8)
  }

  function SecondPlace(n: int, i: int): (int, int) {
    if i < 8 then (n - 1 - i, 8) else if i < 15 then (8, n - 15 + i) else (8, n - 8)
  }

  // The bit of the first copy, or of the second, that stands at (x, y), or -1.
  function FirstIndex(x: int, y: int): int {
    if x == 8 && 0 <= y <= 5 then y
    else if x == 8 && y == 7 then 6
    else if x == 8 && y == 8 then 7
    else if x == 7 && y == 8 then 8
    else if y == 8 && 0 <= x <= 5 then 14 - x
    else -1
  }

  function SecondIndex(n: int, x: int, y: int): int {
    if y == 8 && n - 8 <= x < n then n - 1 - x
    else if x == 8 && n - 7 <= y < n then y - (n - 15)
    else if x == 8 && y == n - 8 then 15
    else -1
  }

  lemma PlaceIndex(n: int, i: int, x: int, y: int)
    requires n >= 21
    ensures 0 <= i < 15 ==> (FirstPlace(i) == (x, y) <==> FirstIndex(x, y) == i)
    ensures 0 <= i <= 15 ==> (SecondPlace(n, i) == (x, y) <==> SecondIndex(n, x, y) == i)
    ensures FirstIndex(x, y) == -1 || SecondIndex(n, x, y) == -1
  {}

  // The color of (x, y) once the first a bits of the first copy and the first b of the second are drawn.
  function ColorAfter(n: int, bits: bv16, a: int, b: int, x: int, y: int, was: bool): bool
    requires n >= 21 && a <= 15 && b <= 16
  {
    var i, j := FirstIndex(x, y), SecondIndex(n, x, y);
    if 0 <= i < a then FormatBit(bits, i)
    else if 0 <= j < b then j == 15 || FormatBit(bits, j)
    else was
  }

  function WithFormat(g: seq<bool>, n: int, bits: bv16, a: int, b: int): (h: seq<bool>)
    requires n >= 21 && a <= 15 && b <= 16
    ensures |h| == |g|
  {
    seq(|g|, c requires 0 <= c < |g| => ColorAfter(n, bits, a, b, c % n, c / n, g[c]))
  }

  lemma FormatStart(g: seq<bool>, n: int, bits: bv16)
    requires n >= 21
    ensures WithFormat(g, n, bits, 0, 0) == g
  {}

  lemma FirstStep(g: seq<bool>, n: int, bits: bv16, a: int)
    requires n >= 21 && |g| == n * n && 0 <= a < 15
    ensures InGrid(n, FirstPlace(a).0, FirstPlace(a).1) && 0 <= Cell(n, FirstPlace(a).0, FirstPlace(a).1) < n * n
    ensures WithFormat(g, n, bits, a + 1, 0) ==
      WithFormat(g, n, bits, a, 0)[Cell(n, FirstPlace(a).0, FirstPlace(a).1) := FormatBit(bits, a)]
  {
    var (x, y) := FirstPlace(a);
    CellFacts(n, x, y);
    hide FormatBit;
    forall c | 0 <= c < n * n ensures FirstIndex(c % n, c / n) == a <==> c == Cell(n, x, y) {
      CellOfQuotient(n, c);
      PlaceIndex(n, a, c % n, c / n);
    }
  }

  lemma SecondStep(g: seq<bool>, n: int, bits: bv16, b: int)
    requires n >= 21 && |g| == n * n && 0 <= b <= 15
    ensures InGrid(n, SecondPlace(n, b).0, SecondPlace(n, b).1)
      && 0 <= Cell(n, SecondPlace(n, b).0, SecondPlace(n, b).1) < n * n
    ensures WithFormat(g, n, bits, 15, b + 1) ==
      WithFormat(g, n, bits, 15, b)[Cell(n, SecondPlace(n, b).0, SecondPlace(n, b).1) := b == 15 || FormatBit(bits, b)]
  {
    var (x, y) := SecondPlace(n, b);
    CellFacts(n, x, y);
    hide FormatBit;
    forall c | 0 <= c < n * n
      ensures (SecondIndex(n, c % n, c / n) == b <==> c == Cell(n, x, y))
        && (SecondIndex(n, c % n, c / n) == b ==> FirstIndex(c % n, c / n) == -1)
    {
      CellOfQuotient(n, c);
      PlaceIndex(n, b, c % n, c / n);
    }
  }

  // The first a bits of the first copy and the first b of the second are drawn over g.
  ghost predicate FormatDrawn(g: seq<bool>, n: int, bits: bv16, qr: seq<bv8>, a: int, b: int) {
    n >= 21 && |g| == n * n && 0 <= a <= 15 && 0 <= b <= 16 && IsGrid(qr, n)
      && Cells(qr, n) == WithFormat(g, n, bits, a, b)
  }

  method DrawFirst(ghost g: seq<bool>, ghost n: int, bits: bv16, qr: array<bv8>, a: int, x: int, y: int)
    requires FormatDrawn(g, n, bits, qr[..], a, 0) && a < 15 && (x, y) == FirstPlace(a)
    modifies qr
    ensures FormatDrawn(g, n, bits, qr[..], a + 1, 0)
  {
    FirstStep(g, n, bits, a);
    hide WithFormat, Cells, Cell, FormatBit;
    SetModule(qr, n, x, y, FormatBit(bits, a));
  }

  method DrawSecond(ghost g: seq<bool>, ghost n: int, bits: bv16, qr: array<bv8>, b: int, x: int, y: int)
    requires FormatDrawn(g, n, bits, qr[..], 15, b) && b <= 15 && (x, y) == SecondPlace(n, b)
    modifies qr
    ensures FormatDrawn(g, n, bits, qr[..], 15, b + 1)
  {
    SecondStep(g, n, bits, b);
    hide WithFormat, Cells, Cell, FormatBit;
    SetModule(qr, n, x, y, b == 15 || FormatBit(bits, b));
  }

  method ComputeFormatBits(e: int, m: int) returns (bits: bv16)
    requires IsLevel(e) && IsMask(m)
    ensures bits == FormatBits(e, m)
  {
    var data := FormatData(e, m);
    hide RemainderStep, FormatData, PackFormat;
    var rem := data;
    for i := 0 to 10
      invariant rem == FormatRemainder(data, i)
    {
      rem := RemainderStep(rem);
    }
    bits := PackFormat(data, rem);
  }

  method DrawFormatBits(e: int, m: int, qr: array<bv8>, ghost n: int)
    requires IsLevel(e) && IsMask(m) && IsGrid(qr[..], n)
    modifies qr
    ensures IsGrid(qr[..], n) && Cells(qr[..], n) == WithFormat(old(Cells(qr[..], n)), n, FormatBits(e, m), 15, 16)
  {
    hide WithFormat, Cells, FormatBit, FormatBits, IsGrid, ByteCount;
    ghost var g := Cells(qr[..], n);
    GridFacts(qr[..], n);
    var bits := ComputeFormatBits(e, m);
    FormatStart(g, n, bits);
    var qrsize := qr[0] as int;
    for i := 0 to 6
      invariant FormatDrawn(g, n, bits, qr[..], i, 0)
    {
      DrawFirst(g, n, bits, qr, i, 8, i);
    }
    DrawFirst(g, n, bits, qr, 6, 8, 7);
    DrawFirst(g, n, bits, qr, 7, 8, 8);
    DrawFirst(g, n, bits, qr, 8, 7, 8);
    for i := 9 to 15
      invariant FormatDrawn(g, n, bits, qr[..], i, 0)
    {
      DrawFirst(g, n, bits, qr, i, 14 - i, 8);
    }
    for i := 0 to 8
      invariant FormatDrawn(g, n, bits, qr[..], 15, i)
    {
      DrawSecond(g, n, bits, qr, i, qrsize - 1 - i, 8);
    }
    for i := 8 to 15
      invariant FormatDrawn(g, n, bits, qr[..], 15, i)
    {
      DrawSecond(g, n, bits, qr, i, 8, qrsize - 15 + i);
    }
    DrawSecond(g, n, bits, qr, 15, 8, qrsize - 8);
  }

  // ----- What the format bits touch, and what a reader finds in them -----

  lemma FormatIsFunction(v: int, x: int, y: int)
    requires IsVersion(v) && InGrid(Size(v), x, y)
    requires FirstIndex(x, y) != -1 || SecondIndex(Size(v), x, y) != -1
    ensures IsFunction(v, x, y)
  {}

  // Drawing the format bits again hides what was drawn before.
  lemma FormatOverFormat(g: seq<bool>, n: int, first: bv16, second: bv16)
    requires n >= 21
    ensures WithFormat(WithFormat(g, n, first, 15, 16), n, second, 15, 16) == WithFormat(g, n, second, 15, 16)
  {
    hide FormatBit;
  }

  function FirstCopy(g: seq<bool>, n: int, i: int): bool
    requires n >= 21 && |g| == n * n && 0 <= i < 15
  {
    var (x, y) := FirstPlace(i);
    CellFacts(n, x, y);
    g[Cell(n, x, y)]
  }

  function SecondCopy(g: seq<bool>, n: int, i: int): bool
    requires n >= 21 && |g| == n * n && 0 <= i <= 15
  {
    var (x, y) := SecondPlace(n, i);
    CellFacts(n, x, y);
    g[Cell(n, x, y)]
  }

  // Both copies of the format word, and the module that is always dark.
  predicate FormatStands(g: seq<bool>, n: int, bits: bv16)
    requires n >= 21 && |g| == n * n
  {
    && (forall i :: 0 <= i < 15 ==> FirstCopy(g, n, i) == FormatBit(bits, i) == SecondCopy(g, n, i))
    && SecondCopy(g, n, 15)
  }

  function Digit(dark: bool): int { if dark then 1 else 0 }

  // Bits 10..14 without the fixed pattern 10101: three of the mask, two of the level.
  function ReadMask(g: seq<bool>, n: int): int
    requires n >= 21 && |g| == n * n
  {
    4 * Digit(!FirstCopy(g, n, 12)) + 2 * Digit(FirstCopy(g, n, 11)) + Digit(!FirstCopy(g, n, 10))
  }

  function ReadLevel(g: seq<bool>, n: int): int
    requires n >= 21 && |g| == n * n
  {
    match 2 * Digit(!FirstCopy(g, n, 14)) + Digit(FirstCopy(g, n, 13))
    case 1 => 0
    case 0 => 1
    case 3 => 2
    case _ => 3
  }

  lemma StepStaysShort(rem: bv16)
    requires rem < 0x400
    ensures RemainderStep(rem) < 0x400
  {}

  lemma {:induction false} RemainderIsShort(data: bv16, k: nat)
    requires data < 0x400
    ensures FormatRemainder(data, k) < 0x400
  {
    hide RemainderStep;
    if k > 0 {
      RemainderIsShort(data, k - 1);
      StepStaysShort(FormatRemainder(data, k - 1));
    }
  }

  lemma PackedHighBits(data: bv16, rem: bv16)
    requires data < 0x20 && rem < 0x400
    ensures PackFormat(data, rem) >> 10 == data ^ 0x15
  {}

  lemma HighBit(bits: bv16, i: nat)
    requires 10 <= i < 15
    ensures FormatBit(bits, i) == FormatBit(bits >> 10, i - 10)
  {
    if i == 10 {
    } else if i == 11 {
    } else if i == 12 {
    } else if i == 13 {
    } else {
      assert i == 14;
    }
  }

  lemma FormatDataBits(e: int, m: int)
    requires IsLevel(e) && IsMask(m)
    ensures var d := FormatData(e, m) ^ 0x15;
      && FormatData(e, m) < 0x20
      && m == 4 * Digit(!FormatBit(d, 2)) + 2 * Digit(FormatBit(d, 1)) + Digit(!FormatBit(d, 0))
      && 2 * Digit(!FormatBit(d, 4)) + Digit(FormatBit(d, 3)) ==
        (if e == 0 then 1 else if e == 1 then 0 else if e == 2 then 3 else 2)
  {
    if m == 0 {
    } else if m == 1 {
    } else if m == 2 {
    } else if m == 3 {
    } else if m == 4 {
    } else if m == 5 {
    } else if m == 6 {
    } else {
      assert m == 7;
    }
  }

  lemma FormatHighBits(e: int, m: int, i: nat)
    requires IsLevel(e) && IsMask(m) && 10 <= i < 15
    ensures FormatBit(FormatBits(e, m), i) == FormatBit(FormatData(e, m) ^ 0x15, i - 10)
  {
    var data := FormatData(e, m);
    FormatDataBits(e, m);
    assert FormatBits(e, m) == PackFormat(data, FormatRemainder(data, 10));
    hide *;
    RemainderIsShort(data, 10);
    PackedHighBits(data, FormatRemainder(data, 10));
    HighBit(FormatBits(e, m), i);
  }

  lemma FirstCopyDrawn(g: seq<bool>, n: int, bits: bv16, i: int)
    requires n >= 21 && |g| == n * n && 0 <= i < 15
    ensures FirstCopy(WithFormat(g, n, bits, 15, 16), n, i) == FormatBit(bits, i)
  {
    hide FormatBit;
    var (x, y) := FirstPlace(i);
    CellFacts(n, x, y);
    PlaceIndex(n, i, x, y);
  }

  lemma SecondCopyDrawn(g: seq<bool>, n: int, bits: bv16, i: int)
    requires n >= 21 && |g| == n * n && 0 <= i <= 15
    ensures SecondCopy(WithFormat(g, n, bits, 15, 16), n, i) == (i == 15 || FormatBit(bits, i))
  {
    hide FormatBit;
    var (x, y) := SecondPlace(n, i);
    CellFacts(n, x, y);
    PlaceIndex(n, i, x, y);
  }

  // The whole format word stands in both copies.
  lemma BothCopiesDrawn(g: seq<bool>, n: int, bits: bv16)
    requires n >= 21 && |g| == n * n
    ensures FormatStands(WithFormat(g, n, bits, 15, 16), n, bits)
  {
    hide FormatBit, WithFormat, FirstCopy, SecondCopy;
    forall i | 0 <= i < 15
      ensures FirstCopy(WithFormat(g, n, bits, 15, 16), n, i) == FormatBit(bits, i)
      ensures SecondCopy(WithFormat(g, n, bits, 15, 16), n, i) == FormatBit(bits, i)
    {
      FirstCopyDrawn(g, n, bits, i);
      SecondCopyDrawn(g, n, bits, i);
    }
    SecondCopyDrawn(g, n, bits, 15);
  }

  // A reader recovers the level and the mask.
  lemma FormatReadBack(g: seq<bool>, n: int, e: int, m: int)
    requires n >= 21 && |g| == n * n && IsLevel(e) && IsMask(m)
    ensures var h := WithFormat(g, n, FormatBits(e, m), 15, 16); ReadMask(h, n) == m && ReadLevel(h, n) == e
  {
    hide FormatBit, FormatBits, FormatData, WithFormat, FirstCopy;
    forall i | 10 <= i < 15
      ensures FirstCopy(WithFormat(g, n, FormatBits(e, m), 15, 16), n, i) == FormatBit(FormatData(e, m) ^ 0x15, i - 10)
    {
      FirstCopyDrawn(g, n, FormatBits(e, m), i);
      FormatHighBits(e, m, i);
    }
    FormatDataBits(e, m);
  }

  // ----- Format words are far apart -----

  // The number of ones among the 15 bits of a word.
  function Ones(w: bv16): bv16 {
    (w & 1) + ((w >> 1) & 1) + ((w >> 2) & 1) + ((w >> 3) & 1) + ((w >> 4) & 1) + ((w >> 5) & 1) + ((w >> 6) & 1)
    + ((w >> 7) & 1) + ((w >> 8) & 1) + ((w >> 9) & 1) + ((w >> 10) & 1) + ((w >> 11) & 1) + ((w >> 12) & 1)
    + ((w >> 13) & 1) + ((w >> 14) & 1)
  }

  // In how many places two words differ.
  function Distance(a: bv16, b: bv16): bv16 { Ones(a ^ b) }

  // The remainder as the sum of those of the single bits.
  function Rows(d: bv16): bv16 {
    ((d & 1) * 0x137) ^ (((d >> 1) & 1) * 0x26E) ^ (((d >> 2) & 1) * 0x1EB) ^ (((d >> 3) & 1) * 0x3D6)
    ^ (((d >> 4) & 1) * 0x29B)
  }

  function Codeword(d: bv16): bv16 { (d << 10) | Rows(d) }

  lemma FarFromZero(d: bv16)
    requires d != 0 && d < 0x20
    ensures Ones(Codeword(d)) >= 7
  {}

  lemma CodewordsAreLinear(d: bv16, other: bv16)
    requires d < 0x20 && other < 0x20
    ensures PackFormat(d, Rows(d)) ^ PackFormat(other, Rows(other)) == Codeword(d ^ other)
    ensures d != other ==> d ^ other != 0 && d ^ other < 0x20
  {}

  lemma CodewordDistance(d: bv16, other: bv16)
    requires d < 0x20 && other < 0x20 && d != other
    ensures Distance(PackFormat(d, Rows(d)), PackFormat(other, Rows(other))) >= 7
  {
    hide PackFormat, Rows, Ones, Codeword;
    CodewordsAreLinear(d, other);
    FarFromZero(d ^ other);
  }

  lemma FiveSteps(d: bv16)
    ensures FormatRemainder(d, 5) ==
      RemainderStep(RemainderStep(RemainderStep(RemainderStep(RemainderStep(d)))))
  {
    hide RemainderStep;
    assert FormatRemainder(d, 0) == d;
    assert FormatRemainder(d, 1) == RemainderStep(d);
    assert FormatRemainder(d, 2) == RemainderStep(RemainderStep(d));
    assert FormatRemainder(d, 3) == RemainderStep(RemainderStep(RemainderStep(d)));
  }

  lemma {:induction false} StepsAdd(d: bv16, j: nat, k: nat)
    ensures FormatRemainder(FormatRemainder(d, j), k) == FormatRemainder(d, j + k)
  {
    hide RemainderStep;
    if k > 0 {
      StepsAdd(d, j, k - 1);
    }
  }

  lemma FirstFive(d: bv16)
    requires d < 0x20
    ensures RemainderStep(RemainderStep(RemainderStep(RemainderStep(RemainderStep(d))))) == d << 5
  {}

  lemma LastFive(d: bv16)
    requires d < 0x20
    ensures RemainderStep(RemainderStep(RemainderStep(RemainderStep(RemainderStep(d << 5))))) == Rows(d)
  {}

  lemma TenSteps(d: bv16)
    requires d < 0x20
    ensures FormatRemainder(d, 10) == Rows(d)
  {
    hide *;
    FiveSteps(d);
    FiveSteps(FormatRemainder(d, 5));
    StepsAdd(d, 5, 5);
    FirstFive(d);
    LastFive(d);
  }

  lemma FormatBitsAre(e: int, m: int)
    requires IsLevel(e) && IsMask(m)
    ensures FormatData(e, m) < 0x20
    ensures FormatBits(e, m) == PackFormat(FormatData(e, m), FormatRemainder(FormatData(e, m), 10))
  {
    FormatDataBits(e, m);
  }

  lemma FormatDataDiffers(e: int, m: int, f: int, k: int)
    requires IsLevel(e) && IsMask(m) && IsLevel(f) && IsMask(k) && (e, m) != (f, k)
    ensures FormatData(e, m) != FormatData(f, k)
  {
    hide FormatData, FormatBit, Digit;
    FormatDataBits(e, m);
    FormatDataBits(f, k);
  }

  // The words of two levels or masks differ in at least seven of their fifteen bits, so that a
  // reader finds the right one although three are damaged.
  lemma FormatWordsAreFarApart(e: int, m: int, f: int, k: int)
    requires IsLevel(e) && IsMask(m) && IsLevel(f) && IsMask(k) && (e, m) != (f, k)
    ensures Distance(FormatBits(e, m), FormatBits(f, k)) >= 7
  {
    hide *;
    var d, other := FormatData(e, m), FormatData(f, k);
    FormatBitsAre(e, m);
    FormatBitsAre(f, k);
    FormatDataDiffers(e, m, f, k);
    TenSteps(d);
    TenSteps(other);
    CodewordDistance(d, other);
  }

  // The example of the standard: level M and mask 101 give 100000011001110.
  lemma FormatExample()
    ensures FormatBits(1, 5) == 0x40CE
  {
    assert FormatData(1, 5) == 5;
    FormatBitsAre(1, 5);
    TenSteps(5);
    assert Rows(5) == 0xDC && PackFormat(5, 0xDC) == 0x40CE;
    hide *;
  }
}
