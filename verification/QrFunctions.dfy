/**
 The function modules of a symbol: where they are, how many modules they leave for codewords,
 and the drawing of their light parts. ISO/IEC 18004 sections 6.3 and 7.9.
 */
module QrFunctions {
  import opened Arithmetic
  import opened BitString
  import opened QrGrid
  import opened QrTables

  // ----- Alignment patterns -----

  function NumAlign(v: int): int { if v == 1 then 0 else v / 7 + 2 }

  function AlignStep(v: int): int
    requires v >= 2
  {
    (v * 8 + NumAlign(v) * 3 + 5) / (NumAlign(v) * 4 - 4) * 2
  }

  function AlignPos(v: int, i: int): int
    requires v >= 2
  {
    if i == 0 then 6 else v * 4 + 10 - (NumAlign(v) - 1 - i) * AlignStep(v)
  }

  // An alignment pattern that does not fall on a finder pattern.
  predicate Aligned(v: int, i: int, j: int) {
    && 0 <= i < NumAlign(v) && 0 <= j < NumAlign(v)
    && !(i == 0 && j == 0) && !(i == 0 && j == NumAlign(v) - 1) && !(i == NumAlign(v) - 1 && j == 0)
  }

  lemma AlignStepFacts(v: int)
    requires IsVersion(v) && v >= 2
    ensures var n, step := NumAlign(v), AlignStep(v); 2 <= n <= 7 && 12 <= step && (n - 2) * step <= 4 * v - 6
  {
    if v < 7 {
    } else if v < 14 {
      assert NumAlign(v) == 3;
    } else if v < 21 {
      assert NumAlign(v) == 4;
    } else if v < 28 {
      assert NumAlign(v) == 5;
    } else if v < 35 {
      assert NumAlign(v) == 6;
    } else {
      assert NumAlign(v) == 7;
    }
  }

  lemma AlignPosInside(v: int, i: int)
    requires IsVersion(v) && 0 <= i < NumAlign(v)
    ensures i == 0 ==> AlignPos(v, i) == 6
    ensures i > 0 ==> 9 <= AlignPos(v, i) <= Size(v) - 7
  {
    if i > 0 {
      AlignStepFacts(v);
      hide NumAlign, AlignStep;
      MulMono(NumAlign(v) - 1 - i, NumAlign(v) - 2, AlignStep(v));
      MulMono(0, NumAlign(v) - 1 - i, AlignStep(v));
    }
  }

  // Different positions are far apart.
  lemma AlignSpacing(v: int, i: int, j: int)
    requires IsVersion(v) && 0 <= i < j < NumAlign(v)
    ensures AlignPos(v, j) - AlignPos(v, i) >= 10
    ensures AlignPos(v, NumAlign(v) - 1) == Size(v) - 7
  {
    AlignStepFacts(v);
    hide NumAlign, AlignStep;
    MulMono(NumAlign(v) - 1 - j, NumAlign(v) - 2, AlignStep(v));
    MulMono(NumAlign(v) - 1 - j + 1, NumAlign(v) - 1 - i, AlignStep(v));
  }

  method GetAlignmentPatternPositions(v: int, result: array<int>) returns (numAlign: int)
    requires IsVersion(v) && result.Length == 7
    modifies result
    ensures numAlign == NumAlign(v) <= 7
    ensures forall i :: 0 <= i < numAlign ==> result[i] == AlignPos(v, i)
  {
    if v == 1 {
      return 0;
    }
    numAlign := v / 7 + 2;
    var step := (v * 8 + numAlign * 3 + 5) / (numAlign * 4 - 4) * 2;
    var i, pos := numAlign - 1, v * 4 + 10;
    while i >= 1
      invariant 0 <= i < numAlign && pos == v * 4 + 10 - (numAlign - 1 - i) * step
      invariant forall k :: i < k < numAlign ==> result[k] == AlignPos(v, k)
    {
      result[i] := pos;
      i, pos := i - 1, pos - step;
    }
    result[0] := 6;
  }

  // ----- Rectangles -----

  datatype Rect = Rect(left: int, top: int, width: int, height: int) {
    predicate Has(x: int, y: int) {
      left <= x < left + width && top <= y < top + height
    }

    predicate Inside(n: int) {
      0 <= left && 0 <= top && 0 <= width && 0 <= height && left + width <= n && top + height <= n
    }
  }

  function Fill(g: seq<bool>, n: int, r: Rect): (h: seq<bool>)
    requires n > 0
    ensures |h| == |g|
  {
    seq(|g|, c requires 0 <= c < |g| => g[c] || r.Has(c % n, c / n))
  }

  lemma FillOneMore(g: seq<bool>, n: int, left: int, y: int, w: int)
    requires |g| == n * n && w >= 0 && InGrid(n, left + w, y)
    ensures 0 <= Cell(n, left + w, y) < n * n
    ensures Fill(g, n, Rect(left, y, w + 1, 1)) == Fill(g, n, Rect(left, y, w, 1))[Cell(n, left + w, y) := true]
  {
    CellFacts(n, left + w, y);
    forall c | 0 <= c < n * n && c % n == left + w && c / n == y ensures c == Cell(n, left + w, y) {
      CellOfQuotient(n, c);
    }
  }

  lemma FillRowAfterRows(g: seq<bool>, n: int, r: Rect)
    requires n > 0 && r.height >= 0
    ensures Fill(Fill(g, n, r), n, Rect(r.left, r.top + r.height, r.width, 1)) == Fill(g, n, r.(height := r.height + 1))
    ensures r.width == 0 || r.height == 0 ==> Fill(g, n, r) == g
  {}

  method FillRectangle(left: int, top: int, width: int, height: int, qr: array<bv8>, ghost n: int)
    requires IsGrid(qr[..], n) && Rect(left, top, width, height).Inside(n)
    modifies qr
    ensures IsGrid(qr[..], n) && Cells(qr[..], n) == Fill(old(Cells(qr[..], n)), n, Rect(left, top, width, height))
  {
    ghost var g := Cells(qr[..], n);
    FillRowAfterRows(g, n, Rect(left, top, width, 0));
    hide Cells, IsGrid, Cell, Fill;
    for dy := 0 to height
      invariant IsGrid(qr[..], n) && n > 0 && Cells(qr[..], n) == Fill(g, n, Rect(left, top, width, dy))
    {
      ghost var row := Cells(qr[..], n);
      FillRowAfterRows(row, n, Rect(left, top + dy, 0, 1));
      for dx := 0 to width
        invariant IsGrid(qr[..], n) && n > 0 && Cells(qr[..], n) == Fill(row, n, Rect(left, top + dy, dx, 1))
      {
        FillOneMore(row, n, left, top + dy, dx);
        SetModule(qr, n, left + dx, top + dy, true);
      }
      FillRowAfterRows(g, n, Rect(left, top, width, dy));
    }
  }

  // ----- The program's list of rectangles -----

  function FillAll(g: seq<bool>, n: int, rects: seq<Rect>): (h: seq<bool>)
    requires n > 0
    ensures |h| == |g|
  {
    if rects == [] then g else Fill(FillAll(g, n, rects[..|rects| - 1]), n, rects[|rects| - 1])
  }

  function AlignRect(v: int, i: int, j: int): Rect
    requires v >= 2
  {
    Rect(AlignPos(v, i) - 2, AlignPos(v, j) - 2, 5, 5)
  }

  // The alignment patterns (0,0)..(i,j), row by row, (i,j) excluded.
  function AlignRects(v: int, i: nat, j: nat): seq<Rect>
    requires v >= 2 && NumAlign(v) >= 0
    decreases i, j
  {
    if j > 0 then AlignRects(v, i, j - 1) + (if Aligned(v, i, j - 1) then [AlignRect(v, i, j - 1)] else [])
    else if i > 0 then AlignRects(v, i - 1, NumAlign(v))
    else []
  }

  function FixedRects(n: int): seq<Rect> {
    [Rect(6, 0, 1, n), Rect(0, 6, n, 1), Rect(0, 0, 9, 9), Rect(n - 8, 0, 8, 9), Rect(0, n - 8, 9, 8)]
  }

  function AllAlignRects(v: int): seq<Rect>
    requires IsVersion(v)
  {
    if v == 1 then [] else AlignRects(v, NumAlign(v), 0)
  }

  function VersionRects(v: int): seq<Rect> {
    if v >= 7 then [Rect(Size(v) - 11, 0, 3, 6), Rect(0, Size(v) - 11, 6, 3)] else []
  }

  function Rects(v: int): seq<Rect>
    requires IsVersion(v)
  {
    FixedRects(Size(v)) + AllAlignRects(v) + VersionRects(v)
  }

  lemma FillAllSnoc(g: seq<bool>, n: int, rects: seq<Rect>, r: Rect)
    requires n > 0
    ensures FillAll(g, n, rects + [r]) == Fill(FillAll(g, n, rects), n, r)
  {
    assert (rects + [r])[..|rects|] == rects;
  }

  lemma {:induction false} FillAllMeans(g: seq<bool>, n: int, rects: seq<Rect>, c: int)
    requires n > 0 && 0 <= c < |g|
    ensures FillAll(g, n, rects)[c] <==> g[c] || exists r :: r in rects && r.Has(c % n, c / n)
  {
    if rects != [] {
      var init, last := rects[..|rects| - 1], rects[|rects| - 1];
      FillAllMeans(g, n, init, c);
      assert rects == init + [last];
    }
  }

  // ----- Where the function modules are -----

  predicate InAlignment(v: int, x: int, y: int)
    requires v >= 2
  {
    exists i, j :: 0 <= i < NumAlign(v) && 0 <= j < NumAlign(v) && Aligned(v, i, j) && AlignRect(v, i, j).Has(x, y)
  }

  // Timing patterns, finder patterns with format bits, alignment patterns, version blocks.
  predicate IsFunction(v: int, x: int, y: int)
    requires IsVersion(v)
  {
    var n := Size(v);
    || x == 6 || y == 6
    || (x < 9 && y < 9) || (x >= n - 8 && y < 9) || (x < 9 && y >= n - 8)
    || (v >= 2 && InAlignment(v, x, y))
    || (v >= 7 && ((n - 11 <= x < n - 8 && y < 6) || (x < 6 && n - 11 <= y < n - 8)))
  }

  lemma {:induction false} AlignRectsMeans(v: int, i: nat, j: nat, r: Rect)
    requires v >= 2 && i <= NumAlign(v) && j <= NumAlign(v)
    ensures r in AlignRects(v, i, j) <==>
      exists a, b :: 0 <= a < NumAlign(v) && 0 <= b < NumAlign(v) && (a < i || (a == i && b < j)) && Aligned(v, a, b)
        && r == AlignRect(v, a, b)
    decreases i, j
  {
    hide AlignRect, NumAlign;
    if j > 0 {
      AlignRectsMeans(v, i, j - 1, r);
    } else if i > 0 {
      AlignRectsMeans(v, i - 1, NumAlign(v), r);
    }
  }

  lemma RectsAreFunctions(v: int, x: int, y: int)
    requires IsVersion(v) && InGrid(Size(v), x, y)
    ensures (exists r :: r in Rects(v) && r.Has(x, y)) <==> IsFunction(v, x, y)
  {
    var n := Size(v);
    var fixed, align, version := FixedRects(n), AllAlignRects(v), VersionRects(v);
    assert forall r :: r in Rects(v) <==> r in fixed || r in align || r in version;
    FixedRectsCover(n, x, y);
    VersionRectsCover(v, x, y);
    AlignRectsCover(v, x, y);
    hide FixedRects, AllAlignRects, VersionRects, Size, Rect.Has, InAlignment;
  }

  lemma FixedRectsCover(n: int, x: int, y: int)
    requires InGrid(n, x, y)
    ensures (exists r :: r in FixedRects(n) && r.Has(x, y)) <==>
      x == 6 || y == 6 || (x < 9 && y < 9) || (x >= n - 8 && y < 9) || (x < 9 && y >= n - 8)
  {
    var fixed := FixedRects(n);
    assert fixed[0] in fixed && fixed[1] in fixed && fixed[2] in fixed && fixed[3] in fixed && fixed[4] in fixed;
  }

  lemma VersionRectsCover(v: int, x: int, y: int)
    requires IsVersion(v) && InGrid(Size(v), x, y)
    ensures var n := Size(v);
      (exists r :: r in VersionRects(v) && r.Has(x, y)) <==>
        v >= 7 && ((n - 11 <= x < n - 8 && y < 6) || (x < 6 && n - 11 <= y < n - 8))
  {
    hide Size;
    var version := VersionRects(v);
    if v >= 7 {
      assert version[0] in version && version[1] in version;
    }
  }

  lemma AlignRectsCover(v: int, x: int, y: int)
    requires IsVersion(v)
    ensures (exists r :: r in AllAlignRects(v) && r.Has(x, y)) <==> v >= 2 && InAlignment(v, x, y)
  {
    hide AlignRect, NumAlign;
    if v >= 2 {
      assert NumAlign(v) >= 2 by { NumAlignPositive(v); }
      if r :| r in AllAlignRects(v) && r.Has(x, y) {
        AlignRectsMeans(v, NumAlign(v), 0, r);
      }
      if InAlignment(v, x, y) {
        var i, j :| 0 <= i < NumAlign(v) && 0 <= j < NumAlign(v) && Aligned(v, i, j) && AlignRect(v, i, j).Has(x, y);
        AlignRectsMeans(v, NumAlign(v), 0, AlignRect(v, i, j));
      }
    }
  }

  lemma NumAlignPositive(v: int)
    requires v >= 2
    ensures NumAlign(v) >= 2
  {}

  // ----- How many modules they take -----

  function DarkSet(g: seq<bool>): set<int> {
    set c | 0 <= c < |g| && g[c]
  }

  predicate Column6Dark(g: seq<bool>, n: int)
    requires n > 6 && |g| == n * n
  {
    forall y :: 0 <= y < n ==> 0 <= Cell(n, 6, y) < n * n && g[Cell(n, 6, y)]
  }

  predicate Row6Dark(g: seq<bool>, n: int)
    requires n > 6 && |g| == n * n
  {
    forall x :: 0 <= x < n ==> 0 <= Cell(n, x, 6) < n * n && g[Cell(n, x, 6)]
  }

  // The size of a rectangle, without its parts in column 6 or row 6 when those are known dark.
  function Extent(from: int, size: int, known: bool): int {
    if known && from <= 6 < from + size then size - 1 else size
  }

  function NewArea(r: Rect, column: bool, row: bool): int {
    Extent(r.left, r.width, column) * Extent(r.top, r.height, row)
  }

  lemma DarkSetUpdate(g: seq<bool>, c: int)
    requires 0 <= c < |g|
    ensures |DarkSet(g[c := true])| == |DarkSet(g)| + (if g[c] then 0 else 1)
  {
    if g[c] {
      assert g[c := true] == g;
    } else {
      assert c !in DarkSet(g) && DarkSet(g[c := true]) == DarkSet(g) + {c};
    }
  }

  // The cells that NewArea counts are still light.
  predicate Fresh(g: seq<bool>, n: int, r: Rect, column: bool, row: bool)
    requires n > 0
  {
    forall c :: 0 <= c < |g| && r.Has(c % n, c / n) && !(column && c % n == 6) && !(row && c / n == 6) ==> !g[c]
  }

  lemma {:induction false} RowCount(g: seq<bool>, n: int, left: int, y: int, w: int, column: bool)
    requires n > 6 && |g| == n * n && 0 <= w && 0 <= left && left + w <= n && 0 <= y < n
    requires Fresh(g, n, Rect(left, y, w, 1), column, false) && (column ==> Column6Dark(g, n))
    ensures |DarkSet(Fill(g, n, Rect(left, y, w, 1)))| == |DarkSet(g)| + Extent(left, w, column)
  {
    hide DarkSet, Cell, Fill, Fresh, Column6Dark;
    if w == 0 {
      FillRowAfterRows(g, n, Rect(left, y, 0, 1));
    } else {
      FreshRow(g, n, left, y, w, column);
      RowCount(g, n, left, y, w - 1, column);
      FillOneMore(g, n, left, y, w - 1);
      DarkSetUpdate(Fill(g, n, Rect(left, y, w - 1, 1)), Cell(n, left + w - 1, y));
    }
  }

  // The last cell of a fresh row is light, or in the dark column.
  lemma FreshRow(g: seq<bool>, n: int, left: int, y: int, w: int, column: bool)
    requires n > 6 && |g| == n * n && 0 < w && 0 <= left && left + w <= n && 0 <= y < n
    requires Fresh(g, n, Rect(left, y, w, 1), column, false) && (column ==> Column6Dark(g, n))
    ensures Fresh(g, n, Rect(left, y, w - 1, 1), column, false)
    ensures var c := Cell(n, left + w - 1, y);
      0 <= c < n * n && (Fill(g, n, Rect(left, y, w - 1, 1))[c] <==> column && left + w - 1 == 6)
  {
    CellFacts(n, left + w - 1, y);
    hide Cell;
  }

  lemma Row6AlreadyDark(g: seq<bool>, n: int, left: int, w: int)
    requires n > 6 && |g| == n * n && Row6Dark(g, n) && 0 <= left && left + w <= n
    ensures Fill(g, n, Rect(left, 6, w, 1)) == g
  {
    forall c | 0 <= c < n * n && left <= c % n < left + w && c / n == 6 ensures g[c] {
      CellOfQuotient(n, c);
      assert Cell(n, c % n, 6) == c;
    }
  }

  lemma {:induction false} FillCount(g: seq<bool>, n: int, r: Rect, column: bool, row: bool)
    requires n > 6 && |g| == n * n && r.Inside(n) && Fresh(g, n, r, column, row)
    requires (column ==> Column6Dark(g, n)) && (row ==> Row6Dark(g, n))
    ensures |DarkSet(Fill(g, n, r))| == |DarkSet(g)| + NewArea(r, column, row)
    decreases r.height
  {
    hide DarkSet, Cell, Fill, NewArea, Extent, Column6Dark, Row6Dark, Fresh;
    FillRowAfterRows(g, n, r.(height := 0));
    if r.height > 0 {
      var above := r.(height := r.height - 1);
      FreshAbove(g, n, r, column, row);
      FillCount(g, n, above, column, row);
      FillRowAfterRows(g, n, above);
      var h, y := Fill(g, n, above), r.top + above.height;
      DarkLinesStay(g, n, above);
      if row && y == 6 {
        Row6AlreadyDark(h, n, r.left, r.width);
      } else {
        RowCount(h, n, r.left, y, r.width, column);
      }
      OneMoreRow(r, column, row);
    } else {
      NoRows(r, column, row);
    }
  }

  lemma FreshAbove(g: seq<bool>, n: int, r: Rect, column: bool, row: bool)
    requires n > 6 && |g| == n * n && r.Inside(n) && r.height > 0 && Fresh(g, n, r, column, row)
    ensures Fresh(g, n, r.(height := r.height - 1), column, row)
    ensures var y := r.top + r.height - 1;
      !(row && y == 6) ==> Fresh(Fill(g, n, r.(height := r.height - 1)), n, Rect(r.left, y, r.width, 1), column, false)
  {}

  lemma OneMoreRow(r: Rect, column: bool, row: bool)
    requires r.height > 0 && r.width >= 0
    ensures NewArea(r, column, row) == NewArea(r.(height := r.height - 1), column, row)
      + (if row && r.top + r.height - 1 == 6 then 0 else Extent(r.left, r.width, column))
  {
    var w := Extent(r.left, r.width, column);
    assert Extent(r.top, r.height, row) ==
      Extent(r.top, r.height - 1, row) + (if row && r.top + r.height - 1 == 6 then 0 else 1);
  }

  lemma NoRows(r: Rect, column: bool, row: bool)
    requires r.height == 0
    ensures NewArea(r, column, row) == 0 && r == r.(height := 0)
  {}

  lemma DarkLinesStay(g: seq<bool>, n: int, r: Rect)
    requires n > 6 && |g| == n * n
    ensures Column6Dark(g, n) ==> Column6Dark(Fill(g, n, r), n)
    ensures Row6Dark(g, n) ==> Row6Dark(Fill(g, n, r), n)
  {}

  function TotalArea(rects: seq<Rect>): int {
    if rects == [] then 0 else TotalArea(rects[..|rects| - 1]) + NewArea(rects[|rects| - 1], true, true)
  }

  // Two rectangles share no cell outside column 6 and row 6.
  ghost predicate Apart(a: Rect, b: Rect) {
    forall x, y :: a.Has(x, y) && b.Has(x, y) ==> x == 6 || y == 6
  }

  ghost predicate AllApart(rects: seq<Rect>) {
    forall i, j :: 0 <= i < j < |rects| ==> Apart(rects[i], rects[j])
  }

  lemma {:induction false} FillAllCount(g: seq<bool>, n: int, rects: seq<Rect>)
    requires n > 6 && |g| == n * n && Column6Dark(g, n) && Row6Dark(g, n)
    requires AllApart(rects) && forall r :: r in rects ==> r.Inside(n) && Fresh(g, n, r, true, true)
    ensures |DarkSet(FillAll(g, n, rects))| == |DarkSet(g)| + TotalArea(rects)
    ensures Column6Dark(FillAll(g, n, rects), n) && Row6Dark(FillAll(g, n, rects), n)
  {
    hide DarkSet, Fill, NewArea, Column6Dark, Row6Dark, Fresh, Apart, Rect.Inside;
    if rects != [] {
      var init, last := rects[..|rects| - 1], rects[|rects| - 1];
      FillAllCount(g, n, init);
      FreshBehind(g, n, rects);
      FillCount(FillAll(g, n, init), n, last, true, true);
      DarkLinesStay(FillAll(g, n, init), n, last);
    }
  }

  // What lies apart from everything filled so far is still fresh.
  lemma FreshBehind(g: seq<bool>, n: int, rects: seq<Rect>)
    requires n > 6 && rects != [] && AllApart(rects) && Fresh(g, n, rects[|rects| - 1], true, true)
    ensures Fresh(FillAll(g, n, rects[..|rects| - 1]), n, rects[|rects| - 1], true, true)
  {
    hide FillAll;
    var init, last := rects[..|rects| - 1], rects[|rects| - 1];
    forall c | 0 <= c < |g| && last.Has(c % n, c / n) && c % n != 6 && c / n != 6 ensures !FillAll(g, n, init)[c] {
      FillAllMeans(g, n, init, c);
      forall r | r in init ensures !r.Has(c % n, c / n) {
        var i :| 0 <= i < |init| && init[i] == r;
        assert Apart(rects[i], last);
      }
    }
  }

  lemma {:induction false} TotalAreaConcat(a: seq<Rect>, b: seq<Rect>)
    ensures TotalArea(a + b) == TotalArea(a) + TotalArea(b)
  {
    if b == [] {
      assert a + b == a;
    } else {
      var n := |b| - 1;
      assert (a + b)[..|a + b| - 1] == a + b[..n];
      TotalAreaConcat(a, b[..n]);
    }
  }

  lemma {:induction false} FillAllConcat(g: seq<bool>, n: int, a: seq<Rect>, b: seq<Rect>)
    requires n > 0
    ensures FillAll(g, n, a + b) == FillAll(FillAll(g, n, a), n, b)
  {
    hide Fill;
    if b == [] {
      assert a + b == a;
    } else {
      var k := |b| - 1;
      assert (a + b)[..|a + b| - 1] == a + b[..k];
      FillAllConcat(g, n, a, b[..k]);
    }
  }

  // The area of the alignment patterns (0,0)..(i,j) outside the timing patterns, in closed form.
  function AlignArea(n: int, i: int, j: int): int {
    if i == 0 then
      20 * (if j <= 1 then 0 else if j <= n - 1 then j - 1 else n - 2)
    else
      20 * (n - 2) + (i - 1) * (25 * n - 5) - (if i == n then 20 else 0)
      + (if j == 0 then 0 else (if i == n - 1 then 0 else 20) + 25 * (j - 1))
  }

  lemma AlignRectArea(v: int, i: int, j: int)
    requires IsVersion(v) && v >= 2 && 0 <= i < NumAlign(v) && 0 <= j < NumAlign(v)
    ensures AlignRect(v, i, j).Inside(Size(v))
    ensures NewArea(AlignRect(v, i, j), true, true) == (if i == 0 then 4 else 5) * (if j == 0 then 4 else 5)
  {
    AlignPosInside(v, i);
    AlignPosInside(v, j);
  }

  lemma AlignAreaSteps(n: int, i: int, j: int)
    requires n >= 2 && 0 <= i < n && 0 < j <= n
    ensures AlignArea(n, i, j) - AlignArea(n, i, j - 1) ==
      if (i == 0 && j == 1) || (i == 0 && j == n) || (i == n - 1 && j == 1) then 0
      else (if i == 0 then 4 else 5) * (if j == 1 then 4 else 5)
    ensures AlignArea(n, i + 1, 0) == AlignArea(n, i, n)
  {
    if i > 0 {
      assert i * (25 * n - 5) == (i - 1) * (25 * n - 5) + (25 * n - 5);
    }
  }

  lemma {:induction false} AlignRectsArea(v: int, i: nat, j: nat)
    requires IsVersion(v) && v >= 2 && i <= NumAlign(v) && j <= NumAlign(v) && (i == NumAlign(v) ==> j == 0)
    ensures TotalArea(AlignRects(v, i, j)) == AlignArea(NumAlign(v), i, j)
    ensures forall r :: r in AlignRects(v, i, j) ==> r.Inside(Size(v))
    decreases i, j
  {
    hide *;
    var n := NumAlign(v);
    NumAlignPositive(v);
    AlignRectsSteps(v, i, j);
    if j > 0 {
      AlignRectsArea(v, i, j - 1);
      AlignAreaSteps(n, i, j);
      if Aligned(v, i, j - 1) {
        AlignRectArea(v, i, j - 1);
        AreaSnoc(AlignRects(v, i, j - 1), AlignRect(v, i, j - 1));
      }
    } else if i > 0 {
      AlignRectsArea(v, i - 1, n);
      AlignAreaSteps(n, i - 1, n);
    } else {
      AlignAreaStart(n);
    }
  }

  lemma AlignRectsSteps(v: int, i: nat, j: nat)
    requires v >= 2 && i <= NumAlign(v) && j <= NumAlign(v) && (i == NumAlign(v) ==> j == 0)
    ensures j > 0 && Aligned(v, i, j - 1) ==> AlignRects(v, i, j) == AlignRects(v, i, j - 1) + [AlignRect(v, i, j - 1)]
    ensures j > 0 && !Aligned(v, i, j - 1) ==> AlignRects(v, i, j) == AlignRects(v, i, j - 1)
    ensures j > 0 ==> (Aligned(v, i, j - 1) <==>
      !((i == 0 && j == 1) || (i == 0 && j == NumAlign(v)) || (i == NumAlign(v) - 1 && j == 1)))
    ensures i > 0 && j == 0 ==> AlignRects(v, i, 0) == AlignRects(v, i - 1, NumAlign(v))
    ensures AlignRects(v, 0, 0) == [] && TotalArea([]) == 0
  {}

  lemma AlignAreaStart(n: int) ensures AlignArea(n, 0, 0) == 0 {}

  lemma AreaSnoc(rects: seq<Rect>, r: Rect)
    ensures TotalArea(rects + [r]) == TotalArea(rects) + NewArea(r, true, true)
  {
    assert (rects + [r])[..|rects|] == rects;
  }

  function AllLight(n: int): (g: seq<bool>)
    requires n > 0
    ensures |g| == n * n
  {
    seq(n * n, _ => false)
  }

  // Dark exactly at the function modules.
  function FunctionGrid(v: int): (g: seq<bool>)
    requires IsVersion(v)
    ensures |g| == Size(v) * Size(v)
  {
    FillAll(AllLight(Size(v)), Size(v), Rects(v))
  }

  lemma FunctionGridMeans(v: int, c: int)
    requires IsVersion(v) && 0 <= c < Size(v) * Size(v)
    ensures FunctionGrid(v)[c] <==> IsFunction(v, c % Size(v), c / Size(v))
  {
    hide Rects, IsFunction, Size;
    assert Size(v) > 0 by { SizeFacts(v); }
    CellOfQuotient(Size(v), c);
    FillAllMeans(AllLight(Size(v)), Size(v), Rects(v), c);
    RectsAreFunctions(v, c % Size(v), c / Size(v));
  }

  lemma SizeFacts(v: int)
    requires IsVersion(v)
    ensures IsSize(Size(v)) && 21 <= Size(v) <= 177 && Size(v) % 2 == 1
  {}

  lemma TimingCount(n: int)
    requires n > 6
    ensures var g := Fill(Fill(AllLight(n), n, Rect(6, 0, 1, n)), n, Rect(0, 6, n, 1));
      |DarkSet(g)| == n + (n - 1) && Column6Dark(g, n) && Row6Dark(g, n)
  {
    var empty, column, row := AllLight(n), Rect(6, 0, 1, n), Rect(0, 6, n, 1);
    var g := Fill(empty, n, column);
    assert DarkSet(empty) == {} && Fresh(empty, n, column, false, false) && Fresh(g, n, row, true, false);
    FillCount(empty, n, column, false, false);
    forall y | 0 <= y < n ensures 0 <= Cell(n, 6, y) < n * n && g[Cell(n, 6, y)] {
      CellFacts(n, 6, y);
    }
    FillCount(g, n, row, true, false);
    var h := Fill(g, n, row);
    DarkLinesStay(g, n, row);
    forall x | 0 <= x < n ensures 0 <= Cell(n, x, 6) < n * n && h[Cell(n, x, 6)] {
      CellFacts(n, x, 6);
    }
  }

  function FinderRects(n: int): seq<Rect> {
    [Rect(0, 0, 9, 9), Rect(n - 8, 0, 8, 9), Rect(0, n - 8, 9, 8)]
  }

  lemma FinderArea(n: int)
    requires n >= 21
    ensures TotalArea(FinderRects(n)) == 192
  {
    var a, b, c := Rect(0, 0, 9, 9), Rect(n - 8, 0, 8, 9), Rect(0, n - 8, 9, 8);
    assert FinderRects(n) == ([] + [a] + [b]) + [c];
    AreaSnoc([] + [a] + [b], c);
    AreaSnoc([] + [a], b);
    AreaSnoc([], a);
  }

  lemma VersionArea(v: int)
    requires IsVersion(v)
    ensures TotalArea(VersionRects(v)) == (if v >= 7 then 36 else 0)
  {
    if v >= 7 {
      var a, b := Rect(Size(v) - 11, 0, 3, 6), Rect(0, Size(v) - 11, 6, 3);
      assert VersionRects(v) == ([] + [a]) + [b];
      AreaSnoc([] + [a], b);
      AreaSnoc([], a);
    }
  }

  function LightSet(g: seq<bool>): set<int> {
    set c | 0 <= c < |g| && !g[c]
  }

  lemma {:induction false} LightAndDark(g: seq<bool>)
    ensures |LightSet(g)| + |DarkSet(g)| == |g|
  {
    if g == [] {
      assert LightSet(g) == {} && DarkSet(g) == {};
    } else {
      LastCell(g[..|g| - 1], g[|g| - 1]);
      hide LightSet, DarkSet;
      assert g == g[..|g| - 1] + [g[|g| - 1]];
      LightAndDark(g[..|g| - 1]);
    }
  }

  lemma LastCell(g: seq<bool>, dark: bool)
    ensures |LightSet(g + [dark])| == |LightSet(g)| + (if dark then 0 else 1)
    ensures |DarkSet(g + [dark])| == |DarkSet(g)| + (if dark then 1 else 0)
  {
    if dark {
      assert LightSet(g + [dark]) == LightSet(g);
      assert DarkSet(g + [dark]) == DarkSet(g) + {|g|};
    } else {
      assert LightSet(g + [dark]) == LightSet(g) + {|g|};
      assert DarkSet(g + [dark]) == DarkSet(g);
    }
  }

  lemma RawModules(v: int)
    requires IsVersion(v)
    ensures NumRawDataModules(v) == Size(v) * Size(v) - (2 * Size(v) - 1) - 192
      - (if v == 1 then 0 else (25 * NumAlign(v) - 10) * NumAlign(v) - 55) - (if v >= 7 then 36 else 0)
  {
    assert Size(v) * Size(v) == 16 * v * v + 136 * v + 289;
    assert (16 * v + 128) * v == 16 * v * v + 128 * v;
  }

  lemma TotalOfRest(v: int)
    requires IsVersion(v)
    ensures TotalArea(FinderRects(Size(v)) + AllAlignRects(v) + VersionRects(v)) + 2 * Size(v) - 1
         == Size(v) * Size(v) - NumRawDataModules(v)
  {
    SizeFacts(v);
    hide *;
    var n := Size(v);
    RawModules(v);
    TotalAreaConcat(FinderRects(n) + AllAlignRects(v), VersionRects(v));
    TotalAreaConcat(FinderRects(n), AllAlignRects(v));
    FinderArea(n);
    VersionArea(v);
    AllAlignArea(v);
  }

  // The function modules leave exactly as many cells as the closed formula counts.
  lemma EnoughLightModules(v: int)
    requires IsVersion(v)
    ensures |LightSet(FunctionGrid(v))| == NumRawDataModules(v)
  {
    TotalOfRest(v);
    RestInside(v);
    LightAndDark(FunctionGrid(v));
    SizeFacts(v);
    RectsSplit(v);
    var n := Size(v);
    RestApart(v);
    hide Size, NumRawDataModules, FinderRects, AllAlignRects, VersionRects, TotalArea, Rects, Column6Dark, Row6Dark,
      AllApart, Fresh;
    var timing := [Rect(6, 0, 1, n), Rect(0, 6, n, 1)];
    var rest := FinderRects(n) + AllAlignRects(v) + VersionRects(v);
    TimingFill(n);
    FillAllConcat(AllLight(n), n, timing, rest);
    FillAllCount(FillAll(AllLight(n), n, timing), n, rest);
  }

  lemma RectsSplit(v: int)
    requires IsVersion(v)
    ensures Rects(v) ==
      [Rect(6, 0, 1, Size(v)), Rect(0, 6, Size(v), 1)] + (FinderRects(Size(v)) + AllAlignRects(v) + VersionRects(v))
  {
    var n := Size(v);
    assert FixedRects(n) == [Rect(6, 0, 1, n), Rect(0, 6, n, 1)] + FinderRects(n);
  }

  lemma TimingFill(n: int)
    requires n > 6
    ensures var g := FillAll(AllLight(n), n, [Rect(6, 0, 1, n), Rect(0, 6, n, 1)]);
      |DarkSet(g)| == n + (n - 1) && Column6Dark(g, n) && Row6Dark(g, n) && forall r :: Fresh(g, n, r, true, true)
  {
    var a, b := Rect(6, 0, 1, n), Rect(0, 6, n, 1);
    FillAllSnoc(AllLight(n), n, [a], b);
    FillAllSnoc(AllLight(n), n, [], a);
    assert [] + [a] == [a] && [a] + [b] == [a, b];
    TimingCount(n);
  }

  // ----- No two of the other areas overlap outside the timing patterns -----

  lemma ApartConcat(a: seq<Rect>, b: seq<Rect>)
    requires AllApart(a) && AllApart(b) && forall r, s :: r in a && s in b ==> Apart(r, s)
    ensures AllApart(a + b)
  {
    hide Apart;
    var c := a + b;
    forall i, j | 0 <= i < j < |c| ensures Apart(c[i], c[j]) {
      if i < |a| <= j {
        assert c[i] in a && c[j] in b;
      }
    }
  }

  lemma AlignmentsApart(v: int, i: int, j: int, a: int, b: int)
    requires IsVersion(v) && v >= 2 && 0 <= i < NumAlign(v) && 0 <= j < NumAlign(v) && 0 <= a < NumAlign(v)
      && 0 <= b < NumAlign(v)
    requires (i, j) != (a, b)
    ensures Apart(AlignRect(v, i, j), AlignRect(v, a, b))
  {
    FarApart(v, i, a);
    FarApart(v, j, b);
    hide AlignPos, NumAlign;
  }

  lemma FarApart(v: int, i: int, j: int)
    requires IsVersion(v) && v >= 2 && 0 <= i < NumAlign(v) && 0 <= j < NumAlign(v)
    ensures i != j ==> AlignPos(v, i) - AlignPos(v, j) >= 10 || AlignPos(v, j) - AlignPos(v, i) >= 10
  {
    hide AlignPos, NumAlign;
    if i < j {
      AlignSpacing(v, i, j);
    } else if j < i {
      AlignSpacing(v, j, i);
    }
  }

  // Position i is the first, the last, or at least ten from both.
  lemma WhereAligned(v: int, i: int)
    requires IsVersion(v) && v >= 2 && 0 <= i < NumAlign(v)
    ensures if i == 0 then AlignPos(v, i) == 6 else AlignPos(v, i) >= 16
    ensures if i == NumAlign(v) - 1 then AlignPos(v, i) == Size(v) - 7 else AlignPos(v, i) <= Size(v) - 17
  {
    AlignPosInside(v, 0);
    NumAlignPositive(v);
    hide AlignPos, NumAlign, Size;
    if i > 0 {
      AlignSpacing(v, 0, i);
    }
    if i < NumAlign(v) - 1 {
      AlignSpacing(v, i, NumAlign(v) - 1);
    } else {
      AlignSpacing(v, 0, i);
    }
  }

  lemma AlignmentApartFromRest(v: int, i: int, j: int, r: Rect)
    requires IsVersion(v) && v >= 2 && Aligned(v, i, j) && r in FinderRects(Size(v)) + VersionRects(v)
    ensures Apart(r, AlignRect(v, i, j)) && Apart(AlignRect(v, i, j), r)
  {
    WhereAligned(v, i);
    WhereAligned(v, j);
    SizeFacts(v);
    hide AlignPos, NumAlign, Size;
  }

  lemma {:induction false} AlignRectsApart(v: int, i: nat, j: nat)
    requires IsVersion(v) && v >= 2 && i <= NumAlign(v) && j <= NumAlign(v) && (i == NumAlign(v) ==> j == 0)
    ensures AllApart(AlignRects(v, i, j))
    decreases i, j
  {
    hide AlignRect, NumAlign, Apart, Aligned;
    if j > 0 {
      AlignRectsApart(v, i, j - 1);
      if Aligned(v, i, j - 1) {
        var last := AlignRect(v, i, j - 1);
        forall r | r in AlignRects(v, i, j - 1) ensures Apart(r, last) {
          AlignRectsMeans(v, i, j - 1, r);
          var a, b :| 0 <= a < NumAlign(v) && 0 <= b < NumAlign(v) && (a < i || (a == i && b < j - 1))
            && Aligned(v, a, b) && r == AlignRect(v, a, b);
          AlignmentsApart(v, a, b, i, j - 1);
        }
        ApartConcat(AlignRects(v, i, j - 1), [last]);
      }
    } else if i > 0 {
      AlignRectsApart(v, i - 1, NumAlign(v));
    }
  }

  lemma FixedApart(v: int)
    requires IsVersion(v)
    ensures AllApart(FinderRects(Size(v))) && AllApart(VersionRects(v))
    ensures forall r, s :: r in FinderRects(Size(v)) && s in VersionRects(v) ==> Apart(r, s)
  {
    SizeFacts(v);
  }

  lemma AllAlignApart(v: int, r: Rect)
    requires IsVersion(v) && r in AllAlignRects(v)
    ensures forall s :: s in FinderRects(Size(v)) + VersionRects(v) ==> Apart(s, r) && Apart(r, s)
  {
    hide AlignRect, NumAlign, Apart, Aligned, FinderRects, VersionRects, Size;
    NumAlignPositive(v);
    AlignRectsMeans(v, NumAlign(v), 0, r);
    var a, b :| 0 <= a < NumAlign(v) && 0 <= b < NumAlign(v) && (a < NumAlign(v) || (a == NumAlign(v) && b < 0))
      && Aligned(v, a, b) && r == AlignRect(v, a, b);
    forall s | s in FinderRects(Size(v)) + VersionRects(v) ensures Apart(s, r) && Apart(r, s) {
      AlignmentApartFromRest(v, a, b, s);
    }
  }

  lemma RestApart(v: int)
    requires IsVersion(v)
    ensures AllApart(FinderRects(Size(v)) + AllAlignRects(v) + VersionRects(v))
  {
    FixedApart(v);
    if v >= 2 {
      NumAlignPositive(v);
      AlignRectsApart(v, NumAlign(v), 0);
    }
    var finders, align, version := FinderRects(Size(v)), AllAlignRects(v), VersionRects(v);
    hide Apart, FinderRects, VersionRects, Size;
    forall r, s | r in align && s in finders + version ensures Apart(s, r) && Apart(r, s) {
      AllAlignApart(v, r);
    }
    assert AllApart(align);
    hide AllAlignRects, AllApart;
    ApartConcat(finders, align);
    ApartConcat(finders + align, version);
  }

  lemma AreaProduct(n: int)
    requires n >= 2
    ensures AlignArea(n, n, 0) == (25 * n - 10) * n - 55
  {
    assert (25 * n - 10) * n == 25 * (n * n) - 10 * n;
  }

  lemma AllAlignArea(v: int)
    requires IsVersion(v)
    ensures TotalArea(AllAlignRects(v)) == (if v == 1 then 0 else (25 * NumAlign(v) - 10) * NumAlign(v) - 55)
  {
    if v >= 2 {
      AlignRectsArea(v, NumAlign(v), 0);
      AreaProduct(NumAlign(v));
    }
  }

  lemma RestInside(v: int)
    requires IsVersion(v)
    ensures forall r :: r in FinderRects(Size(v)) + AllAlignRects(v) + VersionRects(v) ==> r.Inside(Size(v))
  {
    OtherRectsInside(v);
    if v >= 2 {
      NumAlignPositive(v);
      AlignRectsArea(v, NumAlign(v), 0);
    }
    hide FinderRects, VersionRects, Size, Rect.Inside, AlignRects, NumAlign;
  }

  lemma OtherRectsInside(v: int)
    requires IsVersion(v)
    ensures forall r :: r in FinderRects(Size(v)) || r in VersionRects(v) ==> r.Inside(Size(v))
  {
    SizeFacts(v);
  }

  // ----- The program -----

  // The grid after the rectangles of a list, starting from all light.
  ghost predicate Filled(v: int, qr: seq<bv8>, rects: seq<Rect>)
    requires IsVersion(v)
  {
    IsGrid(qr, Size(v)) && Cells(qr, Size(v)) == FillAll(AllLight(Size(v)), Size(v), rects)
  }

  method FillNext(v: int, r: Rect, qr: array<bv8>, ghost rects: seq<Rect>)
    requires IsVersion(v) && Filled(v, qr[..], rects) && r.Inside(Size(v))
    modifies qr
    ensures Filled(v, qr[..], rects + [r])
  {
    FillAllSnoc(AllLight(Size(v)), Size(v), rects, r);
    FillRectangle(r.left, r.top, r.width, r.height, qr, Size(v));
  }

  method Clear(v: int, qr: array<bv8>)
    requires IsVersion(v) && qr.Length >= BufferLen(v)
    modifies qr
    ensures Filled(v, qr[..], [])
  {
    hide *;
    BufferFacts(v);
    forall i | 0 <= i < BufferLen(v) {
      qr[i] := 0;
    }
    IntOfByte(Size(v));
    var size := Size(v) as bv8;
    qr[0] := size;
    ClearedGrid(v, size, qr[..]);
  }

  lemma BufferFacts(v: int)
    requires IsVersion(v)
    ensures BufferLen(v) == ByteCount(Size(v)) > 0 && 0 <= Size(v) <= 177
  {}

  lemma ClearedGrid(v: int, size: bv8, qr: seq<bv8>)
    requires IsVersion(v) && |qr| >= BufferLen(v) > 0 && qr[0] == size && size as int == Size(v)
    requires forall i :: 1 <= i < BufferLen(v) ==> qr[i] == 0
    ensures Filled(v, qr, [])
  {
    var n := Size(v);
    SizeFacts(v);
    BufferFacts(v);
    hide BitOf, Size, BufferLen;
    forall c | 0 <= c < n * n ensures !Cells(qr, n)[c] {
      ZeroBit(c % 8);
    }
    assert Cells(qr, n) == AllLight(n);
  }

  lemma ZeroBit(i: nat)
    requires i < 8
    ensures !BitOf(0, i)
  {}

  method FillAlignments(v: int, qr: array<bv8>)
    requires IsVersion(v) && v >= 2 && Filled(v, qr[..], FixedRects(Size(v)))
    modifies qr
    ensures Filled(v, qr[..], FixedRects(Size(v)) + AlignRects(v, NumAlign(v), 0))
  {
    hide *;
    var alignPatPos := new int[7];
    var numAlign := GetAlignmentPatternPositions(v, alignPatPos);
    ghost var fixed := FixedRects(Size(v));
    NumAlignPositive(v);
    AlignRectsSteps(v, 0, 0);
    assert fixed + [] == fixed;
    for i := 0 to numAlign
      invariant Filled(v, qr[..], fixed + AlignRects(v, i, 0))
      invariant forall k :: 0 <= k < numAlign ==> alignPatPos[k] == AlignPos(v, k)
    {
      for j := 0 to numAlign
        invariant Filled(v, qr[..], fixed + AlignRects(v, i, j))
        invariant forall k :: 0 <= k < numAlign ==> alignPatPos[k] == AlignPos(v, k)
      {
        AlignRectsSteps(v, i, j + 1);
        ghost var done := AlignRects(v, i, j);
        if !((i == 0 && j == 0) || (i == 0 && j == numAlign - 1) || (i == numAlign - 1 && j == 0)) {
          AlignRectArea(v, i, j);
          AlignRectIs(v, i, j);
          FillNext(v, Rect(alignPatPos[i] - 2, alignPatPos[j] - 2, 5, 5), qr, fixed + done);
          assert fixed + done + [AlignRect(v, i, j)] == fixed + (done + [AlignRect(v, i, j)]);
        }
      }
      NextAlignRow(v, i);
    }
  }

  lemma AlignRectIs(v: int, i: int, j: int)
    requires v >= 2
    ensures AlignRect(v, i, j) == Rect(AlignPos(v, i) - 2, AlignPos(v, j) - 2, 5, 5)
  {}

  lemma NextAlignRow(v: int, i: nat)
    requires v >= 2 && i < NumAlign(v)
    ensures AlignRects(v, i + 1, 0) == AlignRects(v, i, NumAlign(v))
  {}

  method InitializeFunctionModules(v: int, qr: array<bv8>)
    requires IsVersion(v) && qr.Length >= BufferLen(v)
    modifies qr
    ensures IsGrid(qr[..], Size(v)) && Cells(qr[..], Size(v)) == FunctionGrid(v)
  {
    hide *;
    var qrsize := Size(v);
    SizeFacts(v);
    RectsOf(v);
    Clear(v, qr);
    FillNext(v, Rect(6, 0, 1, qrsize), qr, []);
    FillNext(v, Rect(0, 6, qrsize, 1), qr, [] + [Rect(6, 0, 1, qrsize)]);
    FillNext(v, Rect(0, 0, 9, 9), qr, [] + [Rect(6, 0, 1, qrsize)] + [Rect(0, 6, qrsize, 1)]);
    FillNext(v, Rect(qrsize - 8, 0, 8, 9), qr,
      [] + [Rect(6, 0, 1, qrsize)] + [Rect(0, 6, qrsize, 1)] + [Rect(0, 0, 9, 9)]);
    FillNext(v, Rect(0, qrsize - 8, 9, 8), qr,
      [] + [Rect(6, 0, 1, qrsize)] + [Rect(0, 6, qrsize, 1)] + [Rect(0, 0, 9, 9)] + [Rect(qrsize - 8, 0, 8, 9)]);
    ghost var rects := FixedRects(qrsize) + AllAlignRects(v);
    if v >= 2 {
      FillAlignments(v, qr);
    }
    assert Filled(v, qr[..], rects);
    if v >= 7 {
      FillNext(v, Rect(qrsize - 11, 0, 3, 6), qr, rects);
      FillNext(v, Rect(0, qrsize - 11, 6, 3), qr, rects + [Rect(qrsize - 11, 0, 3, 6)]);
      assert rects + [Rect(qrsize - 11, 0, 3, 6)] + [Rect(0, qrsize - 11, 6, 3)]
          == rects + [Rect(qrsize - 11, 0, 3, 6), Rect(0, qrsize - 11, 6, 3)];
    }
    assert Filled(v, qr[..], Rects(v));
    FilledAll(v, qr[..]);
  }

  lemma RectsOf(v: int)
    requires IsVersion(v)
    ensures FixedRects(Size(v)) == [] + [Rect(6, 0, 1, Size(v))] + [Rect(0, 6, Size(v), 1)] + [Rect(0, 0, 9, 9)]
      + [Rect(Size(v) - 8, 0, 8, 9)] + [Rect(0, Size(v) - 8, 9, 8)]
    ensures v >= 2 ==> AllAlignRects(v) == AlignRects(v, NumAlign(v), 0)
    ensures v < 2 ==> FixedRects(Size(v)) + AllAlignRects(v) == FixedRects(Size(v))
    ensures v >= 7 ==>
      Rects(v) == FixedRects(Size(v)) + AllAlignRects(v) + [Rect(Size(v) - 11, 0, 3, 6), Rect(0, Size(v) - 11, 6, 3)]
    ensures v < 7 ==> Rects(v) == FixedRects(Size(v)) + AllAlignRects(v)
    ensures Rect(6, 0, 1, Size(v)).Inside(Size(v)) && Rect(0, 6, Size(v), 1).Inside(Size(v))
      && Rect(0, 0, 9, 9).Inside(Size(v))
    ensures Rect(Size(v) - 8, 0, 8, 9).Inside(Size(v)) && Rect(0, Size(v) - 8, 9, 8).Inside(Size(v))
    ensures Rect(Size(v) - 11, 0, 3, 6).Inside(Size(v)) && Rect(0, Size(v) - 11, 6, 3).Inside(Size(v))
  {}

  lemma FilledAll(v: int, qr: seq<bv8>)
    requires IsVersion(v) && Filled(v, qr, Rects(v))
    ensures IsGrid(qr, Size(v)) && Cells(qr, Size(v)) == FunctionGrid(v)
  {}
}
