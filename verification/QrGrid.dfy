/**
 The module grid of a QR symbol, packed eight modules to a byte after one byte that holds the
 size: ISO/IEC 18004 section 7.7. Dark is true.
 */
module QrGrid {
  import opened Arithmetic
  import opened BitString

  // ----- One byte -----

  function WithDark(b: bv8, i: nat): bv8
    requires i < 8
  {
    b | (1 << i)
  }

  function WithLight(b: bv8, i: nat): bv8
    requires i < 8
  {
    b & ((1 << i) ^ 0xFF)
  }

  lemma BitWithDark(b: bv8, i: nat, j: nat)
    requires i < 8 && j < 8
    ensures BitOf(WithDark(b, i), j) == (i == j || BitOf(b, j))
  {
    if i == j {
    } else {
    }
  }

  lemma BitWithLight(b: bv8, i: nat, j: nat)
    requires i < 8 && j < 8
    ensures BitOf(WithLight(b, i), j) == (i != j && BitOf(b, j))
  {
    if i == j {
    } else {
    }
  }

  // ----- The packed buffer -----

  predicate IsSize(n: int) { 21 <= n <= 177 }

  function ByteCount(n: int): int { (n * n + 7) / 8 + 1 }

  predicate IsGrid(qr: seq<bv8>, n: int) {
    IsSize(n) && |qr| >= ByteCount(n) > 0 && qr[0] as int == n
  }

  lemma GridFacts(qr: seq<bv8>, n: int)
    requires IsGrid(qr, n)
    ensures |qr| > 0 && qr[0] as int == n && 21 <= n <= 177
  {}

  // Module (x, y) is cell y * n + x.
  function Cell(n: int, x: int, y: int): int { y * n + x }

  predicate InGrid(n: int, x: int, y: int) { 0 <= x < n && 0 <= y < n }

  function Cells(qr: seq<bv8>, n: int): (g: seq<bool>)
    requires IsGrid(qr, n)
    ensures |g| == n * n
  {
    seq(n * n, c requires 0 <= c < n * n => BitOf(qr[c / 8 + 1], c % 8))
  }

  lemma CellFacts(n: int, x: int, y: int)
    requires InGrid(n, x, y)
    ensures 0 <= Cell(n, x, y) < n * n && Cell(n, x, y) % n == x && Cell(n, x, y) / n == y
  {
    MulMono(0, y, n);
    MulMono(y + 1, n, n);
    DivMod(y, n, x);
  }

  lemma CellOfQuotient(n: int, c: int)
    requires 0 < n && 0 <= c < n * n
    ensures InGrid(n, c % n, c / n) && Cell(n, c % n, c / n) == c
  {
    DivisionWithin(c, n, n);
  }

  method GetModule(qr: array<bv8>, ghost n: int, x: int, y: int) returns (dark: bool)
    requires IsGrid(qr[..], n) && InGrid(n, x, y)
    ensures 0 <= Cell(n, x, y) < n * n && dark == Cells(qr[..], n)[Cell(n, x, y)]
  {
    CellFacts(n, x, y);
    var index := Cell(qr[0] as int, x, y);
    dark := BitOf(qr[index / 8 + 1], index % 8);
  }

  method SetModule(qr: array<bv8>, ghost n: int, x: int, y: int, isDark: bool)
    requires IsGrid(qr[..], n) && InGrid(n, x, y)
    modifies qr
    ensures IsGrid(qr[..], n)
    ensures 0 <= Cell(n, x, y) < n * n && Cells(qr[..], n) == old(Cells(qr[..], n))[Cell(n, x, y) := isDark]
  {
    hide *;
    GridFacts(qr[..], n);
    CellFacts(n, x, y);
    var index := Cell(qr[0] as int, x, y);
    PlaceInGrid(qr[..], n, index);
    var bitIndex, byteIndex := index % 8, index / 8 + 1;
    ghost var before := qr[..];
    if isDark {
      qr[byteIndex] := WithDark(qr[byteIndex], bitIndex);
    } else {
      qr[byteIndex] := WithLight(qr[byteIndex], bitIndex);
    }
    StillGrid(before, qr[..], n);
    forall c | 0 <= c < n * n
      ensures Cells(qr[..], n)[c] == if c == index then isDark else Cells(before, n)[c]
    {
      CellAfter(before, qr[..], n, index, isDark, c);
    }
  }

  lemma PlaceInGrid(qr: seq<bv8>, n: int, index: int)
    requires IsGrid(qr, n) && 0 <= index < n * n
    ensures 0 < index / 8 + 1 < |qr| && 0 <= index % 8 < 8
  {}

  lemma StillGrid(before: seq<bv8>, after: seq<bv8>, n: int)
    requires IsGrid(before, n) && |after| == |before| && |before| > 0 && after[0] == before[0]
    ensures IsGrid(after, n)
  {}

  // Cell c after cell index was set.
  lemma CellAfter(before: seq<bv8>, after: seq<bv8>, n: int, index: int, isDark: bool, c: int)
    requires IsGrid(before, n) && IsGrid(after, n) && |after| == |before| && 0 <= index < n * n && 0 <= c < n * n
    requires forall k :: 0 <= k < |before| && k != index / 8 + 1 ==> after[k] == before[k]
    requires var b := before[index / 8 + 1];
      after[index / 8 + 1] == if isDark then WithDark(b, index % 8) else WithLight(b, index % 8)
    ensures Cells(after, n)[c] == if c == index then isDark else Cells(before, n)[c]
  {
    hide WithDark, WithLight, BitOf;
    if c / 8 == index / 8 {
      BitWithDark(before[index / 8 + 1], index % 8, c % 8);
      BitWithLight(before[index / 8 + 1], index % 8, c % 8);
    }
  }
}
