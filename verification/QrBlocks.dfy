/**
 Splitting the data bytes into blocks, appending error correction bytes to each, and
 interleaving the blocks: ISO/IEC 18004 sections 7.5 and 7.6.
 */
module QrBlocks {
  import opened Arithmetic
  import opened ReedSolomon
  import opened QrTables

  // How the bytes of one symbol are divided: the number of blocks, how many of them are
  // short, the data bytes of a short block (the others have one more), the error correction
  // bytes of each, all data bytes, and all bytes.
  datatype Layout = Layout(blocks: int, short: int, shortLen: int, eccLen: int, dataLen: int, rawLen: int) {
    predicate Valid() {
      && 1 <= short <= blocks && 1 <= shortLen && 1 <= eccLen <= DEGREE_MAX && shortLen + 1 + eccLen <= 255
      && 0 < dataLen && dataLen + eccLen <= rawLen
      && dataLen == Product(shortLen, blocks) + (blocks - short)
      && rawLen == dataLen + Product(eccLen, blocks)
    }

    predicate IsBlock(i: int) { 0 <= i < blocks }

    function BlockLen(i: int): int { if i < short then shortLen else shortLen + 1 }

    // Where block i begins in the data.
    function Start(i: int): int { Product(i, shortLen) + (if i <= short then 0 else i - short) }

    // Where byte j of block i stands after interleaving.
    function DataPlace(i: int, j: int): int {
      if j < shortLen then Product(j, blocks) + i else Product(shortLen, blocks) + (i - short)
    }

    function EccPlace(i: int, j: int): int { dataLen + (Product(j, blocks) + i) }

    // The block and the byte of it that stand at place p, by division.
    function BlockAt(p: int): int
      requires blocks > 0
    {
      if p < Product(shortLen, blocks) then Modulo(p, blocks)
      else if p < dataLen then short + (p - Product(shortLen, blocks))
      else Modulo(p - dataLen, blocks)
    }

    function ByteAt(p: int): int
      requires blocks > 0
    {
      if p < Product(shortLen, blocks) then Quotient(p, blocks)
      else if p < dataLen then shortLen
      else Quotient(p - dataLen, blocks)
    }
  }

  function Divided(raw: int, blocks: int, ecc: int): Layout
    requires blocks > 0
  {
    Layout(blocks, blocks - Modulo(raw, blocks), Quotient(raw, blocks) - ecc, ecc, raw - Product(ecc, blocks), raw)
  }

  function LayoutOf(v: int, e: int): (l: Layout)
    requires IsVersion(v) && IsLevel(e)
    ensures l.Valid() && l.rawLen == NumRawDataModules(v) / 8 && l.dataLen == NumDataCodewords(v, e)
  {
    LayoutFacts(v, e);
    Divided(NumRawDataModules(v) / 8, NumErrorCorrectionBlocks(e, v), EccCodewordsPerBlock(e, v))
  }

  lemma LayoutFacts(v: int, e: int)
    requires IsVersion(v) && IsLevel(e)
    ensures NumErrorCorrectionBlocks(e, v) > 0
    ensures var l := Divided(NumRawDataModules(v) / 8, NumErrorCorrectionBlocks(e, v), EccCodewordsPerBlock(e, v));
      l.Valid() && l.rawLen == NumRawDataModules(v) / 8 && l.dataLen == NumDataCodewords(v, e)
  {
    hide Fits, NumErrorCorrectionBlocks, EccCodewordsPerBlock, NumRawDataModules, NumDataCodewords, Layout.Valid,
      Divided,
      Product;
    EveryEntryFits(v, e);
    var raw, blocks, ecc := NumRawDataModules(v) / 8, NumErrorCorrectionBlocks(e, v), EccCodewordsPerBlock(e, v);
    FitsMeans(v, e);
    DividedIsValid(raw, blocks, ecc);
  }

  lemma FitsMeans(v: int, e: int)
    requires Fits(v, e)
    ensures NumErrorCorrectionBlocks(e, v) > 0
    ensures var raw, blocks, ecc :=
      NumRawDataModules(v) / 8, NumErrorCorrectionBlocks(e, v), EccCodewordsPerBlock(e, v);
      && 1 <= ecc <= 30 && 1 <= blocks && blocks + Product(ecc, blocks) <= raw < Product(254, blocks)
      && NumDataCodewords(v, e) == raw - Product(ecc, blocks)
  {
    hide NumErrorCorrectionBlocks, EccCodewordsPerBlock, NumRawDataModules;
  }

  lemma DividedIsValid(raw: int, blocks: int, ecc: int)
    requires 1 <= ecc <= 30 && 1 <= blocks && blocks + Product(ecc, blocks) <= raw < Product(254, blocks)
    ensures var l := Divided(raw, blocks, ecc); l.Valid() && l.rawLen == raw && l.dataLen == raw - Product(ecc, blocks)
  {
    hide Product, Quotient, Modulo;
    var q, r := Quotient(raw, blocks), Modulo(raw, blocks);
    RemainderBound(raw, blocks);
    ProductNext(ecc, blocks);
    ProductNext(q, blocks);
    if q <= ecc {
      ProductMono(q + 1, ecc + 1, blocks);
    }
    if q >= 254 {
      ProductMono(254, q, blocks);
    }
    ProductSum(q - ecc, ecc, blocks);
    ProductNext(0, ecc);
    ProductMono(1, blocks, ecc);
    ProductComm(blocks, ecc);
    ProductMono(0, q - ecc, blocks);
    ProductNext(0, blocks);
  }

  // ----- Places: interleaving is a bijection -----

  lemma DataPlaceFacts(l: Layout, i: int, j: int)
    requires l.Valid() && l.IsBlock(i) && 0 <= j < l.BlockLen(i)
    ensures 0 <= l.DataPlace(i, j) < l.dataLen
    ensures l.BlockAt(l.DataPlace(i, j)) == i && l.ByteAt(l.DataPlace(i, j)) == j
  {
    hide Product, Quotient, Modulo;
    ProductNext(j, l.blocks);
    ProductMono(0, l.shortLen, l.blocks);
    if j < l.shortLen {
      ProductMono(0, j, l.blocks);
      ProductMono(j + 1, l.shortLen, l.blocks);
      QuotientFacts(j, l.blocks, i);
    }
  }

  lemma EccPlaceFacts(l: Layout, i: int, j: int)
    requires l.Valid() && l.IsBlock(i) && 0 <= j < l.eccLen
    ensures l.dataLen <= l.EccPlace(i, j) < l.rawLen
    ensures l.BlockAt(l.EccPlace(i, j)) == i && l.ByteAt(l.EccPlace(i, j)) == j
  {
    hide Product, Quotient, Modulo;
    ProductNext(j, l.blocks);
    ProductMono(0, j, l.blocks);
    ProductMono(j + 1, l.eccLen, l.blocks);
    QuotientFacts(j, l.blocks, i);
  }

  lemma PlaceOfBlockAt(l: Layout, p: int)
    requires l.Valid() && 0 <= p < l.rawLen
    ensures l.IsBlock(l.BlockAt(p)) && 0 <= l.ByteAt(p)
    ensures p < l.dataLen ==> l.ByteAt(p) < l.BlockLen(l.BlockAt(p)) && l.DataPlace(l.BlockAt(p), l.ByteAt(p)) == p
    ensures p >= l.dataLen ==> l.ByteAt(p) < l.eccLen && l.EccPlace(l.BlockAt(p), l.ByteAt(p)) == p
  {
    hide Product, Quotient, Modulo;
    var n := l.blocks;
    if p < Product(l.shortLen, n) {
      QuotientBelow(p, n, l.shortLen);
      RemainderBound(p, n);
    } else if p >= l.dataLen {
      QuotientBelow(p - l.dataLen, n, l.eccLen);
      RemainderBound(p - l.dataLen, n);
    }
  }

  lemma StartFacts(l: Layout, i: int)
    requires l.Valid() && l.IsBlock(i)
    ensures l.Start(0) == 0 && l.Start(l.blocks) == l.dataLen
    ensures l.Start(i) + l.BlockLen(i) == l.Start(i + 1)
    ensures 0 <= l.Start(i) <= l.Start(i + 1) <= l.dataLen
  {
    hide Product;
    ProductNext(i, l.shortLen);
    ProductComm(l.blocks, l.shortLen);
    ProductMono(0, i, l.shortLen);
    ProductMono(i + 1, l.blocks, l.shortLen);
  }

  // The blocks are as equal as can be, the short ones first.
  lemma BlocksAreEven(l: Layout, i: int, k: int)
    requires l.Valid() && l.IsBlock(i) && l.IsBlock(k) && i <= k
    ensures l.BlockLen(i) <= l.BlockLen(k) <= l.BlockLen(i) + 1
  {}

  // First come the first bytes of all blocks, in the order of the blocks, then their second bytes,
  // and so on: likewise the error correction.
  lemma PlacesInOrder(l: Layout, i: int, j: int, k: int, m: int)
    requires l.Valid() && l.IsBlock(i) && l.IsBlock(k) && j >= 0 && m >= 0
    ensures j < l.BlockLen(i) && m < l.BlockLen(k) ==>
      (l.DataPlace(i, j) < l.DataPlace(k, m) <==> j < m || (j == m && i < k))
    ensures j < l.eccLen && m < l.eccLen ==>
      (l.EccPlace(i, j) < l.EccPlace(k, m) <==> j < m || (j == m && i < k))
  {
    hide Product;
    if j < m {
      ProductNext(j, l.blocks);
      ProductMono(j + 1, m, l.blocks);
    } else if m < j {
      ProductNext(m, l.blocks);
      ProductMono(m + 1, j, l.blocks);
    }
  }

  // ----- The program -----

  function Block(l: Layout, data: seq<bv8>, i: int): (b: seq<bv8>)
    requires l.Valid() && l.IsBlock(i) && |data| == l.dataLen
    ensures |b| == l.BlockLen(i)
  {
    StartFacts(l, i);
    data[l.Start(i)..l.Start(i + 1)]
  }

  ghost predicate DataPlaced(l: Layout, data: seq<bv8>, result: seq<bv8>, i: int)
    requires l.Valid() && |data| == l.dataLen && |result| >= l.rawLen && l.IsBlock(i)
  {
    forall j :: 0 <= j < l.BlockLen(i) ==>
      0 <= l.DataPlace(i, j) < l.rawLen && result[l.DataPlace(i, j)] == Block(l, data, i)[j]
  }

  ghost predicate EccPlaced(l: Layout, data: seq<bv8>, result: seq<bv8>, i: int)
    requires l.Valid() && |data| == l.dataLen && |result| >= l.rawLen && l.IsBlock(i)
  {
    forall j :: 0 <= j < l.eccLen ==>
      0 <= l.EccPlace(i, j) < l.rawLen && result[l.EccPlace(i, j)] == Ecc(Block(l, data, i), l.eccLen)[j]
  }

  // Every byte of every block, and of its error correction, stands at its place.
  ghost predicate Interleaved(l: Layout, data: seq<bv8>, result: seq<bv8>)
    requires l.Valid() && |data| == l.dataLen && |result| >= l.rawLen
  {
    forall i :: 0 <= i < l.blocks ==> DataPlaced(l, data, result, i) && EccPlaced(l, data, result, i)
  }

  method CopyData(l: Layout, i: int, data: array<bv8>, dat: int, result: array<bv8>)
    requires l.Valid() && l.IsBlock(i) && l.rawLen <= result.Length && data != result
    requires 0 <= dat && dat + l.BlockLen(i) <= data.Length
    modifies result
    ensures forall j :: 0 <= j < l.BlockLen(i) ==>
      0 <= l.DataPlace(i, j) < l.rawLen && result[l.DataPlace(i, j)] == data[dat + j]
    ensures forall p :: 0 <= p < result.Length && (p >= l.dataLen || l.BlockAt(p) != i) ==> result[p] == old(result[p])
  {
    hide Product, Quotient, Modulo;
    var datLen := l.BlockLen(i);
    var k := i;
    ProductNext(0, l.blocks);
    for j := 0 to datLen
      invariant k == Product(j, l.blocks) + i || (j == datLen == l.shortLen + 1)
      invariant forall j' :: 0 <= j' < j ==>
        0 <= l.DataPlace(i, j') < l.rawLen && result[l.DataPlace(i, j')] == data[dat + j']
      invariant forall p :: 0 <= p < result.Length && (p >= l.dataLen || l.BlockAt(p) != i) ==>
        result[p] == old(result[p])
    {
      if j == l.shortLen {
        k := k - l.short;
      }
      assert k == l.DataPlace(i, j);
      DataPlaceFacts(l, i, j);
      forall j' | 0 <= j' < j ensures l.DataPlace(i, j') != k {
        DataPlaceFacts(l, i, j');
      }
      result[k] := data[dat + j];
      k := k + l.blocks;
      ProductNext(j, l.blocks);
    }
  }

  method CopyEcc(l: Layout, i: int, data: array<bv8>, ecc: int, result: array<bv8>)
    requires l.Valid() && l.IsBlock(i) && l.rawLen <= result.Length && data != result
    requires 0 <= ecc && ecc + l.eccLen <= data.Length
    modifies result
    ensures forall j :: 0 <= j < l.eccLen ==>
      0 <= l.EccPlace(i, j) < l.rawLen && result[l.EccPlace(i, j)] == data[ecc + j]
    ensures forall p :: 0 <= p < result.Length && (p < l.dataLen || p >= l.rawLen || l.BlockAt(p) != i) ==>
      result[p] == old(result[p])
  {
    hide Product, Quotient, Modulo;
    var k := l.dataLen + i;
    ProductNext(0, l.blocks);
    for j := 0 to l.eccLen
      invariant k == l.EccPlace(i, j)
      invariant forall j' :: 0 <= j' < j ==>
        0 <= l.EccPlace(i, j') < l.rawLen && result[l.EccPlace(i, j')] == data[ecc + j']
      invariant forall p :: 0 <= p < result.Length && (p < l.dataLen || p >= l.rawLen || l.BlockAt(p) != i) ==>
        result[p] == old(result[p])
    {
      EccPlaceFacts(l, i, j);
      forall j' | 0 <= j' < j ensures l.EccPlace(i, j') != k {
        EccPlaceFacts(l, i, j');
      }
      result[k] := data[ecc + j];
      k := k + l.blocks;
      ProductNext(j, l.blocks);
    }
  }

  // Placing block i leaves the other blocks where they are.
  lemma OthersKeepTheirPlaces(l: Layout, data: seq<bv8>, before: seq<bv8>, after: seq<bv8>, i: int, other: int)
    requires l.Valid() && |data| == l.dataLen && |before| == |after| >= l.rawLen
    requires l.IsBlock(i) && l.IsBlock(other) && other != i
    requires forall p :: 0 <= p < l.rawLen && l.BlockAt(p) != i ==> after[p] == before[p]
    ensures DataPlaced(l, data, before, other) ==> DataPlaced(l, data, after, other)
    ensures EccPlaced(l, data, before, other) ==> EccPlaced(l, data, after, other)
  {
    forall j | 0 <= j < l.BlockLen(other) && 0 <= l.DataPlace(other, j) < l.rawLen
      ensures after[l.DataPlace(other, j)] == before[l.DataPlace(other, j)]
    {
      DataPlaceFacts(l, other, j);
    }
    forall j | 0 <= j < l.eccLen && 0 <= l.EccPlace(other, j) < l.rawLen
      ensures after[l.EccPlace(other, j)] == before[l.EccPlace(other, j)]
    {
      EccPlaceFacts(l, other, j);
    }
  }

  // The bytes after the data are the work area for one block's error correction.
  method ComputeEcc(l: Layout, i: int, data: array<bv8>, rsdiv: array<bv8>)
    requires l.Valid() && l.IsBlock(i) && l.rawLen <= data.Length
    requires rsdiv != data && rsdiv.Length == DEGREE_MAX && rsdiv[..l.eccLen] == Generator(l.eccLen)[1..]
    modifies data
    ensures data[..l.dataLen] == old(data[..l.dataLen])
    ensures data[l.dataLen..l.dataLen + l.eccLen] == Ecc(Block(l, data[..l.dataLen], i), l.eccLen)
    ensures 0 <= l.Start(i) <= l.Start(i) + l.BlockLen(i) <= l.dataLen
    ensures data[l.Start(i)..l.Start(i) + l.BlockLen(i)] == Block(l, data[..l.dataLen], i)
  {
    hide *;
    LayoutBounds(l);
    ghost var bytes := data[..l.dataLen];
    BlockFacts(l, bytes, i);
    var dat, datLen := l.Start(i), l.BlockLen(i);
    SliceOfPrefix(data[..], l.dataLen, dat, dat + datLen);
    ComputeRemainder(data, dat, datLen, rsdiv, l.eccLen, data, l.dataLen);
    assert data[..l.dataLen] == bytes;
    EccOf(Block(l, bytes, i), l.eccLen);
    SliceOfPrefix(data[..], l.dataLen, dat, dat + datLen);
  }

  lemma SliceOfPrefix(s: seq<bv8>, n: int, i: int, j: int)
    requires 0 <= i <= j <= n <= |s|
    ensures s[..n][i..j] == s[i..j]
  {}

  lemma LayoutBounds(l: Layout)
    requires l.Valid()
    ensures 0 < l.dataLen && 1 <= l.eccLen <= DEGREE_MAX && l.dataLen + l.eccLen <= l.rawLen
  {}

  lemma BlockFacts(l: Layout, data: seq<bv8>, i: int)
    requires l.Valid() && l.IsBlock(i) && |data| == l.dataLen
    ensures 0 <= l.Start(i) <= l.Start(i) + l.BlockLen(i) <= l.dataLen
    ensures Block(l, data, i) == data[l.Start(i)..l.Start(i) + l.BlockLen(i)]
  {
    StartFacts(l, i);
  }

  lemma EccOf(block: seq<bv8>, d: nat)
    requires d > 0
    ensures Ecc(block, d) == Remainder(block, Generator(d)[1..])
  {}

  method PlaceBlock(l: Layout, i: int, data: array<bv8>, rsdiv: array<bv8>, result: array<bv8>)
    requires l.Valid() && l.IsBlock(i) && l.rawLen <= result.Length && l.rawLen <= data.Length
    requires data != result && rsdiv != data && rsdiv != result
    requires rsdiv.Length == DEGREE_MAX && rsdiv[..l.eccLen] == Generator(l.eccLen)[1..]
    modifies data, result
    ensures data[..l.dataLen] == old(data[..l.dataLen])
    ensures DataPlaced(l, data[..l.dataLen], result[..], i) && EccPlaced(l, data[..l.dataLen], result[..], i)
    ensures forall p :: 0 <= p < l.rawLen && l.BlockAt(p) != i ==> result[p] == old(result[p])
  {
    hide Ecc, Block;
    ComputeEcc(l, i, data, rsdiv);
    ghost var block := Block(l, data[..l.dataLen], i);
    ghost var ecc := data[l.dataLen..l.dataLen + l.eccLen];
    CopyData(l, i, data, l.Start(i), result);
    ghost var between := result[..];
    CopyEcc(l, i, data, l.dataLen, result);
    forall j | 0 <= j < l.BlockLen(i)
      ensures 0 <= l.DataPlace(i, j) < l.rawLen && result[l.DataPlace(i, j)] == block[j]
    {
      DataPlaceFacts(l, i, j);
      assert between[l.DataPlace(i, j)] == data[l.Start(i) + j] == block[j];
    }
    forall j | 0 <= j < l.eccLen
      ensures 0 <= l.EccPlace(i, j) < l.rawLen && result[l.EccPlace(i, j)] == ecc[j]
    {
      EccPlaceFacts(l, i, j);
      assert data[l.dataLen + j] == ecc[j];
    }
  }

  method AddEccAndInterleave(data: array<bv8>, v: int, e: int, result: array<bv8>)
    requires IsVersion(v) && IsLevel(e) && data != result
    requires LayoutOf(v, e).rawLen <= data.Length && LayoutOf(v, e).rawLen <= result.Length
    modifies data, result
    ensures Interleaved(LayoutOf(v, e), old(data[..LayoutOf(v, e).dataLen]), result[..])
  {
    hide NumErrorCorrectionBlocks, EccCodewordsPerBlock, NumRawDataModules, NumDataCodewords, DataPlaced, EccPlaced,
      LayoutOf;
    var l := LayoutOf(v, e);
    ghost var bytes := data[..l.dataLen];
    var rsdiv := new bv8[DEGREE_MAX];
    ComputeDivisor(l.eccLen, rsdiv);
    assert rsdiv[..l.eccLen] == Generator(l.eccLen)[1..];
    for i := 0 to l.blocks
      invariant data[..l.dataLen] == bytes
      invariant rsdiv[..l.eccLen] == Generator(l.eccLen)[1..]
      invariant forall i' :: 0 <= i' < i ==> DataPlaced(l, bytes, result[..], i') && EccPlaced(l, bytes, result[..], i')
    {
      ghost var before := result[..];
      PlaceBlock(l, i, data, rsdiv, result);
      forall i' | 0 <= i' < i
        ensures DataPlaced(l, bytes, result[..], i') && EccPlaced(l, bytes, result[..], i')
      {
        OthersKeepTheirPlaces(l, bytes, before, result[..], i, i');
      }
    }
  }

  // ----- Reading the symbol's bytes back -----

  // The block that holds data byte t.
  function Owner(l: Layout, t: int): int
    requires l.Valid()
  {
    if t < Product(l.short, l.shortLen) then Quotient(t, l.shortLen)
    else l.short + Quotient(t - Product(l.short, l.shortLen), l.shortLen + 1)
  }

  function Deinterleave(l: Layout, raw: seq<bv8>): (data: seq<bv8>)
    requires l.Valid() && |raw| >= l.rawLen
    ensures |data| == l.dataLen
  {
    seq(l.dataLen, t requires 0 <= t < l.dataLen =>
      OwnerFacts(l, t);
      DataPlaceFacts(l, Owner(l, t), t - l.Start(Owner(l, t)));
      raw[l.DataPlace(Owner(l, t), t - l.Start(Owner(l, t)))])
  }

  lemma OwnerFacts(l: Layout, t: int)
    requires l.Valid() && 0 <= t < l.dataLen
    ensures l.IsBlock(Owner(l, t)) && l.Start(Owner(l, t)) <= t < l.Start(Owner(l, t)) + l.BlockLen(Owner(l, t))
  {
    hide Product, Quotient, Modulo;
    if t < Product(l.short, l.shortLen) {
      QuotientBelow(t, l.shortLen, l.short);
      RemainderBound(t, l.shortLen);
    } else {
      LongOwner(l.shortLen, l.short, l.blocks, t);
    }
  }

  lemma LongOwner(n: int, short: int, blocks: int, t: int)
    requires 1 <= n && Product(short, n) <= t < Product(n, blocks) + (blocks - short)
    ensures var k := Quotient(t - Product(short, n), n + 1);
      0 <= k < blocks - short && Product(short + k, n) + k <= t < Product(short + k, n) + k + n + 1
  {
    hide Product, Quotient, Modulo;
    var u, long := t - Product(short, n), blocks - short;
    ProductComm(n, blocks);
    ProductSum(short, long, n);
    ProductOfNext(long, n);
    QuotientBelow(u, n + 1, long);
    RemainderBound(u, n + 1);
    var k := Quotient(u, n + 1);
    ProductSum(short, k, n);
    ProductOfNext(k, n);
  }

  lemma ProductOfNext(k: int, n: int)
    ensures Product(k, n + 1) == Product(k, n) + k
  {}

  // De-interleaving undoes the program, and each block read back carries its own error correction.
  lemma DeinterleaveRestores(l: Layout, data: seq<bv8>, raw: seq<bv8>)
    requires l.Valid() && |data| == l.dataLen && |raw| >= l.rawLen
    requires Interleaved(l, data, raw)
    ensures Deinterleave(l, raw) == data
  {
    hide Ecc, EccPlaced;
    forall t | 0 <= t < l.dataLen
      ensures Deinterleave(l, raw)[t] == data[t]
    {
      var i := Owner(l, t);
      OwnerFacts(l, t);
      assert DataPlaced(l, data, raw, i);
      StartFacts(l, i);
      assert Block(l, data, i)[t - l.Start(i)] == data[t];
    }
  }

  // The codeword of block i as a reader collects it.
  function ReadBlock(l: Layout, raw: seq<bv8>, i: int): (c: seq<bv8>)
    requires l.Valid() && |raw| >= l.rawLen && l.IsBlock(i)
    ensures |c| == l.BlockLen(i) + l.eccLen
  {
    seq(l.BlockLen(i), j requires 0 <= j < l.BlockLen(i) => DataPlaceFacts(l, i, j); raw[l.DataPlace(i, j)])
    + seq(l.eccLen, j requires 0 <= j < l.eccLen => EccPlaceFacts(l, i, j); raw[l.EccPlace(i, j)])
  }

  lemma BlocksAreCodewords(l: Layout, data: seq<bv8>, raw: seq<bv8>, i: int)
    requires l.Valid() && |data| == l.dataLen && |raw| >= l.rawLen && l.IsBlock(i)
    requires Interleaved(l, data, raw)
    ensures ReadBlock(l, raw, i) == Block(l, data, i) + Ecc(Block(l, data, i), l.eccLen)
    ensures IsCodeword(ReadBlock(l, raw, i), l.eccLen) && |ReadBlock(l, raw, i)| <= 255
  {
    hide Ecc, IsCodeword;
    assert DataPlaced(l, data, raw, i) && EccPlaced(l, data, raw, i);
    var b := Block(l, data, i);
    assert ReadBlock(l, raw, i) == b + Ecc(b, l.eccLen);
    EccMakesCodeword(b, l.eccLen);
  }
}
