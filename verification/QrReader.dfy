/**
 Reading a finished symbol back: what it must decode to.
 */
module QrReader {
  import opened BitString
  import opened ReedSolomon
  import opened QrTables
  import opened QrBlocks
  import opened QrGrid
  import opened QrZigzag
  import opened QrFunctions
  import opened QrFormat
  import opened QrMask
  import opened QrLight

  // ----- Reading a symbol -----

  function BitIf(bit: bool, b: bv8): bv8 { if bit then b else 0 }

  function ByteOf(bits: seq<bool>): bv8
    requires |bits| == 8
  {
    BitIf(bits[0], 0x80) | BitIf(bits[1], 0x40) | BitIf(bits[2], 0x20) | BitIf(bits[3], 0x10)
    | BitIf(bits[4], 8) | BitIf(bits[5], 4) | BitIf(bits[6], 2) | BitIf(bits[7], 1)
  }

  function BytesOf(bits: seq<bool>): (bytes: seq<bv8>)
    ensures |bytes| == |bits| / 8
  {
    seq(|bits| / 8, i requires 0 <= i < |bits| / 8 => ByteOf(bits[8 * i..8 * i + 8]))
  }

  lemma ByteOfItsBits(b: bv8, bits: seq<bool>)
    requires |bits| == 8 && forall k :: 0 <= k < 8 ==> bits[k] == BitOf(b, 7 - k)
    ensures ByteOf(bits) == b
  {
    OneByte(b, bits[0], bits[1], bits[2], bits[3], bits[4], bits[5], bits[6], bits[7]);
  }

  lemma OneByte(b: bv8, b0: bool, b1: bool, b2: bool, b3: bool, b4: bool, b5: bool, b6: bool, b7: bool)
    requires b0 == BitOf(b, 7) && b1 == BitOf(b, 6) && b2 == BitOf(b, 5) && b3 == BitOf(b, 4)
    requires b4 == BitOf(b, 3) && b5 == BitOf(b, 2) && b6 == BitOf(b, 1) && b7 == BitOf(b, 0)
    ensures BitIf(b0, 0x80) | BitIf(b1, 0x40) | BitIf(b2, 0x20) | BitIf(b3, 0x10)
      | BitIf(b4, 8) | BitIf(b5, 4) | BitIf(b6, 2) | BitIf(b7, 1) == b
  {}

  lemma BytesOfBits(bytes: seq<bv8>)
    ensures BytesOf(Bits(bytes)) == bytes
  {
    hide BitOf, ByteOf;
    forall i | 0 <= i < |bytes| ensures BytesOf(Bits(bytes))[i] == bytes[i] {
      ByteOfItsBits(bytes[i], Bits(bytes)[8 * i..8 * i + 8]);
    }
  }

  // The modules of g that hold codeword bits, unmasked, in zigzag order.
  function ReadModules(g: seq<bool>, v: int, m: int): seq<bool>
    requires IsVersion(v) && |g| == Size(v) * Size(v)
  {
    SizeFacts(v);
    StepsPositive(Size(v));
    ReadZigzag(FunctionGrid(v), Masked(FunctionGrid(v), g, Size(v), m), Size(v), Steps(Size(v)))
  }

  lemma StepsPositive(n: int)
    requires IsSize(n) && n % 2 == 1
    ensures IsOddSize(n) && 0 <= Steps(n)
  {}

  // ----- The zigzag meets every light module -----

  lemma {:induction false} LightModulesMet(functions: seq<bool>, n: int, t: int)
    requires IsOddSize(n) && |functions| == n * n && 0 <= t <= Steps(n)
    ensures |(set c | 0 <= c < n * n && !functions[c] && c % n != 6 && VisitOf(n, c) < t)|
      <= |ReadZigzag(functions, functions, n, t)|
    decreases t
  {
    hide VisitOf, Visited, Steps;
    var met := set c | 0 <= c < n * n && !functions[c] && c % n != 6 && VisitOf(n, c) < t;
    if t == 0 {
      forall c | 0 <= c < n * n && c % n != 6 ensures VisitOf(n, c) >= 0 {
        EveryCellVisited(n, c);
      }
      assert met == {};
    } else {
      var before := set c | 0 <= c < n * n && !functions[c] && c % n != 6 && VisitOf(n, c) < t - 1;
      LightModulesMet(functions, n, t - 1);
      VisitedOnce(n, t - 1);
      var last := Visited(n, t - 1);
      forall c | c in met && c !in before ensures c == last {
        EveryCellVisited(n, c);
      }
      if functions[last] {
        assert met == before;
      } else {
        assert met == before + {last};
      }
    }
  }

  lemma RoomForCodewords(v: int)
    requires IsVersion(v)
    ensures IsOddSize(Size(v)) && 0 <= Steps(Size(v))
    ensures NumRawDataModules(v) <= |ReadZigzag(FunctionGrid(v), FunctionGrid(v), Size(v), Steps(Size(v)))|
  {
    hide NumRawDataModules, Steps, VisitOf, FunctionGrid, Size, IsFunction;
    SizeFacts(v);
    var n := Size(v);
    StepsPositive(n);
    var functions := FunctionGrid(v);
    LightModulesMet(functions, n, Steps(n));
    EnoughLightModules(v);
    var met := set c | 0 <= c < n * n && !functions[c] && c % n != 6 && VisitOf(n, c) < Steps(n);
    forall c | 0 <= c < n * n && !functions[c] ensures c % n != 6 && VisitOf(n, c) < Steps(n) {
      FunctionGridMeans(v, c);
      Column6IsFunction(v, c % n, c / n);
      EveryCellVisited(n, c);
    }
    assert met == LightSet(functions);
  }

  lemma Column6IsFunction(v: int, x: int, y: int)
    requires IsVersion(v) && !IsFunction(v, x, y)
    ensures x != 6
  {}

  // ----- What a reader gets -----

  // The codewords of the symbol, data and error correction, still interleaved.
  function ReadCodewords(g: seq<bool>, v: int, m: int): seq<bv8>
    requires IsVersion(v) && |g| == Size(v) * Size(v)
  {
    var modules := ReadModules(g, v, m);
    var count := 8 * (NumRawDataModules(v) / 8);
    BytesOf(if 0 <= count <= |modules| then modules[..count] else modules)
  }

  // The grid decodes, by its own format bits, to these data bits; every block of it is a
  // codeword; both copies of the format word and the dark module are there; and the other
  // function modules look as the standard says.
  ghost predicate Decodes(g: seq<bool>, v: int, e: int, m: int, data: seq<bool>)
    requires IsVersion(v) && IsLevel(e) && IsMask(m) && Size(v) >= 21
  {
    var n, l := Size(v), LayoutOf(v, e);
    && |g| == n * n
    && ReadLevel(g, n) == e && ReadMask(g, n) == m && FormatStands(g, n, FormatBits(e, m))
    && var raw := ReadCodewords(g, v, m);
    && |raw| == l.rawLen
    && Bits(Deinterleave(l, raw)) == data
    && (forall i :: 0 <= i < l.blocks ==> IsCodeword(ReadBlock(l, raw, i), l.eccLen))
    && FunctionsFinished(g, v)
  }

  // A function module that holds no format bit.
  predicate IsPlainFunction(v: int, x: int, y: int)
    requires IsVersion(v)
  {
    IsFunction(v, x, y) && FirstIndex(x, y) == -1 && SecondIndex(Size(v), x, y) == -1
  }

  ghost predicate FunctionsFinished(g: seq<bool>, v: int)
    requires IsVersion(v)
  {
    var n := Size(v);
    |g| == n * n
    && forall c :: 0 <= c < n * n && IsPlainFunction(v, c % n, c / n) ==> g[c] == FinalColor(v, c % n, c / n, true)
  }

  // ----- From drawn modules to what is read -----

  lemma FormatInsideFunctions(v: int)
    requires IsVersion(v)
    ensures Size(v) >= 21 && FormatInside(FunctionGrid(v), Size(v))
  {
    hide Size, FunctionGrid, FirstIndex, SecondIndex, IsFunction;
    SizeFacts(v);
    var n := Size(v);
    forall c | 0 <= c < n * n && (FirstIndex(c % n, c / n) != -1 || SecondIndex(n, c % n, c / n) != -1)
      ensures FunctionGrid(v)[c]
    {
      CellOfQuotient(n, c);
      FunctionGridMeans(v, c);
      FormatIsFunction(v, c % n, c / n);
    }
  }

  // What zigzag reading finds in g, given the grid of function modules.
  function ReadAll(v: int, g: seq<bool>): seq<bool>
    requires IsVersion(v) && |g| == Size(v) * Size(v)
  {
    SizeFacts(v);
    StepsPositive(Size(v));
    ReadZigzag(FunctionGrid(v), g, Size(v), Steps(Size(v)))
  }

  // Unmasking the finished grid gives back what was drawn outside the function modules.
  lemma UnmaskedModules(v: int, e: int, m: int, drawn: seq<bool>, lit: seq<bool>, g: seq<bool>)
    requires IsVersion(v) && IsLevel(e) && IsMask(m) && Size(v) >= 21
    requires |drawn| == Size(v) * Size(v) && Finished(v, drawn, lit)
    requires g == Trial(FunctionGrid(v), lit, Size(v), e, m)
    ensures |g| == Size(v) * Size(v) && ReadModules(g, v, m) == ReadAll(v, drawn)
  {
    hide Size, FunctionGrid, IsFunction, FinalColor, Trial, Steps, VisitOf, FormatBits, IsOddSize;
    var n, functions := Size(v), FunctionGrid(v);
    RoomForCodewords(v);
    FormatInsideFunctions(v);
    TrialUndone(functions, lit, n, e, m);
    FormatOnlyOnFunctions(functions, lit, n, FormatBits(e, m));
    var unmasked := Masked(functions, g, n, m);
    forall c | 0 <= c < n * n && !functions[c] ensures unmasked[c] == drawn[c] {
      CellOfQuotient(n, c);
      FunctionGridMeans(v, c);
      FinishedOutsideFunctions(v, c % n, c / n, drawn[c]);
    }
    ReadFrame(functions, unmasked, drawn, n, Steps(n));
  }

  lemma FunctionsInTrial(v: int, e: int, m: int, drawn: seq<bool>, lit: seq<bool>, g: seq<bool>)
    requires IsVersion(v) && IsLevel(e) && IsMask(m) && Size(v) >= 21
    requires |drawn| == Size(v) * Size(v) && Finished(v, drawn, lit)
    requires forall c :: 0 <= c < |drawn| && FunctionGrid(v)[c] ==> drawn[c]
    requires g == Trial(FunctionGrid(v), lit, Size(v), e, m)
    ensures FunctionsFinished(g, v)
  {
    hide Size, FunctionGrid, IsFunction, FinalColor, FormatBits, FirstIndex, SecondIndex, Inverts, FormatBit;
    var n := Size(v);
    forall c | 0 <= c < n * n && IsFunction(v, c % n, c / n) ensures FunctionGrid(v)[c] {
      FunctionGridMeans(v, c);
    }
  }

  lemma ReadDrawn(v: int, raw: seq<bv8>, drawn: seq<bool>)
    requires IsVersion(v) && IsOddSize(Size(v)) && 0 <= Steps(Size(v))
    requires Drawn(Size(v), FunctionGrid(v), drawn, Bits(raw), Steps(Size(v)), 8 * |raw|)
    ensures |drawn| == Size(v) * Size(v)
    ensures 8 * |raw| <= |ReadAll(v, drawn)| && ReadAll(v, drawn)[..8 * |raw|] == Bits(raw)
    ensures forall c :: 0 <= c < |drawn| && FunctionGrid(v)[c] ==> drawn[c]
  {
    hide Bits, FunctionGrid, Size, VisitOf, ReadZigzag, Steps;
    assert Bits(raw)[..8 * |raw|] == Bits(raw);
  }

  lemma RawIs(g: seq<bool>, v: int, m: int, modules: seq<bool>, raw: seq<bv8>)
    requires IsVersion(v) && |g| == Size(v) * Size(v) && modules == ReadModules(g, v, m)
    requires |raw| == NumRawDataModules(v) / 8 && 8 * |raw| <= |modules| && modules[..8 * |raw|] == Bits(raw)
    ensures ReadCodewords(g, v, m) == raw
  {
    hide ReadModules, Bits, BytesOf, NumRawDataModules;
    BytesOfBits(raw);
  }

  lemma LayoutSizes(v: int, e: int)
    requires IsVersion(v) && IsLevel(e)
    ensures LayoutOf(v, e).Valid() && LayoutOf(v, e).rawLen == NumRawDataModules(v) / 8
    ensures LayoutOf(v, e).dataLen == NumDataCodewords(v, e) > 0
    ensures forall i :: 0 <= i < LayoutOf(v, e).blocks ==> LayoutOf(v, e).IsBlock(i)
  {}

  lemma BlocksRead(l: Layout, data: seq<bv8>, raw: seq<bv8>)
    requires l.Valid() && |data| == l.dataLen && |raw| >= l.rawLen && Interleaved(l, data, raw)
    ensures forall i :: 0 <= i < l.blocks ==> l.IsBlock(i) && IsCodeword(ReadBlock(l, raw, i), l.eccLen)
  {
    hide Interleaved, IsCodeword, ReadBlock;
    forall i | 0 <= i < l.blocks ensures l.IsBlock(i) && IsCodeword(ReadBlock(l, raw, i), l.eccLen) {
      BlocksAreCodewords(l, data, raw, i);
    }
  }

  lemma DecodesDrawn(v: int, e: int, m: int, data: seq<bv8>, raw: seq<bv8>, drawn: seq<bool>, lit: seq<bool>,
      g: seq<bool>)
    requires IsVersion(v) && IsLevel(e) && IsMask(m) && Size(v) >= 21 && IsOddSize(Size(v))
    requires |data| == LayoutOf(v, e).dataLen && |raw| == LayoutOf(v, e).rawLen
      && Interleaved(LayoutOf(v, e), data, raw)
    requires 0 <= Steps(Size(v)) && Drawn(Size(v), FunctionGrid(v), drawn, Bits(raw), Steps(Size(v)), 8 * |raw|)
    requires Finished(v, drawn, lit) && |lit| == Size(v) * Size(v) && g == Trial(FunctionGrid(v), lit, Size(v), e, m)
    ensures Decodes(g, v, e, m, Bits(data))
  {
    hide *;
    var l, n := LayoutOf(v, e), Size(v);
    LayoutSizes(v, e);
    ReadDrawn(v, raw, drawn);
    UnmaskedModules(v, e, m, drawn, lit, g);
    RawIs(g, v, m, ReadAll(v, drawn), raw);
    DeinterleaveRestores(l, data, raw);
    BlocksRead(l, data, raw);
    TrialIs(FunctionGrid(v), lit, n, e, m);
    FormatReadBack(Masked(FunctionGrid(v), lit, n, m), n, e, m);
    BothCopiesDrawn(Masked(FunctionGrid(v), lit, n, m), n, FormatBits(e, m));
    FunctionsInTrial(v, e, m, drawn, lit, g);
    DecodesIs(g, v, e, m, data, raw);
  }

  lemma DecodesIs(g: seq<bool>, v: int, e: int, m: int, data: seq<bv8>, raw: seq<bv8>)
    requires IsVersion(v) && IsLevel(e) && IsMask(m) && Size(v) >= 21 && |g| == Size(v) * Size(v)
    requires ReadLevel(g, Size(v)) == e && ReadMask(g, Size(v)) == m && ReadCodewords(g, v, m) == raw
    requires |raw| == LayoutOf(v, e).rawLen && Deinterleave(LayoutOf(v, e), raw) == data
    requires forall i :: 0 <= i < LayoutOf(v, e).blocks ==>
      LayoutOf(v, e).IsBlock(i) && IsCodeword(ReadBlock(LayoutOf(v, e), raw, i), LayoutOf(v, e).eccLen)
    requires FunctionsFinished(g, v) && FormatStands(g, Size(v), FormatBits(e, m))
    ensures Decodes(g, v, e, m, Bits(data))
  {
    hide Bits, ReadCodewords, Deinterleave, IsCodeword, ReadBlock, LayoutOf, FunctionsFinished, ReadLevel, ReadMask,
      Size, FormatStands, FormatBits;
  }
}
