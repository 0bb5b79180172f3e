/**
 The whole encoder: choice of version and level, data, error correction, drawing, mask.
 */
module QrEncode {
  import opened Arithmetic
  import opened BitString
  import opened ReedSolomon
  import opened QrTables
  import opened QrBlocks
  import opened QrGrid
  import opened QrZigzag
  import opened QrFunctions
  import opened QrFormat
  import opened QrMask
  import opened QrLight
  import opened QrSegments
  import opened QrReader

  // ----- Version and level -----

  function CapacityBits(v: int, e: int): int { 8 * NumDataCodewords(v, e) }

  predicate FitsIn(segs: seq<Segment>, v: int, e: int)
    requires IsVersion(v)
  {
    Encodable(segs, v, CapacityBits(v, e))
  }

  lemma CapacityFacts(v: int, e: int)
    requires IsVersion(v) && IsLevel(e)
    ensures 0 < CapacityBits(v, e) <= INT16_MAX && CapacityBits(v, e) % 8 == 0
    ensures LayoutOf(v, e).rawLen == NumRawDataModules(v) / 8 && LayoutOf(v, e).dataLen == NumDataCodewords(v, e)
    ensures 0 < NumDataCodewords(v, e) <= LayoutOf(v, e).rawLen <= BufferLen(v)
  {
    hide LayoutOf, Layout.Valid, NumRawDataModules, NumDataCodewords, BufferLen;
    LayoutSizes(v, e);
    LayoutFitsRaw(LayoutOf(v, e));
    RawBound(v);
  }

  lemma LayoutFitsRaw(l: Layout)
    requires l.Valid()
    ensures 0 < l.dataLen <= l.rawLen
  {}

  lemma RawBound(v: int)
    requires IsVersion(v)
    ensures NumRawDataModules(v) <= INT16_MAX && NumRawDataModules(v) / 8 <= BufferLen(v)
  {
    hide NumRawDataModules;
    RawModules(v);
    assert Size(v) * Size(v) <= 177 * 177 by {
      MulMono(Size(v), 177, Size(v));
    }
  }

  lemma BufferGrows(v: int, w: int)
    requires IsVersion(v) && IsVersion(w) && v <= w
    ensures 0 < BufferLen(v) <= BufferLen(w)
  {
    assert Size(v) * Size(v) <= Size(w) * Size(w) by {
      MulMono(Size(v), Size(w), Size(v));
      MulMono(Size(v), Size(w), Size(w));
    }
  }

  // The version the program picks: the first of lo..hi that has room.
  ghost predicate IsFirstVersion(segs: seq<Segment>, e: int, lo: int, hi: int, v: int) {
    && IsVersion(lo) && lo <= v <= hi <= 40 && FitsIn(segs, v, e)
    && forall u :: lo <= u < v ==> !FitsIn(segs, u, e)
  }

  lemma FitsWithinLimit(segs: seq<Segment>, v: int, e: int)
    requires IsVersion(v) && IsLevel(e)
    ensures FitsIn(segs, v, e) <==> Encodable(segs, v, INT16_MAX) && TotalLength(segs, v) <= CapacityBits(v, e)
  {
    hide CapacityBits, TotalLength, Countable;
    CapacityFacts(v, e);
  }

  method ChooseVersion(segs: seq<Segment>, e: int, minVersion: int, maxVersion: int)
    returns (ok: bool, version: int, used: int)
    requires IsLevel(e) && 1 <= minVersion <= maxVersion <= 40 && forall seg :: seg in segs ==> seg.Valid()
    ensures ok ==> IsFirstVersion(segs, e, minVersion, maxVersion, version) && used == TotalLength(segs, version)
    ensures !ok ==> forall u :: minVersion <= u <= maxVersion ==> !FitsIn(segs, u, e)
  {
    hide NumDataCodewords, TotalLength, Countable, Encodable, FitsIn;
    version := minVersion;
    while true
      invariant minVersion <= version <= maxVersion
      invariant forall u :: minVersion <= u < version ==> !FitsIn(segs, u, e)
      decreases maxVersion - version
    {
      FitsWithinLimit(segs, version, e);
      PrefixLength(segs, version, 0);
      var capacity := NumDataCodewords(version, e) * 8;
      used := GetTotalBits(segs, version);
      if used != LENGTH_OVERFLOW && used <= capacity {
        return true, version, used;
      }
      if version >= maxVersion {
        return false, version, used;
      }
      version := version + 1;
    }
  }

  // The level in use after boosting: the highest that has room.
  ghost predicate IsBoosted(segs: seq<Segment>, v: int, e: int, boosted: int)
    requires IsVersion(v)
  {
    IsLevel(boosted) && e <= boosted && FitsIn(segs, v, boosted) && forall i :: boosted < i <= 3 ==> !FitsIn(segs, v, i)
  }

  method BoostLevel(segs: seq<Segment>, v: int, e: int, used: int) returns (level: int)
    requires IsVersion(v) && IsLevel(e) && FitsIn(segs, v, e) && used == TotalLength(segs, v)
    ensures IsBoosted(segs, v, e, level)
  {
    hide NumDataCodewords, TotalLength, Countable;
    level := e;
    for i := 1 to 4
      invariant FitsIn(segs, v, level) && IsLevel(level)
      invariant level == e || 1 <= level < i
      invariant forall k :: 1 <= k < i && level < k ==> !FitsIn(segs, v, k)
    {
      if used <= NumDataCodewords(v, i) * 8 {
        level := i;
      }
    }
  }

  // ----- Data -----

  lemma NothingHeld(buffer: seq<bv8>, len: nat)
    requires len <= |buffer| && forall k :: 0 <= k < len ==> buffer[k] == 0
    ensures Holds(buffer, len, [])
  {
    hide BitOf;
    forall k | 0 <= k < 8 * len ensures !BitOf(buffer[k / 8], 7 - k % 8) {
      ZeroBit(7 - k % 8);
    }
  }

  lemma FullBuffer(buffer: seq<bv8>, len: nat, s: seq<bool>)
    requires Holds(buffer, len, s) && |s| == 8 * len
    ensures Bits(buffer[..len]) == s
  {
    hide BitOf;
  }

  // Clears the buffer and writes message, terminator and padding.
  method WriteData(segs: seq<Segment>, v: int, e: int, qr: array<bv8>)
    requires IsVersion(v) && IsLevel(e) && FitsIn(segs, v, e) && qr.Length >= BufferLen(v)
    requires forall seg :: seg in segs ==> seg.Valid() && seg.data != qr
    modifies qr
    ensures 0 <= NumDataCodewords(v, e) <= qr.Length && |MessageBits(segs, v)| <= CapacityBits(v, e)
      && CapacityBits(v, e) % 8 == 0
    ensures Bits(qr[..NumDataCodewords(v, e)]) == DataBits(MessageBits(segs, v), CapacityBits(v, e))
  {
    hide NumDataCodewords, BufferLen, Holds, DataBits, MessageBits, LayoutOf, Bits, Countable;
    CapacityFacts(v, e);
    for k := 0 to BufferLen(v)
      invariant forall i :: 0 <= i < k ==> qr[i] == 0
    {
      qr[k] := 0;
    }
    ghost var len := NumDataCodewords(v, e);
    NothingHeld(qr[..], len);
    assert qr !in DataArrays(segs);
    var used := AppendMessage(segs, v, qr, len);
    ghost var message := MessageBits(segs, v);
    AppendPadding(qr, used, NumDataCodewords(v, e) * 8, len, message);
    FullBuffer(qr[..], len, DataBits(message, CapacityBits(v, e)));
    assert qr[..][..len] == qr[..len];
  }

  // ----- Drawing -----

  lemma InterleavedPrefix(l: Layout, data: seq<bv8>, result: seq<bv8>)
    requires l.Valid() && |data| == l.dataLen && |result| >= l.rawLen && Interleaved(l, data, result)
    ensures Interleaved(l, data, result[..l.rawLen])
  {
    hide DataPlaced, EccPlaced;
    forall i | 0 <= i < l.blocks
      ensures DataPlaced(l, data, result[..l.rawLen], i) && EccPlaced(l, data, result[..l.rawLen], i)
    {
      DataPrefix(l, data, result, i);
      EccPrefix(l, data, result, i);
    }
  }

  lemma DataPrefix(l: Layout, data: seq<bv8>, result: seq<bv8>, i: int)
    requires l.Valid() && |data| == l.dataLen && |result| >= l.rawLen && l.IsBlock(i) && DataPlaced(l, data, result, i)
    ensures DataPlaced(l, data, result[..l.rawLen], i)
  {}

  lemma EccPrefix(l: Layout, data: seq<bv8>, result: seq<bv8>, i: int)
    requires l.Valid() && |data| == l.dataLen && |result| >= l.rawLen && l.IsBlock(i) && EccPlaced(l, data, result, i)
    ensures EccPlaced(l, data, result[..l.rawLen], i)
  {
    hide Ecc, Block;
  }

  // Error correction and codeword placement; drawn is the grid before light function modules.
  method DrawData(v: int, e: int, temp: array<bv8>, qr: array<bv8>) returns (ghost raw: seq<bv8>)
    requires IsVersion(v) && IsLevel(e) && temp != qr && temp.Length >= BufferLen(v) && qr.Length >= BufferLen(v)
    modifies temp, qr
    ensures IsGrid(qr[..], Size(v)) && IsOddSize(Size(v)) && 0 <= Steps(Size(v))
    ensures |raw| == LayoutOf(v, e).rawLen && 0 <= LayoutOf(v, e).dataLen <= qr.Length
    ensures Interleaved(LayoutOf(v, e), old(qr[..LayoutOf(v, e).dataLen]), raw)
    ensures Drawn(Size(v), FunctionGrid(v), Cells(qr[..], Size(v)), Bits(raw), Steps(Size(v)), 8 * |raw|)
  {
    hide *;
    CapacityFacts(v, e);
    LayoutSizes(v, e);
    RoomForCodewords(v);
    ghost var l := LayoutOf(v, e);
    ghost var data := qr[..l.dataLen];
    AddEccAndInterleave(qr, v, e, temp);
    raw := temp[..l.rawLen];
    InterleavedPrefix(l, data, temp[..]);
    InitializeFunctionModules(v, qr);
    DrawCodewords(temp, NumRawDataModules(v) / 8, qr, Size(v));
    DrawingIsDrawn(Size(v), FunctionGrid(v), qr[..], Bits(raw), Steps(Size(v)), 8 * |raw|);
  }

  lemma DrawingIsDrawn(n: int, before: seq<bool>, qr: seq<bv8>, bits: seq<bool>, t: int, i: int)
    requires Drawing(n, before, qr, bits, t, i)
    ensures IsOddSize(n) && |before| == n * n && 0 <= t <= Steps(n) && IsGrid(qr, n)
      && Drawn(n, before, Cells(qr, n), bits, t, i)
  {}

  // What the symbol in qr is, apart from the data it decodes to: for an automatic choice, its
  // mask is the first of least penalty.
  ghost predicate MaskChosen(g: seq<bool>, v: int, e: int, m: int, mask: int, penalty: seq<bool> -> int)
    requires IsVersion(v) && IsLevel(e) && IsMask(m) && |g| == Size(v) * Size(v)
  {
    SizeFacts(v);
    if mask == -1 then Smallest(FunctionGrid(v), Masked(FunctionGrid(v), g, Size(v), m), Size(v), e, penalty, m, 8)
    else m == mask
  }

  // Unmasking the finished symbol gives back what all trials started from.
  lemma SmallestOfFinished(v: int, e: int, m: int, lit: seq<bool>, g: seq<bool>, penalty: seq<bool> -> int)
    requires IsVersion(v) && IsLevel(e) && IsMask(m) && Size(v) >= 21 && |lit| == Size(v) * Size(v)
    requires FormatInside(FunctionGrid(v), Size(v)) && g == Trial(FunctionGrid(v), lit, Size(v), e, m)
    requires Smallest(FunctionGrid(v), lit, Size(v), e, penalty, m, 8)
    ensures MaskChosen(g, v, e, m, -1, penalty)
  {
    hide FunctionGrid, Size, Masked, Trial, FormatInside, UpToFormat, FormatBits;
    var n, functions := Size(v), FunctionGrid(v);
    TrialUndone(functions, lit, n, e, m);
    FormatIsUpToFormat(lit, n, FormatBits(e, m));
    var unmasked := Masked(functions, g, n, m);
    forall i | 0 <= i < 8 ensures Trial(functions, unmasked, n, e, i) == Trial(functions, lit, n, e, i) {
      TrialIgnoresFormat(functions, lit, unmasked, n, e, i);
    }
  }

  lemma GivenMask(g: seq<bool>, v: int, e: int, m: int, penalty: seq<bool> -> int)
    requires IsVersion(v) && IsLevel(e) && IsMask(m) && |g| == Size(v) * Size(v)
    ensures MaskChosen(g, v, e, m, m, penalty)
  {}

  method DrawSymbol(v: int, e: int, mask: int, temp: array<bv8>, qr: array<bv8>, penalty: seq<bool> -> int)
    returns (m: int)
    requires IsVersion(v) && IsLevel(e) && -1 <= mask <= 7
    requires temp != qr && temp.Length >= BufferLen(v) && qr.Length >= BufferLen(v)
    requires forall h: seq<bool> :: penalty(h) < LONG_MAX
    modifies temp, qr
    ensures IsMask(m) && IsGrid(qr[..], Size(v)) && Size(v) >= 21
    ensures 0 <= NumDataCodewords(v, e) <= qr.Length
    ensures Decodes(Cells(qr[..], Size(v)), v, e, m, Bits(old(qr[..NumDataCodewords(v, e)])))
    ensures MaskChosen(Cells(qr[..], Size(v)), v, e, m, mask, penalty)
  {
    hide *;
    CapacityFacts(v, e);
    LayoutSizes(v, e);
    FormatInsideFunctions(v);
    ghost var n, functions := Size(v), FunctionGrid(v);
    ghost var data := qr[..NumDataCodewords(v, e)];
    ghost var raw := DrawData(v, e, temp, qr);
    ghost var drawn := Cells(qr[..], n);
    DrawLightFunctionModules(qr, v);
    ghost var lit := Cells(qr[..], n);
    InitializeFunctionModules(v, temp);
    m := MaskAndFormat(temp, qr, e, mask, n, penalty);
    ghost var g := Cells(qr[..], n);
    DecodesDrawn(v, e, m, data, raw, drawn, lit, g);
    if mask == -1 {
      SmallestOfFinished(v, e, m, lit, g, penalty);
    } else {
      GivenMask(g, v, e, m, penalty);
    }
  }

  // ----- The public encoder -----

  // On success: the smallest version, the highest level if asked for, and a symbol that reads
  // back as message, terminator and padding. On failure: no version has room, and the symbol
  // is marked invalid. The segments may lie in the work buffer.
  method EncodeSegmentsAdvanced(segs: seq<Segment>, ecl: int, minVersion: int, maxVersion: int, mask: int,
      boostEcl: bool,
      temp: array<bv8>, qr: array<bv8>, penalty: seq<bool> -> int) returns (ok: bool, v: int, e: int, m: int)
    requires IsLevel(ecl) && 1 <= minVersion <= maxVersion <= 40 && -1 <= mask <= 7
    requires temp != qr && temp.Length >= BufferLen(maxVersion) && qr.Length >= BufferLen(maxVersion) > 0
    requires forall seg :: seg in segs ==> seg.Valid() && seg.data != qr
    requires forall h: seq<bool> :: penalty(h) < LONG_MAX
    modifies temp, qr
    ensures ok <==> exists u :: minVersion <= u <= maxVersion && FitsIn(segs, u, ecl)
    ensures !ok ==> qr[0] == 0
    ensures ok ==> IsFirstVersion(segs, ecl, minVersion, maxVersion, v)
    ensures ok ==> if boostEcl then IsBoosted(segs, v, ecl, e) else e == ecl
    ensures ok ==> IsMask(m) && IsGrid(qr[..], Size(v)) && Size(v) >= 21
    ensures ok ==>
      |old(MessageBits(segs, v))| <= CapacityBits(v, e) && CapacityBits(v, e) % 8 == 0 <= CapacityBits(v, e)
    ensures ok ==> Decodes(Cells(qr[..], Size(v)), v, e, m, DataBits(old(MessageBits(segs, v)), CapacityBits(v, e)))
    ensures ok ==> MaskChosen(Cells(qr[..], Size(v)), v, e, m, mask, penalty)
  {
    hide FitsIn, NumDataCodewords, BufferLen, DataBits, MessageBits, Decodes, MaskChosen, Smallest, CapacityBits,
      TotalLength, Size, Cells, IsGrid, Bits;
    var used;
    e, m := ecl, mask;
    ok, v, used := ChooseVersion(segs, ecl, minVersion, maxVersion);
    if !ok {
      qr[0] := 0;
      return;
    }
    BufferGrows(v, maxVersion);
    if boostEcl {
      e := BoostLevel(segs, v, ecl, used);
    }
    CapacityFacts(v, e);
    ghost var message := MessageBits(segs, v);
    assert qr !in DataArrays(segs);
    WriteData(segs, v, e, qr);
    assert MessageBits(segs, v) == message;
    m := DrawSymbol(v, e, mask, temp, qr, penalty);
  }

  // ----- Bytes, there and back -----

  // What a reader makes of the data bits of a symbol that holds one byte segment.
  function ReadByteSegment(v: int, bits: seq<bool>): (bytes: seq<bv8>)
    requires IsVersion(v)
  {
    var start := 4 + NumCharCountBits(Byte, v);
    if |bits| < start || FromBits(bits[..4]) != Byte.Indicator() then []
    else
      var count := FromBits(bits[4..start]);
      if |bits| < start + 8 * count then [] else BytesOf(bits[start..start + 8 * count])
  }

  // The bits of a byte segment that holds the first n of these bytes.
  function ByteMessage(bytes: seq<bv8>, n: nat, v: int): (bits: seq<bool>)
    requires IsVersion(v) && n <= |bytes|
  {
    ToBits(Byte.Indicator(), 4) + ToBits(n, NumCharCountBits(Byte, v)) + Bits(bytes)[..8 * n]
  }

  lemma ByteMessageReadBack(bytes: seq<bv8>, n: nat, v: int, bits: seq<bool>)
    requires IsVersion(v) && n <= |bytes| && n < TwoTo(NumCharCountBits(Byte, v)) && ByteMessage(bytes, n, v) <= bits
    ensures ReadByteSegment(v, bits) == bytes[..n]
  {
    hide BytesOf, Bits, ToBits, FromBits, NumCharCountBits, TwoTo;
    SmallPowers();
    var count := NumCharCountBits(Byte, v);
    var start := 4 + count;
    FromToBits(Byte.Indicator(), 4);
    FromToBits(n, count);
    var s := ByteMessage(bytes, n, v);
    assert bits[..4] == s[..4] == ToBits(Byte.Indicator(), 4);
    assert bits[4..start] == s[4..start] == ToBits(n, count);
    assert bits[start..start + 8 * n] == s[start..] == Bits(bytes)[..8 * n];
    BitsPrefix(bytes, n);
    BytesOfBits(bytes[..n]);
  }

  lemma BitsPrefix(bytes: seq<bv8>, k: nat)
    requires k <= |bytes|
    ensures Bits(bytes)[..8 * k] == Bits(bytes[..k])
  {
    hide BitOf;
  }

  // The number of bits of a byte segment, or LENGTH_OVERFLOW.
  function ByteSegmentLength(numChars: nat): int {
    if numChars > INT16_MAX || numChars * 8 > INT16_MAX then LENGTH_OVERFLOW else numChars * 8
  }

  // The symbol decodes, and its data is one byte segment with these bytes.
  ghost predicate DecodesToBytes(g: seq<bool>, v: int, e: int, m: int, bytes: seq<bv8>)
    requires IsVersion(v) && IsLevel(e) && IsMask(m) && Size(v) >= 21
  {
    exists bits :: Decodes(g, v, e, m, bits) && ReadByteSegment(v, bits) == bytes
  }

  predicate BytesFit(n: nat, v: int, e: int)
    requires IsVersion(v)
  {
    n < TwoTo(NumCharCountBits(Byte, v)) && 4 + NumCharCountBits(Byte, v) + 8 * n <= CapacityBits(v, e)
  }

  lemma OneByteSegment(seg: Segment, v: int, e: int)
    requires IsVersion(v) && IsLevel(e) && seg.Valid() && seg.mode == Byte && seg.bitLength == 8 * seg.numChars
    ensures FitsIn([seg], v, e) <==> BytesFit(seg.numChars, v, e)
    ensures seg.numChars <= seg.data.Length
    ensures MessageBits([seg], v) == ByteMessage(seg.data[..], seg.numChars, v)
  {
    hide NumCharCountBits, CapacityBits, TwoTo, ToBits, Bits;
    assert [seg][..0] == [] && seg in [seg];
    assert TotalLength([seg], v) == SegmentLength(seg, v);
    assert MessageBits([seg], v) == [] + SegmentBits(seg, v) == SegmentBits(seg, v);
  }

  lemma TooManyBytes(n: nat, v: int, e: int)
    requires IsVersion(v) && IsLevel(e) && ByteSegmentLength(n) == LENGTH_OVERFLOW
    ensures !BytesFit(n, v, e)
  {
    hide CapacityBits;
    CapacityFacts(v, e);
  }

  lemma ByteSegmentIsValid(seg: Segment)
    requires 0 <= seg.numChars <= seg.data.Length && seg.bitLength == ByteSegmentLength(seg.numChars) != LENGTH_OVERFLOW
    ensures seg.Valid() && seg.bitLength == 8 * seg.numChars
  {}

  lemma VersionInRange(u: int)
    requires 1 <= u <= 40
    ensures IsVersion(u)
  {}

  lemma FirstVersionFits(segs: seq<Segment>, e: int, lo: int, hi: int, v: int)
    requires IsFirstVersion(segs, e, lo, hi, v)
    ensures lo <= v <= hi && IsVersion(v) && FitsIn(segs, v, e)
  {}

  lemma BoostedLevel(segs: seq<Segment>, v: int, e: int, level: int, boost: bool)
    requires IsVersion(v) && IsLevel(e) && FitsIn(segs, v, e)
    requires if boost then IsBoosted(segs, v, e, level) else level == e
    ensures IsLevel(level) && e <= level && FitsIn(segs, v, level)
  {}

  lemma BytesDecoded(g: seq<bool>, v: int, e: int, m: int, bytes: seq<bv8>, n: nat)
    requires IsVersion(v) && IsLevel(e) && IsMask(m) && Size(v) >= 21 && n <= |bytes| && BytesFit(n, v, e)
    requires |ByteMessage(bytes, n, v)| <= CapacityBits(v, e) && CapacityBits(v, e) % 8 == 0 <= CapacityBits(v, e)
    requires Decodes(g, v, e, m, DataBits(ByteMessage(bytes, n, v), CapacityBits(v, e)))
    ensures DecodesToBytes(g, v, e, m, bytes[..n])
  {
    hide Decodes, DataBits, ByteMessage, CapacityBits, NumCharCountBits, TwoTo, Size;
    MessageComesFirst(ByteMessage(bytes, n, v), CapacityBits(v, e));
    ByteMessageReadBack(bytes, n, v, DataBits(ByteMessage(bytes, n, v), CapacityBits(v, e)));
  }

  // For a byte string a reader of the symbol gets the same bytes back.
  method EncodeBinary(dataAndTemp: array<bv8>, dataLen: nat, qr: array<bv8>, ecl: int, minVersion: int, maxVersion: int,
      mask: int, boostEcl: bool, penalty: seq<bool> -> int) returns (ok: bool, v: int, e: int, m: int)
    requires IsLevel(ecl) && 1 <= minVersion <= maxVersion <= 40 && -1 <= mask <= 7 && dataLen <= dataAndTemp.Length
    requires dataAndTemp != qr && dataAndTemp.Length >= BufferLen(maxVersion) && qr.Length >= BufferLen(maxVersion) > 0
    requires forall h: seq<bool> :: penalty(h) < LONG_MAX
    modifies dataAndTemp, qr
    ensures ok <==> exists u :: minVersion <= u <= maxVersion && BytesFit(dataLen, u, ecl)
    ensures !ok ==> qr[0] == 0
    ensures ok ==> IsVersion(v) && IsLevel(e) && e >= ecl && IsMask(m) && IsGrid(qr[..], Size(v)) && Size(v) >= 21
    ensures ok ==> DecodesToBytes(Cells(qr[..], Size(v)), v, e, m, old(dataAndTemp[..dataLen]))
  {
    hide *;
    ghost var bytes := dataAndTemp[..];
    var bitLength := ByteSegmentLength(dataLen);
    if bitLength == LENGTH_OVERFLOW {
      forall u | minVersion <= u <= maxVersion ensures IsVersion(u) && !BytesFit(dataLen, u, ecl) {
        VersionInRange(u);
        TooManyBytes(dataLen, u, ecl);
      }
      qr[0] := 0;
      return false, 0, 0, 0;
    }
    var seg := Segment(Byte, dataLen, dataAndTemp, bitLength);
    ByteSegmentIsValid(seg);
    forall u | minVersion <= u <= maxVersion
      ensures IsVersion(u) && (FitsIn([seg], u, ecl) <==> BytesFit(dataLen, u, ecl))
      ensures MessageBits([seg], u) == ByteMessage(bytes, dataLen, u)
    {
      VersionInRange(u);
      OneByteSegment(seg, u, ecl);
    }
    ok, v, e, m := EncodeSegmentsAdvanced([seg], ecl, minVersion, maxVersion, mask, boostEcl, dataAndTemp, qr, penalty);
    if ok {
      FirstVersionFits([seg], ecl, minVersion, maxVersion, v);
      BoostedLevel([seg], v, ecl, e, boostEcl);
      OneByteSegment(seg, v, e);
      BytesDecoded(Cells(qr[..], Size(v)), v, e, m, bytes, dataLen);
    }
  }
}
