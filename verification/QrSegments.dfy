/**
 Segments and the bit string of a symbol's data: ISO/IEC 18004 sections 7.4 and 7.4.9-7.4.10.
 */
module QrSegments {
  import opened Arithmetic
  import opened BitString
  import opened QrTables

  const LENGTH_OVERFLOW := -1
  const INT16_MAX := 32767

  datatype Mode = Numeric | Alphanumeric | Byte | Kanji | Eci {
    function Indicator(): nat {
      match this
      case Numeric => 1
      case Alphanumeric => 2
      case Byte => 4
      case Kanji => 8
      case Eci => 7
    }
  }

  // The data array may be the caller's work buffer.
  datatype Segment = Segment(mode: Mode, numChars: int, data: array<bv8>, bitLength: int) {
    predicate Valid()
    {
      0 <= numChars <= INT16_MAX && 0 <= bitLength <= INT16_MAX && bitLength <= 8 * data.Length
    }
  }

  // ----- Numbers as bits -----

  // The n low bits of val, highest first.
  function ToBits(val: nat, n: nat): (bits: seq<bool>)
    ensures |bits| == n
  {
    if n == 0 then [] else ToBits(val / 2, n - 1) + [val % 2 == 1]
  }

  function FromBits(bits: seq<bool>): nat {
    if bits == [] then 0 else 2 * FromBits(bits[..|bits| - 1]) + (if bits[|bits| - 1] then 1 else 0)
  }

  lemma {:induction false} FromToBits(val: nat, n: nat)
    requires val < TwoTo(n)
    ensures FromBits(ToBits(val, n)) == val
  {
    if n > 0 {
      FromToBits(val / 2, n - 1);
      assert ToBits(val, n)[..n - 1] == ToBits(val / 2, n - 1);
    }
  }

  // ----- A buffer that holds a bit string, zeros after it -----

  ghost predicate Holds(buffer: seq<bv8>, len: nat, s: seq<bool>) {
    len <= |buffer| && |s| <= 8 * len && forall k :: 0 <= k < 8 * len ==>
      BitOf(buffer[k / 8], 7 - k % 8) == (k < |s| && s[k])
  }

  function OrBit(b: bv8, i: nat, bit: bool): bv8
    requires i < 8
  {
    b | (if bit then 1 << i else 0)
  }

  lemma OrBitFacts(b: bv8, i: nat, j: nat, bit: bool)
    requires i < 8 && j < 8
    ensures BitOf(OrBit(b, i, bit), j) == ((i == j && bit) || BitOf(b, j))
  {
    if bit {
      if i == j {
      } else {
      }
    }
  }

  method AppendBit(bit: bool, buffer: array<bv8>, bitLen: int, ghost len: nat, ghost s: seq<bool>)
    requires Holds(buffer[..], len, s) && bitLen == |s| < 8 * len
    modifies buffer
    ensures Holds(buffer[..], len, s + [bit])
    ensures forall k :: len <= k < buffer.Length ==> buffer[k] == old(buffer[k])
  {
    hide OrBit, BitOf;
    var place := 7 - bitLen % 8;
    ghost var before := buffer[..];
    buffer[bitLen / 8] := OrBit(buffer[bitLen / 8], place, bit);
    forall k | 0 <= k < 8 * len
      ensures BitOf(buffer[k / 8], 7 - k % 8) == (k < |s| + 1 && (s + [bit])[k])
    {
      if k / 8 == bitLen / 8 {
        OrBitFacts(before[bitLen / 8], place, 7 - k % 8, bit);
      }
    }
  }

  // val without its low k bits.
  function Shifted(val: nat, k: nat): nat {
    if k == 0 then val else Shifted(val, k - 1) / 2
  }

  lemma {:induction false} ShiftedFacts(val: nat, k: nat)
    ensures Shifted(val, k) / 2 == Shifted(val, k + 1)
    ensures TwoTo(k) > 0 && Shifted(val, k) == val / TwoTo(k) && Shifted(val, 0) == val
  {
    if k > 0 {
      ShiftedFacts(val, k - 1);
      DivideTwice(val, k - 1);
      TwoToPositive(k);
    }
  }

  lemma AllShiftedOut(val: nat, n: nat)
    requires val < TwoTo(n)
    ensures Shifted(val, n) == 0
  {
    ShiftedFacts(val, n);
    DivMod(0, TwoTo(n), val);
  }

  method AppendBitsToBuffer(val: nat, numBits: int, buffer: array<bv8>, bitLen: int, ghost len: nat, ghost s: seq<bool>)
    returns (bitLen': int)
    requires 0 <= numBits <= 16 && val < TwoTo(numBits)
    requires Holds(buffer[..], len, s) && bitLen == |s| && |s| + numBits <= 8 * len
    modifies buffer
    ensures bitLen' == |s| + numBits && Holds(buffer[..], len, s + ToBits(val, numBits))
    ensures forall k :: len <= k < buffer.Length ==> buffer[k] == old(buffer[k])
  {
    hide *;
    bitLen' := bitLen;
    var i := numBits - 1;
    AllShiftedOut(val, numBits);
    LastBit(val, 0, 0);
    assert s + [] == s;
    while i >= 0
      invariant -1 <= i < numBits && bitLen' == |s| + numBits - 1 - i
      invariant Holds(buffer[..], len, s + ToBits(Shifted(val, i + 1), numBits - 1 - i))
      invariant forall k :: len <= k < buffer.Length ==> buffer[k] == old(buffer[k])
    {
      ShiftedFacts(val, i);
      LastBit(Shifted(val, i), Shifted(val, i + 1), numBits - i);
      ghost var t := ToBits(Shifted(val, i + 1), numBits - 1 - i);
      var bit := val / TwoTo(i) % 2 == 1;
      AppendBit(bit, buffer, bitLen', len, s + t);
      assert s + t + [bit] == s + (t + [bit]);
      bitLen' := bitLen' + 1;
      i := i - 1;
    }
    ShiftedFacts(val, 0);
  }

  lemma LastBit(val: nat, half: nat, n: nat)
    requires half == val / 2 || n == 0
    ensures n > 0 ==> ToBits(val, n) == ToBits(half, n - 1) + [val % 2 == 1]
    ensures ToBits(val, 0) == []
  {}

  // ----- Sizes -----

  function NumCharCountBits(mode: Mode, v: int): (bits: int)
    requires IsVersion(v)
    ensures 0 <= bits <= 16
  {
    var i := (v + 7) / 17;
    match mode
    case Numeric => if i == 0 then 10 else if i == 1 then 12 else 14
    case Alphanumeric => if i == 0 then 9 else if i == 1 then 11 else 13
    case Byte => if i == 0 then 8 else 16
    case Kanji => if i == 0 then 8 else if i == 1 then 10 else 12
    case Eci => 0
  }

  // A segment whose character count fits the count field of the version.
  predicate Countable(seg: Segment, v: int)
    requires IsVersion(v)
  {
    0 <= seg.numChars < TwoTo(NumCharCountBits(seg.mode, v))
  }

  function SegmentLength(seg: Segment, v: int): int
    requires IsVersion(v)
  {
    4 + NumCharCountBits(seg.mode, v) + seg.bitLength
  }

  function TotalLength(segs: seq<Segment>, v: int): int
    requires IsVersion(v)
  {
    if segs == [] then 0 else TotalLength(segs[..|segs| - 1], v) + SegmentLength(segs[|segs| - 1], v)
  }

  // All segments together can be encoded at version v within limit bits.
  predicate Encodable(segs: seq<Segment>, v: int, limit: int)
    requires IsVersion(v)
  {
    (forall seg :: seg in segs ==> Countable(seg, v)) && TotalLength(segs, v) <= limit
  }

  lemma {:induction false} PrefixLength(segs: seq<Segment>, v: int, k: nat)
    requires IsVersion(v) && k <= |segs| && forall seg :: seg in segs ==> seg.Valid()
    ensures 0 <= TotalLength(segs[..k], v) <= TotalLength(segs, v)
    decreases |segs|
  {
    if segs != [] {
      var init := segs[..|segs| - 1];
      assert segs[|segs| - 1].Valid() by { assert segs[|segs| - 1] in segs; }
      PrefixLength(init, v, if k < |segs| then k else |init|);
      assert init[..|init|] == init && segs[..|segs|] == segs;
      if k < |segs| {
        assert init[..k] == segs[..k];
      }
    }
  }

  // The number of bits needed, or LENGTH_OVERFLOW.
  method GetTotalBits(segs: seq<Segment>, v: int) returns (result: int)
    requires IsVersion(v) && forall seg :: seg in segs ==> seg.Valid()
    ensures Encodable(segs, v, INT16_MAX) ==> result == TotalLength(segs, v)
    ensures !Encodable(segs, v, INT16_MAX) ==> result == LENGTH_OVERFLOW
    ensures result == LENGTH_OVERFLOW || 0 <= result <= INT16_MAX
  {
    result := 0;
    for i := 0 to |segs|
      invariant result == TotalLength(segs[..i], v) && 0 <= result <= INT16_MAX
      invariant forall k :: 0 <= k < i ==> Countable(segs[k], v)
    {
      var seg := segs[i];
      assert seg in segs;
      assert segs[..i + 1][..i] == segs[..i];
      PrefixLength(segs, v, i + 1);
      var ccbits := NumCharCountBits(seg.mode, v);
      if seg.numChars >= TwoTo(ccbits) {
        return LENGTH_OVERFLOW;
      }
      result := result + 4 + ccbits + seg.bitLength;
      if result > INT16_MAX {
        return LENGTH_OVERFLOW;
      }
    }
    assert segs[..|segs|] == segs;
  }

  // ----- The message -----

  function SegmentBits(seg: Segment, v: int): (bits: seq<bool>)
    requires IsVersion(v) && seg.Valid()
    reads seg.data
    ensures |bits| == SegmentLength(seg, v)
  {
    ToBits(seg.mode.Indicator(), 4) + ToBits(seg.numChars, NumCharCountBits(seg.mode, v))
      + Bits(seg.data[..])[..seg.bitLength]
  }

  function DataArrays(segs: seq<Segment>): set<array<bv8>> {
    set seg | seg in segs :: seg.data
  }

  function MessageBits(segs: seq<Segment>, v: int): (bits: seq<bool>)
    requires IsVersion(v) && forall seg :: seg in segs ==> seg.Valid()
    reads DataArrays(segs)
    ensures |bits| == TotalLength(segs, v)
  {
    if segs == [] then [] else MessageBits(segs[..|segs| - 1], v) + SegmentBits(segs[|segs| - 1], v)
  }

  // ----- Writing the message into the buffer -----

  lemma SmallPowers() ensures TwoTo(1) == 2 && TwoTo(4) == 16 && TwoTo(8) == 256 {}

  lemma OneBit(bit: bool) ensures ToBits(if bit then 1 else 0, 1) == [bit] {}

  method AppendData(seg: Segment, buffer: array<bv8>, start: int, ghost len: nat, ghost s: seq<bool>)
    returns (bitLen: int)
    requires seg.Valid() && seg.data != buffer && Holds(buffer[..], len, s)
    requires start == |s| && |s| + seg.bitLength <= 8 * len
    modifies buffer
    ensures bitLen == |s| + seg.bitLength && Holds(buffer[..], len, s + Bits(seg.data[..])[..seg.bitLength])
    ensures forall k :: len <= k < buffer.Length ==> buffer[k] == old(buffer[k])
  {
    hide *;
    bitLen := start;
    ghost var bits := Bits(seg.data[..]);
    SegmentFits(seg);
    SliceGrows(s, bits, 0);
    SmallPowers();
    for j := 0 to seg.bitLength
      invariant bitLen == |s| + j && Holds(buffer[..], len, s + bits[..j])
      invariant forall k :: len <= k < buffer.Length ==> buffer[k] == old(buffer[k])
    {
      BitPlace(seg.data[..], j);
      var bit := BitOf(seg.data[j / 8], 7 - j % 8);
      OneBit(bit);
      SliceGrows(s, bits, j);
      bitLen := AppendBitsToBuffer(if bit then 1 else 0, 1, buffer, bitLen, len, s + bits[..j]);
    }
  }

  lemma SegmentFits(seg: Segment)
    requires seg.Valid()
    ensures 0 <= seg.bitLength <= 8 * seg.data.Length
  {}

  lemma BitPlace(data: seq<bv8>, j: nat)
    requires j < 8 * |data|
    ensures Bits(data)[j] == BitOf(data[j / 8], 7 - j % 8)
  {}

  lemma SliceGrows(s: seq<bool>, bits: seq<bool>, j: nat)
    requires j <= |bits|
    ensures s + bits[..0] == s
    ensures j < |bits| ==> s + bits[..j] + [bits[j]] == s + bits[..j + 1]
  {}

  method AppendSegment(seg: Segment, v: int, buffer: array<bv8>, start: int, ghost len: nat, ghost s: seq<bool>)
    returns (bitLen: int)
    requires IsVersion(v) && seg.Valid() && Countable(seg, v) && seg.data != buffer && Holds(buffer[..], len, s)
    requires start == |s| && |s| + SegmentLength(seg, v) <= 8 * len
    modifies buffer
    ensures bitLen == |s| + SegmentLength(seg, v) && Holds(buffer[..], len, s + SegmentBits(seg, v))
    ensures forall k :: len <= k < buffer.Length ==> buffer[k] == old(buffer[k])
  {
    SmallPowers();
    hide Holds, BitOf, TwoTo, ToBits, Bits, NumCharCountBits;
    var count := NumCharCountBits(seg.mode, v);
    ghost var a := ToBits(seg.mode.Indicator(), 4);
    ghost var b := ToBits(seg.numChars, count);
    bitLen := AppendBitsToBuffer(seg.mode.Indicator(), 4, buffer, start, len, s);
    bitLen := AppendBitsToBuffer(seg.numChars, count, buffer, bitLen, len, s + a);
    bitLen := AppendData(seg, buffer, bitLen, len, s + a + b);
    assert s + a + b + Bits(seg.data[..])[..seg.bitLength] == s + SegmentBits(seg, v);
  }

  method AppendMessage(segs: seq<Segment>, v: int, buffer: array<bv8>, ghost len: nat) returns (bitLen: int)
    requires IsVersion(v) && (forall seg :: seg in segs ==> seg.Valid() && seg.data != buffer)
    requires Encodable(segs, v, 8 * len) && Holds(buffer[..], len, [])
    modifies buffer
    ensures bitLen == TotalLength(segs, v) && Holds(buffer[..], len, MessageBits(segs, v))
    ensures forall k :: len <= k < buffer.Length ==> buffer[k] == old(buffer[k])
  {
    hide Holds, SegmentBits, SegmentLength, Countable, MessageBits, TotalLength;
    bitLen := 0;
    NoSegments(v);
    assert segs[..0] == [];
    for i := 0 to |segs|
      invariant bitLen == TotalLength(segs[..i], v) && Holds(buffer[..], len, MessageBits(segs[..i], v))
      invariant forall k :: len <= k < buffer.Length ==> buffer[k] == old(buffer[k])
    {
      assert segs[i] in segs;
      PrefixLength(segs, v, i + 1);
      OneMoreSegment(segs, v, i);
      ghost var prefix := MessageBits(segs[..i], v);
      assert buffer !in DataArrays(segs[..i + 1]);
      bitLen := AppendSegment(segs[i], v, buffer, bitLen, len, prefix);
      OneMoreSegment(segs, v, i);
    }
    assert segs[..|segs|] == segs;
  }

  lemma NoSegments(v: int)
    requires IsVersion(v)
    ensures MessageBits([], v) == [] && TotalLength([], v) == 0
  {}

  lemma OneMoreSegment(segs: seq<Segment>, v: int, i: nat)
    requires IsVersion(v) && i < |segs| && forall seg :: seg in segs ==> seg.Valid()
    ensures TotalLength(segs[..i + 1], v) == TotalLength(segs[..i], v) + SegmentLength(segs[i], v)
    ensures segs[i].Valid() && MessageBits(segs[..i + 1], v) == MessageBits(segs[..i], v) + SegmentBits(segs[i], v)
  {
    hide SegmentBits, SegmentLength;
    assert segs[i] in segs && segs[..i + 1][..i] == segs[..i];
  }

  // ----- Terminator and padding -----

  function PadByte(k: nat): bv8 { if k % 2 == 0 then 0xEC else 0x11 }

  function PadBytes(k: nat): (bits: seq<bool>)
    ensures |bits| == 8 * k
  {
    if k == 0 then [] else PadBytes(k - 1) + Bits([PadByte(k - 1)])
  }

  function Lights(k: nat): (bits: seq<bool>)
    ensures |bits| == k
  {
    seq(k, _ => false)
  }

  function TerminatorLength(used: int, capacity: int): int {
    if capacity - used > 4 then 4 else capacity - used
  }

  function Terminated(message: seq<bool>, capacity: int): (bits: seq<bool>)
    requires 0 <= capacity && capacity % 8 == 0 && |message| <= capacity
    ensures |bits| % 8 == 0 && |bits| <= capacity
  {
    var terminated := message + Lights(TerminatorLength(|message|, capacity));
    terminated + Lights((8 - |terminated| % 8) % 8)
  }

  lemma TerminatedParts(message: seq<bool>, capacity: int)
    requires 0 <= capacity && capacity % 8 == 0 && |message| <= capacity
    ensures var k := TerminatorLength(|message|, capacity);
      var rest := (8 - (|message| + k) % 8) % 8;
      Terminated(message, capacity) == message + Lights(k) + Lights(rest) && |message| + k + rest <= capacity
  {}

  // The message, up to four zeros, zeros up to a whole byte, then alternating pad bytes.
  function DataBits(message: seq<bool>, capacity: int): (bits: seq<bool>)
    requires 0 <= capacity && capacity % 8 == 0 && |message| <= capacity
    ensures |bits| == capacity
  {
    Padded(Terminated(message, capacity), capacity)
  }

  function Padded(aligned: seq<bool>, capacity: int): (bits: seq<bool>)
    requires |aligned| % 8 == 0 && |aligned| <= capacity && capacity % 8 == 0
    ensures |bits| == capacity
  {
    Eighths(|aligned|, capacity);
    aligned + PadBytes((capacity - |aligned|) / 8)
  }

  lemma Eighths(a: int, b: int)
    requires a % 8 == 0 && b % 8 == 0 && a <= b
    ensures (b - a) / 8 >= 0 && 8 * ((b - a) / 8) == b - a
  {}

  lemma MessageComesFirst(message: seq<bool>, capacity: int)
    requires 0 <= capacity && capacity % 8 == 0 && |message| <= capacity
    ensures message <= DataBits(message, capacity)
  {}

  lemma {:induction false} PadBitAt(n: nat, k: nat)
    requires k < 8 * n
    ensures PadBytes(n)[k] == Bits([PadByte(k / 8)])[k % 8]
  {
    hide PadByte, Bits;
    if k < 8 * (n - 1) {
      PadBitAt(n - 1, k);
    }
  }

  lemma RoundedUp(t: int)
    requires 0 <= t
    ensures t + (8 - t % 8) % 8 == (t + 7) / 8 * 8
  {
    var q, r := t / 8, t % 8;
    if r == 0 {
      DivMod(q, 8, 7);
    } else {
      DivMod(q + 1, 8, r - 1);
    }
  }

  lemma TerminatedBits(message: seq<bool>, capacity: int)
    requires 0 <= capacity && capacity % 8 == 0 && |message| <= capacity
    ensures |Terminated(message, capacity)| ==
      ((if |message| + 4 < capacity then |message| + 4 else capacity) + 7) / 8 * 8
    ensures forall k :: |message| <= k < |Terminated(message, capacity)| ==> !Terminated(message, capacity)[k]
  {
    hide Terminated;
    TerminatedParts(message, capacity);
    var k := TerminatorLength(|message|, capacity);
    RoundedUp(|message| + k);
    LightsAreLight(message, k, (8 - (|message| + k) % 8) % 8);
  }

  lemma LightsAreLight(message: seq<bool>, k: nat, rest: nat)
    ensures forall i :: |message| <= i < |message| + k + rest ==> !(message + Lights(k) + Lights(rest))[i]
  {}

  // Behind the message: up to four light bits and more up to a whole byte, then 0xEC and 0x11 in
  // turn to the end.
  lemma PaddingBits(message: seq<bool>, capacity: int, k: nat)
    requires 0 <= capacity && capacity % 8 == 0 && |message| <= k < capacity
    ensures var ended := if |message| + 4 < capacity then |message| + 4 else capacity;
      var start := (ended + 7) / 8 * 8;
      DataBits(message, capacity)[k] ==
        (k >= start && ToBits(if (k - start) / 8 % 2 == 0 then 0xEC else 0x11, 8)[k % 8])
  {
    hide Terminated, PadBytes, Bits, ToBits;
    var aligned := Terminated(message, capacity);
    TerminatedBits(message, capacity);
    Eighths(|aligned|, capacity);
    if k >= |aligned| {
      PadBitAt((capacity - |aligned|) / 8, k - |aligned|);
      PadByteBits((k - |aligned|) / 8);
      PadByteCases((k - |aligned|) / 8);
      assert (k - |aligned|) % 8 == k % 8;
    }
  }

  lemma {:induction false} ZeroBits(n: nat)
    ensures ToBits(0, n) == Lights(n)
  {
    if n > 0 {
      ZeroBits(n - 1);
      assert Lights(n - 1) + [false] == Lights(n);
    }
  }

  lemma PadNumbers()
    ensures ToBits(0xEC, 8) == [true, true, true, false, true, true, false, false]
    ensures ToBits(0x11, 8) == [false, false, false, true, false, false, false, true]
  {
    hide *;
    LastBit(0xEC, 0x76, 8);
    LastBit(0x76, 0x3B, 7);
    LastBit(0x3B, 0x1D, 6);
    LastBit(0x1D, 0xE, 5);
    LastBit(0xE, 7, 4);
    LastBit(7, 3, 3);
    LastBit(3, 1, 2);
    LastBit(1, 0, 1);
    LastBit(0, 0, 0);
    LastBit(0x11, 8, 8);
    LastBit(8, 4, 7);
    LastBit(4, 2, 6);
    LastBit(2, 1, 5);
    LastBit(1, 0, 4);
    LastBit(0, 0, 3);
    LastBit(0, 0, 2);
    LastBit(0, 0, 1);
  }

  lemma PadByteCases(k: nat)
    ensures (PadByte(k) == 0xEC && PadByte(k) as int == 0xEC) || (PadByte(k) == 0x11 && PadByte(k) as int == 0x11)
  {}

  lemma PadByteBits(k: nat)
    ensures ToBits(PadByte(k) as int, 8) == Bits([PadByte(k)])
  {
    hide *;
    PadByteCases(k);
    PadNumbers();
    PadByteModules();
  }

  lemma PadByteModules()
    ensures Bits([0xEC]) == [true, true, true, false, true, true, false, false]
    ensures Bits([0x11]) == [false, false, false, true, false, false, false, true]
  {}

  method AppendTerminator(buffer: array<bv8>, used: int, capacity: int, ghost len: nat, ghost s: seq<bool>)
    returns (bitLen: int)
    requires Holds(buffer[..], len, s) && used == |s| <= capacity <= 8 * len && capacity % 8 == 0
    modifies buffer
    ensures bitLen == |Terminated(s, capacity)| && Holds(buffer[..], len, Terminated(s, capacity))
    ensures forall k :: len <= k < buffer.Length ==> buffer[k] == old(buffer[k])
  {
    hide Holds, ToBits, TwoTo, Terminated, Lights;
    TerminatedParts(s, capacity);
    var terminatorBits := capacity - used;
    if terminatorBits > 4 {
      terminatorBits := 4;
    }
    TwoToPositive(terminatorBits);
    ZeroBits(terminatorBits);
    bitLen := AppendBitsToBuffer(0, terminatorBits, buffer, used, len, s);
    var rest := (8 - bitLen % 8) % 8;
    TwoToPositive(rest);
    ZeroBits(rest);
    bitLen := AppendBitsToBuffer(0, rest, buffer, bitLen, len, s + Lights(terminatorBits));
  }

  method AppendPadBytes(buffer: array<bv8>, start: int, capacity: int, ghost len: nat, ghost a: seq<bool>)
    requires Holds(buffer[..], len, a) && start == |a| <= capacity <= 8 * len && capacity % 8 == 0 && start % 8 == 0
    modifies buffer
    ensures Holds(buffer[..], len, a + PadBytes((capacity - |a|) / 8))
    ensures forall k :: len <= k < buffer.Length ==> buffer[k] == old(buffer[k])
  {
    hide *;
    var bitLen := start;
    NoPadBytes(a);
    ghost var k := 0;
    var padByte: bv8 := 0xEC;
    PadByteSteps(0);
    while bitLen < capacity
      invariant bitLen == |a| + 8 * k <= capacity && k >= 0
      invariant padByte == PadByte(k) && Holds(buffer[..], len, a + PadBytes(k))
      invariant forall k :: len <= k < buffer.Length ==> buffer[k] == old(buffer[k])
    {
      PadByteSteps(k);
      PadByteBits(k);
      NextPadByte(a, k);
      bitLen := AppendBitsToBuffer(padByte as int, 8, buffer, bitLen, len, a + PadBytes(k));
      padByte := NextPad(padByte);
      k := k + 1;
    }
    Eighths(|a|, capacity);
  }

  lemma NoPadBytes(a: seq<bool>)
    ensures a + PadBytes(0) == a
  {}

  lemma NextPadByte(a: seq<bool>, k: nat)
    ensures a + PadBytes(k) + Bits([PadByte(k)]) == a + PadBytes(k + 1) && |a + PadBytes(k)| == |a| + 8 * k
  {
    hide Bits, PadByte;
  }

  method AppendPadding(buffer: array<bv8>, used: int, capacity: int, ghost len: nat, ghost s: seq<bool>)
    requires Holds(buffer[..], len, s) && used == |s| <= capacity <= 8 * len && capacity % 8 == 0
    modifies buffer
    ensures Holds(buffer[..], len, DataBits(s, capacity))
    ensures forall k :: len <= k < buffer.Length ==> buffer[k] == old(buffer[k])
  {
    hide Holds, PadBytes, Terminated;
    var bitLen := AppendTerminator(buffer, used, capacity, len, s);
    AppendPadBytes(buffer, bitLen, capacity, len, Terminated(s, capacity));
  }

  function NextPad(b: bv8): bv8 { b ^ (0xEC ^ 0x11) }

  lemma PadByteSteps(k: nat)
    ensures PadByte(0) == 0xEC && NextPad(PadByte(k)) == PadByte(k + 1) && 0 <= PadByte(k) as int < TwoTo(8)
  {
    SmallPowers();
  }
}
