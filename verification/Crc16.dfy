/**
 CRC-16/CCITT-FALSE by table, and what it detects.
 */
module Crc16 {
  import opened BitString

  // ----- Bit by bit -----

  // The register moved one place, reduced by x^16 + x^12 + x^5 + 1.
  function Shift(s: bv16): bv16 { (s << 1) ^ ((s >> 15) * 0x1021) }

  function TopBit(bit: bool): bv16 { if bit then 0x8000 else 0 }

  function Xor(a: bv16, b: bv16): bv16 { a ^ b }

  function Step(s: bv16, bit: bool): bv16 { Shift(Xor(s, TopBit(bit))) }

  // Long division, one message bit at a time.
  function Feed(s: bv16, bits: seq<bool>): bv16 {
    if bits == [] then s else Step(Feed(s, bits[..|bits| - 1]), bits[|bits| - 1])
  }

  function Crc(message: seq<bv8>): bv16 { Feed(0xFFFF, Bits(message)) }

  // ----- The table -----

  function Row0(i: bv8): bv16 {
    match i
    case 0x00 => 0x0000 case 0x01 => 0x1021 case 0x02 => 0x2042 case 0x03 => 0x3063
    case 0x04 => 0x4084 case 0x05 => 0x50A5 case 0x06 => 0x60C6 case 0x07 => 0x70E7
    case 0x08 => 0x8108 case 0x09 => 0x9129 case 0x0A => 0xA14A case 0x0B => 0xB16B
    case 0x0C => 0xC18C case 0x0D => 0xD1AD case 0x0E => 0xE1CE case _ => 0xF1EF
  }

  function Row1(i: bv8): bv16 {
    match i
    case 0x10 => 0x1231 case 0x11 => 0x0210 case 0x12 => 0x3273 case 0x13 => 0x2252
    case 0x14 => 0x52B5 case 0x15 => 0x4294 case 0x16 => 0x72F7 case 0x17 => 0x62D6
    case 0x18 => 0x9339 case 0x19 => 0x8318 case 0x1A => 0xB37B case 0x1B => 0xA35A
    case 0x1C => 0xD3BD case 0x1D => 0xC39C case 0x1E => 0xF3FF case _ => 0xE3DE
  }

  function Row2(i: bv8): bv16 {
    match i
    case 0x20 => 0x2462 case 0x21 => 0x3443 case 0x22 => 0x0420 case 0x23 => 0x1401
    case 0x24 => 0x64E6 case 0x25 => 0x74C7 case 0x26 => 0x44A4 case 0x27 => 0x5485
    case 0x28 => 0xA56A case 0x29 => 0xB54B case 0x2A => 0x8528 case 0x2B => 0x9509
    case 0x2C => 0xE5EE case 0x2D => 0xF5CF case 0x2E => 0xC5AC case _ => 0xD58D
  }

  function Row3(i: bv8): bv16 {
    match i
    case 0x30 => 0x3653 case 0x31 => 0x2672 case 0x32 => 0x1611 case 0x33 => 0x0630
    case 0x34 => 0x76D7 case 0x35 => 0x66F6 case 0x36 => 0x5695 case 0x37 => 0x46B4
    case 0x38 => 0xB75B case 0x39 => 0xA77A case 0x3A => 0x9719 case 0x3B => 0x8738
    case 0x3C => 0xF7DF case 0x3D => 0xE7FE case 0x3E => 0xD79D case _ => 0xC7BC
  }

  function Row4(i: bv8): bv16 {
    match i
    case 0x40 => 0x48C4 case 0x41 => 0x58E5 case 0x42 => 0x6886 case 0x43 => 0x78A7
    case 0x44 => 0x0840 case 0x45 => 0x1861 case 0x46 => 0x2802 case 0x47 => 0x3823
    case 0x48 => 0xC9CC case 0x49 => 0xD9ED case 0x4A => 0xE98E case 0x4B => 0xF9AF
    case 0x4C => 0x8948 case 0x4D => 0x9969 case 0x4E => 0xA90A case _ => 0xB92B
  }

  function Row5(i: bv8): bv16 {
    match i
    case 0x50 => 0x5AF5 case 0x51 => 0x4AD4 case 0x52 => 0x7AB7 case 0x53 => 0x6A96
    case 0x54 => 0x1A71 case 0x55 => 0x0A50 case 0x56 => 0x3A33 case 0x57 => 0x2A12
    case 0x58 => 0xDBFD case 0x59 => 0xCBDC case 0x5A => 0xFBBF case 0x5B => 0xEB9E
    case 0x5C => 0x9B79 case 0x5D => 0x8B58 case 0x5E => 0xBB3B case _ => 0xAB1A
  }

  function Row6(i: bv8): bv16 {
    match i
    case 0x60 => 0x6CA6 case 0x61 => 0x7C87 case 0x62 => 0x4CE4 case 0x63 => 0x5CC5
    case 0x64 => 0x2C22 case 0x65 => 0x3C03 case 0x66 => 0x0C60 case 0x67 => 0x1C41
    case 0x68 => 0xEDAE case 0x69 => 0xFD8F case 0x6A => 0xCDEC case 0x6B => 0xDDCD
    case 0x6C => 0xAD2A case 0x6D => 0xBD0B case 0x6E => 0x8D68 case _ => 0x9D49
  }

  function Row7(i: bv8): bv16 {
    match i
    case 0x70 => 0x7E97 case 0x71 => 0x6EB6 case 0x72 => 0x5ED5 case 0x73 => 0x4EF4
    case 0x74 => 0x3E13 case 0x75 => 0x2E32 case 0x76 => 0x1E51 case 0x77 => 0x0E70
    case 0x78 => 0xFF9F case 0x79 => 0xEFBE case 0x7A => 0xDFDD case 0x7B => 0xCFFC
    case 0x7C => 0xBF1B case 0x7D => 0xAF3A case 0x7E => 0x9F59 case _ => 0x8F78
  }

  function Row8(i: bv8): bv16 {
    match i
    case 0x80 => 0x9188 case 0x81 => 0x81A9 case 0x82 => 0xB1CA case 0x83 => 0xA1EB
    case 0x84 => 0xD10C case 0x85 => 0xC12D case 0x86 => 0xF14E case 0x87 => 0xE16F
    case 0x88 => 0x1080 case 0x89 => 0x00A1 case 0x8A => 0x30C2 case 0x8B => 0x20E3
    case 0x8C => 0x5004 case 0x8D => 0x4025 case 0x8E => 0x7046 case _ => 0x6067
  }

  function Row9(i: bv8): bv16 {
    match i
    case 0x90 => 0x83B9 case 0x91 => 0x9398 case 0x92 => 0xA3FB case 0x93 => 0xB3DA
    case 0x94 => 0xC33D case 0x95 => 0xD31C case 0x96 => 0xE37F case 0x97 => 0xF35E
    case 0x98 => 0x02B1 case 0x99 => 0x1290 case 0x9A => 0x22F3 case 0x9B => 0x32D2
    case 0x9C => 0x4235 case 0x9D => 0x5214 case 0x9E => 0x6277 case _ => 0x7256
  }

  function RowA(i: bv8): bv16 {
    match i
    case 0xA0 => 0xB5EA case 0xA1 => 0xA5CB case 0xA2 => 0x95A8 case 0xA3 => 0x8589
    case 0xA4 => 0xF56E case 0xA5 => 0xE54F case 0xA6 => 0xD52C case 0xA7 => 0xC50D
    case 0xA8 => 0x34E2 case 0xA9 => 0x24C3 case 0xAA => 0x14A0 case 0xAB => 0x0481
    case 0xAC => 0x7466 case 0xAD => 0x6447 case 0xAE => 0x5424 case _ => 0x4405
  }

  function RowB(i: bv8): bv16 {
    match i
    case 0xB0 => 0xA7DB case 0xB1 => 0xB7FA case 0xB2 => 0x8799 case 0xB3 => 0x97B8
    case 0xB4 => 0xE75F case 0xB5 => 0xF77E case 0xB6 => 0xC71D case 0xB7 => 0xD73C
    case 0xB8 => 0x26D3 case 0xB9 => 0x36F2 case 0xBA => 0x0691 case 0xBB => 0x16B0
    case 0xBC => 0x6657 case 0xBD => 0x7676 case 0xBE => 0x4615 case _ => 0x5634
  }

  function RowC(i: bv8): bv16 {
    match i
    case 0xC0 => 0xD94C case 0xC1 => 0xC96D case 0xC2 => 0xF90E case 0xC3 => 0xE92F
    case 0xC4 => 0x99C8 case 0xC5 => 0x89E9 case 0xC6 => 0xB98A case 0xC7 => 0xA9AB
    case 0xC8 => 0x5844 case 0xC9 => 0x4865 case 0xCA => 0x7806 case 0xCB => 0x6827
    case 0xCC => 0x18C0 case 0xCD => 0x08E1 case 0xCE => 0x3882 case _ => 0x28A3
  }

  function RowD(i: bv8): bv16 {
    match i
    case 0xD0 => 0xCB7D case 0xD1 => 0xDB5C case 0xD2 => 0xEB3F case 0xD3 => 0xFB1E
    case 0xD4 => 0x8BF9 case 0xD5 => 0x9BD8 case 0xD6 => 0xABBB case 0xD7 => 0xBB9A
    case 0xD8 => 0x4A75 case 0xD9 => 0x5A54 case 0xDA => 0x6A37 case 0xDB => 0x7A16
    case 0xDC => 0x0AF1 case 0xDD => 0x1AD0 case 0xDE => 0x2AB3 case _ => 0x3A92
  }

  function RowE(i: bv8): bv16 {
    match i
    case 0xE0 => 0xFD2E case 0xE1 => 0xED0F case 0xE2 => 0xDD6C case 0xE3 => 0xCD4D
    case 0xE4 => 0xBDAA case 0xE5 => 0xAD8B case 0xE6 => 0x9DE8 case 0xE7 => 0x8DC9
    case 0xE8 => 0x7C26 case 0xE9 => 0x6C07 case 0xEA => 0x5C64 case 0xEB => 0x4C45
    case 0xEC => 0x3CA2 case 0xED => 0x2C83 case 0xEE => 0x1CE0 case _ => 0x0CC1
  }

  function RowF(i: bv8): bv16 {
    match i
    case 0xF0 => 0xEF1F case 0xF1 => 0xFF3E case 0xF2 => 0xCF5D case 0xF3 => 0xDF7C
    case 0xF4 => 0xAF9B case 0xF5 => 0xBFBA case 0xF6 => 0x8FD9 case 0xF7 => 0x9FF8
    case 0xF8 => 0x6E17 case 0xF9 => 0x7E36 case 0xFA => 0x4E55 case 0xFB => 0x5E74
    case 0xFC => 0x2E93 case 0xFD => 0x3EB2 case 0xFE => 0x0ED1 case _ => 0x1EF0
  }

  function Table(i: bv8): bv16 {
    if i < 0x10 then Row0(i)
    else if i < 0x20 then Row1(i)
    else if i < 0x30 then Row2(i)
    else if i < 0x40 then Row3(i)
    else if i < 0x50 then Row4(i)
    else if i < 0x60 then Row5(i)
    else if i < 0x70 then Row6(i)
    else if i < 0x80 then Row7(i)
    else if i < 0x90 then Row8(i)
    else if i < 0xA0 then Row9(i)
    else if i < 0xB0 then RowA(i)
    else if i < 0xC0 then RowB(i)
    else if i < 0xD0 then RowC(i)
    else if i < 0xE0 then RowD(i)
    else if i < 0xF0 then RowE(i)
    else RowF(i)
  }

  function Shift8(s: bv16): bv16 { Shift(Shift(Shift(Shift(Shift(Shift(Shift(Shift(s)))))))) }

  function Up(b: bv8): bv16 { (b as bv16) << 8 }

  function ByteShifted(i: bv8): bv16 { Shift8(Up(i)) }

  lemma Row0IsRight(i: bv8)
    requires i < 0x10
    ensures Row0(i) == ByteShifted(i)
  {}

  lemma Row1IsRight(i: bv8)
    requires 0x10 <= i < 0x20
    ensures Row1(i) == ByteShifted(i)
  {}

  lemma Row2IsRight(i: bv8)
    requires 0x20 <= i < 0x30
    ensures Row2(i) == ByteShifted(i)
  {}

  lemma Row3IsRight(i: bv8)
    requires 0x30 <= i < 0x40
    ensures Row3(i) == ByteShifted(i)
  {}

  lemma Row4IsRight(i: bv8)
    requires 0x40 <= i < 0x50
    ensures Row4(i) == ByteShifted(i)
  {}

  lemma Row5IsRight(i: bv8)
    requires 0x50 <= i < 0x60
    ensures Row5(i) == ByteShifted(i)
  {}

  lemma Row6IsRight(i: bv8)
    requires 0x60 <= i < 0x70
    ensures Row6(i) == ByteShifted(i)
  {}

  lemma Row7IsRight(i: bv8)
    requires 0x70 <= i < 0x80
    ensures Row7(i) == ByteShifted(i)
  {}

  lemma Row8IsRight(i: bv8)
    requires 0x80 <= i < 0x90
    ensures Row8(i) == ByteShifted(i)
  {}

  lemma Row9IsRight(i: bv8)
    requires 0x90 <= i < 0xA0
    ensures Row9(i) == ByteShifted(i)
  {}

  lemma RowAIsRight(i: bv8)
    requires 0xA0 <= i < 0xB0
    ensures RowA(i) == ByteShifted(i)
  {}

  lemma RowBIsRight(i: bv8)
    requires 0xB0 <= i < 0xC0
    ensures RowB(i) == ByteShifted(i)
  {}

  lemma RowCIsRight(i: bv8)
    requires 0xC0 <= i < 0xD0
    ensures RowC(i) == ByteShifted(i)
  {}

  lemma RowDIsRight(i: bv8)
    requires 0xD0 <= i < 0xE0
    ensures RowD(i) == ByteShifted(i)
  {}

  lemma RowEIsRight(i: bv8)
    requires 0xE0 <= i < 0xF0
    ensures RowE(i) == ByteShifted(i)
  {}

  lemma RowFIsRight(i: bv8)
    requires 0xF0 <= i
    ensures RowF(i) == ByteShifted(i)
  {}

  lemma TableIsRight(i: bv8)
    ensures Table(i) == ByteShifted(i)
  {
    hide ByteShifted, Row0, Row1, Row2, Row3, Row4, Row5, Row6, Row7, Row8, Row9, RowA, RowB, RowC, RowD, RowE, RowF;
    if i < 0x10 {
      Row0IsRight(i);
    } else if i < 0x20 {
      Row1IsRight(i);
    } else if i < 0x30 {
      Row2IsRight(i);
    } else if i < 0x40 {
      Row3IsRight(i);
    } else if i < 0x50 {
      Row4IsRight(i);
    } else if i < 0x60 {
      Row5IsRight(i);
    } else if i < 0x70 {
      Row6IsRight(i);
    } else if i < 0x80 {
      Row7IsRight(i);
    } else if i < 0x90 {
      Row8IsRight(i);
    } else if i < 0xA0 {
      Row9IsRight(i);
    } else if i < 0xB0 {
      RowAIsRight(i);
    } else if i < 0xC0 {
      RowBIsRight(i);
    } else if i < 0xD0 {
      RowCIsRight(i);
    } else if i < 0xE0 {
      RowDIsRight(i);
    } else if i < 0xF0 {
      RowEIsRight(i);
    } else {
      RowFIsRight(i);
    }
  }

  // ----- The register is linear -----

  lemma XorSwap(a: bv16, b: bv16, c: bv16)
    ensures Xor(Xor(a, b), c) == Xor(a, Xor(c, b))
  {}

  lemma XorComm(a: bv16, b: bv16)
    ensures Xor(a, b) == Xor(b, a)
  {}

  lemma XorFour(a: bv16, b: bv16, c: bv16, d: bv16)
    ensures Xor(Xor(a, b), Xor(c, d)) == Xor(Xor(a, c), Xor(b, d))
  {
    hide Xor;
    XorSwap(a, b, Xor(c, d));
    XorSwap(c, d, b);
    XorSwap(a, c, Xor(b, d));
    XorComm(c, Xor(b, d));
  }

  lemma XorZero(x: bv16)
    ensures Xor(x, 0) == x && Xor(x, x) == 0
  {}

  lemma XorEqual(x: bv16, y: bv16)
    requires Xor(x, y) == 0
    ensures x == y
  {}

  lemma ShiftXorBits(a: bv16, b: bv16)
    ensures Shift(a ^ b) == Shift(a) ^ Shift(b)
  {}

  lemma ShiftXor(a: bv16, b: bv16)
    ensures Shift(Xor(a, b)) == Xor(Shift(a), Shift(b))
  {
    ShiftXorBits(a, b);
    hide Shift;
  }

  lemma Shift8Xor(a: bv16, b: bv16)
    ensures Shift8(Xor(a, b)) == Xor(Shift8(a), Shift8(b))
  {
    hide Shift, Xor;
    var a1, b1 := Shift(a), Shift(b);
    var a2, b2 := Shift(a1), Shift(b1);
    var a3, b3 := Shift(a2), Shift(b2);
    var a4, b4 := Shift(a3), Shift(b3);
    var a5, b5 := Shift(a4), Shift(b4);
    var a6, b6 := Shift(a5), Shift(b5);
    var a7, b7 := Shift(a6), Shift(b6);
    ShiftXor(a, b);
    ShiftXor(a1, b1);
    ShiftXor(a2, b2);
    ShiftXor(a3, b3);
    ShiftXor(a4, b4);
    ShiftXor(a5, b5);
    ShiftXor(a6, b6);
    ShiftXor(a7, b7);
  }

  lemma ShiftZero(s: bv16)
    ensures Shift(s) == 0 <==> s == 0
  {}

  lemma Shift8Zero(s: bv16)
    ensures Shift8(s) == 0 <==> s == 0
  {
    hide Shift;
    ShiftZero(s);
    ShiftZero(Shift(s));
    ShiftZero(Shift(Shift(s)));
    ShiftZero(Shift(Shift(Shift(s))));
    ShiftZero(Shift(Shift(Shift(Shift(s)))));
    ShiftZero(Shift(Shift(Shift(Shift(Shift(s))))));
    ShiftZero(Shift(Shift(Shift(Shift(Shift(Shift(s)))))));
    ShiftZero(Shift(Shift(Shift(Shift(Shift(Shift(Shift(s))))))));
  }

  // ----- One byte at once -----

  function High(s: bv16): bv8 { (s >> 8) as bv8 }

  function Low(s: bv16): bv16 { s & 0xFF }

  function Left(s: bv16): bv16 { s << 1 }

  function Left8(s: bv16): bv16 { s << 8 }

  function TableStep(s: bv16, b: bv8): bv16 { Xor(Table(High(s) ^ b), Left8(s)) }

  predicate Top(w: bv16) { w >= 0x8000 }

  lemma ShiftOfWord(w: bv16)
    ensures Shift(w) == Xor(Left(w), Shift(TopBit(Top(w))))
  {
    hide TopBit;
    ShiftOfTop();
    if Top(w) {
      ShiftHigh(w);
    } else {
      ShiftLow(w);
    }
    hide Shift, Left, Top;
    XorZero(Left(w));
  }

  lemma ShiftOfTop()
    ensures Shift(TopBit(true)) == 0x1021 && Shift(TopBit(false)) == 0
  {}

  lemma ShiftHigh(w: bv16)
    requires Top(w)
    ensures Shift(w) == Xor(Left(w), 0x1021)
  {}

  lemma ShiftLow(w: bv16)
    requires !Top(w)
    ensures Shift(w) == Left(w)
  {}

  // The top bit of w enters, the others are still to come.
  lemma StepOfTop(t: bv16, w: bv16)
    ensures Xor(Step(t, Top(w)), Left(w)) == Shift(Xor(t, w))
  {
    hide Shift, TopBit, Xor, Left, Top;
    ShiftXor(t, TopBit(Top(w)));
    ShiftXor(t, w);
    ShiftOfWord(w);
    XorSwap(Shift(t), Shift(TopBit(Top(w))), Left(w));
  }

  function Step8(s: bv16, b0: bool, b1: bool, b2: bool, b3: bool, b4: bool, b5: bool, b6: bool, b7: bool): bv16 {
    Step(Step(Step(Step(Step(Step(Step(Step(s, b0), b1), b2), b3), b4), b5), b6), b7)
  }

  // Eight steps of the register, the byte put into its high half first.
  lemma StepsOfByte(s: bv16, b: bv8)
    ensures Step8(s, BitOf(b, 7), BitOf(b, 6), BitOf(b, 5), BitOf(b, 4), BitOf(b, 3), BitOf(b, 2), BitOf(b, 1),
      BitOf(b, 0))
      == Shift8(Xor(s, Up(b)))
  {
    hide Step, Shift, BitOf, Xor, Left, Top, Up;
    TopsOfByte(b);
    var w0 := Up(b);
    var w1 := Left(w0);
    var w2 := Left(w1);
    var w3 := Left(w2);
    var w4 := Left(w3);
    var w5 := Left(w4);
    var w6 := Left(w5);
    var w7 := Left(w6);
    var s1 := Step(s, Top(w0));
    var s2 := Step(s1, Top(w1));
    var s3 := Step(s2, Top(w2));
    var s4 := Step(s3, Top(w3));
    var s5 := Step(s4, Top(w4));
    var s6 := Step(s5, Top(w5));
    var s7 := Step(s6, Top(w6));
    StepOfTop(s, w0);
    StepOfTop(s1, w1);
    StepOfTop(s2, w2);
    StepOfTop(s3, w3);
    StepOfTop(s4, w4);
    StepOfTop(s5, w5);
    StepOfTop(s6, w6);
    StepOfTop(s7, w7);
    XorZero(Step(s7, Top(w7)));
  }

  lemma TopsOfByte(b: bv8)
    ensures var w0 := Up(b);
      var w1 := Left(w0);
      var w2 := Left(w1);
      var w3 := Left(w2);
      var w4 := Left(w3);
      var w5 := Left(w4);
      var w6 := Left(w5);
      var w7 := Left(w6);
      && Top(w0) == BitOf(b, 7) && Top(w1) == BitOf(b, 6) && Top(w2) == BitOf(b, 5) && Top(w3) == BitOf(b, 4)
      && Top(w4) == BitOf(b, 3) && Top(w5) == BitOf(b, 2) && Top(w6) == BitOf(b, 1) && Top(w7) == BitOf(b, 0)
      && Left(w7) == 0
  {}

  lemma EightSteps(s: bv16, b: bv8, bits: seq<bool>)
    requires |bits| == 8 && forall k :: 0 <= k < 8 ==> bits[k] == BitOf(b, 7 - k)
    ensures Feed(s, bits) == Shift8(Xor(s, Up(b)))
  {
    hide Step8, BitOf, Shift8, Up, Feed, Xor;
    FeedEight(s, bits);
    StepsOfByte(s, b);
  }

  lemma FeedSnoc(s: bv16, bits: seq<bool>, k: nat)
    requires k < |bits|
    ensures Feed(s, bits[..k + 1]) == Step(Feed(s, bits[..k]), bits[k]) && Feed(s, bits[..0]) == s
  {
    hide Step;
    assert bits[..k + 1][..k] == bits[..k];
  }

  lemma FeedEight(s: bv16, bits: seq<bool>)
    requires |bits| == 8
    ensures Feed(s, bits) == Step8(s, bits[0], bits[1], bits[2], bits[3], bits[4], bits[5], bits[6], bits[7])
  {
    hide Step, Feed;
    FeedSnoc(s, bits, 0);
    FeedSnoc(s, bits, 1);
    FeedSnoc(s, bits, 2);
    FeedSnoc(s, bits, 3);
    FeedSnoc(s, bits, 4);
    FeedSnoc(s, bits, 5);
    FeedSnoc(s, bits, 6);
    FeedSnoc(s, bits, 7);
    assert bits[..8] == bits;
  }

  lemma TableStepIs(s: bv16, b: bv8)
    ensures TableStep(s, b) == Shift8(Xor(s, Up(b)))
  {
    hide *;
    var h := High(s) ^ b;
    TableIsRight(h);
    TableStepParts(s, b);
    RegisterHalves(s, b);
    Shift8Xor(Up(h), Low(s));
    LowByteMovesUp(s);
    ByteShiftedIs(h);
  }

  lemma TableStepParts(s: bv16, b: bv8)
    ensures TableStep(s, b) == Xor(Table(High(s) ^ b), Left8(s))
  {}

  lemma HalvesOf(s: bv16)
    ensures s == Xor(Up(High(s)), Low(s))
  {}

  lemma UpXor(a: bv8, b: bv8)
    ensures Up(a ^ b) == Xor(Up(a), Up(b))
  {}

  lemma RegisterHalves(s: bv16, b: bv8)
    ensures Xor(s, Up(b)) == Xor(Up(High(s) ^ b), Low(s))
  {
    hide *;
    var h := High(s);
    HalvesOf(s);
    UpXor(h, b);
    XorSwap(Up(h), Low(s), Up(b));
    XorSwap(Up(h), Up(b), Low(s));
    XorComm(Low(s), Up(b));
  }

  lemma LowByteMovesUp(s: bv16)
    ensures Shift8(Low(s)) == Left8(s)
  {}

  lemma ByteShiftedIs(b: bv8)
    ensures ByteShifted(b) == Shift8(Up(b))
  {}

  // ----- The program -----

  lemma {:induction false} FeedConcat(s: bv16, a: seq<bool>, b: seq<bool>)
    ensures Feed(s, a + b) == Feed(Feed(s, a), b)
  {
    hide Step;
    if b == [] {
      assert a + b == a;
    } else {
      FeedConcat(s, a, b[..|b| - 1]);
      assert (a + b)[..|a + b| - 1] == a + b[..|b| - 1];
    }
  }

  lemma OneMoreByte(s: bv16, message: seq<bv8>, b: bv8)
    ensures Feed(s, Bits(message + [b])) == TableStep(Feed(s, Bits(message)), b)
    ensures Feed(s, Bits([])) == s
  {
    hide *;
    BitsSnoc(message, b);
    NothingFed(s);
    FeedConcat(s, Bits(message), Bits([b]));
    EightSteps(Feed(s, Bits(message)), b, Bits([b]));
    TableStepIs(Feed(s, Bits(message)), b);
  }

  lemma BitsSnoc(message: seq<bv8>, b: bv8)
    ensures Bits(message + [b]) == Bits(message) + Bits([b])
    ensures Bits([b]) ==
      [BitOf(b, 7), BitOf(b, 6), BitOf(b, 5), BitOf(b, 4), BitOf(b, 3), BitOf(b, 2), BitOf(b, 1), BitOf(b, 0)]
  {
    hide BitOf;
  }

  lemma NothingFed(s: bv16)
    ensures Feed(s, Bits([])) == s
  {
    assert Bits([]) == [];
  }

  method Crc16False(buffer: array<bv8>, start: nat, len: nat) returns (crc: bv16)
    requires start + len <= buffer.Length && len <= 0xFFFF
    ensures crc == Crc(buffer[start..start + len])
  {
    hide *;
    crc := 0xFFFF;
    CrcIs(buffer[start..start]);
    OneMoreByte(0xFFFF, [], 0);
    for k := start to start + len
      invariant crc == Feed(0xFFFF, Bits(buffer[start..k]))
    {
      OneMoreByte(0xFFFF, buffer[start..k], buffer[k]);
      TableStepParts(crc, buffer[k]);
      assert buffer[start..k] + [buffer[k]] == buffer[start..k + 1];
      crc := Xor(Table(High(crc) ^ buffer[k]), Left8(crc));
    }
    CrcIs(buffer[start..start + len]);
  }

  lemma CrcIs(message: seq<bv8>)
    ensures Crc(message) == Feed(0xFFFF, Bits(message))
  {}

  const NINE_DIGITS: seq<bv8> := [0x31, 0x32, 0x33, 0x34, 0x35, 0x36, 0x37, 0x38, 0x39]

  function Fed(s: bv16, b: bv8): bv16 { Shift8(Xor(s, Up(b))) }

  lemma NextDigit(k: nat, s: bv16)
    requires k < 9 && (k == 0 || Feed(0xFFFF, Bits(NINE_DIGITS[..k])) == s) && (k == 0 ==> s == 0xFFFF)
    ensures Feed(0xFFFF, Bits(NINE_DIGITS[..k + 1])) == Fed(s, NINE_DIGITS[k])
  {
    hide Feed, Bits, TableStep, Shift8;
    OneMoreByte(0xFFFF, NINE_DIGITS[..k], NINE_DIGITS[k]);
    TableStepIs(s, NINE_DIGITS[k]);
    assert NINE_DIGITS[..0] == [];
    assert NINE_DIGITS[..k] + [NINE_DIGITS[k]] == NINE_DIGITS[..k + 1];
  }

  lemma DigitSteps()
    ensures Fed(0xFFFF, 0x31) == 0xC782
    ensures Fed(0xC782, 0x32) == 0x3DBA
    ensures Fed(0x3DBA, 0x33) == 0x5BCE
    ensures Fed(0x5BCE, 0x34) == 0x5349
    ensures Fed(0x5349, 0x35) == 0x4560
    ensures Fed(0x4560, 0x36) == 0x2EF4
    ensures Fed(0x2EF4, 0x37) == 0x7718
    ensures Fed(0x7718, 0x38) == 0xA12B
    ensures Fed(0xA12B, 0x39) == 0x29B1
  {}

  // The check value by which CRC-16/CCITT-FALSE is known: that of the nine digits from 1 to 9.
  lemma CheckValue()
    ensures Crc(NINE_DIGITS) == 0x29B1
  {
    hide Feed, Bits, Fed;
    DigitSteps();
    NextDigit(0, 0xFFFF);
    NextDigit(1, 0xC782);
    NextDigit(2, 0x3DBA);
    NextDigit(3, 0x5BCE);
    NextDigit(4, 0x5349);
    NextDigit(5, 0x4560);
    NextDigit(6, 0x2EF4);
    NextDigit(7, 0x7718);
    NextDigit(8, 0xA12B);
    assert NINE_DIGITS[..9] == NINE_DIGITS;
  }

  function Word(hi: bv8, lo: bv8): bv16 { ((hi as bv16) << 8) | (lo as bv16) }

  // A receiver that runs the CRC over message and CRC, high byte first, ends at zero; any other
  // two trailing bytes leave something else.
  lemma Residue(message: seq<bv8>, hi: bv8, lo: bv8)
    ensures Crc(message + [hi, lo]) == 0 <==> Word(hi, lo) == Crc(message)
  {
    hide *;
    CrcIs(message);
    CrcIs(message + [hi, lo]);
    OneMoreByte(0xFFFF, message, hi);
    OneMoreByte(0xFFFF, message + [hi], lo);
    assert message + [hi] + [lo] == message + [hi, lo];
    TwoSteps(Crc(message), hi, lo);
  }

  lemma TwoSteps(s: bv16, hi: bv8, lo: bv8)
    ensures TableStep(TableStep(s, hi), lo) == 0 <==> Word(hi, lo) == s
  {
    hide *;
    var t := Xor(s, Up(hi));
    TableStepIs(s, hi);
    TableStepIs(Shift8(t), lo);
    LowByteMovesUp(lo as bv16);
    LowByte(lo);
    Shift8Xor(t, lo as bv16);
    Shift8Zero(Shift8(Xor(t, lo as bv16)));
    Shift8Zero(Xor(t, lo as bv16));
    WordBytes(hi, lo);
    XorSwap(s, Up(hi), lo as bv16);
    XorComm(lo as bv16, Up(hi));
    XorZero(s);
    if Xor(s, Word(hi, lo)) == 0 {
      XorEqual(s, Word(hi, lo));
    }
  }

  lemma LowByte(lo: bv8)
    ensures Low(lo as bv16) == lo as bv16 && Left8(lo as bv16) == Up(lo)
  {}

  lemma WordBytes(hi: bv8, lo: bv8)
    ensures Word(hi, lo) == Xor(Up(hi), lo as bv16)
  {}

  // ----- Bursts -----

  // Where two bit strings differ.
  function Difference(a: seq<bool>, b: seq<bool>): (d: seq<bool>)
    requires |a| == |b|
    ensures |d| == |a|
  {
    seq(|a|, k requires 0 <= k < |a| => a[k] != b[k])
  }

  lemma StepXor(s: bv16, t: bv16, a: bool, b: bool)
    ensures Step(Xor(s, t), a != b) == Xor(Step(s, a), Step(t, b))
  {
    hide Shift, TopBit, Xor;
    TopBitXor(a, b);
    XorFour(s, t, TopBit(a), TopBit(b));
    ShiftXor(Xor(s, TopBit(a)), Xor(t, TopBit(b)));
  }

  lemma TopBitXor(a: bool, b: bool)
    ensures TopBit(a != b) == Xor(TopBit(a), TopBit(b))
  {}

  lemma FeedLast(s: bv16, bits: seq<bool>)
    ensures bits != [] ==> Feed(s, bits) == Step(Feed(s, bits[..|bits| - 1]), bits[|bits| - 1])
    ensures bits == [] ==> Feed(s, bits) == s
  {
    hide Step;
  }

  lemma {:induction false} FeedDifference(s: bv16, t: bv16, a: seq<bool>, b: seq<bool>)
    requires |a| == |b|
    ensures Feed(Xor(s, t), Difference(a, b)) == Xor(Feed(s, a), Feed(t, b))
  {
    hide Step, Feed, Xor;
    FeedLast(s, a);
    FeedLast(t, b);
    FeedLast(Xor(s, t), Difference(a, b));
    if a != [] {
      var k := |a| - 1;
      FeedDifference(s, t, a[..k], b[..k]);
      StepXor(Feed(s, a[..k]), Feed(t, b[..k]), a[k], b[k]);
      assert Difference(a, b)[..k] == Difference(a[..k], b[..k]);
    }
  }

  lemma {:induction false} FeedNothing(s: bv16, d: seq<bool>)
    requires forall k :: 0 <= k < |d| ==> !d[k]
    ensures Feed(s, d) == 0 <==> s == 0
  {
    hide Step, Feed;
    FeedLast(s, d);
    if d != [] {
      FeedNothing(s, d[..|d| - 1]);
      NoBit(Feed(s, d[..|d| - 1]));
    }
  }

  lemma NoBit(s: bv16)
    ensures Step(s, false) == 0 <==> s == 0
  {
    hide Shift;
    XorZero(s);
    ShiftZero(s);
  }

  // The low 16 - j bits.
  function LowBits(j: nat): bv16 {
    match j
    case 0 => 0xFFFF case 1 => 0x7FFF case 2 => 0x3FFF case 3 => 0x1FFF
    case 4 => 0x0FFF case 5 => 0x07FF case 6 => 0x03FF case 7 => 0x01FF
    case 8 => 0x00FF case 9 => 0x007F case 10 => 0x003F case 11 => 0x001F
    case 12 => 0x000F case 13 => 7 case 14 => 3 case _ => 1
  }

  lemma LowBitsFacts(j: nat)
    requires j < 15
    ensures LowBits(j) & 1 == 1 && LowBits(j + 1) == LowBits(j) >> 1
  {}

  predicate Meets(s: bv16, mask: bv16) { s & mask != 0 }

  lemma StepBack(s: bv16, bit: bool, mask: bv16)
    requires mask & 1 == 1 && !Meets(Step(s, bit), mask)
    ensures !Meets(s, mask >> 1)
  {}

  // Up to 15 bits cannot bring a register with its lowest bit set to zero.
  lemma {:induction false} FeedBack(s: bv16, bits: seq<bool>, j: nat)
    requires j + |bits| <= 15 && !Meets(Feed(s, bits), LowBits(j))
    ensures !Meets(s, LowBits(j + |bits|))
    decreases |bits|
  {
    hide *;
    FeedLast(s, bits);
    if bits != [] {
      var init := bits[..|bits| - 1];
      StepBackFrom(Feed(s, init), bits[|bits| - 1], j);
      FeedBack(s, init, j + 1);
    }
  }

  lemma StepBackFrom(s: bv16, bit: bool, j: nat)
    requires j < 15 && !Meets(Step(s, bit), LowBits(j))
    ensures !Meets(s, LowBits(j + 1))
  {
    LowBitsFacts(j);
    StepBack(s, bit, LowBits(j));
    hide *;
  }

  // A first difference and up to 15 more bits, from a zero register.
  lemma ShortDifference(bits: seq<bool>)
    requires |bits| <= 15
    ensures Feed(0, [true] + bits) != 0
  {
    hide *;
    FeedConcat(0, [true], bits);
    FirstDifference();
    LowestBit(|bits|);
    if Feed(0x1021, bits) == 0 {
      FeedBack(0x1021, bits, 0);
    }
  }

  lemma FirstDifference()
    ensures Feed(0, [true]) == 0x1021
  {
    assert [true][..0] == [];
  }

  lemma LowestBit(j: nat)
    requires j <= 15
    ensures Meets(0x1021, LowBits(j)) && !Meets(0, LowBits(0))
  {}

  // Some bit differs, and all bits that do lie within 16 places.
  ghost predicate IsBurst(a: seq<bool>, b: seq<bool>, p: nat) {
    && |a| == |b| && p < |a| && a[p] != b[p]
    && forall k :: 0 <= k < |a| && a[k] != b[k] ==> p <= k < p + 16
  }

  lemma BurstChangesFeed(s: bv16, a: seq<bool>, b: seq<bool>, p: nat)
    requires IsBurst(a, b, p)
    ensures Feed(s, a) != Feed(s, b)
  {
    hide Step, Feed, Xor;
    var d := Difference(a, b);
    var end := if p + 16 <= |d| then p + 16 else |d|;
    FeedDifference(s, s, a, b);
    XorZero(s);
    assert d == (d[..p] + ([true] + d[p + 1..end])) + d[end..];
    FeedConcat(0, d[..p] + ([true] + d[p + 1..end]), d[end..]);
    FeedConcat(0, d[..p], [true] + d[p + 1..end]);
    FeedNothing(0, d[..p]);
    ShortDifference(d[p + 1..end]);
    FeedNothing(Feed(0, [true] + d[p + 1..end]), d[end..]);
    XorZero(Feed(s, a));
  }

  // Two messages of equal length that differ only within 16 consecutive bits have different CRCs.
  lemma BurstsAreDetected(a: seq<bv8>, b: seq<bv8>, p: nat)
    requires IsBurst(Bits(a), Bits(b), p)
    ensures Crc(a) != Crc(b)
  {
    hide *;
    CrcIs(a);
    CrcIs(b);
    BurstChangesFeed(0xFFFF, Bits(a), Bits(b), p);
  }
}
