/**
 Base32 of RFC 4648 section 6, without padding, as the program computes it with a 32-bit
 accumulator that wraps around.
 */
module Base32 {
  import opened Arithmetic
  import opened Numerals

  const WORD := 0x1_0000_0000

  function Letter(v: int): char
    requires 0 <= v < 32
  {
    if v < 26 then 'A' + v as char else '2' + (v - 26) as char
  }

  // -1 for a character outside the alphabet; small letters count as capitals.
  function CharValue(ch: char): (v: int)
    ensures -1 <= v < 32
  {
    if 'A' <= ch <= 'Z' then ch as int - 'A' as int
    else if 'a' <= ch <= 'z' then ch as int - 'a' as int
    else if '2' <= ch <= '7' then ch as int - '2' as int + 26
    else -1
  }

  lemma ValueOfLetter(v: int)
    requires 0 <= v < 32
    ensures CharValue(Letter(v)) == v && Letter(v) != '.'
  {}

  // ----- The text of a byte string, and back -----

  function Letters(digits: seq<int>): (text: string)
    requires AreDigits(digits, 32)
    ensures |text| == |digits|
  {
    seq(|digits|, k requires 0 <= k < |digits| => Letter(digits[k]))
  }

  // The values of the characters that belong to the alphabet.
  function Digits(text: string): (digits: seq<int>)
    ensures AreDigits(digits, 32)
  {
    if text == [] then []
    else
      var v := CharValue(text[|text| - 1]);
      Digits(text[..|text| - 1]) + if v < 0 then [] else [v]
  }

  function EncodedLength(n: nat): nat { (8 * n + 4) / 5 }

  function Pad(n: nat): (pad: nat)
    ensures pad < 5
  {
    5 * EncodedLength(n) - 8 * n
  }

  // The bytes as one number, zeros appended up to a whole digit, written in base 32.
  function Encode(bytes: seq<Byte>): (text: string)
    ensures |text| == EncodedLength(|bytes|)
  {
    var v := Value(bytes, 256) * TwoTo(Pad(|bytes|));
    NumeralIsDigits(v, 32, EncodedLength(|bytes|));
    Letters(Numeral(v, 32, EncodedLength(|bytes|)))
  }

  function NumeralBytes(v: int, n: nat): (bytes: seq<Byte>)
    ensures |bytes| == n && bytes == Numeral(v, 256, n)
  {
    NumeralIsDigits(v, 256, n);
    var digits := Numeral(v, 256, n);
    seq(n, k requires 0 <= k < n => digits[k])
  }

  function Bits(digits: seq<int>): nat { 5 * |digits| }

  // The digits as one number, the bits beyond the last whole byte dropped, written in base 256.
  function Decode(text: string): (bytes: seq<Byte>)
    ensures |bytes| == Bits(Digits(text)) / 8
  {
    var bits := Bits(Digits(text));
    NumeralBytes(Quotient(Value(Digits(text), 32), Positive(TwoTo(bits % 8))), bits / 8)
  }

  function Positive(n: int): (p: int)
    ensures p > 0
  {
    if n > 0 then n else 1
  }

  // ----- Decoding undoes encoding -----

  lemma {:induction false} DigitsOfLetters(digits: seq<int>)
    requires AreDigits(digits, 32)
    ensures Digits(Letters(digits)) == digits
  {
    if digits != [] {
      var init, last := digits[..|digits| - 1], digits[|digits| - 1];
      DigitsOfLetters(init);
      ValueOfLetter(last);
      assert Letters(digits)[..|digits| - 1] == Letters(init);
    }
  }

  lemma NumberFits(v: int, n: nat)
    requires 0 <= v < Power(256, n)
    ensures 0 <= v * TwoTo(Pad(n)) < Power(32, EncodedLength(n))
  {
    hide *;
    var m, pad := EncodedLength(n), Pad(n);
    PowerOfTwoTo(8, n);
    PowerOfTwoTo(5, m);
    SmallPowers();
    PadIs(n);
    TwoToSum(8 * n, pad);
    TwoToPositive(pad);
    ScaledBelow(v, TwoTo(8 * n), TwoTo(pad));
  }

  lemma PadIs(n: nat)
    ensures 8 * n + Pad(n) == 5 * EncodedLength(n)
  {}

  lemma ScaledBelow(v: int, m: int, t: int)
    requires 0 <= v < m && 0 < t
    ensures 0 <= v * t < m * t
  {
    MulMono(0, v, t);
    MulMono(v + 1, m, t);
  }

  lemma SmallPowers()
    ensures TwoTo(0) == 1 && TwoTo(5) == 32 && TwoTo(8) == 256
  {}

  lemma RoundTrip(bytes: seq<Byte>)
    ensures Decode(Encode(bytes)) == bytes
  {
    hide *;
    var n, v := |bytes|, Value(bytes, 256);
    var m, pad := EncodedLength(n), Pad(n);
    BytesAreDigits(bytes);
    ValueBelow(bytes, 256);
    NumberFits(v, n);
    NumeralIsDigits(v * TwoTo(pad), 32, m);
    EncodeIs(bytes);
    DigitsOfLetters(Numeral(v * TwoTo(pad), 32, m));
    ValueOfNumeral(v * TwoTo(pad), 32, m);
    LengthsMatch(n);
    DecodeIs(Encode(bytes), v * TwoTo(pad));
    TwoToPositive(pad);
    QuotientOfProduct(v, TwoTo(pad));
    NumeralOfValue(bytes, 256);
  }

  lemma BytesAreDigits(bytes: seq<Byte>)
    ensures AreDigits(bytes, 256)
  {}

  lemma EncodeIs(bytes: seq<Byte>)
    ensures var v, m := Value(bytes, 256) * TwoTo(Pad(|bytes|)), EncodedLength(|bytes|);
      AreDigits(Numeral(v, 32, m), 32) && Encode(bytes) == Letters(Numeral(v, 32, m))
  {
    NumeralIsDigits(Value(bytes, 256) * TwoTo(Pad(|bytes|)), 32, EncodedLength(|bytes|));
  }

  lemma FooValues()
    ensures Value([0x66, 0x6F, 0x6F], 256) * 2 == 13426398 == Value([12, 25, 23, 22, 30], 32)
    ensures Pad(3) == 1 && TwoTo(1) == 2 && EncodedLength(3) == 5
  {
    hide Value;
    ThreeDigits(0x66, 0x6F, 0x6F, 256);
    ThreeDigits(12, 25, 23, 32);
    ValueSnoc([12, 25, 23], 22, 32);
    ValueSnoc([12, 25, 23, 22], 30, 32);
    assert [12, 25, 23] + [22] == [12, 25, 23, 22] && [12, 25, 23, 22] + [30] == [12, 25, 23, 22, 30];
  }

  lemma FooLetters()
    ensures AreDigits([12, 25, 23, 22, 30], 32) && Letters([12, 25, 23, 22, 30]) == "MZXW6"
  {}

  // The vector of RFC 4648 for the text "foo".
  lemma KnownText()
    ensures Encode([0x66, 0x6F, 0x6F]) == "MZXW6"
  {
    hide *;
    EncodeIs([0x66, 0x6F, 0x6F]);
    FooValues();
    FooLetters();
    NumeralOfValue([12, 25, 23, 22, 30], 32);
  }

  lemma ThreeDigits(a: int, b: int, c: int, base: int)
    ensures Value([a, b, c], base) == (a * base + b) * base + c
  {
    hide Value;
    OneDigit(a, base);
    ValueSnoc([a], b, base);
    ValueSnoc([a, b], c, base);
    assert [a] + [b] == [a, b] && [a, b] + [c] == [a, b, c];
    var v := a * base + b;
    assert Value([a, b], base) == v;
  }

  lemma OneDigit(a: int, base: int)
    ensures Value([a], base) == a
  {
    assert [a][..0] == [];
  }

  lemma DecodeIs(text: string, v: int)
    requires v == Value(Digits(text), 32)
    ensures TwoTo(Bits(Digits(text)) % 8) > 0
    ensures Decode(text) == Numeral(Quotient(v, TwoTo(Bits(Digits(text)) % 8)), 256, Bits(Digits(text)) / 8)
  {
    TwoToPositive(Bits(Digits(text)) % 8);
    hide Numeral, Value, Digits, TwoTo, Quotient;
  }

  lemma LengthsMatch(n: nat)
    ensures forall digits: seq<int> :: |digits| == EncodedLength(n) ==>
      Bits(digits) / 8 == n && Bits(digits) % 8 == Pad(n)
  {}

  lemma QuotientOfProduct(v: int, t: int)
    requires t > 0
    ensures Quotient(v * t, t) == v
  {
    DivMod(v, t, 0);
  }

  // ----- The accumulator -----

  // A w-bit group enters below the bits in use; what overflows was used before.
  lemma GroupEnters(buf: int, group: int, w: nat, bits: nat)
    requires 0 <= buf && 0 <= group < TwoTo(w) && w + bits <= 32
    ensures TwoTo(bits) > 0 && TwoTo(w + bits) > 0
    ensures (buf * TwoTo(w) % WORD + group) % TwoTo(w + bits) == buf % TwoTo(bits) * TwoTo(w) + group
  {
    hide *;
    var t, rest := TwoTo(w), 32 - w - bits;
    TwoToPositive(w);
    TwoToPositive(bits);
    TwoToPositive(rest);
    TwoToPositive(bits + rest);
    TwoToSum(bits, rest);
    TwoToSum(w, bits + rest);
    TwoToSum(w, bits);
    WordIs();
    var y := buf % TwoTo(bits + rest);
    SplitRemainder(buf * t, t, TwoTo(bits + rest));
    DivMod(buf, t, 0);
    SplitRemainder(y * t + group, t, TwoTo(bits));
    DivMod(y, t, group);
    RemainderOfRemainder(buf, TwoTo(bits), TwoTo(rest));
  }

  lemma WordIs()
    ensures WORD == TwoTo(32)
  {
    TwoToSum(16, 16);
    SixteenBits();
  }

  lemma WordPositive()
    ensures WORD > 0
  {}

  lemma SixteenBits()
    ensures TwoTo(16) == 0x1_0000
  {
    TwoToSum(8, 8);
    SmallPowers();
  }

  // The highest w of the bits in use are taken out.
  lemma GroupLeaves(buf: int, w: nat, bits: nat)
    requires 0 <= buf && w <= bits
    ensures TwoTo(w) > 0 && TwoTo(bits - w) > 0 && TwoTo(bits) > 0
    ensures buf % TwoTo(bits) == (buf / TwoTo(bits - w) % TwoTo(w)) * TwoTo(bits - w) + buf % TwoTo(bits - w)
  {
    hide *;
    TwoToPositive(w);
    TwoToPositive(bits);
    TwoToPositive(bits - w);
    TwoToSum(bits - w, w);
    SplitRemainder(buf, TwoTo(bits - w), TwoTo(w));
  }

  // After some bytes: what is written and the bits in use together are the number read.
  ghost predicate Encoding(v: int, out: string, buf: int, bits: nat) {
    && 0 <= buf && TwoTo(bits) > 0
    && var written := Quotient(v, TwoTo(bits));
       AreDigits(Numeral(written, 32, |out|), 32) && out == Letters(Numeral(written, 32, |out|))
         && buf % TwoTo(bits) == Modulo(v, TwoTo(bits))
  }

  lemma ByteRead(v: int, out: string, buf: int, bits: nat, b: Byte)
    requires Encoding(v, out, buf, bits) && bits < 5
    ensures Encoding(v * 256 + b, out, buf * 256 % WORD + b, bits + 8)
  {
    hide Numeral, Letters, AreDigits, Quotient, Modulo, TwoTo;
    SmallPowers();
    GroupEnters(buf, b, 8, bits);
    RemainderBound(v, TwoTo(bits));
    var q, r := Quotient(v, TwoTo(bits)), Modulo(v, TwoTo(bits));
    TwoToSum(bits, 8);
    assert v * 256 + b == Product(q, TwoTo(bits + 8)) + (r * 256 + b) by {
      assert q * TwoTo(bits) * 256 == q * (TwoTo(bits) * 256);
    }
    MulMono(r + 1, TwoTo(bits), 256);
    QuotientFacts(q, TwoTo(bits + 8), r * 256 + b);
  }

  lemma DigitWritten(v: int, out: string, buf: int, bits: nat)
    requires Encoding(v, out, buf, bits) && bits >= 5
    ensures TwoTo(bits - 5) > 0 && 0 <= buf / TwoTo(bits - 5) % 32 < 32
    ensures Encoding(v, out + [Letter(buf / TwoTo(bits - 5) % 32)], buf, bits - 5)
  {
    hide Numeral, Letters, AreDigits, Quotient, Modulo, TwoTo, Letter;
    SmallPowers();
    GroupLeaves(buf, 5, bits);
    var t, d := TwoTo(bits - 5), buf / TwoTo(bits - 5) % 32;
    RemainderBound(v, TwoTo(bits));
    var q, r := Quotient(v, TwoTo(bits)), buf % t;
    TwoToSum(bits - 5, 5);
    assert v == Product(q * 32 + d, t) + r by {
      assert (q * 32 + d) * t == q * (t * 32) + d * t;
    }
    QuotientFacts(q * 32 + d, t, r);
    NextLetter(q, d, out);
  }

  lemma NextLetter(q: int, d: int, out: string)
    requires 0 <= d < 32
    requires AreDigits(Numeral(q, 32, |out|), 32) && out == Letters(Numeral(q, 32, |out|))
    ensures AreDigits(Numeral(q * 32 + d, 32, |out| + 1), 32)
      && out + [Letter(d)] == Letters(Numeral(q * 32 + d, 32, |out| + 1))
  {
    NumeralSnoc(q, d, 32, |out|);
    hide Numeral, Letter;
  }

  lemma NothingWritten()
    ensures Encoding(0, "", 0, 0)
  {}

  // The bits left over, shifted up to a whole digit.
  lemma LastDigitWritten(v: int, out: string, buf: int, bits: nat)
    requires Encoding(v, out, buf, bits) && 0 < bits < 5
    ensures TwoTo(5 - bits) > 0 && 0 <= buf * TwoTo(5 - bits) % WORD % 32 < 32
    ensures Encoding(v * TwoTo(5 - bits), out + [Letter(buf * TwoTo(5 - bits) % WORD % 32)], 0, 0)
  {
    hide Numeral, Letters, AreDigits, Quotient, Modulo, TwoTo, Letter;
    SmallPowers();
    TwoToPositive(5 - bits);
    GroupEnters(buf, 0, 5 - bits, bits);
    var t := TwoTo(5 - bits);
    var d := buf * t % WORD % 32;
    RemainderBound(v, TwoTo(bits));
    var q := Quotient(v, TwoTo(bits));
    TwoToSum(bits, 5 - bits);
    assert Modulo(v, TwoTo(bits)) * t == d;
    Regroup(q, TwoTo(bits), Modulo(v, TwoTo(bits)), t);
    QuotientFacts(q * 32 + d, 1, 0);
    NextLetter(q, d, out);
  }

  lemma Regroup(q: int, m: int, r: int, t: int)
    ensures (Product(q, m) + r) * t == q * (m * t) + r * t
  {
    assert q * m * t == q * (m * t);
  }

  lemma AllWritten(v: int, out: string, buf: int)
    requires Encoding(v, out, buf, 0)
    ensures AreDigits(Numeral(v, 32, |out|), 32) && out == Letters(Numeral(v, 32, |out|))
  {}

  method EncodeBase32(bytes: seq<Byte>) returns (out: string)
    ensures out == Encode(bytes)
  {
    hide *;
    out := "";
    var buf, bits := 0, 0;
    NothingWritten();
    WordPositive();
    ValueOfPrefix(bytes, 0);
    for i := 0 to |bytes|
      invariant 0 <= bits < 5 && 5 * |out| + bits == 8 * i
      invariant Encoding(Value(bytes[..i], 256), out, buf, bits)
    {
      ValueOfPrefix(bytes, i);
      ByteRead(Value(bytes[..i], 256), out, buf, bits, bytes[i]);
      buf := buf * 256 % WORD + bytes[i];
      bits := bits + 8;
      while bits >= 5
        invariant 0 <= bits && 5 * |out| + bits == 8 * (i + 1)
        invariant Encoding(Value(bytes[..i + 1], 256), out, buf, bits)
      {
        DigitWritten(Value(bytes[..i + 1], 256), out, buf, bits);
        out := out + [Letter(buf / TwoTo(bits - 5) % 32)];
        bits := bits - 5;
      }
    }
    assert bytes[..|bytes|] == bytes;
    PadOf(|bytes|, |out|, bits);
    if bits > 0 {
      LastDigitWritten(Value(bytes, 256), out, buf, bits);
      out := out + [Letter(buf * TwoTo(5 - bits) % WORD % 32)];
      AllWritten(Value(bytes, 256) * TwoTo(5 - bits), out, 0);
    } else {
      AllWritten(Value(bytes, 256), out, buf);
      SmallPowers();
    }
    EncodeIs(bytes);
  }

  lemma ValueOfPrefix(bytes: seq<Byte>, i: nat)
    requires i <= |bytes|
    ensures i < |bytes| ==> Value(bytes[..i + 1], 256) == Value(bytes[..i], 256) * 256 + bytes[i]
    ensures Value(bytes[..0], 256) == 0
  {
    if i < |bytes| {
      assert bytes[..i + 1] == bytes[..i] + [bytes[i]];
      ValueSnoc(bytes[..i], bytes[i], 256);
    }
  }

  lemma PadOf(n: nat, written: nat, bits: nat)
    requires bits < 5 && 5 * written + bits == 8 * n
    ensures bits == 0 ==> Pad(n) == 0 && EncodedLength(n) == written
    ensures bits > 0 ==> Pad(n) == 5 - bits && EncodedLength(n) == written + 1
  {}

  // ----- Decoding -----

  ghost predicate Decoding(v: int, out: seq<int>, buf: int, bits: nat) {
    && 0 <= buf && TwoTo(bits) > 0
    && out == Numeral(Quotient(v, TwoTo(bits)), 256, |out|) && buf % TwoTo(bits) == Modulo(v, TwoTo(bits))
  }

  lemma DigitRead(v: int, out: seq<int>, buf: int, bits: nat, d: int)
    requires Decoding(v, out, buf, bits) && bits < 8 && 0 <= d < 32
    ensures Decoding(v * 32 + d, out, buf * 32 % WORD + d, bits + 5)
  {
    hide Numeral, Quotient, Modulo, TwoTo;
    SmallPowers();
    GroupEnters(buf, d, 5, bits);
    RemainderBound(v, TwoTo(bits));
    var q, r := Quotient(v, TwoTo(bits)), Modulo(v, TwoTo(bits));
    TwoToSum(bits, 5);
    assert v * 32 + d == Product(q, TwoTo(bits + 5)) + (r * 32 + d) by {
      assert q * TwoTo(bits) * 32 == q * (TwoTo(bits) * 32);
    }
    MulMono(r + 1, TwoTo(bits), 32);
    QuotientFacts(q, TwoTo(bits + 5), r * 32 + d);
  }

  lemma ByteWritten(v: int, out: seq<int>, buf: int, bits: nat)
    requires Decoding(v, out, buf, bits) && bits >= 8
    ensures TwoTo(bits - 8) > 0 && 0 <= buf / TwoTo(bits - 8) % 256 < 256
    ensures Decoding(v, out + [buf / TwoTo(bits - 8) % 256], buf, bits - 8)
  {
    hide Numeral, Quotient, Modulo, TwoTo;
    SmallPowers();
    GroupLeaves(buf, 8, bits);
    var t, d := TwoTo(bits - 8), buf / TwoTo(bits - 8) % 256;
    RemainderBound(v, TwoTo(bits));
    var q, r := Quotient(v, TwoTo(bits)), buf % t;
    TwoToSum(bits - 8, 8);
    assert v == Product(q * 256 + d, t) + r by {
      assert (q * 256 + d) * t == q * (t * 256) + d * t;
    }
    QuotientFacts(q * 256 + d, t, r);
    NumeralSnoc(q, d, 256, |out|);
  }

  lemma DigitsOfPrefix(text: string, i: nat)
    requires i < |text|
    ensures CharValue(text[i]) < 0 ==> Digits(text[..i + 1]) == Digits(text[..i])
    ensures CharValue(text[i]) >= 0 ==> Digits(text[..i + 1]) == Digits(text[..i]) + [CharValue(text[i])]
  {
    assert text[..i + 1][..i] == text[..i];
  }

  lemma {:induction false} FewerDigits(text: string, i: nat)
    requires i <= |text|
    ensures |Digits(text[..i])| <= |Digits(text)|
    decreases |text| - i
  {
    hide CharValue;
    if i < |text| {
      DigitsOfPrefix(text, i);
      FewerDigits(text, i + 1);
    } else {
      assert text[..i] == text;
    }
  }

  lemma NothingRead()
    ensures Digits("") == [] && Value([], 32) == 0 && Decoding(0, [], 0, 0)
  {}

  lemma AllRead(text: string, out: seq<int>, buf: int, bits: nat)
    requires Decoding(Value(Digits(text), 32), out, buf, bits) && bits < 8 && 8 * |out| + bits == Bits(Digits(text))
    ensures out == Decode(text)
  {
    hide Numeral, Quotient, Modulo, TwoTo, Digits;
    DecodeIs(text, Value(Digits(text), 32));
  }

  // The number of bytes written, or 0 if they do not fit.
  method DecodeBase32(text: string, out: array<Byte>) returns (o: nat)
    modifies out
    ensures |Decode(text)| <= out.Length ==> o == |Decode(text)| && out[..o] == Decode(text)
    ensures |Decode(text)| > out.Length ==> o == 0
  {
    hide *;
    var buf, bits := 0, 0;
    o := 0;
    NothingRead();
    WordPositive();
    BitsIs([]);
    assert text[..0] == "" && out[..0] == [];
    for i := 0 to |text|
      invariant 0 <= bits < 8 && o <= out.Length && 8 * o + bits == Bits(Digits(text[..i]))
      invariant Decoding(Value(Digits(text[..i]), 32), out[..o], buf, bits)
    {
      DigitsOfPrefix(text, i);
      var v := CharValue(text[i]);
      if v < 0 {
        continue;
      }
      ghost var digits := Digits(text[..i]);
      ValueSnoc(digits, v, 32);
      BitsIs(digits);
      BitsIs(digits + [v]);
      DigitRead(Value(digits, 32), out[..o], buf, bits, v);
      buf := buf * 32 % WORD + v;
      bits := bits + 5;
      if bits >= 8 {
        if o >= out.Length {
          FewerDigits(text, i + 1);
          BitsIs(Digits(text));
          return 0;
        }
        ByteWritten(Value(digits + [v], 32), out[..o], buf, bits);
        ghost var written := out[..o];
        out[o] := buf / TwoTo(bits - 8) % 256;
        o := o + 1;
        assert out[..o] == written + [out[o - 1]];
        bits := bits - 8;
      }
    }
    assert text[..|text|] == text;
    AllRead(text, out[..o], buf, bits);
  }

  lemma BitsIs(digits: seq<int>)
    ensures Bits(digits) == 5 * |digits|
  {}
}
