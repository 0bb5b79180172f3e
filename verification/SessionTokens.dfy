/**
 Session tokens: base32(payload) + "." + base32(HMAC of that text). The HMAC is an arbitrary
 function, which may fail; the clock is a parameter.
 */
module SessionTokens {
  import Arithmetic
  import opened Options
  import opened Numerals
  import opened Base32

  type Hmac = (seq<Byte>, string) -> Option<seq<Byte>>

  // ----- The packed payload: three little-endian 32-bit fields -----

  function Le32(x: int): (bytes: seq<Byte>)
    ensures |bytes| == 4
  {
    [x % 256, x / 0x100 % 256, x / 0x1_0000 % 256, x / 0x100_0000 % 256]
  }

  function ReadLe32(bytes: seq<Byte>, i: nat): (x: int)
    requires i + 4 <= |bytes|
    ensures 0 <= x < WORD
  {
    bytes[i] as int + 0x100 * bytes[i + 1] as int + 0x1_0000 * bytes[i + 2] as int + 0x100_0000 * bytes[i + 3] as int
  }

  lemma Le32RoundTrip(x: int)
    requires 0 <= x < WORD
    ensures ReadLe32(Le32(x), 0) == x
  {
    var y := x / 0x100;
    Shorter(x);
    assert y == y / 0x100 * 0x100 + y % 0x100;
    var z := y / 0x100;
    assert z == z / 0x100 * 0x100 + z % 0x100;
    assert 0 <= z / 0x100 < 0x100;
  }

  lemma Shorter(x: int)
    requires 0 <= x < WORD
    ensures x / 0x1_0000 == x / 0x100 / 0x100 && x / 0x100_0000 == x / 0x100 / 0x100 / 0x100
  {}

  datatype Payload = Payload(iat: int, exp: int, bid: int) {
    function Pack(): (bytes: seq<Byte>)
      ensures |bytes| == 12
    {
      Le32(iat) + Le32(exp) + Le32(bid)
    }

    predicate InRange() { 0 <= iat < WORD && 0 <= exp < WORD && 0 <= bid < WORD }
  }

  function Unpack(bytes: seq<Byte>): Payload
    requires |bytes| == 12
  {
    Payload(ReadLe32(bytes, 0), ReadLe32(bytes, 4), ReadLe32(bytes, 8))
  }

  lemma UnpackPacked(p: Payload)
    requires p.InRange()
    ensures Unpack(p.Pack()) == p
  {
    hide Le32, ReadLe32;
    Le32RoundTrip(p.iat);
    Le32RoundTrip(p.exp);
    Le32RoundTrip(p.bid);
    ReadSlice(p.Pack(), 0);
    ReadSlice(p.Pack(), 4);
    ReadSlice(p.Pack(), 8);
    assert p.Pack()[0..4] == Le32(p.iat) && p.Pack()[4..8] == Le32(p.exp) && p.Pack()[8..12] == Le32(p.bid);
  }

  lemma ReadSlice(bytes: seq<Byte>, i: nat)
    requires i + 4 <= |bytes|
    ensures ReadLe32(bytes, i) == ReadLe32(bytes[i..i + 4], 0)
  {}

  // ----- Tokens -----

  // The payload of a token minted at time t; both times are cut to 32 bits.
  function PayloadAt(t: int, ttl: int, bootId: int): Payload {
    Payload(t % WORD, (t + ttl) % WORD, bootId)
  }

  function PayloadText(t: int, ttl: int, bootId: int): string { Encode(PayloadAt(t, ttl, bootId).Pack()) }

  function TokenText(payloadText: string, mac: seq<Byte>): string { payloadText + "." + Encode(mac) }

  // The place of the first dot, or -1.
  function Dot(token: string): (i: int)
    ensures -1 <= i < |token|
    ensures i >= 0 ==> token[i] == '.' && forall k :: 0 <= k < i ==> token[k] != '.'
    ensures i < 0 ==> forall k :: 0 <= k < |token| ==> token[k] != '.'
  {
    if token == "" then -1
    else
      var i := Dot(token[..|token| - 1]);
      if i >= 0 then i else if token[|token| - 1] == '.' then |token| - 1 else -1
  }

  // What a payload must satisfy at time s.
  predicate Current(p: Payload, bootId: int, s: int) {
    s < p.exp && p.iat <= s + 300 && p.bid == bootId
  }

  predicate Accepts(token: string, key: seq<Byte>, bootId: int, hmac: Hmac, s: int) {
    var i := Dot(token);
    && 0 < i < |token| - 1
    && var payload, mac := Decode(token[..i]), Decode(token[i + 1..]);
       |payload| == 12 && |mac| == 32 && hmac(key, token[..i]) == Some(mac) && Current(Unpack(payload), bootId, s)
  }

  class Otp {
    var sessKey: seq<Byte>
    var bootId: int
    var hasSessKey: bool

    constructor (sessKey: seq<Byte>, bootId: int)
      requires 0 <= bootId < WORD
      ensures this.sessKey == sessKey && this.bootId == bootId && hasSessKey
    {
      this.sessKey, this.bootId, hasSessKey := sessKey, bootId, true;
    }

    method MintSessionToken(ttl: int, now: int, hmac: Hmac) returns (token: string)
      requires 0 <= ttl < WORD
      ensures token == "" <==> !hasSessKey || ttl == 0 || hmac(sessKey, PayloadText(now, ttl, bootId)) == None
      ensures token != "" ==> hmac(sessKey, PayloadText(now, ttl, bootId)).Some?
      ensures token != "" ==>
        token == TokenText(PayloadText(now, ttl, bootId), hmac(sessKey, PayloadText(now, ttl, bootId)).value)
    {
      hide Encode;
      if !hasSessKey {
        return "";
      }
      if ttl == 0 {
        return "";
      }
      var payload := Payload(now % WORD, (now + ttl) % WORD, bootId);
      var payloadText := EncodeBase32(payload.Pack());
      var mac := hmac(sessKey, payloadText);
      if mac.None? {
        return "";
      }
      var signature := EncodeBase32(mac.value);
      token := payloadText + "." + signature;
    }

    method VerifySessionToken(token: string, now: int, hmac: Hmac) returns (ok: bool)
      ensures ok <==> hasSessKey && Accepts(token, sessKey, bootId, hmac, now)
    {
      hide Decode, Unpack;
      if !hasSessKey || token == "" {
        return false;
      }
      var dot := Memchr(token, '.');
      if dot < 0 {
        return false;
      }
      if dot == 0 || |token| - dot - 1 == 0 {
        return false;
      }
      var pbuf := new Byte[32];
      var plen := DecodeBase32(token[..dot], pbuf);
      if plen != 12 {
        return false;
      }
      var sref := new Byte[32];
      var srefLen := DecodeBase32(token[dot + 1..], sref);
      if srefLen != 32 {
        return false;
      }
      var mac := hmac(sessKey, token[..dot]);
      if mac.None? || mac.value != sref[..] {
        return false;
      }
      assert sref[..32] == sref[..];
      var pl := Unpack(pbuf[..12]);
      if pl.exp <= now {
        return false;
      }
      if pl.iat > now + 300 {
        return false;
      }
      return pl.bid == bootId;
    }
  }

  method Memchr(token: string, ch: char) returns (i: int)
    requires ch == '.'
    ensures i == Dot(token)
  {
    i := 0;
    while i < |token|
      invariant 0 <= i <= |token| && forall k :: 0 <= k < i ==> token[k] != '.'
    {
      if token[i] == ch {
        return;
      }
      i := i + 1;
    }
    i := -1;
  }

  // ----- Minted tokens -----

  lemma {:induction false} NoDotInLetters(digits: seq<int>)
    requires AreDigits(digits, 32)
    ensures forall k :: 0 <= k < |Letters(digits)| ==> Letters(digits)[k] != '.'
  {
    forall k | 0 <= k < |digits| ensures Letters(digits)[k] != '.' {
      ValueOfLetter(digits[k]);
    }
  }

  lemma EncodedHasNoDot(bytes: seq<Byte>)
    ensures '.' !in Encode(bytes)
  {
    hide Encode, Letters, Numeral, Value;
    EncodeIs(bytes);
    NoDotInLetters(Numeral(Value(bytes, 256) * Arithmetic.TwoTo(Pad(|bytes|)), 32, EncodedLength(|bytes|)));
  }

  lemma DotAfter(text: string, rest: string)
    requires '.' !in text
    ensures Dot(text + "." + rest) == |text|
    ensures (text + "." + rest)[..|text|] == text && (text + "." + rest)[|text| + 1..] == rest
  {
    hide Dot;
    var token := text + "." + rest;
    assert token[|text|] == '.' && forall k :: 0 <= k < |text| ==> token[k] == text[k];
  }

  // A token made of two byte strings is accepted exactly if the first is a payload that has not
  // expired, was issued at most five minutes ahead of the clock and has the boot id, and the
  // second is the HMAC of its text.
  lemma AcceptedExactlyWhen(bytes: seq<Byte>, mac: seq<Byte>, key: seq<Byte>, bootId: int, now: int, hmac: Hmac)
    ensures Accepts(TokenText(Encode(bytes), mac), key, bootId, hmac, now) <==>
      && |bytes| == 12 && |mac| == 32 && hmac(key, Encode(bytes)) == Some(mac)
      && var p := Unpack(bytes); now < p.exp && p.iat <= now + 300 && p.bid == bootId
  {
    hide Encode, Decode, Unpack, Dot;
    var text := Encode(bytes);
    EncodedHasNoDot(bytes);
    DotAfter(text, Encode(mac));
    RoundTrip(bytes);
    RoundTrip(mac);
    EncodedSizes();
  }

  // With the same text before the dot only one signature is accepted.
  lemma OneSignature(text: string, first: string, second: string, key: seq<Byte>, bootId: int, laterBootId: int,
      now: int, later: int, hmac: Hmac)
    requires '.' !in text
    requires Accepts(text + "." + first, key, bootId, hmac, now)
    requires Accepts(text + "." + second, key, laterBootId, hmac, later)
    ensures Decode(first) == Decode(second)
  {
    hide Decode, Dot, Unpack;
    DotAfter(text, first);
    DotAfter(text, second);
  }

  // When a minted token with any signature is accepted; the boot id may have been changed since.
  lemma MintedTokenAccepted(t: int, ttl: int, key: seq<Byte>, bootId: int, now: int, laterBootId: int, hmac: Hmac,
      mac: seq<Byte>)
    requires 0 <= bootId < WORD
    ensures Accepts(TokenText(PayloadText(t, ttl, bootId), mac), key, laterBootId, hmac, now) <==>
      && |mac| == 32 && hmac(key, PayloadText(t, ttl, bootId)) == Some(mac)
      && now < (t + ttl) % WORD && t % WORD <= now + 300 && laterBootId == bootId
  {
    hide Encode, Accepts, Unpack, Payload.Pack;
    var p := PayloadAt(t, ttl, bootId);
    AcceptedExactlyWhen(p.Pack(), mac, key, laterBootId, now, hmac);
    UnpackPacked(p);
  }

  lemma EncodedSizes()
    ensures EncodedLength(12) == 20 && EncodedLength(32) == 52
  {}

  // Without overflow of the expiry: exactly while it has not expired, from five minutes before
  // the issuing clock on.
  lemma TokenLifetime(t: int, ttl: int, key: seq<Byte>, bootId: int, now: int, hmac: Hmac, mac: seq<Byte>)
    requires 0 <= bootId < WORD && |mac| == 32 && 0 <= t && 0 < ttl && t + ttl < WORD
    requires hmac(key, PayloadText(t, ttl, bootId)) == Some(mac)
    ensures Accepts(TokenText(PayloadText(t, ttl, bootId), mac), key, bootId, hmac, now) <==>
      now < t + ttl && t <= now + 300
  {
    hide *;
    MintedTokenAccepted(t, ttl, key, bootId, now, bootId, hmac, mac);
    NoOverflow(t);
    NoOverflow(t + ttl);
  }

  lemma NoOverflow(t: int)
    ensures WORD > 0 && (0 <= t < WORD ==> t % WORD == t)
  {}

  // After the boot id has changed no old token is accepted, whatever the new key.
  lemma OldTokensRejected(t: int, ttl: int, bootId: int, mac: seq<Byte>, laterKey: seq<Byte>, laterBootId: int,
      now: int, hmac: Hmac)
    requires 0 <= bootId < WORD && laterBootId != bootId
    ensures !Accepts(TokenText(PayloadText(t, ttl, bootId), mac), laterKey, laterBootId, hmac, now)
  {
    hide *;
    MintedTokenAccepted(t, ttl, laterKey, bootId, now, laterBootId, hmac, mac);
  }
}
