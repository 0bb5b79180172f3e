/**
 Numbers and byte strings as the text of cluster messages, and the cutting of a message into
 its fields.
 */
module ClusterText {
  import opened Options
  import opened Numerals

  const UINT32_MAX := 0xFFFF_FFFF
  const INT32_MAX := 0x7FFF_FFFF

  // ----- Decimal numbers -----

  predicate IsDigit(c: char) { '0' <= c <= '9' }

  function DigitChar(d: int): (c: char)
    requires 0 <= d < 10
    ensures IsDigit(c) && DigitValue(c) == d
  {
    '0' + d as char
  }

  function DigitValue(c: char): int { c as int - '0' as int }

  predicate AllDigits(s: string) { forall k :: 0 <= k < |s| ==> IsDigit(s[k]) }

  // What %u and %lu print.
  function Decimal(n: nat): (s: string)
    ensures |s| > 0 && AllDigits(s)
  {
    if n < 10 then [DigitChar(n)] else Decimal(n / 10) + [DigitChar(n % 10)]
  }

  function DecimalValue(s: string): int {
    if s == "" then 0 else DecimalValue(s[..|s| - 1]) * 10 + DigitValue(s[|s| - 1])
  }

  function LeadingDigits(s: string): (d: string)
    ensures AllDigits(d) && d <= s
  {
    if s == "" || !IsDigit(s[0]) then "" else [s[0]] + LeadingDigits(s[1..])
  }

  // In front of a number the C library skips blanks and takes a sign.
  predicate IsBlank(c: char) { c == ' ' || '\t' <= c <= '\r' }

  function SkipBlanks(s: string): string {
    if s != "" && IsBlank(s[0]) then SkipBlanks(s[1..]) else s
  }

  predicate HasSign(s: string) { s != "" && (s[0] == '+' || s[0] == '-') }

  predicate IsNegative(s: string) { s != "" && s[0] == '-' }

  function Unsigned(s: string): string { if HasSign(s) then s[1..] else s }

  // The result for the number v read from s: saturating, and negated in 32 bits after a minus.
  function Wrapped(s: string, v: int): int {
    if v > UINT32_MAX then UINT32_MAX else if IsNegative(s) then (UINT32_MAX + 1 - v) % (UINT32_MAX + 1) else v
  }

  // What strtoul reads in base 10.
  function StrToUl(s: string): int {
    var t := SkipBlanks(s);
    Wrapped(t, DecimalValue(LeadingDigits(Unsigned(t))))
  }

  // What atoi reads.
  function Atoi(s: string): int {
    var t := SkipBlanks(s);
    var v := DecimalValue(LeadingDigits(Unsigned(t)));
    if IsNegative(t) then (if v > INT32_MAX then -INT32_MAX - 1 else -v) else if v > INT32_MAX then INT32_MAX else v
  }

  // Neither a blank nor a sign stands in front.
  predicate StartsPlainly(s: string) { s == "" || (!IsBlank(s[0]) && s[0] != '+' && s[0] != '-') }

  lemma PlainNumber(s: string)
    requires StartsPlainly(s)
    ensures SkipBlanks(s) == s && Unsigned(s) == s && !IsNegative(s)
  {}

  lemma {:induction false} LeadingDigitsOfDigits(s: string, rest: string)
    requires AllDigits(s) && (rest == "" || !IsDigit(rest[0]))
    ensures LeadingDigits(s + rest) == s
  {
    if s != "" {
      LeadingDigitsOfDigits(s[1..], rest);
      assert (s + rest)[1..] == s[1..] + rest;
    } else {
      assert s + rest == rest;
    }
  }

  lemma {:induction false} ValueOfDecimal(n: nat)
    ensures DecimalValue(Decimal(n)) == n
  {
    if n >= 10 {
      ValueOfDecimal(n / 10);
      assert Decimal(n)[..|Decimal(n)| - 1] == Decimal(n / 10);
    }
  }

  lemma ReadDecimal(n: nat)
    ensures n <= UINT32_MAX ==> StrToUl(Decimal(n)) == n
    ensures n <= INT32_MAX ==> Atoi(Decimal(n)) == n
  {
    hide Decimal, DecimalValue, LeadingDigits;
    LeadingDigitsOfDigits(Decimal(n), "");
    assert Decimal(n) + "" == Decimal(n) && IsDigit(Decimal(n)[0]);
    PlainNumber(Decimal(n));
    hide SkipBlanks, Unsigned, IsNegative;
    ValueOfDecimal(n);
  }

  lemma {:induction false} DigitsAreNonNegative(s: string)
    requires AllDigits(s)
    ensures DecimalValue(s) >= 0
  {
    if s != "" {
      assert IsDigit(s[|s| - 1]);
      DigitsAreNonNegative(s[..|s| - 1]);
    }
  }

  lemma StrToUlIsWord(s: string)
    ensures 0 <= StrToUl(s) <= UINT32_MAX
  {
    DigitsAreNonNegative(LeadingDigits(Unsigned(SkipBlanks(s))));
    hide LeadingDigits, DecimalValue, SkipBlanks, Unsigned;
  }

  // One decimal place: what %.1f prints of a number of tenths, and what is read back of it.
  function Tenths(n: nat): string { Decimal(n / 10) + "." + [DigitChar(n % 10)] }

  function ReadTenths(s: string): int {
    var whole := LeadingDigits(s);
    DecimalValue(whole) * 10
    + if |s| > |whole| + 1 && s[|whole|] == '.' && IsDigit(s[|whole| + 1]) then DigitValue(s[|whole| + 1]) else 0
  }

  lemma TenthsRoundTrip(n: nat)
    ensures ReadTenths(Tenths(n)) == n
  {
    hide Decimal, DecimalValue, LeadingDigits;
    var rest := "." + [DigitChar(n % 10)];
    assert Tenths(n) == Decimal(n / 10) + rest;
    LeadingDigitsOfDigits(Decimal(n / 10), rest);
    ValueOfDecimal(n / 10);
  }

  // ----- Bytes in hexadecimal -----

  function HexChar(v: int): (c: char)
    requires 0 <= v < 16
    ensures HexValue(c) == v && IsPlain(c)
  {
    if v < 10 then '0' + v as char else 'a' + (v - 10) as char
  }

  function UpperHexChar(v: int): (c: char)
    requires 0 <= v < 16
    ensures HexValue(c) == v && IsPlain(c)
  {
    if v < 10 then '0' + v as char else 'A' + (v - 10) as char
  }

  function HexValue(c: char): (v: int)
    ensures -1 <= v < 16
  {
    if '0' <= c <= '9' then c as int - '0' as int
    else if 'a' <= c <= 'f' then c as int - 'a' as int + 10
    else if 'A' <= c <= 'F' then c as int - 'A' as int + 10
    else -1
  }

  function HexOf(bytes: seq<Byte>): (s: string)
    ensures |s| == 2 * |bytes|
  {
    seq(2 * |bytes|,
      k requires 0 <= k < 2 * |bytes| => HexChar(if k % 2 == 0 then bytes[k / 2] / 16 else bytes[k / 2] % 16))
  }

  // What scanning two hexadecimal digits at i gives, as a byte, or -1. Blanks are skipped; a sign
  // takes the place of a digit.
  function Scan2x(s: string, i: nat): (v: int)
    ensures -1 <= v < 256
  {
    if i >= |s| then -1 else ScanPair(SkipBlanks(s[i..]))
  }

  function ScanPair(t: string): (v: int)
    ensures -1 <= v < 256
  {
    if HasSign(t) then
      if |t| < 2 || HexValue(t[1]) < 0 then -1 else if IsNegative(t) then (256 - HexValue(t[1])) % 256
        else HexValue(t[1])
    else if t == "" || HexValue(t[0]) < 0 then -1
    else if |t| < 2 || HexValue(t[1]) < 0 then HexValue(t[0])
    else 16 * HexValue(t[0]) + HexValue(t[1])
  }

  lemma ScanOfDigits(s: string, i: nat)
    requires i + 1 < |s| && HexValue(s[i]) >= 0 && HexValue(s[i + 1]) >= 0
    ensures Scan2x(s, i) == 16 * HexValue(s[i]) + HexValue(s[i + 1])
  {
    PlainNumber(s[i..]);
  }

  // The number of bytes read before the first one that cannot be scanned.
  function Scannable(hex: string, i: nat): (n: nat)
    requires i <= |hex| / 2
    ensures i <= n <= |hex| / 2 && forall k :: i <= k < n ==> Scan2x(hex, 2 * k) >= 0
    ensures n < |hex| / 2 ==> Scan2x(hex, 2 * n) < 0
    decreases |hex| / 2 - i
  {
    if i == |hex| / 2 || Scan2x(hex, 2 * i) < 0 then i else Scannable(hex, i + 1)
  }

  function ReadCount(hex: string, room: nat): (n: nat)
    ensures n <= room && n <= |hex| / 2
  {
    if |hex| % 2 != 0 || |hex| / 2 > room then 0 else Scannable(hex, 0)
  }

  // What reading hex leaves in dst, and the returned count: -1 for odd length, too much, or a
  // character that is no digit.
  function HexInto(hex: string, dst: seq<Byte>): (after: seq<Byte>)
    ensures |after| == |dst|
  {
    var n := ReadCount(hex, |dst|);
    seq(|dst|, i requires 0 <= i < |dst| =>
      if i < n then (if Scan2x(hex, 2 * i) >= 0 then Scan2x(hex, 2 * i) else 0) else dst[i])
  }

  function HexCount(hex: string, room: nat): int {
    if |hex| % 2 != 0 || |hex| / 2 > room || Scannable(hex, 0) < |hex| / 2 then -1 else |hex| / 2
  }

  lemma ScanOfHex(bytes: seq<Byte>, i: nat)
    requires i < |bytes|
    ensures Scan2x(HexOf(bytes), 2 * i) == bytes[i]
  {
    hide HexChar, HexValue, Scan2x;
    ScanOfDigits(HexOf(bytes), 2 * i);
  }

  lemma HexRoundTrip(bytes: seq<Byte>, dst: seq<Byte>)
    requires |bytes| <= |dst|
    ensures HexInto(HexOf(bytes), dst) == bytes + dst[|bytes|..] && HexCount(HexOf(bytes), |dst|) == |bytes|
  {
    hide HexOf, Scan2x;
    var n := Scannable(HexOf(bytes), 0);
    forall i | 0 <= i < |bytes| ensures Scan2x(HexOf(bytes), 2 * i) == bytes[i] {
      ScanOfHex(bytes, i);
    }
    assert n == |bytes|;
  }

  method BytesToHex(bytes: seq<Byte>, hexOut: array<char>)
    requires 2 * |bytes| < hexOut.Length
    modifies hexOut
    ensures hexOut[..2 * |bytes|] == HexOf(bytes) && hexOut[2 * |bytes|] == '\0'
  {
    hide HexChar;
    for i := 0 to |bytes|
      invariant hexOut[..2 * i] == HexOf(bytes)[..2 * i]
    {
      hexOut[2 * i] := HexChar(bytes[i] / 16);
      hexOut[2 * i + 1] := HexChar(bytes[i] % 16);
    }
    hexOut[2 * |bytes|] := '\0';
  }

  method HexToBytes(hex: string, bytes: array<Byte>) returns (n: int)
    modifies bytes
    ensures bytes[..] == HexInto(hex, old(bytes[..])) && n == HexCount(hex, bytes.Length)
  {
    hide Scan2x;
    if |hex| % 2 != 0 {
      return -1;
    }
    var count := |hex| / 2;
    if count > bytes.Length {
      return -1;
    }
    for i := 0 to count
      invariant Scannable(hex, 0) == Scannable(hex, i)
      invariant forall k :: 0 <= k < i ==> bytes[k] == Scan2x(hex, 2 * k) >= 0
      invariant forall k :: i <= k < bytes.Length ==> bytes[k] == old(bytes[k])
    {
      var val := Scan2x(hex, 2 * i);
      if val < 0 {
        return -1;
      }
      bytes[i] := val;
    }
    return count;
  }

  // ----- Fields -----

  // Characters that never end a field.
  predicate IsPlain(c: char) { c != ',' && c != '*' && c != '$' && c != '\0' && c as int < 128 }

  predicate AllPlain(s: string) { forall k :: 0 <= k < |s| ==> IsPlain(s[k]) }

  lemma NumbersArePlain(n: nat, bytes: seq<Byte>)
    ensures AllPlain(Decimal(n)) && AllPlain(Tenths(n)) && AllPlain(HexOf(bytes))
  {
    hide Decimal, HexChar;
    forall k | 0 <= k < |Decimal(n)| ensures IsPlain(Decimal(n)[k]) {
      assert IsDigit(Decimal(n)[k]);
    }
    forall k | 0 <= k < |Decimal(n / 10)| ensures IsPlain(Decimal(n / 10)[k]) {
      assert IsDigit(Decimal(n / 10)[k]);
    }
  }

  // The place of the first c in s, or |s|.
  function Find(s: string, c: char): (i: nat)
    ensures i <= |s| && (i < |s| ==> s[i] == c) && forall k :: 0 <= k < i ==> s[k] != c
  {
    if s == "" || s[0] == c then 0 else 1 + Find(s[1..], c)
  }

  // Where the next field of s ends: at the first comma, else at the first star, else at the end.
  function FieldEnd(s: string): (i: nat)
    ensures i <= |s|
  {
    if Find(s, ',') < |s| then Find(s, ',') else Find(s, '*')
  }

  // The fields of s, one after the other. Behind the star the text goes on, so a checksum is
  // taken for one more field.
  function Fields(s: string): seq<string>
    decreases |s|
  {
    if s == "" then []
    else
      var i := FieldEnd(s);
      [s[..i]] + if i < |s| then Fields(s[i + 1..]) else []
  }

  class Tokenizer {
    const tmp: array<char>
    var save: nat
    ghost var end: nat

    ghost predicate Valid()
      reads this, tmp
    {
      && save <= end < tmp.Length && tmp[end] == '\0'
      && forall k :: save <= k < end ==> tmp[k] != '\0'
    }

    ghost function Rest(): string
      requires Valid()
      reads this, tmp
    {
      tmp[save..end]
    }

    // A private copy of a message, cut off at size - 1 characters.
    constructor (buf: string, size: nat)
      requires size > 0
      ensures Valid() && Rest() == UpToNul(Truncated(buf, size)) && fresh(tmp)
    {
      tmp := new char[size];
      save, end := 0, 0;
      new;
      var copyLen := if |buf| < size - 1 then |buf| else size - 1;
      forall k | 0 <= k < copyLen {
        tmp[k] := buf[k];
      }
      tmp[copyLen] := '\0';
      ghost var text := Truncated(buf, size);
      assert tmp[..copyLen] == text;
      end := Find(text, '\0');
      assert tmp[0..end] == text[..end];
    }

    // The position of c at or after from, or end.
    method Strchr(c: char) returns (i: nat)
      requires Valid() && c != '\0'
      ensures save <= i <= end && i - save == Find(Rest(), c)
    {
      i := save;
      while tmp[i] != '\0' && tmp[i] != c
        invariant save <= i <= end && Find(Rest(), c) == i - save + Find(tmp[i..end], c)
        decreases end - i
      {
        assert tmp[i..end][1..] == tmp[i + 1..end];
        i := i + 1;
      }
    }

    // Takes the text up to cut, and cuts it off there.
    method CutAt(cut: nat) returns (token: string)
      requires Valid() && save <= cut <= end
      modifies `save, tmp
      ensures Valid() && token == old(Rest())[..cut - old(save)]
      ensures Rest() == if cut < end then old(Rest())[cut - old(save) + 1..] else ""
    {
      ghost var before := Rest();
      var start := save;
      token := tmp[start..cut];
      if tmp[cut] != '\0' {
        tmp[cut] := '\0';
        save := cut + 1;
        assert tmp[save..end] == before[cut + 1 - start..];
      } else {
        save := cut;
      }
    }

    // The next field, cut off in place.
    method NextToken() returns (token: Option<string>)
      requires Valid()
      modifies `save, tmp
      ensures Valid()
      ensures token == None ==> Fields(old(Rest())) == [] && Fields(Rest()) == []
      ensures token != None ==> Fields(old(Rest())) == [token.value] + Fields(Rest())
    {
      hide Fields, FieldEnd, Find, Tokenizer.Rest;
      ghost var before := Rest();
      RestLength(this);
      if tmp[save] == '\0' {
        NoField();
        return None;
      }
      var cut := Strchr(',');
      if tmp[cut] == '\0' {
        cut := Strchr('*');
      }
      FieldEndIs(before);
      ghost var length := cut - save;
      var text := CutAt(cut);
      FirstField(before, length, text, Rest());
      token := Some(text);
    }
  }

  lemma RestLength(t: Tokenizer)
    requires t.Valid()
    ensures |t.Rest()| == t.end - t.save
  {}

  lemma NoField()
    ensures Fields("") == []
  {}

  lemma FieldEndIs(s: string)
    ensures FieldEnd(s) == if Find(s, ',') < |s| then Find(s, ',') else Find(s, '*')
  {}

  lemma FirstField(s: string, i: nat, token: string, rest: string)
    requires s != "" && i == FieldEnd(s) && token == s[..i] && rest == if i < |s| then s[i + 1..] else ""
    ensures Fields(s) == [token] + Fields(rest)
  {
    hide FieldEnd;
  }

  function Truncated(buf: string, size: nat): string
    requires size > 0
  {
    if |buf| < size - 1 then buf else buf[..size - 1]
  }

  function UpToNul(s: string): string { s[..Find(s, '\0')] }
}
