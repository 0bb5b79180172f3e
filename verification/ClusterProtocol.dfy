/**
 Work and share messages on the wire: printing into a buffer of limited size with a checksum,
 and reading back.
 */
module ClusterProtocol {
  import Arithmetic
  import opened Options
  import opened Numerals
  import opened ClusterText

  const CLUSTER_MSG_MAX_LEN := 250

  datatype Work = Work(targetSlaveId: int, jobId: int, prevBlockHash: seq<Byte>, merkleRoot: seq<Byte>,
    version: int, versionMask: int, nbits: int, ntime: int, nonceStart: int, nonceEnd: int,
    extranonce2: seq<Byte>, extranonce2Len: int, cleanJobs: bool, poolDiff: int, poolId: int)
  {
    predicate Valid() {
      && IsByte(targetSlaveId) && IsWord(jobId) && |prevBlockHash| == 32 && |merkleRoot| == 32
      && IsWord(version) && IsWord(versionMask) && IsWord(nbits) && IsWord(ntime) && IsWord(nonceStart)
      && IsWord(nonceEnd)
      && |extranonce2| == 8 && 0 <= extranonce2Len <= 8 && IsWord(poolDiff) && IsByte(poolId)
    }

    function Extranonce2(): seq<Byte>
      requires 0 <= extranonce2Len <= |extranonce2|
    {
      extranonce2[..extranonce2Len]
    }
  }

  // The difficulty is in tenths.
  datatype Share = Share(slaveId: int, jobId: int, nonce: int, ntime: int, version: int,
    extranonce2: seq<Byte>, extranonce2Len: int, poolId: int, difficulty: int)
  {
    predicate Valid() {
      && IsByte(slaveId) && IsWord(jobId) && IsWord(nonce) && IsWord(ntime) && IsWord(version)
      && |extranonce2| == 8 && 0 <= extranonce2Len <= 8 && IsByte(poolId) && 0 <= difficulty
    }

    function Extranonce2(): seq<Byte>
      requires 0 <= extranonce2Len <= |extranonce2|
    {
      extranonce2[..extranonce2Len]
    }
  }

  predicate IsByte(x: int) { 0 <= x < 256 }

  predicate IsWord(x: int) { 0 <= x <= UINT32_MAX }

  // ----- Checksum -----

  function CharByte(c: char): bv8 { (c as int % 256) as bv8 }

  function XorIf(started: bool, sum: bv8, c: char): bv8 { if started then sum ^ CharByte(c) else sum }

  function SumFrom(s: string, started: bool, sum: bv8): bv8 {
    if s == "" || s[0] == '*' then sum
    else if s[0] == '$' then SumFrom(s[1..], true, sum)
    else SumFrom(s[1..], started, XorIf(started, sum, s[0]))
  }

  function SumValue(sum: bv8): (v: int)
    ensures 0 <= v < 256
  {
    sum as int
  }

  // The characters between dollar and star, combined by exclusive or.
  function Checksum(s: string): (v: int)
    ensures 0 <= v < 256
  {
    SumValue(SumFrom(s, false, 0))
  }

  predicate NoStar(s: string) { '*' !in s }

  lemma {:induction false} SumStopsAtStar(s: string, rest: string, started: bool, sum: bv8)
    requires NoStar(s)
    ensures SumFrom(s + "*" + rest, started, sum) == SumFrom(s, started, sum)
    decreases |s|
  {
    hide XorIf;
    if s != "" {
      assert (s + "*" + rest)[1..] == s[1..] + "*" + rest;
      SumStopsAtStar(s[1..], rest, s[0] == '$' || started, if s[0] == '$' then sum else XorIf(started, sum, s[0]));
    }
  }

  method ChecksumOf(buf: string) returns (v: int)
    ensures v == Checksum(buf)
  {
    hide XorIf;
    var cksum: bv8 := 0;
    var started := false;
    var i := 0;
    assert buf[0..] == buf;
    while i < |buf|
      invariant 0 <= i <= |buf| && SumFrom(buf[i..], started, cksum) == SumFrom(buf, false, 0)
    {
      assert buf[i..][1..] == buf[i + 1..];
      if buf[i] == '$' {
        started := true;
      } else if buf[i] == '*' {
        return SumValue(cksum);
      } else {
        cksum := XorIf(started, cksum, buf[i]);
      }
      i := i + 1;
    }
    return SumValue(cksum);
  }

  function HexPair(v: int): (s: string)
    requires 0 <= v < 256
    ensures |s| == 2
  {
    [UpperHexChar(v / 16), UpperHexChar(v % 16)]
  }

  // A message with its checksum.
  function Sealed(text: string): (s: string)
    ensures |s| == |text| + 5
  {
    text + "*" + HexPair(Checksum(text)) + "\r\n"
  }

  predicate ChecksumOk(buf: string) {
    var star := Find(buf, '*');
    star < |buf| && star + 3 <= |buf| && Scan2x(buf, star + 1) == Checksum(buf)
  }

  lemma SealedIsOk(text: string)
    requires NoStar(text)
    ensures ChecksumOk(Sealed(text))
  {
    hide Checksum, HexValue, UpperHexChar, Scan2x;
    var v := Checksum(text);
    ScanOfDigits(Sealed(text), |text| + 1);
    assert Sealed(text) == text + "*" + (HexPair(v) + "\r\n");
    SealedSum(text, HexPair(v) + "\r\n");
    FindStar(text, HexPair(v) + "\r\n");
  }

  lemma SealedSum(text: string, rest: string)
    requires NoStar(text)
    ensures Checksum(text + "*" + rest) == Checksum(text)
  {
    SumStopsAtStar(text, rest, false, 0);
  }

  lemma {:induction false} FindStar(text: string, rest: string)
    requires NoStar(text)
    ensures Find(text + "*" + rest, '*') == |text|
  {
    var s := text + "*" + rest;
    assert s[|text|] == '*' && forall k :: 0 <= k < |text| ==> s[k] == text[k];
  }

  method VerifyChecksum(buf: string) returns (ok: bool)
    ensures ok == ChecksumOk(buf)
  {
    hide Checksum, Scan2x;
    var star := 0;
    while star < |buf| && buf[star] != '*'
      invariant 0 <= star <= |buf| && forall k :: 0 <= k < star ==> buf[k] != '*'
    {
      star := star + 1;
    }
    if star == |buf| || star + 3 > |buf| {
      return false;
    }
    var expected := ChecksumOf(buf);
    var provided := Scan2x(buf, star + 1);
    if provided < 0 {
      return false;
    }
    return expected == provided;
  }

  // ----- Printing into a buffer -----

  // snprintf: as much as fits, with a terminating NUL; the result is the full length.
  method Snprintf(buf: array<char>, pos: nat, text: string) returns (written: nat)
    requires pos < buf.Length
    modifies buf
    ensures written == |text| && buf[..pos] == old(buf[..pos])
    ensures pos + |text| < buf.Length ==> buf[pos..pos + |text|] == text && buf[pos + |text|] == '\0'
  {
    var n := if pos + |text| < buf.Length then |text| else buf.Length - pos - 1;
    forall k | 0 <= k < n {
      buf[pos + k] := text[k];
    }
    buf[pos + n] := '\0';
    return |text|;
  }

  method AppendChecksum(buf: array<char>, pos: nat) returns (len: int)
    requires pos < buf.Length
    modifies buf
    ensures if pos + 5 < buf.Length then len == pos + 5 && buf[..len] == Sealed(old(buf[..pos])) else len == -1
  {
    hide Checksum, HexPair;
    ghost var text := buf[..pos];
    var cksum := ChecksumOf(buf[..pos]);
    var written := Snprintf(buf, pos, "*" + HexPair(cksum) + "\r\n");
    if pos + written >= buf.Length {
      return -1;
    }
    assert buf[..pos + 5] == text + buf[pos..pos + 5];
    assert Sealed(text) == text + ("*" + HexPair(cksum) + "\r\n");
    return pos + written;
  }

  // The number of characters, or -1 if the message with its checksum and a NUL does not fit.
  method EncodeText(text: string, buf: array<char>) returns (len: int)
    requires buf.Length > 0
    modifies buf
    ensures if |Sealed(text)| < buf.Length then len == |Sealed(text)| && buf[..len] == Sealed(text) else len == -1
  {
    var pos := Snprintf(buf, 0, text);
    if pos >= buf.Length {
      return -1;
    }
    assert buf[..pos] == buf[0..pos];
    len := AppendChecksum(buf, pos);
  }

  // ----- Fields of a message -----

  function Join(fields: seq<string>): string
    requires |fields| > 0
  {
    if |fields| == 1 then fields[0] else fields[0] + "," + Join(fields[1..])
  }

  predicate IsField(s: string) { ',' !in s && '*' !in s && '\0' !in s }

  predicate AreFields(fields: seq<string>) { forall i :: 0 <= i < |fields| ==> IsField(fields[i]) }

  lemma FieldBeforeComma(f: string, rest: string)
    requires IsField(f)
    ensures FieldEnd(f + "," + rest) == |f| && (f + "," + rest)[..|f|] == f && (f + "," + rest)[|f| + 1..] == rest
  {
    FindAfter(f, ',', rest);
  }

  lemma {:induction false} FindAfter(f: string, c: char, rest: string)
    requires c !in f
    ensures Find(f + [c] + rest, c) == |f|
  {
    var s := f + [c] + rest;
    assert s[|f|] == c && forall k :: 0 <= k < |f| ==> s[k] == f[k];
  }

  lemma FieldBeforeStar(f: string, rest: string)
    requires IsField(f) && ',' !in rest
    ensures FieldEnd(f + "*" + rest) == |f| && (f + "*" + rest)[..|f|] == f && (f + "*" + rest)[|f| + 1..] == rest
  {
    FindAfter(f, '*', rest);
    var s := f + "*" + rest;
    assert forall k :: 0 <= k < |s| ==> s[k] != ',';
  }

  // Cutting undoes joining; the text behind the star is one more field.
  lemma {:induction false} FieldsOfJoin(fields: seq<string>, rest: string)
    requires |fields| > 0 && AreFields(fields) && ',' !in rest
    ensures Fields(Join(fields) + "*" + rest) == fields + Fields(rest)
    decreases |fields|
  {
    hide *;
    JoinParts(fields, rest);
    var first := fields[0];
    if |fields| == 1 {
      FieldBeforeStar(first, rest);
      FirstField(first + "*" + rest, |first|, first, rest);
      assert fields == [first];
    } else {
      var tail := Join(fields[1..]) + "*" + rest;
      FieldsOfJoin(fields[1..], rest);
      FieldBeforeComma(first, tail);
      FirstField(first + "," + tail, |first|, first, tail);
      Regrouped(fields, Fields(rest));
    }
  }

  lemma Regrouped(fields: seq<string>, more: seq<string>)
    requires |fields| > 0
    ensures [fields[0]] + (fields[1..] + more) == fields + more
  {}

  lemma JoinParts(fields: seq<string>, rest: string)
    requires |fields| > 0 && AreFields(fields)
    ensures IsField(fields[0])
    ensures |fields| == 1 ==> Join(fields) + "*" + rest == fields[0] + "*" + rest
    ensures |fields| > 1 ==>
      AreFields(fields[1..]) && Join(fields) + "*" + rest == fields[0] + "," + (Join(fields[1..]) + "*" + rest)
  {
    hide *;
    FirstIsField(fields);
    JoinOf(fields);
    if |fields| > 1 {
      Reassociated(fields[0], ",", Join(fields[1..]), "*", rest);
    }
  }

  lemma FirstIsField(fields: seq<string>)
    requires |fields| > 0 && AreFields(fields)
    ensures IsField(fields[0]) && AreFields(fields[1..])
  {
    hide IsField;
  }

  lemma JoinOf(fields: seq<string>)
    requires |fields| > 0
    ensures Join(fields) == if |fields| == 1 then fields[0] else fields[0] + "," + Join(fields[1..])
  {}

  lemma Reassociated(a: string, b: string, c: string, d: string, e: string)
    ensures a + b + c + d + e == a + b + (c + d + e)
  {}

  lemma {:induction false} JoinIsClean(fields: seq<string>)
    requires |fields| > 0 && AreFields(fields)
    ensures '*' !in Join(fields) && '\0' !in Join(fields)
    decreases |fields|
  {
    if |fields| > 1 {
      JoinIsClean(fields[1..]);
    }
  }

  // A message that was sealed passes the check, is not cut off, and is cut into its fields.
  lemma SealedFields(fields: seq<string>)
    requires |fields| > 0 && AreFields(fields) && |Sealed(Join(fields))| < CLUSTER_MSG_MAX_LEN
    ensures ChecksumOk(Sealed(Join(fields)))
    ensures UpToNul(Truncated(Sealed(Join(fields)), CLUSTER_MSG_MAX_LEN)) == Sealed(Join(fields))
    ensures Fields(Sealed(Join(fields))) == fields + [HexPair(Checksum(Join(fields))) + "\r\n"]
  {
    hide Checksum, Fields, Join, AreFields, ChecksumOk, Find;
    var text := Join(fields);
    JoinIsClean(fields);
    SealedIsOk(text);
    var rest := HexPair(Checksum(text)) + "\r\n";
    RestIsPlain(Checksum(text));
    assert Sealed(text) == text + "*" + rest;
    FieldsOfJoin(fields, rest);
    LastField(rest);
    NothingToCut(Sealed(text));
  }

  lemma RestIsPlain(v: int)
    requires 0 <= v < 256
    ensures var rest := HexPair(v) + "\r\n"; ',' !in rest && '*' !in rest && '\0' !in rest && rest != ""
  {}

  lemma LastField(rest: string)
    requires ',' !in rest && '*' !in rest && rest != ""
    ensures Fields(rest) == [rest]
  {
    assert FieldEnd(rest) == |rest| && rest[..|rest|] == rest;
  }

  lemma NothingToCut(s: string)
    requires '\0' !in s
    ensures UpToNul(s) == s
  {}

  // ----- Work -----

  function Flag(b: bool): string { if b then "1" else "0" }

  function WorkFields(w: Work): seq<string>
    requires w.Valid()
  {
    ["$CLWRK", Decimal(w.targetSlaveId), Decimal(w.jobId), HexOf(w.prevBlockHash), HexOf(w.merkleRoot),
     Decimal(w.version), Decimal(w.versionMask), Decimal(w.nbits), Decimal(w.ntime), Decimal(w.nonceStart),
     Decimal(w.nonceEnd), HexOf(w.Extranonce2()), Decimal(w.extranonce2Len), Flag(w.cleanJobs),
     Decimal(w.poolDiff), Decimal(w.poolId)]
  }

  function WorkMessage(w: Work): string
    requires w.Valid()
  {
    Sealed(Join(WorkFields(w)))
  }

  // The length of a work message.
  function Lengths(fields: seq<string>): nat {
    if fields == [] then 0 else |fields[0]| + Lengths(fields[1..])
  }

  lemma {:induction false} JoinLength(fields: seq<string>)
    requires |fields| > 0
    ensures |Join(fields)| == Lengths(fields) + |fields| - 1
    decreases |fields|
  {
    if |fields| > 1 {
      JoinLength(fields[1..]);
    } else {
      assert fields[1..] == [];
    }
  }

  lemma {:induction false} LengthsConcat(a: seq<string>, b: seq<string>)
    ensures Lengths(a + b) == Lengths(a) + Lengths(b)
    decreases |a|
  {
    if a == [] {
      assert a + b == b;
    } else {
      assert (a + b)[1..] == a[1..] + b;
      LengthsConcat(a[1..], b);
    }
  }

  lemma FourLengths(a: string, b: string, c: string, d: string)
    ensures Lengths([a, b, c, d]) == |a| + |b| + |c| + |d|
  {
    assert [d][1..] == [] && Lengths([d]) == |d|;
    assert [c, d][1..] == [d] && Lengths([c, d]) == |c| + |d|;
    assert [b, c, d][1..] == [c, d] && Lengths([b, c, d]) == |b| + |c| + |d|;
    assert [a, b, c, d][1..] == [b, c, d];
  }

  lemma SixteenLengths(a: seq<string>, b: seq<string>, c: seq<string>, d: seq<string>)
    ensures Lengths(a + b + c + d) == Lengths(a) + Lengths(b) + Lengths(c) + Lengths(d)
  {
    LengthsConcat(a + b + c, d);
    LengthsConcat(a + b, c);
    LengthsConcat(a, b);
  }

  function DecimalLength(n: int): int { if n >= 0 then |Decimal(n)| else 0 }

  // The length depends on the digits of the eleven numbers and on the extranonce.
  lemma WorkMessageLength(w: Work)
    requires w.Valid()
    ensures |WorkMessage(w)| == 155 + 2 * w.extranonce2Len + DecimalLength(w.extranonce2Len)
      + DecimalLength(w.targetSlaveId) + DecimalLength(w.jobId) + DecimalLength(w.version)
        + DecimalLength(w.versionMask)
      + DecimalLength(w.nbits) + DecimalLength(w.ntime) + DecimalLength(w.nonceStart) + DecimalLength(w.nonceEnd)
      + DecimalLength(w.poolDiff) + DecimalLength(w.poolId)
  {
    hide Decimal, HexOf, Join, Lengths;
    var a := ["$CLWRK", Decimal(w.targetSlaveId), Decimal(w.jobId), HexOf(w.prevBlockHash)];
    var b := [HexOf(w.merkleRoot), Decimal(w.version), Decimal(w.versionMask), Decimal(w.nbits)];
    var c := [Decimal(w.ntime), Decimal(w.nonceStart), Decimal(w.nonceEnd), HexOf(w.Extranonce2())];
    var d := [Decimal(w.extranonce2Len), Flag(w.cleanJobs), Decimal(w.poolDiff), Decimal(w.poolId)];
    assert WorkFields(w) == a + b + c + d;
    FourLengths(a[0], a[1], a[2], a[3]);
    FourLengths(b[0], b[1], b[2], b[3]);
    FourLengths(c[0], c[1], c[2], c[3]);
    FourLengths(d[0], d[1], d[2], d[3]);
    SixteenLengths(a, b, c, d);
    JoinLength(WorkFields(w));
  }

  function TenTo(k: nat): nat { if k == 0 then 1 else 10 * TenTo(k - 1) }

  lemma {:induction false} LongDecimal(n: nat, k: nat)
    requires n >= TenTo(k)
    ensures |Decimal(n)| > k
  {
    if k > 0 {
      LongDecimal(n / 10, k - 1);
    }
  }

  const TEN_DIGITS := 1_000_000_000

  lemma TenDigits(n: int)
    requires n >= TEN_DIGITS
    ensures DecimalLength(n) >= 10
  {
    hide Decimal;
    assert TenTo(4) == 10000 && TenTo(9) == TEN_DIGITS;
    LongDecimal(n, 9);
  }

  // With numbers of ten digits and a full extranonce a message does not fit into the buffer.
  lemma LongWorkDoesNotFit(w: Work)
    requires w.Valid() && w.extranonce2Len == 8 && w.jobId >= TEN_DIGITS && w.version >= TEN_DIGITS
    requires w.versionMask >= TEN_DIGITS && w.nbits >= TEN_DIGITS && w.ntime >= TEN_DIGITS
    requires w.nonceStart >= TEN_DIGITS && w.nonceEnd >= TEN_DIGITS && w.poolDiff >= TEN_DIGITS
    ensures |WorkMessage(w)| >= CLUSTER_MSG_MAX_LEN
  {
    WorkMessageLength(w);
    hide WorkMessage, Decimal;
    TenDigits(w.jobId);
    TenDigits(w.version);
    TenDigits(w.versionMask);
    TenDigits(w.nbits);
    TenDigits(w.ntime);
    TenDigits(w.nonceStart);
    TenDigits(w.nonceEnd);
    TenDigits(w.poolDiff);
  }

  // What a list of fields is read as; blank is what the structure held before.
  function WorkOf(t: seq<string>, blank: Work): Option<Work> {
    if |t| < 14 then None
    else Some(Work(Atoi(t[1]) % 256, StrToUl(t[2]), HexInto(t[3], blank.prevBlockHash), HexInto(t[4], blank.merkleRoot),
      StrToUl(t[5]), StrToUl(t[6]), StrToUl(t[7]), StrToUl(t[8]), StrToUl(t[9]), StrToUl(t[10]),
      HexInto(t[11], blank.extranonce2), Atoi(t[12]) % 256, Atoi(t[13]) != 0,
      if |t| > 14 && t[14] != "" then StrToUl(t[14]) else 0,
      if |t| > 15 && t[15] != "" then Atoi(t[15]) % 256 else 0))
  }

  function ReceivedFields(buf: string): seq<string> { Fields(UpToNul(Truncated(buf, CLUSTER_MSG_MAX_LEN))) }

  function ReceivedWork(buf: string, blank: Work): Option<Work> {
    if ChecksumOk(buf) then WorkOf(ReceivedFields(buf), blank) else None
  }

  lemma TextIsField(s: string)
    requires AllPlain(s)
    ensures IsField(s)
  {}

  lemma NumbersAreFields(n: nat, bytes: seq<Byte>)
    ensures IsField(Decimal(n)) && IsField(Tenths(n)) && IsField(HexOf(bytes))
  {
    hide *;
    NumbersArePlain(n, bytes);
    TextIsField(Decimal(n));
    TextIsField(Tenths(n));
    TextIsField(HexOf(bytes));
  }

  lemma WorkFieldsAreFields(w: Work)
    requires w.Valid()
    ensures |WorkFields(w)| == 16 && AreFields(WorkFields(w))
  {
    hide Decimal, HexOf, IsField;
    NumbersAreFields(w.targetSlaveId, w.prevBlockHash);
    NumbersAreFields(w.jobId, w.merkleRoot);
    NumbersAreFields(w.version, w.Extranonce2());
    NumbersAreFields(w.versionMask, []);
    NumbersAreFields(w.nbits, []);
    NumbersAreFields(w.ntime, []);
    NumbersAreFields(w.nonceStart, []);
    NumbersAreFields(w.nonceEnd, []);
    NumbersAreFields(w.extranonce2Len, []);
    NumbersAreFields(w.poolDiff, []);
    NumbersAreFields(w.poolId, []);
    WordsAreFields();
  }

  lemma WordsAreFields()
    ensures IsField("$CLWRK") && IsField("$CLSHR") && IsField("1") && IsField("0")
  {}

  lemma FlagRoundTrip(b: bool)
    ensures (Atoi(Flag(b)) != 0) == b
  {
    ReadDecimal(1);
    ReadDecimal(0);
    assert Decimal(1) == "1" && Decimal(0) == "0";
  }

  // Reading the fields of a work message, followed by any other field, gives the work back; of
  // the extranonce buffer the first extranonce2Len bytes.
  lemma WorkFieldsRoundTrip(w: Work, blank: Work, more: seq<string>)
    requires w.Valid() && |blank.prevBlockHash| == |blank.merkleRoot| == 32 && |blank.extranonce2| == 8
    ensures WorkOf(WorkFields(w) + more, blank) ==
      Some(w.(extranonce2 := w.Extranonce2() + blank.extranonce2[w.extranonce2Len..]))
  {
    hide Decimal, HexOf, HexInto, StrToUl, Atoi, Flag;
    ReadDecimal(w.targetSlaveId);
    ReadDecimal(w.jobId);
    HexRoundTrip(w.prevBlockHash, blank.prevBlockHash);
    HexRoundTrip(w.merkleRoot, blank.merkleRoot);
    ReadDecimal(w.version);
    ReadDecimal(w.versionMask);
    ReadDecimal(w.nbits);
    ReadDecimal(w.ntime);
    ReadDecimal(w.nonceStart);
    ReadDecimal(w.nonceEnd);
    HexRoundTrip(w.Extranonce2(), blank.extranonce2);
    ReadDecimal(w.extranonce2Len);
    FlagRoundTrip(w.cleanJobs);
    ReadDecimal(w.poolDiff);
    ReadDecimal(w.poolId);
    var t := WorkFields(w) + more;
    assert |t| >= 16 && t[..16] == WorkFields(w);
    assert w.prevBlockHash + blank.prevBlockHash[32..] == w.prevBlockHash;
    assert w.merkleRoot + blank.merkleRoot[32..] == w.merkleRoot;
  }

  // Whatever was sent in a message that fits is what is received.
  lemma WorkRoundTrip(w: Work, blank: Work)
    requires w.Valid() && |blank.prevBlockHash| == |blank.merkleRoot| == 32 && |blank.extranonce2| == 8
    requires |WorkMessage(w)| < CLUSTER_MSG_MAX_LEN
    ensures ReceivedWork(WorkMessage(w), blank)
      == Some(w.(extranonce2 := w.Extranonce2() + blank.extranonce2[w.extranonce2Len..]))
  {
    hide *;
    WorkMessageIs(w);
    WorkFieldsAreFields(w);
    SealedFields(WorkFields(w));
    WorkFieldsRoundTrip(w, blank, [HexPair(Checksum(Join(WorkFields(w)))) + "\r\n"]);
    ReceivedFieldsAre(WorkMessage(w));
    ReceivedIs(WorkMessage(w), blank);
  }

  lemma WorkMessageIs(w: Work)
    requires w.Valid()
    ensures |WorkFields(w)| > 0 && WorkMessage(w) == Sealed(Join(WorkFields(w))) && CLUSTER_MSG_MAX_LEN > 0
  {}

  // Received work is as it must be exactly if the length of its extranonce is not beyond the buffer.
  lemma ReceivedWorkValidExactlyWhen(buf: string, blank: Work)
    requires |blank.prevBlockHash| == |blank.merkleRoot| == 32 && |blank.extranonce2| == 8
    ensures var w := ReceivedWork(buf, blank); w != None ==> (w.value.Valid() <==> w.value.extranonce2Len <= 8)
  {
    hide ReceivedFields, ChecksumOk, StrToUl, Atoi, HexInto;
    var t := ReceivedFields(buf);
    if |t| >= 14 {
      FieldsAreWords(t);
    }
  }

  lemma FieldsAreWords(t: seq<string>)
    ensures forall i :: 0 <= i < |t| ==> IsWord(StrToUl(t[i]))
  {
    hide StrToUl;
    forall i | 0 <= i < |t| ensures IsWord(StrToUl(t[i])) {
      StrToUlIsWord(t[i]);
    }
  }

  lemma ReceivedIs(buf: string, blank: Work)
    ensures ReceivedWork(buf, blank) == if ChecksumOk(buf) then WorkOf(ReceivedFields(buf), blank) else None
  {}

  lemma ReceivedFieldsAre(buf: string)
    ensures CLUSTER_MSG_MAX_LEN > 0 && ReceivedFields(buf) == Fields(UpToNul(Truncated(buf, CLUSTER_MSG_MAX_LEN)))
  {}

  method EncodeWork(w: Work, buf: array<char>) returns (len: int)
    requires w.Valid() && buf.Length > 0
    modifies buf
    ensures if |WorkMessage(w)| < buf.Length then len == |WorkMessage(w)| && buf[..len] == WorkMessage(w) else len == -1
  {
    hide Decimal, HexOf, Sealed, Join, Flag;
    var prevHashHex := new char[65];
    var merkleHex := new char[65];
    var en2Hex := new char[17];
    BytesToHex(w.prevBlockHash, prevHashHex);
    BytesToHex(w.merkleRoot, merkleHex);
    BytesToHex(w.Extranonce2(), en2Hex);
    var fields := ["$CLWRK", Decimal(w.targetSlaveId), Decimal(w.jobId), prevHashHex[..64], merkleHex[..64],
      Decimal(w.version), Decimal(w.versionMask), Decimal(w.nbits), Decimal(w.ntime), Decimal(w.nonceStart),
      Decimal(w.nonceEnd), en2Hex[..2 * w.extranonce2Len], Decimal(w.extranonce2Len), Flag(w.cleanJobs),
      Decimal(w.poolDiff), Decimal(w.poolId)];
    assert fields == WorkFields(w);
    len := EncodeText(Join(fields), buf);
  }

  // ----- Reading field by field -----

  // The first i fields of all have been cut off.
  ghost predicate At(t: Tokenizer, all: seq<string>, i: nat)
    reads t, t.tmp
  {
    t.Valid() && if i <= |all| then all[i..] == Fields(t.Rest()) else Fields(t.Rest()) == []
  }

  method Required(t: Tokenizer, ghost all: seq<string>, ghost i: nat) returns (ok: bool, token: string)
    requires At(t, all, i)
    modifies t`save, t.tmp
    ensures ok == (i < |all|) && At(t, all, i + 1)
    ensures token == if ok then all[i] else ""
  {
    hide Fields;
    var next := t.NextToken();
    if next == None {
      return false, "";
    }
    return true, next.value;
  }

  method WordField(t: Tokenizer, ghost all: seq<string>, ghost i: nat) returns (ok: bool, v: int)
    requires At(t, all, i)
    modifies t`save, t.tmp
    ensures ok == (i < |all|) && At(t, all, i + 1) && (ok ==> v == StrToUl(all[i]))
  {
    hide At, StrToUl;
    var token;
    ok, token := Required(t, all, i);
    v := StrToUl(token);
  }

  method ByteField(t: Tokenizer, ghost all: seq<string>, ghost i: nat) returns (ok: bool, v: int)
    requires At(t, all, i)
    modifies t`save, t.tmp
    ensures ok == (i < |all|) && At(t, all, i + 1) && (ok ==> v == Atoi(all[i]) % 256)
  {
    hide At, Atoi;
    var token;
    ok, token := Required(t, all, i);
    v := Atoi(token) % 256;
  }

  // A byte array of the structure, overwritten from its field.
  method HexField(t: Tokenizer, ghost all: seq<string>, ghost i: nat, blank: seq<Byte>)
    returns (ok: bool, bytes: seq<Byte>)
    requires At(t, all, i)
    modifies t`save, t.tmp
    ensures ok == (i < |all|) && At(t, all, i + 1) && (ok ==> bytes == HexInto(all[i], blank))
  {
    hide At, HexInto;
    var token;
    ok, token := Required(t, all, i);
    var dst := new Byte[|blank|](i requires 0 <= i < |blank| => blank[i]);
    assert dst[..] == blank;
    var n := HexToBytes(token, dst);
    bytes := dst[..];
  }

  method Start(buf: string) returns (t: Tokenizer, ghost all: seq<string>)
    ensures fresh(t) && fresh(t.tmp) && all == ReceivedFields(buf) && At(t, all, 0)
  {
    hide Fields, Truncated, UpToNul;
    t := new Tokenizer(buf, CLUSTER_MSG_MAX_LEN);
    all := Fields(t.Rest());
    assert all[0..] == all;
  }

  // The six numbers from the version on.
  method HeaderFields(t: Tokenizer, ghost all: seq<string>)
    returns (ok: bool, version: int, versionMask: int, nbits: int, ntime: int, nonceStart: int, nonceEnd: int)
    requires At(t, all, 5)
    modifies t`save, t.tmp
    ensures ok == (10 < |all|)
    ensures ok ==>
      At(t, all, 11) && version == StrToUl(all[5]) && versionMask == StrToUl(all[6]) && nbits == StrToUl(all[7])
    ensures ok ==> ntime == StrToUl(all[8]) && nonceStart == StrToUl(all[9]) && nonceEnd == StrToUl(all[10])
  {
    hide At, StrToUl, Tokenizer.Valid, Tokenizer.Rest;
    version, versionMask, nbits, ntime, nonceStart, nonceEnd := 0, 0, 0, 0, 0, 0;
    ok, version := WordField(t, all, 5);
    if !ok {
      return;
    }
    ok, versionMask := WordField(t, all, 6);
    if !ok {
      return;
    }
    ok, nbits := WordField(t, all, 7);
    if !ok {
      return;
    }
    ok, ntime := WordField(t, all, 8);
    if !ok {
      return;
    }
    ok, nonceStart := WordField(t, all, 9);
    if !ok {
      return;
    }
    ok, nonceEnd := WordField(t, all, 10);
  }

  method DecodeWork(buf: string, blank: Work) returns (w: Option<Work>)
    ensures w == ReceivedWork(buf, blank)
  {
    hide At, ReceivedWork, ReceivedFields, ChecksumOk, HexInto, StrToUl, Atoi, Fields, Tokenizer.Valid, Tokenizer.Rest;
    ReceivedIs(buf, blank);
    var verified := VerifyChecksum(buf);
    if !verified {
      return None;
    }
    var t;
    ghost var all;
    t, all := Start(buf);
    var ok, skipped := Required(t, all, 0);
    if !ok {
      return None;
    }
    var targetSlaveId;
    ok, targetSlaveId := ByteField(t, all, 1);
    if !ok {
      return None;
    }
    var jobId;
    ok, jobId := WordField(t, all, 2);
    if !ok {
      return None;
    }
    var prevBlockHash;
    ok, prevBlockHash := HexField(t, all, 3, blank.prevBlockHash);
    if !ok {
      return None;
    }
    var merkleRoot;
    ok, merkleRoot := HexField(t, all, 4, blank.merkleRoot);
    if !ok {
      return None;
    }
    var version, versionMask, nbits, ntime, nonceStart, nonceEnd;
    ok, version, versionMask, nbits, ntime, nonceStart, nonceEnd := HeaderFields(t, all);
    if !ok {
      return None;
    }
    var extranonce2;
    ok, extranonce2 := HexField(t, all, 11, blank.extranonce2);
    if !ok {
      return None;
    }
    var extranonce2Len;
    ok, extranonce2Len := ByteField(t, all, 12);
    if !ok {
      return None;
    }
    var clean;
    ok, clean := Required(t, all, 13);
    if !ok {
      return None;
    }
    var present, poolDiff, poolId, token := true, 0, 0, "";
    present, token := Required(t, all, 14);
    if present && token != "" {
      poolDiff := StrToUl(token);
    }
    present, token := Required(t, all, 15);
    if present && token != "" {
      poolId := Atoi(token) % 256;
    }
    return Some(Work(targetSlaveId, jobId, prevBlockHash, merkleRoot, version, versionMask, nbits, ntime,
      nonceStart, nonceEnd, extranonce2, extranonce2Len, Atoi(clean) != 0, poolDiff, poolId));
  }

  // Messages from before the pool fields had none of the last two. The field behind the star is
  // then taken for the pool difficulty, so that it is the default 0 only for some checksums.
  lemma OldWorkMessage(w: Work, blank: Work)
    requires w.Valid() && |blank.prevBlockHash| == |blank.merkleRoot| == 32 && |blank.extranonce2| == 8
    requires |Sealed(Join(WorkFields(w)[..14]))| < CLUSTER_MSG_MAX_LEN
    ensures var v, r := Checksum(Join(WorkFields(w)[..14])), ReceivedWork(Sealed(Join(WorkFields(w)[..14])), blank);
      && r != None && r.value.poolId == 0
      && (r.value.poolDiff == 0 <==> v / 16 >= 10 || (v / 16 == 0 && (v % 16 == 0 || v % 16 >= 10)))
  {
    hide Checksum, Join, Fields, Sealed, ChecksumOk, UpToNul, Truncated, Decimal, HexOf, HexInto, Atoi, StrToUl,
      HexPair;
    WorkFieldsAreFields(w);
    var fields := WorkFields(w)[..14];
    SealedFields(fields);
    ReceivedFieldsAre(Sealed(Join(fields)));
    ReceivedIs(Sealed(Join(fields)), blank);
    PairAsNumber(Checksum(Join(fields)));
    RestIsPlain(Checksum(Join(fields)));
  }

  // ----- A message without the last two fields whose checksum is taken for a difficulty -----

  predicate NoMarks(s: string) { '$' !in s && '*' !in s }

  lemma {:induction false} SumOver(s: string, rest: string, sum: bv8)
    requires NoMarks(s)
    ensures SumFrom(s + rest, true, sum) == SumFrom(rest, true, SumFrom(s, true, sum))
    decreases |s|
  {
    hide XorIf;
    if s == "" {
      assert s + rest == rest;
    } else {
      assert (s + rest)[1..] == s[1..] + rest;
      SumOver(s[1..], rest, XorIf(true, sum, s[0]));
    }
  }

  lemma SumOfOne(c: char, sum: bv8)
    requires NoMarks([c])
    ensures SumFrom([c], true, sum) == XorIf(true, sum, c)
  {
    assert [c][1..] == "";
    hide XorIf;
  }

  // A field with its comma.
  lemma SumOfField(f: string, rest: seq<string>, sum: bv8)
    requires NoMarks(f) && |rest| > 0
    ensures SumFrom(Join([f] + rest), true, sum) == SumFrom(Join(rest), true, SumFrom(f, true, sum) ^ 0x2C)
  {
    hide SumFrom, XorIf;
    JoinCons(f, rest);
    SumOver(f, "," + Join(rest), sum);
    SumOver(",", Join(rest), SumFrom(f, true, sum));
    SumOfOne(',', SumFrom(f, true, sum));
    CommaAndZero(SumFrom(f, true, sum));
  }

  lemma JoinCons(f: string, rest: seq<string>)
    requires |rest| > 0
    ensures Join([f] + rest) == f + ("," + Join(rest))
  {
    hide *;
    JoinOf([f] + rest);
    assert ([f] + rest)[1..] == rest;
    assert f + "," + Join(rest) == f + ("," + Join(rest));
  }

  lemma CommaAndZero(sum: bv8)
    ensures XorIf(true, sum, ',') == sum ^ 0x2C && XorIf(true, sum, '0') == sum ^ 0x30
  {
    hide CharByte;
    ByteIs(',', 0x2C);
    ByteIs('0', 0x30);
  }

  // Two equal fields leave the sum as it was.
  lemma TwoZeros(rest: seq<string>, sum: bv8)
    requires |rest| > 0
    ensures SumFrom(Join(["0", "0"] + rest), true, sum) == SumFrom(Join(rest), true, sum)
    ensures SumFrom(Join(["0"] + rest), true, sum) == SumFrom(Join(rest), true, sum ^ 0x1C)
    ensures SumFrom("0", true, sum) == sum ^ 0x30
  {
    hide SumFrom, XorIf, Join;
    assert ["0", "0"] + rest == ["0"] + (["0"] + rest);
    SumOfField("0", ["0"] + rest, sum);
    SumOfOne('0', sum);
    CommaAndZero(sum);
    var once := (sum ^ 0x30) ^ 0x2C;
    SumOfField("0", rest, once);
    SumOfField("0", rest, sum);
    SumOfOne('0', once);
    CommaAndZero(once);
  }

  const ZEROS: seq<Byte> := seq(32, _ => 0)

  function Noughts(n: nat): (s: string)
    ensures |s| == n
  {
    seq(n, _ => '0')
  }

  lemma {:induction false} SumOfNoughts(n: nat, sum: bv8)
    ensures SumFrom(Noughts(2 * n), true, sum) == sum
  {
    if n > 0 {
      assert Noughts(2 * n) == Noughts(2 * (n - 1)) + ("0" + "0");
      SumOfNoughts(n - 1, sum);
      hide SumFrom, XorIf, Noughts;
      SumOver(Noughts(2 * (n - 1)), "0" + "0", sum);
      SumOver("0", "0", sum);
      SumOfOne('0', sum);
      CommaAndZero(sum);
      SumOfOne('0', sum ^ 0x30);
      CommaAndZero(sum ^ 0x30);
    } else {
      assert Noughts(0) == "";
    }
  }

  lemma HexOfZeros()
    ensures HexOf(ZEROS) == Noughts(2 * 32)
  {}

  lemma TwoZeroHashes(rest: seq<string>, sum: bv8)
    requires |rest| > 0
    ensures SumFrom(Join([Noughts(2 * 32), Noughts(2 * 32)] + rest), true, sum) == SumFrom(Join(rest), true, sum)
  {
    hide SumFrom, Join;
    var z := Noughts(2 * 32);
    SumOfNoughts(32, sum);
    SumOfNoughts(32, sum ^ 0x2C);
    assert [z, z] + rest == [z] + ([z] + rest);
    SumOfField(z, [z] + rest, sum);
    SumOfField(z, rest, sum ^ 0x2C);
  }

  lemma SumOfName(rest: string)
    ensures SumFrom("$CLWRK" + rest, false, 0) == SumFrom(rest, true, 0x41)
  {
    assert ("$CLWRK" + rest)[1..] == "CLWRK" + rest;
    SumOver("CLWRK", rest, 0);
    NameSum();
  }

  lemma NameSum()
    ensures SumFrom("CLWRK", true, 0) == 0x41
  {
    hide SumFrom, XorIf;
    assert "CLWRK" == "C" + ("L" + ("W" + ("R" + "K")));
    SumOver("C", "L" + ("W" + ("R" + "K")), 0);
    SumOver("L", "W" + ("R" + "K"), 0x43);
    SumOver("W", "R" + "K", 0x0F);
    SumOver("R", "K", 0x58);
    SumOfOne('C', 0);
    SumOfOne('L', 0x43);
    SumOfOne('W', 0x0F);
    SumOfOne('R', 0x58);
    SumOfOne('K', 0x0A);
    NameBytes();
  }

  lemma NameBytes()
    ensures XorIf(true, 0, 'C') == 0x43 && XorIf(true, 0x43, 'L') == 0x0F && XorIf(true, 0x0F, 'W') == 0x58
    ensures XorIf(true, 0x58, 'R') == 0x0A && XorIf(true, 0x0A, 'K') == 0x41
  {
    hide CharByte;
    ByteIs('C', 0x43);
    ByteIs('L', 0x4C);
    ByteIs('W', 0x57);
    ByteIs('R', 0x52);
    ByteIs('K', 0x4B);
  }

  lemma ByteIs(c: char, b: bv8)
    requires c as int == b as int
    ensures CharByte(c) == b
  {
    ByteSurvives(b);
    SmallRemainder(b as int);
  }

  lemma ByteSurvives(b: bv8)
    ensures 0 <= b as int < 256 && (b as int) as bv8 == b
  {}

  lemma SmallRemainder(x: int)
    requires 0 <= x < 256
    ensures x % 256 == x
  {}

  const OLD_WORK := Work(0, 0, ZEROS, ZEROS, 0, 0, 0, 0, 0, 0, ZEROS[..8], 0, false, 0, 0)

  // The fields of such a message with noughts everywhere.
  lemma OldFields()
    ensures OLD_WORK.Valid() && |WorkFields(OLD_WORK)| >= 14
    ensures WorkFields(OLD_WORK)[..14] ==
      ["$CLWRK", "0", "0"] + ([Noughts(64), Noughts(64)] + (["0", "0"] + (["0", "0"] + (["0", "0"] + ["", "0", "0"]))))
  {
    HexOfZeros();
    hide HexOf, Noughts;
    assert OLD_WORK.Extranonce2() == [] && |HexOf(OLD_WORK.Extranonce2())| == 0 && Decimal(0) == "0";
  }

  lemma OldChecksum()
    ensures OLD_WORK.Valid() && |WorkFields(OLD_WORK)| >= 14 && Checksum(Join(WorkFields(OLD_WORK)[..14])) == 0x6D
  {
    hide Join, SumFrom, Noughts, WorkFields;
    OldFields();
    var tail := ["", "0", "0"];
    var sums := ["0", "0"] + (["0", "0"] + (["0", "0"] + tail));
    var numbers := ["0", "0"] + ([Noughts(64), Noughts(64)] + sums);
    assert WorkFields(OLD_WORK)[..14] == ["$CLWRK"] + numbers;
    JoinCons("$CLWRK", numbers);
    SumOfName("," + Join(numbers));
    SumOver(",", Join(numbers), 0x41);
    SumOfOne(',', 0x41);
    CommaAndZero(0x41);
    TwoZeros([Noughts(64), Noughts(64)] + sums, 0x6D);
    TwoZeroHashes(sums, 0x6D);
    TwoZeros(["0", "0"] + (["0", "0"] + tail), 0x6D);
    TwoZeros(["0", "0"] + tail, 0x6D);
    TwoZeros(tail, 0x6D);
    TailSum();
  }

  lemma TailSum()
    ensures SumFrom(Join(["", "0", "0"]), true, 0x6D) == 0x6D
  {
    hide XorIf;
    assert ["", "0", "0"] == [""] + ["0", "0"] && ["0", "0"] == ["0"] + ["0"] && Join(["0"]) == "0";
    SumOfField("", ["0", "0"], 0x6D);
    SumOfField("0", ["0"], 0x41);
    SumOfOne('0', 0x41);
    SumOfOne('0', 0x5D);
    CommaAndZero(0x41);
    CommaAndZero(0x5D);
  }

  lemma OldLength()
    ensures OLD_WORK.Valid() && |WorkFields(OLD_WORK)| >= 14
    ensures |Sealed(Join(WorkFields(OLD_WORK)[..14]))| < CLUSTER_MSG_MAX_LEN
  {
    hide Join, Lengths, Noughts, WorkFields, Checksum;
    OldFields();
    var first, hashes := ["$CLWRK", "0", "0"], [Noughts(64), Noughts(64), "0", "0"];
    FourLengths("", "$CLWRK", "0", "0");
    FourLengths(Noughts(64), Noughts(64), "0", "0");
    FourLengths("0", "0", "0", "0");
    FourLengths("", "", "0", "0");
    LengthsConcat([""], first);
    LengthsConcat([""], ["", "0", "0"]);
    EmptyLength();
    assert [""] + first == ["", "$CLWRK", "0", "0"] && [""] + ["", "0", "0"] == ["", "", "0", "0"];
    SixteenLengths(first, hashes, ["0", "0", "0", "0"], ["", "0", "0"]);
    assert WorkFields(OLD_WORK)[..14] == first + hashes + ["0", "0", "0", "0"] + ["", "0", "0"];
    JoinLength(WorkFields(OLD_WORK)[..14]);
    assert |Noughts(64)| == 64;
  }

  lemma EmptyLength()
    ensures Lengths([""]) == 0
  {
    assert [""][1..] == [];
  }

  // Every field was 0, but a pool difficulty other than the default 0 is received.
  lemma OldMessageMisread()
    ensures OLD_WORK.Valid() && |WorkFields(OLD_WORK)| >= 14
    ensures |Sealed(Join(WorkFields(OLD_WORK)[..14]))| < CLUSTER_MSG_MAX_LEN
    ensures var r := ReceivedWork(Sealed(Join(WorkFields(OLD_WORK)[..14])), OLD_WORK);
      r != None && r.value.poolDiff != 0
  {
    hide Join, Checksum, Noughts, WorkFields, ReceivedWork, Sealed;
    OldFields();
    OldChecksum();
    OldLength();
    OldWorkMessage(OLD_WORK, OLD_WORK);
  }

  lemma PairAsNumber(v: int)
    requires 0 <= v < 256
    ensures StrToUl(HexPair(v) + "\r\n") == 0 <==> v / 16 >= 10 || (v / 16 == 0 && (v % 16 == 0 || v % 16 >= 10))
  {
    var a, b := UpperHexChar(v / 16), UpperHexChar(v % 16);
    var s := HexPair(v) + "\r\n";
    assert [a][..0] == "" && [a, b][..1] == [a];
    if !IsDigit(a) {
      assert LeadingDigits(s) == "";
    } else if IsDigit(b) {
      LeadingDigitsOfDigits([a, b], "\r\n");
      assert DecimalValue([a]) == v / 16;
      assert DecimalValue([a, b]) == v / 16 * 10 + v % 16;
    } else {
      LeadingDigitsOfDigits([a], [b] + "\r\n");
      assert s == [a] + ([b] + "\r\n");
      assert DecimalValue([a]) == v / 16;
    }
  }

  // ----- Shares -----

  function ShareFields(s: Share): seq<string>
    requires s.Valid()
  {
    ["$CLSHR", Decimal(s.slaveId), Decimal(s.jobId), Decimal(s.nonce), Decimal(s.ntime), Decimal(s.version),
     HexOf(s.Extranonce2()), Decimal(s.extranonce2Len), Decimal(s.poolId), Tenths(s.difficulty)]
  }

  function ShareMessage(s: Share): string
    requires s.Valid()
  {
    Sealed(Join(ShareFields(s)))
  }

  function ShareOf(t: seq<string>, blank: Share): Option<Share> {
    if |t| < 8 then None
    else Some(Share(Atoi(t[1]) % 256, StrToUl(t[2]), StrToUl(t[3]), StrToUl(t[4]), StrToUl(t[5]),
      HexInto(t[6], blank.extranonce2), Atoi(t[7]) % 256,
      if |t| > 8 && t[8] != "" then Atoi(t[8]) % 256 else 0,
      if |t| > 9 && t[9] != "" then ReadTenths(t[9]) else 0))
  }

  function ReceivedShare(buf: string, blank: Share): Option<Share> {
    if ChecksumOk(buf) then ShareOf(ReceivedFields(buf), blank) else None
  }

  lemma ReceivedShareIs(buf: string, blank: Share)
    ensures ReceivedShare(buf, blank) == if ChecksumOk(buf) then ShareOf(ReceivedFields(buf), blank) else None
  {}

  lemma ShareFieldsAreFields(s: Share)
    requires s.Valid()
    ensures |ShareFields(s)| == 10 && AreFields(ShareFields(s)) && ShareMessage(s) == Sealed(Join(ShareFields(s)))
  {
    hide Decimal, Tenths, HexOf, IsField, Sealed, Join;
    NumbersAreFields(s.slaveId, s.Extranonce2());
    NumbersAreFields(s.jobId, []);
    NumbersAreFields(s.nonce, []);
    NumbersAreFields(s.ntime, []);
    NumbersAreFields(s.version, []);
    NumbersAreFields(s.extranonce2Len, []);
    NumbersAreFields(s.poolId, []);
    NumbersAreFields(s.difficulty, []);
    WordsAreFields();
  }

  lemma ShareFieldsRoundTrip(s: Share, blank: Share, more: seq<string>)
    requires s.Valid() && |blank.extranonce2| == 8
    ensures ShareOf(ShareFields(s) + more, blank) ==
      Some(s.(extranonce2 := s.Extranonce2() + blank.extranonce2[s.extranonce2Len..]))
  {
    hide Decimal, HexOf, HexInto, StrToUl, Atoi, Tenths, ReadTenths;
    ReadDecimal(s.slaveId);
    ReadDecimal(s.jobId);
    ReadDecimal(s.nonce);
    ReadDecimal(s.ntime);
    ReadDecimal(s.version);
    HexRoundTrip(s.Extranonce2(), blank.extranonce2);
    ReadDecimal(s.extranonce2Len);
    ReadDecimal(s.poolId);
    TenthsRoundTrip(s.difficulty);
    TenthsAreText(s.difficulty);
    var t := ShareFields(s) + more;
    assert |t| >= 10 && t[..10] == ShareFields(s);
  }

  lemma TenthsAreText(n: nat)
    ensures Tenths(n) != ""
  {}

  lemma ShareRoundTrip(s: Share, blank: Share)
    requires s.Valid() && |blank.extranonce2| == 8 && |ShareMessage(s)| < CLUSTER_MSG_MAX_LEN
    ensures ReceivedShare(ShareMessage(s), blank) ==
      Some(s.(extranonce2 := s.Extranonce2() + blank.extranonce2[s.extranonce2Len..]))
  {
    hide *;
    ShareFieldsAreFields(s);
    SealedFields(ShareFields(s));
    ShareFieldsRoundTrip(s, blank, [HexPair(Checksum(Join(ShareFields(s)))) + "\r\n"]);
    ReceivedFieldsAre(ShareMessage(s));
    ReceivedShareIs(ShareMessage(s), blank);
  }

  method EncodeShare(s: Share, buf: array<char>) returns (len: int)
    requires s.Valid() && buf.Length > 0
    modifies buf
    ensures if |ShareMessage(s)| < buf.Length then len == |ShareMessage(s)|
      && buf[..len] == ShareMessage(s) else len == -1
  {
    hide Decimal, HexOf, Sealed, Join, Tenths;
    var en2Hex := new char[17];
    BytesToHex(s.Extranonce2(), en2Hex);
    var fields :=
      ["$CLSHR", Decimal(s.slaveId), Decimal(s.jobId), Decimal(s.nonce), Decimal(s.ntime), Decimal(s.version),
      en2Hex[..2 * s.extranonce2Len], Decimal(s.extranonce2Len), Decimal(s.poolId), Tenths(s.difficulty)];
    assert fields == ShareFields(s);
    len := EncodeText(Join(fields), buf);
  }

  method DecodeShare(buf: string, blank: Share) returns (s: Option<Share>)
    ensures s == ReceivedShare(buf, blank)
  {
    hide At, ReceivedShare, ReceivedFields, ChecksumOk, HexInto, StrToUl, Atoi, ReadTenths, Fields, Tokenizer.Valid,
      Tokenizer.Rest;
    ReceivedShareIs(buf, blank);
    var verified := VerifyChecksum(buf);
    if !verified {
      return None;
    }
    var t;
    ghost var all;
    t, all := Start(buf);
    var ok, skipped := Required(t, all, 0);
    if !ok {
      return None;
    }
    var slaveId;
    ok, slaveId := ByteField(t, all, 1);
    if !ok {
      return None;
    }
    var jobId;
    ok, jobId := WordField(t, all, 2);
    if !ok {
      return None;
    }
    var nonce;
    ok, nonce := WordField(t, all, 3);
    if !ok {
      return None;
    }
    var ntime;
    ok, ntime := WordField(t, all, 4);
    if !ok {
      return None;
    }
    var version;
    ok, version := WordField(t, all, 5);
    if !ok {
      return None;
    }
    var extranonce2;
    ok, extranonce2 := HexField(t, all, 6, blank.extranonce2);
    if !ok {
      return None;
    }
    var extranonce2Len;
    ok, extranonce2Len := ByteField(t, all, 7);
    if !ok {
      return None;
    }
    var present, poolId, difficulty, token := true, 0, 0, "";
    present, token := Required(t, all, 8);
    if present && token != "" {
      poolId := Atoi(token) % 256;
    }
    present, token := Required(t, all, 9);
    if present && token != "" {
      difficulty := ReadTenths(token);
    }
    return Some(Share(slaveId, jobId, nonce, ntime, version, extranonce2, extranonce2Len, poolId, difficulty));
  }

  // ----- Damaged messages -----

  // The exclusive or of all characters but dollars.
  function XorOf(s: string): bv8 {
    if s == "" then 0 else (if s[0] == '$' then 0 else CharByte(s[0])) ^ XorOf(s[1..])
  }

  lemma XorRegrouped(a: bv8, b: bv8, c: bv8)
    ensures (a ^ b) ^ c == a ^ (b ^ c) && a ^ 0 == a && 0 ^ a == a && (a ^ b == a ^ c ==> b == c)
    ensures (a ^ c == b ^ c ==> a == b)
  {}

  lemma {:induction false} SumIsXor(s: string, sum: bv8)
    requires NoStar(s)
    ensures SumFrom(s, true, sum) == sum ^ XorOf(s)
    decreases |s|
  {
    hide CharByte;
    XorRegrouped(sum, 0, 0);
    if s != "" {
      var x := if s[0] == '$' then 0 else CharByte(s[0]);
      SumOfNext(s, sum, x);
      SumIsXor(s[1..], sum ^ x);
      XorRegrouped(sum, x, XorOf(s[1..]));
    }
  }

  lemma SumOfNext(s: string, sum: bv8, x: bv8)
    requires s != "" && s[0] != '*' && x == if s[0] == '$' then 0 else CharByte(s[0])
    ensures SumFrom(s, true, sum) == SumFrom(s[1..], true, sum ^ x) && XorOf(s) == x ^ XorOf(s[1..])
  {
    hide CharByte;
    XorRegrouped(sum, 0, 0);
  }

  // The checksum of a message that begins with a dollar.
  lemma ChecksumIsXor(body: string)
    requires NoStar(body)
    ensures Checksum("$" + body) == XorOf(body) as int
  {
    hide CharByte;
    assert ("$" + body)[1..] == body;
    SumIsXor(body, 0);
    XorRegrouped(0, XorOf(body), 0);
  }

  lemma {:induction false} XorOfChange(s: string, i: nat, c: char)
    requires i < |s| && s[i] != '$' && c != '$' && CharByte(c) != CharByte(s[i])
    ensures XorOf(s[i := c]) != XorOf(s)
    decreases |s|
  {
    hide CharByte;
    if i == 0 {
      assert s[i := c][1..] == s[1..];
      XorRegrouped(CharByte(c), CharByte(s[0]), XorOf(s[1..]));
    } else {
      assert s[i := c][1..] == s[1..][i - 1 := c];
      XorOfChange(s[1..], i - 1, c);
      XorRegrouped(if s[0] == '$' then 0 else CharByte(s[0]), XorOf(s[1..]), XorOf(s[i := c][1..]));
    }
  }

  // Behind the star only the checksum of the text before it passes.
  lemma PassesExactlyWhen(text: string, v: int)
    requires NoStar(text) && 0 <= v < 256
    ensures ChecksumOk(text + "*" + HexPair(v) + "\r\n") <==> v == Checksum(text)
  {
    hide Checksum, HexValue, UpperHexChar, Scan2x, Find;
    var rest := HexPair(v) + "\r\n";
    var s := text + "*" + HexPair(v) + "\r\n";
    assert s == text + "*" + rest;
    ScanOfDigits(s, |text| + 1);
    SealedSum(text, rest);
    FindStar(text, rest);
  }

  lemma BytesDiffer(c: char, d: char)
    requires c as int % 256 != d as int % 256
    ensures CharByte(c) != CharByte(d)
  {
    Arithmetic.IntOfByte(c as int % 256);
    Arithmetic.IntOfByte(d as int % 256);
  }

  lemma SumsDiffer(a: bv8, b: bv8)
    requires a != b
    ensures a as int != b as int
  {}

  // A sealed message in which one character between dollar and star has become another byte, and
  // no mark, is not received.
  lemma DamagedCharacter(body: string, i: nat, c: char, work: Work, share: Share)
    requires NoStar(body) && i < |body| && body[i] != '$' && c != '$' && c != '*'
    requires c as int % 256 != body[i] as int % 256
    ensures var damaged := Sealed("$" + body)[i + 1 := c];
      ReceivedWork(damaged, work) == None && ReceivedShare(damaged, share) == None
  {
    hide Checksum, HexPair, ChecksumOk, CharByte;
    var text, other, v := "$" + body, "$" + body[i := c], Checksum("$" + body);
    assert Sealed(text)[i + 1 := c] == other + "*" + HexPair(v) + "\r\n";
    BytesDiffer(c, body[i]);
    XorOfChange(body, i, c);
    ChecksumIsXor(body);
    ChecksumIsXor(body[i := c]);
    SumsDiffer(XorOf(body), XorOf(body[i := c]));
    PassesExactlyWhen(other, v);
  }

  // Nor is one whose two digits behind the star have become those of another value.
  lemma DamagedChecksum(text: string, v: int, work: Work, share: Share)
    requires NoStar(text) && 0 <= v < 256
    ensures var damaged := text + "*" + HexPair(v) + "\r\n";
      damaged != Sealed(text) ==> ReceivedWork(damaged, work) == None && ReceivedShare(damaged, share) == None
  {
    hide Checksum, HexPair, ChecksumOk;
    PassesExactlyWhen(text, v);
  }
}
