/** Byte order and hexadecimal helpers of the mining code, and the job built from a notify. */
module MiningUtils {
  import opened Numerals
  import opened ClusterText

  const HASH_SIZE := 32

  // ----- Orders -----

  // Every 4-byte word backwards.
  function SwapWords(data: seq<Byte>): (swapped: seq<Byte>)
    requires |data| % 4 == 0
    ensures |swapped| == |data|
  {
    seq(|data|, i requires 0 <= i < |data| => data[SwapPlace(i)])
  }

  function SwapPlace(i: int): int { i / 4 * 4 + 3 - i % 4 }

  function Reversed(data: seq<Byte>): (r: seq<Byte>)
    ensures |r| == |data|
  {
    seq(|data|, i requires 0 <= i < |data| => data[|data| - 1 - i])
  }

  lemma SwapTwice(data: seq<Byte>)
    requires |data| % 4 == 0
    ensures SwapWords(SwapWords(data)) == data
  {}

  // Swapping the words and then reversing it all puts the words in reverse order, each as it was.
  lemma SwapThenReverse(data: seq<Byte>, i: nat)
    requires |data| % 4 == 0 && i < |data|
    ensures 0 <= |data| - 4 - i / 4 * 4 + i % 4 < |data|
    ensures Reversed(SwapWords(data))[i] == data[|data| - 4 - i / 4 * 4 + i % 4]
  {}

  // ----- Words in memory, least byte first -----

  function Word(b0: int, b1: int, b2: int, b3: int): int {
    b0 + 0x100 * b1 + 0x1_0000 * b2 + 0x100_0000 * b3
  }

  // A 32-bit word with its bytes in the other order, by shifts and masks.
  function Swab32(w: int): int {
    w / 0x100_0000 + w / 0x1_0000 % 0x100 * 0x100 + w / 0x100 % 0x100 * 0x1_0000 + w % 0x100 * 0x100_0000
  }

  lemma BytesOfWord(b0: Byte, b1: Byte, b2: Byte, b3: Byte)
    ensures var w := Word(b0, b1, b2, b3);
      w % 0x100 == b0 && w / 0x100 % 0x100 == b1 && w / 0x1_0000 % 0x100 == b2 && w / 0x100_0000 == b3
  {
    var w := Word(b0, b1, b2, b3);
    var x := b1 + 0x100 * b2 + 0x1_0000 * b3;
    assert w == 0x100 * x + b0;
    var y := b2 + 0x100 * b3;
    assert x == 0x100 * y + b1;
    assert w / 0x100 == x && w / 0x1_0000 == y;
  }

  lemma SwabOfWord(b0: Byte, b1: Byte, b2: Byte, b3: Byte)
    ensures Swab32(Word(b0, b1, b2, b3)) == Word(b3, b2, b1, b0)
  {
    BytesOfWord(b0, b1, b2, b3);
  }

  method SwapWord(data: seq<Byte>, i: nat, output: array<Byte>)
    requires 4 * i + 4 <= |data| == output.Length && |data| % 4 == 0
    modifies output
    ensures forall k :: 0 <= k < output.Length && 4 * i <= k < 4 * i + 4 ==> output[k] == SwapWords(data)[k]
    ensures forall k :: 0 <= k < output.Length && !(4 * i <= k < 4 * i + 4) ==> output[k] == old(output[k])
  {
    hide Swab32, Word;
    var b0, b1, b2, b3 := data[4 * i], data[4 * i + 1], data[4 * i + 2], data[4 * i + 3];
    var word := Word(b0, b1, b2, b3);
    word := Swab32(word);
    SwabOfWord(b0, b1, b2, b3);
    BytesOfWord(b3, b2, b1, b0);
    output[4 * i] := word % 0x100;
    output[4 * i + 1] := word / 0x100 % 0x100;
    output[4 * i + 2] := word / 0x1_0000 % 0x100;
    output[4 * i + 3] := word / 0x100_0000;
  }

  method SwapEndianWordsBin(data: seq<Byte>, output: array<Byte>)
    requires |data| == output.Length && |data| % 4 == 0
    modifies output
    ensures output[..] == SwapWords(data)
  {
    hide SwapWords;
    for i := 0 to |data| / 4
      invariant forall k :: 0 <= k < 4 * i ==> output[k] == SwapWords(data)[k]
    {
      SwapWord(data, i, output);
    }
  }

  function HexPairs(hex: string): (bytes: seq<Byte>)
    ensures |bytes| == |hex| / 2
  {
    seq(|hex| / 2, i requires 0 <= i < |hex| / 2 => if Scan2x(hex, 2 * i) >= 0 then Scan2x(hex, 2 * i) else 0)
  }

  lemma SwappedByte(hex: string, i: nat, j: nat)
    requires |hex| % 8 == 0 && i < |hex| / 8 && j < 4 && Scan2x(hex, 2 * (4 * i + j)) >= 0
    ensures SwapWords(HexPairs(hex))[4 * i + (3 - j)] == Scan2x(hex, 2 * (4 * i + j))
  {
    hide Scan2x;
    assert SwapPlace(4 * i + (3 - j)) == 4 * i + j;
  }

  // From text: the scan result is the byte, in the place of the swapped word.
  method SwapEndianWords(hexWords: string, output: array<Byte>)
    requires |hexWords| % 8 == 0 && |hexWords| / 2 == output.Length
    requires forall i :: 0 <= i < |hexWords| / 2 ==> Scan2x(hexWords, 2 * i) >= 0
    modifies output
    ensures output[..] == SwapWords(HexPairs(hexWords))
  {
    hide Scan2x, SwapWords, HexPairs;
    ghost var bytes := HexPairs(hexWords);
    for i := 0 to |hexWords| / 8
      invariant forall k :: 0 <= k < 4 * i ==> output[k] == SwapWords(bytes)[k]
    {
      for j := 0 to 4
        invariant forall k :: 0 <= k < 4 * i ==> output[k] == SwapWords(bytes)[k]
        invariant forall k :: 4 * i + 4 - j <= k < 4 * i + 4 ==> output[k] == SwapWords(bytes)[k]
      {
        SwappedByte(hexWords, i, j);
        var place := 4 * i + j;
        var byteVal := Scan2x(hexWords, 2 * place);
        output[4 * i + (3 - j)] := byteVal;
      }
    }
  }

  method ReverseBytes(data: array<Byte>)
    modifies data
    ensures data[..] == Reversed(old(data[..]))
  {
    var len := data.Length;
    for i := 0 to len / 2
      invariant forall k :: 0 <= k < i ==> data[k] == old(data[len - 1 - k]) && data[len - 1 - k] == old(data[k])
      invariant forall k :: i <= k < len - i ==> data[k] == old(data[k])
    {
      var temp := data[i];
      data[i] := data[len - 1 - i];
      data[len - 1 - i] := temp;
    }
  }

  // ----- Hexadecimal -----

  function HexDigit(c: char): (v: int)
    ensures 0 <= v < 16
  {
    if HexValue(c) >= 0 then HexValue(c) else 0
  }

  // Byte i of the text; a last single digit is a high half.
  function HexByteAt(hex: string, i: nat): (b: Byte)
    requires 2 * i < |hex|
  {
    16 * HexDigit(hex[2 * i]) + if 2 * i + 1 < |hex| then HexDigit(hex[2 * i + 1]) else 0
  }

  method Hex2Bin(hex: string, bin: array<Byte>) returns (len: nat)
    modifies bin
    ensures len == Smaller((|hex| + 1) / 2, bin.Length)
    ensures forall i :: 0 <= i < len ==> bin[i] == HexByteAt(hex, i)
    ensures forall i :: len <= i < bin.Length ==> bin[i] == old(bin[i])
  {
    hide HexDigit;
    len := 0;
    var p := 0;
    while p < |hex| && len < bin.Length
      invariant p == 2 * len <= |hex| && len <= bin.Length
      invariant forall i :: 0 <= i < len ==> bin[i] == HexByteAt(hex, i)
      invariant forall i :: len <= i < bin.Length ==> bin[i] == old(bin[i])
      decreases |hex| - p
    {
      bin[len] := 16 * HexDigit(hex[p]);
      p := p + 1;
      if p == |hex| {
        len := len + 1;
        break;
      }
      bin[len] := bin[len] + HexDigit(hex[p]);
      len := len + 1;
      p := p + 1;
    }
  }

  function Smaller(a: int, b: int): int { if a < b then a else b }

  method Bin2Hex(buf: seq<Byte>, hex: array<char>) returns (n: nat)
    requires 2 * |buf| < hex.Length
    modifies hex
    ensures n == 2 * |buf| && hex[..n] == HexOf(buf) && hex[n] == '\0'
  {
    BytesToHex(buf, hex);
    return 2 * |buf|;
  }

  lemma HexOfIsRead(bytes: seq<Byte>)
    ensures HexPairs(HexOf(bytes)) == bytes
    ensures forall i :: 0 <= i < |bytes| ==>
      HexByteAt(HexOf(bytes), i) == bytes[i] && Scan2x(HexOf(bytes), 2 * i) == bytes[i]
  {
    hide HexPairs;
    forall i | 0 <= i < |bytes|
      ensures HexByteAt(HexOf(bytes), i) == bytes[i] && Scan2x(HexOf(bytes), 2 * i) == bytes[i]
    {
      ScanOfHex(bytes, i);
    }
    PairsAre(bytes);
  }

  lemma PairsAre(bytes: seq<Byte>)
    requires forall i :: 0 <= i < |bytes| ==> Scan2x(HexOf(bytes), 2 * i) == bytes[i]
    ensures HexPairs(HexOf(bytes)) == bytes
  {
    hide Scan2x, HexOf;
  }

  // ----- Jobs -----

  datatype Notify = Notify(jobId: string, prevBlockHash: seq<Byte>, coinbase1: string, coinbase2: string,
    merkleBranches: seq<seq<Byte>>, version: int, target: int, ntime: int, difficulty: int)

  class BmJob {
    var version: int
    var versionMask: int
    const prevBlockHash: array<Byte>
    const prevBlockHashBe: array<Byte>
    const merkleRoot: array<Byte>
    const merkleRootBe: array<Byte>
    var ntime: int
    var target: int
    var startingNonce: int
    var poolDiff: int
    var asicDiff: int
    var poolId: int
    var jobid: string
    var extranonce2: string

    ghost predicate Valid()
      reads this
    {
      && prevBlockHash.Length == prevBlockHashBe.Length == merkleRoot.Length == merkleRootBe.Length == HASH_SIZE
      && prevBlockHash != prevBlockHashBe && prevBlockHash != merkleRoot && prevBlockHash != merkleRootBe
      && prevBlockHashBe != merkleRoot && prevBlockHashBe != merkleRootBe && merkleRoot != merkleRootBe
    }

    constructor ()
      ensures Valid() && fresh(prevBlockHash) && fresh(prevBlockHashBe) && fresh(merkleRoot) && fresh(merkleRootBe)
    {
      prevBlockHash := new Byte[HASH_SIZE](_ => 0);
      prevBlockHashBe := new Byte[HASH_SIZE](_ => 0);
      merkleRoot := new Byte[HASH_SIZE](_ => 0);
      merkleRootBe := new Byte[HASH_SIZE](_ => 0);
      version, versionMask, ntime, target, startingNonce, poolDiff, asicDiff, poolId := 0, 0, 0, 0, 0, 0, 0, 0;
      jobid, extranonce2 := "", "";
    }

    // Both byte orders of the two hashes of the header.
    ghost predicate Hashes(prev: seq<Byte>, root: seq<Byte>)
      requires |prev| == |root| == HASH_SIZE
      reads prevBlockHash, prevBlockHashBe, merkleRoot, merkleRootBe
    {
      && prevBlockHash[..] == SwapWords(prev) && prevBlockHashBe[..] == Reversed(prev)
      && merkleRoot[..] == root && merkleRootBe[..] == Reversed(SwapWords(root))
    }

    // The previous hash of a notify and the text of a merkle root.
    method ConstructBmJob(params: Notify, merkleRootHex: string, mask: int, ghost root: seq<Byte>)
      requires Valid() && |params.prevBlockHash| == |root| == HASH_SIZE && merkleRootHex == HexOf(root)
      modifies this, prevBlockHash, prevBlockHashBe, merkleRoot, merkleRootBe
      ensures Hashes(params.prevBlockHash, root)
      ensures version == params.version && versionMask == mask && startingNonce == 0
      ensures target == params.target && ntime == params.ntime && poolDiff == params.difficulty
    {
      hide SwapWords, Reversed, HexOf, Scan2x, HexPairs, HexByteAt;
      HexOfIsRead(root);
      version, versionMask, startingNonce := params.version, mask, 0;
      target, ntime, poolDiff := params.target, params.ntime, params.difficulty;
      var n := Hex2Bin(merkleRootHex, merkleRoot);
      assert merkleRoot[..] == root;
      SwapEndianWords(merkleRootHex, merkleRootBe);
      ReverseBytes(merkleRootBe);
      SwapEndianWordsBin(params.prevBlockHash, prevBlockHash);
      CopyBytes(params.prevBlockHash, prevBlockHashBe);
      ReverseBytes(prevBlockHashBe);
    }
  }

  method CopyBytes(src: seq<Byte>, dst: array<Byte>)
    requires |src| == dst.Length
    modifies dst
    ensures dst[..] == src
  {
    forall i | 0 <= i < dst.Length {
      dst[i] := src[i];
    }
  }
}
