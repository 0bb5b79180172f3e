/**
 How the master divides one pool job among its slaves: nonce ranges, job ids, extranonce2
 strings, and the work message for each.
 */
module ClusterWork {
  import opened Arithmetic
  import opened Numerals
  import opened ClusterText
  import opened ClusterProtocol
  import opened ClusterJobMap
  import opened ClusterRegistry
  import opened MiningUtils

  const WORD := 0x1_0000_0000

  // ----- Nonce ranges -----

  // The share of one worker, of total workers; the master is worker 0.
  function Range(total: int): int
    requires total > 0
  {
    UINT32_MAX / total
  }

  function NonceStart(total: int, worker: int): int
    requires total > 0
  {
    Range(total) * worker
  }

  function NonceEnd(total: int, worker: int): int
    requires total > 0
  {
    if worker < total - 1 then Range(total) * (worker + 1) - 1 else UINT32_MAX
  }

  // No product overflows 32 bits; ranges follow one another without a gap from 0 to the end.
  lemma RangesCover(total: int, worker: int)
    requires 0 <= worker < total <= UINT32_MAX
    ensures NonceStart(total, 0) == 0 && NonceEnd(total, total - 1) == UINT32_MAX
    ensures 0 <= NonceStart(total, worker) <= NonceEnd(total, worker) <= UINT32_MAX
    ensures Range(total) * (worker + 1) <= UINT32_MAX
    ensures worker + 1 < total ==> NonceStart(total, worker + 1) == NonceEnd(total, worker) + 1
  {
    var range := Range(total);
    RangePositive(total);
    MulMono(0, worker, range);
    MulMono(worker + 1, total, range);
    assert range * (worker + 1) == range * worker + range;
  }

  lemma RangePositive(total: int)
    requires 0 < total <= UINT32_MAX
    ensures Range(total) >= 1 && Range(total) * total <= UINT32_MAX
  {
    if UINT32_MAX / total < 1 {
      MulMono(UINT32_MAX / total, 0, total);
    }
  }

  lemma RangesDisjoint(total: int, i: int, j: int)
    requires 0 <= i < j < total <= UINT32_MAX
    ensures NonceEnd(total, i) < NonceStart(total, j)
  {
    RangePositive(total);
    MulMono(i + 1, j, Range(total));
  }

  // Every nonce belongs to exactly one worker.
  lemma EveryNonceHasAWorker(total: int, nonce: int) returns (worker: int)
    requires 0 < total <= UINT32_MAX && 0 <= nonce <= UINT32_MAX
    ensures 0 <= worker < total && NonceStart(total, worker) <= nonce <= NonceEnd(total, worker)
    ensures forall other :: 0 <= other < total && NonceStart(total, other) <= nonce <= NonceEnd(total, other) ==>
      other == worker
  {
    RangePositive(total);
    var range := Range(total);
    worker := if nonce / range < total then nonce / range else total - 1;
    if nonce / range >= total {
      MulMono(total - 1, nonce / range, range);
    }
    assert nonce == nonce / range * range + nonce % range;
    assert range * (worker + 1) == range * worker + range;
    MulMono(0, nonce / range, range);
    forall other | 0 <= other < total && NonceStart(total, other) <= nonce <= NonceEnd(total, other)
      ensures other == worker
    {
      if other < worker {
        RangesDisjoint(total, other, worker);
      } else if worker < other {
        RangesDisjoint(total, worker, other);
      }
    }
  }

  // ----- Job ids -----

  // The id of a worker's job for one tick, in 32 bits.
  function JobId(base: int, worker: int, tick: int): int {
    (base + worker + tick * CLUSTER_MAX_SLAVES) % WORD
  }

  // For one base, all ticks below 2^29 and all eight workers get different ids.
  lemma JobIdsDiffer(base: int, worker1: int, tick1: int, worker2: int, tick2: int)
    requires 1 <= worker1 <= CLUSTER_MAX_SLAVES && 1 <= worker2 <= CLUSTER_MAX_SLAVES
    requires 0 <= tick1 < 0x2000_0000 && 0 <= tick2 < 0x2000_0000
    requires JobId(base, worker1, tick1) == JobId(base, worker2, tick2)
    ensures worker1 == worker2 && tick1 == tick2
  {
    var x, y := base + worker1 + tick1 * CLUSTER_MAX_SLAVES, base + worker2 + tick2 * CLUSTER_MAX_SLAVES;
    SameRemainder(x, y);
  }

  lemma SameRemainder(x: int, y: int)
    requires x % WORD == y % WORD && -WORD < x - y < WORD
    ensures x == y
  {}

  // ----- Extranonce2 -----

  function HexDigits(digits: seq<int>): (s: string)
    requires AreDigits(digits, 16)
    ensures |s| == |digits|
  {
    seq(|digits|, i requires 0 <= i < |digits| => HexChar(digits[i]))
  }

  // The number of hexadecimal digits of n without leading zeros; one for 0.
  function HexLength(n: nat): (len: nat)
    ensures len >= 1
  {
    if n < 16 then 1 else 1 + HexLength(n / 16)
  }

  // What %0*lx prints: at least width digits.
  function PaddedHex(n: nat, width: nat): string {
    var len := if HexLength(n) > width then HexLength(n) else width;
    NumeralIsDigits(n, 16, len);
    HexDigits(Numeral(n, 16, len))
  }

  // The buffer has room for 2 * length characters.
  function Extranonce2Text(jobId: nat, length: nat): string {
    var text := PaddedHex(jobId, 2 * length);
    if |text| <= 2 * length then text else text[..2 * length]
  }

  lemma {:induction false} HexLengthBound(n: nat, k: nat)
    requires n < Power(16, k) && k >= 1
    ensures HexLength(n) <= k
    decreases k
  {
    if n >= 16 && k > 1 {
      QuotientBelow(n, 16, Power(16, k - 1));
      HexLengthBound(n / 16, k - 1);
    }
  }

  lemma EightDigits()
    ensures Power(16, 8) == WORD
  {
    assert Power(16, 4) == 0x1_0000;
  }

  lemma {:induction false} PowerGrows(k: nat, m: nat)
    requires k <= m
    ensures 1 <= Power(16, k) <= Power(16, m)
    decreases m
  {
    if k < m {
      PowerGrows(k, m - 1);
    } else if k > 0 {
      PowerGrows(k - 1, m - 1);
    }
  }

  // n without its last k hexadecimal digits.
  function Dropped(n: nat, k: nat): nat
    decreases k
  {
    if k == 0 then n else Dropped(n / 16, k - 1)
  }

  // The number that the text shows: the id, or its leading digits if it has more than fit.
  function Shown(jobId: nat, length: nat): nat {
    if HexLength(jobId) <= 2 * length then jobId else Dropped(jobId, HexLength(jobId) - 2 * length)
  }

  lemma {:induction false} DroppedDigits(n: nat, len: nat, k: nat)
    requires k <= len
    ensures Numeral(n, 16, len)[..len - k] == Numeral(Dropped(n, k), 16, len - k)
    decreases k
  {
    if k > 0 {
      DroppedDigits(n / 16, len - 1, k - 1);
      assert Numeral(n, 16, len)[..len - k] == Numeral(n / 16, 16, len - 1)[..len - k];
    } else {
      assert Numeral(n, 16, len)[..len] == Numeral(n, 16, len);
    }
  }

  lemma {:induction false} DroppedBound(n: nat, len: nat, k: nat)
    requires k <= len && n < Power(16, len)
    ensures Dropped(n, k) < Power(16, len - k)
    decreases k
  {
    if k > 0 {
      QuotientBelow(n, 16, Power(16, len - 1));
      DroppedBound(n / 16, len - 1, k - 1);
    }
  }

  lemma {:induction false} BelowItsLength(n: nat)
    ensures n < Power(16, HexLength(n))
    decreases n
  {
    if n >= 16 {
      BelowItsLength(n / 16);
      ProductBelow(n / 16, n % 16, 16, Power(16, HexLength(n / 16)));
    } else {
      assert Power(16, 1) == Power(16, 0) * 16;
    }
  }

  // The text always has 2 * length digits, those of the number it shows.
  lemma Extranonce2IsNumeral(jobId: nat, length: nat)
    ensures AreDigits(Numeral(Shown(jobId, length), 16, 2 * length), 16) && Shown(jobId, length) < Power(16, 2 * length)
    ensures Extranonce2Text(jobId, length) == HexDigits(Numeral(Shown(jobId, length), 16, 2 * length))
  {
    var w, h := 2 * length, HexLength(jobId);
    NumeralIsDigits(Shown(jobId, length), 16, w);
    BelowItsLength(jobId);
    if h <= w {
      PowerGrows(h, w);
    } else {
      NumeralIsDigits(jobId, 16, h);
      DroppedDigits(jobId, h, h - w);
      DroppedBound(jobId, h, h - w);
      CutDigits(Numeral(jobId, 16, h), w);
    }
    hide HexLength, Numeral, HexDigits, Dropped;
  }

  lemma CutDigits(digits: seq<int>, w: nat)
    requires AreDigits(digits, 16) && w <= |digits|
    ensures HexDigits(digits)[..w] == HexDigits(digits[..w])
  {}

  lemma HexDigitsDiffer(a: seq<int>, b: seq<int>)
    requires AreDigits(a, 16) && AreDigits(b, 16) && HexDigits(a) == HexDigits(b)
    ensures a == b
  {
    assert |a| == |HexDigits(a)| == |b|;
    forall i | 0 <= i < |a| ensures a[i] == b[i] {
      assert HexValue(HexDigits(a)[i]) == a[i] && HexValue(HexDigits(b)[i]) == b[i];
    }
  }

  // For every length: two ids print alike exactly if the texts show the same number.
  lemma Extranonce2SameExactlyWhen(jobId1: nat, jobId2: nat, length: nat)
    ensures Extranonce2Text(jobId1, length) == Extranonce2Text(jobId2, length) <==>
      Shown(jobId1, length) == Shown(jobId2, length)
  {
    hide Extranonce2Text, Numeral, HexDigits, Shown;
    Extranonce2IsNumeral(jobId1, length);
    Extranonce2IsNumeral(jobId2, length);
    if Extranonce2Text(jobId1, length) == Extranonce2Text(jobId2, length) {
      HexDigitsDiffer(Numeral(Shown(jobId1, length), 16, 2 * length), Numeral(Shown(jobId2, length), 16, 2 * length));
      ValueOfNumeral(Shown(jobId1, length), 16, 2 * length);
      ValueOfNumeral(Shown(jobId2, length), 16, 2 * length);
    }
  }

  // With at least four bytes nothing is cut off.
  lemma Extranonce2ShowsId(jobId: int, length: nat)
    requires IsWord(jobId) && length >= 4
    ensures Shown(jobId, length) == jobId
  {
    EightDigits();
    HexLengthBound(jobId, 8);
  }

  lemma Extranonce2Differs(jobId1: int, jobId2: int, length: nat)
    requires IsWord(jobId1) && IsWord(jobId2) && length >= 4
    ensures Extranonce2Text(jobId1, length) == Extranonce2Text(jobId2, length) <==> jobId1 == jobId2
  {
    hide Extranonce2Text, Shown;
    Extranonce2SameExactlyWhen(jobId1, jobId2, length);
    Extranonce2ShowsId(jobId1, length);
    Extranonce2ShowsId(jobId2, length);
  }

  // All workers and ticks of one job search different extranonce2 strings of the right length.
  lemma WorkIsSplit(base: int, worker1: int, tick1: int, worker2: int, tick2: int, length: nat)
    requires 1 <= worker1 <= CLUSTER_MAX_SLAVES && 1 <= worker2 <= CLUSTER_MAX_SLAVES
    requires 0 <= tick1 < 0x2000_0000 && 0 <= tick2 < 0x2000_0000 && length >= 4 && (worker1, tick1) != (worker2, tick2)
    ensures JobId(base, worker1, tick1) != JobId(base, worker2, tick2)
    ensures Extranonce2Text(JobId(base, worker1, tick1), length) != Extranonce2Text(JobId(base, worker2, tick2), length)
    ensures |Extranonce2Text(JobId(base, worker1, tick1), length)| == 2 * length
  {
    hide Extranonce2Text, Numeral, Shown;
    var id1, id2 := JobId(base, worker1, tick1), JobId(base, worker2, tick2);
    Extranonce2IsNumeral(id1, length);
    if id1 == id2 {
      JobIdsDiffer(base, worker1, tick1, worker2, tick2);
      assert false;
    }
    Extranonce2Differs(id1, id2, length);
  }

  // With fewer than four bytes low digits are cut off, and the strings of two workers can be equal.
  lemma ShortExtranonce2Collides()
    ensures Extranonce2Text(0x1000_0001, 3) == Extranonce2Text(0x1000_0002, 3)
  {
  }

  // ----- The work of one slave -----

  // A double SHA-256, as an arbitrary function to 32 bytes.
  type Sha = seq<Byte> -> seq<Byte>

  // The merkle root: the coinbase transaction hashed, then joined with each branch in turn.
  function MerkleRoot(sha: Sha, coinbase: seq<Byte>, branches: seq<seq<Byte>>): seq<Byte> {
    if branches == [] then sha(coinbase)
    else sha(MerkleRoot(sha, coinbase, branches[..|branches| - 1]) + branches[|branches| - 1])
  }

  ghost predicate IsSha(sha: Sha) { forall data :: |sha(data)| == HASH_SIZE }

  function CoinbaseBytes(text: string): (bytes: seq<Byte>)
    ensures |bytes| == |text| / 2
  {
    seq(|text| / 2, i requires 0 <= i < |text| / 2 => HexByteAt(text, i))
  }

  // One step up the tree: the hash of both halves replaces the first.
  method JoinBranch(sha: Sha, bothMerkles: array<Byte>, branch: seq<Byte>)
    requires IsSha(sha) && bothMerkles.Length == 64 && |branch| == HASH_SIZE
    modifies bothMerkles
    ensures bothMerkles[..32] == sha(old(bothMerkles[..32]) + branch)
  {
    ghost var first := bothMerkles[..32];
    CopyInto(branch, bothMerkles, 32);
    assert bothMerkles[..] == first + branch;
    var newRoot := sha(bothMerkles[..]);
    CopyInto(newRoot, bothMerkles, 0);
    assert bothMerkles[..32] == bothMerkles[0..32];
  }

  lemma RootStep(sha: Sha, coinbase: seq<Byte>, branches: seq<seq<Byte>>, i: nat)
    requires i < |branches|
    ensures MerkleRoot(sha, coinbase, branches[..i + 1]) == sha(MerkleRoot(sha, coinbase, branches[..i]) + branches[i])
  {
    assert branches[..i + 1][..i] == branches[..i];
  }

  lemma RootSize(sha: Sha, coinbase: seq<Byte>, branches: seq<seq<Byte>>)
    requires IsSha(sha)
    ensures |MerkleRoot(sha, coinbase, branches)| == HASH_SIZE
  {}

  method MerkleOfBytes(coinbase: seq<Byte>, branches: seq<seq<Byte>>, sha: Sha) returns (root: seq<Byte>)
    requires IsSha(sha) && forall b :: b in branches ==> |b| == HASH_SIZE
    ensures root == MerkleRoot(sha, coinbase, branches) && |root| == HASH_SIZE
  {
    hide MerkleRoot;
    var bothMerkles := new Byte[64](_ => 0);
    var newRoot := sha(coinbase);
    CopyInto(newRoot, bothMerkles, 0);
    RootOfCoinbase(sha, coinbase);
    assert branches[..0] == [] && bothMerkles[..32] == bothMerkles[0..32];
    for i := 0 to |branches|
      invariant bothMerkles[..32] == MerkleRoot(sha, coinbase, branches[..i])
    {
      RootStep(sha, coinbase, branches, i);
      JoinBranch(sha, bothMerkles, branches[i]);
    }
    assert branches[..|branches|] == branches;
    root := bothMerkles[..32];
  }

  lemma RootOfCoinbase(sha: Sha, coinbase: seq<Byte>)
    ensures MerkleRoot(sha, coinbase, []) == sha(coinbase)
  {}

  method CalculateMerkleRootHash(coinbaseTx: string, branches: seq<seq<Byte>>, sha: Sha, rootHex: array<char>)
    requires IsSha(sha) && rootHex.Length == 65 && forall b :: b in branches ==> |b| == HASH_SIZE
    modifies rootHex
    ensures var root := MerkleRoot(sha, CoinbaseBytes(coinbaseTx), branches);
      |root| == HASH_SIZE && rootHex[..64] == HexOf(root)
  {
    hide HexByteAt, HexOf, MerkleRoot, IsSha;
    var coinbase := new Byte[|coinbaseTx| / 2](_ => 0);
    var len := Hex2Bin(coinbaseTx, coinbase);
    assert coinbase[..] == CoinbaseBytes(coinbaseTx);
    var root := MerkleOfBytes(coinbase[..], branches, sha);
    var n := Bin2Hex(root, rootHex);
  }

  method CopyInto(src: seq<Byte>, dst: array<Byte>, at: nat)
    requires |src| == 32 && at + 32 <= dst.Length
    modifies dst
    ensures dst[at..at + 32] == src
    ensures forall i :: 0 <= i < dst.Length && !(at <= i < at + 32) ==> dst[i] == old(dst[i])
  {
    forall i | 0 <= i < 32 {
      dst[at + i] := src[i];
    }
  }

  // What one distribution works from.
  datatype Job = Job(notify: Notify, pool: int, extranonce: string, length: nat, versionMask: int, difficulty: int,
      tick: nat)
  {
    predicate Valid() {
      && |notify.prevBlockHash| == HASH_SIZE && (forall b :: b in notify.merkleBranches ==> |b| == HASH_SIZE)
      && IsWord(notify.version) && IsWord(notify.target) && IsWord(notify.ntime)
      && IsByte(pool) && length <= 8 && IsWord(versionMask) && IsWord(difficulty)
    }
  }

  function CoinbaseText(job: Job, jobId: nat): string {
    job.notify.coinbase1 + job.extranonce + Extranonce2Text(jobId, job.length) + job.notify.coinbase2
  }

  function RootOf(job: Job, jobId: nat, sha: Sha): seq<Byte> {
    MerkleRoot(sha, CoinbaseBytes(CoinbaseText(job, jobId)), job.notify.merkleBranches)
  }

  // The bytes of the extranonce2 text, in a buffer of eight.
  function Extranonce2Bytes(jobId: nat, length: nat): (bytes: seq<Byte>)
    ensures |bytes| == 8
  {
    var text := Extranonce2Text(jobId, length);
    seq(8, i requires 0 <= i < 8 => if i < length && Scan2x(text, 2 * i) >= 0 then Scan2x(text, 2 * i) else 0)
  }

  function WorkFor(job: Job, slaveId: int, total: int, worker: int, jobId: nat, root: seq<Byte>): Work
    requires total > 0
  {
    Work(slaveId, jobId, job.notify.prevBlockHash, root, job.notify.version, job.versionMask, job.notify.target,
      job.notify.ntime, NonceStart(total, worker), NonceEnd(total, worker), Extranonce2Bytes(jobId, job.length),
      job.length, true, job.difficulty, job.pool)
  }

  function EntryFor(job: Job, jobId: nat): Entry {
    MakeEntry(jobId, job.notify.jobId, Extranonce2Text(jobId, job.length), job.pool)
  }
}
