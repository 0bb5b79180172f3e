/**
 A slave: the job it builds from the work it received, the share it forwards, and the way of a
 share back to what it was mined for.
 */
module ClusterSlave {
  import opened Options
  import opened Numerals
  import opened ClusterText
  import opened ClusterProtocol
  import opened ClusterRegistry
  import opened ClusterJobMap
  import opened ClusterWork
  import MerkleTree
  import opened MiningUtils

  const BROADCAST_ID := 0xFF

  // The share of a solution to a job: its id as the number behind the text, its extranonce2 as bytes.
  function ForwardedShare(slaveId: int, jobIdText: string, extranonce2: string, ntime: int, nonce: int, version: int,
      poolId: int, difficulty: int): Share
  {
    Share(slaveId, StrToUl(jobIdText), nonce, ntime, version, PairBytes(extranonce2), |extranonce2| / 2 % 256,
      poolId % 256, difficulty)
  }

  // The pairs of text in a buffer of eight.
  function PairBytes(text: string): (bytes: seq<Byte>)
    ensures |bytes| == 8
  {
    seq(8, i requires 0 <= i < 8 => if i < |text| / 2 % 256 && Scan2x(text, 2 * i) >= 0 then Scan2x(text, 2 * i) else 0)
  }

  // ----- Membership, on values -----

  const WORK_QUEUE_SIZE := 4
  const CLUSTER_WORK_TIMEOUT_MS := 20000

  // Whether the slave takes itself for registered, with which id, when it last heard of the
  // master, and the work that waits to be processed.
  datatype Member = Member(registered: bool, slaveId: int, lastWorkMs: int, queue: seq<Work>)

  const NEW_MEMBER := Member(false, 0, 0, [])

  function Acknowledged(m: Member, ack: Ack, now: int): Member {
    if ack.accepted then m.(registered := true, slaveId := ack.slaveId, lastWorkMs := now) else m.(registered := false)
  }

  predicate IsFor(w: Work, id: int) { w.targetSlaveId == id || w.targetSlaveId == BROADCAST_ID }

  predicate Accepts(m: Member, w: Work) { m.registered && IsFor(w, m.slaveId) }

  // A full queue drops the work, but it counts as a sign of the master.
  function Supplied(m: Member, w: Work, now: int): Member {
    if !Accepts(m, w) then m
    else m.(lastWorkMs := now, queue := if |m.queue| < WORK_QUEUE_SIZE then m.queue + [w] else m.queue)
  }

  predicate Silent(m: Member, now: int) {
    m.registered && m.lastWorkMs != 0 && (now - m.lastWorkMs) % TWO_TO_64 > CLUSTER_WORK_TIMEOUT_MS
  }

  function Rechecked(m: Member, now: int): Member {
    if Silent(m, now) then m.(registered := false, lastWorkMs := 0) else m
  }

  function Dequeued(m: Member): Member { if m.queue == [] then m else m.(queue := m.queue[1..]) }

  class Slave {
    var registered: bool
    var slaveId: int
    var lastWorkMs: int
    var queue: seq<Work>
    var hasLastJob: bool
    var lastJobId: int
    var sent: seq<string>

    function Standing(): Member
      reads this
    {
      Member(registered, slaveId, lastWorkMs, queue)
    }

    constructor ()
      ensures Standing() == NEW_MEMBER && !hasLastJob && sent == []
    {
      registered, slaveId, lastWorkMs, queue := false, 0, 0, [];
      hasLastJob, lastJobId, sent := false, 0, [];
    }

    method OnAck(ack: Ack, now: int)
      modifies `registered, `slaveId, `lastWorkMs
      ensures Standing() == Acknowledged(old(Standing()), ack, now)
    {
      if ack.accepted {
        slaveId := ack.slaveId;
        registered := true;
        lastWorkMs := now;
      } else {
        registered := false;
      }
    }

    method OnWork(work: Work, now: int)
      modifies `lastWorkMs, `queue
      ensures Standing() == Supplied(old(Standing()), work, now)
    {
      if !registered {
        return;
      }
      if work.targetSlaveId != slaveId && work.targetSlaveId != BROADCAST_ID {
        return;
      }
      lastWorkMs := now;
      if |queue| < WORK_QUEUE_SIZE {
        queue := queue + [work];
      }
    }

    method CheckReconnect(now: int)
      modifies `registered, `lastWorkMs
      ensures Standing() == Rechecked(old(Standing()), now)
    {
      if !registered || lastWorkMs == 0 {
        return;
      }
      if (now - lastWorkMs) % TWO_TO_64 > CLUSTER_WORK_TIMEOUT_MS {
        registered, lastWorkMs := false, 0;
      }
    }

    // The work task takes the oldest work from the queue.
    method TakeWork() returns (work: Option<Work>)
      modifies `queue
      ensures Standing() == Dequeued(old(Standing()))
      ensures work == if old(queue) == [] then None else Some(old(queue)[0])
    {
      if queue == [] {
        return None;
      }
      work, queue := Some(queue[0]), queue[1..];
    }

    // Builds the job, or nothing when the same job has just been built and need not be again.
    method ProcessWork(work: Work, asicMax: int) returns (job: BmJob?)
      requires work.Valid()
      modifies `hasLastJob, `lastJobId
      ensures job == null <==> old(hasLastJob) && old(lastJobId) == work.jobId && !work.cleanJobs
      ensures job != null ==> fresh(job) && job.Valid() && IsJobOf(job, work) && hasLastJob && lastJobId == work.jobId
    {
      if hasLastJob && work.jobId == lastJobId && !work.cleanJobs {
        return null;
      }
      lastJobId, hasLastJob := work.jobId, true;
      job := BuildJob(work, asicMax);
    }

    method ForwardShare(jobIdText: string, extranonce2: string, ntime: int, nonce: int, version: int, poolId: int,
        difficulty: int)
      requires |extranonce2| <= 16 && IsByte(slaveId) && IsWord(ntime) && IsWord(nonce) && IsWord(version)
        && 0 <= difficulty
      modifies `sent
      ensures ForwardedShare(slaveId, jobIdText, extranonce2, ntime, nonce, version, poolId, difficulty).Valid()
      ensures var msg :=
        ShareMessage(ForwardedShare(slaveId, jobIdText, extranonce2, ntime, nonce, version, poolId, difficulty));
        sent == old(sent) + if registered && |msg| < CLUSTER_MSG_MAX_LEN then [msg, msg, msg] else []
    {
      hide ShareMessage, Scan2x, LeadingDigits, DecimalValue;
      ShareIsValid(slaveId, jobIdText, extranonce2, ntime, nonce, version, poolId, difficulty);
      if !registered {
        return;
      }
      var length := |extranonce2| / 2 % 256;
      var en2 := new Byte[8](_ => 0);
      var i := 0;
      while i < length && i < 8
        invariant 0 <= i <= 8 && i <= length && sent == old(sent)
        invariant forall k :: 0 <= k < 8 ==> en2[k] == if k < i then PairBytes(extranonce2)[k] else 0
      {
        var val := Scan2x(extranonce2, 2 * i);
        if val >= 0 {
          en2[i] := val;
        }
        i := i + 1;
      }
      assert en2[..] == PairBytes(extranonce2);
      var share := Share(slaveId, StrToUl(jobIdText), nonce, ntime, version, en2[..], length, poolId % 256, difficulty);
      assert share == ForwardedShare(slaveId, jobIdText, extranonce2, ntime, nonce, version, poolId, difficulty);
      var msg := new char[CLUSTER_MSG_MAX_LEN];
      var len := EncodeShare(share, msg);
      ShareMessageIsLong(share);
      if len > 0 {
        var text := msg[..len];
        sent := sent + [text, text, text];
      }
    }
  }

  lemma ShareMessageIsLong(s: Share)
    requires s.Valid()
    ensures |ShareMessage(s)| > 0
  {}

  lemma ShareIsValid(slaveId: int, jobIdText: string, extranonce2: string, ntime: int, nonce: int, version: int,
      poolId: int, difficulty: int)
    requires |extranonce2| <= 16 && IsByte(slaveId) && IsWord(ntime) && IsWord(nonce) && IsWord(version)
      && 0 <= difficulty
    ensures ForwardedShare(slaveId, jobIdText, extranonce2, ntime, nonce, version, poolId, difficulty).Valid()
  {
    hide StrToUl, PairBytes;
    StrToUlIsWord(jobIdText);
  }

  // ----- The job of a work message -----

  ghost predicate IsJobOf(job: BmJob, w: Work)
    reads job, job.prevBlockHash, job.prevBlockHashBe, job.merkleRoot, job.merkleRootBe
  {
    && w.Valid() && job.Hashes(w.prevBlockHash, w.merkleRoot)
    && job.version == w.version && job.versionMask == w.versionMask && job.ntime == w.ntime && job.target == w.nbits
    && job.startingNonce == w.nonceStart && job.poolDiff == w.poolDiff && job.poolId == w.poolId
    && job.jobid == Decimal(w.jobId) && job.extranonce2 == HexOf(w.Extranonce2())
  }

  // The hashes from binary, the other way than from a notify and text.
  method FillHashes(job: BmJob, prev: seq<Byte>, root: seq<Byte>)
    requires job.Valid() && |prev| == |root| == HASH_SIZE
    modifies job.prevBlockHash, job.prevBlockHashBe, job.merkleRoot, job.merkleRootBe
    ensures job.Hashes(prev, root)
  {
    hide SwapWords, Reversed;
    SwapEndianWordsBin(prev, job.prevBlockHash);
    CopyBytes(root, job.merkleRoot);
    CopyBytes(prev, job.prevBlockHashBe);
    ReverseBytes(job.prevBlockHashBe);
    SwapEndianWordsBin(root, job.merkleRootBe);
    ReverseBytes(job.merkleRootBe);
  }

  method BuildJob(work: Work, asicMax: int) returns (job: BmJob)
    requires work.Valid()
    ensures fresh(job) && job.Valid() && IsJobOf(job, work) && job.asicDiff == Smaller(work.poolDiff, asicMax)
  {
    hide HexOf, Decimal, BmJob.Hashes;
    var en2Hex := new char[17];
    BytesToHex(work.Extranonce2(), en2Hex);
    job := new BmJob();
    FillFields(job, work, asicMax, en2Hex[..2 * work.extranonce2Len]);
    FillHashes(job, work.prevBlockHash, work.merkleRoot);
  }

  method FillFields(job: BmJob, work: Work, asicMax: int, en2Hex: string)
    requires IsWord(work.jobId)
    modifies job
    ensures job.version == work.version && job.versionMask == work.versionMask && job.ntime == work.ntime
      && job.target == work.nbits
    ensures job.startingNonce == work.nonceStart && job.poolDiff == work.poolDiff && job.poolId == work.poolId
    ensures job.asicDiff == Smaller(work.poolDiff, asicMax)
    ensures job.jobid == Decimal(work.jobId) && job.extranonce2 == en2Hex
  {
    hide Decimal;
    job.version, job.versionMask := work.version, work.versionMask;
    job.ntime, job.target, job.startingNonce := work.ntime, work.nbits, work.nonceStart;
    job.poolDiff := work.poolDiff;
    job.asicDiff := if work.poolDiff < asicMax then work.poolDiff else asicMax;
    job.poolId := work.poolId;
    job.jobid := Decimal(work.jobId);
    job.extranonce2 := en2Hex;
  }

  // ----- The same header -----

  // w is what a slave received of the work that the master made for worker, in a message that fits.
  ghost predicate Received(job: Job, slaveId: int, total: nat, worker: int, jobId: nat, sha: Sha, w: Work) {
    && job.Valid() && total > 0 && w.Valid()
    && var made := WorkFor(job, slaveId, total, worker, jobId, RootOf(job, jobId, sha));
       && made.Valid() && |WorkMessage(made)| < CLUSTER_MSG_MAX_LEN
       && exists blank :: IsBlankWork(blank) && ReceivedWork(WorkMessage(made), blank) == Some(w)
  }

  // What a received structure may hold before it is filled.
  predicate IsBlankWork(blank: Work) {
    |blank.prevBlockHash| == |blank.merkleRoot| == 32 && |blank.extranonce2| == 8
  }

  // Every field arrives, and of the extranonce buffer what counts.
  lemma ReceivedIsMade(job: Job, slaveId: int, total: nat, worker: int, jobId: nat, sha: Sha, w: Work)
    requires Received(job, slaveId, total, worker, jobId, sha, w)
    ensures var made := WorkFor(job, slaveId, total, worker, jobId, RootOf(job, jobId, sha));
      made == w.(extranonce2 := made.extranonce2) && 0 <= job.length <= 8
        && w.Extranonce2() == made.extranonce2[..job.length]
  {
    hide RootOf, ReceivedWork, WorkMessage, Extranonce2Bytes, NonceStart, NonceEnd;
    var made := WorkFor(job, slaveId, total, worker, jobId, RootOf(job, jobId, sha));
    var blank :| IsBlankWork(blank) && ReceivedWork(WorkMessage(made), blank) == Some(w);
    WorkRoundTrip(made, blank);
  }

  // A slave that received its work builds the header fields the master would build from the
  // notify itself, in both byte orders.
  lemma SameHeader(master: BmJob, slave: BmJob, job: Job, w: Work, slaveId: int, total: nat, worker: int, jobId: nat,
      sha: Sha)
    requires Received(job, slaveId, total, worker, jobId, sha, w) && |RootOf(job, jobId, sha)| == HASH_SIZE
    requires master.Hashes(job.notify.prevBlockHash, RootOf(job, jobId, sha))
    requires master.version == job.notify.version && master.ntime == job.notify.ntime
      && master.target == job.notify.target
    requires IsJobOf(slave, w)
    ensures slave.version == master.version && slave.ntime == master.ntime && slave.target == master.target
    ensures slave.prevBlockHash[..] == master.prevBlockHash[..]
      && slave.prevBlockHashBe[..] == master.prevBlockHashBe[..]
    ensures slave.merkleRoot[..] == master.merkleRoot[..] && slave.merkleRootBe[..] == master.merkleRootBe[..]
  {
    hide RootOf, SwapWords, Reversed, HexOf, Decimal, Extranonce2Bytes, NonceStart, NonceEnd, Received;
    ReceivedIsMade(job, slaveId, total, worker, jobId, sha, w);
  }

  // ----- The way back of a share -----

  // Lower-case hexadecimal.
  predicate IsHexText(text: string) {
    forall i :: 0 <= i < |text| ==> HexValue(text[i]) >= 0 && text[i] == HexChar(HexValue(text[i]))
  }

  lemma DigitsAreHexText(digits: seq<int>)
    requires AreDigits(digits, 16)
    ensures IsHexText(HexDigits(digits))
  {
    hide HexChar;
    var text := HexDigits(digits);
    forall i | 0 <= i < |text| ensures HexValue(text[i]) >= 0 && text[i] == HexChar(HexValue(text[i])) {
      assert text[i] == HexChar(digits[i]);
    }
  }

  lemma TextIsHex(jobId: nat, length: nat)
    ensures |Extranonce2Text(jobId, length)| == 2 * length && IsHexText(Extranonce2Text(jobId, length))
  {
    hide *;
    Extranonce2IsNumeral(jobId, length);
    DigitsAreHexText(Numeral(Shown(jobId, length), 16, 2 * length));
  }

  // The text is what is printed of the bytes read from it.
  lemma Extranonce2TextOfBytes(jobId: nat, length: nat)
    requires length <= 8
    ensures HexOf(Extranonce2Bytes(jobId, length)[..length]) == Extranonce2Text(jobId, length)
  {
    TextIsHex(jobId, length);
    hide Extranonce2Text, HexChar;
    var text := Extranonce2Text(jobId, length);
    var bytes := Extranonce2Bytes(jobId, length)[..length];
    forall k | 0 <= k < 2 * length ensures HexOf(bytes)[k] == text[k] {
      var i := k / 2;
      var hi, lo := HexValue(text[2 * i]), HexValue(text[2 * i + 1]);
      assert bytes[i] == 16 * hi + lo;
      assert bytes[i] / 16 == hi && bytes[i] % 16 == lo;
    }
  }

  // Where the master finds what a share belongs to.
  datatype Submission = Submission(poolId: int, stratumJobId: string, extranonce2: string, ntime: int, nonce: int,
      version: int)

  function SubmissionOf(e: Entry, share: Share): Submission {
    Submission(e.poolId, e.stratumJobId, e.extranonce2, share.ntime, share.nonce, share.version)
  }

  method SubmitShare(jobMap: JobMap, share: Share) returns (s: Option<Submission>)
    requires jobMap.Valid()
    ensures s == None ==> forall k :: !IsLive(jobMap.log, share.jobId, k)
    ensures s != None ==>
      exists k :: IsFirstLive(jobMap.log, share.jobId, k) && s.value == SubmissionOf(jobMap.log[k], share)
  {
    var found := jobMap.Lookup(share.jobId);
    if found == None {
      return None;
    }
    var e := found.value;
    return Some(Submission(e.poolId, e.stratumJobId, e.extranonce2, share.ntime, share.nonce, share.version));
  }

  // Printing the bytes of work and reading them again for the share gives the same bytes.
  lemma PairsOfText(bytes: seq<Byte>)
    requires |bytes| <= 8
    ensures PairBytes(HexOf(bytes))[..|bytes|] == bytes
  {
    hide HexOf, Scan2x;
    forall i | 0 <= i < |bytes| ensures PairBytes(HexOf(bytes))[i] == bytes[i] {
      ScanOfHex(bytes, i);
    }
  }

  // What the pool must be told of a solution to a job.
  function RightSubmission(job: Job, jobId: nat, nonce: int, version: int): Submission {
    Submission(job.pool, job.notify.jobId, Extranonce2Text(jobId, job.length), job.notify.ntime, nonce, version)
  }

  // The slave hashes what the pool will: from the job and the submission, the pool puts together
  // the coinbase, and the tree of its block has the root that stands in the work.
  lemma RootIsOfBlock(job: Job, slaveId: int, total: nat, worker: int, jobId: nat, sha: Sha, w: Work, nonce: int,
      version: int, others: MerkleTree.Row, anything: seq<Byte>)
    requires Received(job, slaveId, total, worker, jobId, sha, w)
    requires job.notify.merkleBranches == MerkleTree.Branches(sha, [anything] + others)
    ensures var r := RightSubmission(job, jobId, nonce, version);
      var coinbase := CoinbaseBytes(job.notify.coinbase1 + job.extranonce + r.extranonce2 + job.notify.coinbase2);
      && w.merkleRoot == MerkleTree.TreeRoot(sha, [sha(coinbase)] + others) && w.ntime == r.ntime
      && w.prevBlockHash == job.notify.prevBlockHash && w.nbits == job.notify.target && w.version == job.notify.version
      && w.poolId == r.poolId == job.pool && r.stratumJobId == job.notify.jobId
  {
    hide MerkleTree.Branches, MerkleTree.TreeRoot, MerkleRoot, CoinbaseBytes, Extranonce2Text, NonceStart, NonceEnd,
      Extranonce2Bytes, Received;
    ReceivedIsMade(job, slaveId, total, worker, jobId, sha, w);
    MerkleTree.RootOfBlock(sha, CoinbaseBytes(CoinbaseText(job, jobId)), others, anything);
  }

  // s is what the master received of a share for work w that was forwarded in a message that fits.
  ghost predicate ShareReceived(slaveId: int, w: Work, nonce: int, version: int, difficulty: int, s: Share) {
    && IsByte(slaveId) && IsWord(nonce) && IsWord(version) && w.Valid()
    && var sent :=
      ForwardedShare(slaveId, Decimal(w.jobId), HexOf(w.Extranonce2()), w.ntime, nonce, version, w.poolId, difficulty);
       && sent.Valid() && |ShareMessage(sent)| < CLUSTER_MSG_MAX_LEN
       && exists blank: Share :: |blank.extranonce2| == 8 && ReceivedShare(ShareMessage(sent), blank) == Some(s)
  }

  lemma ShareReceivedIs(slaveId: int, w: Work, nonce: int, version: int, difficulty: int, s: Share)
    requires ShareReceived(slaveId, w, nonce, version, difficulty, s)
    ensures s.jobId == w.jobId && s.nonce == nonce && s.ntime == w.ntime && s.version == version
    ensures 0 <= s.extranonce2Len <= |s.extranonce2| && s.Extranonce2() == w.Extranonce2()
  {
    hide ReceivedShare, ShareMessage, HexOf, Decimal, PairBytes, StrToUl;
    var sent := ForwardedShare(slaveId, Decimal(w.jobId), HexOf(w.Extranonce2()), w.ntime, nonce, version, w.poolId,
      difficulty);
    var blank: Share :| |blank.extranonce2| == 8 && ReceivedShare(ShareMessage(sent), blank) == Some(s);
    ReadDecimal(w.jobId);
    ShareRoundTrip(sent, blank);
    PairsOfText(w.Extranonce2());
  }

  // A share for work that a slave received resolves at the master to the pool job, the pool and
  // the very extranonce2 text that was hashed into the coinbase of that work: as long as its
  // mapping is in the ring and no live mapping with the same id says otherwise.
  lemma ShareFindsItsWork(job: Job, slaveId: int, total: nat, worker: int, jobId: int, sha: Sha, w: Work,
      nonce: int, version: int, difficulty: int, s: Share, log: seq<Entry>, k: nat)
    requires IsWord(jobId) && |job.notify.jobId| <= 31
    requires Received(job, slaveId, total, worker, jobId, sha, w)
    requires ShareReceived(slaveId, w, nonce, version, difficulty, s)
    requires IsLive(log, jobId, k) && log[k] == EntryFor(job, jobId) && LiveEntriesAgree(log, jobId)
    ensures s.jobId == jobId
    ensures forall i :: IsLive(log, s.jobId, i) ==>
      SubmissionOf(log[i], s) == RightSubmission(job, jobId, nonce, version)
    ensures CoinbaseText(job, jobId) ==
      job.notify.coinbase1 + job.extranonce + Extranonce2Text(jobId, job.length) + job.notify.coinbase2
    ensures 0 <= s.extranonce2Len <= |s.extranonce2| && HexOf(s.Extranonce2()) == Extranonce2Text(jobId, job.length)
  {
    hide RootOf, HexOf, Extranonce2Text, NonceStart, NonceEnd, Received, ShareReceived;
    ReceivedIsMade(job, slaveId, total, worker, jobId, sha, w);
    ShareReceivedIs(slaveId, w, nonce, version, difficulty, s);
    Extranonce2TextOfBytes(jobId, job.length);
    TextIsHex(jobId, job.length);
    forall i | IsLive(log, s.jobId, i) ensures log[i] == EntryFor(job, jobId) {
      assert IsLive(log, jobId, i) && IsLive(log, jobId, k);
    }
  }
}
