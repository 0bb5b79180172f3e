/** The master hands out work, and finds back what a share belongs to. */
module ClusterMaster {
  import opened Numerals
  import opened ClusterText
  import opened ClusterProtocol
  import opened ClusterJobMap
  import opened ClusterRegistry
  import opened ClusterWork
  import opened MiningUtils

  function LeadingHex(s: string): string {
    if s == "" || HexValue(s[0]) < 0 then "" else [s[0]] + LeadingHex(s[1..])
  }

  function HexNumber(s: string): nat {
    if s == "" then 0 else HexNumber(s[..|s| - 1]) * 16 + HexDigit(s[|s| - 1])
  }

  function WithoutPrefix(s: string): string {
    if |s| >= 2 && s[0] == '0' && (s[1] == 'x' || s[1] == 'X') then s[2..] else s
  }

  // The pool's job id as strtoul reads it in base 16.
  function BaseId(text: string): (base: int)
    ensures IsWord(base)
  {
    var t := SkipBlanks(text);
    Wrapped(t, HexNumber(LeadingHex(WithoutPrefix(Unsigned(t)))))
  }

  lemma {:induction false} HexNumberIsValue(digits: seq<int>)
    requires AreDigits(digits, 16)
    ensures HexNumber(HexDigits(digits)) == Value(digits, 16)
  {
    hide HexChar;
    if digits != [] {
      var n := |digits| - 1;
      HexNumberIsValue(digits[..n]);
      assert HexDigits(digits)[..n] == HexDigits(digits[..n]);
    }
  }

  lemma {:induction false} AllLeadingHex(s: string)
    requires forall k :: 0 <= k < |s| ==> HexValue(s[k]) >= 0
    ensures LeadingHex(s) == s
  {
    if s != "" {
      AllLeadingHex(s[1..]);
    }
  }

  // The plain hexadecimal digits of a 32-bit number are read as that number.
  lemma BaseIdOfHex(digits: seq<int>)
    requires AreDigits(digits, 16) && Value(digits, 16) <= UINT32_MAX
    ensures BaseId(HexDigits(digits)) == Value(digits, 16)
  {
    var s := HexDigits(digits);
    forall k | 0 <= k < |s| ensures HexValue(s[k]) >= 0 && s[k] != 'x' && s[k] != 'X' {
      assert s[k] == HexChar(digits[k]);
    }
    PlainNumber(s);
    AllLeadingHex(s);
    HexNumberIsValue(digits);
    hide HexDigits, HexNumber, LeadingHex, SkipBlanks;
  }

  // ----- One distribution, on values -----

  lemma {:induction false} ActiveCountGrows(slots: seq<Slot>, k: nat, m: nat)
    requires k <= m <= |slots|
    ensures ActiveCount(slots, k) <= ActiveCount(slots, m)
    decreases m
  {
    if k < m {
      ActiveCountGrows(slots, k, m - 1);
    }
  }

  // The base of the worker's id: the pool's id, or the next of the fallback counter.
  function BaseFor(job: Job, fallback: int, worker: int): int {
    var base := BaseId(job.notify.jobId);
    if base == 0 then (fallback + worker - 1) % WORD else base
  }

  function JobIdFor(job: Job, fallback: int, worker: int): (id: int)
    ensures IsWord(id)
  {
    JobId(BaseFor(job, fallback, worker), worker, job.tick)
  }

  // The fallback counter after a distribution to count workers.
  function NextFallback(job: Job, fallback: int, count: nat): int {
    if BaseId(job.notify.jobId) == 0 then (fallback + count) % WORD else fallback
  }

  function Total(slots: seq<Slot>): nat { 1 + ActiveCount(slots, |slots|) }

  // The work of the active slot k.
  function SlotWork(slots: seq<Slot>, job: Job, sha: Sha, fallback: int, k: nat): Work
    requires k < |slots|
  {
    var worker := ActiveCount(slots, k) + 1;
    var jobId := JobIdFor(job, fallback, worker);
    WorkFor(job, slots[k].slaveId, Total(slots), worker, jobId, RootOf(job, jobId, sha))
  }

  function Works(slots: seq<Slot>, job: Job, sha: Sha, fallback: int, k: nat): (works: seq<Work>)
    requires k <= |slots|
    ensures |works| == ActiveCount(slots, k)
  {
    if k == 0 then []
    else
      Works(slots, job, sha, fallback, k - 1)
      + if slots[k - 1].active then [SlotWork(slots, job, sha, fallback, k - 1)] else []
  }

  function Entries(job: Job, works: seq<Work>): (entries: seq<Entry>)
    ensures |entries| == |works|
  {
    seq(|works|, i requires 0 <= i < |works| => EntryFor(job, if works[i].jobId >= 0 then works[i].jobId else 0))
  }

  // Only messages that fit go out.
  function Messages(works: seq<Work>): seq<string> {
    if works == [] then []
    else
      var w := works[|works| - 1];
      Messages(works[..|works| - 1])
      + if w.Valid() && |WorkMessage(w)| < CLUSTER_MSG_MAX_LEN then [WorkMessage(w)] else []
  }

  lemma SlotWorkIsValid(slots: seq<Slot>, job: Job, sha: Sha, fallback: int, k: nat)
    requires k < |slots| <= 254 && slots[k].active && IsByte(slots[k].slaveId) && job.Valid() && IsSha(sha)
    ensures SlotWork(slots, job, sha, fallback, k).Valid()
  {
    hide RootOf, Extranonce2Bytes, JobIdFor, NonceStart, NonceEnd, IsSha;
    var worker := ActiveCount(slots, k) + 1;
    ActiveCountGrows(slots, k + 1, |slots|);
    RangesCover(Total(slots), worker);
    RootIsHash(job, JobIdFor(job, fallback, worker), sha);
  }

  lemma RootIsHash(job: Job, jobId: nat, sha: Sha)
    requires IsSha(sha)
    ensures |RootOf(job, jobId, sha)| == HASH_SIZE
  {
    RootSize(sha, CoinbaseBytes(CoinbaseText(job, jobId)), job.notify.merkleBranches);
  }

  // Two slaves served in one distribution get disjoint nonce ranges and different ids, also when
  // the ids come from the fallback counter.
  lemma SlotsGetDifferentWork(slots: seq<Slot>, job: Job, sha: Sha, fallback: int, i: nat, j: nat)
    requires i < j < |slots| <= CLUSTER_MAX_SLAVES && slots[i].active && slots[j].active
    ensures SlotWork(slots, job, sha, fallback, i).nonceEnd < SlotWork(slots, job, sha, fallback, j).nonceStart
    ensures SlotWork(slots, job, sha, fallback, i).jobId != SlotWork(slots, job, sha, fallback, j).jobId
  {
    hide RootOf, NonceStart, NonceEnd, BaseId, Extranonce2Bytes, JobIdFor;
    ActiveCountGrows(slots, i + 1, j);
    ActiveCountGrows(slots, j + 1, |slots|);
    var a, b := ActiveCount(slots, i) + 1, ActiveCount(slots, j) + 1;
    RangesDisjoint(Total(slots), a, b);
    WorkersGetDifferentIds(job, fallback, a, b);
  }

  lemma WorkersGetDifferentIds(job: Job, fallback: int, a: int, b: int)
    requires 1 <= a < b <= CLUSTER_MAX_SLAVES
    ensures JobIdFor(job, fallback, a) != JobIdFor(job, fallback, b)
  {
    hide BaseId;
    var x, y := a + job.tick * CLUSTER_MAX_SLAVES, b + job.tick * CLUSTER_MAX_SLAVES;
    if JobIdFor(job, fallback, a) == JobIdFor(job, fallback, b) {
      if BaseId(job.notify.jobId) == 0 {
        SumRemainder(fallback + a - 1, x);
        SumRemainder(fallback + b - 1, y);
        SameRemainder(fallback + a - 1 + x, fallback + b - 1 + y);
      } else {
        SameRemainder(BaseId(job.notify.jobId) + x, BaseId(job.notify.jobId) + y);
      }
    }
  }

  lemma SumRemainder(x: int, y: int)
    ensures (x % WORD + y) % WORD == (x + y) % WORD
  {}

  // ----- The program -----

  class Master {
    const registry: Registry
    const jobMap: JobMap
    var jobIdFallback: int
    var broadcasts: seq<string>

    ghost predicate Valid()
      reads this, registry, registry.slots, jobMap, jobMap.entries
    {
      jobMap.Valid() && Inv(registry.Contents())
    }

    constructor ()
      ensures Valid() && jobMap.log == [] && broadcasts == [] && jobIdFallback == 0x8000_0000
    {
      registry := new Registry();
      jobMap := new JobMap();
      jobIdFallback, broadcasts := 0x8000_0000, [];
      new;
      AlwaysInv([]);
    }

    // The next worker's job id.
    method NextJobId(job: Job, worker: nat, ghost fallback: int) returns (jobId: int)
      requires jobIdFallback == (if BaseId(job.notify.jobId) == 0 then (fallback + worker - 1) % WORD else fallback)
      modifies `jobIdFallback
      ensures jobId == JobIdFor(job, fallback, worker)
      ensures jobIdFallback == if BaseId(job.notify.jobId) == 0 then (fallback + worker) % WORD else fallback
    {
      hide BaseId;
      var base := BaseId(job.notify.jobId);
      if base == 0 {
        base := jobIdFallback;
        jobIdFallback := (jobIdFallback + 1) % WORD;
      }
      jobId := (base + worker + job.tick * CLUSTER_MAX_SLAVES) % WORD;
    }

    // Builds, remembers and broadcasts the work of one slave.
    method SendWork(job: Job, sha: Sha, slaveId: int, total: nat, worker: nat, jobId: nat)
      requires jobMap.Valid() && job.Valid() && IsSha(sha) && total > 0
      requires WorkFor(job, slaveId, total, worker, jobId, RootOf(job, jobId, sha)).Valid()
      modifies `broadcasts, jobMap, jobMap.entries
      ensures jobMap.Valid() && jobMap.log == old(jobMap.log) + [EntryFor(job, jobId)]
      ensures broadcasts ==
        old(broadcasts) + Messages([WorkFor(job, slaveId, total, worker, jobId, RootOf(job, jobId, sha))])
    {
      hide Extranonce2Text, RootOf, HexOf, WorkMessage, JobMap.Valid, MakeEntry, Scan2x, Work.Valid;
      var en2Str := Extranonce2Text(jobId, job.length);
      var coinbaseTx := job.notify.coinbase1 + job.extranonce + en2Str + job.notify.coinbase2;
      var rootHex := new char[65];
      CalculateMerkleRootHash(coinbaseTx, job.notify.merkleBranches, sha, rootHex);
      RootOfIs(job, jobId, sha);
      ghost var root := RootOf(job, jobId, sha);
      var merkleRoot := new Byte[32](_ => 0);
      ReadRoot(rootHex[..64], merkleRoot, root);
      var en2 := new Byte[8](_ => 0);
      ReadExtranonce2(en2Str, job.length, en2, jobId);
      var work := Work(slaveId, jobId, job.notify.prevBlockHash, merkleRoot[..], job.notify.version, job.versionMask,
        job.notify.target, job.notify.ntime, UINT32_MAX / total * worker,
        if worker < total - 1 then UINT32_MAX / total * (worker + 1) - 1 else UINT32_MAX,
        en2[..], job.length, true, job.difficulty, job.pool);
      assert work == WorkFor(job, slaveId, total, worker, jobId, root);
      jobMap.Store(jobId, job.notify.jobId, en2Str, job.pool);
      Broadcast(work);
    }

    // One job for every active slave, in the order of the slots.
    method DistributeWork(job: Job, sha: Sha)
      requires Valid() && job.Valid() && IsSha(sha) && 0 <= jobIdFallback < WORD
      modifies this, jobMap, jobMap.entries
      ensures Valid() && registry.Contents() == old(registry.Contents())
      ensures jobIdFallback ==
        NextFallback(job, old(jobIdFallback), ActiveCount(registry.slots[..], CLUSTER_MAX_SLAVES))
      ensures var works := Works(registry.Contents().slots, job, sha, old(jobIdFallback), CLUSTER_MAX_SLAVES);
        jobMap.log == old(jobMap.log) + Entries(job, works) && broadcasts == old(broadcasts) + Messages(works)
    {
      hide Works, Entries, Messages, SlotWork, ActiveCount, JobIdFor, RootOf, JobMap.Valid, Job.Valid, Work.Valid,
        IsSha, EntryFor, WorkFor, BaseId, Total;
      ghost var fallback := jobIdFallback;
      ghost var slots := registry.slots[..];
      SlotCount(registry.Contents());
      var activeCount := registry.CountActive();
      NoWorks(slots, job, sha, fallback);
      if activeCount == 0 {
        NoActiveWorks(slots, job, sha, fallback, CLUSTER_MAX_SLAVES);
        return;
      }
      var worker := 1;
      for i := 0 to CLUSTER_MAX_SLAVES
        invariant Valid() && registry.slots[..] == slots && 0 <= jobIdFallback < WORD
        invariant worker == ActiveCount(slots, i) + 1
        invariant jobIdFallback == if BaseId(job.notify.jobId) == 0 then (fallback + worker - 1) % WORD else fallback
        invariant jobMap.log == old(jobMap.log) + Entries(job, Works(slots, job, sha, fallback, i))
        invariant broadcasts == old(broadcasts) + Messages(Works(slots, job, sha, fallback, i))
      {
        NextWorks(slots, job, sha, fallback, i);
        if registry.slots[i].active {
          SlotIdIs(registry.Contents(), i);
          SlotWorkIsValid(slots, job, sha, fallback, i);
          var jobId := NextJobId(job, worker, fallback);
          SlotWorkIs(slots, job, sha, fallback, i);
          SendWork(job, sha, registry.slots[i].slaveId, 1 + activeCount, worker, jobId);
          worker := worker + 1;
        }
      }
    }

    method Broadcast(work: Work)
      requires work.Valid()
      modifies `broadcasts
      ensures broadcasts == old(broadcasts) + Messages([work])
    {
      hide WorkMessage, Work.Valid;
      OneMessage(work);
      var msg := new char[CLUSTER_MSG_MAX_LEN];
      var len := EncodeWork(work, msg);
      if len > 0 {
        broadcasts := broadcasts + [msg[..len]];
      }
    }
  }

  lemma NoWorks(slots: seq<Slot>, job: Job, sha: Sha, fallback: int)
    ensures ActiveCount(slots, 0) == 0 && Works(slots, job, sha, fallback, 0) == []
    ensures Entries(job, []) == [] && Messages([]) == []
  {}

  lemma {:induction false} NoActiveWorks(slots: seq<Slot>, job: Job, sha: Sha, fallback: int, k: nat)
    requires k <= |slots| && ActiveCount(slots, |slots|) == 0
    ensures Works(slots, job, sha, fallback, k) == []
  {
    ActiveCountGrows(slots, k, |slots|);
    hide Works;
  }

  // What slot i adds.
  lemma NextWorks(slots: seq<Slot>, job: Job, sha: Sha, fallback: int, i: nat)
    requires i < |slots|
    ensures var before, after, w :=
      Works(slots, job, sha, fallback, i), Works(slots, job, sha, fallback, i + 1),
        SlotWork(slots, job, sha, fallback, i);
      && (!slots[i].active ==> after == before && ActiveCount(slots, i + 1) == ActiveCount(slots, i))
      && (slots[i].active ==>
        && ActiveCount(slots, i + 1) == ActiveCount(slots, i) + 1
        && Messages(after) == Messages(before) + Messages([w])
        && (w.jobId >= 0 ==> Entries(job, after) == Entries(job, before) + [EntryFor(job, w.jobId)]))
  {
    hide SlotWork, EntryFor, Work.Valid, WorkMessage;
    var before, w := Works(slots, job, sha, fallback, i), SlotWork(slots, job, sha, fallback, i);
    if slots[i].active {
      var after := Works(slots, job, sha, fallback, i + 1);
      assert after == before + [w];
      assert after[..|after| - 1] == before;
      assert [w][..0] == [] && Messages([]) == [];
    }
  }

  lemma SlotWorkIs(slots: seq<Slot>, job: Job, sha: Sha, fallback: int, i: nat)
    requires i < |slots|
    ensures var worker := ActiveCount(slots, i) + 1;
      var jobId := JobIdFor(job, fallback, worker);
      && SlotWork(slots, job, sha, fallback, i).jobId == jobId
      && Total(slots) == 1 + ActiveCount(slots, |slots|)
      && SlotWork(slots, job, sha, fallback, i) ==
        WorkFor(job, slots[i].slaveId, Total(slots), worker, jobId, RootOf(job, jobId, sha))
  {
    hide RootOf, JobIdFor, ActiveCount;
  }

  lemma SlotIdIs(s: State, i: nat)
    requires Inv(s) && i < |s.slots| && s.slots[i].active
    ensures IsByte(s.slots[i].slaveId) && s.slots[i].slaveId == i + 1
  {}

  lemma OneMessage(w: Work)
    requires w.Valid()
    ensures Messages([w]) == (if |WorkMessage(w)| < CLUSTER_MSG_MAX_LEN then [WorkMessage(w)] else [])
      && |WorkMessage(w)| > 0
  {
    hide Work.Valid, Sealed, WorkFields;
    assert [w][..0] == [] && Messages([]) == [];
    MessageIsSealed(w);
  }

  lemma MessageIsSealed(w: Work)
    requires w.Valid()
    ensures |WorkMessage(w)| >= 5
  {}

  // Work that can really be distributed, to a single slave, and is not sent because its message
  // does not fit.
  lemma LongWorkIsNotSent(job: Job, slaveId: int, jobId: nat, sha: Sha)
    requires job.Valid() && job.length == 8 && IsSha(sha) && IsByte(slaveId) && TEN_DIGITS <= jobId <= UINT32_MAX
    requires job.notify.version >= TEN_DIGITS && job.versionMask >= TEN_DIGITS && job.notify.target >= TEN_DIGITS
    requires job.notify.ntime >= TEN_DIGITS && job.difficulty >= TEN_DIGITS
    ensures Messages([WorkFor(job, slaveId, 2, 1, jobId, RootOf(job, jobId, sha))]) == []
  {
    hide RootOf, WorkMessage, Extranonce2Bytes, IsSha;
    RootIsHash(job, jobId, sha);
    var w := WorkFor(job, slaveId, 2, 1, jobId, RootOf(job, jobId, sha));
    assert Range(2) == 2147483647;
    LongWorkDoesNotFit(w);
    OneMessage(w);
  }

  lemma RootOfIs(job: Job, jobId: nat, sha: Sha)
    ensures RootOf(job, jobId, sha) == MerkleRoot(sha,
      CoinbaseBytes(job.notify.coinbase1 + job.extranonce + Extranonce2Text(jobId, job.length) + job.notify.coinbase2),
      job.notify.merkleBranches)
  {}

  method ReadRoot(rootHex: string, merkleRoot: array<Byte>, ghost root: seq<Byte>)
    requires |root| == HASH_SIZE == merkleRoot.Length && rootHex == HexOf(root)
    modifies merkleRoot
    ensures merkleRoot[..] == root
  {
    hide Scan2x, HexOf;
    HexOfIsRead(root);
    for j := 0 to 32
      invariant merkleRoot[..j] == root[..j]
    {
      var val := Scan2x(rootHex, 2 * j);
      merkleRoot[j] := val;
    }
    assert root[..32] == root;
  }

  method ReadExtranonce2(text: string, length: nat, en2: array<Byte>, ghost jobId: nat)
    requires text == Extranonce2Text(jobId, length) && en2.Length == 8 && forall k :: 0 <= k < 8 ==> en2[k] == 0
    modifies en2
    ensures en2[..] == Extranonce2Bytes(jobId, length)
  {
    hide Scan2x, Extranonce2Text;
    var j := 0;
    while j < length && j < 8
      invariant 0 <= j <= 8 && j <= length
      invariant forall k :: 0 <= k < 8 ==> en2[k] == if k < j then Extranonce2Bytes(jobId, length)[k] else 0
    {
      var val := Scan2x(text, 2 * j);
      if val >= 0 {
        en2[j] := val;
      }
      j := j + 1;
    }
  }
}
