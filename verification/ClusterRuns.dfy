/**
 Whole runs of the master: which mappings its ring holds after any number of distributions, when
 two of them contradict each other, and what becomes of a share for work of one of them.
 */
module ClusterRuns {
  import opened Options
  import opened Numerals
  import opened MiningUtils
  import opened ClusterProtocol
  import opened ClusterRegistry
  import opened ClusterJobMap
  import opened ClusterWork
  import opened ClusterMaster
  import opened ClusterSlave

  // One distribution: the slots as the registry holds them then, and the job.
  datatype Distribution = Distribution(slots: seq<Slot>, job: Job) {
    predicate Valid() { |slots| == CLUSTER_MAX_SLAVES && job.Valid() }

    function Count(): nat { ActiveCount(slots, |slots|) }
  }

  // Where a mapping comes from.
  datatype Origin = Origin(job: Job, base: int, worker: nat) {
    function Id(): (id: int)
      ensures IsWord(id)
    {
      JobId(base, worker, job.tick)
    }

    // The id before it is cut to 32 bits.
    function Sum(): int { base + worker + CLUSTER_MAX_SLAVES * job.tick }

    function Mapping(): Entry { EntryFor(job, Id()) }
  }

  function OriginsOf(job: Job, fallback: int, count: nat): (origins: seq<Origin>)
    ensures |origins| == count
  {
    seq(count, i requires 0 <= i < count => Origin(job, BaseFor(job, fallback, i + 1), i + 1))
  }

  function RunFallback(ds: seq<Distribution>): int {
    if ds == [] then 0x8000_0000
    else NextFallback(ds[|ds| - 1].job, RunFallback(ds[..|ds| - 1]), ds[|ds| - 1].Count())
  }

  // The mappings of a run, the oldest first.
  function RunOrigins(ds: seq<Distribution>): seq<Origin> {
    if ds == [] then []
    else
      var init, last := ds[..|ds| - 1], ds[|ds| - 1];
      RunOrigins(init) + OriginsOf(last.job, RunFallback(init), last.Count())
  }

  function LogOf(origins: seq<Origin>): (log: seq<Entry>)
    ensures |log| == |origins|
  {
    seq(|origins|, i requires 0 <= i < |origins| => origins[i].Mapping())
  }

  // ----- The program's log is the log of the run -----

  lemma {:induction false} WorkHasOrigin(slots: seq<Slot>, job: Job, sha: Sha, fallback: int, k: nat, i: nat)
    requires k <= |slots| && i < ActiveCount(slots, k)
    ensures Works(slots, job, sha, fallback, k)[i].jobId == JobIdFor(job, fallback, i + 1)
  {
    hide Works, SlotWork, JobIdFor;
    WorksSnoc(slots, job, sha, fallback, k);
    if i < ActiveCount(slots, k - 1) {
      WorkHasOrigin(slots, job, sha, fallback, k - 1, i);
    } else {
      SlotWorkIs(slots, job, sha, fallback, k - 1);
    }
  }

  lemma WorksSnoc(slots: seq<Slot>, job: Job, sha: Sha, fallback: int, k: nat)
    requires k <= |slots|
    ensures k == 0 ==> Works(slots, job, sha, fallback, k) == []
    ensures k > 0 && slots[k - 1].active ==>
      Works(slots, job, sha, fallback, k) ==
        Works(slots, job, sha, fallback, k - 1) + [SlotWork(slots, job, sha, fallback, k - 1)]
    ensures k > 0 && !slots[k - 1].active ==>
      Works(slots, job, sha, fallback, k) == Works(slots, job, sha, fallback, k - 1)
  {
    hide SlotWork;
  }

  lemma EntriesAreMappings(slots: seq<Slot>, job: Job, sha: Sha, fallback: int)
    ensures Entries(job, Works(slots, job, sha, fallback, |slots|)) ==
      LogOf(OriginsOf(job, fallback, ActiveCount(slots, |slots|)))
  {
    hide JobIdFor, Entries, LogOf, OriginsOf, Works, EntryFor, ActiveCount;
    var works, count := Works(slots, job, sha, fallback, |slots|), ActiveCount(slots, |slots|);
    forall i | 0 <= i < count ensures Entries(job, works)[i] == LogOf(OriginsOf(job, fallback, count))[i] {
      WorkHasOrigin(slots, job, sha, fallback, |slots|, i);
      EntryAt(job, works, i);
      MappingOf(job, fallback, count, i);
    }
  }

  lemma EntryAt(job: Job, works: seq<Work>, i: nat)
    requires i < |works| && works[i].jobId >= 0
    ensures Entries(job, works)[i] == EntryFor(job, works[i].jobId)
  {
    hide EntryFor;
  }

  lemma MappingOf(job: Job, fallback: int, count: nat, i: nat)
    requires i < count
    ensures LogOf(OriginsOf(job, fallback, count))[i] == EntryFor(job, JobIdFor(job, fallback, i + 1))
  {
    hide EntryFor, BaseFor, JobId;
  }

  lemma LogOfConcat(a: seq<Origin>, b: seq<Origin>)
    ensures LogOf(a + b) == LogOf(a) + LogOf(b)
  {
    hide Origin.Mapping;
  }

  // The master has done exactly these distributions.
  ghost predicate Reached(m: Master, ds: seq<Distribution>)
    reads m, m.registry, m.registry.slots, m.jobMap, m.jobMap.entries
  {
    m.Valid() && m.jobMap.log == LogOf(RunOrigins(ds)) && m.jobIdFallback == RunFallback(ds)
      && 0 <= m.jobIdFallback < WORD
  }

  method Start() returns (m: Master)
    ensures Reached(m, []) && fresh(m)
  {
    m := new Master();
  }

  method Distribute(m: Master, job: Job, sha: Sha, ghost ds: seq<Distribution>)
    requires Reached(m, ds) && job.Valid() && IsSha(sha)
    modifies m, m.jobMap, m.jobMap.entries
    ensures Reached(m, ds + [Distribution(m.registry.slots[..], job)])
  {
    hide Works, Entries, Messages, LogOf, OriginsOf, IsSha, Job.Valid, ActiveCount, NextFallback, JobMap.Valid, Inv,
      BaseId;
    ghost var slots, fallback := m.registry.slots[..], m.jobIdFallback;
    SlotCount(m.registry.Contents());
    m.DistributeWork(job, sha);
    ghost var next := ds + [Distribution(slots, job)];
    assert next[..|ds|] == ds;
    FallbackIsWord(job, fallback, ActiveCount(slots, |slots|));
    EntriesAreMappings(slots, job, sha, fallback);
    LogOfConcat(RunOrigins(ds), OriginsOf(job, fallback, ActiveCount(slots, |slots|)));
  }

  lemma FallbackIsWord(job: Job, fallback: int, count: nat)
    requires 0 <= fallback < WORD
    ensures 0 <= NextFallback(job, fallback, count) < WORD
  {
    hide BaseId;
  }

  // ----- When mappings contradict each other -----

  // The ids of two mappings are the same.
  predicate Collide(a: Origin, b: Origin) {
    (a.Sum() - b.Sum()) % WORD == 0
  }

  // Both lead to the same job of the same pool, with an extranonce2 of the same length.
  predicate SamePoolJob(a: Job, b: Job) {
    Cut(a.notify.jobId, 32) == Cut(b.notify.jobId, 32) && a.pool == b.pool && a.length == b.length
  }

  lemma SameIdExactlyWhen(a: Origin, b: Origin)
    ensures a.Id() == b.Id() <==> Collide(a, b)
  {
    Congruent(a.Sum(), b.Sum());
  }

  lemma Congruent(x: int, y: int)
    ensures x % WORD == y % WORD <==> (x - y) % WORD == 0
  {}

  // Two mappings for one id agree exactly if they lead to the same pool job.
  lemma SameMappingExactlyWhen(a: Origin, b: Origin)
    requires a.Id() == b.Id() && a.job.length <= 8 && b.job.length <= 8
    ensures a.Mapping() == b.Mapping() <==> SamePoolJob(a.job, b.job)
  {
    TextLength(a.Id(), a.job.length);
    TextLength(b.Id(), b.job.length);
    hide Extranonce2Text, Origin.Id;
  }

  lemma TextLength(id: nat, length: nat)
    ensures |Extranonce2Text(id, length)| == 2 * length
  {
    Extranonce2IsNumeral(id, length);
    hide Numeral, Shown;
  }

  // Mapping i of the run is still in the ring.
  predicate InRing(origins: seq<Origin>, i: int) { Oldest(|origins|) <= i < |origins| }

  ghost predicate NoContradiction(origins: seq<Origin>, id: int) {
    forall i, j :: InRing(origins, i) && InRing(origins, j) && origins[i].Id() == id && Collide(origins[i], origins[j])
      ==> SamePoolJob(origins[i].job, origins[j].job)
  }

  predicate ShortTexts(origins: seq<Origin>) { forall i :: 0 <= i < |origins| ==> origins[i].job.length <= 8 }

  // The live mappings for an id agree exactly if no two of different pool jobs collide on it.
  lemma LogAgreesExactlyWhen(origins: seq<Origin>, id: int)
    requires ShortTexts(origins)
    ensures LiveEntriesAgree(LogOf(origins), id) <==> NoContradiction(origins, id)
  {
    hide Origin.Id, Origin.Mapping, Collide, SamePoolJob;
    var log := LogOf(origins);
    forall i | InRing(origins, i) ensures IsLive(log, id, i) <==> origins[i].Id() == id {
      MappingHasId(origins[i]);
    }
    forall i, j | InRing(origins, i) && InRing(origins, j) && origins[i].Id() == id
      ensures origins[j].Id() == id <==> Collide(origins[i], origins[j])
      ensures origins[j].Id() == id ==> (log[i] == log[j] <==> SamePoolJob(origins[i].job, origins[j].job))
    {
      SameIdExactlyWhen(origins[i], origins[j]);
      if origins[j].Id() == id {
        SameMappingExactlyWhen(origins[i], origins[j]);
      }
    }
  }

  lemma MappingHasId(o: Origin)
    ensures o.Mapping().clusterJobId == o.Id()
  {
    hide Origin.Id, Extranonce2Text;
  }

  // ----- Distributions of one pool job -----

  // Distribution d of the run made mapping p, for this worker.
  ghost predicate MadeBy(ds: seq<Distribution>, p: int, d: int, worker: int) {
    && 0 <= d < |ds| && 1 <= worker <= ds[d].Count() && 0 <= p < |RunOrigins(ds)|
    && p == |RunOrigins(ds[..d])| + worker - 1
    && RunOrigins(ds)[p] == Origin(ds[d].job, BaseFor(ds[d].job, RunFallback(ds[..d]), worker), worker)
  }

  // The last distribution adds its mappings behind those of the others.
  lemma LastOrigins(ds: seq<Distribution>)
    requires ds != []
    ensures var n := |ds| - 1;
      RunOrigins(ds) == RunOrigins(ds[..n]) + OriginsOf(ds[n].job, RunFallback(ds[..n]), ds[n].Count())
  {
    hide OriginsOf;
  }

  lemma {:induction false} EveryMappingWasMade(ds: seq<Distribution>, p: int)
    requires 0 <= p < |RunOrigins(ds)|
    ensures exists d, worker :: MadeBy(ds, p, d, worker)
  {
    hide BaseFor, RunOrigins, RunFallback, Distribution.Count;
    var n := |ds| - 1;
    NoOrigins();
    LastOrigins(ds);
    var init := ds[..n];
    if p < |RunOrigins(init)| {
      EveryMappingWasMade(init, p);
      var d, worker :| MadeBy(init, p, d, worker);
      assert init[..d] == ds[..d];
      assert MadeBy(ds, p, d, worker);
    } else {
      assert MadeBy(ds, p, n, p - |RunOrigins(init)| + 1);
    }
  }

  lemma {:induction false} DistributionMakes(ds: seq<Distribution>, d: nat, worker: int)
    requires d < |ds| && 1 <= worker <= ds[d].Count()
    ensures MadeBy(ds, |RunOrigins(ds[..d])| + worker - 1, d, worker)
  {
    hide BaseFor, RunOrigins, RunFallback, Distribution.Count;
    var n := |ds| - 1;
    LastOrigins(ds);
    if d < n {
      DistributionMakes(ds[..n], d, worker);
      assert ds[..n][..d] == ds[..d];
    }
  }

  lemma NoOrigins()
    ensures RunOrigins([]) == []
  {}

  // All distributions are of pool jobs with one and the same non-zero number; a tick is repeated
  // only for the same pool job.
  predicate OneBase(ds: seq<Distribution>, base: int) {
    && base != 0
    && (forall d :: 0 <= d < |ds| ==>
      ds[d].Valid() && BaseId(ds[d].job.notify.jobId) == base && ds[d].job.tick < 0x2000_0000)
    && forall d, e :: 0 <= d < e < |ds| && ds[d].job.tick == ds[e].job.tick ==> SamePoolJob(ds[d].job, ds[e].job)
  }

  predicate TicksDiffer(ds: seq<Distribution>) {
    forall d, e :: 0 <= d < e < |ds| ==> ds[d].job.tick != ds[e].job.tick
  }

  // Then an id given out twice leads to one pool job; if no tick is repeated, none is given out twice.
  lemma OneJobPerId(ds: seq<Distribution>, base: int, p: int, q: int)
    requires OneBase(ds, base) && 0 <= p < |RunOrigins(ds)| && 0 <= q < |RunOrigins(ds)|
    requires RunOrigins(ds)[p].Id() == RunOrigins(ds)[q].Id()
    ensures SamePoolJob(RunOrigins(ds)[p].job, RunOrigins(ds)[q].job)
    ensures TicksDiffer(ds) ==> p == q
  {
    hide RunOrigins, BaseId, JobId, SamePoolJob;
    EveryMappingWasMade(ds, p);
    EveryMappingWasMade(ds, q);
    var d, v :| MadeBy(ds, p, d, v);
    var e, w :| MadeBy(ds, q, e, w);
    assert ds[d].Count() <= CLUSTER_MAX_SLAVES && ds[e].Count() <= CLUSTER_MAX_SLAVES;
    JobIdsDiffer(base, v, ds[d].job.tick, w, ds[e].job.tick);
    SamePoolJobIsReflexive(ds[d].job);
    SamePoolJobIsSymmetric(ds[d].job, ds[e].job);
  }

  lemma SamePoolJobIsReflexive(a: Job)
    ensures SamePoolJob(a, a)
  {}

  lemma SamePoolJobIsSymmetric(a: Job, b: Job)
    ensures SamePoolJob(a, b) == SamePoolJob(b, a)
  {}

  // ----- A share comes back -----

  // The work of distribution d for its slot k, as the slave in that slot received it.
  ghost predicate ReceivedOf(ds: seq<Distribution>, d: int, k: int, sha: Sha, w: Work) {
    && 0 <= d < |ds| && ds[d].Valid() && 0 <= k < |ds[d].slots| && ds[d].slots[k].active
    && var worker := ActiveCount(ds[d].slots, k) + 1;
       Received(ds[d].job, ds[d].slots[k].slaveId, Total(ds[d].slots), worker,
         IdOf(ds, d, k), sha, w)
  }

  // The place in the log of the mapping for that work.
  function PlaceOf(ds: seq<Distribution>, d: nat, k: nat): nat
    requires d < |ds| && k < |ds[d].slots|
  {
    |RunOrigins(ds[..d])| + ActiveCount(ds[d].slots, k)
  }

  lemma PlaceIsMade(ds: seq<Distribution>, d: nat, k: nat)
    requires d < |ds| && k < |ds[d].slots| && ds[d].slots[k].active
    ensures MadeBy(ds, PlaceOf(ds, d, k), d, ActiveCount(ds[d].slots, k) + 1)
  {
    hide RunOrigins, BaseFor;
    ActiveCountGrows(ds[d].slots, k + 1, |ds[d].slots|);
    DistributionMakes(ds, d, ActiveCount(ds[d].slots, k) + 1);
  }

  // Fewer than 256 mappings were stored since, and none still in the ring of another pool job
  // collides with it.
  ghost predicate Answerable(ds: seq<Distribution>, d: nat, k: nat)
    requires d < |ds| && k < |ds[d].slots| && ds[d].slots[k].active
  {
    var origins, p := RunOrigins(ds), PlaceOf(ds, d, k);
    && p < |origins| && |origins| - 1 - p < CLUSTER_JOB_MAP_SIZE
    && forall q :: InRing(origins, q) && Collide(origins[q], origins[p]) ==> SamePoolJob(origins[q].job, ds[d].job)
  }

  // As long as there was only one pool job, fewer than 256 mappings since are enough.
  lemma OneBaseIsAnswerable(ds: seq<Distribution>, base: int, d: nat, k: nat)
    requires OneBase(ds, base) && d < |ds| && k < |ds[d].slots| && ds[d].slots[k].active
    ensures Answerable(ds, d, k) <==> |RunOrigins(ds)| - 1 - PlaceOf(ds, d, k) < CLUSTER_JOB_MAP_SIZE
  {
    hide RunOrigins, OneBase, Collide, PlaceOf;
    PlaceIsMade(ds, d, k);
    var origins, p := RunOrigins(ds), PlaceOf(ds, d, k);
    forall q | InRing(origins, q) && Collide(origins[q], origins[p]) ensures SamePoolJob(origins[q].job, ds[d].job) {
      SameIdExactlyWhen(origins[q], origins[p]);
      OneJobPerId(ds, base, q, p);
    }
  }

  // A share found by the slave in slot k for the work of distribution d reaches the master.
  ghost predicate ShareComesBack(ds: seq<Distribution>, d: nat, k: nat, sha: Sha, w: Work, nonce: int, version: int,
      difficulty: int, s: Share)
  {
    && ReceivedOf(ds, d, k, sha, w) && |ds[d].job.notify.jobId| <= 31
    && ShortTexts(RunOrigins(ds))
    && ShareReceived(ds[d].slots[k].slaveId, w, nonce, version, difficulty, s)
  }

  // The id under which the work of distribution d for slot k went out.
  function IdOf(ds: seq<Distribution>, d: nat, k: nat): (id: int)
    requires d < |ds| && k < |ds[d].slots|
    ensures IsWord(id)
  {
    JobIdFor(ds[d].job, RunFallback(ds[..d]), ActiveCount(ds[d].slots, k) + 1)
  }

  // After such a run every live mapping for the id of the share names the pool job, the pool and
  // the extranonce2 that was hashed into the coinbase of the work.
  lemma ShareOfRun(ds: seq<Distribution>, d: nat, k: nat, sha: Sha, w: Work, nonce: int, version: int, difficulty: int,
      s: Share)
    requires ShareComesBack(ds, d, k, sha, w, nonce, version, difficulty, s) && Answerable(ds, d, k)
    ensures d < |ds| && k < |ds[d].slots| && s.jobId == IdOf(ds, d, k)
    ensures IsLive(LogOf(RunOrigins(ds)), s.jobId, PlaceOf(ds, d, k))
    ensures forall i :: IsLive(LogOf(RunOrigins(ds)), s.jobId, i) ==>
      SubmissionOf(LogOf(RunOrigins(ds))[i], s) == RightSubmission(ds[d].job, s.jobId, nonce, version)
  {
    hide RunOrigins, BaseFor, Received, ShareReceived, Collide, SamePoolJob, JobId, EntryFor, RightSubmission, LogOf,
      ActiveCount, Total, RunFallback, IdOf, PlaceOf, SubmissionOf, LiveEntriesAgree, ShortTexts, Distribution.Valid;
    var origins, p, id := RunOrigins(ds), PlaceOf(ds, d, k), IdOf(ds, d, k);
    var log := LogOf(origins);
    MappingAtPlace(ds, d, k);
    AgreesWith(origins, p, id);
    var worker := ActiveCount(ds[d].slots, k) + 1;
    ShareFindsItsWork(ds[d].job, ds[d].slots[k].slaveId, Total(ds[d].slots), worker, id, sha, w, nonce, version,
      difficulty, s, log, p);
  }

  lemma MappingAtPlace(ds: seq<Distribution>, d: nat, k: nat)
    requires d < |ds| && k < |ds[d].slots| && ds[d].slots[k].active
    ensures var origins, p, id := RunOrigins(ds), PlaceOf(ds, d, k), IdOf(ds, d, k);
      && p < |origins| && origins[p].job == ds[d].job && origins[p].Id() == id
      && LogOf(origins)[p] == EntryFor(ds[d].job, id) && LogOf(origins)[p].clusterJobId == id
  {
    hide RunOrigins, BaseFor, EntryFor, JobId, ActiveCount, RunFallback;
    PlaceIsMade(ds, d, k);
    MappingHasId(RunOrigins(ds)[PlaceOf(ds, d, k)]);
  }

  // It is enough that nothing in the ring contradicts mapping p.
  lemma AgreesWith(origins: seq<Origin>, p: int, id: int)
    requires ShortTexts(origins) && InRing(origins, p) && origins[p].Id() == id
    requires forall q :: InRing(origins, q) && Collide(origins[q], origins[p]) ==>
      SamePoolJob(origins[q].job, origins[p].job)
    ensures LiveEntriesAgree(LogOf(origins), id)
  {
    hide Origin.Id, Origin.Mapping, Collide, SamePoolJob;
    var log := LogOf(origins);
    forall q | IsLive(log, id, q) ensures log[q] == log[p] {
      MappingHasId(origins[q]);
      SameIdExactlyWhen(origins[q], origins[p]);
      SameMappingExactlyWhen(origins[q], origins[p]);
    }
  }

  // ----- What the program submits -----

  // Of the mappings in the ring that collide with mapping p, the one that stands first in it.
  ghost predicate FirstColliding(origins: seq<Origin>, p: int, m: int)
    requires 0 <= p < |origins|
  {
    && InRing(origins, m) && Collide(origins[m], origins[p])
    && forall q :: InRing(origins, q) && Collide(origins[q], origins[p]) ==>
      m % CLUSTER_JOB_MAP_SIZE <= q % CLUSTER_JOB_MAP_SIZE
  }

  lemma LiveIsColliding(origins: seq<Origin>, p: int, q: int)
    requires 0 <= p < |origins|
    ensures IsLive(LogOf(origins), origins[p].Id(), q) <==> InRing(origins, q) && Collide(origins[q], origins[p])
  {
    if InRing(origins, q) {
      MappingHasId(origins[q]);
      SameIdExactlyWhen(origins[q], origins[p]);
    }
    hide Origin.Id, Origin.Mapping, Collide;
  }

  lemma FirstLiveIsColliding(origins: seq<Origin>, p: int, m: int)
    requires 0 <= p < |origins|
    ensures IsFirstLive(LogOf(origins), origins[p].Id(), m) <==> FirstColliding(origins, p, m)
  {
    hide Origin.Id, LogOf, Collide;
    forall q
      ensures IsLive(LogOf(origins), origins[p].Id(), q) <==> InRing(origins, q) && Collide(origins[q], origins[p])
    {
      LiveIsColliding(origins, p, q);
    }
  }

  // What a live mapping makes of the share is right exactly if it leads to the same pool job.
  lemma RightExactlyWhen(ds: seq<Distribution>, d: nat, k: nat, sha: Sha, w: Work, nonce: int, version: int,
      difficulty: int, s: Share, m: int)
    requires ShareComesBack(ds, d, k, sha, w, nonce, version, difficulty, s)
    requires IsLive(LogOf(RunOrigins(ds)), IdOf(ds, d, k), m)
    ensures s.jobId == IdOf(ds, d, k)
    ensures SubmissionOf(LogOf(RunOrigins(ds))[m], s) == RightSubmission(ds[d].job, s.jobId, nonce, version) <==>
      SamePoolJob(RunOrigins(ds)[m].job, ds[d].job)
  {
    hide RunOrigins, Received, ShareReceived, IdOf, SubmissionOf, RightSubmission, SamePoolJob, RunFallback, Total,
      ActiveCount;
    var job, id := ds[d].job, IdOf(ds, d, k);
    ReceivedIsMade(job, ds[d].slots[k].slaveId, Total(ds[d].slots), ActiveCount(ds[d].slots, k) + 1, id, sha, w);
    ShareReceivedIs(ds[d].slots[k].slaveId, w, nonce, version, difficulty, s);
    MappingHasId(RunOrigins(ds)[m]);
    SubmittedMapping(RunOrigins(ds)[m], job, id, nonce, version, s);
  }

  lemma SubmittedMapping(o: Origin, job: Job, id: nat, nonce: int, version: int, s: Share)
    requires o.Id() == id && o.job.length <= 8 && |job.notify.jobId| <= 31
    requires s.nonce == nonce && s.ntime == job.notify.ntime && s.version == version
    ensures SubmissionOf(o.Mapping(), s) == RightSubmission(job, id, nonce, version) <==> SamePoolJob(o.job, job)
  {
    TextLength(id, o.job.length);
    TextLength(id, job.length);
    hide Extranonce2Text, Origin.Id;
  }

  // The program tells the pool the right thing exactly if the first mapping in the ring whose
  // base + worker + 8 * tick is the same modulo 2^32 is one of the same pool job; and nothing
  // exactly if there is none.
  method SubmitOfRun(m: Master, share: Share, ghost ds: seq<Distribution>, ghost d: nat, ghost k: nat, ghost sha: Sha,
      ghost w: Work, ghost nonce: int, ghost version: int, ghost difficulty: int)
    returns (s: Option<Submission>)
    requires Reached(m, ds) && ShareComesBack(ds, d, k, sha, w, nonce, version, difficulty, share)
    ensures d < |ds| && k < |ds[d].slots| && PlaceOf(ds, d, k) < |RunOrigins(ds)| && IsWord(share.jobId)
    ensures var origins, p := RunOrigins(ds), PlaceOf(ds, d, k);
      s == Some(RightSubmission(ds[d].job, share.jobId, nonce, version)) <==>
        exists i :: FirstColliding(origins, p, i) && SamePoolJob(origins[i].job, ds[d].job)
    ensures s == None <==> forall i :: !FirstColliding(RunOrigins(ds), PlaceOf(ds, d, k), i)
  {
    hide *;
    ComesBackAs(ds, d, k, sha, w, nonce, version, difficulty, share);
    ghost var origins, p := RunOrigins(ds), PlaceOf(ds, d, k);
    LogOfReached(m, ds);
    forall i ensures IsFirstLive(LogOf(origins), share.jobId, i) <==> FirstColliding(origins, p, i) {
      FirstLiveIsColliding(origins, p, i);
    }
    s := SubmitShare(m.jobMap, share);
    if s == None {
      NothingLive(LogOf(origins), share.jobId);
    } else {
      ghost var i := FirstIsLive(LogOf(origins), share, s.value);
      RightExactlyWhen(ds, d, k, sha, w, nonce, version, difficulty, share, i);
      forall j | FirstColliding(origins, p, j) ensures j == i {
        FirstLiveIsOne(LogOf(origins), share.jobId, i, j);
      }
    }
  }

  lemma ComesBackAs(ds: seq<Distribution>, d: nat, k: nat, sha: Sha, w: Work, nonce: int, version: int,
      difficulty: int, s: Share)
    requires ShareComesBack(ds, d, k, sha, w, nonce, version, difficulty, s)
    ensures d < |ds| && k < |ds[d].slots| && PlaceOf(ds, d, k) < |RunOrigins(ds)|
    ensures s.jobId == IdOf(ds, d, k) == RunOrigins(ds)[PlaceOf(ds, d, k)].Id() && IsWord(s.jobId)
  {
    hide RunOrigins, Received, ShareReceived, IdOf, RunFallback, Total, ActiveCount, PlaceOf, Origin.Id;
    MappingAtPlace(ds, d, k);
    var worker := ActiveCount(ds[d].slots, k) + 1;
    ReceivedIsMade(ds[d].job, ds[d].slots[k].slaveId, Total(ds[d].slots), worker, IdOf(ds, d, k), sha, w);
    ShareReceivedIs(ds[d].slots[k].slaveId, w, nonce, version, difficulty, s);
  }

  lemma LogOfReached(m: Master, ds: seq<Distribution>)
    requires Reached(m, ds)
    ensures m.jobMap.Valid() && m.jobMap.log == LogOf(RunOrigins(ds))
  {
    hide LogOf, RunOrigins, JobMap.Valid;
  }

  lemma NothingLive(log: seq<Entry>, id: int)
    requires forall i :: !IsLive(log, id, i)
    ensures forall i :: !IsFirstLive(log, id, i)
  {}

  lemma FirstIsLive(log: seq<Entry>, share: Share, value: Submission) returns (i: int)
    requires exists k :: IsFirstLive(log, share.jobId, k) && value == SubmissionOf(log[k], share)
    ensures IsFirstLive(log, share.jobId, i) && IsLive(log, share.jobId, i) && 0 <= i < |log|
    ensures value == SubmissionOf(log[i], share)
  {
    i :| IsFirstLive(log, share.jobId, i) && value == SubmissionOf(log[i], share);
  }

  // An answerable share is told right.
  lemma AnswerableIsRight(ds: seq<Distribution>, d: nat, k: nat) returns (m: int)
    requires d < |ds| && k < |ds[d].slots| && ds[d].slots[k].active && Answerable(ds, d, k)
    ensures FirstColliding(RunOrigins(ds), PlaceOf(ds, d, k), m) && SamePoolJob(RunOrigins(ds)[m].job, ds[d].job)
  {
    hide RunOrigins, LogOf, Collide, SamePoolJob, PlaceOf, Origin.Id;
    var origins, p := RunOrigins(ds), PlaceOf(ds, d, k);
    CollidesWithItself(origins[p]);
    LiveIsColliding(origins, p, p);
    m := FirstLiveExists(LogOf(origins), origins[p].Id(), p);
    FirstLiveIsColliding(origins, p, m);
  }

  lemma CollidesWithItself(o: Origin)
    ensures Collide(o, o)
  {}

  // ----- Ordinary input on which it goes wrong -----

  // Two pool jobs with consecutive numbers, each given to the same two slaves in the same tick:
  // the second slave's work of the first job and the first slave's work of the second have one id.
  predicate Consecutive(slots: seq<Slot>, a: Job, b: Job) {
    && |slots| == CLUSTER_MAX_SLAVES && ActiveCount(slots, CLUSTER_MAX_SLAVES) == 2
    && 0 < BaseId(a.notify.jobId) && BaseId(b.notify.jobId) == BaseId(a.notify.jobId) + 1
  }

  lemma OriginsOfTwo(slots: seq<Slot>, a: Job, b: Job)
    requires Consecutive(slots, a, b)
    ensures var n := BaseId(a.notify.jobId);
      RunOrigins([Distribution(slots, a), Distribution(slots, b)])
        == [Origin(a, n, 1), Origin(a, n, 2), Origin(b, n + 1, 1), Origin(b, n + 1, 2)]
    ensures |RunOrigins([Distribution(slots, a), Distribution(slots, b)][..1])| == 2
  {
    hide BaseId, ActiveCount;
    var first, second := Distribution(slots, a), Distribution(slots, b);
    NoOrigins();
    assert [first, second][..1] == [first] && [first][..0] == [];
    LastOrigins([first]);
    LastOrigins([first, second]);
    hide RunOrigins, RunFallback;
  }

  // So a share of the first slave, in slot k, for the second job is submitted as one of the first.
  lemma ConsecutiveJobsAreConfused(slots: seq<Slot>, a: Job, b: Job, k: nat)
    requires Consecutive(slots, a, b) && a.tick == b.tick && !SamePoolJob(a, b)
    requires k < |slots| && slots[k].active && ActiveCount(slots, k) == 0
    ensures var ds := [Distribution(slots, a), Distribution(slots, b)];
      var origins := RunOrigins(ds);
      && PlaceOf(ds, 1, k) == 2 < |origins| && origins[2].job == b && origins[1].job == a
      && forall i :: FirstColliding(origins, 2, i) ==> i == 1 && !SamePoolJob(origins[i].job, b)
    ensures FirstColliding(RunOrigins([Distribution(slots, a), Distribution(slots, b)]), 2, 1)
  {
    hide RunOrigins, BaseId, ActiveCount, Consecutive, SamePoolJob, FirstColliding;
    var ds := [Distribution(slots, a), Distribution(slots, b)];
    OriginsOfTwo(slots, a, b);
    assert PlaceOf(ds, 1, k) == 2;
    OnlyMiddleCollides(a, b, BaseId(a.notify.jobId));
    FirstOfFour(RunOrigins(ds));
  }

  lemma FirstOfFour(o: seq<Origin>)
    requires |o| == 4 && Collide(o[1], o[2]) && Collide(o[2], o[2]) && !Collide(o[0], o[2]) && !Collide(o[3], o[2])
    ensures FirstColliding(o, 2, 1) && forall i :: FirstColliding(o, 2, i) ==> i == 1
  {
    hide Collide;
  }

  lemma OnlyMiddleCollides(a: Job, b: Job, n: int)
    requires a.tick == b.tick
    ensures var o := Origin(b, n + 1, 1);
      Collide(Origin(a, n, 2), o) && Collide(o, o) && !Collide(Origin(a, n, 1), o) && !Collide(Origin(b, n + 1, 2), o)
  {
    var o := Origin(b, n + 1, 1);
    assert Origin(a, n, 2).Sum() == o.Sum() && Origin(a, n, 1).Sum() == o.Sum() - 1;
    assert Origin(b, n + 1, 2).Sum() == o.Sum() + 1;
  }

  const TWO_SLAVES := seq(CLUSTER_MAX_SLAVES, i requires 0 <= i < CLUSTER_MAX_SLAVES =>
    if i < 2 then FREE_SLOT.(active := true, slaveId := i + 1, mac := i) else FREE_SLOT)

  function PlainJob(id: string): Job {
    Job(Notify(id, seq(32, _ => 0), "", "", [], 0, 0, 0, 0), 0, "", 4, 0, 1, 0)
  }

  // For instance the jobs "1" and "2".
  lemma JobsOneAndTwo()
    ensures Consecutive(TWO_SLAVES, PlainJob("1"), PlainJob("2"))
    ensures PlainJob("1").tick == PlainJob("2").tick && !SamePoolJob(PlainJob("1"), PlainJob("2"))
    ensures PlainJob("1").Valid() && PlainJob("2").Valid()
  {
    BaseIdOfHex([1]);
    BaseIdOfHex([2]);
    assert HexDigits([1]) == "1" && HexDigits([2]) == "2" && Value([1], 16) == 1 && Value([2], 16) == 2;
    hide BaseId;
    assert ActiveCount(TWO_SLAVES, 2) == 2;
    NoMoreSlaves(8);
  }

  lemma {:induction false} NoMoreSlaves(k: nat)
    requires 2 <= k <= CLUSTER_MAX_SLAVES
    ensures ActiveCount(TWO_SLAVES, k) == ActiveCount(TWO_SLAVES, 2)
  {
    if k > 2 {
      NoMoreSlaves(k - 1);
    }
  }
}
