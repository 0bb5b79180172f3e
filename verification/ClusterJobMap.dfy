/**
 The ring in which the master remembers, for each cluster job id it gave out, the pool's job and
 the extranonce2 that belong to it.
 */
module ClusterJobMap {
  import opened Options

  const CLUSTER_JOB_MAP_SIZE := 256

  datatype Entry = Entry(clusterJobId: int, stratumJobId: string, extranonce2: string, poolId: int, valid: bool)

  const NO_ENTRY := Entry(0, "", "", 0, false)

  // strncpy into a field of size n that is then terminated.
  function Cut(s: string, n: nat): string
    requires n > 0
  {
    if |s| < n then s else s[..n - 1]
  }

  function MakeEntry(clusterJobId: int, stratumJobId: string, extranonce2: string, poolId: int): Entry {
    Entry(clusterJobId, Cut(stratumJobId, 32), Cut(extranonce2, 17), poolId, true)
  }

  // The oldest mapping that has not been overwritten after n were stored.
  function Oldest(n: nat): nat { if n < CLUSTER_JOB_MAP_SIZE then 0 else n - CLUSTER_JOB_MAP_SIZE }

  class JobMap {
    const entries: array<Entry>
    var index: nat
    ghost var log: seq<Entry>

    // log is everything ever stored; the ring holds the newest part of it.
    ghost predicate Valid()
      reads this, entries
    {
      && entries.Length == CLUSTER_JOB_MAP_SIZE && |log| == index
      && (forall i :: Oldest(index) <= i < index ==> entries[i % CLUSTER_JOB_MAP_SIZE] == log[i] && log[i].valid)
      && forall i :: index <= i < CLUSTER_JOB_MAP_SIZE ==> !entries[i].valid
    }

    constructor ()
      ensures Valid() && log == [] && fresh(entries)
    {
      entries := new Entry[CLUSTER_JOB_MAP_SIZE](_ => NO_ENTRY);
      index, log := 0, [];
    }

    method Store(clusterJobId: int, stratumJobId: string, extranonce2: string, poolId: int)
      requires Valid()
      modifies this, entries
      ensures Valid() && log == old(log) + [MakeEntry(clusterJobId, stratumJobId, extranonce2, poolId)]
    {
      ghost var n := index;
      var entry := MakeEntry(clusterJobId, stratumJobId, extranonce2, poolId);
      entries[index % CLUSTER_JOB_MAP_SIZE] := entry;
      index := index + 1;
      log := log + [entry];
      forall i | Oldest(index) <= i < n ensures i % CLUSTER_JOB_MAP_SIZE != n % CLUSTER_JOB_MAP_SIZE {
        OtherPlace(i, n);
      }
    }

    // The first entry of the ring with this id, in the order of the ring.
    method Lookup(clusterJobId: int) returns (found: Option<Entry>)
      requires Valid()
      ensures found == None ==> forall k :: !IsLive(log, clusterJobId, k)
      ensures found != None ==> exists k :: IsFirstLive(log, clusterJobId, k) && found.value == log[k]
    {
      for i := 0 to CLUSTER_JOB_MAP_SIZE
        invariant forall j :: 0 <= j < i && entries[j].valid ==> entries[j].clusterJobId != clusterJobId
      {
        if entries[i].valid && entries[i].clusterJobId == clusterJobId {
          LivePlace(index, i);
          assert IsFirstLive(log, clusterJobId, MappingAt(index, i));
          return Some(entries[i]);
        }
      }
      return None;
    }
  }

  ghost predicate LiveEntriesAgree(log: seq<Entry>, clusterJobId: int) {
    forall i, j :: IsLive(log, clusterJobId, i) && IsLive(log, clusterJobId, j) ==> log[i] == log[j]
  }

  // Mapping i is for this id and has not been overwritten.
  predicate IsLive(log: seq<Entry>, clusterJobId: int, i: int) {
    Oldest(|log|) <= i < |log| && log[i].clusterJobId == clusterJobId
  }

  // Of several live mappings for the id, the one that stands first in the ring.
  ghost predicate IsFirstLive(log: seq<Entry>, clusterJobId: int, k: int) {
    IsLive(log, clusterJobId, k) && forall m :: IsLive(log, clusterJobId, m) ==>
      k % CLUSTER_JOB_MAP_SIZE <= m % CLUSTER_JOB_MAP_SIZE
  }

  lemma FirstLiveIsOne(log: seq<Entry>, clusterJobId: int, k: int, m: int)
    requires IsFirstLive(log, clusterJobId, k) && IsFirstLive(log, clusterJobId, m)
    ensures k == m
  {
    if k < m {
      OtherPlace(k, m);
    } else if m < k {
      OtherPlace(m, k);
    }
  }

  lemma FirstLiveExists(log: seq<Entry>, clusterJobId: int, k: int) returns (m: int)
    requires IsLive(log, clusterJobId, k)
    ensures IsFirstLive(log, clusterJobId, m)
  {
    m := k;
    for i := 0 to |log|
      invariant IsLive(log, clusterJobId, m)
      invariant forall q :: 0 <= q < i && IsLive(log, clusterJobId, q) ==>
        m % CLUSTER_JOB_MAP_SIZE <= q % CLUSTER_JOB_MAP_SIZE
    {
      if IsLive(log, clusterJobId, i) && i % CLUSTER_JOB_MAP_SIZE < m % CLUSTER_JOB_MAP_SIZE {
        m := i;
      }
    }
  }

  lemma OtherPlace(i: int, j: int)
    requires 0 <= i < j < i + CLUSTER_JOB_MAP_SIZE
    ensures i % CLUSTER_JOB_MAP_SIZE != j % CLUSTER_JOB_MAP_SIZE
  {}

  // Which mapping stands at place i after n were stored.
  function MappingAt(n: nat, i: nat): int {
    if n <= CLUSTER_JOB_MAP_SIZE then i else n - 1 - (n - 1 - i) % CLUSTER_JOB_MAP_SIZE
  }

  lemma LivePlace(n: nat, i: nat)
    requires i < CLUSTER_JOB_MAP_SIZE && i < n
    ensures Oldest(n) <= MappingAt(n, i) < n && MappingAt(n, i) % CLUSTER_JOB_MAP_SIZE == i
  {}
}
