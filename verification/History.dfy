/**
 Hashrate history: a ring of samples, sliding windows over it, and a search by time.
 */
module History {

  const HISTORY_MAX_SAMPLES := 32768
  const TWO_TO_64 := 0x1_0000_0000_0000_0000
  const TWO_TO_63 := 0x8000_0000_0000_0000

  // Masking with a power of two less one.
  function Wrap(i: int): int { i % HISTORY_MAX_SAMPLES }

  // ----- What a window must hold, from all samples ever pushed -----

  function SumTo(rs: seq<int>, k: nat): int
    requires k <= |rs|
  {
    if k == 0 then 0 else SumTo(rs, k - 1) + rs[k - 1]
  }

  // Sample i is younger than the timespan when the last one arrives.
  predicate Younger(ts: seq<int>, timespan: int, i: nat)
    requires i < |ts|
  {
    ts[|ts| - 1] - ts[i] < timespan
  }

  // The sum and the number of the younger ones among the first k samples.
  function SumYounger(rs: seq<int>, ts: seq<int>, timespan: int, k: nat): int
    requires k <= |ts| == |rs|
  {
    if k == 0 then 0 else SumYounger(rs, ts, timespan, k - 1) + (if Younger(ts, timespan, k - 1) then rs[k - 1] else 0)
  }

  function CountYounger(ts: seq<int>, timespan: int, k: nat): nat
    requires k <= |ts|
  {
    if k == 0 then 0 else CountYounger(ts, timespan, k - 1) + (if Younger(ts, timespan, k - 1) then 1 else 0)
  }

  predicate Ascending(ts: seq<int>) {
    && (forall i :: 0 <= i < |ts| ==> 0 <= ts[i] < TWO_TO_64)
    && forall i, j :: 0 <= i <= j < |ts| ==> ts[i] <= ts[j]
  }

  // A whole ring of samples always spans the window.
  predicate RingSpans(ts: seq<int>, timespan: int) {
    forall i :: 0 <= i && i + HISTORY_MAX_SAMPLES - 1 < |ts| ==> ts[i + HISTORY_MAX_SAMPLES - 1] - ts[i] >= timespan
  }

  predicate Spaced(ts: seq<int>, d: int) {
    forall i :: 0 <= i < |ts| - 1 ==> ts[i + 1] - ts[i] >= d
  }

  lemma {:induction false} SpacedFar(ts: seq<int>, d: int, i: nat, k: nat)
    requires Spaced(ts, d) && i + k < |ts|
    ensures ts[i + k] - ts[i] >= k * d
  {
    if k > 0 {
      SpacedFar(ts, d, i, k - 1);
      assert ts[i + k - 1 + 1] - ts[i + k - 1] >= d;
      assert (k - 1) * d + d == k * d;
    }
  }

  lemma SpacingIsEnough(ts: seq<int>, d: int, timespan: int)
    requires Spaced(ts, d) && timespan <= (HISTORY_MAX_SAMPLES - 1) * d
    ensures RingSpans(ts, timespan)
  {
    forall i | 0 <= i && i + HISTORY_MAX_SAMPLES - 1 < |ts|
      ensures ts[i + HISTORY_MAX_SAMPLES - 1] - ts[i] >= timespan
    {
      SpacedFar(ts, d, i, HISTORY_MAX_SAMPLES - 1);
    }
  }

  predicate Good(ts: seq<int>, timespan: int) { Ascending(ts) && RingSpans(ts, timespan) && timespan > 0 }

  // first is the oldest younger sample.
  predicate IsFirst(ts: seq<int>, timespan: int, first: int) {
    0 <= first < |ts| && forall i :: 0 <= i < |ts| ==> (first <= i <==> Younger(ts, timespan, i))
  }

  lemma {:induction false} YoungerAre(rs: seq<int>, ts: seq<int>, timespan: int, first: nat, k: nat)
    requires |rs| == |ts| && IsFirst(ts, timespan, first) && k <= |ts|
    ensures k <= first ==> SumYounger(rs, ts, timespan, k) == 0 && CountYounger(ts, timespan, k) == 0
    ensures k >= first ==> SumYounger(rs, ts, timespan, k) == SumTo(rs, k) - SumTo(rs, first)
    ensures k >= first ==> CountYounger(ts, timespan, k) == k - first
  {
    if k > 0 {
      YoungerAre(rs, ts, timespan, first, k - 1);
    }
  }

  // ----- The windows -----

  class Ring {
    const rates: array<int>
    const timestamps: array<int>
    var numSamples: nat
    ghost var rs: seq<int>
    ghost var ts: seq<int>

    // The ring holds the newest samples.
    ghost predicate Valid()
      reads this, rates, timestamps
    {
      && rates != timestamps && rates.Length == timestamps.Length == HISTORY_MAX_SAMPLES
      && |rs| == |ts| == numSamples
      && (forall i :: 0 <= i < numSamples ==> 0 <= ts[i] < TWO_TO_64)
      && forall i :: 0 <= i < numSamples && numSamples - HISTORY_MAX_SAMPLES <= i ==>
        rates[Wrap(i)] == rs[i] && timestamps[Wrap(i)] == ts[i]
    }

    constructor ()
      ensures Valid() && rs == ts == [] && fresh(rates) && fresh(timestamps)
    {
      rates := new int[HISTORY_MAX_SAMPLES];
      timestamps := new int[HISTORY_MAX_SAMPLES];
      numSamples, rs, ts := 0, [], [];
    }

    function GetRateSample(i: int): int
      reads this, rates
      requires rates.Length == HISTORY_MAX_SAMPLES
    {
      rates[Wrap(i)]
    }

    function GetTimestampSample(i: int): int
      reads this, timestamps
      requires timestamps.Length == HISTORY_MAX_SAMPLES
    {
      timestamps[Wrap(i)]
    }

    method Store(rate: int, timestamp: int)
      requires Valid() && 0 <= timestamp < TWO_TO_64
      modifies this, rates, timestamps
      ensures Valid() && rs == old(rs) + [rate] && ts == old(ts) + [timestamp]
    {
      rates[Wrap(numSamples)] := rate;
      timestamps[Wrap(numSamples)] := timestamp;
      numSamples := numSamples + 1;
      rs, ts := rs + [rate], ts + [timestamp];
      forall i | 0 <= i < numSamples - 1 && numSamples - HISTORY_MAX_SAMPLES <= i
        ensures Wrap(i) != Wrap(numSamples - 1)
      {
        OtherSlot(i, numSamples - 1);
      }
    }
  }

  lemma OtherSlot(i: int, j: int)
    requires i < j < i + HISTORY_MAX_SAMPLES
    ensures Wrap(i) != Wrap(j)
  {}

  class HistoryAvg {
    const timespan: nat
    const samplePeriodMs: nat
    var firstSample: int
    var lastSample: int
    var numSamples: int
    var sumRates: int
    var timestamp: int
    var preliminary: bool

    // The window agrees with the samples pushed so far.
    ghost predicate Tracks(rs: seq<int>, ts: seq<int>)
      requires |rs| == |ts|
      reads this
    {
      && lastSample == |ts| - 1 && numSamples == lastSample - firstSample + 1
      && (ts == [] ==> firstSample == 0 && sumRates == 0)
      && (ts != [] ==> 0 <= firstSample <= lastSample)
      && (ts != [] && Good(ts, timespan) ==>
        IsFirst(ts, timespan, firstSample) && sumRates == SumTo(rs, |rs|) - SumTo(rs, firstSample))
    }

    constructor (timespan: nat, samplePeriodMs: nat)
      ensures Tracks([], []) && this.timespan == timespan && this.samplePeriodMs == samplePeriodMs
    {
      this.timespan, this.samplePeriodMs := timespan, samplePeriodMs;
      firstSample, lastSample, numSamples, sumRates, timestamp, preliminary := 0, -1, 0, 0, 0, true;
    }

    // Takes in the samples not seen yet; there is one unless nothing was ever pushed.
    method PullIn(history: Ring)
      requires history.Valid() && lastSample == (if history.numSamples == 0 then -1 else history.numSamples - 2)
      requires numSamples == lastSample - firstSample + 1
      modifies `lastSample, `numSamples, `sumRates
      ensures lastSample == history.numSamples - 1 && numSamples == lastSample - firstSample + 1
      ensures sumRates == old(sumRates) + if lastSample < 0 then 0 else history.rs[lastSample]
    {
      var histCount: int := history.numSamples;
      while lastSample + 1 < histCount
        invariant lastSample == old(lastSample) || lastSample == histCount - 1
        invariant numSamples == lastSample - firstSample + 1
        invariant sumRates == old(sumRates) + if lastSample == old(lastSample) then 0 else history.rs[lastSample]
      {
        lastSample := lastSample + 1;
        numSamples := numSamples + 1;
        sumRates := sumRates + history.GetRateSample(lastSample);
      }
    }

    // Drops the samples that are too old.
    method TrimLeft(history: Ring, lastTs: int)
      requires history.Valid() && 0 <= firstSample <= lastSample == history.numSamples - 1
        && numSamples == lastSample - firstSample + 1
      requires lastTs == history.ts[lastSample]
      requires Good(history.ts, timespan) ==> Trimming(history.rs, history.ts, timespan, firstSample, sumRates)
      modifies `firstSample, `numSamples, `sumRates
      ensures 0 <= firstSample <= lastSample && numSamples == lastSample - firstSample + 1
      ensures Good(history.ts, timespan) ==> Trimming(history.rs, history.ts, timespan, firstSample, sumRates)
      ensures Good(history.ts, timespan) ==> IsFirst(history.ts, timespan, firstSample)
    {
      hide Good, Trimming, IsFirst, SumTo, Younger, Wrap;
      while firstSample < lastSample && (lastTs - history.GetTimestampSample(firstSample)) % TWO_TO_64 >= timespan
        invariant 0 <= firstSample <= lastSample && numSamples == lastSample - firstSample + 1
        invariant Good(history.ts, timespan) ==> Trimming(history.rs, history.ts, timespan, firstSample, sumRates)
        decreases lastSample - firstSample
      {
        if Good(history.ts, timespan) {
          TrimStep(history, timespan, firstSample, sumRates);
        }
        sumRates := sumRates - history.GetRateSample(firstSample);
        numSamples := numSamples - 1;
        firstSample := firstSample + 1;
      }
      if Good(history.ts, timespan) {
        TrimEnd(history, timespan, firstSample, sumRates);
      }
    }

    // Called once for every sample pushed.
    method Update(history: Ring)
      requires history.Valid() && Behind(this, history)
      modifies this
      ensures Tracks(history.rs, history.ts)
      ensures timestamp == if history.numSamples == 0 then 0 else history.ts[history.numSamples - 1]
      ensures history.numSamples == 0 ==> preliminary
      ensures history.numSamples > 0 && Good(history.ts, timespan) ==>
        (preliminary <==> history.ts[history.numSamples - 1] - history.ts[firstSample] + samplePeriodMs < timespan)
    {
      hide Good, IsFirst, SumTo, Trimming, Younger, Ring.Valid, HistoryAvg.Tracks, Behind;
      BeforeUpdate(this, history);
      PullIn(history);
      if lastSample < 0 || numSamples <= 0 {
        timestamp, preliminary := 0, true;
        StillEmpty(this);
        return;
      }
      var lastTs := history.GetTimestampSample(lastSample);
      TrimLeft(history, lastTs);
      Measure(history, lastTs);
      AfterUpdate(this, history);
    }

    method Measure(history: Ring, lastTs: int)
      requires history.Valid() && 0 <= firstSample <= lastSample == history.numSamples - 1
      requires lastTs == history.ts[lastSample]
      requires Good(history.ts, timespan) ==> Trimming(history.rs, history.ts, timespan, firstSample, sumRates)
      modifies `preliminary, `timestamp
      ensures timestamp == lastTs
      ensures Good(history.ts, timespan) ==>
        sumRates == SumTo(history.rs, |history.rs|) - SumTo(history.rs, firstSample)
      ensures Good(history.ts, timespan) ==>
        (preliminary <==> lastTs - history.ts[firstSample] + samplePeriodMs < timespan)
    {
      hide Good, SumTo, Trimming;
      if Good(history.ts, timespan) {
        TrimmedIsLive(history, timespan, firstSample, sumRates);
      }
      var firstTs := history.GetTimestampSample(firstSample);
      var covered := if lastTs >= firstTs then lastTs - firstTs else 0;
      preliminary := !(covered + samplePeriodMs >= timespan);
      timestamp := lastTs;
    }
  }

  // The window has seen all samples but the last, if there is one.
  ghost predicate Behind(a: HistoryAvg, history: Ring)
    requires history.Valid()
    reads a, history, history.rates, history.timestamps
  {
    if history.numSamples == 0 then a.Tracks([], [])
    else a.Tracks(history.rs[..history.numSamples - 1], history.ts[..history.numSamples - 1])
  }

  // After one more sample was stored.
  lemma NowBehind(a: HistoryAvg, history: Ring, rs: seq<int>, ts: seq<int>)
    requires history.Valid() && |rs| == |ts| && a.Tracks(rs, ts)
    requires |history.rs| == |rs| + 1 && history.rs[..|rs|] == rs && |history.ts| == |ts| + 1
      && history.ts[..|ts|] == ts
    ensures Behind(a, history)
  {
    hide HistoryAvg.Tracks;
  }

  lemma BeforeUpdate(a: HistoryAvg, history: Ring)
    requires history.Valid() && Behind(a, history)
    ensures |history.rs| == |history.ts| == history.numSamples && history.timestamps.Length == HISTORY_MAX_SAMPLES
    ensures a.lastSample == (if history.numSamples == 0 then -1 else history.numSamples - 2)
    ensures a.numSamples == a.lastSample - a.firstSample + 1
    ensures history.numSamples == 0 ==> history.rs == history.ts == [] && a.firstSample == 0 && a.sumRates == 0
    ensures history.numSamples > 0 ==>
      history.GetTimestampSample(history.numSamples - 1) == history.ts[history.numSamples - 1]
    ensures history.numSamples > 0 ==> 0 <= a.firstSample <= a.lastSample + 1
    ensures history.numSamples > 0 && Good(history.ts, a.timespan) ==>
      Trimming(history.rs, history.ts, a.timespan, a.firstSample, a.sumRates + history.rs[history.numSamples - 1])
  {
    hide Good, IsFirst, SumTo, Younger, Wrap, Trimming;
    var n := history.numSamples;
    if n > 0 {
      assert |history.rs[..n - 1]| == |history.ts[..n - 1]| == n - 1;
      if Good(history.ts, a.timespan) {
        WindowBefore(history.rs, history.ts, a.timespan, a.firstSample, a.sumRates);
        StartTrimming(history.rs, history.ts, a.timespan, a.firstSample, a.sumRates + history.rs[n - 1]);
      }
    }
  }

  lemma StartTrimming(rs: seq<int>, ts: seq<int>, timespan: int, first: int, sum: int)
    requires |rs| == |ts| > 0 && 0 <= first <= |ts| - 1 && |ts| - HISTORY_MAX_SAMPLES <= first
    requires sum == SumTo(rs, |rs|) - SumTo(rs, first) && forall i :: 0 <= i < first ==> !Younger(ts, timespan, i)
    ensures Trimming(rs, ts, timespan, first, sum)
  {}

  lemma StillEmpty(a: HistoryAvg)
    requires a.lastSample == -1 && a.firstSample == 0 && a.numSamples == 0 && a.sumRates == 0
    ensures a.Tracks([], [])
  {}

  lemma AfterUpdate(a: HistoryAvg, history: Ring)
    requires history.Valid() && history.numSamples > 0
    requires a.lastSample == history.numSamples - 1 && a.numSamples == a.lastSample - a.firstSample + 1
    requires 0 <= a.firstSample <= a.lastSample
    requires |history.rs| == |history.ts|
    requires Good(history.ts, a.timespan) ==> IsFirst(history.ts, a.timespan, a.firstSample)
    requires Good(history.ts, a.timespan) ==>
      a.sumRates == SumTo(history.rs, |history.rs|) - SumTo(history.rs, a.firstSample)
    ensures a.Tracks(history.rs, history.ts)
  {
    hide Good, IsFirst, SumTo;
  }

  // Part of the way through the trimming: the sum is over the samples from first on, all
  // earlier ones are too old, and the samples from first on are still in the ring.
  predicate Trimming(rs: seq<int>, ts: seq<int>, timespan: int, first: int, sum: int) {
    && |rs| == |ts| && 0 <= first < |ts| && |ts| - HISTORY_MAX_SAMPLES <= first
    && sum == SumTo(rs, |rs|) - SumTo(rs, first)
    && forall i :: 0 <= i < first ==> !Younger(ts, timespan, i)
  }

  lemma TrimmedIsLive(history: Ring, timespan: int, first: int, sum: int)
    requires history.Valid() && Good(history.ts, timespan) && Trimming(history.rs, history.ts, timespan, first, sum)
    ensures 0 <= first < history.numSamples && sum == SumTo(history.rs, |history.rs|) - SumTo(history.rs, first)
    ensures history.GetTimestampSample(first) == history.ts[first] <= history.ts[history.numSamples - 1]
    ensures history.GetRateSample(first) == history.rs[first]
  {
    hide SumTo, Younger, Wrap;
  }

  lemma TrimStep(history: Ring, timespan: int, first: int, sum: int)
    requires history.Valid() && Good(history.ts, timespan) && Trimming(history.rs, history.ts, timespan, first, sum)
    requires first < history.numSamples - 1
    requires (history.ts[history.numSamples - 1] - history.GetTimestampSample(first)) % TWO_TO_64 >= timespan
    ensures Trimming(history.rs, history.ts, timespan, first + 1, sum - history.GetRateSample(first))
  {
    TrimmedIsLive(history, timespan, first, sum);
    AgeIs(history.ts, timespan, first);
    SumStep(history.rs, first);
    hide SumTo, Younger, Wrap, Good;
  }

  lemma TrimEnd(history: Ring, timespan: int, first: int, sum: int)
    requires history.Valid() && Good(history.ts, timespan) && Trimming(history.rs, history.ts, timespan, first, sum)
    requires first == history.numSamples - 1
      || (history.ts[history.numSamples - 1] - history.GetTimestampSample(first)) % TWO_TO_64 < timespan
    ensures IsFirst(history.ts, timespan, first)
  {
    TrimmedIsLive(history, timespan, first, sum);
    AgeIs(history.ts, timespan, first);
    FirstFound(history.ts, timespan, first);
  }

  lemma {:induction false} SumOfPrefix(rs: seq<int>, n: nat, k: nat)
    requires k <= n <= |rs|
    ensures SumTo(rs[..n], k) == SumTo(rs, k)
  {
    if k > 0 {
      SumOfPrefix(rs, n, k - 1);
    }
  }

  lemma SumStep(rs: seq<int>, k: nat)
    requires k < |rs|
    ensures SumTo(rs, k + 1) == SumTo(rs, k) + rs[k]
  {}

  // The age as an unsigned 64-bit difference.
  lemma AgeIs(ts: seq<int>, timespan: int, i: nat)
    requires i < |ts| && Good(ts, timespan)
    ensures (ts[|ts| - 1] - ts[i]) % TWO_TO_64 >= timespan <==> !Younger(ts, timespan, i)
    ensures ts[|ts| - 1] >= ts[i]
  {}

  lemma FirstFound(ts: seq<int>, timespan: int, first: nat)
    requires first < |ts| && Good(ts, timespan) && (first == |ts| - 1 || Younger(ts, timespan, first))
    requires forall i :: 0 <= i < first ==> !Younger(ts, timespan, i)
    ensures IsFirst(ts, timespan, first)
  {}

  lemma PrefixIsGood(ts: seq<int>, timespan: int)
    requires |ts| > 0 && Good(ts, timespan)
    ensures Good(ts[..|ts| - 1], timespan)
  {}

  lemma SpansAt(ts: seq<int>, timespan: int, i: nat)
    requires RingSpans(ts, timespan) && i + HISTORY_MAX_SAMPLES - 1 < |ts|
    ensures ts[i + HISTORY_MAX_SAMPLES - 1] - ts[i] >= timespan
  {}

  // What the window knew before the last sample, read with respect to all samples: nothing it
  // still needs has been overwritten.
  lemma WindowBefore(rs: seq<int>, ts: seq<int>, timespan: int, first: int, sum: int)
    requires |rs| == |ts| > 0 && Good(ts, timespan)
    requires |ts| == 1 ==> first == 0 && sum == 0
    requires |ts| > 1 && Good(ts[..|ts| - 1], timespan) ==> IsFirst(ts[..|ts| - 1], timespan, first)
    requires |ts| > 1 && Good(ts[..|ts| - 1], timespan) ==>
      0 <= first <= |ts| - 1 && sum == SumTo(rs[..|ts| - 1], |ts| - 1) - SumTo(rs[..|ts| - 1], first)
    ensures 0 <= first <= |ts| - 1 && |ts| - HISTORY_MAX_SAMPLES <= first
    ensures sum + rs[|rs| - 1] == SumTo(rs, |rs|) - SumTo(rs, first)
    ensures forall i :: 0 <= i < first ==> !Younger(ts, timespan, i)
  {
    var n := |ts| - 1;
    SumStep(rs, n);
    if n > 0 {
      PrefixIsGood(ts, timespan);
      SumOfPrefix(rs, n, n);
      SumOfPrefix(rs, n, first);
      hide SumTo;
      assert Younger(ts[..n], timespan, first);
      if first + HISTORY_MAX_SAMPLES - 1 < n {
        SpansAt(ts, timespan, first);
        assert false;
      }
      forall i | 0 <= i < first ensures !Younger(ts, timespan, i) {
        assert !Younger(ts[..n], timespan, i);
      }
    }
  }

  // ----- Searching by time -----

  // The oldest sample still in the ring of n.
  function Lowest(n: nat): nat { if n < HISTORY_MAX_SAMPLES then 0 else n - HISTORY_MAX_SAMPLES }

  // Half of a number, rounded towards zero.
  function Halved(x: int): int { if x < 0 then -(-x / 2) else x / 2 }

  // A stored timestamp as a signed number.
  function Signed(t: int): int { if t < TWO_TO_63 then t else t - TWO_TO_64 }

  predicate TimesAscend(ts: seq<int>) {
    forall i, j :: 0 <= i <= j < |ts| ==> Signed(ts[i]) <= Signed(ts[j])
  }

  // All that is below the range is too early, all that is above it too late.
  ghost predicate Narrowed(ts: seq<int>, first: nat, timestamp: int, lowest: int, highest: int) {
    && first <= lowest <= highest + 1 <= |ts|
    && (forall i :: first <= i < lowest ==> Signed(ts[i]) < timestamp)
    && forall i :: highest < i < |ts| ==> Signed(ts[i]) > timestamp
  }

  // A sample with this time, if the ring holds one; else a neighbour of the place p where it
  // would have to be inserted.
  ghost predicate IsNearest(ts: seq<int>, first: nat, timestamp: int, r: int)
    requires 0 <= r < |ts|
  {
    if exists i :: first <= i < |ts| && Signed(ts[i]) == timestamp then Signed(ts[r]) == timestamp
    else exists p :: InsertsAt(ts, first, timestamp, p) && (r == p || r == p - 1)
  }

  ghost predicate InsertsAt(ts: seq<int>, first: nat, timestamp: int, p: int) {
    && first <= p <= |ts| && (forall i :: first <= i < p ==> Signed(ts[i]) < timestamp)
    && forall i :: p <= i < |ts| ==> Signed(ts[i]) > timestamp
  }

  lemma LiveTimestamp(ring: Ring, i: int)
    requires ring.Valid() && Lowest(ring.numSamples) <= i < ring.numSamples
    ensures ring.timestamps.Length == HISTORY_MAX_SAMPLES && |ring.ts| == ring.numSamples
    ensures ring.GetTimestampSample(i) == ring.ts[i]
  {}

  lemma NarrowStart(ts: seq<int>, first: nat, timestamp: int)
    requires first <= |ts|
    ensures Narrowed(ts, first, timestamp, first, |ts| - 1)
  {}

  lemma MatchFound(ts: seq<int>, first: nat, timestamp: int, r: int)
    requires first <= r < |ts| && Signed(ts[r]) == timestamp
    ensures IsNearest(ts, first, timestamp, r)
  {
    hide Signed;
  }

  lemma NarrowLower(ts: seq<int>, first: nat, timestamp: int, lowest: int, highest: int, current: int)
    requires TimesAscend(ts) && Narrowed(ts, first, timestamp, lowest, highest)
    requires lowest <= current <= highest && Signed(ts[current]) > timestamp
    ensures Narrowed(ts, first, timestamp, lowest, current - 1)
  {
    hide Signed;
  }

  lemma NarrowHigher(ts: seq<int>, first: nat, timestamp: int, lowest: int, highest: int, current: int)
    requires TimesAscend(ts) && Narrowed(ts, first, timestamp, lowest, highest)
    requires lowest <= current <= highest && Signed(ts[current]) < timestamp
    ensures Narrowed(ts, first, timestamp, current + 1, highest)
  {
    hide Signed;
  }

  lemma NearestFound(ts: seq<int>, first: nat, timestamp: int, lowest: int, highest: int, r: int)
    requires TimesAscend(ts) && Narrowed(ts, first, timestamp, lowest, highest) && highest <= lowest
    requires 0 <= r < |ts| && r == if highest < lowest && lowest > 0 then lowest - 1 else lowest
    ensures IsNearest(ts, first, timestamp, r)
  {
    hide Signed;
    if !exists i :: first <= i < |ts| && Signed(ts[i]) == timestamp {
      var p := if highest == lowest && Signed(ts[lowest]) < timestamp then lowest + 1 else lowest;
      assert InsertsAt(ts, first, timestamp, p);
    }
  }

  // ----- Why an overwritten sample is never hit -----

  predicate IsPowerOfTwo(n: int)
    decreases n
  {
    n == 1 || (n > 1 && n % 2 == 0 && IsPowerOfTwo(n / 2))
  }

  lemma HalfRingIsPowerOfTwo()
    ensures IsPowerOfTwo(HISTORY_MAX_SAMPLES / 2)
  {
    assert IsPowerOfTwo(256);
    assert IsPowerOfTwo(4096);
  }

  // As long as the search has only gone left in a full ring, the range is the whole ring or has
  // 2^k - 1 elements for some k > 0; so it does not become empty.
  predicate OnPath(first: int, lowest: int, highest: int) {
    || lowest > first || first == 0 || highest - lowest + 1 == HISTORY_MAX_SAMPLES
    || (highest >= lowest && IsPowerOfTwo(highest - lowest + 2))
  }

  lemma PathStarts(n: nat)
    ensures OnPath(Lowest(n), Lowest(n), n - 1)
  {}

  lemma HalfIsBetween(lowest: int, highest: int)
    requires 0 <= lowest < highest
    ensures lowest <= Halved(highest + lowest) < highest
    ensures Halved(highest + lowest) - lowest == (highest - lowest) / 2
  {}

  lemma PathLower(first: int, lowest: int, highest: int)
    requires 0 <= first <= lowest < highest && OnPath(first, lowest, highest)
    ensures lowest <= Halved(highest + lowest) < highest
    ensures OnPath(first, lowest, Halved(highest + lowest) - 1)
  {
    HalfIsBetween(lowest, highest);
    HalfRingIsPowerOfTwo();
  }

  lemma PathHigher(first: int, lowest: int, highest: int)
    requires 0 <= first <= lowest < highest
    ensures lowest <= Halved(highest + lowest) < highest
    ensures OnPath(first, Halved(highest + lowest) + 1, highest)
  {
    HalfIsBetween(lowest, highest);
  }

  lemma PathEnds(first: int, lowest: int, highest: int)
    requires 0 <= first <= lowest <= highest + 1 && highest <= lowest && OnPath(first, lowest, highest)
    ensures Halved(highest + lowest) == if highest < lowest && lowest > 0 then lowest - 1 else lowest
    ensures highest < lowest ==> lowest > first || first == 0
  {}

  // ----- The search, step by step -----

  ghost predicate Searching(ts: seq<int>, timestamp: int, lowest: int, highest: int) {
    && Lowest(|ts|) <= lowest <= highest + 1 <= |ts| && OnPath(Lowest(|ts|), lowest, highest)
    && (TimesAscend(ts) ==> Narrowed(ts, Lowest(|ts|), timestamp, lowest, highest))
  }

  lemma SizeIs() ensures HISTORY_MAX_SAMPLES == 32768 {}

  lemma SearchStarts(ts: seq<int>, timestamp: int, lowest: int, highest: int)
    requires lowest == (if |ts| < 32768 then 0 else |ts| - 32768) && highest == |ts| - 1
    ensures Searching(ts, timestamp, lowest, highest)
  {
    PathStarts(|ts|);
    NarrowStart(ts, lowest, timestamp);
  }

  lemma SearchStep(ts: seq<int>, timestamp: int, lowest: int, highest: int)
    requires Searching(ts, timestamp, lowest, highest) && lowest < highest
    ensures var current := Halved(highest + lowest);
      && Lowest(|ts|) <= lowest <= current < highest < |ts|
      && (Signed(ts[current]) > timestamp ==> Searching(ts, timestamp, lowest, current - 1))
      && (Signed(ts[current]) < timestamp ==> Searching(ts, timestamp, current + 1, highest))
      && (TimesAscend(ts) && Signed(ts[current]) == timestamp ==> IsNearest(ts, Lowest(|ts|), timestamp, current))
  {
    HalfIsBetween(lowest, highest);
    hide TimesAscend, OnPath, Narrowed, IsNearest, Signed, Halved, Lowest;
    var first, current := Lowest(|ts|), Halved(highest + lowest);
    PathLower(first, lowest, highest);
    PathHigher(first, lowest, highest);
    if TimesAscend(ts) {
      if Signed(ts[current]) > timestamp {
        NarrowLower(ts, first, timestamp, lowest, highest, current);
      } else if Signed(ts[current]) < timestamp {
        NarrowHigher(ts, first, timestamp, lowest, highest, current);
      } else {
        MatchFound(ts, first, timestamp, current);
      }
    }
  }

  lemma SearchEnds(ts: seq<int>, timestamp: int, lowest: int, highest: int)
    requires Searching(ts, timestamp, lowest, highest) && highest <= lowest
    ensures var current := Halved(highest + lowest);
      && (ts == [] ==> current == 0)
      && (ts != [] ==> Lowest(|ts|) <= current < |ts|)
      && (ts != [] && TimesAscend(ts) ==> IsNearest(ts, Lowest(|ts|), timestamp, current))
  {
    PathEnds(Lowest(|ts|), lowest, highest);
    hide TimesAscend, Narrowed, IsNearest, Signed, Halved;
    var current := Halved(highest + lowest);
    if ts != [] && TimesAscend(ts) {
      NearestFound(ts, Lowest(|ts|), timestamp, lowest, highest, current);
    }
  }

  // ----- Pushing -----

  class History {
    const ring: Ring
    const avg1m: HistoryAvg
    const avg10m: HistoryAvg
    const avg1h: HistoryAvg
    const avg1d: HistoryAvg

    ghost predicate Valid()
      reads this, ring, ring.rates, ring.timestamps, avg1m, avg10m, avg1h, avg1d
    {
      && ring.Valid() && avg1m != avg10m && avg1m != avg1h && avg1m != avg1d && avg10m != avg1h && avg10m != avg1d
      && avg1h != avg1d
      && avg1m.Tracks(ring.rs, ring.ts) && avg10m.Tracks(ring.rs, ring.ts)
      && avg1h.Tracks(ring.rs, ring.ts) && avg1d.Tracks(ring.rs, ring.ts)
    }

    constructor (hrInterval: nat)
      ensures Valid() && ring.rs == []
      ensures avg1m.timespan == 60_000 && avg10m.timespan == 600_000 && avg1h.timespan == 3_600_000
        && avg1d.timespan == 86_400_000
    {
      ring := new Ring();
      avg1m := new HistoryAvg(60_000, hrInterval);
      avg10m := new HistoryAvg(600_000, hrInterval);
      avg1h := new HistoryAvg(3_600_000, hrInterval);
      avg1d := new HistoryAvg(86_400_000, hrInterval);
    }

    // Successive approximation in the wrapped ring. The index found is never that of an
    // overwritten sample; if the times ascend it is a match, or next to where one belongs.
    method SearchNearestTimestamp(timestamp: int) returns (current: int)
      requires Valid()
      ensures current == -1 <==> ring.numSamples == 0
      ensures current != -1 ==> Lowest(ring.numSamples) <= current < ring.numSamples
      ensures current != -1 && TimesAscend(ring.ts) ==> IsNearest(ring.ts, Lowest(ring.numSamples), timestamp, current)
    {
      RingSizes(ring);
      hide *;
      SizeIs();
      ghost var ts := ring.ts;
      var lowest := if ring.numSamples - HISTORY_MAX_SAMPLES < 0 then 0 else ring.numSamples - HISTORY_MAX_SAMPLES;
      var highest: int := ring.numSamples - 1;
      SearchStarts(ts, timestamp, lowest, highest);
      current := Halved(highest + lowest);
      var numElements := highest - lowest + 1;
      while numElements > 1
        invariant numElements == highest - lowest + 1 && current == Halved(highest + lowest)
        invariant Searching(ts, timestamp, lowest, highest)
        decreases numElements
      {
        SearchStep(ts, timestamp, lowest, highest);
        LiveTimestamp(ring, current);
        var stored := Signed(ring.GetTimestampSample(current));
        if stored > timestamp {
          highest := current - 1;
        } else if stored < timestamp {
          lowest := current + 1;
        } else {
          return;
        }
        current := Halved(highest + lowest);
        numElements := highest - lowest + 1;
      }
      SearchEnds(ts, timestamp, lowest, highest);
      if current < 0 || current >= ring.numSamples {
        current := -1;
      }
    }

    // The rate is already a fixed-point number.
    method Push(rate: nat, timestamp: int)
      requires Valid() && 0 <= timestamp < TWO_TO_64
      modifies ring, ring.rates, ring.timestamps, avg1m, avg10m, avg1h, avg1d
      ensures Valid() && ring.rs == old(ring.rs) + [rate] && ring.ts == old(ring.ts) + [timestamp]
    {
      hide HistoryAvg.Tracks, Ring.Valid, Good, Younger, Behind, SumTo, IsFirst;
      ghost var rs, ts := ring.rs, ring.ts;
      RingSizes(ring);
      ring.Store(rate, timestamp);
      NowBehind(avg1m, ring, rs, ts);
      NowBehind(avg10m, ring, rs, ts);
      NowBehind(avg1h, ring, rs, ts);
      NowBehind(avg1d, ring, rs, ts);
      avg1m.Update(ring);
      avg10m.Update(ring);
      avg1h.Update(ring);
      avg1d.Update(ring);
    }
  }

  // After every push, each window holds the sum, the number and the range of exactly the
  // samples younger than its timespan, as computed from all samples ever pushed.
  lemma WindowIsExact(h: History, a: HistoryAvg)
    requires h.Valid() && a in {h.avg1m, h.avg10m, h.avg1h, h.avg1d} && h.ring.numSamples > 0
      && Good(h.ring.ts, a.timespan)
    ensures a.sumRates == SumYounger(h.ring.rs, h.ring.ts, a.timespan, h.ring.numSamples)
    ensures a.numSamples == CountYounger(h.ring.ts, a.timespan, h.ring.numSamples) > 0
    ensures a.lastSample == h.ring.numSamples - 1
    ensures forall i :: 0 <= i < h.ring.numSamples ==> (a.firstSample <= i <==> Younger(h.ring.ts, a.timespan, i))
  {
    hide Good, SumTo, Younger, Ring.Valid;
    RingSizes(h.ring);
    assert a.Tracks(h.ring.rs, h.ring.ts);
    YoungerAre(h.ring.rs, h.ring.ts, a.timespan, a.firstSample, h.ring.numSamples);
  }

  lemma RingSizes(ring: Ring)
    requires ring.Valid()
    ensures |ring.rs| == |ring.ts| == ring.numSamples
  {}

  // Samples at least 2637 ms apart are far enough apart for all four windows.
  lemma WindowsNeverOutgrowTheRing(ts: seq<int>, timespan: int)
    requires Ascending(ts) && Spaced(ts, 2637) && 0 < timespan <= 86_400_000
    ensures Good(ts, timespan)
  {
    SpacingIsEnough(ts, 2637, timespan);
  }
}
