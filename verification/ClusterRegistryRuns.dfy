/**
 How long a slave keeps its slot over whole runs of the registry.
 */
module ClusterRegistryRuns {
  import opened ClusterRegistry

  // The clock does not run backwards.
  predicate Clock(events: seq<Event>) {
    && (forall i :: 0 <= i < |events| ==> 0 <= events[i].now < TWO_TO_64)
    && forall i, j :: 0 <= i < j < |events| ==> events[i].now <= events[j].now
  }

  predicate Holds(s: State, mac: Mac, id: int) {
    1 <= id <= |s.slots| && s.slots[id - 1].active && s.slots[id - 1].mac == mac
  }

  predicate Registers(e: Event, mac: Mac) { e.Register? && e.mac == mac }

  // The last registration of this address is event r, and it was answered with this id.
  ghost predicate LastRegistered(events: seq<Event>, r: int, mac: Mac, id: int) {
    && 0 <= r < |events| && Registers(events[r], mac) && AnsweredWith(events, r, id)
    && forall i :: r < i < |events| ==> !Registers(events[i], mac)
  }

  predicate AnsweredWith(events: seq<Event>, r: int, id: int)
    requires 0 <= r < |events|
  {
    exists m :: m in Step(Run(events[..r]), events[r]).1 && m.ack.accepted && m.ack.slaveId == id
  }

  // Event j is a sign of the slave that registration r gave this id.
  predicate Sign(events: seq<Event>, r: int, id: int, j: int)
    requires 0 <= j < |events|
  {
    j == r || (events[j].Heartbeat? && events[j].slaveId == id)
  }

  // Such a sign came at most 15 s before check i.
  ghost predicate Heard(events: seq<Event>, r: int, id: int, i: int)
    requires 0 <= r < i < |events|
  {
    exists j :: r <= j < i && Sign(events, r, id, j) && events[i].now - events[j].now <= 15000
  }

  ghost predicate AlwaysHeard(events: seq<Event>, r: int, id: int)
    requires 0 <= r < |events|
  {
    forall i :: r < i < |events| && events[i].TimeoutCheck? ==> Heard(events, r, id, i)
  }

  // ----- One event, for an address that it does not register, or does -----

  lemma OtherEvent(s: State, e: Event, mac: Mac, id: int)
    requires Inv(s) && !Registers(e, mac)
    ensures var t := Step(s, e).0;
      && (Holds(t, mac, id) <==> Holds(s, mac, id) && !(e.TimeoutCheck? && TimedOut(s.slots[id - 1], e.now)))
      && (Holds(t, mac, id) ==>
        t.slots[id - 1] == if e.Heartbeat? && e.slaveId == id
          then s.slots[id - 1].(telemetry := e.telemetry, lastHeartbeatMs := e.now) else s.slots[id - 1])
  {
    hide First, Checked, TimedOut;
    if e.TimeoutCheck? {
      CheckedKeeps(s, e.now, |s.slots|);
    }
  }

  lemma OwnRegistration(s: State, e: Event, mac: Mac, id: int)
    requires Inv(s) && Registers(e, mac)
    ensures var (t, sent) := Step(s, e);
      && (Holds(t, mac, id) <==> exists m :: m in sent && m.ack.accepted && m.ack.slaveId == id)
      && (Holds(t, mac, id) ==>
        var slot := t.slots[id - 1];
        slot.lastHeartbeatMs == e.now && slot.hostname == e.hostname && slot.ipAddr == e.ipAddr)
  {
    hide First;
  }

  // A heartbeat is answered, with a rejection, exactly if nobody holds its id.
  lemma StaleHeartbeatRejected(s: State, id: int, telemetry: Telemetry, mac: Mac, now: int)
    requires Inv(s)
    ensures OnHeartbeat(s, id, telemetry, mac, now).1 ==
      if exists holder :: Holds(s, holder, id) then [] else [Sent(mac, Ack(0, false, ""))]
  {
    hide First;
    if 1 <= id <= |s.slots| && s.slots[id - 1].active {
      assert Holds(s, s.slots[id - 1].mac, id);
    }
  }

  // A timeout check takes away the peers of those it evicts, and no others.
  lemma {:induction false} PeersAfterCheck(s: State, now: int, k: nat, peer: Mac)
    requires k <= |s.slots|
    ensures peer in Checked(s, now, k).peers <==>
      peer in s.peers && forall i :: 0 <= i < k && TimedOut(s.slots[i], now) ==> s.slots[i].mac != peer
  {
    hide TimedOut;
    if k > 0 {
      PeersAfterCheck(s, now, k - 1, peer);
    }
  }

  // ----- Since the last registration -----

  // Event j is the latest sign since registration r.
  ghost predicate LatestSign(events: seq<Event>, r: int, id: int, j: int)
    requires 0 <= r < |events|
  {
    r <= j < |events| && Sign(events, r, id, j) && forall i :: j < i < |events| ==> !Sign(events, r, id, i)
  }

  ghost predicate Since(events: seq<Event>, r: int, mac: Mac, id: int, s: State)
    requires 0 <= r < |events|
  {
    && (Holds(s, mac, id) <==> AlwaysHeard(events, r, id))
    && (Holds(s, mac, id) ==>
      exists j :: LatestSign(events, r, id, j) && s.slots[id - 1].lastHeartbeatMs == events[j].now)
  }

  lemma AlwaysHeardSnoc(events: seq<Event>, r: int, id: int, n: int)
    requires 0 <= r < n == |events| - 1
    ensures AlwaysHeard(events, r, id) <==>
      AlwaysHeard(events[..n], r, id) && (events[n].TimeoutCheck? ==> Heard(events, r, id, n))
  {
    var init := events[..n];
    forall i | r < i < n ensures Heard(events, r, id, i) <==> Heard(init, r, id, i) {
      assert forall j :: r <= j < i ==> Sign(events, r, id, j) == Sign(init, r, id, j) && events[j].now == init[j].now;
    }
  }

  lemma LatestSignSnoc(events: seq<Event>, r: int, id: int, n: int, j: int)
    requires 0 <= r < n == |events| - 1 && LatestSign(events[..n], r, id, j)
    ensures if Sign(events, r, id, n) then LatestSign(events, r, id, n) else LatestSign(events, r, id, j)
    ensures events[..n][j] == events[j] && Sign(events, r, id, j)
  {
    assert forall i :: 0 <= i < n ==> Sign(events, r, id, i) == Sign(events[..n], r, id, i);
  }

  // A check hears of the slave exactly if the latest sign is young enough.
  lemma HeardIsLatest(events: seq<Event>, r: int, id: int, n: int, j: int)
    requires Clock(events) && 0 <= r < n == |events| - 1 && LatestSign(events[..n], r, id, j)
    ensures Heard(events, r, id, n) <==> events[n].now - events[j].now <= 15000
  {
    LatestSignSnoc(events, r, id, n, j);
    if Heard(events, r, id, n) {
      var i :| r <= i < n && Sign(events, r, id, i) && events[n].now - events[i].now <= 15000;
      assert Sign(events[..n], r, id, i);
      assert i <= j && events[i].now <= events[j].now;
    }
  }

  lemma AgeIsDifference(slot: Slot, now: int)
    requires 0 <= slot.lastHeartbeatMs <= now < TWO_TO_64
    ensures TimedOut(slot, now) <==> slot.active && now - slot.lastHeartbeatMs > 15000
  {}

  lemma SinceStep(events: seq<Event>, r: int, mac: Mac, id: int, n: int, s: State)
    requires Clock(events) && 0 <= r < n == |events| - 1 && Inv(s) && !Registers(events[n], mac)
    requires Since(events[..n], r, mac, id, s)
    ensures Since(events, r, mac, id, Step(s, events[n]).0)
  {
    hide Step, AlwaysHeard, Heard, TimedOut, Inv;
    OtherEvent(s, events[n], mac, id);
    AlwaysHeardSnoc(events, r, id, n);
    if Holds(s, mac, id) {
      var j :| LatestSign(events[..n], r, id, j) && s.slots[id - 1].lastHeartbeatMs == events[..n][j].now;
      LatestSignSnoc(events, r, id, n, j);
      HeardIsLatest(events, r, id, n, j);
      assert events[j].now <= events[n].now;
      AgeIsDifference(s.slots[id - 1], events[n].now);
    }
  }

  lemma JustRegistered(events: seq<Event>, r: int, mac: Mac, id: int)
    requires LastRegistered(events, r, mac, id) && r == |events| - 1
    ensures Since(events, r, mac, id, Run(events))
  {
    hide Step;
    AlwaysInv(events[..r]);
    OwnRegistration(Run(events[..r]), events[r], mac, id);
    assert LatestSign(events, r, id, r);
  }

  lemma {:induction false} SinceRegistration(events: seq<Event>, r: int, mac: Mac, id: int)
    requires Clock(events) && LastRegistered(events, r, mac, id)
    ensures 0 <= r < |events| && Since(events, r, mac, id, Run(events))
    decreases |events|
  {
    hide *;
    WhereRegistered(events, r, mac, id);
    var n := |events| - 1;
    if n == r {
      JustRegistered(events, r, mac, id);
    } else {
      LastRegisteredOfPrefix(events, r, mac, id, n);
      ClockOfPrefix(events, n);
      SinceRegistration(events[..n], r, mac, id);
      AlwaysInv(events[..n]);
      SinceStep(events, r, mac, id, n, Run(events[..n]));
      LastStep(events);
    }
  }

  lemma ClockOfPrefix(events: seq<Event>, n: int)
    requires Clock(events) && 0 <= n <= |events|
    ensures Clock(events[..n])
  {}

  lemma LastStep(events: seq<Event>)
    requires events != []
    ensures Run(events) == Step(Run(events[..|events| - 1]), events[|events| - 1]).0
  {}

  lemma WhereRegistered(events: seq<Event>, r: int, mac: Mac, id: int)
    requires LastRegistered(events, r, mac, id)
    ensures 0 <= r < |events|
  {}

  lemma LastRegisteredOfPrefix(events: seq<Event>, r: int, mac: Mac, id: int, n: int)
    requires 0 <= r < n == |events| - 1
    ensures LastRegistered(events, r, mac, id) <==>
      LastRegistered(events[..n], r, mac, id) && !Registers(events[n], mac)
  {
    hide Step;
    var init := events[..n];
    assert init[..r] == events[..r] && forall i :: 0 <= i < n ==> init[i] == events[i];
  }

  // A held slot was taken by a registration, and its id was the answer.
  lemma {:induction false} HeldWasRegistered(events: seq<Event>, mac: Mac, id: int)
    requires Holds(Run(events), mac, id)
    ensures exists r :: LastRegistered(events, r, mac, id)
  {
    hide Step;
    if events != [] {
      var n := |events| - 1;
      AlwaysInv(events[..n]);
      if Registers(events[n], mac) {
        OwnRegistration(Run(events[..n]), events[n], mac, id);
        assert LastRegistered(events, n, mac, id);
      } else {
        OtherEvent(Run(events[..n]), events[n], mac, id);
        HeldWasRegistered(events[..n], mac, id);
        var r :| LastRegistered(events[..n], r, mac, id);
        LastRegisteredOfPrefix(events, r, mac, id, n);
      }
    }
  }

  // An address holds the slot with an id exactly if that id was the answer to its last
  // registration and every timeout check since came at most 15 s after this registration or after
  // a heartbeat with the id: heartbeats in time keep a slave, and nothing else does.
  lemma HeldExactlyWhen(events: seq<Event>, mac: Mac, id: int)
    requires Clock(events)
    ensures Holds(Run(events), mac, id) <==>
      exists r :: LastRegistered(events, r, mac, id) && AlwaysHeard(events, r, id)
  {
    hide Run, AlwaysHeard, LastRegistered, Holds;
    if Holds(Run(events), mac, id) {
      HeldWasRegistered(events, mac, id);
    }
    forall r | LastRegistered(events, r, mac, id)
      ensures 0 <= r < |events| && (Holds(Run(events), mac, id) <==> AlwaysHeard(events, r, id))
    {
      SinceRegistration(events, r, mac, id);
    }
  }
}
