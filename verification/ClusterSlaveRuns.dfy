/**
 What a slave's membership means over whole runs: messages arrive in any order, some never, some
 repeatedly, and each handler is one atomic step.
 */
module ClusterSlaveRuns {
  import opened ClusterProtocol
  import opened ClusterSlave
  import Master = ClusterRegistry

  datatype Event =
    | AckReceived(ack: Master.Ack, now: int)
    | WorkReceived(work: Work, now: int)
    | ReconnectCheck(now: int)
    | WorkTaken(now: int)

  function Step(m: Member, e: Event): Member {
    match e
    case AckReceived(ack, now) => Acknowledged(m, ack, now)
    case WorkReceived(work, now) => Supplied(m, work, now)
    case ReconnectCheck(now) => Rechecked(m, now)
    case WorkTaken(_) => Dequeued(m)
  }

  function Run(events: seq<Event>): Member {
    if events == [] then NEW_MEMBER else Step(Run(events[..|events| - 1]), events[|events| - 1])
  }

  // ----- Whom the slave takes itself for -----

  // Event k is the last acknowledgement.
  ghost predicate LastAck(events: seq<Event>, k: int) {
    0 <= k < |events| && events[k].AckReceived? && forall i :: k < i < |events| ==> !events[i].AckReceived?
  }

  ghost predicate EnrolledBy(events: seq<Event>, k: int) { LastAck(events, k) && events[k].ack.accepted }

  // Event j is a sign of the master to a slave enrolled by acknowledgement k.
  predicate Sign(events: seq<Event>, k: int, j: int)
    requires 0 <= k < |events| && events[k].AckReceived? && 0 <= j < |events|
  {
    j == k || (events[j].WorkReceived? && IsFor(events[j].work, events[k].ack.slaveId))
  }

  // Such a sign came at most 20 s before check i.
  ghost predicate Heard(events: seq<Event>, k: int, i: int)
    requires 0 <= k < i < |events| && events[k].AckReceived?
  {
    exists j :: k <= j < i && Sign(events, k, j) && events[i].now - events[j].now <= CLUSTER_WORK_TIMEOUT_MS
  }

  ghost predicate AlwaysHeard(events: seq<Event>, k: int)
    requires 0 <= k < |events| && events[k].AckReceived?
  {
    forall i :: k < i < |events| && events[i].ReconnectCheck? ==> Heard(events, k, i)
  }

  // The clock has left 0 and does not run backwards.
  predicate Clock(events: seq<Event>) {
    && (forall i :: 0 <= i < |events| ==> 0 < events[i].now < Master.TWO_TO_64)
    && forall i, j :: 0 <= i < j < |events| ==> events[i].now <= events[j].now
  }

  // Event j is the latest sign since acknowledgement k.
  ghost predicate LatestSign(events: seq<Event>, k: int, j: int)
    requires 0 <= k < |events| && events[k].AckReceived?
  {
    k <= j < |events| && Sign(events, k, j) && forall i :: j < i < |events| ==> !Sign(events, k, i)
  }

  // What holds since the last acknowledgement, if it was accepting.
  ghost predicate Since(events: seq<Event>, k: int, m: Member)
    requires 0 <= k < |events| && events[k].AckReceived?
  {
    && m.slaveId == events[k].ack.slaveId
    && (m.registered <==> AlwaysHeard(events, k))
    && (m.registered ==> exists j :: LatestSign(events, k, j) && m.lastWorkMs == events[j].now)
  }

  lemma AlwaysHeardSnoc(events: seq<Event>, k: int, n: int)
    requires 0 <= k < n == |events| - 1 && events[k].AckReceived?
    ensures events[..n][k] == events[k]
    ensures AlwaysHeard(events, k) <==>
      AlwaysHeard(events[..n], k) && (events[n].ReconnectCheck? ==> Heard(events, k, n))
  {
    var init := events[..n];
    forall i | k < i < n ensures Heard(events, k, i) <==> Heard(init, k, i) {
      assert forall j :: k <= j < i ==> Sign(events, k, j) == Sign(init, k, j) && events[j].now == init[j].now;
    }
  }

  lemma LatestSignSnoc(events: seq<Event>, k: int, n: int, j: int)
    requires 0 <= k < n == |events| - 1 && events[k].AckReceived? && events[..n][k] == events[k]
    requires LatestSign(events[..n], k, j)
    ensures if Sign(events, k, n) then LatestSign(events, k, n) else LatestSign(events, k, j)
    ensures events[..n][j] == events[j] && Sign(events, k, j)
  {
    var init := events[..n];
    assert forall i :: 0 <= i < n ==> Sign(events, k, i) == Sign(init, k, i);
  }

  // A check hears of the master exactly if the latest sign is young enough.
  lemma HeardIsLatest(events: seq<Event>, k: int, n: int, j: int)
    requires Clock(events) && 0 <= k < n == |events| - 1 && events[k].AckReceived? && events[..n][k] == events[k]
    requires LatestSign(events[..n], k, j)
    ensures Heard(events, k, n) <==> events[n].now - events[j].now <= CLUSTER_WORK_TIMEOUT_MS
  {
    LatestSignSnoc(events, k, n, j);
    var init := events[..n];
    if Heard(events, k, n) {
      var i :| k <= i < n && Sign(events, k, i) && events[n].now - events[i].now <= CLUSTER_WORK_TIMEOUT_MS;
      assert Sign(init, k, i);
      assert i <= j && events[i].now <= events[j].now;
    }
  }

  lemma {:induction false} SinceLastAck(events: seq<Event>, k: int)
    requires Clock(events) && EnrolledBy(events, k)
    ensures Since(events, k, Run(events))
    decreases |events|
  {
    hide Step, AlwaysHeard, Heard, Sign, Run, IsFor;
    var n := |events| - 1;
    var init := events[..n];
    RunSnoc(events, n);
    if n == k {
      JustAcknowledged(events, k, Run(init));
    } else {
      assert init[k] == events[k];
      SinceLastAck(init, k);
      AlwaysHeardSnoc(events, k, n);
      SinceStep(events, k, n, Run(init));
    }
  }

  lemma JustAcknowledged(events: seq<Event>, k: int, m: Member)
    requires |events| == k + 1 > 0 && events[k].AckReceived? && events[k].ack.accepted
    ensures Since(events, k, Step(m, events[k]))
  {
    assert LatestSign(events, k, k);
  }

  lemma SinceStep(events: seq<Event>, k: int, n: int, m: Member)
    requires Clock(events) && 0 <= k < n == |events| - 1 && events[k].AckReceived? && !events[n].AckReceived?
    requires events[..n][k] == events[k] && Since(events[..n], k, m)
    requires AlwaysHeard(events, k) <==>
      AlwaysHeard(events[..n], k) && (events[n].ReconnectCheck? ==> Heard(events, k, n))
    ensures Since(events, k, Step(m, events[n]))
  {
    hide AlwaysHeard, Heard;
    if m.registered {
      var j :| LatestSign(events[..n], k, j) && m.lastWorkMs == events[..n][j].now;
      LatestSignSnoc(events, k, n, j);
      HeardIsLatest(events, k, n, j);
      assert events[j].now <= events[n].now;
    }
  }

  lemma RunSnoc(events: seq<Event>, i: int)
    requires 0 <= i < |events|
    ensures Run(events[..i + 1]) == Step(Run(events[..i]), events[i]) && events[..|events|] == events
  {
    assert events[..i + 1][..i] == events[..i];
  }

  // A registered slave was enrolled by the last acknowledgement, and has its id.
  lemma {:induction false} IdOfLastAck(events: seq<Event>)
    ensures Run(events).registered ==> exists k :: EnrolledBy(events, k) && Run(events).slaveId == events[k].ack.slaveId
  {
    if events != [] {
      var n := |events| - 1;
      IdOfLastAck(events[..n]);
      if events[n].AckReceived? {
        assert LastAck(events, n);
      } else if Run(events).registered {
        var k :| EnrolledBy(events[..n], k) && Run(events[..n]).slaveId == events[..n][k].ack.slaveId;
        assert EnrolledBy(events, k);
      }
    }
  }

  // A slave takes itself for registered exactly if the last acknowledgement it received was
  // accepting and it has heard of the master within the last 20 s at every check since; and then
  // its id is that of this acknowledgement.
  lemma RegisteredExactlyWhen(events: seq<Event>)
    requires Clock(events)
    ensures Run(events).registered <==> exists k :: EnrolledBy(events, k) && AlwaysHeard(events, k)
    ensures Run(events).registered ==>
      exists k :: EnrolledBy(events, k) && Run(events).slaveId == events[k].ack.slaveId
  {
    hide Run, AlwaysHeard;
    IdOfLastAck(events);
    if k :| EnrolledBy(events, k) {
      SinceLastAck(events, k);
      forall i | EnrolledBy(events, i) ensures i == k {
        OneLastAck(events, i, k);
      }
    }
  }

  lemma OneLastAck(events: seq<Event>, i: int, k: int)
    requires LastAck(events, i) && LastAck(events, k)
    ensures i == k && events[k].AckReceived?
  {}

  // ----- The work that is processed -----

  // In event i the slave accepts work.
  predicate AcceptsAt(events: seq<Event>, i: nat)
    requires i < |events|
  {
    events[i].WorkReceived? && Accepts(Run(events[..i]), events[i].work)
  }

  // Accepted work is addressed to all, or to the id of the last acknowledgement before it.
  lemma AcceptedWorkIsAddressed(events: seq<Event>, i: nat)
    requires i < |events| && AcceptsAt(events, i)
    ensures exists k :: 0 <= k < i && EnrolledBy(events[..i], k) && IsFor(events[i].work, events[k].ack.slaveId)
  {
    hide Run;
    IdOfLastAck(events[..i]);
    var k :| EnrolledBy(events[..i], k) && Run(events[..i]).slaveId == events[..i][k].ack.slaveId;
    assert events[..i][k] == events[k];
  }

  // All work that entered the queue, and all that was taken from it.
  function Entered(events: seq<Event>): seq<Work> {
    if events == [] then []
    else
      var n := |events| - 1;
      Entered(events[..n])
      + if AcceptsAt(events, n) && |Run(events[..n]).queue| < WORK_QUEUE_SIZE then [events[n].work] else []
  }

  function Taken(events: seq<Event>): seq<Work> {
    if events == [] then []
    else
      var n := |events| - 1;
      Taken(events[..n])
      + if events[n].WorkTaken? && Run(events[..n]).queue != [] then [Run(events[..n]).queue[0]] else []
  }

  // Work is processed in the order in which it was accepted; none is lost or repeated.
  lemma {:induction false} QueueIsInOrder(events: seq<Event>)
    ensures Entered(events) == Taken(events) + Run(events).queue && |Run(events).queue| <= WORK_QUEUE_SIZE
  {
    if events != [] {
      var n := |events| - 1;
      QueueIsInOrder(events[..n]);
      QueueStep(events[n], Run(events[..n]), Taken(events[..n]));
    }
  }

  lemma QueueStep(e: Event, m: Member, taken: seq<Work>)
    requires |m.queue| <= WORK_QUEUE_SIZE
    ensures var accepted := e.WorkReceived? && Accepts(m, e.work) && |m.queue| < WORK_QUEUE_SIZE;
      (taken + m.queue) + (if accepted then [e.work] else [])
      == (taken + if e.WorkTaken? && m.queue != [] then [m.queue[0]] else []) + Step(m, e).queue
    ensures |Step(m, e).queue| <= WORK_QUEUE_SIZE
  {}

  // ----- Together with the master -----

  // Every acknowledgement that reaches this slave was sent to its address by the registry.
  ghost predicate Delivered(events: seq<Event>, registry: seq<Master.Event>, mac: Master.Mac) {
    forall i :: 0 <= i < |events| && events[i].AckReceived? ==> SentAt(registry, mac, events[i].ack)
  }

  ghost predicate SentAt(registry: seq<Master.Event>, mac: Master.Mac, ack: Master.Ack) {
    exists r :: 0 <= r < |registry| && Master.Sent(mac, ack) in Master.Step(Master.Run(registry[..r]), registry[r]).1
  }

  // At some time the slot with this id was held by the address.
  ghost predicate Held(registry: seq<Master.Event>, mac: Master.Mac, id: int) {
    exists r :: HoldsAfter(registry, r, mac, id)
  }

  predicate HoldsAfter(registry: seq<Master.Event>, r: int, mac: Master.Mac, id: int) {
    && 0 <= r < |registry|
    && var s := Master.Run(registry[..r + 1]);
      1 <= id <= |s.slots| && s.slots[id - 1].active && s.slots[id - 1].mac == mac
  }

  // Work that a slave accepts and that is addressed to one id, the registry had given that id to
  // this very slave: whatever the network lost, repeated or delayed.
  lemma AcceptedWorkWasAssigned(events: seq<Event>, i: nat, registry: seq<Master.Event>, mac: Master.Mac)
    requires i < |events| && AcceptsAt(events, i) && Delivered(events, registry, mac)
    requires events[i].work.targetSlaveId != BROADCAST_ID
    ensures Held(registry, mac, events[i].work.targetSlaveId)
  {
    hide Run, Master.Run, Master.Step;
    AcceptedWorkIsAddressed(events, i);
    var k :| 0 <= k < i && EnrolledBy(events[..i], k) && IsFor(events[i].work, events[k].ack.slaveId);
    assert events[..i][k] == events[k];
    AckMeansHeld(registry, mac, events[k].ack);
  }

  lemma AckMeansHeld(registry: seq<Master.Event>, mac: Master.Mac, ack: Master.Ack)
    requires SentAt(registry, mac, ack) && ack.accepted
    ensures Held(registry, mac, ack.slaveId)
  {
    hide Master.Run, Master.Step;
    var r :| 0 <= r < |registry| && Master.Sent(mac, ack) in Master.Step(Master.Run(registry[..r]), registry[r]).1;
    Master.EveryAckIsRight(registry, r);
    assert HoldsAfter(registry, r, mac, ack.slaveId);
  }
}
