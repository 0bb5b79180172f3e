/**
 The master's registry of slaves: registration, heartbeats, timeouts. Messages may be lost,
 repeated or reordered on the air; each handler is one atomic step on what arrives.
 */
module ClusterRegistry {
  const CLUSTER_MAX_SLAVES := 8
  const CLUSTER_SLAVE_TIMEOUT_MS := 15000
  const TWO_TO_64 := 0x1_0000_0000_0000_0000

  type Mac = nat

  datatype Telemetry = Telemetry(hashrate: int, temp: real, fanRpm: int, shares: int, frequency: int, coreVoltage: int,
    power: real, voltageIn: real)

  const NO_TELEMETRY := Telemetry(0, 0.0, 0, 0, 0, 0, 0.0, 0.0)

  datatype Slot = Slot(active: bool, slaveId: int, mac: Mac, hostname: string, ipAddr: string, telemetry: Telemetry,
    lastHeartbeatMs: int, registeredAtMs: int)

  const FREE_SLOT := Slot(false, 0, 0, "", "", NO_TELEMETRY, 0, 0)

  datatype Ack = Ack(slaveId: int, accepted: bool, hostname: string)

  datatype Sent = Sent(to: Mac, ack: Ack)

  // The slots, and the peers known to the radio.
  datatype State = State(slots: seq<Slot>, peers: set<Mac>)

  datatype Event =
    | Register(hostname: string, ipAddr: string, mac: Mac, now: int)
    | Heartbeat(slaveId: int, telemetry: Telemetry, mac: Mac, now: int)
    | TimeoutCheck(now: int)

  function Initial(): State { State(seq(CLUSTER_MAX_SLAVES, _ => FREE_SLOT), {}) }

  // ----- Handlers on values -----

  // The first slot at or after i that satisfies the test, or |slots|.
  function First(slots: seq<Slot>, test: Slot -> bool, i: nat): (k: nat)
    requires i <= |slots|
    ensures i <= k <= |slots| && (k < |slots| ==> test(slots[k])) && forall j :: i <= j < k ==> !test(slots[j])
    decreases |slots| - i
  {
    if i == |slots| || test(slots[i]) then i else First(slots, test, i + 1)
  }

  function HasMac(mac: Mac): Slot -> bool { (s: Slot) => s.active && s.mac == mac }

  function HasId(id: int): Slot -> bool { (s: Slot) => s.active && s.slaveId == id }

  function IsFree(): Slot -> bool { (s: Slot) => !s.active }

  function OnRegister(s: State, hostname: string, ipAddr: string, mac: Mac, now: int): (State, seq<Sent>) {
    var known := First(s.slots, HasMac(mac), 0);
    if known < |s.slots| then
      var slot := s.slots[known].(hostname := hostname, ipAddr := ipAddr, lastHeartbeatMs := now);
      (s.(slots := s.slots[known := slot]), [Sent(mac, Ack(slot.slaveId, true, hostname))])
    else
      var free := First(s.slots, IsFree(), 0);
      if free == |s.slots| then (s, [Sent(mac, Ack(0, false, ""))])
      else
        (State(s.slots[free := Slot(true, free + 1, mac, hostname, ipAddr, NO_TELEMETRY, now, now)], s.peers + {mac}),
         [Sent(mac, Ack(free + 1, true, hostname))])
  }

  function OnHeartbeat(s: State, id: int, telemetry: Telemetry, mac: Mac, now: int): (State, seq<Sent>) {
    var i := First(s.slots, HasId(id), 0);
    if i < |s.slots| then (s.(slots := s.slots[i := s.slots[i].(telemetry := telemetry, lastHeartbeatMs := now)]), [])
    else (s.(peers := s.peers + {mac}), [Sent(mac, Ack(0, false, ""))])
  }

  // Age as an unsigned 64-bit difference.
  predicate TimedOut(slot: Slot, now: int) {
    slot.active && (now - slot.lastHeartbeatMs) % TWO_TO_64 > CLUSTER_SLAVE_TIMEOUT_MS
  }

  // The first k slots checked.
  function Checked(s: State, now: int, k: nat): State
    requires k <= |s.slots|
  {
    if k == 0 then s
    else
      var t := Checked(s, now, k - 1);
      if TimedOut(s.slots[k - 1], now) then
        State(if k - 1 < |t.slots| then t.slots[k - 1 := FREE_SLOT] else t.slots, t.peers - {s.slots[k - 1].mac})
      else t
  }

  function Step(s: State, e: Event): (State, seq<Sent>) {
    match e
    case Register(hostname, ipAddr, mac, now) => OnRegister(s, hostname, ipAddr, mac, now)
    case Heartbeat(id, telemetry, mac, now) => OnHeartbeat(s, id, telemetry, mac, now)
    case TimeoutCheck(now) => (Checked(s, now, |s.slots|), [])
  }

  function ActiveCount(slots: seq<Slot>, k: nat): (n: nat)
    requires k <= |slots|
    ensures n <= k
  {
    if k == 0 then 0 else ActiveCount(slots, k - 1) + if slots[k - 1].active then 1 else 0
  }

  // ----- The program -----

  class Registry {
    const slots: array<Slot>
    var peers: set<Mac>
    var outbox: seq<Sent>

    function Contents(): State
      reads this, slots
    {
      State(slots[..], peers)
    }

    constructor ()
      ensures Contents() == Initial() && outbox == [] && fresh(slots)
    {
      slots := new Slot[CLUSTER_MAX_SLAVES](_ => FREE_SLOT);
      peers, outbox := {}, [];
    }

    method Register(hostname: string, ipAddr: string, mac: Mac, now: int)
      modifies this, slots
      ensures var (t, sent) := OnRegister(old(Contents()), hostname, ipAddr, mac, now);
        Contents() == t && outbox == old(outbox) + sent
    {
      var i := 0;
      while i < slots.Length && !(slots[i].active && slots[i].mac == mac)
        invariant 0 <= i <= slots.Length && First(slots[..], HasMac(mac), 0) == First(slots[..], HasMac(mac), i)
      {
        i := i + 1;
      }
      if i < slots.Length {
        slots[i] := slots[i].(hostname := hostname, ipAddr := ipAddr, lastHeartbeatMs := now);
        outbox := outbox + [Sent(mac, Ack(slots[i].slaveId, true, hostname))];
        return;
      }
      var free := 0;
      while free < slots.Length && slots[free].active
        invariant 0 <= free <= slots.Length && First(slots[..], IsFree(), 0) == First(slots[..], IsFree(), free)
      {
        free := free + 1;
      }
      if free == slots.Length {
        outbox := outbox + [Sent(mac, Ack(0, false, ""))];
        return;
      }
      slots[free] := Slot(true, free + 1, mac, hostname, ipAddr, NO_TELEMETRY, now, now);
      peers := peers + {mac};
      outbox := outbox + [Sent(mac, Ack(free + 1, true, hostname))];
    }

    method Heartbeat(id: int, telemetry: Telemetry, mac: Mac, now: int)
      modifies this, slots
      ensures var (t, sent) := OnHeartbeat(old(Contents()), id, telemetry, mac, now);
        Contents() == t && outbox == old(outbox) + sent
    {
      var i := 0;
      while i < slots.Length && !(slots[i].active && slots[i].slaveId == id)
        invariant 0 <= i <= slots.Length && First(slots[..], HasId(id), 0) == First(slots[..], HasId(id), i)
      {
        i := i + 1;
      }
      if i < slots.Length {
        slots[i] := slots[i].(telemetry := telemetry, lastHeartbeatMs := now);
      } else {
        peers := peers + {mac};
        outbox := outbox + [Sent(mac, Ack(0, false, ""))];
      }
    }

    method CountActive() returns (count: nat)
      ensures count == ActiveCount(slots[..], slots.Length)
    {
      count := 0;
      for i := 0 to slots.Length
        invariant count == ActiveCount(slots[..], i)
      {
        if slots[i].active {
          count := count + 1;
        }
      }
    }

    method CheckTimeouts(now: int)
      modifies this, slots
      ensures Contents() == Checked(old(Contents()), now, slots.Length) && outbox == old(outbox)
    {
      ghost var before := Contents();
      for i := 0 to slots.Length
        invariant Contents() == Checked(before, now, i) && outbox == old(outbox)
        invariant forall k :: i <= k < slots.Length ==> slots[k] == before.slots[k]
      {
        if slots[i].active && (now - slots[i].lastHeartbeatMs) % TWO_TO_64 > CLUSTER_SLAVE_TIMEOUT_MS {
          peers := peers - {slots[i].mac};
          slots[i] := FREE_SLOT;
        }
      }
    }
  }

  // ----- What holds in every reachable state -----

  predicate Inv(s: State) {
    && |s.slots| == CLUSTER_MAX_SLAVES
    && (forall i :: 0 <= i < |s.slots| && s.slots[i].active ==>
      s.slots[i].slaveId == i + 1 && s.slots[i].mac in s.peers)
    && forall i, j :: 0 <= i < j < |s.slots| && s.slots[i].active && s.slots[j].active ==>
      s.slots[i].mac != s.slots[j].mac
  }

  // An accepted acknowledgement with id k goes to the address that slot k - 1 holds.
  predicate AcksAreRight(s: State, sent: seq<Sent>) {
    forall m :: m in sent && m.ack.accepted ==>
      1 <= m.ack.slaveId <= |s.slots| && s.slots[m.ack.slaveId - 1].active && s.slots[m.ack.slaveId - 1].mac == m.to
  }

  lemma RegisterKeeps(s: State, hostname: string, ipAddr: string, mac: Mac, now: int)
    requires Inv(s)
    ensures var (t, sent) := OnRegister(s, hostname, ipAddr, mac, now); Inv(t) && AcksAreRight(t, sent)
  {
    hide First;
  }

  lemma HeartbeatKeeps(s: State, id: int, telemetry: Telemetry, mac: Mac, now: int)
    requires Inv(s)
    ensures var (t, sent) := OnHeartbeat(s, id, telemetry, mac, now); Inv(t) && AcksAreRight(t, sent)
  {
    hide First;
  }

  // Part of the way through a timeout check: who stays is still a peer, because all addresses differ.
  lemma {:induction false} CheckedKeeps(s: State, now: int, k: nat)
    requires Inv(s) && k <= |s.slots|
    ensures Inv(Checked(s, now, k))
    ensures forall i :: 0 <= i < |s.slots| ==>
      Checked(s, now, k).slots[i] == if i < k && TimedOut(s.slots[i], now) then FREE_SLOT else s.slots[i]
  {
    hide TimedOut;
    if k > 0 {
      CheckedKeeps(s, now, k - 1);
      var t, gone := Checked(s, now, k), s.slots[k - 1];
      forall i | 0 <= i < |t.slots| && t.slots[i].active ensures t.slots[i].mac in t.peers {
        if TimedOut(gone, now) {
          assert s.slots[i].active && s.slots[i].mac != gone.mac by {
            TimedOutIsActive(gone, now);
          }
        }
      }
    }
  }

  lemma TimedOutIsActive(slot: Slot, now: int)
    requires TimedOut(slot, now)
    ensures slot.active
  {}

  lemma StepKeeps(s: State, e: Event)
    requires Inv(s)
    ensures Inv(Step(s, e).0) && AcksAreRight(Step(s, e).0, Step(s, e).1)
  {
    hide Inv, AcksAreRight, OnRegister, OnHeartbeat, Checked;
    match e
    case Register(hostname, ipAddr, mac, now) => RegisterKeeps(s, hostname, ipAddr, mac, now);
    case Heartbeat(id, telemetry, mac, now) => HeartbeatKeeps(s, id, telemetry, mac, now);
    case TimeoutCheck(now) => {
      SlotCount(s);
      CheckedKeeps(s, now, |s.slots|);
      NothingSent(Checked(s, now, |s.slots|));
    }
  }

  lemma SlotCount(s: State)
    requires Inv(s)
    ensures |s.slots| == CLUSTER_MAX_SLAVES
  {}

  lemma NothingSent(s: State)
    ensures AcksAreRight(s, [])
  {}

  function Run(events: seq<Event>): State {
    if events == [] then Initial() else Step(Run(events[..|events| - 1]), events[|events| - 1]).0
  }

  lemma {:induction false} AlwaysInv(events: seq<Event>)
    ensures Inv(Run(events))
  {
    hide Step;
    if events != [] {
      hide Inv;
      AlwaysInv(events[..|events| - 1]);
      StepKeeps(Run(events[..|events| - 1]), events[|events| - 1]);
    }
  }

  // Every acknowledgement ever sent went to the right address.
  lemma EveryAckIsRight(events: seq<Event>, i: nat)
    requires i < |events|
    ensures AcksAreRight(Run(events[..i + 1]), Step(Run(events[..i]), events[i]).1)
  {
    hide Step, Inv, AcksAreRight;
    AlwaysInv(events[..i]);
    StepKeeps(Run(events[..i]), events[i]);
    assert events[..i + 1][..i] == events[..i];
  }

  // A slave that registers again, having lost its answer, gets the same id.
  lemma RegisterAgain(s: State, mac: Mac, first: string, ip1: string, t1: int, second: string, ip2: string, t2: int)
    requires Inv(s)
    ensures var (s1, sent1) := OnRegister(s, first, ip1, mac, t1);
      var (s2, sent2) := OnRegister(s1, second, ip2, mac, t2);
      && |sent1| == |sent2| == 1 && sent1[0].ack.slaveId == sent2[0].ack.slaveId
      && sent1[0].ack.accepted == sent2[0].ack.accepted
      && s2.peers == s1.peers
  {
    hide First;
    RegisterKeeps(s, first, ip1, mac, t1);
    var (s1, sent1) := OnRegister(s, first, ip1, mac, t1);
    if sent1[0].ack.accepted {
      var i := sent1[0].ack.slaveId - 1;
      assert s1.slots[i].active && s1.slots[i].mac == mac;
      assert First(s1.slots, HasMac(mac), 0) == i;
    }
  }

  // A slave is turned away only when all eight slots are taken by others.
  lemma RejectedOnlyWhenFull(s: State, hostname: string, ipAddr: string, mac: Mac, now: int)
    requires Inv(s)
    ensures var (t, sent) := OnRegister(s, hostname, ipAddr, mac, now);
      && |sent| == 1
      && (!sent[0].ack.accepted <==> forall i :: 0 <= i < |s.slots| ==> s.slots[i].active && s.slots[i].mac != mac)
      && (!sent[0].ack.accepted ==> t == s)
  {
    hide First;
  }
}
