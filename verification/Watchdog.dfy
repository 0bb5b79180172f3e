/**
 Safety watchdog: throttles a device that is too hot or short of input voltage, and recovers it
 in steps once conditions have been safe for a while.
 */
module Watchdog {
  const WATCHDOG_TEMP_THRESHOLD := 68.0
  const WATCHDOG_VIN_THRESHOLD := 4.75
  const WATCHDOG_TEMP_RECOVERY_THRESHOLD := 62.0
  const WATCHDOG_VIN_RECOVERY_THRESHOLD := 4.9
  const WATCHDOG_FREQ_STEP := 50
  const WATCHDOG_VOLTAGE_STEP := 50
  const WATCHDOG_MIN_FREQUENCY := 400
  const WATCHDOG_MIN_VOLTAGE := 1100
  const WATCHDOG_RECOVERY_STABILITY_MS := 30000
  const WATCHDOG_RECOVERY_INTERVAL_MS := 10000
  const CHECK_INTERVAL_MS := 5000
  const CLUSTER_MAX_SLAVES := 8

  // What one check sees: readings, and the clock at its three places.
  datatype Check = Check(temp: real, vin: real, freq: nat, volt: nat, now: int, nowThrottle: int, nowRecover: int) {
    predicate TooHot() { temp >= WATCHDOG_TEMP_THRESHOLD }

    predicate TooLow() { 0.0 < vin <= WATCHDOG_VIN_THRESHOLD }

    predicate Unsafe() { TooHot() || TooLow() }

    predicate Safe() {
      !Unsafe() && temp <= WATCHDOG_TEMP_RECOVERY_THRESHOLD && (vin <= 0.0 || vin >= WATCHDOG_VIN_RECOVERY_THRESHOLD)
    }
  }

  datatype Reason = Reason(temp: bool, vin: bool)

  const NO_REASON := Reason(false, false)

  datatype Status = Status(isThrottled: bool, isRecovering: bool, wasRecovered: bool, reason: Reason,
    originalFrequency: nat, originalVoltage: nat, recoveryFrequency: nat, recoveryVoltage: nat,
    currentFrequency: nat, currentVoltage: nat, throttleCount: nat,
    lastThrottleTime: int, safeSince: int, lastRecoveryTime: int)
  {
    function TargetFrequency(): nat { if recoveryFrequency != 0 then recoveryFrequency else originalFrequency }

    function TargetVoltage(): nat { if recoveryVoltage != 0 then recoveryVoltage else originalVoltage }
  }

  function Initial(): Status { Status(false, false, false, NO_REASON, 0, 0, 0, 0, 0, 0, 0, 0, 0, 0) }

  // ----- One check, on values -----

  // One step down from x, not below the floor; a value at or below the floor stays.
  function Lowered(x: nat, step: nat, floor: nat): nat {
    if x > floor then (if x - step > floor then x - step else floor) else x
  }

  // One step up from x, not past the target.
  function Raised(x: nat, step: nat, target: nat): nat {
    if x < target then (if x + step < target then x + step else target) else x
  }

  // The recovery target after the device had to be throttled again.
  function LoweredTarget(target: nat, step: nat, floor: nat): nat {
    if target > floor + step then target - step else floor
  }

  function Begun(s: Status, c: Check): Status {
    if s.isThrottled then s
    else
      var t := s.(originalFrequency := c.freq, originalVoltage := c.volt);
      if s.wasRecovered then
        t.(recoveryFrequency := LoweredTarget(s.recoveryFrequency, WATCHDOG_FREQ_STEP, WATCHDOG_MIN_FREQUENCY),
           recoveryVoltage := LoweredTarget(s.recoveryVoltage, WATCHDOG_VOLTAGE_STEP, WATCHDOG_MIN_VOLTAGE),
           wasRecovered := false)
      else t.(recoveryFrequency := c.freq, recoveryVoltage := c.volt)
  }

  // sent tells whether the new values could be put into effect.
  function Throttled(s: Status, c: Check, sent: bool): Status {
    var nf := Lowered(s.currentFrequency, WATCHDOG_FREQ_STEP, WATCHDOG_MIN_FREQUENCY);
    var nv := Lowered(s.currentVoltage, WATCHDOG_VOLTAGE_STEP, WATCHDOG_MIN_VOLTAGE);
    var changed := nf != s.currentFrequency || nv != s.currentVoltage;
    var t := if sent then s.(currentFrequency := nf, currentVoltage := nv) else s;
    if changed || !s.isThrottled then
      t.(isThrottled := true, reason := Reason(c.TooHot(), c.TooLow()), throttleCount := s.throttleCount + 1,
        lastThrottleTime := c.nowThrottle)
    else t
  }

  predicate Waits(s: Status, now: int) {
    s.lastRecoveryTime != 0 && now - s.lastRecoveryTime < WATCHDOG_RECOVERY_INTERVAL_MS
  }

  predicate AtTarget(s: Status) {
    s.currentFrequency >= s.TargetFrequency() && s.currentVoltage >= s.TargetVoltage()
  }

  // The end of an episode.
  function Finished(s: Status): Status {
    s.(isThrottled := false, isRecovering := false, wasRecovered := true, safeSince := 0, lastRecoveryTime := 0)
  }

  function RaisedFrequency(s: Status): nat { Raised(s.currentFrequency, WATCHDOG_FREQ_STEP, s.TargetFrequency()) }

  function RaisedVoltage(s: Status): nat { Raised(s.currentVoltage, WATCHDOG_VOLTAGE_STEP, s.TargetVoltage()) }

  function SteppedUp(s: Status, now: int, sent: bool): Status {
    if sent then
      s.(isRecovering := true, currentFrequency := RaisedFrequency(s), currentVoltage := RaisedVoltage(s),
        lastRecoveryTime := now)
    else s.(isRecovering := true)
  }

  function Recovered(s: Status, c: Check, sent: bool): Status {
    if Waits(s, c.nowRecover) then s
    else if AtTarget(s) then Finished(s)
    else SteppedUp(s, c.nowRecover, sent)
  }

  function Watched(s: Status, c: Check, sent: bool): Status {
    var t := s.(reason := NO_REASON);
    if c.Safe() then
      var u := if s.safeSince == 0 then t.(safeSince := c.now) else t;
      if c.now - u.safeSince >= WATCHDOG_RECOVERY_STABILITY_MS then Recovered(u, c, sent) else u
    else t.(safeSince := 0, isRecovering := false)
  }

  function Step(s: Status, c: Check, sent: bool): Status {
    var t := if s.isThrottled then s else s.(currentFrequency := c.freq, currentVoltage := c.volt);
    if c.Unsafe() then Throttled(Begun(t, c).(safeSince := 0, isRecovering := false), c, sent)
    else if s.isThrottled then Watched(t, c, sent)
    else t
  }

  // ----- A slave's check -----

  // Frequency and voltage a slave is told to take.
  datatype Config = Config(slaveId: int, frequency: nat, voltage: nat)

  datatype SlaveInfo = SlaveInfo(active: bool, slaveId: int, check: Check)

  function SlaveStep(s: Status, info: SlaveInfo, sent: bool): Status {
    if info.active then Step(s, info.check, sent)
    else s.(isThrottled := false, isRecovering := false, safeSince := 0)
  }

  function ThrottleMessages(s: Status, slaveId: int): seq<Config> {
    var nf := Lowered(s.currentFrequency, WATCHDOG_FREQ_STEP, WATCHDOG_MIN_FREQUENCY);
    var nv := Lowered(s.currentVoltage, WATCHDOG_VOLTAGE_STEP, WATCHDOG_MIN_VOLTAGE);
    if nf != s.currentFrequency || nv != s.currentVoltage then [Config(slaveId, nf, nv)] else []
  }

  function RecoveryMessages(s: Status, c: Check, slaveId: int): seq<Config> {
    if Waits(s, c.nowRecover) || AtTarget(s) then []
    else [Config(slaveId, RaisedFrequency(s), RaisedVoltage(s))]
  }

  function SlaveMessages(s: Status, info: SlaveInfo): seq<Config> {
    var c := info.check;
    if !info.active then []
    else
      var t := if s.isThrottled then s else s.(currentFrequency := c.freq, currentVoltage := c.volt);
      if c.Unsafe() then ThrottleMessages(Begun(t, c).(safeSince := 0, isRecovering := false), info.slaveId)
      else if s.isThrottled && c.Safe() && s.safeSince != 0 && c.now - s.safeSince >= WATCHDOG_RECOVERY_STABILITY_MS
      then RecoveryMessages(t.(reason := NO_REASON), c, info.slaveId)
      else []
  }

  // ----- The program -----

  class Device {
    var isThrottled: bool
    var isRecovering: bool
    var wasRecovered: bool
    var throttleReason: Reason
    var originalFrequency: nat
    var originalVoltage: nat
    var recoveryFrequency: nat
    var recoveryVoltage: nat
    var currentFrequency: nat
    var currentVoltage: nat
    var throttleCount: nat
    var lastThrottleTime: int
    var safeSince: int
    var lastRecoveryTime: int

    function Snapshot(): Status
      reads this
    {
      Status(isThrottled, isRecovering, wasRecovered, throttleReason, originalFrequency, originalVoltage,
        recoveryFrequency, recoveryVoltage, currentFrequency, currentVoltage, throttleCount,
        lastThrottleTime, safeSince, lastRecoveryTime)
    }

    constructor ()
      ensures Snapshot() == Initial()
    {
      isThrottled, isRecovering, wasRecovered, throttleReason := false, false, false, NO_REASON;
      originalFrequency, originalVoltage, recoveryFrequency, recoveryVoltage := 0, 0, 0, 0;
      currentFrequency, currentVoltage, throttleCount := 0, 0, 0;
      lastThrottleTime, safeSince, lastRecoveryTime := 0, 0, 0;
    }

    method SetLevels(nf: nat, nv: nat) returns (changed: bool)
      modifies `currentFrequency, `currentVoltage
      ensures currentFrequency == nf && currentVoltage == nv
      ensures changed <==> nf != old(currentFrequency) || nv != old(currentVoltage)
    {
      changed := false;
      if nf != currentFrequency {
        currentFrequency := nf;
        changed := true;
      }
      if nv != currentVoltage {
        currentVoltage := nv;
        changed := true;
      }
    }

    method ThrottleMaster(c: Check, reason: Reason)
      requires reason == Reason(c.TooHot(), c.TooLow())
      modifies `currentFrequency, `currentVoltage, `isThrottled, `throttleReason, `throttleCount, `lastThrottleTime
      ensures Snapshot() == Throttled(old(Snapshot()), c, true)
    {
      var f, v := currentFrequency, currentVoltage;
      var nf := if f > WATCHDOG_MIN_FREQUENCY then Max(WATCHDOG_MIN_FREQUENCY, f - WATCHDOG_FREQ_STEP) else f;
      var nv := if v > WATCHDOG_MIN_VOLTAGE then Max(WATCHDOG_MIN_VOLTAGE, v - WATCHDOG_VOLTAGE_STEP) else v;
      var changed := SetLevels(nf, nv);
      if changed || !isThrottled {
        isThrottled, throttleReason := true, reason;
        throttleCount, lastThrottleTime := throttleCount + 1, c.nowThrottle;
      }
    }

    method FinishRecovery()
      modifies `isThrottled, `isRecovering, `wasRecovered, `safeSince, `lastRecoveryTime
      ensures Snapshot() == Finished(old(Snapshot()))
    {
      isThrottled, isRecovering, wasRecovered := false, false, true;
      safeSince, lastRecoveryTime := 0, 0;
    }

    // The next values on the way to the target.
    method NextLevels(tf: nat, tv: nat) returns (nf: nat, nv: nat)
      requires tf == Snapshot().TargetFrequency() && tv == Snapshot().TargetVoltage()
      modifies `isRecovering
      ensures isRecovering && nf == RaisedFrequency(old(Snapshot())) && nv == RaisedVoltage(old(Snapshot()))
      ensures !AtTarget(old(Snapshot())) ==> nf != currentFrequency || nv != currentVoltage
    {
      var cf, cv := currentFrequency, currentVoltage;
      if !isRecovering {
        isRecovering := true;
      }
      nf := if cf < tf then Min(tf, cf + WATCHDOG_FREQ_STEP) else cf;
      nv := if cv < tv then Min(tv, cv + WATCHDOG_VOLTAGE_STEP) else cv;
    }

    method RecoverMaster(c: Check)
      modifies `isThrottled, `isRecovering, `wasRecovered, `safeSince, `lastRecoveryTime, `currentFrequency,
        `currentVoltage
      ensures Snapshot() == Recovered(old(Snapshot()), c, true)
    {
      hide RaisedFrequency, RaisedVoltage, Finished;
      var now := c.nowRecover;
      if lastRecoveryTime != 0 && now - lastRecoveryTime < WATCHDOG_RECOVERY_INTERVAL_MS {
        return;
      }
      var tf := if recoveryFrequency != 0 then recoveryFrequency else originalFrequency;
      var tv := if recoveryVoltage != 0 then recoveryVoltage else originalVoltage;
      if currentFrequency >= tf && currentVoltage >= tv {
        FinishRecovery();
        return;
      }
      var nf, nv := NextLevels(tf, tv);
      var changed := SetLevels(nf, nv);
      if changed {
        lastRecoveryTime := now;
      }
    }

    // The slave's twins: new values count only once the configuration message is out.
    method ThrottleSlave(c: Check, reason: Reason, slaveId: int, sent: bool) returns (outbox: seq<Config>)
      requires reason == Reason(c.TooHot(), c.TooLow())
      modifies `currentFrequency, `currentVoltage, `isThrottled, `throttleReason, `throttleCount, `lastThrottleTime
      ensures Snapshot() == Throttled(old(Snapshot()), c, sent)
      ensures outbox == ThrottleMessages(old(Snapshot()), slaveId)
    {
      var f, v := currentFrequency, currentVoltage;
      var nf := if f > WATCHDOG_MIN_FREQUENCY then Max(WATCHDOG_MIN_FREQUENCY, f - WATCHDOG_FREQ_STEP) else f;
      var nv := if v > WATCHDOG_MIN_VOLTAGE then Max(WATCHDOG_MIN_VOLTAGE, v - WATCHDOG_VOLTAGE_STEP) else v;
      var changed := nf != f || nv != v;
      outbox := [];
      if changed {
        outbox := [Config(slaveId, nf, nv)];
        if sent {
          currentFrequency, currentVoltage := nf, nv;
        }
      }
      if changed || !isThrottled {
        isThrottled, throttleReason := true, reason;
        throttleCount, lastThrottleTime := throttleCount + 1, c.nowThrottle;
      }
    }

    method RecoverSlave(c: Check, slaveId: int, sent: bool) returns (outbox: seq<Config>)
      modifies `isThrottled, `isRecovering, `wasRecovered, `safeSince, `lastRecoveryTime, `currentFrequency,
        `currentVoltage
      ensures Snapshot() == Recovered(old(Snapshot()), c, sent)
      ensures outbox == RecoveryMessages(old(Snapshot()), c, slaveId)
    {
      hide RaisedFrequency, RaisedVoltage, Finished;
      var now := c.nowRecover;
      outbox := [];
      if lastRecoveryTime != 0 && now - lastRecoveryTime < WATCHDOG_RECOVERY_INTERVAL_MS {
        return;
      }
      var tf := if recoveryFrequency != 0 then recoveryFrequency else originalFrequency;
      var tv := if recoveryVoltage != 0 then recoveryVoltage else originalVoltage;
      if currentFrequency >= tf && currentVoltage >= tv {
        FinishRecovery();
        return;
      }
      var nf, nv := NextLevels(tf, tv);
      if nf != currentFrequency || nv != currentVoltage {
        outbox := [Config(slaveId, nf, nv)];
        if sent {
          var _ := SetLevels(nf, nv);
          lastRecoveryTime := now;
        }
      }
    }

    // The start of an episode: where it started, and where recovery shall lead.
    method BeginThrottling(c: Check)
      modifies `originalFrequency, `originalVoltage, `recoveryFrequency, `recoveryVoltage, `wasRecovered, `safeSince,
        `isRecovering
      ensures Snapshot() == Begun(old(Snapshot()), c).(safeSince := 0, isRecovering := false)
    {
      if !isThrottled {
        originalFrequency, originalVoltage := c.freq, c.volt;
        if wasRecovered {
          recoveryFrequency := if recoveryFrequency > WATCHDOG_MIN_FREQUENCY + WATCHDOG_FREQ_STEP
            then recoveryFrequency - WATCHDOG_FREQ_STEP else WATCHDOG_MIN_FREQUENCY;
          recoveryVoltage := if recoveryVoltage > WATCHDOG_MIN_VOLTAGE + WATCHDOG_VOLTAGE_STEP
            then recoveryVoltage - WATCHDOG_VOLTAGE_STEP else WATCHDOG_MIN_VOLTAGE;
          wasRecovered := false;
        } else {
          recoveryFrequency, recoveryVoltage := c.freq, c.volt;
        }
      }
      safeSince, isRecovering := 0, false;
    }

    method CheckMaster(c: Check)
      modifies this
      ensures Snapshot() == Step(old(Snapshot()), c, true)
    {
      hide Throttled, Recovered, Begun;
      if !isThrottled {
        currentFrequency, currentVoltage := c.freq, c.volt;
      }
      var reason := Reason(c.temp >= WATCHDOG_TEMP_THRESHOLD, c.vin > 0.0 && c.vin <= WATCHDOG_VIN_THRESHOLD);
      if reason != NO_REASON {
        BeginThrottling(c);
        ThrottleMaster(c, reason);
      } else if isThrottled {
        throttleReason := NO_REASON;
        var tempOk := c.temp <= WATCHDOG_TEMP_RECOVERY_THRESHOLD;
        var vinOk := c.vin <= 0.0 || c.vin >= WATCHDOG_VIN_RECOVERY_THRESHOLD;
        if tempOk && vinOk {
          if safeSince == 0 {
            safeSince := c.now;
          }
          if c.now - safeSince >= WATCHDOG_RECOVERY_STABILITY_MS {
            RecoverMaster(c);
          }
        } else {
          safeSince, isRecovering := 0, false;
        }
      }
    }

    // An inactive slot forgets its episode.
    method CheckSlave(info: SlaveInfo, sent: bool) returns (outbox: seq<Config>)
      modifies this
      ensures Snapshot() == SlaveStep(old(Snapshot()), info, sent)
      ensures outbox == SlaveMessages(old(Snapshot()), info)
    {
      hide Throttled, Recovered, Begun, ThrottleMessages, RecoveryMessages;
      outbox := [];
      if !info.active {
        isThrottled, isRecovering, safeSince := false, false, 0;
        return;
      }
      var c := info.check;
      if !isThrottled {
        currentFrequency, currentVoltage := c.freq, c.volt;
      }
      var reason := Reason(c.temp >= WATCHDOG_TEMP_THRESHOLD, c.vin > 0.0 && c.vin <= WATCHDOG_VIN_THRESHOLD);
      if reason != NO_REASON {
        BeginThrottling(c);
        outbox := ThrottleSlave(c, reason, info.slaveId, sent);
      } else if isThrottled {
        throttleReason := NO_REASON;
        var tempOk := c.temp <= WATCHDOG_TEMP_RECOVERY_THRESHOLD;
        var vinOk := c.vin <= 0.0 || c.vin >= WATCHDOG_VIN_RECOVERY_THRESHOLD;
        if tempOk && vinOk {
          if safeSince == 0 {
            safeSince := c.now;
          }
          if c.now - safeSince >= WATCHDOG_RECOVERY_STABILITY_MS {
            outbox := RecoverSlave(c, info.slaveId, sent);
          }
        } else {
          safeSince, isRecovering := 0, false;
        }
      }
    }
  }

  // ----- One round over all devices -----

  function Snapshots(devices: seq<Device>): (states: seq<Status>)
    reads devices
    ensures |states| == |devices|
  {
    seq(|devices|, i requires 0 <= i < |devices| reads devices => devices[i].Snapshot())
  }

  // What the first k slaves are told, in the order of their slots.
  function AllMessages(states: seq<Status>, infos: seq<SlaveInfo>, k: nat): seq<Config>
    requires k <= |states| == |infos|
  {
    if k == 0 then [] else AllMessages(states, infos, k - 1) + SlaveMessages(states[k - 1], infos[k - 1])
  }

  class ClusterWatchdog {
    const master: Device
    const slaves: seq<Device>
    var throttledCount: nat

    ghost predicate Valid()
      reads this
    {
      && |slaves| == CLUSTER_MAX_SLAVES && master !in slaves
      && forall i, j :: 0 <= i < j < |slaves| ==> slaves[i] != slaves[j]
    }

    constructor ()
      ensures Valid() && master.Snapshot() == Initial() && forall d :: d in slaves ==> d.Snapshot() == Initial()
    {
      var devices: seq<Device> := [];
      while |devices| < CLUSTER_MAX_SLAVES
        invariant |devices| <= CLUSTER_MAX_SLAVES && forall d :: d in devices ==> fresh(d) && d.Snapshot() == Initial()
        invariant forall i, j :: 0 <= i < j < |devices| ==> devices[i] != devices[j]
      {
        var d := new Device();
        devices := devices + [d];
      }
      master := new Device();
      slaves, throttledCount := devices, 0;
    }

    method CheckSlaves(infos: seq<SlaveInfo>, sent: seq<bool>) returns (outbox: seq<Config>)
      requires Valid() && |infos| == |sent| == |slaves|
      modifies slaves
      ensures forall i :: 0 <= i < |slaves| ==>
        slaves[i].Snapshot() == SlaveStep(old(slaves[i].Snapshot()), infos[i], sent[i])
      ensures outbox == AllMessages(old(Snapshots(slaves)), infos, |slaves|)
    {
      hide SlaveStep, SlaveMessages, Device.Snapshot;
      outbox := [];
      for i := 0 to |slaves|
        invariant outbox == AllMessages(old(Snapshots(slaves)), infos, i)
        invariant forall k :: 0 <= k < i ==>
          slaves[k].Snapshot() == SlaveStep(old(slaves[k].Snapshot()), infos[k], sent[k])
        invariant forall k :: i <= k < |slaves| ==> slaves[k].Snapshot() == old(slaves[k].Snapshot())
      {
        var messages := slaves[i].CheckSlave(infos[i], sent[i]);
        outbox := outbox + messages;
      }
    }

    method Round(c: Check, isMaster: bool, infos: seq<SlaveInfo>, sent: seq<bool>) returns (outbox: seq<Config>)
      requires Valid() && |infos| == |sent| == |slaves|
      modifies this, master, slaves
      ensures master.Snapshot() == Step(old(master.Snapshot()), c, true)
      ensures isMaster ==> forall i :: 0 <= i < |slaves| ==>
        slaves[i].Snapshot() == SlaveStep(old(slaves[i].Snapshot()), infos[i], sent[i])
      ensures !isMaster ==> forall i :: 0 <= i < |slaves| ==> slaves[i].Snapshot() == old(slaves[i].Snapshot())
      ensures outbox == if isMaster then AllMessages(old(Snapshots(slaves)), infos, |slaves|) else []
      ensures throttledCount == (if master.isThrottled then 1 else 0) + CountThrottled(slaves, |slaves|)
    {
      hide *;
      Parts(this);
      master.CheckMaster(c);
      outbox := [];
      if isMaster {
        outbox := CheckSlaves(infos, sent);
      }
      Recount();
    }

    method Recount()
      modifies `throttledCount
      ensures throttledCount == (if master.isThrottled then 1 else 0) + CountThrottled(slaves, |slaves|)
    {
      throttledCount := 0;
      if master.isThrottled {
        throttledCount := throttledCount + 1;
      }
      for i := 0 to |slaves|
        invariant throttledCount == (if master.isThrottled then 1 else 0) + CountThrottled(slaves, i)
      {
        if slaves[i].isThrottled {
          throttledCount := throttledCount + 1;
        }
      }
    }
  }

  lemma Parts(w: ClusterWatchdog)
    requires w.Valid()
    ensures |w.slaves| == CLUSTER_MAX_SLAVES && w.master !in w.slaves
    ensures forall i :: 0 <= i < |w.slaves| ==> w.slaves[i] != w.master
  {}

  function CountThrottled(devices: seq<Device>, k: nat): nat
    requires k <= |devices|
    reads devices
  {
    if k == 0 then 0 else CountThrottled(devices, k - 1) + if devices[k - 1].isThrottled then 1 else 0
  }

  function Max(a: int, b: int): int { if a < b then b else a }

  function Min(a: int, b: int): int { if b < a then b else a }
}
