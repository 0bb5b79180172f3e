/**
 What the watchdog guarantees over whole runs of checks. A run is that of one slot: at each check
 its slave may be active or not, and new values may or may not reach it. The master is a slave
 that is always active and always reached.
 */
module WatchdogRuns {
  import opened Arithmetic
  import opened Watchdog

  datatype Event = Event(info: SlaveInfo, sent: bool) {
    function Check(): Check { info.check }

    predicate Safe() { info.active && info.check.Safe() }

    predicate Unsafe() { info.active && info.check.Unsafe() }
  }

  function StepOf(s: Status, e: Event): Status { SlaveStep(s, e.info, e.sent) }

  function Run(events: seq<Event>): Status {
    if events == [] then Initial() else StepOf(Run(events[..|events| - 1]), events[|events| - 1])
  }

  lemma RunSnoc(events: seq<Event>, i: nat)
    requires i < |events|
    ensures Run(events[..i + 1]) == StepOf(Run(events[..i]), events[i])
  {
    assert events[..i + 1][..i] == events[..i];
  }

  lemma ActiveStep(s: Status, e: Event)
    ensures e.info.active ==> StepOf(s, e) == Step(s, e.Check(), e.sent)
    ensures !e.info.active ==> StepOf(s, e) == s.(isThrottled := false, isRecovering := false, safeSince := 0)
  {}

  function MasterRun(checks: seq<Check>): Status {
    if checks == [] then Initial() else Step(MasterRun(checks[..|checks| - 1]), checks[|checks| - 1], true)
  }

  // The checks of a slave that is always active and always reached.
  function Delivered(checks: seq<Check>, id: int): (events: seq<Event>)
    ensures |events| == |checks|
  {
    seq(|checks|, i requires 0 <= i < |checks| => Event(SlaveInfo(true, id, checks[i]), true))
  }

  // So everything below holds of the master as well.
  lemma {:induction false} MasterLikeSlave(checks: seq<Check>)
    ensures MasterRun(checks) == Run(Delivered(checks, 0))
  {
    hide Step;
    if checks != [] {
      var n := |checks| - 1;
      MasterLikeSlave(checks[..n]);
      assert Delivered(checks, 0)[..n] == Delivered(checks[..n], 0);
    }
  }

  // ----- Where recovery leads -----

  predicate Begins(s: Status, e: Event) { !s.isThrottled && e.Unsafe() }

  // The slave is lost in the middle of an episode.
  predicate Interrupts(s: Status, e: Event) { s.isThrottled && !e.info.active }

  // The number of throttle episodes begun since the last one that was interrupted.
  function Episodes(events: seq<Event>): nat {
    if events == [] then 0
    else
      var init, last := events[..|events| - 1], events[|events| - 1];
      if Interrupts(Run(init), last) then 0 else Episodes(init) + if Begins(Run(init), last) then 1 else 0
  }

  // The check that began the first of them.
  function FirstCheck(events: seq<Event>): Check
    requires Episodes(events) > 0
  {
    var init, last := events[..|events| - 1], events[|events| - 1];
    if Episodes(init) > 0 then FirstCheck(init) else last.Check()
  }

  function TargetAt(x0: nat, floor: nat, k: nat): nat {
    if k <= 1 then x0 else Max(floor, x0 - 50 * (k - 1))
  }

  // The closed form is what the program computes, except in a first episode below the floor.
  lemma TargetFormula(x0: nat, floor: nat, k: nat)
    requires k >= 1
    ensures TargetAt(x0, floor, k) == Max(floor, x0 - 50 * (k - 1)) <==> k >= 2 || x0 >= floor
  {}

  lemma NextTarget(x0: nat, floor: nat, k: nat)
    requires k >= 1
    ensures LoweredTarget(TargetAt(x0, floor, k), 50, floor) == TargetAt(x0, floor, k + 1)
  {}

  ghost predicate TargetsAre(s: Status, k: nat, f0: nat, v0: nat) {
    && (k == 0 ==> !s.isThrottled && !s.wasRecovered)
    && (k >= 1 ==>
      && s.isThrottled != s.wasRecovered
      && s.recoveryFrequency == TargetAt(f0, WATCHDOG_MIN_FREQUENCY, k)
      && s.recoveryVoltage == TargetAt(v0, WATCHDOG_MIN_VOLTAGE, k))
    && (k == 1 ==> s.originalFrequency == f0 && s.originalVoltage == v0)
  }

  lemma TargetStep(s: Status, e: Event, k: nat, f0: nat, v0: nat)
    requires TargetsAre(s, k, f0, v0) && (k == 0 && Begins(s, e) ==> f0 == e.Check().freq && v0 == e.Check().volt)
    ensures Interrupts(s, e) ==> TargetsAre(StepOf(s, e), 0, 0, 0)
    ensures !Interrupts(s, e) ==> TargetsAre(StepOf(s, e), if Begins(s, e) then k + 1 else k, f0, v0)
  {
    hide Lowered, Raised, TargetAt, LoweredTarget, Waits, AtTarget;
    var c := e.Check();
    if k >= 1 {
      NextTarget(f0, WATCHDOG_MIN_FREQUENCY, k);
      NextTarget(v0, WATCHDOG_MIN_VOLTAGE, k);
    } else {
      FirstTarget(c.freq, WATCHDOG_MIN_FREQUENCY);
      FirstTarget(c.volt, WATCHDOG_MIN_VOLTAGE);
    }
  }

  lemma FirstTarget(x0: nat, floor: nat)
    ensures TargetAt(x0, floor, 1) == x0
  {}

  function F0(events: seq<Event>): nat { if Episodes(events) > 0 then FirstCheck(events).freq else 0 }

  function V0(events: seq<Event>): nat { if Episodes(events) > 0 then FirstCheck(events).volt else 0 }

  lemma {:induction false} TargetsOverRun(events: seq<Event>)
    ensures TargetsAre(Run(events), Episodes(events), F0(events), V0(events))
  {
    hide StepOf, TargetAt;
    if events != [] {
      var init, last := events[..|events| - 1], events[|events| - 1];
      TargetsOverRun(init);
      if Episodes(events) == 0 {
        TargetStep(Run(init), last, Episodes(init), F0(init), V0(init));
      } else {
        TargetStep(Run(init), last, Episodes(init), F0(events), V0(events));
      }
    }
  }

  // In the k-th episode since the last interruption recovery leads to the starting point of the
  // first of them, less 50 for every earlier one, but not below the floor.
  lemma TargetOfEpisode(events: seq<Event>)
    requires Run(events).isThrottled
    ensures var k := Episodes(events);
      k >= 1 && Run(events).TargetFrequency() == TargetAt(F0(events), WATCHDOG_MIN_FREQUENCY, k)
      && Run(events).TargetVoltage() == TargetAt(V0(events), WATCHDOG_MIN_VOLTAGE, k)
  {
    hide StepOf, Run, Episodes, F0, V0;
    TargetsOverRun(events);
  }

  lemma OneEvent(e: Event)
    ensures Run([e]) == StepOf(Initial(), e)
    ensures e.Unsafe() ==> Run([e]).isThrottled && Episodes([e]) == 1 && FirstCheck([e]) == e.Check()
  {
    hide *;
    assert [e][..0] == [];
    LastEvent([e], []);
    NoEvents();
    if e.Unsafe() {
      UnsafeThrottles(Initial(), e);
    }
  }

  lemma LastEvent(events: seq<Event>, init: seq<Event>)
    requires events != [] && init == events[..|events| - 1]
    ensures var last := events[|events| - 1];
      && Run(events) == StepOf(Run(init), last)
      && (!Interrupts(Run(init), last) ==>
        Episodes(events) == Episodes(init) + if Begins(Run(init), last) then 1 else 0)
      && (Episodes(events) > 0 && Episodes(init) == 0 ==> FirstCheck(events) == last.Check())
  {
    hide StepOf, Interrupts, Begins;
  }

  lemma NoEvents()
    ensures Run([]) == Initial() && !Initial().isThrottled && Episodes([]) == 0
  {}

  lemma UnsafeThrottles(s: Status, e: Event)
    requires e.Unsafe()
    ensures StepOf(s, e).isThrottled && !Interrupts(s, e) && (Begins(s, e) <==> !s.isThrottled)
  {
    hide Lowered, LoweredTarget;
  }

  // A first episode that begins below the floor leads back there, not to the floor.
  lemma FirstTargetBelowFloor()
    ensures var events := [Event(SlaveInfo(true, 1, Check(70.0, 5.0, 300, 1000, 1, 1, 1)), true)];
      && Run(events).isThrottled && Episodes(events) == 1
      && Run(events).TargetFrequency() == 300 < Max(WATCHDOG_MIN_FREQUENCY, 300 - WATCHDOG_FREQ_STEP * (1 - 1))
      && Run(events).TargetVoltage() == 1000 < Max(WATCHDOG_MIN_VOLTAGE, 1000 - WATCHDOG_VOLTAGE_STEP * (1 - 1))
  {
    hide Run, StepOf, Episodes, FirstCheck;
    var e := Event(SlaveInfo(true, 1, Check(70.0, 5.0, 300, 1000, 1, 1, 1)), true);
    OneEvent(e);
    TargetOfEpisode([e]);
  }

  // Nothing was interrupted from event b on, but just before it, or b is the beginning.
  ghost predicate LastBreak(events: seq<Event>, b: int) {
    && 0 <= b <= |events| && (b > 0 ==> Interrupts(Run(events[..b - 1]), events[b - 1]))
    && forall i :: b <= i < |events| ==> !Interrupts(Run(events[..i]), events[i])
  }

  ghost predicate IsFirstUnsafe(events: seq<Event>, b: int, i: int) {
    0 <= b <= i < |events| && events[i].Unsafe() && forall j :: b <= j < i ==> !events[j].Unsafe()
  }

  lemma {:induction false} BreakExists(events: seq<Event>) returns (b: nat)
    ensures LastBreak(events, b)
  {
    hide Run;
    if events == [] {
      b := 0;
    } else {
      var n := |events| - 1;
      b := BreakExists(events[..n]);
      if Interrupts(Run(events[..n]), events[n]) {
        b := n + 1;
      } else {
        BreakOfPrefix(events, n, b);
      }
    }
  }

  lemma BreakOfPrefix(events: seq<Event>, n: nat, b: int)
    requires n == |events| - 1 && LastBreak(events[..n], b) && !Interrupts(Run(events[..n]), events[n])
    ensures LastBreak(events, b)
  {
    hide Run, Interrupts;
    var init := events[..n];
    assert forall i :: 0 <= i < n ==> init[..i] == events[..i] && init[i] == events[i];
  }

  lemma PrefixOfBreak(events: seq<Event>, n: nat, b: int)
    requires n == |events| - 1 && LastBreak(events, b) && b <= n
    ensures LastBreak(events[..n], b)
  {
    hide Run, Interrupts;
    var init := events[..n];
    assert forall i :: 0 <= i < n ==> init[..i] == events[..i] && init[i] == events[i];
  }

  // The first episode after an interruption begins with the first unsafe check after it.
  lemma {:induction false} NoEpisodeUntilUnsafe(events: seq<Event>, b: int)
    requires LastBreak(events, b)
    ensures Episodes(events) == 0 <==> forall i :: b <= i < |events| ==> !events[i].Unsafe()
    ensures Episodes(events) == 0 ==> !Run(events).isThrottled
    ensures Episodes(events) > 0 ==> exists i :: IsFirstUnsafe(events, b, i) && events[i].Check() == FirstCheck(events)
  {
    hide Step, Event.Unsafe, Interrupts;
    if events != [] {
      var n := |events| - 1;
      var init := events[..n];
      if b == n + 1 {
        InterruptedIsOut(Run(init), events[n]);
      } else {
        PrefixOfBreak(events, n, b);
        NoEpisodeUntilUnsafe(init, b);
        assert !Interrupts(Run(events[..n]), events[n]);
        if Episodes(init) == 0 {
          StaysUnthrottled(Run(init), events[n]);
          FirstUnsafeIsLast(events, init, b);
        } else {
          var i :| IsFirstUnsafe(init, b, i) && init[i].Check() == FirstCheck(init);
          FirstUnsafeOfPrefix(events, n, b, i);
        }
      }
    }
  }

  lemma InterruptedIsOut(s: Status, e: Event)
    requires Interrupts(s, e)
    ensures !StepOf(s, e).isThrottled
  {}

  lemma StaysUnthrottled(s: Status, e: Event)
    requires !s.isThrottled
    ensures Begins(s, e) == e.Unsafe() && (!e.Unsafe() ==> !StepOf(s, e).isThrottled)
  {}

  lemma FirstUnsafeIsLast(events: seq<Event>, init: seq<Event>, b: int)
    requires 0 <= b < |events| && init == events[..|events| - 1] && forall i :: b <= i < |init| ==> !init[i].Unsafe()
    ensures events[|events| - 1].Unsafe() ==> IsFirstUnsafe(events, b, |events| - 1)
    ensures forall i :: b <= i < |events| - 1 ==> !events[i].Unsafe()
  {
    hide Event.Unsafe;
    forall i | b <= i < |events| - 1 ensures !events[i].Unsafe() {
      assert events[i] == init[i];
    }
  }

  lemma FirstUnsafeOfPrefix(events: seq<Event>, n: nat, b: int, i: int)
    requires n <= |events| && IsFirstUnsafe(events[..n], b, i)
    ensures IsFirstUnsafe(events, b, i) && events[i] == events[..n][i]
  {
    hide Event.Unsafe;
    var init := events[..n];
    forall j | b <= j < i ensures !events[j].Unsafe() {
      assert events[j] == init[j];
    }
  }

  // So the target is settled by the first unsafe check since the last break, and by the number of
  // episodes begun since.
  lemma TargetOfRun(events: seq<Event>) returns (b: nat, i: nat)
    requires Run(events).isThrottled
    ensures LastBreak(events, b) && IsFirstUnsafe(events, b, i)
    ensures var k, c, s := Episodes(events), events[i].Check(), Run(events);
      && k >= 1 && s.TargetFrequency() == TargetAt(c.freq, WATCHDOG_MIN_FREQUENCY, k)
      && s.TargetVoltage() == TargetAt(c.volt, WATCHDOG_MIN_VOLTAGE, k)
  {
    hide StepOf, Run, Episodes, FirstCheck, TargetAt, LastBreak, Event.Unsafe;
    TargetOfEpisode(events);
    b := BreakExists(events);
    NoEpisodeUntilUnsafe(events, b);
    i :| IsFirstUnsafe(events, b, i) && events[i].Check() == FirstCheck(events);
  }

  // ----- Bounds on the tracked values -----

  ghost predicate Tracked(x: nat, original: nat, target: nat, floor: nat) {
    original >= floor ==> floor <= x <= Max(original, target)
  }

  ghost predicate BothTracked(s: Status) {
    s.isThrottled ==>
      && Tracked(s.currentFrequency, s.originalFrequency, s.TargetFrequency(), WATCHDOG_MIN_FREQUENCY)
      && Tracked(s.currentVoltage, s.originalVoltage, s.TargetVoltage(), WATCHDOG_MIN_VOLTAGE)
  }

  lemma LoweredStays(x: nat, original: nat, target: nat, floor: nat)
    requires Tracked(x, original, target, floor)
    ensures Tracked(Lowered(x, 50, floor), original, target, floor)
  {}

  lemma RaisedStays(x: nat, original: nat, target: nat, floor: nat)
    requires Tracked(x, original, target, floor)
    ensures Tracked(Raised(x, 50, target), original, target, floor)
  {}

  lemma StartIsTracked(x: nat, target: nat, floor: nat)
    ensures Tracked(x, x, target, floor)
  {}

  lemma TrackedStep(s: Status, c: Check, sent: bool)
    requires BothTracked(s)
    ensures BothTracked(Step(s, c, sent))
  {
    hide Tracked, Throttled, Begun, Raised, Waits, AtTarget, Check.Unsafe, Check.Safe;
    if c.Unsafe() {
      UnsafeKeepsTracked(s, c, sent);
    } else if s.isThrottled {
      RaisedStays(s.currentFrequency, s.originalFrequency, s.TargetFrequency(), WATCHDOG_MIN_FREQUENCY);
      RaisedStays(s.currentVoltage, s.originalVoltage, s.TargetVoltage(), WATCHDOG_MIN_VOLTAGE);
    }
  }

  lemma UnsafeKeepsTracked(s: Status, c: Check, sent: bool)
    requires BothTracked(s) && c.Unsafe()
    ensures BothTracked(Step(s, c, sent))
  {
    hide Tracked, Lowered, LoweredTarget, Check.Unsafe;
    var t := Begun(if s.isThrottled then s else s.(currentFrequency := c.freq, currentVoltage := c.volt), c);
    StartIsTracked(c.freq, t.TargetFrequency(), WATCHDOG_MIN_FREQUENCY);
    StartIsTracked(c.volt, t.TargetVoltage(), WATCHDOG_MIN_VOLTAGE);
    LoweredStays(t.currentFrequency, t.originalFrequency, t.TargetFrequency(), WATCHDOG_MIN_FREQUENCY);
    LoweredStays(t.currentVoltage, t.originalVoltage, t.TargetVoltage(), WATCHDOG_MIN_VOLTAGE);
  }

  // While an episode lasts that began at or above the floor, the value stays between the floor
  // and the larger of the episode's starting point and its target.
  lemma {:induction false} TrackedValuesBounded(events: seq<Event>)
    ensures BothTracked(Run(events))
  {
    hide Step, Tracked;
    if events != [] {
      var n := |events| - 1;
      TrackedValuesBounded(events[..n]);
      ActiveStep(Run(events[..n]), events[n]);
      TrackedStep(Run(events[..n]), events[n].Check(), events[n].sent);
    }
  }

  // ----- How far an unsafe device is throttled -----

  // A device that is there, and too hot or short of input voltage.
  predicate InTrouble(e: Event) {
    e.info.active && (e.Check().temp >= 68.0 || 0.0 < e.Check().vin <= 4.75)
  }

  // The number of checks whose new values would reach the device.
  function Reached(events: seq<Event>): (r: nat)
    ensures r <= |events|
  {
    if events == [] then 0
    else Reached(events[..|events| - 1]) + if events[|events| - 1].sent then 1 else 0
  }

  // Value x after r steps of 50 from start, down to the floor; what is below the floor stays.
  predicate SteppedDown(x: int, start: int, floor: int, r: int) {
    if start <= floor then x == start else x == if start - 50 * r > floor then start - 50 * r else floor
  }

  // What the device runs with when a check comes: the tracked values in an episode, else its own.
  function FrequencyBefore(s: Status, c: Check): nat { if s.isThrottled then s.currentFrequency else c.freq }

  function VoltageBefore(s: Status, c: Check): nat { if s.isThrottled then s.currentVoltage else c.volt }

  lemma TroubleStep(s: Status, e: Event, f: nat, v: nat, r: nat)
    requires InTrouble(e)
    requires SteppedDown(FrequencyBefore(s, e.Check()), f, 400, r)
    requires SteppedDown(VoltageBefore(s, e.Check()), v, 1100, r)
    ensures var t, r' := StepOf(s, e), r + if e.sent then 1 else 0;
      t.isThrottled && SteppedDown(t.currentFrequency, f, 400, r') && SteppedDown(t.currentVoltage, v, 1100, r')
  {
    hide LoweredTarget;
  }

  // Unsafe checks one after the other, after any run: every one that reaches the device takes 50
  // off frequency and voltage, down to 400 MHz and 1100 mV.
  lemma {:induction false} ThrottledValues(events: seq<Event>, more: seq<Event>)
    requires more != [] && forall i :: 0 <= i < |more| ==> InTrouble(more[i])
    ensures var s, t, c, r := Run(events), Run(events + more), more[0].Check(), Reached(more);
      && t.isThrottled
      && SteppedDown(t.currentFrequency, FrequencyBefore(s, c), 400, r)
      && SteppedDown(t.currentVoltage, VoltageBefore(s, c), 1100, r)
    decreases |more|
  {
    hide StepOf, SteppedDown, InTrouble;
    var n := |more| - 1;
    var s, c := Run(events), more[0].Check();
    var f, v := FrequencyBefore(s, c), VoltageBefore(s, c);
    assert (events + more)[..|events + more| - 1] == events + more[..n];
    if n == 0 {
      assert events + more[..0] == events;
      NothingTaken(f, 400);
      NothingTaken(v, 1100);
      TroubleStep(s, more[0], f, v, 0);
    } else {
      ThrottledValues(events, more[..n]);
      TroubleStep(Run(events + more[..n]), more[n], f, v, Reached(more[..n]));
    }
  }

  lemma NothingTaken(start: int, floor: int)
    ensures SteppedDown(start, start, floor, 0)
  {}

  lemma {:induction false} AllReached(checks: seq<Check>, id: int)
    ensures Reached(Delivered(checks, id)) == |checks|
  {
    if checks != [] {
      var n := |checks| - 1;
      AllReached(checks[..n], id);
      assert Delivered(checks, id)[..n] == Delivered(checks[..n], id);
    }
  }

  // A device that is there and reached: its values after k unsafe checks, and the number of checks
  // that takes it from a normal operating point to the floors.
  lemma ThrottledToTheFloors(events: seq<Event>, checks: seq<Check>, id: int)
    requires checks != [] && forall i :: 0 <= i < |checks| ==> checks[i].temp >= 68.0 || 0.0 < checks[i].vin <= 4.75
    ensures var s, t, k := Run(events), Run(events + Delivered(checks, id)), |checks|;
      var f := if s.isThrottled then s.currentFrequency else checks[0].freq;
      var v := if s.isThrottled then s.currentVoltage else checks[0].volt;
      && t.currentFrequency == (if f <= 400 then f else Max(400, f - 50 * k))
      && t.currentVoltage == (if v <= 1100 then v else Max(1100, v - 50 * k))
      && (f >= 400 && v >= 1100 ==>
        (t.currentFrequency == 400 && t.currentVoltage == 1100 <==> 50 * k >= f - 400 && 50 * k >= v - 1100))
  {
    hide Run;
    AllReached(checks, id);
    ThrottledValues(events, Delivered(checks, id));
  }

  // No other check begins an episode or lowers a value.
  lemma OnlyTroubleThrottles(s: Status, e: Event)
    requires !InTrouble(e)
    ensures var t := StepOf(s, e);
      && (t.isThrottled ==> s.isThrottled)
      && (e.info.active ==>
        t.currentFrequency >= FrequencyBefore(s, e.Check()) && t.currentVoltage >= VoltageBefore(s, e.Check()))
  {
    hide Waits, AtTarget;
  }

  // An unsafe check is counted, with its reasons and its time, exactly if it begins an episode or
  // finds a value above its floor.
  lemma ThrottlingIsRecorded(s: Status, e: Event)
    ensures var t, c := StepOf(s, e), e.Check();
      if InTrouble(e) && (!s.isThrottled || FrequencyBefore(s, c) > 400 || VoltageBefore(s, c) > 1100) then
        && t.throttleCount == s.throttleCount + 1 && t.lastThrottleTime == c.nowThrottle
        && t.reason.temp == (c.temp >= 68.0) && t.reason.vin == (0.0 < c.vin <= 4.75)
      else t.throttleCount == s.throttleCount && t.lastThrottleTime == s.lastThrottleTime
  {
    hide LoweredTarget, Waits, AtTarget, RaisedFrequency, RaisedVoltage;
  }

  // Every check of a slave that changes a value tells the slave so in one message, and only then:
  // the values are taken over if it could be sent.
  lemma ChangesAreSent(s: Status, info: SlaveInfo, sent: bool)
    ensures var t, messages := SlaveStep(s, info, sent), SlaveMessages(s, info);
      var f := if s.isThrottled || !info.active then s.currentFrequency else info.check.freq;
      var v := if s.isThrottled || !info.active then s.currentVoltage else info.check.volt;
      && (messages == [] ==> t.currentFrequency == f && t.currentVoltage == v)
      && (messages != [] ==>
        && |messages| == 1 && messages[0].slaveId == info.slaveId && info.active
        && (messages[0].frequency != f || messages[0].voltage != v)
        && t.currentFrequency == (if sent then messages[0].frequency else f)
        && t.currentVoltage == (if sent then messages[0].voltage else v))
  {
    hide Lowered, LoweredTarget, Check.Unsafe, Check.Safe, Waits;
  }

  // ----- When a value may rise -----

  // In event i, while throttled, a value goes up.
  predicate Rises(events: seq<Event>, i: nat)
    requires i < |events|
  {
    var s, t := Run(events[..i]), Run(events[..i + 1]);
    s.isThrottled && (t.currentFrequency > s.currentFrequency || t.currentVoltage > s.currentVoltage)
  }

  // The stability timer started at a check from which on the slave was there and all were safe.
  ghost predicate SafeFrom(events: seq<Event>, j: int, t: int) {
    0 <= j < |events| && events[j].Check().now == t && forall i :: j <= i < |events| ==> events[i].Safe()
  }

  lemma {:induction false} TimerMeaning(events: seq<Event>)
    ensures !Run(events).isThrottled ==> Run(events).safeSince == 0
    ensures Run(events).safeSince != 0 ==> exists j :: SafeFrom(events, j, Run(events).safeSince)
  {
    hide Step, Event.Safe;
    if events != [] {
      var n := |events| - 1;
      TimerMeaning(events[..n]);
      var s, t := Run(events[..n]), Run(events);
      TimerOf(s, events[n]);
      if t.safeSince != 0 {
        if s.safeSince != 0 && s.safeSince == t.safeSince {
          var j :| SafeFrom(events[..n], j, s.safeSince);
          assert SafeFrom(events, j, t.safeSince);
        } else {
          assert SafeFrom(events, n, t.safeSince);
        }
      }
    }
  }

  lemma TimerOf(s: Status, e: Event)
    requires !s.isThrottled ==> s.safeSince == 0
    ensures var t := StepOf(s, e);
      && (!t.isThrottled ==> t.safeSince == 0)
      && (t.safeSince != 0 ==> e.Safe() && (t.safeSince == s.safeSince || t.safeSince == e.Check().now))
  {
    hide Step;
    ActiveStep(s, e);
    TimerStep(s, e.Check(), e.sent);
  }

  lemma TimerStep(s: Status, c: Check, sent: bool)
    requires !s.isThrottled ==> s.safeSince == 0
    ensures var t := Step(s, c, sent);
      && (!t.isThrottled ==> t.safeSince == 0)
      && (t.safeSince != 0 ==> c.Safe() && (t.safeSince == s.safeSince || t.safeSince == c.now))
  {
    hide Lowered, Raised, LoweredTarget, Waits, AtTarget, RaisedFrequency, RaisedVoltage;
  }

  predicate Up(s: Status, t: Status) {
    s.isThrottled && (t.currentFrequency > s.currentFrequency || t.currentVoltage > s.currentVoltage)
  }

  lemma UpStep(s: Status, c: Check, sent: bool)
    requires Up(s, Step(s, c, sent))
    ensures c.Safe() && s.safeSince != 0 && c.now - s.safeSince >= WATCHDOG_RECOVERY_STABILITY_MS
    ensures !Waits(s, c.nowRecover)
    ensures var t := Step(s, c, sent);
      && t.isThrottled && t.lastRecoveryTime == c.nowRecover
      && t.currentFrequency <= Max(s.currentFrequency, s.TargetFrequency())
      && t.currentVoltage <= Max(s.currentVoltage, s.TargetVoltage())
  {
    hide AtTarget;
  }

  // An upward step happens in a check of an active slave.
  lemma UpIsActive(s: Status, e: Event)
    requires Up(s, StepOf(s, e))
    ensures e.info.active && Up(s, Step(s, e.Check(), e.sent))
  {
    hide Step;
    ActiveStep(s, e);
  }

  // Cool enough, and input voltage unknown or high enough, for recovery.
  predicate IsCalm(c: Check) { c.temp <= 62.0 && (c.vin <= 0.0 || c.vin >= 4.9) }

  lemma CalmIsSafe(c: Check)
    ensures IsCalm(c) <==> c.Safe()
  {}

  // Safe all the way from check j to check i, for at least 30 s.
  ghost predicate LongSafe(events: seq<Event>, j: int, i: int) {
    && 0 <= j <= i < |events|
    && events[i].Check().now - events[j].Check().now >= WATCHDOG_RECOVERY_STABILITY_MS
    && forall k :: j <= k <= i ==> events[k].info.active && IsCalm(events[k].Check())
  }

  // Every upward step comes at the end of at least 30 s in which every check was safe, and does
  // not go past the target.
  lemma UpwardStepIsLate(events: seq<Event>, i: nat)
    requires i < |events| && Rises(events, i)
    ensures exists j :: LongSafe(events, j, i)
    ensures var s, t := Run(events[..i]), Run(events[..i + 1]);
      && t.currentFrequency <= Max(s.currentFrequency, s.TargetFrequency())
      && t.currentVoltage <= Max(s.currentVoltage, s.TargetVoltage())
  {
    hide Run, StepOf, Step, Check.Safe, Waits, Max, IsCalm;
    RisesIsUp(events, i);
    RunSnoc(events, i);
    ActiveStep(Run(events[..i]), events[i]);
    UpStep(Run(events[..i]), events[i].Check(), events[i].sent);
    TimerMeaning(events[..i]);
    var j :| SafeFrom(events[..i], j, Run(events[..i]).safeSince);
    forall k | j <= k <= i ensures events[k].info.active && IsCalm(events[k].Check()) {
      CalmIsSafe(events[k].Check());
      if k < i {
        assert events[..i][k].Safe();
      }
    }
    assert LongSafe(events, j, i);
  }

  // ----- Steps are far apart -----

  // The clock is read once for the check and once more for recovery, and never runs backwards.
  predicate Clock(events: seq<Event>) {
    && (forall i :: 0 <= i < |events| ==> 0 <= events[i].Check().now <= events[i].Check().nowRecover)
    && forall i, j :: 0 <= i < j < |events| ==> events[i].Check().nowRecover <= events[j].Check().now
  }

  // The episode of event i lasts to the end of events.
  ghost predicate Lasts(events: seq<Event>, i: nat) {
    forall j :: i < j <= |events| ==> Run(events[..j]).isThrottled
  }

  lemma StepKeepsLastRecovery(s: Status, c: Check, sent: bool)
    requires s.isThrottled && Step(s, c, sent).isThrottled
    ensures Step(s, c, sent).lastRecoveryTime == s.lastRecoveryTime || Step(s, c, sent).lastRecoveryTime == c.nowRecover
  {
    hide Lowered, Raised, LoweredTarget, Waits, AtTarget, RaisedFrequency, RaisedVoltage, Check.Safe, Check.Unsafe;
  }

  lemma RisesIsUp(events: seq<Event>, i: nat)
    requires i < |events| && Rises(events, i)
    ensures events[i].info.active && Up(Run(events[..i]), Step(Run(events[..i]), events[i].Check(), events[i].sent))
  {
    hide Run, Step, StepOf;
    RunSnoc(events, i);
    UpIsActive(Run(events[..i]), events[i]);
  }

  lemma {:induction false} LastRecoveryIsLatest(events: seq<Event>, i: nat)
    requires Clock(events) && i < |events| && Rises(events, i) && Lasts(events, i)
    ensures Run(events).lastRecoveryTime >= events[i].Check().nowRecover > 0
    decreases |events|
  {
    hide Run, Step, StepOf, Rises;
    var n := |events| - 1;
    RunSnoc(events, n);
    ActiveStep(Run(events[..n]), events[n]);
    assert events[..n + 1] == events;
    if i == n {
      RisesIsUp(events, i);
      UpStep(Run(events[..i]), events[i].Check(), events[i].sent);
      TimerMeaning(events[..i]);
      var j :| SafeFrom(events[..i], j, Run(events[..i]).safeSince);
      assert events[..i][j].Check().now == events[j].Check().now;
    } else {
      var init := events[..n];
      assert init[..i] == events[..i] && init[..i + 1] == events[..i + 1];
      RisesSame(events, init, i);
      forall j | i < j <= n ensures Run(init[..j]).isThrottled {
        assert init[..j] == events[..j];
      }
      LastRecoveryIsLatest(init, i);
      assert Run(events[..n]).isThrottled && Run(events[..n + 1]).isThrottled;
      StepKeepsLastRecovery(Run(init), events[n].Check(), events[n].sent);
    }
  }

  lemma RisesSame(a: seq<Event>, b: seq<Event>, i: nat)
    requires i < |a| && i < |b| && a[..i] == b[..i] && a[..i + 1] == b[..i + 1]
    ensures Rises(a, i) == Rises(b, i)
  {}

  // Two upward steps of one episode are at least 10 s apart.
  lemma StepsAreApart(events: seq<Event>, i: nat, j: nat)
    requires Clock(events) && i < j < |events| && Rises(events, i) && Rises(events, j) && Lasts(events[..j], i)
    ensures events[j].Check().nowRecover - events[i].Check().nowRecover >= WATCHDOG_RECOVERY_INTERVAL_MS
  {
    hide Run, Step, Rises;
    var init := events[..j];
    RisesIsUp(events, j);
    UpStep(Run(init), events[j].Check(), events[j].sent);
    assert init[..i] == events[..i] && init[..i + 1] == events[..i + 1];
    RisesSame(events, init, i);
    LastRecoveryIsLatest(init, i);
  }

  // ----- When an episode ends -----

  // Fifty-unit steps from x to the target.
  function StepsFrom(x: nat, target: nat): nat { if x >= target then 0 else (target - x + 49) / 50 }

  function StepsLeft(s: Status): nat {
    Max(StepsFrom(s.currentFrequency, s.TargetFrequency()), StepsFrom(s.currentVoltage, s.TargetVoltage()))
  }

  lemma OneStepLess(x: nat, target: nat)
    ensures StepsFrom(Raised(x, 50, target), target) == if StepsFrom(x, target) > 0 then StepsFrom(x, target) - 1 else 0
    ensures StepsFrom(x, target) == 0 <==> x >= target
  {}

  // From s on, with checks that all succeed.
  function RunFrom(s: Status, checks: seq<Check>): Status {
    if checks == [] then s else Step(RunFrom(s, checks[..|checks| - 1]), checks[|checks| - 1], true)
  }

  // What a safe check does to an episode: nothing yet, its end, or one step.
  predicate Outcome(s: Status, t: Status, c: Check) {
    if c.now - s.safeSince < WATCHDOG_RECOVERY_STABILITY_MS || Waits(s, c.nowRecover) then
      t.isThrottled && SameTimer(s, t) && t.lastRecoveryTime == s.lastRecoveryTime && StepsLeft(t) == StepsLeft(s)
    else if StepsLeft(s) == 0 then !t.isThrottled
    else t.isThrottled && SameTimer(s, t) && t.lastRecoveryTime == c.nowRecover && StepsLeft(t) == StepsLeft(s) - 1
  }

  predicate SameTimer(s: Status, t: Status) { t.safeSince == s.safeSince }

  lemma RecoveryStep(s: Status, c: Check)
    requires s.isThrottled && s.safeSince != 0 && c.Safe()
    ensures Outcome(s, Step(s, c, true), c)
  {
    hide Raised, StepsFrom;
    OneStepLess(s.currentFrequency, s.TargetFrequency());
    OneStepLess(s.currentVoltage, s.TargetVoltage());
  }

  // Safe checks, 5 s to 5 s + late apart; the clock is read twice in each.
  predicate Spaced(checks: seq<Check>, late: nat) {
    && (forall i :: 0 <= i < |checks| ==> IsCalm(checks[i]) && checks[i].now <= checks[i].nowRecover)
    && (forall i, j :: 0 <= i < j < |checks| ==> checks[i].nowRecover <= checks[j].now)
    && forall i, j :: 0 <= i < |checks| - 1 && j == i + 1 ==>
      CHECK_INTERVAL_MS <= checks[j].now - checks[i].now <= CHECK_INTERVAL_MS + late
  }

  // Any check and the p-th after it are at least 10 s apart when recovery reads the clock.
  predicate Apart(checks: seq<Check>, p: nat) {
    forall i, j :: 0 <= i && i + p <= j < |checks| ==>
      checks[j].nowRecover - checks[i].nowRecover >= WATCHDOG_RECOVERY_INTERVAL_MS
  }

  lemma {:induction false} TimePasses(checks: seq<Check>, late: nat, i: nat, j: nat)
    requires Spaced(checks, late) && i <= j < |checks|
    ensures CHECK_INTERVAL_MS * (j - i) <= checks[j].now - checks[i].now <= (CHECK_INTERVAL_MS + late) * (j - i)
    decreases j
  {
    if i < j {
      TimePasses(checks, late, i, j - 1);
      assert (CHECK_INTERVAL_MS + late) * (j - i) ==
        (CHECK_INTERVAL_MS + late) * (j - 1 - i) + (CHECK_INTERVAL_MS + late);
    }
  }

  // With both readings at the same time every second check can step, otherwise every third.
  lemma SecondIsApart(checks: seq<Check>, late: nat)
    requires Spaced(checks, late) && forall i :: 0 <= i < |checks| ==> checks[i].now == checks[i].nowRecover
    ensures Apart(checks, 2)
  {
    hide IsCalm;
    forall i, j | 0 <= i && i + 2 <= j < |checks|
      ensures checks[j].now - checks[i].now >= WATCHDOG_RECOVERY_INTERVAL_MS
    {
      TimePasses(checks, late, i, j);
    }
  }

  lemma ThirdIsApart(checks: seq<Check>, late: nat)
    requires Spaced(checks, late)
    ensures Apart(checks, 3)
  {
    hide IsCalm;
    forall i, j | 0 <= i && i + 3 <= j < |checks|
      ensures checks[j].nowRecover - checks[i].nowRecover >= WATCHDOG_RECOVERY_INTERVAL_MS
    {
      TimePasses(checks, late, i + 1, j);
      assert checks[i].nowRecover <= checks[i + 1].now;
    }
  }

  // The check by which u steps have been taken, and the time before which they have not.
  function Deadline(p: nat, u: nat): nat {
    ProductMono(0, p, u);
    6 + Product(p, u)
  }

  lemma DeadlineNext(p: nat, u: nat)
    ensures Deadline(p, 0) == 6 && Deadline(p, u + 1) == Deadline(p, u) + p
  {
    assert p * (u + 1) == p * u + p;
  }

  // The last of u steps was taken in check j.
  ghost predicate SteppedIn(s: Status, checks: seq<Check>, p: nat, u: nat, k: nat, j: int) {
    && 0 <= j < k <= |checks| && u > 0 && j <= Deadline(p, u - 1) && k <= j + p
    && s.lastRecoveryTime == checks[j].nowRecover
    && s.lastRecoveryTime >= checks[0].now + WATCHDOG_RECOVERY_STABILITY_MS + WATCHDOG_RECOVERY_INTERVAL_MS * (u - 1)
  }

  // On the way after k checks, with u of n steps taken.
  ghost predicate Climbing(s0: Status, s: Status, checks: seq<Check>, p: nat, n: nat, u: nat, k: nat) {
    && 0 < k <= |checks| && s.isThrottled && s.safeSince == checks[0].now && u <= n && StepsLeft(s) == n - u
    && (u == 0 ==> k <= 6 && s.lastRecoveryTime == s0.lastRecoveryTime)
    && (u > 0 ==> exists j :: SteppedIn(s, checks, p, u, k, j))
  }

  lemma FirstSafeCheck(s: Status, c: Check)
    requires s.isThrottled && s.safeSince == 0 && c.Safe() && c.now > 0
    ensures var t := Step(s, c, true);
      t.isThrottled && t.safeSince == c.now && t.lastRecoveryTime == s.lastRecoveryTime && StepsLeft(t) == StepsLeft(s)
  {
    hide StepsFrom, Waits;
  }

  // Check k leaves everything, takes one step, or ends the episode, in due time.
  lemma NextSafeCheck(s0: Status, s: Status, checks: seq<Check>, late: nat, p: nat, n: nat, u: nat, k: nat)
    requires Spaced(checks, late) && Apart(checks, p) && p > 0 && k < |checks| && Climbing(s0, s, checks, p, n, u, k)
    requires checks[0].now > 0 && s0.lastRecoveryTime <= checks[0].now
    ensures var t := Step(s, checks[k], true);
      || Climbing(s0, t, checks, p, n, u, k + 1)
      || (u < n && Climbing(s0, t, checks, p, n, u + 1, k + 1))
      || (u == n && !t.isThrottled && k <= Deadline(p, u)
          && checks[k].nowRecover >= checks[0].now + WATCHDOG_RECOVERY_STABILITY_MS + WATCHDOG_RECOVERY_INTERVAL_MS * u)
  {
    CalmIsSafe(checks[k]);
    RecoveryStep(s, checks[k]);
    TimePasses(checks, late, 0, k);
    hide Step, StepsLeft, Check.Safe, Deadline, Outcome;
    if u == 0 {
      FirstStep(s0, s, Step(s, checks[k], true), checks, p, n, k);
    } else {
      var j :| SteppedIn(s, checks, p, u, k, j);
      LaterStep(s0, s, Step(s, checks[k], true), checks, p, n, u, k, j);
    }
  }

  lemma FirstStep(s0: Status, s: Status, t: Status, checks: seq<Check>, p: nat, n: nat, k: nat)
    requires k < |checks| && p > 0 && Climbing(s0, s, checks, p, n, 0, k) && Outcome(s, t, checks[k])
    requires s0.lastRecoveryTime <= checks[0].now && checks[k].now <= checks[k].nowRecover
    requires CHECK_INTERVAL_MS * k <= checks[k].now - checks[0].now
    ensures
      || Climbing(s0, t, checks, p, n, 0, k + 1)
      || (n > 0 && Climbing(s0, t, checks, p, n, 1, k + 1))
      || (n == 0 && !t.isThrottled && k <= Deadline(p, 0)
          && checks[k].nowRecover >= checks[0].now + WATCHDOG_RECOVERY_STABILITY_MS)
  {
    hide StepsLeft;
    DeadlineNext(p, 0);
    hide Deadline;
    if t.isThrottled && t.lastRecoveryTime == checks[k].nowRecover && StepsLeft(t) == n - 1 {
      assert SteppedIn(t, checks, p, 1, k + 1, k);
    }
  }

  lemma LaterStep(s0: Status, s: Status, t: Status, checks: seq<Check>, p: nat, n: nat, u: nat, k: nat, j: int)
    requires k < |checks| && p > 0 && u > 0 && Climbing(s0, s, checks, p, n, u, k) && Outcome(s, t, checks[k])
    requires SteppedIn(s, checks, p, u, k, j) && Apart(checks, p) && checks[0].now > 0
    requires checks[j].nowRecover <= checks[k].now
    ensures
      || Climbing(s0, t, checks, p, n, u, k + 1)
      || (u < n && Climbing(s0, t, checks, p, n, u + 1, k + 1))
      || (u == n && !t.isThrottled && k <= Deadline(p, u)
          && checks[k].nowRecover >= checks[0].now + WATCHDOG_RECOVERY_STABILITY_MS + WATCHDOG_RECOVERY_INTERVAL_MS * u)
  {
    hide StepsLeft;
    DeadlineNext(p, u - 1);
    hide Deadline;
    if t.isThrottled && StepsLeft(t) == n - u {
      assert SteppedIn(t, checks, p, u, k + 1, j);
    } else if t.isThrottled {
      assert SteppedIn(t, checks, p, u + 1, k + 1, k);
    }
  }

  // How an episode that was n steps away from its target ends.
  ghost predicate EndsIn(s: Status, checks: seq<Check>, p: nat, n: nat, e: int) {
    && 0 <= e < |checks| && !RunFrom(s, checks[..e + 1]).isThrottled && e <= Deadline(p, n)
    && (forall k :: 0 <= k <= e ==> RunFrom(s, checks[..k]).isThrottled)
    && checks[e].nowRecover >= checks[0].now + WATCHDOG_RECOVERY_STABILITY_MS + WATCHDOG_RECOVERY_INTERVAL_MS * n
  }

  // An episode of which no check has yet been safe, followed by such checks.
  predicate SafeAtLast(s: Status, checks: seq<Check>, late: nat, p: nat) {
    && s.isThrottled && s.safeSince == 0 && checks != [] && checks[0].now > 0 && s.lastRecoveryTime <= checks[0].now
    && Spaced(checks, late) && Apart(checks, p) && p > 0
  }

  ghost predicate OnTheWay(s0: Status, s: Status, checks: seq<Check>, p: nat, n: nat, k: nat) {
    exists u: nat :: Climbing(s0, s, checks, p, n, u, k)
  }

  // After k checks: still on the way with so many steps to go, or ended in time.
  lemma {:induction false} ClimbingOrEnded(s: Status, checks: seq<Check>, late: nat, p: nat, k: nat)
    requires SafeAtLast(s, checks, late, p) && 0 < k <= |checks|
    ensures var n := StepsLeft(s);
      || (exists e :: EndsIn(s, checks, p, n, e))
      || ((forall i :: 0 <= i <= k ==> RunFrom(s, checks[..i]).isThrottled)
          && OnTheWay(s, RunFrom(s, checks[..k]), checks, p, n, k))
  {
    hide Step, StepsLeft, Check.Safe, Climbing, Deadline, Outcome, Spaced, Apart;
    var n := StepsLeft(s);
    RunFromSnoc(s, checks, k - 1);
    if k == 1 {
      StartsClimbing(s, checks, late, p);
    } else {
      ClimbingOrEnded(s, checks, late, p, k - 1);
      if (forall i :: 0 <= i < k ==> RunFrom(s, checks[..i]).isThrottled)
        && OnTheWay(s, RunFrom(s, checks[..k - 1]), checks, p, n, k - 1)
      {
        var u: nat :| Climbing(s, RunFrom(s, checks[..k - 1]), checks, p, n, u, k - 1);
        NextSafeCheck(s, RunFrom(s, checks[..k - 1]), checks, late, p, n, u, k - 1);
        ClimbingIsThrottled(s, RunFrom(s, checks[..k]), checks, p, n, k);
        if !RunFrom(s, checks[..k]).isThrottled {
          assert EndsIn(s, checks, p, n, k - 1);
        }
      }
    }
  }

  lemma RunFromSnoc(s: Status, checks: seq<Check>, k: nat)
    requires k < |checks|
    ensures RunFrom(s, checks[..k + 1]) == Step(RunFrom(s, checks[..k]), checks[k], true)
      && RunFrom(s, checks[..0]) == s
  {
    hide Step;
    assert checks[..k + 1][..k] == checks[..k];
  }

  lemma StartsClimbing(s: Status, checks: seq<Check>, late: nat, p: nat)
    requires SafeAtLast(s, checks, late, p)
    ensures Climbing(s, Step(s, checks[0], true), checks, p, StepsLeft(s), 0, 1) && Step(s, checks[0], true).isThrottled
  {
    hide Step, StepsLeft;
    CalmIsSafe(checks[0]);
    FirstSafeCheck(s, checks[0]);
  }

  lemma ClimbingIsThrottled(s0: Status, s: Status, checks: seq<Check>, p: nat, n: nat, k: nat)
    ensures OnTheWay(s0, s, checks, p, n, k) ==> s.isThrottled
  {}

  lemma OnTheWayIsEarly(s0: Status, s: Status, checks: seq<Check>, p: nat, n: nat, k: nat)
    requires OnTheWay(s0, s, checks, p, n, k)
    ensures k <= Deadline(p, n)
  {
    var u: nat :| Climbing(s0, s, checks, p, n, u, k);
    hide StepsLeft;
    DeadlineGrows(p, 0, n);
    DeadlineGrows(p, u, n);
    if u > 0 {
      DeadlineNext(p, u - 1);
    }
    DeadlineNext(p, 0);
    hide Deadline;
  }

  lemma DeadlineGrows(p: nat, u: nat, v: nat)
    requires u <= v
    ensures Deadline(p, u) <= Deadline(p, v)
  {
    MulMono(u, v, p);
  }

  // With safe checks an episode that is n steps away from its target ends, and ends for good:
  // not before 30 s and 10 s for every step have passed since the first of them, and at the
  // latest in check 6 + p * n, when every p-th check can step.
  lemma EpisodeEnds(s: Status, checks: seq<Check>, late: nat, p: nat) returns (e: nat)
    requires SafeAtLast(s, checks, late, p) && |checks| > Deadline(p, StepsLeft(s))
    ensures EndsIn(s, checks, p, StepsLeft(s), e)
    ensures checks[e].now <= checks[0].now + (CHECK_INTERVAL_MS + late) * Deadline(p, StepsLeft(s))
    ensures forall k :: e < k <= |checks| ==> !RunFrom(s, checks[..k]).isThrottled
  {
    hide StepsLeft, Deadline, OnTheWay, Check.Safe, RunFrom, Apart;
    var n := StepsLeft(s);
    var k := Deadline(p, n) + 1;
    ClimbingOrEnded(s, checks, late, p, k);
    if OnTheWay(s, RunFrom(s, checks[..k]), checks, p, n, k) {
      OnTheWayIsEarly(s, RunFrom(s, checks[..k]), checks, p, n, k);
    }
    e :| EndsIn(s, checks, p, n, e);
    EndsByDeadline(checks, late, e, Deadline(p, n));
    forall i | e < i <= |checks| ensures !RunFrom(s, checks[..i]).isThrottled {
      StaysEnded(s, checks, late, e + 1, i);
    }
  }

  lemma EndsByDeadline(checks: seq<Check>, late: nat, e: nat, deadline: nat)
    requires Spaced(checks, late) && e < |checks| && e <= deadline
    ensures checks[e].now <= checks[0].now + (CHECK_INTERVAL_MS + late) * deadline
  {
    TimePasses(checks, late, 0, e);
    MulMono(e, deadline, CHECK_INTERVAL_MS + late);
  }

  lemma {:induction false} StaysEnded(s: Status, checks: seq<Check>, late: nat, i: nat, k: nat)
    requires Spaced(checks, late) && i <= k <= |checks| && !RunFrom(s, checks[..i]).isThrottled
    ensures !RunFrom(s, checks[..k]).isThrottled
    decreases k
  {
    hide Step, Check.Safe, RunFrom;
    if i < k {
      StaysEnded(s, checks, late, i, k - 1);
      RunFromSnoc(s, checks, k - 1);
      CalmIsSafe(checks[k - 1]);
      SafeStaysOut(RunFrom(s, checks[..k - 1]), checks[k - 1]);
    }
  }

  lemma SafeStaysOut(s: Status, c: Check)
    requires !s.isThrottled && c.Safe()
    ensures !Step(s, c, true).isThrottled
  {}

  // With checks exactly every 5 s that read the clock once, it ends exactly 30 s and 10 s for
  // every step after the first of them.
  lemma EpisodeEndsInTime(s: Status, checks: seq<Check>) returns (e: nat)
    requires s.isThrottled && s.safeSince == 0 && checks != [] && checks[0].now > 0
      && s.lastRecoveryTime <= checks[0].now
    requires Spaced(checks, 0) && forall i :: 0 <= i < |checks| ==> checks[i].now == checks[i].nowRecover
    requires |checks| > 6 + 2 * StepsLeft(s)
    ensures e < |checks| && !RunFrom(s, checks[..e + 1]).isThrottled
    ensures forall k :: 0 <= k <= e ==> RunFrom(s, checks[..k]).isThrottled
    ensures checks[e].now ==
      checks[0].now + WATCHDOG_RECOVERY_STABILITY_MS + WATCHDOG_RECOVERY_INTERVAL_MS * StepsLeft(s)
  {
    hide StepsLeft, Check.Safe, RunFrom;
    SecondIsApart(checks, 0);
    e := EpisodeEnds(s, checks, 0, 2);
  }

  // Whatever the two clock readings of a check, it ends at the latest in check 6 + 3 * n.
  lemma EpisodeEndsSoon(s: Status, checks: seq<Check>, late: nat) returns (e: nat)
    requires s.isThrottled && s.safeSince == 0 && checks != [] && checks[0].now > 0
      && s.lastRecoveryTime <= checks[0].now
    requires Spaced(checks, late) && |checks| > 6 + 3 * StepsLeft(s)
    ensures e < |checks| && !RunFrom(s, checks[..e + 1]).isThrottled
    ensures forall k :: 0 <= k <= e ==> RunFrom(s, checks[..k]).isThrottled
    ensures checks[e].nowRecover >= checks[0].now + WATCHDOG_RECOVERY_STABILITY_MS
      + WATCHDOG_RECOVERY_INTERVAL_MS * StepsLeft(s)
    ensures checks[e].now <= checks[0].now + (CHECK_INTERVAL_MS + late) * (6 + 3 * StepsLeft(s))
  {
    hide StepsLeft, Check.Safe, RunFrom;
    ThirdIsApart(checks, late);
    e := EpisodeEnds(s, checks, late, 3);
  }

  // ----- In a run -----

  lemma StepRecoveryTime(s: Status, e: Event)
    ensures var t := StepOf(s, e).lastRecoveryTime; t == s.lastRecoveryTime || t == e.Check().nowRecover || t == 0
  {
    hide Lowered, Raised, LoweredTarget, Waits, AtTarget, RaisedFrequency, RaisedVoltage, Check.Safe, Check.Unsafe;
  }

  // No upward step is remembered from the future.
  lemma {:induction false} LastRecoveryIsPast(events: seq<Event>, now: int)
    requires now >= 0 && forall i :: 0 <= i < |events| ==> events[i].Check().nowRecover <= now
    ensures Run(events).lastRecoveryTime <= now
  {
    hide StepOf;
    if events != [] {
      var n := |events| - 1;
      forall i | 0 <= i < n ensures events[..n][i].Check().nowRecover <= now {
        assert events[..n][i] == events[i];
      }
      LastRecoveryIsPast(events[..n], now);
      StepRecoveryTime(Run(events[..n]), events[n]);
    }
  }

  lemma {:induction false} RunFromIsRun(events: seq<Event>, checks: seq<Check>, id: int)
    ensures RunFrom(Run(events), checks) == Run(events + Delivered(checks, id))
  {
    hide Step;
    if checks == [] {
      assert events + Delivered(checks, id) == events;
    } else {
      var n := |checks| - 1;
      var all := events + Delivered(checks, id);
      RunFromIsRun(events, checks[..n], id);
      assert all[..|all| - 1] == events + Delivered(checks[..n], id);
      assert all[|all| - 1] == Event(SlaveInfo(true, id, checks[n]), true);
    }
  }

  // The stability timer does not run when the last check was not safe.
  lemma NoTimerAfterUnsafe(events: seq<Event>)
    requires events != [] && !events[|events| - 1].Safe()
    ensures Run(events).safeSince == 0
  {
    hide Run, Event.Safe;
    TimerMeaning(events);
  }

  // However a device came to be throttled: once all checks are safe its episode ends in time.
  lemma EpisodeEndsInRun(events: seq<Event>, checks: seq<Check>, id: int, late: nat, p: nat) returns (e: nat)
    requires Run(events).isThrottled && events != [] && !events[|events| - 1].Safe() && checks != []
    requires checks[0].now > 0 && forall i :: 0 <= i < |events| ==> events[i].Check().nowRecover <= checks[0].now
    requires Spaced(checks, late) && Apart(checks, p) && p > 0 && |checks| > Deadline(p, StepsLeft(Run(events)))
    ensures e < |checks|
    ensures forall k :: 0 <= k <= |checks| ==> (Run(events + Delivered(checks[..k], id)).isThrottled <==> k <= e)
    ensures checks[e].nowRecover >=
      checks[0].now + WATCHDOG_RECOVERY_STABILITY_MS + WATCHDOG_RECOVERY_INTERVAL_MS * StepsLeft(Run(events))
    ensures checks[e].now <= checks[0].now + (CHECK_INTERVAL_MS + late) * Deadline(p, StepsLeft(Run(events)))
  {
    hide Run, RunFrom, StepsLeft, Deadline, Check.Safe, Event.Safe, Spaced, Apart, Delivered;
    NoTimerAfterUnsafe(events);
    LastRecoveryIsPast(events, checks[0].now);
    e := EpisodeEnds(Run(events), checks, late, p);
    forall k | 0 <= k <= |checks| ensures Run(events + Delivered(checks[..k], id)).isThrottled <==> k <= e {
      RunFromIsRun(events, checks[..k], id);
    }
  }
}
