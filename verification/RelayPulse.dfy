/** Does a command fire its pulse, and does the pulse last? The relay loop closed through the broker, with the
    passing of time. */
module RelayPulse {
  import opened Bytes
  import opened Dispatch
  import opened Mqtt
  import opened RelayLoop
  import Relay

  // ---------------------------------------------------------------- does a pulse last its two seconds?

  /** An "off" is on its way to the relay task: a report not yet published, or published and not yet back,
      or any falsy command queued, or one in the mailbox. */
  predicate OffOnItsWay(s: State) {
    || s.relay.change.Some?
    || s.relay.trigger == Some(Relay.Off)
    || (exists i | 0 <= i < |s.up| :: s.up[i].topic == TOPIC_RELAY)
    || (exists i | 0 <= i < |s.down| :: Asks(s.down[i], false))
  }

  predicate RebootOnItsWay(s: State) { exists i | 0 <= i < |s.down| :: AsksReboot(s.down[i]) }

  /** Nobody else sends an "off" or a reboot. */
  predicate NoOneCancels(run: seq<Step>) {
    forall i | 0 <= i < |run| :: run[i].External? ==> Harmless(run[i].m)
  }

  /** A pulse meant to last until `until` is running and nothing can cut it. */
  predicate Safe(s: State, until: nat) {
    s.relay.phase.Pulsing? && s.relay.phase.deadline >= until && !OffOnItsWay(s) && !RebootOnItsWay(s)
  }

  // Queues without an "off" or reboot.

  predicate Harmless(m: Msg) { !Asks(m, false) && !AsksReboot(m) }

  predicate AllHarmless(q: seq<Msg>) { forall i | 0 <= i < |q| :: Harmless(q[i]) }

  predicate NoReport(q: seq<Msg>) { forall i | 0 <= i < |q| :: q[i].topic != TOPIC_RELAY }

  lemma SafeIff(s: State, until: nat)
    ensures Safe(s, until) <==>
              && s.relay.phase.Pulsing? && s.relay.phase.deadline >= until
              && s.relay.change.None? && s.relay.trigger != Some(Relay.Off)
              && NoReport(s.up) && AllHarmless(s.down)
  {
  }

  lemma SafeStep(s: State, st: Step, until: nat)
    requires Inv(s) && Enabled(s, st) && Safe(s, until) && s.now < until
    requires st.External? ==> Harmless(st.m)
    ensures Safe(Do(s, st), until)
  {
    Topics();
    SafeIff(s, until);
    SafeIff(Do(s, st), until);
    match st {
      case Forward => assert s.up[0].topic != TOPIC_RELAY;
      case Receive => assert Harmless(s.down[0]);
      case Poll => Relay.PollEffect(s.relay, s.now);
      case _ =>
    }
  }

  /** Up to its deadline the pulse holds, whatever else happens. */
  lemma {:induction false} SafeRun(s: State, run: seq<Step>, until: nat)
    requires Inv(s) && Valid(s, run) && Safe(s, until) && NoOneCancels(run)
    requires Exec(s, run).now < until
    ensures Safe(Exec(s, run), until)
    decreases |run|
  {
    if |run| > 0 {
      var t := Do(s, run[0]);
      ClockMonotone(t, run[1..]);
      assert s.now <= t.now;
      assert NoOneCancels(run[1..]) by {
        assert forall i | 0 <= i < |run[1..]| :: run[1..][i] == run[i + 1];
      }
      StepKeepsInv(s, run[0]);
      SafeStep(s, run[0], until);
      SafeRun(t, run[1..], until);
    }
  }

  lemma {:induction false} ClockMonotone(s: State, run: seq<Step>)
    requires Valid(s, run)
    ensures s.now <= Exec(s, run).now
    decreases |run|
  {
    if |run| > 0 { ClockMonotone(Do(s, run[0]), run[1..]); }
  }

  /** The pulse of `s` survives to its deadline on every schedule without outside interference. */
  ghost predicate PulseGuaranteed(s: State)
    requires s.relay.phase.Pulsing?
  {
    forall run | Valid(s, run) && NoOneCancels(run) && Exec(s, run).now < s.relay.phase.deadline ::
      Exec(s, run).relay.pin
  }

  /** From here some schedule without external messages and without time passing drops the pin. */
  ghost predicate Cuttable(s: State) {
    exists run :: Valid(s, run) && NoOneCancels(run) && Exec(s, run).now == s.now && !Exec(s, run).relay.pin
  }

  /** The steps that only move packets. */
  predicate Moves(st: Step) {
    st.Forward? || st.Receive? || st.Publish? || st.LoseUp? || st.LoseDown? || st.Reconnect?
  }

  predicate Moving(run: seq<Step>) { forall i | 0 <= i < |run| :: Moves(run[i]) }

  /** From here some packet traffic puts an "off" into the mailbox. */
  ghost predicate OffArrives(s: State) {
    exists run :: Valid(s, run) && Moving(run) && Exec(s, run).relay.trigger == Some(Relay.Off)
  }

  lemma ArrivesAfter(s: State, st: Step)
    requires Enabled(s, st) && Moves(st) && OffArrives(Do(s, st))
    ensures OffArrives(s)
  {
    var run :| Valid(Do(s, st), run) && Moving(run) && Exec(Do(s, st), run).relay.trigger == Some(Relay.Off);
    Chain(s, st, run);
    assert Moving([st] + run);
  }

  lemma OffHere(s: State)
    requires s.relay.trigger == Some(Relay.Off)
    ensures OffArrives(s)
  {
    var none: seq<Step> := [];
    assert Valid(s, none) && Moving(none) && Exec(s, none) == s;
  }

  lemma {:induction false} InboundArrives(s: State, i: nat)
    requires Inv(s) && s.online && i < |s.down| && Asks(s.down[i], false)
    ensures OffArrives(s)
    decreases i
  {
    if i == 0 {
      OffHere(Do(s, Receive));
      ArrivesAfter(s, Receive);
    } else {
      var t := Do(s, LoseDown(0));
      StepKeepsInv(s, LoseDown(0));
      assert t.down[i - 1] == s.down[i];
      InboundArrives(t, i - 1);
      ArrivesAfter(s, LoseDown(0));
    }
  }

  lemma {:induction false} OwnReportArrives(s: State, i: nat)
    requires Inv(s) && s.online && i < |s.up| && s.up[i].topic == TOPIC_RELAY
    ensures OffArrives(s)
    decreases i
  {
    if i == 0 {
      Topics();
      RelayOffDecodes(s.up[0].payload);
      var t := Do(s, Forward);
      StepKeepsInv(s, Forward);
      assert Asks(t.down[|t.down| - 1], false);
      InboundArrives(t, |t.down| - 1);
      ArrivesAfter(s, Forward);
    } else {
      var t := Do(s, LoseUp(0));
      StepKeepsInv(s, LoseUp(0));
      assert t.up[i - 1] == s.up[i];
      OwnReportArrives(t, i - 1);
      ArrivesAfter(s, LoseUp(0));
    }
  }

  lemma PendingReportArrives(s: State)
    requires Inv(s) && s.relay.change.Some?
    ensures OffArrives(s)
    decreases !s.online
  {
    if s.online {
      var t := Do(s, Publish);
      StepKeepsInv(s, Publish);
      OwnReportArrives(t, |t.up| - 1);
      ArrivesAfter(s, Publish);
    } else {
      var t := Do(s, Reconnect([]));
      StepKeepsInv(s, Reconnect([]));
      PendingReportArrives(t);
      ArrivesAfter(s, Reconnect([]));
    }
  }

  lemma OffOnItsWayArrives(s: State)
    requires Inv(s) && OffOnItsWay(s)
    ensures OffArrives(s)
  {
    if s.relay.change.Some? {
      PendingReportArrives(s);
    } else if s.relay.trigger == Some(Relay.Off) {
      OffHere(s);
    } else if exists i | 0 <= i < |s.up| :: s.up[i].topic == TOPIC_RELAY {
      var i :| 0 <= i < |s.up| && s.up[i].topic == TOPIC_RELAY;
      OwnReportArrives(s, i);
    } else {
      var i :| 0 <= i < |s.down| && Asks(s.down[i], false);
      InboundArrives(s, i);
    }
  }

  lemma {:induction false} MovingTakesNoTime(s: State, run: seq<Step>)
    requires Valid(s, run) && Moving(run)
    ensures Exec(s, run).now == s.now && NoOneCancels(run)
    decreases |run|
  {
    if |run| > 0 {
      assert Moves(run[0]);
      assert forall i | 0 <= i < |run[1..]| :: run[1..][i] == run[i + 1];
      MovingTakesNoTime(Do(s, run[0]), run[1..]);
    }
  }

  /** An "off" that arrives is taken by the next poll, which leaves the pin low. */
  lemma PollAfterOff(s: State) returns (run: seq<Step>)
    requires Inv(s) && OffArrives(s)
    ensures Valid(s, run) && NoOneCancels(run) && FirstPoll(run)
    ensures Exec(s, run).now == s.now && Exec(s, run).relay.phase.Idle? && !Exec(s, run).relay.pin
  {
    var moves :| Valid(s, moves) && Moving(moves) && Exec(s, moves).relay.trigger == Some(Relay.Off);
    var t := Exec(s, moves);
    EchoFreedom(s, moves);
    MovingTakesNoTime(s, moves);
    RunOn(s, moves, Poll);
    Relay.PollEffect(t.relay, t.now);
    run := moves + [Poll];
    assert FirstPoll(run) && NoOneCancels(run);
  }

  lemma {:induction false} CutByReboot(s: State, i: nat)
    requires Inv(s) && i < |s.down| && AsksReboot(s.down[i])
    ensures Cuttable(s)
    decreases i
  {
    var st := if i == 0 then Receive else LoseDown(0);
    var t := Do(s, st);
    StepKeepsInv(s, st);
    var run: seq<Step> := [];
    if i == 0 {
      assert Valid(t, run) && NoOneCancels(run) && Exec(t, run) == t;
    } else {
      assert t.down[i - 1] == s.down[i];
      CutByReboot(t, i - 1);
      run :| Valid(t, run) && NoOneCancels(run) && Exec(t, run).now == t.now && !Exec(t, run).relay.pin;
    }
    Chain(s, st, run);
    assert NoOneCancels([st] + run);
  }

  /** Exactly when a running pulse is sure to last to its deadline: iff no "off" and no reboot is on its way
      when it runs. The device's own report of the previous pulse is such an "off". */
  lemma PulseGuaranteedIff(s: State)
    requires Inv(s) && s.relay.phase.Pulsing? && s.now < s.relay.phase.deadline
    ensures PulseGuaranteed(s) <==> !OffOnItsWay(s) && !RebootOnItsWay(s)
  {
    if OffOnItsWay(s) {
      OffOnItsWayArrives(s);
      var run := PollAfterOff(s);
    } else if RebootOnItsWay(s) {
      var i :| 0 <= i < |s.down| && AsksReboot(s.down[i]);
      CutByReboot(s, i);
    } else {
      forall run | Valid(s, run) && NoOneCancels(run) && Exec(s, run).now < s.relay.phase.deadline
        ensures Exec(s, run).relay.pin
      {
        SafeRun(s, run, s.relay.phase.deadline);
        EchoFreedom(s, run);
      }
    }
  }

  // ---------------------------------------------------------------- does a command fire its pulse?

  /** Up to and including the next poll of the relay task. */
  predicate FirstPoll(run: seq<Step>) {
    |run| > 0 && run[|run| - 1].Poll? && forall i | 0 <= i < |run| - 1 :: !run[i].Poll?
  }

  /** The command in the mailbox fires a 2 s pulse on every schedule without outside interference: the next
      poll, whenever it comes, starts it, and it is sure to last. */
  ghost predicate CommandGuaranteed(s: State) {
    forall run | Valid(s, run) && NoOneCancels(run) && FirstPoll(run) ::
      var t := Exec(s, run);
      t.relay.phase == Relay.Pulsing(t.now + Relay.RELAY_PULSE) && PulseGuaranteed(t)
  }

  /** No pulse is running and nothing that would stop one is under way. */
  predicate Calm(s: State) { s.relay.phase.Idle? && !OffOnItsWay(s) && !RebootOnItsWay(s) }

  lemma CalmIff(s: State)
    ensures Calm(s) <==>
              && s.relay.phase.Idle? && s.relay.change.None? && s.relay.trigger != Some(Relay.Off)
              && NoReport(s.up) && AllHarmless(s.down)
  {
  }

  lemma CalmStep(s: State, st: Step)
    requires Inv(s) && Enabled(s, st) && Calm(s) && !st.Poll?
    requires st.External? ==> Harmless(st.m)
    ensures Calm(Do(s, st))
    ensures s.relay.trigger == Some(Relay.Pulse) ==> Do(s, st).relay.trigger == Some(Relay.Pulse)
  {
    Topics();
    CalmIff(s);
    CalmIff(Do(s, st));
    match st {
      case Forward => assert s.up[0].topic != TOPIC_RELAY;
      case Receive => assert Harmless(s.down[0]);
      case _ =>
    }
  }

  lemma CalmPoll(s: State)
    requires Inv(s) && Calm(s) && s.relay.trigger == Some(Relay.Pulse)
    ensures var t := Do(s, Poll);
            t.relay.phase == Relay.Pulsing(t.now + Relay.RELAY_PULSE) && PulseGuaranteed(t)
  {
    StepKeepsInv(s, Poll);
    Relay.PollEffect(s.relay, s.now);
    PulseGuaranteedIff(Do(s, Poll));
  }

  lemma Shorter(run: seq<Step>)
    requires |run| > 0 && NoOneCancels(run)
    ensures NoOneCancels(run[1..])
    ensures FirstPoll(run) && |run| > 1 ==> !run[0].Poll? && FirstPoll(run[1..])
  {
    assert forall i | 0 <= i < |run[1..]| :: run[1..][i] == run[i + 1];
  }

  lemma {:induction false} CalmRun(s: State, run: seq<Step>)
    requires Inv(s) && Calm(s) && s.relay.trigger == Some(Relay.Pulse)
    requires Valid(s, run) && NoOneCancels(run) && FirstPoll(run)
    ensures var t := Exec(s, run);
            t.relay.phase == Relay.Pulsing(t.now + Relay.RELAY_PULSE) && PulseGuaranteed(t)
    decreases |run|
  {
    Shorter(run);
    var t := Do(s, run[0]);
    if |run| == 1 {
      CalmPoll(s);
      assert Exec(s, run) == Exec(t, run[1..]) == t;
    } else {
      CalmStep(s, run[0]);
      StepKeepsInv(s, run[0]);
      CalmRun(t, run[1..]);
    }
  }

  /** A Pulse that waits while a pulse is running can meet the deadline: the poll there reports the old pulse
      and starts the new one with that report under way. */
  lemma RetriggerAtRisk(s: State) returns (run: seq<Step>)
    requires Inv(s) && s.relay.trigger == Some(Relay.Pulse) && s.relay.phase.Pulsing?
    ensures Valid(s, run) && NoOneCancels(run) && FirstPoll(run)
    ensures var t := Exec(s, run); t.relay.phase.Pulsing? && !PulseGuaranteed(t)
  {
    var wait := Tick(s.relay.phase.deadline);
    var t := Do(s, wait);
    StepKeepsInv(s, wait);
    StepKeepsInv(t, Poll);
    Relay.PollEffect(t.relay, t.now);
    PulseGuaranteedIff(Do(t, Poll));
    var none: seq<Step> := [];
    Chain(t, Poll, none);
    Chain(s, wait, [Poll] + none);
    run := [wait] + ([Poll] + none);
    assert FirstPoll(run);
  }

  lemma RebootAtRisk(s: State)
    requires Inv(s) && s.relay.trigger == Some(Relay.Pulse) && RebootOnItsWay(s)
    ensures !CommandGuaranteed(s)
  {
    var t := Do(s, Poll);
    StepKeepsInv(s, Poll);
    Relay.PollEffect(s.relay, s.now);
    PulseGuaranteedIff(t);
    var none: seq<Step> := [];
    Chain(s, Poll, none);
    var run := [Poll] + none;
    assert FirstPoll(run) && NoOneCancels(run) && Exec(s, run) == t;
  }

  /** Exactly when "any truthy command fires a 2 s pulse" (and "retrigger restarts the window") holds for the
      command in the mailbox: iff no pulse is running, and no "off" and no reboot is on its way. */
  lemma CommandGuaranteedIff(s: State)
    requires Inv(s) && s.relay.trigger == Some(Relay.Pulse)
    ensures CommandGuaranteed(s) <==> s.relay.phase.Idle? && !OffOnItsWay(s) && !RebootOnItsWay(s)
  {
    if s.relay.phase.Pulsing? {
      var run := RetriggerAtRisk(s);
    } else if OffOnItsWay(s) {
      OffOnItsWayArrives(s);
      var run := PollAfterOff(s);
    } else if RebootOnItsWay(s) {
      RebootAtRisk(s);
    } else {
      forall run | Valid(s, run) && NoOneCancels(run) && FirstPoll(run)
        ensures var t := Exec(s, run);
                t.relay.phase == Relay.Pulsing(t.now + Relay.RELAY_PULSE) && PulseGuaranteed(t)
      {
        CalmRun(s, run);
      }
    }
  }

  /** A command to a quiet device gets its full 2 s: on whatever schedule it travels, once it is in the
      mailbox it is guaranteed. */
  lemma {:induction false} QuietCommandPulses(s: State, run: seq<Step>)
    requires Inv(s) && Calm(s) && Valid(s, run) && NoOneCancels(run)
    requires forall i | 0 <= i < |run| :: !run[i].Poll?
    requires Exec(s, run).relay.trigger == Some(Relay.Pulse)
    ensures CommandGuaranteed(Exec(s, run))
    decreases |run|
  {
    if |run| == 0 {
      CommandGuaranteedIff(s);
    } else {
      Shorter(run);
      assert forall i | 0 <= i < |run[1..]| :: run[1..][i] == run[i + 1];
      CalmStep(s, run[0]);
      StepKeepsInv(s, run[0]);
      QuietCommandPulses(Do(s, run[0]), run[1..]);
    }
  }

  /** In particular from every state in which the loop rests. */
  lemma QuietDevicePulses(s: State, run: seq<Step>)
    requires Inv(s) && Quiescent(s) && Valid(s, run) && NoOneCancels(run)
    requires forall i | 0 <= i < |run| :: !run[i].Poll?
    requires Exec(s, run).relay.trigger == Some(Relay.Pulse)
    ensures CommandGuaranteed(Exec(s, run))
  {
    CalmIff(s);
    QuietCommandPulses(s, run);
  }

  // ---------------------------------------------------------------- the echo against the next command

  const ON: Msg := Msg(TOPIC_RELAY, "1", false)

  lemma OnAsksOn()
    ensures Asks(ON, true) && ON.topic in SUBSCRIBED && Asks(ReportOf(false), false)
  {
    Topics();
    RelayOnDecodes();
    RelayOffDecodes("0");
  }

  /** After the first pulse has ended and been reported; the report is with the broker. */
  const REPORTED: State := State(Relay.REST, true, [ReportOf(false)], [], 2000)

  lemma {:induction false} RunOn(s: State, run: seq<Step>, st: Step)
    requires Valid(s, run) && Enabled(Exec(s, run), st)
    ensures Valid(s, run + [st]) && Exec(s, run + [st]) == Do(Exec(s, run), st)
    decreases |run|
  {
    if |run| == 0 {
      assert run + [st] == [st];
      assert [st][1..] == [];
    } else {
      assert (run + [st])[1..] == run[1..] + [st];
      RunOn(Do(s, run[0]), run[1..], st);
    }
  }

  const PRESS: seq<Step> := [External(ON), Receive, Poll]

  /** Power to the pin at `until - 2000`, whatever is on its way up. */
  function Pulsed(up: seq<Msg>, change: Option<bool>, now: nat): State {
    State(Relay.State(Relay.Pulsing(now + Relay.RELAY_PULSE), true, None, change), true, up, [], now)
  }

  /** A truthy command to an idle relay starts its pulse. */
  lemma Press(s: State)
    requires s.online && s.relay == Relay.REST && s.down == []
    ensures Valid(s, PRESS) && Exec(s, PRESS) == Pulsed(s.up, None, s.now)
  {
    OnAsksOn();
    var s1 := Do(s, External(ON));
    assert s1.down == [ON];
    var s2 := Do(s1, Receive);
    assert s2.down == [] && s2.up == s.up;
    Relay.PollEffect(s2.relay, s2.now);
    RunOn(s, [], External(ON));
    assert [] + [External(ON)] == [External(ON)];
    RunOn(s, [External(ON)], Receive);
    assert [External(ON)] + [Receive] == [External(ON), Receive];
    RunOn(s, [External(ON), Receive], Poll);
    assert [External(ON), Receive] + [Poll] == PRESS;
  }

  const REPORTING: seq<Step> := PRESS + [Tick(2000), Poll, Publish]

  lemma FirstPulse()
    ensures Valid(START, REPORTING) && NoOneCancels(REPORTING) && Exec(START, REPORTING) == REPORTED
  {
    OnAsksOn();
    Press(START);
    RunOn(START, PRESS, Tick(2000));
    var s := Pulsed([], None, 0).(now := 2000);
    assert Exec(START, PRESS + [Tick(2000)]) == s;
    Relay.PollEffect(s.relay, 2000);
    RunOn(START, PRESS + [Tick(2000)], Poll);
    RunOn(START, PRESS + [Tick(2000)] + [Poll], Publish);
    assert PRESS + [Tick(2000)] + [Poll] + [Publish] == REPORTING;
  }

  const CUT: seq<Step> := PRESS + [Forward, Receive, Poll]

  /** A truthy command that arrives with the report of the previous pulse still at the broker: its pulse
      starts, and the device's own echo ends it in the same instant. */
  lemma SecondPulseCut()
    ensures Valid(REPORTED, PRESS) && Exec(REPORTED, PRESS).relay.phase == Relay.Pulsing(4000)
    ensures Valid(REPORTED, CUT)
    ensures Exec(REPORTED, CUT) == State(Relay.REST.(change := Some(false)), true, [], [], 2000)
  {
    OnAsksOn();
    Press(REPORTED);
    var s := Pulsed([ReportOf(false)], None, 2000);
    RunOn(REPORTED, PRESS, Forward);
    var s1 := Do(s, Forward);
    assert s1.down == [ReportOf(false)] && s1.up == [];
    RunOn(REPORTED, PRESS + [Forward], Receive);
    var s2 := Do(s1, Receive);
    assert s2.down == [];
    Relay.PollEffect(s2.relay, s2.now);
    RunOn(REPORTED, PRESS + [Forward] + [Receive], Poll);
    assert PRESS + [Forward] + [Receive] + [Poll] == CUT;
  }

  const SWALLOWED: seq<Step> := [External(ON), Forward, Receive, Receive, Poll]

  /** ... or the echo replaces the command in the mailbox before the relay task has seen it. */
  lemma SecondCommandSwallowed()
    ensures Valid(REPORTED, SWALLOWED) && Exec(REPORTED, SWALLOWED) == State(Relay.REST, true, [], [], 2000)
  {
    OnAsksOn();
    var s1 := Do(REPORTED, External(ON));
    var s2 := Do(s1, Forward);
    assert s1.down == [ON] && s2.down == [ON, ReportOf(false)] && s2.up == [];
    var s3 := Do(s2, Receive);
    assert s3.down == [ReportOf(false)];
    var s4 := Do(s3, Receive);
    assert s4.down == [];
    Relay.PollEffect(s4.relay, s4.now);
    RunOn(REPORTED, [], External(ON));
    RunOn(REPORTED, [] + [External(ON)], Forward);
    RunOn(REPORTED, [] + [External(ON)] + [Forward], Receive);
    RunOn(REPORTED, [] + [External(ON)] + [Forward] + [Receive], Receive);
    RunOn(REPORTED, [] + [External(ON)] + [Forward] + [Receive] + [Receive], Poll);
    assert [] + [External(ON)] + [Forward] + [Receive] + [Receive] + [Poll] == SWALLOWED;
  }

  const RETRIGGER: seq<Step> := PRESS + [External(ON), Receive, Tick(2000), Poll]

  const ECHO: seq<Step> := [Publish, Forward, Receive, Poll]

  /** From power-up, nothing but two truthy commands: the second one waits while the first pulse runs, and the
      task is polled at the deadline. A new pulse starts there, and the report of the old one comes back and
      ends it in the same instant. */
  lemma RetriggerCut()
    ensures Valid(START, RETRIGGER) && Exec(START, RETRIGGER) == Pulsed([], Some(false), 2000)
    ensures Valid(Exec(START, RETRIGGER), ECHO) && NoOneCancels(RETRIGGER) && NoOneCancels(ECHO)
    ensures Exec(Exec(START, RETRIGGER), ECHO) == State(Relay.REST.(change := Some(false)), true, [], [], 2000)
  {
    OnAsksOn();
    RetriggerStarts();
    var s := Pulsed([], Some(false), 2000);
    var s1 := Do(s, Publish);
    assert s1.up == [ReportOf(false)];
    var s2 := Do(s1, Forward);
    assert s2.down == [ReportOf(false)] && s2.up == [];
    var s3 := Do(s2, Receive);
    assert s3.down == [];
    Relay.PollEffect(s3.relay, s3.now);
    RunOn(s, [], Publish);
    RunOn(s, [] + [Publish], Forward);
    RunOn(s, [] + [Publish] + [Forward], Receive);
    RunOn(s, [] + [Publish] + [Forward] + [Receive], Poll);
    assert [] + [Publish] + [Forward] + [Receive] + [Poll] == ECHO;
  }

  lemma RetriggerStarts()
    ensures Valid(START, RETRIGGER) && Exec(START, RETRIGGER) == Pulsed([], Some(false), 2000)
  {
    OnAsksOn();
    Press(START);
    var s := Pulsed([], None, 0);
    var s1 := Do(s, External(ON));
    assert s1.down == [ON];
    var s2 := Do(s1, Receive);
    assert s2.down == [];
    var s3 := Do(s2, Tick(2000));
    Relay.PollEffect(s3.relay, s3.now);
    RunOn(START, PRESS, External(ON));
    RunOn(START, PRESS + [External(ON)], Receive);
    RunOn(START, PRESS + [External(ON)] + [Receive], Tick(2000));
    RunOn(START, PRESS + [External(ON)] + [Receive] + [Tick(2000)], Poll);
    assert PRESS + [External(ON)] + [Receive] + [Tick(2000)] + [Poll] == RETRIGGER;
  }
}
