/** The relay closed through the broker (src/mqtt.rs, src/outputs.rs): relay task, MQTT task and a broker
    that hands every publication to its subscribers, the publishing device included (MQTT 5.0,
    section 3.8.3.1: without No Local a client gets its own messages back; section 3.3.1.3: messages of
    an established subscription arrive with RETAIN 0, stored ones replayed on subscribing with RETAIN 1). */
module RelayLoop {
  import opened Bytes
  import opened Dispatch
  import opened Mqtt
  import Relay

  /** The device, the link, and the packets under way in both directions. */
  datatype State = State(relay: Relay.State, online: bool, up: seq<Msg>, down: seq<Msg>, now: nat)

  const START: State := State(Relay.REST, true, [], [], 0)

  // ---------------------------------------------------------------- steps of the closed system

  datatype Step =
    | External(m: Msg)              // another client's message reaches the device's queue
    | Forward                       // the broker takes the device's oldest publication
    | Receive                       // the MQTT task handles the oldest inbound packet
    | Publish                       // ... or publishes a relay report
    | PublishFails                  // ... and loses it, and the connection
    | Poll                          // the relay task runs until it waits again
    | Heartbeat                     // the periodic publication
    | Tick(ms: nat)
    | LoseUp(i: nat) | LoseDown(i: nat)   // QoS 0: any packet may be lost
    | Disconnect
    | Reconnect(stored: seq<Msg>)   // clean start; the broker replays its stored messages

  predicate Enabled(s: State, st: Step) {
    match st
    case External(m) => s.online && m.topic in SUBSCRIBED
    case Forward => s.online && |s.up| > 0
    case Receive => s.online && |s.down| > 0
    case Publish => s.online && s.relay.change.Some?
    case PublishFails => s.online && s.relay.change.Some?
    case Poll => Relay.Ready(s.relay, s.now)
    case Heartbeat => s.online
    case Tick(_) => true
    case LoseUp(i) => i < |s.up|
    case LoseDown(i) => i < |s.down|
    case Disconnect => s.online
    case Reconnect(stored) => !s.online && forall i | 0 <= i < |stored| :: stored[i].retain
  }

  /** The steps of the loop itself; the others are the environment's. */
  predicate Protocol(st: Step) {
    st.Forward? || st.Receive? || st.Publish? || st.PublishFails? || st.Poll? || st.LoseUp? || st.LoseDown?
  }

  function Offline(s: State): State { s.(online := false, up := [], down := []) }

  function Do(s: State, st: Step): State
    requires Enabled(s, st)
  {
    match st
    case External(m) => s.(down := s.down + [m])
    case Forward =>
      if s.up[0].topic in SUBSCRIBED then s.(up := s.up[1..], down := s.down + [s.up[0].(retain := false)])
      else s.(up := s.up[1..])
    case Receive =>
      if AsksReboot(s.down[0]) then Offline(s).(relay := Relay.REST)
      else
        s.(relay := Commanded(s.relay, s.down[0]), up := s.up + Answer(s.down[0]), down := s.down[1..])
    case Publish => s.(relay := s.relay.(change := None), up := s.up + [ReportOf(s.relay.change.value)])
    case PublishFails => Offline(s).(relay := s.relay.(change := None))
    case Poll => s.(relay := Relay.Poll(s.relay, s.now))
    case Heartbeat => s.(up := s.up + [HEARTBEAT])
    case Tick(ms) => s.(now := s.now + ms)
    case LoseUp(i) => s.(up := s.up[..i] + s.up[i + 1..])
    case LoseDown(i) => s.(down := s.down[..i] + s.down[i + 1..])
    case Disconnect => Offline(s)
    case Reconnect(stored) => s.(online := true, down := stored)
  }

  /** A run: every step enabled where it is taken. */
  predicate Valid(s: State, run: seq<Step>)
    decreases |run|
  {
    |run| == 0 || (Enabled(s, run[0]) && Valid(Do(s, run[0]), run[1..]))
  }

  function Exec(s: State, run: seq<Step>): State
    requires Valid(s, run)
    decreases |run|
  {
    if |run| == 0 then s else Exec(Do(s, run[0]), run[1..])
  }

  // ---------------------------------------------------------------- what every step keeps

  /** Publications of the device that are on the relay topic say "0". */
  predicate OwnSaysOff(up: seq<Msg>) {
    forall i | 0 <= i < |up| :: up[i].topic == TOPIC_RELAY ==> up[i].payload == "0"
  }

  /** Only the relay topic and unsubscribed ones are published on. */
  predicate OwnTopics(up: seq<Msg>) {
    forall i | 0 <= i < |up| :: up[i].topic in SUBSCRIBED ==> up[i].topic == TOPIC_RELAY
  }

  predicate Inv(s: State) {
    && Relay.PinFollows(s.relay)
    && s.relay.change != Some(true)
    && (s.relay.phase.Pulsing? ==> s.relay.phase.deadline <= s.now + Relay.RELAY_PULSE)
    && OwnSaysOff(s.up) && OwnTopics(s.up)
    && (!s.online ==> s.up == [] && s.down == [])
  }

  lemma OwnAppend(up: seq<Msg>, m: Msg)
    requires OwnSaysOff(up) && OwnTopics(up)
    requires m.topic == TOPIC_RELAY ==> m.payload == "0"
    requires m.topic in SUBSCRIBED ==> m.topic == TOPIC_RELAY
    ensures OwnSaysOff(up + [m]) && OwnTopics(up + [m])
  {
  }

  lemma OwnDrop(up: seq<Msg>, i: nat)
    requires i < |up| && OwnSaysOff(up) && OwnTopics(up)
    ensures OwnSaysOff(up[..i] + up[i + 1..]) && OwnTopics(up[..i] + up[i + 1..])
  {
  }

  lemma Topics()
    ensures TOPIC_PONG !in SUBSCRIBED && TOPIC_HEARTBEAT !in SUBSCRIBED && TOPIC_RELAY in SUBSCRIBED
    ensures TOPIC_PONG != TOPIC_RELAY && TOPIC_HEARTBEAT != TOPIC_RELAY
  {
    assert |TOPIC_PONG| == 10 && |TOPIC_HEARTBEAT| == 15 && |TOPIC_RELAY| == 11;
    assert "stm32/pong"[7] == 'o' && "stm32/ping"[7] == 'i';
    assert |"stm32/led/1"| == 11 && |"stm32/led/2"| == 11 && |"stm32/led/all"| == 13 && |"stm32/cmd/reboot"| == 16;
  }

  lemma ReceiveKeepsInv(s: State)
    requires Inv(s) && Enabled(s, Receive)
    ensures Inv(Do(s, Receive))
  {
    Topics();
    assert s.up + [] == s.up;
    OwnAppend(s.up, PONG);
  }

  lemma StepKeepsInv(s: State, st: Step)
    requires Inv(s) && Enabled(s, st)
    ensures Inv(Do(s, st))
  {
    Topics();
    match st {
      case Receive => ReceiveKeepsInv(s);
      case Poll => Relay.PollEffect(s.relay, s.now);
      case Publish => OwnAppend(s.up, ReportOf(s.relay.change.value));
      case Heartbeat => OwnAppend(s.up, HEARTBEAT);
      case LoseUp(i) => OwnDrop(s.up, i);
      case Forward => assert s.up[1..] == s.up[..0] + s.up[1..]; OwnDrop(s.up, 0);
      case _ =>
    }
  }

  // ---------------------------------------------------------------- the measure

  /** Work an inbound packet can still cause. */
  function DownWork(m: Msg): nat {
    match CommandOf(m)
    case Some(Relay(on)) => if on then 7 else 2
    case Some(Ping) => 2
    case _ => 1
  }

  function UpWork(m: Msg): nat { if m.topic in SUBSCRIBED then 1 + DownWork(m.(retain := false)) else 1 }

  function DownSum(q: seq<Msg>): nat { if |q| == 0 then 0 else DownWork(q[0]) + DownSum(q[1..]) }

  function UpSum(q: seq<Msg>): nat { if |q| == 0 then 0 else UpWork(q[0]) + UpSum(q[1..]) }

  function RelayWork(r: Relay.State): nat {
    (match r.trigger case None => 0 case Some(Off) => 1 case Some(Pulse) => 6)
    + (if r.phase.Pulsing? then 5 else 0)
    + (if r.change.Some? then 4 else 0)
  }

  /** Everything still to be done without outside help: queued packets, both mailboxes, a running pulse. */
  function Measure(s: State): nat { RelayWork(s.relay) + UpSum(s.up) + DownSum(s.down) }

  predicate Quiescent(s: State) {
    s.relay.phase.Idle? && s.relay.trigger.None? && s.relay.change.None? && s.up == [] && s.down == []
  }

  lemma Without<T>(q: seq<T>, i: nat)
    requires i < |q|
    ensures q == q[..i] + [q[i]] + q[i + 1..]
  {
  }

  lemma {:induction false} DownSumSplit(a: seq<Msg>, b: seq<Msg>)
    ensures DownSum(a + b) == DownSum(a) + DownSum(b)
  {
    if |a| == 0 {
      assert a + b == b;
    } else {
      assert (a + b)[1..] == a[1..] + b;
      DownSumSplit(a[1..], b);
    }
  }

  lemma {:induction false} UpSumSplit(a: seq<Msg>, b: seq<Msg>)
    ensures UpSum(a + b) == UpSum(a) + UpSum(b)
  {
    if |a| == 0 {
      assert a + b == b;
    } else {
      assert (a + b)[1..] == a[1..] + b;
      UpSumSplit(a[1..], b);
    }
  }

  lemma DownSumDrop(a: seq<Msg>, m: Msg, b: seq<Msg>)
    ensures DownSum(a + [m] + b) == DownSum(a + b) + DownWork(m)
  {
    DownSumSplit(a + [m], b);
    DownSumSplit(a, [m]);
    DownSumSplit(a, b);
    assert DownSum([m]) == DownWork(m);
  }

  lemma UpSumDrop(a: seq<Msg>, m: Msg, b: seq<Msg>)
    ensures UpSum(a + [m] + b) == UpSum(a + b) + UpWork(m)
  {
    UpSumSplit(a + [m], b);
    UpSumSplit(a, [m]);
    UpSumSplit(a, b);
    assert UpSum([m]) == UpWork(m);
  }

  lemma {:induction false} StoredSum(q: seq<Msg>)
    requires forall i | 0 <= i < |q| :: q[i].retain
    ensures DownSum(q) == |q|
  {
    if |q| > 0 { StoredSum(q[1..]); }
  }

  /** An "off" report costs two packets and one turn. */
  lemma ReportWork()
    ensures CommandOf(ReportOf(false)) == Some(OutputCmd.Relay(false)) && UpWork(ReportOf(false)) == 3
  {
    Topics();
    RelayOffDecodes("0");
  }

  lemma RelayOffDecodes(payload: string)
    requires payload == "0"
    ensures Decode(TOPIC_RELAY, payload) == Some(OutputCmd.Relay(false))
  {
    assert "0"[0] != "1"[0];
    assert TOPIC_RELAY[6] == 'r' && "stm32/led/1"[6] == 'l' && "stm32/led/2"[6] == 'l';
  }

  lemma RelayOnDecodes()
    ensures Decode(TOPIC_RELAY, "1") == Some(OutputCmd.Relay(true))
  {
    assert TOPIC_RELAY[6] == 'r' && "stm32/led/1"[6] == 'l' && "stm32/led/2"[6] == 'l';
  }

  /** Work the environment adds with a step. */
  function Cost(st: Step): nat {
    match st
    case External(m) => DownWork(m)
    case Heartbeat => 1
    case Reconnect(stored) => |stored|
    case _ => 0
  }

  lemma ForwardWorks(s: State)
    requires Enabled(s, Forward)
    ensures Measure(Do(s, Forward)) + 1 <= Measure(s)
  {
    DownSumSplit(s.down, [s.up[0].(retain := false)]);
  }

  lemma ReceiveWorks(s: State)
    requires Enabled(s, Receive)
    ensures Measure(Do(s, Receive)) + 1 <= Measure(s)
  {
    UpSumSplit(s.up, Answer(s.down[0]));
    AnswerWork(s.down[0], s.relay);
  }

  lemma AnswerWork(m: Msg, r: Relay.State)
    ensures UpSum(Answer(m)) + RelayWork(Commanded(r, m)) + 1 <= RelayWork(r) + DownWork(m)
  {
    Topics();
    assert UpSum([PONG]) == UpWork(PONG) == 1;
  }

  lemma PublishWorks(s: State)
    requires Inv(s) && Enabled(s, Publish)
    ensures Measure(Do(s, Publish)) + 1 <= Measure(s)
  {
    ReportWork();
    UpSumSplit(s.up, [ReportOf(false)]);
    assert UpSum([ReportOf(false)]) == 3;
  }

  /** Every step of the loop does at least one unit of work; the environment adds what it costs. */
  lemma StepWorks(s: State, st: Step)
    requires Inv(s) && Enabled(s, st)
    ensures Measure(Do(s, st)) + (if Protocol(st) then 1 else 0) <= Measure(s) + Cost(st)
  {
    Topics();
    match st {
      case External(m) => DownSumSplit(s.down, [m]);
      case Forward => ForwardWorks(s);
      case Receive => ReceiveWorks(s);
      case Poll => Relay.PollEffect(s.relay, s.now);
      case Publish => PublishWorks(s);
      case Heartbeat => UpSumSplit(s.up, [HEARTBEAT]);
      case LoseUp(i) =>
        Without(s.up, i);
        UpSumDrop(s.up[..i], s.up[i], s.up[i + 1..]);
      case LoseDown(i) =>
        Without(s.down, i);
        DownSumDrop(s.down[..i], s.down[i], s.down[i + 1..]);
      case Reconnect(stored) => StoredSum(stored);
      case _ =>
    }
  }

  function ProtocolSteps(run: seq<Step>): nat {
    if |run| == 0 then 0 else (if Protocol(run[0]) then 1 else 0) + ProtocolSteps(run[1..])
  }

  function TotalCost(run: seq<Step>): nat { if |run| == 0 then 0 else Cost(run[0]) + TotalCost(run[1..]) }

  /** Echo freedom: whatever the schedule, the losses, the reconnects and the passing of time, the loop
      performs no more steps than the work it started with plus the work fed in from outside (at most 7 per
      external message). No message ever regenerates itself. */
  lemma {:induction false} EchoFreedom(s: State, run: seq<Step>)
    requires Inv(s) && Valid(s, run)
    ensures Inv(Exec(s, run))
    ensures ProtocolSteps(run) + Measure(Exec(s, run)) <= Measure(s) + TotalCost(run)
    decreases |run|
  {
    if |run| > 0 {
      StepKeepsInv(s, run[0]);
      StepWorks(s, run[0]);
      EchoFreedom(Do(s, run[0]), run[1..]);
    }
  }

  /** No work left means quiet: both mailboxes and both queues empty, the pin low. */
  lemma QuietIffNoWork(s: State)
    requires Inv(s)
    ensures Measure(s) == 0 <==> Quiescent(s)
    ensures Quiescent(s) ==> !s.relay.pin
  {
  }

  /** What the loop itself does next while it is not quiet. */
  function NextOwn(s: State): Step {
    if s.relay.phase.Pulsing? || s.relay.trigger.Some? then Poll
    else if s.relay.change.Some? then Publish
    else if |s.up| > 0 then Forward
    else Receive
  }

  /** How long a running pulse may keep it waiting. */
  function Wait(s: State): nat { if s.relay.phase.Pulsing? then s.relay.phase.deadline else 0 }

  /** The steps by which device and broker do the work; losses and failures are not among them. */
  predicate Own(st: Step) { st.Forward? || st.Receive? || st.Publish? || st.Poll? }

  /** The loop never stalls short of quiet: while connected and not quiet, one of its own steps is possible,
      at the latest when the pulse timer has run out. */
  lemma NeverStuck(s: State)
    requires Inv(s) && s.online && !Quiescent(s)
    ensures exists ms, st :: Own(st) && Enabled(Do(s, Tick(ms)), st)
  {
    OwnStep(s);
  }

  lemma OwnStep(s: State)
    requires Inv(s) && s.online && !Quiescent(s)
    ensures var t := Do(s, Tick(Wait(s)));
            && Inv(t) && Own(NextOwn(s)) && Enabled(t, NextOwn(s))
            && var u := Do(t, NextOwn(s));
               && Inv(u) && Measure(u) < Measure(s) && (u.online || Quiescent(u))
  {
    var t := Do(s, Tick(Wait(s)));
    StepKeepsInv(s, Tick(Wait(s)));
    StepKeepsInv(t, NextOwn(s));
    StepWorks(t, NextOwn(s));
  }

  /** Nothing from outside and nothing lost: own steps and the passing of time. */
  predicate Undisturbed(run: seq<Step>) { forall i | 0 <= i < |run| :: Own(run[i]) || run[i].Tick? }

  /** No own step is possible, however long one waits. */
  ghost predicate Rests(s: State) { forall ms, st | Own(st) :: !Enabled(Do(s, Tick(ms)), st) }

  /** Left alone, the loop comes to rest only in quiet: every undisturbed run from a connected state takes
      at most as many own steps as there was work, and if it ends where none is possible any more, then with
      queues and mailboxes empty and the pin low (or with the reboot somebody had asked for). */
  lemma RestIsQuiet(s: State, run: seq<Step>)
    requires Inv(s) && s.online && Valid(s, run) && Undisturbed(run)
    ensures ProtocolSteps(run) + Measure(Exec(s, run)) <= Measure(s)
    ensures Rests(Exec(s, run)) <==> Quiescent(Exec(s, run))
  {
    EchoFreedom(s, run);
    NoCost(run);
    StaysConnected(s, run);
    var t := Exec(s, run);
    if Rests(t) && t.online && !Quiescent(t) { OwnStep(t); }
  }

  lemma {:induction false} NoCost(run: seq<Step>)
    requires Undisturbed(run)
    ensures TotalCost(run) == 0
  {
    if |run| > 0 {
      assert Own(run[0]) || run[0].Tick?;
      assert forall i | 0 <= i < |run[1..]| :: run[1..][i] == run[i + 1];
      NoCost(run[1..]);
    }
  }

  lemma {:induction false} StaysConnected(s: State, run: seq<Step>)
    requires Inv(s) && (s.online || Quiescent(s)) && Valid(s, run) && Undisturbed(run)
    ensures Exec(s, run).online || Quiescent(Exec(s, run))
    decreases |run|
  {
    if |run| > 0 {
      assert Own(run[0]) || run[0].Tick?;
      assert forall i | 0 <= i < |run[1..]| :: run[1..][i] == run[i + 1];
      StepKeepsInv(s, run[0]);
      StaysConnected(Do(s, run[0]), run[1..]);
    }
  }

  /** And there is such a run from every connected state. */
  lemma {:induction false} QuietReachable(s: State)
    requires Inv(s) && s.online
    ensures exists run :: Valid(s, run) && Undisturbed(run) && Quiescent(Exec(s, run))
    decreases Measure(s)
  {
    var none: seq<Step> := [];
    if Quiescent(s) {
      assert Valid(s, none) && Undisturbed(none) && Exec(s, none) == s;
    } else {
      OwnStep(s);
      var t := Do(s, Tick(Wait(s)));
      var u := Do(t, NextOwn(s));
      var rest := none;
      if u.online {
        QuietReachable(u);
        rest :| Valid(u, rest) && Undisturbed(rest) && Quiescent(Exec(u, rest));
      }
      Chain(t, NextOwn(s), rest);
      Chain(s, Tick(Wait(s)), [NextOwn(s)] + rest);
      var run := [Tick(Wait(s))] + ([NextOwn(s)] + rest);
      assert Valid(s, run) && Undisturbed(run) && Quiescent(Exec(s, run));
    }
  }

  lemma Chain(s: State, st: Step, run: seq<Step>)
    requires Enabled(s, st) && Valid(Do(s, st), run)
    ensures Valid(s, [st] + run) && Exec(s, [st] + run) == Exec(Do(s, st), run)
  {
    assert ([st] + run)[1..] == run;
  }

  // ---------------------------------------------------------------- who publishes what

  predicate IsTruthy(m: Msg) { Asks(m, true) }

  function TruthyIn(q: seq<Msg>): nat { if |q| == 0 then 0 else (if IsTruthy(q[0]) then 1 else 0) + TruthyIn(q[1..]) }

  /** Pulses and reports in the making. */
  function Pending(s: State): nat {
    (if s.relay.trigger == Some(Relay.Pulse) then 1 else 0) + (if s.relay.phase.Pulsing? then 1 else 0)
    + (if s.relay.change.Some? then 1 else 0) + TruthyIn(s.down)
  }

  lemma {:induction false} TruthySplit(a: seq<Msg>, b: seq<Msg>)
    ensures TruthyIn(a + b) == TruthyIn(a) + TruthyIn(b)
  {
    if |a| == 0 {
      assert a + b == b;
    } else {
      assert (a + b)[1..] == a[1..] + b;
      TruthySplit(a[1..], b);
    }
  }

  lemma TruthyDrop(a: seq<Msg>, m: Msg, b: seq<Msg>)
    ensures TruthyIn(a + b) <= TruthyIn(a + [m] + b)
  {
    TruthySplit(a + [m], b);
    TruthySplit(a, [m]);
    TruthySplit(a, b);
  }

  lemma {:induction false} StoredNotTruthy(q: seq<Msg>)
    requires forall i | 0 <= i < |q| :: q[i].retain
    ensures TruthyIn(q) == 0
  {
    if |q| > 0 { StoredNotTruthy(q[1..]); }
  }

  function TruthyExternals(run: seq<Step>): nat {
    if |run| == 0 then 0
    else (if run[0].External? && IsTruthy(run[0].m) then 1 else 0) + TruthyExternals(run[1..])
  }

  function Reports(run: seq<Step>): nat {
    if |run| == 0 then 0 else (if run[0].Publish? then 1 else 0) + Reports(run[1..])
  }

  lemma StepPending(s: State, st: Step)
    requires Inv(s) && Enabled(s, st)
    ensures Pending(Do(s, st)) + (if st.Publish? then 1 else 0)
            <= Pending(s) + (if st.External? && IsTruthy(st.m) then 1 else 0)
  {
    match st {
      case External(m) => TruthySplit(s.down, [m]);
      case Forward =>
        var m := s.up[0];
        if m.topic in SUBSCRIBED { RelayOffDecodes(m.payload); }
        TruthySplit(s.down, [m.(retain := false)]);
      case LoseDown(i) =>
        Without(s.down, i);
        TruthyDrop(s.down[..i], s.down[i], s.down[i + 1..]);
      case Poll => Relay.PollEffect(s.relay, s.now);
      case Reconnect(stored) => StoredNotTruthy(stored);
      case _ =>
    }
  }

  /** Conservation: over any run from power-up the device publishes at most one relay report per truthy
      command other clients sent it, and each of them says "0". */
  lemma {:induction false} ReportsBounded(s: State, run: seq<Step>)
    requires Inv(s) && Valid(s, run)
    ensures Reports(run) + Pending(Exec(s, run)) <= Pending(s) + TruthyExternals(run)
    decreases |run|
  {
    if |run| > 0 {
      StepKeepsInv(s, run[0]);
      StepPending(s, run[0]);
      ReportsBounded(Do(s, run[0]), run[1..]);
    }
  }

  lemma FromPowerUp(run: seq<Step>)
    requires Valid(START, run)
    ensures Reports(run) <= TruthyExternals(run)
    ensures var s := Exec(START, run);
            && (forall i | 0 <= i < |s.up| :: s.up[i].topic == TOPIC_RELAY ==> s.up[i].payload == "0")
            && (s.relay.pin <==> s.relay.phase.Pulsing?)
    ensures ProtocolSteps(run) <= TotalCost(run)
  {
    EchoFreedom(START, run);
    ReportsBounded(START, run);
  }
}
