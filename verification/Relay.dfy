/** The relay task (src/outputs.rs): a pulse timer driven through a one-slot mailbox, reporting the end
    of every pulse through another. Times are milliseconds. */
module Relay {
  import opened Bytes
  import opened Outputs

  const RELAY_PULSE: nat := 2000

  datatype RelayCmd = Pulse | Off

  /** Where the task waits: in the outer loop for a command, or in the pulse loop for the timer or one. */
  datatype Phase = Idle | Pulsing(deadline: nat)

  /** Task, pin and the two signals. */
  datatype State = State(phase: Phase, pin: bool, trigger: Option<RelayCmd>, change: Option<bool>)

  const REST: State := State(Idle, false, None, None)

  // ---------------------------------------------------------------- specification

  /** Whether the task's pending await completes when it is polled. */
  predicate Ready(r: State, now: nat) {
    r.trigger.Some? || (r.phase.Pulsing? && now >= r.phase.deadline)
  }

  function StartPulse(r: State, now: nat): State {
    r.(phase := Pulsing(now + RELAY_PULSE), pin := true, trigger := None)
  }

  function EndPulse(r: State): State { r.(phase := Idle, pin := false, change := Some(false)) }

  /** From one await to the next. `select` prefers its first branch: an expired timer leaves a command
      that is already there in the mailbox. */
  function Turn(r: State, now: nat): State
    requires Ready(r, now)
  {
    match r.phase
    case Idle => if r.trigger.value.Pulse? then StartPulse(r, now) else r.(trigger := None)
    case Pulsing(deadline) =>
      if now >= deadline then EndPulse(r)
      else if r.trigger.value.Pulse? then StartPulse(r, now)
      else EndPulse(r.(trigger := None))
  }

  function Weight(r: State): nat {
    (if r.trigger.Some? then 2 else 0) + if r.phase.Pulsing? then 1 else 0
  }

  /** One poll of the task: turns until an await is pending. Every poll comes to that point. */
  function Poll(r: State, now: nat): (p: State)
    ensures !Ready(p, now)
    decreases Weight(r)
  {
    if Ready(r, now) then Poll(Turn(r, now), now) else r
  }

  // ---------------------------------------------------------------- the firmware

  /** `embassy_sync::Signal`: a mailbox that holds the latest value. */
  class Signal<T> {
    var slot: Option<T>

    constructor ()
      ensures slot == None
    {
      slot := None;
    }

    method Put(v: T)
      modifies this
      ensures slot == Some(v)
    {
      slot := Some(v);
    }

    /** Polling `wait()`: the value, consumed, or pending. */
    method TryTake() returns (v: Option<T>)
      modifies this
      ensures v == old(slot) && slot == None
    {
      v := slot;
      slot := None;
    }
  }

  class RelayTask {
    const outputs: SharedOutputs
    const trigger: Signal<RelayCmd>
    const change: Signal<bool>
    var phase: Phase

    ghost predicate Wired()
      reads outputs
    {
      outputs.inner.Some?
    }

    ghost function Abs(): State
      requires Wired()
      reads this, outputs, trigger, change
    {
      State(phase, outputs.inner.value.relay, trigger.slot, change.slot)
    }

    constructor (outputs: SharedOutputs, trigger: Signal<RelayCmd>, change: Signal<bool>)
      ensures this.outputs == outputs && this.trigger == trigger && this.change == change && phase == Idle
    {
      this.outputs := outputs;
      this.trigger := trigger;
      this.change := change;
      phase := Idle;
    }

    /** `pulse_relay` */
    method PulseRelay()
      requires Wired()
      modifies trigger
      ensures Wired() && Abs() == old(Abs()).(trigger := Some(Pulse))
    {
      trigger.Put(Pulse);
    }

    /** `relay_off` */
    method RelayOff()
      requires Wired()
      modifies trigger
      ensures Wired() && Abs() == old(Abs()).(trigger := Some(Off))
    {
      trigger.Put(Off);
    }

    /** The body of `relay_task`, resumed at the await where it left off and run to the next one that is
        pending. LEDs are not touched. */
    method Resume(now: nat)
      requires Wired()
      modifies this, outputs, trigger, change
      ensures Wired() && Abs() == Poll(old(Abs()), now)
      ensures forall led :: Lit(outputs.inner.value, led) == old(Lit(outputs.inner.value, led))
    {
      var pending := false;
      while !pending
        invariant Wired() && Poll(Abs(), now) == Poll(old(Abs()), now)
        invariant pending ==> !Ready(Abs(), now)
        invariant forall led :: Lit(outputs.inner.value, led) == old(Lit(outputs.inner.value, led))
        decreases Weight(Abs()), !pending
      {
        match phase {
          case Idle =>
            var cmd := trigger.TryTake();
            if cmd == None {
              pending := true;
            } else if cmd == Some(Pulse) {
              outputs.SetRelay(true);
              phase := Pulsing(now + RELAY_PULSE);
            }
          case Pulsing(deadline) =>
            if now >= deadline {
              FinishPulse();
            } else {
              var cmd := trigger.TryTake();
              if cmd == None {
                pending := true;
              } else if cmd == Some(Pulse) {
                outputs.SetRelay(true);
                phase := Pulsing(now + RELAY_PULSE);
              } else {
                FinishPulse();
              }
            }
        }
      }
    }

    method FinishPulse()
      requires Wired()
      modifies this, outputs, change
      ensures Wired() && Abs() == EndPulse(old(Abs()))
      ensures forall led :: Lit(outputs.inner.value, led) == old(Lit(outputs.inner.value, led))
    {
      outputs.SetRelay(false);
      change.Put(false);
      phase := Idle;
    }
  }

  // ---------------------------------------------------------------- timing

  /** The pin is high exactly while the task is in its pulse loop. */
  predicate PinFollows(r: State) { r.pin <==> r.phase.Pulsing? }

  lemma {:induction false} PollKeepsPin(r: State, now: nat)
    requires PinFollows(r)
    ensures PinFollows(Poll(r, now))
    decreases Weight(r)
  {
    if Ready(r, now) { PollKeepsPin(Turn(r, now), now); }
  }

  /** A pulse ends in a turn iff its timer has run out or the turn consumes an Off, never otherwise; the
      timer was set 2 s after the last consumed Pulse; and the end is reported by exactly that turn. */
  lemma PulseEnds(r: State, now: nat)
    requires PinFollows(r) && Ready(r, now)
    ensures var t := Turn(r, now);
            && (r.pin && !t.pin <==> r.phase.Pulsing? && (now >= r.phase.deadline || r.trigger == Some(Off)))
            && (r.pin && !t.pin ==> t.change == Some(false))
            && (!(r.pin && !t.pin) ==> t.change == r.change)
            && (t.phase.Pulsing? && t.phase != r.phase ==>
                  t.pin && r.trigger == Some(Pulse) && t.trigger == None && t.phase.deadline == now + RELAY_PULSE)
  {
  }

  /** What a poll of the task amounts to. A Pulse starts a full new interval in every position: also when it
      arrives as the timer fires, where the same poll reports the end of the old one. The end of a pulse,
      by its timer or by an Off, is reported, and nothing else is. */
  lemma PollEffect(r: State, now: nat)
    requires PinFollows(r) && Ready(r, now)
    ensures var on := r.trigger == Some(Pulse);
            var ended := r.phase.Pulsing? && (now >= r.phase.deadline || r.trigger == Some(Off));
            Poll(r, now) == State(if on then Pulsing(now + RELAY_PULSE) else Idle, on, None,
                                  if ended then Some(false) else r.change)
  {
    var t := Turn(r, now);
    if Ready(t, now) {
      assert !Ready(Turn(t, now), now);
    }
  }

  // ---------------------------------------------------------------- whole histories

  /** What happens to the task: a command is put into its mailbox, or it is polled. */
  datatype Input = Command(cmd: RelayCmd) | PollAt(now: nat)

  function After(h: seq<Input>): State {
    if |h| == 0 then REST
    else
      var r := After(h[..|h| - 1]);
      match h[|h| - 1]
      case Command(cmd) => r.(trigger := Some(cmd))
      case PollAt(now) => Poll(r, now)
  }

  /** Time of the latest poll, 0 before the first. */
  function LastPoll(h: seq<Input>): nat {
    if |h| == 0 then 0 else if h[|h| - 1].PollAt? then h[|h| - 1].now else LastPoll(h[..|h| - 1])
  }

  predicate InOrder(h: seq<Input>) {
    |h| == 0 || (InOrder(h[..|h| - 1]) && (h[|h| - 1].PollAt? ==> LastPoll(h[..|h| - 1]) <= h[|h| - 1].now))
  }

  /** The latest command since the latest poll; it has replaced those before it. */
  function Waiting(h: seq<Input>): Option<RelayCmd> {
    if |h| > 0 && h[|h| - 1].Command? then Some(h[|h| - 1].cmd) else None
  }

  datatype Taken = Nothing | Taken(cmd: RelayCmd, at: nat)

  /** The last command a poll found waiting, and the time of that poll. */
  function LastTaken(h: seq<Input>): Taken {
    if |h| == 0 then Nothing
    else
      var init := h[..|h| - 1];
      if h[|h| - 1].PollAt? && Waiting(init).Some? then Taken(Waiting(init).value, h[|h| - 1].now)
      else LastTaken(init)
  }

  /** Told from the inputs alone: whatever came when, after any history the pin is high iff the last command
      taken was a Pulse and, by the latest poll, its 2 s were not over; and then the timer is set to their end. */
  lemma {:induction false} PinHistory(h: seq<Input>)
    requires InOrder(h)
    ensures var r, last := After(h), LastTaken(h);
            && r.trigger == Waiting(h)
            && (r.pin <==> last.Taken? && last.cmd.Pulse? && LastPoll(h) < last.at + RELAY_PULSE)
            && r.phase == (if r.pin then Pulsing(last.at + RELAY_PULSE) else Idle)
            && (last.Taken? ==> last.at <= LastPoll(h))
  {
    if |h| > 0 {
      var init := h[..|h| - 1];
      PinHistory(init);
      var r := After(init);
      if h[|h| - 1].PollAt? && Ready(r, h[|h| - 1].now) { PollEffect(r, h[|h| - 1].now); }
    }
  }
}
