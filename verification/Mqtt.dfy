/** The MQTT task's connected loop (src/mqtt.rs): inbound packets become commands, relay reports and
    heartbeats go out. A clean start; QoS 0 throughout. LED commands are the business of Board. */
module Mqtt {
  import opened Bytes
  import opened Dispatch
  import Relay

  const HEARTBEAT_INTERVAL: nat := 10_000
  const WAKE: nat := 1_000

  datatype Msg = Msg(topic: string, payload: string, retain: bool)

  const PONG: Msg := Msg(TOPIC_PONG, "1", false)
  const HEARTBEAT: Msg := Msg(TOPIC_HEARTBEAT, "1", false)

  function RelayPayload(on: bool): string { if on then "1" else "0" }

  function ReportOf(on: bool): Msg { Msg(TOPIC_RELAY, RelayPayload(on), false) }

  // ---------------------------------------------------------------- specification

  /** What an inbound packet asks for; stored messages are ignored. */
  function CommandOf(m: Msg): Option<OutputCmd> { if m.retain then None else Decode(m.topic, m.payload) }

  predicate Asks(m: Msg, on: bool) { CommandOf(m) == Some(OutputCmd.Relay(on)) }

  predicate AsksReboot(m: Msg) { CommandOf(m) == Some(Reboot) }

  /** A relay command replaces whatever is in the relay task's mailbox; nothing else touches it, and in
      particular no inbound packet puts anything in the report mailbox. */
  function Commanded(r: Relay.State, m: Msg): Relay.State {
    match CommandOf(m)
    case Some(Relay(on)) => r.(trigger := Some(if on then Relay.Pulse else Relay.Off))
    case _ => r
  }

  /** The publication an inbound packet is answered with. */
  function Answer(m: Msg): seq<Msg> { if CommandOf(m) == Some(Ping) then [PONG] else [] }

  /** What a packet means for the relay's mailbox, read from its topic and payload. */
  ghost predicate Told(m: Msg, was: Option<Relay.RelayCmd>, is': Option<Relay.RelayCmd>) {
    var relay := !m.retain && m.topic == "stm32/relay";
    && (relay && Says(m.payload, true) ==> is' == Some(Relay.Pulse))
    && (relay && Says(m.payload, false) ==> is' == Some(Relay.Off))
    && (!(relay && (Says(m.payload, true) || Says(m.payload, false))) ==> is' == was)
  }

  // ---------------------------------------------------------------- the firmware

  /** What the header and body phases of a poll have brought when the task wakes. */
  datatype Inbound = Nothing | Packet(m: Msg) | Broken

  datatype Woken = Pending | Goes | Closed | Rebooting

  class MqttTask {
    const relay: Relay.RelayTask
    var nextHeartbeat: nat
    var sent: seq<Msg>

    ghost predicate Wired()
      reads relay.outputs
    {
      relay.Wired()
    }

    ghost function Abs(): Relay.State
      requires Wired()
      reads relay, relay.outputs, relay.trigger, relay.change
    {
      relay.Abs()
    }

    constructor (relay: Relay.RelayTask, now: nat)
      ensures this.relay == relay && nextHeartbeat == now + 10_000 && sent == []
    {
      this.relay := relay;
      nextHeartbeat := now + HEARTBEAT_INTERVAL;
      sent := [];
    }

    /** `publish_qos0`; whether the link takes the packet is the environment's choice. */
    method Publish(m: Msg, taken: bool)
      modifies this`sent
      ensures sent == if taken then old(sent) + [m] else old(sent)
    {
      if taken { sent := sent + [m]; }
    }

    /** `handle_event`: a pong that cannot be sent is forgotten. */
    method HandleEvent(m: Msg, taken: bool) returns (reboot: bool)
      requires Wired()
      modifies this`sent, relay.trigger
      ensures Wired() && reboot == AsksReboot(m)
      ensures Abs() == Commanded(old(Abs()), m)
      ensures sent == old(sent) + if taken then Answer(m) else []
      ensures Told(m, old(Abs()).trigger, Abs().trigger)
      ensures sent == old(sent) + if taken && !m.retain && m.topic == "stm32/ping" then [Msg("stm32/pong", "1", false)] else []
      ensures reboot <==> !m.retain && m.topic == "stm32/cmd/reboot"
    {
      DecodeIff(m.topic, m.payload, true);
      DecodeIff(m.topic, m.payload, false);
      reboot := false;
      if m.retain { return; }
      var cmd := DispatchOutput(m.topic, m.payload);
      if cmd.None? { cmd := DispatchSpecial(m.topic); }
      if cmd.Some? {
        match cmd.value {
          case Relay(on) =>
            if on { relay.PulseRelay(); } else { relay.RelayOff(); }
          case Ping => Publish(PONG, taken);
          case Reboot => reboot := true;
          case _ =>
        }
      }
    }

    /** From the top of the loop to its await: a heartbeat if one is due, then how long to wait. The loop
        never sleeps past the next heartbeat. */
    method Beat(now: nat, taken: bool) returns (wake: nat)
      requires Wired()
      modifies this
      ensures Wired() && Abs() == old(Abs())
      ensures now < old(nextHeartbeat) ==> sent == old(sent) && nextHeartbeat == old(nextHeartbeat)
      ensures now >= old(nextHeartbeat) ==>
                && nextHeartbeat == now + 10_000
                && sent == old(sent) + if taken then [Msg("stm32/heartbeat", "1", false)] else []
      ensures now < wake <= nextHeartbeat && wake <= now + 1_000 && (wake == nextHeartbeat || wake == now + 1_000)
    {
      if now >= nextHeartbeat {
        Publish(HEARTBEAT, taken);
        nextHeartbeat := now + HEARTBEAT_INTERVAL;
      }
      wake := now + if nextHeartbeat - now < WAKE then nextHeartbeat - now else WAKE;
    }

    /** The await and what follows it. An inbound packet goes first and leaves a waiting report where it is;
        a report that cannot be published is lost, and the connection with it. */
    method Await(now: nat, wake: nat, arrived: Inbound, taken: bool, ponged: bool) returns (r: Woken)
      requires Wired()
      modifies this`sent, relay.trigger, relay.change
      ensures Wired()
      ensures arrived.Packet? ==>
                && r == (if AsksReboot(arrived.m) then Rebooting else Goes)
                && Abs() == Commanded(old(Abs()), arrived.m)
                && sent == old(sent) + if taken then Answer(arrived.m) else []
      ensures arrived == Broken ==> r == Closed && Abs() == old(Abs()) && sent == old(sent)
      ensures arrived == Nothing && old(Abs()).change.Some? ==>
                && r == (if taken then Goes else Closed)
                && Abs() == old(Abs()).(change := None)
                && sent == old(sent) + if taken then [ReportOf(old(Abs()).change.value)] else []
      ensures arrived == Nothing && old(Abs()).change == Some(true) && taken ==>
                sent == old(sent) + [Msg("stm32/relay", "1", false)]
      ensures arrived == Nothing && old(Abs()).change == Some(false) && taken ==>
                sent == old(sent) + [Msg("stm32/relay", "0", false)]
      ensures arrived == Nothing && old(Abs()).change.None? ==>
                && r == (if now < wake then Pending else if ponged then Goes else Closed)
                && Abs() == old(Abs()) && sent == old(sent)
    {
      match arrived {
        case Packet(m) =>
          var reboot := HandleEvent(m, taken);
          r := if reboot then Rebooting else Goes;
        case Broken => r := Closed;
        case Nothing =>
          var report := relay.change.TryTake();
          if report.Some? {
            Publish(ReportOf(report.value), taken);
            r := if taken then Goes else Closed;
          } else {
            r := if now < wake then Pending else if ponged then Goes else Closed;
          }
      }
    }
  }
}
