/** Topic and payload to output command (logic/src/led_dispatch.rs). */
module Dispatch {
  import opened Bytes

  datatype OutputCmd = Led1(on: bool) | Led2(on: bool) | AllLeds(on: bool) | Relay(on: bool) | Ping | Reboot

  const TOPIC_RELAY: string := "stm32/relay"
  const TOPIC_PONG: string := "stm32/pong"
  const TOPIC_HEARTBEAT: string := "stm32/heartbeat"

  const SUBSCRIBED: set<string> :=
    {"stm32/led/1", "stm32/led/2", "stm32/led/all", "stm32/relay", "stm32/ping", "stm32/cmd/reboot"}

  function ParseBool(payload: string): Option<bool> {
    if payload == "1" || payload == "on" || payload == "ON" || payload == "true" then Some(true)
    else if payload == "0" || payload == "off" || payload == "OFF" || payload == "false" then Some(false)
    else None
  }

  function DispatchOutput(topic: string, payload: string): Option<OutputCmd> {
    var on := ParseBool(payload);
    if on.None? then None
    else if topic == "stm32/led/1" then Some(Led1(on.value))
    else if topic == "stm32/led/2" then Some(Led2(on.value))
    else if topic == "stm32/led/all" then Some(AllLeds(on.value))
    else if topic == "stm32/relay" then Some(Relay(on.value))
    else None
  }

  function DispatchSpecial(topic: string): Option<OutputCmd> {
    if topic == "stm32/ping" then Some(Ping)
    else if topic == "stm32/cmd/reboot" then Some(Reboot)
    else None
  }

  /** `dispatch(..).or_else(dispatch_special)` */
  function Decode(topic: string, payload: string): Option<OutputCmd> {
    var cmd := DispatchOutput(topic, payload);
    if cmd.Some? then cmd else DispatchSpecial(topic)
  }

  // ---------------------------------------------------------------- the table, read from the commands

  const ON_WORDS: set<string> := {"1", "on", "ON", "true"}
  const OFF_WORDS: set<string> := {"0", "off", "OFF", "false"}

  predicate Says(payload: string, on: bool) { payload in if on then ON_WORDS else OFF_WORDS }

  lemma WordsDiffer(payload: string)
    ensures !(Says(payload, true) && Says(payload, false))
    ensures ParseBool(payload) == if Says(payload, true) then Some(true) else if Says(payload, false) then Some(false) else None
  {
    assert "1"[0] != "0"[0] && |"1"| == 1 && |"0"| == 1;
    assert |"on"| == 2 && |"ON"| == 2 && |"off"| == 3 && |"OFF"| == 3 && |"true"| == 4 && |"false"| == 5;
  }

  lemma TopicsDiffer()
    ensures |"stm32/led/1"| == 11 && |"stm32/led/2"| == 11 && |"stm32/relay"| == 11 && |"stm32/led/all"| == 13
    ensures |"stm32/ping"| == 10 && |"stm32/cmd/reboot"| == 16
    ensures "stm32/led/1" != "stm32/led/2" && "stm32/led/1" != "stm32/relay" && "stm32/led/2" != "stm32/relay"
  {
    assert "stm32/led/1"[10] == '1' && "stm32/led/2"[10] == '2' && "stm32/relay"[10] == 'y';
  }

  /** Every command is asked for on one topic: outputs with a word for their state, ping and reboot with any
      payload. Nothing else is a command. */
  lemma DecodeIff(topic: string, payload: string, on: bool)
    ensures Decode(topic, payload) == Some(Led1(on)) <==> topic == "stm32/led/1" && Says(payload, on)
    ensures Decode(topic, payload) == Some(Led2(on)) <==> topic == "stm32/led/2" && Says(payload, on)
    ensures Decode(topic, payload) == Some(AllLeds(on)) <==> topic == "stm32/led/all" && Says(payload, on)
    ensures Decode(topic, payload) == Some(Relay(on)) <==> topic == "stm32/relay" && Says(payload, on)
    ensures Decode(topic, payload) == Some(Ping) <==> topic == "stm32/ping"
    ensures Decode(topic, payload) == Some(Reboot) <==> topic == "stm32/cmd/reboot"
  {
    WordsDiffer(payload);
    TopicsDiffer();
  }
}
