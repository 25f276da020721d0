/** The shared GPIO outputs (src/outputs.rs). LEDs are active-low, the relay is active-high. No guard of
    the lock is held across an await, so on the one-threaded executor `try_lock` never fails. */
module Outputs {
  import opened Bytes

  datatype LedId = LED1 | LED2

  /** Electrical levels: true is high. */
  datatype Pins = Pins(led1: bool, led2: bool, relay: bool)

  /** Levels at registration: everything off. */
  const BOOT_PINS: Pins := Pins(true, true, false)

  predicate Lit(p: Pins, led: LedId) { if led.LED1? then !p.led1 else !p.led2 }

  function SetLit(p: Pins, led: LedId, on: bool): Pins {
    if led.LED1? then p.(led1 := !on) else p.(led2 := !on)
  }

  class SharedOutputs {
    var inner: Option<Pins>

    constructor ()
      ensures inner == None
    {
      inner := None;
    }

    method Register(pins: Pins)
      modifies this
      ensures inner == Some(pins)
    {
      inner := Some(pins);
    }

    /** Afterwards the LED reads back as `on`, every other output as before; nothing happens before
        registration. */
    method Set(led: LedId, on: bool)
      modifies this
      ensures inner.Some? <==> old(inner).Some?
      ensures inner.Some? ==> Lit(inner.value, led) == on && inner.value.relay == old(inner).value.relay
      ensures inner.Some? ==> forall other | other != led :: Lit(inner.value, other) == Lit(old(inner).value, other)
      ensures inner.Some? ==> inner.value == SetLit(old(inner).value, led, on)
      ensures inner.Some? ==> (if led.LED1? then inner.value.led1 else inner.value.led2) == !on
    {
      if inner.None? { return; }
      var level := !on;
      match led {
        case LED1 => inner := Some(inner.value.(led1 := level));
        case LED2 => inner := Some(inner.value.(led2 := level));
      }
    }

    method SetRelay(on: bool)
      modifies this
      ensures inner.Some? <==> old(inner).Some?
      ensures inner.Some? ==> inner.value == old(inner).value.(relay := on)
    {
      if inner.Some? { inner := Some(inner.value.(relay := on)); }
    }

    method GetRelay() returns (on: bool)
      ensures on <==> inner.Some? && inner.value.relay
    {
      on := inner.Some? && inner.value.relay;
    }

    method GetLed(led: LedId) returns (on: bool)
      ensures on <==> inner.Some? && Lit(inner.value, led)
    {
      if inner.None? { return false; }
      match led {
        case LED1 => on := !inner.value.led1;
        case LED2 => on := !inner.value.led2;
      }
    }
  }
}
