/** The board's persistent state over whole runs: boots, LED commands and configuration saves sharing
    one EEPROM (src/main.rs, src/mqtt.rs, src/persistence.rs, src/config.rs, src/web.rs). */
module Board {
  import opened Bytes
  import opened EepromChip
  import opened Outputs
  import opened Persistence
  import Config
  import ConfigForm
  import CutSave
  import Dispatch
  import Mqtt
  import opened WebForm

  const CONFIG_BASE: nat := 16

  // ---------------------------------------------------------------- specification

  /** Chip cells, RAM cache, the LEDs as a viewer sees them, the configuration the tasks run with. */
  datatype State = State(mem: Cells, cache: Option<OutputState>, shown: OutputState, cfg: Config.NetworkConfig)

  /** `load_config`: defaults on a read error or an image that does not parse. */
  function Loaded(m: Cells, readOk: bool): Config.NetworkConfig {
    var c := Config.FromBytes(m[CONFIG_BASE..CONFIG_BASE + Config.LEN]);
    if readOk && c.Some? then c.value else Config.DEFAULT
  }

  /** The events of a run. `stateOk` and `cfgOk` say whether the boot-time reads succeed. */
  datatype Event =
    | Boot(stateOk: bool, cfgOk: bool)
    | Led(cmd: Update, bus: Bus)
    | Save(body: bytes, bus: Bus)

  function AfterBoot(s: State, stateOk: bool, cfgOk: bool): State {
    var o := if stateOk then Decode(s.mem) else OFF;
    State(s.mem, Some(o), o, Loaded(s.mem, cfgOk))
  }

  function AfterLed(s: State, u: Update, bus: Bus): State {
    var (mem, cache) := Saved(s.mem, s.cache, u, bus);
    State(mem, cache, Apply(u, s.shown), s.cfg)
  }

  /** A rejected form writes nothing; the running configuration changes only at the next boot. */
  function AfterSave(s: State, body: bytes, bus: Bus): State {
    var c := ConfigForm.FormResult(body, s.cfg);
    if c.None? then s
    else s.(mem := Burn(s.mem, CONFIG_BASE, Config.Image(c.value)[..Reached(bus, Config.LEN)]))
  }

  function Step(s: State, e: Event): State {
    match e
    case Boot(stateOk, cfgOk) => AfterBoot(s, stateOk, cfgOk)
    case Led(u, bus) => AfterLed(s, u, bus)
    case Save(body, bus) => AfterSave(s, body, bus)
  }

  function Run(s: State, es: seq<Event>): State {
    if |es| == 0 then s else Step(Run(s, es[..|es| - 1]), es[|es| - 1])
  }

  // ---------------------------------------------------------------- the firmware

  /** The LED arms of `handle_event`. */
  function UpdateOf(cmd: Dispatch.OutputCmd): Option<Update> {
    match cmd
    case Led1(on) => Some(SetLed1(on))
    case Led2(on) => Some(SetLed2(on))
    case AllLeds(on) => Some(SetLeds(on, on))
    case _ => None
  }

  /** What a packet orders for the LED with the topic `own`: a word for on or off on that topic or on the common
      one, not stored; anything else leaves it as it `was`. */
  function Ordered(m: Mqtt.Msg, own: string, was: bool): bool {
    if m.retain || m.topic !in {own, "stm32/led/all"} then was
    else if m.payload in {"1", "on", "ON", "true"} then true
    else if m.payload in {"0", "off", "OFF", "false"} then false
    else was
  }

  /** The packets that reach an LED, read off the topic and the payload. */
  lemma LedPacket(m: Mqtt.Msg, led1: bool, led2: bool)
    ensures var cmd := Dispatch.DispatchOutput(m.topic, m.payload);
            var a, b := Ordered(m, "stm32/led/1", led1), Ordered(m, "stm32/led/2", led2);
            && (m.retain || cmd.None? || cmd.value.Relay? ==> a == led1 && b == led2)
            && (!m.retain && cmd.Some? && cmd.value.Led1? ==> a == cmd.value.on && b == led2)
            && (!m.retain && cmd.Some? && cmd.value.Led2? ==> a == led1 && b == cmd.value.on)
            && (!m.retain && cmd.Some? && cmd.value.AllLeds? ==> a == cmd.value.on && b == cmd.value.on)
            && (cmd.Some? ==> cmd.value.Led1? || cmd.value.Led2? || cmd.value.AllLeds? || cmd.value.Relay?)
  {
    Dispatch.WordsDiffer(m.payload);
    Dispatch.TopicsDiffer();
  }

  datatype Response = BadRequest | SaveFailed | SavedRebooting

  class Firmware {
    const outputs: SharedOutputs
    const eeprom: Eeprom
    const store: Store
    var cfg: Config.NetworkConfig

    ghost predicate Wired() { eeprom.Valid() && store.eeprom == eeprom }

    ghost predicate Ready()
      reads outputs
    {
      Wired() && outputs.inner.Some?
    }

    ghost function Abs(): State
      requires Ready()
      reads this, outputs, store, eeprom.cells
    {
      var p := outputs.inner.value;
      State(eeprom.Image(), store.cache, OutputState(Lit(p, LED1), Lit(p, LED2)), cfg)
    }

    /** Power-up part of `main`: load both records, then drive the restored LEDs. */
    constructor Boot(eeprom: Eeprom, stateOk: bool, cfgOk: bool)
      requires eeprom.Valid()
      ensures Ready() && this.eeprom == eeprom && fresh(outputs) && fresh(store)
      ensures forall s: State | s.mem == eeprom.Image() :: Abs() == AfterBoot(s, stateOk, cfgOk)
      ensures !outputs.inner.value.relay
    {
      var out := new SharedOutputs();
      var st := new Store(eeprom);
      var c := LoadConfig(eeprom, cfgOk);
      var saved := st.LoadState(stateOk);
      out.Register(BOOT_PINS);
      out.Set(LED1, saved.led1);
      out.Set(LED2, saved.led2);
      outputs, store, cfg := out, st, c;
      this.eeprom := eeprom;
    }

    static method LoadConfig(eeprom: Eeprom, readOk: bool) returns (c: Config.NetworkConfig)
      requires eeprom.Valid()
      ensures c == Loaded(eeprom.Image(), readOk)
      ensures !readOk || Config.FromBytes(eeprom.Image()[16..191]).None? ==> c == Config.DEFAULT
      ensures readOk && Config.FromBytes(eeprom.Image()[16..191]).Some? ==>
                Some(c) == Config.FromBytes(eeprom.Image()[16..191])
    {
      var buf := eeprom.Read(16, Config.LEN, readOk);
      if buf.None? { return Config.DEFAULT; }
      var parsed := Config.FromBytes(buf.value);
      c := if parsed.Some? then parsed.value else Config.DEFAULT;
    }

    /** `handle_event` for the LED topics: pins first, then the record. */
    method HandleLed(cmd: Dispatch.OutputCmd, bus: Bus)
      requires Ready() && UpdateOf(cmd).Some?
      modifies outputs, store, eeprom.cells
      ensures Ready() && Abs() == AfterLed(old(Abs()), UpdateOf(cmd).value, bus)
      ensures outputs.inner.value.relay == old(outputs.inner.value.relay)
      ensures cmd.Led1? ==> Abs().shown == old(Abs()).shown.(led1 := cmd.on)
      ensures cmd.Led2? ==> Abs().shown == old(Abs()).shown.(led2 := cmd.on)
      ensures cmd.AllLeds? ==> Abs().shown == OutputState(cmd.on, cmd.on)
      ensures Stop(bus, RECORD) == RECORD && old(Abs()).cache.Some? ==>
                var o, t := old(Abs()).cache.value, Abs();
                && (cmd.Led1? ==> t.cache == Some(o.(led1 := cmd.on)))
                && (cmd.Led2? ==> t.cache == Some(o.(led2 := cmd.on)))
                && (cmd.AllLeds? ==> t.cache == Some(OutputState(cmd.on, cmd.on)))
                && t.cache.Some? && Decode(t.mem) == if t.cache.value != o then t.cache.value else Decode(old(Abs()).mem)
    {
      if Stop(bus, RECORD) == RECORD && store.cache.Some? { LedWritten(Abs(), UpdateOf(cmd).value, bus); }
      match cmd {
        case Led1(on) =>
          outputs.Set(LED1, on);
          store.SaveField(SetLed1(on), bus);
        case Led2(on) =>
          outputs.Set(LED2, on);
          store.SaveField(SetLed2(on), bus);
        case AllLeds(on) =>
          outputs.Set(LED1, on);
          outputs.Set(LED2, on);
          store.SaveField(SetLeds(on, on), bus);
      }
    }

    /** `handle_event` for the LEDs, from the packet on. With the bus in order, cache and record change in exactly
        the fields the packet is about, and agreement of pins, cache and record is kept. */
    method HandleMessage(m: Mqtt.Msg, bus: Bus)
      requires Ready()
      modifies outputs, store, eeprom.cells
      ensures Ready() && outputs.inner.value.relay == old(outputs.inner.value.relay)
      ensures Lit(outputs.inner.value, LED1) == Ordered(m, "stm32/led/1", old(Lit(outputs.inner.value, LED1)))
      ensures Lit(outputs.inner.value, LED2) == Ordered(m, "stm32/led/2", old(Lit(outputs.inner.value, LED2)))
      ensures Stop(bus, RECORD) == RECORD && old(store.cache).Some? ==>
                var o := old(store.cache).value;
                var t := OutputState(Ordered(m, "stm32/led/1", o.led1), Ordered(m, "stm32/led/2", o.led2));
                && store.cache == Some(t)
                && Decode(eeprom.Image()) == if t != o then t else Decode(old(eeprom.Image()))
    {
      LedPacket(m, Lit(outputs.inner.value, LED1), Lit(outputs.inner.value, LED2));
      if store.cache.Some? { LedPacket(m, store.cache.value.led1, store.cache.value.led2); }
      if m.retain { return; }
      var cmd := Dispatch.DispatchOutput(m.topic, m.payload);
      if cmd.Some? && !cmd.value.Relay? { HandleLed(cmd.value, bus); }
    }

    /** `save_and_reboot` up to the response; the reboot is the next event. */
    method SaveForm(body: bytes, bus: Bus) returns (r: Response)
      requires Ready() && Config.Valid(cfg)
      modifies eeprom.cells
      ensures Ready() && Abs() == AfterSave(old(Abs()), body, bus)
      ensures r.BadRequest? <==> ConfigForm.FormResult(body, cfg).None?
      ensures r.BadRequest? <==> ConfigForm.AnyRefused(Split(body, AMP))
      ensures r.BadRequest? ==> eeprom.Image() == old(eeprom.Image())
      ensures r.SavedRebooting? <==> !r.BadRequest? && Stop(bus, Config.LEN) == Config.LEN
    {
      var parsed := ConfigForm.ParseForm(body, cfg);
      if parsed.None? { return BadRequest; }
      ConfigForm.FormKeepsValid(body, cfg);
      var buf := Config.ToBytes(parsed.value);
      var ok := eeprom.WriteBytes(16, buf[..], bus);
      r := if ok then SavedRebooting else SaveFailed;
    }
  }

  // ---------------------------------------------------------------- two records, one chip

  /** Whatever happens on the bus, a configuration save touches only 16..191 and an LED save only 0..8,
      and each leaves a prefix of its own bytes there. */
  lemma ConfigSaveIsLocal(m: Cells, c: Config.NetworkConfig, bus: Bus)
    ensures var b := Burn(m, CONFIG_BASE, Config.Image(c)[..Reached(bus, Config.LEN)]);
            && b[..16] == m[..16] && b[191..] == m[191..] && Decode(b) == Decode(m)
            && exists k | 0 <= k <= Config.LEN :: b[16..191] == Config.Image(c)[..k] + m[16 + k..191]
  {
    var k := Reached(bus, Config.LEN);
    var b := Burn(m, CONFIG_BASE, Config.Image(c)[..k]);
    BurnInRange(m, CONFIG_BASE, Config.Image(c)[..k]);
    Around(m, Config.Image(c)[..k], b);
    assert b[0..4] == b[..16][0..4] && m[0..4] == m[..16][0..4] && b[5] == b[..16][5] && b[6] == b[..16][6];
  }

  lemma Around(m: Cells, data: bytes, b: Cells)
    requires |data| <= Config.LEN && b == m[..16] + data + m[16 + |data|..]
    ensures b[..16] == m[..16] && b[191..] == m[191..] && b[16..191] == data + m[16 + |data|..191]
  {
  }

  lemma LedSaveIsLocal(m: Cells, s: OutputState, bus: Bus)
    ensures var b := Burn(m, 0, Record(s)[..Reached(bus, RECORD)]);
            && b[8..] == m[8..] && Loaded(b, true) == Loaded(m, true)
            && exists k | 0 <= k <= RECORD :: b[..8] == Record(s)[..k] + m[k..8]
  {
    var j := Reached(bus, RECORD);
    var d := Burn(m, 0, Record(s)[..j]);
    BurnRecord(m, s, j);
    assert d[..8] == Record(s)[..j] + m[j..8];
    assert d[8..] == m[8..];
    assert d[16..191] == d[8..][8..183] && m[16..191] == m[8..][8..183];
  }

  // ---------------------------------------------------------------- configuration over runs

  /** Boot safety: any chip contents and any read failure give a configuration the board can run. */
  lemma LoadedIsValid(m: Cells, readOk: bool)
    ensures Config.Valid(Loaded(m, readOk))
  {
    Config.DefaultIsValid();
    Config.FromBytesIsValid(m[CONFIG_BASE..CONFIG_BASE + Config.LEN]);
  }

  /** ... and it stays runnable through every sequence of events. */
  lemma {:induction false} RunKeepsConfigValid(s: State, es: seq<Event>)
    requires Config.Valid(s.cfg)
    ensures Config.Valid(Run(s, es).cfg)
  {
    if |es| > 0 {
      RunKeepsConfigValid(s, es[..|es| - 1]);
      var t, e := Run(s, es[..|es| - 1]), es[|es| - 1];
      if e.Boot? { LoadedIsValid(t.mem, e.cfgOk); }
    }
  }

  ghost predicate NoSave(es: seq<Event>) { forall i | 0 <= i < |es| :: !es[i].Save? }

  lemma {:induction false} ConfigCellsKept(s: State, es: seq<Event>)
    requires NoSave(es)
    ensures Run(s, es).mem[8..] == s.mem[8..]
  {
    if |es| > 0 {
      var t, e := Run(s, es[..|es| - 1]), es[|es| - 1];
      ConfigCellsKept(s, es[..|es| - 1]);
      if e.Led? { LedSaveIsLocal(t.mem, Target(t.cache, e.cmd), e.bus); }
    }
  }

  /** Lossless saves: after a successful save, through any later boots and LED commands, faults in the
      LED record included, the next boot that can read the chip runs exactly the saved configuration. */
  lemma SavedConfigComesBack(s: State, body: bytes, bus: Bus, es: seq<Event>, stateOk: bool)
    requires Config.Valid(s.cfg)
    requires ConfigForm.FormResult(body, s.cfg).Some? && Stop(bus, Config.LEN) == Config.LEN
    requires NoSave(es)
    ensures Some(AfterBoot(Run(AfterSave(s, body, bus), es), stateOk, true).cfg) == ConfigForm.FormResult(body, s.cfg)
  {
    var c := ConfigForm.FormResult(body, s.cfg).value;
    ConfigForm.FormKeepsValid(body, s.cfg);
    var t := AfterSave(s, body, bus);
    var b := Config.Image(c);
    assert b[..Config.LEN] == b;
    BurnInRange(s.mem, CONFIG_BASE, b);
    assert t.mem[16..191] == b;
    var u := Run(t, es);
    ConfigCellsKept(t, es);
    assert u.mem[16..191] == u.mem[8..][8..183] && t.mem[16..191] == t.mem[8..][8..183];
    Config.ImageRoundTrip(c);
  }

  /** The configuration cells. */
  function ConfigCells(m: Cells): (c: bytes)
    ensures |c| == Config.LEN
  {
    m[16..191]
  }

  /** After a save that failed at any byte, on any chip and in any running configuration, the next boot reads the new
      configuration spliced into what was there (defaults if that is unreadable). "Not saved" is true of it, that
      is, the running configuration comes back, iff what was written agrees with it and what was not holds it, or
      the splice is unreadable and the running one was the default. */
  lemma FailedConfigSave(s: State, body: bytes, bus: Bus, stateOk: bool)
    requires Config.Valid(s.cfg) && ConfigForm.FormResult(body, s.cfg).Some?
    ensures var c, k := ConfigForm.FormResult(body, s.cfg).value, Reached(bus, Config.LEN);
            var was := ConfigCells(s.mem);
            var mixed := CutSave.Mix(c, was, k);
            var next := AfterBoot(AfterSave(s, body, bus), stateOk, true).cfg;
            && next == (if mixed.Some? then mixed.value else Config.DEFAULT)
            && (next == s.cfg <==>
                  || CutSave.KeepsRunning(c, was, s.cfg, k)
                  || (!CutSave.Loadable(c, was, k) && s.cfg == Config.DEFAULT))
  {
    var c, k := ConfigForm.FormResult(body, s.cfg).value, Reached(bus, Config.LEN);
    ConfigForm.FormKeepsValid(body, s.cfg);
    CutCells(s.mem, Config.Image(c), ConfigCells(s.mem), k);
    CutSave.MixedImage(c, ConfigCells(s.mem), k);
    CutSave.MixIsRunning(c, ConfigCells(s.mem), s.cfg, k);
  }

  /** On a chip that a complete save of the running configuration left: it comes back iff what was written changed
      nothing, or only broke the text of an empty credential, or the splice is unreadable and it was the default. */
  lemma FailedLaterSave(s: State, body: bytes, bus: Bus, stateOk: bool)
    requires Config.Valid(s.cfg) && ConfigCells(s.mem) == Config.Image(s.cfg)
    requires ConfigForm.FormResult(body, s.cfg).Some?
    ensures var c, k := ConfigForm.FormResult(body, s.cfg).value, Reached(bus, Config.LEN);
            var mixed := CutSave.AfterCut(c, s.cfg, k);
            var next := AfterBoot(AfterSave(s, body, bus), stateOk, true).cfg;
            && next == (if mixed.Some? then mixed.value else Config.DEFAULT)
            && (next == s.cfg <==>
                  || CutSave.SameUpTo(Config.Image(c), Config.Image(s.cfg), k)
                  || CutSave.HiddenCut(c, s.cfg, k)
                  || (mixed.None? && s.cfg == Config.DEFAULT))
  {
    var c, k := ConfigForm.FormResult(body, s.cfg).value, Reached(bus, Config.LEN);
    ConfigForm.FormKeepsValid(body, s.cfg);
    FailedConfigSave(s, body, bus, stateOk);
    CutSave.CutImage(c, s.cfg, k);
    CutSave.CutKeepsOld(c, s.cfg, k);
  }

  /** On a chip that was never written: the defaults come back unless the client id was written to its end; then the
      whole new network part is in force, with the credentials written to their ends and the others empty. */
  lemma FailedFirstSave(s: State, body: bytes, bus: Bus, stateOk: bool)
    requires Config.Valid(s.cfg) && ConfigCells(s.mem) == CutSave.Erased(Config.LEN)
    requires ConfigForm.FormResult(body, s.cfg).Some?
    ensures var c, k := ConfigForm.FormResult(body, s.cfg).value, Reached(bus, Config.LEN);
            AfterBoot(AfterSave(s, body, bus), stateOk, true).cfg ==
            if k > 23 && (k - 23 > |c.clientId| || k >= 47) then
              c.(mqttUser := CutSave.IfWhole(c.mqttUser, 32, k - 47), mqttPass := CutSave.IfWhole(c.mqttPass, 32, k - 79),
                 webUser := CutSave.IfWhole(c.webUser, 32, k - 111), webPass := CutSave.IfWhole(c.webPass, 32, k - 143))
            else Config.DEFAULT
  {
    FailedConfigSave(s, body, bus, stateOk);
    ConfigForm.FormKeepsValid(body, s.cfg);
    CutSave.ErasedChip(ConfigForm.FormResult(body, s.cfg).value, Reached(bus, Config.LEN));
  }

  lemma CutCells(m: Cells, image: bytes, was: bytes, k: nat)
    requires |image| == |was| == Config.LEN && m[16..191] == was && k <= Config.LEN
    ensures Burn(m, CONFIG_BASE, image[..k])[16..191] == CutSave.Splice(image, was, k)
  {
    BurnInRange(m, CONFIG_BASE, image[..k]);
    Around(m, image[..k], Burn(m, CONFIG_BASE, image[..k]));
    assert m[16 + k..191] == was[k..];
    assert image[..Config.LEN] == image;
  }

  /** The default with another address and a web password. */
  function Wanted(): Config.NetworkConfig { Config.DEFAULT.(ip := [10, 0, 0, 2], webPass := [97]) }

  /** Some form asks for it. */
  lemma WantedForm() returns (body: bytes)
    ensures ConfigForm.FormResult(body, Config.DEFAULT) == Some(Wanted())
  {
    WantedIsValid();
    body := FormFor(Wanted());
  }

  lemma FormFor(c: Config.NetworkConfig) returns (body: bytes)
    requires Config.Valid(c) && c == Config.DEFAULT.(ip := c.ip, webPass := c.webPass)
    ensures ConfigForm.FormResult(body, Config.DEFAULT) == Some(c)
  {
    DefaultTexts();
    body := ConfigForm.RequestFor(c, Config.DEFAULT);
  }

  lemma DefaultTexts()
    ensures WebForm.BreakFree(Config.DEFAULT.clientId)
  {
  }

  lemma WantedIsValid()
    ensures Config.Valid(Wanted())
  {
    Config.DefaultIsValid();
    AsciiIsUtf8([97]);
  }

  /** A board with an erased chip, in its default configuration. */
  function NewBoard(): State {
    var m: Cells := CutSave.Erased(SIZE);
    State(m, Some(OFF), OFF, Config.DEFAULT)
  }

  lemma NewBoardIsErased()
    ensures ConfigCells(NewBoard().mem) == CutSave.Erased(Config.LEN)
  {
  }

  /** Whether a first save of `c` was answered "not saved" and yet changed what the next boot runs, to `next`. */
  ghost predicate TakesEffect(body: bytes, bus: Bus, c: Config.NetworkConfig, next: Config.NetworkConfig) {
    && ConfigForm.FormResult(body, NewBoard().cfg) == Some(c) && Stop(bus, Config.LEN) < Config.LEN
    && AfterBoot(AfterSave(NewBoard(), body, bus), true, true).cfg == next && next != NewBoard().cfg
  }

  /** It happens: a save that stops at the 41st byte leaves the board at its new address, without the web password
      that was to go with it. */
  lemma FailedSaveTakesEffect()
    ensures exists body, bus :: TakesEffect(body, bus, Wanted(), Wanted().(webPass := []))
  {
    var body := WantedForm();
    var bus: Bus := i => if i == 40 then Lost else Acked;
    CutAt(bus, 40, Config.LEN);
    NewBoardIsErased();
    CutFirstSave(NewBoard(), body, bus);
    Witness(body, bus, Wanted(), Wanted().(webPass := []));
  }

  lemma Witness(body: bytes, bus: Bus, c: Config.NetworkConfig, next: Config.NetworkConfig)
    requires TakesEffect(body, bus, c, next)
    ensures exists body', bus' :: TakesEffect(body', bus', c, next)
  {
  }

  lemma CutFirstSave(s: State, body: bytes, bus: Bus)
    requires s.cfg == Config.DEFAULT && ConfigForm.FormResult(body, s.cfg) == Some(Wanted())
    requires ConfigCells(s.mem) == CutSave.Erased(Config.LEN) && Reached(bus, Config.LEN) == 40
    ensures var next := AfterBoot(AfterSave(s, body, bus), true, true).cfg;
            next != s.cfg && next == Wanted().(webPass := [])
  {
    Config.DefaultIsValid();
    FailedFirstSave(s, body, bus, true);
    assert Wanted().ip[0] != Config.DEFAULT.ip[0];
  }

  // ---------------------------------------------------------------- LEDs: fail-last

  /** Viewer, cache and chip agree. */
  ghost predicate Agrees(s: State) { s.cache == Some(s.shown) && Decode(s.mem) == s.shown }

  /** No failure in the LED record: every LED write is acknowledged, every boot reads it. Faults in
      configuration saves are allowed. */
  ghost predicate LedFaultFree(es: seq<Event>) {
    forall i | 0 <= i < |es| ::
      match es[i]
      case Boot(stateOk, _) => stateOk
      case Led(_, bus) => Stop(bus, RECORD) == RECORD
      case Save(_, _) => true
  }

  /** The LEDs as commanded. */
  function Commanded(start: OutputState, es: seq<Event>): OutputState {
    if |es| == 0 then start
    else
      var o := Commanded(start, es[..|es| - 1]);
      if es[|es| - 1].Led? then Apply(es[|es| - 1].cmd, o) else o
  }

  lemma LedKeepsAgreement(s: State, u: Update, bus: Bus)
    requires Agrees(s) && Stop(bus, RECORD) == RECORD
    ensures Agrees(AfterLed(s, u, bus))
  {
    var o := Target(s.cache, u);
    assert Record(o)[..RECORD] == Record(o);
    TornSave(s.mem, o, RECORD);
  }

  lemma {:induction false} AgreementHolds(s: State, es: seq<Event>)
    requires Agrees(s) && LedFaultFree(es)
    ensures Agrees(Run(s, es)) && Run(s, es).shown == Commanded(s.shown, es)
  {
    if |es| > 0 {
      var t, e := Run(s, es[..|es| - 1]), es[|es| - 1];
      AgreementHolds(s, es[..|es| - 1]);
      match e {
        case Boot(_, _) =>
        case Led(u, bus) => LedKeepsAgreement(t, u, bus);
        case Save(body, bus) => SaveKeepsLeds(t, body, bus);
      }
    }
  }

  lemma SaveKeepsLeds(s: State, body: bytes, bus: Bus)
    ensures Decode(AfterSave(s, body, bus).mem) == Decode(s.mem)
  {
    var c := ConfigForm.FormResult(body, s.cfg);
    if c.Some? { ConfigSaveIsLocal(s.mem, c.value, bus); }
  }

  /** Fail-last: from any chip whose LED record was read at boot, through any fault-free LED commands,
      reboots and (even failing) configuration saves, pins, cache and record agree on what was commanded,
      and a reboot shows exactly the LEDs shown before it. */
  lemma FailLast(s: State, cfgOk: bool, es: seq<Event>, again: bool)
    requires LedFaultFree(es)
    ensures var t := Run(AfterBoot(s, true, cfgOk), es);
            && Agrees(t) && t.shown == Commanded(Decode(s.mem), es)
            && AfterBoot(t, true, again).shown == t.shown
  {
    AgreementHolds(AfterBoot(s, true, cfgOk), es);
  }

  // ---------------------------------------------------------------- what a fault does to fail-last

  /** After a failed LED save the viewer sees the command, the cache keeps the state before it, and the
      chip holds a field-wise mix (with the stale flag cells, if the magic was not there before). */
  lemma FailedLedSave(s: State, u: Update, bus: Bus)
    requires Agrees(s) && Apply(u, s.shown) != s.shown && Stop(bus, RECORD) < RECORD
    ensures var t, k := AfterLed(s, u, bus), Reached(bus, RECORD);
            && t.shown == Apply(u, s.shown) && t.cache == Some(s.shown)
            && (s.mem[0..4] == MAGIC ==> Decode(t.mem) == Torn(s.shown, Apply(u, s.shown), k))
            && Decode(t.mem) == (if MagicAfter(s.mem, k) then Torn(Flags(s.mem), Apply(u, s.shown), k) else OFF)
  {
    TornSave(s.mem, Apply(u, s.shown), Reached(bus, RECORD));
    TornOnAnyChip(s.mem, Apply(u, s.shown), Reached(bus, RECORD));
  }

  /** Whether some command of the sequence changes the LEDs it finds. */
  predicate Changes(start: OutputState, es: seq<Event>) {
    |es| > 0
    && var init, e := es[..|es| - 1], es[|es| - 1];
       Changes(start, init) || ChangesNow(Commanded(start, init), e)
  }

  predicate ChangesNow(o: OutputState, e: Event) { e.Led? && Apply(e.cmd, o) != o }

  /** Command i of the sequence does. */
  predicate ChangesAt(start: OutputState, es: seq<Event>, i: nat)
    requires i < |es|
  {
    ChangesNow(Commanded(start, es[..i]), es[i])
  }

  lemma {:induction false} ChangesIff(start: OutputState, es: seq<Event>)
    ensures Changes(start, es) <==> exists i | 0 <= i < |es| :: ChangesAt(start, es, i)
  {
    if |es| > 0 {
      var n := |es| - 1;
      var init := es[..n];
      ChangesIff(start, init);
      forall i | 0 <= i < n ensures ChangesAt(start, es, i) == ChangesAt(start, init, i) {
        SameBefore(start, es, i);
      }
      SameLast(start, es);
    }
  }

  lemma SameBefore(start: OutputState, es: seq<Event>, i: nat)
    requires i < |es| - 1
    ensures ChangesAt(start, es, i) == ChangesAt(start, es[..|es| - 1], i)
  {
    assert es[..|es| - 1][..i] == es[..i];
  }

  lemma SameLast(start: OutputState, es: seq<Event>)
    requires |es| > 0
    ensures Changes(start, es) <==> Changes(start, es[..|es| - 1]) || ChangesAt(start, es, |es| - 1)
  {
  }

  ghost predicate NoBoot(es: seq<Event>) { forall i | 0 <= i < |es| :: !es[i].Boot? }

  /** Between boots the cache, right or wrong, leads: it follows the commands from where it stands, and the
      chip follows the cache from the first command that changes it. The LEDs follow from where they stand. */
  lemma {:induction false} CacheLeads(s: State, o: OutputState, es: seq<Event>)
    requires s.cache == Some(o) && LedFaultFree(es) && NoBoot(es)
    ensures var t := Run(s, es);
            && t.shown == Commanded(s.shown, es) && t.cache == Some(Commanded(o, es))
            && (Changes(o, es) ==> Decode(t.mem) == Commanded(o, es))
            && (!Changes(o, es) ==> Decode(t.mem) == Decode(s.mem) && Commanded(o, es) == o)
  {
    if |es| > 0 {
      var n := |es| - 1;
      var t, e := Run(s, es[..n]), es[n];
      CacheLeads(s, o, es[..n]);
      LeadStep(t, e);
    }
  }

  lemma LeadStep(t: State, e: Event)
    requires t.cache.Some? && !e.Boot? && (e.Led? ==> Stop(e.bus, RECORD) == RECORD)
    ensures var o, r := t.cache.value, Step(t, e);
            && r.shown == (if e.Led? then Apply(e.cmd, t.shown) else t.shown)
            && r.cache == Some(if e.Led? then Apply(e.cmd, o) else o)
            && Decode(r.mem) == if e.Led? && Apply(e.cmd, o) != o then Apply(e.cmd, o) else Decode(t.mem)
  {
    match e {
      case Led(u, bus) => LedWritten(t, u, bus);
      case Save(body, bus) => SaveKeepsLeds(t, body, bus);
    }
  }

  lemma LedWritten(t: State, u: Update, bus: Bus)
    requires t.cache.Some? && Stop(bus, RECORD) == RECORD
    ensures var o, r := t.cache.value, AfterLed(t, u, bus);
            && r.cache == Some(Apply(u, o)) && r.shown == Apply(u, t.shown)
            && Decode(r.mem) == if Apply(u, o) != o then Apply(u, o) else Decode(t.mem)
  {
    var o := Target(t.cache, u);
    assert Record(o)[..RECORD] == Record(o);
    TornSave(t.mem, o, RECORD);
  }

  /** A boot that reads the record restores agreement for good, whatever was before. */
  lemma {:induction false} BootRestores(s: State, es: seq<Event>)
    requires LedFaultFree(es) && !NoBoot(es)
    ensures Agrees(Run(s, es))
  {
    var n := |es| - 1;
    var t := Run(s, es[..n]);
    if !es[n].Boot? {
      assert !NoBoot(es[..n]) by {
        var i :| 0 <= i < |es| && es[i].Boot?;
        assert es[..n][i].Boot?;
      }
      BootRestores(s, es[..n]);
      match es[n] {
        case Led(u, bus) => LedKeepsAgreement(t, u, bus);
        case Save(body, bus) => SaveKeepsLeds(t, body, bus);
      }
    }
  }

  /** From whatever state, with the cache at `o`, after any number of failures and any fault-free continuation:
      agreement is back iff there was a boot, or the LEDs shown ended up as the commands leave `o`, and from `o`
      either some command changed it (and so was written) or the chip holds it. */
  lemma AgreementIff(t: State, o: OutputState, es: seq<Event>)
    requires t.cache == Some(o) && LedFaultFree(es)
    ensures Agrees(Run(t, es))
            <==> !NoBoot(es) || (Commanded(t.shown, es) == Commanded(o, es) && (Changes(o, es) || Decode(t.mem) == o))
  {
    if NoBoot(es) { CacheLeads(t, o, es); } else { BootRestores(t, es); }
  }

  /** In particular after one failed LED save, on any chip. */
  lemma RecoveryAfterFault(s: State, u: Update, bus: Bus, es: seq<Event>)
    requires Agrees(s) && Apply(u, s.shown) != s.shown && Stop(bus, RECORD) < RECORD
    requires LedFaultFree(es)
    ensures var o, n, t := s.shown, Apply(u, s.shown), AfterLed(s, u, bus);
            Agrees(Run(t, es))
            <==> !NoBoot(es) || (Commanded(n, es) == Commanded(o, es) && (Changes(o, es) || Decode(t.mem) == o))
  {
    FailedLedSave(s, u, bus);
    AgreementIff(AfterLed(s, u, bus), s.shown, es);
  }

  /** Repeating the failed command, and nothing else, always qualifies. */
  lemma RetryRecovers(s: State, u: Update, bus: Bus, again: Bus)
    requires Agrees(s) && Apply(u, s.shown) != s.shown
    requires Stop(bus, RECORD) < RECORD && Stop(again, RECORD) == RECORD
    ensures Agrees(AfterLed(AfterLed(s, u, bus), u, again))
  {
    FailedLedSave(s, u, bus);
    LedWritten(AfterLed(s, u, bus), u, again);
    assert Apply(u, Apply(u, s.shown)) == Apply(u, s.shown);
  }

  /** Keeping the old cache after a failed write makes the same command retry, but not the opposite one:
      the cache still says "off", so switching off again writes nothing while the torn record holds
      LED 1 on. The board shows both LEDs off and comes up with LED 1 on. */
  lemma TornThenReverted()
    ensures exists s: State, bus, bus2 :: Reverts(s, bus, bus2)
  {
    var m: Cells := Record(OFF) + seq(248, _ => 0xFF);
    var bus: Bus := i => if i == 6 then Lost else Acked;
    var bus2: Bus := i => Acked;
    OffRecord(m);
    CutAt(bus, 6, RECORD);
    NeverCut(bus2, RECORD);
    RevertedUnwritten(State(m, Some(OFF), OFF, Config.DEFAULT), bus, bus2);
  }

  /** Both LEDs are switched on, which fails, and off again, which does not: from agreement to a board that shows
      them off and would come up with LED 1 on. */
  ghost predicate Reverts(s: State, bus: Bus, bus2: Bus) {
    && Agrees(s) && Stop(bus2, RECORD) == RECORD
    && var t := AfterLed(AfterLed(s, SetLeds(true, true), bus), SetLeds(false, false), bus2);
       t.shown == OFF && AfterBoot(t, true, true).shown == OutputState(true, false)
  }

  lemma OffRecord(m: Cells)
    requires m[..8] == Record(OFF)
    ensures Decode(m) == OFF && m[0..4] == MAGIC
  {
    assert m[0..4] == m[..8][0..4] && m[5] == m[..8][5] && m[6] == m[..8][6];
  }

  lemma RevertedUnwritten(s: State, bus: Bus, bus2: Bus)
    requires Agrees(s) && s.shown == OFF && s.mem[0..4] == MAGIC
    requires Stop(bus, RECORD) == 6 && Reached(bus, RECORD) == 6 && Stop(bus2, RECORD) == RECORD
    ensures Reverts(s, bus, bus2)
  {
    FailedLedSave(s, SetLeds(true, true), bus);
    LedWritten(AfterLed(s, SetLeds(true, true), bus), SetLeds(false, false), bus2);
  }

  lemma CutAt(bus: Bus, i: nat, n: nat)
    requires i < n && forall j: nat :: bus(j) == if j == i then Lost else Acked
    ensures Stop(bus, n) == i && Reached(bus, n) == i
  {
    AckedSoFar(bus, i);
    StopFrom(bus, i, n);
  }

  lemma {:induction false} AckedSoFar(bus: Bus, n: nat)
    requires forall i | 0 <= i < n :: bus(i) == Acked
    ensures Stop(bus, n) == n
  {
    if n > 0 { AckedSoFar(bus, n - 1); }
  }

  lemma NeverCut(bus: Bus, n: nat)
    requires forall i: nat :: bus(i) == Acked
    ensures Stop(bus, n) == n
  {
    AckedSoFar(bus, n);
  }

  /** When the record could not be read at boot the cache is a guess. From then on pins and cache agree,
      and the chip agrees with them iff it held "off" anyway or some command changed the LEDs (and so was
      written): otherwise a reboot brings back the old LEDs although "off" was commanded and shown. */
  lemma FailLastAfterBlindBoot(s: State, cfgOk: bool, es: seq<Event>)
    requires LedFaultFree(es) && NoBoot(es)
    ensures var t := Run(AfterBoot(s, false, cfgOk), es);
            && t.shown == Commanded(OFF, es) && t.cache == Some(t.shown)
            && (Changes(OFF, es) ==> Decode(t.mem) == t.shown)
            && (!Changes(OFF, es) ==> Decode(t.mem) == Decode(s.mem) && t.shown == OFF)
  {
    CacheLeads(AfterBoot(s, false, cfgOk), OFF, es);
  }

  /** The condition at its sharpest: agreement after a blind boot, for any fault-free continuation. */
  lemma BlindBootAgreement(s: State, cfgOk: bool, es: seq<Event>)
    requires LedFaultFree(es)
    ensures Agrees(Run(AfterBoot(s, false, cfgOk), es)) <==> !NoBoot(es) || Decode(s.mem) == OFF || Changes(OFF, es)
  {
    AgreementIff(AfterBoot(s, false, cfgOk), OFF, es);
  }
}
