/** LED state kept in EEPROM bytes 0..8 behind a RAM cache (src/persistence.rs). */
module Persistence {
  import opened Bytes
  import opened EepromChip

  datatype OutputState = OutputState(led1: bool, led2: bool)

  const OFF: OutputState := OutputState(false, false)
  const MAGIC: bytes := [0xCA, 0xFE, 0xF0, 0x0D]
  const RECORD: nat := 8

  /** The closures passed to `save_field`. */
  datatype Update = SetLed1(on: bool) | SetLed2(on: bool) | SetLeds(led1: bool, led2: bool)

  function Apply(u: Update, s: OutputState): OutputState {
    match u
    case SetLed1(on) => s.(led1 := on)
    case SetLed2(on) => s.(led2 := on)
    case SetLeds(l1, l2) => OutputState(l1, l2)
  }

  function Flag(b: bool): byte { if b then 1 else 0 }

  function Record(s: OutputState): (r: bytes)
    ensures |r| == RECORD
  {
    MAGIC + [0, Flag(s.led1), Flag(s.led2), 0]
  }

  function Decode(m: Cells): OutputState {
    if m[0..4] == MAGIC then OutputState(m[5] % 2 != 0, m[6] % 2 != 0) else OFF
  }

  function GetOr(c: Option<OutputState>, d: OutputState): OutputState { if c.Some? then c.value else d }

  /** The state `save_field` is about: the cached one, updated. */
  function Target(cache: Option<OutputState>, u: Update): OutputState { Apply(u, GetOr(cache, OFF)) }

  /** Chip and cache after `save_field`: nothing happens when the cache already holds the target; a failed
      write leaves the cache alone. */
  function Saved(m: Cells, cache: Option<OutputState>, u: Update, bus: Bus): (Cells, Option<OutputState>) {
    var s := Target(cache, u);
    if cache == Some(s) then (m, cache)
    else (Burn(m, 0, Record(s)[..Reached(bus, RECORD)]), if Stop(bus, RECORD) == RECORD then Some(s) else cache)
  }

  class Store {
    const eeprom: Eeprom
    var cache: Option<OutputState>

    constructor (eeprom: Eeprom)
      ensures this.eeprom == eeprom && cache == None
    {
      this.eeprom := eeprom;
      cache := None;
    }

    method LoadState(readOk: bool) returns (state: OutputState)
      requires eeprom.Valid()
      modifies this
      ensures state == if readOk then Decode(eeprom.Image()) else OFF
      ensures cache == Some(state)
    {
      var buf := eeprom.Read(0, RECORD, readOk);
      if buf.Some? && buf.value[0..4] == MAGIC {
        assert buf.value[0..4] == eeprom.Image()[0..4];
        state := OutputState(buf.value[5] % 2 != 0, buf.value[6] % 2 != 0);
      } else {
        assert buf.Some? ==> buf.value[0..4] == eeprom.Image()[0..4];
        state := OFF;
      }
      cache := Some(state);
    }

    method SaveField(u: Update, bus: Bus)
      requires eeprom.Valid()
      modifies this, eeprom.cells
      ensures (eeprom.Image(), cache) == Saved(old(eeprom.Image()), old(cache), u, bus)
    {
      var state := if cache.Some? then cache.value else OFF;
      match u {
        case SetLed1(on) => state := state.(led1 := on);
        case SetLed2(on) => state := state.(led2 := on);
        case SetLeds(l1, l2) => state := OutputState(l1, l2);
      }
      if cache == Some(state) { return; }
      var ok := eeprom.WriteBytes(0, MAGIC + [0, Flag(state.led1), Flag(state.led2), 0], bus);
      if ok { cache := Some(state); }
    }
  }

  // ---------------------------------------------------------------- what a write leaves behind

  /** The field-wise result of a write cut after k bytes. */
  function Torn(old': OutputState, new': OutputState, k: nat): OutputState {
    OutputState(if k > 5 then new'.led1 else old'.led1, if k > 6 then new'.led2 else old'.led2)
  }

  lemma BurnRecord(m: Cells, s: OutputState, k: nat)
    requires k <= RECORD
    ensures Burn(m, 0, Record(s)[..k]) == Record(s)[..k] + m[k..]
  {
    BurnInRange(m, 0, Record(s)[..k]);
    assert m[..0] == [];
  }

  /** Once the record carries its magic, a save torn after any number of bytes decodes, field by field,
      to the old or the new value; an uncut save decodes to the new state on any chip. */
  lemma TornSave(m: Cells, s: OutputState, k: nat)
    requires k <= RECORD
    ensures m[0..4] == MAGIC ==> Decode(Burn(m, 0, Record(s)[..k])) == Torn(Decode(m), s, k)
    ensures k == RECORD ==> Decode(Burn(m, 0, Record(s)[..k])) == s
    ensures m[0..4] == MAGIC || k == RECORD ==> Burn(m, 0, Record(s)[..k])[0..4] == MAGIC
  {
    BurnRecord(m, s, k);
    var b := Burn(m, 0, Record(s)[..k]);
    assert forall i | 0 <= i < RECORD :: b[i] == if i < k then Record(s)[i] else m[i];
    assert forall i | 0 <= i < 4 :: Record(s)[i] == MAGIC[i];
    if m[0..4] == MAGIC {
      assert forall i | 0 <= i < 4 :: m[i] == m[0..4][i];
      assert b[0..4] == MAGIC;
    }
    if k == RECORD {
      assert b[0..4] == MAGIC;
    }
  }

  /** The flag cells, whatever is in front of them. */
  function Flags(m: Cells): OutputState { OutputState(m[5] % 2 != 0, m[6] % 2 != 0) }

  /** Whether the first k bytes of a record complete the magic. */
  predicate MagicAfter(m: Cells, k: nat) { k >= 4 || MAGIC[..k] + m[k..4] == MAGIC }

  /** A save torn after any number of bytes, on any chip: as soon as the magic is complete the stale flag cells
      behind the cut show through (on an erased chip, 0xFF, both LEDs come up on); until then both are off. */
  lemma TornOnAnyChip(m: Cells, s: OutputState, k: nat)
    requires k <= RECORD
    ensures Decode(Burn(m, 0, Record(s)[..k])) == if MagicAfter(m, k) then Torn(Flags(m), s, k) else OFF
  {
    BurnRecord(m, s, k);
    var b := Burn(m, 0, Record(s)[..k]);
    assert forall i | 0 <= i < RECORD :: b[i] == if i < k then Record(s)[i] else m[i];
    assert forall i | 0 <= i < 4 :: Record(s)[i] == MAGIC[i] && b[0..4][i] == b[i];
    if k < 4 { assert b[0..4] == MAGIC[..k] + m[k..4]; } else { assert b[0..4] == MAGIC; }
    assert Record(s)[5] == Flag(s.led1) && Record(s)[6] == Flag(s.led2);
    assert b[5] == (if 5 < k then Flag(s.led1) else m[5]) && b[6] == if 6 < k then Flag(s.led2) else m[6];
  }

  /** A failed save keeps the cache, so the same command is never short-circuited, and once it succeeds
      the record holds its target. */
  lemma RetryAfterFailure(m: Cells, cache: Option<OutputState>, u: Update, bus: Bus, again: Bus)
    requires cache != Some(Target(cache, u))
    requires Stop(bus, RECORD) < RECORD
    ensures var (m1, c1) := Saved(m, cache, u, bus);
            var (m2, c2) := Saved(m1, c1, u, again);
            && c1 == cache && c1 != Some(Target(c1, u))
            && (Stop(again, RECORD) == RECORD ==> c2 == Some(Target(cache, u)) && Decode(m2) == Target(cache, u))
  {
    var m1 := Saved(m, cache, u, bus).0;
    TornSave(m1, Target(cache, u), RECORD);
    assert Record(Target(cache, u))[..RECORD] == Record(Target(cache, u));
  }
}
