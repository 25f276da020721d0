/** The AT24C02 driver (src/eeprom.rs): one byte per transaction, stopping at the first error. */
module EepromChip {
  import opened Bytes

  const SIZE: nat := 256

  type Cells = m: bytes | |m| == SIZE witness seq(SIZE, _ => 0xFF)

  /** One byte transaction: acknowledged, failed before the cell changed, or failed (or the power went)
      after it did. */
  datatype Outcome = Acked | Lost | LostStored

  /** What the bus does to the successive transactions of one write. */
  type Bus = nat -> Outcome

  /** Number of transactions acknowledged before the first failure, n if none of the first n fails. */
  function Stop(bus: Bus, n: nat): (k: nat)
    ensures k <= n
  {
    if n == 0 then 0
    else
      var k := Stop(bus, n - 1);
      if k == n - 1 && bus(n - 1).Acked? then n else k
  }

  /** Number of bytes of an n-byte write that reach the cells. */
  function Reached(bus: Bus, n: nat): (k: nat)
    ensures k <= n
  {
    var k := Stop(bus, n);
    if k < n && bus(k).LostStored? then k + 1 else k
  }

  lemma {:induction false} StopIsFirstFailure(bus: Bus, n: nat)
    ensures forall i | 0 <= i < Stop(bus, n) :: bus(i).Acked?
    ensures Stop(bus, n) < n ==> !bus(Stop(bus, n)).Acked?
    ensures Reached(bus, n) == Stop(bus, n) + if Stop(bus, n) < n && bus(Stop(bus, n)) == LostStored then 1 else 0
  {
    if n > 0 { StopIsFirstFailure(bus, n - 1); }
  }

  lemma {:induction false} StopFrom(bus: Bus, i: nat, n: nat)
    requires i < n && Stop(bus, i) == i && !bus(i).Acked?
    ensures Stop(bus, n) == i
    decreases n
  {
    if i < n - 1 { StopFrom(bus, i, n - 1); }
  }

  /** Successive byte writes with an 8-bit address that wraps. */
  function Burn(m: Cells, start: byte, data: bytes): Cells
  {
    if |data| == 0 then m
    else
      var n := |data| - 1;
      Burn(m, start, data[..n])[(start + n) % SIZE := data[n]]
  }

  lemma BurnOne(m: Cells, start: byte, data: bytes, i: nat)
    requires i < |data|
    ensures Burn(m, start, data[..i + 1]) == Burn(m, start, data[..i])[(start + i) % SIZE := data[i]]
  {
    assert data[..i + 1][..i] == data[..i];
  }

  lemma Wrapped(start: byte, i: nat)
    ensures (start + i % 256) % 256 == (start + i) % SIZE
  {
  }

  lemma OneCellMore(front: bytes, done: bytes, rest: bytes, b: byte)
    requires |rest| > 0
    ensures (front + done + rest)[|front| + |done| := b] == front + (done + [b]) + rest[1..]
  {
  }

  /** In general the 8-bit address wraps: byte i goes to cell start + i modulo 256, and all others keep theirs. */
  lemma {:induction false} BurnWraps(m: Cells, start: byte, data: bytes, c: nat)
    requires |data| <= SIZE && c < SIZE
    ensures var i := (c - start) % SIZE;
            Burn(m, start, data)[c] == if i < |data| then data[i] else m[c]
  {
    if |data| > 0 {
      var n := |data| - 1;
      BurnWraps(m, start, data[..n], c);
      Distance(start, c, n);
    }
  }

  lemma Distance(start: byte, c: nat, n: nat)
    requires c < SIZE && n < SIZE
    ensures (start + n) % SIZE == c <==> (c - start) % SIZE == n
  {
  }

  /** A write that ends inside the chip never wraps: it replaces its own range and nothing else. */
  lemma {:induction false} BurnInRange(m: Cells, start: byte, data: bytes)
    requires start + |data| <= SIZE
    ensures Burn(m, start, data) == m[..start] + data + m[start + |data|..]
  {
    if |data| > 0 {
      var n := |data| - 1;
      BurnInRange(m, start, data[..n]);
      OneCellMore(m[..start], data[..n], m[start + n..], data[n]);
      assert data == data[..n] + [data[n]];
      assert m[start + n..][1..] == m[start + |data|..];
    }
  }

  class Eeprom {
    const cells: array<byte>

    ghost predicate Valid() { cells.Length == SIZE }

    ghost function Image(): Cells
      requires Valid()
      reads cells
    {
      cells[..]
    }

    constructor (image: Cells)
      ensures Valid() && fresh(cells) && Image() == image
    {
      var c := new byte[SIZE](i requires 0 <= i < SIZE => image[i]);
      cells := c;
      new;
      assert cells[..] == image;
    }

    /** A sequential read, or nothing usable on a bus error. */
    method Read(addr: byte, n: nat, readOk: bool) returns (r: Option<bytes>)
      requires Valid() && addr + n <= SIZE
      ensures r == if readOk then Some(Image()[addr..addr + n]) else None
    {
      r := if readOk then Some(cells[addr..addr + n]) else None;
    }

    method WriteBytes(start: byte, data: bytes, bus: Bus) returns (ok: bool)
      requires Valid()
      modifies cells
      ensures Image() == Burn(old(Image()), start, data[..Reached(bus, |data|)])
      ensures ok <==> Stop(bus, |data|) == |data|
    {
      var i := 0;
      while i < |data|
        invariant 0 <= i <= |data|
        invariant Stop(bus, i) == i
        invariant cells[..] == Burn(old(cells[..]), start, data[..i])
      {
        var memAddr := (start + i % 256) % 256;
        Wrapped(start, i);
        BurnOne(old(cells[..]), start, data, i);
        if bus(i) == Lost {
          StopFrom(bus, i, |data|);
          return false;
        }
        cells[memAddr] := data[i];
        if bus(i) == LostStored {
          StopFrom(bus, i, |data|);
          return false;
        }
        i := i + 1;
      }
      assert data[..i] == data;
      ok := true;
    }
  }
}
