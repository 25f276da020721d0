/** Decimal printing (`fmt_u8`, `fmt_u16`, `fmt_ipv4` in src/web.rs), Rust's `str::parse` for unsigned
    types, and the two parsers built on it (logic/src/config.rs). */
module Decimal {
  import opened Bytes

  const U8_MAX: nat := 255
  const U16_MAX: nat := 65535
  const U64_MAX: nat := 0xFFFF_FFFF_FFFF_FFFF

  const DOT: byte := '.' as int
  const ZERO: byte := '0' as int
  const PLUS: byte := '+' as int

  type Ipv4 = a: bytes | |a| == 4 witness [0, 0, 0, 0]

  predicate IsDigit(b: byte) { 48 <= b <= 57 }

  predicate Digits(s: bytes) { forall i | 0 <= i < |s| :: IsDigit(s[i]) }

  function DigitsValue(s: bytes): nat
    requires Digits(s)
  {
    if |s| == 0 then 0 else 10 * DigitsValue(s[..|s| - 1]) + (s[|s| - 1] - 48)
  }

  /** `s.parse::<uN>()` with `max` the largest value of the type: one optional `+`, then at least one
      digit; leading zeros are accepted, a value over `max` is not. */
  function ParseUInt(s: bytes, max: nat): (r: Option<nat>)
    ensures r.Some? ==> r.value <= max
  {
    var d := if |s| > 0 && s[0] == PLUS then s[1..] else s;
    if |d| > 0 && Digits(d) && DigitsValue(d) <= max then Some(DigitsValue(d)) else None
  }

  /** The texts that denote n: digits with that value, at least one, perhaps after one `+`. */
  predicate DenotesNumber(s: bytes, n: nat) {
    || (|s| > 0 && Digits(s) && DigitsValue(s) == n)
    || (|s| > 1 && s[0] == PLUS && Digits(s[1..]) && DigitsValue(s[1..]) == n)
  }

  lemma ParseUIntIff(s: bytes, max: nat, n: nat)
    ensures ParseUInt(s, max) == Some(n) <==> DenotesNumber(s, n) && n <= max
  {
    if |s| > 0 && s[0] == PLUS { assert !Digits(s) by { assert !IsDigit(s[0]); } }
  }

  /** `write!(buf, "{}", n)`: the shortest decimal text of n. */
  function Print(n: nat): (s: bytes)
    ensures |s| > 0
    ensures Digits(s) && DigitsValue(s) == n
    ensures s[0] == ZERO ==> s == [ZERO]
  {
    if n < 10 then [48 + n] else
      var s := Print(n / 10) + [48 + n % 10];
      assert s[..|s| - 1] == Print(n / 10);
      s
  }

  function Pow10(k: nat): nat { if k == 0 then 1 else 10 * Pow10(k - 1) }

  lemma {:induction false} PrintLength(n: nat, k: nat)
    requires k > 0 && n < Pow10(k)
    ensures |Print(n)| <= k
  {
    if n >= 10 {
      assert k > 1;
      PrintLength(n / 10, k - 1);
    }
  }

  lemma PrintWidths(n: nat)
    ensures n <= U8_MAX ==> |Print(n)| <= 3
    ensures n <= U16_MAX ==> |Print(n)| <= 5
    ensures n <= U64_MAX ==> |Print(n)| <= 20
  {
    assert Pow10(3) == 1000;
    assert Pow10(5) == 100 * Pow10(3);
    assert Pow10(10) == 100000 * Pow10(5) by {
      assert Pow10(10) == 1000 * Pow10(7);
    }
    assert Pow10(15) == 100000 * Pow10(10) by { assert Pow10(15) == 1000 * Pow10(12); }
    assert Pow10(20) == 100000 * Pow10(15) by { assert Pow10(20) == 1000 * Pow10(17); }
    if n <= U8_MAX { PrintLength(n, 3); }
    if n <= U16_MAX { PrintLength(n, 5); }
    if n <= U64_MAX { PrintLength(n, 20); }
  }

  lemma PrintGraphic(n: nat)
    ensures Graphic(Print(n)) && Trim(Print(n)) == Print(n)
  {
    var s := Print(n);
    assert forall i | 0 <= i < |s| :: IsDigit(s[i]);
    TrimGraphic(s);
  }

  /** Printing then parsing is the identity on the type's range. */
  lemma ParsePrint(n: nat, max: nat)
    ensures ParseUInt(Print(n), max) == if n <= max then Some(n) else None
  {
    var s := Print(n);
    assert IsDigit(s[0]);
  }

  // ---------------------------------------------------------------- bounded printing (src/web.rs)

  /** `push_u8_dec` / `push_u16_dec`: a `heapless::String` takes the whole text or none of it, and the
      error is ignored. */
  method PushDec(buf: bytes, capacity: nat, v: nat) returns (r: bytes)
    ensures r == if |buf| + |Print(v)| <= capacity then buf + Print(v) else buf
  {
    var digits := Print(v);
    r := buf;
    if |buf| + |digits| <= capacity { r := buf + digits; }
  }

  method PushChar(buf: bytes, capacity: nat, c: byte) returns (r: bytes)
    ensures r == if |buf| < capacity then buf + [c] else buf
  {
    r := buf;
    if |buf| < capacity { r := buf + [c]; }
  }

  /** The four octets in decimal, joined by dots. */
  function Dotted(a: Ipv4): bytes { Join([Print(a[0]), Print(a[1]), Print(a[2]), Print(a[3])], DOT) }

  lemma DottedText(a: Ipv4)
    ensures Dotted(a) == Print(a[0]) + [DOT] + Print(a[1]) + [DOT] + Print(a[2]) + [DOT] + Print(a[3])
  {
    var p0, p1, p2, p3 := Print(a[0]), Print(a[1]), Print(a[2]), Print(a[3]);
    assert [p2, p3][1..] == [p3];
    assert Join([p2, p3], DOT) == p2 + [DOT] + p3;
    assert [p1, p2, p3][1..] == [p2, p3];
    assert Join([p1, p2, p3], DOT) == p1 + [DOT] + (p2 + [DOT] + p3);
    assert [p0, p1, p2, p3][1..] == [p1, p2, p3];
    assert Join([p0, p1, p2, p3], DOT) == p0 + [DOT] + (p1 + [DOT] + (p2 + [DOT] + p3));
  }

  /** No push is dropped: the 16-byte buffer always receives the full dotted quad. */
  method FmtIpv4(a: Ipv4) returns (s: bytes)
    ensures s == Dotted(a) && |s| <= 15
  {
    ghost var p0, p1, p2 := Print(a[0]), Print(a[1]), Print(a[2]);
    PrintWidths(a[0]); PrintWidths(a[1]); PrintWidths(a[2]); PrintWidths(a[3]);
    s := PushDec([], 16, a[0]);
    assert s == p0;
    s := PushChar(s, 16, DOT);
    s := PushDec(s, 16, a[1]);
    assert s == p0 + [DOT] + p1;
    s := PushChar(s, 16, DOT);
    s := PushDec(s, 16, a[2]);
    assert s == p0 + [DOT] + p1 + [DOT] + p2;
    s := PushChar(s, 16, DOT);
    s := PushDec(s, 16, a[3]);
    DottedText(a);
  }

  method FmtU8(v: byte) returns (s: bytes)
    ensures s == Print(v) && |s| <= 3
  {
    PrintWidths(v);
    s := PushDec([], 4, v);
  }

  method FmtU16(v: nat) returns (s: bytes)
    requires v <= U16_MAX
    ensures s == Print(v) && |s| <= 5
  {
    PrintWidths(v);
    s := PushDec([], 6, v);
  }

  // ---------------------------------------------------------------- parsers (logic/src/config.rs)

  /** The octets a text denotes, if it denotes an address. */
  function Quad(s: bytes): (r: Option<Ipv4>)
  {
    var p := Split(s, DOT);
    if |p| == 4 && forall i | 0 <= i < 4 :: ParseUInt(p[i], U8_MAX).Some? then
      Some([ParseUInt(p[0], U8_MAX).value, ParseUInt(p[1], U8_MAX).value,
            ParseUInt(p[2], U8_MAX).value, ParseUInt(p[3], U8_MAX).value])
    else None
  }

  /** `parse_ipv4`: fill the octets from the iterator, then insist that it is exhausted. */
  method ParseIpv4(s: bytes) returns (r: Option<Ipv4>)
    ensures r == Quad(s)
  {
    var parts := Split(s, DOT);
    var octets := new byte[4](_ => 0);
    var next := 0;
    while next < 4
      invariant 0 <= next <= 4 && next <= |parts|
      invariant forall i | 0 <= i < next :: ParseUInt(parts[i], U8_MAX) == Some(octets[i] as nat)
    {
      if next >= |parts| { return None; }
      var o := ParseUInt(parts[next], U8_MAX);
      if o.None? { return None; }
      octets[next] := o.value;
      next := next + 1;
    }
    if next < |parts| { return None; }
    FourRead(s, octets[..]);
    r := Some(octets[..]);
  }

  lemma FourRead(s: bytes, a: bytes)
    requires |a| == 4 && |Split(s, DOT)| == 4
    requires forall i | 0 <= i < 4 :: ParseUInt(Split(s, DOT)[i], U8_MAX) == Some(a[i] as nat)
    ensures Quad(s) == Some(a)
  {
    assert a == [a[0], a[1], a[2], a[3]];
  }

  /** `parse_port` */
  function ParsePort(s: bytes): (r: Option<nat>)
    ensures r.Some? ==> 1 <= r.value <= U16_MAX
  {
    var p := ParseUInt(Trim(s), U16_MAX);
    if p == Some(0) then None else p
  }

  /** The texts that denote an address: four numbers up to 255, joined by dots. */
  ghost predicate DenotesAddress(s: bytes, a: Ipv4) {
    exists p0, p1, p2, p3 ::
      && s == Join([p0, p1, p2, p3], DOT)
      && DenotesNumber(p0, a[0]) && DenotesNumber(p1, a[1]) && DenotesNumber(p2, a[2]) && DenotesNumber(p3, a[3])
  }

  lemma NumberHasNoDot(p: bytes, n: nat)
    requires DenotesNumber(p, n)
    ensures DOT !in p
  {
    if p[0] == PLUS {
      assert p == [p[0]] + p[1..];
    }
  }

  lemma QuadIff(s: bytes, a: Ipv4)
    ensures Quad(s) == Some(a) <==> DenotesAddress(s, a)
  {
    var p := Split(s, DOT);
    JoinSplit(s, DOT);
    if Quad(s) == Some(a) {
      assert p == [p[0], p[1], p[2], p[3]];
      ParseUIntIff(p[0], U8_MAX, a[0]);
      ParseUIntIff(p[1], U8_MAX, a[1]);
      ParseUIntIff(p[2], U8_MAX, a[2]);
      ParseUIntIff(p[3], U8_MAX, a[3]);
      assert s == Join([p[0], p[1], p[2], p[3]], DOT);
    }
    if DenotesAddress(s, a) {
      var p0, p1, p2, p3 :| s == Join([p0, p1, p2, p3], DOT)
                            && DenotesNumber(p0, a[0]) && DenotesNumber(p1, a[1]) && DenotesNumber(p2, a[2]) && DenotesNumber(p3, a[3]);
      QuadOfParts(p0, p1, p2, p3, a);
    }
  }

  lemma QuadOfParts(p0: bytes, p1: bytes, p2: bytes, p3: bytes, a: Ipv4)
    requires DenotesNumber(p0, a[0]) && DenotesNumber(p1, a[1]) && DenotesNumber(p2, a[2]) && DenotesNumber(p3, a[3])
    ensures Quad(Join([p0, p1, p2, p3], DOT)) == Some(a)
  {
    NumberHasNoDot(p0, a[0]);
    NumberHasNoDot(p1, a[1]);
    NumberHasNoDot(p2, a[2]);
    NumberHasNoDot(p3, a[3]);
    SplitJoin([p0, p1, p2, p3], DOT);
    QuadOf(Join([p0, p1, p2, p3], DOT), [p0, p1, p2, p3], a);
  }

  lemma QuadOf(s: bytes, p: seq<bytes>, a: Ipv4)
    requires Split(s, DOT) == p && |p| == 4
    requires DenotesNumber(p[0], a[0]) && DenotesNumber(p[1], a[1]) && DenotesNumber(p[2], a[2]) && DenotesNumber(p[3], a[3])
    ensures Quad(s) == Some(a)
  {
    ParseUIntIff(p[0], U8_MAX, a[0]);
    ParseUIntIff(p[1], U8_MAX, a[1]);
    ParseUIntIff(p[2], U8_MAX, a[2]);
    ParseUIntIff(p[3], U8_MAX, a[3]);
    FourOctets(a);
  }

  lemma FourOctets(a: Ipv4)
    ensures [a[0], a[1], a[2], a[3]] == a
  {
  }

  /** A port is a number from 1 to 65535, perhaps with white space around it. */
  lemma PortIff(s: bytes, p: nat)
    ensures ParsePort(s) == Some(p) <==> DenotesNumber(Trim(s), p) && 1 <= p <= U16_MAX
  {
    ParseUIntIff(Trim(s), U16_MAX, p);
    ParseUIntIff(Trim(s), U16_MAX, 0);
  }

  // ---------------------------------------------------------------- round trips

  lemma QuadDotted(a: Ipv4)
    ensures Quad(Dotted(a)) == Some(a)
  {
    var p := [Print(a[0]), Print(a[1]), Print(a[2]), Print(a[3])];
    forall i | 0 <= i < |p| ensures DOT !in p[i] {
      assert Digits(p[i]);
    }
    SplitJoin(p, DOT);
    ParsePrint(a[0], U8_MAX); ParsePrint(a[1], U8_MAX); ParsePrint(a[2], U8_MAX); ParsePrint(a[3], U8_MAX);
    assert [a[0], a[1], a[2], a[3]] == a;
  }

  /** `parse_port` undoes `fmt_u16` exactly on the non-zero ports. */
  lemma PortPrint(p: nat)
    requires p <= U16_MAX
    ensures ParsePort(Print(p)) == if p == 0 then None else Some(p)
  {
    PrintGraphic(p);
    ParsePrint(p, U16_MAX);
  }

  /** Whatever spelling was accepted (`+1`, `001`), reprinting gives the one canonical text of the
      same address: two accepted texts mean the same address iff they reprint alike. */
  lemma CanonicalQuad(s: bytes, t: bytes)
    requires Quad(s).Some? && Quad(t).Some?
    ensures Quad(Dotted(Quad(s).value)) == Quad(s)
    ensures Dotted(Quad(s).value) == Dotted(Quad(t).value) <==> Quad(s) == Quad(t)
  {
    QuadDotted(Quad(s).value);
    QuadDotted(Quad(t).value);
  }
}
