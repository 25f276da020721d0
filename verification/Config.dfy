/** The network configuration and its 175-byte EEPROM image (logic/src/config.rs). */
module Config {
  import opened Bytes
  import opened Decimal

  const LEN: nat := 175
  const ID_MAX: nat := 24
  const CRED_MAX: nat := 32
  const MAGIC: bytes := [0xC0, 0x4F, 0x19, 0x1E]

  datatype NetworkConfig = NetworkConfig(
    ip: Ipv4, prefixLen: byte, gateway: Ipv4, brokerIp: Ipv4, brokerPort: nat,
    clientId: bytes, mqttUser: bytes, mqttPass: bytes, webUser: bytes, webPass: bytes)

  /** What the Rust types guarantee: UTF-8 text within capacity, a 16-bit port. */
  predicate Typed(c: NetworkConfig) {
    && c.brokerPort <= U16_MAX
    && FitsText(c.clientId, ID_MAX)
    && FitsText(c.mqttUser, CRED_MAX) && FitsText(c.mqttPass, CRED_MAX)
    && FitsText(c.webUser, CRED_MAX) && FitsText(c.webPass, CRED_MAX)
  }

  predicate FitsText(s: bytes, n: nat) { |s| <= n && Utf8(s) }

  /** What the board needs: a prefix `Ipv4Cidr::new` accepts, a usable port, no NUL to cut a string. */
  predicate Valid(c: NetworkConfig) {
    && Typed(c)
    && 1 <= c.prefixLen <= 32 && c.brokerPort != 0
    && NulFree(c.clientId) && NulFree(c.mqttUser) && NulFree(c.mqttPass)
    && NulFree(c.webUser) && NulFree(c.webPass)
  }

  const DEFAULT: NetworkConfig := NetworkConfig([192, 168, 137, 2], 24, [192, 168, 137, 1], [192, 168, 137, 1],
                                                1883, Ascii("stm32-jzf407"), [], [], [], [])

  lemma DefaultIsValid()
    ensures Valid(DEFAULT)
  {
    var id := Ascii("stm32-jzf407");
    assert AllAscii(id) && NulFree(id) && |id| == 12;
    AsciiIsUtf8(id);
  }

  // ---------------------------------------------------------------- to_bytes

  function Zeros(n: nat): bytes { seq(n, _ => 0) }

  /** A string slot: at most n bytes of text, then NULs. */
  function Pad(s: bytes, n: nat): (slot: bytes)
    ensures |slot| == n
  {
    if |s| <= n then s + Zeros(n - |s|) else s[..n]
  }

  /** Bytes 0..23: magic, addresses, prefix and big-endian port, unused bytes zero. */
  function Head(c: NetworkConfig): (h: bytes)
    ensures |h| == 23
  {
    MAGIC + c.ip + [c.prefixLen, 0, 0, 0] + c.gateway + c.brokerIp + [c.brokerPort / 256 % 256, c.brokerPort % 256, 0]
  }

  /** Bytes 47..175: the four credential slots. */
  function Creds(c: NetworkConfig): (s: bytes)
    ensures |s| == 4 * CRED_MAX
  {
    Pad(c.mqttUser, CRED_MAX) + Pad(c.mqttPass, CRED_MAX) + Pad(c.webUser, CRED_MAX) + Pad(c.webPass, CRED_MAX)
  }

  function Image(c: NetworkConfig): (b: bytes)
    ensures |b| == LEN
  {
    Head(c) + Pad(c.clientId, ID_MAX) + Creds(c)
  }

  /** `copy_from_slice` / `write_str` into the slot lo..hi: as much of `data` as fits. */
  method CopySlot(b: array<byte>, lo: nat, hi: nat, data: bytes)
    requires lo <= hi <= b.Length
    modifies b
    ensures b[..lo] == old(b[..lo]) && b[hi..] == old(b[hi..])
    ensures (forall i | lo <= i < hi :: old(b[i]) == 0) ==> b[lo..hi] == Pad(data, hi - lo)
  {
    var n := if |data| <= hi - lo then |data| else hi - lo;
    var i := 0;
    while i < n
      invariant 0 <= i <= n
      invariant b[..lo] == old(b[..lo]) && b[hi..] == old(b[hi..])
      invariant b[lo..lo + i] == data[..i]
      invariant forall k | lo + i <= k < hi :: b[k] == old(b[k])
    {
      b[lo + i] := data[i];
      i := i + 1;
    }
  }

  /** Writing slot after slot, left to right, over a zeroed buffer. */
  method PutSlot(b: array<byte>, lo: nat, hi: nat, data: bytes, ghost done: bytes)
    requires lo <= hi <= b.Length
    requires b[..lo] == done
    requires forall i | lo <= i < b.Length :: b[i] == 0
    modifies b
    ensures b[..hi] == done + Pad(data, hi - lo)
    ensures forall i | hi <= i < b.Length :: b[i] == 0
  {
    ghost var tail := b[hi..];
    CopySlot(b, lo, hi, data);
    assert b[..hi] == b[..lo] + b[lo..hi];
    assert b[hi..] == tail;
    forall i | hi <= i < b.Length ensures b[i] == 0 {
      assert b[i] == b[hi..][i - hi];
    }
  }

  /** `to_bytes`, filling the buffer in place. */
  method ToBytes(c: NetworkConfig) returns (b: array<byte>)
    requires Typed(c)
    ensures fresh(b) && b[..] == Image(c)
  {
    b := new byte[LEN](_ => 0);
    PutHead(b, c);
    PutSlot(b, 23, 47, c.clientId, Head(c));
    PutCreds(b, c, Head(c) + Pad(c.clientId, ID_MAX));
    assert b[..] == b[..175];
  }

  method PutHead(b: array<byte>, c: NetworkConfig)
    requires b.Length == LEN && forall i | 0 <= i < LEN :: b[i] == 0
    modifies b
    ensures b[..23] == Head(c) && forall i | 23 <= i < LEN :: b[i] == 0
  {
    PutSlot(b, 0, 4, MAGIC, []);
    PutSlot(b, 4, 8, c.ip, MAGIC);
    PutSlot(b, 8, 12, [c.prefixLen], b[..8]);
    PutSlot(b, 12, 16, c.gateway, b[..12]);
    PutSlot(b, 16, 20, c.brokerIp, b[..16]);
    PutSlot(b, 20, 23, [c.brokerPort / 256 % 256, c.brokerPort % 256], b[..20]);
  }

  method PutCreds(b: array<byte>, c: NetworkConfig, ghost done: bytes)
    requires b.Length == LEN && b[..47] == done && forall i | 47 <= i < LEN :: b[i] == 0
    modifies b
    ensures b[..175] == done + Creds(c)
  {
    PutSlot(b, 47, 79, c.mqttUser, done);
    PutSlot(b, 79, 111, c.mqttPass, b[..79]);
    PutSlot(b, 111, 143, c.webUser, b[..111]);
    PutSlot(b, 143, 175, c.webPass, b[..143]);
  }

  // ---------------------------------------------------------------- from_bytes

  function BigEndian(hi: byte, lo: byte): nat { (hi as int) * 256 + lo as int }

  /** `position(|&c| c == 0)`, the slice length if there is none. */
  function FirstNul(s: bytes): (k: nat)
    ensures k <= |s| && NulFree(s[..k]) && (k < |s| ==> s[k] == 0)
  {
    if |s| == 0 || s[0] == 0 then 0
    else
      var k := FirstNul(s[1..]);
      assert s[..k + 1] == [s[0]] + s[1..][..k];
      k + 1
  }

  /** `read_str`: unreadable text becomes the empty string. */
  function ReadStr(slot: bytes): (s: bytes)
    ensures NulFree(s) && Utf8(s) && |s| <= |slot|
  {
    var s := slot[..FirstNul(slot)];
    if Utf8(s) then s else []
  }

  /** `from_bytes` */
  function FromBytes(b: bytes): Option<NetworkConfig>
  {
    if |b| < LEN || b[0..4] != MAGIC then None
    else if !(1 <= b[8] <= 32) then None
    else if BigEndian(b[20], b[21]) == 0 then None
    else
      var slot := b[23..47];
      var id := slot[..FirstNul(slot)];
      if !Utf8(id) then None
      else Some(NetworkConfig(b[4..8], b[8], b[12..16], b[16..20], BigEndian(b[20], b[21]), id,
                              ReadStr(b[47..79]), ReadStr(b[79..111]), ReadStr(b[111..143]), ReadStr(b[143..175])))
  }

  /** `from_bytes` yields a bootable configuration, whatever the bytes are. */
  lemma FromBytesIsValid(b: bytes)
    ensures FromBytes(b).Some? ==> Valid(FromBytes(b).value)
  {
  }

  /** The text in a slot. */
  function TextOf(slot: bytes): bytes { slot[..FirstNul(slot)] }

  function OrEmpty(s: bytes): bytes { if Utf8(s) then s else [] }

  lemma {:induction false} TextEndsAt(t: bytes, slot: bytes)
    requires NulFree(t) && t <= slot && (|t| < |slot| ==> slot[|t|] == 0)
    ensures slot[..FirstNul(slot)] == t
  {
    if |t| > 0 {
      assert slot[0] == t[0];
      TextEndsAt(t[1..], slot[1..]);
      assert slot[..FirstNul(slot)] == [slot[0]] + slot[1..][..FirstNul(slot[1..])];
      assert [t[0]] + t[1..] == t;
    }
  }

  /** What a slot holds is its text up to the first NUL, read as empty when that is not UTF-8. */
  lemma ReadStrReads(slot: bytes, t: bytes)
    requires NulFree(t) && t <= slot && (|t| < |slot| ==> slot[|t|] == 0)
    ensures ReadStr(slot) == OrEmpty(t)
  {
    TextEndsAt(t, slot);
  }

  lemma {:induction false} FirstNulPad(s: bytes, n: nat)
    requires NulFree(s) && |s| <= n
    ensures Pad(s, n)[..FirstNul(Pad(s, n))] == s
  {
    var slot := Pad(s, n);
    if |s| > 0 {
      assert slot[1..] == Pad(s[1..], n - 1);
      FirstNulPad(s[1..], n - 1);
      assert [s[0]] + s[1..] == s;
      assert slot[..FirstNul(slot)] == [s[0]] + slot[1..][..FirstNul(slot[1..])];
    }
  }

  lemma ReadStrPad(s: bytes, n: nat)
    requires NulFree(s) && Utf8(s) && |s| <= n
    ensures ReadStr(Pad(s, n)) == s
  {
    FirstNulPad(s, n);
  }

  lemma ImageHead(c: NetworkConfig, rest: bytes)
    requires Typed(c)
    ensures var b := Head(c) + Pad(c.clientId, ID_MAX) + rest;
            && b[0..4] == MAGIC && b[4..8] == c.ip && b[8] == c.prefixLen
            && b[12..16] == c.gateway && b[16..20] == c.brokerIp
            && BigEndian(b[20], b[21]) == c.brokerPort
            && b[23..47] == Pad(c.clientId, ID_MAX)
  {
    var b := Head(c) + Pad(c.clientId, ID_MAX) + rest;
    assert b[20] == c.brokerPort / 256 && b[21] == c.brokerPort % 256;
  }

  /** The network part survives whatever follows it. */
  lemma NetworkPart(c: NetworkConfig, rest: bytes)
    requires Valid(c) && |rest| == 4 * CRED_MAX
    ensures FromBytes(Head(c) + Pad(c.clientId, ID_MAX) + rest)
            == Some(c.(mqttUser := ReadStr(rest[..32]), mqttPass := ReadStr(rest[32..64]),
                       webUser := ReadStr(rest[64..96]), webPass := ReadStr(rest[96..])))
  {
    var b := Head(c) + Pad(c.clientId, ID_MAX) + rest;
    ImageHead(c, rest);
    FirstNulPad(c.clientId, ID_MAX);
    assert b[47..79] == rest[..32] && b[79..111] == rest[32..64];
    assert b[111..143] == rest[64..96] && b[143..175] == rest[96..];
  }

  lemma ImageRoundTrip(c: NetworkConfig)
    requires Valid(c)
    ensures FromBytes(Image(c)) == Some(c)
  {
    var rest := Creds(c);
    NetworkPart(c, rest);
    assert rest[..32] == Pad(c.mqttUser, 32) && rest[32..64] == Pad(c.mqttPass, 32);
    assert rest[64..96] == Pad(c.webUser, 32) && rest[96..] == Pad(c.webPass, 32);
    ReadStrPad(c.mqttUser, 32); ReadStrPad(c.mqttPass, 32); ReadStrPad(c.webUser, 32); ReadStrPad(c.webPass, 32);
  }

  /** Saving and loading is lossless exactly for the Valid configurations. */
  lemma LosslessIffValid(c: NetworkConfig)
    requires Typed(c)
    ensures FromBytes(Image(c)) == Some(c) <==> Valid(c)
  {
    if Valid(c) { ImageRoundTrip(c); } else { FromBytesIsValid(Image(c)); }
  }

  /** Anything that loads can be saved and loads again unchanged. */
  lemma LoadSaveLoad(b: bytes)
    ensures FromBytes(b).Some? ==> FromBytes(Image(FromBytes(b).value)) == FromBytes(b)
  {
    FromBytesIsValid(b);
    if FromBytes(b).Some? { ImageRoundTrip(FromBytes(b).value); }
  }

  // ---------------------------------------------------------------- images of the previous layout

  const ERASED: byte := 0xFF

  lemma ErasedSlotIsEmpty(slot: bytes)
    requires |slot| > 0 && slot[0] == ERASED
    ensures ReadStr(slot) == []
  {
    assert CharWidth(slot[..FirstNul(slot)]) == 0;
  }

  /** The slot `x y FF FF ...` reads as empty unless `y` ends a one-character ASCII string. */
  lemma LegacySlot(slot: bytes)
    requires |slot| == 32 && forall i | 2 <= i < 32 :: slot[i] == ERASED
    ensures ReadStr(slot) == if slot[1] == 0 && 1 <= slot[0] < 0x80 then [slot[0]] else []
  {
    var k := FirstNul(slot);
    if slot[0] != 0 {
      assert k == 1 + FirstNul(slot[1..]);
      if slot[1] == 0 {
        assert FirstNul(slot[1..]) == 0;
        assert slot[..1] == [slot[0]];
        assert Utf8([slot[0]]) <==> slot[0] < 0x80;
      } else {
        assert k >= 2;
        assert forall i | 2 <= i < 32 :: slot[i] != 0;
        assert k == 32;
        if Utf8(slot) { Utf8HasNoFF(slot, 2); }
        assert slot[..32] == slot;
      }
    }
  }

  /** The network fields of an image and its client id, when `from_bytes` accepts them. */
  predicate Readable(h: bytes)
    requires |h| >= 47
  {
    && h[0..4] == MAGIC && 1 <= h[8] <= 32 && BigEndian(h[20], h[21]) != 0
    && Utf8(h[23..47][..FirstNul(h[23..47])])
  }

  /** Any 49-byte image of the previous layout in an otherwise erased chip, whatever its unused bytes are:
      it loads iff its network part is readable, with every network field kept and all four credentials
      empty, except that its last two bytes, `x 00` with `x` ASCII, turn up as a one-letter MQTT user. */
  lemma LegacyUpgrade(h: bytes)
    requires |h| == 49
    ensures FromBytes(h + seq(126, _ => ERASED)) ==
            if Readable(h) then
              Some(NetworkConfig(h[4..8], h[8], h[12..16], h[16..20], BigEndian(h[20], h[21]),
                                 h[23..47][..FirstNul(h[23..47])],
                                 if h[48] == 0 && 1 <= h[47] < 0x80 then [h[47]] else [], [], [], []))
            else None
  {
    var b := h + seq(126, _ => ERASED);
    LegacyNetwork(h, b);
    assert b[47..79][0] == h[47] && b[47..79][1] == h[48];
    LegacySlot(b[47..79]);
    ErasedSlotIsEmpty(b[79..111]);
    ErasedSlotIsEmpty(b[111..143]);
    ErasedSlotIsEmpty(b[143..175]);
  }

  lemma LegacyNetwork(h: bytes, b: bytes)
    requires |h| == 49 && |b| == LEN && h <= b
    ensures b[0..4] == h[0..4] && b[4..8] == h[4..8] && b[8] == h[8] && b[12..16] == h[12..16]
    ensures b[16..20] == h[16..20] && b[20] == h[20] && b[21] == h[21] && b[23..47] == h[23..47]
  {
    assert b[..49] == h;
  }
}
