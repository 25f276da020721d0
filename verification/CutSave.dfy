/** What the next boot reads after a configuration save stopped at some byte (logic/src/config.rs,
    src/eeprom.rs): the first part of the image is new, the rest is what was there. */
module CutSave {
  import opened Bytes
  import opened Decimal
  import opened Config

  /** The first k cells of a slot new, the others old; a cut before the slot leaves it old, one behind it new. */
  function Splice(a: bytes, b: bytes, k: int): (r: bytes)
    requires |a| == |b|
    ensures |r| == |a| && forall i | 0 <= i < |r| :: r[i] == if i < k then a[i] else b[i]
  {
    if k <= 0 then b else if k >= |a| then a else a[..k] + b[k..]
  }

  lemma SpliceSlot(a: bytes, b: bytes, k: int, lo: nat, hi: nat)
    requires |a| == |b| && lo <= hi <= |a|
    ensures Splice(a, b, k)[lo..hi] == Splice(a[lo..hi], b[lo..hi], k - lo)
  {
  }

  // ---------------------------------------------------------------- over any chip

  /** The text in a slot whose rewriting with `a` was cut after k bytes. A new text cut exactly at its end has
      whatever was behind it in the slot appended. */
  function MixText(a: bytes, slot: bytes, k: int): bytes {
    if k <= 0 then TextOf(slot)
    else if k > |a| || k > |slot| then a
    else a[..k] + TextOf(slot[k..])
  }

  /** High byte from the new port as soon as it is written, low byte likewise. */
  function MixPort(a: NetworkConfig, was: bytes, k: int): nat
    requires |was| == LEN
  {
    BigEndian(if k > 20 then a.brokerPort / 256 % 256 else was[20], if k > 21 then a.brokerPort % 256 else was[21])
  }

  function MixPrefix(a: NetworkConfig, was: bytes, k: int): byte
    requires |was| == LEN
  {
    if k > 8 then a.prefixLen else was[8]
  }

  /** Whether the mixture is accepted: complete magic, prefix and port in range, a client id that is text. */
  predicate Loadable(a: NetworkConfig, was: bytes, k: int)
    requires |was| == LEN
  {
    && Splice(MAGIC, was[0..4], k) == MAGIC && 1 <= MixPrefix(a, was, k) <= 32 && MixPort(a, was, k) != 0
    && Utf8(MixText(a.clientId, was[23..47], k - 23))
  }

  /** What a boot reads when writing `a` over the cells `was` was cut after k bytes, field by field. */
  function Mix(a: NetworkConfig, was: bytes, k: int): Option<NetworkConfig>
    requires |was| == LEN
  {
    if !Loadable(a, was, k) then None
    else
      Some(NetworkConfig(Splice(a.ip, was[4..8], k - 4), MixPrefix(a, was, k), Splice(a.gateway, was[12..16], k - 12),
                         Splice(a.brokerIp, was[16..20], k - 16), MixPort(a, was, k),
                         MixText(a.clientId, was[23..47], k - 23),
                         OrEmpty(MixText(a.mqttUser, was[47..79], k - 47)),
                         OrEmpty(MixText(a.mqttPass, was[79..111], k - 79)),
                         OrEmpty(MixText(a.webUser, was[111..143], k - 111)),
                         OrEmpty(MixText(a.webPass, was[143..175], k - 143))))
  }

  lemma MixSlot(a: bytes, slot: bytes, k: int)
    requires NulFree(a) && |a| <= |slot|
    ensures var z := Splice(Pad(a, |slot|), slot, k);
            TextOf(z) == MixText(a, slot, k) && ReadStr(z) == OrEmpty(MixText(a, slot, k))
  {
    var z := Splice(Pad(a, |slot|), slot, k);
    if k <= 0 {
      assert z == slot;
    } else if k > |a| {
      assert z[..|a|] == a;
      TextEndsAt(a, z);
    } else {
      assert z == a[..k] + slot[k..];
      TextAfter(a[..k], slot[k..]);
    }
  }

  lemma TextAfter(front: bytes, rest: bytes)
    requires NulFree(front)
    ensures TextOf(front + rest) == front + TextOf(rest) && ReadStr(front + rest) == OrEmpty(front + TextOf(rest))
  {
    assert TextOf(rest) <= rest;
    TextEndsAt(front + TextOf(rest), front + rest);
  }

  lemma ImageSlots(c: NetworkConfig)
    ensures var b := Image(c);
            && b[0..4] == MAGIC && b[4..8] == c.ip && b[8] == c.prefixLen && b[12..16] == c.gateway
            && b[16..20] == c.brokerIp && b[20] == c.brokerPort / 256 % 256 && b[21] == c.brokerPort % 256
            && b[23..47] == Pad(c.clientId, ID_MAX) && b[47..79] == Pad(c.mqttUser, CRED_MAX)
            && b[79..111] == Pad(c.mqttPass, CRED_MAX) && b[111..143] == Pad(c.webUser, CRED_MAX)
            && b[143..175] == Pad(c.webPass, CRED_MAX)
  {
    ImageTail(Head(c) + Pad(c.clientId, ID_MAX), Creds(c));
  }

  lemma ImageTail(front: bytes, creds: bytes)
    requires |front| == 47 && |creds| == 128
    ensures var b := front + creds;
            && b[47..79] == creds[..32] && b[79..111] == creds[32..64]
            && b[111..143] == creds[64..96] && b[143..175] == creds[96..]
  {
  }

  /** A save cut after any number of bytes, over any cells: never saved, saved by an older layout, left by an
      earlier cut, or complete. */
  lemma MixedImage(a: NetworkConfig, was: bytes, k: int)
    requires Valid(a) && |was| == LEN
    ensures FromBytes(Splice(Image(a), was, k)) == Mix(a, was, k)
  {
    ImageSlots(a);
    var z := Splice(Image(a), was, k);
    MixNetwork(a, was, k, Image(a), z);
    MixCreds(a, was, k, Image(a), z);
    FromMix(a, was, k, z);
  }

  lemma FromMix(a: NetworkConfig, was: bytes, k: int, z: bytes)
    requires |z| == |was| == LEN && z[0..4] == Splice(MAGIC, was[0..4], k) && z[4..8] == Splice(a.ip, was[4..8], k - 4)
    requires z[8] == MixPrefix(a, was, k) && BigEndian(z[20], z[21]) == MixPort(a, was, k)
    requires z[12..16] == Splice(a.gateway, was[12..16], k - 12) && z[16..20] == Splice(a.brokerIp, was[16..20], k - 16)
    requires TextOf(z[23..47]) == MixText(a.clientId, was[23..47], k - 23)
    requires ReadStr(z[47..79]) == OrEmpty(MixText(a.mqttUser, was[47..79], k - 47))
    requires ReadStr(z[79..111]) == OrEmpty(MixText(a.mqttPass, was[79..111], k - 79))
    requires ReadStr(z[111..143]) == OrEmpty(MixText(a.webUser, was[111..143], k - 111))
    requires ReadStr(z[143..175]) == OrEmpty(MixText(a.webPass, was[143..175], k - 143))
    ensures FromBytes(z) == Mix(a, was, k)
  {
  }

  lemma MixNetwork(a: NetworkConfig, was: bytes, k: int, x: bytes, z: bytes)
    requires |x| == |was| == LEN && z == Splice(x, was, k) && Valid(a)
    requires x[0..4] == MAGIC && x[4..8] == a.ip && x[8] == a.prefixLen && x[12..16] == a.gateway
    requires x[16..20] == a.brokerIp && x[20] == a.brokerPort / 256 % 256 && x[21] == a.brokerPort % 256
    requires x[23..47] == Pad(a.clientId, ID_MAX)
    ensures z[0..4] == Splice(MAGIC, was[0..4], k) && z[4..8] == Splice(a.ip, was[4..8], k - 4)
    ensures z[8] == MixPrefix(a, was, k) && BigEndian(z[20], z[21]) == MixPort(a, was, k)
    ensures z[12..16] == Splice(a.gateway, was[12..16], k - 12) && z[16..20] == Splice(a.brokerIp, was[16..20], k - 16)
    ensures TextOf(z[23..47]) == MixText(a.clientId, was[23..47], k - 23)
  {
    SpliceSlot(x, was, k, 0, 4);
    SpliceSlot(x, was, k, 4, 8);
    SpliceSlot(x, was, k, 12, 16);
    SpliceSlot(x, was, k, 16, 20);
    SpliceSlot(x, was, k, 23, 47);
    MixSlot(a.clientId, was[23..47], k - 23);
  }

  lemma MixCreds(a: NetworkConfig, was: bytes, k: int, x: bytes, z: bytes)
    requires |x| == |was| == LEN && z == Splice(x, was, k) && Valid(a)
    requires x[47..79] == Pad(a.mqttUser, CRED_MAX) && x[79..111] == Pad(a.mqttPass, CRED_MAX)
    requires x[111..143] == Pad(a.webUser, CRED_MAX) && x[143..175] == Pad(a.webPass, CRED_MAX)
    ensures ReadStr(z[47..79]) == OrEmpty(MixText(a.mqttUser, was[47..79], k - 47))
    ensures ReadStr(z[79..111]) == OrEmpty(MixText(a.mqttPass, was[79..111], k - 79))
    ensures ReadStr(z[111..143]) == OrEmpty(MixText(a.webUser, was[111..143], k - 111))
    ensures ReadStr(z[143..175]) == OrEmpty(MixText(a.webPass, was[143..175], k - 143))
  {
    MixCred(a.mqttUser, was, k, x, z, 47);
    MixCred(a.mqttPass, was, k, x, z, 79);
    MixCred(a.webUser, was, k, x, z, 111);
    MixCred(a.webPass, was, k, x, z, 143);
  }

  lemma MixCred(t: bytes, was: bytes, k: int, x: bytes, z: bytes, lo: nat)
    requires |x| == |was| == LEN && z == Splice(x, was, k) && lo + CRED_MAX <= LEN
    requires NulFree(t) && |t| <= CRED_MAX && x[lo..lo + 32] == Pad(t, CRED_MAX)
    ensures ReadStr(z[lo..lo + 32]) == OrEmpty(MixText(t, was[lo..lo + 32], k - lo))
  {
    SpliceSlot(x, was, k, lo, lo + 32);
    MixSlot(t, was[lo..lo + 32], k - lo);
  }

  // Which mixtures read as a given configuration?

  /** The cells of magic, addresses, prefix and port; the others of the first 23 are never read. */
  predicate FixedCells(i: int) { 0 <= i < 9 || 12 <= i < 22 }

  /** In the fixed part, the new cells before the cut and the old ones behind it are those of `b`. */
  ghost predicate FixedKept(a: NetworkConfig, was: bytes, b: NetworkConfig, k: int)
    requires |was| == LEN
  {
    forall i | FixedCells(i) :: (if i < k then Image(a)[i] else was[i]) == Image(b)[i]
  }

  /** In a slot, what is written of the new text begins the text `b`, and what is not written ends it. */
  predicate TextKept(a: bytes, slot: bytes, b: bytes, k: int) {
    if k <= 0 then TextOf(slot) == b
    else if k > |a| || k > |slot| then a == b
    else a[..k] <= b && TextOf(slot[k..]) == b[k..]
  }

  /** Or, for an empty credential, the mixed text is broken and so reads as empty. */
  predicate CredKept(a: bytes, slot: bytes, b: bytes, k: int) {
    TextKept(a, slot, b, k) || (b == [] && !Utf8(MixText(a, slot, k)))
  }

  ghost predicate KeepsRunning(a: NetworkConfig, was: bytes, b: NetworkConfig, k: int)
    requires |was| == LEN
  {
    && FixedKept(a, was, b, k) && TextKept(a.clientId, was[23..47], b.clientId, k - 23)
    && CredKept(a.mqttUser, was[47..79], b.mqttUser, k - 47) && CredKept(a.mqttPass, was[79..111], b.mqttPass, k - 79)
    && CredKept(a.webUser, was[111..143], b.webUser, k - 111) && CredKept(a.webPass, was[143..175], b.webPass, k - 143)
  }

  lemma TextIsKept(a: bytes, slot: bytes, b: bytes, k: int)
    requires Utf8(b)
    ensures MixText(a, slot, k) == b <==> TextKept(a, slot, b, k)
    ensures OrEmpty(MixText(a, slot, k)) == b <==> CredKept(a, slot, b, k)
  {
    if 0 < k <= |a| && k <= |slot| {
      Begins(a[..k], TextOf(slot[k..]), b);
    }
  }

  lemma Begins(x: bytes, t: bytes, b: bytes)
    ensures x + t == b <==> x <= b && t == b[|x|..]
  {
    assert (x + t)[..|x|] == x && (x + t)[|x|..] == t;
    assert x <= b ==> b == x + b[|x|..];
  }

  /** Reading the fixed part of `z` gives that of `b` iff the cells are the same. */
  lemma FixedReads(z: bytes, w: bytes, b: NetworkConfig)
    requires |z| == |w| == LEN && Valid(b)
    requires w[0..4] == MAGIC && w[4..8] == b.ip && w[8] == b.prefixLen && w[12..16] == b.gateway
    requires w[16..20] == b.brokerIp && w[20] == b.brokerPort / 256 % 256 && w[21] == b.brokerPort % 256
    ensures (forall i | FixedCells(i) :: z[i] == w[i]) <==>
              && z[0..4] == MAGIC && z[4..8] == b.ip && z[8] == b.prefixLen && z[12..16] == b.gateway
              && z[16..20] == b.brokerIp && BigEndian(z[20], z[21]) == b.brokerPort
  {
    PortReads(z[20], z[21], b.brokerPort);
    SameRange(z, w, 0, 4);
    SameRange(z, w, 4, 8);
    SameRange(z, w, 12, 16);
    SameRange(z, w, 16, 20);
    assert FixedCells(8) && FixedCells(20) && FixedCells(21);
  }

  lemma SameRange(z: bytes, w: bytes, lo: nat, hi: nat)
    requires lo <= hi <= |z| && hi <= |w|
    ensures z[lo..hi] == w[lo..hi] <==> forall i | lo <= i < hi :: z[i] == w[i]
  {
    if z[lo..hi] == w[lo..hi] {
      forall i | lo <= i < hi ensures z[i] == w[i] { assert z[i] == z[lo..hi][i - lo]; }
    }
  }

  lemma PortReads(hi: byte, lo: byte, p: nat)
    requires p <= U16_MAX
    ensures BigEndian(hi, lo) == p <==> hi == p / 256 % 256 && lo == p % 256
  {
  }

  lemma ReadsAs(z: bytes, b: NetworkConfig)
    requires |z| == LEN && Valid(b)
    ensures FromBytes(z) == Some(b) <==>
              && (forall i | FixedCells(i) :: z[i] == Image(b)[i]) && TextOf(z[23..47]) == b.clientId
              && ReadStr(z[47..79]) == b.mqttUser && ReadStr(z[79..111]) == b.mqttPass
              && ReadStr(z[111..143]) == b.webUser && ReadStr(z[143..175]) == b.webPass
  {
    ImageSlots(b);
    FixedReads(z, Image(b), b);
  }

  /** Over any chip, a cut save reads back as the running configuration `b` (whether that came from the chip or
      not) iff, cell by cell and text by text, what was written agrees with it and what was not holds it. */
  lemma MixIsRunning(a: NetworkConfig, was: bytes, b: NetworkConfig, k: int)
    requires Valid(a) && Valid(b) && |was| == LEN
    ensures Mix(a, was, k) == Some(b) <==> KeepsRunning(a, was, b, k)
  {
    MixedImage(a, was, k);
    ImageSlots(a);
    var z := Splice(Image(a), was, k);
    ReadsAs(z, b);
    MixNetwork(a, was, k, Image(a), z);
    MixCreds(a, was, k, Image(a), z);
    KeptTexts(a, was, b, k);
    assert (forall i | FixedCells(i) :: z[i] == Image(b)[i]) <==> FixedKept(a, was, b, k);
  }

  lemma KeptTexts(a: NetworkConfig, was: bytes, b: NetworkConfig, k: int)
    requires Valid(b) && |was| == LEN
    ensures MixText(a.clientId, was[23..47], k - 23) == b.clientId
            <==> TextKept(a.clientId, was[23..47], b.clientId, k - 23)
    ensures OrEmpty(MixText(a.mqttUser, was[47..79], k - 47)) == b.mqttUser
            <==> CredKept(a.mqttUser, was[47..79], b.mqttUser, k - 47)
    ensures OrEmpty(MixText(a.mqttPass, was[79..111], k - 79)) == b.mqttPass
            <==> CredKept(a.mqttPass, was[79..111], b.mqttPass, k - 79)
    ensures OrEmpty(MixText(a.webUser, was[111..143], k - 111)) == b.webUser
            <==> CredKept(a.webUser, was[111..143], b.webUser, k - 111)
    ensures OrEmpty(MixText(a.webPass, was[143..175], k - 143)) == b.webPass
            <==> CredKept(a.webPass, was[143..175], b.webPass, k - 143)
  {
    TextIsKept(a.clientId, was[23..47], b.clientId, k - 23);
    TextIsKept(a.mqttUser, was[47..79], b.mqttUser, k - 47);
    TextIsKept(a.mqttPass, was[79..111], b.mqttPass, k - 79);
    TextIsKept(a.webUser, was[111..143], b.webUser, k - 111);
    TextIsKept(a.webPass, was[143..175], b.webPass, k - 143);
  }

  // ---------------------------------------------------------------- over a chip that was never written

  function Erased(n: nat): bytes { seq(n, _ => ERASED) }

  /** A text of which at least its end mark, or a full slot, was written; otherwise nothing. */
  function IfWhole(t: bytes, n: nat, k: int): bytes { if k > |t| || k >= n then t else [] }

  lemma ErasedText(a: bytes, n: nat, k: int)
    requires Utf8(a) && NulFree(a) && |a| <= n && n > 0
    ensures Utf8(MixText(a, Erased(n), k)) <==> k > |a| || k >= n
    ensures k > |a| || k >= n ==> MixText(a, Erased(n), k) == a
    ensures OrEmpty(MixText(a, Erased(n), k)) == IfWhole(a, n, k)
  {
    var slot := Erased(n);
    if k <= 0 {
      ErasedHasNoEnd(slot);
      if Utf8(slot) { Utf8HasNoFF(slot, 0); }
    } else if k <= |a| {
      var rest := slot[k..];
      ErasedHasNoEnd(rest);
      var t := a[..k] + rest;
      if k < n {
        assert t[k] == ERASED;
        if Utf8(t) { Utf8HasNoFF(t, k); }
      } else {
        assert t == a;
      }
    }
  }

  lemma ErasedHasNoEnd(slot: bytes)
    requires forall i | 0 <= i < |slot| :: slot[i] == ERASED
    ensures TextOf(slot) == slot
  {
    var k := FirstNul(slot);
    assert slot[..|slot|] == slot;
    assert k == |slot|;
  }

  /** A first save cut after k bytes loads iff the client id has been written to its end, and then with the whole
      new network part and exactly the credentials that were written to their ends, the others empty. */
  lemma ErasedChip(a: NetworkConfig, k: int)
    requires Valid(a)
    ensures Mix(a, Erased(LEN), k) ==
            if k > 23 && (k - 23 > |a.clientId| || k >= 47) then
              Some(a.(mqttUser := IfWhole(a.mqttUser, 32, k - 47), mqttPass := IfWhole(a.mqttPass, 32, k - 79),
                      webUser := IfWhole(a.webUser, 32, k - 111), webPass := IfWhole(a.webPass, 32, k - 143)))
            else None
  {
    ErasedSlots();
    HeadWritten(a, Erased(LEN), k);
    ErasedText(a.clientId, ID_MAX, k - 23);
    ErasedText(a.mqttUser, CRED_MAX, k - 47);
    ErasedText(a.mqttPass, CRED_MAX, k - 79);
    ErasedText(a.webUser, CRED_MAX, k - 111);
    ErasedText(a.webPass, CRED_MAX, k - 143);
    MixOfTexts(a, Erased(LEN), k);
  }

  /** Behind the fixed part nothing of the old one is left. */
  lemma HeadWritten(a: NetworkConfig, was: bytes, k: int)
    requires Valid(a) && |was| == LEN
    ensures k >= 23 ==>
              && Splice(MAGIC, was[0..4], k) == MAGIC && Splice(a.ip, was[4..8], k - 4) == a.ip
              && Splice(a.gateway, was[12..16], k - 12) == a.gateway
              && Splice(a.brokerIp, was[16..20], k - 16) == a.brokerIp
              && MixPrefix(a, was, k) == a.prefixLen && MixPort(a, was, k) == a.brokerPort
  {
    PortReads(a.brokerPort / 256 % 256, a.brokerPort % 256, a.brokerPort);
  }

  lemma MixOfTexts(a: NetworkConfig, was: bytes, k: int)
    requires Valid(a) && |was| == LEN
    requires k >= 23 ==>
               && Splice(MAGIC, was[0..4], k) == MAGIC && Splice(a.ip, was[4..8], k - 4) == a.ip
               && Splice(a.gateway, was[12..16], k - 12) == a.gateway
               && Splice(a.brokerIp, was[16..20], k - 16) == a.brokerIp
               && MixPrefix(a, was, k) == a.prefixLen && MixPort(a, was, k) == a.brokerPort
    requires var written := k - 23 > |a.clientId| || k - 23 >= ID_MAX;
             && (Utf8(MixText(a.clientId, was[23..47], k - 23)) <==> written)
             && (written ==> MixText(a.clientId, was[23..47], k - 23) == a.clientId)
    ensures Mix(a, was, k) ==
            if k > 23 && (k - 23 > |a.clientId| || k >= 47) then
              Some(a.(mqttUser := OrEmpty(MixText(a.mqttUser, was[47..79], k - 47)),
                      mqttPass := OrEmpty(MixText(a.mqttPass, was[79..111], k - 79)),
                      webUser := OrEmpty(MixText(a.webUser, was[111..143], k - 111)),
                      webPass := OrEmpty(MixText(a.webPass, was[143..175], k - 143))))
            else None
  {
  }

  lemma ErasedSlots()
    ensures var was := Erased(LEN);
            && was[23..47] == Erased(ID_MAX) && was[47..79] == Erased(CRED_MAX) && was[79..111] == Erased(CRED_MAX)
            && was[111..143] == Erased(CRED_MAX) && was[143..175] == Erased(CRED_MAX)
  {
  }

  // ---------------------------------------------------------------- over a complete image

  /** The same over an image that a complete save left. */
  function CutText(a: bytes, b: bytes, k: int): bytes {
    if k <= 0 then b
    else if k > |a| then a
    else if k > |b| then a[..k]
    else a[..k] + b[k..]
  }

  function CutPort(a: NetworkConfig, b: NetworkConfig, k: int): nat {
    (if k > 20 then a.brokerPort else b.brokerPort) / 256 * 256 + (if k > 21 then a.brokerPort else b.brokerPort) % 256
  }

  /** The two configurations spliced field by field. Nothing (so defaults) if the mixed port is 0 or the mixed
      client id is not UTF-8. */
  function AfterCut(a: NetworkConfig, b: NetworkConfig, k: int): Option<NetworkConfig> {
    var port := CutPort(a, b, k);
    var id := CutText(a.clientId, b.clientId, k - 23);
    if port == 0 || !Utf8(id) then None
    else
      Some(NetworkConfig(Splice(a.ip, b.ip, k - 4), if k > 8 then a.prefixLen else b.prefixLen,
                         Splice(a.gateway, b.gateway, k - 12), Splice(a.brokerIp, b.brokerIp, k - 16), port, id,
                         OrEmpty(CutText(a.mqttUser, b.mqttUser, k - 47)),
                         OrEmpty(CutText(a.mqttPass, b.mqttPass, k - 79)),
                         OrEmpty(CutText(a.webUser, b.webUser, k - 111)),
                         OrEmpty(CutText(a.webPass, b.webPass, k - 143))))
  }

  lemma CutSlot(a: bytes, b: bytes, n: nat, k: int)
    requires NulFree(b) && |a| <= n && |b| <= n
    ensures MixText(a, Pad(b, n), k) == CutText(a, b, k)
  {
    var slot := Pad(b, n);
    if k <= 0 {
      FirstNulPad(b, n);
    } else if k <= |a| {
      var t: bytes := if k <= |b| then b[k..] else [];
      assert t <= slot[k..];
      TextEndsAt(t, slot[k..]);
    }
  }

  lemma CutImage(a: NetworkConfig, b: NetworkConfig, k: int)
    requires Valid(a) && Valid(b)
    ensures Mix(a, Image(b), k) == AfterCut(a, b, k)
  {
    ImageSlots(b);
    CutSlot(a.clientId, b.clientId, ID_MAX, k - 23);
    CutSlot(a.mqttUser, b.mqttUser, CRED_MAX, k - 47);
    CutSlot(a.mqttPass, b.mqttPass, CRED_MAX, k - 79);
    CutSlot(a.webUser, b.webUser, CRED_MAX, k - 111);
    CutSlot(a.webPass, b.webPass, CRED_MAX, k - 143);
    CutPortBytes(a, b, k);
    assert Splice(MAGIC, MAGIC, k) == MAGIC;
    FromMixIsCut(a, b, k, Image(b));
  }

  lemma FromMixIsCut(a: NetworkConfig, b: NetworkConfig, k: int, was: bytes)
    requires Valid(a) && Valid(b) && |was| == LEN
    requires was[0..4] == MAGIC && was[4..8] == b.ip && was[8] == b.prefixLen && was[12..16] == b.gateway
    requires was[16..20] == b.brokerIp && Splice(MAGIC, MAGIC, k) == MAGIC && MixPort(a, was, k) == CutPort(a, b, k)
    requires MixText(a.clientId, was[23..47], k - 23) == CutText(a.clientId, b.clientId, k - 23)
    requires MixText(a.mqttUser, was[47..79], k - 47) == CutText(a.mqttUser, b.mqttUser, k - 47)
    requires MixText(a.mqttPass, was[79..111], k - 79) == CutText(a.mqttPass, b.mqttPass, k - 79)
    requires MixText(a.webUser, was[111..143], k - 111) == CutText(a.webUser, b.webUser, k - 111)
    requires MixText(a.webPass, was[143..175], k - 143) == CutText(a.webPass, b.webPass, k - 143)
    ensures Mix(a, was, k) == AfterCut(a, b, k)
  {
  }

  lemma CutPortBytes(a: NetworkConfig, b: NetworkConfig, k: int)
    requires Valid(a) && Valid(b)
    ensures MixPort(a, Image(b), k) == CutPort(a, b, k)
  {
    ImageSlots(b);
    PortBytes(a.brokerPort);
    PortBytes(b.brokerPort);
  }

  lemma PortBytes(p: nat)
    requires p <= U16_MAX
    ensures p / 256 % 256 == p / 256
  {
  }

  // When is a cut save harmless?

  /** The first k cells are the same in both. */
  predicate SameUpTo(a: bytes, b: bytes, k: int)
    requires |a| == |b|
  {
    forall i | 0 <= i < |a| && i < k :: a[i] == b[i]
  }

  lemma SameConcat(a: bytes, a': bytes, b: bytes, b': bytes, k: int)
    requires |a| == |b| && |a'| == |b'|
    ensures SameUpTo(a + a', b + b', k) <==> SameUpTo(a, b, k) && SameUpTo(a', b', k - |a|)
  {
    if SameUpTo(a + a', b + b', k) {
      forall i | 0 <= i < |a| && i < k ensures a[i] == b[i] { assert (a + a')[i] == (b + b')[i]; }
      forall i | 0 <= i < |a'| && i < k - |a| ensures a'[i] == b'[i] {
        assert (a + a')[|a| + i] == (b + b')[|a| + i];
      }
    }
  }

  lemma SpliceIsOld(a: bytes, b: bytes, k: int)
    requires |a| == |b|
    ensures Splice(a, b, k) == b <==> SameUpTo(a, b, k)
  {
    if SameUpTo(a, b, k) { assert Splice(a, b, k) == b; }
  }

  /** A credential that was empty, cut inside a character: the broken text reads as empty again. */
  predicate Hidden(a: bytes, b: bytes, k: int) { b == [] && 0 < k <= |a| && !Utf8(a[..k]) }

  /** The old text starts with everything written so far. */
  predicate Continues(a: bytes, b: bytes, k: int) { k <= 0 || a == b || (k <= |a| && k <= |b| && a[..k] == b[..k]) }

  lemma CutTextIsOld(a: bytes, b: bytes, k: int)
    requires Utf8(a) && Utf8(b)
    ensures CutText(a, b, k) == b <==> Continues(a, b, k)
    ensures OrEmpty(CutText(a, b, k)) == b <==> Continues(a, b, k) || Hidden(a, b, k)
  {
    if 0 < k <= |a| && k <= |b| {
      assert (a[..k] + b[k..])[..k] == a[..k];
      assert b[..k] + b[k..] == b;
    }
  }

  lemma SameCells(a: bytes, b: bytes, n: nat, k: int)
    requires NulFree(a) && |a| <= n && NulFree(b) && |b| <= n
    ensures SameUpTo(Pad(a, n), Pad(b, n), k) <==> Continues(a, b, k)
  {
    if Continues(a, b, k) {
      ContinuesInCells(a, b, n, k);
    }
    if SameUpTo(Pad(a, n), Pad(b, n), k) {
      CellsContinue(a, b, n, k);
    }
  }

  lemma ContinuesInCells(a: bytes, b: bytes, n: nat, k: int)
    requires |a| <= n && |b| <= n && Continues(a, b, k)
    ensures SameUpTo(Pad(a, n), Pad(b, n), k)
  {
    if 0 < k <= |a| && k <= |b| && a[..k] == b[..k] {
      forall i | 0 <= i < n && i < k ensures Pad(a, n)[i] == Pad(b, n)[i] { assert a[..k][i] == b[..k][i]; }
    }
  }

  lemma CellsContinue(a: bytes, b: bytes, n: nat, k: int)
    requires NulFree(a) && |a| <= n && NulFree(b) && |b| <= n
    requires SameUpTo(Pad(a, n), Pad(b, n), k)
    ensures Continues(a, b, k)
  {
    var x, y := Pad(a, n), Pad(b, n);
    var j := if k <= |a| then k else |a|;
    if k > 0 {
      assert |b| < n && |b| < k ==> x[|b|] == y[|b|];
      assert j <= |b|;
      assert forall i | 0 <= i < j :: a[i] == x[i] && x[i] == y[i] && y[i] == b[i];
      assert |a| < n && |a| < k ==> x[|a|] == y[|a|];
      assert k > |a| ==> a == b;
    }
  }

  /** The credential slots, with their offsets. */
  function Slots(c: NetworkConfig): seq<bytes> { [c.mqttUser, c.mqttPass, c.webUser, c.webPass] }

  /** Everything written before the cut is as it was, except inside one credential slot that was empty. */
  predicate HiddenCut(a: NetworkConfig, b: NetworkConfig, k: int) {
    exists i | 0 <= i < 4 ::
      var lo := 47 + 32 * i;
      SameUpTo(Image(a), Image(b), lo) && lo < k <= lo + 32 && Hidden(Slots(a)[i], Slots(b)[i], k - lo)
  }

  /** Identical images up to the cut, slot by slot. */
  lemma SameImages(a: NetworkConfig, b: NetworkConfig, k: int)
    requires Valid(a) && Valid(b)
    ensures SameUpTo(Image(a), Image(b), k) <==>
              && SameUpTo(Head(a), Head(b), k) && Continues(a.clientId, b.clientId, k - 23)
              && Continues(a.mqttUser, b.mqttUser, k - 47) && Continues(a.mqttPass, b.mqttPass, k - 79)
              && Continues(a.webUser, b.webUser, k - 111) && Continues(a.webPass, b.webPass, k - 143)
  {
    SameCells(a.clientId, b.clientId, ID_MAX, k - 23);
    SameConcat(Head(a), Pad(a.clientId, ID_MAX), Head(b), Pad(b.clientId, ID_MAX), k);
    SameConcat(Head(a) + Pad(a.clientId, ID_MAX), Creds(a), Head(b) + Pad(b.clientId, ID_MAX), Creds(b), k);
    SameCreds(a, b, k - 47);
  }

  lemma SameCreds(a: NetworkConfig, b: NetworkConfig, k: int)
    requires Valid(a) && Valid(b)
    ensures SameUpTo(Creds(a), Creds(b), k) <==>
              && Continues(a.mqttUser, b.mqttUser, k) && Continues(a.mqttPass, b.mqttPass, k - 32)
              && Continues(a.webUser, b.webUser, k - 64) && Continues(a.webPass, b.webPass, k - 96)
  {
    var n := CRED_MAX;
    SameCells(a.mqttUser, b.mqttUser, n, k);
    SameCells(a.mqttPass, b.mqttPass, n, k - 32);
    SameCells(a.webUser, b.webUser, n, k - 64);
    SameCells(a.webPass, b.webPass, n, k - 96);
    SameFour(Pad(a.mqttUser, n), Pad(a.mqttPass, n), Pad(a.webUser, n), Pad(a.webPass, n),
             Pad(b.mqttUser, n), Pad(b.mqttPass, n), Pad(b.webUser, n), Pad(b.webPass, n), k);
  }

  lemma SameFour(a0: bytes, a1: bytes, a2: bytes, a3: bytes, b0: bytes, b1: bytes, b2: bytes, b3: bytes, k: int)
    requires |a0| == |b0| == |a1| == |b1| == |a2| == |b2| == 32 && |a3| == |b3|
    ensures SameUpTo(a0 + a1 + a2 + a3, b0 + b1 + b2 + b3, k) <==>
            SameUpTo(a0, b0, k) && SameUpTo(a1, b1, k - 32) && SameUpTo(a2, b2, k - 64) && SameUpTo(a3, b3, k - 96)
  {
    SameConcat(a0, a1, b0, b1, k);
    SameConcat(a0 + a1, a2, b0 + b1, b2, k);
    SameConcat(a0 + a1 + a2, a3, b0 + b1 + b2, b3, k);
  }

  /** The fixed part before the client id reads as the old one. */
  predicate KeepsHead(a: NetworkConfig, b: NetworkConfig, k: int) {
    && Splice(a.ip, b.ip, k - 4) == b.ip && (k > 8 ==> a.prefixLen == b.prefixLen)
    && Splice(a.gateway, b.gateway, k - 12) == b.gateway && Splice(a.brokerIp, b.brokerIp, k - 16) == b.brokerIp
    && CutPort(a, b, k) == b.brokerPort
  }

  lemma SameHeads(a: NetworkConfig, b: NetworkConfig, k: int)
    requires Valid(a) && Valid(b)
    ensures SameUpTo(Head(a), Head(b), k) <==> KeepsHead(a, b, k)
  {
    SpliceIsOld(a.ip, b.ip, k - 4);
    SpliceIsOld(a.gateway, b.gateway, k - 12);
    SpliceIsOld(a.brokerIp, b.brokerIp, k - 16);
    SamePorts(a, b, k);
    SameParts(a.ip, [a.prefixLen, 0, 0, 0], a.gateway, a.brokerIp, PortCells(a),
              b.ip, [b.prefixLen, 0, 0, 0], b.gateway, b.brokerIp, PortCells(b), k);
    SamePrefix(a.prefixLen, b.prefixLen, k - 8);
    assert Head(a) == MAGIC + a.ip + [a.prefixLen, 0, 0, 0] + a.gateway + a.brokerIp + PortCells(a);
    assert Head(b) == MAGIC + b.ip + [b.prefixLen, 0, 0, 0] + b.gateway + b.brokerIp + PortCells(b);
  }

  lemma SamePrefix(p: byte, q: byte, k: int)
    ensures SameUpTo([p, 0, 0, 0], [q, 0, 0, 0], k) <==> (k > 0 ==> p == q)
  {
    var x: bytes, y: bytes := [p, 0, 0, 0], [q, 0, 0, 0];
    assert SameUpTo(x, y, k) && k > 0 ==> x[0] == y[0];
  }

  function PortCells(c: NetworkConfig): bytes { [c.brokerPort / 256 % 256, c.brokerPort % 256, 0] }

  lemma SamePorts(a: NetworkConfig, b: NetworkConfig, k: int)
    requires Valid(a) && Valid(b)
    ensures SameUpTo(PortCells(a), PortCells(b), k - 20) <==> CutPort(a, b, k) == b.brokerPort
  {
    PortBytes(a.brokerPort);
    PortBytes(b.brokerPort);
    var x, y := PortCells(a), PortCells(b);
    assert SameUpTo(x, y, k - 20) <==> (k > 20 ==> x[0] == y[0]) && (k > 21 ==> x[1] == y[1]);
  }

  lemma SameParts(a0: bytes, a1: bytes, a2: bytes, a3: bytes, a4: bytes,
                  b0: bytes, b1: bytes, b2: bytes, b3: bytes, b4: bytes, k: int)
    requires |a0| == |b0| == |a1| == |b1| == |a2| == |b2| == |a3| == |b3| == 4 && |a4| == |b4|
    ensures SameUpTo(MAGIC + a0 + a1 + a2 + a3 + a4, MAGIC + b0 + b1 + b2 + b3 + b4, k) <==>
              && SameUpTo(a0, b0, k - 4) && SameUpTo(a1, b1, k - 8) && SameUpTo(a2, b2, k - 12)
              && SameUpTo(a3, b3, k - 16) && SameUpTo(a4, b4, k - 20)
  {
    SameConcat(MAGIC, a0, MAGIC, b0, k);
    SameConcat(MAGIC + a0, a1, MAGIC + b0, b1, k);
    SameConcat(MAGIC + a0 + a1, a2, MAGIC + b0 + b1, b2, k);
    SameConcat(MAGIC + a0 + a1 + a2, a3, MAGIC + b0 + b1 + b2, b3, k);
    SameConcat(MAGIC + a0 + a1 + a2 + a3, a4, MAGIC + b0 + b1 + b2 + b3, b4, k);
  }

  /** Field by field, when the configuration read back is the old one. */
  lemma CutFields(a: NetworkConfig, b: NetworkConfig, k: int)
    requires Valid(a) && Valid(b)
    ensures AfterCut(a, b, k) == Some(b) <==>
              && KeepsHead(a, b, k) && Continues(a.clientId, b.clientId, k - 23)
              && (Continues(a.mqttUser, b.mqttUser, k - 47) || Hidden(a.mqttUser, b.mqttUser, k - 47))
              && (Continues(a.mqttPass, b.mqttPass, k - 79) || Hidden(a.mqttPass, b.mqttPass, k - 79))
              && (Continues(a.webUser, b.webUser, k - 111) || Hidden(a.webUser, b.webUser, k - 111))
              && (Continues(a.webPass, b.webPass, k - 143) || Hidden(a.webPass, b.webPass, k - 143))
  {
    CutTextIsOld(a.clientId, b.clientId, k - 23);
    CutTextIsOld(a.mqttUser, b.mqttUser, k - 47);
    CutTextIsOld(a.mqttPass, b.mqttPass, k - 79);
    CutTextIsOld(a.webUser, b.webUser, k - 111);
    CutTextIsOld(a.webPass, b.webPass, k - 143);
  }

  /** From the end of a slot on, nothing is cut and nothing hidden. */
  lemma WholeSlot(a: bytes, b: bytes, n: nat, k: int)
    requires |a| <= n && |b| <= n && k >= n
    ensures Continues(a, b, k) <==> a == b
    ensures k > n ==> !Hidden(a, b, k)
  {
    if k == |a| && k == |b| { assert a[..k] == a && b[..k] == b; }
  }

  /** Everything before credential slot i is as it was. */
  predicate SameBefore(a: NetworkConfig, b: NetworkConfig, i: nat) {
    KeepsHead(a, b, 47) && a.clientId == b.clientId && forall j | 0 <= j < i && j < 4 :: Slots(a)[j] == Slots(b)[j]
  }

  lemma KeepsWholeHead(a: NetworkConfig, b: NetworkConfig, k: int)
    requires Valid(a) && Valid(b) && k >= 23
    ensures KeepsHead(a, b, k) <==> KeepsHead(a, b, 47)
  {
    SameHeads(a, b, k);
    SameHeads(a, b, 47);
  }

  /** The credentials' share of `CutFields` and `SameImages`, for any offset of the cut in slot i. */
  predicate KeepsSlot(a: NetworkConfig, b: NetworkConfig, k: int, j: nat)
    requires j < 4
  {
    Continues(Slots(a)[j], Slots(b)[j], k - (47 + 32 * j))
  }

  lemma SlotsAround(a: NetworkConfig, b: NetworkConfig, k: int, i: nat, j: nat)
    requires Valid(a) && Valid(b) && i < 4 && j < 4 && 47 + 32 * i <= k <= 47 + 32 * i + 32
    ensures j < i ==> (KeepsSlot(a, b, k, j) <==> Slots(a)[j] == Slots(b)[j])
    ensures j > i ==> KeepsSlot(a, b, k, j)
    ensures j < i && k > 47 + 32 * i ==> !Hidden(Slots(a)[j], Slots(b)[j], k - (47 + 32 * j))
    ensures k == 47 + 32 * i ==> KeepsSlot(a, b, k, i)
  {
    if j < i { WholeSlot(Slots(a)[j], Slots(b)[j], CRED_MAX, k - (47 + 32 * j)); }
  }

  lemma SameBeforeIff(a: NetworkConfig, b: NetworkConfig, i: nat)
    requires Valid(a) && Valid(b) && i < 4
    ensures SameUpTo(Image(a), Image(b), 47 + 32 * i) <==> SameBefore(a, b, i)
  {
    var k := 47 + 32 * i;
    SameImages(a, b, k);
    SameHeads(a, b, k);
    KeepsWholeHead(a, b, k);
    WholeSlot(a.clientId, b.clientId, ID_MAX, k - 23);
    SlotsAround(a, b, k, i, 0);
    SlotsAround(a, b, k, i, 1);
    SlotsAround(a, b, k, i, 2);
    SlotsAround(a, b, k, i, 3);
    SlotsOf(a, b, k);
  }

  lemma SlotsOf(a: NetworkConfig, b: NetworkConfig, k: int)
    ensures KeepsSlot(a, b, k, 0) == Continues(a.mqttUser, b.mqttUser, k - 47)
    ensures KeepsSlot(a, b, k, 1) == Continues(a.mqttPass, b.mqttPass, k - 79)
    ensures KeepsSlot(a, b, k, 2) == Continues(a.webUser, b.webUser, k - 111)
    ensures KeepsSlot(a, b, k, 3) == Continues(a.webPass, b.webPass, k - 143)
    ensures Slots(a)[0] == a.mqttUser && Slots(a)[1] == a.mqttPass && Slots(a)[2] == a.webUser && Slots(a)[3] == a.webPass
    ensures Slots(b)[0] == b.mqttUser && Slots(b)[1] == b.mqttPass && Slots(b)[2] == b.webUser && Slots(b)[3] == b.webPass
  {
  }

  lemma HiddenAt(a: NetworkConfig, b: NetworkConfig, k: int, i: nat)
    requires Valid(a) && Valid(b) && i < 4 && Hidden(Slots(a)[i], Slots(b)[i], k - (47 + 32 * i))
    ensures AfterCut(a, b, k) == Some(b) <==> SameUpTo(Image(a), Image(b), 47 + 32 * i)
  {
    assert |Slots(a)[i]| <= 32;
    SameBeforeIff(a, b, i);
    CutFields(a, b, k);
    KeepsWholeHead(a, b, k);
    WholeSlot(a.clientId, b.clientId, ID_MAX, k - 23);
    SlotsAround(a, b, k, i, 0);
    SlotsAround(a, b, k, i, 1);
    SlotsAround(a, b, k, i, 2);
    SlotsAround(a, b, k, i, 3);
    SlotsOf(a, b, k);
  }

  /** A cut save leaves the old configuration readable iff everything written so far is as it was, or the cut
      broke the text of a credential that was empty. */
  lemma CutKeepsOld(a: NetworkConfig, b: NetworkConfig, k: int)
    requires Valid(a) && Valid(b)
    ensures AfterCut(a, b, k) == Some(b) <==> SameUpTo(Image(a), Image(b), k) || HiddenCut(a, b, k)
  {
    if i :| 0 <= i < 4 && Hidden(Slots(a)[i], Slots(b)[i], k - (47 + 32 * i)) {
      HiddenAt(a, b, k, i);
      OnlyHidden(a, b, k, i);
      assert SameUpTo(Image(a), Image(b), k) ==> SameUpTo(Image(a), Image(b), 47 + 32 * i);
    } else {
      NoneHidden(a, b, k);
      CutFields(a, b, k);
      SameImages(a, b, k);
      SameHeads(a, b, k);
    }
  }

  lemma OnlyHidden(a: NetworkConfig, b: NetworkConfig, k: int, i: nat)
    requires Valid(a) && i < 4 && Hidden(Slots(a)[i], Slots(b)[i], k - (47 + 32 * i))
    ensures HiddenCut(a, b, k) <==> SameUpTo(Image(a), Image(b), 47 + 32 * i)
  {
    assert forall j | 0 <= j < 4 :: |Slots(a)[j]| <= 32;
    assert forall j | 0 <= j < 4 && j != i :: !Hidden(Slots(a)[j], Slots(b)[j], k - (47 + 32 * j));
  }

  lemma NoneHidden(a: NetworkConfig, b: NetworkConfig, k: int)
    requires forall i | 0 <= i < 4 :: !Hidden(Slots(a)[i], Slots(b)[i], k - (47 + 32 * i))
    ensures !Hidden(a.mqttUser, b.mqttUser, k - 47) && !Hidden(a.mqttPass, b.mqttPass, k - 79)
    ensures !Hidden(a.webUser, b.webUser, k - 111) && !Hidden(a.webPass, b.webPass, k - 143)
    ensures !HiddenCut(a, b, k)
  {
    assert Slots(a)[0] == a.mqttUser && Slots(a)[1] == a.mqttPass && Slots(a)[2] == a.webUser && Slots(a)[3] == a.webPass;
    assert Slots(b)[0] == b.mqttUser && Slots(b)[1] == b.mqttPass && Slots(b)[2] == b.webUser && Slots(b)[3] == b.webPass;
  }
}
