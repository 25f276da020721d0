/** `basic_token` (logic/src/auth.rs): base64 of `user:pass` in two 96-byte buffers whose overflow
    errors are ignored, and the login comparison built on it (src/web.rs). */
module Auth {
  import opened Bytes

  const COLON: byte := ':' as int
  const PAD: byte := '=' as int
  const CAP: nat := 96

  /** Longest stored web user or password (`CRED_MAX`), and longest submitted one (`HString<64>`). */
  const STORED_MAX: nat := 32
  const SUBMITTED_MAX: nat := 64

  type sextet = n: int | 0 <= n < 64

  // ---------------------------------------------------------------- base64 (RFC 4648, section 4)

  function B64(i: sextet): byte {
    if i < 26 then 65 + i else if i < 52 then 97 + i - 26 else if i < 62 then 48 + i - 52
    else if i == 62 then '+' as int else '/' as int
  }

  function B64Index(c: byte): (i: Option<nat>)
    ensures i.Some? ==> i.value < 64
  {
    if 65 <= c <= 90 then Some(c - 65) else if 97 <= c <= 122 then Some(c - 97 + 26)
    else if 48 <= c <= 57 then Some(c - 48 + 52)
    else if c == '+' as int then Some(62) else if c == '/' as int then Some(63)
    else None
  }

  /** The four characters for a group of one to three bytes. */
  function Group(c: bytes): (g: bytes)
    requires 1 <= |c| <= 3
    ensures |g| == 4
  {
    var b0 := c[0];
    var b1 := if |c| > 1 then c[1] else 0;
    var b2 := if |c| > 2 then c[2] else 0;
    [B64(b0 / 4), B64((b0 % 4) * 16 + b1 / 16),
     if |c| > 1 then B64((b1 % 16) * 4 + b2 / 64) else PAD,
     if |c| > 2 then B64(b2 % 64) else PAD]
  }

  function First(s: bytes, n: nat): bytes { if |s| <= n then s else s[..n] }

  function Encode(raw: bytes): bytes
  {
    if |raw| == 0 then [] else Group(First(raw, 3)) + Encode(raw[|First(raw, 3)|..])
  }

  /** One quantum back to bytes: `xxxx`, `xxx=` or `xx==`. */
  function Ungroup(g: bytes): Option<bytes>
    requires |g| == 4
  {
    match (B64Index(g[0]), B64Index(g[1]), B64Index(g[2]), B64Index(g[3]))
    case (Some(i0), Some(i1), Some(i2), Some(i3)) =>
      Some([i0 * 4 + i1 / 16, (i1 % 16) * 16 + i2 / 4, (i2 % 4) * 64 + i3])
    case (Some(i0), Some(i1), Some(i2), None) =>
      if g[3] == PAD then Some([i0 * 4 + i1 / 16, (i1 % 16) * 16 + i2 / 4]) else None
    case (Some(i0), Some(i1), None, None) =>
      if g[2] == PAD && g[3] == PAD then Some([i0 * 4 + i1 / 16]) else None
    case _ => None
  }

  /** The RFC 4648 decoder: a padded quantum may only come last. */
  function Decode(s: bytes): Option<bytes>
  {
    if |s| == 0 then Some([])
    else if |s| < 4 then None
    else match Ungroup(s[..4])
      case None => None
      case Some(b) =>
        if |b| < 3 && |s| > 4 then None
        else match Decode(s[4..])
          case None => None
          case Some(rest) => Some(b + rest)
  }

  lemma B64Inverse(i: sextet)
    ensures B64Index(B64(i)) == Some(i) && B64(i) != PAD && B64Index(PAD) == None
  {
  }

  lemma UngroupText(i0: sextet, i1: sextet, i2: sextet, i3: sextet)
    ensures Ungroup([B64(i0), B64(i1), B64(i2), B64(i3)])
            == Some([i0 * 4 + i1 / 16, (i1 % 16) * 16 + i2 / 4, (i2 % 4) * 64 + i3])
    ensures Ungroup([B64(i0), B64(i1), B64(i2), PAD]) == Some([i0 * 4 + i1 / 16, (i1 % 16) * 16 + i2 / 4])
    ensures Ungroup([B64(i0), B64(i1), PAD, PAD]) == Some([i0 * 4 + i1 / 16])
  {
    B64Inverse(i0); B64Inverse(i1); B64Inverse(i2); B64Inverse(i3);
  }

  lemma Bits(b0: byte, b1: byte, b2: byte)
    ensures var i1, i2 := (b0 % 4) * 16 + b1 / 16, (b1 % 16) * 4 + b2 / 64;
            i1 < 64 && i2 < 64
            && b0 / 4 * 4 + i1 / 16 == b0 && (i1 % 16) * 16 + i2 / 4 == b1 && (i2 % 4) * 64 + b2 % 64 == b2
  {
    var i1, i2 := (b0 % 4) * 16 + b1 / 16, (b1 % 16) * 4 + b2 / 64;
    assert i1 / 16 == b0 % 4 && i1 % 16 == b1 / 16;
    assert i2 / 4 == b1 % 16 && i2 % 4 == b2 / 64;
  }

  /** The three quantum shapes, for the bytes they carry. */
  lemma QuantumInverse(b0: byte, b1: byte, b2: byte)
    ensures var i0, i1, i2, i3 := b0 / 4, (b0 % 4) * 16 + b1 / 16, (b1 % 16) * 4 + b2 / 64, b2 % 64;
            && Ungroup([B64(i0), B64(i1), B64(i2), B64(i3)]) == Some([b0, b1, b2])
            && Ungroup([B64(i0), B64(i1), B64(i2), PAD]) == Some([b0, b1])
            && Ungroup([B64(i0), B64(i1), PAD, PAD]) == Some([b0])
  {
    Bits(b0, b1, b2);
    UngroupIs(b0 / 4, (b0 % 4) * 16 + b1 / 16, (b1 % 16) * 4 + b2 / 64, b2 % 64, b0, b1, b2);
  }

  lemma UngroupIs(i0: sextet, i1: sextet, i2: sextet, i3: sextet, b0: byte, b1: byte, b2: byte)
    requires i0 * 4 + i1 / 16 == b0 && (i1 % 16) * 16 + i2 / 4 == b1 && (i2 % 4) * 64 + i3 == b2
    ensures Ungroup([B64(i0), B64(i1), B64(i2), B64(i3)]) == Some([b0, b1, b2])
    ensures Ungroup([B64(i0), B64(i1), B64(i2), PAD]) == Some([b0, b1])
    ensures Ungroup([B64(i0), B64(i1), PAD, PAD]) == Some([b0])
  {
    UngroupText(i0, i1, i2, i3);
  }

  lemma UngroupGroup(c: bytes)
    requires 1 <= |c| <= 3
    ensures Ungroup(Group(c)) == Some(c)
  {
    if |c| == 1 { UngroupOne(c[0]); assert c == [c[0]]; }
    if |c| == 2 { UngroupTwo(c[0], c[1]); assert c == [c[0], c[1]]; }
    if |c| == 3 { UngroupThree(c[0], c[1], c[2]); assert c == [c[0], c[1], c[2]]; }
  }

  lemma UngroupOne(b0: byte)
    ensures Ungroup(Group([b0])) == Some([b0])
  {
    QuantumInverse(b0, 0, 0);
    assert Group([b0]) == [B64(b0 / 4), B64((b0 % 4) * 16 + 0 / 16), PAD, PAD];
  }

  lemma UngroupTwo(b0: byte, b1: byte)
    ensures Ungroup(Group([b0, b1])) == Some([b0, b1])
  {
    QuantumInverse(b0, b1, 0);
    assert Group([b0, b1]) == [B64(b0 / 4), B64((b0 % 4) * 16 + b1 / 16), B64((b1 % 16) * 4 + 0 / 64), PAD];
  }

  lemma UngroupThree(b0: byte, b1: byte, b2: byte)
    ensures Ungroup(Group([b0, b1, b2])) == Some([b0, b1, b2])
  {
    QuantumInverse(b0, b1, b2);
    assert Group([b0, b1, b2])
           == [B64(b0 / 4), B64((b0 % 4) * 16 + b1 / 16), B64((b1 % 16) * 4 + b2 / 64), B64(b2 % 64)];
  }

  lemma DecodeGroup(g: bytes, more: bytes, b: bytes)
    requires |g| == 4 && Ungroup(g) == Some(b) && (|more| > 0 ==> |b| == 3)
    requires Decode(more).Some?
    ensures Decode(g + more) == Some(b + Decode(more).value)
  {
    var s := g + more;
    assert s[..4] == g && s[4..] == more;
  }

  lemma {:induction false} EncodeLength(raw: bytes)
    ensures |Encode(raw)| == 4 * ((|raw| + 2) / 3)
  {
    if |raw| > 3 {
      EncodeLength(raw[3..]);
      assert |Encode(raw)| == 4 + |Encode(raw[3..])|;
    } else if |raw| > 0 {
      assert raw[|raw|..] == [] && |Encode(raw)| == 4;
    }
  }

  lemma EncodeAt(raw: bytes, i: nat, full: bytes)
    requires i < |raw|
    ensures var c := First(raw[i..], 3);
            1 <= |c| <= 3 && i + |c| <= |raw|
            && full + Encode(raw[i..]) == full + Group(c) + Encode(raw[i + |c|..])
  {
    var c := First(raw[i..], 3);
    assert raw[i..][|c|..] == raw[i + |c|..];
    assert full + (Group(c) + Encode(raw[i + |c|..])) == full + Group(c) + Encode(raw[i + |c|..]);
  }

  lemma {:induction false} DecodeEncode(raw: bytes)
    ensures Decode(Encode(raw)) == Some(raw)
  {
    if |raw| > 0 {
      var c := First(raw, 3);
      var rest := raw[|c|..];
      DecodeEncode(rest);
      UngroupGroup(c);
      DecodeGroup(Group(c), Encode(rest), c);
      assert c + rest == raw;
    }
  }

  // ---------------------------------------------------------------- basic_token

  /** `extend_from_slice` into a 96-byte vector: all of `more` or nothing. */
  function Extend(v: bytes, more: bytes): bytes {
    if |v| + |more| <= CAP then v + more else v
  }

  function Raw(user: bytes, pass: bytes): bytes { Extend(Extend(Extend([], user), [COLON]), pass) }

  function Token(user: bytes, pass: bytes): bytes { First(Encode(Raw(user, pass)), CAP) }

  method BasicToken(user: bytes, pass: bytes) returns (out: bytes)
    ensures out == Token(user, pass)
  {
    var raw := Extend([], user);
    raw := Extend(raw, [COLON]);
    raw := Extend(raw, pass);
    out := [];
    ghost var full: bytes := [];
    assert raw[0..] == raw && full + Encode(raw) == Encode(raw);
    var i := 0;
    while i < |raw|
      invariant 0 <= i <= |raw|
      invariant Encode(raw) == full + Encode(raw[i..]) && out == First(full, CAP)
    {
      var chunk := First(raw[i..], 3);
      EncodeAt(raw, i, full);
      out := PushChunk(out, chunk, full);
      i := i + |chunk|;
      full := full + Group(chunk);
    }
    assert raw[i..] == [] && full + [] == full;
  }

  /** The loop body: four pushes for one chunk. `full` is what an unbounded buffer would hold. */
  method PushChunk(out: bytes, chunk: bytes, ghost full: bytes) returns (r: bytes)
    requires 1 <= |chunk| <= 3
    requires out == First(full, CAP)
    ensures r == First(full + Group(chunk), CAP)
  {
    var b0 := chunk[0];
    var b1 := if |chunk| > 1 then chunk[1] else 0;
    var b2 := if |chunk| > 2 then chunk[2] else 0;
    r := Push(out, B64(b0 / 4));
    r := Push(r, B64((b0 % 4) * 16 + b1 / 16));
    r := Push(r, if |chunk| > 1 then B64((b1 % 16) * 4 + b2 / 64) else PAD);
    r := Push(r, if |chunk| > 2 then B64(b2 % 64) else PAD);
    PushFour(full, Group(chunk));
  }

  /** `String::push`, its error ignored. */
  function Push(out: bytes, c: byte): bytes { if |out| < CAP then out + [c] else out }

  lemma PushFour(full: bytes, g: bytes)
    requires |g| == 4
    ensures Push(Push(Push(Push(First(full, CAP), g[0]), g[1]), g[2]), g[3]) == First(full + g, CAP)
  {
    PushOne(full, g[0]);
    PushOne(full + [g[0]], g[1]);
    PushOne(full + [g[0]] + [g[1]], g[2]);
    PushOne(full + [g[0]] + [g[1]] + [g[2]], g[3]);
    assert full + [g[0]] + [g[1]] + [g[2]] + [g[3]] == full + g;
  }

  lemma PushOne(full: bytes, c: byte)
    ensures Push(First(full, CAP), c) == First(full + [c], CAP)
  {
  }

  /** The bytes that reach the encoder for any submittable pair. */
  lemma RawKept(u: bytes, p: bytes)
    requires |u| <= SUBMITTED_MAX
    ensures Raw(u, p) == u + [COLON] + (if |u| + 1 + |p| <= CAP then p else [])
  {
    assert [] + u == u;
    assert u + [COLON] + [] == u + [COLON];
  }

  /** While `user:pass` is at most 72 bytes no push is dropped: the token is padded base64 of exactly
      4*ceil(n/3) characters and decodes to `user:pass`. */
  lemma TokenDecodes(user: bytes, pass: bytes)
    requires |user| + 1 + |pass| <= 72
    ensures |Token(user, pass)| == 4 * ((|user| + 1 + |pass| + 2) / 3)
    ensures Decode(Token(user, pass)) == Some(user + [COLON] + pass)
  {
    var raw := user + [COLON] + pass;
    assert [] + user == user;
    assert Raw(user, pass) == raw;
    TokenIsEncoded(raw);
    assert Token(user, pass) == Encode(raw);
    DecodeEncode(raw);
  }

  lemma TokenIsEncoded(raw: bytes)
    requires |raw| <= 72
    ensures First(Encode(raw), CAP) == Encode(raw)
    ensures |Encode(raw)| == 4 * ((|raw| + 2) / 3)
  {
    EncodeLength(raw);
  }

  // ---------------------------------------------------------------- the login comparison

  /** Comparing tokens compares the joined bytes, for every stored and submitted pair. */
  lemma TokensCompareRaw(u: bytes, p: bytes, cu: bytes, cp: bytes)
    requires |u| <= SUBMITTED_MAX && |p| <= SUBMITTED_MAX
    requires |cu| <= STORED_MAX && |cp| <= STORED_MAX
    ensures Token(u, p) == Token(cu, cp) <==> Raw(u, p) == cu + [COLON] + cp
  {
    RawKept(u, p);
    RawKept(cu, cp);
    var r, cr := Raw(u, p), Raw(cu, cp);
    EncodeLength(r);
    EncodeLength(cr);
    if |r| > 72 {
      assert |Token(u, p)| == CAP && |Token(cu, cp)| <= 88;
    } else {
      assert Token(u, p) == Encode(r) && Token(cu, cp) == Encode(cr);
      DecodeEncode(r);
      DecodeEncode(cr);
    }
  }

  /** The one pair the 96-byte buffer confuses: a full 32-byte user with no password stored, and any
      64-byte password submitted; the push of the password does not fit and is dropped. */
  predicate PasswordDropped(u: bytes, p: bytes, cp: bytes) {
    |u| == STORED_MAX && |p| == SUBMITTED_MAX && |cp| == 0
  }

  /** With colon-free user names (RFC 7617, section 2) the comparison succeeds iff both fields are the
      stored ones, or the submitted password was dropped. */
  lemma LoginComparison(u: bytes, p: bytes, cu: bytes, cp: bytes)
    requires |u| <= SUBMITTED_MAX && |p| <= SUBMITTED_MAX
    requires |cu| <= STORED_MAX && |cp| <= STORED_MAX
    requires COLON !in u && COLON !in cu
    ensures Token(u, p) == Token(cu, cp) <==> u == cu && (p == cp || PasswordDropped(u, p, cp))
  {
    TokensCompareRaw(u, p, cu, cp);
    RawKept(u, p);
    var kept := if |u| + 1 + |p| <= CAP then p else [];
    SplitFirstAt(u, COLON, kept);
    SplitFirstAt(cu, COLON, cp);
  }

  /** Two different passwords, one of them wrong, with equal tokens. */
  lemma DroppedPasswordLogsIn()
    ensures exists u, p, cp :: |u| <= STORED_MAX && |p| <= SUBMITTED_MAX && |cp| <= STORED_MAX && p != cp
                               && COLON !in u && Token(u, p) == Token(u, cp)
  {
    var u: bytes := seq(32, _ => 'a' as int);
    var p: bytes := seq(64, _ => 'b' as int);
    var none: bytes := [];
    LoginComparison(u, p, u, none);
    assert |p| != |none|;
  }
}
