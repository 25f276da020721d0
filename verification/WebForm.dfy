/** Form decoding and HTML attribute escaping (logic/src/web_form.rs). Both push into a
    fixed-capacity buffer and fail closed instead of truncating. */
module WebForm {
  import opened Bytes

  datatype FormError = Capacity | InvalidEncoding

  const SPACE: byte := ' ' as int
  const PLUS: byte := '+' as int
  const PERCENT: byte := '%' as int
  const AMP: byte := '&' as int
  const LT: byte := '<' as int
  const GT: byte := '>' as int
  const QUOTE: byte := '"' as int
  const APOS: byte := '\'' as int

  type nibble = n: int | 0 <= n < 16

  function HexDigit(b: byte): Option<nibble> {
    if 48 <= b <= 57 then Some(b - 48)
    else if 97 <= b <= 102 then Some(b - 97 + 10)
    else if 65 <= b <= 70 then Some(b - 65 + 10)
    else None
  }

  /** The hex digits, in either case. */
  lemma HexDigitIff(b: byte, n: nibble)
    ensures HexDigit(b) == Some(n) <==> b == Ascii("0123456789abcdef")[n] || b == Ascii("0123456789ABCDEF")[n]
  {
  }

  // ---------------------------------------------------------------- what an encoding is

  /** `enc` spells the bytes `t` in application/x-www-form-urlencoded: every byte as itself (not `+`
      or `%`), a blank also as `+`, any byte as `%` and two hex digits of either case. */
  ghost predicate Spells(enc: bytes, t: bytes)
    decreases |t|
  {
    if |t| == 0 then |enc| == 0
    else
      || (|enc| >= 1 && enc[0] == t[0] && enc[0] != PLUS && enc[0] != PERCENT && Spells(enc[1..], t[1..]))
      || (|enc| >= 1 && enc[0] == PLUS && t[0] == SPACE && Spells(enc[1..], t[1..]))
      || (|enc| >= 3 && IsEscape(enc[..3], t[0]) && Spells(enc[3..], t[1..]))
  }

  predicate IsEscape(e: bytes, b: byte)
    requires |e| == 3
  {
    && e[0] == PERCENT
    && HexDigit(e[1]).Some? && HexDigit(e[2]).Some?
    && b == 16 * HexDigit(e[1]).value + HexDigit(e[2]).value
  }

  /** The bytes decoded up to the first malformed escape, and whether there was none. */
  datatype Scan = Scan(out: bytes, clean: bool)

  function ScanFrom(s: bytes): Scan
  {
    if |s| == 0 then Scan([], true)
    else if s[0] == PLUS then Prepend(SPACE, ScanFrom(s[1..]))
    else if s[0] == PERCENT then
      if |s| < 3 || HexDigit(s[1]).None? || HexDigit(s[2]).None? then Scan([], false)
      else Prepend(16 * HexDigit(s[1]).value + HexDigit(s[2]).value, ScanFrom(s[3..]))
    else Prepend(s[0], ScanFrom(s[1..]))
  }

  function Prepend(b: byte, r: Scan): Scan { Scan([b] + r.out, r.clean) }

  /** Scanning accepts exactly the spellings, and each text spells at most one byte string. */
  lemma {:induction false} ScanIsSpelling(enc: bytes, t: bytes)
    ensures ScanFrom(enc) == Scan(t, true) <==> Spells(enc, t)
    decreases |enc| + |t|
  {
    if |enc| > 0 && |t| > 0 {
      assert [t[0]] + t[1..] == t;
      ScanIsSpelling(enc[1..], t[1..]);
      if |enc| >= 3 { ScanIsSpelling(enc[3..], t[1..]); }
      ScanCons(enc, t);
    }
  }

  /** Comparing two cons-scans is comparing head and tail. */
  lemma ScanCons(enc: bytes, t: bytes)
    requires |enc| > 0 && |t| > 0
    ensures forall b: byte, r: Scan :: Prepend(b, r) == Scan(t, true) <==> b == t[0] && r == Scan(t[1..], true)
  {
    forall b: byte, r: Scan
      ensures Prepend(b, r) == Scan(t, true) <==> b == t[0] && r == Scan(t[1..], true)
    {
      assert ([b] + r.out)[0] == b;
      assert ([b] + r.out)[1..] == r.out;
      assert [t[0]] + t[1..] == t;
    }
  }

  // ---------------------------------------------------------------- form_url_decode

  /** What `form_url_decode::<N>` answers: `Capacity` as soon as an (N+1)th byte is due, otherwise
      `InvalidEncoding` for a bad escape, a NUL or bytes that are not UTF-8. */
  function FormDecode(s: bytes, n: nat): Result<bytes, FormError>
  {
    var r := ScanFrom(s);
    if |r.out| > n then Err(Capacity)
    else if !r.clean || !NulFree(r.out) || !Utf8(r.out) then Err(InvalidEncoding)
    else Ok(r.out)
  }

  /** What is still to be scanned, after the bytes already decoded. */
  function After(out: bytes, r: Scan): Scan { Scan(out + r.out, r.clean) }

  lemma AfterOne(out: bytes, b: byte, r: Scan)
    ensures After(out, Prepend(b, r)) == After(out + [b], r)
  {
    assert out + ([b] + r.out) == out + [b] + r.out;
  }

  lemma ScanAt(s: bytes, i: nat)
    requires i < |s|
    ensures ScanFrom(s[i..]) ==
            if s[i] == PLUS then Prepend(SPACE, ScanFrom(s[i + 1..]))
            else if s[i] != PERCENT then Prepend(s[i], ScanFrom(s[i + 1..]))
            else if i + 2 >= |s| || HexDigit(s[i + 1]).None? || HexDigit(s[i + 2]).None? then Scan([], false)
            else Prepend(16 * HexDigit(s[i + 1]).value + HexDigit(s[i + 2]).value, ScanFrom(s[i + 3..]))
  {
    var t := s[i..];
    assert t[1..] == s[i + 1..];
    if |t| >= 3 { assert t[3..] == s[i + 3..]; }
  }

  method FormUrlDecode(s: bytes, n: nat) returns (r: Result<bytes, FormError>)
    ensures r == FormDecode(s, n)
  {
    var out: bytes := [];
    var i := 0;
    ghost var all := ScanFrom(s);
    assert s[0..] == s && [] + all.out == all.out;
    while i < |s|
      invariant 0 <= i <= |s|
      invariant |out| <= n
      invariant all == After(out, ScanFrom(s[i..]))
    {
      var b := s[i];
      ScanAt(s, i);
      var decoded: byte := b;
      var w := 1;
      if b == PLUS {
        decoded := SPACE;
      } else if b == PERCENT {
        if i + 2 >= |s| { return Err(InvalidEncoding); }
        var h := HexDigit(s[i + 1]);
        if h.None? { return Err(InvalidEncoding); }
        var l := HexDigit(s[i + 2]);
        if l.None? { return Err(InvalidEncoding); }
        decoded := 16 * (h.value as int) + l.value as int;
        w := 3;
      }
      AfterOne(out, decoded, ScanFrom(s[i + w..]));
      if |out| == n { return Err(Capacity); }
      out := out + [decoded];
      i := i + w;
    }
    assert s[i..] == [] && out + [] == out;
    if !NulFree(out) || !Utf8(out) { return Err(InvalidEncoding); }
    r := Ok(out);
  }

  /** Exact acceptance: `Ok(t)` iff the input spells `t` and `t` is NUL-free UTF-8 of at most N bytes. */
  lemma DecodeAccepts(s: bytes, n: nat, t: bytes)
    ensures FormDecode(s, n) == Ok(t) <==> Spells(s, t) && |t| <= n && NulFree(t) && Utf8(t)
  {
    ScanIsSpelling(s, t);
  }

  predicate BadEscape(s: bytes) {
    |s| > 0 && s[0] == PERCENT && (|s| < 3 || HexDigit(s[1]).None? || HexDigit(s[2]).None?)
  }

  /** Length of the first unit of a text without a bad escape there. */
  function UnitWidth(s: bytes): nat
    requires |s| > 0
  {
    if s[0] == PERCENT then 3 else 1
  }

  /** Where scanning stops: at the end, or at the first malformed escape. */
  function ScanEnd(s: bytes): (k: nat)
    ensures k <= |s|
  {
    if |s| == 0 || BadEscape(s) then 0 else UnitWidth(s) + ScanEnd(s[UnitWidth(s)..])
  }

  lemma {:induction false} ScanStops(s: bytes)
    ensures ScanFrom(s).clean <==> ScanEnd(s) == |s|
    ensures ScanEnd(s) < |s| ==> BadEscape(s[ScanEnd(s)..])
  {
    if |s| > 0 && !BadEscape(s) {
      var w := UnitWidth(s);
      ScanStops(s[w..]);
      assert s[w + ScanEnd(s[w..])..] == s[w..][ScanEnd(s[w..])..];
    }
  }

  /** The scanned bytes are what the text before that point spells. */
  lemma {:induction false} ScannedPart(s: bytes)
    ensures Spells(s[..ScanEnd(s)], ScanFrom(s).out)
  {
    if |s| > 0 && !BadEscape(s) {
      var w := UnitWidth(s);
      var rest := s[w..];
      ScannedPart(rest);
      var b := if s[0] == PLUS then SPACE else if s[0] == PERCENT then Escaped(s[1], s[2]) else s[0];
      SpellOne(s[..w], b, rest[..ScanEnd(rest)], ScanFrom(rest).out);
      assert s[..w + ScanEnd(rest)] == s[..w] + rest[..ScanEnd(rest)];
    }
  }

  function Escaped(hi: byte, lo: byte): byte
    requires HexDigit(hi).Some? && HexDigit(lo).Some?
  {
    16 * HexDigit(hi).value + HexDigit(lo).value
  }

  /** `e` alone spells the byte `b`. */
  predicate Unit(e: bytes, b: byte) {
    || (|e| == 1 && (if e[0] == PLUS then b == SPACE else e[0] == b && b != PERCENT))
    || (|e| == 3 && IsEscape(e, b))
  }

  /** One byte more on both sides. */
  lemma SpellOne(e: bytes, b: byte, enc: bytes, t: bytes)
    requires Spells(enc, t) && Unit(e, b)
    ensures Spells(e + enc, [b] + t)
  {
    assert (e + enc)[|e|..] == enc && ([b] + t)[1..] == t;
    assert |e| == 3 ==> (e + enc)[..3] == e;
  }

  /** Exact `Capacity`: the input up to its first malformed escape spells more than N bytes. */
  lemma DecodeOverflows(s: bytes, n: nat)
    ensures FormDecode(s, n) == Err(Capacity) <==> exists t :: Spells(s[..ScanEnd(s)], t) && |t| > n
  {
    ScannedPart(s);
    var enc := s[..ScanEnd(s)];
    forall t | Spells(enc, t) ensures t == ScanFrom(s).out {
      ScanIsSpelling(enc, t);
      ScanIsSpelling(enc, ScanFrom(s).out);
    }
  }

  // ---------------------------------------------------------------- the browser's encoder

  function HexChar(n: nibble): byte { if n < 10 then 48 + n else 65 + n - 10 }

  predicate Unreserved(b: byte) {
    48 <= b <= 57 || 65 <= b <= 90 || 97 <= b <= 122 || b in {42, 45, 46, 95}
  }

  function EncodeByte(b: byte): bytes {
    if b == SPACE then [PLUS]
    else if Unreserved(b) then [b]
    else [PERCENT, HexChar(b / 16), HexChar(b % 16)]
  }

  /** The application/x-www-form-urlencoded byte serializer (WHATWG URL Standard, section 5.2). */
  function UrlEncode(t: bytes): bytes { if |t| == 0 then [] else EncodeByte(t[0]) + UrlEncode(t[1..]) }

  lemma EncodeByteSpells(b: byte)
    ensures Unit(EncodeByte(b), b)
  {
  }

  lemma {:induction false} EncodeSpells(t: bytes)
    ensures Spells(UrlEncode(t), t)
  {
    if |t| > 0 {
      EncodeSpells(t[1..]);
      EncodeByteSpells(t[0]);
      SpellOne(EncodeByte(t[0]), t[0], UrlEncode(t[1..]), t[1..]);
      assert [t[0]] + t[1..] == t;
    }
  }

  /** The encoded text cannot be taken for a separator and survives trimming. */
  lemma {:induction false} EncodeIsPlain(t: bytes)
    ensures Graphic(UrlEncode(t)) && AMP !in UrlEncode(t) && '=' as int !in UrlEncode(t)
  {
    if |t| > 0 {
      EncodeIsPlain(t[1..]);
      EncodeByteIsPlain(t[0]);
    }
  }

  lemma EncodeByteIsPlain(b: byte)
    ensures Graphic(EncodeByte(b)) && AMP !in EncodeByte(b) && '=' as int !in EncodeByte(b)
  {
  }

  /** The decoder inverts the browser's encoder on every text the device can store. */
  lemma DecodeEncode(t: bytes, n: nat)
    requires NulFree(t) && Utf8(t)
    ensures FormDecode(UrlEncode(t), n) == if |t| <= n then Ok(t) else Err(Capacity)
  {
    EncodeSpells(t);
    ScanIsSpelling(UrlEncode(t), t);
  }

  // ---------------------------------------------------------------- html_escape_attr

  function Entity(b: byte): bytes {
    if b == AMP then Ascii("&amp;")
    else if b == LT then Ascii("&lt;")
    else if b == GT then Ascii("&gt;")
    else if b == QUOTE then Ascii("&quot;")
    else if b == APOS then Ascii("&#39;")
    else [b]
  }

  function Escape(s: bytes): bytes { if |s| == 0 then [] else Entity(s[0]) + Escape(s[1..]) }

  /** A non-ASCII character consists of bytes >= 0x80, none of them special, and an error discards the
      buffer, so pushing its bytes one by one answers as pushing the character does. */
  method HtmlEscapeAttr(s: bytes, n: nat) returns (r: Result<bytes, FormError>)
    ensures r == if |Escape(s)| <= n then Ok(Escape(s)) else Err(Capacity)
  {
    var out: bytes := [];
    var i := 0;
    while i < |s|
      invariant 0 <= i <= |s|
      invariant |out| <= n
      invariant Escape(s) == out + Escape(s[i..])
    {
      assert s[i..][1..] == s[i + 1..];
      var e := Entity(s[i]);
      assert Escape(s) == out + e + Escape(s[i + 1..]);
      if |out| + |e| > n { return Err(Capacity); }
      out := out + e;
      i := i + 1;
    }
    assert s[i..] == [] && out + [] == out;
    r := Ok(out);
  }

  /** What a browser reads back from an attribute value: the five character references replaced. */
  function Unescape(s: bytes): bytes
  {
    if |s| == 0 then []
    else if s[0] != AMP then [s[0]] + Unescape(s[1..])
    else if Ascii("&amp;") <= s then [AMP] + Unescape(s[5..])
    else if Ascii("&lt;") <= s then [LT] + Unescape(s[4..])
    else if Ascii("&gt;") <= s then [GT] + Unescape(s[4..])
    else if Ascii("&quot;") <= s then [QUOTE] + Unescape(s[6..])
    else if Ascii("&#39;") <= s then [APOS] + Unescape(s[5..])
    else [s[0]] + Unescape(s[1..])
  }

  predicate IsBreak(b: byte) { b == 10 || b == 13 }

  predicate BreakFree(s: bytes) { forall i | 0 <= i < |s| :: !IsBreak(s[i]) }

  /** A single-line input's value drops line feeds and carriage returns (HTML Standard, value sanitization). */
  function StripBreaks(s: bytes): bytes {
    if |s| == 0 then [] else if IsBreak(s[0]) then StripBreaks(s[1..]) else [s[0]] + StripBreaks(s[1..])
  }

  lemma {:induction false} StripNothing(s: bytes)
    requires BreakFree(s)
    ensures StripBreaks(s) == s
  {
    if |s| > 0 {
      StripNothing(s[1..]);
      assert [s[0]] + s[1..] == s;
    }
  }

  lemma {:induction false} StripLength(s: bytes)
    ensures |StripBreaks(s)| <= |s| && (|StripBreaks(s)| == |s| <==> BreakFree(s))
    ensures NulFree(s) ==> NulFree(StripBreaks(s))
  {
    if |s| > 0 {
      StripLength(s[1..]);
      assert BreakFree(s) <==> !IsBreak(s[0]) && BreakFree(s[1..]) by {
        assert forall i | 1 <= i < |s| :: s[i] == s[1..][i - 1];
      }
    }
  }

  lemma {:induction false} StripSplit(a: bytes, b: bytes)
    ensures StripBreaks(a + b) == StripBreaks(a) + StripBreaks(b)
  {
    if |a| == 0 {
      assert a + b == b;
    } else {
      assert (a + b)[1..] == a[1..] + b;
      StripSplit(a[1..], b);
    }
  }

  /** Line breaks are whole characters, so dropping them keeps the rest well-formed. */
  lemma {:induction false} StripUtf8(s: bytes)
    requires Utf8(s)
    ensures Utf8(StripBreaks(s))
  {
    if |s| > 0 {
      var w := CharWidth(s);
      var c, rest := s[..w], s[w..];
      StripUtf8(rest);
      assert s == c + rest;
      StripSplit(c, rest);
      if w == 1 && IsBreak(s[0]) {
        assert c[1..] == [] && StripBreaks(c) == [];
      } else {
        StripNothing(c);
        Utf8Prepend(c, rest, StripBreaks(rest));
      }
    }
  }

  lemma StripKeeps(s: bytes)
    ensures |StripBreaks(s)| <= |s| && (StripBreaks(s) == s <==> BreakFree(s))
    ensures NulFree(s) ==> NulFree(StripBreaks(s))
    ensures Utf8(s) ==> Utf8(StripBreaks(s))
  {
    StripLength(s);
    if BreakFree(s) { StripNothing(s); }
    if Utf8(s) { StripUtf8(s); }
  }

  predicate EntityAt(s: bytes, i: nat)
    requires i <= |s|
  {
    Ascii("&amp;") <= s[i..] || Ascii("&lt;") <= s[i..] || Ascii("&gt;") <= s[i..]
    || Ascii("&quot;") <= s[i..] || Ascii("&#39;") <= s[i..]
  }

  lemma EntityHead(b: byte, rest: bytes)
    ensures Unescape(Entity(b) + rest) == [b] + Unescape(rest)
  {
    var s := Entity(b) + rest;
    assert s[|Entity(b)|..] == rest;
    assert s[0] == if b in {LT, GT, QUOTE, APOS} then AMP else b;
    if b in {AMP, LT, GT, QUOTE, APOS} {
      assert s[1] == Entity(b)[1];
      assert Entity(b) <= s;
      assert Ascii("&amp;")[1] == 'a' as int && Ascii("&lt;")[1] == 'l' as int && Ascii("&gt;")[1] == 'g' as int
             && Ascii("&quot;")[1] == 'q' as int && Ascii("&#39;")[1] == '#' as int;
    }
  }

  lemma {:induction false} UnescapeEscape(s: bytes)
    ensures Unescape(Escape(s)) == s
  {
    if |s| > 0 {
      UnescapeEscape(s[1..]);
      EntityHead(s[0], Escape(s[1..]));
    }
  }

  /** No quote or angle bracket is left and every `&` opens one of the five references. */
  predicate AttributeSafe(s: bytes) {
    forall i | 0 <= i < |s| :: s[i] !in {LT, GT, QUOTE, APOS} && (s[i] == AMP ==> EntityAt(s, i))
  }

  lemma EntityStaysSafe(b: byte, rest: bytes)
    requires AttributeSafe(rest)
    ensures AttributeSafe(Entity(b) + rest)
  {
    var e := Entity(b);
    var s := e + rest;
    forall i | 0 <= i < |s|
      ensures s[i] !in {LT, GT, QUOTE, APOS} && (s[i] == AMP ==> EntityAt(s, i))
    {
      if i >= |e| {
        assert s[i..] == rest[i - |e|..];
      } else if i == 0 {
        assert s[0..] == s && e <= s;
      }
    }
  }

  /** The output cannot end or restructure the attribute, and the text grows at most sixfold. */
  lemma {:induction false} EscapeIsSafe(s: bytes)
    ensures |s| <= |Escape(s)| <= 6 * |s|
    ensures AttributeSafe(Escape(s))
  {
    if |s| > 0 {
      EscapeIsSafe(s[1..]);
      EntityStaysSafe(s[0], Escape(s[1..]));
    }
  }

  /** Any stored field (at most 32 bytes) fits the 256-byte buffer, so `write_attr` never drops one. */
  lemma StoredFieldFits(s: bytes)
    requires |s| <= 32
    ensures |Escape(s)| <= 256
  {
    EscapeIsSafe(s);
  }

  // ---------------------------------------------------------------- secret_from_form

  function SecretFromForm(current: bytes, submitted: bytes, n: nat): Result<bytes, FormError> {
    if |submitted| == 0 then Ok(current)
    else if |submitted| <= n then Ok(submitted)
    else Err(Capacity)
  }
}
