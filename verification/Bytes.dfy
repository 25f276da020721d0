/** Bytes, bounded-buffer results and the few `str` operations the firmware relies on.
    Text is held as its UTF-8 bytes, as Rust does. */
module Bytes {
  type byte = b: int | 0 <= b < 256

  type bytes = seq<byte>

  datatype Option<+T> = None | Some(value: T)

  datatype Result<+T, +E> = Ok(value: T) | Err(error: E)

  /** The bytes of an ASCII literal. */
  function Ascii(s: string): (b: bytes)
    requires forall i | 0 <= i < |s| :: s[i] < 128 as char
    ensures |b| == |s| && forall i | 0 <= i < |s| :: b[i] == s[i] as int
  {
    seq(|s|, i requires 0 <= i < |s| => s[i] as int)
  }

  // ---------------------------------------------------------------- UTF-8 (RFC 3629, section 4)

  predicate Tail(b: byte) { 0x80 <= b <= 0xBF }

  /** Length of the well-formed sequence `s` starts with; 0 when there is none. */
  function CharWidth(s: bytes): (w: nat)
    ensures w <= 4 && w <= |s|
  {
    if |s| == 0 then 0
    else if s[0] < 0x80 then 1
    else if |s| >= 2 && 0xC2 <= s[0] <= 0xDF && Tail(s[1]) then 2
    else if |s| >= 3 && Tail(s[1]) && Tail(s[2])
            && (|| (s[0] == 0xE0 && 0xA0 <= s[1])
                || (0xE1 <= s[0] <= 0xEF && s[0] != 0xED)
                || (s[0] == 0xED && s[1] <= 0x9F)) then 3
    else if |s| >= 4 && Tail(s[1]) && Tail(s[2]) && Tail(s[3])
            && (|| (s[0] == 0xF0 && 0x90 <= s[1])
                || 0xF1 <= s[0] <= 0xF3
                || (s[0] == 0xF4 && s[1] <= 0x8F)) then 4
    else 0
  }

  predicate Utf8(s: bytes) {
    |s| == 0 || (CharWidth(s) > 0 && Utf8(s[CharWidth(s)..]))
  }

  /** The character number a text starts with. */
  function CodePoint(s: bytes): int
    requires CharWidth(s) > 0
  {
    var w := CharWidth(s);
    if w == 1 then s[0]
    else if w == 2 then Number2(s[0], s[1])
    else if w == 3 then Number3(s[0], s[1], s[2])
    else Number4(s[0], s[1], s[2], s[3])
  }

  function Number2(a: int, b: int): int { (a - 0xC0) * 64 + (b - 0x80) }

  function Number3(a: int, b: int, c: int): int { (a - 0xE0) * 4096 + (b - 0x80) * 64 + (c - 0x80) }

  function Number4(a: int, b: int, c: int, d: int): int {
    (a - 0xF0) * 262144 + (b - 0x80) * 4096 + (c - 0x80) * 64 + (d - 0x80)
  }

  /** Character numbers are at most 10FFFF and no surrogates. */
  predicate Scalar(c: int) { 0 <= c <= 0x10FFFF && !(0xD800 <= c <= 0xDFFF) }

  /** The encoding of a character number (RFC 3629, section 3). */
  function EncodeChar(c: int): (e: bytes)
    requires Scalar(c)
  {
    if c < 0x80 then [c]
    else if c < 0x800 then [0xC0 + c / 64, 0x80 + c % 64]
    else if c < 0x10000 then [0xE0 + c / 4096, 0x80 + c / 64 % 64, 0x80 + c % 64]
    else [0xF0 + c / 262144, 0x80 + c / 4096 % 64, 0x80 + c / 64 % 64, 0x80 + c % 64]
  }

  lemma Digits64(c: int)
    requires 0 <= c <= 0x10FFFF
    ensures c == c / 64 * 64 + c % 64 && c / 64 == c / 4096 * 64 + c / 64 % 64
    ensures c / 4096 == c / 262144 * 64 + c / 4096 % 64
  {
  }

  lemma Undigits(h: int, l: int)
    requires 0 <= l < 64
    ensures (h * 64 + l) / 64 == h && (h * 64 + l) % 64 == l
  {
  }

  /** The encoding of a character number is a character with that number, whatever follows. */
  lemma EncodingIsChar(c: int, rest: bytes)
    requires Scalar(c)
    ensures var s := EncodeChar(c) + rest; CharWidth(s) == |EncodeChar(c)| && CodePoint(s) == c
  {
    Digits64(c);
    var s := EncodeChar(c) + rest;
    assert forall i | 0 <= i < |EncodeChar(c)| :: s[i] == EncodeChar(c)[i];
  }

  /** And every character is the encoding of its number. */
  lemma CharIsEncoding(s: bytes)
    requires CharWidth(s) > 0
    ensures Scalar(CodePoint(s)) && s[..CharWidth(s)] == EncodeChar(CodePoint(s))
  {
    var w := CharWidth(s);
    if w == 2 {
      Undigits(s[0] as int - 0xC0, s[1] as int - 0x80);
    } else if w == 3 {
      Char3(s[0], s[1], s[2]);
    } else if w == 4 {
      Char4(s[0], s[1], s[2], s[3]);
    }
  }

  lemma Char3(a: int, b: int, c: int)
    requires 0x80 <= b <= 0xBF && 0x80 <= c <= 0xBF && 0xE0 <= a <= 0xEF
    ensures var n := Number3(a, b, c); n / 4096 == a - 0xE0 && n / 64 % 64 == b - 0x80 && n % 64 == c - 0x80
  {
    Undigits((a - 0xE0) * 64 + (b - 0x80), c - 0x80);
    Undigits(a - 0xE0, b - 0x80);
  }

  lemma Char4(a: int, b: int, c: int, d: int)
    requires 0x80 <= b <= 0xBF && 0x80 <= c <= 0xBF && 0x80 <= d <= 0xBF && 0xF0 <= a <= 0xF4
    ensures var n := Number4(a, b, c, d);
            && n / 262144 == a - 0xF0 && n / 4096 % 64 == b - 0x80
            && n / 64 % 64 == c - 0x80 && n % 64 == d - 0x80
  {
    Undigits(((a - 0xF0) * 64 + (b - 0x80)) * 64 + (c - 0x80), d - 0x80);
    Undigits((a - 0xF0) * 64 + (b - 0x80), c - 0x80);
    Undigits(a - 0xF0, b - 0x80);
  }

  predicate NulFree(s: bytes) { forall i | 0 <= i < |s| :: s[i] != 0 }

  predicate AllAscii(s: bytes) { forall i | 0 <= i < |s| :: s[i] < 0x80 }

  lemma {:induction false} AsciiIsUtf8(s: bytes)
    requires AllAscii(s)
    ensures Utf8(s)
  {
    if |s| > 0 { AsciiIsUtf8(s[1..]); }
  }

  /** 0xFF, the value of an erased cell, occurs in no UTF-8 text. */
  lemma {:induction false} Utf8HasNoFF(s: bytes, i: nat)
    requires Utf8(s) && i < |s|
    ensures s[i] != 0xFF
  {
    var w := CharWidth(s);
    if i >= w { Utf8HasNoFF(s[w..], i - w); }
  }

  /** Whether a text begins with a whole character does not depend on what follows it. */
  lemma Utf8Prepend(c: bytes, rest: bytes, t: bytes)
    requires |c| > 0 && CharWidth(c + rest) == |c| && Utf8(t)
    ensures CharWidth(c + t) == |c| && Utf8(c + t)
  {
    var s := c + rest;
    assert forall i | 0 <= i < |c| :: (c + t)[i] == s[i];
    assert (c + t)[|c|..] == t;
  }

  /** A position of a text is between two characters iff the byte there, if any, is not a continuation byte;
      then both parts are texts. */
  lemma Boundary(s: bytes, k: nat)
    requires Utf8(s) && k <= |s|
    ensures Utf8(s[..k]) && Utf8(s[k..]) <==> k == |s| || !Tail(s[k])
  {
    if k < |s| && Tail(s[k]) { assert CharWidth(s[k..]) == 0; } else { Between(s, k); }
  }

  lemma {:induction false} Between(s: bytes, k: nat)
    requires Utf8(s) && k <= |s| && (k < |s| ==> !Tail(s[k]))
    ensures Utf8(s[..k]) && Utf8(s[k..])
  {
    if k == 0 {
      assert s[0..] == s;
    } else {
      var w := CharWidth(s);
      NotInside(s, k);
      Between(s[w..], k - w);
      assert s == s[..w] + s[w..];
      Utf8Prepend(s[..w], s[w..], s[w..][..k - w]);
      assert s[..k] == s[..w] + s[w..][..k - w];
      assert s[w..][k - w..] == s[k..];
    }
  }

  /** All bytes of a character but the first are continuation bytes. */
  lemma NotInside(s: bytes, k: nat)
    requires Utf8(s) && 0 < k <= |s| && (k < |s| ==> !Tail(s[k]))
    ensures k >= CharWidth(s)
  {
  }

  // ---------------------------------------------------------------- splitting

  /** `str::split`: the maximal pieces between occurrences of `sep`. */
  function Split(s: bytes, sep: byte): (parts: seq<bytes>)
    ensures |parts| > 0
  {
    if |s| == 0 then [[]]
    else if s[0] == sep then [[]] + Split(s[1..], sep)
    else
      var rest := Split(s[1..], sep);
      [[s[0]] + rest[0]] + rest[1..]
  }

  function Join(parts: seq<bytes>, sep: byte): bytes
    requires |parts| > 0
  {
    if |parts| == 1 then parts[0] else parts[0] + [sep] + Join(parts[1..], sep)
  }

  lemma {:induction false} SplitPrefix(p: bytes, sep: byte, rest: bytes)
    requires sep !in p
    ensures Split(p + [sep] + rest, sep) == [p] + Split(rest, sep)
  {
    var s := p + [sep] + rest;
    if |p| == 0 {
      assert s[1..] == rest;
    } else {
      assert s[1..] == p[1..] + [sep] + rest;
      SplitPrefix(p[1..], sep, rest);
      assert [p[0]] + p[1..] == p;
    }
  }

  lemma {:induction false} SplitSingle(p: bytes, sep: byte)
    requires sep !in p
    ensures Split(p, sep) == [p]
  {
    if |p| > 0 {
      SplitSingle(p[1..], sep);
      assert [p[0]] + p[1..] == p;
    }
  }

  /** Splitting undoes joining separator-free pieces. */
  lemma {:induction false} SplitJoin(parts: seq<bytes>, sep: byte)
    requires |parts| > 0
    requires forall i | 0 <= i < |parts| :: sep !in parts[i]
    ensures Split(Join(parts, sep), sep) == parts
  {
    if |parts| == 1 {
      SplitSingle(parts[0], sep);
    } else {
      SplitJoin(parts[1..], sep);
      SplitPrefix(parts[0], sep, Join(parts[1..], sep));
    }
  }

  /** The pieces hold no separator and joining them gives the text back, so `Split` is the only
      such list (with SplitJoin). */
  lemma {:induction false} JoinSplit(s: bytes, sep: byte)
    ensures forall i | 0 <= i < |Split(s, sep)| :: sep !in Split(s, sep)[i]
    ensures Join(Split(s, sep), sep) == s
  {
    if |s| > 0 {
      var rest := Split(s[1..], sep);
      JoinSplit(s[1..], sep);
      if s[0] == sep {
        assert Split(s, sep)[1..] == rest;
        assert [sep] + s[1..] == s;
      } else {
        assert Split(s, sep)[1..] == rest[1..];
        assert [s[0]] + s[1..] == s;
      }
    }
  }

  /** `str::splitn(2, sep)`: the text before the first `sep`, and the text after it ("" if none). */
  function SplitFirst(s: bytes, sep: byte): (bytes, bytes)
  {
    if |s| == 0 then ([], [])
    else if s[0] == sep then ([], s[1..])
    else
      var rest := SplitFirst(s[1..], sep);
      ([s[0]] + rest.0, rest.1)
  }

  lemma {:induction false} SplitFirstAt(k: bytes, sep: byte, v: bytes)
    requires sep !in k
    ensures SplitFirst(k + [sep] + v, sep) == (k, v)
  {
    var s := k + [sep] + v;
    if |k| == 0 {
      assert s[1..] == v;
    } else {
      assert s[1..] == k[1..] + [sep] + v;
      SplitFirstAt(k[1..], sep, v);
      assert [k[0]] + k[1..] == k;
    }
  }

  // ---------------------------------------------------------------- Unicode White_Space, as UTF-8 bytes

  /** Length of the white-space character `s` starts with, 0 if it starts with none. */
  function WhiteWidth(s: bytes): (w: nat)
    ensures w <= 3 && w <= |s|
  {
    if |s| >= 1 && (9 <= s[0] <= 13 || s[0] == 32) then 1
    else if |s| >= 2 && s[0] == 0xC2 && (s[1] == 0x85 || s[1] == 0xA0) then 2
    else if |s| >= 3 &&
            (|| (s[0] == 0xE1 && s[1] == 0x9A && s[2] == 0x80)
             || (s[0] == 0xE2 && s[1] == 0x80 && (0x80 <= s[2] <= 0x8A || s[2] in {0xA8, 0xA9, 0xAF}))
             || (s[0] == 0xE2 && s[1] == 0x81 && s[2] == 0x9F)
             || (s[0] == 0xE3 && s[1] == 0x80 && s[2] == 0x80)) then 3
    else 0
  }

  /** The White_Space characters of Unicode. */
  predicate WhiteSpace(c: int) {
    || 9 <= c <= 13 || c == 0x20 || c == 0x85 || c == 0xA0 || c == 0x1680 || 0x2000 <= c <= 0x200A
    || c == 0x2028 || c == 0x2029 || c == 0x202F || c == 0x205F || c == 0x3000
  }

  lemma WhiteIff(s: bytes)
    requires CharWidth(s) > 0
    ensures WhiteWidth(s) == if WhiteSpace(CodePoint(s)) then CharWidth(s) else 0
  {
  }

  function TrimStart(s: bytes): bytes
  {
    if WhiteWidth(s) == 0 then s else TrimStart(s[WhiteWidth(s)..])
  }

  /** Length of the white-space character `s` ends with, 0 if it ends with none. */
  function WhiteTail(s: bytes): (w: nat)
    ensures w <= |s|
  {
    if |s| >= 1 && WhiteWidth(s[|s| - 1..]) == 1 then 1
    else if |s| >= 2 && WhiteWidth(s[|s| - 2..]) == 2 then 2
    else if |s| >= 3 && WhiteWidth(s[|s| - 3..]) == 3 then 3
    else 0
  }

  function TrimEnd(s: bytes): bytes
  {
    if WhiteTail(s) == 0 then s else TrimEnd(s[..|s| - WhiteTail(s)])
  }

  function Trim(s: bytes): bytes { TrimEnd(TrimStart(s)) }

  /** A sequence of white-space characters. */
  predicate White(w: bytes) { |w| == 0 || (WhiteWidth(w) > 0 && White(w[WhiteWidth(w)..])) }

  lemma {:induction false} TrimStartIs(s: bytes) returns (w: bytes)
    ensures s == w + TrimStart(s) && White(w) && WhiteWidth(TrimStart(s)) == 0
  {
    w := [];
    var k := WhiteWidth(s);
    if k > 0 {
      var more := TrimStartIs(s[k..]);
      Halves(s, k);
      WhiteFirst(s[..k], s[k..], more);
      w := s[..k] + more;
    }
  }

  lemma Halves(s: bytes, k: nat)
    requires k <= |s|
    ensures s == s[..k] + s[k..]
  {
  }

  lemma WhiteFirst(c: bytes, rest: bytes, w: bytes)
    requires |c| > 0 && WhiteWidth(c + rest) == |c| && White(w)
    ensures WhiteWidth(c + w) == |c| && White(c + w)
  {
    var s := c + rest;
    assert forall i | 0 <= i < |c| :: (c + w)[i] == s[i];
    assert (c + w)[|c|..] == w;
  }

  lemma {:induction false} WhiteLast(w: bytes, c: bytes)
    requires White(w) && |c| > 0 && WhiteWidth(c) == |c|
    ensures White(w + c)
  {
    if |w| == 0 {
      assert w + c == c && c[|c|..] == [];
    } else {
      var k := WhiteWidth(w);
      WhiteLast(w[k..], c);
      assert w == w[..k] + w[k..] && w + c == w[..k] + (w[k..] + c);
      WhiteFirst(w[..k], w[k..], w[k..] + c);
    }
  }

  lemma WhiteEnd(s: bytes, k: nat)
    requires 0 < k == WhiteTail(s)
    ensures WhiteWidth(s[|s| - k..]) == k
  {
    if k == 1 {} else if k == 2 {} else { assert k == 3; }
  }

  lemma {:induction false} TrimEndIs(s: bytes) returns (w: bytes)
    ensures s == TrimEnd(s) + w && White(w)
  {
    w := [];
    var k := WhiteTail(s);
    if k > 0 {
      var more := TrimEndIs(s[..|s| - k]);
      w := more + s[|s| - k..];
      WhiteEnd(s, k);
      WhiteLast(more, s[|s| - k..]);
      EndOf(s, TrimEnd(s[..|s| - k]), more, k);
    }
  }

  lemma EndOf(s: bytes, t: bytes, more: bytes, k: nat)
    requires k <= |s| && s[..|s| - k] == t + more
    ensures s == t + (more + s[|s| - k..])
  {
    Halves(s, |s| - k);
    Regroup(t, more, s[|s| - k..]);
  }

  lemma Regroup(a: bytes, b: bytes, c: bytes)
    ensures a + b + c == a + (b + c)
  {
  }

  lemma {:induction false} TrimEndEnds(s: bytes)
    ensures WhiteTail(TrimEnd(s)) == 0
  {
    if WhiteTail(s) > 0 { TrimEndEnds(s[..|s| - WhiteTail(s)]); }
  }

  /** Trimming takes off white space at both ends and nothing else, until neither end has any. */
  lemma TrimIs(s: bytes) returns (a: bytes, b: bytes)
    ensures s == a + Trim(s) + b && White(a) && White(b)
    ensures WhiteTail(Trim(s)) == 0 && (Trim(s) == [] || WhiteWidth(Trim(s)) == 0)
  {
    var t := TrimStart(s);
    a := TrimStartIs(s);
    b := TrimEndIs(t);
    TrimEndEnds(t);
    Regroup(a, TrimEnd(t), b);
    if |TrimEnd(t)| > 0 { NotWhiteBefore(TrimEnd(t), b); }
  }

  /** If a text does not begin with white space, neither does its beginning. */
  lemma NotWhiteBefore(u: bytes, rest: bytes)
    requires |u| > 0 && WhiteWidth(u + rest) == 0
    ensures WhiteWidth(u) == 0
  {
    assert forall i | 0 <= i < |u| :: (u + rest)[i] == u[i];
  }

  /** Printable ASCII without blanks, the only bytes the form encoder and the number printers emit. */
  predicate Graphic(s: bytes) { forall i | 0 <= i < |s| :: 33 <= s[i] <= 126 }

  lemma TrimGraphic(s: bytes)
    requires Graphic(s)
    ensures Trim(s) == s
  {
    assert WhiteWidth(s) == 0;
    assert WhiteTail(s) == 0;
  }
}
