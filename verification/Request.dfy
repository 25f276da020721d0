/** The parts of an HTTP request the web tasks look at: request line, session cookie, login form
    (`ParsedRequest`, `extract_cookie`, `parse_login_form` in src/web.rs). */
module Request {
  import opened Bytes
  import opened Decimal
  import opened WebForm
  import Auth

  const LF: byte := 10
  const CR: byte := 13
  const QUESTION: byte := '?' as int
  const SEMICOLON: byte := ';' as int
  const EQUALS: byte := '=' as int

  // ---------------------------------------------------------------- lines and tokens

  /** Index of the first line feed, the length if there is none. */
  function LineEnd(s: bytes): (k: nat)
    ensures k <= |s| && LF !in s[..k] && (k < |s| ==> s[k] == LF)
  {
    if |s| == 0 || s[0] == LF then 0
    else
      var k := LineEnd(s[1..]);
      assert s[..k + 1] == [s[0]] + s[1..][..k];
      k + 1
  }

  /** The first item of `str::lines`: without its `\n` and a `\r` right before it. */
  function FirstLine(s: bytes): bytes {
    var k := LineEnd(s);
    if k < |s| then StripCr(s[..k]) else s
  }

  function StripCr(line: bytes): bytes {
    if |line| > 0 && line[|line| - 1] == CR then line[..|line| - 1] else line
  }

  function AfterLine(s: bytes): (r: bytes)
    ensures |s| > 0 ==> |r| < |s|
  {
    var k := LineEnd(s);
    if k < |s| then s[k + 1..] else []
  }

  /** Bytes before the first white-space character. */
  function WordLength(s: bytes): (k: nat)
    ensures k <= |s|
  {
    if |s| == 0 || WhiteWidth(s) > 0 then 0 else 1 + WordLength(s[1..])
  }

  /** `split_whitespace`: the next word and what follows it. */
  function NextWord(s: bytes): (Option<bytes>, bytes) {
    var t := TrimStart(s);
    var k := WordLength(t);
    if k == 0 then (None, t) else (Some(t[..k]), t[k..])
  }

  function Method(raw: bytes): bytes {
    var w := NextWord(FirstLine(raw)).0;
    if w.Some? then w.value else []
  }

  function Target(raw: bytes): bytes {
    var w := NextWord(NextWord(FirstLine(raw)).1).0;
    if w.Some? then w.value else Ascii("/")
  }

  function Path(raw: bytes): bytes { SplitFirst(Target(raw), QUESTION).0 }

  function Query(raw: bytes): bytes { SplitFirst(Target(raw), QUESTION).1 }

  predicate Contains(s: bytes, sub: bytes) {
    sub <= s || (|s| > 0 && Contains(s[1..], sub))
  }

  /** `refreshes_session`: a background poll without `active=1` does not count as activity. */
  predicate Refreshes(raw: bytes) {
    !(Path(raw) == Ascii("/state") || Path(raw) == Ascii("/events")) || Contains(Query(raw), Ascii("active=1"))
  }

  /** What follows the first blank line. */
  function Body(raw: bytes): Option<bytes> {
    if |raw| < 4 then None
    else if raw[..4] == [CR, LF, CR, LF] then Some(raw[4..])
    else Body(raw[1..])
  }

  // ---------------------------------------------------------------- what a request line means

  /** Without white space. */
  predicate Solid(s: bytes) { |s| > 0 && forall i | 0 <= i < |s| :: WhiteWidth(s[i..]) == 0 }

  /** What may follow the target: nothing, or a blank or line end and anything. */
  predicate Ends(after: bytes) { after == [] || after[0] in {32, CR, LF} }

  function TargetText(path: bytes, query: Option<bytes>): bytes {
    if query.Some? then path + [QUESTION] + query.value else path
  }

  /** `raw` begins with a method, a blank and a target of that path and query. */
  predicate RequestLine(raw: bytes, verb: bytes, path: bytes, query: Option<bytes>, after: bytes) {
    && raw == verb + ([32] + (TargetText(path, query) + after))
    && Solid(verb) && Solid(TargetText(path, query)) && QUESTION !in path && Ends(after)
  }

  lemma SolidHead(word: bytes, rest: bytes)
    requires Solid(word) && Ends(rest)
    ensures WhiteWidth(word + rest) == 0 && word[0] !in {32, CR, LF} && word[|word| - 1] !in {32, CR, LF}
  {
    assert word[0..] == word;
    assert WhiteWidth(word[|word| - 1..]) == 0;
  }

  lemma {:induction false} FirstWord(word: bytes, rest: bytes)
    requires Solid(word) && Ends(rest)
    ensures WordLength(word + rest) == |word|
  {
    var s := word + rest;
    SolidHead(word, rest);
    assert s[1..] == word[1..] + rest;
    if |word| == 1 {
      assert s[1..] == rest;
    } else {
      assert forall i | 0 <= i < |word| - 1 :: word[1..][i..] == word[i + 1..];
      FirstWord(word[1..], rest);
    }
  }

  lemma TakeWord(word: bytes, rest: bytes)
    requires Solid(word) && Ends(rest)
    ensures NextWord(word + rest) == (Some(word), rest)
  {
    FirstWord(word, rest);
    SolidHead(word, rest);
    assert (word + rest)[..|word|] == word && (word + rest)[|word|..] == rest;
  }

  lemma SkipBlank(word: bytes, rest: bytes)
    requires Solid(word) && Ends(rest)
    ensures NextWord([32] + (word + rest)) == (Some(word), rest)
  {
    assert ([32] + (word + rest))[1..] == word + rest;
    SolidHead(word, rest);
    TakeWord(word, rest);
  }

  lemma {:induction false} NoFeedHere(p: bytes, rest: bytes)
    requires LF !in p
    ensures LineEnd(p + rest) == |p| + LineEnd(rest)
  {
    if |p| == 0 {
      assert p + rest == rest;
    } else {
      assert (p + rest)[1..] == p[1..] + rest;
      NoFeedHere(p[1..], rest);
    }
  }

  lemma SolidHasNoFeed(s: bytes)
    requires Solid(s)
    ensures LF !in s
  {
    forall i | 0 <= i < |s| ensures s[i] != LF { assert WhiteWidth(s[i..]) == 0; }
  }

  /** The first line has the same beginning, and what follows the target in it. */
  lemma LineOfRequest(p: bytes, after: bytes) returns (rest: bytes)
    requires |p| > 0 && LF !in p && p[|p| - 1] != CR && Ends(after)
    ensures FirstLine(p + after) == p + rest && Ends(rest)
  {
    NoFeedHere(p, after);
    var a := after[..LineEnd(after)];
    assert (p + after)[..|p| + LineEnd(after)] == p + a;
    if LineEnd(after) == |after| {
      rest := after;
    } else if |a| > 0 && a[|a| - 1] == CR {
      rest := a[..|a| - 1];
      assert (p + a)[..|p + a| - 1] == p + rest;
    } else {
      rest := a;
    }
  }

  /** Method, path and query are what the request line says. */
  lemma RequestParts(raw: bytes, verb: bytes, path: bytes, query: Option<bytes>, after: bytes)
    requires RequestLine(raw, verb, path, query, after)
    ensures Method(raw) == verb && Path(raw) == path
    ensures Query(raw) == if query.Some? then query.value else []
  {
    var t := TargetText(path, query);
    SolidHasNoFeed(verb);
    SolidHasNoFeed(t);
    SolidHead(t, []);
    var p := verb + ([32] + t);
    assert raw == p + after;
    var rest := LineOfRequest(p, after);
    assert p + rest == verb + ([32] + (t + rest));
    TakeWord(verb, [32] + (t + rest));
    SkipBlank(t, rest);
    PathAndQuery(path, query);
  }

  lemma PathAndQuery(path: bytes, query: Option<bytes>)
    requires QUESTION !in path
    ensures SplitFirst(TargetText(path, query), QUESTION) == (path, if query.Some? then query.value else [])
  {
    if query.Some? { SplitFirstAt(path, QUESTION, query.value); } else { NoQuestion(path); }
  }

  lemma {:induction false} NoQuestion(s: bytes)
    requires QUESTION !in s
    ensures SplitFirst(s, QUESTION) == (s, [])
  {
    if |s| > 0 {
      NoQuestion(s[1..]);
      assert [s[0]] + s[1..] == s;
    }
  }

  predicate Occurs(sub: bytes, s: bytes) { exists i | 0 <= i <= |s| :: sub <= s[i..] }

  lemma {:induction false} ContainsIff(s: bytes, sub: bytes)
    ensures Contains(s, sub) <==> Occurs(sub, s)
  {
    assert s[0..] == s;
    if |s| > 0 {
      ContainsIff(s[1..], sub);
      assert forall i | 0 <= i < |s| :: s[1..][i..] == s[i + 1..];
      if i :| 0 <= i <= |s| && sub <= s[i..] {
        if i > 0 { assert sub <= s[1..][i - 1..]; }
      }
    }
  }

  /** The first blank line starts at `i`. */
  predicate BlankLineAt(raw: bytes, i: nat) { i + 4 <= |raw| && raw[i..i + 4] == [CR, LF, CR, LF] }

  /** The body is what follows the first blank line; without one there is none. */
  lemma {:induction false} BodyIff(raw: bytes, i: nat)
    requires forall j: nat | j < i :: !BlankLineAt(raw, j)
    ensures BlankLineAt(raw, i) ==> Body(raw) == Some(raw[i + 4..])
    ensures (forall j: nat :: !BlankLineAt(raw, j)) ==> Body(raw) == None
    decreases |raw|
  {
    if |raw| >= 4 {
      var rest := raw[1..];
      assert raw[..4] == raw[0..4];
      forall j: nat ensures BlankLineAt(rest, j) <==> BlankLineAt(raw, j + 1) {
        if j + 4 <= |rest| { assert rest[j..j + 4] == raw[j + 1..j + 5]; }
      }
      if !BlankLineAt(raw, 0) {
        BodyIff(rest, if i > 0 then i - 1 else 0);
      }
    }
  }

  /** What counts as activity, read off the request line: anything but a `/state` or `/events` request whose query,
      if any, has no `active=1` in it. */
  lemma RefreshesIff(raw: bytes, verb: bytes, path: bytes, query: Option<bytes>, after: bytes)
    requires RequestLine(raw, verb, path, query, after)
    ensures Refreshes(raw) <==>
              || (path != Ascii("/state") && path != Ascii("/events"))
              || (query.Some? && Occurs(Ascii("active=1"), query.value))
  {
    RequestParts(raw, verb, path, query, after);
    ActiveIff(query);
  }

  lemma ActiveIff(query: Option<bytes>)
    ensures Contains(if query.Some? then query.value else [], Ascii("active=1"))
            <==> query.Some? && Occurs(Ascii("active=1"), query.value)
  {
    if query.Some? { ContainsIff(query.value, Ascii("active=1")); }
  }

  // ---------------------------------------------------------------- cookies

  const COOKIE_NAME: bytes := Ascii("jzf_session")

  function Lower(b: byte): byte { if 65 <= b <= 90 then b + 32 else b }

  /** `line[..7].eq_ignore_ascii_case("cookie:")` */
  predicate IsCookieLine(line: bytes) {
    var p := Ascii("cookie:");
    |line| >= |p| && forall i | 0 <= i < |p| :: Lower(line[i]) == p[i]
  }

  /** Any mixture of cases. */
  lemma CookieLineIff(line: bytes)
    ensures IsCookieLine(line) <==>
              |line| >= 7 && forall i | 0 <= i < 7 :: line[i] == Ascii("cookie:")[i] || line[i] == Ascii("COOKIE:")[i]
  {
    var l, u := Ascii("cookie:"), Ascii("COOKIE:");
    forall i, b: byte | 0 <= i < 7 ensures Lower(b) == l[i] <==> b == l[i] || b == u[i] { LetterIff(i, b); }
  }

  lemma LetterIff(i: nat, b: byte)
    requires i < 7
    ensures Lower(b) == Ascii("cookie:")[i] <==> b == Ascii("cookie:")[i] || b == Ascii("COOKIE:")[i]
  {
    assert i == 0 || i == 1 || i == 2 || i == 3 || i == 4 || i == 5 || i == 6;
  }

  /** One `name = value` item, trimmed. */
  function CookieValue(item: bytes, name: bytes): Option<bytes> {
    AfterName(Trim(item), name)
  }

  function AfterName(c: bytes, name: bytes): Option<bytes> {
    if !(name <= c) then None
    else
      var rest := TrimStart(c[|name|..]);
      if |rest| > 0 && rest[0] == EQUALS then Some(Trim(rest[1..])) else None
  }

  lemma {:induction false} SkipWhite(w: bytes, t: bytes)
    requires White(w) && WhiteWidth(t) == 0
    ensures TrimStart(w + t) == t
  {
    if |w| == 0 {
      assert w + t == t;
    } else {
      var k := WhiteWidth(w);
      Halves(w, k);
      SameWhite(w[..k], w[k..], w[k..] + t);
      assert w + t == w[..k] + (w[k..] + t);
      assert (w + t)[k..] == w[k..] + t;
      SkipWhite(w[k..], t);
    }
  }

  lemma SameWhite(c: bytes, rest: bytes, t: bytes)
    requires |c| > 0 && WhiteWidth(c + rest) == |c|
    ensures WhiteWidth(c + t) == |c|
  {
    assert forall i | 0 <= i < |c| :: (c + t)[i] == (c + rest)[i];
  }

  /** The name, white space, an equals sign, and a value with white space around it. */
  ghost predicate IsNamed(c: bytes, name: bytes, v: bytes) {
    exists w, rest :: c == name + (w + ([EQUALS] + rest)) && White(w) && v == Trim(rest)
  }

  lemma CookieValueIff(item: bytes, name: bytes, v: bytes)
    ensures CookieValue(item, name) == Some(v) <==> IsNamed(Trim(item), name, v)
  {
    AfterNameIff(Trim(item), name, v);
  }

  lemma AfterNameIff(c: bytes, name: bytes, v: bytes)
    ensures AfterName(c, name) == Some(v) <==> IsNamed(c, name, v)
  {
    if AfterName(c, name) == Some(v) { NamedIf(c, name, v); }
    if IsNamed(c, name, v) {
      var w, rest :| c == name + (w + ([EQUALS] + rest)) && White(w) && v == Trim(rest);
      NamedReads(name, w, rest);
    }
  }

  lemma NamedReads(name: bytes, w: bytes, rest: bytes)
    requires White(w)
    ensures AfterName(name + (w + ([EQUALS] + rest)), name) == Some(Trim(rest))
  {
    var c := name + (w + ([EQUALS] + rest));
    assert name <= c && c[|name|..] == w + ([EQUALS] + rest);
    SignStays(rest);
    SkipWhite(w, [EQUALS] + rest);
  }

  lemma NamedIf(c: bytes, name: bytes, v: bytes)
    requires AfterName(c, name) == Some(v)
    ensures IsNamed(c, name, v)
  {
    var after := c[|name|..];
    var w := TrimStartIs(after);
    var t := TrimStart(after);
    assert t == [EQUALS] + t[1..];
    assert c == name + after;
    Witnessed(c, name, w, t[1..], v);
  }

  lemma Witnessed(c: bytes, name: bytes, w: bytes, rest: bytes, v: bytes)
    requires c == name + (w + ([EQUALS] + rest)) && White(w) && v == Trim(rest)
    ensures IsNamed(c, name, v)
  {
  }

  /** The first item of the list with that name. */
  function FindCookie(items: seq<bytes>, name: bytes): Option<bytes> {
    if |items| == 0 then None
    else if CookieValue(items[0], name).Some? then CookieValue(items[0], name)
    else FindCookie(items[1..], name)
  }

  function LineCookie(line: bytes, name: bytes): Option<bytes> {
    if IsCookieLine(line) then FindCookie(Split(Trim(line[7..]), SEMICOLON), name) else None
  }

  /** The first cookie of that name over all lines. */
  function Cookie(raw: bytes, name: bytes): Option<bytes>
    decreases |raw|
  {
    if |raw| == 0 then None
    else if LineCookie(FirstLine(raw), name).Some? then LineCookie(FirstLine(raw), name)
    else Cookie(AfterLine(raw), name)
  }

  /** `line[..7]` is taken at a character boundary; otherwise the firmware panics. */
  predicate Sliceable(line: bytes) { |line| <= 7 || !Tail(line[7]) }

  /** Every line looked at, up to the one with the cookie, can be sliced: header and body lines alike. */
  predicate ScanSafe(raw: bytes, name: bytes)
    decreases |raw|
  {
    |raw| == 0
    || (Sliceable(FirstLine(raw)) && (LineCookie(FirstLine(raw), name).Some? || ScanSafe(AfterLine(raw), name)))
  }

  /** `extract_cookie`; slicing a line inside a character panics. */
  method ExtractCookie(raw: bytes, name: bytes) returns (r: Option<bytes>, panicked: bool)
    ensures panicked <==> !ScanSafe(raw, name)
    ensures !panicked ==> r == Cookie(raw, name)
  {
    var rest := raw;
    r := None;
    while |rest| > 0
      invariant Cookie(raw, name) == Cookie(rest, name) && (ScanSafe(raw, name) <==> ScanSafe(rest, name))
      invariant r == None
    {
      var line := FirstLine(rest);
      if !Sliceable(line) { return None, true; }
      r := ExtractFromLine(line, name);
      if r.Some? { return r, false; }
      rest := AfterLine(rest);
    }
    panicked := false;
  }

  /** The loop body, for a line that can be sliced. */
  method ExtractFromLine(line: bytes, name: bytes) returns (r: Option<bytes>)
    ensures r == LineCookie(line, name)
  {
    if !IsCookieLine(line) { return None; }
    var items := Split(Trim(line[7..]), SEMICOLON);
    var i := 0;
    while i < |items|
      invariant 0 <= i <= |items|
      invariant FindCookie(items, name) == FindCookie(items[i..], name)
    {
      var c := CookieValue(items[i], name);
      if c.Some? { return c; }
      assert items[i..][1..] == items[i + 1..];
      i := i + 1;
    }
    assert items[i..] == [];
    r := None;
  }

  /** A slice is safe iff no character straddles the seventh byte, that is, iff both parts are texts. */
  lemma SliceableIff(line: bytes)
    requires Utf8(line) && |line| >= 7
    ensures Sliceable(line) <==> Utf8(line[..7]) && Utf8(line[7..])
  {
    Boundary(line, 7);
  }

  lemma {:induction false} AsciiScanSafe(raw: bytes, name: bytes)
    requires AllAscii(raw)
    ensures ScanSafe(raw, name)
    decreases |raw|
  {
    if |raw| > 0 { AsciiScanSafe(AfterLine(raw), name); }
  }

  /** Complete lines, none of them a cookie header. */
  ghost predicate NoCookieLines(head: bytes) {
    |head| == 0
    || (LineEnd(head) < |head| && !IsCookieLine(FirstLine(head)) && NoCookieLines(AfterLine(head)))
  }

  /** What a browser may send as one cookie: printable, no blanks, no separator (RFC 6265, section 4.2.1). */
  predicate CookiePair(item: bytes) { |item| > 0 && Graphic(item) && SEMICOLON !in item }

  /** All cookies of a host in one list. */
  function Listed(items: seq<bytes>): bytes
    requires |items| > 0
  {
    if |items| == 1 then items[0] else items[0] + [SEMICOLON] + ([32] + Listed(items[1..]))
  }

  function CookieHeader(items: seq<bytes>): bytes
    requires |items| > 0
  {
    Ascii("Cookie:") + ([32] + Listed(items))
  }

  /** The cookie `complete_login` set, as sent back. */
  function CookieItem(value: bytes): bytes { COOKIE_NAME + [EQUALS] + value }

  lemma {:induction false} FirstLineFeed(a: bytes, rest: bytes)
    requires LF !in a
    ensures LineEnd(a + [LF] + rest) == |a|
  {
    var s := a + [LF] + rest;
    if |a| > 0 {
      assert s[1..] == a[1..] + [LF] + rest;
      FirstLineFeed(a[1..], rest);
    }
  }

  lemma LineSplits(a: bytes, rest: bytes)
    requires LF !in a
    ensures FirstLine(a + [LF] + rest) == StripCr(a) && AfterLine(a + [LF] + rest) == rest
  {
    var s := a + [LF] + rest;
    FirstLineFeed(a, rest);
    assert s[..|a|] == a && s[|a| + 1..] == rest;
  }

  /** The first line of complete lines does not depend on what follows them. */
  lemma LineOfHead(head: bytes, rest: bytes)
    requires LineEnd(head) < |head|
    ensures FirstLine(head + rest) == FirstLine(head) && AfterLine(head + rest) == AfterLine(head) + rest
  {
    var k := LineEnd(head);
    LineEndOfHead(head, rest);
    CutOfHead(head, rest, k);
    CutOfHead(head, rest, k + 1);
  }

  lemma CutOfHead<T>(head: seq<T>, rest: seq<T>, k: nat)
    requires k <= |head|
    ensures (head + rest)[..k] == head[..k] && (head + rest)[k..] == head[k..] + rest
  {
  }

  lemma {:induction false} LineEndOfHead(head: bytes, rest: bytes)
    requires LineEnd(head) < |head|
    ensures LineEnd(head + rest) == LineEnd(head)
  {
    if head[0] != LF {
      assert (head + rest)[1..] == head[1..] + rest;
      LineEndOfHead(head[1..], rest);
    }
  }

  lemma {:induction false} CookieAfterHead(head: bytes, rest: bytes, name: bytes)
    requires NoCookieLines(head)
    ensures Cookie(head + rest, name) == Cookie(rest, name)
    decreases |head|
  {
    if |head| == 0 {
      assert head + rest == rest;
    } else {
      LineOfHead(head, rest);
      CookieAfterHead(AfterLine(head), rest, name);
    }
  }

  lemma CookiePrefix(rest: bytes)
    ensures IsCookieLine(Ascii("Cookie:") + rest) && (Ascii("Cookie:") + rest)[7..] == rest
  {
    var cap := Ascii("Cookie:");
    assert forall i | 0 <= i < 7 :: Lower(cap[i]) == Ascii("cookie:")[i];
    assert forall i | 0 <= i < 7 :: (cap + rest)[i] == cap[i];
  }

  lemma NameIsGraphic()
    ensures Graphic(COOKIE_NAME) && SEMICOLON !in COOKIE_NAME && LF !in COOKIE_NAME && |COOKIE_NAME| == 11
  {
  }

  lemma ItemValue(value: bytes)
    requires Graphic(value)
    ensures CookieValue(CookieItem(value), COOKIE_NAME) == Some(value)
  {
    NameIsGraphic();
    TrimGraphic(CookieItem(value));
    TrimGraphic(value);
    NamedValue(COOKIE_NAME, value);
  }

  lemma NamedValue(name: bytes, value: bytes)
    ensures AfterName(name + [EQUALS] + value, name) == Some(Trim(value))
  {
    var c := name + [EQUALS] + value;
    assert name <= c && c[|name|..] == [EQUALS] + value;
    SignStays(value);
  }

  lemma SignStays(value: bytes)
    ensures TrimStart([EQUALS] + value) == [EQUALS] + value && ([EQUALS] + value)[1..] == value
  {
    assert WhiteWidth([EQUALS] + value) == 0;
  }

  lemma TrimBlank(s: bytes)
    requires |s| > 0 && Trim(s) == s && WhiteWidth(s) == 0
    ensures Trim([32] + s) == s
  {
    assert ([32] + s)[1..] == s;
  }

  /** Text between two printable ASCII characters has nothing to trim. */
  lemma TrimEnds(s: bytes)
    requires |s| > 0 && 33 <= s[0] <= 126 && 33 <= s[|s| - 1] <= 126
    ensures Trim(s) == s && WhiteWidth(s) == 0
  {
    assert WhiteWidth(s) == 0;
    assert WhiteTail(s) == 0;
  }

  lemma {:induction false} ListedEnds(items: seq<bytes>)
    requires |items| > 0 && forall i | 0 <= i < |items| :: CookiePair(items[i])
    ensures var s := Listed(items);
            |s| > 0 && 33 <= s[0] <= 126 && 33 <= s[|s| - 1] <= 126 && LF !in s
  {
    assert CookiePair(items[0]);
    assert Graphic(items[0]) ==> LF !in items[0];
    if |items| > 1 { ListedEnds(items[1..]); }
  }

  /** The list split at its separators: all items but the first with a leading blank. */
  function Pieces(lead: bytes, items: seq<bytes>): (ps: seq<bytes>)
    requires |items| > 0
    ensures |ps| == |items|
    ensures ps[0] == lead + items[0] && forall i | 0 < i < |ps| :: ps[i] == [32] + items[i]
    decreases |items|
  {
    [lead + items[0]] + if |items| == 1 then [] else Pieces([32], items[1..])
  }

  lemma {:induction false} SplitListed(lead: bytes, items: seq<bytes>)
    requires |items| > 0 && forall i | 0 <= i < |items| :: SEMICOLON !in items[i]
    requires SEMICOLON !in lead
    ensures Split(lead + Listed(items), SEMICOLON) == Pieces(lead, items)
    decreases |items|
  {
    var first := lead + items[0];
    if |items| == 1 {
      SplitSingle(first, SEMICOLON);
    } else {
      var rest := [32] + Listed(items[1..]);
      assert lead + Listed(items) == first + [SEMICOLON] + rest;
      SplitPrefix(first, SEMICOLON, rest);
      SplitListed([32], items[1..]);
    }
  }

  lemma FindStep(ps: seq<bytes>, i: nat, name: bytes)
    requires i < |ps|
    ensures FindCookie(ps[i..], name)
            == if CookieValue(ps[i], name).Some? then CookieValue(ps[i], name) else FindCookie(ps[i + 1..], name)
  {
    assert ps[i..][1..] == ps[i + 1..];
  }

  /** The first cookie of the name is found. */
  lemma {:induction false} FindFrom(ps: seq<bytes>, i: nat, n: nat, name: bytes, v: bytes)
    requires i <= n < |ps| && CookieValue(ps[n], name) == Some(v)
    requires forall j {:trigger ps[j]} | 0 <= j < n :: CookieValue(ps[j], name).None?
    ensures FindCookie(ps[i..], name) == Some(v)
    decreases n - i
  {
    FindStep(ps, i, name);
    if i < n { FindFrom(ps, i + 1, n, name, v); }
  }

  lemma LeadingBlank(lead: bytes, item: bytes, name: bytes)
    requires CookiePair(item) && (lead == [] || lead == [32])
    ensures CookieValue(lead + item, name) == CookieValue(item, name) && SEMICOLON !in lead + item
  {
    TrimGraphic(item);
    TrimEnds(item);
    TrimBlank(item);
    assert lead == [] ==> lead + item == item;
  }

  lemma PieceValue(items: seq<bytes>, i: nat, name: bytes)
    requires i < |items| && CookiePair(items[i])
    ensures CookieValue(Pieces([], items)[i], name) == CookieValue(items[i], name)
  {
    LeadingBlank(if i == 0 then [] else [32], items[i], name);
  }

  lemma FindListed(items: seq<bytes>, n: nat, name: bytes, v: bytes)
    requires n < |items| && forall i | 0 <= i < |items| :: CookiePair(items[i])
    requires CookieValue(items[n], name) == Some(v)
    requires forall i {:trigger items[i]} | 0 <= i < n :: CookieValue(items[i], name).None?
    ensures FindCookie(Pieces([], items), name) == Some(v)
  {
    var ps := Pieces([], items);
    forall i | 0 <= i < n ensures CookieValue(ps[i], name).None? {
      PieceValue(items, i, name);
      assert CookieValue(items[i], name).None?;
    }
    PieceValue(items, n, name);
    FindFrom(ps, 0, n, name, v);
    assert ps[0..] == ps;
  }

  lemma SplitList(items: seq<bytes>)
    requires |items| > 0 && forall i | 0 <= i < |items| :: CookiePair(items[i])
    ensures Split(Listed(items), SEMICOLON) == Pieces([], items)
  {
    assert forall i | 0 <= i < |items| :: CookiePair(items[i]) ==> SEMICOLON !in items[i];
    SplitListed([], items);
    assert [] + Listed(items) == Listed(items);
  }

  /** Whatever cookies of other names come before and after it, the header carries the printed token. */
  lemma HeaderCarriesToken(items: seq<bytes>, n: nat, token: nat)
    requires n < |items| && forall i | 0 <= i < |items| :: CookiePair(items[i])
    requires items[n] == CookieItem(Print(token))
    requires forall i | 0 <= i < n :: CookieValue(items[i], COOKIE_NAME).None?
    ensures LineCookie(CookieHeader(items), COOKIE_NAME) == Some(Print(token))
  {
    PrintGraphic(token);
    ItemValue(Print(token));
    FindListed(items, n, COOKIE_NAME, Print(token));
    SplitList(items);
    ListedEnds(items);
    TrimEnds(Listed(items));
    TrimBlank(Listed(items));
    CookiePrefix([32] + Listed(items));
  }

  lemma TokenIsCookiePair(token: nat)
    ensures CookiePair(CookieItem(Print(token)))
  {
    NameIsGraphic();
    PrintGraphic(token);
    assert Digits(Print(token));
  }

  lemma HeaderIsOneLine(items: seq<bytes>)
    requires |items| > 0 && forall i | 0 <= i < |items| :: CookiePair(items[i])
    ensures LF !in CookieHeader(items) && |CookieHeader(items)| > 0
  {
    ListedEnds(items);
    assert LF !in Ascii("Cookie:");
  }

  /** Round trip through a whole request: whatever the other header lines are, as long as none before it is a
      cookie header, and whatever other cookies the browser sends in the same line, as long as none before it
      has the session cookie's name, the printed token is extracted and parses back to the token. */
  lemma CookieRoundTrip(head: bytes, items: seq<bytes>, n: nat, token: nat, tail: bytes)
    requires NoCookieLines(head) && token <= U64_MAX
    requires n < |items| && items[n] == CookieItem(Print(token))
    requires forall i | 0 <= i < |items| && i != n :: CookiePair(items[i])
    requires forall i | 0 <= i < n :: CookieValue(items[i], COOKIE_NAME).None?
    ensures CookieNumber(head + (CookieHeader(items) + [CR] + [LF] + tail)) == Some(token)
  {
    TokenIsCookiePair(token);
    var line := CookieHeader(items);
    HeaderIsOneLine(items);
    HeaderCarriesToken(items, n, token);
    CookieInLine(line, tail);
    CookieAfterHead(head, line + [CR] + [LF] + tail, COOKIE_NAME);
    ParsePrint(token, U64_MAX);
  }

  lemma CookieInLine(line: bytes, tail: bytes)
    requires LF !in line && |line| > 0 && LineCookie(line, COOKIE_NAME).Some?
    ensures Cookie(line + [CR] + [LF] + tail, COOKIE_NAME) == LineCookie(line, COOKIE_NAME)
  {
    LineSplits(line + [CR], tail);
    assert StripCr(line + [CR]) == line;
  }

  // ---------------------------------------------------------------- the login form

  datatype Login = Login(user: Option<bytes>, pass: Option<bytes>)

  const FIELD_MAX: nat := 64

  function Ok'(r: Result<bytes, FormError>): Option<bytes> { if r.Ok? then Some(r.value) else None }

  /** The last pair of each name decides, even when it does not decode. */
  function LoginFields(pairs: seq<bytes>): Login {
    if |pairs| == 0 then Login(None, None)
    else
      var n := |pairs| - 1;
      var l := LoginFields(pairs[..n]);
      var kv := SplitFirst(pairs[n], EQUALS);
      if kv.0 == Ascii("user") then l.(user := Ok'(FormDecode(kv.1, FIELD_MAX)))
      else if kv.0 == Ascii("pass") then l.(pass := Ok'(FormDecode(kv.1, FIELD_MAX)))
      else l
  }

  /** `parse_login_form` */
  method ParseLoginForm(body: bytes) returns (user: Option<bytes>, pass: Option<bytes>)
    ensures Login(user, pass) == LoginFields(Split(body, AMP))
    ensures user.Some? ==> |user.value| <= Auth.SUBMITTED_MAX
    ensures pass.Some? ==> |pass.value| <= Auth.SUBMITTED_MAX
  {
    user, pass := None, None;
    var pairs := Split(body, AMP);
    var i := 0;
    while i < |pairs|
      invariant 0 <= i <= |pairs|
      invariant Login(user, pass) == LoginFields(pairs[..i])
      invariant user.Some? ==> |user.value| <= FIELD_MAX
      invariant pass.Some? ==> |pass.value| <= FIELD_MAX
    {
      var kv := SplitFirst(pairs[i], EQUALS);
      if kv.0 == Ascii("user") {
        var d := FormUrlDecode(kv.1, FIELD_MAX);
        user := Ok'(d);
      } else if kv.0 == Ascii("pass") {
        var d := FormUrlDecode(kv.1, FIELD_MAX);
        pass := Ok'(d);
      }
      assert pairs[..i + 1][..i] == pairs[..i];
      i := i + 1;
    }
    assert pairs[..i] == pairs;
  }

  /** `login_credentials_match` */
  predicate CredentialsMatch(raw: bytes, expected: bytes) {
    var b := Body(raw);
    b.Some?
    && var l := LoginFields(Split(b.value, AMP));
       l.user.Some? && l.pass.Some? && Auth.Token(l.user.value, l.pass.value) == expected
  }

  method LoginCredentialsMatch(raw: bytes, expected: bytes) returns (ok: bool)
    ensures ok == CredentialsMatch(raw, expected)
  {
    var b := Body(raw);
    if b.None? { return false; }
    var user, pass := ParseLoginForm(b.value);
    if user.None? || pass.None? { return false; }
    var submitted := Auth.BasicToken(user.value, pass.value);
    ok := submitted == expected;
  }

  lemma {:induction false} LoginFieldsFit(pairs: seq<bytes>)
    ensures var l := LoginFields(pairs);
            && (l.user.Some? ==> |l.user.value| <= FIELD_MAX) && (l.pass.Some? ==> |l.pass.value| <= FIELD_MAX)
  {
    if |pairs| > 0 { LoginFieldsFit(pairs[..|pairs| - 1]); }
  }

  /** Who gets in: exactly the requests whose body has both fields and whose joined bytes are those of the stored
      pair. With colon-free user names these are the stored user and password, or a password that the token
      builder drops. */
  lemma WhoMatches(raw: bytes, cu: bytes, cp: bytes)
    requires |cu| <= Auth.STORED_MAX && |cp| <= Auth.STORED_MAX
    ensures CredentialsMatch(raw, Auth.Token(cu, cp)) ==> Body(raw).Some?
    ensures Body(raw).Some? ==>
              var l := LoginFields(Split(Body(raw).value, AMP));
              && (CredentialsMatch(raw, Auth.Token(cu, cp)) <==>
                    l.user.Some? && l.pass.Some? && Auth.Raw(l.user.value, l.pass.value) == cu + [Auth.COLON] + cp)
              && (Auth.COLON !in cu && (l.user.Some? ==> Auth.COLON !in l.user.value) ==>
                    (CredentialsMatch(raw, Auth.Token(cu, cp)) <==>
                       && l.user == Some(cu) && l.pass.Some?
                       && (l.pass.value == cp || Auth.PasswordDropped(cu, l.pass.value, cp))))
  {
    if Body(raw).Some? {
      var pairs := Split(Body(raw).value, AMP);
      LoginFieldsFit(pairs);
      var l := LoginFields(pairs);
      if l.user.Some? && l.pass.Some? {
        Auth.TokensCompareRaw(l.user.value, l.pass.value, cu, cp);
        if Auth.COLON !in cu && Auth.COLON !in l.user.value {
          Auth.LoginComparison(l.user.value, l.pass.value, cu, cp);
        }
      }
    }
  }

  const USER: bytes := Ascii("user")
  const PASS: bytes := Ascii("pass")

  /** What a browser sends for the login form. */
  function LoginSubmission(u: bytes, p: bytes): bytes {
    Join([USER + [EQUALS] + UrlEncode(u), PASS + [EQUALS] + UrlEncode(p)], AMP)
  }

  lemma NamesDiffer()
    ensures EQUALS !in USER && EQUALS !in PASS && AMP !in USER && AMP !in PASS && USER != PASS
  {
    assert USER[0] != PASS[0];
  }

  /** A browser's login form is read as the two texts typed into it. */
  lemma BrowserLogin(u: bytes, p: bytes)
    requires NulFree(u) && Utf8(u) && |u| <= FIELD_MAX && NulFree(p) && Utf8(p) && |p| <= FIELD_MAX
    ensures LoginFields(Split(LoginSubmission(u, p), AMP)) == Login(Some(u), Some(p))
  {
    NamesDiffer();
    var a, b := USER + [EQUALS] + UrlEncode(u), PASS + [EQUALS] + UrlEncode(p);
    EncodeIsPlain(u);
    EncodeIsPlain(p);
    SplitJoin([a, b], AMP);
    DecodeEncode(u, FIELD_MAX);
    DecodeEncode(p, FIELD_MAX);
    SplitFirstAt(USER, EQUALS, UrlEncode(u));
    SplitFirstAt(PASS, EQUALS, UrlEncode(p));
    TwoPairs(a, b, u, p);
  }

  lemma TwoPairs(a: bytes, b: bytes, u: bytes, p: bytes)
    requires SplitFirst(a, EQUALS).0 == USER && FormDecode(SplitFirst(a, EQUALS).1, FIELD_MAX) == Ok(u)
    requires SplitFirst(b, EQUALS).0 == PASS && FormDecode(SplitFirst(b, EQUALS).1, FIELD_MAX) == Ok(p)
    ensures LoginFields([a, b]) == Login(Some(u), Some(p))
  {
    NamesDiffer();
    var one := [a, b][..1];
    assert one == [a] && one[..0] == [];
    assert LoginFields(one) == Login(Some(u), None);
  }

  /** And the stored pair, typed into it, always gets in: whatever the head of the request is, up to the first
      blank line. */
  lemma StoredPairMatches(head: bytes, cu: bytes, cp: bytes)
    requires NulFree(cu) && Utf8(cu) && |cu| <= Auth.STORED_MAX && NulFree(cp) && Utf8(cp) && |cp| <= Auth.STORED_MAX
    requires var raw := head + ([CR, LF, CR, LF] + LoginSubmission(cu, cp)); forall j: nat | j < |head| :: !BlankLineAt(raw, j)
    ensures CredentialsMatch(head + ([CR, LF, CR, LF] + LoginSubmission(cu, cp)), Auth.Token(cu, cp))
  {
    BodyAfter(head, LoginSubmission(cu, cp));
    BrowserLogin(cu, cp);
  }

  lemma BodyAfter(head: bytes, body: bytes)
    requires var raw := head + ([CR, LF, CR, LF] + body); forall j: nat | j < |head| :: !BlankLineAt(raw, j)
    ensures Body(head + ([CR, LF, CR, LF] + body)) == Some(body)
  {
    var raw := head + ([CR, LF, CR, LF] + body);
    assert raw[|head|..|head| + 4] == [CR, LF, CR, LF] && raw[|head| + 4..] == body;
    BodyIff(raw, |head|);
  }

  /** The key and the decoding of a pair of the login form. */
  predicate Gives(pair: bytes, key: bytes, v: bytes) {
    SplitFirst(pair, EQUALS).0 == key && FormDecode(SplitFirst(pair, EQUALS).1, FIELD_MAX) == Ok(v)
  }

  /** Pair i gives the field the text, and no later pair has its key. */
  predicate Decides(pairs: seq<bytes>, i: nat, key: bytes, v: bytes)
    requires i < |pairs|
  {
    Gives(pairs[i], key, v) && forall j | i < j < |pairs| :: SplitFirst(pairs[j], EQUALS).0 != key
  }

  ghost predicate Decided(pairs: seq<bytes>, key: bytes, v: bytes) { exists i | 0 <= i < |pairs| :: Decides(pairs, i, key, v) }

  /** A field is the text of the last pair with its key, and missing if that does not decode or there is none. */
  lemma {:induction false} LoginFieldsIff(pairs: seq<bytes>, v: bytes)
    ensures LoginFields(pairs).user == Some(v) <==> Decided(pairs, USER, v)
    ensures LoginFields(pairs).pass == Some(v) <==> Decided(pairs, PASS, v)
  {
    NamesDiffer();
    if |pairs| > 0 {
      LoginFieldsIff(pairs[..|pairs| - 1], v);
      LastPair(pairs, USER, v);
      LastPair(pairs, PASS, v);
    }
  }

  lemma LastPair(pairs: seq<bytes>, key: bytes, v: bytes)
    requires |pairs| > 0
    ensures var n := |pairs| - 1;
            Decided(pairs, key, v) <==>
              if SplitFirst(pairs[n], EQUALS).0 == key then Gives(pairs[n], key, v) else Decided(pairs[..n], key, v)
  {
    var n := |pairs| - 1;
    assert Decides(pairs, n, key, v) <==> Gives(pairs[n], key, v);
    forall i | 0 <= i < n
      ensures Decides(pairs, i, key, v) <==> SplitFirst(pairs[n], EQUALS).0 != key && Decides(pairs[..n], i, key, v)
    {
      EarlierPair(pairs, i, key, v);
    }
  }

  lemma EarlierPair(pairs: seq<bytes>, i: nat, key: bytes, v: bytes)
    requires i < |pairs| - 1
    ensures var n := |pairs| - 1;
            Decides(pairs, i, key, v) <==> SplitFirst(pairs[n], EQUALS).0 != key && Decides(pairs[..n], i, key, v)
  {
    assert forall j | 0 <= j < |pairs| - 1 :: pairs[..|pairs| - 1][j] == pairs[j];
  }

  // ---------------------------------------------------------------- what decides a request

  datatype Post = LoginPost | LogoutPost | Other

  /** All a request contributes to the session: the number in its session cookie, the route that touches the
      session, whether it counts as activity, whether its form carries the credentials, whether its lines can be
      searched for a cookie, and whether it asks for the event stream. */
  datatype View = View(cookie: Option<nat>, post: Post, refreshes: bool, matches: bool, sliceable: bool, events: bool)

  function PostOf(raw: bytes): Post { RouteOf(Method(raw), Path(raw)) }

  function RouteOf(verb: bytes, path: bytes): Post {
    if verb == Ascii("POST") && path == Ascii("/login") then LoginPost
    else if verb == Ascii("POST") && path == Ascii("/logout") then LogoutPost
    else Other
  }

  predicate IsLogin(verb: bytes, path: bytes) { verb == Ascii("POST") && path == Ascii("/login") }

  predicate IsLogout(verb: bytes, path: bytes) { verb == Ascii("POST") && path == Ascii("/logout") }

  lemma RouteOfIff(verb: bytes, path: bytes)
    ensures RouteOf(verb, path).LoginPost? <==> IsLogin(verb, path)
    ensures RouteOf(verb, path).LogoutPost? <==> IsLogout(verb, path)
  {
    assert |Ascii("/login")| == 6 && |Ascii("/logout")| == 7;
  }

  /** The two routes that touch the session, read off the request line. */
  lemma PostIff(raw: bytes, verb: bytes, path: bytes, query: Option<bytes>, after: bytes)
    requires RequestLine(raw, verb, path, query, after)
    ensures PostOf(raw).LoginPost? <==> IsLogin(verb, path)
    ensures PostOf(raw).LogoutPost? <==> IsLogout(verb, path)
  {
    RequestParts(raw, verb, path, query, after);
    RouteOfIff(verb, path);
  }

  function CookieNumber(raw: bytes): Option<nat> {
    var c := Cookie(raw, COOKIE_NAME);
    if c.Some? then ParseUInt(c.value, U64_MAX) else None
  }

  function ViewOf(raw: bytes, expected: bytes): View {
    View(CookieNumber(raw), PostOf(raw), Refreshes(raw), CredentialsMatch(raw, expected),
         ScanSafe(raw, COOKIE_NAME), Path(raw) == Ascii("/events"))
  }

  /** A request line with a two-byte character across its seventh byte. */
  const ODD: bytes := Ascii("GET /a") + [0xC3, 0xA9]

  lemma OddView(expected: bytes)
    ensures var v := ViewOf(ODD, expected); !v.sliceable && v.post == Other && !v.events
  {
    OddWords();
    OddRoute();
    OddLine();
  }

  lemma OddRoute()
    requires Method(ODD) == Ascii("GET") && Path(ODD) == [47, 97, 0xC3, 0xA9]
    ensures PostOf(ODD) == Other && Path(ODD) != Ascii("/events")
  {
    assert Ascii("GET")[0] != Ascii("POST")[0] && Ascii("/events")[1] != ('a' as int);
  }

  lemma OddLine()
    ensures !ScanSafe(ODD, COOKIE_NAME)
  {
    assert LF !in ODD;
    NoFeedHere(ODD, []);
    assert ODD + [] == ODD && FirstLine(ODD) == ODD && !Sliceable(ODD);
  }

  lemma OddWords()
    ensures Method(ODD) == Ascii("GET") && Path(ODD) == [47, 97, 0xC3, 0xA9]
  {
    var m: bytes, t: bytes := [71, 69, 84], [47, 97, 0xC3, 0xA9];
    assert Solid(m) && Solid(t);
    assert ODD == m + ([32] + (t + []));
    RequestParts(ODD, m, t, None, []);
    assert Ascii("GET") == m;
  }
}
