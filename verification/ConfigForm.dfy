/** The dashboard's configuration form: what the page writes into it (`send_page`), what the browser
    sends back, and how `parse_form` merges it into the running configuration (src/web.rs). */
module ConfigForm {
  import opened Bytes
  import opened Decimal
  import opened WebForm
  import opened Config

  const EQUALS: byte := '=' as int
  const VALUE_MAX: nat := 64

  datatype Field = Ip | Prefix | Gw | Broker | Port | Id | MUser | MPass | WUser | WPass

  function Name(f: Field): bytes {
    match f
    case Ip => Ascii("ip")
    case Prefix => Ascii("prefix")
    case Gw => Ascii("gw")
    case Broker => Ascii("broker")
    case Port => Ascii("port")
    case Id => Ascii("id")
    case MUser => Ascii("muser")
    case MPass => Ascii("mpass")
    case WUser => Ascii("wuser")
    case WPass => Ascii("wpass")
  }

  /** The `match key` arms of `parse_form`; an unknown key selects none. */
  function FieldOf(key: bytes): Option<Field> {
    if key == Ascii("ip") then Some(Ip)
    else if key == Ascii("prefix") then Some(Prefix)
    else if key == Ascii("gw") then Some(Gw)
    else if key == Ascii("broker") then Some(Broker)
    else if key == Ascii("port") then Some(Port)
    else if key == Ascii("id") then Some(Id)
    else if key == Ascii("muser") then Some(MUser)
    else if key == Ascii("mpass") then Some(MPass)
    else if key == Ascii("wuser") then Some(WUser)
    else if key == Ascii("wpass") then Some(WPass)
    else None
  }

  /** Names differ in length or, at equal length, in the letter at which they are told apart. */
  lemma FieldOfName(f: Field)
    ensures FieldOf(Name(f)) == Some(f)
  {
    assert Ascii("ip")[1] == 'p' as int && Ascii("gw")[1] == 'w' as int && Ascii("id")[1] == 'd' as int;
    assert Ascii("ip")[0] == 'i' as int && Ascii("gw")[0] == 'g' as int && Ascii("id")[0] == 'i' as int;
    assert Ascii("prefix")[0] == 'p' as int && Ascii("broker")[0] == 'b' as int;
    assert Ascii("muser")[0] == 'm' as int && Ascii("muser")[1] == 'u' as int;
    assert Ascii("mpass")[0] == 'm' as int && Ascii("mpass")[1] == 'p' as int;
    assert Ascii("wuser")[0] == 'w' as int && Ascii("wuser")[1] == 'u' as int;
    assert Ascii("wpass")[0] == 'w' as int && Ascii("wpass")[1] == 'p' as int;
  }

  // ---------------------------------------------------------------- what a submission means

  datatype Value = Address(a: Ipv4) | Number(n: nat) | Text(s: bytes)

  /** One pair of a submission: a value for a field, nothing (unknown key), or an error. */
  datatype Entry = Change(field: Field, value: Value) | Ignored | Bad

  /** The value a text has in a field, if it has one. */
  function ValueOf(f: Field, v: bytes): Option<Value> {
    match f
    case Ip => AddressIn(v)
    case Gw => AddressIn(v)
    case Broker => AddressIn(v)
    case Prefix =>
      var n := ParseUInt(v, U8_MAX);
      if n.Some? && 1 <= n.value <= 32 then Some(Number(n.value)) else None
    case Port =>
      var n := ParsePort(v);
      if n.Some? then Some(Number(n.value)) else None
    case Id => TextIn(v, ID_MAX)
    case _ => TextIn(v, CRED_MAX)
  }

  function AddressIn(v: bytes): Option<Value> {
    var a := Quad(v);
    if a.Some? then Some(Address(a.value)) else None
  }

  function TextIn(v: bytes, max: nat): Option<Value> { if |v| <= max then Some(Text(v)) else None }

  function ReadPair(pair: bytes): Entry {
    var kv := SplitFirst(pair, EQUALS);
    ReadValue(FieldOf(Trim(kv.0)), FormDecode(Trim(kv.1), VALUE_MAX))
  }

  function ReadValue(key: Option<Field>, val: Result<bytes, FormError>): Entry {
    if val.Err? then Bad
    else if key.None? then Ignored
    else
      var x := ValueOf(key.value, val.value);
      if x.Some? then Change(key.value, x.value) else Bad
  }

  function Entries(body: bytes): seq<Entry> {
    var pairs := Split(body, AMP);
    seq(|pairs|, i requires 0 <= i < |pairs| => ReadPair(pairs[i]))
  }

  predicate AllOk(es: seq<Entry>) { forall i | 0 <= i < |es| :: !es[i].Bad? }

  predicate Names(e: Entry, f: Field) { e.Change? && e.field == f }

  /** The value of the last entry that names the field. */
  function Last(es: seq<Entry>, f: Field): Option<Value>
  {
    if |es| == 0 then None
    else
      var n := |es| - 1;
      if Names(es[n], f) then Some(es[n].value) else Last(es[..n], f)
  }

  predicate GivesLast(es: seq<Entry>, f: Field, x: Value, i: nat)
    requires i < |es|
  {
    es[i] == Change(f, x) && forall j | i < j < |es| :: !Names(es[j], f)
  }

  /** Which value that is: some entry gives it, and no later entry names the field. */
  lemma {:induction false} LastIsLast(es: seq<Entry>, f: Field, x: Value)
    ensures Last(es, f) == Some(x) <==> exists i | 0 <= i < |es| :: GivesLast(es, f, x, i)
  {
    if |es| > 0 {
      var n := |es| - 1;
      var init := es[..n];
      LastIsLast(init, f, x);
      assert forall i | 0 <= i < n :: GivesLast(es, f, x, i) <==> GivesLast(init, f, x, i) && !Names(es[n], f);
      assert GivesLast(es, f, x, n) <==> es[n] == Change(f, x);
    }
  }

  function AddressOr(x: Option<Value>, kept: Ipv4): Ipv4 {
    if x.Some? && x.value.Address? then x.value.a else kept
  }

  function NumberOr(x: Option<Value>, kept: nat): nat { if x.Some? && x.value.Number? then x.value.n else kept }

  function TextOr(x: Option<Value>, kept: bytes): bytes { if x.Some? && x.value.Text? then x.value.s else kept }

  /** An empty password means "keep the stored one". */
  function SecretOr(x: Option<Value>, stored: bytes): bytes {
    if x.Some? && x.value.Text? && |x.value.s| > 0 then x.value.s else stored
  }

  function ByteOr(x: Option<Value>, kept: byte): byte {
    if NumberOr(x, kept) <= U8_MAX then NumberOr(x, kept) else kept
  }

  // What a pair says, read off its text.

  function KeyText(pair: bytes): bytes { Trim(SplitFirst(pair, EQUALS).0) }

  function ValueText(pair: bytes): bytes { Trim(SplitFirst(pair, EQUALS).1) }

  ghost predicate Decodes(enc: bytes, t: bytes) { Spells(enc, t) && |t| <= 64 && NulFree(t) && Utf8(t) }

  /** The text `t` gives the field with that key the value `x`. */
  ghost predicate Means(key: bytes, t: bytes, x: Value) {
    if key == Ascii("ip") || key == Ascii("gw") || key == Ascii("broker") then x.Address? && DenotesAddress(t, x.a)
    else if key == Ascii("prefix") then x.Number? && DenotesNumber(t, x.n) && 1 <= x.n <= 32
    else if key == Ascii("port") then x.Number? && DenotesNumber(Trim(t), x.n) && 1 <= x.n <= 65535
    else if key == Ascii("id") then x == Text(t) && |t| <= 24
    else x == Text(t) && |t| <= 32
  }

  predicate IsKey(key: bytes) {
    || key == Ascii("ip") || key == Ascii("prefix") || key == Ascii("gw") || key == Ascii("broker")
    || key == Ascii("port") || key == Ascii("id") || key == Ascii("muser") || key == Ascii("mpass")
    || key == Ascii("wuser") || key == Ascii("wpass")
  }

  /** The keys and their fields. */
  lemma FieldNames(key: bytes)
    ensures FieldOf(key) == Some(Ip) <==> key == Ascii("ip")
    ensures FieldOf(key) == Some(Prefix) <==> key == Ascii("prefix")
    ensures FieldOf(key) == Some(Gw) <==> key == Ascii("gw")
    ensures FieldOf(key) == Some(Broker) <==> key == Ascii("broker")
    ensures FieldOf(key) == Some(Port) <==> key == Ascii("port")
    ensures FieldOf(key) == Some(Id) <==> key == Ascii("id")
    ensures FieldOf(key) == Some(MUser) <==> key == Ascii("muser")
    ensures FieldOf(key) == Some(MPass) <==> key == Ascii("mpass")
    ensures FieldOf(key) == Some(WUser) <==> key == Ascii("wuser")
    ensures FieldOf(key) == Some(WPass) <==> key == Ascii("wpass")
    ensures FieldOf(key).Some? <==> IsKey(key)
  {
    FieldOfName(Ip); FieldOfName(Prefix); FieldOfName(Gw); FieldOfName(Broker); FieldOfName(Port);
    FieldOfName(Id); FieldOfName(MUser); FieldOfName(MPass); FieldOfName(WUser); FieldOfName(WPass);
  }

  lemma ValueMeans(f: Field, key: bytes, t: bytes, x: Value)
    requires FieldOf(key) == Some(f)
    ensures ValueOf(f, t) == Some(x) <==> Means(key, t, x)
  {
    FieldNames(key);
    match f {
      case Ip => AddressMeans(t, x);
      case Gw => AddressMeans(t, x);
      case Broker => AddressMeans(t, x);
      case Prefix => PrefixMeans(t, x);
      case Port => PortMeans(t, x);
      case _ =>
    }
  }

  lemma AddressMeans(t: bytes, x: Value)
    ensures AddressIn(t) == Some(x) <==> x.Address? && DenotesAddress(t, x.a)
  {
    if x.Address? { QuadIff(t, x.a); }
  }

  lemma PrefixMeans(t: bytes, x: Value)
    ensures ValueOf(Prefix, t) == Some(x) <==> x.Number? && DenotesNumber(t, x.n) && 1 <= x.n <= 32
  {
    if x.Number? { ParseUIntIff(t, U8_MAX, x.n); }
  }

  lemma PortMeans(t: bytes, x: Value)
    ensures ValueOf(Port, t) == Some(x) <==> x.Number? && DenotesNumber(Trim(t), x.n) && 1 <= x.n <= 65535
  {
    if x.Number? { PortIff(t, x.n); }
  }

  /** A pair is a change iff its key is a field's name and its value decodes to a text with a meaning there. */
  lemma ChangeIff(pair: bytes, f: Field, x: Value)
    ensures ReadPair(pair) == Change(f, x) <==>
              && FieldOf(KeyText(pair)) == Some(f)
              && exists t :: Decodes(ValueText(pair), t) && Means(KeyText(pair), t, x)
  {
    ReadChange(KeyText(pair), ValueText(pair), f, x);
  }

  lemma ReadChange(key: bytes, enc: bytes, f: Field, x: Value)
    ensures ReadValue(FieldOf(key), FormDecode(enc, VALUE_MAX)) == Change(f, x) <==>
              FieldOf(key) == Some(f) && exists t :: Decodes(enc, t) && Means(key, t, x)
  {
    var d := FormDecode(enc, VALUE_MAX);
    if d.Ok? && FieldOf(key) == Some(f) {
      DecodeAccepts(enc, VALUE_MAX, d.value);
      ValueMeans(f, key, d.value, x);
    }
    if t :| FieldOf(key) == Some(f) && Decodes(enc, t) && Means(key, t, x) {
      DecodeAccepts(enc, VALUE_MAX, t);
      ValueMeans(f, key, t, x);
    }
  }

  /** A pair that refuses the whole submission: its value does not decode, or its key is one of the ten names and
      the text has no meaning there. */
  ghost predicate Refused(pair: bytes) {
    forall t | Decodes(ValueText(pair), t) :: RefusesText(KeyText(pair), t)
  }

  ghost predicate AnyRefused(pairs: seq<bytes>) { exists i | 0 <= i < |pairs| :: Refused(pairs[i]) }

  lemma BadIff(pair: bytes)
    ensures ReadPair(pair).Bad? <==> Refused(pair)
  {
    ReadBad(KeyText(pair), ValueText(pair));
  }

  ghost predicate RefusesText(key: bytes, t: bytes) { IsKey(key) && forall x :: !Means(key, t, x) }

  lemma ReadBad(key: bytes, enc: bytes)
    ensures ReadValue(FieldOf(key), FormDecode(enc, VALUE_MAX)).Bad? <==>
              forall t | Decodes(enc, t) :: RefusesText(key, t)
  {
    var d := FormDecode(enc, VALUE_MAX);
    if d.Ok? {
      DecodeAccepts(enc, VALUE_MAX, d.value);
      BadText(key, d.value);
      assert Decodes(enc, d.value);
    }
    forall t | Decodes(enc, t) ensures d == Ok(t) { DecodeAccepts(enc, VALUE_MAX, t); }
  }

  lemma BadText(key: bytes, t: bytes)
    ensures ReadValue(FieldOf(key), Ok(t)).Bad? <==> RefusesText(key, t)
  {
    FieldNames(key);
    if FieldOf(key).Some? { Meaningless(FieldOf(key).value, key, t); }
  }

  lemma Meaningless(f: Field, key: bytes, t: bytes)
    requires FieldOf(key) == Some(f)
    ensures ValueOf(f, t).None? <==> forall x :: !Means(key, t, x)
  {
    if ValueOf(f, t).Some? { ValueMeans(f, key, t, ValueOf(f, t).value); }
    forall x | ValueOf(f, t).None? ensures !Means(key, t, x) { ValueMeans(f, key, t, x); }
  }

  /** Each field is what its last entry says, and stays what it was if no entry names it. */
  function Merged(es: seq<Entry>, cur: NetworkConfig): NetworkConfig {
    NetworkConfig(AddressOr(Last(es, Ip), cur.ip), ByteOr(Last(es, Prefix), cur.prefixLen),
                  AddressOr(Last(es, Gw), cur.gateway), AddressOr(Last(es, Broker), cur.brokerIp),
                  NumberOr(Last(es, Port), cur.brokerPort), TextOr(Last(es, Id), cur.clientId),
                  TextOr(Last(es, MUser), cur.mqttUser), SecretOr(Last(es, MPass), cur.mqttPass),
                  TextOr(Last(es, WUser), cur.webUser), SecretOr(Last(es, WPass), cur.webPass))
  }

  /** One bad pair, even of an unknown key, rejects the whole submission. */
  function FormResult(body: bytes, cur: NetworkConfig): Option<NetworkConfig> {
    Outcome(Entries(body), cur)
  }

  function Outcome(es: seq<Entry>, cur: NetworkConfig): Option<NetworkConfig> {
    if AllOk(es) then Some(Merged(es, cur)) else None
  }

  /** `parse_form`: copy the running configuration, then overwrite it pair by pair. */
  method ParseForm(body: bytes, current: NetworkConfig) returns (r: Option<NetworkConfig>)
    ensures r == FormResult(body, current)
    ensures r.None? <==> AnyRefused(Split(body, AMP))
  {
    RefusedIff(body, current);
    r := MergePairs(Split(body, AMP), current, Entries(body));
  }

  /** A form is refused iff one of its pairs refuses it. */
  lemma RefusedIff(body: bytes, cur: NetworkConfig)
    ensures FormResult(body, cur).None? <==> AnyRefused(Split(body, AMP))
  {
    BadSomewhere(Split(body, AMP), Entries(body));
  }

  lemma BadSomewhere(pairs: seq<bytes>, es: seq<Entry>)
    requires ReadAs(pairs, es)
    ensures !AllOk(es) <==> AnyRefused(pairs)
  {
    forall i | 0 <= i < |pairs| ensures es[i].Bad? <==> Refused(pairs[i]) {
      assert es[i] == ReadPair(pairs[i]);
      BadIff(pairs[i]);
    }
  }

  predicate ReadAs(pairs: seq<bytes>, es: seq<Entry>) {
    |es| == |pairs| && forall i {:trigger ReadPair(pairs[i])} | 0 <= i < |pairs| :: es[i] == ReadPair(pairs[i])
  }

  method MergePairs(pairs: seq<bytes>, current: NetworkConfig, ghost es: seq<Entry>) returns (r: Option<NetworkConfig>)
    requires ReadAs(pairs, es)
    ensures r == Outcome(es, current)
  {
    var cfg := current;
    var i := 0;
    while i < |pairs|
      invariant 0 <= i <= |pairs|
      invariant cfg == Merged(es[..i], current) && forall j | 0 <= j < i :: !es[j].Bad?
    {
      var next := MergePair(cfg, pairs, i, current, es);
      if next.None? { return None; }
      cfg := next.value;
      i := i + 1;
    }
    assert es[..i] == es;
    r := Some(cfg);
  }

  /** The loop body: `?` on the decoder or on a field's parser leaves the whole function. */
  method MergePair(cfg: NetworkConfig, pairs: seq<bytes>, i: nat, current: NetworkConfig, ghost es: seq<Entry>)
    returns (r: Option<NetworkConfig>)
    requires ReadAs(pairs, es) && i < |pairs| && cfg == Merged(es[..i], current)
    ensures r.None? <==> es[i].Bad?
    ensures r.Some? ==> r.value == Merged(es[..i + 1], current)
  {
    assert es[i] == ReadPair(pairs[i]);
    var key, decoded := ReadKeyValue(pairs[i], es[i]);
    if decoded.Err? { return None; }
    r := SetField(cfg, key, decoded.value, current, es[i]);
    MergeNext(es, i, current);
  }

  lemma MergeNext(es: seq<Entry>, i: nat, cur: NetworkConfig)
    requires i < |es|
    ensures Merged(es[..i + 1], cur) == Assign(Merged(es[..i], cur), es[i], cur)
  {
    assert es[..i + 1] == es[..i] + [es[i]];
    MergeOne(es[..i], es[i], cur);
  }

  method ReadKeyValue(pair: bytes, ghost e: Entry) returns (key: Option<Field>, val: Result<bytes, FormError>)
    requires e == ReadPair(pair)
    ensures e == ReadValue(key, val)
  {
    var kv := SplitFirst(pair, EQUALS);
    key := FieldOf(Trim(kv.0));
    val := FormUrlDecode(Trim(kv.1), VALUE_MAX);
  }

  /** The body of the `match key`. */
  method SetField(cfg: NetworkConfig, key: Option<Field>, val: bytes, current: NetworkConfig, ghost e: Entry)
    returns (r: Option<NetworkConfig>)
    requires e == ReadValue(key, Ok(val))
    ensures r.None? <==> e.Bad?
    ensures r.Some? ==> r.value == Assign(cfg, e, current)
  {
    if key.None? { return Some(cfg); }
    match key.value {
      case Ip =>
        var a := ParseIpv4(val);
        return if a.Some? then Some(cfg.(ip := a.value)) else None;
      case Prefix =>
        var p := ParseUInt(val, U8_MAX);
        return if p.Some? && 1 <= p.value <= 32 then Some(cfg.(prefixLen := p.value)) else None;
      case Gw =>
        var a := ParseIpv4(val);
        return if a.Some? then Some(cfg.(gateway := a.value)) else None;
      case Broker =>
        var a := ParseIpv4(val);
        return if a.Some? then Some(cfg.(brokerIp := a.value)) else None;
      case Port =>
        var p := ParsePort(val);
        return if p.Some? then Some(cfg.(brokerPort := p.value)) else None;
      case Id => return if |val| <= ID_MAX then Some(cfg.(clientId := val)) else None;
      case MUser => return if |val| <= CRED_MAX then Some(cfg.(mqttUser := val)) else None;
      case WUser => return if |val| <= CRED_MAX then Some(cfg.(webUser := val)) else None;
      case MPass =>
        var s := SecretFromForm(current.mqttPass, val, CRED_MAX);
        return if s.Ok? then Some(cfg.(mqttPass := s.value)) else None;
      case WPass =>
        var s := SecretFromForm(current.webPass, val, CRED_MAX);
        return if s.Ok? then Some(cfg.(webPass := s.value)) else None;
    }
  }

  /** What one entry does to the configuration under construction. */
  function Assign(cfg: NetworkConfig, e: Entry, current: NetworkConfig): NetworkConfig {
    if !e.Change? then cfg else
      var x := Some(e.value);
      match e.field
      case Ip => cfg.(ip := AddressOr(x, current.ip))
      case Prefix => cfg.(prefixLen := ByteOr(x, current.prefixLen))
      case Gw => cfg.(gateway := AddressOr(x, current.gateway))
      case Broker => cfg.(brokerIp := AddressOr(x, current.brokerIp))
      case Port => cfg.(brokerPort := NumberOr(x, current.brokerPort))
      case Id => cfg.(clientId := TextOr(x, current.clientId))
      case MUser => cfg.(mqttUser := TextOr(x, current.mqttUser))
      case WUser => cfg.(webUser := TextOr(x, current.webUser))
      case MPass => cfg.(mqttPass := SecretOr(x, current.mqttPass))
      case WPass => cfg.(webPass := SecretOr(x, current.webPass))
  }

  /** An entry at the end assigns its field and no other. */
  lemma MergeOne(es: seq<Entry>, e: Entry, cur: NetworkConfig)
    ensures Merged(es + [e], cur) == Assign(Merged(es, cur), e, cur)
  {
    LastAppend(es, e, Ip); LastAppend(es, e, Prefix); LastAppend(es, e, Gw); LastAppend(es, e, Broker);
    LastAppend(es, e, Port); LastAppend(es, e, Id); LastAppend(es, e, MUser); LastAppend(es, e, MPass);
    LastAppend(es, e, WUser); LastAppend(es, e, WPass);
  }

  lemma LastAppend(es: seq<Entry>, e: Entry, f: Field)
    ensures Last(es + [e], f) == if Names(e, f) then Some(e.value) else Last(es, f)
  {
    assert (es + [e])[..|es|] == es;
  }

  /** The values a field may get. */
  predicate InRange(f: Field, x: Value) {
    match f
    case Ip => x.Address?
    case Gw => x.Address?
    case Broker => x.Address?
    case Prefix => x.Number? && 1 <= x.n <= 32
    case Port => x.Number? && 1 <= x.n <= U16_MAX
    case Id => x.Text? && FitsText(x.s, ID_MAX) && NulFree(x.s)
    case _ => x.Text? && FitsText(x.s, CRED_MAX) && NulFree(x.s)
  }

  lemma ReadInRange(pair: bytes)
    ensures ReadPair(pair).Change? ==> InRange(ReadPair(pair).field, ReadPair(pair).value)
  {
    var kv := SplitFirst(pair, EQUALS);
    DecodedIsText(Trim(kv.1), VALUE_MAX);
    ReadValueInRange(FieldOf(Trim(kv.0)), FormDecode(Trim(kv.1), VALUE_MAX));
  }

  lemma DecodedIsText(s: bytes, n: nat)
    ensures FormDecode(s, n).Ok? ==> Utf8(FormDecode(s, n).value) && NulFree(FormDecode(s, n).value)
  {
  }

  lemma ReadValueInRange(key: Option<Field>, val: Result<bytes, FormError>)
    requires val.Ok? ==> Utf8(val.value) && NulFree(val.value)
    ensures var e := ReadValue(key, val); e.Change? ==> InRange(e.field, e.value)
  {
    if key.Some? && val.Ok? { ValueInRange(key.value, val.value); }
  }

  lemma ValueInRange(f: Field, v: bytes)
    requires Utf8(v) && NulFree(v)
    ensures ValueOf(f, v).Some? ==> InRange(f, ValueOf(f, v).value)
  {
  }

  lemma {:induction false} LastInRange(es: seq<Entry>, f: Field)
    requires forall i | 0 <= i < |es| :: es[i].Change? ==> InRange(es[i].field, es[i].value)
    ensures Last(es, f).Some? ==> InRange(f, Last(es, f).value)
  {
    if |es| > 0 { LastInRange(es[..|es| - 1], f); }
  }

  /** Valid configurations stay Valid through any submission. */
  lemma FormKeepsValid(body: bytes, cur: NetworkConfig)
    requires Valid(cur)
    ensures FormResult(body, cur).Some? ==> Valid(FormResult(body, cur).value)
  {
    var es := Entries(body);
    forall i | 0 <= i < |es| ensures es[i].Change? ==> InRange(es[i].field, es[i].value) {
      ReadInRange(Split(body, AMP)[i]);
    }
    MergedIsValid(es, cur);
  }

  lemma MergedIsValid(es: seq<Entry>, cur: NetworkConfig)
    requires Valid(cur)
    requires forall i | 0 <= i < |es| :: es[i].Change? ==> InRange(es[i].field, es[i].value)
    ensures Valid(Merged(es, cur))
  {
    LastInRange(es, Prefix); LastInRange(es, Port); LastInRange(es, Id);
    LastInRange(es, MUser); LastInRange(es, MPass); LastInRange(es, WUser); LastInRange(es, WPass);
  }

  // ---------------------------------------------------------------- the page and the browser

  /** What `write_attr` writes for a stored text: its escaped form, or nothing if that overflows. */
  function Attr(s: bytes): bytes { if |Escape(s)| <= 256 then Escape(s) else [] }

  /** The texts of the ten inputs, in page order. */
  datatype Inputs = Inputs(ip: bytes, prefix: bytes, gw: bytes, broker: bytes, port: bytes,
                           id: bytes, muser: bytes, mpass: bytes, wuser: bytes, wpass: bytes)

  function Input(v: Inputs, f: Field): bytes {
    match f
    case Ip => v.ip
    case Prefix => v.prefix
    case Gw => v.gw
    case Broker => v.broker
    case Port => v.port
    case Id => v.id
    case MUser => v.muser
    case MPass => v.mpass
    case WUser => v.wuser
    case WPass => v.wpass
  }

  /** The `value` attributes `send_page` writes; passwords are never rendered. */
  function Page(c: NetworkConfig): Inputs {
    Inputs(Dotted(c.ip), Print(c.prefixLen), Dotted(c.gateway), Dotted(c.brokerIp), Print(c.brokerPort),
           Attr(c.clientId), Attr(c.mqttUser), [], Attr(c.webUser), [])
  }

  /** The value of a single-line input: the attribute's text without its line breaks. */
  function Shown(attr: bytes): bytes { StripBreaks(Unescape(attr)) }

  /** What the browser submits for the page, with the passwords as typed by the user. */
  function Entered(p: Inputs, mpass: bytes, wpass: bytes): Inputs {
    Inputs(Shown(p.ip), Shown(p.prefix), Shown(p.gw), Shown(p.broker), Shown(p.port),
           Shown(p.id), Shown(p.muser), mpass, Shown(p.wuser), wpass)
  }

  /** The configuration with the line breaks taken out of its three rendered texts. */
  function OneLine(c: NetworkConfig): NetworkConfig {
    c.(clientId := StripBreaks(c.clientId), mqttUser := StripBreaks(c.mqttUser), webUser := StripBreaks(c.webUser))
  }

  const FORM: seq<Field> := [Ip, Prefix, Gw, Broker, Port, Id, MUser, MPass, WUser, WPass]

  function Pair(f: Field, v: bytes): bytes { Name(f) + [EQUALS] + UrlEncode(v) }

  function Pairs(v: Inputs): seq<bytes> {
    seq(|FORM|, i requires 0 <= i < |FORM| => Pair(FORM[i], Input(v, FORM[i])))
  }

  /** The request body of a form submission. */
  function Submission(v: Inputs): bytes { Join(Pairs(v), AMP) }

  lemma {:induction false} UnescapePlain(s: bytes)
    requires AMP !in s
    ensures Unescape(s) == s
  {
    if |s| > 0 {
      UnescapePlain(s[1..]);
      assert s[0] != AMP;
      assert [s[0]] + s[1..] == s;
    }
  }

  lemma NameIsPlain(f: Field)
    ensures Graphic(Name(f)) && EQUALS !in Name(f) && AMP !in Name(f)
  {
  }

  /** A pair written by the browser is read back as the field and value it was written for. */
  lemma PairReadsBack(f: Field, v: bytes)
    requires Submittable(v)
    ensures AMP !in Pair(f, v)
    ensures ReadPair(Pair(f, v)) == ReadValue(Some(f), Ok(v))
  {
    NameIsPlain(f);
    EncodeIsPlain(v);
    SplitFirstAt(Name(f), EQUALS, UrlEncode(v));
    TrimGraphic(Name(f));
    TrimGraphic(UrlEncode(v));
    FieldOfName(f);
    DecodeEncode(v, VALUE_MAX);
  }

  lemma QuadReadsBack(a: Ipv4)
    ensures var v := Dotted(a); Shown(v) == v && NulFree(v) && Utf8(v) && |v| <= 32 && Quad(v) == Some(a)
  {
    QuadDotted(a);
    DottedText(a);
    PrintWidths(a[0]); PrintWidths(a[1]); PrintWidths(a[2]); PrintWidths(a[3]);
    DottedPlain(a);
    UnescapePlain(Dotted(a));
    StripNothing(Dotted(a));
    AsciiIsUtf8(Dotted(a));
  }

  lemma DottedPlain(a: Ipv4)
    ensures forall i | 0 <= i < |Dotted(a)| :: Dotted(a)[i] == DOT || IsDigit(Dotted(a)[i])
  {
    DottedText(a);
    assert Digits(Print(a[0])) && Digits(Print(a[1])) && Digits(Print(a[2])) && Digits(Print(a[3]));
  }

  lemma NumberReadsBack(n: nat)
    requires n <= U16_MAX
    ensures var v := Print(n); Shown(v) == v && NulFree(v) && Utf8(v) && |v| <= 32
  {
    PrintWidths(n);
    assert Digits(Print(n));
    UnescapePlain(Print(n));
    StripNothing(Print(n));
    AsciiIsUtf8(Print(n));
  }

  lemma TextReadsBack(s: bytes, n: nat)
    requires n <= 32 && FitsText(s, n) && NulFree(s)
    ensures var v := Shown(Attr(s)); v == StripBreaks(s) && FitsText(v, n) && NulFree(v)
  {
    UnescapeEscape(s);
    StoredFieldFits(s);
    StripKeeps(s);
  }

  predicate Submittable(s: bytes) { NulFree(s) && Utf8(s) && |s| <= VALUE_MAX }

  /** Every text can be submitted and is accepted, and each denotes what `c` has in that field. */
  predicate Denotes(v: Inputs, c: NetworkConfig) {
    && Submittable(v.ip) && Submittable(v.prefix) && Submittable(v.gw) && Submittable(v.broker)
    && Submittable(v.port) && Submittable(v.id) && Submittable(v.muser) && Submittable(v.mpass)
    && Submittable(v.wuser) && Submittable(v.wpass)
    && Quad(v.ip) == Some(c.ip) && Quad(v.gw) == Some(c.gateway) && Quad(v.broker) == Some(c.brokerIp)
    && ParseUInt(v.prefix, U8_MAX) == Some(c.prefixLen as nat) && 1 <= c.prefixLen <= 32
    && ParsePort(v.port) == Some(c.brokerPort)
    && v.id == c.clientId && |v.id| <= ID_MAX
    && v.muser == c.mqttUser && |v.muser| <= CRED_MAX && v.wuser == c.webUser && |v.wuser| <= CRED_MAX
    && v.mpass == c.mqttPass && |v.mpass| <= CRED_MAX && v.wpass == c.webPass && |v.wpass| <= CRED_MAX
  }

  lemma PageDenotes(c: NetworkConfig, mpass: bytes, wpass: bytes)
    requires Valid(c)
    requires NulFree(mpass) && FitsText(mpass, CRED_MAX)
    requires NulFree(wpass) && FitsText(wpass, CRED_MAX)
    ensures Denotes(Entered(Page(c), mpass, wpass), OneLine(c).(mqttPass := mpass, webPass := wpass))
  {
    QuadReadsBack(c.ip);
    QuadReadsBack(c.gateway);
    QuadReadsBack(c.brokerIp);
    NumberReadsBack(c.prefixLen);
    ParsePrint(c.prefixLen, U8_MAX);
    NumberReadsBack(c.brokerPort);
    PortPrint(c.brokerPort);
    TextReadsBack(c.clientId, ID_MAX);
    TextReadsBack(c.mqttUser, CRED_MAX);
    TextReadsBack(c.webUser, CRED_MAX);
  }

  /** The value `c` has in a field. */
  function Has(c: NetworkConfig, f: Field): Value {
    match f
    case Ip => Address(c.ip)
    case Prefix => Number(c.prefixLen)
    case Gw => Address(c.gateway)
    case Broker => Address(c.brokerIp)
    case Port => Number(c.brokerPort)
    case Id => Text(c.clientId)
    case MUser => Text(c.mqttUser)
    case MPass => Text(c.mqttPass)
    case WUser => Text(c.webUser)
    case WPass => Text(c.webPass)
  }

  lemma DenotedValue(v: Inputs, c: NetworkConfig, f: Field)
    requires Denotes(v, c)
    ensures Submittable(Input(v, f)) && ValueOf(f, Input(v, f)) == Some(Has(c, f))
  {
    match f case Ip => case Prefix => case Gw => case Broker => case Port =>
            case Id => case MUser => case MPass => case WUser => case WPass =>
  }

  /** One entry for each input of the form, with the values of `c`. */
  predicate FromForm(es: seq<Entry>, c: NetworkConfig) {
    |es| == |FORM| && forall i | 0 <= i < |FORM| :: es[i] == Change(FORM[i], Has(c, FORM[i]))
  }

  lemma PairDenotes(v: Inputs, c: NetworkConfig, f: Field)
    requires Denotes(v, c)
    ensures AMP !in Pair(f, Input(v, f)) && ReadPair(Pair(f, Input(v, f))) == Change(f, Has(c, f))
  {
    DenotedValue(v, c, f);
    PairReadsBack(f, Input(v, f));
    assert ReadValue(Some(f), Ok(Input(v, f))) == Change(f, Has(c, f));
  }

  /** The submission reads back as the ten entries the browser wrote. */
  lemma SubmissionEntries(v: Inputs, c: NetworkConfig)
    requires Denotes(v, c)
    ensures FromForm(Entries(Submission(v)), c)
  {
    var pairs := Pairs(v);
    forall i | 0 <= i < |pairs| ensures AMP !in pairs[i] && ReadPair(pairs[i]) == Change(FORM[i], Has(c, FORM[i])) {
      PairDenotes(v, c, FORM[i]);
    }
    SplitJoin(pairs, AMP);
  }

  lemma {:induction false} LastOfDistinct(es: seq<Entry>, fs: seq<Field>, c: NetworkConfig, f: Field)
    requires |es| == |fs| && forall i | 0 <= i < |fs| :: es[i] == Change(fs[i], Has(c, fs[i]))
    ensures Last(es, f) == if f in fs then Some(Has(c, f)) else None
  {
    if |es| > 0 {
      var n := |es| - 1;
      LastOfDistinct(es[..n], fs[..n], c, f);
      assert fs == fs[..n] + [fs[n]];
    }
  }

  lemma LastInForm(es: seq<Entry>, c: NetworkConfig, f: Field)
    requires FromForm(es, c)
    ensures Last(es, f) == Some(Has(c, f))
  {
    LastOfDistinct(es, FORM, c, f);
    assert FORM[0] == Ip && FORM[1] == Prefix && FORM[2] == Gw && FORM[3] == Broker && FORM[4] == Port;
    assert FORM[5] == Id && FORM[6] == MUser && FORM[7] == MPass && FORM[8] == WUser && FORM[9] == WPass;
    assert f in FORM;
  }

  lemma MergedFromForm(es: seq<Entry>, c: NetworkConfig, cur: NetworkConfig)
    requires FromForm(es, c)
    ensures Merged(es, cur) == c.(mqttPass := SecretOr(Some(Text(c.mqttPass)), cur.mqttPass),
                                  webPass := SecretOr(Some(Text(c.webPass)), cur.webPass))
  {
    LastInForm(es, c, Ip); LastInForm(es, c, Prefix); LastInForm(es, c, Gw); LastInForm(es, c, Broker);
    LastInForm(es, c, Port); LastInForm(es, c, Id); LastInForm(es, c, MUser); LastInForm(es, c, MPass);
    LastInForm(es, c, WUser); LastInForm(es, c, WPass);
  }

  /** What an entered password does to the stored one. */
  function Kept(entered: bytes, stored: bytes): bytes { if |entered| > 0 then entered else stored }

  lemma OutcomeOfForm(es: seq<Entry>, c: NetworkConfig, cur: NetworkConfig)
    requires FromForm(es, c)
    ensures Outcome(es, cur)
            == Some(c.(mqttPass := Kept(c.mqttPass, cur.mqttPass), webPass := Kept(c.webPass, cur.webPass)))
  {
    MergedFromForm(es, c, cur);
  }

  /** Submitting texts that denote `c` makes the configuration `c` whatever it was before, except that
      an empty password keeps the running one. */
  lemma SubmissionSets(v: Inputs, c: NetworkConfig, cur: NetworkConfig)
    requires Denotes(v, c)
    ensures FormResult(Submission(v), cur)
            == Some(c.(mqttPass := Kept(c.mqttPass, cur.mqttPass), webPass := Kept(c.webPass, cur.webPass)))
  {
    SubmissionEntries(v, c);
    OutcomeOfForm(Entries(Submission(v)), c, cur);
  }

  /** The page round trip: rendered for `c`, read and encoded by the browser, decoded and merged. */
  lemma PageSubmissionSets(c: NetworkConfig, mpass: bytes, wpass: bytes, cur: NetworkConfig)
    requires Valid(c)
    requires NulFree(mpass) && FitsText(mpass, CRED_MAX)
    requires NulFree(wpass) && FitsText(wpass, CRED_MAX)
    ensures FormResult(Submission(Entered(Page(c), mpass, wpass)), cur)
            == Some(OneLine(c).(mqttPass := Kept(mpass, cur.mqttPass), webPass := Kept(wpass, cur.webPass)))
  {
    PageDenotes(c, mpass, wpass);
    SubmissionSets(Entered(Page(c), mpass, wpass), OneLine(c).(mqttPass := mpass, webPass := wpass), cur);
  }

  /** Every Valid configuration can be reached from every other by some form, if its texts have no line break and
      no stored password has to be emptied. */
  lemma RequestFor(c: NetworkConfig, cur: NetworkConfig) returns (body: bytes)
    requires Valid(c) && BreakFree(c.clientId) && BreakFree(c.mqttUser) && BreakFree(c.webUser)
    requires (c.mqttPass == [] ==> cur.mqttPass == []) && (c.webPass == [] ==> cur.webPass == [])
    ensures FormResult(body, cur) == Some(c)
  {
    body := Submission(Entered(Page(c), c.mqttPass, c.webPass));
    PageSubmissionSets(c, c.mqttPass, c.webPass, cur);
    StripNothing(c.clientId);
    StripNothing(c.mqttUser);
    StripNothing(c.webUser);
  }

  /** Saving an untouched dashboard changes nothing iff none of the three rendered texts has a line break (the
      form accepts `%0A`, but a single-line input does not show it); otherwise the breaks are lost. */
  lemma UntouchedFormIsNoOp(c: NetworkConfig)
    requires Valid(c)
    ensures FormResult(Submission(Entered(Page(c), [], [])), c) == Some(OneLine(c))
    ensures FormResult(Submission(Entered(Page(c), [], [])), c) == Some(c)
            <==> BreakFree(c.clientId) && BreakFree(c.mqttUser) && BreakFree(c.webUser)
  {
    PageSubmissionSets(c, [], [], c);
    StripKeeps(c.clientId);
    StripKeeps(c.mqttUser);
    StripKeeps(c.webUser);
  }

  /** Line breaks do get in: a submission of nothing but a client id, whatever text of at most 24 bytes it is, is
      accepted and stores that text. */
  lemma ClientIdIsStored(body: bytes, v: bytes, cur: NetworkConfig)
    requires Submittable(v) && |v| <= ID_MAX && body == Pair(Id, v)
    ensures FormResult(body, cur) == Some(cur.(clientId := v))
  {
    IdPair(v);
    IdAlone(body, v, cur);
  }

  /** For instance `id=a%0Ab`. */
  lemma BreaksGetIn(v: bytes)
    requires v == [97, 10, 98]
    ensures Submittable(v) && |v| <= ID_MAX && !BreakFree(v) && Pair(Id, v) == Ascii("id=a%0Ab")
  {
    BrokenText(v);
    EncodedAtoB(v);
  }

  lemma BrokenText(v: bytes)
    requires v == [97, 10, 98]
    ensures Submittable(v) && |v| <= ID_MAX && !BreakFree(v)
  {
    AsciiIsUtf8(v);
    assert IsBreak(v[1]);
  }

  lemma EncodedAtoB(v: bytes)
    requires v == [97, 10, 98]
    ensures UrlEncode(v) == [97, PERCENT, 48, 65, 98]
  {
    var w, x: bytes := v[1..], v[2..];
    assert w[1..] == x && x[1..] == [];
    assert UrlEncode([]) == [];
    assert UrlEncode(x) == [98];
    assert UrlEncode(w) == [PERCENT, 48, 65, 98];
  }

  lemma IdPair(v: bytes)
    requires Submittable(v) && |v| <= ID_MAX
    ensures AMP !in Pair(Id, v) && ReadPair(Pair(Id, v)) == Change(Id, Text(v))
  {
    PairReadsBack(Id, v);
    IdValue(v);
  }

  /** A submission of nothing but a client id sets it. */
  lemma IdAlone(body: bytes, v: bytes, cur: NetworkConfig)
    requires AMP !in body && ReadPair(body) == Change(Id, Text(v))
    ensures FormResult(body, cur) == Some(cur.(clientId := v))
  {
    SplitSingle(body, AMP);
    SingleEntry(Entries(body), v, cur);
  }

  lemma IdValue(v: bytes)
    requires |v| <= ID_MAX
    ensures ReadValue(Some(Id), Ok(v)) == Change(Id, Text(v))
  {
  }

  lemma SingleEntry(es: seq<Entry>, v: bytes, cur: NetworkConfig)
    requires |es| == 1 && es[0] == Change(Id, Text(v))
    ensures Outcome(es, cur) == Some(cur.(clientId := v))
  {
    assert es == [] + [es[0]];
    MergeOne([], es[0], cur);
  }
}
