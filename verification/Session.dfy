/** Login, lockout and the idle-limited session shared by the two web tasks (src/web.rs). From the
    first atomic read of a request to the last store there is no await, so each request is one atomic
    step of the run; its clock readings are non-decreasing seconds of uptime. */
module Session {
  import opened Bytes
  import opened Decimal
  import opened Token
  import opened Request
  import Auth

  const MAX_FAILS: nat := 5
  const LOCKOUT_SECS: nat := 60
  const TTL_SECS: nat := 900

  /** The five atomics. */
  datatype State = State(hi: u32, lo: u32, created: u32, fails: u32, lastFail: u32)

  const START: State := State(0, 0, 0, 0, 0)

  datatype Task = A | B

  /** What is fixed while the tasks run: whether a login is configured, the expected token, the seeds. */
  datatype Setup = Setup(required: bool, expected: bytes, seedA: u64, seedB: u64)

  function Seed(a: Setup, t: Task): u64 { if t.A? then a.seedA else a.seedB }

  /** Non-decreasing readings of the clock within one request, below 2^32 seconds: in `validate_session`,
      in `handle_login`, for the minted token, and for the stamp stored with a login or a failure. */
  datatype Readings = Readings(check: nat, login: nat, mint: nat, stamp: nat)

  type Clock = c: Readings | c.check <= c.login <= c.mint <= c.stamp < 0x1_0000_0000 witness Readings(0, 0, 0, 0)

  datatype Event = Event(task: Task, req: View, clk: Clock)

  datatype Outcome =
    | Open                 // no login configured
    | Served(loggedOut: bool)
    | LoggedIn(token: u64)
    | LockedOut
    | Rejected
    | Challenged           // 401 without a credential check
    | Panicked             // a slice inside a character; the board resets and the run is over

  /** What `validate_session` comes to. */
  datatype Check = Passed | Refused | Panics

  function SessionToken(s: State): u64 { Rejoin(s.hi, s.lo) }

  predicate Expired(s: State, now: nat) { now > s.created + TTL_SECS }

  predicate Locked(s: State, now: nat) { s.fails >= MAX_FAILS && now < s.lastFail + LOCKOUT_SECS }

  function ClearToken(s: State): State { s.(hi := 0, lo := 0) }

  function Cleared(s: State): State { s.(hi := 0, lo := 0, created := 0) }

  /** `validate_session`; it looks at the request only while there is a session. */
  function Validate(s: State, req: View, now: u32): (State, Check)
  {
    if SessionToken(s) == 0 then (s, Refused)
    else if !req.sliceable then (s, Panics)
    else if req.cookie != Some(SessionToken(s)) then (s, Refused)
    else if Expired(s, now) then (ClearToken(s), Refused)
    else (if req.refreshes then s.(created := now) else s, Passed)
  }

  /** `handle_login` */
  function TryLogin(s: State, a: Setup, e: Event): (State, Outcome)
  {
    if Locked(s, e.clk.login) then (s, LockedOut)
    else if e.req.matches then
      var token := Mint(WrappingAdd(Seed(a, e.task), e.clk.mint));
      (State(Hi(token), Lo(token), e.clk.stamp, 0, s.lastFail), LoggedIn(token))
    else
      var fails := if s.fails >= MAX_FAILS then 0 else s.fails;
      (s.(fails := fails + 1, lastFail := e.clk.stamp), Rejected)
  }

  /** One request, from `authenticate_request` through the routes that touch the session. */
  function Handle(s: State, a: Setup, e: Event): (State, Outcome)
  {
    if !a.required then (if e.req.post.LogoutPost? then Cleared(s) else s, Open)
    else
      var (v, check) := Validate(s, e.req, e.clk.check);
      if check.Panics? then (v, Panicked)
      else if check.Passed? then (if e.req.post.LogoutPost? then Cleared(v) else v, Served(e.req.post.LogoutPost?))
      else if e.req.post.LoginPost? then TryLogin(v, a, e)
      else (v, if e.req.events || e.req.sliceable then Challenged else Panicked)
  }

  // ---------------------------------------------------------------- the firmware

  class WebAuth {
    const setup: Setup
    var tokenHi: u32
    var tokenLo: u32
    var created: u32
    var failCount: u32
    var failLast: u32

    ghost function Abs(): State
      reads this
    {
      State(tokenHi, tokenLo, created, failCount, failLast)
    }

    constructor (setup: Setup)
      ensures Abs() == START && this.setup == setup
    {
      this.setup := setup;
      tokenHi, tokenLo, created, failCount, failLast := 0, 0, 0, 0, 0;
    }

    method ValidateSession(raw: bytes, refresh: bool, now: u32) returns (r: Check)
      modifies this
      ensures forall req: View | req.cookie == CookieNumber(raw) && req.refreshes == refresh
                                 && req.sliceable == ScanSafe(raw, COOKIE_NAME) ::
                (Abs(), r) == Validate(old(Abs()), req, now)
    {
      var token := Rejoin(tokenHi, tokenLo);
      if token == 0 { return Refused; }
      var cookie, panicked := ExtractCookie(raw, COOKIE_NAME);
      if panicked { return Panics; }
      if cookie.None? { return Refused; }
      var parsed := ParseUInt(cookie.value, U64_MAX);
      if parsed.None? || parsed.value != token { return Refused; }
      var idle := if now >= created then now - created else 0;
      if idle > TTL_SECS {
        tokenHi := 0;
        tokenLo := 0;
        return Refused;
      }
      if refresh { created := now; }
      r := Passed;
    }

    method HandleLogin(task: Task, raw: bytes, clk: Clock) returns (r: Outcome)
      modifies this
      ensures forall req: View | req.matches == CredentialsMatch(raw, setup.expected) ::
                (Abs(), r) == TryLogin(old(Abs()), setup, Event(task, req, clk))
    {
      var since := if clk.login >= failLast then clk.login - failLast else 0;
      if failCount >= MAX_FAILS && since < LOCKOUT_SECS { return LockedOut; }
      if failCount >= MAX_FAILS { failCount := 0; }
      var matches := LoginCredentialsMatch(raw, setup.expected);
      if matches { r := CompleteLogin(Seed(setup, task), clk); } else { r := RejectLogin(clk); }
    }

    method CompleteLogin(seed: u64, clk: Clock) returns (r: Outcome)
      modifies this
      ensures var t := Mint(WrappingAdd(seed, clk.mint));
              r == LoggedIn(t) && Abs() == State(Hi(t), Lo(t), clk.stamp, 0, old(failLast))
    {
      failCount := 0;
      var newToken := Mint(WrappingAdd(seed, clk.mint));
      tokenHi := newToken / M32 % M32;
      tokenLo := newToken % M32;
      created := clk.stamp;
      r := LoggedIn(newToken);
    }

    method RejectLogin(clk: Clock) returns (r: Outcome)
      requires failCount < MAX_FAILS
      modifies this
      ensures r == Rejected && Abs() == old(Abs()).(fails := old(failCount) + 1, lastFail := clk.stamp)
    {
      failCount := failCount + 1;
      failLast := clk.stamp;
      r := Rejected;
    }

    method LogOut()
      modifies this
      ensures Abs() == Cleared(old(Abs()))
    {
      tokenHi := 0;
      tokenLo := 0;
      created := 0;
    }

    /** The rest of `handle_unauthenticated`: a bare 401 for the event stream, otherwise `show_login_form`, which
        looks for a stale cookie to expire. */
    method Challenge(raw: bytes) returns (r: Outcome)
      ensures r == if Path(raw) == Ascii("/events") || ScanSafe(raw, COOKIE_NAME) then Challenged else Panicked
    {
      if Path(raw) == Ascii("/events") { return Challenged; }
      var stale, panicked := ExtractCookie(raw, COOKIE_NAME);
      r := if panicked then Panicked else Challenged;
    }

    /** `serve_connection`, as far as the session goes. */
    method ServeRequest(task: Task, raw: bytes, clk: Clock) returns (r: Outcome)
      modifies this
      ensures (Abs(), r) == Handle(old(Abs()), setup, Event(task, ViewOf(raw, setup.expected), clk))
    {
      var route := PostOf(raw);
      if setup.required {
        var check := ValidateSession(raw, Refreshes(raw), clk.check);
        if check.Panics? { return Panicked; }
        if check.Refused? {
          if route.LoginPost? { r := HandleLogin(task, raw, clk); } else { r := Challenge(raw); }
          return;
        }
        r := Served(route.LogoutPost?);
      } else {
        r := Open;
      }
      if route.LogoutPost? { LogOut(); }
    }
  }

  // ---------------------------------------------------------------- runs

  /** A request of either task that comes, on the monotone clock, after all of a run. */
  ghost predicate Follows(es: seq<Event>, e: Event) {
    forall i | 0 <= i < |es| :: es[i].clk.stamp <= e.clk.check
  }

  /** The state after a run since power-up; `fails` stays at most 5 on the way. */
  function After(a: Setup, es: seq<Event>): (s: State)
    ensures s.fails <= MAX_FAILS
  {
    if |es| == 0 then START else Handle(After(a, es[..|es| - 1]), a, es[|es| - 1]).0
  }

  /** How a request is answered after a run. */
  function Answer(a: Setup, es: seq<Event>, e: Event): Outcome { Handle(After(a, es), a, e).1 }

  function AnswerAt(a: Setup, es: seq<Event>, i: nat): Outcome
    requires i < |es|
  {
    Answer(a, es[..i], es[i])
  }

  // ---------------------------------------------------------------- lockout

  /** Number of rejected credential checks among events lo..hi. */
  function Rejections(a: Setup, es: seq<Event>, lo: nat, hi: nat): nat
    requires lo <= hi <= |es|
  {
    if lo == hi then 0
    else Rejections(a, es, lo, hi - 1) + if AnswerAt(a, es, hi - 1).Rejected? then 1 else 0
  }

  /** Lockout bound: over any stretch of any run without a successful login whose rejections fall into one
      half-open 60-second interval, at most 5 credential checks are rejected. */
  lemma LockoutBound(a: Setup, es: seq<Event>, lo: nat, hi: nat, t: nat)
    requires lo <= hi <= |es|
    requires forall i | lo <= i < hi :: !AnswerAt(a, es, i).LoggedIn?
    requires forall i | lo <= i < hi && AnswerAt(a, es, i).Rejected? :: t <= es[i].clk.stamp < t + LOCKOUT_SECS
    ensures Rejections(a, es, lo, hi) <= MAX_FAILS
  {
    RejectionsCounted(a, es, lo, hi, t);
  }

  /** Why: inside the interval every rejection is still counted in `fails`, because a reset needs 60 s of
      silence after the last one. */
  lemma {:induction false} RejectionsCounted(a: Setup, es: seq<Event>, lo: nat, hi: nat, t: nat)
    requires lo <= hi <= |es|
    requires forall i | lo <= i < hi :: !AnswerAt(a, es, i).LoggedIn?
    requires forall i | lo <= i < hi && AnswerAt(a, es, i).Rejected? :: t <= es[i].clk.stamp < t + LOCKOUT_SECS
    ensures var n, s := Rejections(a, es, lo, hi), After(a, es[..hi]);
            n > 0 ==> n <= s.fails && t <= s.lastFail
    decreases hi
  {
    if lo < hi {
      RejectionsCounted(a, es, lo, hi - 1, t);
      AfterOneMore(a, es, hi - 1);
      CountStep(After(a, es[..hi - 1]), a, es[hi - 1], Rejections(a, es, lo, hi - 1), t);
    }
  }

  lemma CountStep(s: State, a: Setup, e: Event, n: nat, t: nat)
    requires s.fails <= MAX_FAILS && (n > 0 ==> n <= s.fails && t <= s.lastFail)
    requires !Handle(s, a, e).1.LoggedIn?
    requires Handle(s, a, e).1.Rejected? ==> t <= e.clk.stamp < t + LOCKOUT_SECS
    ensures var (r, o) := Handle(s, a, e);
            var n' := n + if o.Rejected? then 1 else 0;
            n' > 0 ==> n' <= r.fails && t <= r.lastFail
  {
  }

  lemma AfterOneMore(a: Setup, es: seq<Event>, i: nat)
    requires i < |es|
    ensures After(a, es[..i + 1]) == Handle(After(a, es[..i]), a, es[i]).0
  {
    assert es[..i + 1][..i] == es[..i];
  }

  /** Time of the last rejection. */
  function LastRejection(a: Setup, es: seq<Event>): Option<nat>
  {
    if |es| == 0 then None
    else
      var n := |es| - 1;
      if Answer(a, es[..n], es[n]).Rejected? then Some(es[n].clk.stamp) else LastRejection(a, es[..n])
  }

  lemma {:induction false} LastRejectionStored(a: Setup, es: seq<Event>)
    ensures var s, r := After(a, es), LastRejection(a, es);
            (r.Some? ==> s.lastFail == r.value) && (r.None? ==> s.fails == 0)
  {
    if |es| > 0 { LastRejectionStored(a, es[..|es| - 1]); }
  }

  /** A login form from a client that holds no live session. */
  predicate LoginAttempt(a: Setup, es: seq<Event>, e: Event) {
    a.required && e.req.post.LoginPost? && Validate(After(a, es), e.req, e.clk.check).1.Refused?
  }

  /** Correct credentials get in, and wrong ones are rejected, iff the form is not locked; 60 s after the
      last rejection it never is, nor before the first one. */
  lemma LoginDecision(a: Setup, es: seq<Event>, e: Event)
    requires LoginAttempt(a, es, e)
    ensures var o, s := Answer(a, es, e), After(a, es);
            && (o.LoggedIn? <==> e.req.matches && !Locked(s, e.clk.login))
            && (o.Rejected? <==> !e.req.matches && !Locked(s, e.clk.login))
            && (o.LockedOut? <==> Locked(s, e.clk.login))
    ensures LastRejection(a, es).None? || e.clk.login >= LastRejection(a, es).value + LOCKOUT_SECS
            ==> !Locked(After(a, es), e.clk.login)
  {
    LastRejectionStored(a, es);
  }

  /** And the lock does close: after five rejections within one minute and no login in between, every
      login attempt is turned away until 60 s after the last of them. */
  lemma FiveRejectionsLock(a: Setup, es: seq<Event>, lo: nat, t: nat, e: Event)
    requires lo <= |es| && LoginAttempt(a, es, e)
    requires forall i | lo <= i < |es| :: !AnswerAt(a, es, i).LoggedIn?
    requires forall i | lo <= i < |es| && AnswerAt(a, es, i).Rejected? :: t <= es[i].clk.stamp < t + LOCKOUT_SECS
    requires Rejections(a, es, lo, |es|) == MAX_FAILS
    requires LastRejection(a, es).Some? && e.clk.login < LastRejection(a, es).value + LOCKOUT_SECS
    ensures Answer(a, es, e) == LockedOut
  {
    RejectionsCounted(a, es, lo, |es|, t);
    assert es[..|es|] == es;
    LastRejectionStored(a, es);
  }

  /** Number of rejections since the latest login, or since power-up. */
  function RejectedSinceLogin(a: Setup, es: seq<Event>): nat
  {
    if |es| == 0 then 0
    else
      var n := |es| - 1;
      match Answer(a, es[..n], es[n])
      case LoggedIn(_) => 0
      case Rejected => RejectedSinceLogin(a, es[..n]) + 1
      case _ => RejectedSinceLogin(a, es[..n])
  }

  /** The counter is the number of rejections since the latest login, of five at a time: a sixth one, which takes
      60 s of silence, begins again at one. */
  lemma {:induction false} CounterTellsRejections(a: Setup, es: seq<Event>)
    ensures var r := RejectedSinceLogin(a, es);
            After(a, es).fails == OfFive(r)
    ensures RejectedSinceLogin(a, es) > 0 ==> LastRejection(a, es).Some?
  {
    if |es| > 0 {
      var n := |es| - 1;
      CounterTellsRejections(a, es[..n]);
      FailsStep(After(a, es[..n]), a, es[n]);
      ByFives(RejectedSinceLogin(a, es[..n]));
    }
  }

  lemma FailsStep(s: State, a: Setup, e: Event)
    ensures var (t, o) := Handle(s, a, e);
            && (o.LoggedIn? ==> t.fails == 0)
            && (o.Rejected? ==> t.fails == (if s.fails >= 5 then 0 else s.fails) + 1)
            && (!o.LoggedIn? && !o.Rejected? ==> t.fails == s.fails)
  {
  }

  function OfFive(r: nat): nat { if r == 0 then 0 else (r - 1) % 5 + 1 }

  lemma ByFives(r: nat)
    ensures OfFive(r + 1) == (if OfFive(r) >= 5 then 0 else OfFive(r)) + 1
    ensures OfFive(r) >= 5 <==> r > 0 && r % 5 == 0
  {
  }

  /** When the form is locked, told from the answers alone: iff the rejections since the latest login (or
      power-up) are five, ten, fifteen ... and the last one lies less than 60 s back. */
  lemma LockedIff(a: Setup, es: seq<Event>, e: Event)
    requires LoginAttempt(a, es, e)
    ensures var r, last := RejectedSinceLogin(a, es), LastRejection(a, es);
            Answer(a, es, e) == LockedOut <==> r > 0 && r % 5 == 0 && last.Some? && e.clk.login < last.value + 60
    ensures Answer(a, es, e) == Rejected <==> !e.req.matches && Answer(a, es, e) != LockedOut
    ensures Answer(a, es, e).LoggedIn? <==> e.req.matches && Answer(a, es, e) != LockedOut
  {
    CounterTellsRejections(a, es);
    LastRejectionStored(a, es);
    ByFives(RejectedSinceLogin(a, es));
    LoginDecision(a, es, e);
  }

  /** So with fewer than five rejections since the latest login, correct credentials always get in. */
  lemma FewRejectionsDoNotLock(a: Setup, es: seq<Event>, e: Event)
    requires LoginAttempt(a, es, e) && e.req.matches && RejectedSinceLogin(a, es) < 5
    ensures Answer(a, es, e).LoggedIn? && RejectedSinceLogin(a, es + [e]) == 0
  {
    LockedIff(a, es, e);
    assert (es + [e])[..|es|] == es;
  }

  /** A locked attempt neither counts nor extends the lock. */
  lemma LockedAttemptChangesNoCounter(a: Setup, es: seq<Event>, e: Event)
    requires Answer(a, es, e).LockedOut?
    ensures var s, t := After(a, es), After(a, es + [e]);
            t.fails == s.fails && t.lastFail == s.lastFail
  {
    assert (es + [e])[..|es|] == es;
  }

  /** A client that still holds a live session cannot log in again: its login form is routed as an
      authenticated request (and answered 404), whatever credentials it carries. */
  lemma LoginWhileAuthenticated(a: Setup, es: seq<Event>, e: Event)
    requires a.required && e.req.post.LoginPost? && Validate(After(a, es), e.req, e.clk.check).1.Passed?
    ensures Answer(a, es, e) == Served(false)
    ensures SessionToken(After(a, es + [e])) == SessionToken(After(a, es))
  {
    assert (es + [e])[..|es|] == es;
  }

  // ---------------------------------------------------------------- from the text of the request

  /** A browser that has logged in and sends its cookie back, among whatever other cookies and header lines, is served
      during the next 900 s. */
  lemma LoginThenServed(a: Setup, es: seq<Event>, f: Event, e: Event,
                        raw: bytes, head: bytes, items: seq<bytes>, n: nat, tail: bytes)
    requires a.required && Follows(es + [f], e) && e.clk.check <= f.clk.stamp + 900
    requires Answer(a, es, f).LoggedIn? && Answer(a, es, f).token != 0
    requires n < |items| && raw == head + (CookieHeader(items) + [CR] + [LF] + tail) && NoCookieLines(head)
    requires items[n] == CookieItem(Print(Answer(a, es, f).token))
    requires forall i | 0 <= i < |items| && i != n :: CookiePair(items[i])
    requires forall i | 0 <= i < n :: CookieValue(items[i], COOKIE_NAME).None?
    requires e.req == ViewOf(raw, a.expected) && e.req.sliceable
    ensures Answer(a, es + [f], e).Served?
  {
    CookieRoundTrip(head, items, n, Answer(a, es, f).token, tail);
    CookieOfEvent(e, raw, a.expected);
    ServedAfterLogin(a, es, f, e);
  }

  lemma CookieOfEvent(e: Event, raw: bytes, expected: bytes)
    requires e.req == ViewOf(raw, expected)
    ensures e.req.cookie == CookieNumber(raw)
  {
  }

  lemma ServedAfterLogin(a: Setup, es: seq<Event>, f: Event, e: Event)
    requires a.required && Follows(es + [f], e) && e.clk.check <= f.clk.stamp + 900 && e.req.sliceable
    requires Answer(a, es, f).LoggedIn? && Answer(a, es, f).token != 0
    requires e.req.cookie == Some(Answer(a, es, f).token)
    ensures Answer(a, es + [f], e).Served?
  {
    StoryOneMore(a, es, f);
    AuthenticatedIff(a, es + [f], e);
  }

  /** And the stored pair, typed into the form, logs in, unless five rejections came before. */
  lemma CorrectFormLogsIn(a: Setup, es: seq<Event>, e: Event, raw: bytes, head: bytes, cu: bytes, cp: bytes)
    requires LoginAttempt(a, es, e) && RejectedSinceLogin(a, es) < 5 && a.expected == Auth.Token(cu, cp)
    requires NulFree(cu) && Utf8(cu) && |cu| <= Auth.STORED_MAX && NulFree(cp) && Utf8(cp) && |cp| <= Auth.STORED_MAX
    requires raw == head + ([CR, LF, CR, LF] + LoginSubmission(cu, cp)) && e.req == ViewOf(raw, a.expected)
    requires forall j: nat | j < |head| :: !BlankLineAt(raw, j)
    ensures Answer(a, es, e).LoggedIn?
  {
    StoredPairMatches(head, cu, cp);
    FewRejectionsDoNotLock(a, es, e);
  }

  /** The panics, from the text. */
  lemma PanicsFromText(a: Setup, es: seq<Event>, e: Event, raw: bytes,
                       verb: bytes, path: bytes, query: Option<bytes>, after: bytes)
    requires RequestLine(raw, verb, path, query, after) && e.req == ViewOf(raw, a.expected)
    ensures Answer(a, es, e).Panicked? <==>
              && a.required && !ScanSafe(raw, COOKIE_NAME)
              && (SessionToken(After(a, es)) != 0 || (!IsLogin(verb, path) && path != Ascii("/events")))
  {
    PanicFlags(e, raw, a.expected, verb, path, query, after);
    PanicsIff(a, es, e);
  }

  lemma PanicFlags(e: Event, raw: bytes, expected: bytes, verb: bytes, path: bytes, query: Option<bytes>, after: bytes)
    requires RequestLine(raw, verb, path, query, after) && e.req == ViewOf(raw, expected)
    ensures e.req.sliceable == ScanSafe(raw, COOKIE_NAME)
    ensures e.req.post.LoginPost? <==> IsLogin(verb, path)
    ensures e.req.events <==> path == Ascii("/events")
  {
    PostIff(raw, verb, path, query, after);
    RequestParts(raw, verb, path, query, after);
  }

  /** What counts as activity, read off the request line: a served request leaves the whole session as it was if it
      is for `/state` or `/events` and its query, if any, has no `active=1` in it; every other one restarts the idle
      time and changes nothing else. */
  lemma ActivityIff(a: Setup, es: seq<Event>, e: Event, raw: bytes,
                    verb: bytes, path: bytes, query: Option<bytes>, after: bytes)
    requires a.required && Answer(a, es, e) == Served(false)
    requires RequestLine(raw, verb, path, query, after) && e.req == ViewOf(raw, a.expected)
    ensures IsPoll(path) && !IsActive(query) ==> After(a, es + [e]) == After(a, es)
    ensures !IsPoll(path) || IsActive(query) ==> After(a, es + [e]) == After(a, es).(created := e.clk.check)
  {
    FlagIff(e, raw, a.expected, verb, path, query, after);
    ServedStep(a, es, e);
  }

  predicate IsPoll(path: bytes) { path == Ascii("/state") || path == Ascii("/events") }

  ghost predicate IsActive(query: Option<bytes>) { query.Some? && Occurs(Ascii("active=1"), query.value) }

  lemma FlagIff(e: Event, raw: bytes, expected: bytes, verb: bytes, path: bytes, query: Option<bytes>, after: bytes)
    requires RequestLine(raw, verb, path, query, after) && e.req == ViewOf(raw, expected)
    ensures e.req.refreshes <==> !IsPoll(path) || IsActive(query)
  {
    RefreshesIff(raw, verb, path, query, after);
  }

  lemma ServedStep(a: Setup, es: seq<Event>, e: Event)
    requires a.required && Answer(a, es, e) == Served(false)
    ensures After(a, es + [e]) == if e.req.refreshes then After(a, es).(created := e.clk.check) else After(a, es)
  {
    assert (es + [e])[..|es|] == es;
  }

  /** Which requests log in and out: a served request logs out, ending the session, iff it is POST /logout; a
      credential check or lock answers a request that is not served iff it is POST /login. */
  lemma RouteIff(a: Setup, es: seq<Event>, e: Event, raw: bytes,
                 verb: bytes, path: bytes, query: Option<bytes>, after: bytes)
    requires a.required && RequestLine(raw, verb, path, query, after) && e.req == ViewOf(raw, a.expected)
    ensures var o := Answer(a, es, e);
            && (o.Served? ==> (o == Served(true) <==> IsLogout(verb, path)))
            && (o == Served(true) ==> SessionToken(After(a, es + [e])) == 0)
            && (!o.Served? && !o.Panicked? ==>
                  (o.LoggedIn? || o.Rejected? || o.LockedOut? <==> IsLogin(verb, path)))
  {
    PostOfEvent(e, raw, a.expected, verb, path, query, after);
    RouteStep(a, es, e);
  }

  lemma PostOfEvent(e: Event, raw: bytes, expected: bytes, verb: bytes, path: bytes, query: Option<bytes>, after: bytes)
    requires RequestLine(raw, verb, path, query, after) && e.req == ViewOf(raw, expected)
    ensures e.req.post.LoginPost? <==> IsLogin(verb, path)
    ensures e.req.post.LogoutPost? <==> IsLogout(verb, path)
  {
    PostIff(raw, verb, path, query, after);
  }

  lemma RouteStep(a: Setup, es: seq<Event>, e: Event)
    requires a.required
    ensures var o := Answer(a, es, e);
            && (o.Served? ==> (o == Served(true) <==> e.req.post.LogoutPost?))
            && (o == Served(true) ==> SessionToken(After(a, es + [e])) == 0)
            && (!o.Served? && !o.Panicked? ==> (o.LoggedIn? || o.Rejected? || o.LockedOut? <==> e.req.post.LoginPost?))
  {
    assert (es + [e])[..|es|] == es;
  }

  /** A board without a configured login answers everything and never has a session. */
  lemma {:induction false} OpenBoard(a: Setup, es: seq<Event>, e: Event)
    requires !a.required
    ensures After(a, es) == START && Answer(a, es, e) == Open
  {
    if |es| > 0 { OpenBoard(a, es[..|es| - 1], es[|es| - 1]); }
  }

  /** When a request brings the firmware down: iff its lines are searched, which happens while a session exists
      and for every refused request but login forms and the event stream, and one of them cannot be sliced. */
  lemma PanicsIff(a: Setup, es: seq<Event>, e: Event)
    ensures Answer(a, es, e).Panicked? <==>
            && a.required && !e.req.sliceable
            && (SessionToken(After(a, es)) != 0 || (!e.req.post.LoginPost? && !e.req.events))
  {
  }

  /** A short request does, before anybody has logged in. */
  lemma OddRequestPanics(a: Setup, task: Task, clk: Clock)
    requires a.required
    ensures Answer(a, [], Event(task, ViewOf(ODD, a.expected), clk)) == Panicked
  {
    OddView(a.expected);
    PanicsIff(a, [], Event(task, ViewOf(ODD, a.expected), clk));
  }

  // ---------------------------------------------------------------- sessions, told by outcomes

  /** The session a viewer of the outcomes would credit: opened by the latest login, closed by a logout,
      last active at `since`. */
  datatype Story = Nobody | Session(token: u64, since: nat)

  function Next(h: Story, e: Event, o: Outcome): Story {
    match o
    case LoggedIn(t) => Session(t, e.clk.stamp)
    case Served(out) =>
      if out then Nobody
      else if h.Session? && e.req.refreshes then Session(h.token, e.clk.check)
      else h
    case _ => h
  }

  function StoryOf(a: Setup, es: seq<Event>): Story
  {
    if |es| == 0 then Nobody
    else
      var n := |es| - 1;
      Next(StoryOf(a, es[..n]), es[n], Answer(a, es[..n], es[n]))
  }

  /** Whether some request arrived when the session had been idle for too long. */
  ghost predicate SeenIdle(es: seq<Event>, since: nat) {
    exists i | 0 <= i < |es| :: es[i].clk.check > since + TTL_SECS
  }

  /** The atomics tell the same story, except that a session found idle for too long is already gone. */
  ghost predicate Tells(s: State, h: Story, es: seq<Event>) {
    match h
    case Nobody => SessionToken(s) == 0
    case Session(t, since) =>
      || (SessionToken(s) == t && s.created == since)
      || (SessionToken(s) == 0 && SeenIdle(es, since))
  }

  lemma SeenIdleGrows(es: seq<Event>, e: Event, since: nat)
    ensures SeenIdle(es + [e], since) <==> SeenIdle(es, since) || e.clk.check > since + TTL_SECS
  {
    var all := es + [e];
    assert all[|es|] == e;
    if SeenIdle(es, since) {
      var i :| 0 <= i < |es| && es[i].clk.check > since + TTL_SECS;
      assert all[i] == es[i];
    }
  }

  lemma TellsStep(a: Setup, s: State, h: Story, es: seq<Event>, e: Event)
    requires a.required && Tells(s, h, es)
    ensures Tells(Handle(s, a, e).0, Next(h, e, Handle(s, a, e).1), es + [e])
  {
    var (t, o) := Handle(s, a, e);
    if o.LoggedIn? { SplitRejoin(o.token); }
    if h.Session? { SeenIdleGrows(es, e, h.since); }
  }

  lemma {:induction false} StateTellsStory(a: Setup, es: seq<Event>)
    requires a.required
    ensures Tells(After(a, es), StoryOf(a, es), es)
  {
    if |es| > 0 {
      var n := |es| - 1;
      StateTellsStory(a, es[..n]);
      TellsStep(a, After(a, es[..n]), StoryOf(a, es[..n]), es[..n], es[n]);
      assert es[..n] + [es[n]] == es;
    }
  }

  /** Whether the story grants a request: the latest login's token, non-zero, active within 900 s. */
  predicate Granted(h: Story, e: Event) {
    e.req.sliceable && h.Session? && h.token != 0 && e.req.cookie == Some(h.token) && e.clk.check <= h.since + 900
  }

  /** Idle TTL over whole runs, exactly: a request is served as authenticated iff its cookie carries the
      token of the latest login, no logout has happened since, and the last login or session-refreshing
      request lies at most 900 s back. (Token 0, which one seed mints, never authenticates.) */
  lemma AuthenticatedIff(a: Setup, es: seq<Event>, e: Event)
    requires a.required && Follows(es, e)
    ensures Answer(a, es, e).Served? <==> Granted(StoryOf(a, es), e)
  {
    StateTellsStory(a, es);
    assert forall i | 0 <= i < |es| :: es[i].clk.check <= es[i].clk.stamp;
  }

  /** A background poll without `active=1` leaves the session as it was: it cannot extend it. */
  lemma BackgroundPollDoesNotExtend(a: Setup, es: seq<Event>, e: Event)
    requires a.required && !e.req.refreshes && Answer(a, es, e) == Served(false)
    ensures After(a, es + [e]) == After(a, es) && StoryOf(a, es + [e]) == StoryOf(a, es)
  {
    assert (es + [e])[..|es|] == es;
  }

  /** No event of `more`, taken after `es`, logs in, logs out or refreshes. */
  ghost predicate Inactive(a: Setup, es: seq<Event>, more: seq<Event>) {
    forall i | 0 <= i < |more| ::
      var o := Answer(a, es + more[..i], more[i]);
      !o.LoggedIn? && o != Served(true) && (o == Served(false) ==> !more[i].req.refreshes)
  }

  lemma InactivePrefix(a: Setup, es: seq<Event>, more: seq<Event>, n: nat)
    requires n <= |more| && Inactive(a, es, more)
    ensures Inactive(a, es, more[..n])
  {
    forall i | 0 <= i < n
      ensures var o := Answer(a, es + more[..n][..i], more[..n][i]);
              !o.LoggedIn? && o != Served(true) && (o == Served(false) ==> !more[..n][i].req.refreshes)
    {
      assert more[..n][..i] == more[..i] && more[..n][i] == more[i];
    }
  }

  lemma StoryOneMore(a: Setup, es: seq<Event>, e: Event)
    ensures StoryOf(a, es + [e]) == Next(StoryOf(a, es), e, Answer(a, es, e))
  {
    assert (es + [e])[..|es|] == es;
  }

  lemma {:induction false} StoryUnchanged(a: Setup, es: seq<Event>, more: seq<Event>)
    requires Inactive(a, es, more)
    ensures StoryOf(a, es + more) == StoryOf(a, es)
  {
    if |more| == 0 {
      assert es + more == es;
    } else {
      var n := |more| - 1;
      InactivePrefix(a, es, more, n);
      StoryUnchanged(a, es, more[..n]);
      StoryOneMore(a, es + more[..n], more[n]);
      assert es + more == es + more[..n] + [more[n]];
    }
  }

  /** Only activity counts: an abandoned page is logged out 900 s after its last activity however long and
      often it keeps polling. */
  lemma AbandonedPageExpires(a: Setup, es: seq<Event>, more: seq<Event>, e: Event)
    requires a.required && StoryOf(a, es).Session? && Inactive(a, es, more) && Follows(es + more, e)
    requires e.clk.check > StoryOf(a, es).since + TTL_SECS
    ensures !Answer(a, es + more, e).Served?
  {
    StoryUnchanged(a, es, more);
    AuthenticatedIff(a, es + more, e);
  }

  /** A new login supersedes the old one: right after it the previous cookie is dead unless the same token
      was minted again, which takes seeds that make up for the time between the logins. */
  lemma NewLoginSupersedes(a: Setup, es: seq<Event>, i: nat, f: Event, e: Event)
    requires a.required && i < |es| && Follows(es + [f], e)
    requires AnswerAt(a, es, i).LoggedIn? && Answer(a, es, f).LoggedIn?
    requires e.req.cookie == Some(AnswerAt(a, es, i).token)
    requires (Seed(a, es[i].task) + es[i].clk.mint - Seed(a, f.task) - f.clk.mint) % M64 != 0
    ensures !Answer(a, es + [f], e).Served?
  {
    assert (es + [f])[..|es|] == es;
    AuthenticatedIff(a, es + [f], e);
    MintsCollide(Seed(a, es[i].task), es[i].clk.mint, Seed(a, f.task), f.clk.mint);
  }
}
