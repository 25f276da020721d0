/** The live-state push stream (src/sse.rs): sampled at every poll, written only when it changed or when
    15 s have passed since the last write. Times are milliseconds; writes take no time. */
module Sse {
  import opened Outputs
  import Relay

  const KEEPALIVE_MS: nat := 15_000

  datatype Snapshot = Snapshot(relay: bool, led1: bool, led2: bool, link: bool, mqtt: bool)

  datatype Write = Head | Data(s: Snapshot, at: nat) | KeepAlive(at: nat)

  /** One look at the outputs and the clock: at connection, then after every poll delay. */
  datatype Poll = Poll(s: Snapshot, now: nat)

  /** `Snapshot::sample`: the pins as they are, not as they were commanded. While the relay task owns its pin
      (see Relay.PollKeepsPin) the relay shows as on exactly during a pulse. */
  method Sample(task: Relay.RelayTask, link: bool, mqtt: bool) returns (s: Snapshot)
    requires task.Wired() && Relay.PinFollows(task.Abs())
    ensures s.relay <==> task.phase.Pulsing?
    ensures s.led1 == Lit(task.outputs.inner.value, LED1) && s.led2 == Lit(task.outputs.inner.value, LED2)
    ensures s.link == link && s.mqtt == mqtt
  {
    var relay := task.outputs.GetRelay();
    var led1 := task.outputs.GetLed(LED1);
    var led2 := task.outputs.GetLed(LED2);
    s := Snapshot(relay, led1, led2, link, mqtt);
  }

  // ---------------------------------------------------------------- what the stream should be

  /** The write due at a poll, if any. */
  function Due(last: Snapshot, now: Poll, nextKeepalive: nat): seq<Write> {
    if now.s != last then [Data(now.s, now.now)] else if now.now >= nextKeepalive then [KeepAlive(now.now)] else []
  }

  /** The stream a client gets while every write succeeds. */
  function Stream(ps: seq<Poll>): (ws: seq<Write>)
    requires |ps| > 0
    ensures |ws| >= 2
  {
    var n := |ps| - 1;
    if n == 0 then [Head, Data(ps[0].s, ps[0].now)]
    else
      var ws := Stream(ps[..n]);
      ws + Due(ps[n - 1].s, ps[n], LastAt(ws, ps[0].now) + KEEPALIVE_MS)
  }

  function At(w: Write, start: nat): nat { if w.Head? then start else w.at }

  /** Time of the last write. */
  function LastAt(ws: seq<Write>, start: nat): nat
    requires |ws| > 0
  {
    At(ws[|ws| - 1], start)
  }

  // ---------------------------------------------------------------- the firmware

  /** Number of writes up to the first that fails, at most n. */
  function Delivered(fails: nat -> bool, n: nat): (k: nat)
    ensures k <= n
  {
    if n == 0 then 0
    else
      var k := Delivered(fails, n - 1);
      if k == n - 1 && !fails(n - 1) then n else k
  }

  lemma {:induction false} DeliveredStops(fails: nat -> bool, k: nat, n: nat)
    requires k < n && Delivered(fails, k) == k && fails(k)
    ensures Delivered(fails, n) == k
  {
    if k < n - 1 { DeliveredStops(fails, k, n - 1); }
  }

  /** `serve_events`: `fails(i)` says whether the i-th write fails; the client has received exactly the
      stream up to the first failed write, and the loop goes on as long as there is none. */
  method ServeEvents(ps: seq<Poll>, fails: nat -> bool) returns (sent: seq<Write>, alive: bool)
    requires |ps| > 0
    ensures sent == Stream(ps)[..Delivered(fails, |Stream(ps)|)]
    ensures alive <==> |sent| == |Stream(ps)|
  {
    ghost var all := Stream(ps);
    StreamGrowsTo(ps, 1);
    assert ps[..1] == [ps[0]];
    sent, alive := Send([], Head, fails, all);
    if !alive { return; }
    sent, alive := Send(sent, Data(ps[0].s, ps[0].now), fails, all);
    if !alive { return; }
    sent, alive := PollLoop(ps, sent, ps[0].now + KEEPALIVE_MS, fails, all);
  }

  method PollLoop(ps: seq<Poll>, first: seq<Write>, nextFirst: nat, fails: nat -> bool, ghost all: seq<Write>)
    returns (sent: seq<Write>, alive: bool)
    requires |ps| > 0 && all == Stream(ps) && first == Stream(ps[..1]) && Delivered(fails, |first|) == |first|
    requires nextFirst == LastAt(first, ps[0].now) + KEEPALIVE_MS
    ensures sent == all[..Delivered(fails, |all|)]
    ensures alive <==> |sent| == |all|
  {
    var last := ps[0].s;
    var nextKeepalive := nextFirst;
    sent := first;
    var i := 1;
    while i < |ps|
      invariant 1 <= i <= |ps|
      invariant sent == Stream(ps[..i]) && Delivered(fails, |sent|) == |sent|
      invariant last == ps[i - 1].s
      invariant nextKeepalive == LastAt(sent, ps[0].now) + KEEPALIVE_MS
    {
      sent, nextKeepalive, alive := Advance(ps, i, last, nextKeepalive, sent, fails, all);
      if !alive { return; }
      last := ps[i].s;
      i := i + 1;
    }
    assert ps[..i] == ps;
    alive := true;
  }

  method Advance(ps: seq<Poll>, i: nat, last: Snapshot, nextKeepalive: nat, sent: seq<Write>, fails: nat -> bool,
                 ghost all: seq<Write>)
    returns (r: seq<Write>, next: nat, ok: bool)
    requires 1 <= i < |ps| && all == Stream(ps) && last == ps[i - 1].s
    requires sent == Stream(ps[..i]) && Delivered(fails, |sent|) == |sent|
    requires nextKeepalive == LastAt(sent, ps[0].now) + KEEPALIVE_MS
    ensures ok ==> r == Stream(ps[..i + 1]) && Delivered(fails, |r|) == |r|
    ensures ok ==> next == LastAt(r, ps[0].now) + KEEPALIVE_MS
    ensures !ok ==> r == all[..Delivered(fails, |all|)] && |r| < |all|
  {
    WriteDue(ps, i, last, nextKeepalive, sent);
    StreamGrowsTo(ps, i + 1);
    r, next, ok := PollOnce(last, ps[i], nextKeepalive, sent, fails, all, ps[0].now);
  }

  /** The loop body. */
  method PollOnce(last: Snapshot, now: Poll, nextKeepalive: nat, sent: seq<Write>, fails: nat -> bool,
                  ghost all: seq<Write>, ghost start: nat)
    returns (r: seq<Write>, next: nat, ok: bool)
    requires sent + Due(last, now, nextKeepalive) <= all && Delivered(fails, |sent|) == |sent|
    requires |sent| > 0 && nextKeepalive == LastAt(sent, start) + KEEPALIVE_MS
    ensures ok ==> r == sent + Due(last, now, nextKeepalive) && Delivered(fails, |r|) == |r|
    ensures ok ==> |r| > 0 && next == LastAt(r, start) + KEEPALIVE_MS
    ensures !ok ==> r == all[..Delivered(fails, |all|)] && |r| < |all|
  {
    r, next, ok := sent, nextKeepalive, true;
    if now.s != last {
      r, ok := Send(sent, Data(now.s, now.now), fails, all);
      next := now.now + KEEPALIVE_MS;
    } else if now.now >= nextKeepalive {
      r, ok := Send(sent, KeepAlive(now.now), fails, all);
      next := now.now + KEEPALIVE_MS;
    }
  }

  /** `write_all`; after a failure what was sent is what `all` delivers. */
  method Send(sent: seq<Write>, w: Write, fails: nat -> bool, ghost all: seq<Write>) returns (r: seq<Write>, ok: bool)
    requires sent + [w] <= all && Delivered(fails, |sent|) == |sent|
    ensures ok ==> r == sent + [w] && Delivered(fails, |r|) == |r|
    ensures !ok ==> r == all[..Delivered(fails, |all|)] && |r| < |all|
  {
    if fails(|sent|) {
      DeliveredStops(fails, |sent|, |all|);
      assert sent == (sent + [w])[..|sent|];
      return sent, false;
    }
    return sent + [w], true;
  }

  lemma WriteDue(ps: seq<Poll>, i: nat, last: Snapshot, nextKeepalive: nat, sent: seq<Write>)
    requires 1 <= i < |ps| && last == ps[i - 1].s && sent == Stream(ps[..i])
    requires nextKeepalive == LastAt(sent, ps[0].now) + KEEPALIVE_MS
    ensures Stream(ps[..i + 1]) == sent + Due(last, ps[i], nextKeepalive)
  {
    Prefixes(ps, i);
    NextWrite(ps[..i + 1], ps[..i], i, ps[0], ps[i - 1], ps[i], sent, nextKeepalive);
  }

  lemma Prefixes(s: seq<Poll>, i: nat)
    requires 1 <= i < |s|
    ensures var t := s[..i + 1]; t[..i] == s[..i] && t[0] == s[0] && t[i - 1] == s[i - 1] && t[i] == s[i]
  {
  }

  /** One poll appends what is due. */
  lemma NextWrite(ps: seq<Poll>, init: seq<Poll>, i: nat, first: Poll, before: Poll, now: Poll, sent: seq<Write>,
                  nextKeepalive: nat)
    requires |ps| == i + 1 && i > 0 && init == ps[..i] && sent == Stream(init)
    requires first == ps[0] && before == ps[i - 1] && now == ps[i]
    requires nextKeepalive == LastAt(sent, first.now) + KEEPALIVE_MS
    ensures Stream(ps) == sent + Due(before.s, now, nextKeepalive)
  {
  }

  lemma LastStep(ps: seq<Poll>, init: seq<Poll>)
    requires |ps| > 1 && init == ps[..|ps| - 1]
    ensures var n := |ps| - 1;
            Stream(ps) == Stream(init) + Due(ps[n - 1].s, ps[n], LastAt(Stream(init), ps[0].now) + KEEPALIVE_MS)
  {
  }

  /** Later polls only append. */
  lemma {:induction false} StreamGrowsTo(ps: seq<Poll>, n: nat)
    requires 1 <= n <= |ps|
    ensures Stream(ps[..n]) <= Stream(ps)
    decreases |ps|
  {
    if n == |ps| {
      assert ps[..n] == ps;
    } else {
      var init := ps[..|ps| - 1];
      assert init[..n] == ps[..n];
      StreamGrowsTo(init, n);
    }
  }

  // ---------------------------------------------------------------- diffs

  /** The snapshots of the data events, in order. */
  function Events(ws: seq<Write>): seq<Snapshot>
  {
    if |ws| == 0 then []
    else
      var n := |ws| - 1;
      Events(ws[..n]) + if ws[n].Data? then [ws[n].s] else []
  }

  /** Runs of equal samples collapsed to one. */
  function Compressed(ps: seq<Poll>): seq<Snapshot>
  {
    if |ps| == 0 then []
    else
      var n := |ps| - 1;
      if n > 0 && ps[n].s == ps[n - 1].s then Compressed(ps[..n]) else Compressed(ps[..n]) + [ps[n].s]
  }

  /** The events sent are exactly the stutter-free compression of the samples. */
  lemma {:induction false} EventsAreCompression(ps: seq<Poll>)
    requires |ps| > 0
    ensures Events(Stream(ps)) == Compressed(ps)
  {
    var n := |ps| - 1;
    if n == 0 {
      FirstEvents(ps);
    } else {
      EventsAreCompression(ps[..n]);
      LastStep(ps, ps[..n]);
      EventsAppend(Stream(ps[..n]), Due(ps[n - 1].s, ps[n], LastAt(Stream(ps[..n]), ps[0].now) + KEEPALIVE_MS));
    }
  }

  lemma FirstEvents(ps: seq<Poll>)
    requires |ps| == 1
    ensures Events(Stream(ps)) == Compressed(ps)
  {
    assert Stream(ps)[..1] == [Head] && Events([Head]) == [];
    assert ps[..0] == [];
  }

  lemma EventsAppend(ws: seq<Write>, due: seq<Write>)
    requires |due| <= 1
    ensures Events(ws + due) == Events(ws) + if |due| == 1 && due[0].Data? then [due[0].s] else []
  {
    if |due| == 0 { assert ws + due == ws; } else { assert (ws + due)[..|ws|] == ws; }
  }

  /** A client that shows the latest event is never stale after a poll, and never gets an event that
      changes nothing. */
  lemma {:induction false} CompressionShowsLatest(ps: seq<Poll>)
    requires |ps| > 0
    ensures var c := Compressed(ps);
            && |c| > 0 && c[|c| - 1] == ps[|ps| - 1].s
            && forall i | 0 < i < |c| :: c[i] != c[i - 1]
  {
    if |ps| > 1 { CompressionShowsLatest(ps[..|ps| - 1]); }
  }

  // ---------------------------------------------------------------- keep-alive

  /** Polls come in time order, at most p apart. */
  ghost predicate Paced(ps: seq<Poll>, p: nat) {
    forall i | 0 < i < |ps| :: ps[i - 1].now <= ps[i].now <= ps[i - 1].now + p
  }

  /** Consecutive writes are in time order and less than `gap` apart. */
  ghost predicate Spaced(ws: seq<Write>, start: nat, gap: nat) {
    forall i | 0 < i < |ws| :: At(ws[i - 1], start) <= At(ws[i], start) < At(ws[i - 1], start) + gap
  }

  lemma SpacedAppend(ws: seq<Write>, w: Write, start: nat, gap: nat)
    requires |ws| > 0 && Spaced(ws, start, gap)
    requires LastAt(ws, start) <= At(w, start) < LastAt(ws, start) + gap
    ensures Spaced(ws + [w], start, gap)
  {
  }

  /** One poll later: a write at `now`, or none while the keep-alive is not due. */
  lemma SpacedStep(ws: seq<Write>, ws': seq<Write>, start: nat, before: nat, now: nat, p: nat)
    requires |ws| > 0 && Spaced(ws, start, KEEPALIVE_MS + p)
    requires LastAt(ws, start) <= before < LastAt(ws, start) + KEEPALIVE_MS && before <= now <= before + p
    requires (ws' == ws && now < LastAt(ws, start) + KEEPALIVE_MS)
             || (exists w :: ws' == ws + [w] && At(w, start) == now)
    ensures LastAt(ws', start) <= now < LastAt(ws', start) + KEEPALIVE_MS
    ensures Spaced(ws', start, KEEPALIVE_MS + p)
  {
    if ws' != ws {
      var w :| ws' == ws + [w] && At(w, start) == now;
      SpacedAppend(ws, w, start, KEEPALIVE_MS + p);
    }
  }

  lemma StreamStep(ps: seq<Poll>)
    requires |ps| > 1
    ensures var n := |ps| - 1;
            var ws := Stream(ps[..n]);
            || (Stream(ps) == ws && ps[n].now < LastAt(ws, ps[0].now) + KEEPALIVE_MS)
            || (exists w :: Stream(ps) == ws + [w] && At(w, ps[0].now) == ps[n].now)
  {
    var n := |ps| - 1;
    LastStep(ps, ps[..n]);
    var d, k := Data(ps[n].s, ps[n].now), KeepAlive(ps[n].now);
    assert At(d, ps[0].now) == ps[n].now && At(k, ps[0].now) == ps[n].now;
  }

  /** The silence between two writes, and since the last one, is bounded: after any poll less than 15 s
      have passed since the last write, so writes are less than 15 s plus one poll delay apart. */
  lemma {:induction false} SilenceIsBounded(ps: seq<Poll>, p: nat)
    requires |ps| > 0 && Paced(ps, p)
    ensures LastAt(Stream(ps), ps[0].now) <= ps[|ps| - 1].now < LastAt(Stream(ps), ps[0].now) + KEEPALIVE_MS
    ensures Spaced(Stream(ps), ps[0].now, KEEPALIVE_MS + p)
  {
    var n := |ps| - 1;
    if n > 0 {
      var ws, start := Stream(ps[..n]), ps[0].now;
      SilenceIsBounded(ps[..n], p);
      assert ps[n - 1].now <= ps[n].now <= ps[n - 1].now + p;
      assert ps[..n][n - 1] == ps[n - 1];
      StreamStep(ps);
      SpacedStep(ws, Stream(ps), start, ps[n - 1].now, ps[n].now, p);
    }
  }

  // ---------------------------------------------------------------- nothing is written without need

  /** A poll accounts for a write, the one before which was at `before`: data for a changed sample, a keep-alive for an
      unchanged one, and then 15 s later at the earliest. */
  predicate NeededFor(w: Write, last: Poll, now: Poll, before: nat) {
    || (w == Data(now.s, now.now) && now.s != last.s)
    || (w == KeepAlive(now.now) && now.s == last.s && now.now >= before + 15_000)
  }

  ghost predicate Needed(ps: seq<Poll>, w: Write, before: nat) {
    exists j | 0 < j < |ps| :: NeededFor(w, ps[j - 1], ps[j], before)
  }

  ghost predicate AllNeeded(ps: seq<Poll>, ws: seq<Write>) {
    |ps| > 0 && forall i | 2 <= i < |ws| :: Needed(ps, ws[i], At(ws[i - 1], ps[0].now))
  }

  lemma StillNeeded(ps: seq<Poll>, w: Write, before: nat)
    requires |ps| > 0 && Needed(ps[..|ps| - 1], w, before)
    ensures Needed(ps, w, before)
  {
    var init := ps[..|ps| - 1];
    var j :| 0 < j < |init|
             && NeededFor(w, init[j - 1], init[j], before);
    assert init[j] == ps[j] && init[j - 1] == ps[j - 1];
  }

  lemma LastNeeded(ps: seq<Poll>, ws: seq<Write>, w: Write)
    requires |ps| > 1 && |ws| >= 2
    requires [w] == Due(ps[|ps| - 2].s, ps[|ps| - 1], LastAt(ws, ps[0].now) + KEEPALIVE_MS)
    ensures Needed(ps, w, LastAt(ws, ps[0].now))
  {
    var j := |ps| - 1;
    assert ps[j - 1] == ps[|ps| - 2];
    assert w == [w][0];
  }

  lemma AppendNeeded(ps: seq<Poll>, init: seq<Poll>, ws: seq<Write>, due: seq<Write>)
    requires |ps| > 1 && init == ps[..|ps| - 1] && |ws| >= 2 && AllNeeded(init, ws)
    requires due == Due(ps[|ps| - 2].s, ps[|ps| - 1], LastAt(ws, ps[0].now) + KEEPALIVE_MS)
    ensures AllNeeded(ps, ws + due)
  {
    forall i | 2 <= i < |ws + due| ensures Needed(ps, (ws + due)[i], At((ws + due)[i - 1], ps[0].now)) {
      if i < |ws| {
        StillNeeded(ps, ws[i], At(ws[i - 1], ps[0].now));
      } else {
        assert due == [due[0]];
        LastNeeded(ps, ws, due[0]);
      }
    }
  }

  /** The stream is the head, the first sample, and after that only writes that are needed. */
  lemma {:induction false} OnlyNeeded(ps: seq<Poll>)
    requires |ps| > 0
    ensures Stream(ps)[0] == Head && Stream(ps)[1] == Data(ps[0].s, ps[0].now)
    ensures AllNeeded(ps, Stream(ps))
  {
    if |ps| > 1 {
      var n := |ps| - 1;
      OnlyNeeded(ps[..n]);
      LastStep(ps, ps[..n]);
      AppendNeeded(ps, ps[..n], Stream(ps[..n]), Due(ps[n - 1].s, ps[n], LastAt(Stream(ps[..n]), ps[0].now) + KEEPALIVE_MS));
    }
  }

  /** Equal samples within 15 s of the last write add nothing. */
  lemma {:induction false} EqualPollsAreSilent(ps: seq<Poll>, n: nat)
    requires 1 <= n <= |ps|
    requires forall i | n <= i < |ps| :: ps[i].s == ps[n - 1].s && ps[i].now < LastAt(Stream(ps[..n]), ps[0].now) + 15_000
    ensures Stream(ps) == Stream(ps[..n])
    decreases |ps|
  {
    if n == |ps| {
      assert ps[..n] == ps;
    } else {
      var init := ps[..|ps| - 1];
      assert init[..n] == ps[..n];
      EqualPollsAreSilent(init, n);
      LastStep(ps, init);
      assert init[n - 1] == ps[n - 1] && ps[|ps| - 2].s == ps[n - 1].s;
      SilentPoll(Stream(init), ps[|ps| - 2].s, ps[|ps| - 1], LastAt(Stream(init), ps[0].now) + KEEPALIVE_MS);
    }
  }

  lemma SilentPoll(ws: seq<Write>, last: Snapshot, now: Poll, nextKeepalive: nat)
    requires now.s == last && now.now < nextKeepalive
    ensures ws + Due(last, now, nextKeepalive) == ws
  {
  }

  function KeepAlives(ws: seq<Write>): nat
  {
    if |ws| == 0 then 0 else KeepAlives(ws[..|ws| - 1]) + if ws[|ws| - 1].KeepAlive? then 1 else 0
  }

  /** The keep-alives of a stream are at most its duration divided by 15 s. */
  lemma {:induction false} KeepAlivesBounded(ps: seq<Poll>, p: nat)
    requires |ps| > 0 && Paced(ps, p)
    ensures ps[0].now + KeepAlives(Stream(ps)) * 15_000 <= LastAt(Stream(ps), ps[0].now) <= ps[|ps| - 1].now
  {
    SilenceIsBounded(ps, p);
    if |ps| == 1 {
      var ws := Stream(ps);
      assert ws[..1] == [Head] && ws[..1][..0] == [];
      assert KeepAlives([Head]) == 0;
    } else {
      var n := |ps| - 1;
      assert Paced(ps[..n], p);
      KeepAlivesBounded(ps[..n], p);
      SilenceIsBounded(ps[..n], p);
      LastStep(ps, ps[..n]);
      OneMoreWrite(Stream(ps[..n]), ps[n - 1].s, ps[n], ps[0].now);
    }
  }

  lemma OneMoreWrite(ws: seq<Write>, last: Snapshot, now: Poll, start: nat)
    requires |ws| > 0 && start + KeepAlives(ws) * 15_000 <= LastAt(ws, start) <= now.now
    ensures var t := ws + Due(last, now, LastAt(ws, start) + KEEPALIVE_MS);
            start + KeepAlives(t) * 15_000 <= LastAt(t, start)
  {
    var due := Due(last, now, LastAt(ws, start) + KEEPALIVE_MS);
    if |due| == 0 { assert ws + due == ws; } else { assert (ws + due)[..|ws|] == ws; }
  }
}
