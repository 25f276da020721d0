/** Shift-register debouncer (logic/src/debouncer.rs), for any window length from 1 to 8. */
module Debounce {
  import opened Bytes

  /** STABLE_COUNT, and the depth of the shift register. */
  type window = k: nat | 1 <= k <= 8 witness 4

  const DEPTH: nat := 8

  datatype Edge = Rising | Falling

  // ---------------------------------------------------------------- specification over the sample stream

  /** What the register holds at start: the initial value eight times, then the samples. */
  function Stream(initial: bool, samples: seq<bool>): seq<bool> { seq(DEPTH, _ => initial) + samples }

  predicate Uniform(s: seq<bool>, v: bool) { forall i | 0 <= i < |s| :: s[i] == v }

  function Suffix(s: seq<bool>, k: nat): seq<bool>
    requires k <= |s|
  {
    s[|s| - k..]
  }

  /** The value of the latest window of k equal samples. */
  predicate Stable(initial: bool, samples: seq<bool>, k: window)
  {
    var w := Suffix(Stream(initial, samples), k);
    if Uniform(w, true) then true
    else if Uniform(w, false) then false
    else if |samples| == 0 then initial
    else Stable(initial, samples[..|samples| - 1], k)
  }

  /** Sample n changes the stable value. */
  predicate EdgeAt(initial: bool, samples: seq<bool>, k: window, n: nat)
    requires n < |samples|
  {
    Stable(initial, samples[..n + 1], k) != Stable(initial, samples[..n], k)
  }

  function EdgeCount(initial: bool, samples: seq<bool>, k: window): nat
  {
    if |samples| == 0 then 0
    else
      var n := |samples| - 1;
      EdgeCount(initial, samples[..n], k) + if EdgeAt(initial, samples, k, n) then 1 else 0
  }

  /** After n samples the last k of the stream are all `v`. */
  predicate WindowAt(initial: bool, samples: seq<bool>, k: window, n: nat, v: bool)
    requires n <= |samples|
  {
    Uniform(Suffix(Stream(initial, samples[..n]), k), v)
  }

  /** The latest uniform window, if any, after exactly n samples. */
  predicate LatestAt(initial: bool, samples: seq<bool>, k: window, n: nat, v: bool)
    requires n <= |samples|
  {
    && WindowAt(initial, samples, k, n, v)
    && forall m | n < m <= |samples| :: !WindowAt(initial, samples, k, m, true) && !WindowAt(initial, samples, k, m, false)
  }

  /** The stable value is that of the latest uniform window, and there always is one. */
  lemma {:induction false} StableIff(initial: bool, samples: seq<bool>, k: window, v: bool)
    ensures Stable(initial, samples, k) == v <==>
            exists n | 0 <= n <= |samples| :: LatestAt(initial, samples, k, n, v)
  {
    var l := |samples|;
    assert samples[..l] == samples;
    if WindowAt(initial, samples, k, l, true) || WindowAt(initial, samples, k, l, false) {
      NotBoth(Suffix(Stream(initial, samples), k));
      assert LatestAt(initial, samples, k, l, v) <==> WindowAt(initial, samples, k, l, v);
      assert forall n | 0 <= n < l :: !LatestAt(initial, samples, k, n, v);
    } else if l == 0 {
      StartsStable(initial, k);
      assert Uniform(Suffix(Stream(initial, []), k), initial);
    } else {
      var init := samples[..l - 1];
      StableIff(initial, init, k, v);
      StillLatest(initial, samples, k, v);
    }
  }

  lemma StillLatest(initial: bool, samples: seq<bool>, k: window, v: bool)
    requires |samples| > 0
    requires !WindowAt(initial, samples, k, |samples|, true) && !WindowAt(initial, samples, k, |samples|, false)
    ensures var init := samples[..|samples| - 1];
            forall n | 0 <= n < |samples| :: LatestAt(initial, init, k, n, v) <==> LatestAt(initial, samples, k, n, v)
  {
    var l := |samples|;
    var init := samples[..l - 1];
    assert forall m | 0 <= m < l :: init[..m] == samples[..m];
    assert forall m | 0 <= m < l, w :: WindowAt(initial, init, k, m, w) <==> WindowAt(initial, samples, k, m, w);
  }

  lemma NotBoth(w: seq<bool>)
    requires |w| > 0
    ensures !(Uniform(w, true) && Uniform(w, false))
  {
    assert w[0] == true || w[0] == false;
  }

  // ---------------------------------------------------------------- the register as a number

  function Bit(b: bool): nat { if b then 1 else 0 }

  function Pow2(k: nat): nat { if k == 0 then 1 else 2 * Pow2(k - 1) }

  /** The samples as a binary number, the latest in the lowest bit. */
  function Number(s: seq<bool>): nat
  {
    if |s| == 0 then 0 else 2 * Number(s[..|s| - 1]) + Bit(s[|s| - 1])
  }

  lemma {:induction false} NumberRange(s: seq<bool>)
    ensures Number(s) < Pow2(|s|)
    ensures Number(s) == Pow2(|s|) - 1 <==> Uniform(s, true)
    ensures Number(s) == 0 <==> Uniform(s, false)
  {
    if |s| > 0 {
      NumberRange(s[..|s| - 1]);
      assert forall i | 0 <= i < |s| - 1 :: s[..|s| - 1][i] == s[i];
    }
  }

  lemma Halve(a: nat, m: nat, b: nat)
    requires m > 0 && b < 2
    ensures (2 * a + b) % (2 * m) == 2 * (a % m) + b
  {
    var q, r := a / m, a % m;
    assert a == q * m + r;
    assert 2 * a + b == q * (2 * m) + (2 * r + b);
    ModUnique(2 * a + b, 2 * m, q, 2 * r + b);
  }

  lemma ModUnique(x: nat, m: nat, q: nat, r: nat)
    requires x == q * m + r && r < m
    ensures x % m == r
  {
    var d := x / m - q;
    assert x == x / m * m + x % m;
    assert d * m == r - x % m;
    Multiple(d, m);
  }

  lemma Multiple(d: int, m: int)
    requires m >= 0
    ensures d >= 1 ==> d * m >= m
    ensures d <= -1 ==> d * m <= -m
  {
    if d >= 1 { assert (d - 1) * m >= 0; }
    if d <= -1 { assert (-1 - d) * m >= 0; }
  }

  /** Masking keeps the latest k samples. */
  lemma {:induction false} MaskIsSuffix(s: seq<bool>, k: nat)
    requires k <= |s|
    ensures Pow2(k) > 0 && Number(s) % Pow2(k) == Number(Suffix(s, k))
  {
    NumberRange([]);
    Pow2Positive(k);
    if k > 0 {
      var init := s[..|s| - 1];
      MaskIsSuffix(init, k - 1);
      Halve(Number(init), Pow2(k - 1), Bit(s[|s| - 1]));
      var w := Suffix(s, k);
      assert w[..|w| - 1] == Suffix(init, k - 1) && w[|w| - 1] == s[|s| - 1];
    }
  }

  lemma {:induction false} Pow2Positive(k: nat)
    ensures Pow2(k) > 0
  {
    if k > 0 { Pow2Positive(k - 1); }
  }

  lemma RegisterSize()
    ensures Pow2(DEPTH) == 256
  {
    assert Pow2(4) == 16;
  }

  lemma StartNumber(initial: bool)
    ensures Number(Suffix(Stream(initial, []), DEPTH)) == if initial then 0xFF else 0
  {
    var w := Suffix(Stream(initial, []), DEPTH);
    NumberRange(w);
    RegisterSize();
    assert Uniform(w, initial);
  }

  lemma StartsStable(initial: bool, k: window)
    ensures Stable(initial, [], k) == initial
  {
    var w := Suffix(Stream(initial, []), k);
    assert w[0] == initial && Uniform(w, initial);
  }

  // ---------------------------------------------------------------- the firmware

  class Debouncer {
    const stableCount: window
    var history: byte
    var stable: bool
    ghost const initial: bool
    ghost var samples: seq<bool>

    /** The register holds the last eight samples, `stable` the latest uniform window. */
    ghost predicate Valid()
      reads this
    {
      && history == Number(Suffix(Stream(initial, samples), DEPTH))
      && stable == Stable(initial, samples, stableCount)
    }

    constructor (initial: bool, stableCount: window)
      ensures Valid() && samples == [] && this.initial == initial && this.stableCount == stableCount
    {
      history := if initial then 0xFF else 0;
      stable := initial;
      this.stableCount := stableCount;
      this.initial := initial;
      samples := [];
      new;
      StartsStable(initial, stableCount);
      StartNumber(initial);
    }

    /** One sample: an edge is reported exactly when the stable value changes, in its direction. */
    method Update(raw: bool) returns (edge: Option<Edge>)
      requires Valid()
      modifies this
      ensures Valid() && samples == old(samples) + [raw]
      ensures edge == Some(Rising) <==> !Stable(initial, old(samples), stableCount) && Stable(initial, samples, stableCount)
      ensures edge == Some(Falling) <==> Stable(initial, old(samples), stableCount) && !Stable(initial, samples, stableCount)
    {
      ghost var before := samples;
      samples := samples + [raw];
      Shifted(initial, before, raw, stableCount);
      history := history * 2 % 256 + Bit(raw);
      var mask := Pow2(stableCount) - 1;
      var bits := history % Pow2(stableCount);
      var allOnes := bits == mask;
      var allZeros := bits == 0;
      assert samples[..|before|] == before;
      edge := None;
      if allOnes && !stable {
        stable := true;
        edge := Some(Rising);
      } else if allZeros && stable {
        stable := false;
        edge := Some(Falling);
      }
    }

    method State() returns (s: bool)
      requires Valid()
      ensures s == Stable(initial, samples, stableCount)
    {
      s := stable;
    }
  }

  /** Shifting a bit into the 8-bit register drops the oldest sample. */
  lemma ShiftNumber(old8: seq<bool>, raw: bool)
    requires |old8| == DEPTH
    ensures Number(old8) * 2 % 256 + Bit(raw) == Number(old8[1..] + [raw])
  {
    var nine := old8 + [raw];
    OneBitMore(old8, raw);
    MaskIsSuffix(nine, DEPTH);
    RegisterSize();
    assert Suffix(nine, DEPTH) == old8[1..] + [raw];
    ShiftIn(Number(old8), Bit(raw));
  }

  lemma OneBitMore(s: seq<bool>, raw: bool)
    ensures Number(s + [raw]) == 2 * Number(s) + Bit(raw)
  {
    assert (s + [raw])[..|s|] == s;
  }

  lemma ShiftIn(x: nat, b: nat)
    requires b <= 1
    ensures x * 2 % 256 + b == (2 * x + b) % 256
  {
    Halve(x, 128, b);
    Halve(x, 128, 0);
  }

  lemma MaskUniform(s: seq<bool>, k: nat)
    requires k <= |s|
    ensures Pow2(k) > 0
    ensures Number(s) % Pow2(k) == Pow2(k) - 1 <==> Uniform(Suffix(s, k), true)
    ensures Number(s) % Pow2(k) == 0 <==> Uniform(Suffix(s, k), false)
  {
    MaskIsSuffix(s, k);
    NumberRange(Suffix(s, k));
  }

  /** Shifting in a bit and masking, in terms of the stream. */
  lemma Shifted(initial: bool, before: seq<bool>, raw: bool, k: window)
    ensures var s, t := Stream(initial, before), Stream(initial, before + [raw]);
            var h := Number(Suffix(s, DEPTH)) * 2 % 256 + Bit(raw);
            && h == Number(Suffix(t, DEPTH)) && Pow2(k) > 0
            && (h % Pow2(k) == Pow2(k) - 1 <==> Uniform(Suffix(t, k), true))
            && (h % Pow2(k) == 0 <==> Uniform(Suffix(t, k), false))
  {
    var s, t := Stream(initial, before), Stream(initial, before + [raw]);
    var new8 := Suffix(t, DEPTH);
    assert t == s + [raw];
    assert new8 == Suffix(s, DEPTH)[1..] + [raw];
    ShiftNumber(Suffix(s, DEPTH), raw);
    assert Suffix(new8, k) == Suffix(t, k);
    MaskUniform(new8, k);
  }

  // ---------------------------------------------------------------- edges

  /** An edge after n+1 samples needs a full window of the new value, all of it received samples. */
  lemma {:induction false} EdgeWindow(initial: bool, samples: seq<bool>, k: window, n: nat)
    requires n < |samples| && EdgeAt(initial, samples, k, n)
    ensures Uniform(Suffix(Stream(initial, samples[..n + 1]), k), Stable(initial, samples[..n + 1], k))
  {
    assert samples[..n + 1][..n] == samples[..n];
  }

  lemma UniformAt(t: seq<bool>, k: nat, v: bool, i: nat)
    requires k <= |t| && i < |t| && Uniform(Suffix(t, k), v)
    ensures i >= |t| - k ==> t[i] == v
  {
    assert i >= |t| - k ==> t[i] == Suffix(t, k)[i - (|t| - k)];
  }

  lemma StreamStart(initial: bool, samples: seq<bool>, i: nat)
    requires i < |Stream(initial, samples)|
    ensures i < DEPTH ==> Stream(initial, samples)[i] == initial
  {
  }

  /** While nothing has changed, the window cannot reach back into the initial samples. */
  lemma {:induction false} FirstEdgeNeedsSamples(initial: bool, samples: seq<bool>, k: window)
    requires Stable(initial, samples, k) != initial
    ensures |samples| >= k
    decreases |samples|
  {
    var t := Stream(initial, samples);
    StartsStable(initial, k);
    assert |samples| == 0 ==> samples == [];
    if Uniform(Suffix(t, k), !initial) {
      UniformAt(t, k, !initial, |t| - k);
      StreamStart(initial, samples, |t| - k);
    } else if |samples| > 0 {
      FirstEdgeNeedsSamples(initial, samples[..|samples| - 1], k);
    }
  }

  /** Two edges are at least k samples apart: consecutive windows hold opposite values. */
  lemma {:induction false} EdgesApart(initial: bool, samples: seq<bool>, k: window, m: nat, n: nat)
    requires m < n < |samples|
    requires EdgeAt(initial, samples, k, m) && EdgeAt(initial, samples, k, n)
    requires forall i | m < i < n :: !EdgeAt(initial, samples, k, i)
    ensures n - m >= k
  {
    EdgeWindow(initial, samples, k, m);
    EdgeWindow(initial, samples, k, n);
    Unchanged(initial, samples, k, m + 1, n);
    var s, t := Stream(initial, samples[..m + 1]), Stream(initial, samples[..n + 1]);
    var v := Stable(initial, samples[..m + 1], k);
    UniformAt(s, k, v, DEPTH + m);
    UniformAt(t, k, !v, DEPTH + m);
    assert t[DEPTH + m] == s[DEPTH + m];
  }

  lemma {:induction false} Unchanged(initial: bool, samples: seq<bool>, k: window, m: nat, n: nat)
    requires m <= n <= |samples| && forall i | m <= i < n :: !EdgeAt(initial, samples, k, i)
    ensures Stable(initial, samples[..n], k) == Stable(initial, samples[..m], k)
    decreases n
  {
    if m < n {
      Unchanged(initial, samples, k, m, n - 1);
      assert !EdgeAt(initial, samples, k, n - 1);
    }
  }

  /** Position of the last edge, -1 if there is none. */
  function LastEdge(initial: bool, samples: seq<bool>, k: window): (e: int)
    ensures -1 <= e < |samples|
  {
    if |samples| == 0 then -1
    else if EdgeAt(initial, samples, k, |samples| - 1) then |samples| - 1
    else LastEdge(initial, samples[..|samples| - 1], k)
  }

  lemma EdgesOfPrefix(initial: bool, samples: seq<bool>, k: window)
    requires |samples| > 0
    ensures var init := samples[..|samples| - 1];
            forall i | 0 <= i < |init| :: EdgeAt(initial, init, k, i) == EdgeAt(initial, samples, k, i)
  {
    var init := samples[..|samples| - 1];
    forall i | 0 <= i < |init| ensures EdgeAt(initial, init, k, i) == EdgeAt(initial, samples, k, i) {
      assert init[..i + 1] == samples[..i + 1] && init[..i] == samples[..i];
    }
  }

  lemma {:induction false} LastEdgeIsLast(initial: bool, samples: seq<bool>, k: window)
    ensures var e := LastEdge(initial, samples, k);
            && (e >= 0 ==> EdgeAt(initial, samples, k, e))
            && forall i | e < i < |samples| :: !EdgeAt(initial, samples, k, i)
  {
    if |samples| > 0 && !EdgeAt(initial, samples, k, |samples| - 1) {
      var init := samples[..|samples| - 1];
      LastEdgeIsLast(initial, init, k);
      EdgesOfPrefix(initial, samples, k);
    }
  }

  /** A new edge comes at least k samples after the one before it, or after the start. */
  lemma NewEdgeGap(initial: bool, samples: seq<bool>, k: window)
    requires |samples| > 0 && EdgeAt(initial, samples, k, |samples| - 1)
    ensures |samples| - 1 >= LastEdge(initial, samples[..|samples| - 1], k) + k
  {
    var n := |samples| - 1;
    var e := LastEdge(initial, samples[..n], k);
    LastEdgeBefore(initial, samples, k);
    if e >= 0 {
      EdgesApart(initial, samples, k, e, n);
    } else {
      FirstEdgeGap(initial, samples, k);
    }
  }

  /** The last edge before the last sample, seen in the whole stream. */
  lemma LastEdgeBefore(initial: bool, samples: seq<bool>, k: window)
    requires |samples| > 0
    ensures var n := |samples| - 1;
            var e := LastEdge(initial, samples[..n], k);
            && (e >= 0 ==> EdgeAt(initial, samples, k, e))
            && forall i | e < i < n :: !EdgeAt(initial, samples, k, i)
  {
    LastEdgeIsLast(initial, samples[..|samples| - 1], k);
    EdgesOfPrefix(initial, samples, k);
  }

  lemma FirstEdgeGap(initial: bool, samples: seq<bool>, k: window)
    requires |samples| > 0 && EdgeAt(initial, samples, k, |samples| - 1)
    requires forall i | 0 <= i < |samples| - 1 :: !EdgeAt(initial, samples, k, i)
    ensures |samples| >= k
  {
    var n := |samples| - 1;
    Unchanged(initial, samples, k, 0, n);
    StartsStable(initial, k);
    assert samples[..0] == [] && samples[..n + 1] == samples;
    FirstEdgeNeedsSamples(initial, samples, k);
  }

  /** n samples produce at most n/k edges. */
  lemma {:induction false} EdgesBounded(initial: bool, samples: seq<bool>, k: window)
    ensures EdgeCount(initial, samples, k) * k <= LastEdge(initial, samples, k) + 1 <= |samples|
  {
    if |samples| > 0 {
      var n := |samples| - 1;
      EdgesBounded(initial, samples[..n], k);
      if EdgeAt(initial, samples, k, n) {
        NewEdgeGap(initial, samples, k);
        OneMore(EdgeCount(initial, samples[..n], k), k);
      }
    }
  }

  lemma OneMore(c: nat, k: nat)
    ensures (c + 1) * k == c * k + k
  {
  }

  /** Directions alternate: the stable value is the initial one, flipped once per edge. */
  lemma {:induction false} EdgesAlternate(initial: bool, samples: seq<bool>, k: window)
    ensures Stable(initial, samples, k) == (initial == (EdgeCount(initial, samples, k) % 2 == 0))
  {
    if |samples| == 0 {
      StartsStable(initial, k);
      assert samples == [];
    } else {
      EdgesAlternate(initial, samples[..|samples| - 1], k);
      EdgeFlips(initial, samples, k);
    }
  }

  lemma EdgeFlips(initial: bool, samples: seq<bool>, k: window)
    requires |samples| > 0
    ensures var init := samples[..|samples| - 1];
            var edge := Stable(initial, samples, k) != Stable(initial, init, k);
            EdgeCount(initial, samples, k) == EdgeCount(initial, init, k) + if edge then 1 else 0
  {
    assert samples[..|samples| - 1 + 1] == samples;
  }
}
