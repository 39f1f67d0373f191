/** Limiting code lengths while keeping a complete code (`tdefl_huffman_enforce_max_code_size`). */
module LengthLimiter {
  import opened Bits
  import opened PrefixCode
  import opened CodeCost

  const MAX_SUPPORTED: nat := 32

  /** The Kraft sum of the codes of length at most `i`, scaled by `2^m`; `h[j]` codes have length `j`. */
  function KSum(h: seq<int>, m: nat, i: nat): int
    requires i < |h| && i <= m
  {
    if i == 0 then 0 else KSum(h, m, i - 1) + h[i] * Pow2(m - i)
  }

  function CSum(h: seq<int>, i: nat): int
    requires i < |h|
  {
    if i == 0 then 0 else CSum(h, i - 1) + h[i]
  }

  predicate NonNegative(h: seq<int>) { forall i :: 0 <= i < |h| ==> h[i] >= 0 }

  lemma {:induction false} KSumSet(h: seq<int>, m: nat, i: nat, j: nat, v: int)
    requires i < |h| && i <= m && 1 <= j < |h|
    ensures KSum(h[j := v], m, i) == KSum(h, m, i) + (if j <= i then (v - h[j]) * Pow2(m - j) else 0)
  {
    if i > 0 {
      KSumSet(h, m, i - 1, j, v);
      if i == j { MulAdd(v - h[j], h[j], Pow2(m - j)); }
    }
  }

  lemma {:induction false} CSumSet(h: seq<int>, i: nat, j: nat, v: int)
    requires i < |h| && 1 <= j < |h|
    ensures CSum(h[j := v], i) == CSum(h, i) + (if j <= i then v - h[j] else 0)
  {
    if i > 0 { CSumSet(h, i - 1, j, v); }
  }

  lemma ProductNonNegative(a: int, p: nat)
    requires a >= 0
    ensures a * p >= 0
  {
  }

  /** With codes of length `i` only where `lo < i`, none are shorter. */
  lemma {:induction false} NoShort(h: seq<int>, m: nat, i: nat)
    requires i < |h| && i <= m && forall j :: 1 <= j <= i ==> h[j] == 0
    ensures KSum(h, m, i) == 0 && CSum(h, i) == 0
  {
    if i > 0 { NoShort(h, m, i - 1); }
  }

  // ---------------------------------------------------------------- folding the long codes

  /** Codes longer than `max` weigh something, but each less than half a code of length `max`. */
  lemma {:induction false} TailWeight(h: seq<int>, max: nat, i: nat)
    requires |h| == MAX_SUPPORTED + 1 && NonNegative(h) && 1 <= max <= i <= MAX_SUPPORTED
    ensures KSum(h, MAX_SUPPORTED, i) == Pow2(MAX_SUPPORTED - max) * KSum(h, max, max) + Tail(h, max, i)
    ensures 0 <= CSum(h, i) - CSum(h, max)
    ensures 0 <= 2 * Tail(h, max, i) <= (CSum(h, i) - CSum(h, max)) * Pow2(MAX_SUPPORTED - max)
    ensures CSum(h, i) > CSum(h, max) ==> Tail(h, max, i) > 0
    decreases i
  {
    if i == max {
      KSumScale(h, max, MAX_SUPPORTED, max);
    } else {
      TailWeight(h, max, i - 1);
      var p, q := Pow2(MAX_SUPPORTED - max), Pow2(MAX_SUPPORTED - i);
      assert 2 * q <= p by { Pow2Mono(MAX_SUPPORTED - i + 1, MAX_SUPPORTED - max); }
      TailStep(h[i], p, q, CSum(h, i - 1) - CSum(h, max));
    }
  }

  function Tail(h: seq<int>, max: nat, i: nat): int
    requires i < |h| && i <= MAX_SUPPORTED
  {
    if i <= max then 0 else Tail(h, max, i - 1) + h[i] * Pow2(MAX_SUPPORTED - i)
  }

  lemma TailStep(c: int, p: nat, q: nat, n: int)
    requires c >= 0 && 2 * q <= p && q >= 1
    ensures 2 * (c * q) <= c * p && c * q >= 0 && (c > 0 ==> c * q > 0)
    ensures (n + c) * p == n * p + c * p
  {
    assert c * (p - 2 * q) >= 0;
    assert c * (p - 2 * q) == c * p - 2 * (c * q);
    if c > 0 { assert c * q >= q; }
  }

  lemma {:induction false} KSumScale(h: seq<int>, m: nat, m': nat, i: nat)
    requires i < |h| && i <= m <= m'
    ensures KSum(h, m', i) == Pow2(m' - m) * KSum(h, m, i)
  {
    if i > 0 {
      KSumScale(h, m, m', i - 1);
      Pow2Add(m' - m, m - i);
      ScaleStep(h[i], Pow2(m' - m), Pow2(m - i), KSum(h, m, i - 1));
    }
  }

  lemma ScaleStep(c: int, p: nat, q: nat, k: int)
    ensures p * (k + c * q) == p * k + c * (p * q)
  {
    assert p * (k + c * q) == p * k + p * (c * q);
    assert p * (c * q) == c * (p * q);
  }

  /** A complete histogram of code lengths. */
  predicate CompleteHist(h: seq<int>, m: nat)
    requires m < |h|
  {
    NonNegative(h) && KSum(h, m, m) == Pow2(m)
  }

  /** Folding the codes longer than `max` into `max` can only add weight; if it does, the shorter
      codes alone weigh less than a complete code. */
  lemma FoldWeight(h: seq<int>, h1: seq<int>, max: nat)
    requires |h| == MAX_SUPPORTED + 1 && CompleteHist(h, MAX_SUPPORTED) && 1 <= max <= MAX_SUPPORTED
    requires h1 == h[max := h[max] + CSum(h, MAX_SUPPORTED) - CSum(h, max)]
    ensures NonNegative(h1) && CSum(h1, max) == CSum(h, MAX_SUPPORTED)
    ensures KSum(h1, max, max) >= Pow2(max)
    ensures KSum(h1, max, max) == Pow2(max) || KSum(h1, max, max - 1) < Pow2(max)
  {
    FoldKraft(h, max);
    assert KSum(h, max, max - 1) <= KSum(h, max, max) && Pow2(0) == 1 by { ProductNonNegative(h[max], Pow2(0)); }
    hide KSum, CSum, Pow2;
    var v := h1[max];
    KSumSet(h, max, max, max, v);
    KSumSet(h, max, max - 1, max, v);
    CSumSet(h, max, max, v);
  }

  lemma FoldKraft(h: seq<int>, max: nat)
    requires |h| == MAX_SUPPORTED + 1 && CompleteHist(h, MAX_SUPPORTED) && 1 <= max <= MAX_SUPPORTED
    ensures var t := CSum(h, MAX_SUPPORTED) - CSum(h, max); var k := KSum(h, max, max);
      t >= 0 && k + t >= Pow2(max) && (k + t == Pow2(max) || k < Pow2(max))
  {
    hide KSum, CSum, Tail, Pow2;
    TailWeight(h, max, MAX_SUPPORTED);
    Pow2Add(MAX_SUPPORTED - max, max);
    FoldArith(Pow2(MAX_SUPPORTED - max), KSum(h, max, max), CSum(h, MAX_SUPPORTED) - CSum(h, max),
              Tail(h, max, MAX_SUPPORTED), Pow2(max));
  }

  lemma FoldArith(p: nat, k: int, t: int, tail: int, full: nat)
    requires p > 0 && t >= 0 && p * k + tail == p * full && 0 <= 2 * tail <= t * p && (t > 0 ==> tail > 0)
    ensures k + t >= full
    ensures k + t == full || k < full
  {
    MulDistrib(p, full, k);
    if k >= full {
      MulDistrib(p, k, full);
      ProductNonNegative(k - full, p);
      assert p * (k - full) == (k - full) * p;
      assert tail == 0 && t == 0;
      if k > full { MulAtLeast(p, k - full); }
    } else if k + t < full {
      MulDistrib(p, full - k, t);
      MulAtLeast(p, full - k - t);
      ProductNonNegative(t, p);
    }
  }

  // ---------------------------------------------------------------- one step of the limiter

  /** The state of the limiter: `total` is the Kraft sum, too large or just right, while the codes
      shorter than `max` leave room; `n` codes in all. */
  ghost predicate Limiting(h: seq<int>, max: nat, total: int, n: int) {
    && 1 <= max < |h| && NonNegative(h)
    && total == KSum(h, max, max) >= Pow2(max)
    && (total == Pow2(max) || KSum(h, max, max - 1) < Pow2(max))
    && CSum(h, max) == n <= Pow2(max)
  }

  /** While the sum is too large there is a code of length `max`, and a shorter one. */
  lemma CanStep(h: seq<int>, max: nat, total: int, n: int)
    requires Limiting(h, max, total, n) && total != Pow2(max)
    ensures h[max] > 0
    ensures exists i :: 1 <= i < max && h[i] > 0
  {
    assert Pow2(0) == 1 && h[max] * Pow2(0) == h[max];
    if forall i :: 1 <= i < max ==> h[i] <= 0 {
      NoShort(h, max, max - 1);
    }
  }

  function Moved(h: seq<int>, max: nat, i: nat): seq<int>
    requires 1 <= i < max < |h|
  {
    var h1 := h[max := h[max] - 1];
    var h2 := h1[i := h1[i] - 1];
    h2[i + 1 := h2[i + 1] + 2]
  }

  /** Dropping a code of length `max` and splitting a shorter one lowers the sum by exactly one. */
  lemma StepKeeps(h: seq<int>, max: nat, total: int, n: int, i: nat)
    requires Limiting(h, max, total, n) && total != Pow2(max) && h[max] > 0
    requires 1 <= i < max && h[i] > 0
    ensures Limiting(Moved(h, max, i), max, total - 1, n)
  {
    MovedWeight(h, max, i, max);
    MovedWeight(h, max, i, max - 1);
    MovedCount(h, max, i);
  }

  lemma MovedWeight(h: seq<int>, max: nat, i: nat, k: nat)
    requires 1 <= i < max < |h| && (k == max || k == max - 1)
    ensures k == max ==> KSum(Moved(h, max, i), max, k) == KSum(h, max, k) - 1
    ensures k < max ==> KSum(Moved(h, max, i), max, k) <= KSum(h, max, k)
  {
    var h1 := h[max := h[max] - 1];
    var h2 := h1[i := h1[i] - 1];
    KSumSet(h, max, k, max, h[max] - 1);
    KSumSet(h1, max, k, i, h1[i] - 1);
    KSumSet(h2, max, k, i + 1, h2[i + 1] + 2);
    assert Pow2(max - i) == 2 * Pow2(max - (i + 1)) && Pow2(0) == 1;
    hide KSum, Pow2;
  }

  lemma MovedCount(h: seq<int>, max: nat, i: nat)
    requires 1 <= i < max < |h|
    ensures CSum(Moved(h, max, i), max) == CSum(h, max)
  {
    var h1 := h[max := h[max] - 1];
    var h2 := h1[i := h1[i] - 1];
    CSumSet(h, max, max, h[max] - 1);
    CSumSet(h1, max, i, h1[i] - 1);
    CSumSet(h2, max, i + 1, h2[i + 1] + 2);
  }

  // ---------------------------------------------------------------- the lengths behind the histogram

  /** How often each length up to `m` occurs in `lens`. */
  function Hist(lens: seq<nat>, m: nat): (h: seq<int>)
    ensures |h| == m + 1 && NonNegative(h)
  {
    seq(m + 1, l requires 0 <= l <= m => Count(lens, l, |lens|) as int)
  }

  lemma {:induction false} CountExtend(lens: seq<nat>, x: nat, l: nat, k: nat)
    requires k <= |lens|
    ensures Count(lens + [x], l, k) == Count(lens, l, k)
  {
    if k > 0 { CountExtend(lens, x, l, k - 1); }
  }

  lemma HistExtend(lens: seq<nat>, x: nat, m: nat)
    requires x <= m
    ensures Hist(lens + [x], m) == Hist(lens, m)[x := Hist(lens, m)[x] + 1]
  {
    forall l | 0 <= l <= m ensures Hist(lens + [x], m)[l] == Hist(lens, m)[x := Hist(lens, m)[x] + 1][l] {
      CountExtend(lens, x, l, |lens|);
    }
  }

  /** The Kraft sum, and the number of codes, can be read off the histogram. */
  lemma {:induction false} KraftIsKSum(lens: seq<nat>, m: nat)
    requires forall k :: 0 <= k < |lens| ==> 1 <= lens[k] <= m
    ensures KSum(Hist(lens, m), m, m) == Kraft(lens, m) && CSum(Hist(lens, m), m) == |lens|
    decreases |lens|
  {
    if lens == [] {
      NoShort(Hist(lens, m), m, m);
    } else {
      var n := |lens| - 1;
      var front, x := lens[..n], lens[n];
      assert lens == front + [x];
      KraftIsKSum(front, m);
      KraftAppend(front, [x], m);
      KraftOne(x, m);
      HistExtend(front, x, m);
      var h := Hist(front, m);
      KSumSet(h, m, m, x, h[x] + 1);
      CSumSet(h, m, x, h[x] + 1);
    }
  }

  lemma {:induction false} CountSet(z: seq<nat>, s: nat, v: nat, m: nat, k: nat)
    requires s < |z| && k <= |z|
    ensures Count(z[s := v], m, k) ==
      Count(z, m, k) + (if s < k then B2N(v == m) - B2N(z[s] == m) else 0)
  {
    if k > 0 { CountSet(z, s, v, m, k - 1); }
  }

  function Capped(lens: seq<nat>, max: nat): (r: seq<nat>)
    ensures |r| == |lens| && forall k :: 0 <= k < |r| ==> r[k] == if lens[k] > max then max else lens[k]
  {
    seq(|lens|, k requires 0 <= k < |lens| => if lens[k] > max then max else lens[k])
  }

  /** `h` counts the lengths in `lens`, which are sorted and at most `max`. */
  ghost predicate Counts(h: seq<int>, lens: seq<nat>, max: nat) {
    && max < |h| && NonIncreasing(lens) && (forall k :: 0 <= k < |lens| ==> 1 <= lens[k] <= max)
    && forall l: nat :: 1 <= l <= max ==> h[l] == Count(lens, l, |lens|)
  }

  /** The limited lengths `out` agree with the original ones from `p` on. The length before has been
      raised, and then everything before it was already as long as possible. */
  ghost predicate LimitedFrom(lens: seq<nat>, out: seq<nat>, max: nat, p: nat) {
    && |out| == |lens| && p <= |lens| && AtMost(out, max)
    && (forall k :: p <= k < |lens| ==> out[k] == Capped(lens, max)[k])
    && (p > 0 ==> lens[p - 1] < max)
    && (p > 0 ==> AtMost(Capped(lens, max)[p - 1..], max))
    && (p > 0 ==> Kraft(out, max) < Kraft(Capped(lens, max)[p - 1..], max) + p - 1)
  }

  ghost predicate Limited(lens: seq<nat>, out: seq<nat>, max: nat) {
    exists p: nat :: LimitedFrom(lens, out, max, p)
  }

  lemma {:induction false} KSumSame(h: seq<int>, g: seq<int>, m: nat, i: nat)
    requires i < |h| && i < |g| && i <= m && forall j :: 1 <= j <= i ==> h[j] == g[j]
    ensures KSum(h, m, i) == KSum(g, m, i)
  {
    if i > 0 { KSumSame(h, g, m, i - 1); }
  }

  lemma {:induction false} CSumSame(h: seq<int>, g: seq<int>, i: nat)
    requires i < |h| && i < |g| && forall j :: 1 <= j <= i ==> h[j] == g[j]
    ensures CSum(h, i) == CSum(g, i)
  {
    if i > 0 { CSumSame(h, g, i - 1); }
  }

  lemma CountsSums(h: seq<int>, lens: seq<nat>, max: nat)
    requires Counts(h, lens, max)
    ensures AtMost(lens, max) && KSum(h, max, max) == Kraft(lens, max) && CSum(h, max) == |lens|
  {
    KraftIsKSum(lens, max);
    KSumSame(h, Hist(lens, max), max, max);
    CSumSame(h, Hist(lens, max), max);
  }

  /** How many codes of length `l` there are after folding. */
  function FoldedAt(h: seq<int>, max: nat, l: nat): int
    requires l <= max <= MAX_SUPPORTED < |h|
  {
    if l < max then h[l] else h[max] + CSum(h, MAX_SUPPORTED) - CSum(h, max)
  }

  lemma FoldedStep(g: seq<int>, max: nat, l: nat, x: nat)
    requires 1 <= l <= max < MAX_SUPPORTED && |g| == MAX_SUPPORTED + 1 && 1 <= x <= MAX_SUPPORTED
    ensures FoldedAt(g[x := g[x] + 1], max, l) ==
      FoldedAt(g, max, l) + (if (if x > max then max else x) == l then 1 else 0)
  {
    hide CSum;
    CSumSet(g, MAX_SUPPORTED, x, g[x] + 1);
    CSumSet(g, max, x, g[x] + 1);
  }

  lemma NothingFolded(h: seq<int>, max: nat, l: nat)
    requires 1 <= l <= max < MAX_SUPPORTED && |h| == MAX_SUPPORTED + 1 && forall j :: 1 <= j < |h| ==> h[j] == 0
    ensures FoldedAt(h, max, l) == 0
  {
    NoShort(h, MAX_SUPPORTED, MAX_SUPPORTED);
    NoShort(h, MAX_SUPPORTED, max);
  }

  /** Folding the histogram caps the lengths. */
  lemma {:induction false} FoldCounts(lens: seq<nat>, max: nat, l: nat)
    requires 1 <= l <= max < MAX_SUPPORTED && forall k :: 0 <= k < |lens| ==> 1 <= lens[k] <= MAX_SUPPORTED
    ensures Count(Capped(lens, max), l, |lens|) == FoldedAt(Hist(lens, MAX_SUPPORTED), max, l)
    decreases |lens|
  {
    if lens == [] {
      NothingFolded(Hist(lens, MAX_SUPPORTED), max, l);
      hide FoldedAt;
    } else {
      var n := |lens| - 1;
      var front, x := lens[..n], lens[n];
      FoldCounts(front, max, l);
      CappedMore(lens, front, x, max, l);
      hide *;
      HistExtend(front, x, MAX_SUPPORTED);
      FoldedStep(Hist(front, MAX_SUPPORTED), max, l, x);
    }
  }

  lemma CappedMore(lens: seq<nat>, front: seq<nat>, x: nat, max: nat, l: nat)
    requires lens == front + [x]
    ensures Count(Capped(lens, max), l, |lens|) ==
      Count(Capped(front, max), l, |front|) + (if (if x > max then max else x) == l then 1 else 0)
  {
    var c := Capped(front, max);
    var y := if x > max then max else x;
    assert Capped(lens, max) == c + [y];
    CountExtend(c, y, l, |front|);
  }

  lemma Folded(lens: seq<nat>, h: seq<int>, max: nat)
    requires 1 <= max < MAX_SUPPORTED && NonIncreasing(lens)
    requires forall k :: 0 <= k < |lens| ==> 1 <= lens[k] <= MAX_SUPPORTED
    requires var g := Hist(lens, MAX_SUPPORTED); h == g[max := g[max] + CSum(g, MAX_SUPPORTED) - CSum(g, max)]
    ensures Counts(h, Capped(lens, max), max) && Limited(lens, Capped(lens, max), max)
  {
    assert LimitedFrom(lens, Capped(lens, max), max, 0);
    forall l: nat | 1 <= l <= max ensures h[l] == Count(Capped(lens, max), l, |lens|) { FoldCounts(lens, max, l); }
  }

  /** One code of length `max` and the longest shorter one become two codes of the next length. */
  ghost predicate Stepped(lens: seq<nat>, next: seq<nat>, max: nat, q: nat) {
    && 0 < q < |lens| && lens[q] < max && (forall k :: 0 <= k < q ==> lens[k] == max)
    && next == lens[q := lens[q] + 1][q - 1 := lens[q] + 1]
  }

  lemma {:induction false} CountedSome(lens: seq<nat>, l: nat, k: nat) returns (i: nat)
    requires k <= |lens| && Count(lens, l, k) > 0
    ensures i < k && lens[i] == l
  {
    if lens[k - 1] == l { i := k - 1; } else { i := CountedSome(lens, l, k - 1); }
  }

  lemma {:induction false} CountedAt(lens: seq<nat>, i: nat, k: nat)
    requires i < k <= |lens|
    ensures Count(lens, lens[i], k) > 0
  {
    if i < k - 1 { CountedAt(lens, i, k - 1); }
  }

  /** Where the limiter's step takes place among the sorted lengths. */
  lemma StepPlace(h: seq<int>, lens: seq<nat>, max: nat, i: nat) returns (q: nat, next: seq<nat>)
    requires Counts(h, lens, max) && 1 <= i < max && h[max] > 0 && h[i] > 0 && forall j :: i < j < max ==> h[j] == 0
    ensures Stepped(lens, next, max, q) && lens[q] == i && Counts(Moved(h, max, i), next, max)
  {
    var a := CountedSome(lens, max, |lens|);
    var b := CountedSome(lens, i, |lens|);
    q := 0;
    while lens[q] == max
      invariant q <= b && forall k :: 0 <= k < q ==> lens[k] == max
      decreases b - q
    {
      q := q + 1;
    }
    CountedAt(lens, q, |lens|);
    next := lens[q := i + 1][q - 1 := i + 1];
    StepCounts(h, lens, max, i, q, next);
  }

  lemma StepCounts(h: seq<int>, lens: seq<nat>, max: nat, i: nat, q: nat, next: seq<nat>)
    requires Counts(h, lens, max) && 1 <= i < max && Stepped(lens, next, max, q) && lens[q] == i
    ensures Counts(Moved(h, max, i), next, max)
  {
    var g := Moved(h, max, i);
    forall l: nat | 1 <= l <= max ensures g[l] == Count(next, l, |next|) {
      CountSet(lens, q, i + 1, l, |lens|);
      CountSet(lens[q := i + 1], q - 1, i + 1, l, |lens|);
    }
  }

  /** A step keeps track of where lengths have been raised. */
  lemma LimitedStep(lens: seq<nat>, now: seq<nat>, next: seq<nat>, max: nat, q: nat)
    requires Limited(lens, now, max) && Stepped(now, next, max, q) && NonIncreasing(lens)
    requires AtMost(next, max) && Kraft(next, max) < Kraft(now, max)
    ensures Limited(lens, next, max)
  {
    hide *;
    var p := Raised(lens, now, max);
    if q < p { RaisedBefore(lens, now, next, max, q, p); } else { RaisedAt(lens, now, next, max, q, p); }
  }

  lemma Raised(lens: seq<nat>, now: seq<nat>, max: nat) returns (p: nat)
    requires Limited(lens, now, max)
    ensures LimitedFrom(lens, now, max, p)
  {
    p :| LimitedFrom(lens, now, max, p);
  }

  lemma RaisedBefore(lens: seq<nat>, now: seq<nat>, next: seq<nat>, max: nat, q: nat, p: nat)
    requires LimitedFrom(lens, now, max, p) && Stepped(now, next, max, q) && q < p
    requires AtMost(next, max) && Kraft(next, max) < Kraft(now, max)
    ensures Limited(lens, next, max)
  {
    hide Kraft;
    assert LimitedFrom(lens, next, max, p);
  }

  lemma RaisedAt(lens: seq<nat>, now: seq<nat>, next: seq<nat>, max: nat, q: nat, p: nat)
    requires LimitedFrom(lens, now, max, p) && Stepped(now, next, max, q) && q >= p && NonIncreasing(lens)
    requires AtMost(next, max) && Kraft(next, max) < Kraft(now, max)
    ensures Limited(lens, next, max)
  {
    var cap := Capped(lens, max);
    assert now == now[..q] + now[q..];
    assert now[q..] == cap[q..];
    KraftAppend(now[..q], now[q..], max);
    AllLongest(now[..q], max);
    hide Kraft;
    assert LimitedFrom(lens, next, max, q + 1);
  }

  lemma {:induction false} AllLongest(lens: seq<nat>, max: nat)
    requires forall k :: 0 <= k < |lens| ==> lens[k] == max
    ensures Kraft(lens, max) == |lens|
  {
    if lens != [] {
      AllLongest(lens[1..], max);
      assert Pow2(0) == 1;
    }
  }

  /** Rewrites a complete histogram of lengths up to 32 into one of lengths up to `max`. For the sorted
      lengths `lens` behind it, `out` are the ones behind the new histogram. */
  method EnforceMaxCodeSize(numCodes: array<int>, codeListLen: nat, max: nat, ghost lens: seq<nat>)
      returns (ghost out: seq<nat>)
    requires numCodes.Length == MAX_SUPPORTED + 1 && 1 <= max < MAX_SUPPORTED
    requires codeListLen > 1 ==> CompleteHist(numCodes[..], MAX_SUPPORTED)
    requires CSum(numCodes[..], MAX_SUPPORTED) == codeListLen <= Pow2(max)
    requires numCodes[..] == Hist(lens, MAX_SUPPORTED) && NonIncreasing(lens)
    requires |lens| == codeListLen && (codeListLen <= 1 ==> forall k :: 0 <= k < |lens| ==> lens[k] <= max)
    requires forall k :: 0 <= k < |lens| ==> 1 <= lens[k] <= MAX_SUPPORTED
    modifies numCodes
    ensures codeListLen <= 1 ==> numCodes[..] == old(numCodes[..])
    ensures codeListLen > 1 ==> CompleteHist(numCodes[..], max) && CSum(numCodes[..], max) == codeListLen
    ensures Counts(numCodes[..], out, max) && Limited(lens, out, max)
    ensures (forall k :: 0 <= k < |lens| ==> lens[k] <= max) ==> out == lens
  {
    ghost var h := numCodes[..];
    out := Capped(lens, max);
    if codeListLen <= 1 {
      NotFolded(lens, max);
      return;
    }
    FoldWeight(h, h[max := h[max] + CSum(h, MAX_SUPPORTED) - CSum(h, max)], max);
    assert forall k: nat :: k < |h| ==> h[k] == numCodes[k];
    hide *;
    FoldCodes(numCodes, max);
    Folded(lens, numCodes[..], max);
    var total := Weigh(numCodes, max);
    Starts(numCodes[..], max, total, codeListLen);
    ghost var short := forall k :: 0 <= k < |lens| ==> lens[k] <= max;
    if short {
      NotFolded(lens, max);
      AlreadyComplete(lens, h, numCodes[..], max, total, codeListLen);
    }
    while total != Pow2(max)
      invariant Limiting(numCodes[..], max, total, codeListLen)
      invariant short ==> out == lens && total == Pow2(max)
      invariant Counts(numCodes[..], out, max) && Limited(lens, out, max)
      decreases total
    {
      TooHeavy(numCodes[..], max, total, codeListLen);
      total, out := LimitStep(numCodes, max, total, codeListLen, lens, out);
    }
    TooHeavy(numCodes[..], max, total, codeListLen);
  }

  lemma Starts(h: seq<int>, max: nat, total: int, n: int)
    requires 1 <= max < |h| && NonNegative(h) && total == KSum(h, max, max) >= Pow2(max)
    requires CSum(h, max) == n <= Pow2(max)
    requires total == Pow2(max) || KSum(h, max, max - 1) < Pow2(max)
    ensures Limiting(h, max, total, n)
  {
  }

  lemma TooHeavy(h: seq<int>, max: nat, total: int, n: int)
    requires Limiting(h, max, total, n)
    ensures total >= Pow2(max) && CSum(h, max) == n && (total == Pow2(max) ==> CompleteHist(h, max))
  {
  }

  /** Counts all codes longer than `max` as codes of length `max`. */
  method FoldCodes(numCodes: array<int>, max: nat)
    requires numCodes.Length == MAX_SUPPORTED + 1 && 1 <= max < MAX_SUPPORTED
    modifies numCodes
    ensures var h := old(numCodes[..]); numCodes[..] == h[max := h[max] + CSum(h, MAX_SUPPORTED) - CSum(h, max)]
  {
    ghost var h := numCodes[..];
    for i := max + 1 to MAX_SUPPORTED + 1
      invariant numCodes[..] == h[max := h[max] + CSum(h, i - 1) - CSum(h, max)]
    {
      numCodes[max] := numCodes[max] + numCodes[i];
    }
  }

  lemma NotFolded(lens: seq<nat>, max: nat)
    requires 1 <= max < MAX_SUPPORTED && NonIncreasing(lens) && forall k :: 0 <= k < |lens| ==> 1 <= lens[k] <= max
    ensures Capped(lens, max) == lens && Counts(Hist(lens, MAX_SUPPORTED), lens, max) && Limited(lens, lens, max)
  {
    assert LimitedFrom(lens, lens, max, 0);
  }

  /** When no length is too long, the sum is right at once. */
  lemma AlreadyComplete(lens: seq<nat>, h: seq<int>, h1: seq<int>, max: nat, total: int, n: int)
    requires 1 <= max < MAX_SUPPORTED && forall k :: 0 <= k < |lens| ==> 1 <= lens[k] <= max
    requires h == Hist(lens, MAX_SUPPORTED) && CompleteHist(h, MAX_SUPPORTED)
    requires Counts(h1, lens, max) && Limiting(h1, max, total, n)
    ensures total == Pow2(max)
  {
    KraftIsKSum(lens, MAX_SUPPORTED);
    CountsSums(h1, lens, max);
    KraftShift(lens, MAX_SUPPORTED, max);
  }

  /** The Kraft sum, computed from the longest length down. */
  method Weigh(numCodes: array<int>, max: nat) returns (total: int)
    requires max < numCodes.Length
    ensures total == KSum(numCodes[..], max, max)
  {
    total := 0;
    var i := max;
    while i > 0
      invariant 0 <= i <= max && total + KSum(numCodes[..], max, i) == KSum(numCodes[..], max, max)
    {
      total := total + numCodes[i] * Pow2(max - i);
      i := i - 1;
    }
  }

  method LimitStep(numCodes: array<int>, max: nat, total: int, ghost n: int, ghost lens: seq<nat>, ghost now: seq<nat>)
      returns (total': int, ghost next: seq<nat>)
    requires Limiting(numCodes[..], max, total, n) && total != Pow2(max)
    requires Counts(numCodes[..], now, max) && Limited(lens, now, max) && NonIncreasing(lens)
    modifies numCodes
    ensures total' == total - 1 && Limiting(numCodes[..], max, total', n)
    ensures Counts(numCodes[..], next, max) && Limited(lens, next, max)
  {
    ghost var h := numCodes[..];
    CanStep(h, max, total, n);
    assert 1 <= max < |h| && NonNegative(h);
    hide KSum, CSum, Limiting, Counts, Limited, Stepped;
    next := now;
    numCodes[max] := numCodes[max] - 1;
    var i := max - 1;
    while i > 0
      invariant 0 <= i < max && numCodes[..] == h[max := h[max] - 1]
      invariant exists k :: 1 <= k <= i && h[k] > 0
      invariant forall k :: i < k < max ==> h[k] == 0
    {
      if numCodes[i] != 0 {
        StepKeeps(h, max, total, n, i);
        next := StepLens(h, lens, now, max, i, total, n);
        numCodes[i] := numCodes[i] - 1;
        numCodes[i + 1] := numCodes[i + 1] + 2;
        assert numCodes[..] == Moved(h, max, i);
        break;
      }
      i := i - 1;
    }
    total' := total - 1;
  }

  lemma StepLens(h: seq<int>, lens: seq<nat>, now: seq<nat>, max: nat, i: nat, total: int, n: int)
      returns (next: seq<nat>)
    requires Limiting(h, max, total, n) && 1 <= i < max && Limiting(Moved(h, max, i), max, total - 1, n)
    requires Counts(h, now, max) && Limited(lens, now, max) && NonIncreasing(lens)
    requires h[max] > 0 && h[i] > 0 && forall j :: i < j < max ==> h[j] == 0
    ensures Counts(Moved(h, max, i), next, max) && Limited(lens, next, max)
  {
    var q: nat;
    q, next := StepPlace(h, now, max, i);
    CountsSums(h, now, max);
    CountsSums(Moved(h, max, i), next, max);
    hide Kraft, Count, KSum, CSum, Counts, Limited;
    LimitedStep(lens, now, next, max, q);
  }
}
