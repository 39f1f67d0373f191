/** The cost of code lengths, and what they must satisfy to belong to a prefix code: the Kraft sum. */
module CodeCost {
  import opened Bits

  predicate NonDecreasing(s: seq<nat>) { forall i, j :: 0 <= i <= j < |s| ==> s[i] <= s[j] }

  predicate NonIncreasing(s: seq<nat>) { forall i, j :: 0 <= i <= j < |s| ==> s[i] >= s[j] }

  function Sum(s: seq<nat>): nat {
    if s == [] then 0 else s[0] + Sum(s[1..])
  }

  lemma {:induction false} SumAppend(s: seq<nat>, x: nat)
    ensures Sum(s + [x]) == Sum(s) + x
  {
    if s != [] {
      assert (s + [x])[1..] == s[1..] + [x];
      SumAppend(s[1..], x);
    } else {
      assert [x][1..] == [];
    }
  }

  lemma SumTail(s: seq<nat>, i: nat)
    requires i < |s|
    ensures Sum(s[i..]) == s[i] + Sum(s[i + 1..])
  {
    assert s[i..][1..] == s[i + 1..];
  }

  lemma {:induction false} SumAtLeast(s: seq<nat>, k: nat)
    requires k < |s|
    ensures s[k] <= Sum(s)
  {
    if k > 0 { SumAtLeast(s[1..], k - 1); }
  }

  /** The Kraft sum of some code lengths, scaled by `2^m`. */
  function Kraft(lens: seq<nat>, m: nat): nat
    requires forall k :: 0 <= k < |lens| ==> lens[k] <= m
  {
    if lens == [] then 0 else Pow2(m - lens[0]) + Kraft(lens[1..], m)
  }

  lemma {:induction false} KraftScale(lens: seq<nat>, m: nat)
    requires forall k :: 0 <= k < |lens| ==> lens[k] <= m
    ensures Kraft(lens, m + 1) == 2 * Kraft(lens, m)
  {
    if lens != [] { KraftScale(lens[1..], m); }
  }

  lemma {:induction false} KraftShift(lens: seq<nat>, m: nat, m': nat)
    requires forall k :: 0 <= k < |lens| ==> lens[k] <= m && lens[k] <= m'
    requires Kraft(lens, m) == Pow2(m)
    ensures Kraft(lens, m') == Pow2(m')
    decreases if m < m' then m' - m else m - m'
  {
    if m < m' {
      KraftScale(lens, m);
      KraftShift(lens, m + 1, m');
    } else if m > m' {
      KraftScale(lens, m - 1);
      KraftShift(lens, m - 1, m');
    }
  }

  // ---------------------------------------------------------------- cost

  /** What it costs to send every symbol as often as its weight says. */
  function Cost(w: seq<nat>, lens: seq<nat>): nat
    requires |w| == |lens|
  {
    if w == [] then 0 else w[0] * lens[0] + Cost(w[1..], lens[1..])
  }

  predicate AtMost(lens: seq<nat>, m: nat) { forall k :: 0 <= k < |lens| ==> lens[k] <= m }

  /** The lengths are those of a prefix code, by Kraft's inequality. */
  predicate KraftFits(lens: seq<nat>, m: nat) {
    AtMost(lens, m) && Kraft(lens, m) <= Pow2(m)
  }

  /** No prefix code for these weights costs less. */
  ghost predicate Optimal(w: seq<nat>, lens: seq<nat>) {
    && |lens| == |w|
    && forall other: seq<nat>, m: nat :: |other| == |w| && KraftFits(other, m) ==> Cost(w, lens) <= Cost(w, other)
  }

  lemma {:induction false} CostAppend(w: seq<nat>, v: seq<nat>, a: seq<nat>, b: seq<nat>)
    requires |w| == |a| && |v| == |b|
    ensures Cost(w + v, a + b) == Cost(w, a) + Cost(v, b)
  {
    if w != [] {
      assert (w + v)[1..] == w[1..] + v && (a + b)[1..] == a[1..] + b;
      CostAppend(w[1..], v, a[1..], b);
    } else {
      assert w + v == v && a + b == b;
    }
  }

  lemma {:induction false} KraftAppend(a: seq<nat>, b: seq<nat>, m: nat)
    requires AtMost(a, m) && AtMost(b, m)
    ensures AtMost(a + b, m) && Kraft(a + b, m) == Kraft(a, m) + Kraft(b, m)
  {
    if a != [] {
      assert (a + b)[1..] == a[1..] + b;
      KraftAppend(a[1..], b, m);
    } else {
      assert a + b == b;
    }
  }

  lemma CostOne(x: nat, l: nat)
    ensures Cost([x], [l]) == x * l
  {
    assert [x][1..] == [] && [l][1..] == [];
  }

  lemma KraftOne(l: nat, m: nat)
    requires l <= m
    ensures Kraft([l], m) == Pow2(m - l)
  {
    assert [l][1..] == [];
  }

  lemma {:induction false} CostSet(w: seq<nat>, lens: seq<nat>, i: nat, v: nat)
    requires |w| == |lens| && i < |w|
    ensures Cost(w, lens[i := v]) + w[i] * lens[i] == Cost(w, lens) + w[i] * v
  {
    if i > 0 {
      assert lens[i := v][1..] == lens[1..][i - 1 := v];
      CostSet(w[1..], lens[1..], i - 1, v);
    } else {
      assert lens[i := v][1..] == lens[1..];
    }
  }

  lemma {:induction false} KraftSet(lens: seq<nat>, i: nat, v: nat, m: nat)
    requires AtMost(lens, m) && i < |lens| && v <= m
    ensures AtMost(lens[i := v], m)
    ensures Kraft(lens[i := v], m) + Pow2(m - lens[i]) == Kraft(lens, m) + Pow2(m - v)
  {
    assert AtMost(lens[i := v], m);
    if i > 0 {
      assert lens[i := v][1..] == lens[1..][i - 1 := v];
      KraftSet(lens[1..], i - 1, v, m);
    } else {
      assert lens[i := v][1..] == lens[1..];
    }
  }

  /** The sum of some weights times one length. */
  lemma {:induction false} CostLevel(w: seq<nat>, lens: seq<nat>, l: nat)
    requires |w| == |lens| && forall k :: 0 <= k < |lens| ==> lens[k] == l
    ensures Cost(w, lens) == Sum(w) * l
  {
    if w != [] {
      CostLevel(w[1..], lens[1..], l);
      MulAdd(w[0], Sum(w[1..]), l);
    }
  }

  /** A Fibonacci sequence started from `b`, `a`. */
  function Fib(d: nat, a: nat, b: nat): nat {
    if d == 0 then a else Fib(d - 1, a + b, a)
  }

  /** A leaf with a code of length `l` is lighter than half the whole weight, divided by a Fibonacci number. */
  predicate Light(x: nat, l: nat, total: nat) {
    l >= 1 && x * Fib(l - 1, 2, 1) <= 2 * total
  }

  predicate LightLeaves(w: seq<nat>, lens: seq<nat>, total: nat) {
    |w| == |lens| && forall k :: 0 <= k < |w| ==> Light(w[k], lens[k], total)
  }

  // ---------------------------------------------------------------- the two smallest weights

  function Swapped(s: seq<nat>, i: nat, j: nat): (r: seq<nat>)
    requires i < |s| && j < |s|
    ensures |r| == |s|
  {
    s[i := s[j]][j := s[i]]
  }

  /** A longer length for the smaller weight costs no more. */
  lemma SwapCost(w: seq<nat>, lens: seq<nat>, i: nat, j: nat, m: nat)
    requires |w| == |lens| && i < |w| && j < |w| && w[i] <= w[j] && lens[i] <= lens[j] && KraftFits(lens, m)
    ensures Cost(w, Swapped(lens, i, j)) <= Cost(w, lens) && KraftFits(Swapped(lens, i, j), m)
  {
    if i == j {
      assert Swapped(lens, i, j) == lens;
    } else {
      var s := lens[i := lens[j]];
      assert s[j] == lens[j] && Swapped(lens, i, j) == s[j := lens[i]];
      FitsIs(lens, m);
      FitsIs(Swapped(lens, i, j), m);
      Rearrange(w[i], w[j], lens[i], lens[j]);
      hide *;
      CostSet(w, lens, i, lens[j]);
      KraftSet(lens, i, lens[j], m);
      CostSet(w, s, j, lens[i]);
      KraftSet(s, j, lens[i], m);
    }
  }

  lemma FitsIs(s: seq<nat>, t: nat)
    ensures KraftFits(s, t) <==> AtMost(s, t) && Kraft(s, t) <= Pow2(t)
    ensures AtMost(s, t) ==> forall k :: 0 <= k < |s| ==> s[k] <= t
  {
  }

  lemma Rearrange(a: nat, b: nat, x: nat, y: nat)
    requires a <= b && x <= y
    ensures a * y + b * x <= a * x + b * y
  {
    var d, e := b - a, y - x;
    assert d * e >= 0;
    assert a * y == a * x + a * e && b * y == b * x + b * e && b * e == a * e + d * e;
  }

  /** The longest length, other than at `skip`. */
  lemma {:induction false} Longest(lens: seq<nat>, start: nat, skip: int) returns (p: nat)
    requires start < |lens| && start != skip
    ensures p < |lens| && p != skip && forall k :: 0 <= k < |lens| && k != skip ==> lens[k] <= lens[p]
  {
    p := start;
    for n := 0 to |lens|
      invariant p < |lens| && p != skip && forall k :: 0 <= k < n && k != skip ==> lens[k] <= lens[p]
    {
      if n != skip && lens[n] > lens[p] { p := n; }
    }
  }

  lemma {:induction false} KraftScaleBy(lens: seq<nat>, t: nat, s: nat)
    requires AtMost(lens, t) && t <= s
    ensures AtMost(lens, s) && Kraft(lens, s) == Pow2(s - t) * Kraft(lens, t)
    decreases s - t
  {
    if t < s {
      KraftScaleBy(lens, t, s - 1);
      KraftScale(lens, s - 1);
      Twice(Pow2(s - 1 - t), Kraft(lens, t));
    }
  }

  lemma Twice(a: nat, b: nat)
    ensures 2 * (a * b) == (2 * a) * b
  {
  }

  /** Shortening the longest length to the second longest leaves a prefix code. */
  lemma Shorten(lens: seq<nat>, i: nat, j: nat, m: nat)
    requires KraftFits(lens, m) && i < |lens| && j < |lens| && i != j
    requires forall k :: 0 <= k < |lens| ==> lens[k] <= lens[i]
    requires forall k :: 0 <= k < |lens| && k != i ==> lens[k] <= lens[j]
    ensures lens[j] <= lens[i] && KraftFits(lens[i := lens[j]], lens[j]) && lens[j] >= 1
  {
    var s, t := lens[i], lens[j];
    var short := lens[i := t];
    KraftScaleBy(lens, s, m);
    KraftSet(lens, i, t, s);
    KraftScaleBy(short, t, s);
    Pow2Add(s - t, t);
    Pow2Add(m - s, s);
    CancelLess(Pow2(m - s), Kraft(lens, s), Pow2(s));
    CancelShort(Pow2(s - t), Kraft(short, t), Pow2(t));
    TwoCodes(short, i, j, t);
  }

  lemma CancelLess(p: nat, a: nat, b: nat)
    requires p >= 1 && p * a <= p * b
    ensures a <= b
  {
    if a > b { MulDistrib(p, a, b); MulAtLeast(p, a - b); }
  }

  lemma CancelShort(p: nat, k: nat, q: nat)
    requires p >= 1 && p * k + 1 <= p * q + p
    ensures k <= q
  {
    if k > q { MulDistrib(p, k, q); MulAtLeast(p, k - q); }
  }

  /** Two codes of the same length have at least one bit. */
  lemma TwoCodes(lens: seq<nat>, i: nat, j: nat, t: nat)
    requires i < |lens| && j < |lens| && i != j && lens[i] == lens[j] == t && KraftFits(lens, t)
    ensures t >= 1
  {
    var a, b := if i < j then i else j, if i < j then j else i;
    assert lens == Five(lens[..a], t, lens[a + 1..b], t, lens[b + 1..]);
    FiveKraft(lens[..a], t, lens[a + 1..b], t, lens[b + 1..], t);
  }

  lemma FiveKraft(a: seq<nat>, x: nat, b: seq<nat>, y: nat, c: seq<nat>, m: nat)
    requires AtMost(a, m) && AtMost(b, m) && AtMost(c, m) && x <= m && y <= m
    ensures AtMost(Five(a, x, b, y, c), m)
    ensures Kraft(Five(a, x, b, y, c), m) == Kraft(a, m) + Pow2(m - x) + Kraft(b, m) + Pow2(m - y) + Kraft(c, m)
  {
    var p := a + [x] + b;
    FiveIs(a, x, b, y, c, p);
    hide *;
    ThreeKraft(a, x, b, m);
    ThreeKraft(p, y, c, m);
  }

  lemma ThreeKraft(a: seq<nat>, x: nat, b: seq<nat>, m: nat)
    requires AtMost(a, m) && AtMost(b, m) && x <= m
    ensures AtMost(a + [x] + b, m)
    ensures Kraft(a + [x] + b, m) == Kraft(a, m) + Pow2(m - x) + Kraft(b, m)
  {
    assert AtMost([x], m);
    hide *;
    KraftAppend(a, [x], m);
    KraftAppend(a + [x], b, m);
    KraftOne(x, m);
  }

  lemma FiveCost(a: seq<nat>, x: nat, b: seq<nat>, y: nat, c: seq<nat>, la: seq<nat>, lx: nat, lb: seq<nat>, ly: nat,
                 lc: seq<nat>)
    requires |a| == |la| && |b| == |lb| && |c| == |lc|
    ensures Cost(Five(a, x, b, y, c), Five(la, lx, lb, ly, lc)) ==
      Cost(a, la) + x * lx + Cost(b, lb) + y * ly + Cost(c, lc)
  {
    var p, lp := a + [x] + b, la + [lx] + lb;
    FiveIs(a, x, b, y, c, p);
    FiveIs(la, lx, lb, ly, lc, lp);
    hide *;
    ThreeCost(a, x, b, la, lx, lb);
    NextThree(p, y, c, lp, ly, lc);
  }

  function Five(a: seq<nat>, x: nat, b: seq<nat>, y: nat, c: seq<nat>): (w: seq<nat>)
    ensures |w| == |a| + |b| + |c| + 2
  {
    a + [x] + b + [y] + c
  }

  function Merged(a: seq<nat>, b: seq<nat>, c: seq<nat>, x: nat): (w: seq<nat>)
    ensures |w| == |a| + |b| + |c| + 1
  {
    a + b + c + [x]
  }

  lemma FiveIs(a: seq<nat>, x: nat, b: seq<nat>, y: nat, c: seq<nat>, p: seq<nat>)
    requires p == a + [x] + b
    ensures |p| == |a| + 1 + |b| && Five(a, x, b, y, c) == p + [y] + c
  {
  }

  lemma NextThree(p: seq<nat>, y: nat, c: seq<nat>, lp: seq<nat>, ly: nat, lc: seq<nat>)
    requires |p| == |lp| && |c| == |lc|
    ensures |p + [y] + c| == |lp + [ly] + lc| && Cost(p + [y] + c, lp + [ly] + lc) == Cost(p, lp) + y * ly + Cost(c, lc)
  {
    ThreeCost(p, y, c, lp, ly, lc);
  }

  lemma ThreeCost(a: seq<nat>, x: nat, b: seq<nat>, la: seq<nat>, lx: nat, lb: seq<nat>)
    requires |a| == |la| && |b| == |lb|
    ensures Cost(a + [x] + b, la + [lx] + lb) == Cost(a, la) + x * lx + Cost(b, lb)
  {
    hide *;
    CostAppend(a, [x], la, [lx]);
    CostAppend(a + [x], b, la + [lx], lb);
    CostOne(x, lx);
  }

  /** The weights at `i` and `j` are the smallest. */
  predicate Smallest(w: seq<nat>, i: nat, j: nat) {
    && i < |w| && j < |w| && i != j
    && forall k :: 0 <= k < |w| && k != i && k != j ==> w[i] <= w[k] && w[j] <= w[k]
  }

  /** Any prefix code can be changed, at no cost, so that the two smallest weights have the same
      length, and no other length is longer. */
  lemma {:induction false} Exchange(w: seq<nat>, lens: seq<nat>, m: nat, i: nat, j: nat)
      returns (other: seq<nat>, t: nat)
    requires |w| == |lens| && KraftFits(lens, m) && Smallest(w, i, j)
    ensures |other| == |w| && t >= 1 && other[i] == other[j] == t && KraftFits(other, t)
    ensures Cost(w, other) <= Cost(w, lens)
    decreases w[i] > w[j]
  {
    if w[i] > w[j] {
      other, t := Exchange(w, lens, m, j, i);
    } else {
      var p := Longest(lens, i, -1);
      SwapCost(w, lens, i, p, m);
      var s := Swapped(lens, i, p);
      var q := Longest(s, j, i);
      SwapCost(w, s, j, q, m);
      var r := Swapped(s, j, q);
      ExchangeOrder(lens, s, r, i, j, p, q);
      Shorten(r, i, j, m);
      CostSet(w, r, i, r[j]);
      MulMono(w[i], r[j], r[i]);
      other, t := r[i := r[j]], r[j];
    }
  }

  lemma ExchangeOrder(lens: seq<nat>, s: seq<nat>, r: seq<nat>, i: nat, j: nat, p: nat, q: nat)
    requires i < |lens| && j < |lens| && i != j && p < |lens| && q < |lens| && q != i
    requires forall k :: 0 <= k < |lens| ==> lens[k] <= lens[p]
    requires s == Swapped(lens, i, p)
    requires forall k :: 0 <= k < |s| && k != i ==> s[k] <= s[q]
    requires r == Swapped(s, j, q)
    ensures forall k :: 0 <= k < |r| ==> r[k] <= r[i]
    ensures forall k :: 0 <= k < |r| && k != i ==> r[k] <= r[j]
  {
    assert s[i] == lens[p] && r[i] == s[i] && r[j] == s[q];
    forall k | 0 <= k < |r| ensures r[k] <= r[i] && (k != i ==> r[k] <= r[j]) {
      var k1 := if k == j then q else if k == q then j else k;
      assert r[k] == s[k1];
      var k2 := if k1 == i then p else if k1 == p then i else k1;
      assert s[k1] == lens[k2];
    }
  }

  /** Merging the two smallest weights `x` and `y` saves at most `x + y`. */
  lemma MergeSaves(a: seq<nat>, x: nat, b: seq<nat>, y: nat, c: seq<nat>, lens: seq<nat>, m: nat)
      returns (other: seq<nat>, t: nat)
    requires var w := Five(a, x, b, y, c); |lens| == |w| && KraftFits(lens, m) && Smallest(w, |a|, |a| + 1 + |b|)
    ensures |other| == |Merged(a, b, c, x + y)| && KraftFits(other, t)
    ensures Cost(Merged(a, b, c, x + y), other) + x + y <= Cost(Five(a, x, b, y, c), lens)
  {
    var w := Five(a, x, b, y, c);
    var i, j := |a|, |a| + 1 + |b|;
    var s;
    s, t := Exchange(w, lens, m, i, j);
    var la, lb, lc := s[..i], s[i + 1..j], s[j + 1..];
    assert s == Five(la, t, lb, t, lc);
    other := Merged(la, lb, lc, t - 1);
    hide *;
    MergedFits(la, lb, lc, s, t);
    MergedSum(a, x, b, y, c, la, lb, lc, w, s, t);
  }

  lemma MergedFits(a: seq<nat>, b: seq<nat>, c: seq<nat>, s: seq<nat>, t: nat)
    requires s == Five(a, t, b, t, c) && KraftFits(s, t) && t >= 1
    ensures KraftFits(Merged(a, b, c, t - 1), t)
  {
    FitsParts(a, b, c, s, t);
    FiveKraft(a, t, b, t, c, t);
    assert Pow2(t - t) == 1 == Pow2(0);
    hide *;
    MergedKraft(a, b, c, t);
    FitsIs(Merged(a, b, c, t - 1), t);
  }

  lemma MergedSum(a: seq<nat>, x: nat, b: seq<nat>, y: nat, c: seq<nat>, la: seq<nat>, lb: seq<nat>, lc: seq<nat>,
                  w: seq<nat>, s: seq<nat>, t: nat)
    requires |a| == |la| && |b| == |lb| && |c| == |lc| && t >= 1
    requires w == Five(a, x, b, y, c) && s == Five(la, t, lb, t, lc)
    ensures |w| == |s| && |Merged(a, b, c, x + y)| == |Merged(la, lb, lc, t - 1)|
    ensures Cost(Merged(a, b, c, x + y), Merged(la, lb, lc, t - 1)) + x + y == Cost(w, s)
  {
    hide *;
    FiveCost(a, x, b, y, c, la, t, lb, t, lc);
    MergedCost(a, b, c, x + y, la, lb, lc, t - 1);
    OneLess(x, y, t);
  }

  lemma FitsParts(a: seq<nat>, b: seq<nat>, c: seq<nat>, s: seq<nat>, t: nat)
    requires s == Five(a, t, b, t, c) && KraftFits(s, t)
    ensures AtMost(a, t) && AtMost(b, t) && AtMost(c, t) && AtMost(s, t) && Kraft(s, t) <= Pow2(t)
  {
    forall k | 0 <= k < |a| ensures a[k] <= t { assert s[k] == a[k]; }
    forall k | 0 <= k < |b| ensures b[k] <= t { assert s[|a| + 1 + k] == b[k]; }
    forall k | 0 <= k < |c| ensures c[k] <= t { assert s[|a| + 2 + |b| + k] == c[k]; }
  }

  lemma MergedCost(a: seq<nat>, b: seq<nat>, c: seq<nat>, x: nat, la: seq<nat>, lb: seq<nat>, lc: seq<nat>, l: nat)
    requires |a| == |la| && |b| == |lb| && |c| == |lc|
    ensures Cost(Merged(a, b, c, x), Merged(la, lb, lc, l)) == Cost(a, la) + Cost(b, lb) + Cost(c, lc) + x * l
  {
    hide Cost;
    CostAppend(a, b, la, lb);
    LastTwoCost(a + b, c, x, la + lb, lc, l);
  }

  lemma LastTwoCost(a: seq<nat>, c: seq<nat>, x: nat, la: seq<nat>, lc: seq<nat>, l: nat)
    requires |a| == |la| && |c| == |lc|
    ensures Cost(a + c + [x], la + lc + [l]) == Cost(a, la) + Cost(c, lc) + x * l
  {
    hide *;
    CostAppend(a, c, la, lc);
    CostAppend(a + c, [x], la + lc, [l]);
    CostOne(x, l);
  }

  /** Two codes of length `t` and one of length `t - 1` count the same. */
  lemma MergedKraft(a: seq<nat>, b: seq<nat>, c: seq<nat>, t: nat)
    requires AtMost(a, t) && AtMost(b, t) && AtMost(c, t) && t >= 1
    ensures AtMost(Merged(a, b, c, t - 1), t)
    ensures Kraft(Merged(a, b, c, t - 1), t) == Kraft(a, t) + Kraft(b, t) + Kraft(c, t) + 2 * Pow2(0)
  {
    hide Kraft, AtMost;
    KraftAppend(a, b, t);
    KraftAppend(a + b, c, t);
    PushKraft(a + b + c, t);
  }

  lemma PushKraft(a: seq<nat>, t: nat)
    requires AtMost(a, t) && t >= 1
    ensures AtMost(a + [t - 1], t) && Kraft(a + [t - 1], t) == Kraft(a, t) + 2 * Pow2(0)
  {
    assert AtMost([t - 1], t);
    KraftAppend(a, [t - 1], t);
    KraftOne(t - 1, t);
    assert Pow2(1) == 2 * Pow2(0);
  }

  lemma OneLess(x: nat, y: nat, t: nat)
    requires t >= 1
    ensures (x + y) * (t - 1) + x + y == x * t + y * t
  {
  }

  // ---------------------------------------------------------------- codes for a table of counts

  lemma {:induction false} SumSet(s: seq<nat>, i: nat, v: nat)
    requires i < |s|
    ensures Sum(s[i := v]) + s[i] == Sum(s) + v
  {
    if i == 0 {
      assert s[i := v][1..] == s[1..];
    } else {
      SumSet(s[1..], i - 1, v);
      assert s[i := v][1..] == s[1..][i - 1 := v];
    }
  }

  lemma {:induction false} SumZero(s: seq<nat>)
    requires forall i :: 0 <= i < |s| ==> s[i] == 0
    ensures Sum(s) == 0
  {
    if s != [] { SumZero(s[1..]); }
  }

  /** Different indices into a table. */
  ghost predicate AllDifferent(order: seq<nat>, n: nat) {
    && (forall k :: 0 <= k < |order| ==> order[k] < n)
    && (forall p, q :: 0 <= p < q < |order| ==> order[p] != order[q])
  }

  /** The entries at the given indices. */
  function Picked(f: seq<nat>, order: seq<nat>): (r: seq<nat>)
    requires forall k :: 0 <= k < |order| ==> order[k] < |f|
    ensures |r| == |order| && forall k :: 0 <= k < |order| ==> r[k] == f[order[k]]
  {
    seq(|order|, k requires 0 <= k < |order| => f[order[k]])
  }

  /** Some entries of a table weigh at most as much as all of them, and as much if the others are 0. */
  lemma {:induction false} PartSum(f: seq<nat>, order: seq<nat>)
    requires AllDifferent(order, |f|)
    ensures Sum(Picked(f, order)) <= Sum(f)
    ensures (forall s: nat :: s < |f| && s !in order ==> f[s] == 0) ==> Sum(Picked(f, order)) == Sum(f)
    decreases |order|
  {
    if order == [] {
      if forall s: nat :: s < |f| && s !in order ==> f[s] == 0 { SumZero(f); }
    } else {
      var l := |order| - 1;
      var front, x := order[..l], order[l];
      var g := f[x := 0];
      SumSet(f, x, 0);
      PartSum(g, front);
      hide Sum;
      assert Picked(f, order) == Picked(g, front) + [f[x]];
      SumAppend(Picked(g, front), f[x]);
      assert order == front + [x];
      assert forall s: nat :: s < |f| && s !in front && s != x ==> s !in order;
    }
  }

  function Products(w: seq<nat>, lens: seq<nat>): (r: seq<nat>)
    requires |w| == |lens|
    ensures |r| == |w|
  {
    seq(|w|, k requires 0 <= k < |w| => w[k] * lens[k])
  }

  lemma {:induction false} CostIsSum(w: seq<nat>, lens: seq<nat>)
    requires |w| == |lens|
    ensures Cost(w, lens) == Sum(Products(w, lens))
  {
    if w != [] {
      CostIsSum(w[1..], lens[1..]);
      assert Products(w, lens)[1..] == Products(w[1..], lens[1..]);
    }
  }

  function Powers(lens: seq<nat>, m: nat): (r: seq<nat>)
    requires AtMost(lens, m)
    ensures |r| == |lens|
  {
    seq(|lens|, k requires 0 <= k < |lens| => Pow2(m - lens[k]))
  }

  lemma {:induction false} KraftIsSum(lens: seq<nat>, m: nat)
    requires AtMost(lens, m)
    ensures Kraft(lens, m) == Sum(Powers(lens, m))
  {
    if lens != [] {
      KraftIsSum(lens[1..], m);
      assert Powers(lens, m)[1..] == Powers(lens[1..], m);
    }
  }

  /** The weights in the Kraft sum of the symbols that are used. */
  function UsedPowers(counts: seq<nat>, code: seq<nat>, m: nat): (r: seq<nat>)
    requires |code| == |counts|
    ensures |r| == |counts|
  {
    seq(|counts|, s requires 0 <= s < |counts| => if counts[s] > 0 && code[s] <= m then Pow2(m - code[s]) else 0)
  }

  /** Code lengths for the used symbols: at least one bit each, and a prefix code. */
  ghost predicate CodeFor(counts: seq<nat>, code: seq<nat>, m: nat) {
    && |code| == |counts|
    && (forall s :: 0 <= s < |counts| && counts[s] > 0 ==> 1 <= code[s] <= m)
    && Sum(UsedPowers(counts, code, m)) <= Pow2(m)
  }

  /** No code for the used symbols saves more than `loss` bits. */
  ghost predicate Cheap(counts: seq<nat>, sizes: seq<nat>, loss: nat) {
    && |sizes| == |counts|
    && forall code: seq<nat>, m: nat :: CodeFor(counts, code, m) ==> Cost(counts, sizes) <= Cost(counts, code) + loss
  }

  /** `order` lists the used symbols. */
  ghost predicate ListsUsed(counts: seq<nat>, order: seq<nat>) {
    && AllDifferent(order, |counts|)
    && (forall k :: 0 <= k < |order| ==> counts[order[k]] > 0)
    && (forall s: nat :: s < |counts| && counts[s] > 0 ==> s in order)
  }

  /** The cost of a table of sizes is that of the used symbols' sizes. */
  lemma PickedCost(counts: seq<nat>, sizes: seq<nat>, order: seq<nat>)
    requires |sizes| == |counts| && ListsUsed(counts, order)
    ensures Cost(Picked(counts, order), Picked(sizes, order)) == Cost(counts, sizes)
  {
    var f := Products(counts, sizes);
    PartSum(f, order);
    CostIsSum(counts, sizes);
    CostIsSum(Picked(counts, order), Picked(sizes, order));
    hide Sum, Cost;
    assert Picked(f, order) == Products(Picked(counts, order), Picked(sizes, order));
    forall s: nat | s < |f| && s !in order ensures f[s] == 0 { assert counts[s] == 0; }
  }

  lemma PickedCode(counts: seq<nat>, code: seq<nat>, m: nat, order: seq<nat>)
    requires CodeFor(counts, code, m) && ListsUsed(counts, order)
    ensures KraftFits(Picked(code, order), m) && forall k :: 0 <= k < |order| ==> Picked(code, order)[k] >= 1
  {
    var f := UsedPowers(counts, code, m);
    var lens := Picked(code, order);
    PartSum(f, order);
    assert AtMost(lens, m);
    KraftIsSum(lens, m);
    hide Sum, Kraft;
    assert Picked(f, order) == Powers(lens, m);
  }

  /** If the sizes of the used symbols cost at most `loss` more than an optimal code, so do all. */
  lemma CheapFrom(counts: seq<nat>, sizes: seq<nat>, order: seq<nat>, lens: seq<nat>, loss: nat)
    requires |sizes| == |counts| && ListsUsed(counts, order) && |lens| == |order|
    requires |order| == 1 ==> lens == [1]
    requires |order| >= 2 ==> Optimal(Picked(counts, order), lens)
    requires Cost(Picked(counts, order), Picked(sizes, order)) <= Cost(Picked(counts, order), lens) + loss
    ensures Cheap(counts, sizes, loss)
  {
    var w := Picked(counts, order);
    PickedCost(counts, sizes, order);
    forall code: seq<nat>, m: nat | CodeFor(counts, code, m) ensures Cost(counts, sizes) <= Cost(counts, code) + loss {
      PickedCode(counts, code, m, order);
      PickedCost(counts, code, order);
      var other := Picked(code, order);
      hide CodeFor, Picked, ListsUsed, KraftFits;
      if |order| == 1 {
        assert w == [w[0]] && other == [other[0]];
        CostOne(w[0], 1);
        CostOne(w[0], other[0]);
        MulMono(w[0], 1, other[0]);
      } else if |order| >= 2 {
        assert Cost(w, lens) <= Cost(w, other);
      }
    }
  }
}
