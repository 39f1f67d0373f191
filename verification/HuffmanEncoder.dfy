/** Building the compressor's Huffman tables from symbol counts (`tdefl_optimize_huffman_table`). */
module HuffmanEncoder {
  import opened Bits
  import opened PrefixCode
  import opened DecodeTable
  import opened MinRedundancy
  import opened CodeCost
  import opened RadixSort
  import opened LengthLimiter
  import opened LimitLoss

  // ---------------------------------------------------------------- histograms of code lengths

  lemma {:induction false} KSumZero(h: seq<int>, m: nat, i: nat, v: int)
    requires i < |h| && i <= m
    ensures KSum(h[0 := v], m, i) == KSum(h, m, i)
  {
    if i > 0 { KSumZero(h, m, i - 1, v); }
  }

  lemma {:induction false} PosOfPrefix(sizes: seq<nat>, x: nat, l: nat, s: nat, k: nat)
    requires ValidSizes(sizes) && ValidSizes(sizes + [x]) && k <= |sizes|
    ensures PosUpTo(sizes + [x], l, s, k) == PosUpTo(sizes, l, s, k)
  {
    if k > 0 { PosOfPrefix(sizes, x, l, s, k - 1); }
  }

  /** The same for tables, where unused symbols have size 0. */
  lemma {:induction false} TotalIsKSum(sizes: seq<nat>)
    requires ValidSizes(sizes)
    ensures Total(sizes) == KSum(Hist(sizes, MAX_BITS), MAX_BITS, MAX_BITS)
    decreases |sizes|
  {
    if sizes == [] {
      NoShort(Hist(sizes, MAX_BITS), MAX_BITS, MAX_BITS);
    } else {
      var n := |sizes| - 1;
      var front, x := sizes[..n], sizes[n];
      assert sizes == front + [x];
      TotalIsKSum(front);
      PosOfPrefix(front, x, MAX_BITS + 1, 0, n);
      HistExtend(front, x, MAX_BITS);
      var h := Hist(front, MAX_BITS);
      if x == 0 { KSumZero(h, MAX_BITS, MAX_BITS, h[0] + 1); } else { KSumSet(h, MAX_BITS, MAX_BITS, x, h[x] + 1); }
    }
  }

  lemma {:induction false} KSumTop(h: seq<int>, m: nat, i: nat, j: nat)
    requires j <= i < |h| && i <= m && forall k :: j < k <= i ==> h[k] == 0
    ensures KSum(h, m, i) == KSum(h, m, j)
    decreases i
  {
    if i > j { KSumTop(h, m, i - 1, j); }
  }

  lemma {:induction false} NoneLonger(sizes: seq<nat>, limit: nat, l: nat, k: nat)
    requires k <= |sizes| && l > limit && forall s :: 0 <= s < |sizes| ==> sizes[s] <= limit
    ensures Count(sizes, l, k) == 0
  {
    if k > 0 { NoneLonger(sizes, limit, l, k - 1); }
  }

  /** A table whose histogram is complete at its limit is a complete table. */
  lemma CompleteFromHist(sizes: seq<nat>, h: seq<int>, limit: nat)
    requires 1 <= limit <= MAX_BITS && |h| > MAX_BITS && CompleteHist(h, limit)
    requires forall s :: 0 <= s < |sizes| ==> sizes[s] <= limit
    requires forall l :: 1 <= l <= limit ==> h[l] == Count(sizes, l, |sizes|)
    ensures Complete(sizes)
  {
    var g := SameHist(sizes, h, limit);
    hide *;
    TotalIsKSum(sizes);
    KSumTop(g, MAX_BITS, MAX_BITS, limit);
    KSumScale(g, limit, MAX_BITS, limit);
    KSumSame(h, g, limit, limit);
    Pow2Add(MAX_BITS - limit, limit);
    IsComplete(sizes);
  }

  lemma SameHist(sizes: seq<nat>, h: seq<int>, limit: nat) returns (g: seq<int>)
    requires 1 <= limit <= MAX_BITS && |h| > MAX_BITS && CompleteHist(h, limit)
    requires forall s :: 0 <= s < |sizes| ==> sizes[s] <= limit
    requires forall l :: 1 <= l <= limit ==> h[l] == Count(sizes, l, |sizes|)
    ensures |g| > MAX_BITS && g == Hist(sizes, MAX_BITS) && ValidSizes(sizes) && KSum(h, limit, limit) == Pow2(limit)
    ensures forall l :: limit < l <= MAX_BITS ==> g[l] == 0
    ensures forall l :: 1 <= l <= limit ==> h[l] == g[l]
  {
    g := Hist(sizes, MAX_BITS);
    forall l | limit < l <= MAX_BITS ensures g[l] == 0 { NoneLonger(sizes, limit, l, |sizes|); }
    hide KSum, Count;
  }

  lemma IsComplete(sizes: seq<nat>)
    requires ValidSizes(sizes) && Total(sizes) == Pow2(MAX_BITS)
    ensures Complete(sizes)
  {
  }

  // ---------------------------------------------------------------- the collected symbols

  /** The used symbols among the first `k`, with their counts. */
  function Collected(counts: seq<nat>, k: nat): (r: seq<SymFreq>)
    requires k <= |counts|
  {
    if k == 0 then [] else
      if counts[k - 1] > 0 then Collected(counts, k - 1) + [SymFreq(counts[k - 1], k - 1)]
      else Collected(counts, k - 1)
  }

  lemma {:induction false} CollectedSyms(counts: seq<nat>, k: nat)
    requires k <= |counts|
    ensures var r := Collected(counts, k);
      && |r| <= k
      && (forall i :: 0 <= i < |r| ==> r[i].sym < k && r[i].key == counts[r[i].sym] > 0)
      && (forall i, j :: 0 <= i < j < |r| ==> r[i].sym != r[j].sym)
  {
    if k > 0 { CollectedSyms(counts, k - 1); }
  }

  lemma {:induction false} CollectedAll(counts: seq<nat>, k: nat, s: nat)
    requires s < k <= |counts| && counts[s] > 0
    ensures SymFreq(counts[s], s) in Collected(counts, k)
  {
    if s < k - 1 { CollectedAll(counts, k - 1, s); }
  }

  lemma {:induction false} SumCollected(counts: seq<nat>, k: nat)
    requires k <= |counts|
    ensures Sum(Keys(Collected(counts, k))) == Sum(counts[..k])
  {
    if k > 0 {
      SumCollected(counts, k - 1);
      assert counts[..k] == counts[..k - 1] + [counts[k - 1]];
      SumAppend(counts[..k - 1], counts[k - 1]);
      var r := Collected(counts, k - 1);
      if counts[k - 1] > 0 {
        assert Keys(r + [SymFreq(counts[k - 1], k - 1)]) == Keys(r) + [counts[k - 1]];
        SumAppend(Keys(r), counts[k - 1]);
      }
    }
  }

  lemma {:induction false} CountByKey(s: seq<SymFreq>, e: SymFreq)
    ensures multiset(s)[e] == multiset(WithKey(s, e.key))[e]
    decreases |s|
  {
    if s != [] {
      var l := |s| - 1;
      assert s == s[..l] + [s[l]];
      CountByKey(s[..l], e);
    }
  }

  lemma PermutationMultiset(a: seq<SymFreq>, b: seq<SymFreq>)
    requires StablePermutation(a, b)
    ensures multiset(a) == multiset(b)
  {
    forall e: SymFreq ensures multiset(a)[e] == multiset(b)[e] {
      CountByKey(a, e);
      CountByKey(b, e);
    }
  }

  lemma WithoutOne(a: seq<SymFreq>, b: seq<SymFreq>, l: nat, i: nat)
    requires multiset(a) == multiset(b) && l == |a| - 1 && i < |b| && a[l] == b[i]
    ensures multiset(a[..l]) == multiset(b[..i] + b[i + 1..])
  {
    var e := a[l];
    assert a == a[..l] + [e];
    SplitOut(b, i);
    assert multiset(a[..l]) == multiset(a) - multiset{e};
  }

  lemma SplitOut(b: seq<SymFreq>, i: nat)
    requires i < |b|
    ensures multiset(b[..i] + b[i + 1..]) == multiset(b) - multiset{b[i]}
  {
    assert b == b[..i] + ([b[i]] + b[i + 1..]);
  }

  lemma {:induction false} SumPermutation(a: seq<SymFreq>, b: seq<SymFreq>)
    requires multiset(a) == multiset(b)
    ensures Sum(Keys(a)) == Sum(Keys(b))
    decreases |a|
  {
    if a == [] {
      assert multiset(b) == multiset{};
    } else {
      hide Sum, Keys;
      var l := |a| - 1;
      assert a[l] in multiset(a);
      assert a[l] in multiset(b);
      var i :| 0 <= i < |b| && b[i] == a[l];
      var c := b[..i] + b[i + 1..];
      WithoutOne(a, b, l, i);
      SumPermutation(a[..l], c);
      SumRemove(Keys(b), i);
      SumRemove(Keys(a), l);
      assert Keys(c) == Keys(b)[..i] + Keys(b)[i + 1..];
      assert Keys(a[..l]) == Keys(a)[..l] + Keys(a)[l + 1..];
    }
  }

  lemma {:induction false} SumRemove(s: seq<nat>, i: nat)
    requires i < |s|
    ensures Sum(s) == s[i] + Sum(s[..i] + s[i + 1..])
    decreases |s|
  {
    if i == 0 {
      assert s[..0] + s[1..] == s[1..];
    } else {
      SumRemove(s[1..], i - 1);
      assert (s[..i] + s[i + 1..])[1..] == s[1..][..i - 1] + s[1..][i..];
    }
  }

  lemma TwiceInside(b: seq<SymFreq>, i: nat, j: nat)
    requires i < j < |b| && b[i] == b[j]
    ensures multiset(b)[b[i]] >= 2
  {
    assert b == b[..i] + [b[i]] + b[i + 1..j] + [b[j]] + b[j + 1..];
  }

  lemma {:induction false} OnceInside(a: seq<SymFreq>, e: SymFreq)
    requires forall i, j :: 0 <= i < j < |a| ==> a[i].sym != a[j].sym
    ensures multiset(a)[e] <= 1
    decreases |a|
  {
    if a != [] {
      var l := |a| - 1;
      assert a == a[..l] + [a[l]];
      assert a[l] !in a[..l];
      OnceInside(a[..l], e);
    }
  }

  /** Sorting keeps the collected symbols: each used symbol stands in the list exactly once. */
  ghost predicate SortedSyms(counts: seq<nat>, b: seq<SymFreq>) {
    && NonDecreasing(Keys(b)) && |b| <= |counts|
    && (forall i :: 0 <= i < |b| ==> b[i].sym < |counts| && b[i].key == counts[b[i].sym] > 0)
    && (forall i, j :: 0 <= i < j < |b| ==> b[i].sym != b[j].sym)
    && (forall s :: 0 <= s < |counts| && counts[s] > 0 ==> SymFreq(counts[s], s) in b)
    && Sum(Keys(b)) == Sum(counts)
  }

  lemma SameMembers(a: seq<SymFreq>, b: seq<SymFreq>)
    requires multiset(a) == multiset(b)
    ensures |a| == |b| && forall e :: e in a <==> e in b
  {
    assert |multiset(a)| == |a| && |multiset(b)| == |b|;
    assert forall e :: e in a <==> e in multiset(a);
    assert forall e :: e in b <==> e in multiset(b);
  }

  lemma DistinctSyms(counts: seq<nat>, a: seq<SymFreq>, b: seq<SymFreq>)
    requires multiset(a) == multiset(b)
    requires forall i :: 0 <= i < |b| ==> b[i].sym < |counts| && b[i].key == counts[b[i].sym]
    requires forall i, j :: 0 <= i < j < |a| ==> a[i].sym != a[j].sym
    ensures forall i, j :: 0 <= i < j < |b| ==> b[i].sym != b[j].sym
  {
    forall i, j | 0 <= i < j < |b| ensures b[i].sym != b[j].sym {
      OnceInside(a, b[i]);
      if b[i] == b[j] { TwiceInside(b, i, j); }
    }
  }

  lemma SortKeepsSyms(counts: seq<nat>, b: seq<SymFreq>)
    requires StablePermutation(Collected(counts, |counts|), b) && NonDecreasing(Keys(b))
    ensures SortedSyms(counts, b)
  {
    hide Collected, StablePermutation, Sum, NonDecreasing;
    var a := Collected(counts, |counts|);
    PermutationMultiset(a, b);
    SumPermutation(a, b);
    SumCollected(counts, |counts|);
    CollectedSyms(counts, |counts|);
    SameMembers(a, b);
    assert counts[..|counts|] == counts;
    forall i | 0 <= i < |b| ensures b[i].sym < |counts| && b[i].key == counts[b[i].sym] > 0 {
      assert b[i] in a;
    }
    DistinctSyms(counts, a, b);
    forall s | 0 <= s < |counts| && counts[s] > 0 ensures SymFreq(counts[s], s) in b {
      CollectedAll(counts, |counts|, s);
    }
  }

  /** The used symbols, from the least to the most frequent. */
  ghost predicate Ranked(counts: seq<nat>, syms: seq<nat>) {
    && |syms| <= |counts|
    && (forall i :: 0 <= i < |syms| ==> syms[i] < |counts| && counts[syms[i]] > 0)
    && (forall i, j :: 0 <= i < j < |syms| ==> syms[i] != syms[j] && counts[syms[i]] <= counts[syms[j]])
    && (forall s: nat :: s < |counts| && counts[s] > 0 ==> Listed(syms, 0, s))
  }

  ghost predicate Listed(syms: seq<nat>, j: nat, s: nat) {
    exists k: nat :: j <= k < |syms| && syms[k] == s
  }

  lemma RankedSyms(counts: seq<nat>, b: seq<SymFreq>)
    requires SortedSyms(counts, b)
    ensures Ranked(counts, Syms(b))
  {
    forall s: nat | s < |counts| && counts[s] > 0 ensures Listed(Syms(b), 0, s) {
      var k :| 0 <= k < |b| && b[k] == SymFreq(counts[s], s);
      assert Syms(b)[k] == s;
    }
    forall i, j | 0 <= i < j < |b| ensures counts[Syms(b)[i]] <= counts[Syms(b)[j]] {
      assert Keys(b)[i] <= Keys(b)[j];
    }
  }

  // ---------------------------------------------------------------- handing out the lengths

  /** The symbols from `j` on have their lengths, at most `i`; the more frequent, the shorter. */
  ghost predicate Assigned(z: seq<nat>, syms: seq<nat>, j: nat, i: nat) {
    && j <= |syms|
    && (forall k :: 0 <= k < |syms| ==> syms[k] < |z|)
    && (forall p, q :: 0 <= p < q < |syms| ==> syms[p] != syms[q])
    && (forall p :: 0 <= p < j ==> z[syms[p]] == 0)
    && (forall p :: j <= p < |syms| ==> 1 <= z[syms[p]] <= i)
    && (forall p, q :: j <= p < q < |syms| ==> z[syms[p]] >= z[syms[q]])
    && (forall s: nat :: s < |z| && z[s] > 0 ==> Listed(syms, j, s))
  }

  lemma AssignedRaise(z: seq<nat>, syms: seq<nat>, j: nat, i: nat)
    requires i > 0 && Assigned(z, syms, j, i - 1)
    ensures Assigned(z, syms, j, i) && j <= |syms|
  {
  }

  lemma AssignStep(z: seq<nat>, syms: seq<nat>, j: nat, i: nat)
    requires Assigned(z, syms, j, i) && j > 0 && i > 0
    ensures Assigned(z[syms[j - 1] := i], syms, j - 1, i)
  {
    var x := syms[j - 1];
    var z' := z[x := i];
    forall s: nat | s < |z'| && z'[s] > 0 ensures Listed(syms, j - 1, s) {
      if s == x { assert syms[j - 1] == s; } else {
        assert Listed(syms, j, s);
        var k: nat :| j <= k < |syms| && syms[k] == s;
      }
    }
  }

  /** How many symbols have length `m` while length `i` is being handed out, `l` times still. */
  function Handed(h: seq<int>, i: nat, l: int, m: nat): int
    requires m < |h|
  {
    if m < i then h[m] else if m == i then h[m] - l else 0
  }

  ghost predicate HandedOut(z: seq<nat>, h: seq<int>, limit: nat, i: nat, l: int) {
    limit < |h| && forall m: nat :: 1 <= m <= limit ==> Count(z, m, |z|) == Handed(h, i, l, m)
  }

  lemma HandStep(z: seq<nat>, h: seq<int>, limit: nat, i: nat, l: int, s: nat)
    requires HandedOut(z, h, limit, i, l) && s < |z| && z[s] == 0 && 1 <= i <= limit
    ensures HandedOut(z[s := i], h, limit, i, l - 1)
  {
    var z' := z[s := i];
    forall m: nat | 1 <= m <= limit ensures Count(z', m, |z'|) == Handed(h, i, l - 1, m) {
      CountSet(z, s, i, m, |z|);
    }
  }

  lemma HandedNext(z: seq<nat>, h: seq<int>, limit: nat, i: nat)
    requires HandedOut(z, h, limit, i, 0) && i < limit
    ensures HandedOut(z, h, limit, i + 1, h[i + 1])
  {
  }

  /** Before length `i` is handed out: the symbols from `j` on have the lengths below `i`. */
  ghost predicate Handing(z: seq<nat>, order: seq<nat>, h: seq<int>, limit: nat, i: nat, j: nat) {
    && 1 <= i <= limit + 1 && limit < |h| && NonNegative(h) && CSum(h, limit) == |order|
    && j == |order| - CSum(h, i - 1)
    && Assigned(z, order, j, i - 1)
    && (if i <= limit then HandedOut(z, h, limit, i, h[i]) else HandedOut(z, h, limit, limit, 0))
  }

  lemma HandingStart(z: seq<nat>, order: seq<nat>, h: seq<int>, limit: nat, n: nat)
    requires 1 <= limit < |h| && NonNegative(h) && CSum(h, limit) == n == |order|
    requires Assigned(z, order, n, 0) && HandedOut(z, h, limit, 1, h[1])
    ensures Handing(z, order, h, limit, 1, n)
  {
  }

  lemma HandingParts(z: seq<nat>, order: seq<nat>, h: seq<int>, limit: nat, i: nat, j: nat)
    requires Handing(z, order, h, limit, i, j) && i <= limit
    ensures limit < |h| && NonNegative(h) && CSum(h, limit) == |order| && j == |order| - CSum(h, i - 1)
    ensures 0 <= h[i] <= j && Assigned(z, order, j, i - 1) && HandedOut(z, h, limit, i, h[i])
  {
    CSumMono(h, i, limit);
  }

  lemma HandingNext(z: seq<nat>, order: seq<nat>, h: seq<int>, limit: nat, i: nat, j: nat, j': nat)
    requires limit < |h| && 1 <= i <= limit && NonNegative(h) && CSum(h, limit) == |order|
    requires j == |order| - CSum(h, i - 1)
    requires j' == j - h[i] && Assigned(z, order, j', i)
    requires i < limit ==> HandedOut(z, h, limit, i + 1, h[i + 1])
    requires i == limit ==> HandedOut(z, h, limit, i, 0)
    ensures Handing(z, order, h, limit, i + 1, j')
  {
  }

  lemma AllHanded(z: seq<nat>, order: seq<nat>, h: seq<int>, limit: nat, j: nat)
    requires Handing(z, order, h, limit, limit + 1, j)
    ensures SizeCounts(h, z, limit) && Assigned(z, order, 0, limit)
  {
  }

  lemma {:induction false} NoneUsed(z: seq<nat>, m: nat, k: nat)
    requires k <= |z| && m > 0 && forall s :: 0 <= s < |z| ==> z[s] == 0
    ensures Count(z, m, k) == 0
  {
    if k > 0 { NoneUsed(z, m, k - 1); }
  }

  lemma NothingAssigned(z: seq<nat>, syms: seq<nat>, h: seq<int>, limit: nat)
    requires forall s :: 0 <= s < |z| ==> z[s] == 0
    requires forall k :: 0 <= k < |syms| ==> syms[k] < |z|
    requires forall p, q :: 0 <= p < q < |syms| ==> syms[p] != syms[q]
    requires limit < |h|
    ensures Assigned(z, syms, |syms|, 0) && (limit >= 1 ==> HandedOut(z, h, limit, 1, h[1]))
  {
    forall m: nat | 1 <= m <= limit ensures Count(z, m, |z|) == 0 { NoneUsed(z, m, |z|); }
  }

  lemma {:induction false} CSumMono(h: seq<int>, i: nat, j: nat)
    requires i <= j < |h| && NonNegative(h)
    ensures CSum(h, i) <= CSum(h, j)
    decreases j
  {
    if i < j { CSumMono(h, i, j - 1); }
  }

  /** What the compressor guarantees about the sizes it derives from symbol counts: exactly the
      symbols that occur have a code, no code is longer than the limit, more frequent symbols
      never have longer codes, and the decompressor accepts the table. */
  ghost predicate Optimized(counts: seq<nat>, z: seq<nat>, limit: nat) {
    && |z| == |counts| && Accepted(z)
    && (forall s :: 0 <= s < |z| ==> z[s] <= limit && (z[s] > 0 <==> counts[s] > 0))
    && (forall s, t :: 0 <= s < |z| && 0 <= t < |z| && 0 < counts[s] < counts[t] ==> z[s] >= z[t])
  }

  lemma {:induction false} UsedCount(z: seq<nat>, h: seq<int>, limit: nat, i: nat)
    requires i <= limit < |h| && forall m :: 1 <= m <= limit ==> h[m] == Count(z, m, |z|)
    ensures CountUpTo(z, i, |z|) == CSum(h, i)
  {
    if i == 0 { CountUpToZero(z, |z|); } else {
      UsedCount(z, h, limit, i - 1);
      CountUpToStep(z, i - 1, |z|);
    }
  }

  lemma {:induction false} CountUpToLimit(z: seq<nat>, limit: nat, l: nat, k: nat)
    requires k <= |z| && limit <= l && forall s :: 0 <= s < |z| ==> z[s] <= limit
    ensures CountUpTo(z, l, k) == CountUpTo(z, limit, k)
  {
    if k > 0 { CountUpToLimit(z, limit, l, k - 1); }
  }

  /** `h` is the histogram of the sizes in `z`, up to `limit`. */
  ghost predicate SizeCounts(h: seq<int>, z: seq<nat>, limit: nat) {
    limit < |h| && forall m: nat :: 1 <= m <= limit ==> h[m] == Count(z, m, |z|)
  }

  lemma AcceptedSizes(z: seq<nat>, h: seq<int>, limit: nat, n: nat)
    requires 1 <= limit <= MAX_BITS < |h| && CSum(h, limit) == n && (n > 1 ==> CompleteHist(h, limit))
    requires SizeCounts(h, z, limit)
    requires forall s :: 0 <= s < |z| ==> z[s] <= limit
    ensures Accepted(z)
  {
    if n > 1 {
      CompleteFromHist(z, h, limit);
    } else {
      UsedCount(z, h, limit, limit);
      CountUpToLimit(z, limit, MAX_BITS, |z|);
    }
  }

  lemma RankOrder(counts: seq<nat>, syms: seq<nat>, p: nat, q: nat)
    requires Ranked(counts, syms) && p < q < |syms|
    ensures counts[syms[p]] <= counts[syms[q]]
  {
  }

  lemma OptimizedUse(counts: seq<nat>, syms: seq<nat>, z: seq<nat>, limit: nat, s: nat)
    requires Ranked(counts, syms) && Assigned(z, syms, 0, limit) && |z| == |counts| && s < |z|
    ensures z[s] <= limit && (z[s] > 0 <==> counts[s] > 0)
  {
    if z[s] > 0 || counts[s] > 0 {
      assert Listed(syms, 0, s);
      var k: nat :| k < |syms| && syms[k] == s;
    }
  }

  lemma OptimizedOrder(counts: seq<nat>, syms: seq<nat>, z: seq<nat>, limit: nat, s: nat, t: nat)
    requires Ranked(counts, syms) && Assigned(z, syms, 0, limit) && |z| == |counts|
    requires s < |z| && t < |z| && 0 < counts[s] < counts[t]
    ensures z[s] >= z[t]
  {
    assert Listed(syms, 0, s) && Listed(syms, 0, t);
    var p: nat :| p < |syms| && syms[p] == s;
    var q: nat :| q < |syms| && syms[q] == t;
    if q < p { RankOrder(counts, syms, q, p); }
  }

  lemma OptimizedSizes(counts: seq<nat>, syms: seq<nat>, z: seq<nat>, limit: nat)
    requires Ranked(counts, syms) && Assigned(z, syms, 0, limit) && |z| == |counts| && Accepted(z)
    ensures Optimized(counts, z, limit)
  {
    hide Ranked, Assigned, Accepted;
    forall s: nat | s < |z| ensures z[s] <= limit && (z[s] > 0 <==> counts[s] > 0) {
      OptimizedUse(counts, syms, z, limit, s);
    }
    forall s: nat, t: nat | s < |z| && t < |z| && 0 < counts[s] < counts[t] ensures z[s] >= z[t] {
      OptimizedOrder(counts, syms, z, limit, s, t);
    }
  }

  // ---------------------------------------------------------------- what the sizes cost

  /** The code lengths in the order of ranks: those of the unlimited code, and those handed out. */
  datatype Plan = Plan(free: seq<nat>, lens: seq<nat>) {
    ghost predicate For(counts: seq<nat>, order: seq<nat>, h: seq<int>, limit: nat) {
      && Counts(h, lens, limit) && Costs(counts, order, limit)
    }

    ghost predicate Costs(counts: seq<nat>, order: seq<nat>, limit: nat) {
      && ListsUsed(counts, order) && |free| == |lens| == |order| && NonIncreasing(lens)
      && (|order| == 1 ==> free == [1])
      && (|order| >= 2 ==> Optimal(Picked(counts, order), free))
      && (|order| >= 2 ==> LightLeaves(Picked(counts, order), free, Sum(counts)))
      && (AtMost(free, limit) ==> lens == free)
      && (limit == 15 ==> Cost(Picked(counts, order), lens) <= Cost(Picked(counts, order), free) + MaxLoss(counts))
    }
  }

  function MaxLoss(counts: seq<nat>): nat { LOSS_PER_CODE * |counts| + LOSS_ONCE }

  /** Sorting the symbols sorts their counts. */
  lemma SortedWeights(counts: seq<nat>, b: seq<SymFreq>)
    requires SortedSyms(counts, b) && Sum(counts) < 0x1_0000
    ensures Keys(b) == Picked(counts, Syms(b)) && GoodWeights(Keys(b)) && ListsUsed(counts, Syms(b))
    ensures Sum(Keys(b)) == Sum(counts)
    ensures |b| <= |counts|
  {
    hide Sum, NonDecreasing;
    forall s: nat | s < |counts| && counts[s] > 0 ensures s in Syms(b) {
      var k :| 0 <= k < |b| && b[k] == SymFreq(counts[s], s);
      assert Syms(b)[k] == s;
    }
  }

  lemma KeysOf(b: seq<SymFreq>)
    ensures |Keys(b)| == |b| && forall k :: 0 <= k < |b| ==> Keys(b)[k] == b[k].key
  {
  }

  lemma PlanCost(counts: seq<nat>, order: seq<nat>, free: seq<nat>, lens: seq<nat>, h: seq<int>, n: nat, limit: nat)
    requires ListsUsed(counts, order) && |order| == |free| == n <= |counts| <= 288 && Sum(counts) < 0x1_0000
    requires 1 <= limit <= MAX_BITS
    requires Counts(h, lens, limit) && Limited(free, lens, limit) && (AtMost(free, limit) ==> lens == free)
    requires n > 1 ==> CompleteHist(h, limit)
    requires n == 1 ==> free[0] == 1
    requires AtMost(free, 32)
    requires n >= 2 ==> NonIncreasing(free) && Kraft(free, 32) == Pow2(32) && Optimal(Picked(counts, order), free)
    requires n >= 2 ==> LightLeaves(Picked(counts, order), free, Sum(counts))
    ensures Plan(free, lens).For(counts, order, h, limit)
  {
    CountsSums(h, lens, limit);
    var p := Raised(free, lens, limit);
    assert n == 1 ==> free == [free[0]];
    hide CSum, KSum, Count, Cost, Kraft, Optimal, LightLeaves, ListsUsed, CompleteHist, Limited;
    if n >= 2 && limit == 15 { PlanLoss(counts, order, free, lens, h); }
  }

  lemma PlanLoss(counts: seq<nat>, order: seq<nat>, free: seq<nat>, lens: seq<nat>, h: seq<int>)
    requires ListsUsed(counts, order) && |order| == |free| <= |counts| <= 288 && Sum(counts) < 0x1_0000
    requires Counts(h, lens, 15) && Limited(free, lens, 15) && CompleteHist(h, 15)
    requires AtMost(free, 32) && NonIncreasing(free) && Kraft(free, 32) == Pow2(32)
    requires LightLeaves(Picked(counts, order), free, Sum(counts))
    ensures |lens| == |free| && Cost(Picked(counts, order), lens) <= Cost(Picked(counts, order), free) + MaxLoss(counts)
  {
    CountsSums(h, lens, 15);
    hide CSum, KSum, Count, Cost, Kraft, LightLeaves, ListsUsed, Limited, Counts;
    LossBound(Picked(counts, order), free, lens, Sum(counts));
    MulMono(LOSS_PER_CODE, |free|, |counts|);
  }

  /** Sorted lengths are determined by how often each occurs. */
  lemma {:induction false} SortedUnique(a: seq<nat>, b: seq<nat>, max: nat)
    requires NonIncreasing(a) && NonIncreasing(b) && |a| == |b|
    requires forall k :: 0 <= k < |a| ==> 1 <= a[k] <= max && 1 <= b[k] <= max
    requires forall l: nat :: 1 <= l <= max ==> Count(a, l, |a|) == Count(b, l, |b|)
    ensures a == b
    decreases |a|
  {
    if a != [] {
      var n := |a| - 1;
      var i := CountedSome2(a, b, n);
      var j := CountedSome2(b, a, n);
      assert a[n] == b[n];
      forall l: nat | 1 <= l <= max ensures Count(a[..n], l, n) == Count(b[..n], l, n) {
        CountPrefix(a, l, n, n);
        CountPrefix(b, l, n, n);
        assert Count(a, l, |a|) == Count(b, l, |b|);
      }
      SortedUnique(a[..n], b[..n], max);
      assert a == a[..n] + [a[n]] && b == b[..n] + [b[n]];
    }
  }

  /** The last length of `a` occurs in `b`, too. */
  lemma CountedSome2(a: seq<nat>, b: seq<nat>, n: nat) returns (i: nat)
    requires n < |a| == |b| && Count(a, a[n], |a|) == Count(b, a[n], |b|)
    ensures i < |b| && b[i] == a[n]
  {
    CountedAt(a, n, |a|);
    i := CountedSome(b, a[n], |b|);
  }

  lemma {:induction false} CountPrefix(a: seq<nat>, l: nat, n: nat, k: nat)
    requires k <= n <= |a|
    ensures Count(a[..n], l, k) == Count(a, l, k)
  {
    if k > 0 { CountPrefix(a, l, n, k - 1); }
  }

  function Indicators(z: seq<nat>, l: nat): (f: seq<nat>)
    ensures |f| == |z|
  {
    seq(|z|, k requires 0 <= k < |z| => if z[k] == l then 1 else 0)
  }

  lemma {:induction false} CountIsSum(z: seq<nat>, l: nat)
    ensures Count(z, l, |z|) == Sum(Indicators(z, l))
    decreases |z|
  {
    if z != [] {
      var n := |z| - 1;
      CountIsSum(z[..n], l);
      CountPrefix(z, l, n, n);
      assert Indicators(z, l) == Indicators(z[..n], l) + [if z[n] == l then 1 else 0];
      SumAppend(Indicators(z[..n], l), if z[n] == l then 1 else 0);
    }
  }

  /** The lengths of the used symbols occur as often among their ranks as in the table. */
  lemma PickedCount(z: seq<nat>, order: seq<nat>, l: nat)
    requires AllDifferent(order, |z|) && l > 0 && forall s: nat :: s < |z| && s !in order ==> z[s] == 0
    ensures Count(Picked(z, order), l, |order|) == Count(z, l, |z|)
  {
    var f := Indicators(z, l);
    CountIsSum(z, l);
    CountIsSum(Picked(z, order), l);
    PartSum(f, order);
    hide Sum, Count;
    assert Picked(f, order) == Indicators(Picked(z, order), l);
  }

  /** The sizes handed out are the planned lengths, rank by rank. */
  lemma HandedPlan(order: seq<nat>, z: seq<nat>, h: seq<int>, limit: nat, lens: seq<nat>)
    requires Assigned(z, order, 0, limit) && SizeCounts(h, z, limit) && Counts(h, lens, limit) && |lens| == |order|
    ensures AllDifferent(order, |z|) && Picked(z, order) == lens
  {
    var picked := Picked(z, order);
    forall s: nat | s < |z| && z[s] > 0 ensures s in order {
      assert Listed(order, 0, s);
      var k: nat :| k < |order| && order[k] == s;
    }
    forall l: nat | 1 <= l <= limit ensures Count(picked, l, |picked|) == Count(lens, l, |lens|) {
      PickedCount(z, order, l);
    }
    hide Count;
    SortedUnique(picked, lens, limit);
  }

  lemma PlanIsCheap(c: seq<nat>, order: seq<nat>, z: seq<nat>, h: seq<int>, limit: nat, plan: Plan)
    requires plan.For(c, order, h, limit) && Assigned(z, order, 0, limit) && SizeCounts(h, z, limit) && |z| == |c|
    ensures plan.Costs(c, order, limit)
    ensures AtMost(plan.free, limit) ==> Cheap(c, z, 0)
    ensures limit == 15 ==> Cheap(c, z, MaxLoss(c))
  {
    HandedPlan(order, z, h, limit, plan.lens);
    hide Cheap, Optimal, ListsUsed, Assigned, SizeCounts, Counts, Cost, LightLeaves, MaxLoss;
    if AtMost(plan.free, limit) { CheapFrom(c, z, order, plan.free, 0); }
    if limit == 15 { CheapFrom(c, z, order, plan.free, MaxLoss(c)); }
  }

  /** Too few symbols for a code longer than the limit. */
  lemma NeverLimited(c: seq<nat>, order: seq<nat>, plan: Plan, limit: nat)
    requires plan.Costs(c, order, limit) && 1 <= limit
    ensures 2 * Sum(c) < Fib(limit, 2, 1) ==> AtMost(plan.free, limit)
  {
    if 2 * Sum(c) < Fib(limit, 2, 1) && |order| >= 2 {
      forall k | 0 <= k < |plan.free| ensures plan.free[k] <= limit {
        NotTooLong(Picked(c, order)[k], plan.free[k], Sum(c), limit);
      }
    }
  }

  lemma NotTooLong(x: nat, l: nat, total: nat, limit: nat)
    requires Light(x, l, total) && x >= 1 && 2 * total < Fib(limit, 2, 1)
    ensures l <= limit
  {
    if l > limit {
      FibMono(limit, 2, 1, l - 1, 2, 1);
      MulMono(Fib(l - 1, 2, 1), 1, x);
    }
  }

  // ---------------------------------------------------------------- code tables

  /** The next code of each size, before symbol `i` is numbered. */
  ghost predicate Numbered(next: seq<int>, z: seq<nat>, limit: nat, i: nat) {
    limit < |next| && i <= |z| && forall l: nat :: 1 <= l <= limit ==> next[l] == FirstCode(z, l) + Count(z, l, i)
  }

  /** The first codes of all lengths below `n`. */
  ghost predicate FirstUpTo(a: seq<int>, z: seq<nat>, n: nat) {
    n <= |a| && forall l :: 1 <= l < n ==> a[l] == FirstCode(z, l)
  }

  lemma NextUpTo(a: seq<int>, z: seq<nat>, n: nat)
    requires FirstUpTo(a, z, n) && n < |a|
    ensures FirstUpTo(a[n := FirstCode(z, n)], z, n + 1)
  {
  }

  lemma NumberedStart(next: seq<int>, z: seq<nat>, limit: nat)
    requires limit < |next| && FirstUpTo(next, z, limit + 1)
    ensures Numbered(next, z, limit, 0)
  {
  }

  lemma NumberedStep(next: seq<int>, z: seq<nat>, limit: nat, i: nat)
    requires Numbered(next, z, limit, i) && ValidSizes(z) && i < |z| && z[i] <= limit
    ensures z[i] == 0 ==> Numbered(next, z, limit, i + 1)
    ensures z[i] > 0 ==> next[z[i]] == CodeOf(z, i) && Numbered(next[z[i] := next[z[i]] + 1], z, limit, i + 1)
  {
    hide FirstCode;
    forall l: nat | 1 <= l <= limit ensures Count(z, l, i + 1) == Count(z, l, i) + (if z[i] == l then 1 else 0) {
    }
  }

  lemma NextFirstCode(h: seq<int>, z: seq<nat>, limit: nat, i: nat)
    requires SizeCounts(h, z, limit) && 2 <= i <= limit
    ensures limit < |h| && FirstCode(z, i) == 2 * (FirstCode(z, i - 1) + h[i - 1])
  {
    hide Count;
  }

  lemma FirstCodeOne(z: seq<nat>, limit: nat)
    ensures FirstCode(z, 1) == 0 && MAX_BITS < MAX_SUPPORTED
    ensures forall a: seq<int> :: |a| >= 2 && a[1] == 0 ==> FirstUpTo(a, z, 2)
  {
  }

  /** One of the compressor's code tables: sizes, and codes ready to be sent low bit first. */
  class CodeTable {
    const sizes: array<nat>
    const codes: array<nat>

    constructor (n: nat)
      requires n <= 288
      ensures fresh(sizes) && fresh(codes) && sizes.Length == n && Shape()
    {
      sizes := new nat[n](_ => 0);
      codes := new nat[n](_ => 0);
    }

    ghost predicate Shape()
    {
      sizes != codes && sizes.Length == codes.Length <= 288
    }

    /** The codes are the canonical words of the sizes. */
    ghost predicate Valid()
      reads sizes, codes
    {
      Shape() && Fits(sizes[..]) && forall s: nat :: Used(sizes[..], s) ==> CodeReady(s)
    }

    ghost predicate CodeReady(s: nat)
      reads sizes, codes
      requires Shape()
    {
      Used(sizes[..], s) && codes[s] < Pow2(sizes[s]) && BitsOf(codes[s], sizes[s]) == Word(sizes[..], s)
    }

    /** Numbers the codes of each size in order, and reverses them for sending. */
    method AssignCodes(numCodes: array<int>, limit: nat)
      requires Shape() && Fits(sizes[..]) && 1 <= limit <= MAX_BITS && numCodes.Length == MAX_SUPPORTED + 1
      requires forall s :: 0 <= s < sizes.Length ==> sizes[s] <= limit
      requires SizeCounts(numCodes[..], sizes[..], limit)
      requires numCodes as object != codes as object
      modifies codes
      ensures Valid()
    {
      assert sizes != codes;
      hide *;
      ghost var z := sizes[..];
      assert |z| == sizes.Length;
      var nextCode := FirstCodes(z, numCodes, limit);
      for i := 0 to sizes.Length
        invariant sizes[..] == z && nextCode.Length == MAX_SUPPORTED + 1 && Numbered(nextCode[..], z, limit, i)
        invariant forall s: nat :: s < i && Used(z, s) ==> CodeReady(s)
      {
        AssignNext(nextCode, limit, i);
      }
      AllReady();
    }

    twostate lemma AllReady()
      requires Shape() && Fits(sizes[..]) && forall s: nat :: s < sizes.Length && Used(sizes[..], s) ==> CodeReady(s)
      ensures Valid()
    {
    }

    method AssignNext(nextCode: array<int>, limit: nat, i: nat)
      requires Shape() && Fits(sizes[..]) && i < sizes.Length && 1 <= limit <= MAX_BITS && sizes[i] <= limit
      requires nextCode as object != sizes as object && nextCode as object != codes as object
      requires nextCode.Length == MAX_SUPPORTED + 1 && Numbered(nextCode[..], sizes[..], limit, i)
      modifies nextCode, codes
      ensures Numbered(nextCode[..], sizes[..], limit, i + 1)
      ensures Used(sizes[..], i) ==> CodeReady(i)
      ensures forall s: nat :: s != i && old(CodeReady(s)) ==> CodeReady(s)
    {
      ghost var z, before := sizes[..], nextCode[..];
      var codeSize := sizes[i];
      NumberedStep(before, z, limit, i);
      if codeSize != 0 {
        var code := nextCode[codeSize];
        CodeFits(z, i);
        assert Used(z, i) && code == before[z[i]];
        hide *;
        nextCode[codeSize] := code + 1;
        assert nextCode[..] == before[codeSize := code + 1];
        AssignCode(i, code);
      }
    }

    method AssignCode(i: nat, code: nat)
      requires Shape() && Used(sizes[..], i) && code == CodeOf(sizes[..], i) < Pow2(sizes[i])
      modifies codes
      ensures CodeReady(i) && forall s: nat :: old(CodeReady(s)) && s != i ==> CodeReady(s)
    {
      var rev := ReverseCode(code, sizes[i]);
      codes[i] := rev;
    }

    static method FirstCodes(ghost z: seq<nat>, numCodes: array<int>, limit: nat) returns (nextCode: array<int>)
      requires 1 <= limit <= MAX_BITS && numCodes.Length == MAX_SUPPORTED + 1
      requires SizeCounts(numCodes[..], z, limit)
      ensures fresh(nextCode) && nextCode.Length == MAX_SUPPORTED + 1
      ensures Numbered(nextCode[..], z, limit, 0)
    {
      ghost var h := numCodes[..];
      hide *;
      FirstCodeOne(z, limit);
      nextCode := new int[MAX_SUPPORTED + 1](_ => 0);
      var j := 0;
      for i := 2 to limit + 1
        invariant j == FirstCode(z, i - 1) && numCodes[..] == h && FirstUpTo(nextCode[..], z, i)
      {
        NextFirstCode(h, z, limit, i);
        ghost var before := nextCode[..];
        assert numCodes[i - 1] == h[i - 1];
        j := 2 * (j + numCodes[i - 1]);
        nextCode[i] := j;
        assert nextCode[..] == before[i := j];
        NextUpTo(before, z, i);
      }
      NumberedStart(nextCode[..], z, limit);
    }

    /** The static case: the sizes are given. */
    method UseSizes()
      requires Shape() && Fits(sizes[..])
      modifies codes
      ensures Valid()
    {
      var numCodes := new int[MAX_SUPPORTED + 1](_ => 0);
      assert sizes.Length == |sizes[..]|;
      for i := 0 to sizes.Length
        invariant forall l :: 0 <= l <= MAX_SUPPORTED ==> numCodes[l] == Count(sizes[..], l, i)
      {
        numCodes[sizes[i]] := numCodes[sizes[i]] + 1;
      }
      AssignCodes(numCodes, MAX_BITS);
    }
  
    /** The used symbols, in symbol order. */
    static method CollectSyms(counts: array<nat>) returns (syms0: array<SymFreq>, n: nat)
      requires counts.Length <= 288
      ensures fresh(syms0) && n <= counts.Length == syms0.Length
      ensures syms0[..n] == Collected(counts[..], counts.Length)
    {
      syms0 := new SymFreq[counts.Length](_ => SymFreq(0, 0));
      n := 0;
      for i := 0 to counts.Length
        invariant n <= i && syms0[..n] == Collected(counts[..], i)
      {
        if counts[i] != 0 {
          syms0[n] := SymFreq(counts[i], i);
          n := n + 1;
          assert syms0[..n] == syms0[..n - 1] + [SymFreq(counts[i], i)];
        }
      }
    }

    /** Counts the code lengths in the keys. */
    static method CountLengths(syms: array<SymFreq>, n: nat) returns (numCodes: array<int>)
      requires n <= syms.Length && forall k :: 0 <= k < n ==> 1 <= syms[k].key <= MAX_SUPPORTED
      ensures fresh(numCodes) && numCodes.Length == MAX_SUPPORTED + 1
      ensures numCodes[..] == Hist(Keys(syms[..n]), MAX_SUPPORTED)
    {
      numCodes := new int[MAX_SUPPORTED + 1](_ => 0);
      for i := 0 to n
        invariant numCodes[..] == Hist(Keys(syms[..i]), MAX_SUPPORTED)
      {
        assert Keys(syms[..i + 1]) == Keys(syms[..i]) + [syms[i].key];
        HistExtend(Keys(syms[..i]), syms[i].key, MAX_SUPPORTED);
        numCodes[syms[i].key] := numCodes[syms[i].key] + 1;
      }
    }

    /** Ranks the symbols and finds how many codes of each length they get. */
    static method PlanLengths(counts: array<nat>, limit: nat)
      returns (syms: array<SymFreq>, n: nat, numCodes: array<int>, ghost plan: Plan)
      requires counts.Length <= 288 && 1 <= limit <= MAX_BITS && counts.Length <= Pow2(limit)
      requires Sum(counts[..]) < 0x1_0000
      ensures fresh(syms) && fresh(numCodes) && n <= syms.Length && numCodes.Length == MAX_SUPPORTED + 1
      ensures Ranked(counts[..], Syms(syms[..n])) && plan.For(counts[..], Syms(syms[..n]), numCodes[..], limit)
      ensures NonNegative(numCodes[..]) && CSum(numCodes[..], limit) == n
      ensures n > 1 ==> CompleteHist(numCodes[..], limit)
    {
      ghost var c := counts[..];
      var syms0, used := CollectSyms(counts);
      n := used;
      CollectedSyms(c, |c|);
      SumCollected(c, |c|);
      assert c[..|c|] == c;
      var syms1 := new SymFreq[counts.Length](_ => SymFreq(0, 0));
      assert forall i :: 0 <= i < n ==> syms0[i] == syms0[..n][i];
      forall i | 0 <= i < n ensures syms0[i].key < 0x1_0000 {
        SumAtLeast(Keys(syms0[..n]), i);
      }
      hide *;
      syms := RadixSortSyms(n, syms0, syms1);
      assert syms.Length == counts.Length;
      numCodes, plan := Lengths(c, syms, n, limit);
    }

    /** Turns the sorted counts into code lengths and counts those. */
    static method Lengths(ghost c: seq<nat>, syms: array<SymFreq>, n: nat, limit: nat)
        returns (numCodes: array<int>, ghost plan: Plan)
      requires n <= syms.Length == |c| <= 288 && 1 <= limit <= MAX_BITS && |c| <= Pow2(limit) && Sum(c) < 0x1_0000
      requires StablePermutation(Collected(c, |c|), syms[..n]) && NonDecreasing(Keys(syms[..n]))
      modifies syms
      ensures fresh(numCodes) && numCodes.Length == MAX_SUPPORTED + 1
      ensures Ranked(c, Syms(syms[..n])) && plan.For(c, Syms(syms[..n]), numCodes[..], limit)
      ensures NonNegative(numCodes[..]) && CSum(numCodes[..], limit) == n
      ensures n > 1 ==> CompleteHist(numCodes[..], limit)
    {
      ghost var a := syms[..];
      ghost var order, w := Syms(syms[..n]), Keys(syms[..n]);
      SortKeepsSyms(c, syms[..n]);
      RankedSyms(c, syms[..n]);
      SortedWeights(c, syms[..n]);
      hide *;
      CalculateMinimumRedundancy(syms, n);
      SameSyms(a, syms[..], n);
      assert syms[..][..n] == syms[..n] && a[..n] == old(syms[..n]);
      KeysOf(syms[..n]);
      ghost var lens := Keys(syms[..n]);
      ghost var out;
      numCodes, out := LimitedHistogram(syms, n, limit);
      plan := Plan(lens, out);
      PlanCost(c, order, lens, out, numCodes[..], n, limit);
    }

    static method LimitedHistogram(syms: array<SymFreq>, n: nat, limit: nat)
        returns (numCodes: array<int>, ghost out: seq<nat>)
      requires n <= syms.Length && 1 <= limit <= MAX_BITS && n <= Pow2(limit)
      requires forall k :: 0 <= k < n ==> 1 <= syms[k].key <= MAX_TREE_DEPTH && syms[k].key <= n
      requires n >= 2 ==> NonIncreasing(Keys(syms[..n])) && Kraft(Keys(syms[..n]), n) == Pow2(n)
      ensures fresh(numCodes) && numCodes.Length == MAX_SUPPORTED + 1
      ensures NonNegative(numCodes[..]) && CSum(numCodes[..], limit) == n
      ensures n > 1 ==> CompleteHist(numCodes[..], limit)
      ensures var lens := Keys(syms[..n]);
        && Counts(numCodes[..], out, limit) && Limited(lens, out, limit) && (AtMost(lens, limit) ==> out == lens)
        && AtMost(lens, 32) && (n >= 2 ==> Kraft(lens, 32) == Pow2(32))
    {
      ghost var lens := Keys(syms[..n]);
      assert forall k :: 0 <= k < n ==> lens[k] == syms[k].key;
      FreeHistogram(lens, limit);
      assert MAX_TREE_DEPTH <= MAX_SUPPORTED == 32 && limit < MAX_SUPPORTED;
      hide *;
      numCodes := CountLengths(syms, n);
      out := EnforceMaxCodeSize(numCodes, n, limit, lens);
      if n <= 1 { assert numCodes[..] == Hist(lens, MAX_SUPPORTED); }
    }

    /** Hands the lengths out, the shortest to the most frequent symbols. */
    method HandOut(ghost c: seq<nat>, syms: array<SymFreq>, n: nat, numCodes: array<int>, limit: nat)
      requires Shape() && n <= syms.Length && 1 <= limit <= MAX_BITS && numCodes.Length == MAX_SUPPORTED + 1
      requires NonNegative(numCodes[..]) && CSum(numCodes[..], limit) == n
      requires forall s :: 0 <= s < sizes.Length ==> sizes[s] == 0
      requires Ranked(c, Syms(syms[..n])) && |c| == sizes.Length
      requires numCodes as object != sizes as object
      modifies sizes
      ensures Assigned(sizes[..], Syms(syms[..n]), 0, limit)
      ensures SizeCounts(numCodes[..], sizes[..], limit)
    {
      assert limit < MAX_SUPPORTED && |Syms(syms[..n])| == n;
      hide *;
      ghost var h, order := numCodes[..], Syms(syms[..n]);
      UseRanks(c, order);
      NothingAssigned(sizes[..], order, h, limit);
      HandingStart(sizes[..], order, h, limit, n);
      var j := n;
      for i := 1 to limit + 1
        invariant numCodes[..] == h && 0 <= j <= n && Handing(sizes[..], order, h, limit, i, j)
      {
        j := HandRound(syms, n, numCodes, j, i, limit);
      }
      AllHanded(sizes[..], order, h, limit, j);
    }

    /** Gives length `i` to as many symbols as there are codes of that length. */
    method HandRound(syms: array<SymFreq>, n: nat, numCodes: array<int>, j: nat, i: nat, limit: nat) returns (j': nat)
      requires Shape() && n <= syms.Length && 1 <= i <= limit <= MAX_BITS && numCodes.Length == MAX_SUPPORTED + 1
      requires j <= n
      requires Handing(sizes[..], Syms(syms[..n]), numCodes[..], limit, i, j) && numCodes as object != sizes as object
      modifies sizes
      ensures j' <= n && Handing(sizes[..], Syms(syms[..n]), numCodes[..], limit, i + 1, j')
    {
      ghost var h, order := numCodes[..], Syms(syms[..n]);
      HandingParts(sizes[..], order, h, limit, i, j);
      assert numCodes[i] == h[i];
      hide *;
      j' := HandLength(syms, n, numCodes[i], j, i, h, limit);
      HandingNext(sizes[..], order, h, limit, i, j, j');
    }

    /** Gives length `i` to the next `count` symbols. */
    method HandLength(syms: array<SymFreq>, n: nat, count: int, j: nat, i: nat, ghost h: seq<int>, ghost limit: nat)
        returns (j': nat)
      requires Shape() && n <= syms.Length && 1 <= i <= limit < |h| && limit <= MAX_BITS && count == h[i] >= 0
      requires j >= count
      requires Assigned(sizes[..], Syms(syms[..n]), j, i - 1) && HandedOut(sizes[..], h, limit, i, h[i])
      modifies sizes
      ensures j' == j - count && Assigned(sizes[..], Syms(syms[..n]), j', i)
      ensures i < limit ==> HandedOut(sizes[..], h, limit, i + 1, h[i + 1])
      ensures i == limit ==> HandedOut(sizes[..], h, limit, i, 0)
    {
      hide *;
      ghost var order := Syms(syms[..n]);
      AssignedRaise(sizes[..], order, j, i);
      j' := j;
      var l := count;
      while l > 0
        invariant 0 <= l <= count && j' == j - count + l
        invariant Assigned(sizes[..], order, j', i) && HandedOut(sizes[..], h, limit, i, l)
      {
        j' := HandOne(syms, n, j', i, h, limit, l);
        l := l - 1;
      }
      if i < limit { HandedNext(sizes[..], h, limit, i); }
    }

    method HandOne(syms: array<SymFreq>, n: nat, j: nat, i: nat, ghost h: seq<int>, ghost limit: nat, ghost l: int)
        returns (j': nat)
      requires Shape() && n <= syms.Length && 0 < j <= n && 1 <= i <= limit
      requires Assigned(sizes[..], Syms(syms[..n]), j, i) && HandedOut(sizes[..], h, limit, i, l)
      modifies sizes
      ensures j' == j - 1
      ensures Assigned(sizes[..], Syms(syms[..n]), j', i) && HandedOut(sizes[..], h, limit, i, l - 1)
    {
      ghost var z, order := sizes[..], Syms(syms[..n]);
      AssignStep(z, order, j, i);
      HandStep(z, h, limit, i, l, order[j - 1]);
      j' := j - 1;
      assert syms[j'].sym == order[j'];
      hide *;
      sizes[syms[j'].sym] := i;
      assert sizes[..] == z[order[j'] := i];
    }

    /** The dynamic case: sizes and codes for the symbols that were counted. No code for these symbols
        is cheaper, unless lengths had to be limited; then, with 15 bits, little is lost. */
    method Optimize(counts: array<nat>, limit: nat) returns (ghost plan: Plan, ghost order: seq<nat>)
      requires Shape() && counts.Length == sizes.Length && counts != sizes && counts != codes
      requires 1 <= limit <= MAX_BITS && counts.Length <= Pow2(limit) && Sum(counts[..]) < 0x1_0000
      modifies sizes, codes
      ensures Valid() && Optimized(counts[..], sizes[..], limit)
      ensures plan.Costs(counts[..], order, limit)
      ensures AtMost(plan.free, limit) || 2 * Sum(counts[..]) < Fib(limit, 2, 1) ==> Cheap(counts[..], sizes[..], 0)
      ensures limit == 15 ==> Cheap(counts[..], sizes[..], MaxLoss(counts[..]))
    {
      ghost var c := counts[..];
      var syms, n, numCodes;
      syms, n, numCodes, plan := PlanLengths(counts, limit);
      ghost var h := numCodes[..];
      Clear();
      assert numCodes[..] == h && counts[..] == c;
      order := Syms(syms[..n]);
      hide *;
      UsePlan(c, syms, n, numCodes, limit, plan);
      NeverLimited(c, order, plan, limit);
    }

    method UsePlan(ghost c: seq<nat>, syms: array<SymFreq>, n: nat, numCodes: array<int>, limit: nat, ghost plan: Plan)
      requires Shape() && |c| == sizes.Length && n <= syms.Length && numCodes.Length == MAX_SUPPORTED + 1
      requires numCodes as object != sizes as object && numCodes as object != codes as object
      requires Ranked(c, Syms(syms[..n])) && forall s :: 0 <= s < sizes.Length ==> sizes[s] == 0
      requires 1 <= limit <= MAX_BITS && plan.For(c, Syms(syms[..n]), numCodes[..], limit)
      requires NonNegative(numCodes[..]) && CSum(numCodes[..], limit) == n
      requires n > 1 ==> CompleteHist(numCodes[..], limit)
      modifies sizes, codes
      ensures Valid() && Optimized(c, sizes[..], limit)
      ensures plan.Costs(c, Syms(syms[..n]), limit)
      ensures AtMost(plan.free, limit) ==> Cheap(c, sizes[..], 0)
      ensures limit == 15 ==> Cheap(c, sizes[..], MaxLoss(c))
    {
      assert sizes != codes;
      hide *;
      ghost var order, h := Syms(syms[..n]), numCodes[..];
      HandOut(c, syms, n, numCodes, limit);
      ghost var z := sizes[..];
      assert |z| == sizes.Length && numCodes[..] == h;
      FinishSizes(c, order, z, h, limit, n);
      PlanIsCheap(c, order, z, h, limit, plan);
      AssignCodes(numCodes, limit);
      assert sizes[..] == z;
    }

    method Clear()
      modifies sizes, codes
      ensures forall s :: 0 <= s < sizes.Length ==> sizes[s] == 0
    {
      forall i | 0 <= i < codes.Length { codes[i] := 0; }
      forall i | 0 <= i < sizes.Length { sizes[i] := 0; }
    }
  }

  lemma UseRanks(counts: seq<nat>, order: seq<nat>)
    requires Ranked(counts, order)
    ensures forall k :: 0 <= k < |order| ==> order[k] < |counts|
    ensures forall p, q :: 0 <= p < q < |order| ==> order[p] != order[q]
  {
  }

  lemma FinishSizes(c: seq<nat>, order: seq<nat>, z: seq<nat>, h: seq<int>, limit: nat, n: nat)
    requires Ranked(c, order) && Assigned(z, order, 0, limit) && |z| == |c| && |h| == MAX_SUPPORTED + 1
    requires 1 <= limit <= MAX_BITS && CSum(h, limit) == n && (n > 1 ==> CompleteHist(h, limit))
    requires SizeCounts(h, z, limit)
    ensures Fits(z) && Optimized(c, z, limit)
    ensures forall s :: 0 <= s < |z| ==> z[s] <= limit
  {
    SizesAtMost(z, order, limit);
    AcceptedSizes(z, h, limit, n);
    AcceptedFits(z);
    OptimizedSizes(c, order, z, limit);
  }

  lemma SameSyms(a: seq<SymFreq>, b: seq<SymFreq>, n: nat)
    requires OnlyKeys(b, a, n)
    ensures Syms(b[..n]) == Syms(a[..n])
  {
    assert forall k :: 0 <= k < n ==> Syms(b)[k] == Syms(a)[k];
  }

  lemma SizesAtMost(z: seq<nat>, syms: seq<nat>, limit: nat)
    requires Assigned(z, syms, 0, limit)
    ensures forall s :: 0 <= s < |z| ==> z[s] <= limit
  {
    forall s: nat | s < |z| ensures z[s] <= limit {
      if z[s] > 0 {
        assert Listed(syms, 0, s);
        var k: nat :| k < |syms| && syms[k] == s;
      }
    }
  }

  /** The histogram of the unlimited lengths. */
  lemma FreeHistogram(lens: seq<nat>, limit: nat)
    requires 1 <= limit <= MAX_BITS
    requires forall k :: 0 <= k < |lens| ==> 1 <= lens[k] <= MAX_SUPPORTED && lens[k] <= |lens|
    requires |lens| >= 2 ==> NonIncreasing(lens) && Kraft(lens, |lens|) == Pow2(|lens|)
    ensures CSum(Hist(lens, MAX_SUPPORTED), MAX_SUPPORTED) == |lens| && AtMost(lens, 32) && NonIncreasing(lens)
    ensures |lens| >= 2 ==> CompleteHist(Hist(lens, MAX_SUPPORTED), MAX_SUPPORTED) && Kraft(lens, 32) == Pow2(32)
    ensures |lens| <= 1 ==> CSum(Hist(lens, MAX_SUPPORTED), limit) == |lens|
    ensures |lens| <= 1 ==> forall k :: 0 <= k < |lens| ==> lens[k] <= limit
  {
    KraftIsKSum(lens, MAX_SUPPORTED);
    if |lens| >= 2 { KraftShift(lens, |lens|, MAX_SUPPORTED); } else { FewLengths(lens, limit); }
    hide CSum, KSum, Kraft, Count, Pow2;
  }

  /** With at most one symbol, every code has length 1. */
  lemma FewLengths(lens: seq<nat>, limit: nat)
    requires |lens| <= 1 && 1 <= limit <= MAX_SUPPORTED && (|lens| == 1 ==> lens[0] == 1)
    ensures CSum(Hist(lens, MAX_SUPPORTED), limit) == |lens|
  {
    var h := Hist(lens, MAX_SUPPORTED);
    assert forall l: nat :: Count(lens, l, |lens|) == if |lens| == 1 && l == 1 then 1 else 0;
    OnlyOnes(h, limit);
  }

  lemma {:induction false} OnlyOnes(h: seq<int>, i: nat)
    requires 1 <= i < |h| && forall l :: 2 <= l < |h| ==> h[l] == 0
    ensures CSum(h, i) == h[1]
  {
    if i > 1 { OnlyOnes(h, i - 1); }
  }
}
