/** The least-significant-digit radix sort of symbol frequencies (`tdefl_radix_sort_syms`). */
module RadixSort {
  import opened MinRedundancy
  import opened CodeCost
  import opened Bits

  /** The entries whose digit at weight `unit` is `v`, in order. */
  function Bucket(s: seq<SymFreq>, unit: nat, v: nat): seq<SymFreq>
    requires unit > 0
  {
    if s == [] then [] else
      var l := |s| - 1;
      if Digit(s[l].key, unit) == v then Bucket(s[..l], unit, v) + [s[l]] else Bucket(s[..l], unit, v)
  }

  function Digit(key: nat, unit: nat): (d: nat)
    requires unit > 0
    ensures d < 256
  {
    (key / unit) % 256
  }

  /** The first `k` buckets, one after the other. */
  function Buckets(s: seq<SymFreq>, unit: nat, k: nat): seq<SymFreq>
    requires unit > 0
  {
    if k == 0 then [] else Buckets(s, unit, k - 1) + Bucket(s, unit, k - 1)
  }

  /** The entries with a given key, in order. */
  function WithKey(s: seq<SymFreq>, key: nat): seq<SymFreq> {
    if s == [] then [] else
      var l := |s| - 1;
      if s[l].key == key then WithKey(s[..l], key) + [s[l]] else WithKey(s[..l], key)
  }

  /** `b` has the entries of `a`, and entries with equal keys are in the same order. */
  ghost predicate StablePermutation(a: seq<SymFreq>, b: seq<SymFreq>) {
    |a| == |b| && forall key :: WithKey(a, key) == WithKey(b, key)
  }

  ghost predicate SortedBy(s: seq<SymFreq>, m: nat)
    requires m > 0
  {
    forall i, j :: 0 <= i <= j < |s| ==> s[i].key % m <= s[j].key % m
  }

  // ---------------------------------------------------------------- one pass

  lemma {:induction false} BucketsTotal(s: seq<SymFreq>, unit: nat, k: nat)
    requires unit > 0 && k <= 256
    ensures |Buckets(s, unit, k)| <= |s|
    ensures k == 256 ==> |Buckets(s, unit, k)| == |s|
    decreases |s|
  {
    if s == [] {
      EmptyBuckets(unit, k);
    } else {
      var l := |s| - 1;
      BucketsTotal(s[..l], unit, k);
      BucketsPush(s[..l], s[l], unit, k);
      assert s[..l] + [s[l]] == s;
    }
  }

  lemma {:induction false} EmptyBuckets(unit: nat, k: nat)
    requires unit > 0
    ensures Buckets([], unit, k) == []
  {
    if k > 0 { EmptyBuckets(unit, k - 1); }
  }

  lemma BucketPush(s: seq<SymFreq>, e: SymFreq, unit: nat, v: nat)
    requires unit > 0
    ensures Bucket(s + [e], unit, v) == if Digit(e.key, unit) == v then Bucket(s, unit, v) + [e] else Bucket(s, unit, v)
  {
    assert (s + [e])[..|s|] == s;
  }

  lemma BucketsStep(s: seq<SymFreq>, unit: nat)
    requires unit > 0
    ensures Buckets(s, unit, 0) == []
    ensures forall k: nat :: |Buckets(s, unit, k + 1)| == |Buckets(s, unit, k)| + |Bucket(s, unit, k)|
  {
  }

  lemma {:induction false} BucketsPush(s: seq<SymFreq>, e: SymFreq, unit: nat, k: nat)
    requires unit > 0
    ensures |Buckets(s + [e], unit, k)| == |Buckets(s, unit, k)| + (if Digit(e.key, unit) < k then 1 else 0)
  {
    hide Digit, Bucket;
    if k > 0 {
      BucketsPush(s, e, unit, k - 1);
      BucketPush(s, e, unit, k - 1);
    }
  }

  lemma {:induction false} BucketsMono(s: seq<SymFreq>, unit: nat, j: nat, k: nat)
    requires unit > 0 && j < k
    ensures |Buckets(s, unit, j)| + |Bucket(s, unit, j)| <= |Buckets(s, unit, k)|
    decreases k
  {
    if j < k - 1 { BucketsMono(s, unit, j, k - 1); }
  }

  lemma {:induction false} BucketGrows(s: seq<SymFreq>, unit: nat, v: nat, i: nat)
    requires unit > 0 && i <= |s|
    ensures Bucket(s[..i], unit, v) <= Bucket(s, unit, v)
    decreases |s|
  {
    if i < |s| {
      var l := |s| - 1;
      BucketGrows(s[..l], unit, v, i);
      assert s[..l][..i] == s[..i];
    } else {
      assert s[..i] == s;
    }
  }

  /** During a pass: the buckets of the first `i` entries are in place, each in its own range. */
  ghost predicate Scattering(s: seq<SymFreq>, to: seq<SymFreq>, offsets: seq<nat>, unit: nat, i: nat)
    requires unit > 0 && i <= |s|
  {
    && |to| >= |s| && |offsets| == 256
    && forall v :: 0 <= v < 256 ==> InPlace(s, to, offsets[v], unit, i, v)
  }

  ghost predicate InPlace(s: seq<SymFreq>, to: seq<SymFreq>, offset: nat, unit: nat, i: nat, v: nat)
    requires unit > 0 && i <= |s|
  {
    var start, part := |Buckets(s, unit, v)|, Bucket(s[..i], unit, v);
    offset == start + |part| && offset <= |to| && to[start..offset] == part
  }

  lemma StartScattering(s: seq<SymFreq>, to: seq<SymFreq>, offsets: seq<nat>, unit: nat)
    requires unit > 0 && |to| >= |s| && |offsets| == 256
    requires forall v :: 0 <= v < 256 ==> offsets[v] == |Buckets(s, unit, v)|
    ensures Scattering(s, to, offsets, unit, 0)
  {
    forall v | 0 <= v < 256 ensures InPlace(s, to, offsets[v], unit, 0, v) {
      BucketsTotal(s, unit, v);
      assert s[..0] == [];
    }
  }

  lemma PlaceOne(s: seq<SymFreq>, to: seq<SymFreq>, offsets: seq<nat>, unit: nat, i: nat)
    requires unit > 0 && i < |s| && Scattering(s, to, offsets, unit, i)
    ensures var d := Digit(s[i].key, unit);
      offsets[d] < |s| && Scattering(s, to[offsets[d] := s[i]], offsets[d := offsets[d] + 1], unit, i + 1)
  {
    var d := Digit(s[i].key, unit);
    assert s[..i + 1] == s[..i] + [s[i]];
    BucketRoom(s, unit, i);
    assert InPlace(s, to, offsets[d], unit, i, d);
    var to', offsets' := to[offsets[d] := s[i]], offsets[d := offsets[d] + 1];
    forall v | 0 <= v < 256 ensures InPlace(s, to', offsets'[v], unit, i + 1, v) {
      assert InPlace(s, to, offsets[v], unit, i, v);
      BucketPush(s[..i], s[i], unit, v);
      if v == d {
        hide Bucket, Buckets, Digit;
        var start := |Buckets(s, unit, v)|;
        assert to'[start..offsets'[v]] == to[start..offsets[v]] + [s[i]];
      } else {
        RangesApart(s, unit, i, d, v);
      }
    }
  }

  /** There is room for entry `i` at the end of its bucket's part. */
  lemma BucketRoom(s: seq<SymFreq>, unit: nat, i: nat)
    requires unit > 0 && i < |s|
    ensures var d := Digit(s[i].key, unit);
      |Buckets(s, unit, d)| + |Bucket(s[..i], unit, d)| + 1 <= |Buckets(s, unit, d)| + |Bucket(s, unit, d)| <= |s|
  {
    var d := Digit(s[i].key, unit);
    BucketPush(s[..i], s[i], unit, d);
    assert s[..i + 1] == s[..i] + [s[i]];
    BucketGrows(s, unit, d, i + 1);
    BucketsMono(s, unit, d, 256);
    BucketsTotal(s, unit, 256);
  }

  /** The place for a digit-`d` entry lies outside the part of bucket `v`. */
  lemma RangesApart(s: seq<SymFreq>, unit: nat, i: nat, d: nat, v: nat)
    requires unit > 0 && i < |s| && d < 256 && v < 256 && d != v && d == Digit(s[i].key, unit)
    ensures var at := |Buckets(s, unit, d)| + |Bucket(s[..i], unit, d)|;
      at < |Buckets(s, unit, v)| || at >= |Buckets(s, unit, v)| + |Bucket(s[..i], unit, v)|
  {
    BucketRoom(s, unit, i);
    BucketGrows(s, unit, v, i);
    if d < v { BucketsMono(s, unit, d, v); } else { BucketsMono(s, unit, v, d); }
  }

  lemma {:induction false} AllPlaced(s: seq<SymFreq>, to: seq<SymFreq>, offsets: seq<nat>, unit: nat, k: nat)
    requires unit > 0 && Scattering(s, to, offsets, unit, |s|) && k <= 256
    ensures |Buckets(s, unit, k)| <= |to| && to[..|Buckets(s, unit, k)|] == Buckets(s, unit, k)
    decreases k
  {
    if k > 0 {
      AllPlaced(s, to, offsets, unit, k - 1);
      assert InPlace(s, to, offsets[k - 1], unit, |s|, k - 1);
      assert s[..|s|] == s;
      hide Bucket;
      var a, b := |Buckets(s, unit, k - 1)|, |Buckets(s, unit, k)|;
      assert to[..b] == to[..a] + to[a..b];
    }
  }

  // ---------------------------------------------------------------- what the passes achieve

  lemma {:induction false} BucketWithKey(s: seq<SymFreq>, unit: nat, v: nat, key: nat)
    requires unit > 0
    ensures WithKey(Bucket(s, unit, v), key) == if Digit(key, unit) == v then WithKey(s, key) else []
  {
    if s != [] {
      var l := |s| - 1;
      BucketWithKey(s[..l], unit, v, key);
      var b := Bucket(s[..l], unit, v);
      if Digit(s[l].key, unit) == v { assert (b + [s[l]])[..|b|] == b; }
    }
  }

  lemma {:induction false} WithKeyAppend(a: seq<SymFreq>, b: seq<SymFreq>, key: nat)
    ensures WithKey(a + b, key) == WithKey(a, key) + WithKey(b, key)
    decreases |b|
  {
    if b == [] {
      assert a + b == a;
    } else {
      var l := |b| - 1;
      assert (a + b)[..|a + b| - 1] == a + b[..l];
      WithKeyAppend(a, b[..l], key);
    }
  }

  lemma {:induction false} BucketsWithKey(s: seq<SymFreq>, unit: nat, k: nat, key: nat)
    requires unit > 0
    ensures WithKey(Buckets(s, unit, k), key) == if Digit(key, unit) < k then WithKey(s, key) else []
  {
    if k > 0 {
      BucketsWithKey(s, unit, k - 1, key);
      WithKeyAppend(Buckets(s, unit, k - 1), Bucket(s, unit, k - 1), key);
      BucketWithKey(s, unit, k - 1, key);
    }
  }

  lemma PassStable(s: seq<SymFreq>, unit: nat)
    requires unit > 0
    ensures StablePermutation(s, Buckets(s, unit, 256))
  {
    BucketsTotal(s, unit, 256);
    forall key ensures WithKey(s, key) == WithKey(Buckets(s, unit, 256), key) { BucketsWithKey(s, unit, 256, key); }
  }

  lemma {:induction false} BucketElements(s: seq<SymFreq>, unit: nat, v: nat)
    requires unit > 0
    ensures forall i :: 0 <= i < |Bucket(s, unit, v)| ==>
      Bucket(s, unit, v)[i] in s && Digit(Bucket(s, unit, v)[i].key, unit) == v
    ensures SortedBy(s, unit) ==> SortedBy(Bucket(s, unit, v), unit)
  {
    if s != [] {
      var l := |s| - 1;
      BucketElements(s[..l], unit, v);
      var b := Bucket(s[..l], unit, v);
      if SortedBy(s, unit) {
        assert SortedBy(s[..l], unit);
        forall i | 0 <= i < |b| ensures b[i].key % unit <= s[l].key % unit {
          assert b[i] in s[..l];
        }
      }
    }
  }

  /** After a pass at weight `unit` over entries sorted by their lower part, the entries are
      sorted by everything up to that digit. */
  lemma {:induction false} BucketsSorted(s: seq<SymFreq>, unit: nat, k: nat)
    requires (unit == 1 || unit == 256) && SortedBy(s, unit) && k <= 256
    ensures forall i :: 0 <= i < |Buckets(s, unit, k)| ==> Digit(Buckets(s, unit, k)[i].key, unit) < k
    ensures SortedBy(Buckets(s, unit, k), 256 * unit)
  {
    if k > 0 {
      BucketsSorted(s, unit, k - 1);
      BucketElements(s, unit, k - 1);
      var a, b := Buckets(s, unit, k - 1), Bucket(s, unit, k - 1);
      var c: seq<SymFreq> := a + b;
      forall i, j | 0 <= i <= j < |c| ensures c[i].key % (256 * unit) <= c[j].key % (256 * unit) {
        DigitSplit(c[i].key, unit);
        DigitSplit(c[j].key, unit);
      }
    }
  }

  lemma DigitSplit(key: nat, unit: nat)
    requires unit == 1 || unit == 256
    ensures key % (256 * unit) == Digit(key, unit) * unit + key % unit
  {
    var q := key / 256;
    DivUnique(key, 65536, q / 256, 256 * (q % 256) + key % 256);
  }

  // ---------------------------------------------------------------- the sort

  /** Counts both digits of every key. */
  method Histogram(a: array<SymFreq>, n: nat) returns (hist: array<nat>)
    requires n <= a.Length
    ensures fresh(hist) && hist.Length == 512
    ensures forall v :: 0 <= v < 256 ==> hist[v] == |Bucket(a[..n], 1, v)| && hist[256 + v] == |Bucket(a[..n], 256, v)|
  {
    hist := new nat[512](_ => 0);
    for i := 0 to n
      invariant forall v :: 0 <= v < 256 ==>
        hist[v] == |Bucket(a[..i], 1, v)| && hist[256 + v] == |Bucket(a[..i], 256, v)|
    {
      var freq := a[i].key;
      assert a[..i + 1] == a[..i] + [a[i]];
      forall v | 0 <= v < 256
        ensures Bucket(a[..i + 1], 1, v) ==
          if Digit(freq, 1) == v then Bucket(a[..i], 1, v) + [a[i]] else Bucket(a[..i], 1, v)
        ensures Bucket(a[..i + 1], 256, v) ==
          if Digit(freq, 256) == v then Bucket(a[..i], 256, v) + [a[i]] else Bucket(a[..i], 256, v)
      {
        BucketPush(a[..i], a[i], 1, v);
        BucketPush(a[..i], a[i], 256, v);
      }
      hide Bucket;
      hist[freq % 256] := hist[freq % 256] + 1;
      hist[256 + (freq / 256) % 256] := hist[256 + (freq / 256) % 256] + 1;
    }
  }

  /** Where each bucket starts. */
  method StartOffsets(hist: array<nat>, base: nat, ghost s: seq<SymFreq>, ghost unit: nat) returns (offsets: array<nat>)
    requires unit > 0 && base + 256 <= hist.Length
    requires forall v :: 0 <= v < 256 ==> hist[base + v] == |Bucket(s, unit, v)|
    ensures fresh(offsets) && offsets.Length == 256
    ensures forall v :: 0 <= v < 256 ==> offsets[v] == |Buckets(s, unit, v)|
  {
    hide *;
    BucketsStep(s, unit);
    offsets := new nat[256](_ => 0);
    var curOfs := 0;
    for i := 0 to 256
      invariant curOfs == |Buckets(s, unit, i)|
      invariant forall v :: 0 <= v < i ==> offsets[v] == |Buckets(s, unit, v)|
      invariant forall v :: 0 <= v < 256 ==> hist[base + v] == |Bucket(s, unit, v)|
    {
      offsets[i] := curOfs;
      curOfs := curOfs + hist[base + i];
    }
  }

  /** One counting pass: moves the entries to `to`, bucket by bucket. */
  method Pass(from: array<SymFreq>, to: array<SymFreq>, n: nat, hist: array<nat>, base: nat, unit: nat)
    requires from != to && n <= from.Length && n <= to.Length && unit > 0 && base + 256 <= hist.Length
    requires forall v :: 0 <= v < 256 ==> hist[base + v] == |Bucket(from[..n], unit, v)|
    modifies to
    ensures to[..n] == Buckets(from[..n], unit, 256)
  {
    ghost var s := from[..n];
    var offsets := StartOffsets(hist, base, s, unit);
    StartScattering(s, to[..], offsets[..], unit);
    hide *;
    for i := 0 to n
      invariant Scattering(s, to[..], offsets[..], unit, i) && from[..n] == s
    {
      ScatterOne(from, to, offsets, n, i, unit);
    }
    AllPlaced(s, to[..], offsets[..], unit, 256);
    BucketsTotal(s, unit, 256);
    assert to[..n] == to[..][..n];
  }

  /** Moves one entry to the end of its bucket. */
  method ScatterOne(from: array<SymFreq>, to: array<SymFreq>, offsets: array<nat>, n: nat, i: nat, unit: nat)
    requires from != to && i < n <= from.Length && unit > 0
    requires Scattering(from[..n], to[..], offsets[..], unit, i) && offsets.Length == 256
    modifies to, offsets
    ensures Scattering(from[..n], to[..], offsets[..], unit, i + 1)
  {
    hide *;
    ghost var s, to0, offsets0 := from[..n], to[..], offsets[..];
    PlaceOne(s, to0, offsets0, unit, i);
    InRange(s, to0, offsets0, unit, i);
    var d := Digit(from[i].key, unit);
    to[offsets[d]] := from[i];
    offsets[d] := offsets[d] + 1;
    assert to[..] == to0[offsets0[d] := s[i]];
    assert offsets[..] == offsets0[d := offsets0[d] + 1];
  }

  lemma InRange(s: seq<SymFreq>, to: seq<SymFreq>, offsets: seq<nat>, unit: nat, i: nat)
    requires unit > 0 && i <= |s| && Scattering(s, to, offsets, unit, i)
    ensures |offsets| == 256 && |s| <= |to|
  {
  }

  lemma StableTrans(a: seq<SymFreq>, b: seq<SymFreq>, c: seq<SymFreq>)
    requires StablePermutation(a, b) && StablePermutation(b, c)
    ensures StablePermutation(a, c)
  {
  }

  /** When all keys have a zero high byte, the low bytes are the keys. */
  lemma {:induction false} HighBytesZero(s: seq<SymFreq>)
    requires |Bucket(s, 256, 0)| == |s|
    ensures forall i :: 0 <= i < |s| ==> Digit(s[i].key, 256) == 0
    decreases |s|
  {
    if s != [] {
      var l := |s| - 1;
      BucketAtMost(s[..l], 256, 0);
      HighBytesZero(s[..l]);
      assert forall i :: 0 <= i < l ==> s[..l][i] == s[i];
    }
  }

  lemma {:induction false} BucketAtMost(s: seq<SymFreq>, unit: nat, v: nat)
    requires unit > 0
    ensures |Bucket(s, unit, v)| <= |s|
  {
    if s != [] { BucketAtMost(s[..|s| - 1], unit, v); }
  }

  /** The histogram of a later pass is that of the original order. */
  lemma BucketSizes(a: seq<SymFreq>, unit: nat, v: nat)
    requires unit > 0
    ensures |Bucket(Buckets(a, 1, 256), unit, v)| == |Bucket(a, unit, v)|
  {
    BucketOfBuckets(a, unit, v, 256);
    SplitByLow(Bucket(a, unit, v));
  }

  lemma {:induction false} BucketAppend(a: seq<SymFreq>, b: seq<SymFreq>, unit: nat, v: nat)
    requires unit > 0
    ensures Bucket(a + b, unit, v) == Bucket(a, unit, v) + Bucket(b, unit, v)
    decreases |b|
  {
    if b == [] {
      assert a + b == a;
    } else {
      var l := |b| - 1;
      assert (a + b)[..|a + b| - 1] == a + b[..l];
      BucketAppend(a, b[..l], unit, v);
    }
  }

  lemma {:induction false} BucketsCommute(s: seq<SymFreq>, unit: nat, v: nat, u: nat)
    requires unit > 0
    ensures Bucket(Bucket(s, 1, u), unit, v) == Bucket(Bucket(s, unit, v), 1, u)
  {
    if s != [] {
      var l := |s| - 1;
      var e, a, b := s[l], Bucket(s[..l], 1, u), Bucket(s[..l], unit, v);
      BucketsCommute(s[..l], unit, v, u);
      BucketPush(a, e, unit, v);
      BucketPush(b, e, 1, u);
      assert s[..l] + [e] == s;
      BucketPush(s[..l], e, 1, u);
      BucketPush(s[..l], e, unit, v);
    }
  }

  lemma {:induction false} BucketOfBuckets(a: seq<SymFreq>, unit: nat, v: nat, k: nat)
    requires unit > 0
    ensures Bucket(Buckets(a, 1, k), unit, v) == Buckets(Bucket(a, unit, v), 1, k)
  {
    hide Bucket;
    if k > 0 {
      BucketOfBuckets(a, unit, v, k - 1);
      BucketAppend(Buckets(a, 1, k - 1), Bucket(a, 1, k - 1), unit, v);
      BucketsCommute(a, unit, v, k - 1);
    } else {
      NoneLeft(unit, v);
    }
  }

  lemma NoneLeft(unit: nat, v: nat)
    requires unit > 0
    ensures Bucket([], unit, v) == []
  {
  }

  lemma SplitByLow(s: seq<SymFreq>)
    ensures |Buckets(s, 1, 256)| == |s|
  {
    BucketsTotal(s, 1, 256);
  }

  /** Sorts the first `n` entries by key; the result is whichever array they end up in. */
  method RadixSortSyms(n: nat, syms0: array<SymFreq>, syms1: array<SymFreq>) returns (sorted: array<SymFreq>)
    requires syms0 != syms1 && n <= syms0.Length && n <= syms1.Length
    requires forall i :: 0 <= i < n ==> syms0[i].key < 0x1_0000
    modifies syms0, syms1
    ensures sorted == syms0 || sorted == syms1
    ensures StablePermutation(old(syms0[..n]), sorted[..n])
    ensures NonDecreasing(Keys(sorted[..n]))
  {
    var hist := Histogram(syms0, n);
    ghost var s0 := syms0[..n];
    var totalPasses := if n == hist[256] then 1 else 2;
    hide Bucket, Buckets, Digit, StablePermutation, SortedBy;
    Pass(syms0, syms1, n, hist, 0, 1);
    FirstPass(s0);
    sorted := syms1;
    if totalPasses > 1 {
      forall v | 0 <= v < 256 ensures hist[256 + v] == |Bucket(syms1[..n], 256, v)| {
        BucketSizes(s0, 256, v);
      }
      ghost var s1 := syms1[..n];
      Pass(syms1, syms0, n, hist, 256, 256);
      SecondPass(s0, s1);
      sorted := syms0;
    } else {
      LowIsEnough(s0);
    }
  }

  lemma FirstPass(s: seq<SymFreq>)
    ensures StablePermutation(s, Buckets(s, 1, 256)) && SortedBy(Buckets(s, 1, 256), 256)
  {
    PassStable(s, 1);
    BucketsSorted(s, 1, 256);
  }

  lemma {:induction false} KeysBounded(a: seq<SymFreq>, b: seq<SymFreq>)
    requires StablePermutation(a, b) && forall i :: 0 <= i < |a| ==> a[i].key < 0x1_0000
    ensures forall i :: 0 <= i < |b| ==> b[i].key < 0x1_0000
  {
    forall i | 0 <= i < |b| ensures b[i].key < 0x1_0000 {
      HasKey(b, i);
      KeyFound(a, b[i].key);
    }
  }

  lemma {:induction false} HasKey(s: seq<SymFreq>, i: nat)
    requires i < |s|
    ensures WithKey(s, s[i].key) != []
    decreases |s|
  {
    if i < |s| - 1 { HasKey(s[..|s| - 1], i); }
  }

  lemma {:induction false} KeyFound(s: seq<SymFreq>, key: nat)
    requires WithKey(s, key) != []
    ensures exists i :: 0 <= i < |s| && s[i].key == key
    decreases |s|
  {
    var l := |s| - 1;
    if s[l].key != key {
      KeyFound(s[..l], key);
      var i :| 0 <= i < l && s[..l][i].key == key;
      assert s[i].key == key;
    }
  }

  lemma SecondPass(s0: seq<SymFreq>, s1: seq<SymFreq>)
    requires StablePermutation(s0, s1) && SortedBy(s1, 256)
    requires forall i :: 0 <= i < |s0| ==> s0[i].key < 0x1_0000
    ensures StablePermutation(s0, Buckets(s1, 256, 256)) && NonDecreasing(Keys(Buckets(s1, 256, 256)))
  {
    var s2 := Buckets(s1, 256, 256);
    PassStable(s1, 256);
    StableTrans(s0, s1, s2);
    BucketsSorted(s1, 256, 256);
    KeysBounded(s0, s2);
    hide Buckets, WithKey;
    assert forall i :: 0 <= i < |s2| ==> s2[i].key % 0x1_0000 == s2[i].key;
  }

  lemma LowIsEnough(s: seq<SymFreq>)
    requires forall i :: 0 <= i < |s| ==> s[i].key < 0x1_0000
    requires |Bucket(s, 256, 0)| == |s|
    ensures NonDecreasing(Keys(Buckets(s, 1, 256)))
  {
    var s1 := Buckets(s, 1, 256);
    FirstPass(s);
    HighBytesZero(s);
    BucketSizes(s, 256, 0);
    HighBytesZero(s1);
    KeysBounded(s, s1);
    hide Buckets, Bucket, WithKey;
    assert forall i :: 0 <= i < |s1| ==> s1[i].key % 256 == s1[i].key;
  }
}
