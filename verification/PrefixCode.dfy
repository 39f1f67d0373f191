/** Canonical Huffman codes (RFC 1951 section 3.2.2): code values from code sizes, and the proof
    that the resulting words are prefix-free and, for a complete table, cover every bit string.

    The proofs place symbol `s` on the interval `[Pos(s), Pos(s) + 2^(15 - size))` of
    `[0, 2^15)`; in canonical order the intervals are laid out one after the other. */
module PrefixCode {
  import opened Bits

  const MAX_BITS: nat := 15

  predicate ValidSizes(sizes: seq<nat>) {
    forall i :: 0 <= i < |sizes| ==> sizes[i] <= MAX_BITS
  }

  predicate Used(sizes: seq<nat>, s: nat) {
    s < |sizes| && 0 < sizes[s] <= MAX_BITS
  }

  /** How many of the first `k` symbols have code size `l`. */
  function Count(sizes: seq<nat>, l: nat, k: nat): nat
    requires k <= |sizes|
  {
    if k == 0 then 0 else Count(sizes, l, k - 1) + (if sizes[k - 1] == l then 1 else 0)
  }

  /** The smallest code of size `l`. */
  function FirstCode(sizes: seq<nat>, l: nat): nat {
    if l <= 1 then 0 else 2 * (FirstCode(sizes, l - 1) + Count(sizes, l - 1, |sizes|))
  }

  function CodeOf(sizes: seq<nat>, s: nat): nat
    requires Used(sizes, s)
  {
    FirstCode(sizes, sizes[s]) + Count(sizes, sizes[s], s)
  }

  /** The bits sent for symbol `s`, first bit sent first. */
  function Word(sizes: seq<nat>, s: nat): (w: seq<bool>)
    requires Used(sizes, s)
    ensures |w| == sizes[s]
  {
    MsbBits(CodeOf(sizes, s), sizes[s])
  }

  function Weight(l: nat): nat
    requires l <= MAX_BITS
  {
    Pow2(MAX_BITS - l)
  }

  function Term(sizes: seq<nat>, l: nat, s: nat, t: nat): nat
    requires ValidSizes(sizes) && t < |sizes|
  {
    if 0 < sizes[t] && (sizes[t] < l || (sizes[t] == l && t < s)) then Weight(sizes[t]) else 0
  }

  function PosUpTo(sizes: seq<nat>, l: nat, s: nat, k: nat): nat
    requires ValidSizes(sizes) && k <= |sizes|
  {
    if k == 0 then 0 else PosUpTo(sizes, l, s, k - 1) + Term(sizes, l, s, k - 1)
  }

  /** Total weight of the symbols that come before symbol `s` of size `l` in canonical order. */
  function Pos(sizes: seq<nat>, l: nat, s: nat): nat
    requires ValidSizes(sizes)
  {
    PosUpTo(sizes, l, s, |sizes|)
  }

  /** The Kraft sum of the table, scaled by 2^15. */
  function Total(sizes: seq<nat>): nat
    requires ValidSizes(sizes)
  {
    Pos(sizes, MAX_BITS + 1, 0)
  }

  predicate Fits(sizes: seq<nat>) {
    ValidSizes(sizes) && Total(sizes) <= Pow2(MAX_BITS)
  }

  predicate Complete(sizes: seq<nat>) {
    ValidSizes(sizes) && Total(sizes) == Pow2(MAX_BITS)
  }

  /** The 15-bit number whose leading bits, from bit `i` on, are `w`, followed by zeros. */
  function LeftJust(w: seq<bool>, i: nat): nat
    requires i + |w| <= MAX_BITS
  {
    if w == [] then 0 else (if w[0] then Weight(i + 1) else 0) + LeftJust(w[1..], i + 1)
  }

  // ---------------------------------------------------------------- positions

  lemma {:induction false} PosShift(sizes: seq<nat>, l: nat, k: nat)
    requires ValidSizes(sizes) && k <= |sizes|
    ensures PosUpTo(sizes, l + 1, 0, k) == PosUpTo(sizes, l, |sizes|, k)
  {
    if k > 0 { PosShift(sizes, l, k - 1); }
  }

  lemma {:induction false} PosRank(sizes: seq<nat>, l: nat, s: nat, k: nat)
    requires ValidSizes(sizes) && s <= |sizes| && k <= |sizes| && 0 < l <= MAX_BITS
    ensures PosUpTo(sizes, l, s, k) ==
      PosUpTo(sizes, l, 0, k) + Count(sizes, l, if k <= s then k else s) * Weight(l)
  {
    if k > 0 {
      PosRank(sizes, l, s, k - 1);
      MulAdd(Count(sizes, l, if k - 1 <= s then k - 1 else s), 1, Weight(l));
      hide Weight;
    }
  }

  /** The code values computed by the algorithm are the canonical positions. */
  lemma {:induction false} PosIsCode(sizes: seq<nat>, l: nat, s: nat)
    requires ValidSizes(sizes) && s <= |sizes| && 0 < l <= MAX_BITS
    ensures Pos(sizes, l, s) == (FirstCode(sizes, l) + Count(sizes, l, s)) * Weight(l)
    decreases l, s
  {
    if s > 0 {
      PosIsCode(sizes, l, 0);
      PosRank(sizes, l, s, |sizes|);
      MulAdd(FirstCode(sizes, l), Count(sizes, l, s), Weight(l));
    } else if l == 1 {
      NothingBeforeOne(sizes, |sizes|);
    } else {
      PosShift(sizes, l - 1, |sizes|);
      PosIsCode(sizes, l - 1, |sizes|);
      MulTwice(FirstCode(sizes, l - 1) + Count(sizes, l - 1, |sizes|), Weight(l));
    }
  }

  lemma {:induction false} NothingBeforeOne(sizes: seq<nat>, k: nat)
    requires ValidSizes(sizes) && k <= |sizes|
    ensures PosUpTo(sizes, 1, 0, k) == 0
  {
    if k > 0 { NothingBeforeOne(sizes, k - 1); }
  }

  predicate Precedes(l: nat, s: nat, l': nat, s': nat) {
    l < l' || (l == l' && s < s')
  }

  lemma {:induction false} PosOrderedUpTo(sizes: seq<nat>, t: nat, l: nat, s: nat, k: nat)
    requires ValidSizes(sizes) && k <= |sizes| && Used(sizes, t) && Precedes(sizes[t], t, l, s)
    ensures PosUpTo(sizes, sizes[t], t, k) + (if t < k then Weight(sizes[t]) else 0) <= PosUpTo(sizes, l, s, k)
  {
    if k > 0 { PosOrderedUpTo(sizes, t, l, s, k - 1); }
  }

  /** Intervals of canonically ordered symbols do not overlap, and stay below the total. */
  lemma PosOrdered(sizes: seq<nat>, t: nat, l: nat, s: nat)
    requires ValidSizes(sizes) && Used(sizes, t) && Precedes(sizes[t], t, l, s)
    ensures Pos(sizes, sizes[t], t) + Weight(sizes[t]) <= Pos(sizes, l, s)
  {
    PosOrderedUpTo(sizes, t, l, s, |sizes|);
  }

  lemma WeightScale(l: nat)
    requires l <= MAX_BITS
    ensures Pow2(l) * Weight(l) == Pow2(MAX_BITS)
  {
    Pow2Add(l, MAX_BITS - l);
  }

  lemma MulOrder(c: nat, p: nat, w: nat)
    requires c * w < p * w
    ensures c < p
  {
    if p <= c { MulMono(w, p, c); }
  }

  lemma CodeFits(sizes: seq<nat>, s: nat)
    requires Fits(sizes) && Used(sizes, s)
    ensures CodeOf(sizes, s) < Pow2(sizes[s])
    ensures LeftJust(Word(sizes, s), 0) == Pos(sizes, sizes[s], s)
  {
    var l := sizes[s];
    PosIsCode(sizes, l, s);
    PosOrdered(sizes, s, MAX_BITS + 1, 0);
    WeightScale(l);
    MulOrder(CodeOf(sizes, s), Pow2(l), Weight(l));
    LeftJustBits(CodeOf(sizes, s), l);
  }

  // ---------------------------------------------------------------- bit strings as numbers

  lemma {:induction false} LeftJustAppend(a: seq<bool>, b: seq<bool>, i: nat)
    requires i + |a| + |b| <= MAX_BITS
    ensures LeftJust(a + b, i) == LeftJust(a, i) + LeftJust(b, i + |a|)
    decreases |a|
  {
    if a == [] {
      assert a + b == b;
    } else {
      LeftJustAppend(a[1..], b, i + 1);
      assert (a + b)[1..] == a[1..] + b;
    }
  }

  lemma {:induction false} LeftJustBound(a: seq<bool>, i: nat)
    requires i + |a| <= MAX_BITS
    ensures LeftJust(a, i) + Weight(i + |a|) <= Weight(i)
    decreases |a|
  {
    if a != [] {
      LeftJustBound(a[1..], i + 1);
      assert Weight(i) == 2 * Weight(i + 1);
    }
  }

  lemma {:induction false} LeftJustBits(v: nat, n: nat)
    requires n <= MAX_BITS && v < Pow2(n)
    ensures LeftJust(MsbBits(v, n), 0) == v * Weight(n)
  {
    if n > 0 {
      LeftJustBits(v / 2, n - 1);
      var last := [v % 2 == 1];
      LeftJustAppend(MsbBits(v / 2, n - 1), last, 0);
      assert last[1..] == [];
      assert LeftJust(last, n - 1) == if v % 2 == 1 then Weight(n) else 0;
      MulTwice(v / 2, Weight(n));
      MulAdd(2 * (v / 2), v % 2, Weight(n));
    }
  }

  lemma {:induction false} LeftJustInjective(a: seq<bool>, b: seq<bool>, i: nat)
    requires |a| == |b| && i + |a| <= MAX_BITS
    requires LeftJust(a, i) < LeftJust(b, i) + Weight(i + |a|)
    requires LeftJust(b, i) < LeftJust(a, i) + Weight(i + |a|)
    ensures a == b
    decreases |a|
  {
    if a != [] {
      LeftJustBound(a[1..], i + 1);
      LeftJustBound(b[1..], i + 1);
      LeftJustInjective(a[1..], b[1..], i + 1);
      assert a == [a[0]] + a[1..];
      assert b == [b[0]] + b[1..];
    }
  }

  lemma LeftJustPrefix(a: seq<bool>, b: seq<bool>)
    requires a <= b && |b| <= MAX_BITS
    ensures LeftJust(a, 0) <= LeftJust(b, 0) < LeftJust(a, 0) + Weight(|a|)
  {
    var c := b[|a|..];
    assert b == a + c;
    LeftJustAppend(a, c, 0);
    LeftJustBound(c, |a|);
  }

  lemma LeftJustPrefixConverse(a: seq<bool>, b: seq<bool>)
    requires |a| <= |b| <= MAX_BITS
    requires LeftJust(a, 0) <= LeftJust(b, 0) < LeftJust(a, 0) + Weight(|a|)
    ensures a <= b
  {
    LeftJustPrefix(b[..|a|], b);
    LeftJustInjective(a, b[..|a|], 0);
  }

  // ---------------------------------------------------------------- the code property

  lemma Apart(sizes: seq<nat>, a: nat, b: nat, w: seq<bool>)
    requires Fits(sizes) && Used(sizes, a) && Used(sizes, b) && Precedes(sizes[a], a, sizes[b], b)
    ensures !(Word(sizes, a) <= w && Word(sizes, b) <= w)
  {
    if Word(sizes, a) <= w && Word(sizes, b) <= w {
      var u := w[..sizes[b]];
      assert Word(sizes, a) <= u && Word(sizes, b) <= u;
      PosOrdered(sizes, a, sizes[b], b);
      CodeFits(sizes, a);
      CodeFits(sizes, b);
      LeftJustPrefix(Word(sizes, a), u);
      LeftJustPrefix(Word(sizes, b), u);
    }
  }

  /** No two symbols' words can start the same bit string. */
  lemma PrefixFree(sizes: seq<nat>, s: nat, t: nat, w: seq<bool>)
    requires Fits(sizes) && Used(sizes, s) && Used(sizes, t)
    requires Word(sizes, s) <= w && Word(sizes, t) <= w
    ensures s == t
  {
    if s != t {
      if Precedes(sizes[s], s, sizes[t], t) { Apart(sizes, s, t, w); } else { Apart(sizes, t, s, w); }
    }
  }

  lemma {:induction false} PosStep(sizes: seq<nat>, l: nat, s: nat, k: nat)
    requires ValidSizes(sizes) && s < |sizes| && k <= |sizes| && 0 < l <= MAX_BITS
    ensures PosUpTo(sizes, l, s + 1, k) == PosUpTo(sizes, l, s, k) + (if sizes[s] == l && s < k then Weight(l) else 0)
  {
    if k > 0 { PosStep(sizes, l, s, k - 1); }
  }

  lemma {:induction false} FindSymbol(sizes: seq<nat>, v: nat, l: nat, s: nat) returns (t: nat)
    requires ValidSizes(sizes) && s <= |sizes| && 0 < l <= MAX_BITS
    requires Pos(sizes, l, s) <= v < Total(sizes)
    ensures Used(sizes, t) && Pos(sizes, sizes[t], t) <= v < Pos(sizes, sizes[t], t) + Weight(sizes[t])
    decreases MAX_BITS - l, |sizes| - s
  {
    if s == |sizes| {
      PosShift(sizes, l, |sizes|);
      t := FindSymbol(sizes, v, l + 1, 0);
    } else {
      PosStep(sizes, l, s, |sizes|);
      if v < Pos(sizes, l, s + 1) {
        t := s;
      } else {
        t := FindSymbol(sizes, v, l, s + 1);
      }
    }
  }

  /** Every position below the total lies on some symbol's interval. */
  lemma Covered(sizes: seq<nat>, v: nat) returns (t: nat)
    requires ValidSizes(sizes) && v < Total(sizes)
    ensures Used(sizes, t) && Pos(sizes, sizes[t], t) <= v < Pos(sizes, sizes[t], t) + Weight(sizes[t])
  {
    NothingBeforeOne(sizes, |sizes|);
    t := FindSymbol(sizes, v, 1, 0);
  }

  /** With a complete table, every 15-bit string starts with some symbol's word. */
  lemma CompleteCovers(sizes: seq<nat>, w: seq<bool>) returns (t: nat)
    requires Complete(sizes) && |w| == MAX_BITS
    ensures Used(sizes, t) && Word(sizes, t) <= w
  {
    LeftJustBound(w, 0);
    t := Covered(sizes, LeftJust(w, 0));
    CodeFits(sizes, t);
    LeftJustPrefixConverse(Word(sizes, t), w);
  }

  // ---------------------------------------------------------------- inner nodes

  function Zeros(k: nat): (bs: seq<bool>)
    ensures |bs| == k
  {
    seq(k, i => false)
  }

  /** `p` is a proper prefix of the word of one of the first `m` symbols. */
  ghost predicate Inner(sizes: seq<nat>, m: nat, p: seq<bool>) {
    exists s: nat :: s < m && Used(sizes, s) && |p| < sizes[s] && p <= Word(sizes, s)
  }

  /** Symbol `u` is the first word right of the middle of node `p`. */
  ghost predicate RightOfMiddle(sizes: seq<nat>, p: seq<bool>, u: nat) {
    Used(sizes, u) && |p| < sizes[u] && Word(sizes, u) == p + [true] + Zeros(sizes[u] - |p| - 1)
  }

  /** In a complete code each inner node has a word that starts just right of its middle. */
  lemma MiddleWord(sizes: seq<nat>, m: nat, p: seq<bool>) returns (u: nat)
    requires Complete(sizes) && Inner(sizes, m, p)
    ensures RightOfMiddle(sizes, p, u)
  {
    var s: nat :| s < m && Used(sizes, s) && |p| < sizes[s] && p <= Word(sizes, s);
    var w := p + [true] + Zeros(MAX_BITS - |p| - 1);
    u := CompleteCovers(sizes, w);
    if sizes[u] <= |p| {
      assert w[..|p|] == p;
      assert Word(sizes, u) <= p;
      assert Word(sizes, u) <= Word(sizes, s);
      PrefixFree(sizes, u, s, Word(sizes, s));
    } else {
      assert Word(sizes, u) == w[..sizes[u]];
    }
  }

  /** Different inner nodes have different words right of the middle. */
  lemma MiddleInjective(sizes: seq<nat>, p: seq<bool>, q: seq<bool>, u: nat)
    requires RightOfMiddle(sizes, p, u) && RightOfMiddle(sizes, q, u)
    ensures p == q
  {
    var w := Word(sizes, u);
    assert w[|p|] && w[|q|];
    assert forall i :: |p| < i < |w| ==> !w[i];
    assert forall i :: |q| < i < |w| ==> !w[i];
    assert |p| == |q|;
    assert p == w[..|p|] && q == w[..|q|];
  }

  lemma {:induction false} CountByMiddle(sizes: seq<nat>, nodes: set<seq<bool>>, syms: set<nat>)
    requires forall p :: p in nodes ==> exists u :: u in syms && RightOfMiddle(sizes, p, u)
    ensures |nodes| <= |syms|
    decreases |nodes|
  {
    if nodes != {} {
      var p :| p in nodes;
      var u :| u in syms && RightOfMiddle(sizes, p, u);
      forall q | q in nodes - {p}
        ensures exists v :: v in syms - {u} && RightOfMiddle(sizes, q, v)
      {
        var v :| v in syms && RightOfMiddle(sizes, q, v);
        if v == u { MiddleInjective(sizes, p, q, u); }
      }
      CountByMiddle(sizes, nodes - {p}, syms - {u});
    }
  }

  function Below(n: nat): (r: set<nat>)
    ensures |r| == n && forall u: nat :: u in r <==> u < n
  {
    if n == 0 then {} else Below(n - 1) + {n - 1}
  }

  /** A complete code over `n` symbols has at most `n` inner nodes. */
  lemma InnerCount(sizes: seq<nat>, m: nat, nodes: set<seq<bool>>)
    requires Complete(sizes) && forall p :: p in nodes ==> Inner(sizes, m, p)
    ensures |nodes| <= |sizes|
  {
    var syms := Below(|sizes|);
    forall p | p in nodes
      ensures exists u :: u in syms && RightOfMiddle(sizes, p, u)
    {
      var u := MiddleWord(sizes, m, p);
      assert u in syms;
    }
    CountByMiddle(sizes, nodes, syms);
  }

  // ---------------------------------------------------------------- bit reversal

  /** The loop with which both sides reverse a code, so that it can be sent low bit first. */
  method ReverseCode(code: nat, size: nat) returns (rev: nat)
    requires code < Pow2(size)
    ensures rev < Pow2(size)
    ensures BitsOf(rev, size) == MsbBits(code, size) && rev == Val(MsbBits(code, size))
  {
    ghost var w := MsbBits(code, size);
    rev := 0;
    var c, l := code, size;
    while l > 0
      invariant 0 <= l <= size && w[..l] == MsbBits(c, l) && rev == Val(w[l..])
    {
      rev := 2 * rev + c % 2;
      c := c / 2;
      l := l - 1;
      assert w[l..][1..] == w[l + 1..];
      assert w[..l + 1][..l] == w[..l];
    }
    assert w[0..] == w;
    ValBound(w);
    BitsOfVal(w);
  }
}
