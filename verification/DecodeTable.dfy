/** The inflate side's Huffman tables: a 1024-entry table indexed by the next 10 bits, and for
    longer codes a binary tree whose node pairs are linked through negative entries. */
module DecodeTable {
  import opened Bits
  import opened PrefixCode

  const FAST_BITS: nat := 10
  const FAST_SIZE: nat := 1024

  // ---------------------------------------------------------------- acceptance

  function CountUpTo(sizes: seq<nat>, l: nat, k: nat): nat
    requires k <= |sizes|
  {
    if k == 0 then 0 else CountUpTo(sizes, l, k - 1) + (if 0 < sizes[k - 1] <= l then 1 else 0)
  }

  /** The tables `tinfl_decompress` builds: complete ones, and those with at most one symbol. */
  ghost predicate Accepted(sizes: seq<nat>) {
    ValidSizes(sizes) && (Complete(sizes) || CountUpTo(sizes, MAX_BITS, |sizes|) <= 1)
  }

  lemma {:induction false} CountUpToStep(sizes: seq<nat>, l: nat, k: nat)
    requires k <= |sizes|
    ensures CountUpTo(sizes, l + 1, k) == CountUpTo(sizes, l, k) + Count(sizes, l + 1, k)
  {
    if k > 0 { CountUpToStep(sizes, l, k - 1); }
  }

  lemma FirstCodes(sizes: seq<nat>)
    ensures FirstCode(sizes, 1) == 0
    ensures forall l: nat :: l >= 1 ==> FirstCode(sizes, l + 1) == 2 * (FirstCode(sizes, l) + Count(sizes, l, |sizes|))
  {
  }

  lemma {:induction false} CountUpToZero(sizes: seq<nat>, k: nat)
    requires k <= |sizes|
    ensures CountUpTo(sizes, 0, k) == 0
  {
    if k > 0 { CountUpToZero(sizes, k - 1); }
  }

  lemma {:induction false} CountUpToMono(sizes: seq<nat>, l: nat, s: nat, k: nat)
    requires s < k <= |sizes| && 0 < sizes[s] <= l
    ensures CountUpTo(sizes, l, k) >= CountUpTo(sizes, l, s) + 1
    decreases k
  {
    if s < k - 1 { CountUpToMono(sizes, l, s, k - 1); }
  }

  lemma OnlyOne(sizes: seq<nat>, s: nat, t: nat)
    requires CountUpTo(sizes, MAX_BITS, |sizes|) <= 1 && Used(sizes, s) && Used(sizes, t)
    ensures s == t
  {
    var a, b := if s < t then s else t, if s < t then t else s;
    if a < b {
      CountUpToMono(sizes, MAX_BITS, a, b);
      CountUpToMono(sizes, MAX_BITS, b, |sizes|);
    }
  }

  lemma ValFrom(w: seq<bool>, k: nat)
    requires k < |w|
    ensures Val(w[k..]) % 2 == B2N(w[k]) && Val(w[k..]) / 2 == Val(w[k + 1..])
  {
    assert w[k..][1..] == w[k + 1..];
  }

  lemma {:induction false} FewFit(sizes: seq<nat>, k: nat)
    requires ValidSizes(sizes) && k <= |sizes| && CountUpTo(sizes, MAX_BITS, k) <= 1
    ensures PosUpTo(sizes, MAX_BITS + 1, 0, k) <= if CountUpTo(sizes, MAX_BITS, k) == 0 then 0 else Pow2(14)
  {
    hide Pow2;
    if k > 0 {
      FewFit(sizes, k - 1);
      if sizes[k - 1] > 0 { Pow2Mono(MAX_BITS - sizes[k - 1], 14); }
    }
  }

  lemma AcceptedFits(sizes: seq<nat>)
    requires Accepted(sizes)
    ensures Fits(sizes)
  {
    Pow2Mono(14, MAX_BITS);
    if !Complete(sizes) { FewFit(sizes, |sizes|); }
    hide PosUpTo, CountUpTo, Pow2;
  }

  lemma FullKraft(sizes: seq<nat>)
    requires ValidSizes(sizes)
    ensures FirstCode(sizes, MAX_BITS + 1) == 2 * Total(sizes)
  {
    PosIsCode(sizes, MAX_BITS, |sizes|);
    PosShift(sizes, MAX_BITS, |sizes|);
  }

  // ---------------------------------------------------------------- the shape of the tables

  /** The number of the node pair reached by each registered bit string. */
  type Nodes = map<seq<bool>, nat>

  /** The entry that points to node pair `j`. */
  function Link(j: nat): int { -(2 * j + 1) }

  function Front(q: seq<bool>): seq<bool>
    requires q != []
  {
    q[..|q| - 1]
  }

  /** The tree entry below node `Front(q)` on the side of `q`'s last bit. */
  function Slot(idx: Nodes, q: seq<bool>): nat
    requires q != [] && Front(q) in idx
  {
    2 * idx[Front(q)] + B2N(q[|q| - 1])
  }

  function At(a: seq<int>, i: nat): int {
    if i < |a| then a[i] else 0
  }

  predicate Short(sizes: seq<nat>, s: nat) { Used(sizes, s) && sizes[s] <= FAST_BITS }

  predicate Long(sizes: seq<nat>, s: nat) { Used(sizes, s) && sizes[s] > FAST_BITS }

  function FastEntry(sizes: seq<nat>, s: nat): int
    requires s < |sizes|
  {
    512 * sizes[s] + s
  }

  /** A registered bit string is an inner node, numbered below `cnt` and linked from its parent. */
  ghost predicate NodeOk(sizes: seq<nat>, m: nat, idx: Nodes, cnt: nat, lookup: seq<int>, tree: seq<int>,
                         p: seq<bool>) {
    p in idx ==>
      && FAST_BITS <= |p| < MAX_BITS && idx[p] < cnt && Inner(sizes, m, p)
      && (|p| == FAST_BITS ==> At(lookup, Val(p)) == Link(idx[p]))
      && (|p| > FAST_BITS ==> Front(p) in idx && At(tree, Slot(idx, p)) == Link(idx[p]))
  }

  ghost predicate Distinct(idx: Nodes, p: seq<bool>, q: seq<bool>) {
    p in idx && q in idx && idx[p] == idx[q] ==> p == q
  }

  /** The fast entry for `w` belongs to symbol `s`. */
  predicate Covers(sizes: seq<nat>, s: nat, w: seq<bool>)
    requires Used(sizes, s)
  {
    |w| == FAST_BITS && Word(sizes, s) <= w
  }

  ghost predicate ShortAt(sizes: seq<nat>, k: nat, w: seq<bool>) {
    exists s: nat :: s < k && Short(sizes, s) && Covers(sizes, s, w)
  }

  ghost predicate LongAt(sizes: seq<nat>, k: nat, q: seq<bool>) {
    exists s: nat :: s < k && Long(sizes, s) && Word(sizes, s) == q
  }

  /** Symbol `s` is found at every fast entry its word covers, or at its word's tree entry. */
  ghost predicate Placed(sizes: seq<nat>, idx: Nodes, lookup: seq<int>, tree: seq<int>, s: nat) {
    && (Short(sizes, s) ==> forall w :: Covers(sizes, s, w) ==> At(lookup, Val(w)) == FastEntry(sizes, s))
    && (Long(sizes, s) ==> Front(Word(sizes, s)) in idx && At(tree, Slot(idx, Word(sizes, s))) == s)
  }

  /** A fast entry that is set belongs to a node or to a symbol. */
  ghost predicate FastOk(sizes: seq<nat>, k: nat, idx: Nodes, lookup: seq<int>, w: seq<bool>) {
    |w| == FAST_BITS && At(lookup, Val(w)) != 0 ==> w in idx || ShortAt(sizes, k, w)
  }

  /** A tree entry that is set belongs to a node or to a symbol. */
  ghost predicate SlotOk(sizes: seq<nat>, k: nat, idx: Nodes, tree: seq<int>, q: seq<bool>) {
    q != [] && Front(q) in idx && At(tree, Slot(idx, q)) != 0 ==> q in idx || LongAt(sizes, k, q)
  }

  /** The tables once the first `k` symbols are in place; nodes lead to words of the first `m`. */
  ghost predicate Inv(sizes: seq<nat>, k: nat, m: nat, idx: Nodes, cnt: nat, lookup: seq<int>, tree: seq<int>) {
    && Accepted(sizes) && |lookup| == FAST_SIZE && |idx| == cnt && 2 * cnt <= |tree|
    && (forall p :: NodeOk(sizes, m, idx, cnt, lookup, tree, p))
    && (forall p, q :: Distinct(idx, p, q))
    && (forall i :: 2 * cnt <= i < |tree| ==> tree[i] == 0)
    && (forall s: nat {:trigger Placed(sizes, idx, lookup, tree, s)} :: s < k ==> Placed(sizes, idx, lookup, tree, s))
    && (forall w :: FastOk(sizes, k, idx, lookup, w))
    && (forall q :: SlotOk(sizes, k, idx, tree, q))
  }

  lemma FastIndex(w: seq<bool>)
    requires |w| == FAST_BITS
    ensures 0 <= Val(w) < FAST_SIZE
  {
    ValBound(w);
    Pow2Values();
  }

  lemma FastParts(w: seq<bool>)
    requires |w| >= FAST_BITS
    ensures Val(w) % FAST_SIZE == Val(w[..FAST_BITS]) < FAST_SIZE
    ensures Val(w) / 512 == Val(w[FAST_BITS - 1..])
  {
    Pow2Values();
    ValPrefix(w, FAST_BITS);
    FastIndex(w[..FAST_BITS]);
    ValBit(w, FAST_BITS - 1);
  }

  lemma OnlyMatch(sizes: seq<nat>, t: nat, w: seq<bool>)
    requires Accepted(sizes) && Used(sizes, t) && Word(sizes, t) <= w
    ensures forall s: nat :: Meets(sizes, s, w, sizes[t]) ==> s == t
  {
    AcceptedFits(sizes);
    forall s: nat | Meets(sizes, s, w, sizes[t]) ensures s == t {
      if Word(sizes, s) <= w {
        PrefixFree(sizes, s, t, w);
      } else {
        PrefixFree(sizes, s, t, Word(sizes, s));
      }
    }
  }

  lemma FastIndexInjective(w: seq<bool>, v: seq<bool>)
    requires |w| == |v| && Val(w) == Val(v)
    ensures w == v
  {
    BitsOfVal(w);
    BitsOfVal(v);
  }

  /** A complete code, or a single word, has few inner nodes: the tree array is never outgrown. */
  lemma NodesBound(sizes: seq<nat>, m: nat, nodes: set<seq<bool>>)
    requires Accepted(sizes)
    requires forall p :: p in nodes ==> FAST_BITS <= |p| < MAX_BITS && Inner(sizes, m, p)
    ensures |nodes| <= |sizes| || |nodes| <= 5
  {
    if Complete(sizes) {
      InnerCount(sizes, m, nodes);
    } else if nodes != {} {
      var p :| p in nodes;
      var s: nat :| s < m && Used(sizes, s) && |p| < sizes[s] && p <= Word(sizes, s);
      var w := Word(sizes, s);
      forall q | q in nodes
        ensures |q| < |w| && q == w[..|q|]
      {
        var t: nat :| t < m && Used(sizes, t) && |q| < sizes[t] && q <= Word(sizes, t);
        OnlyOne(sizes, s, t);
      }
      OnePath(w, nodes, MAX_BITS);
    }
  }

  lemma {:induction false} OnePath(w: seq<bool>, nodes: set<seq<bool>>, hi: nat)
    requires FAST_BITS <= hi <= MAX_BITS
    requires forall q :: q in nodes ==> |q| < |w| && q == w[..|q|] && FAST_BITS <= |q| < hi
    ensures |nodes| <= hi - FAST_BITS
    decreases hi
  {
    if hi == FAST_BITS {
      assert nodes == {};
    } else if hi - 1 < |w| {
      OnePath(w, nodes - {w[..hi - 1]}, hi - 1);
    } else {
      OnePath(w, nodes, hi - 1);
    }
  }

  lemma {:induction false} Ancestor(sizes: seq<nat>, k: nat, m: nat, idx: Nodes, cnt: nat, lookup: seq<int>,
                                    tree: seq<int>, p: seq<bool>, d: nat)
    requires Inv(sizes, k, m, idx, cnt, lookup, tree)
    requires p in idx && FAST_BITS <= d <= |p|
    ensures p[..d] in idx
    decreases |p|
  {
    if d < |p| {
      assert NodeOk(sizes, m, idx, cnt, lookup, tree, p);
      Ancestor(sizes, k, m, idx, cnt, lookup, tree, Front(p), d);
      assert Front(p)[..d] == p[..d];
    } else {
      assert p[..d] == p;
    }
  }

  // ---------------------------------------------------------------- steps of the construction

  /** A word that starts below another symbol's word cannot be on the way to it. */
  lemma NoClash(sizes: seq<nat>, s: nat, t: nat, w: seq<bool>)
    requires Accepted(sizes) && Used(sizes, s) && Used(sizes, t) && s != t && w <= Word(sizes, s)
    ensures !(Word(sizes, t) <= w)
  {
    AcceptedFits(sizes);
    if Word(sizes, t) <= w { PrefixFree(sizes, s, t, Word(sizes, s)); }
  }

  /** Distinct bit strings below registered nodes have distinct slots. */
  lemma SameSlot(sizes: seq<nat>, k: nat, m: nat, idx: Nodes, cnt: nat, lookup: seq<int>, tree: seq<int>, q: seq<bool>,
                 r: seq<bool>)
    requires Inv(sizes, k, m, idx, cnt, lookup, tree)
    requires q != [] && Front(q) in idx && r != [] && Front(r) in idx && Slot(idx, r) == Slot(idx, q)
    ensures r == q
  {
    hide Word, Val, Accepted;
    assert Distinct(idx, Front(r), Front(q));
    assert r == Front(r) + [r[|r| - 1]];
    assert q == Front(q) + [q[|q| - 1]];
  }

  lemma NodeAfterRoot(sizes: seq<nat>, s: nat, m: nat, idx: Nodes, cnt: nat, lookup: seq<int>, tree: seq<int>,
                      w: seq<bool>, p: seq<bool>)
    requires Long(sizes, s) && s < m && |lookup| == FAST_SIZE
    requires w == Word(sizes, s)[..FAST_BITS] && w !in idx && Val(w) < FAST_SIZE
    requires NodeOk(sizes, m, idx, cnt, lookup, tree, p)
    ensures NodeOk(sizes, m, idx[w := cnt], cnt + 1, lookup[Val(w) := Link(cnt)], tree, p)
  {
    hide Word, Val, Accepted;
    if p == w {
      assert Inner(sizes, m, w);
    } else if p in idx && |p| == FAST_BITS && Val(p) == Val(w) {
      FastIndexInjective(p, w);
    }
  }

  lemma PlacedAfterRoot(sizes: seq<nat>, s: nat, idx: Nodes, cnt: nat, lookup: seq<int>, tree: seq<int>, w: seq<bool>,
                        t: nat)
    requires Accepted(sizes) && Long(sizes, s) && t < s && |lookup| == FAST_SIZE
    requires w == Word(sizes, s)[..FAST_BITS] && w !in idx && Val(w) < FAST_SIZE
    requires Placed(sizes, idx, lookup, tree, t)
    ensures Placed(sizes, idx[w := cnt], lookup[Val(w) := Link(cnt)], tree, t)
  {
    hide Word, Val, Accepted;
    forall v | Short(sizes, t) && Covers(sizes, t, v)
      ensures At(lookup[Val(w) := Link(cnt)], Val(v)) == FastEntry(sizes, t)
    {
      if Val(v) == Val(w) { FastIndexInjective(v, w); NoClash(sizes, s, t, w); }
    }
  }

  lemma AddRoot(sizes: seq<nat>, s: nat, idx: Nodes, cnt: nat, lookup: seq<int>, tree: seq<int>, w: seq<bool>)
    requires Inv(sizes, s, s + 1, idx, cnt, lookup, tree) && Long(sizes, s)
    requires w == Word(sizes, s)[..FAST_BITS] && w !in idx && 2 * (cnt + 1) <= |tree|
    requires Val(w) < FAST_SIZE && lookup[Val(w)] == 0
    ensures Inv(sizes, s, s + 1, idx[w := cnt], cnt + 1, lookup[Val(w) := Link(cnt)], tree)
  {
    hide Word, Val, Accepted, NodeOk, Distinct, Placed, FastOk, SlotOk, Long;
    var k, cnt' := s + 1, cnt + 1;
    var idx', lookup' := idx[w := cnt], lookup[Val(w) := Link(cnt)];
    assert idx'.Keys == idx.Keys + {w};
    forall p ensures NodeOk(sizes, k, idx', cnt', lookup', tree, p) {
      NodeAfterRoot(sizes, s, k, idx, cnt, lookup, tree, w, p);
    }
    forall p, q ensures Distinct(idx', p, q) {
      DistinctAfterRoot(sizes, k, idx, cnt, lookup, tree, w, p, q);
    }
    forall t: nat | t < s ensures Placed(sizes, idx', lookup', tree, t) {
      PlacedAfterRoot(sizes, s, idx, cnt, lookup, tree, w, t);
    }
    forall v ensures FastOk(sizes, s, idx', lookup', v) {
      FastAfterRoot(sizes, s, idx, cnt, lookup, w, v);
    }
    forall q ensures SlotOk(sizes, s, idx', tree, q) {
      SlotAfterRoot(sizes, s, idx, cnt, tree, w, q);
    }
  }

  lemma DistinctAfterRoot(sizes: seq<nat>, k: nat, idx: Nodes, cnt: nat, lookup: seq<int>, tree: seq<int>, w: seq<bool>,
                          p: seq<bool>, q: seq<bool>)
    requires w !in idx && Distinct(idx, p, q)
    requires NodeOk(sizes, k, idx, cnt, lookup, tree, p) && NodeOk(sizes, k, idx, cnt, lookup, tree, q)
    ensures Distinct(idx[w := cnt], p, q)
  {
    hide Word, Val;
  }

  lemma FastAfterRoot(sizes: seq<nat>, s: nat, idx: Nodes, cnt: nat, lookup: seq<int>, w: seq<bool>, v: seq<bool>)
    requires Long(sizes, s) && w == Word(sizes, s)[..FAST_BITS] && w !in idx && Val(w) < |lookup|
    requires FastOk(sizes, s, idx, lookup, v)
    ensures FastOk(sizes, s, idx[w := cnt], lookup[Val(w) := Link(cnt)], v)
  {
    hide Word, Val;
    if |v| == FAST_BITS && Val(v) == Val(w) { FastIndexInjective(v, w); }
  }

  lemma SlotAfterRoot(sizes: seq<nat>, s: nat, idx: Nodes, cnt: nat, tree: seq<int>, w: seq<bool>, q: seq<bool>)
    requires Long(sizes, s) && w == Word(sizes, s)[..FAST_BITS] && w !in idx && SlotOk(sizes, s, idx, tree, q)
    requires forall i :: 2 * cnt <= i < |tree| ==> tree[i] == 0
    ensures SlotOk(sizes, s, idx[w := cnt], tree, q)
  {
    hide Word, Val;
  }

  lemma NodeAfterChild(sizes: seq<nat>, s: nat, m: nat, idx: Nodes, cnt: nat, lookup: seq<int>, tree: seq<int>,
                       q: seq<bool>, p: seq<bool>)
    requires Long(sizes, s) && s < m && q != [] && Front(q) in idx && q !in idx && Slot(idx, q) < |tree|
    requires FAST_BITS < |q| < sizes[s] && q == Word(sizes, s)[..|q|]
    requires NodeOk(sizes, m, idx, cnt, lookup, tree, p)
    requires p in idx && |p| > FAST_BITS ==> Slot(idx, p) != Slot(idx, q)
    ensures NodeOk(sizes, m, idx[q := cnt], cnt + 1, lookup, tree[Slot(idx, q) := Link(cnt)], p)
  {
    hide Word, Val, Accepted;
    if p == q { assert Inner(sizes, m, q); }
  }

  lemma SlotAfterChild(sizes: seq<nat>, k: nat, idx: Nodes, cnt: nat, tree: seq<int>, q: seq<bool>, r: seq<bool>)
    requires q != [] && Front(q) in idx && q !in idx && Slot(idx, q) < |tree|
    requires SlotOk(sizes, k, idx, tree, r)
    requires r != [] && Front(r) in idx && r != q ==> Slot(idx, r) != Slot(idx, q)
    requires Slot(idx, q) < 2 * cnt && forall i :: 2 * cnt <= i < |tree| ==> tree[i] == 0
    ensures SlotOk(sizes, k, idx[q := cnt], tree[Slot(idx, q) := Link(cnt)], r)
  {
    hide Word, Val, Accepted;
  }

  lemma PlacedAfterChild(sizes: seq<nat>, idx: Nodes, cnt: nat, lookup: seq<int>, tree: seq<int>, q: seq<bool>, t: nat)
    requires q != [] && Front(q) in idx && q !in idx && Slot(idx, q) < |tree|
    requires Placed(sizes, idx, lookup, tree, t)
    requires Long(sizes, t) ==> Slot(idx, Word(sizes, t)) != Slot(idx, q)
    ensures Placed(sizes, idx[q := cnt], lookup, tree[Slot(idx, q) := Link(cnt)], t)
  {
    hide Word, Val, Accepted;
  }

  lemma AddChild(sizes: seq<nat>, s: nat, idx: Nodes, cnt: nat, lookup: seq<int>, tree: seq<int>, q: seq<bool>)
    requires Inv(sizes, s, s + 1, idx, cnt, lookup, tree) && Long(sizes, s)
    requires FAST_BITS < |q| < sizes[s] && q == Word(sizes, s)[..|q|] && Front(q) in idx && q !in idx
    requires 2 * (cnt + 1) <= |tree| && Slot(idx, q) < |tree|
    ensures Inv(sizes, s, s + 1, idx[q := cnt], cnt + 1, lookup, tree[Slot(idx, q) := Link(cnt)])
  {
    hide Word, Val, Accepted;
    var k, cnt' := s + 1, cnt + 1;
    var at := Slot(idx, q);
    var idx', tree' := idx[q := cnt], tree[at := Link(cnt)];
    assert idx'.Keys == idx.Keys + {q};
    assert NodeOk(sizes, k, idx, cnt, lookup, tree, Front(q));
    forall p ensures NodeOk(sizes, k, idx', cnt', lookup, tree', p) {
      assert NodeOk(sizes, k, idx, cnt, lookup, tree, p);
      if p in idx && |p| > FAST_BITS && Slot(idx, p) == at {
        SameSlot(sizes, s, k, idx, cnt, lookup, tree, q, p);
      }
      NodeAfterChild(sizes, s, k, idx, cnt, lookup, tree, q, p);
    }
    forall p, r ensures Distinct(idx', p, r) {
      assert Distinct(idx, p, r);
      assert NodeOk(sizes, k, idx, cnt, lookup, tree, p) && NodeOk(sizes, k, idx, cnt, lookup, tree, r);
    }
    forall t: nat | t < s ensures Placed(sizes, idx', lookup, tree', t) {
      assert Placed(sizes, idx, lookup, tree, t);
      if Long(sizes, t) {
        if Slot(idx, Word(sizes, t)) == at { SameSlot(sizes, s, k, idx, cnt, lookup, tree, q, Word(sizes, t)); }
        NoClash(sizes, s, t, q);
      }
      PlacedAfterChild(sizes, idx, cnt, lookup, tree, q, t);
    }
    forall w ensures FastOk(sizes, s, idx', lookup, w) {
      assert FastOk(sizes, s, idx, lookup, w);
    }
    forall r ensures SlotOk(sizes, s, idx', tree', r) {
      if r != [] && Front(r) in idx && r != q && Slot(idx, r) == at {
        SameSlot(sizes, s, k, idx, cnt, lookup, tree, q, r);
      }
      SlotAfterChild(sizes, s, idx, cnt, tree, q, r);
    }
  }

  lemma AddLeaf(sizes: seq<nat>, s: nat, idx: Nodes, cnt: nat, lookup: seq<int>, tree: seq<int>)
    requires Inv(sizes, s, s + 1, idx, cnt, lookup, tree) && Long(sizes, s)
    requires Front(Word(sizes, s)) in idx && Slot(idx, Word(sizes, s)) < |tree|
    ensures Inv(sizes, s + 1, s + 1, idx, cnt, lookup, tree[Slot(idx, Word(sizes, s)) := s])
  {
    hide Word, Val, Accepted;
    var k := s + 1;
    var q := Word(sizes, s);
    var at := Slot(idx, q);
    var tree' := tree[at := s];
    assert NodeOk(sizes, k, idx, cnt, lookup, tree, Front(q));
    forall p ensures NodeOk(sizes, k, idx, cnt, lookup, tree', p) {
      assert NodeOk(sizes, k, idx, cnt, lookup, tree, p);
      if p in idx && |p| > FAST_BITS && Slot(idx, p) == at {
        SameSlot(sizes, s, k, idx, cnt, lookup, tree, q, p);
        var t: nat :| t < k && Used(sizes, t) && |p| < sizes[t] && p <= Word(sizes, t);
        NoClash(sizes, t, s, p);
      }
    }
    forall t: nat | t < k ensures Placed(sizes, idx, lookup, tree', t) {
      if t < s {
        assert Placed(sizes, idx, lookup, tree, t);
        if Long(sizes, t) && Slot(idx, Word(sizes, t)) == at {
          SameSlot(sizes, s, k, idx, cnt, lookup, tree, q, Word(sizes, t));
          NoClash(sizes, s, t, q);
        }
      }
    }
    forall w ensures FastOk(sizes, k, idx, lookup, w) {
      assert FastOk(sizes, s, idx, lookup, w);
    }
    forall r ensures SlotOk(sizes, k, idx, tree', r) {
      assert SlotOk(sizes, s, idx, tree, r);
      if r != [] && Front(r) in idx && Slot(idx, r) == at {
        SameSlot(sizes, s, k, idx, cnt, lookup, tree, q, r);
        assert LongAt(sizes, k, q);
      }
    }
  }

  lemma NodeOkMono(sizes: seq<nat>, s: nat, idx: Nodes, cnt: nat, lookup: seq<int>, tree: seq<int>)
    requires Inv(sizes, s, s, idx, cnt, lookup, tree)
    ensures Inv(sizes, s, s + 1, idx, cnt, lookup, tree)
  {
    var k := s + 1;
    forall p ensures NodeOk(sizes, k, idx, cnt, lookup, tree, p) {
      assert NodeOk(sizes, s, idx, cnt, lookup, tree, p);
    }
  }

  lemma AddShort(sizes: seq<nat>, s: nat, idx: Nodes, cnt: nat, lookup: seq<int>, lookup': seq<int>, tree: seq<int>)
    requires Inv(sizes, s, s + 1, idx, cnt, lookup, tree) && Short(sizes, s) && |lookup'| == FAST_SIZE
    requires forall v: nat :: v < FAST_SIZE ==>
      lookup'[v] == if Word(sizes, s) <= BitsOf(v, FAST_BITS) then FastEntry(sizes, s) else lookup[v]
    ensures Inv(sizes, s + 1, s + 1, idx, cnt, lookup', tree)
  {
    hide Word, Val, Accepted;
    var k := s + 1;
    forall p ensures NodeOk(sizes, k, idx, cnt, lookup', tree, p) {
      assert NodeOk(sizes, k, idx, cnt, lookup, tree, p);
      if p in idx && |p| == FAST_BITS {
        var t: nat :| t < k && Used(sizes, t) && |p| < sizes[t] && p <= Word(sizes, t);
        NoClash(sizes, t, s, p);
        NewEntry(sizes, s, lookup, lookup', p);
      }
    }
    forall t: nat | t < k ensures Placed(sizes, idx, lookup', tree, t) {
      if t < s { assert Placed(sizes, idx, lookup, tree, t); }
      forall w | Short(sizes, t) && Covers(sizes, t, w)
        ensures At(lookup', Val(w)) == FastEntry(sizes, t)
      {
        AcceptedFits(sizes);
        NewEntry(sizes, s, lookup, lookup', w);
        if Word(sizes, s) <= w { PrefixFree(sizes, s, t, w); }
      }
    }
    forall w ensures FastOk(sizes, k, idx, lookup', w) {
      assert FastOk(sizes, s, idx, lookup, w);
      if |w| == FAST_BITS { NewEntry(sizes, s, lookup, lookup', w); }
    }
    forall q ensures SlotOk(sizes, k, idx, tree, q) {
      assert SlotOk(sizes, s, idx, tree, q);
    }
  }

  lemma NewEntry(sizes: seq<nat>, s: nat, lookup: seq<int>, lookup': seq<int>, w: seq<bool>)
    requires Short(sizes, s) && |lookup| == |lookup'| == FAST_SIZE && |w| == FAST_BITS
    requires forall v: nat :: v < FAST_SIZE ==>
      lookup'[v] == if Word(sizes, s) <= BitsOf(v, FAST_BITS) then FastEntry(sizes, s) else lookup[v]
    ensures Val(w) < FAST_SIZE
    ensures lookup'[Val(w)] == if Word(sizes, s) <= w then FastEntry(sizes, s) else lookup[Val(w)]
  {
    FastIndex(w);
    BitsOfVal(w);
  }

  lemma AtMono(sizes: seq<nat>, k: nat, w: seq<bool>)
    ensures ShortAt(sizes, k, w) ==> ShortAt(sizes, k + 1, w)
    ensures LongAt(sizes, k, w) ==> LongAt(sizes, k + 1, w)
  {
  }

  lemma SkipUnused(sizes: seq<nat>, s: nat, idx: Nodes, cnt: nat, lookup: seq<int>, tree: seq<int>)
    requires Inv(sizes, s, s + 1, idx, cnt, lookup, tree) && s < |sizes| && sizes[s] == 0
    ensures Inv(sizes, s + 1, s + 1, idx, cnt, lookup, tree)
  {
    hide Word, Val, Accepted;
    var k := s + 1;
    forall w ensures FastOk(sizes, k, idx, lookup, w) {
      assert FastOk(sizes, s, idx, lookup, w);
      AtMono(sizes, s, w);
    }
    forall q ensures SlotOk(sizes, k, idx, tree, q) {
      assert SlotOk(sizes, s, idx, tree, q);
      AtMono(sizes, s, q);
    }
    forall t: nat | t < k ensures Placed(sizes, idx, lookup, tree, t) {
      if t == s { PlacedUnused(sizes, idx, lookup, tree, s); }
    }
  }

  lemma PlacedUnused(sizes: seq<nat>, idx: Nodes, lookup: seq<int>, tree: seq<int>, s: nat)
    requires s < |sizes| && sizes[s] == 0
    ensures Placed(sizes, idx, lookup, tree, s)
  {
  }

  lemma EmptyTables(sizes: seq<nat>, lookup: seq<int>, tree: seq<int>)
    requires Accepted(sizes) && |lookup| == FAST_SIZE
    requires (forall i :: 0 <= i < |lookup| ==> lookup[i] == 0) && (forall i :: 0 <= i < |tree| ==> tree[i] == 0)
    ensures Inv(sizes, 0, 0, map[], 0, lookup, tree)
  {
  }

  /** There is room in the tree for one more inner node of an accepted code. */
  lemma RoomForNode(sizes: seq<nat>, s: nat, idx: Nodes, cnt: nat, lookup: seq<int>, tree: seq<int>, q: seq<bool>)
    requires Inv(sizes, s, s + 1, idx, cnt, lookup, tree) && Long(sizes, s)
    requires FAST_BITS <= |q| < sizes[s] && q <= Word(sizes, s) && q !in idx
    requires 2 * |sizes| <= |tree| && 10 <= |tree|
    ensures 2 * (cnt + 1) <= |tree|
  {
    hide Word, Val, Accepted;
    var m, nodes := s + 1, idx.Keys + {q};
    forall p | p in nodes ensures FAST_BITS <= |p| < MAX_BITS && Inner(sizes, m, p) {
      if p != q { assert NodeOk(sizes, m, idx, cnt, lookup, tree, p); }
    }
    NodesBound(sizes, m, nodes);
  }

  /** The word of `s` and the bits `w` agree, as far as `w` was looked at. */
  predicate Meets(sizes: seq<nat>, s: nat, w: seq<bool>, codeLen: nat) {
    Used(sizes, s) && (Word(sizes, s) <= w || (0 < codeLen <= |w| && w[..codeLen] <= Word(sizes, s)))
  }

  /** What a table look-up finds for the 15 bits `w`: a symbol in range and a code length; when
      some symbol's word is at the front of `w`, that symbol and the length of its word. Otherwise it finds
      symbol 0. The low nine bits of `raw` are the symbol. */
  ghost predicate Decoded(sizes: seq<nat>, w: seq<bool>, raw: nat, codeLen: nat) {
    && codeLen <= MAX_BITS && raw % 512 < 288 && (raw % 512 != 0 ==> Found(sizes, raw % 512, w, codeLen))
    && (codeLen == 0 ==> raw % 512 == 0)
    && forall s: nat :: Meets(sizes, s, w, codeLen) ==> raw % 512 == s && codeLen == sizes[s]
  }

  ghost predicate Found(sizes: seq<nat>, s: nat, w: seq<bool>, codeLen: nat) {
    Used(sizes, s) && Word(sizes, s) <= w && codeLen == sizes[s]
  }

  /** What decoding takes for the code of `sym`: its word, or, in a table that is not complete, any bits
      for symbol 0. */
  ghost predicate Reads(sizes: seq<nat>, code: seq<bool>, sym: nat) {
    || (Used(sizes, sym) && code == Word(sizes, sym))
    || (!Complete(sizes) && sym == 0 && |code| <= MAX_BITS)
  }

  /** The entry and the depth at which a walk from `temp` at depth `d` ends. */
  ghost function TreeLeaf(tree: seq<int>, temp: int, x: nat, d: nat): (int, nat)
    decreases MAX_BITS - d
  {
    if temp >= 0 || d >= MAX_BITS then (temp, d)
    else TreeLeaf(tree, At(tree, -temp - 1 + Shr(x, d) % 2), x, d + 1)
  }

  /** The entry and the code length that a look-up of `x` ends at. */
  ghost function Resolve(lookup: seq<int>, tree: seq<int>, x: nat): (int, nat) {
    var temp := At(lookup, x % FAST_SIZE);
    if temp >= 0 then (temp, temp / 512) else TreeLeaf(tree, temp, x, FAST_BITS)
  }

  /** One of the decompressor's Huffman tables. */
  class HuffTable {
    const lookup: array<int>
    const tree: array<int>
    ghost var sizes: seq<nat>
    ghost var idx: Nodes
    ghost var cnt: nat

    constructor (maxSyms: nat)
      ensures fresh(lookup) && fresh(tree) && lookup.Length == FAST_SIZE && tree.Length == 2 * maxSyms
      ensures lookup != tree
    {
      lookup := new int[FAST_SIZE](_ => 0);
      tree := new int[2 * maxSyms](_ => 0);
      sizes, idx, cnt := [], map[], 0;
    }

    ghost predicate Building(k: nat, m: nat)
      reads this, lookup, tree
    {
      && lookup != tree && lookup.Length == FAST_SIZE && |sizes| <= 288
      && 2 * |sizes| <= tree.Length && 10 <= tree.Length
      && Inv(sizes, k, m, idx, cnt, lookup[..], tree[..])
    }

    /** The table decodes exactly the canonical code with the given sizes. */
    ghost predicate Valid()
      reads this, lookup, tree
    {
      Building(|sizes|, |sizes|)
    }

    /** Builds the table for the given code sizes, or rejects them. */
    method Build(codeSizes: seq<nat>) returns (ok: bool)
      requires lookup.Length == FAST_SIZE && lookup != tree
      requires ValidSizes(codeSizes) && |codeSizes| <= 288 && 2 * |codeSizes| <= tree.Length && 10 <= tree.Length
      modifies this, lookup, tree
      ensures ok == Accepted(codeSizes)
      ensures ok ==> Valid() && sizes == codeSizes
    {
      hide Inv, Accepted;
      forall i | 0 <= i < lookup.Length { lookup[i] := 0; }
      forall i | 0 <= i < tree.Length { tree[i] := 0; }
      var usedSyms, total, nextCode := StartCodes(codeSizes);
      AcceptTest(codeSizes);
      FirstFree(codeSizes, nextCode[..]);
      if 65536 != total && usedSyms > 1 {
        return false;
      }
      sizes, idx, cnt := codeSizes, map[], 0;
      EmptyTables(codeSizes, lookup[..], tree[..]);
      FillTables(codeSizes, nextCode);
      ok := true;
    }

    /** Counts the symbols of each size. */
    static method CountSizes(codeSizes: seq<nat>) returns (totalSyms: array<nat>)
      requires ValidSizes(codeSizes)
      ensures fresh(totalSyms) && totalSyms.Length == 16
      ensures forall l :: 0 <= l <= MAX_BITS ==> totalSyms[l] == Count(codeSizes, l, |codeSizes|)
    {
      totalSyms := new nat[16](_ => 0);
      for i := 0 to |codeSizes|
        invariant forall l :: 0 <= l <= MAX_BITS ==> totalSyms[l] == Count(codeSizes, l, i)
      {
        totalSyms[codeSizes[i]] := totalSyms[codeSizes[i]] + 1;
      }
    }

    /** Computes the first code of each size. */
    static method StartCodes(codeSizes: seq<nat>) returns (usedSyms: nat, total: nat, nextCode: array<nat>)
      requires ValidSizes(codeSizes)
      ensures fresh(nextCode) && nextCode.Length == 17
      ensures usedSyms == CountUpTo(codeSizes, MAX_BITS, |codeSizes|) && total == FirstCode(codeSizes, MAX_BITS + 1)
      ensures forall l :: 1 <= l <= MAX_BITS ==> nextCode[l] == FirstCode(codeSizes, l)
    {
      hide CountUpTo, Count, FirstCode;
      FirstCodes(codeSizes);
      var totalSyms := CountSizes(codeSizes);
      nextCode := new nat[17](_ => 0);
      usedSyms, total := 0, 0;
      CountUpToZero(codeSizes, |codeSizes|);
      for i := 1 to 16
        invariant forall l :: 0 <= l <= MAX_BITS ==> totalSyms[l] == Count(codeSizes, l, |codeSizes|)
        invariant usedSyms == CountUpTo(codeSizes, i - 1, |codeSizes|)
        invariant total == FirstCode(codeSizes, i)
        invariant forall l :: 1 <= l <= i ==> nextCode[l] == FirstCode(codeSizes, l)
      {
        CountUpToStep(codeSizes, i - 1, |codeSizes|);
        usedSyms := usedSyms + totalSyms[i];
        total := 2 * (total + totalSyms[i]);
        nextCode[i + 1] := total;
      }
    }

    method FillTables(codeSizes: seq<nat>, nextCode: array<nat>)
      requires Building(0, 0) && cnt == 0 && sizes == codeSizes && nextCode.Length == 17
      requires nextCode as object != lookup as object && nextCode as object != tree as object
      requires Free(sizes, nextCode[..], 0)
      modifies this, lookup, tree, nextCode
      ensures Valid() && sizes == old(sizes)
    {
      hide *;
      FirstLink();
      IsValid();
      var treeNext := -1;
      for symIndex := 0 to |codeSizes|
        invariant sizes == codeSizes && Building(symIndex, symIndex) && treeNext == Link(cnt)
        invariant Free(codeSizes, nextCode[..], symIndex)
      {
        var curCode := TakeCode(codeSizes, nextCode, symIndex);
        treeNext := AddSymbol(symIndex, codeSizes[symIndex], curCode, treeNext);
      }
      IsValid();
    }

    static lemma FirstLink()
      ensures Link(0) == -1
    {
    }

    lemma IsValid()
      ensures Valid() <==> Building(|sizes|, |sizes|)
    {
      hide Building;
    }

    /** The next code of each length, after the symbols below `n` have got theirs. */
    static ghost predicate Free(sizes: seq<nat>, nextCode: seq<nat>, n: nat) {
      && ValidSizes(sizes) && n <= |sizes| && |nextCode| == 17
      && forall l :: 1 <= l <= MAX_BITS ==> nextCode[l] == FirstCode(sizes, l) + Count(sizes, l, n)
    }

    static lemma FirstFree(sizes: seq<nat>, nextCode: seq<nat>)
      requires ValidSizes(sizes) && |nextCode| == 17
      requires forall l :: 1 <= l <= MAX_BITS ==> nextCode[l] == FirstCode(sizes, l)
      ensures Free(sizes, nextCode, 0)
    {
      hide FirstCode, ValidSizes;
    }

    /** Gives a used symbol the next code of its length. */
    static method TakeCode(codeSizes: seq<nat>, nextCode: array<nat>, symIndex: nat) returns (curCode: nat)
      requires symIndex < |codeSizes| && nextCode.Length == 17 && Free(codeSizes, nextCode[..], symIndex)
      modifies nextCode
      ensures codeSizes[symIndex] <= MAX_BITS && Free(codeSizes, nextCode[..], symIndex + 1)
      ensures codeSizes[symIndex] > 0 ==> curCode == CodeOf(codeSizes, symIndex)
    {
      hide FirstCode;
      var codeSize := codeSizes[symIndex];
      curCode := 0;
      if codeSize != 0 {
        curCode := nextCode[codeSize];
        nextCode[codeSize] := curCode + 1;
      }
    }

    method AddSymbol(symIndex: nat, codeSize: nat, curCode: nat, treeNext: int) returns (next: int)
      requires Building(symIndex, symIndex) && symIndex < |sizes| && codeSize == sizes[symIndex] <= MAX_BITS
      requires codeSize > 0 ==> curCode == CodeOf(sizes, symIndex)
      requires treeNext == Link(cnt)
      modifies this, lookup, tree
      ensures sizes == old(sizes) && Building(symIndex + 1, symIndex + 1) && next == Link(cnt)
    {
      NodeOkMono(sizes, symIndex, idx, cnt, lookup[..], tree[..]);
      next := treeNext;
      if codeSize == 0 {
        SkipUnused(sizes, symIndex, idx, cnt, lookup[..], tree[..]);
        return;
      }
      SizesValid(sizes, symIndex, symIndex, idx, cnt, lookup[..], tree[..]);
      hide Inv, CodeOf;
      CodeFits(sizes, symIndex);
      var revCode := ReverseCode(curCode, codeSize);
      if codeSize <= FAST_BITS {
        FillFast(symIndex, codeSize, revCode);
      } else {
        next := InsertLong(symIndex, codeSize, revCode, treeNext);
      }
    }

    /** Sets every fast entry whose index ends in the reversed code of a short symbol. */
    method FillFast(symIndex: nat, codeSize: nat, revCode: nat)
      requires Building(symIndex, symIndex + 1) && Short(sizes, symIndex) && codeSize == sizes[symIndex]
      requires revCode < Pow2(codeSize) && BitsOf(revCode, codeSize) == Word(sizes, symIndex)
      modifies lookup
      ensures Building(symIndex + 1, symIndex + 1)
    {
      ghost var before := lookup[..];
      StepFill(512 * codeSize + symIndex, Pow2(codeSize), revCode);
      forall v: nat | v < FAST_SIZE
        ensures lookup[v] ==
          if Word(sizes, symIndex) <= BitsOf(v, FAST_BITS) then FastEntry(sizes, symIndex) else before[v]
      {
        FastMatch(v, revCode, codeSize);
      }
      hide *;
      AddShort(sizes, symIndex, idx, cnt, before, lookup[..], tree[..]);
    }

    /** Sets the entries `at`, `at + step`, `at + 2 * step` and so on to `k`. */
    method StepFill(k: int, step: nat, from: nat)
      requires lookup.Length == FAST_SIZE && step > 0 && from < step
      modifies lookup
      ensures forall v: nat :: v < FAST_SIZE ==> lookup[v] == if v % step == from then k else old(lookup[v])
    {
      var at := from;
      DivUnique(at, step, 0, from);
      while at < FAST_SIZE
        invariant at % step == from
        invariant forall v: nat :: v < FAST_SIZE ==>
          lookup[v] == if v % step == from && v < at then k else old(lookup[v])
        decreases FAST_SIZE - at
      {
        lookup[at] := k;
        forall v: nat | at < v < at + step ensures v % step != from {
          if v % step == from { SameClass(at, v, step); }
        }
        StepMod(at, step);
        at := at + step;
      }
    }

    /** Adds a long symbol's path and leaf to the tree. */
    method InsertLong(symIndex: nat, codeSize: nat, revCode: nat, treeNext: int) returns (next: int)
      requires Building(symIndex, symIndex + 1) && Long(sizes, symIndex) && codeSize == sizes[symIndex]
      requires revCode == Val(Word(sizes, symIndex)) && treeNext == Link(cnt)
      modifies this, lookup, tree
      ensures sizes == old(sizes) && Building(symIndex + 1, symIndex + 1) && next == Link(cnt)
    {
      ghost var w := Word(sizes, symIndex);
      ghost var p := w[..FAST_BITS];
      hide Inv, Word, Val, NodeOk, Accepted;
      FastParts(w);
      var treeCur;
      treeCur, next := EnterTree(symIndex, p, revCode % FAST_SIZE, treeNext);
      assert FAST_BITS == 10;
      hide *;
      var rc := revCode / 512;
      var j := codeSize;
      while j > FAST_BITS + 1
        invariant FAST_BITS + 1 <= j <= codeSize && p == w[..codeSize - j + FAST_BITS] && p in idx
        invariant sizes == old(sizes) && Building(symIndex, symIndex + 1) && next == Link(cnt)
        invariant treeCur == Link(idx[p]) && rc == Val(w[codeSize - j + FAST_BITS - 1..])
      {
        rc, treeCur := NextBit(w, p, rc, treeCur);
        ghost var q := w[..|p| + 1];
        assert Front(q) == p && q[|p|] == w[|p|];
        p := q;
        treeCur, next := DescendTree(symIndex, p, treeCur, next);
        j := j - 1;
      }
      rc, treeCur := NextBit(w, p, rc, treeCur);
      assert Front(w) == p && w[|w| - 1] == w[|p|];
      SetLeaf(symIndex, -treeCur - 1);
    }

    method SetLeaf(symIndex: nat, slot: nat)
      requires Building(symIndex, symIndex + 1) && Long(sizes, symIndex)
      requires Front(Word(sizes, symIndex)) in idx && slot == Slot(idx, Word(sizes, symIndex))
      modifies tree
      ensures Building(symIndex + 1, symIndex + 1)
    {
      hide Inv, Word;
      SlotInRange(sizes, symIndex, symIndex + 1, idx, cnt, lookup[..], tree[..], Front(Word(sizes, symIndex)));
      AddLeaf(sizes, symIndex, idx, cnt, lookup[..], tree[..]);
      tree[slot] := symIndex;
    }

    /** The node for a long symbol's first ten bits, which is made if it is not there. */
    method EnterTree(symIndex: nat, ghost p: seq<bool>, at: nat, treeNext: int) returns (treeCur: int, next: int)
      requires Building(symIndex, symIndex + 1) && Long(sizes, symIndex) && treeNext == Link(cnt)
      requires p == Word(sizes, symIndex)[..FAST_BITS] && at == Val(p) < FAST_SIZE
      modifies this, lookup
      ensures sizes == old(sizes) && Building(symIndex, symIndex + 1) && next == Link(cnt)
      ensures p in idx && treeCur == Link(idx[p])
    {
      hide Inv, Word, Val;
      next := treeNext;
      treeCur := lookup[at];
      if treeCur == 0 {
        UnsetIsNew(sizes, symIndex, symIndex + 1, idx, cnt, lookup[..], tree[..], p);
        RoomForNode(sizes, symIndex, idx, cnt, lookup[..], tree[..], p);
        AddRoot(sizes, symIndex, idx, cnt, lookup[..], tree[..], p);
        lookup[at] := next;
        treeCur := next;
        next := next - 2;
        idx, cnt := idx[p := cnt], cnt + 1;
      } else {
        OnlyNodeFast(sizes, symIndex, idx, cnt, lookup[..], tree[..], p);
      }
    }

    /** The node for the next longer prefix of a long symbol's word, made if it is not there. */
    method DescendTree(symIndex: nat, ghost q: seq<bool>, at: int, treeNext: int) returns (treeCur: int, next: int)
      requires Building(symIndex, symIndex + 1) && Long(sizes, symIndex) && treeNext == Link(cnt)
      requires FAST_BITS < |q| < sizes[symIndex] && q == Word(sizes, symIndex)[..|q|]
      requires Front(q) in idx && -at - 1 == Slot(idx, q)
      modifies this, tree
      ensures sizes == old(sizes) && Building(symIndex, symIndex + 1) && next == Link(cnt)
      ensures q in idx && treeCur == Link(idx[q])
    {
      hide Inv, Word, Val;
      next := treeNext;
      SlotInRange(sizes, symIndex, symIndex + 1, idx, cnt, lookup[..], tree[..], Front(q));
      var slot := -at - 1;
      if tree[slot] == 0 {
        UnsetIsNew(sizes, symIndex, symIndex + 1, idx, cnt, lookup[..], tree[..], q);
        RoomForNode(sizes, symIndex, idx, cnt, lookup[..], tree[..], q);
        AddChild(sizes, symIndex, idx, cnt, lookup[..], tree[..], q);
        tree[slot] := next;
        treeCur := next;
        next := next - 2;
        idx, cnt := idx[q := cnt], cnt + 1;
      } else {
        OnlyNodeSlot(sizes, symIndex, idx, cnt, lookup[..], tree[..], q);
        treeCur := tree[slot];
      }
    }

    /** Moves on to the next bit of the reversed code, and to that bit's side of the node pair. */
    static method NextBit(ghost w: seq<bool>, ghost p: seq<bool>, rc: nat, treeCur: int)
        returns (rc': nat, treeCur': int)
      requires 1 <= |p| < |w| && rc == Val(w[|p| - 1..])
      ensures rc' == Val(w[|p|..]) && treeCur' == treeCur - B2N(w[|p|])
    {
      hide *;
      ValFrom(w, |p| - 1);
      ValFrom(w, |p|);
      rc' := rc / 2;
      treeCur' := treeCur - rc' % 2;
    }

    /** Decodes the symbol at the front of the low 15 bits of `x`. */
    method Decode(x: nat) returns (raw: nat, codeLen: nat)
      requires Valid()
      ensures Decoded(sizes, BitsOf(x, MAX_BITS), raw, codeLen)
      ensures Resolve(lookup[..], tree[..], x) == (raw, codeLen)
    {
      ghost var w := BitsOf(x, MAX_BITS);
      hide Inv, Word, Val, BitsOf, Shr, Decoded;
      ResolvedDecodes(sizes, idx, cnt, lookup[..], tree[..], x);
      FastIndexOf(x);
      var temp := lookup[x % FAST_SIZE];
      if temp >= 0 {
        return temp, temp / 512;
      }
      FastMiss(sizes, idx, cnt, lookup[..], tree[..], w);
      raw, codeLen := WalkTree(x, temp);
    }

    method WalkTree(x: nat, link: int) returns (raw: nat, codeLen: nat)
      requires Valid()
      requires BitsOf(x, MAX_BITS)[..FAST_BITS] in idx && link == Link(idx[BitsOf(x, MAX_BITS)[..FAST_BITS]])
      ensures TreeLeaf(tree[..], link, x, FAST_BITS) == (raw, codeLen)
    {
      ghost var w := BitsOf(x, MAX_BITS);
      ghost var p := w[..FAST_BITS];
      hide Inv, Word, Val, BitsOf, Shr, Decoded, TreeLeaf;
      var temp := link;
      codeLen := FAST_BITS;
      while temp < 0
        invariant FAST_BITS <= codeLen <= MAX_BITS
        invariant temp < 0 ==> codeLen < MAX_BITS && p == w[..codeLen] && p in idx && temp == Link(idx[p])
        invariant TreeLeaf(tree[..], temp, x, codeLen) == TreeLeaf(tree[..], link, x, FAST_BITS)
        decreases MAX_BITS - codeLen, -temp
      {
        temp := NextEntry(x, temp, codeLen);
        codeLen := codeLen + 1;
        p := w[..codeLen];
      }
      LeafAt(tree[..], temp, x, codeLen);
      raw := temp;
    }

    /** Whether the symbol at the front of `x` can be told from its low `numBits` bits. */
    method CanDecode(x: nat, numBits: nat) returns (found: bool)
      requires Valid() && x < Pow2(numBits) && numBits < MAX_BITS
      ensures found <==> 0 < Resolve(lookup[..], tree[..], x).1 <= numBits
    {
      ghost var w := BitsOf(x, MAX_BITS);
      ghost var p := w[..FAST_BITS];
      hide Inv, Word, Val, BitsOf, Shr, Decoded, TreeLeaf;
      FastIndexOf(x);
      var temp := lookup[x % FAST_SIZE];
      if temp >= 0 {
        return 0 < temp / 512 <= numBits;
      }
      if numBits <= FAST_BITS {
        LeafDepth(tree[..], temp, x, FAST_BITS);
        return false;
      }
      FastMiss(sizes, idx, cnt, lookup[..], tree[..], w);
      ghost var link := temp;
      var codeLen := FAST_BITS;
      while temp < 0 && numBits >= codeLen + 1
        invariant FAST_BITS <= codeLen <= numBits
        invariant temp < 0 ==> p == w[..codeLen] && p in idx && temp == Link(idx[p])
        invariant TreeLeaf(tree[..], temp, x, codeLen) == TreeLeaf(tree[..], link, x, FAST_BITS)
        invariant codeLen == FAST_BITS ==> temp < 0
        decreases numBits - codeLen
      {
        temp := NextEntry(x, temp, codeLen);
        codeLen := codeLen + 1;
        p := w[..codeLen];
      }
      LeafDepth(tree[..], temp, x, codeLen);
      LeafAt(tree[..], temp, x, codeLen);
      return temp >= 0;
    }

    /** One step down the tree, on the side of bit `codeLen` of `x`. */
    method NextEntry(x: nat, link: int, codeLen: nat) returns (temp: int)
      requires Valid() && FAST_BITS <= codeLen < MAX_BITS
      requires BitsOf(x, MAX_BITS)[..codeLen] in idx && link == Link(idx[BitsOf(x, MAX_BITS)[..codeLen]])
      ensures var w := BitsOf(x, MAX_BITS); var q := w[..codeLen + 1];
        && (temp < 0 ==> q in idx && temp == Link(idx[q]) && codeLen + 1 < MAX_BITS)
      ensures TreeLeaf(tree[..], link, x, codeLen) == TreeLeaf(tree[..], temp, x, codeLen + 1)
    {
      ghost var w := BitsOf(x, MAX_BITS);
      hide Inv, Word, Val, BitsOf, Shr, Decoded;
      ghost var q := w[..codeLen + 1];
      assert Front(q) == w[..codeLen] && q[codeLen] == w[codeLen];
      SlotInRange(sizes, |sizes|, |sizes|, idx, cnt, lookup[..], tree[..], Front(q));
      BitOf(x, codeLen);
      TreeStep(sizes, idx, cnt, lookup[..], tree[..], w, codeLen + 1);
      temp := tree[-link - 1 + Shr(x, codeLen) % 2];
    }
  }

  lemma {:induction false} LeafDecodes(sizes: seq<nat>, idx: Nodes, cnt: nat, lookup: seq<int>, tree: seq<int>, x: nat,
                                       d: nat)
    requires Inv(sizes, |sizes|, |sizes|, idx, cnt, lookup, tree) && |sizes| <= 288
    requires FAST_BITS <= d < MAX_BITS && BitsOf(x, MAX_BITS)[..d] in idx
    ensures var r := TreeLeaf(tree, Link(idx[BitsOf(x, MAX_BITS)[..d]]), x, d);
      r.0 >= 0 && Decoded(sizes, BitsOf(x, MAX_BITS), r.0, r.1)
    decreases MAX_BITS - d
  {
    hide Inv, Word, Val, BitsOf, Shr, Decoded;
    var w := BitsOf(x, MAX_BITS);
    var p, q := w[..d], w[..d + 1];
    assert Front(q) == p && q[d] == w[d];
    BitOf(x, d);
    TreeStep(sizes, idx, cnt, lookup, tree, w, d + 1);
    var temp := At(tree, Slot(idx, q));
    if temp < 0 {
      LeafDecodes(sizes, idx, cnt, lookup, tree, x, d + 1);
    } else {
      LeafAt(tree, temp, x, d + 1);
    }
  }

  /** A finished look-up finds the symbol at the front of the bits, if there is one. */
  lemma ResolvedDecodes(sizes: seq<nat>, idx: Nodes, cnt: nat, lookup: seq<int>, tree: seq<int>, x: nat)
    requires Inv(sizes, |sizes|, |sizes|, idx, cnt, lookup, tree) && |sizes| <= 288
    ensures var r := Resolve(lookup, tree, x); r.0 >= 0 && Decoded(sizes, BitsOf(x, MAX_BITS), r.0, r.1)
  {
    hide Word, Val, BitsOf, Shr, Decoded, TreeLeaf, NodeOk, FastOk, SlotOk, Placed, Distinct;
    FastIndexOf(x);
    var w := BitsOf(x, MAX_BITS);
    if At(lookup, x % FAST_SIZE) >= 0 {
      FastHit(sizes, idx, cnt, lookup, tree, w);
    } else {
      FastMiss(sizes, idx, cnt, lookup, tree, w);
      LeafDecodes(sizes, idx, cnt, lookup, tree, x, FAST_BITS);
    }
  }

  lemma {:induction false} LeafDepth(tree: seq<int>, temp: int, x: nat, d: nat)
    requires d < MAX_BITS
    ensures temp < 0 ==> TreeLeaf(tree, temp, x, d).1 > d
    decreases MAX_BITS - d
  {
    if temp < 0 && d + 1 < MAX_BITS {
      LeafDepth(tree, At(tree, -temp - 1 + Shr(x, d) % 2), x, d + 1);
    }
  }

  lemma LeafAt(tree: seq<int>, temp: int, x: nat, d: nat)
    ensures temp >= 0 ==> TreeLeaf(tree, temp, x, d) == (temp, d)
  {
  }

  lemma StepMod(at: nat, step: nat)
    requires step > 0
    ensures (at + step) % step == at % step
  {
    var q, r := DivMod(at, step);
    DivUnique(at + step, step, q + 1, r);
  }

  lemma SameClass(at: nat, v: nat, step: nat)
    requires step > 0 && at <= v < at + step && v % step == at % step
    ensures v == at
  {
    var q, r := DivMod(at, step);
    var q', r' := DivMod(v, step);
    if q' > q { MulAtLeast(step, q' - q); MulDistrib(step, q', q); }
    if q' < q { MulAtLeast(step, q - q'); MulDistrib(step, q, q'); }
  }

  /** A fast index starts with a code's word iff its low bits are the reversed code. */
  lemma FastMatch(v: nat, rev: nat, n: nat)
    requires v < FAST_SIZE && n <= FAST_BITS && rev < Pow2(n)
    ensures rev % Pow2(n) == rev
    ensures v % Pow2(n) == rev <==> BitsOf(rev, n) <= BitsOf(v, FAST_BITS)
  {
    var w := BitsOf(v, FAST_BITS);
    assert Val(w) == v by { Pow2Values(); ValOfBits(v, FAST_BITS); }
    ValPrefix(w, n);
    ValOfBits(rev, n);
    DivUnique(rev, Pow2(n), 0, rev);
    SameBits(w[..n], BitsOf(rev, n));
  }

  lemma SameBits(w: seq<bool>, v: seq<bool>)
    requires |w| == |v|
    ensures Val(w) == Val(v) <==> w == v
  {
    if Val(w) == Val(v) { FastIndexInjective(w, v); }
  }

  lemma SizesValid(sizes: seq<nat>, k: nat, m: nat, idx: Nodes, cnt: nat, lookup: seq<int>, tree: seq<int>)
    requires Inv(sizes, k, m, idx, cnt, lookup, tree)
    ensures ValidSizes(sizes) && Fits(sizes)
  {
    AcceptedFits(sizes);
  }

  /** The acceptance test of the decompressor in terms of the Kraft sum. */
  lemma AcceptTest(sizes: seq<nat>)
    requires ValidSizes(sizes)
    ensures Accepted(sizes) <==> 65536 == FirstCode(sizes, MAX_BITS + 1) || CountUpTo(sizes, MAX_BITS, |sizes|) <= 1
  {
    FullKraft(sizes);
    Pow2Values();
  }

  lemma SlotInRange(sizes: seq<nat>, k: nat, m: nat, idx: Nodes, cnt: nat, lookup: seq<int>, tree: seq<int>,
                    p: seq<bool>)
    requires Inv(sizes, k, m, idx, cnt, lookup, tree) && p in idx
    ensures 2 * idx[p] + 1 < |tree| && FAST_BITS <= |p| < MAX_BITS
  {
    assert NodeOk(sizes, m, idx, cnt, lookup, tree, p);
  }

  lemma UnsetIsNew(sizes: seq<nat>, k: nat, m: nat, idx: Nodes, cnt: nat, lookup: seq<int>, tree: seq<int>,
                   p: seq<bool>)
    requires Inv(sizes, k, m, idx, cnt, lookup, tree) && |p| >= FAST_BITS
    requires |p| == FAST_BITS ==> At(lookup, Val(p)) == 0
    requires |p| > FAST_BITS ==> Front(p) in idx && At(tree, Slot(idx, p)) == 0
    ensures p !in idx
  {
    assert NodeOk(sizes, m, idx, cnt, lookup, tree, p);
  }

  /** A fast entry on a long symbol's way that is set is a node. */
  lemma OnlyNodeFast(sizes: seq<nat>, s: nat, idx: Nodes, cnt: nat, lookup: seq<int>, tree: seq<int>, p: seq<bool>)
    requires Inv(sizes, s, s + 1, idx, cnt, lookup, tree) && Long(sizes, s)
    requires p == Word(sizes, s)[..FAST_BITS] && Val(p) < FAST_SIZE && lookup[Val(p)] != 0
    ensures p in idx && lookup[Val(p)] == Link(idx[p])
  {
    hide Word, Val, Accepted;
    assert FastOk(sizes, s, idx, lookup, p);
    assert NodeOk(sizes, s + 1, idx, cnt, lookup, tree, p);
    if p !in idx {
      var t: nat :| t < s && Short(sizes, t) && Covers(sizes, t, p);
      NoClash(sizes, s, t, p);
    }
  }

  /** A tree entry on a long symbol's way that is set is a node. */
  lemma OnlyNodeSlot(sizes: seq<nat>, s: nat, idx: Nodes, cnt: nat, lookup: seq<int>, tree: seq<int>, q: seq<bool>)
    requires Inv(sizes, s, s + 1, idx, cnt, lookup, tree) && Long(sizes, s)
    requires FAST_BITS < |q| < sizes[s] && q == Word(sizes, s)[..|q|] && Front(q) in idx
    requires At(tree, Slot(idx, q)) != 0
    ensures q in idx && At(tree, Slot(idx, q)) == Link(idx[q])
  {
    hide Word, Val, Accepted;
    assert SlotOk(sizes, s, idx, tree, q);
    assert NodeOk(sizes, s + 1, idx, cnt, lookup, tree, q);
    if q !in idx {
      var t: nat :| t < s && Long(sizes, t) && Word(sizes, t) == q;
      NoClash(sizes, s, t, q);
    }
  }

  lemma FastIndexOf(x: nat)
    ensures x % FAST_SIZE == Val(BitsOf(x, MAX_BITS)[..FAST_BITS])
  {
    Pow2Values();
    ValPrefix(BitsOf(x, MAX_BITS), FAST_BITS);
    assert BitsOf(x, MAX_BITS)[..FAST_BITS] == BitsOf(x % FAST_SIZE, FAST_BITS) by {
      SplitBits(x, FAST_BITS, MAX_BITS);
      SplitBits(x, FAST_BITS, FAST_BITS);
      BitsOfMod(x, FAST_BITS);
    }
    ValOfBits(x % FAST_SIZE, FAST_BITS);
  }

  lemma BitOf(x: nat, d: nat)
    requires d < MAX_BITS
    ensures Shr(x, d) % 2 == B2N(BitsOf(x, MAX_BITS)[d])
  {
    SplitBits(x, d, MAX_BITS);
    assert BitsOf(x, MAX_BITS)[d] == BitsOf(x, MAX_BITS)[d..][0];
  }

  /** A non-negative fast entry names the only symbol that can be at the front, if there is one. */
  lemma FastHit(sizes: seq<nat>, idx: Nodes, cnt: nat, lookup: seq<int>, tree: seq<int>, w: seq<bool>)
    requires Inv(sizes, |sizes|, |sizes|, idx, cnt, lookup, tree) && |sizes| <= 288
    requires |w| == MAX_BITS && Val(w[..FAST_BITS]) < FAST_SIZE && lookup[Val(w[..FAST_BITS])] >= 0
    ensures var temp := lookup[Val(w[..FAST_BITS])]; Decoded(sizes, w, temp, temp / 512)
  {
    hide Word, Val, Accepted;
    var p := w[..FAST_BITS];
    var temp := lookup[Val(p)];
    AcceptedFits(sizes);
    assert FastOk(sizes, |sizes|, idx, lookup, p);
    assert NodeOk(sizes, |sizes|, idx, cnt, lookup, tree, p);
    if temp != 0 {
      var t: nat :| t < |sizes| && Short(sizes, t) && Covers(sizes, t, p);
      assert Placed(sizes, idx, lookup, tree, t);
      assert Word(sizes, t) <= w;
      DivUnique(temp, 512, sizes[t], t);
      OnlyMatch(sizes, t, w);
    } else {
      forall s: nat | Meets(sizes, s, w, 0) ensures false {
        assert Covers(sizes, s, p) || Long(sizes, s);
        assert Placed(sizes, idx, lookup, tree, s);
        var f := Front(Word(sizes, s));
        assert Long(sizes, s) ==> f[..FAST_BITS] == p;
        Ancestor(sizes, |sizes|, |sizes|, idx, cnt, lookup, tree, f, FAST_BITS);
      }
    }
  }

  lemma GetPlaced(sizes: seq<nat>, idx: Nodes, cnt: nat, lookup: seq<int>, tree: seq<int>, s: nat)
    requires Inv(sizes, |sizes|, |sizes|, idx, cnt, lookup, tree) && s < |sizes|
    ensures Placed(sizes, idx, lookup, tree, s)
  {
  }

  lemma FastMiss(sizes: seq<nat>, idx: Nodes, cnt: nat, lookup: seq<int>, tree: seq<int>, w: seq<bool>)
    requires Inv(sizes, |sizes|, |sizes|, idx, cnt, lookup, tree)
    requires |w| == MAX_BITS && Val(w[..FAST_BITS]) < FAST_SIZE && lookup[Val(w[..FAST_BITS])] < 0
    ensures w[..FAST_BITS] in idx && lookup[Val(w[..FAST_BITS])] == Link(idx[w[..FAST_BITS]])
  {
    hide Word, Val, Accepted;
    var p := w[..FAST_BITS];
    assert FastOk(sizes, |sizes|, idx, lookup, p);
    assert NodeOk(sizes, |sizes|, idx, cnt, lookup, tree, p);
    if p !in idx {
      var t: nat :| t < |sizes| && Short(sizes, t) && Covers(sizes, t, p);
      GetPlaced(sizes, idx, cnt, lookup, tree, t);
    }
  }

  /** One step down the tree: another node, or the only symbol that can be at the front. */
  lemma TreeStep(sizes: seq<nat>, idx: Nodes, cnt: nat, lookup: seq<int>, tree: seq<int>, w: seq<bool>, d: nat)
    requires Inv(sizes, |sizes|, |sizes|, idx, cnt, lookup, tree) && |sizes| <= 288
    requires |w| == MAX_BITS && FAST_BITS < d <= MAX_BITS && Front(w[..d]) in idx
    ensures var temp := At(tree, Slot(idx, w[..d]));
      && (temp < 0 ==> w[..d] in idx && temp == Link(idx[w[..d]]) && d < MAX_BITS)
      && (temp >= 0 ==> Decoded(sizes, w, temp, d))
  {
    hide Word, Val, Accepted;
    var q := w[..d];
    var temp := At(tree, Slot(idx, q));
    assert SlotOk(sizes, |sizes|, idx, tree, q);
    assert NodeOk(sizes, |sizes|, idx, cnt, lookup, tree, q);
    if temp != 0 && q !in idx {
      var t: nat :| t < |sizes| && Long(sizes, t) && Word(sizes, t) == q;
      assert Placed(sizes, idx, lookup, tree, t);
      OnlyMatch(sizes, t, w);
    }
    if temp == 0 {
      forall s: nat | Meets(sizes, s, w, d) ensures temp == s && d == sizes[s] {
        ZeroEntry(sizes, idx, cnt, lookup, tree, w, d, s);
      }
    }
  }

  /** A zero tree entry is unset, unless it is the leaf of symbol 0. */
  lemma ZeroEntry(sizes: seq<nat>, idx: Nodes, cnt: nat, lookup: seq<int>, tree: seq<int>, w: seq<bool>, d: nat, s: nat)
    requires Inv(sizes, |sizes|, |sizes|, idx, cnt, lookup, tree)
    requires |w| == MAX_BITS && FAST_BITS < d <= MAX_BITS && Front(w[..d]) in idx && At(tree, Slot(idx, w[..d])) == 0
    requires Meets(sizes, s, w, d)
    ensures s == 0 && sizes[s] == d
  {
    hide Word, Val, Accepted;
    var q := w[..d];
    var p := Front(q);
    assert Placed(sizes, idx, lookup, tree, s);
    assert NodeOk(sizes, |sizes|, idx, cnt, lookup, tree, p);
    if sizes[s] < d {
      var t: nat :| t < |sizes| && Used(sizes, t) && |p| < sizes[t] && p <= Word(sizes, t);
      assert Word(sizes, s) <= p;
      AcceptedFits(sizes);
      PrefixFree(sizes, s, t, Word(sizes, t));
    } else if sizes[s] > d {
      assert NodeOk(sizes, |sizes|, idx, cnt, lookup, tree, q);
      var f := Front(Word(sizes, s));
      assert f[..d] == q;
      Ancestor(sizes, |sizes|, |sizes|, idx, cnt, lookup, tree, f, d);
    } else {
      assert Word(sizes, s) == q;
    }
  }
}
