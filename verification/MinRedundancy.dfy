/** Moffat and Katajainen's in-place computation of Huffman code lengths
    (`tdefl_calculate_minimum_redundancy`). One array of keys holds, one after the other, the
    sorted weights, parent links, depths of the inner nodes, and code lengths. */
module MinRedundancy {
  import opened Bits
  import opened CodeCost
  import opened MergeTree

  datatype SymFreq = SymFreq(key: nat, sym: nat)

  function Keys(s: seq<SymFreq>): (k: seq<nat>)
    ensures |k| == |s| && forall i :: 0 <= i < |s| ==> k[i] == s[i].key
  {
    seq(|s|, i requires 0 <= i < |s| => s[i].key)
  }

  function Syms(s: seq<SymFreq>): (k: seq<nat>)
    ensures |k| == |s| && forall i :: 0 <= i < |s| ==> k[i] == s[i].sym
  {
    seq(|s|, i requires 0 <= i < |s| => s[i].sym)
  }

  // ---------------------------------------------------------------- merging

  /** The weights `nodes` of the inner nodes made so far, with the weight `larger` of each one's
      second child. The first `|par|` nodes and the first `leaf` leaves have been merged. */
  ghost predicate Weighted(w: seq<nat>, nodes: seq<nat>, larger: seq<nat>, par: seq<nat>, leaf: nat) {
    && Ordered(w, nodes, larger, |par|, leaf) && Linked(par, |nodes|) && |par| < |nodes|
    && Grows(nodes, larger, par)
    && Sum(nodes[|par|..]) + Sum(w[leaf..]) == Sum(w)
    && |par| + leaf == 2 * |nodes| && Built(w, nodes, par)
  }

  /** All weights are in order, and none that is left is smaller than one already taken. */
  ghost predicate Ordered(w: seq<nat>, nodes: seq<nat>, larger: seq<nat>, root: nat, leaf: nat) {
    && |nodes| == |larger| > 0 && root <= |nodes| && leaf <= |w|
    && NonDecreasing(w) && NonDecreasing(nodes) && NonDecreasing(larger)
    && (forall k :: 0 <= k < |nodes| ==> 1 <= larger[k] < nodes[k] <= 2 * larger[k])
    && (forall k :: root <= k < |nodes| ==> larger[|nodes| - 1] <= nodes[k])
    && (forall k :: leaf <= k < |w| ==> larger[|nodes| - 1] <= w[k])
    && (forall k :: 0 <= k < |w| ==> 1 <= w[k])
  }

  ghost predicate Grows(nodes: seq<nat>, larger: seq<nat>, par: seq<nat>) {
    forall k :: 0 <= k < |par| ==> GrowsBy(nodes, larger, par, k)
  }

  /** A node's parent weighs at least as much as the node and its larger child together. */
  ghost predicate GrowsBy(nodes: seq<nat>, larger: seq<nat>, par: seq<nat>, k: nat) {
    && k < |par| && k < par[k] < |nodes| == |larger|
    && nodes[par[k]] >= nodes[k] + larger[k] && larger[par[k]] >= nodes[k]
  }

  /** The weight taken by one pick, from the inner nodes or from the leaves. */
  function Pick(w: seq<nat>, nodes: seq<nat>, root: nat, leaf: nat, fromNodes: bool): nat
    requires if fromNodes then root < |nodes| else leaf < |w|
  {
    if fromNodes then nodes[root] else w[leaf]
  }

  predicate PicksSmallest(w: seq<nat>, nodes: seq<nat>, root: nat, leaf: nat, fromNodes: bool) {
    && root <= |nodes| && leaf <= |w|
    && (fromNodes ==> root < |nodes| && (leaf == |w| || nodes[root] < w[leaf]))
    && (!fromNodes ==> leaf < |w| && (root == |nodes| || w[leaf] <= nodes[root]))
  }

  function Links(p1: bool, p2: bool, next: nat): seq<nat> {
    (if p1 then [next] else []) + (if p2 then [next] else [])
  }

  /** Two picks of the smallest weights keep the weights in order, and nothing is lost. */
  lemma MergeStep(w: seq<nat>, nodes: seq<nat>, larger: seq<nat>, par: seq<nat>, leaf: nat, p1: bool, p2: bool, x: nat,
                  y: nat)
    requires Weighted(w, nodes, larger, par, leaf)
    requires PicksSmallest(w, nodes, |par|, leaf, p1) && x == Pick(w, nodes, |par|, leaf, p1)
    requires var r1 := if p1 then |par| + 1 else |par|; var l1 := if p1 then leaf else leaf + 1;
      PicksSmallest(w, nodes, r1, l1, p2) && y == Pick(w, nodes, r1, l1, p2)
    ensures x + y <= Sum(w)
    ensures Weighted(w, nodes + [x + y], larger + [y], par + Links(p1, p2, |nodes|),
                     leaf + (if p1 then 0 else 1) + (if p2 then 0 else 1))
  {
    hide Sum, Grows, Ordered, Links, Linked, Built;
    LinksStep(par, |nodes|, p1, p2);
    OrderStep(w, nodes, larger, |par|, leaf, p1, p2, x, y);
    GrowStep(w, nodes, larger, par, leaf, p1, p2, x, y);
    SumStep(w, nodes, |par|, leaf, p1, p2, x, y);
    LinksLen(p1, p2, |nodes|);
    BuildStep(w, nodes, larger, par, leaf, p1, p2, x, y);
  }

  lemma BuildStep(w: seq<nat>, nodes: seq<nat>, larger: seq<nat>, par: seq<nat>, leaf: nat, p1: bool, p2: bool, x: nat,
                  y: nat)
    requires Built(w, nodes, par) && Linked(par, |nodes|) && Ordered(w, nodes, larger, |par|, leaf)
    requires |par| + leaf == 2 * |nodes| && |par| < |nodes|
    requires PicksSmallest(w, nodes, |par|, leaf, p1) && x == Pick(w, nodes, |par|, leaf, p1)
    requires var r1 := if p1 then |par| + 1 else |par|; var l1 := if p1 then leaf else leaf + 1;
      PicksSmallest(w, nodes, r1, l1, p2) && y == Pick(w, nodes, r1, l1, p2)
    ensures Built(w, nodes + [x + y], par + Links(p1, p2, |nodes|))
  {
    hide *;
    var next := |nodes|;
    var more := Links(p1, p2, next);
    var leaf' := leaf + (if p1 then 0 else 1) + (if p2 then 0 else 1);
    LinksLen(p1, p2, next);
    PickedSum(w, nodes, larger, |par|, leaf, p1, p2, x, y);
    PickedBound(w, nodes, larger, |par|, leaf, p1, p2, x, y);
    LinksStep(par, next, p1, p2);
    NewlyMade(w, nodes, par, more, x + y, leaf, leaf', y);
    BuiltMore(w, nodes, par, more, x + y);
  }

  lemma BuiltMore(w: seq<nat>, nodes: seq<nat>, par: seq<nat>, more: seq<nat>, x: nat)
    requires Linked(par, |nodes|) && Linked(par + more, |nodes| + 1)
    requires forall k :: 0 <= k < |more| ==> more[k] == |nodes|
    requires Built(w, nodes, par) && Made(w, nodes + [x], par + more, |nodes|)
    ensures Built(w, nodes + [x], par + more)
  {
    hide Made, Linked;
    forall t: nat | t < |nodes + [x]| ensures Made(w, nodes + [x], par + more, t) {
      if t < |nodes| { StillMade(w, nodes, par, more, x, t); }
    }
  }

  lemma PickedSum(w: seq<nat>, nodes: seq<nat>, larger: seq<nat>, root: nat, leaf: nat, p1: bool, p2: bool, x: nat,
                  y: nat)
    requires Ordered(w, nodes, larger, root, leaf)
    requires PicksSmallest(w, nodes, root, leaf, p1) && x == Pick(w, nodes, root, leaf, p1)
    requires var r1 := if p1 then root + 1 else root; var l1 := if p1 then leaf else leaf + 1;
      PicksSmallest(w, nodes, r1, l1, p2) && y == Pick(w, nodes, r1, l1, p2)
    ensures var r2 := root + (if p1 then 1 else 0) + (if p2 then 1 else 0);
      var l2 := leaf + (if p1 then 0 else 1) + (if p2 then 0 else 1);
      r2 <= |nodes| && l2 <= |w| && x + y == Sum(nodes[root..r2]) + Sum(w[leaf..l2])
  {
    NoItems(w, leaf);
    NoItems(nodes, root);
    if p1 && p2 {
      TwoItems(nodes, root);
    } else if !p1 && !p2 {
      TwoItems(w, leaf);
    } else {
      OneItem(nodes, root);
      OneItem(w, leaf);
    }
  }

  lemma PickedBound(w: seq<nat>, nodes: seq<nat>, larger: seq<nat>, root: nat, leaf: nat, p1: bool, p2: bool, x: nat,
                    y: nat)
    requires Ordered(w, nodes, larger, root, leaf)
    requires PicksSmallest(w, nodes, root, leaf, p1) && x == Pick(w, nodes, root, leaf, p1)
    requires var r1 := if p1 then root + 1 else root; var l1 := if p1 then leaf else leaf + 1;
      PicksSmallest(w, nodes, r1, l1, p2) && y == Pick(w, nodes, r1, l1, p2)
    ensures var r2 := root + (if p1 then 1 else 0) + (if p2 then 1 else 0);
      var l2 := leaf + (if p1 then 0 else 1) + (if p2 then 0 else 1);
      r2 <= |nodes| && l2 <= |w| && TakesSmallest(w, nodes, root, r2, leaf, l2, |nodes|, y)
  {
    assert x <= y;
  }

  lemma LinksLen(p1: bool, p2: bool, next: nat)
    ensures |Links(p1, p2, next)| == (if p1 then 1 else 0) + (if p2 then 1 else 0)
    ensures forall k :: 0 <= k < |Links(p1, p2, next)| ==> Links(p1, p2, next)[k] == next
  {
  }

  lemma GrowStep(w: seq<nat>, nodes: seq<nat>, larger: seq<nat>, par: seq<nat>, leaf: nat, p1: bool, p2: bool, x: nat,
                 y: nat)
    requires Ordered(w, nodes, larger, |par|, leaf) && Grows(nodes, larger, par) && |par| < |nodes|
    requires PicksSmallest(w, nodes, |par|, leaf, p1) && x == Pick(w, nodes, |par|, leaf, p1)
    requires var r1 := if p1 then |par| + 1 else |par|; var l1 := if p1 then leaf else leaf + 1;
      PicksSmallest(w, nodes, r1, l1, p2) && y == Pick(w, nodes, r1, l1, p2)
    ensures Grows(nodes + [x + y], larger + [y], par + Links(p1, p2, |nodes|))
  {
    var next := |nodes|;
    var nodes', larger', par' := nodes + [x + y], larger + [y], par + Links(p1, p2, next);
    assert larger[next - 1] <= x <= y;
    forall k | 0 <= k < |par'| ensures GrowsBy(nodes', larger', par', k) {
      if k < |par| {
        assert GrowsBy(nodes, larger, par, k);
      } else {
        assert par'[k] == next && larger[k] <= larger[next - 1];
      }
    }
  }

  lemma LinksStep(par: seq<nat>, next: nat, p1: bool, p2: bool)
    requires Linked(par, next) && |par| + (if p1 then 1 else 0) + (if p2 then 1 else 0) <= next
    ensures Linked(par + Links(p1, p2, next), next + 1)
  {
    var par' := par + Links(p1, p2, next);
    assert forall k :: |par| <= k < |par'| ==> par'[k] == next;
    assert forall k :: 0 <= k < |par| ==> par'[k] == par[k];
  }

  lemma OrderStep(w: seq<nat>, nodes: seq<nat>, larger: seq<nat>, root: nat, leaf: nat, p1: bool, p2: bool, x: nat,
                  y: nat)
    requires Ordered(w, nodes, larger, root, leaf)
    requires PicksSmallest(w, nodes, root, leaf, p1) && x == Pick(w, nodes, root, leaf, p1)
    requires var r1 := if p1 then root + 1 else root; var l1 := if p1 then leaf else leaf + 1;
      PicksSmallest(w, nodes, r1, l1, p2) && y == Pick(w, nodes, r1, l1, p2)
    ensures Ordered(w, nodes + [x + y], larger + [y],
                    root + (if p1 then 1 else 0) + (if p2 then 1 else 0),
                    leaf + (if p1 then 0 else 1) + (if p2 then 0 else 1))
  {
    var next := |nodes|;
    var nodes', larger' := nodes + [x + y], larger + [y];
    assert larger[next - 1] <= x <= y;
    assert nodes[next - 1] <= x + y;
    assert forall k :: 0 <= k < next ==> nodes'[k] == nodes[k] && larger'[k] == larger[k];
  }

  lemma SumStep(w: seq<nat>, nodes: seq<nat>, root: nat, leaf: nat, p1: bool, p2: bool, x: nat, y: nat)
    requires root <= |nodes| && leaf <= |w|
    requires if p1 then root < |nodes| && x == nodes[root] else leaf < |w| && x == w[leaf]
    requires var r1 := if p1 then root + 1 else root; var l1 := if p1 then leaf else leaf + 1;
      if p2 then r1 < |nodes| && y == nodes[r1] else l1 < |w| && y == w[l1]
    ensures var r2 := root + (if p1 then 1 else 0) + (if p2 then 1 else 0);
      var l2 := leaf + (if p1 then 0 else 1) + (if p2 then 0 else 1);
      r2 <= |nodes| && l2 <= |w| && x + y <= Sum(nodes[root..]) + Sum(w[leaf..]) &&
      Sum((nodes + [x + y])[r2..]) + Sum(w[l2..]) == Sum(nodes[root..]) + Sum(w[leaf..])
  {
    hide Sum;
    var r1 := if p1 then root + 1 else root;
    var l1 := if p1 then leaf else leaf + 1;
    if p1 { SumTail(nodes, root); } else { SumTail(w, leaf); }
    if p2 { SumTail(nodes, r1); } else { SumTail(w, l1); }
    var r2 := if p2 then r1 + 1 else r1;
    assert (nodes + [x + y])[r2..] == nodes[r2..] + [x + y];
    SumAppend(nodes[r2..], x + y);
  }

  function U16(x: nat): nat { x % 0x1_0000 }

  function SetKey(s: seq<SymFreq>, i: nat, v: nat): seq<SymFreq>
    requires i < |s|
  {
    s[i := s[i].(key := v)]
  }

  /** The weights are positive, sorted, and their sum still fits 16 bits. */
  ghost predicate GoodWeights(w: seq<nat>) {
    NonDecreasing(w) && (forall k :: 0 <= k < |w| ==> 1 <= w[k]) && Sum(w) < 0x1_0000
  }

  /** Only the keys of the first `n` entries have changed. */
  ghost predicate OnlyKeys(a: seq<SymFreq>, b: seq<SymFreq>, n: nat) {
    |a| == |b| && n <= |a| && Syms(a) == Syms(b) && a[n..] == b[n..]
  }

  function Taken(a: seq<SymFreq>, next: nat, root: nat, leaf: nat, fromNodes: bool, base: nat): (r: seq<SymFreq>)
    requires next < |a| && (if fromNodes then root < |a| else leaf < |a|)
    ensures |r| == |a|
  {
    if fromNodes then SetKey(SetKey(a, next, U16(base + a[root].key)), root, next)
    else SetKey(a, next, U16(base + a[leaf].key))
  }

  /** Adds the next inner node's or leaf's weight to node `next`; an inner node gets its link. */
  method TakeItem(A: array<SymFreq>, next: nat, root: nat, leaf: nat, fromNodes: bool, base: nat)
    requires next < A.Length && (if fromNodes then root < A.Length && root != next else leaf < A.Length)
    modifies A
    ensures A[..] == Taken(old(A[..]), next, root, leaf, fromNodes, base)
  {
    if fromNodes {
      A[next] := A[next].(key := U16(base + A[root].key));
      A[root] := A[root].(key := next);
    } else {
      A[next] := A[next].(key := U16(base + A[leaf].key));
    }
  }

  /** The state of the merging pass: links, then node weights, then a gap, then leaf weights. */
  ghost predicate MergeState(a: seq<SymFreq>, w: seq<nat>, par: seq<nat>, next: nat, leaf: nat) {
    && 1 <= next < |w| <= |a| && |par| < next && |par| + leaf == 2 * next && leaf <= |w| && Linked(par, next)
    && (forall k :: 0 <= k < |par| ==> a[k].key == par[k])
    && (forall k :: leaf <= k < |w| ==> a[k].key == w[k])
  }

  ghost predicate NodeWeights(a: seq<SymFreq>, w: seq<nat>, nodes: seq<nat>, larger: seq<nat>, par: seq<nat>,
                              leaf: nat) {
    && Weighted(w, nodes, larger, par, leaf) && |nodes| <= |a|
    && (forall k :: |par| <= k < |nodes| ==> a[k].key == nodes[k])
  }

  /** The choice made for a pick. */
  predicate Choice(a: seq<SymFreq>, n: nat, next: nat, root: nat, leaf: nat, fromNodes: bool)
    requires n <= |a| && root < |a|
  {
    fromNodes <==> leaf >= n || (root < next && a[root].key < a[leaf].key)
  }

  /** What two picks do to the array. */
  ghost predicate TwoPicks(a0: seq<SymFreq>, a: seq<SymFreq>, n: nat, next: nat, root: nat, leaf: nat, p1: bool,
                           p2: bool) {
    && root < next < n - 1 && n <= |a0| && next < leaf && leaf <= n && root + leaf == 2 * next
    && Choice(a0, n, next, root, leaf, p1)
    && var a1 := Taken(a0, next, root, leaf, p1, 0);
      var r1, l1 := if p1 then root + 1 else root, if p1 then leaf else leaf + 1;
      && Choice(a1, n, next, r1, l1, p2) && (p2 ==> r1 < next)
      && a == Taken(a1, next, r1, l1, p2, a1[next].key)
  }

  lemma TwoPicksLinks(a0: seq<SymFreq>, a: seq<SymFreq>, w: seq<nat>, par: seq<nat>, next: nat, leaf: nat, p1: bool,
                      p2: bool)
    requires MergeState(a0, w, par, next, leaf) && TwoPicks(a0, a, |w|, next, |par|, leaf, p1, p2)
    ensures MergeState(a, w, par + Links(p1, p2, next), next + 1, leaf + (if p1 then 0 else 1) + (if p2 then 0 else 1))
    ensures OnlyKeys(a, a0, |w|)
  {
    LinksStep(par, next, p1, p2);
    var a1 := Taken(a0, next, |par|, leaf, p1, 0);
    var r1, l1 := if p1 then |par| + 1 else |par|, if p1 then leaf else leaf + 1;
    assert forall k :: 0 <= k < |a0| ==> a1[k].sym == a0[k].sym && a[k].sym == a1[k].sym;
    assert Syms(a) == Syms(a0);
    forall k | 0 <= k < |a0| && k != next && k != |par| && k != r1
      ensures a[k] == a0[k]
    {
    }
  }

  lemma TwoPicksWeights(a0: seq<SymFreq>, a: seq<SymFreq>, w: seq<nat>, nodes: seq<nat>, larger: seq<nat>,
                        par: seq<nat>,
                        next: nat, leaf: nat, p1: bool, p2: bool) returns (x: nat, y: nat)
    requires MergeState(a0, w, par, next, leaf) && TwoPicks(a0, a, |w|, next, |par|, leaf, p1, p2)
    requires NodeWeights(a0, w, nodes, larger, par, leaf) && |nodes| == next && Sum(w) < 0x1_0000
    ensures NodeWeights(a, w, nodes + [x + y], larger + [y], par + Links(p1, p2, next),
                        leaf + (if p1 then 0 else 1) + (if p2 then 0 else 1))
  {
    var r1, l1 := if p1 then |par| + 1 else |par|, if p1 then leaf else leaf + 1;
    PicksFollow(a0, a, w, nodes, |par|, next, leaf, p1, p2);
    x := Pick(w, nodes, |par|, leaf, p1);
    y := Pick(w, nodes, r1, l1, p2);
    hide Weighted, Links, TwoPicks, PicksSmallest;
    MergeStep(w, nodes, larger, par, leaf, p1, p2, x, y);
    LinksLen(p1, p2, next);
    PickedKeys(a0, a, w, nodes, |par|, next, leaf, p1, p2, x, y);
  }

  lemma PicksFollow(a0: seq<SymFreq>, a: seq<SymFreq>, w: seq<nat>, nodes: seq<nat>, root: nat, next: nat, leaf: nat,
                    p1: bool, p2: bool)
    requires TwoPicks(a0, a, |w|, next, root, leaf, p1, p2) && |nodes| == next
    requires forall k :: leaf <= k < |w| ==> a0[k].key == w[k]
    requires forall k :: root <= k < next ==> a0[k].key == nodes[k]
    ensures PicksSmallest(w, nodes, root, leaf, p1)
    ensures PicksSmallest(w, nodes, if p1 then root + 1 else root, if p1 then leaf else leaf + 1, p2)
  {
  }

  lemma PickedKeys(a0: seq<SymFreq>, a: seq<SymFreq>, w: seq<nat>, nodes: seq<nat>, root: nat, next: nat, leaf: nat,
                   p1: bool, p2: bool,
                   x: nat, y: nat)
    requires TwoPicks(a0, a, |w|, next, root, leaf, p1, p2) && |nodes| == next
    requires forall k :: leaf <= k < |w| ==> a0[k].key == w[k]
    requires forall k :: root <= k < next ==> a0[k].key == nodes[k]
    requires PicksSmallest(w, nodes, root, leaf, p1) && x == Pick(w, nodes, root, leaf, p1)
    requires var r1 := if p1 then root + 1 else root; var l1 := if p1 then leaf else leaf + 1;
      PicksSmallest(w, nodes, r1, l1, p2) && y == Pick(w, nodes, r1, l1, p2)
    requires x + y < 0x1_0000
    ensures forall k :: root + (if p1 then 1 else 0) + (if p2 then 1 else 0) <= k <= next ==>
      a[k].key == (nodes + [x + y])[k]
  {
  }

  lemma FirstNode(w: seq<nat>)
    requires |w| >= 2 && GoodWeights(w)
    ensures w[0] + w[1] <= Sum(w) && Weighted(w, [w[0] + w[1]], [w[1]], [], 2)
  {
    assert w[1..][1..] == w[2..];
    var s := [w[0] + w[1]];
    assert s[0..] == s && s[1..] == [];
    assert Sum(s) == w[0] + w[1];
    FirstMade(w);
  }

  lemma FirstMade(w: seq<nat>)
    requires |w| >= 2 && NonDecreasing(w)
    ensures Built(w, [w[0] + w[1]], [])
  {
    assert First([], 0) == 0 == First([], 1);
    TwoItems(w, 0);
    NoItems([w[0] + w[1]], 0);
    assert TakesSmallest(w, [w[0] + w[1]], 0, 0, 0, 2, 0, w[1]);
    assert Made(w, [w[0] + w[1]], [], 0);
  }

  /** The merging pass: pairs up the smallest weights until one inner node is left. */
  method Merge(A: array<SymFreq>, n: nat) returns (ghost par: seq<nat>, ghost nodes: seq<nat>, ghost larger: seq<nat>)
    requires 2 <= n <= A.Length && n <= 0x1_0000
    modifies A
    ensures OnlyKeys(A[..], old(A[..]), n)
    ensures |par| == n - 2 && Linked(par, n - 1) && forall k :: 0 <= k < n - 2 ==> A[k].key == par[k]
    ensures GoodWeights(Keys(old(A[..n]))) ==>
      Weighted(Keys(old(A[..n])), nodes, larger, par, n) && |nodes| == n - 1 && nodes[n - 2] == Sum(Keys(old(A[..n])))
  {
    ghost var w := Keys(A[..n]);
    ghost var good := GoodWeights(w);
    par, nodes, larger := [], [w[0] + w[1]], [w[1]];
    if good { FirstNode(w); }
    A[0] := A[0].(key := U16(A[0].key + A[1].key));
    var root, leaf, next := 0, 2, 1;
    assert good ==> Sum(w) < 0x1_0000;
    assert Linked([], 1);
    SetOneKey(old(A[..]), old(A[..]), n, 0, A[0].key);
    assert A[..] == SetKey(old(A[..]), 0, A[0].key);
    hide Sum, Weighted, Linked, GoodWeights, OnlyKeys;
    while next < n - 1
      invariant MergeState(A[..], w, par, next, leaf) && root == |par|
      invariant good ==> NodeWeights(A[..], w, nodes, larger, par, leaf) && |nodes| == next
      invariant OnlyKeys(A[..], old(A[..]), n)
    {
      ghost var a0 := A[..];
      root, leaf, par, nodes, larger := MergeRound(A, n, next, root, leaf, w, par, nodes, larger, good);
      OnlyKeysTrans(A[..], a0, old(A[..]), n);
      next := next + 1;
    }
    if good { LastNode(w, nodes, larger, par); }
  }

  lemma OnlyKeysTrans(a: seq<SymFreq>, b: seq<SymFreq>, c: seq<SymFreq>, n: nat)
    requires OnlyKeys(a, b, n) && OnlyKeys(b, c, n)
    ensures OnlyKeys(a, c, n)
  {
  }

  method MergeRound(A: array<SymFreq>, n: nat, next: nat, root: nat, leaf: nat, ghost w: seq<nat>, ghost par: seq<nat>,
                    ghost nodes: seq<nat>, ghost larger: seq<nat>, ghost good: bool)
    returns (root': nat, leaf': nat, ghost par': seq<nat>, ghost nodes': seq<nat>, ghost larger': seq<nat>)
    requires n == |w| <= A.Length && next < n - 1 && MergeState(A[..], w, par, next, leaf) && root == |par|
    requires good ==> NodeWeights(A[..], w, nodes, larger, par, leaf) && |nodes| == next && Sum(w) < 0x1_0000
    modifies A
    ensures MergeState(A[..], w, par', next + 1, leaf') && root' == |par'|
    ensures good ==> NodeWeights(A[..], w, nodes', larger', par', leaf') && |nodes'| == next + 1
    ensures OnlyKeys(A[..], old(A[..]), n)
  {
    hide Sum, Weighted, Linked, Links, TwoPicks, Keys, Syms;
    ghost var a0 := A[..];
    ghost var p1, p2;
    root', leaf', p1, p2 := MergeOne(A, n, next, root, leaf);
    TwoPicksLinks(a0, A[..], w, par, next, leaf, p1, p2);
    nodes', larger' := nodes, larger;
    if good {
      ghost var x, y := TwoPicksWeights(a0, A[..], w, nodes, larger, par, next, leaf, p1, p2);
      nodes', larger' := nodes + [x + y], larger + [y];
    }
    LinksLen(p1, p2, next);
    par' := par + Links(p1, p2, next);
  }

  lemma LastNode(w: seq<nat>, nodes: seq<nat>, larger: seq<nat>, par: seq<nat>)
    requires Weighted(w, nodes, larger, par, |w|) && |nodes| == |par| + 1
    ensures nodes[|par|] == Sum(w)
  {
    SumTail(nodes, |par|);
    assert nodes[|par| + 1..] == [] && w[|w|..] == [];
  }

  /** Makes inner node `next` from the two smallest items. */
  method MergeOne(A: array<SymFreq>, n: nat, next: nat, root: nat, leaf: nat)
    returns (root': nat, leaf': nat, ghost p1: bool, ghost p2: bool)
    requires n <= A.Length && root < next < n - 1 && next < leaf && leaf <= n && root + leaf == 2 * next
    modifies A
    ensures TwoPicks(old(A[..]), A[..], n, next, root, leaf, p1, p2)
    ensures root' == root + (if p1 then 1 else 0) + (if p2 then 1 else 0)
    ensures leaf' == leaf + (if p1 then 0 else 1) + (if p2 then 0 else 1)
  {
    root', leaf' := root, leaf;
    var first := leaf' >= n || A[root'].key < A[leaf'].key;
    TakeItem(A, next, root', leaf', first, 0);
    if first { root' := root' + 1; } else { leaf' := leaf' + 1; }
    var second := leaf' >= n || (root' < next && A[root'].key < A[leaf'].key);
    TakeItem(A, next, root', leaf', second, A[next].key);
    if second { root' := root' + 1; } else { leaf' := leaf' + 1; }
    p1, p2 := first, second;
  }

  // ---------------------------------------------------------------- depths

  /** The depth pass: replaces links by depths, from the root down. */
  method LinksToDepths(A: array<SymFreq>, n: nat, ghost par: seq<nat>)
    requires 2 <= n <= A.Length && |par| == n - 2 && Linked(par, n - 1)
    requires forall k :: 0 <= k < n - 2 ==> A[k].key == par[k]
    modifies A
    ensures OnlyKeys(A[..], old(A[..]), n)
    ensures forall k :: 0 <= k < n - 1 ==> A[k].key == Depth(par, k)
  {
    A[n - 2] := A[n - 2].(key := 0);
    for next := n - 2 downto 0
      invariant forall k :: 0 <= k < next ==> A[k].key == par[k]
      invariant forall k :: next <= k < n - 1 ==> A[k].key == Depth(par, k)
      invariant OnlyKeys(A[..], old(A[..]), n)
    {
      ghost var a0 := A[..];
      A[next] := A[next].(key := A[A[next].key].key + 1);
      SetOneKey(a0, old(A[..]), n, next, A[next].key);
    }
  }

  lemma SetOneKey(a: seq<SymFreq>, b: seq<SymFreq>, n: nat, i: nat, v: nat)
    requires OnlyKeys(a, b, n) && i < n
    ensures OnlyKeys(SetKey(a, i, v), b, n)
  {
    var a' := SetKey(a, i, v);
    assert forall k :: 0 <= k < |a| ==> a'[k].sym == a[k].sym;
    assert Syms(a') == Syms(a);
    assert a'[n..] == a[n..];
  }

  // ---------------------------------------------------------------- code lengths

  /** The inner nodes of one depth have at most twice as many inner children. */
  lemma {:induction false} FewChildren(par: seq<nat>, lo: nat, hi: nat, b: nat, c: nat)
    requires Linked(par, |par| + 1) && lo <= hi <= |par|
    requires forall k :: lo <= k < hi ==> b <= par[k] < c
    ensures hi - lo <= 2 * (if b <= c then c - b else 0)
    decreases hi - lo
  {
    if hi - lo >= 2 {
      assert par[lo] < c;
      forall k | lo + 2 <= k < hi ensures b + 1 <= par[k] < c {
        assert par[k - 2] < par[k];
      }
      FewChildren(par, lo + 2, hi, b + 1, c);
    } else if lo < hi {
      assert b <= par[lo] < c;
    }
  }

  /** There is a node on the next level as long as any nodes are left. */
  lemma NextLevelUsed(par: seq<nat>, root: nat, top: int, d: nat)
    requires Linked(par, |par| + 1) && Level(par, root, top, d) && root < |par|
    ensures Depth(par, root) == d + 1
  {
  }

  /** The next level has at most twice as many nodes. */
  lemma NextLevelFits(par: seq<nat>, root: int, top: int, mid: int, d: nat)
    requires Linked(par, |par| + 1) && Level(par, mid, top, d) && Level(par, root, mid, d + 1) && mid < |par|
    ensures mid - root <= 2 * (top - mid)
  {
    forall k | root < k <= mid ensures mid + 1 <= par[k] < top + 1 {
      assert Depth(par, k) == 1 + Depth(par, par[k]);
    }
    FewChildren(par, root + 1, mid + 1, mid + 1, top + 1);
  }

  /** The code lengths handed out so far, and the slots still open at depth `d`, fill the tree. */
  ghost predicate Filled(lens: seq<nat>, m: nat, d: nat, avbl: nat) {
    && d <= m && (forall k :: 0 <= k < |lens| ==> 1 <= lens[k] <= d) && NonIncreasing(lens)
    && Kraft(lens, m) + avbl * Pow2(m - d) == Pow2(m)
  }

  lemma AddLeaf(lens: seq<nat>, m: nat, d: nat, avbl: nat)
    requires Filled(lens, m, d, avbl) && avbl > 0 && d > 0
    ensures Filled([d] + lens, m, d, avbl - 1)
  {
    assert ([d] + lens)[1..] == lens;
    MulAdd(avbl - 1, 1, Pow2(m - d));
  }

  lemma GoDeeper(lens: seq<nat>, m: nat, d: nat, used: nat)
    requires Filled(lens, m, d, used) && d < m
    ensures Filled(lens, m, d + 1, 2 * used)
  {
    MulTwice(used, Pow2(m - d - 1));
  }

  /** Counts the inner nodes of depth `dpth`. */
  method CountLevel(A: array<SymFreq>, root: int, dpth: nat, ghost par: seq<nat>) returns (used: nat, root': int)
    requires -1 <= root <= |par| < A.Length && Linked(par, |par| + 1)
    requires forall k :: 0 <= k <= root ==> A[k].key == Depth(par, k) >= dpth
    requires forall k :: root < k <= |par| ==> Depth(par, k) < dpth
    ensures Level(par, root', root, dpth) && used == root - root'
  {
    used, root' := 0, root;
    while root' >= 0 && A[root'].key == dpth
      invariant -1 <= root' <= root && used == root - root'
      invariant forall k :: root' < k <= root ==> Depth(par, k) == dpth
    {
      used := used + 1;
      root' := root' - 1;
    }
    forall k | 0 <= k <= root' ensures Depth(par, k) > dpth { DepthOrder(par, k, root'); }
  }

  /** Gives the slots of depth `dpth` that are not used by inner nodes to the most frequent
      symbols that have no length yet. */
  method AssignLeaves(A: array<SymFreq>, n: nat, next: int, avbl: nat, used: nat, dpth: nat) returns (next': int)
    requires used <= avbl && 0 <= next - (avbl - used) + 1 && next < n <= A.Length
    requires Filled(Keys(A[next + 1..n]), n, dpth, avbl) && (avbl > used ==> dpth > 0)
    modifies A
    ensures next' == next - (avbl - used) && Filled(Keys(A[next' + 1..n]), n, dpth, used)
    ensures OnlyKeys(A[..], old(A[..]), n) && A[..next' + 1] == old(A[..next' + 1])
    ensures A[next + 1..] == old(A[next + 1..]) && forall k :: next' < k <= next ==> A[k].key == dpth
  {
    next' := next;
    hide Filled, Keys, Syms;
    var left := avbl;
    while left > used
      invariant used <= left <= avbl && next' == next - (avbl - left)
      invariant Filled(Keys(A[next' + 1..n]), n, dpth, left)
      invariant OnlyKeys(A[..], old(A[..]), n) && A[..next' + 1] == old(A[..next' + 1])
      invariant A[next + 1..] == old(A[next + 1..]) && forall k :: next' < k <= next ==> A[k].key == dpth
    {
      ghost var a0 := A[..];
      ghost var lens := Keys(A[next' + 1..n]);
      A[next'] := A[next'].(key := dpth);
      AddLeaf(lens, n, dpth, left);
      KeysFront(a0, next', n, dpth);
      SetOneKey(a0, old(A[..]), n, next', dpth);
      assert A[..] == SetKey(a0, next', dpth);
      assert A[next'..n] == A[..][next'..n];
      next' := next' - 1;
      left := left - 1;
    }
  }

  lemma KeysFront(a: seq<SymFreq>, i: nat, n: nat, v: nat)
    requires i < n <= |a|
    ensures Keys(SetKey(a, i, v)[i..n]) == [v] + Keys(a[i + 1..n])
  {
  }

  /** Between two depths of the counting pass: `root` is the next inner node to count, those from
      `root + 1` to `top` are on the last depth, and lengths are handed out down to `next`. */
  ghost predicate Slots(a: seq<SymFreq>, n: nat, par: seq<nat>, root: int, top: int, next: int, avbl: nat, dpth: nat)
    requires Linked(par, |par| + 1)
  {
    && -1 <= root <= n - 2 && -1 <= next < n <= |a| && |par| == n - 2
    && n - 1 - next + avbl == n - 1 - root
    && (next > root || (avbl == 0 && root == -1))
    && (dpth == 0 ==> root == top == n - 2 && avbl == 1)
    && (dpth > 0 ==> Level(par, root, top, dpth - 1) && avbl == 2 * (top - root))
    && (forall k :: 0 <= k <= root ==> a[k].key == Depth(par, k))
    && dpth + root + 1 <= n - 1 + (if avbl == 0 then 1 else 0)
    && Filled(Keys(a[next + 1..n]), n, dpth, avbl)
    && (avbl > 0 ==> dpth <= Depth(par, 0) + 1)
    && (forall k :: next < k < n ==> a[k].key <= Depth(par, 0) + 1)
  }

  ghost predicate LengthsState(a: seq<SymFreq>, n: nat, par: seq<nat>, root: int, top: int, next: int, avbl: nat,
                               dpth: nat)
    requires Linked(par, |par| + 1)
  {
    Slots(a, n, par, root, top, next, avbl, dpth) && LeafKeys(a, n, par, next)
  }

  /** The lengths handed out are the depths of the leaves. */
  ghost predicate LeafKeys(a: seq<SymFreq>, n: nat, par: seq<nat>, next: int)
    requires Linked(par, |par| + 1) && n <= |a| && -1 <= next
  {
    forall k: nat, t: nat :: next < k < n && t <= |par| && IsLeafOf(par, k, t) ==> a[k].key == Depth(par, t) + 1
  }

  lemma BelowRoot(par: seq<nat>, k: nat)
    requires Linked(par, |par| + 1) && k < |par|
    ensures Depth(par, k) > 0
  {
  }

  /** How many inner nodes a depth of the tree has. */
  lemma LevelUse(par: seq<nat>, root: int, top: int, mid: int, d: nat)
    requires Linked(par, |par| + 1) && Level(par, root, mid, d)
    requires if d == 0 then mid == |par| else Level(par, mid, top, d - 1)
    ensures d == 0 ==> mid - root == 1
    ensures d > 0 ==> mid - root <= 2 * (top - mid)
    ensures mid >= 0 ==> mid - root >= 1
    ensures mid - root >= 1 ==> d <= Depth(par, 0)
  {
    if d == 0 {
      if root < |par| - 1 { BelowRoot(par, |par| - 1); }
    } else {
      assert mid < |par|;
      NextLevelFits(par, root, top, mid, d - 1);
      if mid >= 0 { NextLevelUsed(par, mid, top, d - 1); }
    }
    if root < mid { DepthOrder(par, 0, mid); }
  }

  lemma FilledBound(a: seq<SymFreq>, lo: nat, n: nat, m: nat, d: nat, avbl: nat)
    requires lo <= n <= |a| && Filled(Keys(a[lo..n]), m, d, avbl)
    ensures forall k :: lo <= k < n ==> 1 <= a[k].key <= d
  {
    forall k | lo <= k < n ensures 1 <= a[k].key <= d {
      assert Keys(a[lo..n])[k - lo] == a[k].key;
    }
  }

  /** One depth of the counting pass. */
  method LengthsLevel(A: array<SymFreq>, n: nat, ghost par: seq<nat>, root: int, ghost top: int, next: int, avbl: nat,
                      dpth: nat)
    returns (root': int, next': int, avbl': nat, ghost top': int)
    requires Linked(par, |par| + 1) && LengthsState(A[..], n, par, root, top, next, avbl, dpth) && avbl > 0
    modifies A
    ensures LengthsState(A[..], n, par, root', top', next', avbl', dpth + 1)
    ensures OnlyKeys(A[..], old(A[..]), n)
    ensures root' < root || (root' == root && avbl' < avbl)
  {
    hide *;
    StateParts(A[..], n, par, root, top, next, avbl, dpth);
    ghost var a0 := A[..];
    var used;
    used, root' := CountLevel(A, root, dpth, par);
    LevelParts(A[..], n, par, root, top, next, avbl, dpth, root', used);
    next' := AssignLeaves(A, n, next, avbl, used, dpth);
    avbl' := 2 * used;
    top' := root;
    NextState(a0, A[..], n, par, root, top, next, avbl, dpth, root', next', used);
  }

  /** What one depth of the counting pass needs to start. */
  lemma StateParts(a: seq<SymFreq>, n: nat, par: seq<nat>, root: int, top: int, next: int, avbl: nat, dpth: nat)
    requires Linked(par, |par| + 1) && LengthsState(a, n, par, root, top, next, avbl, dpth) && avbl > 0
    ensures -1 <= root <= |par| < |a| && n <= |a| && |par| == n - 2
    ensures forall k :: 0 <= k <= root ==> a[k].key == Depth(par, k) >= dpth
    ensures forall k :: root < k <= |par| ==> Depth(par, k) < dpth
  {
    if dpth > 0 { hide Depth, Filled, LeafKeys; } else { hide Filled, LeafKeys; }
  }

  lemma LevelParts(a: seq<SymFreq>, n: nat, par: seq<nat>, root: int, top: int, next: int, avbl: nat, dpth: nat,
                   root': int, used: nat)
    requires Linked(par, |par| + 1) && LengthsState(a, n, par, root, top, next, avbl, dpth) && avbl > 0
    requires Level(par, root', root, dpth) && used == root - root'
    ensures used <= avbl && 0 <= next - (avbl - used) + 1 && -1 <= next < n <= |a|
    ensures Filled(Keys(a[next + 1..n]), n, dpth, avbl) && (avbl > used ==> dpth > 0)
    ensures (root >= 0 ==> used >= 1) && (used >= 1 ==> dpth <= Depth(par, 0))
  {
    hide Filled, Depth, Keys, Linked, LeafKeys;
    LevelUse(par, root', top, root, dpth);
  }

  lemma NextState(a0: seq<SymFreq>, a: seq<SymFreq>, n: nat, par: seq<nat>, root: int, top: int, next: int, avbl: nat,
                  dpth: nat,
                  root': int, next': int, used: nat)
    requires Linked(par, |par| + 1) && LengthsState(a0, n, par, root, top, next, avbl, dpth) && avbl > 0
    requires Level(par, root', root, dpth) && used == root - root' <= avbl
    requires (root >= 0 ==> used >= 1) && (used >= 1 ==> dpth <= Depth(par, 0))
    requires next' == next - (avbl - used) && |a| == |a0| && Filled(Keys(a[next' + 1..n]), n, dpth, used)
    requires a[..next' + 1] == a0[..next' + 1]
    requires a[next + 1..] == a0[next + 1..] && forall k :: next' < k <= next ==> a[k].key == dpth
    ensures LengthsState(a, n, par, root', root, next', 2 * used, dpth + 1)
  {
    NextLeaves(a0, a, n, par, root, top, next, avbl, dpth, root', next', used);
    NextSlots(a0, a, n, par, root, top, next, avbl, dpth, root', next', used);
    hide Filled, Depth, Keys, Syms, Linked, Kraft, Pow2, LeafKeys, Slots, Level;
  }

  lemma NextSlots(a0: seq<SymFreq>, a: seq<SymFreq>, n: nat, par: seq<nat>, root: int, top: int, next: int, avbl: nat,
                  dpth: nat,
                  root': int, next': int, used: nat)
    requires Linked(par, |par| + 1) && Slots(a0, n, par, root, top, next, avbl, dpth) && avbl > 0
    requires Level(par, root', root, dpth) && used == root - root' <= avbl
    requires (root >= 0 ==> used >= 1) && (used >= 1 ==> dpth <= Depth(par, 0))
    requires next' == next - (avbl - used) && |a| == |a0| && Filled(Keys(a[next' + 1..n]), n, dpth, used)
    requires a[..next' + 1] == a0[..next' + 1]
    ensures Slots(a, n, par, root', root, next', 2 * used, dpth + 1)
  {
    hide Filled, Depth, Keys, Syms, Linked, Kraft, Pow2;
    assert next' == root + used;
    FilledBound(a, next' + 1, n, n, dpth, used);
    GoDeeper(Keys(a[next' + 1..n]), n, dpth, used);
    forall k | 0 <= k <= root' ensures a[k].key == Depth(par, k) {
      assert a[k] == a[..next' + 1][k] == a0[..next' + 1][k];
    }
  }

  lemma NextLeaves(a0: seq<SymFreq>, a: seq<SymFreq>, n: nat, par: seq<nat>, root: int, top: int, next: int, avbl: nat,
                   dpth: nat,
                   root': int, next': int, used: nat)
    requires Linked(par, |par| + 1) && LengthsState(a0, n, par, root, top, next, avbl, dpth) && avbl > 0
    requires Level(par, root', root, dpth) && used == root - root' <= avbl && (root >= 0 ==> used >= 1)
    requires next' == next - (avbl - used) >= -1 && |a| == |a0|
    requires a[next + 1..] == a0[next + 1..] && forall k :: next' < k <= next ==> a[k].key == dpth
    ensures LeafKeys(a, n, par, next')
  {
    hide Filled, Depth, Keys, Syms, Linked, Kraft, Pow2, First;
    forall k: nat, t: nat | next' < k < n && t <= |par| && IsLeafOf(par, k, t) ensures a[k].key == Depth(par, t) + 1 {
      if k > next {
        assert a[k] == a[next + 1..][k - next - 1] == a0[k];
      } else if dpth > 0 {
        LeafLevel(par, root', root, top, dpth - 1, k, t);
      }
    }
  }

  /** The counting pass: the lengths handed out at each depth are the slots left by inner nodes. */
  method DepthsToLengths(A: array<SymFreq>, n: nat, ghost par: seq<nat>)
    requires 2 <= n <= A.Length && |par| == n - 2 && Linked(par, n - 1)
    requires forall k :: 0 <= k < n - 1 ==> A[k].key == Depth(par, k)
    modifies A
    ensures OnlyKeys(A[..], old(A[..]), n)
    ensures forall k :: 0 <= k < n ==> 1 <= A[k].key <= n
    ensures NonIncreasing(Keys(A[..n])) && Kraft(Keys(A[..n]), n) == Pow2(n)
    ensures forall k :: 0 <= k < n ==> A[k].key <= Depth(par, 0) + 1
    ensures LeafDepths(par, Keys(A[..n]))
  {
    InitialState(A[..], n, par);
    hide *;
    ghost var root, top, next, dpth := RunLevels(A, n, par);
    AllAssigned(A[..], n, par, root, top, next, dpth);
    assert A[..n] == A[..][..n];
  }

  method RunLevels(A: array<SymFreq>, n: nat, ghost par: seq<nat>)
    returns (ghost root': int, ghost top: int, ghost next': int, ghost depth: nat)
    requires n <= A.Length && Linked(par, |par| + 1) && LengthsState(A[..], n, par, n - 2, n - 2, n - 1, 1, 0)
    modifies A
    ensures OnlyKeys(A[..], old(A[..]), n) && LengthsState(A[..], n, par, root', top, next', 0, depth)
  {
    var avbl, dpth, root: int, next: int := 1, 0, n - 2, n - 1;
    top := n - 2;
    hide *;
    OnlyKeysSelf(A[..], n);
    StateRoot(A[..], n, par, root, top, next, avbl, dpth);
    while avbl > 0
      invariant LengthsState(A[..], n, par, root, top, next, avbl, dpth)
      invariant OnlyKeys(A[..], old(A[..]), n)
      invariant -1 <= root
      decreases root + 1, avbl
    {
      ghost var a0 := A[..];
      root, next, avbl, top := LengthsLevel(A, n, par, root, top, next, avbl, dpth);
      OnlyKeysTrans(A[..], a0, old(A[..]), n);
      StateRoot(A[..], n, par, root, top, next, avbl, dpth + 1);
      dpth := dpth + 1;
    }
    root', next', depth := root, next, dpth;
  }

  lemma OnlyKeysSelf(a: seq<SymFreq>, n: nat)
    requires n <= |a|
    ensures OnlyKeys(a, a, n)
  {
  }

  lemma InitialState(a: seq<SymFreq>, n: nat, par: seq<nat>)
    requires 2 <= n <= |a| && |par| == n - 2 && Linked(par, n - 1)
    requires forall k :: 0 <= k < n - 1 ==> a[k].key == Depth(par, k)
    ensures LengthsState(a, n, par, n - 2, n - 2, n - 1, 1, 0)
  {
    hide Depth;
    assert a[n..n] == [];
  }

  lemma StateRoot(a: seq<SymFreq>, n: nat, par: seq<nat>, root: int, top: int, next: int, avbl: nat, dpth: nat)
    requires Linked(par, |par| + 1) && LengthsState(a, n, par, root, top, next, avbl, dpth)
    ensures -1 <= root && n <= |a|
  {
  }

  lemma AllAssigned(a: seq<SymFreq>, n: nat, par: seq<nat>, root: int, top: int, next: int, dpth: nat)
    requires Linked(par, |par| + 1) && LengthsState(a, n, par, root, top, next, 0, dpth)
    ensures n <= |a| && forall k :: 0 <= k < n ==> 1 <= a[k].key <= n
    ensures forall k :: 0 <= k < n ==> Keys(a[..n])[k] <= n
    ensures NonIncreasing(Keys(a[..n])) && Kraft(Keys(a[..n]), n) == Pow2(n)
    ensures forall k :: 0 <= k < n ==> a[k].key <= Depth(par, 0) + 1
    ensures LeafDepths(par, Keys(a[..n]))
  {
    hide Depth, First;
    assert next == -1;
    FilledBound(a, 0, n, n, dpth, 0);
    assert a[0..n] == a[..n];
  }

  // ---------------------------------------------------------------- depth bound

  lemma {:induction false} FibMono(d: nat, a: nat, b: nat, d': nat, a': nat, b': nat)
    requires d <= d' && a <= a' && b <= b'
    ensures Fib(d, a, b) <= Fib(d', a', b')
    decreases d'
  {
    if d > 0 {
      FibMono(d - 1, a + b, a, d' - 1, a' + b', a');
    } else if d' > 0 {
      FibMono(0, a, 0, d' - 1, a' + b', a');
    }
  }

  /** The whole tree weighs at least a Fibonacci number of the depth of any inner node. */
  lemma {:induction false} DeepIsHeavy(nodes: seq<nat>, larger: seq<nat>, par: seq<nat>, k: nat)
    requires Linked(par, |par| + 1) && Grows(nodes, larger, par) && |nodes| == |larger| == |par| + 1 && k <= |par|
    ensures nodes[|par|] >= Fib(Depth(par, k), nodes[k], larger[k])
    decreases |par| - k
  {
    if k < |par| {
      assert GrowsBy(nodes, larger, par, k);
      var p := par[k];
      DeepIsHeavy(nodes, larger, par, p);
      FibMono(Depth(par, p), nodes[k] + larger[k], nodes[k], Depth(par, p), nodes[p], larger[p]);
    }
  }

  const MAX_TREE_DEPTH: nat := 22

  lemma FibValue()
    ensures Fib(MAX_TREE_DEPTH, 2, 1) == 75025
  {
    calc {
      Fib(22, 2, 1); Fib(20, 5, 3); Fib(18, 13, 8); Fib(16, 34, 21); Fib(14, 89, 55); Fib(12, 233, 144);
      Fib(10, 610, 377); Fib(8, 1597, 987); Fib(6, 4181, 2584); Fib(4, 10946, 6765); Fib(2, 28657, 17711); 75025;
    }
  }

  /** No inner node lies deeper than 21 when the weights add up to a 16-bit number. */
  lemma ShallowTree(w: seq<nat>, nodes: seq<nat>, larger: seq<nat>, par: seq<nat>)
    requires GoodWeights(w) && Weighted(w, nodes, larger, par, |w|) && |nodes| == |par| + 1
    ensures Linked(par, |par| + 1) && Depth(par, 0) < MAX_TREE_DEPTH
  {
    LastNode(w, nodes, larger, par);
    DeepIsHeavy(nodes, larger, par, 0);
    if Depth(par, 0) >= MAX_TREE_DEPTH {
      FibMono(MAX_TREE_DEPTH, 2, 1, Depth(par, 0), nodes[0], larger[0]);
      FibValue();
    }
  }

  lemma CostsLeast(w: seq<nat>, nodes: seq<nat>, larger: seq<nat>, par: seq<nat>, lens: seq<nat>)
    requires Weighted(w, nodes, larger, par, |w|) && |nodes| == |par| + 1 && |w| == |lens| == |par| + 2
    requires Linked(par, |par| + 1) && LeafDepths(par, lens)
    ensures Optimal(w, lens)
  {
    hide Linked, Built, LeafDepths, Optimal;
    TreeIsOptimal(w, nodes, par, lens);
  }

  lemma {:induction false} FibScale(d: nat, a: nat, b: nat, x: nat)
    requires 2 * a >= 2 * x && 2 * b >= x
    ensures 2 * Fib(d, a, b) >= x * Fib(d, 2, 1)
  {
    FibLinear(d, a, b, 2);
    FibLinear(d, 2, 1, x);
    FibMono(d, 2 * x, x, d, 2 * a, 2 * b);
  }

  lemma {:induction false} FibLinear(d: nat, a: nat, b: nat, x: nat)
    ensures Fib(d, x * a, x * b) == x * Fib(d, a, b)
    decreases d
  {
    if d > 0 {
      assert x * a + x * b == x * (a + b);
      FibLinear(d - 1, a + b, a, x);
    }
  }

  /** The parent of leaf `k`. */
  lemma {:induction false} LeafParent(par: seq<nat>, k: nat, t: nat) returns (u: nat)
    requires k < LeafAt(par, t)
    ensures u < t && IsLeafOf(par, k, u)
    decreases t
  {
    if k < LeafAt(par, t - 1) { u := LeafParent(par, k, t - 1); } else { u := t - 1; }
  }

  /** A leaf is light for its depth. */
  lemma LeafIsLight(w: seq<nat>, nodes: seq<nat>, larger: seq<nat>, par: seq<nat>, lens: seq<nat>, k: nat)
    requires Weighted(w, nodes, larger, par, |w|) && |nodes| == |par| + 1 && |w| == |lens| == |par| + 2
    requires Linked(par, |par| + 1) && LeafDepths(par, lens) && k < |w|
    ensures Light(w[k], lens[k], Sum(w))
  {
    Ends(par);
    var t := LeafParent(par, k, |par| + 1);
    assert lens[k] == Depth(par, t) + 1;
    assert Made(w, nodes, par, t);
    var l0, l1 := LeafAt(par, t), LeafAt(par, t + 1);
    SumAtLeast(w[l0..l1], k - l0);
    LastNode(w, nodes, larger, par);
    DeepIsHeavy(nodes, larger, par, t);
    FibScale(Depth(par, t), nodes[t], larger[t], w[k]);
  }

  lemma AllLight(w: seq<nat>, nodes: seq<nat>, larger: seq<nat>, par: seq<nat>, lens: seq<nat>)
    requires Weighted(w, nodes, larger, par, |w|) && |nodes| == |par| + 1 && |w| == |lens| == |par| + 2
    requires Linked(par, |par| + 1) && LeafDepths(par, lens)
    ensures LightLeaves(w, lens, Sum(w))
  {
    hide Weighted, LeafDepths, Linked;
    forall k | 0 <= k < |w| ensures Light(w[k], lens[k], Sum(w)) { LeafIsLight(w, nodes, larger, par, lens, k); }
  }

  /** Replaces sorted weights by the code lengths of a minimum redundancy code, longest first. */
  method CalculateMinimumRedundancy(A: array<SymFreq>, n: nat)
    requires n <= A.Length && n <= 0x1_0000
    modifies A
    ensures OnlyKeys(A[..], old(A[..]), n)
    ensures n == 1 ==> A[0].key == 1
    ensures forall k :: 0 <= k < n ==> 1 <= A[k].key <= n
    ensures n >= 2 ==> NonIncreasing(Keys(A[..n])) && Kraft(Keys(A[..n]), n) == Pow2(n)
    ensures GoodWeights(Keys(old(A[..n]))) ==> forall k :: 0 <= k < n ==> A[k].key <= MAX_TREE_DEPTH
    ensures n >= 2 && GoodWeights(Keys(old(A[..n]))) ==> Optimal(Keys(old(A[..n])), Keys(A[..n]))
    ensures n >= 2 && GoodWeights(Keys(old(A[..n]))) ==>
      LightLeaves(Keys(old(A[..n])), Keys(A[..n]), Sum(Keys(old(A[..n]))))
  {
    if n == 0 {
      return;
    } else if n == 1 {
      ghost var a0 := A[..];
      A[0] := A[0].(key := 1);
      SetOneKey(a0, a0, n, 0, 1);
      assert A[..] == SetKey(a0, 0, 1);
      return;
    }
    hide OnlyKeys, Keys, Syms, Weighted, GoodWeights, Depth;
    ghost var a0, w := A[..], Keys(A[..n]);
    assert |w| == n;
    ghost var par, nodes, larger := Merge(A, n);
    if GoodWeights(w) { ShallowTree(w, nodes, larger, par); }
    ghost var a1 := A[..];
    LinksToDepths(A, n, par);
    ghost var a2 := A[..];
    OnlyKeysTrans(a2, a1, a0, n);
    DepthsToLengths(A, n, par);
    OnlyKeysTrans(A[..], a2, a0, n);
    if GoodWeights(w) {
      CostsLeast(w, nodes, larger, par, Keys(A[..n]));
      AllLight(w, nodes, larger, par, Keys(A[..n]));
    }
  }
}
