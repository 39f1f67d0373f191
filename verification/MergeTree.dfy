/** The tree that merging builds, seen through the parent links of its inner nodes: which leaves and inner
    nodes each inner node was made from, and why the leaves' depths cost the least. */
module MergeTree {
  import opened CodeCost

  /** Parent links of the inner nodes: they point upwards, in order, at most two to a node. */
  predicate Linked(par: seq<nat>, next: nat) {
    && (forall k :: 0 <= k < |par| ==> k < par[k] < next)
    && NonDecreasing(par)
    && (forall k :: 0 <= k < |par| - 2 ==> par[k] < par[k + 2])
  }

  /** The depth of inner node `k`; node `|par|` is the root. */
  function Depth(par: seq<nat>, k: nat): nat
    requires Linked(par, |par| + 1) && k <= |par|
    decreases |par| - k
  {
    if k == |par| then 0 else 1 + Depth(par, par[k])
  }

  lemma {:induction false} DepthOrder(par: seq<nat>, j: nat, k: nat)
    requires Linked(par, |par| + 1) && j <= k <= |par|
    ensures Depth(par, j) >= Depth(par, k) && Depth(par, j) <= |par| - j
    decreases |par| - j
  {
    if j < |par| {
      if k < |par| {
        DepthOrder(par, par[j], par[k]);
      } else {
        DepthOrder(par, par[j], par[j]);
      }
    }
  }

  /** The nodes from `root + 1` to `top` are the ones of depth `d`; lower indices lie deeper. */
  ghost predicate Level(par: seq<nat>, root: int, top: int, d: nat)
    requires Linked(par, |par| + 1)
  {
    && -1 <= root <= top <= |par|
    && (forall k :: 0 <= k <= root ==> Depth(par, k) > d)
    && (forall k :: root < k <= top ==> Depth(par, k) == d)
    && (forall k :: top < k <= |par| ==> Depth(par, k) < d)
  }

  // ---------------------------------------------------------------- children

  /** The number of inner nodes whose parent comes before `t`: those merged before `t` was made. */
  function First(par: seq<nat>, t: nat): (k: nat)
    ensures k <= |par|
  {
    if par == [] then 0 else if par[|par| - 1] < t then |par| else First(par[..|par| - 1], t)
  }

  lemma {:induction false} FirstIs(par: seq<nat>, t: nat)
    requires NonDecreasing(par)
    ensures forall k :: 0 <= k < First(par, t) ==> par[k] < t
    ensures forall k :: First(par, t) <= k < |par| ==> par[k] >= t
    decreases |par|
  {
    if par != [] && par[|par| - 1] >= t { FirstIs(par[..|par| - 1], t); }
  }

  function Item(par: seq<nat>, k: nat): nat { if k < |par| then par[k] else 0 }

  lemma FirstUnique(par: seq<nat>, t: nat, j: nat)
    requires NonDecreasing(par) && j <= |par|
    requires forall k :: 0 <= k < j ==> par[k] < t
    requires forall k :: j <= k < |par| ==> par[k] >= t
    ensures First(par, t) == j
  {
    FirstIs(par, t);
    var f := First(par, t);
    var x, y := Item(par, f), Item(par, j);
  }

  lemma FirstStep(par: seq<nat>, next: nat, t: nat)
    requires Linked(par, next)
    ensures First(par, t) <= t && First(par, t) <= First(par, t + 1) <= First(par, t) + 2
    ensures forall k :: First(par, t) <= k < First(par, t + 1) ==> par[k] == t
  {
    FirstIs(par, t);
    FirstIs(par, t + 1);
    var i, j := First(par, t), First(par, t + 1);
    var x, y, z := Item(par, j), Item(par, i + 2), Item(par, i);
    assert i > 0 ==> i - 1 < par[i - 1] < t;
    assert i < |par| - 2 ==> par[i] < par[i + 2];
  }

  /** The number of leaves merged before node `t` was made. */
  function LeafAt(par: seq<nat>, t: nat): int { 2 * t - First(par, t) }

  lemma {:induction false} LeafMono(par: seq<nat>, next: nat, t: nat, u: nat)
    requires Linked(par, next) && t <= u
    ensures 0 <= LeafAt(par, t) <= LeafAt(par, u)
    decreases u
  {
    FirstStep(par, next, t);
    if t < u {
      LeafMono(par, next, t, u - 1);
      FirstStep(par, next, u - 1);
    }
  }

  /** Leaf `k` is a child of node `t`. */
  predicate IsLeafOf(par: seq<nat>, k: int, t: nat) {
    LeafAt(par, t) <= k < LeafAt(par, t + 1)
  }

  /** The inner nodes up to `lo` are the ones whose parents are the nodes up to `hi`. */
  lemma ChildrenOf(par: seq<nat>, lo: int, hi: int, d: nat)
    requires Linked(par, |par| + 1) && Level(par, lo, hi, d)
    ensures First(par, hi + 1) == lo + 1
  {
    assert lo < |par| by { assert Depth(par, |par|) == 0; }
    forall k | 0 <= k < |par| ensures par[k] < hi + 1 <==> k < lo + 1 {
      assert Depth(par, k) == 1 + Depth(par, par[k]);
    }
    FirstUnique(par, hi + 1, lo + 1);
  }

  /** The leaves of the nodes of depth `d`. */
  lemma LeafLevel(par: seq<nat>, low: int, lo: int, hi: int, d: nat, k: int, t: nat)
    requires Linked(par, |par| + 1) && Level(par, lo, hi, d) && Level(par, low, lo, d + 1)
    requires t <= |par| && IsLeafOf(par, k, t) && 2 * lo - low < k <= 2 * hi - lo
    ensures Depth(par, t) == d
  {
    ChildrenOf(par, lo, hi, d);
    ChildrenOf(par, low, lo, d + 1);
    if t <= lo { LeafMono(par, |par| + 1, t + 1, lo + 1); }
    if t > hi { LeafMono(par, |par| + 1, hi + 1, t); }
  }

  // ---------------------------------------------------------------- how the nodes were made

  /** Nothing that was left is smaller than what was taken. */
  predicate TakesSmallest(w: seq<nat>, nodes: seq<nat>, r0: nat, r1: nat, l0: nat, l1: nat, t: nat, b: nat)
    requires r0 <= r1 <= t <= |nodes| && l0 <= l1 <= |w|
  {
    && (forall k :: r0 <= k < r1 ==> nodes[k] <= b) && (forall k :: l0 <= k < l1 ==> w[k] <= b)
    && (forall k :: r1 <= k < t ==> b <= nodes[k]) && (forall k :: l1 <= k < |w| ==> b <= w[k])
  }

  /** Node `t` was made from the two smallest weights that were left. */
  ghost predicate Made(w: seq<nat>, nodes: seq<nat>, par: seq<nat>, t: nat) {
    var r0, r1, l0, l1 := First(par, t), First(par, t + 1), LeafAt(par, t), LeafAt(par, t + 1);
    && t < |nodes| && r0 <= r1 <= t && 0 <= l0 <= l1 <= |w|
    && nodes[t] == Sum(nodes[r0..r1]) + Sum(w[l0..l1])
    && exists b: nat :: TakesSmallest(w, nodes, r0, r1, l0, l1, t, b)
  }

  ghost predicate Built(w: seq<nat>, nodes: seq<nat>, par: seq<nat>) {
    forall t: nat :: t < |nodes| ==> Made(w, nodes, par, t)
  }

  lemma FirstExtend(par: seq<nat>, more: seq<nat>, next: nat, t: nat)
    requires Linked(par, next) && Linked(par + more, next + 1) && t <= next
    requires forall k :: 0 <= k < |more| ==> more[k] == next
    ensures First(par + more, t) == First(par, t)
    ensures First(par + more, next) == |par| && First(par + more, next + 1) == |par + more|
  {
    var par' := par + more;
    FirstIs(par, t);
    assert forall k :: |par| <= k < |par'| ==> par'[k] == next;
    assert forall k :: 0 <= k < |par| ==> par'[k] == par[k];
    FirstUnique(par', t, First(par, t));
    FirstUnique(par', next, |par|);
    FirstUnique(par', next + 1, |par'|);
  }

  /** A new node keeps what is known about the old ones. */
  lemma StillMade(w: seq<nat>, nodes: seq<nat>, par: seq<nat>, more: seq<nat>, x: nat, t: nat)
    requires Linked(par, |nodes|) && Linked(par + more, |nodes| + 1)
    requires forall k :: 0 <= k < |more| ==> more[k] == |nodes|
    requires t < |nodes| && Made(w, nodes, par, t)
    ensures Made(w, nodes + [x], par + more, t)
  {
    FirstExtend(par, more, |nodes|, t);
    FirstExtend(par, more, |nodes|, t + 1);
    var r0, r1, l0, l1 := First(par, t), First(par, t + 1), LeafAt(par, t), LeafAt(par, t + 1);
    MoreNodes(nodes, x, r0, r1, t);
    var b: nat :| TakesSmallest(w, nodes, r0, r1, l0, l1, t, b);
    StillSmallest(w, nodes, x, r0, r1, l0, l1, t, b);
    hide First, Linked, Sum, TakesSmallest;
  }

  lemma MoreNodes(nodes: seq<nat>, x: nat, r0: nat, r1: nat, t: nat)
    requires r0 <= r1 <= t <= |nodes|
    ensures (nodes + [x])[r0..r1] == nodes[r0..r1] && (t < |nodes| ==> (nodes + [x])[t] == nodes[t])
    ensures (nodes + [x])[|nodes|] == x
  {
  }

  lemma StillSmallest(w: seq<nat>, nodes: seq<nat>, x: nat, r0: nat, r1: nat, l0: nat, l1: nat, t: nat, b: nat)
    requires r0 <= r1 <= t <= |nodes| && l0 <= l1 <= |w| && TakesSmallest(w, nodes, r0, r1, l0, l1, t, b)
    ensures TakesSmallest(w, nodes + [x], r0, r1, l0, l1, t, b)
  {
  }

  lemma NewlyMade(w: seq<nat>, nodes: seq<nat>, par: seq<nat>, more: seq<nat>, x: nat, leaf: nat, leaf': nat, b: nat)
    requires Linked(par, |nodes|) && Linked(par + more, |nodes| + 1)
    requires forall k :: 0 <= k < |more| ==> more[k] == |nodes|
    requires |par| + leaf == 2 * |nodes| && |par| + |more| + leaf' == 2 * |nodes| + 2 && leaf <= leaf' <= |w|
    requires |par| + |more| <= |nodes|
    requires x == Sum(nodes[|par|..|par| + |more|]) + Sum(w[leaf..leaf'])
    requires TakesSmallest(w, nodes, |par|, |par| + |more|, leaf, leaf', |nodes|, b)
    ensures Made(w, nodes + [x], par + more, |nodes|)
  {
    var t := |nodes|;
    FirstExtend(par, more, t, t);
    var r0, r1 := |par|, |par| + |more|;
    MoreNodes(nodes, x, r0, r1, t);
    StillSmallest(w, nodes, x, r0, r1, leaf, leaf', t, b);
    assert LeafAt(par + more, t) == leaf && LeafAt(par + more, t + 1) == leaf';
    hide First, Linked, Sum, TakesSmallest, LeafAt;
  }

  // ---------------------------------------------------------------- what the tree costs

  /** Every leaf's length is one more than its parent's depth. */
  ghost predicate LeafDepths(par: seq<nat>, lens: seq<nat>)
    requires Linked(par, |par| + 1)
  {
    forall k: nat, t: nat :: k < |lens| && t <= |par| && IsLeafOf(par, k, t) ==> lens[k] == Depth(par, t) + 1
  }

  /** All the tree's parts: `n` leaves and `n - 1` inner nodes. */
  ghost predicate Tree(w: seq<nat>, nodes: seq<nat>, par: seq<nat>) {
    |w| == |par| + 2 && |nodes| == |par| + 1 && Linked(par, |par| + 1) && Built(w, nodes, par)
  }

  function Depths(par: seq<nat>): (d: seq<nat>)
    requires Linked(par, |par| + 1)
    ensures |d| == |par| + 1
  {
    seq(|par| + 1, k requires 0 <= k < |par| + 1 => Depth(par, k))
  }

  /** The cost of everything that is left when node `t` is made, with the depths it has in the end. */
  ghost function LeftCost(w: seq<nat>, nodes: seq<nat>, par: seq<nat>, lens: seq<nat>, t: nat): nat
    requires Tree(w, nodes, par) && |lens| == |w| && t <= |nodes|
    requires First(par, t) <= t && 0 <= LeafAt(par, t) <= |w|
  {
    Cost(w[LeafAt(par, t)..], lens[LeafAt(par, t)..]) + Cost(nodes[First(par, t)..t], Depths(par)[First(par, t)..t])
  }

  lemma Ends(par: seq<nat>)
    requires Linked(par, |par| + 1)
    ensures First(par, 0) == 0 && LeafAt(par, 0) == 0
    ensures First(par, |par| + 1) == |par| && LeafAt(par, |par| + 1) == |par| + 2
  {
    FirstUnique(par, 0, 0);
    FirstUnique(par, |par| + 1, |par|);
  }

  lemma InRange(w: seq<nat>, nodes: seq<nat>, par: seq<nat>, t: nat)
    requires Tree(w, nodes, par) && t <= |nodes|
    ensures First(par, t) <= t && 0 <= LeafAt(par, t) <= |w|
  {
    Ends(par);
    FirstStep(par, |par| + 1, t);
    LeafMono(par, |par| + 1, t, |par| + 1);
  }

  lemma CostCut(w: seq<nat>, lens: seq<nat>, i: nat, j: nat, k: nat, l: nat)
    requires |w| == |lens| && i <= j <= k <= |w| && forall n :: i <= n < j ==> lens[n] == l
    ensures Cost(w[i..k], lens[i..k]) == Sum(w[i..j]) * l + Cost(w[j..k], lens[j..k])
  {
    assert w[i..k] == w[i..j] + w[j..k] && lens[i..k] == lens[i..j] + lens[j..k];
    CostAppend(w[i..j], w[j..k], lens[i..j], lens[j..k]);
    CostLevel(w[i..j], lens[i..j], l);
  }

  lemma StepCost(w: seq<nat>, nodes: seq<nat>, par: seq<nat>, lens: seq<nat>, t: nat)
    requires Tree(w, nodes, par) && |lens| == |w| && LeafDepths(par, lens) && t < |nodes|
    ensures First(par, t) <= t && 0 <= LeafAt(par, t) <= |w|
    ensures First(par, t + 1) <= t + 1 && 0 <= LeafAt(par, t + 1) <= |w|
    ensures LeftCost(w, nodes, par, lens, t) == LeftCost(w, nodes, par, lens, t + 1) + nodes[t]
  {
    InRange(w, nodes, par, t);
    InRange(w, nodes, par, t + 1);
    var r0, r1, l0, l1, _ := HowMade(w, nodes, par, t);
    var deps := Depths(par);
    ChildDepths(w, nodes, par, lens, t);
    hide *;
    StepSum(w, nodes, lens, deps, r0, r1, l0, l1, t);
    LeftIs(w, nodes, par, lens, t);
    LeftIs(w, nodes, par, lens, t + 1);
  }

  /** All children of node `t` have the same depth. */
  lemma ChildDepths(w: seq<nat>, nodes: seq<nat>, par: seq<nat>, lens: seq<nat>, t: nat)
    requires Tree(w, nodes, par) && |lens| == |w| && LeafDepths(par, lens) && t < |nodes|
    requires First(par, t) <= First(par, t + 1) <= |nodes| && 0 <= LeafAt(par, t) <= LeafAt(par, t + 1) <= |w|
    ensures |Depths(par)| == |nodes|
    ensures forall k :: LeafAt(par, t) <= k < LeafAt(par, t + 1) ==> lens[k] == Depths(par)[t] + 1
    ensures forall k :: First(par, t) <= k < First(par, t + 1) ==> Depths(par)[k] == Depths(par)[t] + 1
  {
    var l0, l1 := LeafAt(par, t), LeafAt(par, t + 1);
    FirstStep(par, |par| + 1, t);
    forall k | l0 <= k < l1 ensures lens[k] == Depth(par, t) + 1 { assert IsLeafOf(par, k, t); }
    forall k | First(par, t) <= k < First(par, t + 1) ensures Depth(par, k) == Depth(par, t) + 1 {
      assert Depth(par, k) == 1 + Depth(par, par[k]);
    }
  }

  lemma StepSum(w: seq<nat>, nodes: seq<nat>, lens: seq<nat>, deps: seq<nat>, r0: nat, r1: nat, l0: nat, l1: nat,
                t: nat)
    requires |lens| == |w| && |deps| == |nodes| && r0 <= r1 <= t < |nodes| && l0 <= l1 <= |w|
    requires nodes[t] == Sum(nodes[r0..r1]) + Sum(w[l0..l1])
    requires forall k :: l0 <= k < l1 ==> lens[k] == deps[t] + 1
    requires forall k :: r0 <= k < r1 ==> deps[k] == deps[t] + 1
    ensures Cost(w[l0..], lens[l0..]) + Cost(nodes[r0..t], deps[r0..t]) ==
      Cost(w[l1..], lens[l1..]) + Cost(nodes[r1..t + 1], deps[r1..t + 1]) + nodes[t]
  {
    hide *;
    var d := deps[t];
    assert w[l0..|w|] == w[l0..] && lens[l0..|w|] == lens[l0..] && w[l1..|w|] == w[l1..] && lens[l1..|w|] == lens[l1..];
    CostCut(w, lens, l0, l1, |w|, d + 1);
    CostCut(nodes, deps, r0, r1, t, d + 1);
    CostLast(nodes, deps, r1, t);
    Factor(nodes[t], Sum(nodes[r0..r1]), Sum(w[l0..l1]), d);
  }

  lemma Factor(x: nat, a: nat, b: nat, d: nat)
    requires x == a + b
    ensures a * (d + 1) + b * (d + 1) == x * d + x
  {
  }

  lemma CostLast(w: seq<nat>, lens: seq<nat>, i: nat, t: nat)
    requires |w| == |lens| && i <= t < |w|
    ensures Cost(w[i..t + 1], lens[i..t + 1]) == Cost(w[i..t], lens[i..t]) + w[t] * lens[t]
  {
    assert w[i..t + 1] == w[i..t] + [w[t]] && lens[i..t + 1] == lens[i..t] + [lens[t]];
    CostAppend(w[i..t], [w[t]], lens[i..t], [lens[t]]);
    CostOne(w[t], lens[t]);
  }

  lemma LeftIs(w: seq<nat>, nodes: seq<nat>, par: seq<nat>, lens: seq<nat>, t: nat)
    requires Tree(w, nodes, par) && |lens| == |w| && t <= |nodes|
    requires First(par, t) <= t && 0 <= LeafAt(par, t) <= |w|
    ensures |nodes| == |Depths(par)|
    ensures LeftCost(w, nodes, par, lens, t) ==
      Cost(w[LeafAt(par, t)..], lens[LeafAt(par, t)..]) + Cost(nodes[First(par, t)..t], Depths(par)[First(par, t)..t])
  {
  }

  /** The leaves' depths cost as much as all inner nodes weigh. */
  lemma TreeCost(w: seq<nat>, nodes: seq<nat>, par: seq<nat>, lens: seq<nat>)
    requires Tree(w, nodes, par) && |lens| == |w| && LeafDepths(par, lens)
    ensures Cost(w, lens) == Sum(nodes)
  {
    Ends(par);
    CostFrom(w, nodes, par, lens, 0);
    LeftIs(w, nodes, par, lens, 0);
    assert w[0..] == w && lens[0..] == lens && nodes[0..] == nodes && nodes[0..0] == [];
  }

  lemma {:induction false} CostFrom(w: seq<nat>, nodes: seq<nat>, par: seq<nat>, lens: seq<nat>, t: nat)
    requires Tree(w, nodes, par) && |lens| == |w| && LeafDepths(par, lens) && t <= |nodes|
    ensures First(par, t) <= t && 0 <= LeafAt(par, t) <= |w|
    ensures LeftCost(w, nodes, par, lens, t) == Sum(nodes[t..])
    decreases |nodes| - t
  {
    InRange(w, nodes, par, t);
    if t < |nodes| {
      StepCost(w, nodes, par, lens, t);
      CostFrom(w, nodes, par, lens, t + 1);
      SumTail(nodes, t);
    } else {
      Ends(par);
      LeftIs(w, nodes, par, lens, t);
      assert nodes[t..] == [] && w[|w|..] == [] && lens[|w|..] == [];
      CostLast(nodes, Depths(par), |par|, |par|);
      assert nodes[|par|..|par|] == [] && Depths(par)[|par|..|par|] == [];
    }
  }

  // ---------------------------------------------------------------- no code costs less

  /** What is left when node `t` is made: leaves, then inner nodes. */
  ghost function Alive(w: seq<nat>, nodes: seq<nat>, par: seq<nat>, t: nat): seq<nat>
    requires t <= |nodes| && First(par, t) <= t && 0 <= LeafAt(par, t) <= |w|
  {
    w[LeafAt(par, t)..] + nodes[First(par, t)..t]
  }

  /** Any prefix code for what is left costs at least the weight of the nodes still to be made. */
  lemma {:induction false} LowerBound(w: seq<nat>, nodes: seq<nat>, par: seq<nat>, t: nat, lens: seq<nat>, m: nat)
    requires Tree(w, nodes, par) && t <= |nodes| && First(par, t) <= t && 0 <= LeafAt(par, t) <= |w|
    requires |lens| == |Alive(w, nodes, par, t)| && KraftFits(lens, m)
    ensures Sum(nodes[t..]) <= Cost(Alive(w, nodes, par, t), lens)
    decreases |nodes| - t
  {
    if t < |nodes| {
      InRange(w, nodes, par, t + 1);
      var a, x, b, y, c := Parts(w, nodes, par, t);
      var other, m' := MergeSaves(a, x, b, y, c, lens, m);
      LowerBound(w, nodes, par, t + 1, other, m');
      SumTail(nodes, t);
    } else {
      assert nodes[t..] == [];
    }
  }

  /** The two weights that are merged next, and what is around them. */
  lemma Parts(w: seq<nat>, nodes: seq<nat>, par: seq<nat>, t: nat)
      returns (a: seq<nat>, x: nat, b: seq<nat>, y: nat, c: seq<nat>)
    requires Tree(w, nodes, par) && t < |nodes| && First(par, t) <= t && 0 <= LeafAt(par, t) <= |w|
    requires First(par, t + 1) <= t + 1 && 0 <= LeafAt(par, t + 1) <= |w|
    ensures Alive(w, nodes, par, t) == Five(a, x, b, y, c) && x + y == nodes[t]
    ensures Alive(w, nodes, par, t + 1) == Merged(a, b, c, x + y)
    ensures Smallest(Five(a, x, b, y, c), |a|, |a| + 1 + |b|)
  {
    var r0, r1, l0, l1, bound := HowMade(w, nodes, par, t);
    AliveIs(w, nodes, par, t);
    AliveIs(w, nodes, par, t + 1);
    hide *;
    a, x, b, y, c := PartsOf(w, nodes, r0, r1, l0, l1, t, bound);
  }

  lemma PartsOf(w: seq<nat>, nodes: seq<nat>, r0: nat, r1: nat, l0: nat, l1: nat, t: nat, bound: nat)
    returns (a: seq<nat>, x: nat, b: seq<nat>, y: nat, c: seq<nat>)
    requires r0 <= r1 <= t < |nodes| && l0 <= l1 <= |w| && TakesSmallest(w, nodes, r0, r1, l0, l1, t, bound)
    requires nodes[t] == Sum(nodes[r0..r1]) + Sum(w[l0..l1]) && l1 - l0 + (r1 - r0) == 2
    ensures w[l0..] + nodes[r0..t] == Five(a, x, b, y, c) && x + y == nodes[t]
    ensures w[l1..] + nodes[r1..t + 1] == Merged(a, b, c, x + y)
    ensures Smallest(Five(a, x, b, y, c), |a|, |a| + 1 + |b|)
  {
    hide *;
    if r1 == r0 {
      a, x, b, y, c := TwoLeaves(w, nodes, r0, l0, t, bound);
    } else if r1 == r0 + 1 {
      a, x, b, y, c := OneOfEach(w, nodes, r0, l0, t, bound);
    } else {
      a, x, b, y, c := TwoNodes(w, nodes, r0, l0, t, bound);
    }
  }

  lemma HowMade(w: seq<nat>, nodes: seq<nat>, par: seq<nat>, t: nat)
      returns (r0: nat, r1: nat, l0: nat, l1: nat, bound: nat)
    requires Tree(w, nodes, par) && t < |nodes|
    ensures r0 == First(par, t) && r1 == First(par, t + 1) && l0 == LeafAt(par, t) && l1 == LeafAt(par, t + 1)
    ensures r0 <= r1 <= t && l0 <= l1 <= |w| && l1 - l0 + (r1 - r0) == 2 && |nodes| == |par| + 1
    ensures nodes[t] == Sum(nodes[r0..r1]) + Sum(w[l0..l1])
    ensures TakesSmallest(w, nodes, r0, r1, l0, l1, t, bound)
  {
    FirstStep(par, |par| + 1, t);
    assert Made(w, nodes, par, t);
    r0, r1, l0, l1 := First(par, t), First(par, t + 1), LeafAt(par, t), LeafAt(par, t + 1);
    hide First, Linked, Sum, TakesSmallest;
    bound :| TakesSmallest(w, nodes, r0, r1, l0, l1, t, bound);
  }

  lemma AliveIs(w: seq<nat>, nodes: seq<nat>, par: seq<nat>, t: nat)
    requires t <= |nodes| && First(par, t) <= t && 0 <= LeafAt(par, t) <= |w|
    ensures Alive(w, nodes, par, t) == w[LeafAt(par, t)..] + nodes[First(par, t)..t]
  {
  }

  lemma TwoLeaves(w: seq<nat>, nodes: seq<nat>, r0: nat, l0: nat, t: nat, bound: nat)
    returns (a: seq<nat>, x: nat, b: seq<nat>, y: nat, c: seq<nat>)
    requires r0 <= t < |nodes| && l0 + 2 <= |w| && TakesSmallest(w, nodes, r0, r0, l0, l0 + 2, t, bound)
    requires nodes[t] == Sum(nodes[r0..r0]) + Sum(w[l0..l0 + 2])
    ensures w[l0..] + nodes[r0..t] == Five(a, x, b, y, c) && x + y == nodes[t]
    ensures w[l0 + 2..] + nodes[r0..t + 1] == Merged(a, b, c, x + y)
    ensures Smallest(Five(a, x, b, y, c), |a|, |a| + 1 + |b|)
  {
    TwoItems(w, l0);
    NoItems(nodes, r0);
    a, x, b, y, c := [], w[l0], [], w[l0 + 1], w[l0 + 2..] + nodes[r0..t];
    SmallestParts(a, x, b, y, c, bound);
    hide Sum, TakesSmallest, Smallest;
    assert nodes[r0..t + 1] == nodes[r0..t] + [nodes[t]];
  }

  lemma OneOfEach(w: seq<nat>, nodes: seq<nat>, r0: nat, l0: nat, t: nat, bound: nat)
    returns (a: seq<nat>, x: nat, b: seq<nat>, y: nat, c: seq<nat>)
    requires r0 + 1 <= t < |nodes| && l0 + 1 <= |w| && TakesSmallest(w, nodes, r0, r0 + 1, l0, l0 + 1, t, bound)
    requires nodes[t] == Sum(nodes[r0..r0 + 1]) + Sum(w[l0..l0 + 1])
    ensures w[l0..] + nodes[r0..t] == Five(a, x, b, y, c) && x + y == nodes[t]
    ensures w[l0 + 1..] + nodes[r0 + 1..t + 1] == Merged(a, b, c, x + y)
    ensures Smallest(Five(a, x, b, y, c), |a|, |a| + 1 + |b|)
  {
    OneItem(w, l0);
    OneItem(nodes, r0);
    a, x, b, y, c := [], w[l0], w[l0 + 1..], nodes[r0], nodes[r0 + 1..t];
    SmallestParts(a, x, b, y, c, bound);
    hide Sum, TakesSmallest, Smallest;
    assert nodes[r0 + 1..t + 1] == nodes[r0 + 1..t] + [nodes[t]];
    assert nodes[r0..t] == [nodes[r0]] + nodes[r0 + 1..t];
  }

  lemma TwoNodes(w: seq<nat>, nodes: seq<nat>, r0: nat, l0: nat, t: nat, bound: nat)
    returns (a: seq<nat>, x: nat, b: seq<nat>, y: nat, c: seq<nat>)
    requires r0 + 2 <= t < |nodes| && l0 <= |w| && TakesSmallest(w, nodes, r0, r0 + 2, l0, l0, t, bound)
    requires nodes[t] == Sum(nodes[r0..r0 + 2]) + Sum(w[l0..l0])
    ensures w[l0..] + nodes[r0..t] == Five(a, x, b, y, c) && x + y == nodes[t]
    ensures w[l0..] + nodes[r0 + 2..t + 1] == Merged(a, b, c, x + y)
    ensures Smallest(Five(a, x, b, y, c), |a|, |a| + 1 + |b|)
  {
    TwoItems(nodes, r0);
    NoItems(w, l0);
    a, x, b, y, c := w[l0..], nodes[r0], [], nodes[r0 + 1], nodes[r0 + 2..t];
    SmallestParts(a, x, b, y, c, bound);
    hide Sum, TakesSmallest, Smallest;
    assert nodes[r0 + 2..t + 1] == nodes[r0 + 2..t] + [nodes[t]];
    assert nodes[r0..t] == [nodes[r0], nodes[r0 + 1]] + nodes[r0 + 2..t];
  }

  lemma TwoItems(s: seq<nat>, i: nat)
    requires i + 2 <= |s|
    ensures Sum(s[i..i + 2]) == s[i] + s[i + 1] && s[i..] == [s[i], s[i + 1]] + s[i + 2..]
  {
    assert s[i..i + 2] == [s[i], s[i + 1]] && [s[i], s[i + 1]][1..] == [s[i + 1]] && [s[i + 1]][1..] == [];
    assert Sum([s[i + 1]]) == s[i + 1];
  }

  lemma OneItem(s: seq<nat>, i: nat)
    requires i + 1 <= |s|
    ensures Sum(s[i..i + 1]) == s[i] && s[i..] == [s[i]] + s[i + 1..]
  {
    assert s[i..i + 1] == [s[i]] && [s[i]][1..] == [];
  }

  lemma NoItems(s: seq<nat>, i: nat)
    requires i <= |s|
    ensures Sum(s[i..i]) == 0
  {
  }

  lemma SmallestParts(a: seq<nat>, x: nat, b: seq<nat>, y: nat, c: seq<nat>, bound: nat)
    requires x <= bound && y <= bound
    requires forall k :: 0 <= k < |a| ==> bound <= a[k]
    requires forall k :: 0 <= k < |b| ==> bound <= b[k]
    requires forall k :: 0 <= k < |c| ==> bound <= c[k]
    ensures Smallest(Five(a, x, b, y, c), |a|, |a| + 1 + |b|)
  {
    var w, i, j := Five(a, x, b, y, c), |a|, |a| + 1 + |b|;
    assert w[i] == x && w[j] == y;
    forall k | 0 <= k < |w| && k != i && k != j ensures bound <= w[k] {
      if k < i {
        assert w[k] == a[k];
      } else if k < j {
        assert w[k] == b[k - i - 1];
      } else {
        assert w[k] == c[k - j - 1];
      }
    }
  }

  /** The depths of the leaves are the lengths of an optimal prefix code. */
  lemma TreeIsOptimal(w: seq<nat>, nodes: seq<nat>, par: seq<nat>, lens: seq<nat>)
    requires Tree(w, nodes, par) && |lens| == |w| && LeafDepths(par, lens)
    ensures Optimal(w, lens)
  {
    TreeCost(w, nodes, par, lens);
    Ends(par);
    assert nodes[0..] == nodes && w[0..] + nodes[0..0] == w;
    forall other: seq<nat>, m: nat | |other| == |w| && KraftFits(other, m) ensures Cost(w, lens) <= Cost(w, other) {
      LowerBound(w, nodes, par, 0, other, m);
    }
  }
}
