/** What limiting code lengths to 15 bits costs at most. Long codes belong to light symbols: a leaf at
    depth `d` weighs at most a Fibonacci fraction of the whole tree. */
module LimitLoss {
  import opened Bits
  import opened CodeCost
  import opened LengthLimiter

  const LOSS_PER_CODE: nat := 150
  const LOSS_ONCE: nat := 30840

  lemma FibValues()
    ensures Fib(6, 2, 1) == 34 && Fib(7, 2, 1) == 55 && Fib(8, 2, 1) == 89 && Fib(9, 2, 1) == 144
    ensures Fib(10, 2, 1) == 233 && Fib(11, 2, 1) == 377 && Fib(12, 2, 1) == 610 && Fib(13, 2, 1) == 987
  {
    calc { Fib(6, 2, 1); Fib(4, 5, 3); Fib(2, 13, 8); 34; }
    calc { Fib(7, 2, 1); Fib(5, 5, 3); Fib(3, 13, 8); Fib(1, 34, 21); 55; }
    calc { Fib(8, 2, 1); Fib(6, 5, 3); Fib(4, 13, 8); Fib(2, 34, 21); 89; }
    calc { Fib(9, 2, 1); Fib(7, 5, 3); Fib(5, 13, 8); Fib(3, 34, 21); Fib(1, 89, 55); 144; }
    calc { Fib(10, 2, 1); Fib(8, 5, 3); Fib(6, 13, 8); Fib(4, 34, 21); Fib(2, 89, 55); 233; }
    calc { Fib(11, 2, 1); Fib(9, 5, 3); Fib(7, 13, 8); Fib(5, 34, 21); Fib(3, 89, 55); Fib(1, 233, 144); 377; }
    calc { Fib(12, 2, 1); Fib(10, 5, 3); Fib(8, 13, 8); Fib(6, 34, 21); Fib(4, 89, 55); Fib(2, 233, 144); 610; }
    calc {
      Fib(13, 2, 1); Fib(11, 5, 3); Fib(9, 13, 8); Fib(7, 34, 21); Fib(5, 89, 55); Fib(3, 233, 144);
      Fib(1, 610, 377); 987;
    }
  }

  /** Raising a code of length `l` to 15 costs little for each code that it makes room for. */
  lemma RaiseCost(x: nat, l: nat, total: nat)
    requires Light(x, l, total) && total < 0x1_0000 && 7 <= l <= 15
    ensures x * (15 - l) <= LOSS_PER_CODE * (Pow2(15 - l) - 1)
    ensures x * (15 - l) <= LOSS_ONCE
  {
    FibValues();
    Pow2Values();
    hide Fib, Pow2;
  }

  predicate AtLeast(lens: seq<nat>, m: nat) { forall k :: 0 <= k < |lens| ==> lens[k] >= m }

  /** The lengths in `out` are at most 15, those in `lens` at least 7. */
  lemma {:induction false} RaiseAll(w: seq<nat>, lens: seq<nat>, out: seq<nat>, total: nat)
    requires LightLeaves(w, lens, total) && total < 0x1_0000 && |out| == |w| && AtMost(out, 15)
    requires AtMost(Capped(lens, 15), 15)
    requires AtLeast(lens, 7)
    ensures Kraft(Capped(lens, 15), 15) >= |w|
    ensures Cost(w, out) <= Cost(w, lens) + LOSS_PER_CODE * (Kraft(Capped(lens, 15), 15) - |w|)
  {
    if w != [] {
      var cap := Capped(lens, 15);
      assert cap[1..] == Capped(lens[1..], 15);
      RaiseAll(w[1..], lens[1..], out[1..], total);
      RaiseOne(w[0], lens[0], out[0], total);
    }
  }

  lemma RaiseOne(x: nat, l: nat, o: nat, total: nat)
    requires Light(x, l, total) && total < 0x1_0000 && 7 <= l && o <= 15
    ensures var c := if l > 15 then 15 else l; x * o <= x * l + LOSS_PER_CODE * (Pow2(15 - c) - 1)
    ensures l <= 15 ==> x * o <= x * l + LOSS_ONCE
  {
    if o <= l {
      MulMono(x, o, l);
    } else {
      RaiseCost(x, l, total);
      MulMono(x, o - l, 15 - l);
      assert x * o == x * l + x * (o - l);
    }
  }

  /** Capping adds less than one longest code for each length that it cuts. */
  lemma {:induction false} CapKraft(lens: seq<nat>)
    requires AtMost(lens, 32)
    ensures AtMost(Capped(lens, 15), 32)
    ensures Kraft(Capped(lens, 15), 32) <= Kraft(lens, 32) + |lens| * Pow2(17)
  {
    if lens != [] {
      var c := Capped(lens, 15);
      CapHead(lens);
      hide *;
      CapKraft(lens[1..]);
      KraftHead(c, 32);
      KraftHead(lens, 32);
      MulAdd(|lens[1..]|, 1, Pow2(17));
    } else {
      assert Capped(lens, 15) == [];
    }
  }

  lemma CapHead(lens: seq<nat>)
    requires lens != [] && AtMost(lens, 32)
    ensures Capped(lens, 15) != [] && Capped(lens, 15)[1..] == Capped(lens[1..], 15) && AtMost(Capped(lens, 15), 32)
    ensures AtMost(lens[1..], 32)
    ensures lens[0] <= 32 && Capped(lens, 15)[0] <= 32
    ensures Pow2(32 - Capped(lens, 15)[0]) <= Pow2(32 - lens[0]) + Pow2(17)
  {
    hide Pow2;
    assert Capped(lens, 15)[0] == if lens[0] > 15 then 15 else lens[0];
  }

  lemma KraftHead(lens: seq<nat>, m: nat)
    requires AtMost(lens, m) && lens != []
    ensures AtMost(lens[1..], m) && lens[0] <= m && Kraft(lens, m) == Pow2(m - lens[0]) + Kraft(lens[1..], m)
  {
  }

  lemma CapAtMost(lens: seq<nat>)
    ensures AtMost(Capped(lens, 15), 15)
  {
  }

  lemma CapTotal(lens: seq<nat>)
    requires AtMost(lens, 32) && Kraft(lens, 32) == Pow2(32)
    ensures AtMost(Capped(lens, 15), 15) && Kraft(Capped(lens, 15), 15) <= Pow2(15) + |lens|
  {
    hide *;
    CapKraft(lens);
    CapAtMost(lens);
    KraftScaleBy(Capped(lens, 15), 15, 32);
    Pow2Add(17, 15);
    FewMore(Pow2(17), Pow2(15), Kraft(Capped(lens, 15), 15), |lens|);
  }

  /** A part of a complete code leaves room for at least one code of its greatest length. */
  lemma BackRoom(front: seq<nat>, back: seq<nat>, l: nat)
    requires l < 15 && AtMost(back, l) && AtMost(front, 32) && AtMost(front + back, 32)
    requires Kraft(front + back, 32) == Pow2(32)
    ensures AtMost(back, 15)
    ensures front != [] ==> Kraft(back, 15) + Pow2(15 - l) <= Pow2(15)
    ensures front == [] ==> Kraft(back, 15) <= Pow2(15)
  {
    hide *;
    KraftScaleBy(back, l, 32);
    KraftScaleBy(back, l, 15);
    KraftAppend(front, back, 32);
    Pow2Add(32 - l, l);
    Pow2Add(15 - l, l);
    if front != [] { KraftSome(front, 32); }
    EachAtMost(front, 32);
    EachAtMost(back, l);
    EachAtMost(back, 15);
    CancelLess(Pow2(32 - l), Kraft(back, l), Pow2(l));
    if front != [] {
      NotFull(Pow2(32 - l), Pow2(l), Kraft(back, l), Kraft(front, 32));
      OneShort(Pow2(15 - l), Pow2(l), Kraft(back, l));
    } else {
      MulMono(Pow2(15 - l), Kraft(back, l), Pow2(l));
    }
  }

  lemma EachAtMost(lens: seq<nat>, m: nat)
    requires AtMost(lens, m)
    ensures forall k :: 0 <= k < |lens| ==> lens[k] <= m
  {
  }

  lemma NotFull(p: nat, q: nat, k: nat, rest: nat)
    requires rest > 0 && rest + p * k == p * q
    ensures k < q
  {
    if k >= q { MulMono(p, q, k); }
  }

  lemma FewMore(p: nat, q: nat, cap: nat, n: nat)
    requires p >= 1 && p * cap <= p * q + n * p
    ensures cap <= q + n
  {
    assert p * (q + n) == p * q + n * p;
    CancelLess(p, cap, q + n);
  }

  lemma OneShort(r: nat, q: nat, k: nat)
    requires k < q
    ensures r * k + r <= r * q
  {
    MulDistrib(r, q, k);
    MulAtLeast(r, q - k);
  }

  /** What the limiter's invariant says about the length at `p - 1`, the shortest one that it raised. */
  lemma Budget(lens: seq<nat>, out: seq<nat>, p: nat)
    requires LimitedFrom(lens, out, 15, p) && p > 0 && NonIncreasing(lens) && AtMost(lens, 32)
    requires Kraft(lens, 32) == Pow2(32) && Kraft(out, 15) == Pow2(15) && |lens| <= 288
    ensures lens[p - 1] >= 7 && AtMost(Capped(lens[..p - 1], 15), 15)
    ensures Kraft(Capped(lens[..p - 1], 15), 15) <= p - 1 + |lens|
  {
    hide *;
    FromParts(lens, out, p);
    var n, j := |lens|, p - 1;
    var l := lens[j];
    var front, back := Capped(lens[..j], 15), lens[j..];
    CapParts(lens, j);
    CapTotal(lens);
    KraftAppend(front, back, 15);
    BackRoom(lens[..j], back, l);
    assert j > 0 ==> lens[..j] != [];
    if l < 7 {
      Pow2Mono(9, 15 - l);
      Pow2Values();
    }
  }

  lemma CapParts(lens: seq<nat>, j: nat)
    requires j < |lens| && NonIncreasing(lens) && lens[j] < 15 && AtMost(lens, 32)
    ensures Capped(lens, 15) == Capped(lens[..j], 15) + lens[j..] && Capped(lens, 15)[j..] == lens[j..]
    ensures lens == lens[..j] + lens[j..]
    ensures AtMost(Capped(lens, 15), 15) && AtMost(Capped(lens[..j], 15), 15) && AtMost(lens[j..], lens[j])
    ensures AtMost(lens[j..], 15)
    ensures AtMost(lens[..j], 32) && AtMost(lens[j..], 32) && lens[j] < 15
  {
  }

  lemma FromParts(lens: seq<nat>, out: seq<nat>, p: nat)
    requires LimitedFrom(lens, out, 15, p) && p > 0
    ensures p <= |lens| == |out| && lens[p - 1] < 15 && AtMost(out, 15) && AtMost(Capped(lens, 15)[p - 1..], 15)
    ensures Kraft(out, 15) < Kraft(Capped(lens, 15)[p - 1..], 15) + p - 1
    ensures forall k :: p <= k < |lens| ==> out[k] == Capped(lens, 15)[k]
  {
  }

  lemma KraftSome(lens: seq<nat>, m: nat)
    requires lens != [] && AtMost(lens, m)
    ensures Kraft(lens, m) > 0
  {
  }

  /** Limiting a code for weights that add up to less than 65536 costs at most this much. */
  lemma LossBound(w: seq<nat>, lens: seq<nat>, out: seq<nat>, total: nat)
    requires LightLeaves(w, lens, total) && total < 0x1_0000 && |lens| <= 288
    requires NonIncreasing(lens) && AtMost(lens, 32) && Kraft(lens, 32) == Pow2(32)
    requires Limited(lens, out, 15) && AtMost(out, 15) && Kraft(out, 15) == Pow2(15)
    ensures |out| == |lens| == |w| && Cost(w, out) <= Cost(w, lens) + LOSS_PER_CODE * |lens| + LOSS_ONCE
  {
    assert |w| == |lens|;
    var p := Raised(lens, out, 15);
    if p == 0 {
      NoneRaised(lens, out);
      hide *;
      CostMono(w, out, lens);
    } else {
      Budget(lens, out, p);
      var j := p - 1;
      Cut(w, j);
      Cut(lens, j);
      Cut(out, j);
      PartsLight(w, lens, out, total, p);
      hide *;
      RaiseAll(w[..j], lens[..j], out[..j], total);
      CostAppend(w[..j], [w[j]] + w[p..], lens[..j], [lens[j]] + lens[p..]);
      CostAppend(w[..j], [w[j]] + w[p..], out[..j], [out[j]] + out[p..]);
      CostAppend([w[j]], w[p..], [lens[j]], lens[p..]);
      CostAppend([w[j]], w[p..], [out[j]], out[p..]);
      CostOne(w[j], lens[j]);
      CostOne(w[j], out[j]);
      RaiseOne(w[j], lens[j], out[j], total);
      assert out[p..] == lens[p..];
      MulMono(LOSS_PER_CODE, Kraft(Capped(lens[..j], 15), 15) - j, |lens|);
    }
  }

  lemma NoneRaised(lens: seq<nat>, out: seq<nat>)
    requires LimitedFrom(lens, out, 15, 0)
    ensures |out| == |lens| && forall k :: 0 <= k < |out| ==> out[k] <= lens[k]
  {
  }

  lemma Cut(s: seq<nat>, j: nat)
    requires j < |s|
    ensures s == s[..j] + ([s[j]] + s[j + 1..])
  {
  }

  lemma PartsLight(w: seq<nat>, lens: seq<nat>, out: seq<nat>, total: nat, p: nat)
    requires LightLeaves(w, lens, total) && LimitedFrom(lens, out, 15, p) && p > 0 && NonIncreasing(lens)
    requires lens[p - 1] >= 7
    ensures p <= |w| == |lens| == |out| && LightLeaves(w[..p - 1], lens[..p - 1], total)
    ensures Light(w[p - 1], lens[p - 1], total)
    ensures AtMost(out[..p - 1], 15) && out[p - 1] <= 15 && lens[p - 1] < 15 && AtLeast(lens[..p - 1], 7)
    ensures out[p..] == lens[p..]
  {
  }

  lemma {:induction false} CostMono(w: seq<nat>, a: seq<nat>, b: seq<nat>)
    requires |w| == |a| == |b| && forall k :: 0 <= k < |a| ==> a[k] <= b[k]
    ensures Cost(w, a) <= Cost(w, b)
  {
    if w != [] {
      MulMono(w[0], a[0], b[0]);
      CostMono(w[1..], a[1..], b[1..]);
    }
  }
}
