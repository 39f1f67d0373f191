/** Run-length coding of code sizes (RFC 1951 section 3.2.7): packing on the compressor's side,
    and the meaning of the packed form. */
module CodeLengthRle {
  import opened Bits

  /** One packed item: a code size, the previous size repeated 3..6 times, or a run of zeros. */
  datatype Op = Size(size: nat) | Repeat(count: nat) | ShortZeros(count: nat) | LongZeros(count: nat) {
    predicate Valid() {
      match this
      case Size(v) => v <= 15
      case Repeat(n) => 3 <= n <= 6
      case ShortZeros(n) => 3 <= n <= 10
      case LongZeros(n) => 11 <= n <= 138
    }

    /** The symbol that is sent for the item, the width of its extra field, and that field. */
    function Sym(): (s: nat)
      requires Valid()
      ensures s < 19
    {
      match this case Size(v) => v case Repeat(_) => 16 case ShortZeros(_) => 17 case LongZeros(_) => 18
    }

    function Width(): nat {
      match this case Size(_) => 0 case Repeat(_) => 2 case ShortZeros(_) => 3 case LongZeros(_) => 7
    }

    function Extra(): nat
      requires Valid()
    {
      match this case Size(_) => 0 case Repeat(n) => n - 3 case ShortZeros(n) => n - 3 case LongZeros(n) => n - 11
    }

    /** The bytes of the item in the packed array. */
    function Bytes(): (b: seq<byte>)
      requires Valid()
      ensures 1 <= |b| <= 2
    {
      if Size? then [Sym()] else [Sym(), Extra()]
    }
  }

  /** The three kinds of runs as RFC 1951 section 3.2.7 has them: how many bits their extra field takes, and what it
      says. Every value of the field is some run. */
  lemma RunFields(s: nat, x: nat) returns (op: Op)
    requires 16 <= s <= 18 && x < (if s == 16 then 4 else if s == 17 then 8 else 128)
    ensures op.Valid() && !op.Size? && op.Sym() == s && op.Extra() == x
    ensures op.Width() == if s == 16 then 2 else if s == 17 then 3 else 7
    ensures op.count == x + if s == 18 then 11 else 3
    ensures Apply([5, 0, 8], op) == [5, 0, 8] + Times(if s == 16 then 8 else 0, op.count)
  {
    op := if s == 16 then Repeat(x + 3) else if s == 17 then ShortZeros(x + 3) else LongZeros(x + 11);
  }

  function Times(v: nat, n: nat): (r: seq<nat>)
    ensures |r| == n
  {
    seq(n, i => v)
  }

  predicate AllValid(ops: seq<Op>) {
    forall i :: 0 <= i < |ops| ==> ops[i].Valid()
  }

  /** What an item stands for after the sizes `s`. */
  function Apply(s: seq<nat>, op: Op): (r: seq<nat>)
    ensures s <= r
  {
    match op
    case Size(v) => s + [v]
    case Repeat(n) => s + Times(if s == [] then 0 else s[|s| - 1], n)
    case ShortZeros(n) => s + Times(0, n)
    case LongZeros(n) => s + Times(0, n)
  }

  /** The sizes that the items stand for. */
  function Unpack(ops: seq<Op>): seq<nat> {
    if ops == [] then [] else Apply(Unpack(ops[..|ops| - 1]), ops[|ops| - 1])
  }

  /** A repeat needs something before it. */
  predicate Meaningful(ops: seq<Op>) {
    AllValid(ops) && (ops != [] ==> !ops[0].Repeat?)
  }

  function Bytes(ops: seq<Op>): seq<byte>
    requires AllValid(ops)
  {
    if ops == [] then [] else Bytes(ops[..|ops| - 1]) + ops[|ops| - 1].Bytes()
  }

  /** How many items use symbol `s`. */
  function SymCount(ops: seq<Op>, s: nat): (n: nat)
    requires AllValid(ops)
    ensures n <= |ops|
  {
    if ops == [] then 0 else SymCount(ops[..|ops| - 1], s) + B2N(ops[|ops| - 1].Sym() == s)
  }

  /** The packed form `ops` of `sizes`: nothing is lost, and it takes no more room than the sizes. */
  ghost predicate Packs(ops: seq<Op>, sizes: seq<nat>) {
    Meaningful(ops) && Unpack(ops) == sizes && |ops| <= |Bytes(ops)| <= |sizes|
  }

  lemma PackOne(ops: seq<Op>, sizes: seq<nat>, op: Op)
    requires Packs(ops, sizes) && op.Valid() && (op.Repeat? ==> sizes != [])
    ensures Packs(ops + [op], Apply(sizes, op))
    ensures Bytes(ops + [op]) == Bytes(ops) + op.Bytes()
    ensures forall s :: SymCount(ops + [op], s) == SymCount(ops, s) + B2N(op.Sym() == s)
  {
    assert (ops + [op])[..|ops|] == ops;
  }

  lemma PackedSize(ops: seq<Op>, sizes: seq<nat>)
    requires Packs(ops, sizes)
    ensures AllValid(ops) && |Bytes(ops)| <= |sizes|
  {
  }

  lemma NothingPacked()
    ensures Packs([], []) && Bytes([]) == [] && forall s :: SymCount([], s) == 0
  {
  }

  lemma TimesStep(v: nat, n: nat)
    ensures Times(v, n + 1) == Times(v, n) + [v] == [v] + Times(v, n)
    ensures Times(v, 0) == []
  {
  }

  // ---------------------------------------------------------------- the packed form that is chosen

  /** How many sizes at the beginning are the same. */
  function RunLength(z: seq<nat>): (n: nat)
    ensures n <= |z| && (z != [] ==> n >= 1)
    ensures forall i :: 0 <= i < n ==> z[i] == z[0]
    ensures n < |z| ==> z[n] != z[0]
  {
    if z == [] then 0 else if |z| == 1 || z[1] != z[0] then 1 else 1 + RunLength(z[1..])
  }

  function Singles(v: nat, n: nat): seq<Op> { seq(n, i => Size(v)) }

  function ZeroItems(n: nat): seq<Op> {
    if n < 3 then Singles(0, n) else if n <= 10 then [ShortZeros(n)] else [LongZeros(n)]
  }

  function RepeatItems(v: nat, n: nat): seq<Op> {
    if n < 3 then Singles(v, n) else [Repeat(n)]
  }

  /** Runs are packed as long as they are: up to 138 zeros, and up to six times the size before. Runs of less than
      three are not worth an item. */
  function Greedy(z: seq<nat>, prev: nat): seq<Op> {
    if z == [] then [] else
      var n, v := RunLength(z), z[0];
      if v == 0 then var k := Min(n, 138); ZeroItems(k) + Greedy(z[k..], 0)
      else if v != prev then [Size(v)] + Greedy(z[1..], v)
      else var k := Min(n, 6); RepeatItems(v, k) + Greedy(z[k..], v)
  }

  lemma {:induction false} RunOf(v: nat, n: nat, rest: seq<nat>)
    requires n > 0
    ensures RunLength(Times(v, n) + rest) >= n
    ensures rest == [] || rest[0] != v ==> RunLength(Times(v, n) + rest) == n
  {
    var z := Times(v, n) + rest;
    assert forall i :: 0 <= i < n ==> z[i] == v;
    assert z[0] == v;
    if rest != [] { assert z[n] == rest[0]; }
  }

  lemma ZeroRun(n: nat, rest: seq<nat>, prev: nat)
    requires 0 < n <= 138 && (n == 138 || rest == [] || rest[0] != 0)
    ensures Greedy(Times(0, n) + rest, prev) == ZeroItems(n) + Greedy(rest, 0)
  {
    RunOf(0, n, rest);
    var z := Times(0, n) + rest;
    assert z[0] == 0 && z[n..] == rest;
    hide RunLength, ZeroItems, RepeatItems, Times;
  }

  lemma RepeatRun(v: nat, n: nat, rest: seq<nat>)
    requires 0 < n <= 6 && v != 0 && (n == 6 || rest == [] || rest[0] != v)
    ensures Greedy(Times(v, n) + rest, v) == RepeatItems(v, n) + Greedy(rest, v)
  {
    RunOf(v, n, rest);
    var z := Times(v, n) + rest;
    assert z[0] == v && z[n..] == rest;
    hide RunLength, ZeroItems, RepeatItems, Times;
  }

  lemma NewSize(v: nat, rest: seq<nat>, prev: nat)
    requires v != 0 && v != prev
    ensures Greedy([v] + rest, prev) == [Size(v)] + Greedy(rest, v)
  {
    assert ([v] + rest)[1..] == rest;
    hide RunLength, ZeroItems, RepeatItems;
  }

  /** Before zeros it does not matter what came before. */
  lemma ZeroNext(rest: seq<nat>, prev: nat)
    ensures Greedy([0] + rest, prev) == Greedy([0] + rest, 0)
  {
    hide RunLength, ZeroItems, RepeatItems;
  }

  /** The packing state: the items written so far, and a run that has not been written yet. */
  class Packer {
    const packed: array<byte>
    const counts: array<nat>
    var n: nat           // num_packed_code_sizes
    var zeros: nat       // rle_z_count
    var repeats: nat     // rle_repeat_count
    var prev: nat        // prev_code_size
    ghost var ops: seq<Op>
    ghost var done: seq<nat>  // the sizes the written items stand for

    constructor ()
      ensures Valid(0) && All() == [] && fresh(packed) && fresh(counts)
      ensures ops == [] && zeros == 0 && repeats == 0 && prev == 0xFF
    {
      packed := new byte[320](_ => 0);
      counts := new nat[19](_ => 0);
      n, zeros, repeats, prev := 0, 0, 0, 0xFF;
      ops, done := [], [];
      new;
      NothingPacked();
    }

    /** All sizes taken so far. */
    ghost function All(): seq<nat>
      reads this
    {
      done + Times(0, zeros) + Times(prev, repeats)
    }

    /** The written items are in the array and counted. */
    ghost predicate Written()
      reads this, packed, counts
    {
      && packed.Length == 320 && counts.Length == 19
      && Packs(ops, done) && n <= packed.Length && packed[..n] == Bytes(ops)
      && forall s :: 0 <= s < 19 ==> counts[s] == SymCount(ops, s)
    }

    ghost predicate Valid(k: nat)
      reads this, packed, counts
    {
      && Written() && |All()| == k <= 320
      && zeros < 138 && repeats < 6 && (zeros == 0 || repeats == 0)
      && (prev != 0xFF || repeats == 0)
      && (prev == 0xFF <==> k == 0) && (k > 0 ==> prev == All()[k - 1] <= 15)
      && (repeats > 0 ==> prev != 0 && done != [] && done[|done| - 1] == prev)
    }

    /** Writes one item. */
    method Emit(op: Op)
      requires Written() && op.Valid() && (op.Repeat? ==> done != [])
      requires |Apply(done, op)| <= 320
      modifies this`n, this`ops, this`done, packed, counts
      ensures Written() && done == Apply(old(done), op) && ops == old(ops) + [op]
    {
      hide *;
      ghost var done', ops' := Apply(done, op), ops + [op];
      WrittenParts();
      PackOne(ops, done, op);
      PackedSize(ops', done');
      PutItem(op);
      done, ops := done', ops';
      IsWritten();
    }

    lemma WrittenParts()
      requires Written()
      ensures packed.Length == 320 && counts.Length == 19 && Packs(ops, done) && n <= packed.Length
      ensures packed[..n] == Bytes(ops) && forall s :: 0 <= s < 19 ==> counts[s] == SymCount(ops, s)
    {
    }

    lemma IsWritten()
      requires packed.Length == 320 && counts.Length == 19 && Packs(ops, done) && n <= packed.Length
      requires packed[..n] == Bytes(ops) && forall s :: 0 <= s < 19 ==> counts[s] == SymCount(ops, s)
      ensures Written()
    {
    }

    method PutItem(op: Op)
      requires op.Valid() && packed.Length == 320 && counts.Length == 19 && n + |op.Bytes()| <= 320
      modifies this`n, packed, counts
      ensures n == old(n) + |op.Bytes()| && packed[..n] == old(packed[..n]) + op.Bytes()
      ensures forall s :: 0 <= s < 19 ==> counts[s] == old(counts[s]) + B2N(op.Sym() == s)
    {
      var sym := op.Sym();
      counts[sym] := counts[sym] + 1;
      packed[n] := sym;
      n := n + 1;
      if !op.Size? {
        packed[n] := op.Extra();
        n := n + 1;
      }
    }

    /** Writes a pending run one by one. */
    method EmitSingles()
      requires Written() && |done| + repeats <= 320 && prev <= 15
      modifies this`n, this`ops, this`done, this`repeats, packed, counts
      ensures Written() && done == old(done) + Times(prev, old(repeats))
      ensures ops == old(ops) + Singles(prev, old(repeats))
    {
      hide Packs, Bytes, SymCount;
      ghost var start, from, total := done, ops, repeats;
      TimesStep(prev, 0);
      while repeats > 0
        invariant Written() && repeats <= total && done == start + Times(prev, total - repeats)
        invariant ops == from + Singles(prev, total - repeats)
      {
        TimesStep(prev, total - repeats);
        Emit(Size(prev));
        repeats := repeats - 1;
      }
    }

    /** Writes the pending run of repeated sizes (`TDEFL_RLE_PREV_CODE_SIZE`). */
    method FlushRepeats()
      requires Written() && |done| + repeats <= 320 && repeats <= 6
      requires repeats > 0 ==> prev <= 15 && done != [] && done[|done| - 1] == prev
      modifies this`n, this`ops, this`done, this`repeats, packed, counts
      ensures Written() && repeats == 0 && done == old(done) + Times(prev, old(repeats))
      ensures ops == old(ops) + RepeatItems(prev, old(repeats))
    {
      hide Packs, Bytes, SymCount;
      TimesStep(prev, 0);
      if repeats != 0 {
        if repeats < 3 {
          EmitSingles();
        } else {
          Emit(Repeat(repeats));
        }
        repeats := 0;
      }
    }

    /** Writes pending zeros one by one. */
    method EmitZeros()
      requires Written() && |done| + zeros <= 320
      modifies this`n, this`ops, this`done, this`zeros, packed, counts
      ensures Written() && done == old(done) + Times(0, old(zeros)) && zeros == 0
      ensures ops == old(ops) + Singles(0, old(zeros))
    {
      hide Packs, Bytes, SymCount;
      ghost var start, from, total := done, ops, zeros;
      TimesStep(0, 0);
      while zeros > 0
        invariant Written() && zeros <= total && done == start + Times(0, total - zeros)
        invariant ops == from + Singles(0, total - zeros)
      {
        TimesStep(0, total - zeros);
        Emit(Size(0));
        zeros := zeros - 1;
      }
    }

    /** Writes the pending run of zeros (`TDEFL_RLE_ZERO_CODE_SIZE`). */
    method FlushZeros()
      requires Written() && |done| + zeros <= 320 && zeros <= 138
      modifies this`n, this`ops, this`done, this`zeros, packed, counts
      ensures Written() && zeros == 0 && done == old(done) + Times(0, old(zeros))
      ensures ops == old(ops) + ZeroItems(old(zeros))
    {
      hide Packs, Bytes, SymCount;
      TimesStep(0, 0);
      if zeros != 0 {
        if zeros < 3 {
          EmitZeros();
        } else if zeros <= 10 {
          Emit(ShortZeros(zeros));
        } else {
          Emit(LongZeros(zeros));
        }
        zeros := 0;
      }
    }

    /** Sizes that have been taken but not written. */
    ghost function Open(): seq<nat>
      reads this
    {
      Times(0, zeros) + Times(prev, repeats)
    }

    /** The items, in the end, if `rest` is still to come. */
    ghost function Planned(rest: seq<nat>): seq<Op>
      reads this
    {
      ops + Greedy(Open() + rest, prev)
    }

    /** Takes the next code size; the items that are written are those of the greedy packing. */
    method Take(codeSize: nat, ghost rest: seq<nat>)
      requires Valid(|All()|) && |All()| < 320 && codeSize <= 15
      modifies this, packed, counts
      ensures All() == old(All()) + [codeSize] && Valid(|All()|)
      ensures Planned(rest) == old(Planned([codeSize] + rest))
    {
      hide Packs, Bytes, SymCount, Apply, Greedy;
      if codeSize == 0 {
        TakeZero(rest);
      } else {
        TakeNonZero(codeSize, rest);
      }
      prev := codeSize;
      OpenIs(rest);
    }

    lemma OpenIs(rest: seq<nat>)
      ensures repeats == 0 ==> Open() + rest == Times(0, zeros) + rest
      ensures zeros == 0 ==> Open() + rest == Times(prev, repeats) + rest
      ensures Planned(rest) == ops + Greedy(Open() + rest, prev)
    {
      hide Greedy;
    }

    lemma FirstPlan(rest: seq<nat>)
      requires ops == [] && zeros == 0 && repeats == 0
      ensures Planned(rest) == Greedy(rest, prev)
    {
      assert Open() + rest == rest;
    }

    method TakeZero(ghost rest: seq<nat>)
      requires Valid(|All()|) && |All()| < 320
      modifies this`n, this`ops, this`done, this`zeros, this`repeats, packed, counts
      ensures Written() && repeats == 0 && zeros < 138 && done + Times(0, zeros) == old(All()) + [0]
      ensures ops + Greedy(Times(0, zeros) + rest, 0) == old(Planned([0] + rest))
    {
      hide Packs, Bytes, SymCount, Apply, Greedy;
      PlanZero(rest);
      FlushRepeats();
      TimesStep(0, zeros);
      zeros := zeros + 1;
      if zeros == 138 {
        ZeroRun(138, rest, 0);
        FlushZeros();
      }
      EmptyOpen(rest);
    }

    lemma PlanZero(rest: seq<nat>)
      requires zeros == 0 || repeats == 0
      requires repeats <= 6 && (repeats > 0 ==> prev != 0)
      ensures Planned([0] + rest) == ops + RepeatItems(prev, repeats) + Greedy(Times(0, zeros + 1) + rest, 0)
    {
      hide Greedy;
      TimesStep(0, zeros);
      EmptyOpen([0] + rest);
      if repeats > 0 {
        RepeatRun(prev, repeats, [0] + rest);
        ZeroNext(rest, prev);
        assert Times(0, 1) + rest == [0] + rest;
        assert Open() + ([0] + rest) == Times(prev, repeats) + ([0] + rest);
      } else {
        assert Times(0, zeros + 1) + rest == [0] + (Times(0, zeros) + rest);
        assert Open() + ([0] + rest) == Times(0, zeros + 1) + rest;
        ZeroNext(Times(0, zeros) + rest, prev);
      }
    }

    lemma EmptyOpen(rest: seq<nat>)
      ensures Times(0, 0) == [] && [] + rest == rest && RepeatItems(prev, 0) == ZeroItems(0) == []
    {
    }

    method TakeNonZero(codeSize: nat, ghost rest: seq<nat>)
      requires Valid(|All()|) && |All()| < 320 && 0 < codeSize <= 15
      modifies this`n, this`ops, this`done, this`zeros, this`repeats, packed, counts
      ensures Written() && zeros == 0 && repeats <= 5 && done + Times(codeSize, repeats) == old(All()) + [codeSize]
      ensures repeats > 0 ==> done != [] && done[|done| - 1] == codeSize
      ensures ops + Greedy(Times(codeSize, repeats) + rest, codeSize) == old(Planned([codeSize] + rest))
    {
      hide Packs, Bytes, SymCount, Apply, Greedy;
      PlanNonZero(codeSize, rest);
      FlushZeros();
      if codeSize != prev {
        FlushRepeats();
        TakeNew(codeSize);
        assert Times(codeSize, 0) + rest == rest;
      } else {
        TakeSame(rest);
      }
    }

    method TakeSame(ghost rest: seq<nat>)
      requires Written() && |done| + repeats < 320 && repeats < 6 && 0 < prev <= 15
      requires done != [] && done[|done| - 1] == prev
      modifies this`n, this`ops, this`done, this`repeats, packed, counts
      ensures Written() && repeats <= 5
      ensures done + Times(prev, repeats) == old(done + Times(prev, repeats)) + [prev]
      ensures repeats > 0 ==> done != [] && done[|done| - 1] == prev
      ensures ops + Greedy(Times(prev, repeats) + rest, prev) ==
        old(ops) + Greedy(Times(prev, old(repeats) + 1) + rest, prev)
    {
      hide Packs, Bytes, SymCount, Apply, Greedy;
      TimesStep(prev, repeats);
      repeats := repeats + 1;
      if repeats == 6 {
        RepeatRun(prev, 6, rest);
        FlushRepeats();
        EmptyOpen(rest);
      }
    }

    lemma PlanNonZero(codeSize: nat, rest: seq<nat>)
      requires codeSize != 0 && (zeros == 0 || repeats == 0) && zeros < 138 && repeats < 6
      requires (zeros > 0 ==> prev == 0) && (repeats > 0 ==> prev != 0)
      ensures Planned([codeSize] + rest) == ops + ZeroItems(zeros) +
        (if codeSize != prev then RepeatItems(prev, repeats) + [Size(codeSize)] + Greedy(rest, codeSize)
         else Greedy(Times(prev, repeats + 1) + rest, prev))
    {
      hide Greedy;
      var more := [codeSize] + rest;
      EmptyOpen(more);
      TimesStep(prev, repeats);
      if zeros > 0 {
        assert Open() + more == Times(0, zeros) + more;
        ZeroRun(zeros, more, prev);
      } else {
        assert Open() + more == Times(prev, repeats) + more;
      }
      if codeSize != prev {
        NewSize(codeSize, rest, prev);
        if repeats > 0 { RepeatRun(prev, repeats, more); }
      } else {
        assert Times(prev, repeats) + more == Times(prev, repeats + 1) + rest;
      }
    }

    method TakeNew(codeSize: nat)
      requires Written() && codeSize <= 15 && |done| < 320
      modifies this`n, this`ops, this`done, packed, counts
      ensures Written() && done == old(done) + [codeSize] && ops == old(ops) + [Size(codeSize)]
    {
      Emit(Size(codeSize));
    }

    /** Writes whatever is pending: now the items stand for all sizes. */
    method Finish()
      requires Valid(|All()|)
      modifies this`n, this`ops, this`done, this`zeros, this`repeats, packed, counts
      ensures Written() && done == old(All()) && ops == old(Planned([]))
    {
      PlanNothing();
      hide Packs, Bytes, SymCount, Apply, Greedy;
      if repeats != 0 { FlushRepeats(); } else { FlushZeros(); }
    }

    lemma PlanNothing()
      requires (zeros == 0 || repeats == 0) && zeros < 138 && repeats < 6 && (repeats > 0 ==> prev != 0)
      ensures Planned([]) == ops + (if repeats != 0 then RepeatItems(prev, repeats) else ZeroItems(zeros))
    {
      EmptyOpen([]);
      assert Greedy([], 0) == [] && Greedy([], prev) == [];
      hide Greedy;
      if repeats > 0 {
        RepeatRun(prev, repeats, []);
        assert Open() + [] == Times(prev, repeats) + [];
      } else if zeros > 0 {
        ZeroRun(zeros, [], prev);
        assert Open() + [] == Times(0, zeros) + [];
      } else {
        assert Open() + [] == [];
      }
    }
  }

  const NO_SIZE: nat := 0xFF

  /** Packs the code sizes: the items stand for exactly these sizes, and they are those of the greedy packing. */
  method Pack(sizes: seq<nat>) returns (p: Packer)
    requires |sizes| <= 320 && forall i :: 0 <= i < |sizes| ==> sizes[i] <= 15
    ensures fresh(p) && fresh(p.packed) && fresh(p.counts)
    ensures p.Written() && p.done == sizes && p.ops == Greedy(sizes, NO_SIZE)
  {
    assert NO_SIZE == 0xFF;
    hide *;
    p := new Packer();
    p.FirstPlan(sizes);
    assert sizes[0..] == sizes;
    for i := 0 to |sizes|
      invariant fresh(p) && fresh(p.packed) && fresh(p.counts) && p.Valid(i) && p.All() == sizes[..i]
      invariant p.Planned(sizes[i..]) == Greedy(sizes, NO_SIZE)
    {
      OneMore(sizes, i);
      TakeOne(p, i, sizes[i], sizes[i + 1..]);
    }
    assert sizes[|sizes|..] == [] && sizes[..|sizes|] == sizes;
    p.Finish();
  }

  method TakeOne(p: Packer, ghost i: nat, codeSize: nat, ghost rest: seq<nat>)
    requires p.Valid(i) && i < 320 && codeSize <= 15
    modifies p, p.packed, p.counts
    ensures p.Valid(i + 1) && p.All() == old(p.All()) + [codeSize]
    ensures p.Planned(rest) == old(p.Planned([codeSize] + rest))
  {
    assert |p.All()| == i;
    hide *;
    p.Take(codeSize, rest);
  }

  lemma OneMore(sizes: seq<nat>, i: nat)
    requires i < |sizes|
    ensures sizes[i..] == [sizes[i]] + sizes[i + 1..] && sizes[..i + 1] == sizes[..i] + [sizes[i]]
  {
  }
}
