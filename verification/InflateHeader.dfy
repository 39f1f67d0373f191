/** The decompressor's side of block headers: code sizes and decoding tables. */
module InflateHeader {
  import opened Bits
  import opened PrefixCode
  import opened DecodeTable
  import opened Tokens
  import opened BitReader
  import opened DeflateFormat
  import opened InflateTokens
  import Rle = CodeLengthRle
  import L = LooseFormat

  // ---------------------------------------------------------------- run lengths

  lemma {:induction false} OpsBitsPrefix(clen: seq<nat>, ops: seq<Rle.Op>, k: nat)
    requires OpsCodable(clen, ops) && k <= |ops|
    ensures OpsCodable(clen, ops[..k]) && OpsBits(clen, ops[..k]) <= OpsBits(clen, ops)
    ensures Rle.Unpack(ops[..k]) <= Rle.Unpack(ops)
    decreases |ops|
  {
    if k < |ops| {
      OpsBitsPrefix(clen, ops[..|ops| - 1], k);
      assert ops[..|ops| - 1][..k] == ops[..k];
    } else {
      assert ops[..k] == ops;
    }
  }

  /** After `k` items: the sizes so far, and the bits that are left. */
  ghost predicate Unpacking(rest: seq<bool>, sofar: seq<nat>, clen: seq<nat>, ops: seq<Rle.Op>, k: nat,
                            tail: seq<bool>) {
    && OpsCodable(clen, ops) && Rle.Meaningful(ops) && k <= |ops| && OpsCodable(clen, ops[..k])
    && sofar == Rle.Unpack(ops[..k])
    && |OpsBits(clen, ops[..k])| <= |OpsBits(clen, ops)|
    && rest == OpsBits(clen, ops)[|OpsBits(clen, ops[..k])|..] + tail
  }

  lemma StartUnpacking(clen: seq<nat>, ops: seq<Rle.Op>, tail: seq<bool>)
    requires OpsCodable(clen, ops) && Rle.Meaningful(ops)
    ensures Unpacking(OpsBits(clen, ops) + tail, [], clen, ops, 0, tail)
  {
    assert ops[..0] == [];
  }

  lemma NextItem(rest: seq<bool>, sofar: seq<nat>, clen: seq<nat>, ops: seq<Rle.Op>, k: nat, tail: seq<bool>)
    requires Unpacking(rest, sofar, clen, ops, k, tail) && |sofar| < |Rle.Unpack(ops)|
    ensures k < |ops| && ops[k].Valid() && Used(clen, ops[k].Sym()) && OpBits(clen, ops[k]) <= rest
    ensures ops[k].Repeat? ==> sofar != []
    ensures |Rle.Apply(sofar, ops[k])| <= |Rle.Unpack(ops)| && |tail| <= |rest| - |OpBits(clen, ops[k])|
    ensures Unpacking(rest[|OpBits(clen, ops[k])|..], Rle.Apply(sofar, ops[k]), clen, ops, k + 1, tail)
  {
    assert ops[..|ops|] == ops;
    NextOp(clen, ops, k);
    OpsBitsPrefix(clen, ops, k + 1);
    hide OpBits, OpsBits, OpsCodable, Rle.Apply, Rle.Unpack, Rle.Meaningful;
    CutItem(OpsBits(clen, ops), OpsBits(clen, ops[..k]), OpBits(clen, ops[k]), tail);
  }

  lemma NextOp(clen: seq<nat>, ops: seq<Rle.Op>, k: nat)
    requires OpsCodable(clen, ops) && Rle.Meaningful(ops) && k < |ops|
    ensures ops[k].Valid() && Used(clen, ops[k].Sym()) && OpsCodable(clen, ops[..k]) && OpsCodable(clen, ops[..k + 1])
    ensures OpsBits(clen, ops[..k + 1]) == OpsBits(clen, ops[..k]) + OpBits(clen, ops[k])
    ensures Rle.Unpack(ops[..k + 1]) == Rle.Apply(Rle.Unpack(ops[..k]), ops[k])
    ensures ops[k].Repeat? ==> Rle.Unpack(ops[..k]) != []
  {
    assert ops[..k + 1][..k] == ops[..k];
    if k > 0 { FirstUnpacks(ops, k); }
  }

  lemma CutItem(all: seq<bool>, done: seq<bool>, item: seq<bool>, tail: seq<bool>)
    requires done + item <= all
    ensures var rest := all[|done|..] + tail;
      item <= rest && rest[|item|..] == all[|done + item|..] + tail
  {
    assert all[|done|..|done| + |item|] == item;
    assert all[|done|..] == item + all[|done| + |item|..];
  }

  lemma {:induction false} FirstUnpacks(ops: seq<Rle.Op>, k: nat)
    requires Rle.AllValid(ops) && 0 < k <= |ops|
    ensures Rle.Unpack(ops[..k]) != []
  {
    assert ops[..k][..k - 1] == ops[..k - 1];
  }

  lemma UnpackingDone(rest: seq<bool>, sofar: seq<nat>, clen: seq<nat>, ops: seq<Rle.Op>, k: nat, tail: seq<bool>)
    requires Unpacking(rest, sofar, clen, ops, k, tail) && |sofar| == |Rle.Unpack(ops)|
    ensures sofar == Rle.Unpack(ops) && rest == tail
  {
    if k < |ops| { StillGrows(ops, k, |ops|); } else { assert ops[..k] == ops; }
  }

  lemma {:induction false} StillGrows(ops: seq<Rle.Op>, k: nat, j: nat)
    requires Rle.AllValid(ops) && k < j <= |ops|
    ensures |Rle.Unpack(ops[..k])| < |Rle.Unpack(ops[..j])|
    ensures j == |ops| ==> |Rle.Unpack(ops[..k])| < |Rle.Unpack(ops)|
    decreases j
  {
    assert ops[..j][..j - 1] == ops[..j - 1] && ops[..|ops|] == ops;
    if k < j - 1 { StillGrows(ops, k, j - 1); }
  }

  /** Reads one packed item: a size, or a run, and puts it behind the sizes that are there. */
  method ReadItem(r: BitReader, t: HuffTable, lens: array<nat>, counter: nat, ghost op: Rle.Op, ghost tail: seq<bool>,
                  ghost live: bool)
      returns (st: Status, next: nat, ghost got: Rle.Op, ghost code: seq<bool>)
    requires r.Valid() && t.Valid() && |t.sizes| <= 19 && lens.Length == 457 && counter < 320
    requires lens as object != t.lookup as object && lens as object != t.tree as object
    requires Small(lens[..counter])
    requires live ==> op.Valid() && Used(t.sizes, op.Sym()) && r.Rest() == OpBits(t.sizes, op) + tail
    requires live ==> (op.Repeat? ==> counter > 0)
    modifies r`cur, r`end, r`bitBuf, r`numBits, lens
    ensures r.Valid() && t.Valid() && |r.Rest()| <= |old(r.Rest())| && st != NoRoom && st != Mismatch
    ensures (st == NoInput ==> r.Spent())
    ensures st == Done ==> counter < next <= 457 && Small(lens[..next])
    ensures live ==> st == Done || (st == NoInput && r.Lacks(tail))
    ensures live && st == Done ==> r.Rest() == tail && lens[..next] == Rle.Apply(old(lens[..counter]), op)
    ensures st == Done ==> got.Valid() && Reads(t.sizes, code, got.Sym()) && (got.Repeat? ==> counter > 0)
    ensures st == Done ==> old(r.Rest()) == code + (BitsOf(got.Extra(), got.Width()) + r.Rest())
    ensures st == Done ==> lens[..next] == Rle.Apply(old(lens[..counter]), got)
  {
    hide *;
    var sym, n;
    st, sym, n, got, code := ReadOp(r, t, counter, op, tail, live);
    next := counter + n;
    if st != Done { return; }
    ghost var sofar := lens[..counter];
    OpApplied(sym, n, got, sofar);
    SmallItem(sofar, got);
    if sym < 16 {
      lens[counter] := sym;
      assert lens[..counter + 1] == sofar + [sym];
    } else {
      Fill(lens, counter, n, if sym == 16 then lens[counter - 1] else 0);
    }
  }

  lemma OpApplied(sym: nat, n: nat, op: Rle.Op, sofar: seq<nat>)
    requires op.Valid() && op.Sym() == sym && (sym == 16 ==> sofar != []) && n == Length(op)
    ensures sym < 16 ==> n == 1 && Rle.Apply(sofar, op) == sofar + [sym]
    ensures sym >= 16 ==> Rle.Apply(sofar, op) == sofar + Rle.Times(if sym == 16 then sofar[|sofar| - 1] else 0, n)
  {
  }

  function Length(op: Rle.Op): nat { if op.Size? then 1 else op.count }

  /** Reads the symbol and the extra bits of an item. */
  method ReadOp(r: BitReader, t: HuffTable, counter: nat, ghost op: Rle.Op, ghost tail: seq<bool>, ghost live: bool)
      returns (st: Status, sym: nat, n: nat, ghost got: Rle.Op, ghost code: seq<bool>)
    requires r.Valid() && t.Valid() && |t.sizes| <= 19
    requires live ==> op.Valid() && Used(t.sizes, op.Sym()) && r.Rest() == OpBits(t.sizes, op) + tail
    requires live ==> (op.Repeat? ==> counter > 0)
    modifies r`cur, r`end, r`bitBuf, r`numBits
    ensures r.Valid() && |r.Rest()| <= |old(r.Rest())| && st != NoRoom && st != Mismatch
    ensures (st == NoInput ==> r.Spent())
    ensures live ==> st == Done || (st == NoInput && r.Lacks(tail))
    ensures live && st == Done ==> r.Rest() == tail && got == op
    ensures st == Done ==> got.Valid() && Reads(t.sizes, code, sym) && got.Sym() == sym && 1 <= n == Length(got) <= 138
    ensures st == Done ==> (got.Repeat? <==> sym == 16) && (sym == 16 ==> counter > 0)
    ensures st == Done ==> old(r.Rest()) == code + (BitsOf(got.Extra(), got.Width()) + r.Rest())
  {
    hide *;
    n, got := 0, Rle.Size(0);
    if live { ItemParts(t.sizes, op); }
    ghost var rest := r.Rest();
    var ok;
    ok, sym, code := DecodeSym(r, t, if live then op.Sym() else 0, live);
    if live && !ok { LacksRest(r, rest, tail, t.sizes[op.Sym()]); }
    if !ok { return NoInput, sym, n, got, code; }
    if sym < 16 {
      got, n := Rle.Size(sym), 1;
      SizeItem(got);
      if live { SameItem(got, op); }
      assert r.Rest() == [] + r.Rest();
      return Done, sym, n, got, code;
    }
    if sym == 16 && counter == 0 {
      return Failed, sym, n, got, code;
    }
    rest := r.Rest();
    ok, n := ReadExtra(r, if sym == 16 then 2 else if sym == 17 then 3 else 7, if live then op.Extra() else 0, live);
    if live && !ok { LacksRest(r, rest, tail, op.Width()); }
    if !ok { return NoInput, sym, n, got, code; }
    got := RunItem(sym, n);
    if live { SameItem(got, op); }
    n := n + (if sym == 18 then 11 else 3);
    st := Done;
  }

  lemma SizeItem(op: Rle.Op)
    requires op.Size? && op.size < 16
    ensures op.Valid() && op.Sym() == op.size < 16 && op.Extra() == 0 && BitsOf(op.Extra(), op.Width()) == []
    ensures Length(op) == 1
  {
  }

  /** The run that symbol `sym` and extra field `x` stand for. */
  lemma RunItem(sym: nat, x: nat) returns (op: Rle.Op)
    requires 16 <= sym < 19 && x < Pow2(if sym == 16 then 2 else if sym == 17 then 3 else 7)
    ensures op.Valid() && op.Sym() == sym && op.Extra() == x && (op.Repeat? <==> sym == 16)
    ensures op.Width() == if sym == 16 then 2 else if sym == 17 then 3 else 7
    ensures Length(op) == x + (if sym == 18 then 11 else 3) <= 138
  {
    Pow2Values();
    hide Pow2;
    op := if sym == 16 then Rle.Repeat(x + 3) else if sym == 17 then Rle.ShortZeros(x + 3) else Rle.LongZeros(x + 11);
  }

  lemma SameItem(a: Rle.Op, b: Rle.Op)
    requires a.Valid() && b.Valid() && a.Sym() == b.Sym() && (a.Sym() >= 16 ==> a.Extra() == b.Extra())
    ensures a == b
  {
  }

  lemma ItemParts(clen: seq<nat>, op: Rle.Op)
    requires op.Valid() && Used(clen, op.Sym())
    ensures op.Sym() < |clen| && |Word(clen, op.Sym())| == clen[op.Sym()]
    ensures OpBits(clen, op) == Word(clen, op.Sym()) + BitsOf(op.Extra(), op.Width())
    ensures op.Sym() == 16 <==> op.Repeat?
    ensures op.Sym() < 16 ==> op.Width() == 0 && BitsOf(op.Extra(), op.Width()) == []
    ensures op.Sym() >= 16 ==> op.Width() == if op.Sym() == 16 then 2 else if op.Sym() == 17 then 3 else 7
    ensures op.Extra() < Pow2(op.Width()) && LowBits(op.Extra(), op.Width()) == op.Extra()
  {
    Pow2Values();
    hide Pow2, LowBits, BitsOf, Word;
    LowBitsMod(op.Extra(), op.Width());
  }

  predicate Small(sizes: seq<nat>) { forall i :: 0 <= i < |sizes| ==> sizes[i] <= 15 }

  lemma SmallItem(sofar: seq<nat>, op: Rle.Op)
    requires Small(sofar) && op.Valid()
    ensures Small(Rle.Apply(sofar, op))
  {
  }

  lemma SmallParts(sizes: seq<nat>, n: nat)
    requires n <= |sizes|
    ensures Small([]) && (Small(sizes) ==> Small(sizes[..n]) && Small(sizes[n..]))
  {
  }

  method Fill(lens: array<nat>, from: nat, n: nat, v: nat)
    requires from + n <= lens.Length
    modifies lens
    ensures lens[..from] == old(lens[..from]) && lens[from..from + n] == Rle.Times(v, n)
    ensures lens[..from + n] == old(lens[..from]) + Rle.Times(v, n)
    ensures forall i :: from <= i < from + n ==> lens[i] == v
    ensures forall i :: 0 <= i < from ==> lens[i] == old(lens[i])
  {
    for i := 0 to n
      invariant forall j :: 0 <= j < from ==> lens[j] == old(lens[j])
      invariant forall j :: from <= j < from + i ==> lens[j] == v
    {
      lens[from + i] := v;
    }
  }

  /** Reads the code sizes of both tables as one sequence. */
  method ReadSizes(r: BitReader, t: HuffTable, total: nat, ghost ops: seq<Rle.Op>, ghost tail: seq<bool>,
                   ghost live: bool)
      returns (st: Status, lens: array<nat>, ghost codes: seq<seq<bool>>, ghost got: seq<Rle.Op>)
    requires r.Valid() && t.Valid() && |t.sizes| <= 19 && total <= 320
    requires live ==> OpsCodable(t.sizes, ops) && Rle.Meaningful(ops) && |Rle.Unpack(ops)| == total
    requires live ==> r.Rest() == OpsBits(t.sizes, ops) + tail
    modifies r`cur, r`end, r`bitBuf, r`numBits
    ensures r.Valid() && t.Valid() && |r.Rest()| <= |old(r.Rest())| && fresh(lens) && lens.Length == 457
    ensures st != NoRoom && st != Mismatch && (st == NoInput ==> r.Spent())
    ensures st == Done ==> Small(lens[..total])
    ensures live ==> st == Done || (st == NoInput && r.Lacks(tail))
    ensures live && st == Done ==> r.Rest() == tail && lens[..total] == Rle.Unpack(ops)
    ensures st == Done ==> L.Unpacked(t.sizes, codes, got, lens[..total], old(r.Rest()), r.Rest())
  {
    hide *;
    lens := new nat[457](_ => 0);
    st, codes, got := Done, [], [];
    SmallParts([], 0);
    L.StartUnpacked(t.sizes, r.Rest());
    var counter := 0;
    ghost var k: nat := 0;
    if live { StartUnpacking(t.sizes, ops, tail); }
    assert lens[..0] == [];
    while counter < total
      invariant r.Valid() && t.Valid() && |r.Rest()| <= |old(r.Rest())| && 0 <= counter <= 457 && st == Done
      invariant Small(lens[..counter])
      invariant live ==> counter <= total && k <= |ops| && Unpacking(r.Rest(), lens[..counter], t.sizes, ops, k, tail)
      invariant L.Unpacked(t.sizes, codes, got, lens[..counter], old(r.Rest()), r.Rest())
      decreases total - counter
    {
      ghost var op, more := Rle.Size(0), [];
      if live {
        NextItem(r.Rest(), lens[..counter], t.sizes, ops, k, tail);
        op := ops[k];
        more := r.Rest()[|OpBits(t.sizes, op)|..];
        r.LacksIs(more);
        r.LacksIs(tail);
        k := k + 1;
      }
      ghost var one, code, sofar := Rle.Size(0), [], lens[..counter];
      st, counter, one, code := ReadItem(r, t, lens, counter, op, more, live);
      if st != Done { return; }
      L.UnpackedOne(t.sizes, codes, got, sofar, old(r.Rest()), r.Rest(), code, one);
      codes, got := codes + [code], got + [one];
    }
    if counter != total {
      return Failed, lens, codes, got;
    }
    if live { UnpackingDone(r.Rest(), lens[..counter], t.sizes, ops, k, tail); }
  }

  // ---------------------------------------------------------------- tables of a dynamic block

  /** Reads the sizes of the code-length code. */
  method ReadLenSizes(r: BitReader, n: nat, ghost clen: seq<nat>, ghost tail: seq<bool>, ghost live: bool)
      returns (ok: bool, sizes: array<nat>)
    requires r.Valid() && n <= 19 && (live ==> FieldsFit(clen, n) && r.Rest() == LenFields(clen, n) + tail)
    modifies r`cur, r`end, r`bitBuf, r`numBits
    ensures r.Valid() && |r.Rest()| <= |old(r.Rest())| && fresh(sizes) && sizes.Length == 19
    ensures forall i :: 0 <= i < 19 ==> sizes[i] <= 7
    ensures !ok ==> r.Spent() && (live ==> r.Lacks(tail))
    ensures live && ok ==> r.Rest() == tail && sizes[..] == clen
    ensures ok ==> FieldsRead(sizes[..], n, old(r.Rest()), r.Rest())
  {
    hide *;
    sizes := new nat[19](_ => 0);
    ok := true;
    NoFields(sizes[..], r.Rest());
    if live { StartFields(clen, n, tail, sizes[..]); }
    for i := 0 to n
      invariant r.Valid() && |r.Rest()| <= |old(r.Rest())| && ok
      invariant forall i :: 0 <= i < 19 ==> sizes[i] <= 7
      invariant live ==> FieldsAhead(r.Rest(), clen, n, i, tail, sizes[..])
      invariant FieldsRead(sizes[..], i, old(r.Rest()), r.Rest())
    {
      ghost var more := [];
      if live {
        more := NextField(r.Rest(), clen, n, i, tail, sizes[..]);
        r.LacksIs(more);
        r.LacksIs(tail);
      }
      ghost var was, s := sizes[..], 0;
      ok, s := ReadLenSize(r, i, sizes, if live then clen[Swizzle(i)] else 0, more, live);
      if !ok { return; }
      OneField(was, i, s, old(r.Rest()), r.Rest());
      assert sizes.Length == 19;
    }
    if live { FieldsDone(r.Rest(), clen, n, tail, sizes[..]); }
  }

  method ReadLenSize(r: BitReader, i: nat, sizes: array<nat>, ghost x: nat, ghost more: seq<bool>, ghost live: bool)
      returns (ok: bool, ghost got: nat)
    requires r.Valid() && i < 19 && sizes.Length == 19 && forall i :: 0 <= i < 19 ==> sizes[i] <= 7
    requires live ==> x <= 7 && r.Rest() == BitsOf(x, 3) + more
    modifies r`cur, r`end, r`bitBuf, r`numBits, sizes
    ensures r.Valid() && |r.Rest()| <= |old(r.Rest())| && forall i :: 0 <= i < 19 ==> sizes[i] <= 7
    ensures !ok ==> r.Spent() && (live ==> r.Lacks(more))
    ensures live && ok ==> r.Rest() == more && sizes[..] == old(sizes[..])[Swizzle(i) := x]
    ensures ok ==> got <= 7 && old(r.Rest()) == BitsOf(got, 3) + r.Rest()
    ensures ok ==> sizes[..] == old(sizes[..])[Swizzle(i) := got]
  {
    hide *;
    ThreeBits(x);
    ghost var rest := r.Rest();
    var s;
    ok, s := ReadExtra(r, 3, x, live);
    got := s;
    if live && !ok { LacksRest(r, rest, more, 3); }
    if !ok { return; }
    sizes[Swizzle(i)] := s;
  }

  /** The first `i` sizes have been read from the bits, the others are 0. */
  ghost predicate FieldsRead(sizes: seq<nat>, i: nat, rest0: seq<bool>, rest: seq<bool>) {
    && |sizes| == 19 && i <= 19 && (forall k :: 0 <= k < 19 ==> sizes[k] <= 7)
    && (forall k :: i <= k < 19 ==> sizes[Swizzle(k)] == 0) && rest0 == LenFields(sizes, i) + rest
  }

  lemma NoFields(sizes: seq<nat>, rest: seq<bool>)
    requires |sizes| == 19 && forall k :: 0 <= k < 19 ==> sizes[k] == 0
    ensures FieldsRead(sizes, 0, rest, rest)
  {
    hide Swizzle;
  }

  lemma OneField(sizes: seq<nat>, i: nat, s: nat, rest0: seq<bool>, rest: seq<bool>)
    requires i < 19 && s <= 7 && FieldsRead(sizes, i, rest0, BitsOf(s, 3) + rest)
    ensures FieldsRead(sizes[Swizzle(i) := s], i + 1, rest0, rest)
  {
    hide Swizzle, BitsOf;
    var next := sizes[Swizzle(i) := s];
    FieldsKept(sizes, i, s, i);
    assert LenFields(next, i + 1) == LenFields(sizes, i) + BitsOf(s, 3);
    forall k | i + 1 <= k < 19 ensures next[Swizzle(k)] == 0 {
      if Swizzle(k) == Swizzle(i) { SwizzleInjective(k, i); }
    }
  }

  lemma {:induction false} FieldsKept(sizes: seq<nat>, i: nat, s: nat, k: nat)
    requires |sizes| == 19 && k <= i < 19
    ensures LenFields(sizes[Swizzle(i) := s], k) == LenFields(sizes, k)
  {
    hide Swizzle, BitsOf;
    if k > 0 {
      FieldsKept(sizes, i, s, k - 1);
      if Swizzle(k - 1) == Swizzle(i) { SwizzleInjective(k - 1, i); }
    }
  }

  lemma ThreeBits(x: nat)
    ensures Pow2(3) == 8 && (x <= 7 ==> LowBits(x, 3) == x)
  {
    hide *;
    Pow2Values();
    LowBitsMod(x, 3);
  }

  /** Before field `i`. */
  ghost predicate FieldsAhead(rest: seq<bool>, clen: seq<nat>, n: nat, i: nat, tail: seq<bool>, sizes: seq<nat>) {
    && FieldsFit(clen, n) && i <= n && |sizes| == 19
    && |LenFields(clen, i)| <= |LenFields(clen, n)|
    && rest == LenFields(clen, n)[|LenFields(clen, i)|..] + tail
    && forall k :: 0 <= k < 19 ==> sizes[Swizzle(k)] == if k < i then clen[Swizzle(k)] else 0
  }

  /** The order of the fields is a permutation. */
  function Unswizzle(s: nat): (i: nat)
    requires s < 19
    ensures i < 19 && Swizzle(i) == s
  {
    [3, 17, 15, 13, 11, 9, 7, 5, 4, 6, 8, 10, 12, 14, 16, 18, 0, 1, 2][s]
  }

  lemma SwizzleInjective(i: nat, j: nat)
    requires i < 19 && j < 19 && Swizzle(i) == Swizzle(j)
    ensures i == j
  {
    Unswizzled(i);
    Unswizzled(j);
    hide Swizzle, Unswizzle;
  }

  lemma Unswizzled(i: nat)
    requires i < 19
    ensures Unswizzle(Swizzle(i)) == i
  {
  }

  lemma StartFields(clen: seq<nat>, n: nat, tail: seq<bool>, sizes: seq<nat>)
    requires FieldsFit(clen, n) && |sizes| == 19 && forall i :: 0 <= i < 19 ==> sizes[i] == 0
    ensures FieldsAhead(LenFields(clen, n) + tail, clen, n, 0, tail, sizes)
  {
    hide Swizzle;
    assert LenFields(clen, 0) == [];
  }

  lemma {:induction false} FieldsPrefix(clen: seq<nat>, i: nat, n: nat)
    requires |clen| == 19 && i <= n <= 19
    ensures LenFields(clen, i) <= LenFields(clen, n)
    decreases n
  {
    if i < n { FieldsPrefix(clen, i, n - 1); }
  }

  lemma NextField(rest: seq<bool>, clen: seq<nat>, n: nat, i: nat, tail: seq<bool>, sizes: seq<nat>)
      returns (more: seq<bool>)
    requires FieldsAhead(rest, clen, n, i, tail, sizes) && i < n
    ensures |clen| == 19 && i < 19 && clen[Swizzle(i)] <= 7 && rest == BitsOf(clen[Swizzle(i)], 3) + more
    ensures |tail| <= |more|
    ensures FieldsAhead(more, clen, n, i + 1, tail, sizes[Swizzle(i) := clen[Swizzle(i)]])
  {
    hide Swizzle, BitsOf;
    FieldsPrefix(clen, i + 1, n);
    var all, done, item := LenFields(clen, n), LenFields(clen, i), BitsOf(clen[Swizzle(i)], 3);
    assert LenFields(clen, i + 1) == done + item;
    CutItem(all, done, item, tail);
    more := rest[3..];
    forall k | 0 <= k < 19
      ensures sizes[Swizzle(i) := clen[Swizzle(i)]][Swizzle(k)] == if k < i + 1 then clen[Swizzle(k)] else 0
    {
      if Swizzle(k) == Swizzle(i) { SwizzleInjective(k, i); }
    }
  }

  lemma FieldsDone(rest: seq<bool>, clen: seq<nat>, n: nat, tail: seq<bool>, sizes: seq<nat>)
    requires FieldsAhead(rest, clen, n, n, tail, sizes)
    ensures rest == tail && sizes == clen
  {
    hide LenFields;
    forall s | 0 <= s < 19 ensures sizes[s] == clen[s] {
      var k := Unswizzle(s);
      assert sizes[Swizzle(k)] == clen[Swizzle(k)];
    }
  }

  /** A decoding table with room for `n` symbols. */
  ghost predicate Roomy(t: HuffTable, n: nat) {
    t.lookup != t.tree && t.lookup.Length == FAST_SIZE && t.tree.Length == 2 * n
  }

  ghost predicate NoSharing(a: HuffTable, b: HuffTable) {
    a != b && a.lookup != b.lookup && a.lookup != b.tree && a.tree != b.lookup && a.tree != b.tree
  }

  ghost predicate Tables(lit: HuffTable, dist: HuffTable, len: HuffTable) {
    && Roomy(lit, 288) && Roomy(dist, 32) && Roomy(len, 19)
    && NoSharing(lit, dist) && NoSharing(lit, len) && NoSharing(dist, len)
  }

  method BuildTable(t: HuffTable, sizes: seq<nat>, ghost n: nat) returns (ok: bool)
    requires Roomy(t, n) && 19 <= n <= 288 && |sizes| <= n && Small(sizes)
    modifies t, t.lookup, t.tree
    ensures ok == Accepted(sizes) && (ok ==> t.Valid() && t.sizes == sizes)
  {
    hide Accepted, HuffTable.Valid;
    ok := t.Build(sizes);
  }

  /** Reads the header of a dynamic block and builds the tables it describes (RFC 1951 section 3.2.7). */
  method ReadDynamic(r: BitReader, lit: HuffTable, dist: HuffTable, len: HuffTable, ghost h: Header,
                     ghost tail: seq<bool>, ghost live: bool)
      returns (st: Status, ghost got: L.Header)
    requires r.Valid() && Tables(lit, dist, len) && (live ==> h.Valid() && r.Rest() == h.Bits() + tail)
    modifies r`cur, r`end, r`bitBuf, r`numBits
    modifies lit, lit.lookup, lit.tree, dist, dist.lookup, dist.tree, len, len.lookup, len.tree
    ensures r.Valid() && |r.Rest()| <= |old(r.Rest())|
    ensures st == Done ==> lit.Valid() && dist.Valid() && |dist.sizes| <= 32
    ensures st != NoRoom && st != Mismatch && (st == NoInput ==> r.Spent())
    ensures live ==> st == Done || (st == NoInput && r.Lacks(tail))
    ensures live && st == Done ==> r.Rest() == tail && lit.sizes == h.lit && dist.sizes == h.dist
    ensures st == Done ==> got.Valid() && lit.sizes == got.lit && dist.sizes == got.dist
    ensures st == Done ==> old(r.Rest()) == got.Bits() + r.Rest()
  {
    hide *;
    TablesParts(lit, dist, len);
    var n0, n1, lens;
    st, n0, n1, lens, got := ReadLengths(r, len, h, tail, live);
    if st != Done { return; }
    if live { HeaderFields(h); }
    SmallParts(lens[..n0 + n1], n0);
    assert lens[..n0] == lens[..n0 + n1][..n0] && lens[n0..n0 + n1] == lens[..n0 + n1][n0..];
    var ok := BuildTable(dist, lens[n0..n0 + n1], 32);
    if !ok { return Failed, got; }
    ok := BuildTable(lit, lens[..n0], 288);
    if !ok { return Failed, got; }
    HeaderAccepted(got);
  }

  lemma HeaderAccepted(h: L.Header)
    requires h.WellFormed() && Accepted(h.lit) && Accepted(h.dist)
    ensures h.Valid()
  {
    hide Accepted;
  }

  /** Reads the code sizes of both tables. */
  method ReadLengths(r: BitReader, len: HuffTable, ghost h: Header, ghost tail: seq<bool>, ghost live: bool)
      returns (st: Status, n0: nat, n1: nat, lens: array<nat>, ghost got: L.Header)
    requires r.Valid() && Roomy(len, 19) && (live ==> h.Valid() && r.Rest() == h.Bits() + tail)
    modifies r`cur, r`end, r`bitBuf, r`numBits, len, len.lookup, len.tree
    ensures r.Valid() && |r.Rest()| <= |old(r.Rest())| && fresh(lens)
    ensures st == Done ==> lens.Length == 457 && n0 <= 288 && n1 <= 32 && Small(lens[..n0 + n1])
    ensures st != NoRoom && st != Mismatch && (st == NoInput ==> r.Spent())
    ensures live ==> st == Done || (st == NoInput && r.Lacks(tail))
    ensures live && st == Done ==> r.Rest() == tail && n0 == |h.lit| && n1 == |h.dist|
    ensures live && st == Done ==> lens[..n0 + n1] == h.lit + h.dist
    ensures st == Done ==> got.WellFormed() && got.lit == lens[..n0] && got.dist == lens[n0..n0 + n1]
    ensures st == Done ==> old(r.Rest()) == got.Bits() + r.Rest()
  {
    hide *;
    if live { HeaderFields(h); HeaderLayout(h); }
    ghost var fields := if live then LenFields(h.clen, h.numLens) else [];
    ghost var opBits := if live then OpsBits(h.clen, h.ops) else [];
    r.LacksIs(fields + opBits + tail);
    r.LacksIs(opBits + tail);
    r.LacksIs(tail);
    var ok, n2;
    ok, n0, n1, n2 := ReadCounts(r, h, fields + opBits + tail, live);
    lens, got := new nat[0], L.Header([], [], [], 0, [], []);
    if !ok { return NoInput, n0, n1, lens, got; }
    assert live ==> r.Rest() == fields + (opBits + tail);
    ghost var rest1, rest2, codes, ops := r.Rest(), [], [], [];
    var clen;
    ok, clen := ReadLenSizes(r, n2, if live then h.clen else [], opBits + tail, live);
    if !ok { return NoInput, n0, n1, lens, got; }
    rest2 := r.Rest();
    SmallFields(clen[..]);
    ok := BuildTable(len, clen[..], 19);
    if !ok { return Failed, n0, n1, lens, got; }
    st, lens, codes, ops := ReadSizes(r, len, n0 + n1, if live then h.ops else [], tail, live);
    if st == Done {
      got := L.Header(lens[..n0], lens[n0..n0 + n1], clen[..], n2, codes, ops);
      assert lens[..n0 + n1] == lens[..n0] + lens[n0..n0 + n1];
      HeaderRead(got, old(r.Rest()), rest1, rest2, r.Rest());
    }
  }

  lemma HeaderRead(h: L.Header, rest0: seq<bool>, rest1: seq<bool>, rest2: seq<bool>, rest: seq<bool>)
    requires 257 <= |h.lit| <= 288 && 1 <= |h.dist| <= 32 && 4 <= h.numLens <= 19 && Accepted(h.clen)
    requires rest0 == BitsOf(|h.lit| - 257, 5) + (BitsOf(|h.dist| - 1, 5) + (BitsOf(h.numLens - 4, 4) + rest1))
    requires FieldsRead(h.clen, h.numLens, rest1, rest2)
    requires L.Unpacked(h.clen, h.codes, h.ops, h.lit + h.dist, rest2, rest)
    ensures h.WellFormed() && rest0 == h.Bits() + rest
  {
    hide Accepted, BitsOf, L.OpsBits, LenFields, Reads, Rle.Unpack, Swizzle;
    var a, b, c, d, e := BitsOf(|h.lit| - 257, 5), BitsOf(|h.dist| - 1, 5), BitsOf(h.numLens - 4, 4),
      LenFields(h.clen, h.numLens), L.OpsBits(h.codes, h.ops);
    assert a + (b + (c + (d + (e + rest)))) == a + (b + (c + (d + e))) + rest;
  }

  lemma TablesParts(lit: HuffTable, dist: HuffTable, len: HuffTable)
    requires Tables(lit, dist, len)
    ensures Roomy(lit, 288) && Roomy(dist, 32) && Roomy(len, 19)
    ensures lit != dist && lit.lookup != dist.lookup && lit.lookup != dist.tree && lit.tree != dist.lookup
    ensures lit.tree != dist.tree
  {
  }

  lemma SmallFields(sizes: seq<nat>)
    requires |sizes| == 19 && forall i :: 0 <= i < 19 ==> sizes[i] <= 7
    ensures Small(sizes)
  {
  }

  /** Reads the numbers of literal/length codes, distance codes, and code-length sizes. */
  method ReadCounts(r: BitReader, ghost h: Header, ghost tail: seq<bool>, ghost live: bool)
      returns (ok: bool, n0: nat, n1: nat, n2: nat)
    requires r.Valid()
    requires live ==> 257 <= |h.lit| <= 288 && 1 <= |h.dist| <= 32 && 4 <= h.numLens <= 19
    requires live ==> r.Rest() == BitsOf(|h.lit| - 257, 5) + BitsOf(|h.dist| - 1, 5) + BitsOf(h.numLens - 4, 4) + tail
    modifies r`cur, r`end, r`bitBuf, r`numBits
    ensures r.Valid() && |r.Rest()| <= |old(r.Rest())|
    ensures ok ==> 257 <= n0 <= 288 && 1 <= n1 <= 32 && 4 <= n2 <= 19
    ensures ok ==> old(r.Rest()) == BitsOf(n0 - 257, 5) + (BitsOf(n1 - 1, 5) + (BitsOf(n2 - 4, 4) + r.Rest()))
    ensures !ok ==> r.Spent() && (live ==> r.Lacks(tail))
    ensures live && ok ==> r.Rest() == tail && n0 == |h.lit| && n1 == |h.dist| && n2 == h.numLens
  {
    hide *;
    n0, n1, n2 := 0, 0, 0;
    ghost var x0 := if live then |h.lit| - 257 else 0;
    ghost var x1 := if live then |h.dist| - 1 else 0;
    ghost var x2 := if live then h.numLens - 4 else 0;
    CountFields(x0, x1, x2);
    assert live ==> r.Rest() == BitsOf(x0, 5) + (BitsOf(x1, 5) + (BitsOf(x2, 4) + tail));
    r.LacksIs(tail);
    var a, b, c;
    ok, a := ReadExtra(r, 5, x0, live);
    if !ok { return; }
    ok, b := ReadExtra(r, 5, x1, live);
    if !ok { return; }
    ok, c := ReadExtra(r, 4, x2, live);
    if !ok { return; }
    n0, n1, n2 := a + 257, b + 1, c + 4;
    assert n0 - 257 == a && n1 - 1 == b && n2 - 4 == c;
  }

  lemma CountFields(x0: nat, x1: nat, x2: nat)
    ensures Pow2(5) == 32 && Pow2(4) == 16
    ensures x0 < 32 ==> LowBits(x0, 5) == x0
    ensures x1 < 32 ==> LowBits(x1, 5) == x1
    ensures x2 < 16 ==> LowBits(x2, 4) == x2
  {
    hide *;
    Pow2Values();
    LowBitsMod(x0, 5);
    LowBitsMod(x1, 5);
    LowBitsMod(x2, 4);
  }

  lemma HeaderFields(h: Header)
    requires h.Valid()
    ensures 257 <= |h.lit| <= 288 && 1 <= |h.dist| <= 32 && 4 <= h.numLens <= 19 && FieldsFit(h.clen, h.numLens)
    ensures |h.clen| == 19
    ensures Accepted(h.lit) && Accepted(h.dist) && Accepted(h.clen) && OpsCodable(h.clen, h.ops)
    ensures Rle.Meaningful(h.ops) && Rle.Unpack(h.ops) == h.lit + h.dist
  {
    hide Accepted, OpsCodable, Rle.Unpack, Rle.Meaningful, Swizzle;
  }

  lemma HeaderLayout(h: Header)
    requires h.Valid() && |h.lit| >= 257 && |h.dist| >= 1 && 4 <= h.numLens <= 19 && |h.clen| == 19
    requires OpsCodable(h.clen, h.ops)
    ensures h.Bits() == BitsOf(|h.lit| - 257, 5) + BitsOf(|h.dist| - 1, 5) + BitsOf(h.numLens - 4, 4) +
      LenFields(h.clen, h.numLens) + OpsBits(h.clen, h.ops)
  {
    hide Header.Valid, BitsOf, LenFields, OpsBits, OpsCodable;
  }
}
