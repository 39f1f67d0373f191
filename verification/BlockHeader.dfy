/** Starting a block: code tables and block header (`tdefl_start_static_block`, `tdefl_start_dynamic_block`). */
module BlockHeader {
  import opened Bits
  import opened PrefixCode
  import opened DecodeTable
  import opened Tokens
  import opened LzCodeBuffer
  import opened CodeCost
  import opened BitWriter
  import opened HuffmanEncoder
  import opened TokenWriter
  import opened DeflateFormat
  import Rle = CodeLengthRle

  // ---------------------------------------------------------------- symbol counts

  function LitCounts(ts: seq<Token>): (c: seq<nat>)
    requires AllValid(ts)
    ensures |c| == MAX_HUFF_SYMBOLS_0
  {
    seq(MAX_HUFF_SYMBOLS_0, s requires 0 <= s => LitCount(ts, s))
  }

  function DistCounts(ts: seq<Token>): (c: seq<nat>)
    requires AllValid(ts)
    ensures |c| == MAX_HUFF_SYMBOLS_1
  {
    seq(MAX_HUFF_SYMBOLS_1, s requires 0 <= s => DistCount(ts, s))
  }

  /** The symbols of a token are inside the tables. */
  ghost predicate InTables(t: Token) {
    ValidToken(t) && LitSym(t) < 288 && (t.Match? ==> 0 <= t.dist - 1 < LZ_DICT_SIZE && DistSym(t.dist - 1) < 32)
  }

  lemma IsInTables(t: Token)
    requires InTables(t)
    ensures ValidToken(t) && LitSym(t) < 288
    ensures t.Match? ==> 0 <= t.dist - 1 < LZ_DICT_SIZE == 32768 && DistSym(t.dist - 1) < 32
  {
  }

  lemma NothingCounted()
    ensures AllValid([]) && |LitCounts([])| == 288 && |DistCounts([])| == 32
    ensures forall s :: 0 <= s < 288 ==> LitCounts([])[s] == 0
    ensures forall s :: 0 <= s < 32 ==> DistCounts([])[s] == 0
  {
  }

  lemma NextCounts(ts: seq<Token>)
    requires AllValid(ts) && ts != []
    ensures InTables(ts[|ts| - 1]) && AllValid(ts[..|ts| - 1])
    ensures |LitCounts(ts[..|ts| - 1])| == 288 && |DistCounts(ts[..|ts| - 1])| == 32
    ensures var t, c := ts[|ts| - 1], LitCounts(ts[..|ts| - 1]);
      LitCounts(ts) == c[LitSym(t) := c[LitSym(t)] + 1]
    ensures var t, c := ts[|ts| - 1], DistCounts(ts[..|ts| - 1]);
      DistCounts(ts) == if t.Match? then c[DistSym(t.dist - 1) := c[DistSym(t.dist - 1)] + 1] else c
  {
    var t := ts[|ts| - 1];
    if t.Match? { DistTablesAgree(t.dist - 1); }
    hide LenSym, DistSym, LitSym;
  }

  lemma {:induction false} CountsSum(ts: seq<Token>)
    requires AllValid(ts)
    ensures Sum(LitCounts(ts)) == |ts| && Sum(DistCounts(ts)) <= |ts|
    decreases |ts|
  {
    hide *;
    if ts == [] {
      NothingCounted();
      SumZero(LitCounts(ts));
      SumZero(DistCounts(ts));
    } else {
      var front, t := ts[..|ts| - 1], ts[|ts| - 1];
      NextCounts(ts);
      CountsSum(front);
      IsInTables(t);
      var s, c := LitSym(t), LitCounts(front);
      SumSet(c, s, c[s] + 1);
      if t.Match? {
        var d, e := DistSym(t.dist - 1), DistCounts(front);
        SumSet(e, d, e[d] + 1);
      }
    }
  }

  function OpCounts(ops: seq<Rle.Op>): (c: seq<nat>)
    requires Rle.AllValid(ops)
    ensures |c| == 19
  {
    seq(19, s requires 0 <= s => Rle.SymCount(ops, s))
  }

  lemma {:induction false} OpCountsSum(ops: seq<Rle.Op>)
    requires Rle.AllValid(ops)
    ensures Sum(OpCounts(ops)) == |ops|
    decreases |ops|
  {
    if ops == [] {
      SumZero(OpCounts(ops));
    } else {
      var front := ops[..|ops| - 1];
      OpCountsSum(front);
      var s, c := ops[|ops| - 1].Sym(), OpCounts(front);
      SumSet(c, s, c[s] + 1);
      assert OpCounts(ops) == c[s := c[s] + 1];
    }
  }

  lemma {:induction false} Counted(ts: seq<Token>, i: nat)
    requires AllValid(ts) && i < |ts|
    ensures LitCount(ts, LitSym(ts[i])) > 0
    ensures ts[i].Match? ==> DistCount(ts, DistSym(ts[i].dist - 1)) > 0
    decreases |ts|
  {
    hide LitSym, DistSym;
    if i < |ts| - 1 { Counted(ts[..|ts| - 1], i); }
  }

  lemma {:induction false} OpCounted(ops: seq<Rle.Op>, i: nat)
    requires Rle.AllValid(ops) && i < |ops|
    ensures Rle.SymCount(ops, ops[i].Sym()) > 0
    decreases |ops|
  {
    if i < |ops| - 1 { OpCounted(ops[..|ops| - 1], i); }
  }

  /** No symbol past the last one that deflate defines is ever counted. */
  lemma {:induction false} NotCounted(ts: seq<Token>, s: nat)
    requires AllValid(ts)
    ensures s >= 286 || s == END_OF_BLOCK ==> LitCount(ts, s) == 0
    ensures s >= 30 ==> DistCount(ts, s) == 0
    decreases |ts|
  {
    if ts != [] {
      NotCounted(ts[..|ts| - 1], s);
      var t := ts[|ts| - 1];
      if t.Match? { DistTablesAgree(t.dist - 1); }
      hide LenSym, DistSym;
    }
  }

  /** Tables optimized for the counts have a code for every token. */
  lemma CodableTables(ts: seq<Token>, lit: seq<nat>, dist: seq<nat>)
    requires AllValid(ts)
    requires Optimized(LitCounts(ts)[END_OF_BLOCK := 1], lit, 15) && Optimized(DistCounts(ts), dist, 15)
    ensures AllCodable(lit, dist, ts) && Used(lit, END_OF_BLOCK)
    ensures ZeroFrom(lit, 286) && ZeroFrom(dist, 30)
    ensures |lit| == 288 && |dist| == 32 && Accepted(lit) && Accepted(dist)
    ensures forall i :: 0 <= i < 288 ==> lit[i] <= 15
    ensures forall i :: 0 <= i < 32 ==> dist[i] <= 15
  {
    hide Accepted, LenSym, DistSym;
    forall s: nat | 286 <= s < 288 ensures lit[s] == 0 { NotCounted(ts, s); }
    forall s: nat | 30 <= s < 32 ensures dist[s] == 0 { NotCounted(ts, s); }
    forall i | 0 <= i < |ts| ensures Codable(lit, dist, ts[i]) {
      Counted(ts, i);
      if ts[i].Match? { DistTablesAgree(ts[i].dist - 1); }
    }
  }

  // ---------------------------------------------------------------- static blocks

  method StartStatic(w: BitWriter, lit: CodeTable, dist: CodeTable)
    requires w.Valid() && Tables(w, lit, dist)
    modifies w`pos, w`bitBuffer, w`bitsIn, w`sent, w.buf, lit.sizes, lit.codes, dist.sizes, dist.codes
    ensures w.Valid() && Ready(w, lit) && Ready(w, dist) && old(w.pos) <= w.pos
    ensures lit.sizes[..] == FixedLit() && dist.sizes[..] == FixedDist()
    ensures w.sent == old(w.sent) + BitsOf(1, 2)
  {
    Pow2Values();
    assert Separate(lit, dist);
    hide *;
    FillFixed(lit, dist);
    UseFixed(lit, dist);
    w.PutBits(1, 2);
  }

  method FillFixed(lit: CodeTable, dist: CodeTable)
    requires lit.sizes.Length == 288 && dist.sizes.Length == 32 && Separate(lit, dist)
    modifies lit.sizes, dist.sizes
    ensures lit.sizes[..] == FixedLit() && dist.sizes[..] == FixedDist()
  {
    for i := 0 to 288
      invariant forall s :: 0 <= s < i ==> lit.sizes[s] == FixedLitSize(s)
    {
      lit.sizes[i] := if i <= 143 then 8 else if i <= 255 then 9 else if i <= 279 then 7 else 8;
    }
    assert lit.sizes[..] == FixedLit();
    for i := 0 to 32
      invariant lit.sizes[..] == FixedLit() && forall s :: 0 <= s < i ==> dist.sizes[s] == 5
    {
      dist.sizes[i] := 5;
    }
    assert dist.sizes[..] == FixedDist();
  }

  method UseFixed(lit: CodeTable, dist: CodeTable)
    requires lit.Shape() && dist.Shape() && Separate(lit, dist)
    requires lit.sizes[..] == FixedLit() && dist.sizes[..] == FixedDist()
    modifies lit.codes, dist.codes
    ensures lit.Valid() && dist.Valid()
  {
    FixedComplete();
    hide Pow2, Total, FixedLit, FixedDist;
    lit.UseSizes();
    dist.UseSizes();
  }

  ghost predicate Separate(a: CodeTable, b: CodeTable) {
    && a != b && a.sizes != b.sizes && a.codes != b.codes && a.sizes != b.codes && a.codes != b.sizes
  }

  ghost predicate Apart(w: BitWriter, t: CodeTable) {
    w.buf as object != t.sizes as object && w.buf as object != t.codes as object
  }

  ghost predicate Tables(w: BitWriter, lit: CodeTable, dist: CodeTable) {
    && lit.Shape() && dist.Shape() && lit.sizes.Length == 288 && dist.sizes.Length == 32 && Separate(lit, dist)
    && Apart(w, lit) && Apart(w, dist)
  }

  // ---------------------------------------------------------------- dynamic blocks

  /** The number of symbols up to the last used one, at least `least`. */
  method UsedSymbols(t: CodeTable, most: nat, least: nat) returns (n: nat)
    requires 1 <= least <= most <= t.sizes.Length && ZeroFrom(t.sizes[..], most)
    ensures least <= n <= most && ZeroFrom(t.sizes[..], n) && (n == least || t.sizes[n - 1] != 0)
  {
    n := most;
    while n > least
      invariant least <= n <= most && forall i :: n <= i < t.sizes.Length ==> t.sizes[i] == 0
    {
      if t.sizes[n - 1] != 0 { return; }
      n := n - 1;
    }
  }

  /** How many sizes of the code-length code have to be sent. */
  method BitLengths(t: CodeTable) returns (n: nat)
    requires t.sizes.Length == 19 && forall i :: 0 <= i < 19 ==> t.sizes[i] <= 7
    ensures 4 <= n <= 19 && FieldsFit(t.sizes[..], n) && (n == 4 || t.sizes[Swizzle(n - 1)] != 0)
  {
    var k := 18;
    while k >= 0
      invariant -1 <= k <= 18 && forall i :: k < i < 19 ==> t.sizes[Swizzle(i)] == 0
    {
      if t.sizes[Swizzle(k)] != 0 { break; }
      k := k - 1;
    }
    n := if k + 1 > 4 then k + 1 else 4;
  }

  method PutLenFields(w: BitWriter, t: CodeTable, n: nat)
    requires w.Valid() && w.buf as object != t.sizes as object && t.sizes.Length == 19 && n <= 19
    requires FieldsFit(t.sizes[..], n)
    modifies w`pos, w`bitBuffer, w`bitsIn, w`sent, w.buf
    ensures w.Valid() && w.sent == old(w.sent) + LenFields(t.sizes[..], n) && old(w.pos) <= w.pos
  {
    hide *;
    ghost var z, start := t.sizes[..], w.sent;
    NoLenFields(z);
    assert start + [] == start;
    for i := 0 to n
      invariant w.Valid() && t.sizes[..] == z && w.sent == start + LenFields(z, i) && old(w.pos) <= w.pos
    {
      PutLenField(w, t, z, i, n);
    }
  }

  lemma NoLenFields(z: seq<nat>)
    requires |z| == 19
    ensures LenFields(z, 0) == []
  {
  }

  method PutLenField(w: BitWriter, t: CodeTable, ghost z: seq<nat>, i: nat, ghost n: nat)
    requires w.Valid() && t.sizes.Length == 19 && i < n && z == t.sizes[..] && FieldsFit(z, n)
    modifies w`pos, w`bitBuffer, w`bitsIn, w`sent, w.buf
    ensures w.Valid() && w.sent == old(w.sent) + BitsOf(z[Swizzle(i)], 3) && old(w.pos) <= w.pos
    ensures LenFields(z, i + 1) == LenFields(z, i) + BitsOf(z[Swizzle(i)], 3)
  {
    Pow2Values();
    w.PutBits(t.sizes[Swizzle(i)], 3);
  }

  /** The packed bytes of the items from `k` on start with those of item `k`. */
  lemma {:induction false} BytesAt(ops: seq<Rle.Op>, k: nat)
    requires Rle.AllValid(ops) && k < |ops|
    ensures var at, item := |Rle.Bytes(ops[..k])|, ops[k].Bytes();
      at + |item| <= |Rle.Bytes(ops)| && Rle.Bytes(ops)[at..at + |item|] == item
    ensures |Rle.Bytes(ops[..k + 1])| == |Rle.Bytes(ops[..k])| + |ops[k].Bytes()|
    decreases |ops|
  {
    assert ops[..k + 1][..k] == ops[..k];
    if k < |ops| - 1 {
      var front := ops[..|ops| - 1];
      BytesAt(front, k);
      assert front[..k] == ops[..k] && front[..k + 1] == ops[..k + 1];
    } else {
      assert ops[..k + 1] == ops;
    }
  }

  /** Sends the packed code sizes. */
  method PutOps(w: BitWriter, t: CodeTable, packed: array<byte>, n: nat, ghost ops: seq<Rle.Op>)
    requires w.Valid() && Ready(w, t) && t.sizes.Length == 19 && n <= packed.Length && w.buf != packed
    requires Rle.AllValid(ops)
    requires OpsCodable(t.sizes[..], ops) && packed[..n] == Rle.Bytes(ops)
    modifies w`pos, w`bitBuffer, w`bitsIn, w`sent, w.buf
    ensures w.Valid() && w.sent == old(w.sent) + OpsBits(t.sizes[..], ops) && old(w.pos) <= w.pos
  {
    hide *;
    ghost var z, start, bytes := t.sizes[..], w.sent, packed[..n];
    ghost var k: nat := 0;
    NoOps(z, ops);
    assert start + [] == start;
    var idx := 0;
    while idx < n
      invariant w.Valid() && Ready(w, t) && t.sizes[..] == z && packed[..n] == bytes && old(w.pos) <= w.pos
      invariant k <= |ops| && OpsCodable(z, ops[..k]) && Rle.AllValid(ops[..k]) && idx == |Rle.Bytes(ops[..k])| <= n
      invariant w.sent == start + OpsBits(z, ops[..k])
      decreases n - idx
    {
      OpsNext(z, ops, bytes, k);
      idx := PutOp(w, t, packed, n, idx, ops[k]);
      k := k + 1;
    }
    OpsEnd(z, ops, k);
  }

  lemma NoOps(z: seq<nat>, ops: seq<Rle.Op>)
    requires OpsCodable(z, ops)
    ensures OpsCodable(z, ops[..0]) && Rle.AllValid(ops[..0]) && OpsBits(z, ops[..0]) == []
    ensures |Rle.Bytes(ops[..0])| == 0
  {
  }

  lemma OpsNext(z: seq<nat>, ops: seq<Rle.Op>, bytes: seq<byte>, k: nat)
    requires OpsCodable(z, ops) && bytes == Rle.Bytes(ops) && k <= |ops| && |Rle.Bytes(ops[..k])| < |bytes|
    ensures k < |ops| && ops[k].Valid() && Used(z, ops[k].Sym()) && OpsCodable(z, ops[..k])
    ensures OpsCodable(z, ops[..k + 1]) && Rle.AllValid(ops[..k + 1])
    ensures var at, item := |Rle.Bytes(ops[..k])|, ops[k].Bytes();
      at + |item| <= |bytes| && bytes[at..at + |item|] == item && |Rle.Bytes(ops[..k + 1])| == at + |item|
    ensures OpsBits(z, ops[..k + 1]) == OpsBits(z, ops[..k]) + OpBits(z, ops[k])
  {
    assert ops[..|ops|] == ops;
    BytesAt(ops, k);
    assert ops[..k + 1][..k] == ops[..k];
  }

  lemma OpsEnd(z: seq<nat>, ops: seq<Rle.Op>, k: nat)
    requires OpsCodable(z, ops) && k <= |ops| && |Rle.Bytes(ops[..k])| == |Rle.Bytes(ops)|
    ensures ops[..k] == ops
  {
    if k < |ops| { BytesAt(ops, k); }
  }

  method PutOp(w: BitWriter, t: CodeTable, packed: array<byte>, n: nat, idx: nat, ghost op: Rle.Op) returns (next: nat)
    requires w.Valid() && Ready(w, t) && t.sizes.Length == 19 && n <= packed.Length && w.buf != packed
    requires op.Valid() && Used(t.sizes[..], op.Sym())
    requires idx + |op.Bytes()| <= n && packed[..n][idx..idx + |op.Bytes()|] == op.Bytes()
    modifies w`pos, w`bitBuffer, w`bitsIn, w`sent, w.buf
    ensures w.Valid() && w.sent == old(w.sent) + OpBits(t.sizes[..], op) && old(w.pos) <= w.pos
    ensures Ready(w, t) && next == idx + |op.Bytes()|
  {
    hide *;
    ghost var z := t.sizes[..];
    OpFields(z, op, packed[..n], idx);
    var code := packed[idx];
    next := idx + 1;
    PutSym(w, t, code);
    if code >= 16 {
      w.PutBits(packed[next], if code == 16 then 2 else if code == 17 then 3 else 7);
      next := next + 1;
    }
  }

  lemma OpFields(z: seq<nat>, op: Rle.Op, bytes: seq<byte>, at: nat)
    requires op.Valid() && Used(z, op.Sym())
    requires at + |op.Bytes()| <= |bytes| && bytes[at..at + |op.Bytes()|] == op.Bytes()
    ensures bytes[at] == op.Sym() && |op.Bytes()| == (if op.Sym() >= 16 then 2 else 1)
    ensures op.Sym() >= 16 ==> bytes[at + 1] == op.Extra() < Pow2(op.Width())
    ensures op.Sym() >= 16 ==> op.Width() == if op.Sym() == 16 then 2 else if op.Sym() == 17 then 3 else 7
    ensures OpBits(z, op) ==
      if op.Sym() >= 16 then Word(z, op.Sym()) + BitsOf(op.Extra(), op.Width()) else Word(z, op.Sym())
  {
    Pow2Values();
    var part := bytes[at..at + |op.Bytes()|];
    assert part[0] == bytes[at] && (|part| == 2 ==> part[1] == bytes[at + 1]);
  }

  /** The counts with the end-of-block symbol still fit 16 bits. */
  lemma CountsFit(ts: seq<Token>)
    requires AllValid(ts) && |ts| < 0xFFFF
    ensures Sum(LitCounts(ts)[END_OF_BLOCK := 1]) < 0x1_0000 && Sum(DistCounts(ts)) < 0x1_0000
  {
    CountsSum(ts);
    NotCounted(ts, END_OF_BLOCK);
    SumSet(LitCounts(ts), END_OF_BLOCK, 1);
  }

  /** The tables that a dynamic block sends, without unused symbols at the end. */
  ghost predicate Sends(h: Header, lit: seq<nat>, dist: seq<nat>) {
    && ZeroFrom(lit, |h.lit|) && h.lit == lit[..|h.lit|]
    && ZeroFrom(dist, |h.dist|) && h.dist == dist[..|h.dist|]
  }

  /** The header describes its tables as the compressor does: without unused symbols at the end, packed greedily, and
      with a code made for the packed items. */
  ghost predicate Tight(h: Header) {
    && 257 <= |h.lit| && (|h.lit| == 257 || h.lit[|h.lit| - 1] != 0)
    && 1 <= |h.dist| && (|h.dist| == 1 || h.dist[|h.dist| - 1] != 0)
    && |h.clen| == 19 && 4 <= h.numLens <= 19 && (h.numLens == 4 || h.clen[Swizzle(h.numLens - 1)] != 0)
    && h.ops == Rle.Greedy(h.lit + h.dist, Rle.NO_SIZE)
    && Rle.AllValid(h.ops) && Optimized(OpCounts(h.ops), h.clen, 7)
  }

  /** The header of a dynamic block with these tokens: its tables cost little more than any others. */
  ghost predicate MadeFor(h: Header, ts: seq<Token>) {
    && AllValid(ts) && Tight(h)
    && exists lit: seq<nat>, dist: seq<nat> :: Sends(h, lit, dist) && CheapTables(ts, lit, dist)
  }

  lemma IsMadeFor(h: Header, ts: seq<Token>, lit: seq<nat>, dist: seq<nat>)
    requires AllValid(ts) && Tight(h) && Sends(h, lit, dist) && CheapTables(ts, lit, dist)
    ensures MadeFor(h, ts)
  {
  }

  lemma HeaderValid(h: Header, lit: seq<nat>, dist: seq<nat>)
    requires Accepted(lit) && Accepted(dist) && Sends(h, lit, dist)
    requires 257 <= |h.lit| <= 286 && 1 <= |h.dist| <= 30 && FieldsFit(h.clen, h.numLens)
    requires Rle.Packs(h.ops, h.lit + h.dist) && Optimized(OpCounts(h.ops), h.clen, 7)
    ensures h.Valid()
  {
    hide Accepted, OpsCodable, Optimized, ZeroFrom, FieldsFit, Rle.Packs, Rle.Meaningful, Rle.Unpack, OpCounts;
    PackedMeaning(h.ops, h.lit + h.dist, h.clen);
    AcceptedFront(lit, |h.lit|);
    AcceptedFront(dist, |h.dist|);
    OpsAreCodable(h.clen, h.ops);
  }

  lemma PackedMeaning(ops: seq<Rle.Op>, sizes: seq<nat>, clen: seq<nat>)
    requires Rle.Packs(ops, sizes) && Optimized(OpCounts(ops), clen, 7)
    ensures Rle.AllValid(ops) && Rle.Meaningful(ops) && Rle.Unpack(ops) == sizes && Accepted(clen)
  {
  }

  lemma OpsAreCodable(clen: seq<nat>, ops: seq<Rle.Op>)
    requires Rle.AllValid(ops) && Optimized(OpCounts(ops), clen, 7)
    ensures OpsCodable(clen, ops)
  {
    forall i | 0 <= i < |ops| ensures Used(clen, ops[i].Sym()) { OpCounted(ops, i); }
  }

  ghost predicate AllSeparate(w: BitWriter, lit: CodeTable, dist: CodeTable, len: CodeTable) {
    && Tables(w, lit, dist) && len.Shape() && len.sizes.Length == 19
    && Separate(lit, len) && Separate(dist, len) && Apart(w, len)
  }

  ghost predicate CountArrays(w: BitWriter, lit: CodeTable, dist: CodeTable, litCount: array<nat>,
                              distCount: array<nat>) {
    && litCount.Length == MAX_HUFF_SYMBOLS_0 && distCount.Length == MAX_HUFF_SYMBOLS_1 && litCount != distCount
    && litCount as object != w.buf as object && distCount as object != w.buf as object
    && litCount != lit.sizes && litCount != lit.codes && litCount != dist.sizes && litCount != dist.codes
    && distCount != lit.sizes && distCount != lit.codes && distCount != dist.sizes && distCount != dist.codes
  }

  /** The tables cost little more than any others for the same tokens. */
  ghost predicate CheapTables(ts: seq<Token>, lit: seq<nat>, dist: seq<nat>)
    requires AllValid(ts)
  {
    && Cheap(LitCounts(ts)[END_OF_BLOCK := 1], lit, MaxLoss(LitCounts(ts)))
    && Cheap(DistCounts(ts), dist, MaxLoss(DistCounts(ts)))
  }

  method OptimizeTables(lit: CodeTable, dist: CodeTable, litCount: array<nat>, distCount: array<nat>,
                        ghost w: BitWriter, ghost ts: seq<Token>)
    requires Tables(w, lit, dist) && CountArrays(w, lit, dist, litCount, distCount) && AllValid(ts) && |ts| < 0xFFFF
    requires litCount[..] == LitCounts(ts) && distCount[..] == DistCounts(ts)
    modifies litCount, lit.sizes, lit.codes, dist.sizes, dist.codes
    ensures Ready(w, lit) && Ready(w, dist)
    ensures Optimized(LitCounts(ts)[END_OF_BLOCK := 1], lit.sizes[..], 15)
    ensures Optimized(DistCounts(ts), dist.sizes[..], 15)
    ensures CheapTables(ts, lit.sizes[..], dist.sizes[..])
  {
    CountsFit(ts);
    Pow2Values();
    ghost var lc, dc := LitCounts(ts)[END_OF_BLOCK := 1], DistCounts(ts);
    assert |lc| == 288 && |dc| == 32;
    assert END_OF_BLOCK == 256;
    assert MaxLoss(lc) == MaxLoss(LitCounts(ts));
    hide LitCounts, DistCounts, Optimized, Pow2, Sum, Cheap, MaxLoss;
    litCount[256] := 1;
    assert litCount[..] == lc && distCount[..] == dc;
    ghost var _, _ := lit.Optimize(litCount, 15);
    ghost var z := lit.sizes[..];
    ghost var _, _ := dist.Optimize(distCount, 15);
    assert lit.sizes[..] == z;
  }

  method OptimizeLengths(p: Rle.Packer, len: CodeTable, ghost w: BitWriter)
    requires p.Written() && |p.done| <= 320 && len.Shape() && len.sizes.Length == 19
    requires p.counts != len.sizes && p.counts != len.codes
    requires w.buf as object != len.sizes as object && w.buf as object != len.codes as object
    modifies len.sizes, len.codes
    ensures Ready(w, len) && Rle.AllValid(p.ops) && Optimized(OpCounts(p.ops), len.sizes[..], 7)
    ensures forall i :: 0 <= i < 19 ==> len.sizes[i] <= 7
  {
    OpCountsSum(p.ops);
    Pow2Values();
    assert p.counts[..] == OpCounts(p.ops);
    hide OpCounts, Optimized, Pow2, Sum;
    ghost var _, _ := len.Optimize(p.counts, 7);
    SmallSizes(OpCounts(p.ops), len.sizes[..]);
  }

  lemma SmallSizes(counts: seq<nat>, z: seq<nat>)
    requires Optimized(counts, z, 7)
    ensures forall i :: 0 <= i < |z| ==> z[i] <= 7
  {
  }

  /** Builds the tables of a dynamic block and sends the header that describes them. */
  method StartDynamic(w: BitWriter, lit: CodeTable, dist: CodeTable, len: CodeTable, litCount: array<nat>,
                      distCount: array<nat>, ghost ts: seq<Token>)
      returns (ghost h: Header)
    requires w.Valid() && AllSeparate(w, lit, dist, len) && CountArrays(w, lit, dist, litCount, distCount)
    requires AllValid(ts) && |ts| < 0xFFFF && litCount[..] == LitCounts(ts) && distCount[..] == DistCounts(ts)
    modifies w`pos, w`bitBuffer, w`bitsIn, w`sent, w.buf, litCount
    modifies lit.sizes, lit.codes, dist.sizes, dist.codes, len.sizes, len.codes
    ensures w.Valid() && Ready(w, lit) && Ready(w, dist) && old(w.pos) <= w.pos
    ensures AllCodable(lit.sizes[..], dist.sizes[..], ts) && Used(lit.sizes[..], END_OF_BLOCK)
    ensures CheapTables(ts, lit.sizes[..], dist.sizes[..]) && |h.ops| <= 320 && MadeFor(h, ts)
    ensures h.Valid() && Sends(h, lit.sizes[..], dist.sizes[..]) && w.sent == old(w.sent) + BitsOf(2, 2) + h.Bits()
  {
    BuildTables(w, lit, dist, litCount, distCount, ts);
    assert Separate(lit, len) && Separate(dist, len) && Apart(w, len) && len.Shape();
    hide *;
    h := SendHeader(w, lit, dist, len);
    IsMadeFor(h, ts, lit.sizes[..], dist.sizes[..]);
  }

  method BuildTables(w: BitWriter, lit: CodeTable, dist: CodeTable, litCount: array<nat>, distCount: array<nat>,
                     ghost ts: seq<Token>)
    requires Tables(w, lit, dist) && CountArrays(w, lit, dist, litCount, distCount)
    requires AllValid(ts) && |ts| < 0xFFFF && litCount[..] == LitCounts(ts) && distCount[..] == DistCounts(ts)
    modifies litCount, lit.sizes, lit.codes, dist.sizes, dist.codes
    ensures Ready(w, lit) && Ready(w, dist)
    ensures AllCodable(lit.sizes[..], dist.sizes[..], ts) && Used(lit.sizes[..], END_OF_BLOCK)
    ensures CheapTables(ts, lit.sizes[..], dist.sizes[..])
    ensures ZeroFrom(lit.sizes[..], 286) && ZeroFrom(dist.sizes[..], 30)
    ensures Accepted(lit.sizes[..]) && Accepted(dist.sizes[..])
  {
    OptimizeTables(lit, dist, litCount, distCount, w, ts);
    hide *;
    CodableTables(ts, lit.sizes[..], dist.sizes[..]);
  }

  method SendHeader(w: BitWriter, lit: CodeTable, dist: CodeTable, len: CodeTable) returns (ghost h: Header)
    requires w.Valid() && Ready(w, lit) && Ready(w, dist) && lit.sizes.Length == 288 && dist.sizes.Length == 32
    requires len.Shape() && len.sizes.Length == 19
    requires len.sizes != lit.sizes && len.sizes != lit.codes && len.codes != lit.sizes && len.codes != lit.codes
    requires len.sizes != dist.sizes && len.sizes != dist.codes && len.codes != dist.sizes && len.codes != dist.codes
    requires w.buf as object != len.sizes as object && w.buf as object != len.codes as object
    requires ZeroFrom(lit.sizes[..], 286) && ZeroFrom(dist.sizes[..], 30)
    requires Accepted(lit.sizes[..]) && Accepted(dist.sizes[..])
    modifies w`pos, w`bitBuffer, w`bitsIn, w`sent, w.buf, len.sizes, len.codes
    ensures w.Valid() && Ready(w, lit) && Ready(w, dist) && old(w.pos) <= w.pos
    ensures h.Valid() && Sends(h, lit.sizes[..], dist.sizes[..]) && w.sent == old(w.sent) + BitsOf(2, 2) + h.Bits()
    ensures lit.sizes[..] == old(lit.sizes[..]) && dist.sizes[..] == old(dist.sizes[..]) && |h.ops| <= 320 && Tight(h)
  {
    hide *;
    ghost var zl, zd := lit.sizes[..], dist.sizes[..];
    var numLit := UsedSymbols(lit, 286, 257);
    var numDist := UsedSymbols(dist, 30, 1);
    SizesFit(zl, numLit, zd, numDist);
    var packer := Rle.Pack(lit.sizes[..numLit] + dist.sizes[..numDist]);
    OptimizeLengths(packer, len, w);
    var n := BitLengths(len);
    h := Header(zl[..numLit], zd[..numDist], len.sizes[..], n, packer.ops);
    WrittenPacks(packer);
    HeaderSends(h, zl, zd, numLit, numDist);
    HeaderValid(h, zl, zd);
    IsTight(h, zl, zd);
    PutHeader(w, len, numLit, numDist, n, packer, h);
  }

  lemma IsTight(h: Header, zl: seq<nat>, zd: seq<nat>)
    requires Sends(h, zl, zd) && 257 <= |h.lit| <= |zl| && 1 <= |h.dist| <= |zd|
    requires (|h.lit| == 257 || zl[|h.lit| - 1] != 0) && (|h.dist| == 1 || zd[|h.dist| - 1] != 0)
    requires |h.clen| == 19 && 4 <= h.numLens <= 19 && (h.numLens == 4 || h.clen[Swizzle(h.numLens - 1)] != 0)
    requires h.ops == Rle.Greedy(h.lit + h.dist, Rle.NO_SIZE)
    requires Rle.AllValid(h.ops) && Optimized(OpCounts(h.ops), h.clen, 7)
    ensures Tight(h)
  {
    hide Optimized, Rle.Greedy, Rle.AllValid, OpCounts;
  }

  lemma SizesFit(zl: seq<nat>, m: nat, zd: seq<nat>, n: nat)
    requires Accepted(zl) && Accepted(zd) && m <= |zl| && n <= |zd|
    ensures forall i :: 0 <= i < m + n ==> (zl[..m] + zd[..n])[i] <= 15
  {
  }

  lemma WrittenPacks(p: Rle.Packer)
    requires p.Written()
    ensures Rle.Packs(p.ops, p.done) && |p.ops| <= 320
  {
  }

  lemma HeaderSends(h: Header, zl: seq<nat>, zd: seq<nat>, m: nat, n: nat)
    requires ZeroFrom(zl, m) && ZeroFrom(zd, n) && h.lit == zl[..m] && h.dist == zd[..n]
    ensures Sends(h, zl, zd)
  {
  }

  method PutHeader(w: BitWriter, len: CodeTable, numLit: nat, numDist: nat, n: nat, packer: Rle.Packer, ghost h: Header)
    requires w.Valid() && Ready(w, len) && h.Valid() && h.clen == len.sizes[..] && |h.lit| == numLit <= 286
    requires |h.dist| == numDist <= 30
    requires 257 <= numLit && 1 <= numDist && w.buf as object != len.sizes as object
    requires h.numLens == n && packer.Written() && packer.ops == h.ops && packer.packed != w.buf
    modifies w`pos, w`bitBuffer, w`bitsIn, w`sent, w.buf
    ensures w.Valid() && old(w.pos) <= w.pos && w.sent == old(w.sent) + BitsOf(2, 2) + h.Bits()
  {
    hide *;
    HeaderParts(h);
    WrittenBytes(packer);
    w.PutBits(2, 2);
    w.PutBits(numLit - 257, 5);
    w.PutBits(numDist - 1, 5);
    w.PutBits(n - 4, 4);
    PutLenFields(w, len, n);
    PutOps(w, len, packer.packed, packer.n, h.ops);
  }

  lemma HeaderParts(h: Header)
    requires h.Valid()
    ensures FieldsFit(h.clen, h.numLens) && OpsCodable(h.clen, h.ops) && |h.clen| == 19 && 4 <= h.numLens <= 19
    ensures h.Bits() == BitsOf(|h.lit| - 257, 5) + BitsOf(|h.dist| - 1, 5) + BitsOf(h.numLens - 4, 4) +
      LenFields(h.clen, h.numLens) + OpsBits(h.clen, h.ops)
    ensures Pow2(2) == 4 && Pow2(5) == 32 && Pow2(4) == 16
  {
    Pow2Values();
    HeaderFits(h);
    HeaderBits(h);
    hide *;
  }

  lemma HeaderBits(h: Header)
    requires h.Valid() && FieldsFit(h.clen, h.numLens) && OpsCodable(h.clen, h.ops) && 4 <= h.numLens <= 19
    requires 257 <= |h.lit| && 1 <= |h.dist| && |h.clen| == 19
    ensures h.Bits() == BitsOf(|h.lit| - 257, 5) + BitsOf(|h.dist| - 1, 5) + BitsOf(h.numLens - 4, 4) +
      LenFields(h.clen, h.numLens) + OpsBits(h.clen, h.ops)
  {
    hide Accepted, FieldsFit, OpsCodable, Rle.Unpack, Rle.Meaningful, BitsOf, Pow2, LenFields, OpsBits, Header.Valid;
  }

  lemma HeaderFits(h: Header)
    requires h.Valid()
    ensures FieldsFit(h.clen, h.numLens) && OpsCodable(h.clen, h.ops) && |h.clen| == 19 && 4 <= h.numLens <= 19
    ensures 257 <= |h.lit| <= 288 && 1 <= |h.dist| <= 32
  {
    hide Accepted, OpsCodable, Rle.Unpack, Rle.Meaningful;
  }

  lemma WrittenBytes(p: Rle.Packer)
    requires p.Written()
    ensures Rle.AllValid(p.ops) && p.n <= p.packed.Length && p.packed[..p.n] == Rle.Bytes(p.ops)
  {
  }
}
