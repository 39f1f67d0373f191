/** How large a coded block can get. A dynamic block costs little more than one with a code of nine bits
    for literals, and of 25 bits, extra bits included, for matches: what the token buffer takes itself. */
module BlockCost {
  import opened Bits
  import opened PrefixCode
  import opened CodeCost
  import opened Tokens
  import opened LzCodeBuffer
  import opened HuffmanEncoder
  import opened DeflateFormat
  import opened BlockHeader
  import Rle = CodeLengthRle

  // ---------------------------------------------------------------- a static block always fits

  lemma FixedBody(ts: seq<Token>)
    requires AllValid(ts)
    ensures AllCodable(FixedLit(), FixedDist(), ts) && Used(FixedLit(), END_OF_BLOCK) && Fixed(ts).Valid()
    ensures Fixed(ts).Bits(0) ==
      BitsOf(1, 2) + TokensBits(FixedLit(), FixedDist(), ts) + Word(FixedLit(), END_OF_BLOCK)
  {
    FixedComplete();
  }

  lemma FixedCost(t: Token)
    requires ValidToken(t)
    ensures Codable(FixedLit(), FixedDist(), t)
    ensures 25 * |TokenBits(FixedLit(), FixedDist(), t)| <= 31 * (8 * |Payload(t)| + 1)
  {
    FixedCodable(t);
    if t.Match? {
      LengthTablesAgree(t.len - 3);
      DistTablesAgree(t.dist - 1);
      hide LenSym, LenExtra, DistSym, DistExtra, Word, BitsOf, LowBits;
    } else {
      hide Word;
    }
  }

  lemma {:induction false} FixedCosts(ts: seq<Token>)
    requires AllValid(ts)
    ensures AllCodable(FixedLit(), FixedDist(), ts)
    ensures 25 * |TokensBits(FixedLit(), FixedDist(), ts)| <= 31 * (8 * |Payloads(ts)| + |ts|)
  {
    hide FixedLit, FixedDist, Codable, TokenBits, Payload, ValidToken;
    if ts != [] {
      FixedCost(ts[0]);
      FixedCosts(ts[1..]);
      assert forall i :: 0 <= i < |ts| ==> ts[i] == if i == 0 then ts[0] else ts[1..][i - 1];
    }
  }

  lemma {:induction false} ImageSize(ts: seq<Token>)
    requires AllValid(ts)
    ensures 8 * |Payloads(ts)| + |ts| <= 8 * |Image(ts)|
    decreases |ts|
  {
    if ts != [] {
      var m := GroupLen(ts);
      assert ts == ts[..m] + ts[m..];
      PayloadsAppend(ts[..m], ts[m..]);
      ImageSize(ts[m..]);
    }
  }

  /** The bound behind the size of the output buffer. */
  lemma StaticFits(ts: seq<Token>)
    requires AllValid(ts) && |Image(ts)| <= LZ_CODE_BUF_SIZE
    ensures Fixed(ts).Valid() && |Fixed(ts).Bits(0)| <= 650200
    ensures |ts| < 0xFFFF
  {
    FixedBody(ts);
    FixedCosts(ts);
    ImageSize(ts);
    assert |ts| <= |Payloads(ts)|;
  }

  // ---------------------------------------------------------------- a code to compare with

  function LenSymExtra(s: nat): (e: nat)
    ensures e <= 5
  {
    if s < 265 || s >= 285 then 0 else (s - 261) / 4
  }

  function DistSymExtra(s: nat): nat
    requires s < 32
  {
    if s < 4 || s >= 30 then 0 else s / 2 - 1
  }

  function PlainLit(): (z: seq<nat>)
    ensures |z| == 288
  {
    seq(288, s requires 0 <= s => if s < 257 then 9 else 10 - LenSymExtra(s))
  }

  function PlainDist(): (z: seq<nat>)
    ensures |z| == 32
  {
    seq(32, s requires 0 <= s < 32 => 15 - DistSymExtra(s))
  }

  /** The Kraft sum of the first `k` symbols. */
  function Room(code: seq<nat>, m: nat, k: nat): nat
    requires AtMost(code, m) && k <= |code|
  {
    if k == 0 then 0 else Room(code, m, k - 1) + Pow2(m - code[k - 1])
  }

  lemma {:induction false} UsedRoom(counts: seq<nat>, code: seq<nat>, m: nat, k: nat)
    requires AtMost(code, m) && |code| == |counts| && k <= |code|
    ensures Sum(UsedPowers(counts, code, m)[..k]) <= Room(code, m, k)
  {
    var f := UsedPowers(counts, code, m);
    if k > 0 {
      UsedRoom(counts, code, m, k - 1);
      assert f[..k] == f[..k - 1] + [f[k - 1]];
      SumAppend(f[..k - 1], f[k - 1]);
    } else {
      assert f[..0] == [];
    }
  }

  lemma {:induction false} NineBits(k: nat)
    requires k <= 257
    ensures AtMost(PlainLit(), 10) && Room(PlainLit(), 10, k) == 2 * k
  {
    if k > 0 {
      NineBits(k - 1);
      Pow2Values();
    }
  }

  lemma FourMore(code: seq<nat>, m: nat, k: nat, l: nat)
    requires AtMost(code, m) && k + 4 <= |code| && l <= m
    requires code[k] == code[k + 1] == code[k + 2] == code[k + 3] == l
    ensures Room(code, m, k + 4) == Room(code, m, k) + 4 * Pow2(m - l)
  {
    assert Room(code, m, k + 2) == Room(code, m, k) + 2 * Pow2(m - l);
  }

  lemma LitRoom()
    ensures AtMost(PlainLit(), 10) && Room(PlainLit(), 10, 288) <= 1024
  {
    NineBits(257);
    var z := PlainLit();
    PlainLengths(z);
    hide *;
    LitRooms(z);
  }

  lemma PlainLengths(z: seq<nat>)
    requires z == PlainLit()
    ensures |z| == 288 && AtMost(z, 10)
    ensures z[257] == z[258] == z[259] == z[260] == 10 && z[261] == z[262] == z[263] == z[264] == 10
    ensures z[265] == z[266] == z[267] == z[268] == 9 && z[269] == z[270] == z[271] == z[272] == 8
    ensures z[273] == z[274] == z[275] == z[276] == 7 && z[277] == z[278] == z[279] == z[280] == 6
    ensures z[281] == z[282] == z[283] == z[284] == 5 && z[285] == z[286] == z[287] == 10
  {
  }

  lemma LitRooms(z: seq<nat>)
    requires |z| == 288 && AtMost(z, 10) && Room(z, 10, 257) == 514
    requires z[257] == z[258] == z[259] == z[260] == 10 && z[261] == z[262] == z[263] == z[264] == 10
    requires z[265] == z[266] == z[267] == z[268] == 9 && z[269] == z[270] == z[271] == z[272] == 8
    requires z[273] == z[274] == z[275] == z[276] == 7 && z[277] == z[278] == z[279] == z[280] == 6
    requires z[281] == z[282] == z[283] == z[284] == 5 && z[285] == z[286] == z[287] == 10
    ensures Room(z, 10, 288) == 773
  {
    Pow2Values();
    hide *;
    FourMore(z, 10, 257, 10);
    FourMore(z, 10, 261, 10);
    FourMore(z, 10, 265, 9);
    FourMore(z, 10, 269, 8);
    FourMore(z, 10, 273, 7);
    FourMore(z, 10, 277, 6);
    FourMore(z, 10, 281, 5);
    RoomStep(z, 10, 285);
    RoomStep(z, 10, 286);
    RoomStep(z, 10, 287);
  }

  lemma RoomStep(code: seq<nat>, m: nat, k: nat)
    requires AtMost(code, m) && k < |code|
    ensures code[k] <= m && Room(code, m, k + 1) == Room(code, m, k) + Pow2(m - code[k])
  {
  }

  lemma PlainDistAt(j: nat)
    requires 2 <= j <= 15
    ensures AtMost(PlainDist(), 15) && PlainDist()[2 * j - 2] == PlainDist()[2 * j - 1] == 15 - (j - 2)
    ensures PlainDist()[0] == PlainDist()[1] == PlainDist()[2] == PlainDist()[3] == 15
    ensures Pow2(j) == 2 * Pow2(j - 1) && Pow2(j - 1) == 2 * Pow2(j - 2)
    ensures Room(PlainDist(), 15, 0) == 0 && Pow2(0) == 1 && Pow2(2) == 4
  {
    Pow2Values();
  }

  /** The code with `15 - extra` bits for each distance symbol is complete. */
  lemma {:induction false} DistRoom(j: nat)
    requires 2 <= j <= 15
    ensures AtMost(PlainDist(), 15) && Room(PlainDist(), 15, 2 * j) == Pow2(j)
  {
    hide *;
    var z := PlainDist();
    PlainDistAt(j);
    if j == 2 {
      FourMore(z, 15, 0, 15);
    } else {
      DistRoom(j - 1);
      RoomStep(z, 15, 2 * j - 2);
      RoomStep(z, 15, 2 * j - 1);
    }
  }

  lemma PlainFits(ts: seq<Token>)
    requires AllValid(ts)
    ensures CodeFor(LitCounts(ts)[END_OF_BLOCK := 1], PlainLit(), 10)
    ensures CodeFor(DistCounts(ts), PlainDist(), 15)
  {
    NotCounted(ts, 30);
    NotCounted(ts, 31);
    assert DistCounts(ts)[30] == 0 && DistCounts(ts)[31] == 0;
    hide LitCount, DistCount, LitCounts, DistCounts, CodeFor;
    PlainLitFits(LitCounts(ts)[END_OF_BLOCK := 1]);
    PlainDistFits(DistCounts(ts));
  }

  lemma PlainLitFits(counts: seq<nat>)
    requires |counts| == 288
    ensures CodeFor(counts, PlainLit(), 10)
  {
    Pow2Values();
    PlainBounds();
    hide *;
    LitRoom();
    UsedRoom(counts, PlainLit(), 10, 288);
    var f := UsedPowers(counts, PlainLit(), 10);
    assert f[..288] == f;
    IsCode(counts, PlainLit(), 10);
  }

  lemma PlainDistFits(counts: seq<nat>)
    requires |counts| == 32 && counts[30] == counts[31] == 0
    ensures CodeFor(counts, PlainDist(), 15)
  {
    hide *;
    var f := UsedPowers(counts, PlainDist(), 15);
    PlainBounds();
    LastUnused(counts);
    DistRoom(15);
    UsedRoom(counts, PlainDist(), 15, 30);
    TailZero(f);
    IsCode(counts, PlainDist(), 15);
  }

  lemma LastUnused(counts: seq<nat>)
    requires |counts| == 32 && counts[30] == counts[31] == 0
    ensures UsedPowers(counts, PlainDist(), 15)[30] == 0 && UsedPowers(counts, PlainDist(), 15)[31] == 0
  {
  }

  lemma TailZero(f: seq<nat>)
    requires |f| == 32 && f[30] == f[31] == 0
    ensures Sum(f) == Sum(f[..30])
  {
    hide *;
    var g := f[..30];
    assert f == g + [0] + [0];
    SumAppend(g, 0);
    SumAppend(g + [0], 0);
  }

  lemma PlainBounds()
    ensures forall s :: 0 <= s < 288 ==> 1 <= PlainLit()[s] <= 10
    ensures forall s :: 0 <= s < 32 ==> 1 <= PlainDist()[s] <= 15
  {
  }

  lemma IsCode(counts: seq<nat>, code: seq<nat>, m: nat)
    requires |code| == |counts| && (forall s :: 0 <= s < |code| ==> 1 <= code[s] <= m)
    requires Sum(UsedPowers(counts, code, m)) <= Pow2(m)
    ensures CodeFor(counts, code, m)
  {
  }

  // ---------------------------------------------------------------- the cost of tokens

  function SymCost(lit: seq<nat>, dist: seq<nat>, t: Token): nat
    requires ValidToken(t) && |lit| == 288 && |dist| == 32
  {
    match t
    case Lit(b) => lit[b]
    case Match(len, d) =>
      LengthTablesAgree(len - 3);
      DistTablesAgree(d - 1);
      lit[LenSym(len - 3)] + dist[DistSym(d - 1)]
  }

  function ExtraBits(t: Token): nat
    requires ValidToken(t)
  {
    match t
    case Lit(b) => 0
    case Match(len, d) => LenExtra(len - 3) + DistExtra(d - 1)
  }

  function SymsCost(lit: seq<nat>, dist: seq<nat>, ts: seq<Token>): nat
    requires AllValid(ts) && |lit| == 288 && |dist| == 32
  {
    if ts == [] then 0 else var l := |ts| - 1; SymsCost(lit, dist, ts[..l]) + SymCost(lit, dist, ts[l])
  }

  function ExtrasBits(ts: seq<Token>): nat
    requires AllValid(ts)
  {
    if ts == [] then 0 else var l := |ts| - 1; ExtrasBits(ts[..l]) + ExtraBits(ts[l])
  }

  lemma {:induction false} CostWeight(w: seq<nat>, lens: seq<nat>, i: nat)
    requires |w| == |lens| && i < |w|
    ensures Cost(w[i := w[i] + 1], lens) == Cost(w, lens) + lens[i]
  {
    if i > 0 {
      assert w[i := w[i] + 1][1..] == w[1..][i - 1 := w[i] + 1];
      CostWeight(w[1..], lens[1..], i - 1);
    } else {
      assert w[i := w[i] + 1][1..] == w[1..];
      MulAdd(w[0], 1, lens[0]);
    }
  }

  lemma {:induction false} NoCost(w: seq<nat>, lens: seq<nat>)
    requires |w| == |lens| && forall k :: 0 <= k < |w| ==> w[k] == 0
    ensures Cost(w, lens) == 0
  {
    if w != [] { NoCost(w[1..], lens[1..]); }
  }

  lemma NothingCosts(lit: seq<nat>, dist: seq<nat>)
    requires |lit| == 288 && |dist| == 32
    ensures SymsCost(lit, dist, []) == 0
  {
  }

  /** The symbols of the tokens cost what the counts say. */
  lemma {:induction false} CountsCost(ts: seq<Token>, lit: seq<nat>, dist: seq<nat>)
    requires AllValid(ts) && |lit| == 288 && |dist| == 32
    ensures Cost(LitCounts(ts), lit) + Cost(DistCounts(ts), dist) == SymsCost(lit, dist, ts)
    decreases |ts|
  {
    hide *;
    if ts == [] {
      NothingCounted();
      NothingCosts(lit, dist);
      NoCost(LitCounts(ts), lit);
      NoCost(DistCounts(ts), dist);
    } else {
      var front, t := ts[..|ts| - 1], ts[|ts| - 1];
      NextCounts(ts);
      CountsCost(front, lit, dist);
      SymsLast(ts, lit, dist);
      IsInTables(t);
      CostWeight(LitCounts(front), lit, LitSym(t));
      if t.Match? { CostWeight(DistCounts(front), dist, DistSym(t.dist - 1)); }
    }
  }

  lemma SymsLast(ts: seq<Token>, lit: seq<nat>, dist: seq<nat>)
    requires AllValid(ts) && |lit| == 288 && |dist| == 32 && ts != []
    ensures InTables(ts[|ts| - 1]) && AllValid(ts[..|ts| - 1])
    ensures var t := ts[|ts| - 1];
      SymsCost(lit, dist, ts) ==
      SymsCost(lit, dist, ts[..|ts| - 1]) + lit[LitSym(t)] + (if t.Match? then dist[DistSym(t.dist - 1)] else 0)
  {
    hide SymCost;
    SymsInTables(ts[|ts| - 1], lit, dist);
    hide LitSym, DistSym;
  }

  lemma SymsInTables(t: Token, lit: seq<nat>, dist: seq<nat>)
    requires ValidToken(t) && |lit| == 288 && |dist| == 32
    ensures InTables(t) && LitSym(t) < 288 && (t.Match? ==> DistSym(t.dist - 1) < 32)
    ensures SymCost(lit, dist, t) == lit[LitSym(t)] + (if t.Match? then dist[DistSym(t.dist - 1)] else 0)
  {
    if t.Match? {
      LengthTablesAgree(t.len - 3);
      DistTablesAgree(t.dist - 1);
    }
    hide LenSym, DistSym;
  }

  lemma {:induction false} TokensSize(lit: seq<nat>, dist: seq<nat>, ts: seq<Token>)
    requires AllValid(ts) && |lit| == 288 && |dist| == 32 && AllCodable(lit, dist, ts)
    ensures |TokensBits(lit, dist, ts)| == SymsCost(lit, dist, ts) + ExtrasBits(ts)
    decreases |ts|
  {
    if ts != [] {
      var front, t := ts[..|ts| - 1], ts[|ts| - 1];
      assert ts == front + [t];
      TokensSize(lit, dist, front);
      TokensBitsAppend(lit, dist, front, t);
      TokenSize(lit, dist, t);
      hide TokenBits, SymCost, ExtraBits, Codable;
    }
  }

  lemma TokenSize(lit: seq<nat>, dist: seq<nat>, t: Token)
    requires ValidToken(t) && |lit| == 288 && |dist| == 32 && Codable(lit, dist, t)
    ensures |TokenBits(lit, dist, t)| == SymCost(lit, dist, t) + ExtraBits(t)
  {
    hide LenSym, LenExtra, DistSym, DistExtra, Word, BitsOf, LowBits;
  }

  /** With the plain code, a token costs as many bits as it takes in the token buffer, flag included. */
  lemma PlainCost(t: Token)
    requires ValidToken(t)
    ensures SymCost(PlainLit(), PlainDist(), t) + ExtraBits(t) == 8 * |Payload(t)| + 1
  {
    if t.Match? {
      LengthTablesAgree(t.len - 3);
      DistTablesAgree(t.dist - 1);
      PlainLength(t.len - 3);
      PlainDistance(t.dist - 1);
      hide LenSym, LenExtra, DistSym, DistExtra;
    }
  }

  lemma PlainLength(l: byte)
    ensures LenSymExtra(LenSym(l)) == LenExtra(l)
  {
  }

  lemma PlainDistance(d: nat)
    requires d < LZ_DICT_SIZE
    ensures DistSym(d) < 32 && DistSymExtra(DistSym(d)) == DistExtra(d)
  {
  }

  lemma {:induction false} PlainCosts(ts: seq<Token>)
    requires AllValid(ts)
    ensures SymsCost(PlainLit(), PlainDist(), ts) + ExtrasBits(ts) == 8 * |Payloads(ts)| + |ts|
    decreases |ts|
  {
    if ts != [] {
      var front, t := ts[..|ts| - 1], ts[|ts| - 1];
      assert ts == front + [t];
      PlainCosts(front);
      PlainCost(t);
      PayloadsAppend(front, [t]);
      PayloadsOne(t);
      hide PlainLit, PlainDist, SymCost, ExtraBits, Payload;
    }
  }

  // ---------------------------------------------------------------- dynamic blocks

  /** The size of the coded tokens and the end-of-block symbol. */
  lemma CodedSize(ts: seq<Token>, lit: seq<nat>, dist: seq<nat>)
    requires AllValid(ts) && AllCodable(lit, dist, ts) && Used(lit, END_OF_BLOCK) && |Image(ts)| <= LZ_CODE_BUF_SIZE
    requires CheapTables(ts, lit, dist)
    ensures |TokensBits(lit, dist, ts)| + |Word(lit, END_OF_BLOCK)| <= 633977
  {
    var lc, dc := LitCounts(ts), DistCounts(ts);
    var lc1 := lc[END_OF_BLOCK := 1];
    hide *;
    CheapParts(ts, lit, dist, lc1);
    CountsCost(ts, lit, dist);
    CountsCost(ts, PlainLit(), PlainDist());
    TokensSize(lit, dist, ts);
    PlainCosts(ts);
    ImageSize(ts);
  }

  /** The plain code, with the end-of-block symbol, bounds what the tables cost. */
  lemma CheapParts(ts: seq<Token>, lit: seq<nat>, dist: seq<nat>, lc1: seq<nat>)
    requires AllValid(ts) && Used(lit, END_OF_BLOCK) && CheapTables(ts, lit, dist)
    requires lc1 == LitCounts(ts)[END_OF_BLOCK := 1]
    ensures |lit| == 288 && |dist| == 32 && |Word(lit, END_OF_BLOCK)| == lit[END_OF_BLOCK] && LZ_CODE_BUF_SIZE == 65536
    ensures Cost(LitCounts(ts), lit) + lit[END_OF_BLOCK] <= Cost(LitCounts(ts), PlainLit()) + 9 + 74040
    ensures Cost(DistCounts(ts), dist) <= Cost(DistCounts(ts), PlainDist()) + 35640
  {
    PlainFits(ts);
    PlainEnd(ts, lit, lc1);
    var lc, dc := LitCounts(ts), DistCounts(ts);
    assert MaxLoss(lc) == 74040 && MaxLoss(dc) == 35640;
    hide Cost, LitCounts, DistCounts, PlainLit, PlainDist, CodeFor, Word;
    assert Cost(lc1, lit) <= Cost(lc1, PlainLit()) + 74040;
    assert Cost(dc, dist) <= Cost(dc, PlainDist()) + 35640;
  }

  lemma PlainEnd(ts: seq<Token>, lit: seq<nat>, lc1: seq<nat>)
    requires AllValid(ts) && |lit| == 288 && lc1 == LitCounts(ts)[END_OF_BLOCK := 1]
    ensures Cost(lc1, lit) == Cost(LitCounts(ts), lit) + lit[END_OF_BLOCK]
    ensures Cost(lc1, PlainLit()) == Cost(LitCounts(ts), PlainLit()) + 9
  {
    NotCounted(ts, END_OF_BLOCK);
    assert PlainLit()[END_OF_BLOCK] == 9 && LitCounts(ts)[END_OF_BLOCK] == 0;
    hide LitCounts, Cost, PlainLit;
    CostWeight(LitCounts(ts), lit, END_OF_BLOCK);
    CostWeight(LitCounts(ts), PlainLit(), END_OF_BLOCK);
  }

  lemma {:induction false} OpsSize(clen: seq<nat>, ops: seq<Rle.Op>)
    requires OpsCodable(clen, ops) && forall i :: 0 <= i < |clen| ==> clen[i] <= 7
    ensures |OpsBits(clen, ops)| <= 14 * |ops|
    decreases |ops|
  {
    if ops != [] { OpsSize(clen, ops[..|ops| - 1]); }
  }

  lemma {:induction false} FieldsSize(clen: seq<nat>, k: nat)
    requires |clen| == 19 && k <= 19
    ensures |LenFields(clen, k)| == 3 * k
  {
    if k > 0 { FieldsSize(clen, k - 1); }
  }

  lemma HeaderSize(h: Header)
    requires h.Valid() && |h.ops| <= 320
    ensures |h.Bits()| <= 14 + 57 + 14 * 320
  {
    OpsSize(h.clen, h.ops);
    FieldsSize(h.clen, h.numLens);
  }
}
