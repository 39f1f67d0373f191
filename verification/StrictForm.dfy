/** Where the accepted streams go beyond RFC 1951: an accepted stream without the oddities named here is
    the strict form of blocks with the same output. */
module StrictForm {
  import opened Bits
  import opened PrefixCode
  import opened DecodeTable
  import opened Tokens
  import F = DeflateFormat
  import L = LooseFormat
  import Rle = CodeLengthRle
  import Adler = Adler32

  // ---------------------------------------------------------------- the tables' intervals

  /** The distances of one symbol come before those of the next ones. */
  lemma {:induction false} DistsOrdered(j: nat, k: nat)
    requires j < k < 30
    ensures DIST_BASE[j] + Pow2(DIST_EXTRA[j]) <= DIST_BASE[k]
    decreases k
  {
    DistNext(k - 1);
    if j < k - 1 { DistsOrdered(j, k - 1); }
  }

  lemma DistNext(k: nat)
    requires k < 29
    ensures DIST_BASE[k] + Pow2(DIST_EXTRA[k]) <= DIST_BASE[k + 1]
  {
    Pow2Values();
    hide Pow2;
  }

  /** So do the lengths, but for length 258 as the last one of symbol 284. */
  lemma {:induction false} LengthsOrdered(j: nat, k: nat)
    requires j < k < 29
    ensures LENGTH_BASE[j] + Pow2(LENGTH_EXTRA[j]) <= LENGTH_BASE[k] + if j == 27 then 1 else 0
    decreases k
  {
    LengthNext(k - 1);
    if j < k - 1 { LengthsOrdered(j, k - 1); }
  }

  lemma LengthNext(k: nat)
    requires k < 28
    ensures LENGTH_BASE[k] + Pow2(LENGTH_EXTRA[k]) <= LENGTH_BASE[k + 1] + if k == 27 then 1 else 0
  {
    Pow2Values();
    hide Pow2;
  }

  lemma LowBitsLess(x: nat, n: nat)
    ensures LowBits(x, n) < Pow2(n)
  {
    SplitBits(x, n, n);
  }

  /** The symbol and the extra bits of a distance can be told from it. */
  lemma DistCoded(k: nat, x: nat)
    requires k < 30 && x < Pow2(DIST_EXTRA[k])
    ensures 1 <= DIST_BASE[k] + x <= LZ_DICT_SIZE
    ensures var d := DIST_BASE[k] + x - 1;
      DistSym(d) == k && DistExtra(d) == DIST_EXTRA[k] && LowBits(d, DistExtra(d)) == x
  {
    DistRange(k, x);
    var d := DIST_BASE[k] + x - 1;
    DistTablesAgree(d);
    LowBitsLess(d, DistExtra(d));
    hide DistSym, DistExtra, LowBits, Pow2, DIST_BASE, DIST_EXTRA;
    var j := DistSym(d);
    if j < k { DistsOrdered(j, k); }
    if k < j { DistsOrdered(k, j); }
  }

  lemma DistRange(k: nat, x: nat)
    requires k < 30 && x < Pow2(DIST_EXTRA[k])
    ensures 1 <= DIST_BASE[k] + x <= LZ_DICT_SIZE
  {
    Pow2Values();
    hide Pow2;
  }

  lemma LengthCoded(k: nat, x: nat)
    requires k < 29 && x < Pow2(LENGTH_EXTRA[k]) && !(k == 27 && x == 31)
    ensures 3 <= LENGTH_BASE[k] + x <= 258
    ensures var l := LENGTH_BASE[k] + x - 3;
      LenSym(l) == 257 + k && LenExtra(l) == LENGTH_EXTRA[k] && LowBits(l, LenExtra(l)) == x
  {
    LengthRange(k, x);
    var l := LENGTH_BASE[k] + x - 3;
    LengthTablesAgree(l);
    LowBitsLess(l, LenExtra(l));
    LastLength(l);
    hide LenSym, LenExtra, LowBits, Pow2, LENGTH_BASE, LENGTH_EXTRA;
    var j := LenSym(l) - 257;
    if j < k { LengthsOrdered(j, k); }
    if k < j { LengthsOrdered(k, j); }
  }

  lemma LengthRange(k: nat, x: nat)
    requires k < 29 && x < Pow2(LENGTH_EXTRA[k]) && !(k == 27 && x == 31)
    ensures 3 <= LENGTH_BASE[k] + x <= 258 && (k == 28 ==> LENGTH_BASE[k] + x == 258)
    ensures k == 27 ==> LENGTH_BASE[k] + x < 258
  {
    Pow2Values();
    hide Pow2;
  }

  lemma LastLength(l: byte)
    ensures LenSym(l) == 284 ==> l < 255
  {
  }

  // ---------------------------------------------------------------- literals and matches

  /** The item has words for codes, no reserved length symbol, and not the second coding of length 258. */
  predicate PlainItem(lit: seq<nat>, dist: seq<nat>, it: L.Item) {
    && L.IsWord(lit, it.code, it.sym)
    && (it.sym >= 256 ==>
        L.IsWord(dist, it.distCode, it.distSym) && it.sym < 286 && !(it.sym == 284 && Val(it.lenBits) == 31))
  }

  predicate PlainItems(lit: seq<nat>, dist: seq<nat>, items: seq<L.Item>) {
    forall i :: 0 <= i < |items| ==> PlainItem(lit, dist, items[i])
  }

  function TokenOf(it: L.Item, h: seq<byte>): (t: Token)
    requires it.Fits(h)
  {
    if it.sym < 256 then Lit(it.sym) else Match(it.Len(), it.Dist())
  }

  lemma ItemIsToken(lit: seq<nat>, dist: seq<nat>, it: L.Item, h: seq<byte>)
    requires it.Valid(lit, dist) && PlainItem(lit, dist, it) && it.Fits(h)
    ensures var t := TokenOf(it, h);
      && Codable(lit, dist, t) && it.Bits() == TokenBits(lit, dist, t) && CanFollow(h, t) && Step(h, t) == it.Step(h)
  {
    if it.sym >= 256 {
      MatchIsToken(lit, dist, it, h);
    } else {
      hide Word;
      assert it.Bits() == it.code;
    }
  }

  lemma MatchIsToken(lit: seq<nat>, dist: seq<nat>, it: L.Item, h: seq<byte>)
    requires it.sym >= 256 && it.Valid(lit, dist) && PlainItem(lit, dist, it) && it.Fits(h)
    ensures var t := TokenOf(it, h);
      && Codable(lit, dist, t) && it.Bits() == TokenBits(lit, dist, t) && CanFollow(h, t) && Step(h, t) == it.Step(h)
  {
    hide *;
    MatchParts(lit, dist, it, h);
    var k, m, x, y := it.sym - 257, it.distSym, Val(it.lenBits), Val(it.distBits);
    ValBound(it.lenBits);
    ValBound(it.distBits);
    BitsOfVal(it.lenBits);
    BitsOfVal(it.distBits);
    LengthCoded(k, x);
    DistCoded(m, y);
    MatchCoded(lit, dist, it, h);
  }

  lemma MatchParts(lit: seq<nat>, dist: seq<nat>, it: L.Item, h: seq<byte>)
    requires it.sym >= 256 && it.Valid(lit, dist) && PlainItem(lit, dist, it) && it.Fits(h)
    ensures 257 <= it.sym < 286 && it.distSym < 30 && !(it.sym == 284 && Val(it.lenBits) == 31)
    ensures |LENGTH_BASE| == |LENGTH_EXTRA| == 31 && |DIST_BASE| == |DIST_EXTRA| == 32
    ensures |it.lenBits| == LENGTH_EXTRA[it.sym - 257] && |it.distBits| == DIST_EXTRA[it.distSym]
    ensures it.Len() == LENGTH_BASE[it.sym - 257] + Val(it.lenBits)
    ensures it.Dist() == DIST_BASE[it.distSym] + Val(it.distBits) <= |h|
    ensures Used(lit, it.sym) && it.code == Word(lit, it.sym)
    ensures Used(dist, it.distSym) && it.distCode == Word(dist, it.distSym)
  {
    hide Word, Val, LENGTH_BASE, LENGTH_EXTRA, DIST_BASE, DIST_EXTRA, Reads;
    TableSizes();
    RealDistance(it, h);
  }

  lemma TableSizes()
    ensures |LENGTH_BASE| == |LENGTH_EXTRA| == 31 && |DIST_BASE| == |DIST_EXTRA| == 32
  {
  }

  lemma MatchCoded(lit: seq<nat>, dist: seq<nat>, it: L.Item, h: seq<byte>)
    requires it.sym >= 256 && it.Fits(h) && 3 <= it.Len() <= 258 && 1 <= it.Dist() <= LZ_DICT_SIZE
    requires LenSym(it.Len() - 3) == it.sym && DistSym(it.Dist() - 1) == it.distSym
    requires Used(lit, it.sym) && it.code == Word(lit, it.sym)
    requires Used(dist, it.distSym) && it.distCode == Word(dist, it.distSym)
    requires it.lenBits == BitsOf(LowBits(it.Len() - 3, LenExtra(it.Len() - 3)), LenExtra(it.Len() - 3))
    requires it.distBits == BitsOf(LowBits(it.Dist() - 1, DistExtra(it.Dist() - 1)), DistExtra(it.Dist() - 1))
    ensures var t := TokenOf(it, h);
      && Codable(lit, dist, t) && it.Bits() == TokenBits(lit, dist, t) && CanFollow(h, t) && Step(h, t) == it.Step(h)
  {
    hide Word, LenSym, LenExtra, DistSym, DistExtra, LowBits, BitsOf, L.Item.Len, L.Item.Dist;
    assert it.Bits() == it.code + it.lenBits + it.distCode + it.distBits;
  }

  /** The reserved distance symbols stand for distance 0, which does not fit. */
  lemma RealDistance(it: L.Item, h: seq<byte>)
    requires it.sym >= 256 && it.Fits(h) && it.distSym < 32 && |it.distBits| == DIST_EXTRA[it.distSym]
    ensures it.distSym < 30
  {
  }

  lemma {:induction false} ItemsAreTokens(lit: seq<nat>, dist: seq<nat>, items: seq<L.Item>, h: seq<byte>)
      returns (ts: seq<Token>)
    requires L.ItemsValid(lit, dist, items) && PlainItems(lit, dist, items) && L.ItemsFit(h, items)
    ensures AllCodable(lit, dist, ts) && TokensBits(lit, dist, ts) == L.ItemsBits(items)
    ensures AllFit(h, ts) && Expand(h, ts) == L.ItemsOut(h, items)
    decreases |items|
  {
    ts := [];
    if items != [] {
      var front, it := items[..|items| - 1], items[|items| - 1];
      var all := L.ItemsOut(h, front);
      ts := ItemsAreTokens(lit, dist, front, h);
      ItemIsToken(lit, dist, it, all);
      var t := TokenOf(it, all);
      hide Codable, TokenBits, CanFollow, Tokens.Step, L.Item.Valid, L.Item.Fits, L.Item.Step, L.Item.Bits, PlainItem;
      TokensBitsAppend(lit, dist, ts, t);
      ExpandOne(h, ts, t);
      ts := ts + [t];
    }
  }

  // ---------------------------------------------------------------- headers

  lemma {:induction false} OpsAreWords(clen: seq<nat>, codes: seq<seq<bool>>, ops: seq<Rle.Op>)
    requires L.AllWords(clen, codes, ops)
    ensures F.OpsCodable(clen, ops) && L.OpsRead(clen, codes, ops) && F.OpsBits(clen, ops) == L.OpsBits(codes, ops)
    decreases |ops|
  {
    if ops != [] {
      var l := |ops| - 1;
      OpsAreWords(clen, codes[..l], ops[..l]);
      assert L.IsWord(clen, codes[l], ops[l].Sym());
      hide Word, BitsOf;
    }
  }

  function HeaderOf(h: L.Header): F.Header { F.Header(h.lit, h.dist, h.clen, h.numLens, h.ops) }

  lemma HeaderIsStrict(h: L.Header)
    requires h.Valid() && L.AllWords(h.clen, h.codes, h.ops)
    ensures HeaderOf(h).Valid() && h.WellFormed() && HeaderOf(h).Bits() == h.Bits()
  {
    hide *;
    OpsAreWords(h.clen, h.codes, h.ops);
    HeaderIsValid(h);
    HeaderBits(h);
  }

  lemma HeaderIsValid(h: L.Header)
    requires h.Valid() && F.OpsCodable(h.clen, h.ops)
    ensures HeaderOf(h).Valid() && h.WellFormed()
  {
    hide Accepted, F.OpsCodable, Rle.Meaningful, Rle.Unpack, F.FieldsFit, L.OpsRead;
  }

  lemma HeaderBits(h: L.Header)
    requires HeaderOf(h).Valid() && h.WellFormed()
    requires F.OpsCodable(h.clen, h.ops) && L.OpsRead(h.clen, h.codes, h.ops)
    requires F.OpsBits(h.clen, h.ops) == L.OpsBits(h.codes, h.ops)
    ensures HeaderOf(h).Bits() == h.Bits()
  {
    hide Accepted, F.OpsBits, L.OpsBits, F.LenFields, F.OpsCodable, Rle.Meaningful, Rle.Unpack, BitsOf, L.AllWords,
      Reads;
    var a, b, c, d, e := BitsOf(|h.lit| - 257, 5), BitsOf(|h.dist| - 1, 5), BitsOf(h.numLens - 4, 4),
      F.LenFields(h.clen, h.numLens), F.OpsBits(h.clen, h.ops);
    assert a + b + c + d + e == a + (b + (c + (d + e)));
  }

  // ---------------------------------------------------------------- blocks

  /** The body has none of the oddities. */
  ghost predicate PlainBody(b: L.Body) {
    match b
    case Stored(pad, data) => forall i :: 0 <= i < |pad| ==> !pad[i]
    case Fixed(items, end) => PlainCoded(b.Lit(), b.Dist(), items, end)
    case Dynamic(h, items, end) => L.AllWords(h.clen, h.codes, h.ops) && PlainCoded(b.Lit(), b.Dist(), items, end)
  }

  ghost predicate PlainCoded(lit: seq<nat>, dist: seq<nat>, items: seq<L.Item>, end: seq<bool>) {
    PlainItems(lit, dist, items) && L.IsWord(lit, end, END_OF_BLOCK)
  }

  lemma ZerosAre(pad: seq<bool>)
    requires forall i :: 0 <= i < |pad| ==> !pad[i]
    ensures pad == Zeros(|pad|)
  {
  }

  lemma BodyIsStrict(b: L.Body, pos: nat, h: seq<byte>) returns (s: F.Body)
    requires b.Valid(pos + 2) && b.Fits(h) && PlainBody(b)
    ensures s.Valid() && s.Fits(h) && s.Output(h) == b.Output(h)
    ensures s.Bits(pos) == BitsOf(b.Kind(), 2) + b.Bits(pos + 2)
  {
    if b.Stored? {
      ZerosAre(b.pad);
      s := F.Stored(b.data);
      StoredIsStrict(b, pos);
    } else {
      var ts := ItemsAreTokens(b.Lit(), b.Dist(), b.items, h);
      if b.Dynamic? { HeaderIsStrict(b.header); }
      s := if b.Fixed? then F.Fixed(ts) else F.Dynamic(HeaderOf(b.header), ts);
      CodedIsStrict(b, s, pos, h);
    }
  }

  lemma StoredIsStrict(b: L.Body, pos: nat)
    requires b.Stored? && b.Valid(pos + 2) && b.pad == Zeros(|b.pad|)
    ensures F.Stored(b.data).Valid() && b.Kind() == 0
    ensures F.Stored(b.data).Bits(pos) == BitsOf(b.Kind(), 2) + b.Bits(pos + 2)
  {
    hide BitsOf, BytesBits, Zeros;
    var k, a, c, d, e := BitsOf(0, 2), b.pad, BitsOf(|b.data|, 16), BitsOf(F.MAX_STORED - |b.data|, 16),
      BytesBits(b.data);
    assert F.StoredBits(pos, b.data) == k + a + c + d + e;
    assert k + a + c + d + e == k + (a + (c + (d + e)));
  }

  lemma CodedIsStrict(b: L.Body, s: F.Body, pos: nat, h: seq<byte>)
    requires !b.Stored? && !s.Stored? && (b.Fixed? <==> s.Fixed?) && s.Lit() == b.Lit() && s.Dist() == b.Dist()
    requires b.Valid(pos + 2) && b.Fits(h) && PlainBody(b)
    requires AllCodable(s.Lit(), s.Dist(), s.ts) && TokensBits(s.Lit(), s.Dist(), s.ts) == L.ItemsBits(b.items)
    requires AllFit(h, s.ts) && Expand(h, s.ts) == L.ItemsOut(h, b.items)
    requires b.Dynamic? ==> s.header.Valid() && s.header.Bits() == b.header.Bits()
    ensures s.Valid() && s.Fits(h) && s.Output(h) == b.Output(h)
    ensures s.Bits(pos) == BitsOf(b.Kind(), 2) + b.Bits(pos + 2)
  {
    hide BitsOf, Word, TokensBits, L.ItemsBits, F.Header.Valid, F.Header.Bits, L.Header.Valid, L.Header.WellFormed,
      L.Header.Bits, AllCodable, L.ItemsValid, PlainItems, Expand, AllFit, L.ItemsOut, L.ItemsFit, F.FixedLit,
      F.FixedDist, L.AllWords, Reads;
    assert L.IsWord(b.Lit(), b.end, END_OF_BLOCK);
    var k, c, d := BitsOf(b.Kind(), 2), TokensBits(s.Lit(), s.Dist(), s.ts), b.end;
    if b.Fixed? {
      assert k + c + d == k + (c + d);
    } else {
      var e := s.header.Bits();
      assert k + e + c + d == k + (e + (c + d));
    }
  }

  lemma BlockIsStrict(b: L.Block, pos: nat, h: seq<byte>) returns (s: F.Block)
    requires b.body.Valid(pos + 3) && b.body.Fits(h) && PlainBody(b.body)
    ensures s.final == b.final && s.body.Valid() && s.body.Fits(h) && s.body.Output(h) == b.body.Output(h)
    ensures F.BlockBits(pos, s) == L.BlockBits(pos, b)
  {
    hide PlainBody, L.Body.Valid, L.Body.Bits, L.Body.Fits, L.Body.Output, F.Body.Valid, F.Body.Bits, F.Body.Fits,
      F.Body.Output;
    var body := BodyIsStrict(b.body, pos + 1, h);
    s := F.Block(b.final, body);
    ThreeBits(b.final, b.body.Kind());
    hide BitsOf;
    var x, y, z := [b.final], BitsOf(b.body.Kind(), 2), b.body.Bits(pos + 3);
    assert x + (y + z) == x + y + z;
  }

  lemma ThreeBits(final: bool, k: nat)
    requires k <= 2
    ensures BitsOf(B2N(final) + 2 * k, 3) == [final] + BitsOf(k, 2)
  {
  }

  // ---------------------------------------------------------------- streams

  ghost predicate PlainBlocks(bs: seq<L.Block>) { forall i :: 0 <= i < |bs| ==> PlainBody(bs[i].body) }

  lemma {:induction false} BlocksAreStrict(bs: seq<L.Block>) returns (ss: seq<F.Block>)
    requires L.ValidStream(bs) && PlainBlocks(bs)
    ensures F.ValidStream(ss) && F.Output(ss) == L.Output(bs) && F.StreamBits(ss) == L.StreamBits(bs)
    ensures |ss| == |bs| && forall i :: 0 <= i < |bs| ==> ss[i].final == bs[i].final
    decreases |bs|
  {
    hide *;
    ss := [];
    if bs != [] {
      var front, b := bs[..|bs| - 1], bs[|bs| - 1];
      LastBlock(bs);
      ss := BlocksAreStrict(front);
      var pos := |L.StreamBits(front)|;
      var s := BlockIsStrict(b, pos, L.Output(front));
      F.StreamOne(ss, s);
      ss := ss + [s];
    } else {
      NoBlocks();
    }
  }

  lemma NoBlocks()
    ensures F.ValidStream([]) && L.ValidStream([]) && F.Output([]) == L.Output([])
    ensures F.StreamBits([]) == L.StreamBits([])
  {
  }

  lemma LastBlock(bs: seq<L.Block>)
    requires L.ValidStream(bs) && PlainBlocks(bs) && bs != []
    ensures var front, b := bs[..|bs| - 1], bs[|bs| - 1];
      && L.ValidStream(front) && PlainBlocks(front) && PlainBody(b.body)
      && b.body.Valid(|L.StreamBits(front)| + 3) && b.body.Fits(L.Output(front))
      && L.StreamBits(bs) == L.StreamBits(front) + L.BlockBits(|L.StreamBits(front)|, b)
      && L.Output(bs) == b.body.Output(L.Output(front))
  {
    hide PlainBody, L.Body.Valid, L.Body.Fits, L.Body.Output, L.BlockBits;
  }

  /** What separates an accepted stream from a strict one. */
  ghost predicate Plain(zlib: bool, head: seq<byte>, bs: seq<L.Block>, pad: seq<bool>) {
    PlainBlocks(bs) && (forall i :: 0 <= i < |pad| ==> !pad[i]) && (zlib && head != [] ==> head[0] == 0x78)
  }

  /** An accepted stream with zero padding, words for all codes, no reserved length symbol, one coding of
      length 258, and the header byte of a 32 KiB window is the strict form of blocks with the same output. */
  lemma PlainIsStrict(bits: seq<bool>, zlib: bool, out: seq<byte>, head: seq<byte>, bs: seq<L.Block>, pad: seq<bool>)
      returns (flg: byte, ss: seq<F.Block>)
    requires L.StreamOf(bits, zlib, out, head, bs, pad) && Plain(zlib, head, bs, pad)
    ensures F.ValidStream(ss) && F.Terminated(ss) && F.Output(ss) == out && (zlib ==> F.GoodHeader(0x78, flg))
    ensures bits == F.Wrapped(zlib, flg, ss)
  {
    hide *;
    PlainParts(bits, zlib, out, head, bs, pad);
    ss := BlocksAreStrict(bs);
    ZerosAre(pad);
    flg := if zlib then head[1] else 0;
    HeadBytes(zlib, head, flg);
    StillTerminated(bs, ss);
    IsWrapped(zlib, flg, ss, pad);
    var c := if zlib then BytesBits(F.BigEndian(Adler.Update(1, out))) else [];
    assert BytesBits(head) + F.StreamBits(ss) + (pad + c) == BytesBits(head) + (F.StreamBits(ss) + (pad + c));
  }

  lemma PlainParts(bits: seq<bool>, zlib: bool, out: seq<byte>, head: seq<byte>, bs: seq<L.Block>, pad: seq<bool>)
    requires L.StreamOf(bits, zlib, out, head, bs, pad) && Plain(zlib, head, bs, pad)
    ensures L.ValidStream(bs) && L.Terminated(bs) && L.Output(bs) == out && |pad| == F.Pad(|L.StreamBits(bs)|)
    ensures PlainBlocks(bs) && (forall i :: 0 <= i < |pad| ==> !pad[i])
    ensures if zlib then |head| == 2 && head[0] == 0x78 && F.GoodHeader(0x78, head[1]) else head == []
    ensures Adler.Update(1, out) < 0x1_0000_0000
    ensures bits == BytesBits(head) + (L.StreamBits(bs) + (pad +
      (if zlib then BytesBits(F.BigEndian(Adler.Update(1, out))) else [])))
  {
    hide L.ValidStream, L.Terminated, L.Output, L.StreamBits, PlainBlocks, BytesBits, F.BigEndian, Adler.Update,
      F.GoodHeader;
  }

  lemma StillTerminated(bs: seq<L.Block>, ss: seq<F.Block>)
    requires L.Terminated(bs) && |ss| == |bs| && forall i :: 0 <= i < |bs| ==> ss[i].final == bs[i].final
    ensures F.Terminated(ss)
  {
  }

  lemma IsWrapped(zlib: bool, flg: byte, ss: seq<F.Block>, pad: seq<bool>)
    requires F.ValidStream(ss) && pad == Zeros(F.Pad(|F.StreamBits(ss)|))
    requires Adler.Update(1, F.Output(ss)) < 0x1_0000_0000
    ensures var head := if zlib then BytesBits([0x78, flg]) else [];
      F.Wrapped(zlib, flg, ss) == head + F.StreamBits(ss) + (pad +
        (if zlib then BytesBits(F.BigEndian(Adler.Update(1, F.Output(ss)))) else []))
  {
    hide BytesBits, F.StreamBits, F.ValidStream, F.Output, Adler.Update, F.BigEndian, Zeros;
    var head := if zlib then BytesBits([0x78, flg]) else [];
    SamePad(|head|, |F.StreamBits(ss)|);
  }

  lemma SamePad(a: nat, b: nat)
    requires a % 8 == 0
    ensures F.Pad(a + b) == F.Pad(b)
  {
    DivUnique(a + b, 8, a / 8 + b / 8, b % 8);
  }

  lemma HeadBytes(zlib: bool, head: seq<byte>, flg: byte)
    requires if zlib then |head| == 2 && head[0] == 0x78 && head[1] == flg else head == []
    ensures BytesBits(head) == (if zlib then BytesBits([0x78, flg]) else []) && |BytesBits(head)| % 8 == 0
  {
    if zlib { assert head == [0x78, flg]; }
  }

  // ---------------------------------------------------------------- strict streams among the accepted ones

  /** The token as an item. */
  function ItemOf(lit: seq<nat>, dist: seq<nat>, t: Token): L.Item
    requires Codable(lit, dist, t)
  {
    match t
    case Lit(b) => L.Item(Word(lit, b), b, [], [], 0, [])
    case Match(len, d) =>
      L.Item(Word(lit, LenSym(len - 3)), LenSym(len - 3),
             BitsOf(LowBits(len - 3, LenExtra(len - 3)), LenExtra(len - 3)),
             Word(dist, DistSym(d - 1)), DistSym(d - 1),
             BitsOf(LowBits(d - 1, DistExtra(d - 1)), DistExtra(d - 1)))
  }

  lemma TokenIsItem(lit: seq<nat>, dist: seq<nat>, t: Token)
    requires Codable(lit, dist, t)
    ensures var it := ItemOf(lit, dist, t);
      && L.ItemInWords(lit, dist, it) && it.Bits() == TokenBits(lit, dist, t)
      && forall h :: CanFollow(h, t) ==> it.Fits(h) && it.Step(h) == Step(h, t)
  {
    if t.Match? {
      MatchIsItem(lit, dist, t);
    } else {
      hide Word;
    }
  }

  lemma MatchIsItem(lit: seq<nat>, dist: seq<nat>, t: Token)
    requires t.Match? && Codable(lit, dist, t)
    ensures var it := ItemOf(lit, dist, t);
      && L.ItemInWords(lit, dist, it) && it.Bits() == TokenBits(lit, dist, t)
      && forall h :: CanFollow(h, t) ==> it.Fits(h) && it.Step(h) == Step(h, t)
  {
    hide *;
    TokenRange(lit, dist, t);
    LengthTablesAgree(t.len - 3);
    DistTablesAgree(t.dist - 1);
    LowBitsLess(t.len - 3, LenExtra(t.len - 3));
    LowBitsLess(t.dist - 1, DistExtra(t.dist - 1));
    ValOfBits(LowBits(t.len - 3, LenExtra(t.len - 3)), LenExtra(t.len - 3));
    ValOfBits(LowBits(t.dist - 1, DistExtra(t.dist - 1)), DistExtra(t.dist - 1));
    TableSizes();
    ItemCoded(lit, dist, t);
  }

  lemma TokenRange(lit: seq<nat>, dist: seq<nat>, t: Token)
    requires t.Match? && Codable(lit, dist, t)
    ensures 3 <= t.len <= 258 && 1 <= t.dist <= LZ_DICT_SIZE && MIN_MATCH_LEN == 3
    ensures var it := ItemOf(lit, dist, t);
      && it.lenBits == BitsOf(LowBits(t.len - 3, LenExtra(t.len - 3)), LenExtra(t.len - 3))
      && it.distBits == BitsOf(LowBits(t.dist - 1, DistExtra(t.dist - 1)), DistExtra(t.dist - 1))
  {
    hide BitsOf, LowBits, LenExtra, DistExtra, Word;
  }

  lemma ItemCoded(lit: seq<nat>, dist: seq<nat>, t: Token)
    requires t.Match? && Codable(lit, dist, t) && 3 <= t.len <= 258 && 1 <= t.dist <= LZ_DICT_SIZE
    requires |LENGTH_BASE| == |LENGTH_EXTRA| == 31 && |DIST_BASE| == |DIST_EXTRA| == 32
    requires 257 <= LenSym(t.len - 3) <= 285 && DistSym(t.dist - 1) < 30
    requires LENGTH_EXTRA[LenSym(t.len - 3) - 257] == LenExtra(t.len - 3)
    requires DIST_EXTRA[DistSym(t.dist - 1)] == DistExtra(t.dist - 1)
    requires LENGTH_BASE[LenSym(t.len - 3) - 257] + Val(ItemOf(lit, dist, t).lenBits) == t.len
    requires DIST_BASE[DistSym(t.dist - 1)] + Val(ItemOf(lit, dist, t).distBits) == t.dist
    ensures var it := ItemOf(lit, dist, t);
      && L.ItemInWords(lit, dist, it) && it.Bits() == TokenBits(lit, dist, t)
      && forall h :: CanFollow(h, t) ==> it.Fits(h) && it.Step(h) == Step(h, t)
  {
    hide Word, LenSym, LenExtra, DistSym, DistExtra, LowBits, BitsOf, Val, LENGTH_BASE, LENGTH_EXTRA, DIST_BASE,
      DIST_EXTRA;
    var it := ItemOf(lit, dist, t);
    assert it.Bits() == it.code + it.lenBits + it.distCode + it.distBits;
  }

  function ItemsOf(lit: seq<nat>, dist: seq<nat>, ts: seq<Token>): (items: seq<L.Item>)
    requires AllCodable(lit, dist, ts)
    ensures |items| == |ts|
  {
    if ts == [] then [] else [ItemOf(lit, dist, ts[0])] + ItemsOf(lit, dist, ts[1..])
  }

  lemma {:induction false} TokensAreItems(lit: seq<nat>, dist: seq<nat>, ts: seq<Token>)
    requires AllCodable(lit, dist, ts)
    ensures L.ItemsInWords(lit, dist, ItemsOf(lit, dist, ts))
    ensures L.ItemsBits(ItemsOf(lit, dist, ts)) == TokensBits(lit, dist, ts)
  {
    hide Codable, TokenBits, L.ItemInWords, L.Item.Bits, L.ItemsBits, ItemOf;
    if ts == [] {
      L.NoItems();
    } else {
      var items, more := ItemsOf(lit, dist, ts), ItemsOf(lit, dist, ts[1..]);
      TokenIsItem(lit, dist, ts[0]);
      TokensAreItems(lit, dist, ts[1..]);
      L.ItemsBitsHead(items);
      assert items[0] == ItemOf(lit, dist, ts[0]) && items[1..] == more;
    }
  }

  lemma {:induction false} TokensMean(lit: seq<nat>, dist: seq<nat>, ts: seq<Token>, h: seq<byte>)
    requires AllCodable(lit, dist, ts) && AllFit(h, ts)
    ensures L.ItemsFit(h, ItemsOf(lit, dist, ts)) && L.ItemsOut(h, ItemsOf(lit, dist, ts)) == Expand(h, ts)
    decreases |ts|
  {
    hide Codable, L.Item.Fits, L.Item.Step, ItemOf, CanFollow, Tokens.Step, L.ItemsFit, L.ItemsOut;
    if ts == [] {
      L.NoneFit(h);
    } else {
      var items, more := ItemsOf(lit, dist, ts), ItemsOf(lit, dist, ts[1..]);
      TokenIsItem(lit, dist, ts[0]);
      TokensMean(lit, dist, ts[1..], Step(h, ts[0]));
      assert items[0] == ItemOf(lit, dist, ts[0]) && items[1..] == more;
      L.ItemsHead(h, items);
    }
  }

  function CodesOf(clen: seq<nat>, ops: seq<Rle.Op>): (codes: seq<seq<bool>>)
    requires F.OpsCodable(clen, ops)
    ensures |codes| == |ops|
  {
    seq(|ops|, i requires 0 <= i < |ops| => Word(clen, ops[i].Sym()))
  }

  /** The body of a strict block, at bit `pos` behind its type. */
  function BodyOf(s: F.Body, pos: nat): L.Body
    requires s.Stored? || (AllCodable(s.Lit(), s.Dist(), s.ts) && Used(s.Lit(), END_OF_BLOCK))
    requires s.Dynamic? ==> F.OpsCodable(s.header.clen, s.header.ops)
  {
    match s
    case Stored(data) => L.Stored(Zeros(F.Pad(pos)), data)
    case Fixed(ts) => L.Fixed(ItemsOf(s.Lit(), s.Dist(), ts), Word(s.Lit(), END_OF_BLOCK))
    case Dynamic(h, ts) =>
      L.Dynamic(L.Header(h.lit, h.dist, h.clen, h.numLens, CodesOf(h.clen, h.ops), h.ops),
                ItemsOf(s.Lit(), s.Dist(), ts), Word(s.Lit(), END_OF_BLOCK))
  }

  lemma BodyIsLoose(s: F.Body, pos: nat)
    requires s.Valid()
    ensures s.Stored? || (AllCodable(s.Lit(), s.Dist(), s.ts) && Used(s.Lit(), END_OF_BLOCK))
    ensures s.Dynamic? ==> F.OpsCodable(s.header.clen, s.header.ops)
    ensures var b := BodyOf(s, pos + 2);
      && b.Valid(pos + 2) && b.InWords() && s.Bits(pos) == BitsOf(b.Kind(), 2) + b.Bits(pos + 2)
      && forall h :: s.Fits(h) ==> b.Fits(h) && b.Output(h) == s.Output(h)
  {
    if s.Stored? {
      var b := BodyOf(s, pos + 2);
      StoredIsStrict(b, pos);
    } else {
      CodedIsLoose(s, pos);
    }
  }

  lemma CodedIsLoose(s: F.Body, pos: nat)
    requires s.Valid() && !s.Stored?
    ensures AllCodable(s.Lit(), s.Dist(), s.ts) && Used(s.Lit(), END_OF_BLOCK)
    ensures s.Dynamic? ==> F.OpsCodable(s.header.clen, s.header.ops)
    ensures var b := BodyOf(s, pos + 2);
      && b.Valid(pos + 2) && b.InWords() && s.Bits(pos) == BitsOf(b.Kind(), 2) + b.Bits(pos + 2)
      && forall h :: s.Fits(h) ==> b.Fits(h) && b.Output(h) == s.Output(h)
  {
    hide Codable, Used, Word, BitsOf, TokensBits, F.FixedLit, F.FixedDist, ItemsOf, AllFit, Expand, L.ItemsFit,
      L.ItemsOut, L.ItemsBits, L.ItemInWords, F.Header.Bits, L.Header.Bits, L.Header.WellFormed, F.Header.Valid,
      CodesOf, L.AllWords, Reads;
    var lit, dist := s.Lit(), s.Dist();
    TokensAreItems(lit, dist, s.ts);
    if s.Dynamic? { HeaderIsLoose(s.header); }
    forall h | s.Fits(h)
      ensures L.ItemsFit(h, ItemsOf(lit, dist, s.ts)) && L.ItemsOut(h, ItemsOf(lit, dist, s.ts)) == s.Output(h)
    {
      TokensMean(lit, dist, s.ts, h);
    }
    var b := BodyOf(s, pos + 2);
    EndIsWord(lit);
    ItemsAreValid(lit, dist, b.items);
    var k, c, d := BitsOf(b.Kind(), 2), TokensBits(lit, dist, s.ts), b.end;
    if s.Fixed? {
      assert k + c + d == k + (c + d);
    } else {
      var e := s.header.Bits();
      assert k + e + c + d == k + (e + (c + d));
    }
  }

  lemma EndIsWord(lit: seq<nat>)
    requires Used(lit, END_OF_BLOCK)
    ensures L.IsWord(lit, Word(lit, END_OF_BLOCK), END_OF_BLOCK) && Reads(lit, Word(lit, END_OF_BLOCK), END_OF_BLOCK)
  {
    hide Word, Complete;
  }

  lemma ItemsAreValid(lit: seq<nat>, dist: seq<nat>, items: seq<L.Item>)
    requires L.ItemsInWords(lit, dist, items)
    ensures L.ItemsValid(lit, dist, items)
  {
    hide L.Item.Valid, L.IsWord;
  }

  lemma HeaderIsLoose(h: F.Header)
    requires h.Valid()
    ensures F.OpsCodable(h.clen, h.ops)
    ensures var g := L.Header(h.lit, h.dist, h.clen, h.numLens, CodesOf(h.clen, h.ops), h.ops);
      g.Valid() && g.WellFormed() && L.AllWords(g.clen, g.codes, g.ops) && g.Bits() == h.Bits()
  {
    hide Accepted, F.FieldsFit, Rle.Meaningful, Rle.Unpack, Word, Used, Complete, F.Header.Bits, L.Header.Bits;
    var g := L.Header(h.lit, h.dist, h.clen, h.numLens, CodesOf(h.clen, h.ops), h.ops);
    assert HeaderOf(g) == h;
    HeaderIsStrict(g);
  }

  /** The blocks of a strict stream as accepted ones. */
  ghost function Loosen(ss: seq<F.Block>): (bs: seq<L.Block>)
    requires F.ValidStream(ss)
    ensures |bs| == |ss|
  {
    if ss == [] then [] else
      var front, s := ss[..|ss| - 1], ss[|ss| - 1];
      var pos := |F.StreamBits(front)| + 3;
      BodyIsLoose(s.body, pos - 2);
      Loosen(front) + [L.Block(s.final, BodyOf(s.body, pos))]
  }

  lemma {:induction false} BlocksAreLoose(ss: seq<F.Block>)
    requires F.ValidStream(ss)
    ensures L.ValidStream(Loosen(ss)) && L.InWords(Loosen(ss))
    ensures L.StreamBits(Loosen(ss)) == F.StreamBits(ss) && L.Output(Loosen(ss)) == F.Output(ss)
    ensures forall i :: 0 <= i < |ss| ==> Loosen(ss)[i].final == ss[i].final
    decreases |ss|
  {
    hide *;
    if ss == [] {
      NoBlocks();
      NoneLoose();
    } else {
      var front, s := ss[..|ss| - 1], ss[|ss| - 1];
      StrictLast(ss);
      BlocksAreLoose(front);
      var b := BlockIsLoose(s, |F.StreamBits(front)|);
      LoosenLast(ss, b);
      L.StreamOne(Loosen(front), b);
      OneMoreInWords(Loosen(front), b);
    }
  }

  lemma NoneLoose()
    ensures F.ValidStream([]) && Loosen([]) == [] && L.InWords([])
  {
  }

  lemma OneMoreInWords(bs: seq<L.Block>, b: L.Block)
    requires L.InWords(bs) && b.body.InWords()
    ensures L.InWords(bs + [b])
  {
    hide L.Body.InWords;
  }

  lemma StrictLast(ss: seq<F.Block>)
    requires F.ValidStream(ss) && ss != []
    ensures var front, s := ss[..|ss| - 1], ss[|ss| - 1];
      && F.ValidStream(front) && s.body.Valid() && s.body.Fits(F.Output(front))
      && F.Output(ss) == s.body.Output(F.Output(front))
      && F.StreamBits(ss) == F.StreamBits(front) + F.BlockBits(|F.StreamBits(front)|, s)
  {
    hide F.Body.Valid, F.Body.Fits, F.Body.Output, F.BlockBits;
  }

  lemma LoosenLast(ss: seq<F.Block>, b: L.Block)
    requires F.ValidStream(ss) && ss != []
    requires var front, s := ss[..|ss| - 1], ss[|ss| - 1];
      F.ValidStream(front) && s.body.Valid() && LooseBlock(s, |F.StreamBits(front)|, b)
    ensures Loosen(ss) == Loosen(ss[..|ss| - 1]) + [b]
  {
    hide F.Body.Valid, F.Body.Fits, F.Body.Output, F.BlockBits, F.StreamBits, F.ValidStream, F.Output, BodyOf;
  }

  /** The block `s`, at bit `pos`, as an accepted one. */
  ghost predicate LooseBlock(s: F.Block, pos: nat, b: L.Block)
    requires s.body.Valid()
  {
    BodyIsLoose(s.body, pos + 1);
    b == L.Block(s.final, BodyOf(s.body, pos + 3))
  }

  lemma BlockIsLoose(s: F.Block, pos: nat) returns (b: L.Block)
    requires s.body.Valid()
    ensures LooseBlock(s, pos, b) && b.final == s.final && b.body.InWords() && b.body.Valid(pos + 3)
    ensures forall h :: s.body.Fits(h) ==> b.body.Fits(h) && b.body.Output(h) == s.body.Output(h)
    ensures F.BlockBits(pos, s) == L.BlockBits(pos, b)
  {
    hide L.Body.Valid, L.Body.Bits, L.Body.Fits, L.Body.Output, L.Body.InWords, F.Body.Valid, F.Body.Bits, F.Body.Fits,
      F.Body.Output, BodyOf, L.Body.Kind;
    BodyIsLoose(s.body, pos + 1);
    b := L.Block(s.final, BodyOf(s.body, pos + 3));
    KindSmall(b.body);
    ThreeBits(b.final, b.body.Kind());
    hide BitsOf;
    var x, y, z := [b.final], BitsOf(b.body.Kind(), 2), b.body.Bits(pos + 3);
    assert x + (y + z) == x + y + z;
  }

  lemma KindSmall(b: L.Body)
    ensures b.Kind() <= 2
  {
  }

  lemma {:induction false} LoosenFront(ss: seq<F.Block>, k: nat)
    requires F.ValidStream(ss) && k <= |ss|
    ensures F.ValidStream(ss[..k]) && Loosen(ss[..k]) == Loosen(ss)[..k]
    decreases |ss|
  {
    hide F.StreamBits, F.Output, BodyOf, F.Body.Valid, F.Body.Fits;
    if k < |ss| {
      LoosenFront(ss[..|ss| - 1], k);
      assert ss[..|ss| - 1][..k] == ss[..k];
    } else {
      assert ss[..k] == ss;
    }
  }

  /** The parts of a strict stream. */
  ghost function PartsOf(zlib: bool, flg: byte, ss: seq<F.Block>): L.Parts
    requires F.ValidStream(ss)
  {
    L.Parts(if zlib then [0x78, flg] else [], Loosen(ss), Zeros(F.Pad(|F.StreamBits(ss)|)),
            Adler.Update(1, F.Output(ss)))
  }

  /** A strict stream is an accepted one, with its symbols given by words. */
  lemma StrictIsFormed(zlib: bool, flg: byte, ss: seq<F.Block>)
    requires F.ValidStream(ss) && F.Terminated(ss) && (zlib ==> F.GoodHeader(0x78, flg))
    ensures L.Formed(F.Wrapped(zlib, flg, ss), zlib, PartsOf(zlib, flg, ss)) && L.SmallWindow(PartsOf(zlib, flg, ss))
    ensures L.ValidStream(Loosen(ss)) && L.Output(Loosen(ss)) == F.Output(ss) && L.Right(zlib, PartsOf(zlib, flg, ss))
  {
    hide *;
    BlocksAreLoose(ss);
    Adler.UpdateFits(1, F.Output(ss));
    var pad := Zeros(F.Pad(|F.StreamBits(ss)|));
    IsWrapped(zlib, flg, ss, pad);
    PadSize(F.Pad(|F.StreamBits(ss)|));
    LooseTerminated(ss, Loosen(ss));
    IsFormed(zlib, flg, ss, Loosen(ss), pad);
  }

  lemma PadSize(n: nat)
    ensures |Zeros(n)| == n
  {
  }

  lemma LooseTerminated(ss: seq<F.Block>, bs: seq<L.Block>)
    requires F.Terminated(ss) && |ss| == |bs| && forall i :: 0 <= i < |bs| ==> bs[i].final == ss[i].final
    ensures L.Terminated(bs)
  {
  }

  lemma IsFormed(zlib: bool, flg: byte, ss: seq<F.Block>, bs: seq<L.Block>, pad: seq<bool>)
    requires F.ValidStream(ss) && bs == Loosen(ss) && pad == Zeros(F.Pad(|F.StreamBits(ss)|))
    requires L.ValidStream(bs) && L.InWords(bs) && L.Terminated(bs) && (zlib ==> F.GoodHeader(0x78, flg))
    requires L.StreamBits(bs) == F.StreamBits(ss) && L.Output(bs) == F.Output(ss)
    requires |pad| == F.Pad(|F.StreamBits(ss)|) && Adler.Update(1, F.Output(ss)) < 0x1_0000_0000
    requires var head := if zlib then BytesBits([0x78, flg]) else [];
      F.Wrapped(zlib, flg, ss) == head + F.StreamBits(ss) + (pad +
        (if zlib then BytesBits(F.BigEndian(Adler.Update(1, F.Output(ss)))) else []))
    ensures L.Formed(F.Wrapped(zlib, flg, ss), zlib, PartsOf(zlib, flg, ss)) && L.SmallWindow(PartsOf(zlib, flg, ss))
    ensures L.Right(zlib, PartsOf(zlib, flg, ss))
  {
    NoHead();
    hide BytesBits, F.Wrapped, F.StreamBits, F.Output, F.ValidStream, L.StreamBits, L.ValidStream, L.Output, L.InWords,
      L.Terminated, Adler.Update, F.BigEndian, Zeros, Loosen, F.GoodHeader;
    var head: seq<byte> := if zlib then [0x78, flg] else [];
    var a, b, c := BytesBits(head), F.StreamBits(ss), pad;
    var d := if zlib then BytesBits(F.BigEndian(Adler.Update(1, F.Output(ss)))) else [];
    assert a + b + (c + d) == a + (b + (c + d));
  }

  lemma NoHead()
    ensures BytesBits([]) == []
  {
  }
}
