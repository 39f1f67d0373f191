/** The streams the decompressor accepts. They are those of RFC 1951, but the padding can be any bits,
    length 258 has two codings, the two reserved length symbols are empty matches, any zlib header for
    deflate will do, and in a table that is not complete any bits stand for symbol 0. */
module LooseFormat {
  import opened Bits
  import opened PrefixCode
  import opened DecodeTable
  import opened Tokens
  import Rle = CodeLengthRle
  import F = DeflateFormat
  import Adler = Adler32

  // ---------------------------------------------------------------- literals and matches

  /** One literal, or one match, with the bits it is read from. */
  datatype Item = Item(code: seq<bool>, sym: nat, lenBits: seq<bool>, distCode: seq<bool>, distSym: nat,
                       distBits: seq<bool>) {
    function Bits(): seq<bool> { code + (lenBits + (distCode + distBits)) }

    ghost predicate Valid(lit: seq<nat>, dist: seq<nat>) {
      Reads(lit, code, sym) && if sym < END_OF_BLOCK then lenBits == distCode == distBits == [] else IsMatch(dist)
    }

    ghost predicate IsMatch(dist: seq<nat>) {
      && END_OF_BLOCK < sym < 288 && |lenBits| == LENGTH_EXTRA[sym - 257]
      && Reads(dist, distCode, distSym) && distSym < 32 && |distBits| == DIST_EXTRA[distSym]
    }

    function Len(): nat
      requires END_OF_BLOCK < sym < 288
    {
      LENGTH_BASE[sym - 257] + Val(lenBits)
    }

    function Dist(): nat
      requires distSym < 32
    {
      DIST_BASE[distSym] + Val(distBits)
    }

    /** The item can follow the output `h`. */
    predicate Fits(h: seq<byte>) {
      sym >= END_OF_BLOCK ==> END_OF_BLOCK < sym < 288 && distSym < 32 && 1 <= Dist() <= |h|
    }

    function Step(h: seq<byte>): (r: seq<byte>)
      requires Fits(h)
    {
      if sym < END_OF_BLOCK then h + [sym] else Copy(h, Dist(), Len())
    }
  }

  function ItemsBits(items: seq<Item>): seq<bool> {
    if items == [] then [] else ItemsBits(items[..|items| - 1]) + items[|items| - 1].Bits()
  }

  predicate ItemsFit(h: seq<byte>, items: seq<Item>)
    decreases |items|, 0
  {
    items == [] ||
    (ItemsFit(h, items[..|items| - 1]) && items[|items| - 1].Fits(ItemsOut(h, items[..|items| - 1])))
  }

  /** The output after the items, when `h` was put out before. */
  function ItemsOut(h: seq<byte>, items: seq<Item>): seq<byte>
    requires ItemsFit(h, items)
    decreases |items|, 1
  {
    if items == [] then h else items[|items| - 1].Step(ItemsOut(h, items[..|items| - 1]))
  }

  ghost predicate ItemsValid(lit: seq<nat>, dist: seq<nat>, items: seq<Item>) {
    forall i :: 0 <= i < |items| ==> items[i].Valid(lit, dist)
  }

  lemma {:induction false} ItemsBitsHead(items: seq<Item>)
    requires items != []
    ensures ItemsBits(items) == items[0].Bits() + ItemsBits(items[1..])
    decreases |items|
  {
    hide *;
    var l := |items| - 1;
    LastItem(items);
    if l > 0 {
      ItemsBitsHead(items[..l]);
      LastItem(items[1..]);
      assert items[..l][1..] == items[1..][..l - 1];
    } else {
      assert items[..l] == [] && items[1..] == [];
      NoItems();
    }
  }

  lemma LastItem(items: seq<Item>)
    requires items != []
    ensures ItemsBits(items) == ItemsBits(items[..|items| - 1]) + items[|items| - 1].Bits()
  {
  }

  lemma NoItems()
    ensures ItemsBits([]) == []
  {
  }

  /** The items after the first one, on what it leads to. */
  lemma {:induction false} ItemsHead(h: seq<byte>, items: seq<Item>)
    requires items != []
    ensures ItemsFit(h, items) <==> items[0].Fits(h) && ItemsFit(items[0].Step(h), items[1..])
    ensures ItemsFit(h, items) ==> ItemsOut(items[0].Step(h), items[1..]) == ItemsOut(h, items)
    decreases |items|
  {
    hide *;
    var front := items[..|items| - 1];
    FitLast(h, items);
    if |items| > 1 {
      ItemsHead(h, front);
      assert front[1..] == items[1..][..|items| - 2];
      if items[0].Fits(h) { FitLast(items[0].Step(h), items[1..]); }
    } else {
      assert front == [] && items[1..] == [];
      NoneFit(h);
      if items[0].Fits(h) { NoneFit(items[0].Step(h)); }
    }
  }

  lemma FitLast(h: seq<byte>, items: seq<Item>)
    requires items != []
    ensures var front, it := items[..|items| - 1], items[|items| - 1];
      && (ItemsFit(h, items) <==> ItemsFit(h, front) && it.Fits(ItemsOut(h, front)))
      && (ItemsFit(h, items) ==> ItemsOut(h, items) == it.Step(ItemsOut(h, front)))
  {
    hide Item.Fits, Item.Step;
  }

  lemma NoneFit(h: seq<byte>)
    ensures ItemsFit(h, []) && ItemsOut(h, []) == h
  {
  }

  lemma {:induction false} ItemsGrow(h: seq<byte>, items: seq<Item>)
    requires ItemsFit(h, items)
    ensures h <= ItemsOut(h, items)
    decreases |items|
  {
    if items != [] { ItemsGrow(h, items[..|items| - 1]); }
  }

  /** The bits are the symbol's word in the code. */
  predicate IsWord(sizes: seq<nat>, code: seq<bool>, sym: nat) { Used(sizes, sym) && code == Word(sizes, sym) }

  ghost predicate ItemInWords(lit: seq<nat>, dist: seq<nat>, it: Item) {
    && it.Valid(lit, dist) && IsWord(lit, it.code, it.sym)
    && (it.sym >= END_OF_BLOCK ==> IsWord(dist, it.distCode, it.distSym))
  }

  ghost predicate ItemsInWords(lit: seq<nat>, dist: seq<nat>, items: seq<Item>) {
    forall i :: 0 <= i < |items| ==> ItemInWords(lit, dist, items[i])
  }

  /** Items read so far: from the bits `rest`, after the output `h`. */
  datatype Trace = Trace(rest: seq<bool>, h: seq<byte>, items: seq<Item>)

  /** The items of the trace and then `code` have been read, `rest` is left, and the output is `all`. */
  ghost predicate Traced(g: Trace, lit: seq<nat>, dist: seq<nat>, code: seq<bool>, rest: seq<bool>, all: seq<byte>) {
    && ItemsValid(lit, dist, g.items) && ItemsFit(g.h, g.items) && ItemsOut(g.h, g.items) == all
    && g.rest == ItemsBits(g.items) + (code + rest)
  }

  lemma StartTrace(lit: seq<nat>, dist: seq<nat>, rest: seq<bool>, all: seq<byte>)
    ensures Traced(Trace(rest, all, []), lit, dist, [], rest, all)
  {
    assert ItemsBits([]) + ([] + rest) == rest;
  }

  lemma TraceCode(g: Trace, lit: seq<nat>, dist: seq<nat>, code: seq<bool>, rest: seq<bool>, all: seq<byte>)
    requires Traced(g, lit, dist, [], code + rest, all)
    ensures Traced(g, lit, dist, code, rest, all)
  {
    assert [] + (code + rest) == code + rest;
  }

  lemma TraceItem(g: Trace, lit: seq<nat>, dist: seq<nat>, it: Item, rest: seq<bool>, all: seq<byte>)
    requires Traced(g, lit, dist, it.code, it.lenBits + (it.distCode + it.distBits) + rest, all)
    requires it.Valid(lit, dist) && it.Fits(all)
    ensures Traced(Trace(g.rest, g.h, g.items + [it]), lit, dist, [], rest, it.Step(all))
  {
    hide Item.Valid, Item.Fits, Item.Step;
    var items := g.items + [it];
    assert items[..|items| - 1] == g.items;
    var a, b, c := it.code, it.lenBits + (it.distCode + it.distBits), ItemsBits(g.items);
    assert it.Bits() == a + b;
    assert c + (a + (b + rest)) == c + (a + b) + ([] + rest);
  }

  // ---------------------------------------------------------------- headers of dynamic blocks

  function OpsBits(codes: seq<seq<bool>>, ops: seq<Rle.Op>): seq<bool>
    requires |codes| == |ops| && Rle.AllValid(ops)
  {
    if ops == [] then [] else
      var l := |ops| - 1;
      OpsBits(codes[..l], ops[..l]) + (codes[l] + BitsOf(ops[l].Extra(), ops[l].Width()))
  }

  ghost predicate OpsRead(clen: seq<nat>, codes: seq<seq<bool>>, ops: seq<Rle.Op>) {
    && Rle.AllValid(ops) && |codes| == |ops|
    && forall i :: 0 <= i < |ops| ==> Reads(clen, codes[i], ops[i].Sym())
  }

  /** The items read so far, the sizes they stand for, and the bits they were read from. */
  ghost predicate Unpacked(clen: seq<nat>, codes: seq<seq<bool>>, ops: seq<Rle.Op>, sizes: seq<nat>, rest0: seq<bool>,
                           rest: seq<bool>) {
    && OpsRead(clen, codes, ops) && Rle.Meaningful(ops) && Rle.Unpack(ops) == sizes
    && rest0 == OpsBits(codes, ops) + rest
  }

  lemma StartUnpacked(clen: seq<nat>, rest: seq<bool>)
    ensures Unpacked(clen, [], [], [], rest, rest)
  {
  }

  lemma UnpackedOne(clen: seq<nat>, codes: seq<seq<bool>>, ops: seq<Rle.Op>, sizes: seq<nat>, rest0: seq<bool>,
                    rest: seq<bool>, code: seq<bool>, op: Rle.Op)
    requires op.Valid() && Reads(clen, code, op.Sym()) && (op.Repeat? ==> sizes != [])
    requires Unpacked(clen, codes, ops, sizes, rest0, code + (BitsOf(op.Extra(), op.Width()) + rest))
    ensures Unpacked(clen, codes + [code], ops + [op], Rle.Apply(sizes, op), rest0, rest)
  {
    var l := |ops|;
    assert (ops + [op])[..l] == ops && (codes + [code])[..l] == codes;
    hide Reads, Rle.Apply, BitsOf;
    var item := code + BitsOf(op.Extra(), op.Width());
    assert OpsBits(codes, ops) + (code + (BitsOf(op.Extra(), op.Width()) + rest)) == OpsBits(codes, ops) + item + rest;
  }

  predicate AllWords(clen: seq<nat>, codes: seq<seq<bool>>, ops: seq<Rle.Op>) {
    Rle.AllValid(ops) && |codes| == |ops| && forall i :: 0 <= i < |ops| ==> IsWord(clen, codes[i], ops[i].Sym())
  }

  datatype Header = Header(lit: seq<nat>, dist: seq<nat>, clen: seq<nat>, numLens: nat, codes: seq<seq<bool>>,
                           ops: seq<Rle.Op>) {
    ghost predicate Valid() {
      WellFormed() && Accepted(lit) && Accepted(dist)
    }

    ghost predicate WellFormed() {
      && 257 <= |lit| <= 288 && 1 <= |dist| <= 32 && F.FieldsFit(clen, numLens) && Accepted(clen)
      && Rle.Meaningful(ops) && Rle.Unpack(ops) == lit + dist && OpsRead(clen, codes, ops)
    }

    ghost function Bits(): seq<bool>
      requires WellFormed()
    {
      BitsOf(|lit| - 257, 5) + (BitsOf(|dist| - 1, 5) + (BitsOf(numLens - 4, 4) +
      (F.LenFields(clen, numLens) + OpsBits(codes, ops))))
    }
  }

  // ---------------------------------------------------------------- blocks

  datatype Body =
    | Stored(pad: seq<bool>, data: seq<byte>)
    | Fixed(items: seq<Item>, end: seq<bool>)
    | Dynamic(header: Header, items: seq<Item>, end: seq<bool>)
  {
    function Lit(): seq<nat>
      requires !Stored?
    {
      if Fixed? then F.FixedLit() else header.lit
    }

    function Dist(): seq<nat>
      requires !Stored?
    {
      if Fixed? then F.FixedDist() else header.dist
    }

    function Kind(): nat { if Stored? then 0 else if Fixed? then 1 else 2 }

    /** The body is well-formed, when it starts at bit `pos` of the stream. */
    ghost predicate Valid(pos: nat) {
      if Stored? then |pad| == F.Pad(pos) && |data| <= F.MAX_STORED
      else (Dynamic? ==> header.Valid()) && ItemsValid(Lit(), Dist(), items) && Reads(Lit(), end, END_OF_BLOCK)
    }

    ghost function Bits(pos: nat): seq<bool>
      requires Valid(pos)
    {
      match this
      case Stored(pad, data) => pad + (BitsOf(|data|, 16) + (BitsOf(F.MAX_STORED - |data|, 16) + BytesBits(data)))
      case Fixed(items, end) => ItemsBits(items) + end
      case Dynamic(header, items, end) => header.Bits() + (ItemsBits(items) + end)
    }

    predicate Fits(h: seq<byte>) {
      !Stored? ==> ItemsFit(h, items)
    }

    function Output(h: seq<byte>): seq<byte>
      requires Fits(h)
    {
      if Stored? then h + data else ItemsOut(h, items)
    }

    /** All symbols are given by their words. */
    ghost predicate InWords() {
      !Stored? ==>
        && (Dynamic? ==> AllWords(header.clen, header.codes, header.ops))
        && ItemsInWords(Lit(), Dist(), items) && IsWord(Lit(), end, END_OF_BLOCK)
    }
  }

  datatype Block = Block(final: bool, body: Body)

  /** The bits of a block that starts at bit `pos`: final bit, type, body. */
  ghost function BlockBits(pos: nat, b: Block): seq<bool>
    requires b.body.Valid(pos + 3)
  {
    BitsOf(B2N(b.final) + 2 * b.body.Kind(), 3) + b.body.Bits(pos + 3)
  }

  /** Only a table that is not complete leaves bits that are no symbol's word. */
  lemma CompleteInWords(b: Body, pos: nat)
    requires b.Valid(pos)
    requires b.Dynamic? ==> Complete(b.header.lit) && Complete(b.header.dist) && Complete(b.header.clen)
    ensures b.InWords()
  {
    F.FixedComplete();
    hide Complete, Word, F.FixedLit, F.FixedDist, Rle.Unpack, Rle.Meaningful, Accepted, F.FieldsFit;
  }

  // ---------------------------------------------------------------- streams

  ghost predicate ValidStream(bs: seq<Block>)
    decreases |bs|, 0
  {
    bs == [] || (
      var front, last := bs[..|bs| - 1], bs[|bs| - 1];
      ValidStream(front) && last.body.Valid(|StreamBits(front)| + 3) && last.body.Fits(Output(front)))
  }

  ghost function StreamBits(bs: seq<Block>): seq<bool>
    requires ValidStream(bs)
    decreases |bs|, 1
  {
    hide Body.Valid, Body.Fits, Body.Output;
    if bs == [] then [] else
      var front := StreamBits(bs[..|bs| - 1]);
      front + BlockBits(|front|, bs[|bs| - 1])
  }

  ghost function Output(bs: seq<Block>): seq<byte>
    requires ValidStream(bs)
    decreases |bs|, 1
  {
    if bs == [] then [] else bs[|bs| - 1].body.Output(Output(bs[..|bs| - 1]))
  }

  lemma StreamOne(bs: seq<Block>, b: Block)
    requires ValidStream(bs) && b.body.Valid(|StreamBits(bs)| + 3) && b.body.Fits(Output(bs))
    ensures ValidStream(bs + [b]) && Output(bs + [b]) == b.body.Output(Output(bs))
    ensures StreamBits(bs + [b]) == StreamBits(bs) + BlockBits(|StreamBits(bs)|, b)
  {
    assert (bs + [b])[..|bs|] == bs;
    hide Body.Valid, Body.Fits, Body.Output, BlockBits;
  }

  lemma {:induction false} StreamPrefix(bs: seq<Block>, k: nat)
    requires ValidStream(bs) && k <= |bs|
    ensures ValidStream(bs[..k]) && StreamBits(bs[..k]) <= StreamBits(bs) && Output(bs[..k]) <= Output(bs)
    decreases |bs|
  {
    if k < |bs| {
      var front, b := bs[..|bs| - 1], bs[|bs| - 1];
      StreamPrefix(front, k);
      assert front[..k] == bs[..k];
      BodyGrows(b.body, Output(front));
      hide Body.Valid, Body.Fits, Body.Output, BlockBits;
    } else {
      assert bs[..k] == bs;
    }
  }

  lemma BodyGrows(b: Body, h: seq<byte>)
    requires b.Fits(h)
    ensures h <= b.Output(h)
  {
    if !b.Stored? { ItemsGrow(h, b.items); }
  }

  /** The stream around block `k`. */
  lemma StreamStep(bs: seq<Block>, k: nat)
    requires ValidStream(bs) && k < |bs|
    ensures ValidStream(bs[..k + 1]) && StreamBits(bs[..k + 1]) <= StreamBits(bs) && Output(bs[..k + 1]) <= Output(bs)
    ensures var front, b := bs[..k], bs[k];
      && ValidStream(front) && b.body.Valid(|StreamBits(front)| + 3) && b.body.Fits(Output(front))
      && StreamBits(bs[..k + 1]) == StreamBits(front) + BlockBits(|StreamBits(front)|, b)
      && Output(bs[..k + 1]) == b.body.Output(Output(front))
  {
    hide *;
    StreamPrefix(bs, k + 1);
    assert bs[..k + 1][..k] == bs[..k];
    LastBlock(bs[..k + 1]);
  }

  lemma LastBlock(bs: seq<Block>)
    requires ValidStream(bs) && bs != []
    ensures var front, b := bs[..|bs| - 1], bs[|bs| - 1];
      && ValidStream(front) && b.body.Valid(|StreamBits(front)| + 3) && b.body.Fits(Output(front))
      && StreamBits(bs) == StreamBits(front) + BlockBits(|StreamBits(front)|, b)
      && Output(bs) == b.body.Output(Output(front))
  {
    hide Body.Valid, Body.Fits, Body.Output, BlockBits;
  }

  /** Exactly the last block is final. */
  predicate Terminated(bs: seq<Block>) {
    bs != [] && forall i :: 0 <= i < |bs| ==> (bs[i].final <==> i == |bs| - 1)
  }

  /** Header, blocks, padding, and checksum: the bits of a stream that means `out`. */
  ghost predicate StreamOf(bits: seq<bool>, zlib: bool, out: seq<byte>, head: seq<byte>, bs: seq<Block>,
                           pad: seq<bool>) {
    && ValidStream(bs) && Terminated(bs) && Output(bs) == out && |pad| == F.Pad(|StreamBits(bs)|)
    && (if zlib then |head| == 2 && F.GoodHeader(head[0], head[1]) else head == [])
    && Adler.Update(1, out) < 0x1_0000_0000
    && bits == BytesBits(head) + (StreamBits(bs) + (pad +
       (if zlib then BytesBits(F.BigEndian(Adler.Update(1, out))) else [])))
  }

  /** The bits are those of some stream that means `out`. */
  ghost predicate Means(bits: seq<bool>, zlib: bool, out: seq<byte>) {
    exists head, bs, pad :: StreamOf(bits, zlib, out, head, bs, pad)
  }

  ghost predicate InWords(bs: seq<Block>) { forall i :: 0 <= i < |bs| ==> bs[i].body.InWords() }

  /** What a stream consists of: the zlib header, blocks, padding, and the checksum at the end. */
  datatype Parts = Parts(head: seq<byte>, blocks: seq<Block>, pad: seq<bool>, sum: nat)

  /** The bits consist of these parts, and all symbols in them are given by their words. */
  ghost predicate Formed(bits: seq<bool>, zlib: bool, parts: Parts) {
    && ValidStream(parts.blocks) && InWords(parts.blocks) && Terminated(parts.blocks)
    && |parts.pad| == F.Pad(|StreamBits(parts.blocks)|) && parts.sum < 0x1_0000_0000
    && (if zlib then |parts.head| == 2 && F.GoodHeader(parts.head[0], parts.head[1]) else parts.head == [])
    && bits == BytesBits(parts.head) + (StreamBits(parts.blocks) + (parts.pad +
       (if zlib then BytesBits(F.BigEndian(parts.sum)) else [])))
  }

  /** The checksum is that of the output. */
  ghost predicate Right(zlib: bool, parts: Parts)
    requires ValidStream(parts.blocks)
  {
    zlib ==> parts.sum == Adler.Update(1, Output(parts.blocks))
  }

  /** Formed with the right checksum, they are a stream. */
  lemma FormedMeans(bits: seq<bool>, zlib: bool, parts: Parts)
    requires Formed(bits, zlib, parts) && Right(zlib, parts)
    ensures Means(bits, zlib, Output(parts.blocks))
  {
    hide ValidStream, InWords, Terminated, StreamBits, Output, BytesBits, F.BigEndian, F.GoodHeader;
    Adler.UpdateFits(1, Output(parts.blocks));
    hide Adler.Update;
    assert StreamOf(bits, zlib, Output(parts.blocks), parts.head, parts.blocks, parts.pad);
  }

  /** The window that the zlib header declares is at most 32 KiB, as RFC 1950 demands. */
  predicate SmallWindow(parts: Parts) { parts.head != [] ==> parts.head[0] < 0x80 }
}
