/** The deflate stream (RFC 1951): which bits a sequence of blocks is, and which bytes it stands for. */
module DeflateFormat {
  import opened Bits
  import opened PrefixCode
  import opened DecodeTable
  import opened Tokens
  import opened Rle = CodeLengthRle
  import Adler = Adler32

  const MAX_STORED: nat := 0xFFFF

  /** The order in which the sizes of the code-length code are sent. */
  const SWIZZLE: seq<nat> := [16, 17, 18, 0, 8, 7, 9, 6, 10, 5, 11, 4, 12, 3, 13, 2, 14, 1, 15]

  function Swizzle(i: nat): (s: nat)
    requires i < 19
    ensures s < 19
  {
    SWIZZLE[i]
  }

  /** The order by its rule (RFC 1951 section 3.2.7): the run-length symbols, 0, and then outwards from 8. */
  lemma SwizzleOrder(i: nat)
    requires i < 19
    ensures Swizzle(i) ==
      if i < 3 then 16 + i else if i == 3 then 0 else if i % 2 == 0 then 6 + i / 2 else 8 - (i - 3) / 2
  {
  }

  // ---------------------------------------------------------------- headers of dynamic blocks

  predicate OpsCodable(clen: seq<nat>, ops: seq<Op>) {
    Rle.AllValid(ops) && forall i :: 0 <= i < |ops| ==> Used(clen, ops[i].Sym())
  }

  function OpBits(clen: seq<nat>, op: Op): seq<bool>
    requires op.Valid() && Used(clen, op.Sym())
  {
    Word(clen, op.Sym()) + BitsOf(op.Extra(), op.Width())
  }

  function OpsBits(clen: seq<nat>, ops: seq<Op>): seq<bool>
    requires OpsCodable(clen, ops)
  {
    if ops == [] then [] else OpsBits(clen, ops[..|ops| - 1]) + OpBits(clen, ops[|ops| - 1])
  }

  /** The first `k` three-bit fields with sizes of the code-length code. */
  function LenFields(clen: seq<nat>, k: nat): seq<bool>
    requires |clen| == 19 && k <= 19
  {
    if k == 0 then [] else LenFields(clen, k - 1) + BitsOf(clen[Swizzle(k - 1)], 3)
  }

  /** The sizes of the code-length code fit their fields, and those that are not sent are 0. */
  predicate FieldsFit(clen: seq<nat>, n: nat) {
    && |clen| == 19 && 4 <= n <= 19
    && (forall i :: 0 <= i < 19 ==> clen[i] <= 7)
    && (forall i :: n <= i < 19 ==> clen[Swizzle(i)] == 0)
  }

  datatype Header = Header(lit: seq<nat>, dist: seq<nat>, clen: seq<nat>, numLens: nat, ops: seq<Op>) {
    ghost predicate Valid() {
      && 257 <= |lit| <= 288 && 1 <= |dist| <= 32 && FieldsFit(clen, numLens)
      && Accepted(lit) && Accepted(dist) && Accepted(clen)
      && Meaningful(ops) && Unpack(ops) == lit + dist && OpsCodable(clen, ops)
    }

    ghost function Bits(): seq<bool>
      requires Valid()
    {
      BitsOf(|lit| - 257, 5) + BitsOf(|dist| - 1, 5) + BitsOf(numLens - 4, 4) +
      LenFields(clen, numLens) + OpsBits(clen, ops)
    }
  }

  // ---------------------------------------------------------------- fixed codes

  function FixedLitSize(s: nat): nat {
    if s <= 143 then 8 else if s <= 255 then 9 else if s <= 279 then 7 else 8
  }

  function FixedLit(): (z: seq<nat>)
    ensures |z| == 288
  {
    seq(288, i requires 0 <= i => FixedLitSize(i))
  }

  function FixedDist(): (z: seq<nat>)
    ensures |z| == 32
  {
    seq(32, i => 5)
  }

  // ---------------------------------------------------------------- blocks

  datatype Body = Stored(data: seq<byte>) | Fixed(ts: seq<Token>) | Dynamic(header: Header, ts: seq<Token>) {
    function Lit(): seq<nat>
      requires !Stored?
    {
      if Fixed? then FixedLit() else header.lit
    }

    function Dist(): seq<nat>
      requires !Stored?
    {
      if Fixed? then FixedDist() else header.dist
    }

    ghost predicate Valid() {
      match this
      case Stored(data) => |data| <= MAX_STORED
      case Fixed(ts) => AllCodable(Lit(), Dist(), ts) && Used(Lit(), END_OF_BLOCK)
      case Dynamic(header, ts) => header.Valid() && AllCodable(Lit(), Dist(), ts) && Used(Lit(), END_OF_BLOCK)
    }

    /** The body's bits, when it starts at bit `pos` of the stream. */
    ghost function Bits(pos: nat): seq<bool>
      requires Valid()
    {
      match this
      case Stored(data) => StoredBits(pos, data)
      case Fixed(ts) => BitsOf(1, 2) + TokensBits(Lit(), Dist(), ts) + Word(Lit(), END_OF_BLOCK)
      case Dynamic(header, ts) =>
        BitsOf(2, 2) + header.Bits() + TokensBits(Lit(), Dist(), ts) + Word(Lit(), END_OF_BLOCK)
    }

    /** The body can follow the output `h`. */
    predicate Fits(h: seq<byte>) {
      !Stored? ==> AllFit(h, ts)
    }

    /** The output after the body, when `h` was put out before. */
    function Output(h: seq<byte>): (r: seq<byte>)
      requires Fits(h)
      ensures h <= r
    {
      if Stored? then h + data else Expand(h, ts)
    }
  }

  function Pad(pos: nat): (n: nat)
    ensures n < 8 && (pos + n) % 8 == 0
  {
    (8 - pos % 8) % 8
  }

  function StoredBits(pos: nat, data: seq<byte>): seq<bool>
    requires |data| <= MAX_STORED
  {
    BitsOf(0, 2) + Zeros(Pad(pos + 2)) + BitsOf(|data|, 16) + BitsOf(MAX_STORED - |data|, 16) + BytesBits(data)
  }

  datatype Block = Block(final: bool, body: Body)

  /** The bits of a block that starts at bit `pos` of the stream. */
  ghost function BlockBits(pos: nat, b: Block): seq<bool>
    requires b.body.Valid()
  {
    [b.final] + b.body.Bits(pos + 1)
  }

  // ---------------------------------------------------------------- streams

  /** A sequence of blocks that means something: references stay inside the output. */
  ghost predicate ValidStream(bs: seq<Block>)
    decreases |bs|, 0
  {
    bs == [] || (
      var front, last := bs[..|bs| - 1], bs[|bs| - 1];
      ValidStream(front) && last.body.Valid() && last.body.Fits(Output(front)))
  }

  ghost function Output(bs: seq<Block>): seq<byte>
    requires ValidStream(bs)
    decreases |bs|, 1
  {
    if bs == [] then [] else bs[|bs| - 1].body.Output(Output(bs[..|bs| - 1]))
  }

  ghost function StreamBits(bs: seq<Block>): seq<bool>
    requires ValidStream(bs)
  {
    if bs == [] then [] else
      var front := StreamBits(bs[..|bs| - 1]);
      front + BlockBits(|front|, bs[|bs| - 1])
  }

  lemma StreamOne(bs: seq<Block>, b: Block)
    requires ValidStream(bs) && b.body.Valid() && b.body.Fits(Output(bs))
    ensures ValidStream(bs + [b]) && Output(bs + [b]) == b.body.Output(Output(bs))
    ensures StreamBits(bs + [b]) == StreamBits(bs) + BlockBits(|StreamBits(bs)|, b)
  {
    assert (bs + [b])[..|bs|] == bs;
  }

  lemma {:induction false} StreamPrefix(bs: seq<Block>, k: nat)
    requires ValidStream(bs) && k <= |bs|
    ensures ValidStream(bs[..k]) && StreamBits(bs[..k]) <= StreamBits(bs) && Output(bs[..k]) <= Output(bs)
    decreases |bs|
  {
    if k < |bs| {
      StreamPrefix(bs[..|bs| - 1], k);
      assert bs[..|bs| - 1][..k] == bs[..k];
    } else {
      assert bs[..k] == bs;
    }
  }

  /** The stream around block `k`. */
  lemma StreamStep(bs: seq<Block>, k: nat)
    requires ValidStream(bs) && k < |bs|
    ensures ValidStream(bs[..k]) && ValidStream(bs[..k + 1]) && bs[k].body.Valid() && bs[k].body.Fits(Output(bs[..k]))
    ensures Output(bs[..k + 1]) == bs[k].body.Output(Output(bs[..k])) <= Output(bs)
    ensures StreamBits(bs[..k + 1]) == StreamBits(bs[..k]) + BlockBits(|StreamBits(bs[..k])|, bs[k]) <= StreamBits(bs)
  {
    StreamPrefix(bs, k + 1);
    assert bs[..k + 1][..k] == bs[..k];
  }

  // ---------------------------------------------------------------- zlib wrapper

  /** A zlib header the decompressor accepts (RFC 1950 section 2.2): deflate, no preset dictionary. */
  predicate GoodHeader(cmf: byte, flg: byte) {
    (cmf * 256 + flg) % 31 == 0 && (flg / 32) % 2 == 0 && cmf % 16 == 8
  }

  /** A 32-bit number, most significant byte first. */
  function BigEndian(a: nat): (b: seq<byte>)
    requires a < 0x1_0000_0000
    ensures |b| == 4
  {
    [a / 0x100_0000, a / 0x1_0000 % 256, a / 256 % 256, a % 256]
  }

  /** What follows the last block: padding, and the checksum of a zlib stream. */
  function Trailer(pos: nat, zlib: bool, adler: nat): seq<bool>
    requires adler < 0x1_0000_0000
  {
    Zeros(Pad(pos)) + (if zlib then BytesBits(BigEndian(adler)) else [])
  }

  /** The number of bits before the first block. */
  function HeadLength(zlib: bool): nat { if zlib then 16 else 0 }

  /** Exactly the last block is final. */
  predicate Terminated(bs: seq<Block>) {
    bs != [] && forall i :: 0 <= i < |bs| ==> (bs[i].final <==> i == |bs| - 1)
  }

  /** The bits of a complete stream: header, blocks, padding and checksum. */
  ghost function Wrapped(zlib: bool, flg: byte, bs: seq<Block>): seq<bool>
    requires ValidStream(bs)
  {
    var head := if zlib then BytesBits([0x78, flg]) else [];
    Adler.UpdateFits(1, Output(bs));
    head + StreamBits(bs) + Trailer(|head + StreamBits(bs)|, zlib, Adler.Update(1, Output(bs)))
  }

  // ---------------------------------------------------------------- the fixed tables are complete

  lemma {:induction false} FixedLitPos(k: nat)
    requires k <= 288
    ensures ValidSizes(FixedLit())
    ensures PosUpTo(FixedLit(), MAX_BITS + 1, 0, k) ==
      if k <= 144 then 128 * k
      else if k <= 256 then 18432 + 64 * (k - 144)
      else if k <= 280 then 25600 + 256 * (k - 256)
      else 31744 + 128 * (k - 280)
  {
    Pow2Values();
    if k > 0 { FixedLitPos(k - 1); }
  }

  lemma {:induction false} FixedDistPos(k: nat)
    requires k <= 32
    ensures ValidSizes(FixedDist())
    ensures PosUpTo(FixedDist(), MAX_BITS + 1, 0, k) == 1024 * k
  {
    Pow2Values();
    if k > 0 { FixedDistPos(k - 1); }
  }

  lemma FixedComplete()
    ensures Complete(FixedLit()) && Complete(FixedDist()) && Used(FixedLit(), END_OF_BLOCK)
    ensures forall ts :: (forall i :: 0 <= i < |ts| ==> ValidToken(ts[i])) ==> AllCodable(FixedLit(), FixedDist(), ts)
  {
    Pow2Values();
    FixedLitPos(288);
    FixedDistPos(32);
    hide Complete, ValidSizes, Pow2;
    forall t: Token | ValidToken(t) ensures Codable(FixedLit(), FixedDist(), t) { FixedCodable(t); }
  }

  lemma FixedCodable(t: Token)
    requires ValidToken(t)
    ensures Codable(FixedLit(), FixedDist(), t)
  {
    if t.Match? {
      LengthTablesAgree(t.len - 3);
      DistTablesAgree(t.dist - 1);
      hide LenSym, DistSym;
    }
  }

  /** How many of the first `k` fixed codes have 7, 8 and 9 bits. */
  lemma {:induction false} FixedCounts(l: nat, k: nat)
    requires k <= 288 && 1 <= l <= 9
    ensures Count(FixedLit(), l, k) ==
      if l == 7 then (if k <= 256 then 0 else if k <= 280 then k - 256 else 24)
      else if l == 8 then (if k <= 144 then k else if k <= 280 then 144 else k - 136)
      else if l == 9 then (if k <= 144 then 0 else if k <= 256 then k - 144 else 112)
      else 0
  {
    if k > 0 { FixedCounts(l, k - 1); }
  }

  lemma {:induction false} FixedFirst(l: nat)
    requires 1 <= l <= 9
    ensures FirstCode(FixedLit(), l) == if l <= 7 then 0 else if l == 8 then 48 else 400
  {
    if l > 1 {
      FixedFirst(l - 1);
      FixedCounts(l - 1, 288);
    }
  }

  /** The fixed codes as the table of RFC 1951 section 3.2.6 gives them. */
  lemma FixedWords(s: nat)
    requires s < 288
    ensures Used(FixedLit(), s)
    ensures s <= 143 ==> Word(FixedLit(), s) == MsbBits(0x30 + s, 8)
    ensures 144 <= s <= 255 ==> Word(FixedLit(), s) == MsbBits(0x190 + (s - 144), 9)
    ensures 256 <= s <= 279 ==> Word(FixedLit(), s) == MsbBits(s - 256, 7)
    ensures 280 <= s ==> Word(FixedLit(), s) == MsbBits(0xC0 + (s - 280), 8)
  {
    hide *;
    FixedSizes(s);
    var l := FixedLit()[s];
    FixedFirst(l);
    FixedCounts(l, s);
    WordIs(FixedLit(), s);
  }

  lemma FixedSizes(s: nat)
    requires s < 288
    ensures FixedLit()[s] == (if s <= 143 then 8 else if s <= 255 then 9 else if s <= 279 then 7 else 8)
    ensures Used(FixedLit(), s)
  {
  }

  lemma WordIs(z: seq<nat>, s: nat)
    requires Used(z, s)
    ensures s < |z| && Word(z, s) == MsbBits(FirstCode(z, z[s]) + Count(z, z[s], s), z[s])
  {
    hide MsbBits, FirstCode, Count;
  }

  lemma {:induction false} FixedDistCount(l: nat, k: nat)
    requires k <= 32
    ensures Count(FixedDist(), l, k) == if l == 5 then k else 0
  {
    if k > 0 { FixedDistCount(l, k - 1); }
  }

  lemma {:induction false} FixedDistFirst(l: nat)
    requires 1 <= l <= 5
    ensures FirstCode(FixedDist(), l) == 0
  {
    if l > 1 {
      FixedDistFirst(l - 1);
      FixedDistCount(l - 1, 32);
    }
  }

  lemma FixedDistWords(s: nat)
    requires s < 32
    ensures Used(FixedDist(), s) && Word(FixedDist(), s) == MsbBits(s, 5)
  {
    FixedDistFirst(5);
    FixedDistCount(5, s);
    hide FirstCode, Count, MsbBits;
  }

  // ---------------------------------------------------------------- unused symbols at the end

  predicate ZeroFrom(z: seq<nat>, n: nat) {
    n <= |z| && forall i :: n <= i < |z| ==> z[i] == 0
  }

  lemma {:induction false} CountFront(z: seq<nat>, n: nat, l: nat, k: nat)
    requires ZeroFrom(z, n) && l > 0 && k <= |z|
    ensures Count(z, l, k) == Count(z[..n], l, if k < n then k else n)
  {
    if k > 0 { CountFront(z, n, l, k - 1); }
  }

  lemma {:induction false} FirstCodeFront(z: seq<nat>, n: nat, l: nat)
    requires ZeroFrom(z, n)
    ensures FirstCode(z, l) == FirstCode(z[..n], l)
  {
    if l > 1 {
      FirstCodeFront(z, n, l - 1);
      CountFront(z, n, l - 1, |z|);
    }
  }

  lemma {:induction false} SumsFront(z: seq<nat>, n: nat, k: nat)
    requires ZeroFrom(z, n) && ValidSizes(z) && k <= |z|
    ensures PosUpTo(z, MAX_BITS + 1, 0, k) == PosUpTo(z[..n], MAX_BITS + 1, 0, if k < n then k else n)
    ensures CountUpTo(z, MAX_BITS, k) == CountUpTo(z[..n], MAX_BITS, if k < n then k else n)
  {
    if k > 0 { SumsFront(z, n, k - 1); }
  }

  /** Leaving out unused symbols at the end of a table changes no word. */
  lemma WordFront(z: seq<nat>, n: nat, s: nat)
    requires ZeroFrom(z, n)
    ensures Used(z, s) <==> Used(z[..n], s)
    ensures Used(z, s) ==> Word(z, s) == Word(z[..n], s)
  {
    if Used(z, s) {
      FirstCodeFront(z, n, z[s]);
      CountFront(z, n, z[s], s);
    }
  }

  lemma AcceptedFront(z: seq<nat>, n: nat)
    requires ZeroFrom(z, n) && Accepted(z)
    ensures Accepted(z[..n])
  {
    SumsFront(z, n, |z|);
  }

  lemma {:induction false} TokensFront(lit: seq<nat>, dist: seq<nat>, m: nat, n: nat, ts: seq<Token>)
    requires ZeroFrom(lit, m) && ZeroFrom(dist, n) && AllCodable(lit, dist, ts)
    ensures AllCodable(lit[..m], dist[..n], ts)
    ensures TokensBits(lit[..m], dist[..n], ts) == TokensBits(lit, dist, ts)
    decreases |ts|
  {
    hide ZeroFrom, Used, Word, LenSym, LenExtra, DistSym, DistExtra, LowBits, BitsOf;
    if ts != [] {
      TokenFront(lit, dist, m, n, ts[0]);
      TokensFront(lit, dist, m, n, ts[1..]);
      hide Codable, TokenBits;
      assert forall i :: 0 <= i < |ts| ==> ts[i] == if i == 0 then ts[0] else ts[1..][i - 1];
    }
  }

  lemma TokenFront(lit: seq<nat>, dist: seq<nat>, m: nat, n: nat, t: Token)
    requires ZeroFrom(lit, m) && ZeroFrom(dist, n) && Codable(lit, dist, t)
    ensures Codable(lit[..m], dist[..n], t) && TokenBits(lit[..m], dist[..n], t) == TokenBits(lit, dist, t)
  {
    hide ZeroFrom, Used, Word, LenSym, LenExtra, DistSym, DistExtra, LowBits, BitsOf;
    match t
    case Lit(b) => WordFront(lit, m, b);
    case Match(len, d) =>
      WordFront(lit, m, LenSym(len - 3));
      WordFront(dist, n, DistSym(d - 1));
  }
}
