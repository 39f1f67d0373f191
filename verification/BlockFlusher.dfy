/** Turning the buffered tokens into a block of the stream (`tdefl_flush_block`). */
module BlockFlusher {
  import opened Bits
  import opened PrefixCode
  import opened Tokens
  import opened LzCodeBuffer
  import opened BitWriter
  import opened HuffmanEncoder
  import opened TokenWriter
  import opened DeflateFormat
  import opened BlockHeader
  import opened BlockCost

  const OUT_BUF_SIZE: nat := 85196  // LZ_CODE_BUF_SIZE * 13 / 10
  const OUT_BUF_END: nat := 85180

  // ---------------------------------------------------------------- pieces of the stream

  lemma {:induction false} ZeroBits(n: nat)
    ensures BitsOf(0, n) == Zeros(n)
  {
    if n > 0 { ZeroBits(n - 1); }
  }

  /** Flipping all bits of a 16-bit number. */
  lemma {:induction false} XorOnes(x: nat, n: nat)
    requires x < Pow2(n)
    ensures BitXor(x, Pow2(n) - 1) == Pow2(n) - 1 - x
  {
    if n > 0 { XorOnes(x / 2, n - 1); }
  }

  /** Pads with zero bits to the next byte boundary. */
  method PutPadding(w: BitWriter)
    requires w.Valid()
    modifies w`pos, w`bitBuffer, w`bitsIn, w`sent, w.buf
    ensures w.Valid() && w.sent == old(w.sent) + Zeros(Pad(|old(w.sent)|)) && old(w.pos) <= w.pos && w.bitsIn == 0
  {
    hide *;
    PadSize(w);
    if w.bitsIn != 0 {
      ZeroBits(8 - w.bitsIn);
      w.PutBits(0, 8 - w.bitsIn);
    }
    BitsInNow(w);
  }

  lemma PadSize(w: BitWriter)
    requires w.Valid()
    ensures w.bitsIn < 8 && w.bitsIn == |w.sent| % 8
    ensures if w.bitsIn == 0 then Zeros(Pad(|w.sent|)) == [] else Pad(|w.sent|) == 8 - w.bitsIn
    ensures Pow2(8 - w.bitsIn) > 0
  {
  }

  lemma BitsInNow(w: BitWriter)
    requires w.Valid()
    ensures |w.sent| % 8 == 0 ==> w.bitsIn == 0
  {
  }

  /** Sends the two copies of the length of a stored block. */
  method PutLength(w: BitWriter, n: nat)
    requires w.Valid() && n <= MAX_STORED
    modifies w`pos, w`bitBuffer, w`bitsIn, w`sent, w.buf
    ensures w.Valid() && w.sent == old(w.sent) + BitsOf(n, 16) + BitsOf(MAX_STORED - n, 16) && old(w.pos) <= w.pos
  {
    Pow2Values();
    XorOnes(n, 16);
    hide BitsOf, Pow2, BitXor;
    w.PutBits(n, 16);
    w.PutBits(BitXor(n, 0xFFFF), 16);
  }

  /** Sends a stored block with the bytes of the dictionary that start at index `from`. */
  method PutStored(w: BitWriter, dict: array<byte>, from: nat, n: nat, ghost data: seq<byte>)
    requires w.Valid() && dict.Length >= LZ_DICT_SIZE && dict != w.buf && n == |data| <= MAX_STORED
    requires forall i :: 0 <= i < n ==> dict[(from + i) % LZ_DICT_SIZE] == data[i]
    modifies w`pos, w`bitBuffer, w`bitsIn, w`sent, w.buf
    ensures w.Valid() && w.sent == old(w.sent) + StoredBits(|old(w.sent)|, data) && old(w.pos) <= w.pos
  {
    hide *;
    StoredParts(|w.sent|, data);
    w.PutBits(0, 2);
    PutPadding(w);
    PutLength(w, n);
    PutBytes(w, dict, from, n, data);
  }

  lemma StoredParts(pos: nat, data: seq<byte>)
    requires |data| <= MAX_STORED
    ensures Pow2(2) > 0 && StoredBits(pos, data) ==
      BitsOf(0, 2) + Zeros(Pad(pos + 2)) + BitsOf(|data|, 16) + BitsOf(MAX_STORED - |data|, 16) + BytesBits(data)
  {
  }

  lemma NoBytes()
    ensures BytesBits([]) == [] && Pow2(8) == 256 && LZ_DICT_SIZE == 32768
  {
    Pow2Values();
  }

  method PutBytes(w: BitWriter, dict: array<byte>, from: nat, n: nat, ghost data: seq<byte>)
    requires w.Valid() && dict.Length >= LZ_DICT_SIZE && dict != w.buf && n == |data|
    requires forall i :: 0 <= i < n ==> dict[(from + i) % LZ_DICT_SIZE] == data[i]
    modifies w`pos, w`bitBuffer, w`bitsIn, w`sent, w.buf
    ensures w.Valid() && w.sent == old(w.sent) + BytesBits(data) && old(w.pos) <= w.pos
  {
    hide *;
    ghost var start := w.sent;
    NoBytes();
    assert data[..0] == [] && start + [] == start;
    for i := 0 to n
      invariant w.Valid() && old(w.pos) <= w.pos && w.sent == start + BytesBits(data[..i])
      invariant forall i :: 0 <= i < n ==> dict[(from + i) % 32768] == data[i]
    {
      assert data[..i + 1] == data[..i] + [data[i]];
      BytesBitsAppend(data[..i], [data[i]]);
      BytesBitsOne(data[i]);
      w.PutBits(dict[(from + i) % 32768], 8);
    }
    assert data[..n] == data;
  }

  // ---------------------------------------------------------------- compressed blocks

  /** A compressed form of the tokens, static or dynamic. */
  ghost predicate Coding(isStatic: bool, ts: seq<Token>, body: Body) {
    && body.Valid() && |body.Bits(0)| <= MAX_CODED
    && (if isStatic then body == Fixed(ts) else body.Dynamic? && body.ts == ts && MadeFor(body.header, ts))
  }

  lemma IsCoding(isStatic: bool, ts: seq<Token>, body: Body)
    requires body.Valid() && |body.Bits(0)| <= MAX_CODED && !body.Stored? && body.ts == ts
    requires (body.Fixed? <==> isStatic)
    requires !isStatic ==> MadeFor(body.header, ts)
    ensures Coding(isStatic, ts, body)
  {
    hide MadeFor;
  }

  /** Sends the tokens as a static or dynamic block. Near the beginning of the output buffer it always
      fits, so that the branch for a block that does not is never taken. */
  method CompressBlock(w: BitWriter, lz: LzCodeBuffer, lit: CodeTable, dist: CodeTable, len: CodeTable, isStatic: bool,
                       ghost ts: seq<Token>)
      returns (fits: bool, ghost body: Body)
    requires w.Valid() && AllSeparate(w, lit, dist, len) && w.buf != lz.buf && AllValid(ts)
    requires lz.codeEnd <= lz.buf.Length == LZ_CODE_BUF_SIZE && lz.buf[..lz.codeEnd] == Image(ts)
    requires !isStatic ==> CountArrays(w, lit, dist, lz.litCount, lz.distCount) && |ts| < 0xFFFF
    requires !isStatic ==> lz.litCount[..] == LitCounts(ts) && lz.distCount[..] == DistCounts(ts)
    modifies w`pos, w`bitBuffer, w`bitsIn, w`sent, w.buf, lz.litCount
    modifies lit.sizes, lit.codes, dist.sizes, dist.codes, len.sizes, len.codes
    ensures w.Valid() && fits == (w.pos < w.end) && old(w.pos) <= w.pos
    ensures body.Valid() && !body.Stored? && body.ts == ts && (body.Fixed? <==> isStatic)
    ensures Coding(isStatic, ts, body) && w.sent == old(w.sent) + body.Bits(0) && |body.Bits(0)| <= MAX_CODED
    ensures w.end == OUT_BUF_END && |old(w.sent)| <= 8 * |w.out| + 32 ==> fits
  {
    assert Tables(w, lit, dist);
    assert 32 + MAX_CODED < 8 * OUT_BUF_END;
    hide *;
    if isStatic {
      StaticSize(ts, lz.buf, lz.codeEnd);
      fits := CompressStatic(w, lz, lit, dist, ts);
      body := Fixed(ts);
      FixedBody(ts);
    } else {
      fits, body := CompressDynamic(w, lz, lit, dist, len, ts);
    }
    IsCoding(isStatic, ts, body);
    WithRoom(w);
  }

  lemma WithRoom(w: BitWriter)
    requires w.Valid()
    ensures w.pos < w.end <==> |w.sent| < 8 * (|w.out| + w.end)
  {
  }

  method CompressStatic(w: BitWriter, lz: LzCodeBuffer, lit: CodeTable, dist: CodeTable, ghost ts: seq<Token>)
      returns (fits: bool)
    requires w.Valid() && Tables(w, lit, dist) && w.buf != lz.buf && AllValid(ts)
    requires lz.codeEnd <= lz.buf.Length && lz.buf[..lz.codeEnd] == Image(ts)
    modifies w`pos, w`bitBuffer, w`bitsIn, w`sent, w.buf, lit.sizes, lit.codes, dist.sizes, dist.codes
    ensures w.Valid() && fits == (w.pos < w.end) && old(w.pos) <= w.pos
    ensures Fixed(ts).Valid() && w.sent == old(w.sent) + Fixed(ts).Bits(0)
  {
    hide *;
    FixedBody(ts);
    ghost var img := lz.buf[..lz.codeEnd];
    StartStatic(w, lit, dist);
    fits := CompressLzCodes(w, lz.buf, lz.codeEnd, lit, dist, ts);
  }

  method CompressDynamic(w: BitWriter, lz: LzCodeBuffer, lit: CodeTable, dist: CodeTable, len: CodeTable,
                         ghost ts: seq<Token>)
      returns (fits: bool, ghost body: Body)
    requires w.Valid() && AllSeparate(w, lit, dist, len) && w.buf != lz.buf && AllValid(ts)
    requires lz.codeEnd <= lz.buf.Length == LZ_CODE_BUF_SIZE && lz.buf[..lz.codeEnd] == Image(ts)
    requires CountArrays(w, lit, dist, lz.litCount, lz.distCount) && |ts| < 0xFFFF
    requires lz.litCount[..] == LitCounts(ts) && lz.distCount[..] == DistCounts(ts)
    modifies w`pos, w`bitBuffer, w`bitsIn, w`sent, w.buf, lz.litCount
    modifies lit.sizes, lit.codes, dist.sizes, dist.codes, len.sizes, len.codes
    ensures w.Valid() && fits == (w.pos < w.end) && old(w.pos) <= w.pos
    ensures body.Valid() && body.Dynamic? && body.ts == ts && w.sent == old(w.sent) + body.Bits(0)
    ensures |body.Bits(0)| <= MAX_CODED && MadeFor(body.header, ts)
  {
    hide *;
    ImageFits(ts, lz.buf, lz.codeEnd);
    ghost var h := StartDynamic(w, lit, dist, len, lz.litCount, lz.distCount, ts);
    body := Dynamic(h, ts);
    DynamicBody(h, lit.sizes[..], dist.sizes[..], ts);
    DynamicSize(h, lit.sizes[..], dist.sizes[..], ts);
    fits := CompressLzCodes(w, lz.buf, lz.codeEnd, lit, dist, ts);
  }

  /** No coded block is longer than this. */
  const MAX_CODED: nat := 650200

  lemma ImageFits(ts: seq<Token>, buf: array<byte>, codeEnd: nat)
    requires AllValid(ts) && codeEnd <= buf.Length == LZ_CODE_BUF_SIZE && buf[..codeEnd] == Image(ts)
    ensures |Image(ts)| <= LZ_CODE_BUF_SIZE
  {
  }

  lemma StaticSize(ts: seq<Token>, buf: array<byte>, codeEnd: nat)
    requires AllValid(ts) && codeEnd <= buf.Length == LZ_CODE_BUF_SIZE && buf[..codeEnd] == Image(ts)
    ensures Fixed(ts).Valid() && |Fixed(ts).Bits(0)| <= MAX_CODED
  {
    StaticFits(ts);
  }

  lemma DynamicSize(h: Header, lit: seq<nat>, dist: seq<nat>, ts: seq<Token>)
    requires AllValid(ts) && h.Valid() && AllCodable(lit, dist, ts) && Used(lit, END_OF_BLOCK)
    requires CheapTables(ts, lit, dist) && |h.ops| <= 320 && |Image(ts)| <= LZ_CODE_BUF_SIZE
    ensures |BitsOf(2, 2) + h.Bits() + TokensBits(lit, dist, ts) + Word(lit, END_OF_BLOCK)| <= MAX_CODED
  {
    assert MAX_CODED == 650200;
    hide *;
    CodedSize(ts, lit, dist);
    HeaderSize(h);
  }

  lemma DynamicBody(h: Header, lit: seq<nat>, dist: seq<nat>, ts: seq<Token>)
    requires h.Valid() && Sends(h, lit, dist) && AllCodable(lit, dist, ts) && Used(lit, END_OF_BLOCK)
    ensures Dynamic(h, ts).Valid()
    ensures Dynamic(h, ts).Bits(0) ==
      BitsOf(2, 2) + h.Bits() + TokensBits(lit, dist, ts) + Word(lit, END_OF_BLOCK)
  {
    hide Header.Valid, Header.Bits, Word, BitsOf, TokensBits;
    WordFront(lit, |h.lit|, END_OF_BLOCK);
    TokensFront(lit, dist, |h.lit|, |h.dist|, ts);
  }

  // ---------------------------------------------------------------- zlib header and trailer

  const NUM_PROBES: seq<nat> := [0, 1, 6, 32, 16, 32, 128, 256, 512, 768, 1500]

  /** The second header byte: the level in its two highest bits, and a check value. */
  function HeaderFlags(probes: nat): (flg: byte)
    ensures GoodHeader(0x78, flg)
    ensures flg / 64 == if probes <= 1 then 0 else if probes in {6, 16, 32} then 1 else if probes == 128 then 2 else 3
  {
    if probes <= 1 then 0x01 else if probes in {6, 16, 32} then 0x5E else if probes == 128 then 0x9C else 0xDA
  }

  /** Sends the header, with a level that is derived from the number of probes. */
  method PutZlibHeader(w: BitWriter, probes: nat)
    requires w.Valid()
    modifies w`pos, w`bitBuffer, w`bitsIn, w`sent, w.buf
    ensures w.Valid() && w.sent == old(w.sent) + BytesBits([0x78, HeaderFlags(probes)]) && old(w.pos) <= w.pos
  {
    hide *;
    var low := HeaderByte(probes);
    TwoBytes(0x78, low);
    w.PutBits(0x78, 8);
    w.PutBits(low, 8);
  }

  lemma TwoBytes(b: byte, c: byte)
    ensures BytesBits([b, c]) == BitsOf(b, 8) + BitsOf(c, 8) && Pow2(8) == 256
  {
    Pow2Values();
    assert [b, c] == [b] + [c];
    BytesBitsAppend([b], [c]);
    BytesBitsOne(b);
    BytesBitsOne(c);
  }

  method HeaderByte(probes: nat) returns (flg: byte)
    ensures flg == HeaderFlags(probes)
  {
    var i: nat := 0;
    while i < 11 && NUM_PROBES[i] != probes
      invariant i <= 11 && forall j :: 0 <= j < i ==> NUM_PROBES[j] != probes
    {
      i := i + 1;
    }
    LevelAt(i, probes);
    var level: nat := if i < 2 then 0 else if i < 6 then 1 else if i == 6 then 2 else 3;
    LevelHeader(level);
    hide HeaderFlags;
    var header := 0x7800 + 64 * level;
    header := header + (31 - header % 31);
    flg := header % 256;
  }

  lemma LevelAt(i: nat, probes: nat)
    requires i <= 11 && (i < 11 ==> NUM_PROBES[i] == probes) && forall j :: 0 <= j < i ==> NUM_PROBES[j] != probes
    ensures HeaderFlags(probes) == if i < 2 then 0x01 else if i < 6 then 0x5E else if i == 6 then 0x9C else 0xDA
  {
    assert NUM_PROBES[0] == 0 && NUM_PROBES[1] == 1 && NUM_PROBES[2] == 6 && NUM_PROBES[3] == 32;
    assert NUM_PROBES[4] == 16 && NUM_PROBES[6] == 128;
  }

  lemma LevelHeader(level: nat)
    requires level < 4
    ensures var h := 0x7800 + 64 * level;
      (h + (31 - h % 31)) % 256 ==
        if level == 0 then 0x01 else if level == 1 then 0x5E else if level == 2 then 0x9C else 0xDA
  {
    if level == 0 {} else if level == 1 {} else if level == 2 {} else {}
  }

  method PutAdler(w: BitWriter, adler: nat)
    requires w.Valid() && adler < 0x1_0000_0000
    modifies w`pos, w`bitBuffer, w`bitsIn, w`sent, w.buf
    ensures w.Valid() && w.sent == old(w.sent) + BytesBits(BigEndian(adler)) && old(w.pos) <= w.pos
  {
    hide *;
    var a: nat := adler;
    ghost var start, b := w.sent, BigEndian(adler);
    StartShift(adler);
    assert b[..0] == [] && start + [] == start;
    for i := 0 to 4
      invariant w.Valid() && old(w.pos) <= w.pos && w.sent == start + BytesBits(b[..i]) && a == Shifted(b, i)
    {
      assert b[..i + 1] == b[..i] + [b[i]];
      BytesBitsAppend(b[..i], [b[i]]);
      BytesBitsOne(b[i]);
      ShiftedStep(b, i);
      w.PutBits(a / 0x100_0000 % 256, 8);
      a := a * 256 % 0x1_0000_0000;
    }
    assert b[..4] == b;
  }

  lemma StartShift(a: nat)
    requires a < 0x1_0000_0000
    ensures a == Shifted(BigEndian(a), 0) && BytesBits([]) == [] && Pow2(8) == 256
  {
    Pow2Values();
    hide Pow2, BytesBits;
    var q1, r0 := DivMod(a, 256);
    var q2, r1 := DivMod(q1, 256);
    var q3, r2 := DivMod(q2, 256);
    DivUnique(a, 0x1_0000, q2, 256 * r1 + r0);
    DivUnique(a, 0x100_0000, q3, 0x1_0000 * r2 + 256 * r1 + r0);
  }

  /** The four bytes, without the first `i`, moved up. */
  function Shifted(b: seq<byte>, i: nat): nat
    requires |b| == 4 && i <= 4
  {
    0x100_0000 * At(b, i) + 0x1_0000 * At(b, i + 1) + 256 * At(b, i + 2) + At(b, i + 3)
  }

  function At(b: seq<byte>, k: nat): nat { if k < |b| then b[k] else 0 }

  lemma ShiftedStep(b: seq<byte>, i: nat)
    requires |b| == 4 && i < 4
    ensures Shifted(b, i) / 0x100_0000 % 256 == b[i]
    ensures Shifted(b, i) * 256 % 0x1_0000_0000 == Shifted(b, i + 1)
  {
    var rest := Shifted(b, i) - 0x100_0000 * At(b, i);
    DivUnique(Shifted(b, i), 0x100_0000, At(b, i), rest);
    DivUnique(Shifted(b, i) * 256, 0x1_0000_0000, At(b, i), rest * 256);
  }

  // ---------------------------------------------------------------- flushing

  datatype Flush = NoFlush | SyncFlush | FullFlush | Finish

  datatype Options = Options(
    zlib: bool, forceRaw: bool, forceStatic: bool, greedy: bool, rleMatches: bool, filter: bool, probes: nat)

  /** The bits of a block do not depend on where whole bytes before it come from. */
  lemma BlockAfterPrefix(pos: nat, k: nat, b: Block)
    requires b.body.Valid()
    ensures BlockBits(pos + 8 * k, b) == BlockBits(pos, b)
  {
    hide Body.Valid, TokensBits, BitsOf, Word, BytesBits, Zeros, Header.Bits, FixedLit, FixedDist;
    SamePad(pos + 3, k);
    assert Pad(pos + 8 * k + 1 + 2) == Pad(pos + 1 + 2);
  }

  lemma SamePad(pos: nat, k: nat)
    ensures Pad(pos + 8 * k) == Pad(pos)
  {
    DivUnique(pos + 8 * k, 8, pos / 8 + k, pos % 8);
  }

  lemma CompressedBits(body: Body, pos: nat)
    requires body.Valid() && !body.Stored?
    ensures body.Bits(pos) == body.Bits(0)
  {
  }

  ghost predicate NoneFinal(bs: seq<Block>) {
    forall i :: 0 <= i < |bs| ==> !bs[i].final
  }

  // ---------------------------------------------------------------- the form of a block

  /** How many whole bytes go out when `n` bits are sent after `pos` bits. */
  function WholeBytes(pos: nat, n: nat): nat { (pos + n) / 8 - pos / 8 }

  /** The form in which a block is sent: stored if that is asked for, or if the compressed form has nearly as many
      bytes as the data, and otherwise compressed; but stored only while the window still has the data. */
  ghost predicate Picked(o: Options, inWindow: bool, pos: nat, ts: seq<Token>, data: seq<byte>, body: Body) {
    if o.forceRaw && inWindow then body == Stored(data)
    else exists coded: Body :: Coding(AsStatic(o, data), ts, coded) && body == Shorter(coded, inWindow, pos, data)
  }

  /** Short blocks are not worth a table. */
  predicate AsStatic(o: Options, data: seq<byte>) { o.forceStatic || |data| < 48 }

  ghost function Shorter(coded: Body, inWindow: bool, pos: nat, data: seq<byte>): Body
    requires coded.Valid()
  {
    if inWindow && data != [] && WholeBytes(pos, |coded.Bits(0)|) + 1 >= |data| then Stored(data) else coded
  }

  /** A compressed form that does not fit into the output buffer. */
  ghost predicate Overlong(body: Body) { body.Valid() && |body.Bits(0)| > MAX_CODED }

  /** There is none. */
  lemma CodingFits(o: Options, ts: seq<Token>, data: seq<byte>, coded: Body)
    requires Coding(AsStatic(o, data), ts, coded)
    ensures coded.Valid() && !Overlong(coded)
  {
    hide MadeFor;
  }

  /** Before the end of the output buffer, the position counts the whole bytes sent. */
  lemma SentBytes(w: BitWriter)
    requires w.Valid() && w.pos < w.end
    ensures |w.out| + w.pos == |w.sent| / 8
  {
  }

  lemma IsPicked(o: Options, inWindow: bool, pos: nat, ts: seq<Token>, data: seq<byte>, coded: Body)
    requires !(o.forceRaw && inWindow) && Coding(AsStatic(o, data), ts, coded)
    ensures Picked(o, inWindow, pos, ts, data, Shorter(coded, inWindow, pos, data))
  {
  }

  /** While the window has the data, no block takes more than 41 bits more than the data. */
  lemma NeverMuchLonger(o: Options, pos: nat, ts: seq<Token>, data: seq<byte>, body: Body)
    requires Picked(o, true, pos, ts, data, body) && |data| <= MAX_STORED && (data == [] ==> ts == [])
    ensures body.Valid() && |body.Bits(pos)| <= 8 * |data| + 41
  {
    StoredSize(pos, data);
    if body == Stored(data) {
      StoredIs(pos, data);
    } else {
      var coded :| Coding(AsStatic(o, data), ts, coded) && body == Shorter(coded, true, pos, data);
      CodedShort(o, pos, ts, data, coded);
    }
  }

  lemma StoredIs(pos: nat, data: seq<byte>)
    requires |data| <= MAX_STORED
    ensures Stored(data).Valid() && Stored(data).Bits(pos) == StoredBits(pos, data)
  {
  }

  lemma CodedShort(o: Options, pos: nat, ts: seq<Token>, data: seq<byte>, coded: Body)
    requires Coding(AsStatic(o, data), ts, coded) && Shorter(coded, true, pos, data) != Stored(data)
    requires data == [] ==> ts == []
    ensures coded.Valid() && |coded.Bits(pos)| <= 8 * |data| + 41
  {
    CodedBits(o, pos, ts, data, coded);
    hide Coding, MadeFor, Body.Bits, Body.Valid;
    if data == [] {
      NothingFixed();
    } else {
      BitsOfBytes(pos, |coded.Bits(0)|);
    }
  }

  lemma CodedBits(o: Options, pos: nat, ts: seq<Token>, data: seq<byte>, coded: Body)
    requires Coding(AsStatic(o, data), ts, coded)
    ensures coded.Valid() && !coded.Stored? && coded.Bits(pos) == coded.Bits(0)
    ensures data == [] ==> coded == Fixed(ts)
  {
    hide MadeFor;
    CompressedBits(coded, pos);
  }

  lemma NothingFixed()
    ensures Fixed([]).Valid() && |Fixed([]).Bits(0)| <= 41
  {
    FixedBody([]);
  }

  lemma BitsOfBytes(pos: nat, n: nat)
    ensures n < 8 * WholeBytes(pos, n) + 8
  {
  }

  /** The body says the same as the tokens. */
  ghost predicate SameMeaning(body: Body, h: seq<byte>, data: seq<byte>) {
    body.Valid() && body.Fits(h) && body.Output(h) == h + data
  }

  /** The part of the compressor that writes blocks. */
  class BlockFlusher {
    const w: BitWriter
    const lz: LzCodeBuffer
    const lit: CodeTable
    const dist: CodeTable
    const len: CodeTable
    const options: Options
    var blockIndex: nat
    ghost var prefix: seq<bool>   // the zlib header
    ghost var blocks: seq<Block>  // the blocks written so far

    constructor (options: Options, w: BitWriter, lz: LzCodeBuffer, lit: CodeTable, dist: CodeTable, len: CodeTable)
      requires w.Valid() && w.pos == 0 && w.end == OUT_BUF_END && w.sent == [] && lz.Valid()
      requires AllSeparate(w, lit, dist, len) && Buffers(w, lz) !! Tables(lit, dist, len)
      requires w.buf != lz.buf && lz.litCount as object != w.buf as object && lz.distCount as object != w.buf as object
      requires lz.litCount as object != lz.buf as object && lz.distCount as object != lz.buf as object
      ensures Valid() && blocks == []
      ensures this.options == options && this.w == w && this.lz == lz && this.lit == lit && this.dist == dist
      ensures this.len == len
    {
      this.w, this.lz, this.lit, this.dist, this.len := w, lz, lit, dist, len;
      this.options := options;
      blockIndex, prefix, blocks := 0, [], [];
    }

    /** The arrays are all different. */
    ghost predicate Shape()
      reads {}
    {
      && AllSeparate(w, lit, dist, len) && CountArrays(w, lit, dist, lz.litCount, lz.distCount) && w.buf != lz.buf
      && Buffers(w, lz) !! Tables(lit, dist, len)
      && lz.litCount as object != lz.buf as object && lz.distCount as object != lz.buf as object
    }

    static ghost function Tables(lit: CodeTable, dist: CodeTable, len: CodeTable): set<object> {
      {lit.sizes as object, lit.codes as object, dist.sizes as object, dist.codes as object,
       len.sizes as object, len.codes as object}
    }

    static ghost function Buffers(w: BitWriter, lz: LzCodeBuffer): set<object> {
      {w.buf as object, lz.buf as object, lz.litCount as object, lz.distCount as object}
    }

    /** The state between blocks. */
    ghost predicate Valid()
      reads this, w, w.buf, lz, lz.buf, lz.litCount, lz.distCount
    {
      lz.Valid() && Ready()
    }

    ghost predicate Ready()
      reads this, w, w.buf
    {
      && Shape() && NoneFinal(blocks) && w.Valid() && w.pos == 0 && w.end == OUT_BUF_END
      && ValidStream(blocks) && w.sent == prefix + StreamBits(blocks) && |prefix| % 8 == 0
      && (blockIndex == 0 <==> blocks == []) && PrefixOk()
    }

    ghost predicate PrefixOk()
      reads this
    {
      if options.zlib && blocks != [] then prefix == BytesBits([0x78, HeaderFlags(options.probes)])
      else prefix == []
    }

    lemma RecordParts()
      requires Valid()
      ensures lz.Valid() && lz.buf.Length == LZ_CODE_BUF_SIZE && w.buf != lz.buf
      ensures w.buf as object != lz.litCount as object && w.buf as object != lz.distCount as object
    {
    }

    lemma StillValid()
      requires lz.Valid() && Ready()
      ensures Valid()
    {
    }

    /** Buffers a literal. */
    method RecordLiteral(lit: byte)
      requires Valid() && lz.codeEnd + 4 <= LZ_CODE_BUF_SIZE
      modifies lz, lz.buf, lz.litCount
      ensures Valid() && lz.Tokens() == old(lz.Tokens()) + [Lit(lit)]
      ensures lz.totalBytes == old(lz.totalBytes) + 1 && lz.codeEnd <= old(lz.codeEnd) + 2
    {
      assert Ready();
      hide *;
      RecordParts();
      lz.RecordLiteral(lit);
      StillValid();
    }

    /** Buffers a match. */
    method RecordMatch(len: nat, dist: nat)
      requires Valid() && lz.codeEnd + 4 <= LZ_CODE_BUF_SIZE && ValidToken(Match(len, dist))
      modifies lz, lz.buf, lz.litCount, lz.distCount
      ensures Valid() && lz.Tokens() == old(lz.Tokens()) + [Match(len, dist)]
      ensures lz.totalBytes == old(lz.totalBytes) + len && lz.codeEnd <= old(lz.codeEnd) + 4
    {
      assert Ready();
      hide *;
      RecordParts();
      lz.RecordMatch(len, dist);
      StillValid();
    }

    /** The dictionary is none of the arrays that a flush writes. */
    ghost predicate Outside(dict: array<byte>)
    {
      dict.Length >= LZ_DICT_SIZE && dict as object !in Buffers(w, lz) && dict as object !in Tables(lit, dist, len)
    }

    /** If the block may be stored, the dictionary still has its bytes. */
    ghost predicate StillThere(dict: array<byte>, from: nat, data: seq<byte>)
      requires dict.Length >= LZ_DICT_SIZE
      reads dict
    {
      |data| <= MAX_STORED && forall i :: 0 <= i < |data| ==> dict[(from + i) % LZ_DICT_SIZE] == data[i]
    }

    /** The token buffer is finished and holds `ts`. */
    ghost predicate Holds(ts: seq<Token>)
      reads lz, lz.buf
    {
      AllValid(ts) && lz.codeEnd <= lz.buf.Length == LZ_CODE_BUF_SIZE && lz.buf[..lz.codeEnd] == Image(ts)
    }

    ghost predicate Counted(ts: seq<Token>)
      reads lz.litCount, lz.distCount
    {
      AllValid(ts) && lz.litCount[..] == LitCounts(ts) && lz.distCount[..] == DistCounts(ts)
    }

    /** The body was sent after `start`, and it says the same as the tokens. */
    ghost predicate Encoded(body: Body, start: seq<bool>, h: seq<byte>, data: seq<byte>)
      reads w, w.buf
    {
      && SameMeaning(body, h, data) && w.Valid() && w.pos < w.end && w.sent == start + body.Bits(|start|)
      && |w.sent| + 64 < 8 * (|w.out| + w.end)
    }

    /** The writer can be taken back to `start`, which is near the beginning of the output buffer. */
    ghost predicate CanRewind(pos: nat, buffer: nat, bits: nat, start: seq<bool>)
      reads w`out, w`end, w`mark, w`marked
    {
      && w.end == OUT_BUF_END && |start| <= 8 * |w.out| + 32 && pos == w.mark < w.end && |w.out| + pos == |start| / 8
      && bits == |start| % 8 && buffer < Pow2(bits)
      && start == BytesBits(w.out) + (BytesBits(w.marked) + BitsOf(buffer, bits))
    }

    /** Sends the tokens: compressed, or stored if compression does not pay, or static if the dynamic
        block does not fit. Whichever it is, it means the same. */
    method Encode(dict: array<byte>, from: nat, behind: nat, dictSize: nat, ghost h: seq<byte>, ghost ts: seq<Token>,
                  ghost data: seq<byte>)
        returns (ghost body: Body)
      requires w.Valid() && Shape() && w.end == OUT_BUF_END && |w.sent| <= 8 * |w.out| + 32
      requires Holds(ts) && Counted(ts) && |data| == lz.totalBytes
      requires AllFit(h, ts) && Expand(h, ts) == h + data
      requires Outside(dict) && (behind <= dictSize ==> StillThere(dict, from, data))
      modifies w`pos, w`bitBuffer, w`bitsIn, w`sent, w`mark, w`marked, w.buf, lz.litCount
      modifies lit.sizes, lit.codes, dist.sizes, dist.codes, len.sizes, len.codes
      ensures Encoded(body, old(w.sent), h, data)
      ensures Picked(options, behind <= dictSize, |old(w.sent)|, ts, data, body)
    {
      hide *;
      SeparateAll();
      OutsideAll(dict);
      ghost var start := w.sent;
      w.SetMark();
      MarkedStart();
      StartsEarly();
      var savedPos, savedBuffer, savedBits := w.pos, w.bitBuffer, w.bitsIn;
      StaticWhen(data);
      var useRaw := options.forceRaw && behind <= dictSize;
      var fits := false;
      ghost var coded := Stored(data);
      if !useRaw {
        fits, coded := TryCompressed(options.forceStatic || lz.totalBytes < 48, start, savedPos, savedBuffer, savedBits,
                                     h, ts, data);
      }
      body := coded;
      ghost var inWindow, grown := behind <= dictSize, w.pos - savedPos;
      if (useRaw || (lz.totalBytes != 0 && w.pos - savedPos + 1 >= lz.totalBytes)) && behind <= dictSize {
        SendStored(dict, from, savedPos, savedBuffer, savedBits, start, h, data);
        body := Stored(data);
      } else if !fits {
        SendStatic(savedPos, savedBuffer, savedBits, start, h, ts, data);
        body := Fixed(ts);
      }
      PickedForm(inWindow, |start|, ts, data, fits, coded, grown, body);
    }

    lemma PickedForm(inWindow: bool, pos: nat, ts: seq<Token>, data: seq<byte>, fits: bool, coded: Body, grown: int,
                     body: Body)
      requires var raw := options.forceRaw && inWindow;
        && (!raw ==> Coding(AsStatic(options, data), ts, coded))
        && (!raw ==> if fits then grown == WholeBytes(pos, |coded.Bits(0)|) else Overlong(coded))
        && body == (if (raw || (|data| != 0 && grown + 1 >= |data|)) && inWindow then Stored(data)
                    else if !fits then Fixed(ts) else coded)
      ensures Picked(options, inWindow, pos, ts, data, body)
    {
      if !(options.forceRaw && inWindow) {
        CodingFits(options, ts, data, coded);
        hide Coding, MadeFor, Body.Bits, Body.Valid, WholeBytes;
        IsPicked(options, inWindow, pos, ts, data, coded);
      }
    }

    lemma StaticWhen(data: seq<byte>)
      ensures AsStatic(options, data) == (options.forceStatic || |data| < 48)
    {
    }

    /** The whole bytes sent since the mark. */
    lemma Grown(pos: nat, start: nat, n: nat)
      requires w.Valid() && w.pos < w.end && |w.out| + pos == start / 8 && |w.sent| == start + n
      ensures w.pos - pos == WholeBytes(start, n)
    {
      SentBytes(w);
    }

    lemma StartsEarly()
      requires w.Valid() && w.end == OUT_BUF_END && |w.sent| <= 8 * |w.out| + 32
      ensures w.pos <= 4
    {
    }

    lemma SeparateAll()
      requires Shape()
      ensures lz.buf != w.buf && lz.buf as object != lz.litCount as object && w.buf as object != lz.litCount as object
      ensures lz.buf as object != lit.sizes as object && lz.buf as object != lit.codes as object
      ensures lz.buf as object != dist.sizes as object && lz.buf as object != dist.codes as object
      ensures lz.buf as object != len.sizes as object && lz.buf as object != len.codes as object
      ensures w.buf as object != lit.sizes as object && w.buf as object != lit.codes as object
      ensures w.buf as object != dist.sizes as object && w.buf as object != dist.codes as object
      ensures w.buf as object != len.sizes as object && w.buf as object != len.codes as object
    {
    }

    lemma OutsideAll(dict: array<byte>)
      requires Outside(dict)
      ensures dict != w.buf && dict != lz.buf && dict as object != lz.litCount as object
      ensures dict as object != lit.sizes as object && dict as object != lit.codes as object
      ensures dict as object != dist.sizes as object && dict as object != dist.codes as object
      ensures dict as object != len.sizes as object && dict as object != len.codes as object
    {
    }

    lemma MarkedStart()
      requires w.Valid() && w.end == OUT_BUF_END && |w.sent| <= 8 * |w.out| + 32 && w.mark == w.pos
      requires w.marked == w.buf[..w.pos]
      ensures CanRewind(w.pos, w.bitBuffer, w.bitsIn, w.sent)
    {
    }

    lemma CompressedMeaning(body: Body, start: seq<bool>, h: seq<byte>, ts: seq<Token>, data: seq<byte>)
      requires AllFit(h, ts) && Expand(h, ts) == h + data && body.Valid() && !body.Stored? && body.ts == ts
      requires w.Valid() && w.pos < w.end && w.sent == start + body.Bits(0)
      requires |w.sent| + 64 < 8 * (|w.out| + w.end)
      ensures Encoded(body, start, h, data)
    {
      CompressedBits(body, |start|);
    }

    lemma StaticRoom(pos: nat, buffer: nat, bits: nat, start: seq<bool>, ts: seq<Token>)
      requires CanRewind(pos, buffer, bits, start) && Holds(ts)
      ensures Fixed(ts).Valid() && |ts| < 0xFFFF
      ensures |start| + MAX_CODED + 64 < 8 * (|w.out| + w.end)
    {
      StaticFits(ts);
    }

    lemma ForCompress(ts: seq<Token>)
      requires Shape() && Holds(ts)
      ensures AllSeparate(w, lit, dist, len) && w.buf != lz.buf && CountArrays(w, lit, dist, lz.litCount, lz.distCount)
      ensures AllValid(ts) && lz.codeEnd <= lz.buf.Length == LZ_CODE_BUF_SIZE && lz.buf[..lz.codeEnd] == Image(ts)
      ensures Counted(ts) ==> lz.litCount[..] == LitCounts(ts) && lz.distCount[..] == DistCounts(ts)
    {
    }

    method TryCompressed(isStatic: bool, ghost start: seq<bool>, ghost pos: nat, ghost buffer: nat, ghost bits: nat,
                         ghost h: seq<byte>, ghost ts: seq<Token>, ghost data: seq<byte>)
        returns (fits: bool, ghost body: Body)
      requires Shape() && Holds(ts) && Counted(ts) && AllFit(h, ts) && Expand(h, ts) == h + data
      requires w.Valid() && w.sent == start && CanRewind(pos, buffer, bits, start) && w.pos >= pos
      modifies w`pos, w`bitBuffer, w`bitsIn, w`sent, w.buf, lz.litCount
      modifies lit.sizes, lit.codes, dist.sizes, dist.codes, len.sizes, len.codes
      ensures fits ==> Encoded(body, start, h, data)
      ensures Coding(isStatic, ts, body)
      ensures if fits then w.pos - pos == WholeBytes(|start|, |body.Bits(0)|) else Overlong(body)
      ensures w.Valid() && Holds(ts) && w.pos >= pos
    {
      hide *;
      SeparateAll();
      StaticRoom(pos, buffer, bits, start, ts);
      ForCompress(ts);
      RewindAt(pos, buffer, bits, start);
      fits, body := CompressBlock(w, lz, lit, dist, len, isStatic, ts);
      if fits {
        FixedIs(body);
        Grown(pos, |start|, |body.Bits(0)|);
        CompressedMeaning(body, start, h, ts, data);
      }
    }

    lemma RewindAt(pos: nat, buffer: nat, bits: nat, start: seq<bool>)
      requires CanRewind(pos, buffer, bits, start)
      ensures |w.out| + pos == |start| / 8 && w.end == OUT_BUF_END && |start| <= 8 * |w.out| + 32
    {
    }

    lemma FixedIs(body: Body)
      ensures body.Fixed? ==> body == Fixed(body.ts)
    {
    }

    method SendStatic(pos: nat, buffer: nat, bits: nat, ghost start: seq<bool>, ghost h: seq<byte>,
                      ghost ts: seq<Token>, ghost data: seq<byte>)
      requires Shape() && Holds(ts) && AllFit(h, ts) && Expand(h, ts) == h + data
      requires w.Valid() && CanRewind(pos, buffer, bits, start)
      modifies w`pos, w`bitBuffer, w`bitsIn, w`sent, w.buf, lit.sizes, lit.codes, dist.sizes, dist.codes
      modifies lz.litCount, len.sizes, len.codes
      ensures Encoded(Fixed(ts), start, h, data)
    {
      hide *;
      GoBack(pos, buffer, bits, start);
      StaticRoom(pos, buffer, bits, start, ts);
      ForCompress(ts);
      var fits; ghost var body;
      fits, body := CompressBlock(w, lz, lit, dist, len, true, ts);
      FixedIs(body);
      WithRoom(w);
      CompressedMeaning(body, start, h, ts, data);
    }

    method GoBack(pos: nat, buffer: nat, bits: nat, ghost start: seq<bool>)
      requires w.Valid() && CanRewind(pos, buffer, bits, start)
      modifies w`pos, w`bitBuffer, w`bitsIn, w`sent
      ensures w.Valid() && w.sent == start && w.end == OUT_BUF_END && |start| <= 8 * |w.out| + 32
    {
      w.Rewind(pos, buffer, bits, start);
    }

    method SendStored(dict: array<byte>, from: nat, pos: nat, buffer: nat, bits: nat, ghost start: seq<bool>,
                      ghost h: seq<byte>, ghost data: seq<byte>)
      requires Outside(dict) && StillThere(dict, from, data) && |data| == lz.totalBytes && w.Valid()
      requires CanRewind(pos, buffer, bits, start)
      modifies w`pos, w`bitBuffer, w`bitsIn, w`sent, w.buf
      ensures Encoded(Stored(data), start, h, data)
    {
      hide *;
      OutsideAll(dict);
      StillThereParts(dict, from, data);
      GoBack(pos, buffer, bits, start);
      PutStored(w, dict, from, lz.totalBytes, data);
      StoredEncoded(start, h, data);
    }

    lemma StillThereParts(dict: array<byte>, from: nat, data: seq<byte>)
      requires Outside(dict) && StillThere(dict, from, data)
      ensures dict.Length >= LZ_DICT_SIZE && |data| <= MAX_STORED
      ensures forall i :: 0 <= i < |data| ==> dict[(from + i) % LZ_DICT_SIZE] == data[i]
    {
    }

    lemma StoredEncoded(start: seq<bool>, h: seq<byte>, data: seq<byte>)
      requires |data| <= MAX_STORED && w.Valid() && w.sent == start + StoredBits(|start|, data)
      requires w.end == OUT_BUF_END && |start| <= 8 * |w.out| + 32
      ensures Encoded(Stored(data), start, h, data)
    {
      StoredSize(|start|, data);
      hide BytesBits, BitsOf, Zeros, Pow2, StoredBits;
    }

    // -------------------------------------------------------------- the whole step

    /** The zlib header that has been sent before the blocks, once there is a block. */
    ghost predicate Headed()
      reads this`prefix
    {
      if options.zlib then prefix == BytesBits([0x78, HeaderFlags(options.probes)])
      else prefix == []
    }

    /** Sends the zlib header before the first block, and the block's final bit. */
    method Begin(final: bool)
      requires Ready()
      modifies this`prefix, w`pos, w`bitBuffer, w`bitsIn, w`sent, w.buf
      ensures w.Valid() && w.end == OUT_BUF_END && w.sent == prefix + StreamBits(blocks) + [final]
      ensures |w.sent| <= 8 * |w.out| + 32 && |prefix| % 8 == 0 && Headed()
    {
      hide *;
      StartBits();
      StreamStart(final);
      if options.zlib && blockIndex == 0 {
        PutZlibHeader(w, options.probes);
        prefix := BytesBits([0x78, HeaderFlags(options.probes)]);
        HeadedBy();
        assert w.sent == prefix;
        w.PutBits(if final then 1 else 0, 1);
      } else {
        w.PutBits(if final then 1 else 0, 1);
      }
    }

    lemma HeadedBy()
      requires options.zlib && prefix == BytesBits([0x78, HeaderFlags(options.probes)])
      ensures Headed() && |prefix| == 16
    {
    }

    lemma StartBits()
      requires Ready()
      ensures |w.sent| <= 8 * |w.out| + 7 && w.Valid() && w.end == OUT_BUF_END && w.sent == prefix + StreamBits(blocks)
      ensures |prefix| % 8 == 0 && (blockIndex == 0 ==> prefix == [] && StreamBits(blocks) == [])
      ensures !options.zlib || blockIndex != 0 ==> Headed()
    {
    }

    lemma StreamStart(final: bool)
      ensures Pow2(1) == 2 && BitsOf(if final then 1 else 0, 1) == [final]
    {
      assert BitsOf(1, 1) == [true] && BitsOf(0, 1) == [false];
    }

    /** Sends what follows the block: the end of the stream, or an empty stored block that brings the
        stream to a byte boundary. */
    method End(flush: Flush, adler: nat)
      requires w.Valid() && adler < 0x1_0000_0000
      modifies w`pos, w`bitBuffer, w`bitsIn, w`sent, w.buf
      ensures w.Valid() && (if flush == NoFlush then w.pos == old(w.pos) else old(w.pos) <= w.pos)
      ensures |w.sent| <= |old(w.sent)| + 64
      ensures w.sent == old(w.sent) + AfterBlock(|old(w.sent)|, flush, options.zlib, adler)
    {
      hide *;
      AfterParts(|w.sent|, flush, options.zlib, adler);
      if flush != NoFlush {
        if flush == Finish {
          PutPadding(w);
          if options.zlib { PutAdler(w, adler); }
        } else {
          w.PutBits(0, 3);
          PutPadding(w);
          PutLength(w, 0);
        }
      }
    }

    static lemma AfterParts(pos: nat, flush: Flush, zlib: bool, adler: nat)
      requires adler < 0x1_0000_0000
      ensures AfterBlock(pos, flush, zlib, adler) ==
        match flush
        case NoFlush => []
        case Finish => Zeros(Pad(pos)) + (if zlib then BytesBits(BigEndian(adler)) else [])
        case _ => BitsOf(0, 3) + Zeros(Pad(pos + 3)) + (BitsOf(0, 16) + BitsOf(MAX_STORED - 0, 16))
      ensures Pow2(3) > 0 && |AfterBlock(pos, flush, zlib, adler)| <= 64 && 0 <= MAX_STORED
    {
      hide *;
      EmptyStored(pos);
      AfterCases(pos, flush, zlib, adler);
      TrailerParts(pos, zlib, adler);
    }

    /** The buffered tokens, after what the blocks say already, stand for `data`. */
    ghost predicate Carries(data: seq<byte>)
      requires ValidStream(blocks)
      reads this, lz
    {
      && AllFit(Output(blocks), lz.Tokens()) && |data| == lz.totalBytes
      && Expand(Output(blocks), lz.Tokens()) == Output(blocks) + data
    }

    /** Writes the buffered tokens as one block: the stream then stands for `data` more bytes than
        before. The output buffer never overruns, whatever the tokens and the flush mode are. */
    method FlushBlock(dict: array<byte>, from: nat, behind: nat, dictSize: nat, flush: Flush, adler: nat,
                      ghost data: seq<byte>)
        returns (ghost body: Body)
      requires Valid() && Outside(dict) && adler < 0x1_0000_0000 && Carries(data)
      requires behind <= dictSize ==> StillThere(dict, from, data)
      modifies this`blockIndex, this`prefix, this`blocks, w, w.buf, lz, lz.buf, lz.litCount, lz.distCount
      modifies lit.sizes, lit.codes, dist.sizes, dist.codes, len.sizes, len.codes
      ensures ValidStream(blocks) && Output(blocks) == old(Output(blocks)) + data
      ensures blocks == NextBlocks(old(blocks), flush, body)
      ensures Picked(options, behind <= dictSize, old(BlockStart()), old(lz.Tokens()), data, body)
      ensures flush != Finish ==> Valid() && lz.Tokens() == [] && lz.totalBytes == 0 && lz.codeEnd == 1
      ensures flush == Finish ==> Finished(adler)
      ensures flush == SyncFlush || flush == FullFlush ==> blocks != [] && w.sent == BytesBits(w.out)
    {
      hide *;
      BeforeFlush(dict, data);
      ghost var old0 := blocks;
      body := SendBlock(dict, from, behind, dictSize, flush, adler, data);
      blocks := NextBlocks(old0, flush, body);
      blockIndex := blockIndex + 1;
      lz.Restart();
      HandBlock();
      AfterFlush(flush, adler, old0, body);
    }

    /** The writer has sent the stream, up to the block that says `data`, and what follows that block. */
    ghost predicate Sent(bs: seq<Block>, flush: Flush, adler: nat)
      reads w`sent, this`prefix
    {
      && ValidStream(bs) && |prefix| % 8 == 0 && Headed() && adler < 0x1_0000_0000
      && w.sent == prefix + StreamBits(bs) +
        (if flush == Finish then Trailer(|prefix + StreamBits(bs)|, options.zlib, adler) else [])
    }

    /** Where the body of the next block starts, in bits. */
    ghost function BlockStart(): nat
      requires ValidStream(blocks)
      reads this`blocks
    {
      (if options.zlib then 16 else 0) + |StreamBits(blocks)| + 1
    }

    method SendBlock(dict: array<byte>, from: nat, behind: nat, dictSize: nat, flush: Flush, adler: nat,
                     ghost data: seq<byte>)
        returns (ghost body: Body)
      requires Valid() && Outside(dict) && adler < 0x1_0000_0000 && Carries(data)
      requires behind <= dictSize ==> StillThere(dict, from, data)
      modifies this`prefix, w`pos, w`bitBuffer, w`bitsIn, w`sent, w`mark, w`marked, w.buf, lz`codeEnd, lz.buf
      modifies lz.litCount
      modifies lit.sizes, lit.codes, dist.sizes, dist.codes, len.sizes, len.codes
      ensures w.Valid() && w.end == OUT_BUF_END && w.pos < w.end
      ensures Sent(NextBlocks(blocks, flush, body), flush, adler)
      ensures flush == SyncFlush || flush == FullFlush ==> |w.sent| % 8 == 0
      ensures Output(NextBlocks(blocks, flush, body)) == Output(blocks) + data
      ensures Picked(options, behind <= dictSize, old(BlockStart()), old(lz.Tokens()), data, body)
    {
      hide *;
      BeforeFlush(dict, data);
      ghost var h, start;
      h := Output(blocks);
      body, start := SendBody(dict, from, behind, dictSize, flush == Finish, data);
      ghost var pre, coded := prefix, w.sent;
      EncodedParts(body, start, h, data);
      End(flush, adler);
      WithRoom(w);
      Advance(pre, blocks, body, h, data, flush, options.zlib, adler, start, coded, w.sent);
      IsSent(NextBlocks(blocks, flush, body), flush, adler);
    }

    /** Sends what comes before the block, and the block. */
    method SendBody(dict: array<byte>, from: nat, behind: nat, dictSize: nat, final: bool, ghost data: seq<byte>)
        returns (ghost body: Body, ghost start: seq<bool>)
      requires Valid() && Outside(dict) && Carries(data)
      requires behind <= dictSize ==> StillThere(dict, from, data)
      modifies this`prefix, w`pos, w`bitBuffer, w`bitsIn, w`sent, w`mark, w`marked, w.buf, lz`codeEnd, lz.buf
      modifies lz.litCount
      modifies lit.sizes, lit.codes, dist.sizes, dist.codes, len.sizes, len.codes
      ensures Encoded(body, start, Output(blocks), data) && w.end == OUT_BUF_END && |prefix| % 8 == 0 && Headed()
      ensures start == prefix + StreamBits(blocks) + [final]
      ensures Picked(options, behind <= dictSize, old(BlockStart()), old(lz.Tokens()), data, body)
    {
      hide *;
      BeforeFlush(dict, data);
      OutsideAll(dict);
      ghost var h, ts := Output(blocks), lz.Tokens();
      FinishTokens(dict);
      Begin(final);
      start := w.sent;
      StartsAt(final);
      body := Encode(dict, from, behind, dictSize, h, ts, data);
    }

    lemma StartsAt(final: bool)
      requires ValidStream(blocks) && Headed() && w.sent == prefix + StreamBits(blocks) + [final]
      ensures |w.sent| == BlockStart()
    {
      if options.zlib { HeadedBy(); }
    }

    lemma IsSent(bs: seq<Block>, flush: Flush, adler: nat)
      requires ValidStream(bs) && |prefix| % 8 == 0 && Headed() && adler < 0x1_0000_0000
      requires w.sent == prefix + StreamBits(bs) +
        (if flush == Finish then Trailer(|prefix + StreamBits(bs)|, options.zlib, adler) else [])
      ensures Sent(bs, flush, adler)
    {
    }

    lemma BeforeFlush(dict: array<byte>, data: seq<byte>)
      requires Valid() && Outside(dict) && Carries(data)
      ensures Shape() && ValidStream(blocks) && NoneFinal(blocks)
      ensures AllFit(Output(blocks), lz.Tokens()) && |data| == lz.totalBytes
      ensures Expand(Output(blocks), lz.Tokens()) == Output(blocks) + data
      ensures lz.buf.Length == LZ_CODE_BUF_SIZE && lz.litCount != lz.distCount
      ensures lz.litCount.Length == MAX_HUFF_SYMBOLS_0 && lz.distCount.Length == MAX_HUFF_SYMBOLS_1
    {
    }

    method FinishTokens(ghost dict: array<byte>)
      requires Valid() && Outside(dict)
      modifies lz`codeEnd, lz.buf
      ensures Ready() && Holds(old(lz.Tokens())) && Counted(old(lz.Tokens())) && dict[..] == old(dict[..])
    {
      lz.Finish();
    }

    lemma EncodedParts(body: Body, start: seq<bool>, h: seq<byte>, data: seq<byte>)
      requires Encoded(body, start, h, data)
      ensures SameMeaning(body, h, data) && w.Valid() && w.pos < w.end && w.sent == start + body.Bits(|start|)
      ensures |w.sent| + 64 < 8 * (|w.out| + w.end)
    {
    }

    /** Hands the finished block over to the caller. */
    method HandBlock()
      requires w.Valid() && w.pos < w.end
      modifies w`out, w`pos, w`mark, w`marked
      ensures w.Valid() && w.pos == 0
      ensures |w.sent| % 8 == 0 ==> w.sent == BytesBits(w.out)
    {
      w.HandOver();
      assert w.buf[..0] == [];
      if |w.sent| % 8 == 0 { assert BitsOf(w.bitBuffer, 0) == []; }
    }

    lemma AfterFlush(flush: Flush, adler: nat, bs: seq<Block>, body: Body)
      requires Shape() && w.Valid() && w.pos == 0 && w.end == OUT_BUF_END && lz.Valid()
      requires NoneFinal(bs) && blocks == NextBlocks(bs, flush, body) && blockIndex > 0
      requires |w.sent| % 8 == 0 ==> w.sent == BytesBits(w.out)
      requires Sent(blocks, flush, adler)
      ensures ValidStream(blocks) && blocks != []
      ensures flush != Finish ==> Valid()
      ensures flush == Finish ==> Finished(adler)
    {
      hide *;
      SentParts(flush, adler);
      NextFinal(bs, flush, body);
      if flush == Finish {
        TrailerAligns(|prefix + StreamBits(blocks)|, options.zlib, adler);
        IsFinished(adler);
      } else {
        assert prefix + StreamBits(blocks) + [] == prefix + StreamBits(blocks);
        IsValid();
      }
    }

    lemma SentParts(flush: Flush, adler: nat)
      requires Sent(blocks, flush, adler)
      ensures ValidStream(blocks) && |prefix| % 8 == 0 && Headed() && adler < 0x1_0000_0000
      ensures w.sent == prefix + StreamBits(blocks) +
        (if flush == Finish then Trailer(|prefix + StreamBits(blocks)|, options.zlib, adler) else [])
    {
    }

    lemma IsValid()
      requires Shape() && w.Valid() && w.pos == 0 && w.end == OUT_BUF_END && lz.Valid() && NoneFinal(blocks)
      requires ValidStream(blocks) && blockIndex > 0 && |blocks| > 0 && |prefix| % 8 == 0 && Headed()
      requires w.sent == prefix + StreamBits(blocks)
      ensures Valid()
    {
    }

    lemma IsFinished(adler: nat)
      requires ValidStream(blocks) && Headed() && |blocks| > 0 && adler < 0x1_0000_0000
      requires NoneFinal(blocks[..|blocks| - 1]) && blocks[|blocks| - 1].final
      requires BytesBits(w.out) ==
        prefix + StreamBits(blocks) + Trailer(|prefix + StreamBits(blocks)|, options.zlib, adler)
      ensures Finished(adler)
    {
    }

    /** The complete stream has been handed over. */
    ghost predicate Finished(adler: nat)
      reads this, w
    {
      && ValidStream(blocks) && Headed() && adler < 0x1_0000_0000
      && blocks != [] && NoneFinal(blocks[..|blocks| - 1]) && blocks[|blocks| - 1].final
      && BytesBits(w.out) ==
         prefix + StreamBits(blocks) + Trailer(|prefix + StreamBits(blocks)|, options.zlib, adler)
    }
  }

  /** The bits after a block that is flushed with `flush`. */
  function AfterBlock(pos: nat, flush: Flush, zlib: bool, adler: nat): seq<bool>
    requires adler < 0x1_0000_0000
  {
    match flush
    case NoFlush => []
    case Finish => Trailer(pos, zlib, adler)
    case _ => [false] + StoredBits(pos + 1, [])
  }

  /** A flush ends at a byte boundary. */
  lemma FlushAligns(pos: nat, flush: Flush, zlib: bool, adler: nat)
    requires adler < 0x1_0000_0000
    ensures flush == SyncFlush || flush == FullFlush ==> (pos + |AfterBlock(pos, flush, zlib, adler)|) % 8 == 0
  {
    hide BitsOf, BytesBits, Zeros, Trailer;
    if flush == SyncFlush || flush == FullFlush {
      assert |AfterBlock(pos, flush, zlib, adler)| == 3 + Pad(pos + 3) + 32;
      FourBytesOn(pos + 3 + Pad(pos + 3));
    }
  }

  lemma FourBytesOn(n: nat)
    requires n % 8 == 0
    ensures (n + 32) % 8 == 0
  {
  }

  lemma NextFinal(blocks: seq<Block>, flush: Flush, body: Body)
    requires NoneFinal(blocks)
    ensures var bs := NextBlocks(blocks, flush, body);
      |bs| > 0 && (if flush == Finish then NoneFinal(bs[..|bs| - 1]) && bs[|bs| - 1].final else NoneFinal(bs))
  {
  }

  function NextBlocks(blocks: seq<Block>, flush: Flush, body: Body): seq<Block> {
    blocks + [Block(flush == Finish, body)] +
    (if flush == NoFlush || flush == Finish then [] else [Block(false, Stored([]))])
  }

  /** What was sent is again a prefix and a stream of blocks, which stands for the data as well. */
  lemma Advance(prefix: seq<bool>, blocks: seq<Block>, body: Body, h: seq<byte>, data: seq<byte>, flush: Flush,
                zlib: bool, adler: nat,
                start: seq<bool>, coded: seq<bool>, sent: seq<bool>)
    requires ValidStream(blocks) && Output(blocks) == h && SameMeaning(body, h, data) && |prefix| % 8 == 0
    requires adler < 0x1_0000_0000
    requires start == prefix + StreamBits(blocks) + [flush == Finish] && coded == start + body.Bits(|start|)
    requires sent == coded + AfterBlock(|coded|, flush, zlib, adler)
    ensures flush == SyncFlush || flush == FullFlush ==> |sent| % 8 == 0
    ensures ValidStream(NextBlocks(blocks, flush, body)) && Output(NextBlocks(blocks, flush, body)) == h + data
    ensures sent == prefix + StreamBits(NextBlocks(blocks, flush, body)) +
      (if flush == Finish then Trailer(|prefix + StreamBits(NextBlocks(blocks, flush, body))|, zlib, adler) else [])
  {
    hide *;
    var final := flush == Finish;
    var b := Block(final, body);
    var s0 := prefix + StreamBits(blocks);
    FlushAligns(|coded|, flush, zlib, adler);
    Meaning(body, h, data);
    BlockParts(|s0|, b);
    assert coded == s0 + BlockBits(|s0|, b) by { assert [final] + body.Bits(|s0| + 1) == BlockBits(|s0|, b); }
    AppendBlock(prefix, blocks, b);
    NextParts(blocks, flush, body);
    AfterCases(|coded|, flush, zlib, adler);
    if flush == SyncFlush || flush == FullFlush {
      AppendBlock(prefix, blocks + [b], Block(false, Stored([])));
    }
  }

  lemma TrailerAligns(pos: nat, zlib: bool, adler: nat)
    requires adler < 0x1_0000_0000
    ensures (pos + |Trailer(pos, zlib, adler)|) % 8 == 0
  {
    hide *;
    TrailerParts(pos, zlib, adler);
    assert |Trailer(pos, zlib, adler)| == Pad(pos) + (if zlib then 32 else 0);
  }

  lemma Meaning(body: Body, h: seq<byte>, data: seq<byte>)
    requires SameMeaning(body, h, data)
    ensures body.Valid() && body.Fits(h) && body.Output(h) == h + data
  {
  }

  lemma BlockParts(pos: nat, b: Block)
    requires b.body.Valid()
    ensures BlockBits(pos, b) == [b.final] + b.body.Bits(pos + 1)
  {
  }

  lemma NextParts(blocks: seq<Block>, flush: Flush, body: Body)
    ensures flush == NoFlush || flush == Finish ==>
      NextBlocks(blocks, flush, body) == blocks + [Block(flush == Finish, body)]
    ensures flush == SyncFlush || flush == FullFlush ==>
      NextBlocks(blocks, flush, body) == blocks + [Block(flush == Finish, body)] + [Block(false, Stored([]))]
  {
  }

  lemma EmptyStored(pos: nat)
    ensures BlockBits(pos, Block(false, Stored([]))) ==
      BitsOf(0, 3) + Zeros(Pad(pos + 3)) + (BitsOf(0, 16) + BitsOf(MAX_STORED - 0, 16))
    ensures Pow2(3) > 0 && 0 <= MAX_STORED
  {
    hide *;
    NoBytes();
    ThreeZeros();
    StoredParts(pos + 1, []);
    EmptyBody(pos + 1);
    BlockParts(pos, Block(false, Stored([])));
  }

  lemma ThreeZeros()
    ensures BitsOf(0, 3) == [false] + BitsOf(0, 2) && Pow2(3) > 0 && 0 <= MAX_STORED
  {
  }

  lemma EmptyBody(pos: nat)
    ensures 0 <= MAX_STORED && Stored([]).Valid() && Stored([]).Bits(pos) == StoredBits(pos, [])
  {
  }

  lemma TrailerParts(pos: nat, zlib: bool, adler: nat)
    requires adler < 0x1_0000_0000
    ensures Trailer(pos, zlib, adler) == Zeros(Pad(pos)) + (if zlib then BytesBits(BigEndian(adler)) else [])
  {
  }

  lemma AfterCases(pos: nat, flush: Flush, zlib: bool, adler: nat)
    requires adler < 0x1_0000_0000
    ensures flush == NoFlush ==> AfterBlock(pos, flush, zlib, adler) == []
    ensures flush == Finish ==> AfterBlock(pos, flush, zlib, adler) == Trailer(pos, zlib, adler)
    ensures Stored([]).Valid() && forall h :: Stored([]).Fits(h) && Stored([]).Output(h) == h
    ensures flush == SyncFlush || flush == FullFlush ==>
      AfterBlock(pos, flush, zlib, adler) == BlockBits(pos, Block(false, Stored([])))
  {
  }

  lemma AppendBlock(prefix: seq<bool>, blocks: seq<Block>, b: Block)
    requires ValidStream(blocks) && |prefix| % 8 == 0 && b.body.Valid() && b.body.Fits(Output(blocks))
    ensures ValidStream(blocks + [b]) && Output(blocks + [b]) == b.body.Output(Output(blocks))
    ensures var s0 := prefix + StreamBits(blocks); prefix + StreamBits(blocks + [b]) == s0 + BlockBits(|s0|, b)
  {
    hide *;
    var s := StreamBits(blocks);
    StreamOne(blocks, b);
    BlockAfterPrefix(|s|, |prefix| / 8, b);
    assert |prefix + s| == |s| + 8 * (|prefix| / 8);
  }

  lemma StoredSize(pos: nat, data: seq<byte>)
    requires |data| <= MAX_STORED
    ensures |StoredBits(pos, data)| <= 8 * |data| + 41
  {
  }
}
