/** Compressing data in memory (`tdefl_compress_mem_to_output`): one compressor, any number of pieces
    before the last one. */
module DeflateMem {
  import opened Bits
  import opened LzCodeBuffer
  import opened BitWriter
  import opened HuffmanEncoder
  import opened BlockHeader
  import opened BlockFlusher
  import opened Dictionary
  import opened Deflate
  import opened DeflateFormat
  import Adler = Adler32

  // ---------------------------------------------------------------- setting up

  method NewTables() returns (lit: CodeTable, dist: CodeTable, len: CodeTable)
    ensures fresh(BlockFlusher.Tables(lit, dist, len))
    ensures lit.Shape() && dist.Shape() && len.Shape() && lit.sizes.Length == 288 && dist.sizes.Length == 32
    ensures len.sizes.Length == 19
    ensures Separate(lit, dist) && Separate(lit, len) && Separate(dist, len)
  {
    lit := new CodeTable(288);
    dist := new CodeTable(32);
    len := new CodeTable(19);
  }

  /** Arrays that are used by the writer and by the token buffer. */
  ghost predicate BuffersApart(w: BitWriter, lz: LzCodeBuffer) {
    && w.buf != lz.buf && lz.litCount as object != w.buf as object && lz.distCount as object != w.buf as object
    && lz.litCount as object != lz.buf as object && lz.distCount as object != lz.buf as object
    && lz.litCount != lz.distCount && lz.litCount.Length == MAX_HUFF_SYMBOLS_0
    && lz.distCount.Length == MAX_HUFF_SYMBOLS_1
  }

  method NewBuffers(ghost others: set<object>) returns (w: BitWriter, lz: LzCodeBuffer)
    ensures BlockFlusher.Buffers(w, lz) !! others
    ensures fresh(w) && fresh(lz) && fresh(BlockFlusher.Buffers(w, lz)) && BuffersApart(w, lz)
    ensures w.Valid() && w.pos == 0 && w.end == OUT_BUF_END && w.sent == [] && w.out == []
    ensures lz.Valid() && lz.Tokens() == [] && lz.totalBytes == 0 && lz.codeEnd == 1
  {
    hide BitWriter.Valid, LzCodeBuffer.Valid;
    w := new BitWriter(OUT_BUF_SIZE, OUT_BUF_END);
    lz := new LzCodeBuffer();
  }

  lemma PartsApart(w: BitWriter, lz: LzCodeBuffer, lit: CodeTable, dist: CodeTable, len: CodeTable)
    requires lit.Shape() && dist.Shape() && len.Shape() && lit.sizes.Length == 288 && dist.sizes.Length == 32
    requires len.sizes.Length == 19
    requires Separate(lit, dist) && Separate(lit, len) && Separate(dist, len) && BuffersApart(w, lz)
    requires BlockFlusher.Buffers(w, lz) !! BlockFlusher.Tables(lit, dist, len)
    ensures AllSeparate(w, lit, dist, len)
    ensures w.buf != lz.buf && lz.litCount as object != w.buf as object && lz.distCount as object != w.buf as object
    ensures lz.litCount as object != lz.buf as object && lz.distCount as object != lz.buf as object
  {
  }

  method NewFlusher(options: Options) returns (f: BlockFlusher)
    ensures f.Valid() && f.options == options && f.blocks == [] && f.lz.Tokens() == [] && f.lz.totalBytes == 0
    ensures f.lz.codeEnd == 1 && f.w.out == []
    ensures fresh(f) && fresh(f.w) && fresh(f.lz) && fresh(BlockFlusher.Buffers(f.w, f.lz))
    ensures fresh(BlockFlusher.Tables(f.lit, f.dist, f.len))
  {
    hide *;
    var lit, dist, len := NewTables();
    var w, lz := NewBuffers(BlockFlusher.Tables(lit, dist, len));
    PartsApart(w, lz, lit, dist, len);
    f := new BlockFlusher(options, w, lz, lit, dist, len);
  }

  ghost function Chains(d: Dictionary): set<object> {
    {d.dict as object, d.next as object, d.hash as object}
  }

  method NewDictionary(ghost others: set<object>) returns (d: Dictionary)
    ensures d.Valid() && d.seen == [] && fresh(d) && fresh(Chains(d)) && Chains(d) !! others
  {
    hide Dictionary.Valid;
    d := new Dictionary();
  }

  ghost function Arrays(f: BlockFlusher): set<object> {
    BlockFlusher.Buffers(f.w, f.lz) + BlockFlusher.Tables(f.lit, f.dist, f.len)
  }

  /** A new compressor (`tdefl_init`). */
  method NewCompressor(options: Options) returns (c: Compressor)
    ensures c.Valid() && c.f.options == options && c.d.seen == [] && !c.finished && fresh(c.Repr())
  {
    hide *;
    var f := NewFlusher(options);
    var d := NewDictionary(Arrays(f));
    DictionaryOutside(d, f);
    c := new Compressor(d, f);
    ReprIs(c);
  }

  lemma DictionaryOutside(d: Dictionary, f: BlockFlusher)
    requires d.Valid() && Chains(d) !! Arrays(f)
    ensures f.Outside(d.dict) && Compressor.OutsideAll(d, f)
  {
    assert d.dict as object in Chains(d) && d.next as object in Chains(d) && d.hash as object in Chains(d);
  }

  lemma ReprIs(c: Compressor)
    ensures c.Repr() ==
      {c, c.d, c.f, c.f.w, c.f.lz} + Chains(c.d) + BlockFlusher.Buffers(c.f.w, c.f.lz) +
      BlockFlusher.Tables(c.f.lit, c.f.dist, c.f.len)
  {
  }

  // ---------------------------------------------------------------- compressing

  /** `out` is a complete stream of blocks that stands for `data`. */
  ghost predicate StreamOf(out: seq<byte>, zlib: bool, data: seq<byte>, flg: byte, bs: seq<Block>) {
    && ValidStream(bs) && Terminated(bs) && (zlib ==> GoodHeader(0x78, flg)) && Output(bs) == data
    && BytesBits(out) == Wrapped(zlib, flg, bs)
  }

  ghost predicate Encodes(out: seq<byte>, zlib: bool, data: seq<byte>) {
    exists flg: byte, bs: seq<Block> :: StreamOf(out, zlib, data, flg, bs)
  }

  datatype Piece = Piece(data: seq<byte>, flush: Flush)

  function AllData(pieces: seq<Piece>): seq<byte> {
    if pieces == [] then [] else AllData(pieces[..|pieces| - 1]) + pieces[|pieces| - 1].data
  }

  /** A new compressor takes the pieces one by one, each with its own flush. */
  method TakePieces(pieces: seq<Piece>, options: Options) returns (c: Compressor)
    requires forall i :: 0 <= i < |pieces| ==> pieces[i].flush != Finish
    ensures c.Valid() && !c.finished && c.d.seen == AllData(pieces) && fresh(c.Repr()) && c.f.options == options
    ensures pieces != [] && Flushes(pieces[|pieces| - 1]) ==> HandedOver(c)
  {
    hide *;
    c := NewCompressor(options);
    NoData(pieces);
    for i := 0 to |pieces|
      invariant c.Valid() && !c.finished && c.d.seen == AllData(pieces[..i]) && fresh(c.Repr())
      invariant c.f.options == options && (i > 0 && Flushes(pieces[i - 1]) ==> HandedOver(c))
    {
      MoreData(pieces, i);
      CompressMore(c, pieces[i].data, pieces[i].flush);
      assert pieces[i] == Piece(pieces[i].data, pieces[i].flush);
    }
    assert pieces[..|pieces|] == pieces;
  }

  predicate Flushes(p: Piece) { p.flush == SyncFlush || p.flush == FullFlush }

  /** All the data seen is in blocks, and all their bits have been handed over. */
  ghost predicate HandedOver(c: Compressor)
    reads c, c.d, c.f, c.f.w
  {
    && c.f.blocks != [] && ValidStream(c.f.blocks) && Output(c.f.blocks) == c.d.seen
    && c.f.w.sent == BytesBits(c.f.w.out)
  }

  /** Compresses the pieces one by one, each with its own flush, and then the last data, which ends the
      stream. Without pieces it is `tdefl_compress_mem_to_output`. */
  method CompressPieces(pieces: seq<Piece>, last: seq<byte>, options: Options)
      returns (out: seq<byte>, ghost flg: byte, ghost bs: seq<Block>)
    requires forall i :: 0 <= i < |pieces| ==> pieces[i].flush != Finish
    ensures StreamOf(out, options.zlib, AllData(pieces) + last, flg, bs)
    ensures options.zlib ==> flg == HeaderFlags(options.probes)
    ensures Encodes(out, options.zlib, AllData(pieces) + last)
  {
    hide *;
    var c := TakePieces(pieces, options);
    CompressMore(c, last, Finish);
    out := c.f.w.out;
    flg, bs := FinishedStream(c.f, c.adler, c.d.seen);
    IsEncoded(out, options.zlib, AllData(pieces) + last, flg, bs);
  }

  /** Compresses pieces, the last one with a flush. What has been handed over by then is all the data in whole
      blocks, with which some complete stream begins. */
  method FlushPieces(pieces: seq<Piece>, options: Options)
      returns (out: seq<byte>, ghost stream: seq<byte>, ghost flg: byte, ghost bs: seq<Block>)
    requires forall i :: 0 <= i < |pieces| ==> pieces[i].flush != Finish
    requires pieces != [] && Flushes(pieces[|pieces| - 1])
    ensures out <= stream && |out| < |stream| && StreamOf(stream, options.zlib, AllData(pieces), flg, bs)
    ensures WholeBlocks(out, options.zlib, AllData(pieces), bs)
  {
    hide *;
    var c := TakePieces(pieces, options);
    out := c.f.w.out;
    stream, flg, bs := ExtendedStream(c);
  }

  /** The bytes are the header and all blocks but the last one, which already stand for `data`. */
  ghost predicate WholeBlocks(out: seq<byte>, zlib: bool, data: seq<byte>, bs: seq<Block>) {
    && bs != [] && ValidStream(bs[..|bs| - 1]) && Output(bs[..|bs| - 1]) == data
    && 8 * |out| == HeadLength(zlib) + |StreamBits(bs[..|bs| - 1])|
  }

  /** An empty final block completes the stream. */
  lemma ExtendedStream(c: Compressor) returns (stream: seq<byte>, flg: byte, bs: seq<Block>)
    requires c.Valid() && HandedOver(c)
    ensures c.f.w.out <= stream && |c.f.w.out| < |stream|
    ensures StreamOf(stream, c.f.options.zlib, c.d.seen, flg, bs)
    ensures WholeBlocks(c.f.w.out, c.f.options.zlib, c.d.seen, bs)
  {
    hide *;
    var f, zlib := c.f, c.f.options.zlib;
    flg := Started(c);
    bs := f.blocks + [Block(true, Stored([]))];
    LastBlock(f.blocks);
    assert bs[..|bs| - 1] == f.blocks;
    var sum := Adler.Update(1, Output(bs));
    Adler.UpdateFits(1, Output(bs));
    WrappedIs(zlib, flg, bs, sum);
    var s := f.prefix + StreamBits(f.blocks);
    var b := BlockBits(|StreamBits(f.blocks)|, Block(true, Stored([])));
    var t := Trailer(|f.prefix + StreamBits(bs)|, zlib, sum);
    TrailerAligns(|f.prefix + StreamBits(bs)|, zlib, sum);
    assert Wrapped(zlib, flg, bs) == s + (b + t);
    stream := f.w.out + ToBytes(b + t);
    BytesBitsAppend(f.w.out, ToBytes(b + t));
    IsStreamOf(stream, zlib, c.d.seen, flg, bs);
    IsWhole(f.w.out, zlib, c.d.seen, bs, |f.prefix|);
  }

  lemma Started(c: Compressor) returns (flg: byte)
    requires c.Valid() && HandedOver(c)
    ensures var f := c.f;
      ValidStream(f.blocks) && NoneFinal(f.blocks) && Output(f.blocks) == c.d.seen &&
      f.w.sent == f.prefix + StreamBits(f.blocks) == BytesBits(f.w.out)
    ensures c.f.options.zlib ==> GoodHeader(0x78, flg)
    ensures c.f.prefix == if c.f.options.zlib then BytesBits([0x78, flg]) else []
    ensures |c.f.prefix| == HeadLength(c.f.options.zlib)
  {
    hide BytesBits, ValidStream, StreamBits, Output, NoneFinal, GoodHeader;
    flg := 0;
    assert c.f.Valid();
    if c.f.options.zlib {
      flg := HeaderFlags(c.f.options.probes);
    }
  }

  lemma LastBlock(blocks: seq<Block>)
    requires ValidStream(blocks) && NoneFinal(blocks)
    ensures var b := Block(true, Stored([]));
      var bs := blocks + [b];
      && b.body.Valid() && ValidStream(bs) && Output(bs) == Output(blocks) && Terminated(bs)
      && StreamBits(bs) == StreamBits(blocks) + BlockBits(|StreamBits(blocks)|, b)
      && BlockBits(|StreamBits(blocks)|, b) != []
  {
    var b := Block(true, Stored([]));
    assert b.body.Valid() && b.body.Fits(Output(blocks)) && b.body.Output(Output(blocks)) == Output(blocks);
    hide ValidStream, StreamBits, Output;
    StreamOne(blocks, b);
  }

  lemma IsStreamOf(out: seq<byte>, zlib: bool, data: seq<byte>, flg: byte, bs: seq<Block>)
    requires ValidStream(bs) && Terminated(bs) && (zlib ==> GoodHeader(0x78, flg)) && Output(bs) == data
    requires BytesBits(out) == Wrapped(zlib, flg, bs)
    ensures StreamOf(out, zlib, data, flg, bs)
  {
  }

  lemma IsWhole(out: seq<byte>, zlib: bool, data: seq<byte>, bs: seq<Block>, head: nat)
    requires bs != [] && ValidStream(bs[..|bs| - 1]) && Output(bs[..|bs| - 1]) == data && head == HeadLength(zlib)
    requires 8 * |out| == head + |StreamBits(bs[..|bs| - 1])|
    ensures WholeBlocks(out, zlib, data, bs)
  {
  }

  lemma IsEncoded(out: seq<byte>, zlib: bool, data: seq<byte>, flg: byte, bs: seq<Block>)
    requires StreamOf(out, zlib, data, flg, bs)
    ensures Encodes(out, zlib, data)
  {
  }

  lemma NoData(pieces: seq<Piece>)
    ensures AllData(pieces[..0]) == []
  {
  }

  lemma MoreData(pieces: seq<Piece>, i: nat)
    requires i < |pieces|
    ensures AllData(pieces[..i + 1]) == AllData(pieces[..i]) + pieces[i].data
  {
    assert pieces[..i + 1][..i] == pieces[..i];
  }

  method CompressMore(c: Compressor, data: seq<byte>, flush: Flush)
    requires c.Valid() && !c.finished
    modifies c.Repr()
    ensures c.d.seen == old(c.d.seen) + data && c.finished == (flush == Finish)
    ensures flush != Finish ==> c.Valid()
    ensures flush == Finish ==> ValidStream(c.f.blocks) && Output(c.f.blocks) == c.d.seen
    ensures flush == Finish ==> c.f.Finished(c.adler) && (c.f.options.zlib ==> c.adler == Adler.Update(1, c.d.seen))
    ensures Flushes(Piece(data, flush)) ==> HandedOver(c)
  {
    hide Compressor.Valid, BlockFlusher.Finished, Output, ValidStream, Adler.Update, BytesBits;
    c.Compress(data, flush);
  }

  /** What a finished compressor has handed over is a complete stream. */
  lemma FinishedStream(f: BlockFlusher, adler: nat, data: seq<byte>) returns (flg: byte, bs: seq<Block>)
    requires f.Finished(adler) && Output(f.blocks) == data && (f.options.zlib ==> adler == Adler.Update(1, data))
    ensures StreamOf(f.w.out, f.options.zlib, data, flg, bs)
    ensures f.options.zlib ==> flg == HeaderFlags(f.options.probes)
  {
    bs := f.blocks;
    flg := 0;
    if f.options.zlib {
      flg := HeaderFlags(f.options.probes);
    }
    OnlyLastFinal(bs);
    hide BytesBits, StreamBits, ValidStream, Output, Adler.Update, BigEndian, NoneFinal, Terminated, GoodHeader;
    WrappedIs(f.options.zlib, flg, bs, adler);
  }

  lemma OnlyLastFinal(bs: seq<Block>)
    requires bs != [] && NoneFinal(bs[..|bs| - 1]) && bs[|bs| - 1].final
    ensures Terminated(bs)
  {
    assert forall i :: 0 <= i < |bs| - 1 ==> bs[i] == bs[..|bs| - 1][i];
  }

  lemma WrappedIs(zlib: bool, flg: byte, bs: seq<Block>, adler: nat)
    requires ValidStream(bs) && adler < 0x1_0000_0000 && (zlib ==> adler == Adler.Update(1, Output(bs)))
    ensures var head := if zlib then BytesBits([0x78, flg]) else [];
      Wrapped(zlib, flg, bs) == head + StreamBits(bs) + Trailer(|head + StreamBits(bs)|, zlib, adler)
  {
    hide BytesBits, StreamBits, ValidStream, Output, Adler.Update, BigEndian;
    Adler.UpdateFits(1, Output(bs));
  }
}
