/** Decompressing data in memory, and the round trip: what the compressor wrote, in any pieces and with
    any flushes and options, the decompressor turns back into the data. */
module RoundTrip {
  import opened Bits
  import opened DecodeTable
  import opened BitReader
  import opened OutWindow
  import opened DeflateFormat
  import opened InflateTokens
  import opened InflateHeader
  import opened Inflate
  import opened DeflateMem
  import opened BlockFlusher
  import Adler = Adler32
  import L = LooseFormat
  import S = StrictForm

  // ---------------------------------------------------------------- decompressing

  method NewTables(ghost buf: array<byte>) returns (lit: HuffTable, dist: HuffTable, len: HuffTable)
    ensures fresh(lit) && fresh(lit.lookup) && fresh(lit.tree) && fresh(dist) && fresh(dist.lookup) && fresh(dist.tree)
    ensures fresh(len) && fresh(len.lookup) && fresh(len.tree) && Tables(lit, dist, len)
    ensures buf as object != lit.lookup as object && buf as object != lit.tree as object
    ensures buf as object != dist.lookup as object && buf as object != dist.tree as object
    ensures buf as object != len.lookup as object && buf as object != len.tree as object
  {
    lit := new HuffTable(288);
    dist := new HuffTable(32);
    len := new HuffTable(19);
  }

  lemma TablesOutside(o: OutWindow, lit: HuffTable, dist: HuffTable, len: HuffTable)
    requires Tables(lit, dist, len)
    requires o.buf as object != lit.lookup as object && o.buf as object != lit.tree as object
    requires o.buf as object != dist.lookup as object && o.buf as object != dist.tree as object
    requires o.buf as object != len.lookup as object && o.buf as object != len.tree as object
    ensures AllTables(o, lit, dist, len)
  {
  }

  /** Decompresses into a buffer of the given capacity (`tinfl_decompress_mem_to_mem`). For any input
      it ends, and what it accepts is a stream that means the output. If the input starts with
      a stream in which all symbols are given by their words, the output is what its blocks mean, and just that stream
      is consumed. If it is cut off, or the buffer is too small, the output is a prefix: at least the first `k` blocks,
      where block `k` is not there to its end. */
  method Decompress(input: seq<byte>, zlib: bool, capacity: nat, ghost stream: seq<byte>, ghost parts: L.Parts,
                    ghost live: bool)
      returns (st: Status, out: seq<byte>, consumed: nat, ghost k: nat)
    requires live ==> (stream <= input || input <= stream) && L.Formed(BytesBits(stream), zlib, parts)
    ensures st == Done ==> consumed <= |input| && L.Means(BytesBits(input[..consumed]), zlib, out)
    ensures st == Done && zlib ==> 4 <= consumed && Number(input[consumed - 4..consumed]) == Adler.Update(1, out)
    ensures |out| <= capacity && (st == NoRoom ==> |out| == capacity)
    ensures live && |stream| <= |input| && |L.Output(parts.blocks)| <= capacity ==>
      st == if L.Right(zlib, parts) then Done else Mismatch
    ensures live && st == Done ==> L.Right(zlib, parts)
    ensures live && (st == Done || st == Mismatch) ==> out == L.Output(parts.blocks) && consumed == |stream| <= |input|
    ensures live ==> out <= L.Output(parts.blocks) && (st == NoRoom ==> consumed <= |stream|)
    ensures live && st != Done && st != Mismatch ==>
      (st == NoInput && |input| < |stream|) || (st == NoRoom && |out| == capacity < |L.Output(parts.blocks)|)
    ensures live && st == NoInput ==> UpTo(|input|, out, zlib, parts.blocks, k)
  {
    hide *;
    if live { FormedBlocks(BytesBits(stream), zlib, parts); }
    var buf := new byte[capacity](_ => 0);
    var lit, dist, len := NewTables(buf);
    var o := new OutWindow(buf, false, 0);
    ghost var whole := if live && |input| < |stream| then stream else input;
    var r := new BitReader(input, whole);
    TablesOutside(o, lit, dist, len);
    st, consumed, k := Run(r, o, lit, dist, len, zlib, stream, parts, live);
    OutputIs(o);
    out := buf[..o.cur];
  }

  /** The same, when everything is set up. */
  method Run(r: BitReader, o: OutWindow, lit: HuffTable, dist: HuffTable, len: HuffTable, zlib: bool,
             ghost stream: seq<byte>, ghost parts: L.Parts, ghost live: bool)
      returns (st: Status, consumed: nat, ghost k: nat)
    requires r.Valid() && r.Pos() == 0 && r.numBits == 0 && AllTables(o, lit, dist, len)
    requires o.Valid() && !o.wrapping && o.all == []
    requires live ==> stream <= r.input && L.Formed(BytesBits(stream), zlib, parts) && L.ValidStream(parts.blocks)
    modifies r`cur, r`end, r`bitBuf, r`numBits, o`cur, o`end, o`taken, o`from, o`check, o`all, o.buf
    modifies lit, lit.lookup, lit.tree, dist, dist.lookup, dist.tree, len, len.lookup, len.tree
    ensures o.Valid() && consumed <= |r.data| && (st == NoRoom ==> o.Full())
    ensures st == Done ==> L.Means(BytesBits(r.data[..consumed]), zlib, o.all)
    ensures st == Done && zlib ==> 4 <= consumed && Number(r.data[consumed - 4..consumed]) == Adler.Update(1, o.all)
    ensures live ==> o.all <= L.Output(parts.blocks) && (st == NoRoom ==> consumed <= |stream|)
    ensures live && (st == Done || st == Mismatch) ==>
      o.all == L.Output(parts.blocks) && consumed == |stream| && (st == Done <==> L.Right(zlib, parts))
    ensures live && st != Done && st != Mismatch ==>
      (st == NoInput && |r.data| < |stream|) || (st == NoRoom && o.cur == o.buf.Length < |L.Output(parts.blocks)|)
    ensures live && st == NoInput ==> UpTo(|r.data|, o.all, zlib, parts.blocks, k)
  {
    hide *;
    ghost var more := if live then BytesBits(r.input[|stream|..]) else [];
    if live { StreamAhead(r, stream); }
    ghost var bits, rest0 := [], r.Rest();
    StartOf(r);
    st, k, bits := InflateStream(r, o, lit, dist, len, zlib, BytesBits(stream), parts, more, live);
    if live { WhyStopped(r, o, st, stream, parts.blocks); }
    if st == Done { ConsumedBits(r, bits, rest0); }
    consumed := Consumed(r, st, stream, more, live);
  }

  lemma FormedBlocks(bits: seq<bool>, zlib: bool, parts: L.Parts)
    requires L.Formed(bits, zlib, parts)
    ensures L.ValidStream(parts.blocks)
  {
  }

  /** Whole bytes that are still in the bit buffer have not been consumed. */
  method Consumed(r: BitReader, st: Status, ghost stream: seq<byte>, ghost more: seq<bool>, ghost live: bool)
      returns (consumed: nat)
    requires r.Valid() && (st == Done || st == Mismatch ==> r.numBits == 0)
    requires live ==> stream <= r.input && more == BytesBits(r.input[|stream|..])
    requires live && st != NoInput ==> |more| <= |r.Rest()| && (st != NoRoom ==> r.Rest() == more && r.numBits == 0)
    modifies r`cur, r`bitBuf, r`numBits
    ensures consumed <= |r.data| && (st == Done ==> consumed == old(r.cur))
    ensures live && st != NoInput ==> consumed <= |stream| && (st != NoRoom ==> consumed == |stream|)
  {
    hide *;
    if st != NoInput { r.PutBack(0); }
    StartInput(r);
    consumed := r.cur;
    if live && st != NoInput { TakenUpTo(r, stream, st != NoRoom, more); }
  }

  lemma StartOf(r: BitReader)
    requires r.Valid() && r.Pos() == 0
    ensures r.Rest() == BytesBits(r.input)
  {
    hide BytesBits;
  }

  lemma ConsumedBits(r: BitReader, bits: seq<bool>, rest0: seq<bool>)
    requires r.Valid() && r.numBits == 0 && rest0 == BytesBits(r.input) == bits + r.Rest()
    ensures r.cur <= |r.data| && bits == BytesBits(r.data[..r.cur])
  {
    var c := r.cur;
    assert r.input[..c] == r.data[..c] && r.input == r.input[..c] + r.input[c..];
    BytesBitsAppend(r.input[..c], r.input[c..]);
    hide BytesBits;
    assert |r.Rest()| == 8 * (|r.input| - c);
    assert bits == rest0[..8 * c];
  }

  lemma StreamAhead(r: BitReader, stream: seq<byte>)
    requires r.Valid() && r.Pos() == 0 && stream <= r.input
    ensures r.Rest() == BytesBits(stream) + BytesBits(r.input[|stream|..])
  {
    assert r.input == stream + r.input[|stream|..];
    BytesBitsAppend(stream, r.input[|stream|..]);
    hide BytesBits;
  }

  lemma WhyStopped(r: BitReader, o: OutWindow, st: Status, stream: seq<byte>, bs: seq<L.Block>)
    requires r.Valid() && o.Valid() && !o.wrapping && stream <= r.input && L.ValidStream(bs) && o.all <= L.Output(bs)
    requires st == Done || st == Mismatch || Stopped(r, o, st, L.Output(bs), BytesBits(r.input[|stream|..]))
    requires st == Done || st == Mismatch ==>
      r.numBits == 0 && r.Rest() == BytesBits(r.input[|stream|..]) && o.all == L.Output(bs)
    requires st == NoRoom ==> o.Full()
    ensures st == Done || st == Mismatch ==> r.cur == |stream| <= |r.data|
    ensures st == Done || st == Mismatch || st == NoInput || st == NoRoom
    ensures st == NoInput ==> |r.data| < |stream|
    ensures st == NoRoom ==> o.cur == o.buf.Length < |L.Output(bs)|
  {
    PosRest(r);
    assert |BytesBits(r.input[|stream|..])| == 8 * (|r.input| - |stream|);
    hide BytesBits, L.Output;
  }

  /** The reader has not taken more bytes than the stream has, once whole bytes are put back. */
  lemma TakenUpTo(r: BitReader, stream: seq<byte>, all: bool, more: seq<bool>)
    requires r.Valid() && stream <= r.input && more == BytesBits(r.input[|stream|..]) && |more| <= |r.Rest()|
    requires all ==> r.Rest() == more && r.numBits == 0
    requires r.numBits < 8
    ensures r.cur <= |stream| && (all ==> r.cur == |stream|)
  {
    PosRest(r);
    assert |more| == 8 * (|r.input| - |stream|);
    hide BytesBits;
  }

  lemma OutputIs(o: OutWindow)
    requires o.Valid() && !o.wrapping
    ensures o.cur <= o.buf.Length && o.buf[..o.cur] == o.all && (o.Full() ==> o.cur == o.buf.Length)
  {
    forall i: nat | i < |o.all| ensures o.buf[i] == o.all[i] {
      o.ByteAt(i);
    }
  }

  // ---------------------------------------------------------------- the round trip

  /** Compresses the pieces and the last data and decompresses the result, followed by other bytes: all
      the data comes back, and the other bytes are left alone. In a buffer that is too small the beginning
      comes back. */
  method CompressAndDecompress(pieces: seq<Piece>, last: seq<byte>, options: Options, behind: seq<byte>, capacity: nat)
      returns (st: Status, back: seq<byte>, consumed: nat, size: nat)
    requires forall i :: 0 <= i < |pieces| ==> pieces[i].flush != Finish
    ensures |AllData(pieces) + last| <= capacity ==>
      st == Done && back == AllData(pieces) + last && consumed == size
    ensures capacity < |AllData(pieces) + last| ==> st == NoRoom && back == (AllData(pieces) + last)[..capacity]
  {
    hide *;
    var z; ghost var flg, bs, k;
    z, flg, bs := CompressPieces(pieces, last, options);
    ghost var parts := LooseParts(z, options.zlib, AllData(pieces) + last, flg, bs);
    size := |z|;
    assert z <= z + behind;
    st, back, consumed, k := Decompress(z + behind, options.zlib, capacity, z, parts, true);
  }

  /** A stream of the compressor, in the decompressor's terms. */
  lemma LooseParts(z: seq<byte>, zlib: bool, data: seq<byte>, flg: byte, bs: seq<Block>) returns (parts: L.Parts)
    requires StreamOf(z, zlib, data, flg, bs)
    ensures ValidStream(bs) && parts == S.PartsOf(zlib, flg, bs)
    ensures L.Formed(BytesBits(z), zlib, parts) && L.SmallWindow(parts)
    ensures L.ValidStream(parts.blocks) && L.Output(parts.blocks) == data && L.Right(zlib, parts)
  {
    hide L.Formed, L.ValidStream, L.Output, ValidStream, Output, Terminated, GoodHeader, BytesBits, Wrapped, S.Loosen,
      L.SmallWindow, L.Right;
    S.StrictIsFormed(zlib, flg, bs);
    parts := S.PartsOf(zlib, flg, bs);
  }

  /** After a flush everything so far can be had back from what was handed over so far: the decompressor
      puts out all the data, and only then waits for more input. */
  method FlushAndDecompress(pieces: seq<Piece>, options: Options, capacity: nat) returns (st: Status, back: seq<byte>)
    requires forall i :: 0 <= i < |pieces| ==> pieces[i].flush != Finish
    requires pieces != [] && Flushes(pieces[|pieces| - 1])
    ensures |AllData(pieces)| <= capacity ==> st == NoInput && back == AllData(pieces)
    ensures capacity < |AllData(pieces)| ==> st != Done && back <= AllData(pieces)
  {
    hide *;
    var z, consumed; ghost var stream, flg, bs, k;
    z, stream, flg, bs := FlushPieces(pieces, options);
    ghost var parts := LooseParts(stream, options.zlib, AllData(pieces), flg, bs);
    st, back, consumed, k := Decompress(z, options.zlib, capacity, stream, parts, true);
    if st == NoInput { WholeOutput(z, back, options.zlib, AllData(pieces), flg, bs, k); }
  }

  lemma WholeOutput(out: seq<byte>, all: seq<byte>, zlib: bool, data: seq<byte>, flg: byte, bs: seq<Block>, k: nat)
    requires ValidStream(bs)
    requires WholeBlocks(out, zlib, data, bs) && UpTo(|out|, all, zlib, S.PartsOf(zlib, flg, bs).blocks, k)
    ensures data <= all
  {
    var m := |bs| - 1;
    S.LoosenFront(bs, m);
    S.BlocksAreLoose(bs[..m]);
    hide StreamBits, Output, ValidStream, L.StreamBits, L.Output, L.ValidStream, S.Loosen;
    var ls := S.Loosen(bs);
    if k < m { FrontPrefix(ls, k + 1, m); } else { FrontPrefix(ls, m, k); }
  }

  lemma FrontPrefix(bs: seq<L.Block>, i: nat, j: nat)
    requires i <= j <= |bs| && L.ValidStream(bs[..j])
    ensures L.ValidStream(bs[..i]) && L.StreamBits(bs[..i]) <= L.StreamBits(bs[..j])
    ensures L.Output(bs[..i]) <= L.Output(bs[..j])
  {
    hide L.StreamBits, L.Output, L.ValidStream;
    L.StreamPrefix(bs[..j], i);
    assert bs[..j][..i] == bs[..i];
  }
}
