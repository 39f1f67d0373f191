/** The round trip through the decompression stream: whatever input, room and flush modes the calls come
    with, the caller gets what the blocks mean. */
module InflateCalls {
  import opened Bits
  import opened DeflateFormat
  import opened DeflateMem
  import opened Inflate
  import opened RoundTrip
  import BlockFlusher
  import D = InflateDecoder
  import W = InflateWindow
  import L = LooseFormat

  /** The bytes offered are those of a stream and more, or the beginning of them. The calls
      deliver a prefix of what the blocks mean, and all of it when the end is reported; and the end is
      reported if all of the stream is offered, each time with some room, by enough calls. What comes after the
      stream is left alone. */
  method InflateInPieces(data: seq<byte>, zlib: bool, calls: seq<W.Call>,
                         ghost stream: seq<byte>, ghost parts: L.Parts)
      returns (outs: seq<seq<byte>>, codes: seq<W.Code>, taken: nat)
    requires stream <= data || data <= stream
    requires L.Formed(BytesBits(stream), zlib, parts) && D.Accepted(zlib, parts)
    ensures |outs| == |codes| == |calls| && forall i :: 0 <= i < |calls| ==> |outs[i]| <= calls[i].room
    ensures W.Concat(outs) <= L.Output(parts.blocks)
    ensures taken <= |data| && taken <= |stream|
    ensures W.StreamEnd in codes ==> W.Concat(outs) == L.Output(parts.blocks) && taken == |stream|
    ensures |stream| <= |data| && W.Keen(calls, |data|) && |calls| > |L.Output(parts.blocks)| ==> W.StreamEnd in codes
    ensures W.Keen(calls, |data|) && |calls| > |L.Output(parts.blocks)| + 1 && W.StreamEnd !in codes ==>
      exists k: nat :: UpTo(|data|, W.Concat(outs), zlib, parts.blocks, k)
  {
    hide *;
    ghost var source := if |data| < |stream| then stream else data;
    var decoder := new D.Decoder(zlib, true, source, stream, parts);
    var s := new W.Stream(decoder);
    outs, codes := W.Calls(s, data, calls);
    StreamOutput(s);
    taken := |s.decoder.fed|;
    WholeIs(s.decoder, |data|, W.Concat(outs));
  }

  lemma IsAccepted(zlib: bool, parts: L.Parts)
    requires L.ValidStream(parts.blocks) && L.Right(zlib, parts) && L.SmallWindow(parts)
    ensures D.Accepted(zlib, parts)
  {
  }

  lemma WholeIs(d: D.Decoder, n: nat, all: seq<byte>)
    ensures d.HasWhole(n, all) <==> exists k: nat :: UpTo(n, all, d.zlib, d.parts.blocks, k)
  {
  }

  lemma StreamOutput(s: W.Stream)
    requires s.Valid() && s.decoder.live
    ensures L.ValidStream(s.decoder.parts.blocks) && s.decoder.output <= L.Output(s.decoder.parts.blocks)
    ensures s.decoder.finished ==> s.decoder.output == L.Output(s.decoder.parts.blocks)
    ensures |s.decoder.fed| <= |s.decoder.stream| && (s.decoder.finished ==> s.decoder.fed == s.decoder.stream)
  {
    assert s.decoder.Valid();
    hide L.StreamOf, L.Output, L.ValidStream;
  }

  /** What the compressor wrote, taken from it in any pieces, comes back in any pieces. */
  method CompressAndInflate(pieces: seq<Piece>, last: seq<byte>, options: BlockFlusher.Options, behind: seq<byte>,
                            calls: seq<W.Call>)
      returns (outs: seq<seq<byte>>, codes: seq<W.Code>, size: nat, taken: nat)
    requires forall i :: 0 <= i < |pieces| ==> pieces[i].flush != BlockFlusher.Finish
    ensures |outs| == |codes| == |calls| && forall i :: 0 <= i < |calls| ==> |outs[i]| <= calls[i].room
    ensures W.Concat(outs) <= AllData(pieces) + last && taken + |behind| <= size
    ensures W.StreamEnd in codes ==> W.Concat(outs) == AllData(pieces) + last && taken + |behind| == size
    ensures W.Keen(calls, size) && |calls| > |AllData(pieces) + last| ==> W.StreamEnd in codes
  {
    hide *;
    var z; ghost var flg, bs;
    z, flg, bs := CompressPieces(pieces, last, options);
    ghost var parts := LooseParts(z, options.zlib, AllData(pieces) + last, flg, bs);
    size := |z + behind|;
    assert z <= z + behind;
    IsAccepted(options.zlib, parts);
    outs, codes, taken := InflateInPieces(z + behind, options.zlib, calls, z, parts);
  }

  /** And after a flush, what has been handed over so far is enough for all the data so far. */
  method FlushAndInflate(pieces: seq<Piece>, options: BlockFlusher.Options, calls: seq<W.Call>)
      returns (outs: seq<seq<byte>>, codes: seq<W.Code>, size: nat)
    requires forall i :: 0 <= i < |pieces| ==> pieces[i].flush != BlockFlusher.Finish
    requires pieces != [] && Flushes(pieces[|pieces| - 1])
    ensures |outs| == |codes| == |calls| && forall i :: 0 <= i < |calls| ==> |outs[i]| <= calls[i].room
    ensures W.Concat(outs) <= AllData(pieces)
    ensures W.Keen(calls, size) && |calls| > |AllData(pieces)| + 1 ==> W.Concat(outs) == AllData(pieces)
  {
    hide *;
    var z; ghost var stream, flg, bs;
    z, stream, flg, bs := FlushPieces(pieces, options);
    ghost var parts := LooseParts(stream, options.zlib, AllData(pieces), flg, bs);
    size := |z|;
    IsAccepted(options.zlib, parts);
    var taken;
    outs, codes, taken := InflateInPieces(z, options.zlib, calls, stream, parts);
    if W.Keen(calls, size) && |calls| > |AllData(pieces)| + 1 && W.StreamEnd !in codes {
      ghost var k: nat :| UpTo(|z|, W.Concat(outs), options.zlib, parts.blocks, k);
      WholeOutput(z, W.Concat(outs), options.zlib, AllData(pieces), flg, bs, k);
    }
  }
}
