/** The resumable decoder behind the decompression stream: calls of `tinfl_decompress` that write into
    a circular window which keeps the last 32768 bytes. */
module InflateDecoder {
  import opened Bits
  import opened Tokens
  import opened BitReader
  import opened OutWindow
  import opened DeflateFormat
  import opened DeflateMem
  import opened Inflate
  import opened RoundTrip
  import T = InflateTokens
  import L = LooseFormat

  const DICT_SIZE := 32768

  datatype Status = Done | NeedsMoreInput | HasMoreOutput | Failed

  /** What the checks of the decompressor demand. */
  ghost predicate Accepted(zlib: bool, parts: L.Parts) {
    L.ValidStream(parts.blocks) && L.Right(zlib, parts) && L.SmallWindow(parts)
  }

  lemma AcceptedParts(zlib: bool, parts: L.Parts)
    requires Accepted(zlib, parts)
    ensures L.ValidStream(parts.blocks) && L.Right(zlib, parts) && L.SmallWindow(parts)
  {
  }

  /** Where byte `i` of the output is in the window. */
  function Slot(i: nat): (k: nat)
    ensures k < DICT_SIZE
  {
    i % DICT_SIZE
  }

  /** The window holds byte `i` of the output. */
  predicate Holds(dict: seq<byte>, output: seq<byte>, i: nat) {
    |dict| == DICT_SIZE && i < |output| && dict[Slot(i)] == output[i]
  }

  /** The window holds the last bytes of the first `n` ones of the output, as far as they fit. */
  ghost predicate Window(dict: seq<byte>, output: seq<byte>, n: nat) {
    |dict| == DICT_SIZE && n <= |output| && forall i: nat :: i < n <= i + DICT_SIZE ==> Holds(dict, output, i)
  }

  /** `dict` after the next `k` bytes of the output have been written at `ofs`. */
  function Written(dict: seq<byte>, ofs: nat, output: seq<byte>, n: nat, k: nat): (r: seq<byte>)
    requires ofs + k <= |dict| && n + k <= |output|
    ensures |r| == |dict|
  {
    dict[..ofs] + output[n..n + k] + dict[ofs + k..]
  }

  lemma WriteWindow(dict: seq<byte>, ofs: nat, output: seq<byte>, n: nat, k: nat)
    requires Window(dict, output, n) && n + k <= |output| && ofs == Slot(n) && ofs + k <= DICT_SIZE
    ensures Window(Written(dict, ofs, output, n, k), output, n + k)
  {
    var r := Written(dict, ofs, output, n, k);
    forall i: nat | i < n + k <= i + DICT_SIZE ensures Holds(r, output, i) {
      WriteSlot(i, n, k);
      if i < n { assert Holds(dict, output, i); }
    }
  }

  /** Bytes that are still needed are not overwritten. */
  lemma WriteSlot(i: nat, n: nat, k: nat)
    requires Slot(n) + k <= DICT_SIZE && i < n + k <= i + DICT_SIZE
    ensures if i >= n then Slot(i) == Slot(n) + (i - n) else Slot(i) < Slot(n) || Slot(i) >= Slot(n) + k
  {
  }

  lemma WindowGrows(dict: seq<byte>, a: seq<byte>, b: seq<byte>)
    requires Window(dict, a, |a|) && a <= b
    ensures Window(dict, b, |a|)
  {
    forall i: nat | i < |a| <= i + DICT_SIZE ensures Holds(dict, b, i) {
      assert Holds(dict, a, i);
    }
  }

  /** What lies in the window from the slot of byte `m` on. */
  lemma ReadWindow(dict: seq<byte>, output: seq<byte>, m: nat, k: nat, n: nat)
    requires Window(dict, output, n) && m + k <= n <= m + DICT_SIZE && Slot(m) + k <= DICT_SIZE
    ensures dict[Slot(m)..Slot(m) + k] == output[m..m + k]
  {
    var a, b := dict[Slot(m)..Slot(m) + k], output[m..m + k];
    forall j | 0 <= j < k ensures a[j] == b[j] {
      assert Holds(dict, output, m + j);
    }
  }

  lemma NextSlot(m: nat, k: nat)
    ensures (Slot(m) + k) % DICT_SIZE == Slot(m + k)
  {
  }

  /** The resumable decoder (`tinfl_decompress`). A call continues where the last one stopped; in the model it
      decodes again what has been taken so far, and then goes on with the new input. `live`: the input is
      taken from `source`, which starts with `stream`, a stream with these parts. */
  class Decoder {
    const zlib: bool
    var fed: seq<byte>      // the input taken so far
    var output: seq<byte>   // everything put out so far
    var finished: bool
    ghost const live: bool
    ghost const source: seq<byte>
    ghost const stream: seq<byte>
    ghost const parts: L.Parts

    constructor (zlib: bool, ghost live: bool, ghost source: seq<byte>, ghost stream: seq<byte>,
                 ghost parts: L.Parts)
      requires live ==> stream <= source && L.Formed(BytesBits(stream), zlib, parts) && Accepted(zlib, parts)
      ensures Valid() && fed == output == [] && !finished && this.zlib == zlib
      ensures this.live == live && this.source == source && this.stream == stream && this.parts == parts
    {
      this.zlib, fed, output, finished := zlib, [], [], false;
      this.live, this.source, this.stream, this.parts := live, source, stream, parts;
      new;
      hide L.StreamOf, L.Output, L.ValidStream;
    }

    ghost predicate Valid()
      reads this
    {
      live ==>
        && stream <= source && L.Formed(BytesBits(stream), zlib, parts) && Accepted(zlib, parts) && fed <= source
        && output <= L.Output(parts.blocks) && (finished ==> output == L.Output(parts.blocks))
        && |fed| <= |stream| && (finished ==> fed == stream)
    }

    /** More input comes from the same source. */
    ghost predicate CanTake(input: seq<byte>)
      reads this`fed
    {
      live ==> fed + input <= source
    }

    /** Of the first `n` bytes of input, `all` has the blocks that are there to their ends. */
    ghost predicate HasWhole(n: nat, all: seq<byte>) {
      exists k: nat :: UpTo(n, all, zlib, parts.blocks, k)
    }

    lemma HasMore(n: nat, a: seq<byte>, b: seq<byte>)
      requires HasWhole(n, a) && a <= b
      ensures HasWhole(n, b)
    {
      var k: nat :| UpTo(n, a, zlib, parts.blocks, k);
      MoreUpTo(n, a, b, zlib, parts.blocks, k);
    }

    /** One call on the circular window. It stops for input only when all has been used and the caller
        says there is more, and for output only when the window is full up to its end. */
    method Decompress(input: seq<byte>, dict: array<byte>, ofs: nat, hasMoreInput: bool)
        returns (used: nat, out: nat, status: Status)
      requires Valid() && CanTake(input) && dict.Length == DICT_SIZE && ofs < DICT_SIZE
      requires finished || ofs == Slot(|output|)
      modifies this`fed, this`output, this`finished, dict
      ensures Valid() && used <= |input| && fed == old(fed) + input[..used]
      ensures ofs + out <= DICT_SIZE && old(output) <= output && |output| == |old(output)| + out
      ensures dict[..] == Written(old(dict[..]), ofs, output, |old(output)|, out)
      ensures old(finished) ==> status == Done && used == out == 0
      ensures finished <==> status == Done
      ensures status == NeedsMoreInput ==> used == |input| && hasMoreInput
      ensures status == HasMoreOutput ==> ofs + out == DICT_SIZE
      ensures live && status == Failed ==> !hasMoreInput && |fed| < |stream|
      ensures live && status == NeedsMoreInput ==> HasWhole(|fed|, output)
      ensures live && |stream| <= |old(fed)| + |input| ==> status == Done || status == HasMoreOutput
    {
      hide *;
      if finished {
        WrittenIs(dict[..], ofs, output, []);
        return 0, 0, Done;
      }
      var st, piece; ghost var k;
      st, piece, used, k := Resume(input, ofs);
      WrittenIs(dict[..], ofs, output, piece);
      WriteBytes(dict, ofs, piece);
      TakenOn(st, input, used, piece);
      fed, output, finished, out := fed + input[..used], output + piece, st == T.Done, |piece|;
      status :=
        if st == T.Done then Done
        else if st == T.NoRoom then HasMoreOutput
        else if st == T.NoInput && hasMoreInput then NeedsMoreInput
        else Failed;
      if live { FedStream(st == T.Done); }
      IsValid();
      if live && st == T.NoInput { IsWhole(|fed|, output, k); }
    }

    lemma IsWhole(n: nat, all: seq<byte>, k: nat)
      requires UpTo(n, all, zlib, parts.blocks, k)
      ensures HasWhole(n, all)
    {
    }

    lemma TakenOn(st: T.Status, input: seq<byte>, used: nat, piece: seq<byte>)
      requires Valid() && CanTake(input) && used <= |input| && (live ==> L.ValidStream(parts.blocks))
      requires live ==> output + piece <= L.Output(parts.blocks)
      requires live && st == T.Done ==> output + piece == L.Output(parts.blocks)
      ensures live ==>
        && stream <= source && L.Formed(BytesBits(stream), zlib, parts) && Accepted(zlib, parts)
        && fed + input[..used] <= source && output + piece <= L.Output(parts.blocks)
    {
      hide L.Output, L.ValidStream, L.StreamOf;
      assert fed + input[..used] <= fed + input;
    }

    lemma IsValid()
      requires live ==>
        && stream <= source && L.Formed(BytesBits(stream), zlib, parts) && Accepted(zlib, parts) && fed <= source
        && output <= L.Output(parts.blocks) && (finished ==> output == L.Output(parts.blocks))
        && |fed| <= |stream| && (finished ==> fed == stream)
      ensures Valid()
    {
    }

    /** The bytes taken are all of the stream, if there are as many. */
    lemma FedStream(all: bool)
      requires stream <= source && fed <= source && (all ==> |fed| == |stream|)
      ensures all ==> fed == stream
    {
    }

    method WriteBytes(dict: array<byte>, ofs: nat, piece: seq<byte>)
      requires ofs + |piece| <= dict.Length
      modifies dict
      ensures dict[..] == old(dict[..ofs]) + piece + old(dict[ofs + |piece|..])
    {
      for i := 0 to |piece|
        invariant forall j :: 0 <= j < i ==> dict[ofs + j] == piece[j]
        invariant forall j :: 0 <= j < dict.Length && !(ofs <= j < ofs + i) ==> dict[j] == old(dict[j])
      {
        dict[ofs + i] := piece[i];
      }
    }

    /** Runs the decoder on all the input up to now, and until the window is full. */
    method Resume(input: seq<byte>, ofs: nat) returns (st: T.Status, piece: seq<byte>, used: nat, ghost k: nat)
      requires Valid() && CanTake(input) && ofs < DICT_SIZE && ofs == Slot(|output|)
      ensures ofs + |piece| <= DICT_SIZE && used <= |input|
      ensures (st == T.NoInput ==> used == |input|) && (st == T.NoRoom ==> ofs + |piece| == DICT_SIZE)
      ensures live ==> L.ValidStream(parts.blocks) && output + piece <= L.Output(parts.blocks)
      ensures live && st == T.Done ==> output + piece == L.Output(parts.blocks)
      ensures live ==> st == T.Done || st == T.NoRoom || (st == T.NoInput && |fed| + |input| < |stream|)
      ensures live ==> |fed| + used <= |stream| && (st == T.Done ==> |fed| + used == |stream|)
      ensures live && st == T.NoInput ==> UpTo(|fed + input|, output + piece, zlib, parts.blocks, k)
    {
      hide *;
      ValidParts(input);
      SlotIs(|output|);
      var data := fed + input;
      ghost var whole := if live then source else data;
      var buf := new byte[DICT_SIZE](_ => 0);
      var lit, dist, len := RoundTrip.NewTables(buf);
      var o := new OutWindow(buf, true, |output| - ofs + DICT_SIZE);
      var r := new BitReader(data, whole);
      TablesOutside(o, lit, dist, len);
      ghost var more := if live then BytesBits(whole[|stream|..]) else [];
      if live {
        StreamAhead(r, stream);
        AcceptedParts(zlib, parts);
      }
      ghost var bits;
      st, k, bits := InflateStream(r, o, lit, dist, len, zlib, BytesBits(stream), parts, more, live);
      NewPiece(o, output, ofs);
      piece := if o.taken + o.cur > |output| then buf[ofs..o.cur] else [];
      if live {
        WhyWaiting(r, o, st, stream, parts.blocks, output, piece);
        if st == T.NoInput { MoreUpTo(|data|, o.all, output + piece, zlib, parts.blocks, k); }
      }
      StartInput(r);
      if st == T.NoInput {
        used := |input|;
      } else if r.cur > |fed| {
        r.PutBack(|fed|);
        StartInput(r);
        if live && r.numBits < 8 { TakenUpTo(r, stream, st == T.Done, more); }
        used := r.cur - |fed|;
      } else {
        if live && st == T.Done { TakenUpTo(r, stream, true, more); }
        used := 0;
      }
    }

    lemma ValidParts(input: seq<byte>)
      requires Valid() && CanTake(input)
      ensures live ==> L.Formed(BytesBits(stream), zlib, parts) && Accepted(zlib, parts)
      ensures live ==> stream <= source && fed + input <= source && L.ValidStream(parts.blocks)
      ensures live ==> output <= L.Output(parts.blocks) && |fed| <= |stream|
    {
    }

    /** One call that writes straight into the caller's buffer with `room` bytes. */
    method DecompressAll(input: seq<byte>, room: nat) returns (used: nat, out: seq<byte>, status: Status)
      requires Valid() && CanTake(input) && fed == output == []
      modifies this`fed, this`output, this`finished
      ensures Valid() && used <= |input| && fed == input[..used] && output == out && |out| <= room
      ensures status != NeedsMoreInput && (finished <==> status == Done)
      ensures live && status == Failed ==> |fed| < |stream|
      ensures live && |stream| <= |input| ==> status == Done || status == HasMoreOutput
      ensures status == HasMoreOutput ==> |out| == room
    {
      hide L.Output, L.ValidStream, L.StreamOf, L.Right, L.InWords, L.Terminated, L.StreamBits;
      assert [] + input == input;
      ghost var k;
      var st, consumed;
      st, out, consumed, k := RoundTrip.Decompress(input, zlib, room, stream, parts, live);
      used := if st == T.NoInput then |input| else Min(consumed, |input|);
      status := if st == T.Done then Done else if st == T.NoRoom then HasMoreOutput else Failed;
      fed, output, finished := input[..used], out, status == Done;
    }
  }

  lemma WrittenIs(dict: seq<byte>, ofs: nat, output: seq<byte>, piece: seq<byte>)
    requires ofs + |piece| <= |dict|
    ensures Written(dict, ofs, output + piece, |output|, |piece|) == dict[..ofs] + piece + dict[ofs + |piece|..]
    ensures piece == [] ==> Written(dict, ofs, output, |output|, 0) == dict
  {
    assert (output + piece)[|output|..|output| + |piece|] == piece;
  }

  lemma SlotIs(n: nat)
    ensures Slot(n) <= n && (n - Slot(n)) % DICT_SIZE == 0 && DICT_SIZE == LZ_DICT_SIZE == 32768
  {
  }

  /** What a window that is filled up to its end at most holds from the slot of the next byte on. */
  lemma NewPiece(o: OutWindow, output: seq<byte>, ofs: nat)
    requires o.Valid() && o.wrapping && ofs == Slot(|output|) && o.budget == |output| - ofs + DICT_SIZE
    ensures o.taken + o.cur == |o.all| && o.cur <= o.buf.Length == DICT_SIZE
    ensures |o.all| > |output| ==> ofs < o.cur && o.buf[ofs..o.cur] == o.all[|output|..]
    ensures o.Full() ==> |o.all| > |output| && o.cur == DICT_SIZE
  {
    hide *;
    var start := |output| - ofs;
    SlotIs(|output|);
    RoundParts(o);
    SameRound(o.taken, start);
    if |o.all| > |output| {
      assert o.taken == start && |o.all| == start + o.cur && |output| == start + ofs;
      var a, b := o.buf[ofs..o.cur], o.all[|output|..];
      forall j: nat | j < |a| ensures a[j] == b[j] { ByteInRound(o, start, ofs + j); }
    }
  }

  lemma RoundParts(o: OutWindow)
    requires o.Valid() && o.wrapping
    ensures o.taken + o.cur == |o.all| && o.cur <= o.buf.Length == DICT_SIZE && o.taken % DICT_SIZE == 0
    ensures o.taken < o.budget || o.taken == 0
    ensures o.Full() <==> |o.all| >= o.budget
  {
  }

  lemma ByteInRound(o: OutWindow, start: nat, i: nat)
    requires o.Valid() && o.wrapping && o.taken == start && i < o.cur
    ensures start + i < |o.all| && o.buf[i] == o.all[start + i]
  {
    o.ByteAt(start + i);
    RoundIndex(start, i);
  }

  lemma RoundIndex(start: nat, i: nat)
    requires start % DICT_SIZE == 0 && i < DICT_SIZE
    ensures (start + i) % DICT_SIZE == i
  {
  }

  /** Multiples of the window's size. */
  lemma SameRound(a: nat, b: nat)
    requires a % DICT_SIZE == 0 && b % DICT_SIZE == 0
    ensures a < b ==> a + DICT_SIZE <= b
    ensures b < a ==> b + DICT_SIZE <= a
  {
  }

  lemma MoreUpTo(n: nat, a: seq<byte>, b: seq<byte>, zlib: bool, bs: seq<L.Block>, k: nat)
    requires UpTo(n, a, zlib, bs, k) && a <= b
    ensures UpTo(n, b, zlib, bs, k)
  {
    hide L.ValidStream, L.Output, L.StreamBits;
  }

  lemma WhyWaiting(r: BitReader, o: OutWindow, st: T.Status, stream: seq<byte>, bs: seq<L.Block>, output: seq<byte>,
                   piece: seq<byte>)
    requires r.Valid() && stream <= r.input && L.ValidStream(bs) && o.all <= L.Output(bs) && output <= L.Output(bs)
    requires st == T.Done || T.Stopped(r, o, st, L.Output(bs), BytesBits(r.input[|stream|..]))
    requires st == T.Done ==> o.all == L.Output(bs)
    requires piece == if |o.all| > |output| then o.all[|output|..] else []
    ensures output + piece <= L.Output(bs) && (st == T.Done ==> output + piece == L.Output(bs))
    ensures o.all <= output + piece
    ensures st == T.Done || st == T.NoRoom || (st == T.NoInput && |r.data| < |stream|)
  {
    assert |BytesBits(r.input[|stream|..])| == 8 * (|r.input| - |stream|);
    hide BytesBits, L.Output, L.ValidStream;
    if |o.all| > |output| { assert output + piece == o.all; }
  }
}
