/** The decompressor (`tinfl_decompress`): blocks one after the other until the final one, and the
    zlib wrapper around them. Safe for every input; on a stream of blocks it puts out what they mean. */
module Inflate {
  import opened Bits
  import opened PrefixCode
  import opened DecodeTable
  import opened Tokens
  import opened BitReader
  import opened OutWindow
  import opened DeflateFormat
  import opened InflateTokens
  import opened InflateHeader
  import Adler = Adler32
  import L = LooseFormat
  import S = StrictForm

  // ---------------------------------------------------------------- stored blocks

  /** Reads one byte at a byte boundary. */
  method ReadByte(r: BitReader, ghost b0: nat, ghost tail: seq<bool>, ghost live: bool) returns (ok: bool, b: nat)
    requires r.Valid() && r.Pos() % 8 == 0 && (live ==> b0 < 256 && r.Rest() == BitsOf(b0, 8) + tail)
    modifies r`cur, r`end, r`bitBuf, r`numBits
    ensures r.Valid() && r.Pos() % 8 == 0 && |r.Rest()| <= |old(r.Rest())| && (ok ==> b < 256)
    ensures old(r.numBits) == 0 ==> r.numBits == 0
    ensures old(r.numBits) == 0 ==> (ok ==> r.cur == old(r.cur) + 1 <= |r.data| && b == r.data[old(r.cur)])
    ensures !ok ==> r.Spent() && (live ==> r.Lacks(tail))
    ensures live && ok ==> b == b0 && r.Rest() == tail
    ensures ok ==> old(r.Rest()) == BitsOf(b, 8) + r.Rest()
  {
    Pow2Values();
    hide BytesBits, BitsOf, Pow2;
    ok, b := r.GetAlignedByte();
    assert ok ==> old(r.Rest())[8..] == r.Rest();
    if live && ok {
      assert old(r.Rest())[..8] == BitsOf(b0, 8);
      ValOfBits(b, 8);
      ValOfBits(b0, 8);
    }
  }

  /** Skips to the next byte boundary, past `pad`. */
  method SkipPadding(r: BitReader, ghost pad: seq<bool>, ghost tail: seq<bool>, ghost live: bool)
      returns (ghost got: seq<bool>)
    requires r.Valid() && (live ==> |pad| < 8 && (r.Pos() + |pad|) % 8 == 0 && r.Rest() == pad + tail)
    modifies r`bitBuf, r`numBits
    ensures r.Valid() && r.Pos() % 8 == 0 && |r.Rest()| <= |old(r.Rest())|
    ensures live ==> r.Rest() == tail
    ensures |got| < 8 && (old(r.Pos()) + |got|) % 8 == 0 && old(r.Rest()) == got + r.Rest()
  {
    hide BytesBits, BitsOf, Pow2;
    r.SkipToByte();
    got := old(r.Rest())[..r.Pos() - old(r.Pos())];
    assert old(r.Rest())[|got|..] == r.Rest();
    if live { assert r.Pos() == old(r.Pos()) + |pad|; }
  }

  lemma WordBytes(n: nat)
    requires n < 65536
    ensures BitsOf(n, 16) == BitsOf(n % 256, 8) + BitsOf(n / 256, 8)
  {
    hide *;
    Pow2Values();
    BitsOfJoin(n % 256, 8, n / 256, 8);
  }

  /** Reads a 16-bit number at a byte boundary. */
  method ReadWord(r: BitReader, ghost n: nat, ghost tail: seq<bool>, ghost live: bool) returns (ok: bool, v: nat)
    requires r.Valid() && r.Pos() % 8 == 0 && (live ==> n < 65536 && r.Rest() == BitsOf(n, 16) + tail)
    modifies r`cur, r`end, r`bitBuf, r`numBits
    ensures r.Valid() && r.Pos() % 8 == 0 && |r.Rest()| <= |old(r.Rest())|
    ensures !ok ==> r.Spent() && (live ==> r.Lacks(tail))
    ensures live && ok ==> v == n && r.Rest() == tail
    ensures ok ==> v < 65536 && old(r.Rest()) == BitsOf(v, 16) + r.Rest()
  {
    hide *;
    v := 0;
    r.LacksIs(BitsOf(n / 256, 8) + tail);
    r.LacksIs(tail);
    if live { WordBytes(n); }
    assert live ==> r.Rest() == BitsOf(n % 256, 8) + (BitsOf(n / 256, 8) + tail);
    var lo, hi;
    ok, lo := ReadByte(r, n % 256, BitsOf(n / 256, 8) + tail, live);
    if !ok { return; }
    ok, hi := ReadByte(r, n / 256, tail, live);
    if !ok { return; }
    v := Word16(lo, hi);
    TwoBytes(v, lo, hi);
  }

  lemma TwoBytes(v: nat, lo: nat, hi: nat)
    requires v == lo + 256 * hi && lo < 256 && hi < 256
    ensures v < 65536 && BitsOf(v, 16) == BitsOf(lo, 8) + BitsOf(hi, 8)
  {
    hide *;
    WordBytes(v);
    DivUnique(v, 256, hi, lo);
  }

  /** Reads the two copies of the length of a stored block. */
  method ReadStoredLength(r: BitReader, ghost n: nat, ghost tail: seq<bool>, ghost live: bool)
      returns (st: Status, counter: nat)
    requires r.Valid() && r.Pos() % 8 == 0
    requires live ==> n <= MAX_STORED && r.Rest() == BitsOf(n, 16) + BitsOf(MAX_STORED - n, 16) + tail
    modifies r`cur, r`end, r`bitBuf, r`numBits
    ensures r.Valid() && r.Pos() % 8 == 0 && |r.Rest()| <= |old(r.Rest())|
    ensures st != NoRoom && st != Mismatch && (st == NoInput ==> r.Spent())
    ensures live ==> st == Done || (st == NoInput && r.Lacks(tail))
    ensures live && st == Done ==> counter == n && r.Rest() == tail
    ensures st == Done ==> counter <= MAX_STORED
    ensures st == Done ==> old(r.Rest()) == BitsOf(counter, 16) + (BitsOf(MAX_STORED - counter, 16) + r.Rest())
  {
    hide *;
    StoredLimit();
    ghost var m := if live then MAX_STORED - n else 0;
    r.LacksIs(BitsOf(m, 16) + tail);
    r.LacksIs(tail);
    if live { XorSymmetric(m); }
    assert live ==> r.Rest() == BitsOf(n, 16) + (BitsOf(m, 16) + tail);
    var ok, other;
    ok, counter := ReadWord(r, n, BitsOf(m, 16) + tail, live);
    if !ok { return NoInput, 0; }
    ok, other := ReadWord(r, m, tail, live);
    if !ok { return NoInput, 0; }
    XorSymmetric(other);
    st := if counter != BitXor(0xFFFF, other) then Failed else Done;
  }

  lemma StoredLimit()
    ensures MAX_STORED == 65535
  {
  }

  /** Two bytes, the low one first. */
  function Word16(lo: nat, hi: nat): (w: nat)
    requires lo < 256 && hi < 256
    ensures w == lo + 256 * hi
  {
    Pow2Values();
    BitOrDisjoint(lo, hi, 8);
    BitOr(lo, Shl(hi, 8))
  }

  lemma {:induction false} XorOnesLeft(x: nat, n: nat)
    requires x < Pow2(n)
    ensures BitXor(Pow2(n) - 1, x) == Pow2(n) - 1 - x
  {
    if n > 0 {
      XorOnesLeft(x / 2, n - 1);
      var ones := Pow2(n) - 1;
      assert ones % 2 == 1 && ones / 2 == Pow2(n - 1) - 1;
      hide Pow2;
    }
  }

  lemma XorSymmetric(m: nat)
    requires m <= 65535
    ensures BitXor(0xFFFF, m) == 65535 - m
  {
    Pow2Values();
    XorOnesLeft(m, 16);
  }

  lemma {:induction false} FirstByte(data: seq<byte>, k: nat)
    requires k < |data|
    ensures BytesBits(data[k..]) == BitsOf(data[k], 8) + BytesBits(data[k + 1..])
  {
    assert data[k..][1..] == data[k + 1..];
  }

  /** The bytes that are still to be copied, and what is out already. */
  ghost predicate Storing(rest: seq<bool>, all: seq<byte>, h: seq<byte>, data: seq<byte>, counter: nat,
                          tail: seq<bool>) {
    counter <= |data| && rest == BytesBits(data[|data| - counter..]) + tail && all == h + data[..|data| - counter]
  }

  lemma StoringStep(rest: seq<bool>, all: seq<byte>, h: seq<byte>, data: seq<byte>, counter: nat, tail: seq<bool>)
      returns (b: byte, more: seq<bool>)
    requires Storing(rest, all, h, data, counter, tail) && counter > 0
    ensures rest == BitsOf(b, 8) + more && Storing(more, all + [b], h, data, counter - 1, tail)
    ensures all <= h + data && all + [b] <= h + data && |tail| <= |more|
  {
    hide BitsOf;
    var k := |data| - counter;
    FirstByte(data, k);
    b := data[k];
    more := BytesBits(data[k + 1..]) + tail;
    assert data[..k + 1] == data[..k] + [data[k]];
  }

  /** Copies the bytes of a stored block that are in the bit buffer already. */
  method CopyBuffered(r: BitReader, o: OutWindow, n: nat, ghost h: seq<byte>, ghost data: seq<byte>,
                      ghost tail: seq<bool>, ghost live: bool)
      returns (st: Status, counter: nat)
    requires r.Valid() && r.Pos() % 8 == 0 && o.Valid()
    requires live ==> Storing(r.Rest(), o.all, h, data, n, tail)
    modifies r`cur, r`end, r`bitBuf, r`numBits, o`cur, o`end, o`taken, o`from, o`check, o`all, o.buf
    ensures r.Valid() && r.Pos() % 8 == 0 && o.Valid() && |r.Rest()| <= |old(r.Rest())| && old(o.all) <= o.all
    ensures st != Mismatch && (st == NoInput ==> r.Spent()) && (st == NoRoom ==> o.Full())
    ensures st == Done ==> counter == 0 || r.numBits == 0
    ensures live ==> o.all <= h + data && (st == Done || Stopped(r, o, st, h + data, tail))
    ensures live && st == Done ==> Storing(r.Rest(), o.all, h, data, counter, tail)
    ensures st == Done ==> counter <= n && Copied(old(o.all), o.all, n - counter, old(r.Rest()), r.Rest())
    ensures live && st == NoRoom ==> |tail| <= |r.Rest()|
  {
    hide *;
    counter := n;
    NothingCopied(o.all, r.Rest());
    if live { StoringFits(r.Rest(), o.all, h, data, n, tail); }
    while counter > 0 && r.numBits > 0
      invariant r.Valid() && r.Pos() % 8 == 0 && o.Valid() && |r.Rest()| <= |old(r.Rest())| && old(o.all) <= o.all
      invariant 0 <= counter <= n && Copied(old(o.all), o.all, n - counter, old(r.Rest()), r.Rest())
      invariant live ==> Storing(r.Rest(), o.all, h, data, counter, tail) && o.all <= h + data
    {
      ghost var a, rest := o.all, r.Rest();
      st := CopyOneBuffered(r, o, counter, h, data, tail, live);
      if st != Done { return; }
      CopiedMore(old(o.all), a, o.all, n - counter, 1, old(r.Rest()), rest, r.Rest());
      counter := counter - 1;
    }
    st := Done;
  }

  /** The output has grown by `n` bytes that were read. */
  ghost predicate Copied(h: seq<byte>, all: seq<byte>, n: int, rest0: seq<bool>, rest: seq<bool>) {
    h <= all && |all| == |h| + n && rest0 == BytesBits(all[|h|..]) + rest
  }

  lemma NothingCopied(all: seq<byte>, rest: seq<bool>)
    ensures Copied(all, all, 0, rest, rest)
  {
    assert all[|all|..] == [] && BytesBits([]) == [];
  }

  lemma AllCopied(h: seq<byte>, all: seq<byte>, n: int, rest0: seq<bool>, rest: seq<bool>)
    requires Copied(h, all, n, rest0, rest)
    ensures h <= all && |all| == |h| + n && rest0 == BytesBits(all[|h|..]) + rest
    ensures h == [] ==> rest0 == BytesBits(all) + rest
  {
    assert all[0..] == all;
  }

  lemma OneCopied(h: seq<byte>, b: byte, rest: seq<bool>)
    ensures Copied(h, h + [b], 1, BitsOf(b, 8) + rest, rest)
  {
    assert (h + [b])[|h|..] == [b];
    BytesBitsOne(b);
  }

  lemma CopiedMore(h: seq<byte>, a: seq<byte>, all: seq<byte>, m: int, n: int, rest0: seq<bool>, rest1: seq<bool>,
                   rest: seq<bool>)
    requires Copied(h, a, m, rest0, rest1) && Copied(a, all, n, rest1, rest)
    ensures Copied(h, all, m + n, rest0, rest)
  {
    assert all[|h|..] == a[|h|..] + all[|a|..];
    BytesBitsAppend(a[|h|..], all[|a|..]);
    hide BytesBits;
  }

  method CopyOneBuffered(r: BitReader, o: OutWindow, counter: nat, ghost h: seq<byte>, ghost data: seq<byte>,
                         ghost tail: seq<bool>, ghost live: bool)
      returns (st: Status)
    requires r.Valid() && r.Pos() % 8 == 0 && o.Valid() && counter > 0
    requires live ==> Storing(r.Rest(), o.all, h, data, counter, tail)
    modifies r`cur, r`end, r`bitBuf, r`numBits, o`cur, o`end, o`taken, o`from, o`check, o`all, o.buf
    ensures r.Valid() && r.Pos() % 8 == 0 && o.Valid() && |r.Rest()| <= |old(r.Rest())| && old(o.all) <= o.all
    ensures old(r.numBits) == 0 ==> r.numBits == 0
    ensures st != Mismatch && (st == NoInput ==> r.Spent()) && (st == NoRoom ==> o.Full())
    ensures live ==> o.all <= h + data && (st == Done || Stopped(r, o, st, h + data, tail))
    ensures live && st == Done ==> Storing(r.Rest(), o.all, h, data, counter - 1, tail)
    ensures st == Done ==> Copied(old(o.all), o.all, 1, old(r.Rest()), r.Rest())
    ensures live && st == NoRoom ==> |tail| <= |r.Rest()|
  {
    hide *;
    ghost var b0, more := 0, [];
    if live {
      b0, more := StoringStep(r.Rest(), o.all, h, data, counter, tail);
      r.LacksIs(more);
      r.LacksIs(tail);
      StoppedIs(r, o, h + data, tail);
    }
    var ok, b := ReadByte(r, b0, more, live);
    if !ok { return NoInput; }
    ok := o.AwaitOutput();
    if !ok {
      if live { RoomFor(o, h + data); }
      return NoRoom;
    }
    OneCopied(o.all, b, r.Rest());
    o.Put(b);
    st := Done;
  }

  /** Copies the bytes of a stored block straight from the input, as much as fits at a time. */
  method CopyDirect(r: BitReader, o: OutWindow, n: nat, ghost h: seq<byte>, ghost data: seq<byte>,
                    ghost tail: seq<bool>, ghost live: bool)
      returns (st: Status)
    requires r.Valid() && r.Pos() % 8 == 0 && r.numBits == 0 && o.Valid()
    requires live ==> Storing(r.Rest(), o.all, h, data, n, tail)
    modifies r`cur, r`end, r`bitBuf, r`numBits, o`cur, o`end, o`taken, o`from, o`check, o`all, o.buf
    ensures r.Valid() && o.Valid() && |r.Rest()| <= |old(r.Rest())| && old(o.all) <= o.all
    ensures st != Mismatch && (st == NoInput ==> r.Spent()) && (st == NoRoom ==> o.Full())
    ensures live ==> o.all <= h + data && (st == Done || Stopped(r, o, st, h + data, tail))
    ensures live && st == Done ==> Storing(r.Rest(), o.all, h, data, 0, tail)
    ensures st == Done ==> Copied(old(o.all), o.all, n, old(r.Rest()), r.Rest())
    ensures live && st == NoRoom ==> |tail| <= |r.Rest()|
  {
    hide *;
    var counter := n;
    NothingCopied(o.all, r.Rest());
    if live { StoringFits(r.Rest(), o.all, h, data, n, tail); }
    while counter > 0
      invariant r.Valid() && r.Pos() % 8 == 0 && r.numBits == 0 && o.Valid() && |r.Rest()| <= |old(r.Rest())|
      invariant old(o.all) <= o.all && 0 <= counter <= n
      invariant Copied(old(o.all), o.all, n - counter, old(r.Rest()), r.Rest())
      invariant live ==> Storing(r.Rest(), o.all, h, data, counter, tail) && o.all <= h + data
    {
      ghost var a, rest, m := o.all, r.Rest(), counter;
      st, counter := CopyPiece(r, o, counter, h, data, tail, live);
      if st != Done { return; }
      CopiedMore(old(o.all), a, o.all, n - m, m - counter, old(r.Rest()), rest, r.Rest());
    }
    st := Done;
  }

  method CopyPiece(r: BitReader, o: OutWindow, n: nat, ghost h: seq<byte>, ghost data: seq<byte>, ghost tail: seq<bool>,
                   ghost live: bool)
      returns (st: Status, counter: nat)
    requires r.Valid() && r.Pos() % 8 == 0 && r.numBits == 0 && o.Valid() && n > 0
    requires live ==> Storing(r.Rest(), o.all, h, data, n, tail)
    modifies r`cur, r`end, r`bitBuf, r`numBits, o`cur, o`end, o`taken, o`from, o`check, o`all, o.buf
    ensures r.Valid() && r.Pos() % 8 == 0 && r.numBits == 0 && o.Valid() && |r.Rest()| <= |old(r.Rest())|
    ensures old(o.all) <= o.all
    ensures st != Mismatch && (st == NoInput ==> r.Spent()) && (st == NoRoom ==> o.Full())
    ensures counter <= n && (st == Done ==> counter < n)
    ensures live ==> o.all <= h + data && (st == Done || Stopped(r, o, st, h + data, tail))
    ensures live && st == Done ==> Storing(r.Rest(), o.all, h, data, counter, tail)
    ensures st == Done ==> Copied(old(o.all), o.all, n - counter, old(r.Rest()), r.Rest())
    ensures live && st == NoRoom ==> |tail| <= |r.Rest()|
  {
    hide *;
    counter := n;
    NothingCopied(o.all, r.Rest());
    if live {
      StoringFits(r.Rest(), o.all, h, data, n, tail);
      StoppedIs(r, o, h + data, tail);
    }
    var ok := o.AwaitOutput();
    if !ok {
      if live { RoomFor(o, h + data); }
      return NoRoom, n;
    }
    ok := r.AwaitInput();
    if !ok {
      if live { StoringShort(r, o.all, n, h, data, tail); }
      return NoInput, n;
    }
    var piece: nat := Min(Min(o.end - o.cur, r.end - r.cur), n);
    st := Done;
    for i := 0 to piece
      invariant r.Valid() && r.Pos() % 8 == 0 && r.numBits == 0 && o.Valid() && |r.Rest()| <= |old(r.Rest())|
      invariant old(o.all) <= o.all
      invariant st == Done && counter == n - i && Copied(old(o.all), o.all, i, old(r.Rest()), r.Rest())
      invariant live ==> Storing(r.Rest(), o.all, h, data, counter, tail) && o.all <= h + data
    {
      ghost var a, rest := o.all, r.Rest();
      st := CopyOneBuffered(r, o, counter, h, data, tail, live);
      if st != Done { return; }
      CopiedMore(old(o.all), a, o.all, i, 1, old(r.Rest()), rest, r.Rest());
      counter := counter - 1;
    }
  }

  lemma StoringFits(rest: seq<bool>, all: seq<byte>, h: seq<byte>, data: seq<byte>, n: nat, tail: seq<bool>)
    requires Storing(rest, all, h, data, n, tail)
    ensures all <= h + data && (n > 0 ==> |all| < |h + data|) && |tail| <= |rest|
  {
    hide BytesBits;
  }

  lemma StoringShort(r: BitReader, all: seq<byte>, n: nat, h: seq<byte>, data: seq<byte>, tail: seq<bool>)
    requires r.Valid() && r.numBits == 0 && r.Spent() && Storing(r.Rest(), all, h, data, n, tail) && n > 0
    ensures r.Lacks(tail)
  {
    var b, more := StoringStep(r.Rest(), all, h, data, n, tail);
    hide BytesBits;
    assert |r.Bits()| == 8 * |r.input|;
  }

  /** What follows the type bits of a stored block. */
  function StoredRest(pad: seq<bool>, data: seq<byte>): seq<bool>
    requires |data| <= MAX_STORED
  {
    pad + (BitsOf(|data|, 16) + (BitsOf(MAX_STORED - |data|, 16) + BytesBits(data)))
  }

  /** A stored block (RFC 1951 section 3.2.4). */
  method InflateStored(r: BitReader, o: OutWindow, ghost pad: seq<bool>, ghost data: seq<byte>, ghost tail: seq<bool>,
                       ghost live: bool, ghost q: nat)
      returns (st: Status, ghost got: L.Body)
    requires r.Valid() && o.Valid() && q % 8 == r.Pos() % 8
    requires live ==> |data| <= MAX_STORED && r.Rest() == StoredRest(pad, data) + tail
    requires live ==> |pad| < 8 && (r.Pos() + |pad|) % 8 == 0
    modifies r`cur, r`end, r`bitBuf, r`numBits, o`cur, o`end, o`taken, o`from, o`check, o`all, o.buf
    ensures r.Valid() && o.Valid() && |r.Rest()| <= |old(r.Rest())| && old(o.all) <= o.all
    ensures st != Mismatch && (st == NoInput ==> r.Spent()) && (st == NoRoom ==> o.Full())
    ensures live ==> o.all <= old(o.all) + data && (st == Done || Stopped(r, o, st, old(o.all) + data, tail))
    ensures live && st == Done ==> r.Rest() == tail && o.all == old(o.all) + data
    ensures st == Done ==> got.Kind() == 0 && BodyRead(got, q, old(o.all), o.all, old(r.Rest()), r.Rest())
    ensures live && st == NoRoom ==> |tail| <= |r.Rest()|
  {
    hide *;
    got := L.Stored([], []);
    ghost var pos, rest0 := r.Pos(), r.Rest();
    ghost var h, n, bytes := o.all, |data|, [];
    if live {
      StoredParts(pad, data, tail);
      bytes := BytesBits(data) + tail;
      assert r.Rest() == pad + (BitsOf(n, 16) + BitsOf(MAX_STORED - n, 16) + bytes);
      r.LacksIs(bytes);
      r.LacksIs(tail);
      StoppedIs(r, o, h + data, tail);
    }
    ghost var skipped := SkipPadding(r, pad, if live then BitsOf(n, 16) + BitsOf(MAX_STORED - n, 16) + bytes else [],
                                     live);
    ghost var rest1 := r.Rest();
    var counter;
    st, counter := ReadStoredLength(r, n, bytes, live);
    if st != Done { return; }
    ghost var size, rest2 := counter, r.Rest();
    if live { StartStoring(h, data, tail); }
    st, counter := CopyBuffered(r, o, counter, h, data, tail, live);
    if st != Done { return; }
    if counter > 0 {
      ghost var a, rest := o.all, r.Rest();
      st := CopyDirect(r, o, counter, h, data, tail, live);
      if st != Done { return; }
      CopiedMore(h, a, o.all, size - counter, counter, rest2, rest, r.Rest());
    }
    AllCopied(h, o.all, size, rest2, r.Rest());
    got := L.Stored(skipped, o.all[|h|..]);
    StoredRead(got, pos, q, h, o.all, rest0, rest1, rest2, r.Rest());
    if live { StoredAll(r.Rest(), o.all, h, data, tail); }
  }

  /** The body `got`, at bit `q` of the stream, has been read, and the output has grown by what it means. */
  ghost predicate BodyRead(got: L.Body, q: nat, h: seq<byte>, all: seq<byte>, rest0: seq<bool>, rest: seq<bool>) {
    got.Valid(q) && got.Fits(h) && all == got.Output(h) && rest0 == got.Bits(q) + rest
  }

  lemma StoredRead(got: L.Body, pos: int, q: nat, h: seq<byte>, all: seq<byte>, rest0: seq<bool>, rest1: seq<bool>,
                   rest2: seq<bool>, rest: seq<bool>)
    requires got.Stored? && |got.pad| < 8 && (pos + |got.pad|) % 8 == 0 && q % 8 == pos % 8
    requires |got.data| <= MAX_STORED && h <= all && got.data == all[|h|..]
    requires rest0 == got.pad + rest1
    requires rest1 == BitsOf(|got.data|, 16) + (BitsOf(MAX_STORED - |got.data|, 16) + rest2)
    requires rest2 == BytesBits(got.data) + rest
    ensures got.Kind() == 0 && BodyRead(got, q, h, all, rest0, rest)
  {
    PadIs(pos, q, |got.pad|);
    hide BitsOf, BytesBits;
    var a, b, c, d := got.pad, BitsOf(|got.data|, 16), BitsOf(MAX_STORED - |got.data|, 16), BytesBits(got.data);
    FourThenRest(a, b, c, d, rest);
    assert got.Valid(q) && got.Bits(q) == a + (b + (c + d));
    assert got.Fits(h) && got.Output(h) == h + all[|h|..] == all;
  }

  lemma FourThenRest(a: seq<bool>, b: seq<bool>, c: seq<bool>, d: seq<bool>, rest: seq<bool>)
    ensures a + (b + (c + (d + rest))) == a + (b + (c + d)) + rest
  {
  }

  lemma PadIs(pos: int, q: nat, n: nat)
    requires n < 8 && (pos + n) % 8 == 0 && q % 8 == pos % 8
    ensures n == Pad(q)
  {
  }

  lemma StoredParts(pad: seq<bool>, data: seq<byte>, tail: seq<bool>)
    requires |data| <= MAX_STORED
    ensures StoredRest(pad, data) + tail ==
      pad + (BitsOf(|data|, 16) + BitsOf(MAX_STORED - |data|, 16) + (BytesBits(data) + tail))
  {
    hide BitsOf, BytesBits;
    Regroup(pad, BitsOf(|data|, 16), BitsOf(MAX_STORED - |data|, 16), BytesBits(data), tail);
  }

  lemma Regroup(a: seq<bool>, b: seq<bool>, c: seq<bool>, d: seq<bool>, e: seq<bool>)
    ensures a + (b + (c + d)) + e == a + (b + c + (d + e))
  {
  }

  lemma StartStoring(h: seq<byte>, data: seq<byte>, tail: seq<bool>)
    ensures Storing(BytesBits(data) + tail, h, h, data, |data|, tail)
  {
    hide BytesBits;
    assert data[|data| - |data|..] == data && data[..0] == [];
  }

  lemma StoredAll(rest: seq<bool>, all: seq<byte>, h: seq<byte>, data: seq<byte>, tail: seq<bool>)
    requires Storing(rest, all, h, data, 0, tail)
    ensures rest == tail && all == h + data
  {
    assert data[|data| - 0..] == [] && data[..|data|] == data && BytesBits([]) == [];
  }

  // ---------------------------------------------------------------- blocks

  ghost predicate AllTables(o: OutWindow, lit: HuffTable, dist: HuffTable, len: HuffTable) {
    && Tables(lit, dist, len) && Separate(o, lit) && Separate(o, dist) && Separate(o, len)
  }

  /** Builds the tables of the fixed codes (RFC 1951 section 3.2.6). */
  method BuildFixed(lit: HuffTable, dist: HuffTable, ghost len: HuffTable) returns (ok: bool)
    requires Tables(lit, dist, len)
    modifies lit, lit.lookup, lit.tree, dist, dist.lookup, dist.tree
    ensures ok && lit.Valid() && dist.Valid() && lit.sizes == FixedLit() && dist.sizes == FixedDist()
  {
    hide *;
    TablesParts(lit, dist, len);
    var a, b := FixedSizes();
    FixedAccepted();
    ok := BuildTable(dist, b[..], 32);
    ok := BuildTable(lit, a[..], 288);
  }

  method FixedSizes() returns (a: array<nat>, b: array<nat>)
    ensures fresh(a) && fresh(b) && a[..] == FixedLit() && b[..] == FixedDist()
  {
    a, b := new nat[288], new nat[32];
    for i := 0 to 32
      invariant forall s :: 0 <= s < i ==> b[s] == 5
    {
      b[i] := 5;
    }
    for i := 0 to 288
      invariant b[..] == FixedDist() && forall s :: 0 <= s < i ==> a[s] == FixedLitSize(s)
    {
      a[i] := if i <= 143 then 8 else if i <= 255 then 9 else if i <= 279 then 7 else 8;
    }
  }

  lemma FixedAccepted()
    ensures Accepted(FixedLit()) && Accepted(FixedDist())
    ensures Small(FixedLit()) && Small(FixedDist())
  {
    FixedComplete();
    hide Complete;
  }

  /** Reads the three header bits of a block. */
  method ReadType(r: BitReader, ghost v0: nat, ghost more: seq<bool>, ghost live: bool) returns (ok: bool, v: nat)
    requires r.Valid() && (live ==> v0 < 8 && r.Rest() == BitsOf(v0, 3) + more)
    modifies r`cur, r`end, r`bitBuf, r`numBits
    ensures r.Valid() && |r.Rest()| <= |old(r.Rest())|
    ensures ok ==> v < 8 && r.Pos() == old(r.Pos()) + 3 && |r.Rest()| < |old(r.Rest())|
    ensures !ok ==> r.Spent() && (live ==> r.Lacks(more))
    ensures live && ok ==> v == v0 && r.Rest() == more
    ensures ok ==> old(r.Rest()) == BitsOf(v, 3) + r.Rest()
  {
    Pow2Values();
    hide BytesBits, BitsOf, Pow2;
    ok, v := r.GetBits(3);
    assert ok ==> old(r.Rest())[3..] == r.Rest();
    if live && ok {
      assert old(r.Rest())[..3] == BitsOf(v0, 3);
      ValOfBits(v, 3);
      ValOfBits(v0, 3);
    }
  }

  /** One block, whatever its type. */
  method InflateBlock(r: BitReader, o: OutWindow, lit: HuffTable, dist: HuffTable, len: HuffTable,
                      ghost p: nat, ghost b: L.Block, ghost tail: seq<bool>, ghost live: bool, ghost q: nat)
      returns (st: Status, final: bool, ghost got: L.Body)
    requires r.Valid() && o.Valid() && AllTables(o, lit, dist, len) && q % 8 == r.Pos() % 8
    requires live ==> b.body.Valid(p + 3) && b.body.InWords() && b.body.Fits(o.all) && p % 8 == r.Pos() % 8
    requires live ==> r.Rest() == L.BlockBits(p, b) + tail
    modifies r`cur, r`end, r`bitBuf, r`numBits, o`cur, o`end, o`taken, o`from, o`check, o`all, o.buf
    modifies lit, lit.lookup, lit.tree, dist, dist.lookup, dist.tree, len, len.lookup, len.tree
    ensures r.Valid() && o.Valid() && |r.Rest()| <= |old(r.Rest())| && old(o.all) <= o.all
    ensures st != Mismatch && (st == NoInput ==> r.Spent()) && (st == NoRoom ==> o.Full())
    ensures st == Done ==> |r.Rest()| < |old(r.Rest())|
    ensures live ==> o.all <= b.body.Output(old(o.all))
    ensures live ==> (st == Done || Stopped(r, o, st, b.body.Output(old(o.all)), tail))
    ensures live && st == Done ==> final == b.final && r.Rest() == tail && o.all == b.body.Output(old(o.all))
    ensures st == Done && !o.wrapping ==>
      BlockRead(L.Block(final, got), q, old(o.all), o.all, old(r.Rest()), r.Rest())
    ensures live && st == NoRoom ==> |tail| <= |r.Rest()|
  {
    hide *;
    ghost var more, v0, pos := [], 0, r.Pos();
    if live {
      StoppedIs(r, o, b.body.Output(o.all), tail);
      L.BodyGrows(b.body, o.all);
      KindOf(b);
      v0 := B2N(b.final) + 2 * b.body.Kind();
      more := b.body.Bits(p + 3);
      BlockLayout(p, b, tail);
      r.LacksIs(more + tail);
      r.LacksIs(tail);
    }
    var ok, v := ReadType(r, v0, more + tail, live);
    final, got := v % 2 == 1, L.Stored([], []);
    if !ok { return NoInput, final, got; }
    var kind := v / 2;
    if kind == 3 {
      return Failed, final, got;
    }
    ghost var rest := r.Rest();
    ThreeOn(q, pos, r.Pos());
    if live { ThreeOn(p, pos, r.Pos()); }
    FinalBit(v);
    st, got := InflateBody(r, o, lit, dist, len, kind, p + 3, b.body, tail, live, q + 3);
    if st == Done && !o.wrapping {
      BlockIsRead(L.Block(final, got), v, q, old(o.all), o.all, old(r.Rest()), rest, r.Rest());
    }
  }

  lemma BlockLayout(p: nat, b: L.Block, tail: seq<bool>)
    requires b.body.Valid(p + 3)
    ensures L.BlockBits(p, b) + tail ==
      BitsOf(B2N(b.final) + 2 * b.body.Kind(), 3) + (b.body.Bits(p + 3) + tail)
  {
    hide BitsOf, L.Body.Bits, L.Body.Valid;
    var x, y := BitsOf(B2N(b.final) + 2 * b.body.Kind(), 3), b.body.Bits(p + 3);
    assert x + y + tail == x + (y + tail);
  }

  lemma FinalBit(v: nat)
    ensures v == B2N(v % 2 == 1) + 2 * (v / 2)
  {
  }

  lemma ThreeOn(q: nat, pos: int, next: int)
    requires q % 8 == pos % 8 && next == pos + 3
    ensures (q + 3) % 8 == next % 8
  {
  }

  ghost predicate BlockRead(got: L.Block, q: nat, h: seq<byte>, all: seq<byte>, rest0: seq<bool>, rest: seq<bool>) {
    && got.body.Valid(q + 3) && got.body.Fits(h) && all == got.body.Output(h)
    && rest0 == L.BlockBits(q, got) + rest
  }

  lemma BlockIsRead(got: L.Block, v: nat, q: nat, h: seq<byte>, all: seq<byte>, rest0: seq<bool>, rest1: seq<bool>,
                    rest: seq<bool>)
    requires v == B2N(got.final) + 2 * got.body.Kind() && rest0 == BitsOf(v, 3) + rest1
    requires BodyRead(got.body, q + 3, h, all, rest1, rest)
    ensures BlockRead(got, q, h, all, rest0, rest)
  {
    hide BitsOf, L.Body.Bits, L.Body.Valid, L.Body.Output, L.Body.Fits, L.Body.Kind;
    var a, b := BitsOf(v, 3), got.body.Bits(q + 3);
    assert a + (b + rest) == a + b + rest;
  }

  lemma KindOf(b: L.Block)
    ensures var v := B2N(b.final) + 2 * b.body.Kind();
      && v < 8 && v % 2 == B2N(b.final) && v / 2 == b.body.Kind() < 3
    ensures B2N(b.final) == 1 <==> b.final
  {
  }

  method InflateBody(r: BitReader, o: OutWindow, lit: HuffTable, dist: HuffTable, len: HuffTable, kind: nat,
                     ghost p: nat, ghost body: L.Body, ghost tail: seq<bool>, ghost live: bool, ghost q: nat)
      returns (st: Status, ghost got: L.Body)
    requires r.Valid() && o.Valid() && AllTables(o, lit, dist, len) && kind < 3 && q % 8 == r.Pos() % 8
    requires live ==> kind == body.Kind() && body.Valid(p) && body.InWords() && body.Fits(o.all)
    requires live ==> r.Rest() == body.Bits(p) + tail && p % 8 == r.Pos() % 8
    modifies r`cur, r`end, r`bitBuf, r`numBits, o`cur, o`end, o`taken, o`from, o`check, o`all, o.buf
    modifies lit, lit.lookup, lit.tree, dist, dist.lookup, dist.tree, len, len.lookup, len.tree
    ensures r.Valid() && o.Valid() && |r.Rest()| <= |old(r.Rest())| && old(o.all) <= o.all
    ensures st != Mismatch && (st == NoInput ==> r.Spent()) && (st == NoRoom ==> o.Full())
    ensures live ==> o.all <= body.Output(old(o.all))
    ensures live ==> (st == Done || Stopped(r, o, st, body.Output(old(o.all)), tail))
    ensures live && st == Done ==> r.Rest() == tail && o.all == body.Output(old(o.all))
    ensures st == Done && !o.wrapping ==>
      got.Kind() == kind && BodyRead(got, q, old(o.all), o.all, old(r.Rest()), r.Rest())
    ensures live && st == NoRoom ==> |tail| <= |r.Rest()|
  {
    hide *;
    got := L.Stored([], []);
    if live {
      BodyCases(p, body, o.all, tail);
      StoppedIs(r, o, body.Output(o.all), tail);
      L.BodyGrows(body, o.all);
      r.LacksIs(tail);
      if body.Stored? { PadAligns(p, r.Pos(), |body.pad|); } else { r.LacksIs(CodedRest(body, tail)); }
    }
    if kind == 0 {
      st, got := InflateStored(r, o, if live then body.pad else [], if live then body.data else [], tail, live, q);
      return;
    }
    ghost var h := L.Header([], [], [], 0, [], []);
    TablesOf(o, lit, dist, len);
    if kind == 1 {
      var ok := BuildFixed(lit, dist, len);
    } else {
      st, h := ReadDynamic(r, lit, dist, len, if live then S.HeaderOf(body.header) else Header([], [], [], 0, []),
                           if live then CodedRest(body, tail) else [], live);
      if st != Done { return; }
    }
    ghost var g, end := L.Trace([], [], []), [];
    st, g, end := DecodeTokens(r, o, lit, dist, if live then body.items else [],
                               if live then body.Output(o.all) else [], tail, live);
    got := if kind == 1 then L.Fixed(g.items, end) else L.Dynamic(h, g.items, end);
    CodedTables(got);
    if st == Done && !o.wrapping { CodedRead(got, q, lit.sizes, dist.sizes, g, old(r.Rest()), r.Rest(), o.all); }
  }

  lemma CodedTables(got: L.Body)
    requires !got.Stored?
    ensures got.Fixed? ==> got.Lit() == FixedLit() && got.Dist() == FixedDist()
    ensures got.Dynamic? ==> got.Lit() == got.header.lit && got.Dist() == got.header.dist
  {
  }

  lemma CodedRead(got: L.Body, q: nat, lit: seq<nat>, dist: seq<nat>, g: L.Trace, rest0: seq<bool>, rest: seq<bool>,
                  all: seq<byte>)
    requires !got.Stored? && got.items == g.items && L.Traced(g, lit, dist, got.end, rest, all)
    requires Reads(lit, got.end, END_OF_BLOCK) && lit == got.Lit() && dist == got.Dist()
    requires got.Fixed? ==> rest0 == g.rest
    requires got.Dynamic? ==> got.header.Valid() && rest0 == got.header.Bits() + g.rest
    ensures got.Kind() == (if got.Fixed? then 1 else 2) && BodyRead(got, q, g.h, all, rest0, rest)
  {
    hide Reads, L.ItemsBits, L.Header.Bits, L.Header.WellFormed, L.ItemsValid, FixedLit, FixedDist;
    var a, b := L.ItemsBits(g.items), got.end;
    assert a + (b + rest) == a + b + rest;
    if got.Dynamic? { assert got.header.Bits() + (a + b + rest) == got.header.Bits() + (a + b) + rest; }
  }

  /** The items of a body, the end of the block, and what follows. */
  ghost function CodedRest(body: L.Body, tail: seq<bool>): seq<bool>
    requires !body.Stored? && Used(body.Lit(), END_OF_BLOCK)
  {
    Coded(body.Lit(), body.items, tail)
  }

  lemma PadAligns(p: nat, pos: int, n: nat)
    requires p % 8 == pos % 8 && n == Pad(p)
    ensures n < 8 && (pos + n) % 8 == 0
  {
  }

  lemma BodyCases(p: nat, body: L.Body, all: seq<byte>, tail: seq<bool>)
    requires body.Valid(p) && body.InWords() && body.Fits(all)
    ensures body.Kind() == 0 <==> body.Stored?
    ensures body.Stored? ==> |body.data| <= MAX_STORED && body.Bits(p) == StoredRest(body.pad, body.data)
    ensures body.Stored? ==> |body.pad| == Pad(p) && body.Output(all) == all + body.data
    ensures !body.Stored? ==> Used(body.Lit(), END_OF_BLOCK)
    ensures body.Kind() == 1 ==> body.Lit() == FixedLit() && body.Dist() == FixedDist()
    ensures body.Kind() == 1 ==> body.Bits(p) + tail == CodedRest(body, tail)
    ensures body.Kind() == 2 ==> body.Dynamic? && S.HeaderOf(body.header).Valid()
    ensures body.Kind() == 2 ==> body.Lit() == S.HeaderOf(body.header).lit
    ensures body.Kind() == 2 ==> body.Dist() == S.HeaderOf(body.header).dist
    ensures body.Kind() == 2 ==> body.Bits(p) + tail == S.HeaderOf(body.header).Bits() + CodedRest(body, tail)
    ensures !body.Stored? ==> |tail| <= |CodedRest(body, tail)|
    ensures !body.Stored? ==>
      Ahead(CodedRest(body, tail), all, body.Lit(), body.Dist(), body.items, body.Output(all), tail)
  {
    hide *;
    if body.Stored? {
      StoredCase(p, body, all);
    } else {
      CodedCase(p, body, all, tail);
    }
  }

  lemma StoredCase(p: nat, body: L.Body, all: seq<byte>)
    requires body.Valid(p) && body.Fits(all) && body.Stored?
    ensures body.Kind() == 0 && |body.data| <= MAX_STORED && body.Bits(p) == StoredRest(body.pad, body.data)
    ensures |body.pad| == Pad(p) && body.Output(all) == all + body.data
  {
    hide BitsOf, BytesBits;
  }

  lemma CodedCase(p: nat, body: L.Body, all: seq<byte>, tail: seq<bool>)
    requires body.Valid(p) && body.InWords() && body.Fits(all) && !body.Stored?
    ensures Used(body.Lit(), END_OF_BLOCK) && body.Kind() == (if body.Fixed? then 1 else 2)
    ensures body.Fixed? ==> body.Lit() == FixedLit() && body.Dist() == FixedDist()
    ensures body.Fixed? ==> body.Bits(p) + tail == CodedRest(body, tail)
    ensures body.Dynamic? ==> S.HeaderOf(body.header).Valid()
    ensures body.Dynamic? ==> body.Lit() == S.HeaderOf(body.header).lit && body.Dist() == S.HeaderOf(body.header).dist
    ensures body.Dynamic? ==> body.Bits(p) + tail == S.HeaderOf(body.header).Bits() + CodedRest(body, tail)
    ensures |tail| <= |CodedRest(body, tail)|
    ensures Ahead(CodedRest(body, tail), all, body.Lit(), body.Dist(), body.items, body.Output(all), tail)
  {
    hide Word, L.ItemsBits, L.Header.Bits, L.Header.Valid, L.Header.WellFormed, FixedLit, FixedDist, L.ItemsFit,
      L.ItemsOut, L.ItemsValid, L.ItemsInWords, L.AllWords, Header.Valid, Header.Bits, Reads;
    assert L.IsWord(body.Lit(), body.end, END_OF_BLOCK);
    var a, b := L.ItemsBits(body.items), body.end;
    assert a + b + tail == a + (b + tail);
    if body.Dynamic? {
      S.HeaderIsStrict(body.header);
      var c := body.header.Bits();
      assert c + (a + b) + tail == c + (a + (b + tail));
    }
  }

  lemma TablesOf(o: OutWindow, lit: HuffTable, dist: HuffTable, len: HuffTable)
    requires AllTables(o, lit, dist, len)
    ensures Tables(lit, dist, len) && Separate(o, lit) && Separate(o, dist)
    ensures o.buf as object != lit.lookup as object && o.buf as object != lit.tree as object
    ensures o.buf as object != dist.lookup as object && o.buf as object != dist.tree as object
    ensures o.buf as object != len.lookup as object && o.buf as object != len.tree as object
  {
  }

  // ---------------------------------------------------------------- streams

  /** `k` blocks have been read; the others are ahead. */
  ghost predicate Streaming(rest: seq<bool>, all: seq<byte>, bs: seq<L.Block>, k: nat, tail: seq<bool>) {
    && L.ValidStream(bs) && L.InWords(bs) && k <= |bs| && L.ValidStream(bs[..k]) && all == L.Output(bs[..k])
    && |L.StreamBits(bs[..k])| <= |L.StreamBits(bs)|
    && rest == L.StreamBits(bs)[|L.StreamBits(bs[..k])|..] + tail
  }

  lemma StartStreaming(bs: seq<L.Block>, tail: seq<bool>)
    requires L.ValidStream(bs) && L.InWords(bs)
    ensures Streaming(L.StreamBits(bs) + tail, [], bs, 0, tail)
  {
    assert bs[..0] == [];
  }

  lemma NextBlock(rest: seq<bool>, all: seq<byte>, bs: seq<L.Block>, k: nat, tail: seq<bool>)
      returns (p: nat, more: seq<bool>)
    requires Streaming(rest, all, bs, k, tail) && k < |bs|
    ensures L.ValidStream(bs) && bs[k].body.Valid(p + 3) && bs[k].body.InWords() && bs[k].body.Fits(all)
    ensures p + |rest| == |L.StreamBits(bs)| + |tail|
    ensures rest == L.BlockBits(p, bs[k]) + more && Streaming(more, bs[k].body.Output(all), bs, k + 1, tail)
    ensures bs[k].body.Output(all) <= L.Output(bs) && |tail| <= |more|
    ensures Waiting(|more| + 1, all, bs, k, tail)
  {
    hide *;
    StreamingParts(rest, all, bs, k, tail);
    L.StreamStep(bs, k);
    p := |L.StreamBits(bs[..k])|;
    CutItem(L.StreamBits(bs), L.StreamBits(bs[..k]), L.BlockBits(p, bs[k]), tail);
    more := rest[|L.BlockBits(p, bs[k])|..];
    IsWaiting(more, all, bs, k, tail);
    IsStreaming(more, bs[k].body.Output(all), bs, k + 1, tail);
  }

  /** Block `k` is not supplied to its end, if `missing` bits at the end of the input are not; the blocks
      before it are put out. */
  ghost predicate Waiting(missing: int, all: seq<byte>, bs: seq<L.Block>, k: nat, tail: seq<bool>) {
    && L.ValidStream(bs) && k < |bs| && L.ValidStream(bs[..k]) && L.ValidStream(bs[..k + 1]) && L.Output(bs[..k]) <= all
    && |L.StreamBits(bs)| + |tail| < |L.StreamBits(bs[..k + 1])| + missing
  }

  lemma IsWaiting(more: seq<bool>, all: seq<byte>, bs: seq<L.Block>, k: nat, tail: seq<bool>)
    requires L.ValidStream(bs) && k < |bs| && L.ValidStream(bs[..k]) && L.ValidStream(bs[..k + 1])
    requires L.Output(bs[..k]) <= all
    requires |L.StreamBits(bs[..k + 1])| <= |L.StreamBits(bs)|
    requires |more| == |L.StreamBits(bs)| - |L.StreamBits(bs[..k + 1])| + |tail|
    ensures Waiting(|more| + 1, all, bs, k, tail)
  {
  }

  lemma StillWaiting(n: int, missing: int, before: seq<byte>, all: seq<byte>, bs: seq<L.Block>, k: nat, tail: seq<bool>)
    requires Waiting(n, before, bs, k, tail) && n <= missing && before <= all
    ensures Waiting(missing, all, bs, k, tail)
  {
  }

  lemma StreamingParts(rest: seq<bool>, all: seq<byte>, bs: seq<L.Block>, k: nat, tail: seq<bool>)
    requires Streaming(rest, all, bs, k, tail)
    ensures L.ValidStream(bs) && L.InWords(bs) && k <= |bs| && L.ValidStream(bs[..k]) && all == L.Output(bs[..k])
    ensures k < |bs| ==> bs[k].body.InWords()
    ensures |L.StreamBits(bs[..k])| <= |L.StreamBits(bs)|
    ensures rest == L.StreamBits(bs)[|L.StreamBits(bs[..k])|..] + tail
  {
  }

  lemma IsStreaming(rest: seq<bool>, all: seq<byte>, bs: seq<L.Block>, k: nat, tail: seq<bool>)
    requires L.ValidStream(bs) && L.InWords(bs) && k <= |bs| && L.ValidStream(bs[..k]) && all == L.Output(bs[..k])
    requires |L.StreamBits(bs[..k])| <= |L.StreamBits(bs)|
    requires rest == L.StreamBits(bs)[|L.StreamBits(bs[..k])|..] + tail
    ensures Streaming(rest, all, bs, k, tail)
  {
  }

  lemma StreamingDone(rest: seq<bool>, all: seq<byte>, bs: seq<L.Block>, tail: seq<bool>)
    requires Streaming(rest, all, bs, |bs|, tail)
    ensures rest == tail && all == L.Output(bs)
  {
    hide *;
    StreamingParts(rest, all, bs, |bs|, tail);
    assert bs[..|bs|] == bs;
  }

  /** Where the reader is, counted from the end of the input. */
  lemma PosRest(r: BitReader)
    requires r.Valid()
    ensures r.Pos() + |r.Rest()| == 8 * |r.input|
  {
    hide BytesBits;
  }

  /** All blocks, up to the final one. */
  method InflateBlocks(r: BitReader, o: OutWindow, lit: HuffTable, dist: HuffTable, len: HuffTable,
                       ghost bs: seq<L.Block>, ghost tail: seq<bool>, ghost live: bool)
      returns (st: Status, ghost k: nat, ghost gs: seq<L.Block>)
    requires r.Valid() && o.Valid() && AllTables(o, lit, dist, len) && r.Pos() % 8 == 0 && o.all == []
    requires live ==> L.ValidStream(bs) && L.InWords(bs) && L.Terminated(bs) && r.Rest() == L.StreamBits(bs) + tail
    modifies r`cur, r`end, r`bitBuf, r`numBits, o`cur, o`end, o`taken, o`from, o`check, o`all, o.buf
    modifies lit, lit.lookup, lit.tree, dist, dist.lookup, dist.tree, len, len.lookup, len.tree
    ensures r.Valid() && o.Valid() && |r.Rest()| <= |old(r.Rest())| && old(o.all) <= o.all
    ensures st != Mismatch && (st == NoInput ==> r.Spent()) && (st == NoRoom ==> o.Full())
    ensures live ==> o.all <= L.Output(bs) && (st == Done || Stopped(r, o, st, L.Output(bs), tail))
    ensures live && st == NoInput ==> Waiting(r.Missing(), o.all, bs, k, tail)
    ensures live && st == Done ==> r.Rest() == tail && o.all == L.Output(bs)
    ensures st == Done && !o.wrapping ==>
      Ending(gs, true) && exists q: nat :: StreamRead(gs, q, old(r.Rest()), r.Rest(), o.all)
    ensures live && st == NoRoom ==> |tail| <= |r.Rest()|
  {
    hide *;
    k, gs := 0, [];
    ghost var q: nat := 0;
    NothingRead(r.Rest());
    NoneEnding();
    if live {
      StartStreaming(bs, tail);
      PosRest(r);
      NotEmpty(bs);
    }
    ghost var total := |r.Rest()|;
    var final := false;
    st := Done;
    while !final
      invariant r.Valid() && o.Valid() && |r.Rest()| <= |old(r.Rest())| && old(o.all) <= o.all && st == Done
      invariant live ==> k <= |bs| && Streaming(r.Rest(), o.all, bs, k, tail) && (final <==> k == |bs|)
      invariant q % 8 == r.Pos() % 8 && Ending(gs, final)
      invariant !o.wrapping ==> StreamRead(gs, q, old(r.Rest()), r.Rest(), o.all)
      decreases |r.Rest()|, if final then 0 else 1
    {
      ghost var all, rest, pos, got := o.all, r.Rest(), r.Pos(), L.Stored([], []);
      PosRest(r);
      st, final, got := StreamBlock(r, o, lit, dist, len, bs, k, tail, total, live, q);
      if st != Done { return; }
      PosRest(r);
      if !o.wrapping {
        StreamReadOne(gs, L.Block(final, got), q, old(r.Rest()), rest, all, r.Rest(), o.all);
      }
      EndingOne(gs, L.Block(final, got));
      FurtherOn(q, pos, |rest| - |r.Rest()|);
      gs, q := gs + [L.Block(final, got)], q + (|rest| - |r.Rest()|);
      k := k + 1;
    }
    if live { StreamingDone(r.Rest(), o.all, bs, tail); }
  }

  /** The blocks `gs` have been read, up to bit `q` of the stream. */
  ghost predicate StreamRead(gs: seq<L.Block>, q: nat, rest0: seq<bool>, rest: seq<bool>, all: seq<byte>) {
    && L.ValidStream(gs) && q == |L.StreamBits(gs)| && L.Output(gs) == all
    && rest0 == L.StreamBits(gs) + rest
  }

  lemma NothingRead(rest: seq<bool>)
    ensures StreamRead([], 0, rest, rest, [])
  {
  }

  lemma StreamReadOne(gs: seq<L.Block>, b: L.Block, q: nat, rest0: seq<bool>, rest1: seq<bool>, h: seq<byte>,
                      rest: seq<bool>, all: seq<byte>)
    requires StreamRead(gs, q, rest0, rest1, h) && BlockRead(b, q, h, all, rest1, rest)
    ensures |rest1| >= |rest| && StreamRead(gs + [b], q + (|rest1| - |rest|), rest0, rest, all)
  {
    hide L.ValidStream, L.StreamBits, L.Output, L.BlockBits, L.Body.Valid, L.Body.Output, L.Body.Fits;
    L.StreamOne(gs, b);
    var a, c := L.StreamBits(gs), L.BlockBits(q, b);
    assert a + (c + rest) == a + c + rest;
  }

  /** Only the last block can be final, and it is if `final`. */
  ghost predicate Ending(gs: seq<L.Block>, final: bool) {
    (final ==> gs != []) && forall i :: 0 <= i < |gs| ==> (gs[i].final <==> final && i == |gs| - 1)
  }

  lemma NoneEnding()
    ensures Ending([], false)
  {
  }

  lemma EndingOne(gs: seq<L.Block>, b: L.Block)
    requires Ending(gs, false)
    ensures Ending(gs + [b], b.final)
  {
  }

  lemma FurtherOn(q: nat, pos: int, n: int)
    requires q % 8 == pos % 8
    ensures (q + n) % 8 == (pos + n) % 8
  {
  }

  method StreamBlock(r: BitReader, o: OutWindow, lit: HuffTable, dist: HuffTable, len: HuffTable,
                     ghost bs: seq<L.Block>, ghost k: nat, ghost tail: seq<bool>, ghost total: nat, ghost live: bool,
                     ghost q: nat)
      returns (st: Status, final: bool, ghost got: L.Body)
    requires r.Valid() && o.Valid() && AllTables(o, lit, dist, len) && q % 8 == r.Pos() % 8
    requires live ==> k < |bs| && L.Terminated(bs) && Streaming(r.Rest(), o.all, bs, k, tail)
    requires live ==> total == |L.StreamBits(bs)| + |tail| && total % 8 == 0
    modifies r`cur, r`end, r`bitBuf, r`numBits, o`cur, o`end, o`taken, o`from, o`check, o`all, o.buf
    modifies lit, lit.lookup, lit.tree, dist, dist.lookup, dist.tree, len, len.lookup, len.tree
    ensures r.Valid() && o.Valid() && |r.Rest()| <= |old(r.Rest())| && old(o.all) <= o.all
    ensures st != Mismatch && (st == NoInput ==> r.Spent()) && (st == NoRoom ==> o.Full())
    ensures st == Done ==> |r.Rest()| < |old(r.Rest())|
    ensures live ==> o.all <= L.Output(bs) && (st == Done || Stopped(r, o, st, L.Output(bs), tail))
    ensures live && st == NoInput ==> Waiting(r.Missing(), o.all, bs, k, tail)
    ensures live && st == Done ==> Streaming(r.Rest(), o.all, bs, k + 1, tail) && (final <==> k + 1 == |bs|)
    ensures st == Done && !o.wrapping ==>
      BlockRead(L.Block(final, got), q, old(o.all), o.all, old(r.Rest()), r.Rest())
    ensures live && st == NoRoom ==> |tail| <= |r.Rest()|
  {
    hide *;
    ghost var p: nat, more, b := 0, [], L.Block(false, L.Stored([], []));
    if live {
      p, more := NextBlock(r.Rest(), o.all, bs, k, tail);
      b := bs[k];
      PosRest(r);
      SamePlace(p, r.Pos(), |r.Rest()|, 8 * |r.input|, total);
      FinalAt(bs, k);
    }
    ghost var before := o.all;
    st, final, got := InflateBlock(r, o, lit, dist, len, p, b, more, live, q);
    if live { BlockStopped(r, o, st, b.body.Output(before), before, bs, k, more, tail); }
  }

  lemma BlockStopped(r: BitReader, o: OutWindow, st: Status, part: seq<byte>, before: seq<byte>, bs: seq<L.Block>,
                     k: nat,
                     more: seq<bool>, tail: seq<bool>)
    requires L.ValidStream(bs) && part <= L.Output(bs) && o.all <= part && before <= o.all && |tail| <= |more|
    requires Waiting(|more| + 1, before, bs, k, tail) && (st == Done || Stopped(r, o, st, part, more))
    ensures o.all <= L.Output(bs) && (st == Done || Stopped(r, o, st, L.Output(bs), tail))
    ensures st == NoInput ==> Waiting(r.Missing(), o.all, bs, k, tail)
  {
    hide L.Output, Waiting, L.ValidStream;
    if st == NoInput { StillWaiting(|more| + 1, r.Missing(), before, o.all, bs, k, tail); }
  }

  lemma SamePlace(p: nat, pos: int, rest: nat, bits: nat, total: nat)
    requires pos + rest == bits && p + rest == total && bits % 8 == 0 && total % 8 == 0
    ensures p % 8 == pos % 8
  {
  }

  lemma NotEmpty(bs: seq<L.Block>)
    requires L.Terminated(bs)
    ensures |bs| > 0
  {
  }

  lemma FinalAt(bs: seq<L.Block>, k: nat)
    requires L.Terminated(bs) && k < |bs|
    ensures bs[k].final <==> k + 1 == |bs|
  {
  }

  // ---------------------------------------------------------------- the whole stream

  /** Checks the two bytes of a zlib header; the circular window has to be as large as the header says. */
  method CheckHeader(r: BitReader, wrapping: bool, ghost head0: seq<byte>, ghost tail: seq<bool>, ghost live: bool)
      returns (st: Status, ghost head: seq<byte>)
    requires r.Valid() && r.Pos() % 8 == 0
    requires live ==> |head0| == 2 && GoodHeader(head0[0], head0[1]) && r.Rest() == BytesBits(head0) + tail
    requires live ==> !wrapping || head0[0] < 0x80
    modifies r`cur, r`end, r`bitBuf, r`numBits
    ensures r.Valid() && r.Pos() % 8 == 0 && |r.Rest()| <= |old(r.Rest())|
    ensures st != NoRoom && st != Mismatch && (st == NoInput ==> r.Spent())
    ensures live ==> st == Done || (st == NoInput && r.Lacks(tail))
    ensures live && st == Done ==> r.Rest() == tail
    ensures st == Done ==> |head| == 2 && GoodHeader(head[0], head[1]) && old(r.Rest()) == BytesBits(head) + r.Rest()
    ensures st == Done && wrapping ==> head[0] < 0x80
  {
    hide *;
    ghost var cmf, flg := if live then head0[0] else 0, if live then head0[1] else 0;
    HeaderTwo(cmf, flg);
    assert live ==> head0 == [cmf, flg];
    head := [];
    r.LacksIs(tail);
    r.LacksIs(BitsOf(flg, 8) + tail);
    assert live ==> r.Rest() == BitsOf(cmf, 8) + (BitsOf(flg, 8) + tail);
    var ok, b0 := ReadByte(r, cmf, if live then BitsOf(flg, 8) + tail else [], live);
    if !ok { return NoInput, head; }
    var b1;
    ok, b1 := ReadByte(r, flg, tail, live);
    if !ok { return NoInput, head; }
    head := [b0, b1];
    HeaderTwo(b0, b1);
    HeaderTest(b0, b1);
    WindowSize(b0);
    var bad := (b0 * 256 + b1) % 31 != 0 || (b1 / 32) % 2 == 1 || b0 % 16 != 8;
    if wrapping {
      bad := bad || Pow2(8 + b0 / 16) > 32768;
    }
    st := if bad then Failed else Done;
  }

  lemma HeaderTest(b0: byte, b1: byte)
    ensures GoodHeader(b0, b1) <==> !((b0 * 256 + b1) % 31 != 0 || (b1 / 32) % 2 == 1 || b0 % 16 != 8)
  {
  }

  lemma WindowSize(cmf: byte)
    ensures Pow2(8 + cmf / 16) <= 32768 <==> cmf < 0x80
  {
    Pow2Values();
    var k := cmf / 16;
    if k >= 8 { Pow2Add(16, k - 8); } else if k < 7 { Pow2Add(8 + k, 7 - k); }
  }

  lemma HeaderTwo(cmf: byte, flg: byte)
    ensures BytesBits([cmf, flg]) == BitsOf(cmf, 8) + BitsOf(flg, 8)
  {
    assert [cmf, flg] == [cmf] + [flg];
    BytesBitsAppend([cmf], [flg]);
    BytesBitsOne(cmf);
    BytesBitsOne(flg);
  }

  /** Reads the checksum at the end of a zlib stream. */
  method ReadAdler(r: BitReader, ghost adler: nat, ghost tail: seq<bool>, ghost live: bool) returns (ok: bool, z: nat)
    requires r.Valid() && r.Pos() % 8 == 0 && r.numBits == 0
    requires live ==> adler < 0x1_0000_0000 && r.Rest() == BytesBits(BigEndian(adler)) + tail
    modifies r`cur, r`end, r`bitBuf, r`numBits
    ensures r.Valid() && |r.Rest()| <= |old(r.Rest())| && z < 0x1_0000_0000 && r.numBits == 0
    ensures ok ==> r.cur == old(r.cur) + 4 && r.data[old(r.cur)..r.cur] == BigEndian(z)
    ensures !ok ==> r.Spent() && (live ==> r.Lacks(tail))
    ensures live && ok ==> z == adler && r.Rest() == tail
    ensures ok ==> old(r.Rest()) == BytesBits(BigEndian(z)) + r.Rest()
  {
    hide *;
    ghost var bytes: seq<byte> := if live then BigEndian(adler) else [0, 0, 0, 0];
    ghost var start := r.cur;
    z, ok := 0, true;
    StartInput(r);
    NoNumber();
    ghost var sofar: seq<byte> := [];
    assert bytes[0..] == bytes && r.data[start..start] == [] && bytes[..0] == [];
    NothingCopied([], r.Rest());
    r.LacksIs(tail);
    for i := 0 to 4
      invariant r.Valid() && r.Pos() % 8 == 0 && r.numBits == 0 && |r.Rest()| <= |old(r.Rest())| && ok
      invariant r.cur == start + i <= |r.data| && r.data[start..r.cur] == sofar && |sofar| == i
      invariant z == Number(sofar) && z < 0x1_0000_0000 && Copied([], sofar, i, old(r.Rest()), r.Rest())
      invariant live ==> r.Rest() == BytesBits(bytes[i..]) + tail && sofar == bytes[..i]
    {
      ghost var rest := r.Rest();
      var s;
      if live { FirstByte(bytes, i); }
      r.LacksIs(BytesBits(bytes[i + 1..]) + tail);
      ok, s := ReadByte(r, bytes[i], BytesBits(bytes[i + 1..]) + tail, live);
      if !ok { return; }
      assert r.data[start..r.cur] == sofar + [s];
      NextByteRead(sofar, z, s, i, old(r.Rest()), rest, r.Rest());
      sofar := sofar + [s];
      z := (z * 256 + s) % 0x1_0000_0000;
    }
    NumberBytes(sofar);
    AllCopied([], sofar, 4, old(r.Rest()), r.Rest());
    if live {
      assert sofar == bytes;
      NumberOf(adler);
      NothingAfter(bytes);
    }
  }

  lemma NextByteRead(sofar: seq<byte>, z: nat, s: byte, i: nat, rest0: seq<bool>, rest1: seq<bool>, rest: seq<bool>)
    requires z == Number(sofar) && |sofar| == i < 4 && Copied([], sofar, i, rest0, rest1)
    requires rest1 == BitsOf(s, 8) + rest
    ensures (z * 256 + s) % 0x1_0000_0000 == Number(sofar + [s]) && Copied([], sofar + [s], i + 1, rest0, rest)
  {
    hide *;
    NumberStep(sofar, s);
    OneCopied(sofar, s, rest);
    CopiedMore([], sofar, sofar + [s], i, 1, rest0, rest1, rest);
  }

  lemma NoNumber()
    ensures Number([]) == 0
  {
  }

  lemma StartInput(r: BitReader)
    requires r.Valid()
    ensures r.cur <= |r.data|
  {
  }

  /** Bytes as a number, most significant first. */
  function Number(b: seq<byte>): nat {
    if b == [] then 0 else 256 * Number(b[..|b| - 1]) + b[|b| - 1]
  }

  lemma NumberStep(b: seq<byte>, s: byte)
    requires |b| < 4
    ensures Number(b + [s]) == (Number(b) * 256 + s) % 0x1_0000_0000 == Number(b) * 256 + s
  {
    NumberBound(b);
    NumberPush(b, s);
    hide *;
    var n := 256 * Number(b) + s;
    assert n < 0x1_0000_0000;
    DivUnique(n, 0x1_0000_0000, 0, n);
  }

  lemma NumberPush(b: seq<byte>, s: byte)
    ensures Number(b + [s]) == 256 * Number(b) + s
  {
    assert (b + [s])[..|b|] == b;
  }

  lemma {:induction false} NumberBound(b: seq<byte>)
    requires |b| <= 4
    ensures Number(b) <
      if |b| == 0 then 1 else if |b| == 1 then 256 else if |b| == 2 then 65536
      else if |b| == 3 then 0x100_0000 else 0x1_0000_0000
    decreases |b|
  {
    if b != [] { NumberBound(b[..|b| - 1]); }
  }

  lemma NumberParts(b: seq<byte>)
    requires |b| == 4
    ensures Number(b) == 0x100_0000 * b[0] as int + 65536 * b[1] as int + 256 * b[2] as int + b[3] as int
  {
    assert b[..3][..2] == b[..2] && b[..2][..1] == b[..1] && b[..1][..0] == [];
    var b0: int, b1: int, b2: int := b[0], b[1], b[2];
    assert Number(b[..1]) == b0;
    assert Number(b[..2]) == 256 * b0 + b1;
    assert Number(b[..3]) == 65536 * b0 + 256 * b1 + b2;
  }

  lemma BigEndianParts(b0: int, b1: int, b2: int, b3: int, n: nat)
    requires 0 <= b0 < 256 && 0 <= b1 < 256 && 0 <= b2 < 256 && 0 <= b3 < 256
    requires n == 0x100_0000 * b0 + 65536 * b1 + 256 * b2 + b3
    ensures n < 0x1_0000_0000 && n / 0x100_0000 == b0 && n / 65536 % 256 == b1 && n / 256 % 256 == b2 && n % 256 == b3
  {
    DivUnique(n, 0x100_0000, b0, 65536 * b1 + 256 * b2 + b3);
    DivUnique(n, 65536, 256 * b0 + b1, 256 * b2 + b3);
    DivUnique(n, 256, 65536 * b0 + 256 * b1 + b2, b3);
  }

  lemma NumberOf(a: nat)
    requires a < 0x1_0000_0000
    ensures Number(BigEndian(a)) == a
  {
    var q1, q2, q3 := a / 256, a / 256 / 256, a / 256 / 256 / 256;
    BigEndianParts(q3, q2 % 256, q1 % 256, a % 256, a);
    hide Number;
    NumberParts(BigEndian(a));
  }

  lemma NumberBytes(b: seq<byte>)
    requires |b| == 4
    ensures Number(b) < 0x1_0000_0000 && BigEndian(Number(b)) == b
  {
    hide Number;
    NumberParts(b);
    BigEndianParts(b[0], b[1], b[2], b[3], Number(b));
  }

  lemma NothingAfter(b: seq<byte>)
    requires |b| == 4
    ensures BytesBits(b[4..]) == []
  {
  }

  /** The blocks and the padding behind them; afterwards no bits are left in the bit buffer, so that
      exactly the bytes of the stream have been taken from the input. */
  method InflateAligned(r: BitReader, o: OutWindow, lit: HuffTable, dist: HuffTable, len: HuffTable,
                        ghost bs: seq<L.Block>, ghost pad: seq<bool>, ghost tail: seq<bool>, ghost live: bool)
      returns (st: Status, ghost k: nat, ghost gs: seq<L.Block>, ghost skipped: seq<bool>)
    requires r.Valid() && o.Valid() && AllTables(o, lit, dist, len) && r.Pos() % 8 == 0 && o.all == []
    requires live ==> L.ValidStream(bs) && L.InWords(bs) && L.Terminated(bs)
    requires live ==> r.Rest() == L.StreamBits(bs) + pad + tail && |pad| < 8 && |tail| % 8 == 0
    modifies r`cur, r`end, r`bitBuf, r`numBits, o`cur, o`end, o`taken, o`from, o`check, o`all, o.buf
    modifies lit, lit.lookup, lit.tree, dist, dist.lookup, dist.tree, len, len.lookup, len.tree
    ensures r.Valid() && o.Valid() && |r.Rest()| <= |old(r.Rest())| && old(o.all) <= o.all
    ensures st != Mismatch && (st == NoInput ==> r.Spent()) && (st == NoRoom ==> o.Full())
    ensures st == Done ==> r.numBits == 0 && r.Pos() % 8 == 0
    ensures live ==> o.all <= L.Output(bs) && (st == Done || Stopped(r, o, st, L.Output(bs), tail))
    ensures live && st == NoInput ==> Waiting(r.Missing(), o.all, bs, k, pad + tail)
    ensures live && st == Done ==> r.Rest() == tail && o.all == L.Output(bs)
    ensures st == Done && !o.wrapping ==> PaddedRead(gs, skipped, old(r.Rest()), r.Rest(), o.all)
    ensures live && st == NoRoom ==> |tail| <= |r.Rest()|
  {
    hide *;
    skipped := [];
    assert live ==> r.Rest() == L.StreamBits(bs) + (pad + tail);
    if live { StoppedSooner(r, o, L.Output(bs), pad + tail, tail); }
    PosRest(r);
    ghost var start, rest0 := r.Pos(), r.Rest();
    st, k, gs := InflateBlocks(r, o, lit, dist, len, bs, pad + tail, live);
    if st != Done { return; }
    ghost var pos, rest := r.Pos(), r.Rest();
    PosRest(r);
    if live { PadToByte(r.Pos(), |pad|, |tail|, 8 * |r.input|); }
    skipped := SkipPadding(r, pad, tail, live);
    GiveBack(r);
    if !o.wrapping { PaddedIs(gs, skipped, start, pos, rest0, rest, r.Rest(), o.all); }
  }

  /** Complete blocks and padding have been read. */
  ghost predicate PaddedRead(gs: seq<L.Block>, pad: seq<bool>, rest0: seq<bool>, rest: seq<bool>, all: seq<byte>) {
    && L.ValidStream(gs) && L.Terminated(gs) && L.Output(gs) == all && |pad| == Pad(|L.StreamBits(gs)|)
    && rest0 == L.StreamBits(gs) + (pad + rest)
  }

  lemma PaddedIs(gs: seq<L.Block>, pad: seq<bool>, start: int, pos: int, rest0: seq<bool>, rest1: seq<bool>,
                 rest: seq<bool>, all: seq<byte>)
    requires Ending(gs, true) && exists q: nat :: StreamRead(gs, q, rest0, rest1, all)
    requires start % 8 == 0 && start + |rest0| == pos + |rest1|
    requires |pad| < 8 && (pos + |pad|) % 8 == 0 && rest1 == pad + rest
    ensures PaddedRead(gs, pad, rest0, rest, all)
  {
    hide L.ValidStream, L.StreamBits, L.Output;
    var q := |L.StreamBits(gs)|;
    assert pos == start + q;
    FurtherOn(0, start, q);
    PadIs(pos, q, |pad|);
  }

  lemma StoppedSooner(r: BitReader, o: OutWindow, target: seq<byte>, more: seq<bool>, tail: seq<bool>)
    requires |tail| <= |more|
    ensures forall st :: Stopped(r, o, st, target, more) ==> Stopped(r, o, st, target, tail)
  {
  }

  lemma PadToByte(pos: int, pad: nat, tail: nat, bits: nat)
    requires pos + pad + tail == bits && bits % 8 == 0 && tail % 8 == 0
    ensures (pos + pad) % 8 == 0
  {
  }

  /** Gives all whole bytes in the bit buffer back; at a byte boundary that empties it. */
  method GiveBack(r: BitReader)
    requires r.Valid() && r.Pos() % 8 == 0
    modifies r`cur, r`bitBuf, r`numBits
    ensures r.Valid() && r.Pos() == old(r.Pos()) && r.Rest() == old(r.Rest()) && r.numBits == 0
  {
    hide BytesBits, BitsOf, Pow2;
    r.PutBack(0);
  }

  /** The whole stream, with or without the zlib wrapper (RFC 1950 section 2.2). For any input the
      method ends and stays inside its buffers, and it reports success on a zlib stream only if
      the checksum at its end is that of the output. If the input is the form of blocks `bs`, the
      output is what they mean, and exactly that form has been taken from the input. If only a part of
      the input is supplied, or there is not enough room, the output is a prefix, with at least all the
      blocks that are supplied to their ends. */
  method InflateStream(r: BitReader, o: OutWindow, lit: HuffTable, dist: HuffTable, len: HuffTable, zlib: bool,
                       ghost form: seq<bool>, ghost parts: L.Parts, ghost more: seq<bool>, ghost live: bool)
      returns (st: Status, ghost k: nat, ghost bits: seq<bool>)
    requires r.Valid() && r.Pos() == 0 && r.numBits == 0 && o.Valid() && o.all == [] && AllTables(o, lit, dist, len)
    requires live ==> L.Formed(form, zlib, parts) && L.ValidStream(parts.blocks) && r.Rest() == form + more
    requires live && o.wrapping ==> L.SmallWindow(parts)
    modifies r`cur, r`end, r`bitBuf, r`numBits, o`cur, o`end, o`taken, o`from, o`check, o`all, o.buf
    modifies lit, lit.lookup, lit.tree, dist, dist.lookup, dist.tree, len, len.lookup, len.tree
    ensures r.Valid() && o.Valid() && (st == NoInput ==> r.Spent()) && (st == NoRoom ==> o.Full())
    ensures st == Done || st == Mismatch ==> r.numBits == 0
    ensures st == Done && zlib ==> 4 <= r.cur <= |r.data|
    ensures st == Done && zlib ==> Number(r.data[r.cur - 4..r.cur]) == Adler.Update(1, o.all)
    ensures live ==> o.all <= L.Output(parts.blocks)
    ensures live ==> st == Done || st == Mismatch || Stopped(r, o, st, L.Output(parts.blocks), more)
    ensures live && st == NoInput ==> UpTo(|r.data|, o.all, zlib, parts.blocks, k)
    ensures live && (st == Done || st == Mismatch) ==>
      o.all == L.Output(parts.blocks) && r.Rest() == more && (st == Done <==> L.Right(zlib, parts))
    ensures st == Mismatch ==> zlib
    ensures st == Done && !o.wrapping ==> L.Means(bits, zlib, o.all) && old(r.Rest()) == bits + r.Rest()
    ensures live && st == NoRoom ==> |more| <= |r.Rest()|
  {
    hide *;
    ghost var bs, pad := parts.blocks, parts.pad;
    ghost var sum: seq<bool>, s: seq<bool>, adler: nat := [], [], parts.sum;
    ghost var n := if zlib then 16 else 0;
    ghost var head, gs, skipped := [], [], [];
    k, bits := 0, [];
    NoHead(r.Rest());
    ghost var rest0 := r.Rest();
    if live {
      PosRest(r);
      sum := FormParts(form, zlib, parts, more, 8 * |r.input|);
      s := L.StreamBits(bs);
      StoppedSooner(r, o, L.Output(bs), s + pad + (sum + more), more);
      StoppedIs(r, o, L.Output(bs), s + pad + (sum + more));
      StoppedSooner(r, o, L.Output(bs), sum + more, more);
      StoppedIs(r, o, L.Output(bs), more);
      NothingUpTo(r, o.all, zlib, bs, s + pad + (sum + more));
    }
    if zlib {
      st, head := CheckHeader(r, o.wrapping, parts.head, s + pad + (sum + more), live);
      if st != Done { return; }
    }
    ghost var rest1 := r.Rest();
    st, k, gs, skipped := InflateAligned(r, o, lit, dist, len, bs, pad, sum + more, live);
    if live && st == NoInput { WaitingUpTo(r, o.all, zlib, bs, k, pad + (sum + more)); }
    if st != Done { return; }
    if live {
      AllUpTo(|r.data|, o.all, zlib, bs);
      RightSum(zlib, parts);
      k := |bs|;
    }
    o.Close();
    ghost var rest2 := r.Rest();
    if zlib {
      Adler.UpdateFits(1, o.all);
      st := CheckSum(r, o.check, adler, more, live);
    }
    if st == Done && !o.wrapping {
      bits := WholeRead(zlib, head, gs, skipped, rest0, rest1, rest2, r.Rest(), o.all);
    }
  }

  lemma NoHead(rest: seq<bool>)
    ensures rest == BytesBits([]) + rest
  {
  }

  lemma WholeRead(zlib: bool, head: seq<byte>, gs: seq<L.Block>, pad: seq<bool>, rest0: seq<bool>, rest1: seq<bool>,
                  rest2: seq<bool>, rest: seq<bool>, all: seq<byte>)
      returns (bits: seq<bool>)
    requires if zlib then |head| == 2 && GoodHeader(head[0], head[1]) else head == []
    requires rest0 == BytesBits(head) + rest1 && PaddedRead(gs, pad, rest1, rest2, all)
    requires Adler.Update(1, all) < 0x1_0000_0000
    requires rest2 == (if zlib then BytesBits(BigEndian(Adler.Update(1, all))) else []) + rest
    ensures L.Means(bits, zlib, all) && rest0 == bits + rest
  {
    var a, b, c, d := BytesBits(head), L.StreamBits(gs), pad,
      if zlib then BytesBits(BigEndian(Adler.Update(1, all))) else [];
    hide *;
    PaddedParts(gs, pad, rest1, rest2, all);
    bits := a + (b + (c + d));
    FourThenRest(a, b, c, d, rest);
    IsMeant(bits, zlib, all, head, gs, pad);
  }

  lemma PaddedParts(gs: seq<L.Block>, pad: seq<bool>, rest0: seq<bool>, rest: seq<bool>, all: seq<byte>)
    requires PaddedRead(gs, pad, rest0, rest, all)
    ensures L.ValidStream(gs) && L.Terminated(gs) && L.Output(gs) == all && |pad| == Pad(|L.StreamBits(gs)|)
    ensures rest0 == L.StreamBits(gs) + (pad + rest)
  {
    hide L.ValidStream, L.Terminated, L.Output, L.StreamBits;
  }

  lemma IsMeant(bits: seq<bool>, zlib: bool, all: seq<byte>, head: seq<byte>, gs: seq<L.Block>, pad: seq<bool>)
    requires L.ValidStream(gs) && L.Terminated(gs) && L.Output(gs) == all && |pad| == Pad(|L.StreamBits(gs)|)
    requires if zlib then |head| == 2 && GoodHeader(head[0], head[1]) else head == []
    requires Adler.Update(1, all) < 0x1_0000_0000
    requires bits == BytesBits(head) + (L.StreamBits(gs) + (pad +
      (if zlib then BytesBits(BigEndian(Adler.Update(1, all))) else [])))
    ensures L.Means(bits, zlib, all)
  {
    hide L.ValidStream, L.Terminated, L.StreamBits, L.Output, BytesBits, BigEndian, Adler.Update, GoodHeader;
    assert L.StreamOf(bits, zlib, all, head, gs, pad);
  }

  /** Of a stream of which `n` bytes are supplied, the first `k` blocks are put out, and the next one, if there
      is one, is not supplied to its end. */
  ghost predicate UpTo(n: nat, all: seq<byte>, zlib: bool, bs: seq<L.Block>, k: nat) {
    && L.ValidStream(bs) && k <= |bs| && L.ValidStream(bs[..k]) && L.Output(bs[..k]) <= all
    && (k < |bs| ==> L.ValidStream(bs[..k + 1]) && 8 * n < HeadLength(zlib) + |L.StreamBits(bs[..k + 1])|)
  }

  lemma NothingUpTo(r: BitReader, all: seq<byte>, zlib: bool, bs: seq<L.Block>, rest: seq<bool>)
    requires L.ValidStream(bs) && HeadLength(zlib) + |rest| == 8 * |r.input|
    ensures r.Lacks(rest) ==> UpTo(|r.data|, all, zlib, bs, 0)
  {
    assert bs[..0] == [] && L.Output([]) == [];
    if bs != [] { L.StreamPrefix(bs, 1); }
  }

  lemma WaitingUpTo(r: BitReader, all: seq<byte>, zlib: bool, bs: seq<L.Block>, k: nat, tail: seq<bool>)
    requires Waiting(r.Missing(), all, bs, k, tail)
    requires HeadLength(zlib) + |L.StreamBits(bs)| + |tail| == 8 * |r.input|
    ensures UpTo(|r.data|, all, zlib, bs, k)
  {
  }

  lemma AllUpTo(n: nat, all: seq<byte>, zlib: bool, bs: seq<L.Block>)
    requires L.ValidStream(bs) && all == L.Output(bs)
    ensures UpTo(n, all, zlib, bs, |bs|)
  {
    assert bs[..|bs|] == bs;
  }

  lemma RightSum(zlib: bool, parts: L.Parts)
    requires L.ValidStream(parts.blocks)
    ensures L.Right(zlib, parts) <==> !zlib || parts.sum == Adler.Update(1, L.Output(parts.blocks))
  {
    hide Adler.Update, L.Output;
  }

  lemma FormParts(form: seq<bool>, zlib: bool, parts: L.Parts, more: seq<bool>, bits: nat)
      returns (sum: seq<bool>)
    requires L.Formed(form, zlib, parts) && |form + more| == bits && bits % 8 == 0
    ensures var bs, pad := parts.blocks, parts.pad;
      && L.ValidStream(bs) && L.InWords(bs) && L.Terminated(bs) && |pad| < 8
      && parts.sum < 0x1_0000_0000 && sum == (if zlib then BytesBits(BigEndian(parts.sum)) else [])
      && |sum + more| % 8 == 0
      && HeadLength(zlib) + |L.StreamBits(bs)| + |pad| + |sum + more| == bits
      && form + more == BytesBits(parts.head) + (L.StreamBits(bs) + pad + (sum + more))
    ensures if zlib then |parts.head| == 2 && GoodHeader(parts.head[0], parts.head[1]) else parts.head == []
    ensures L.SmallWindow(parts) && zlib ==> parts.head[0] < 0x80
  {
    hide L.ValidStream, L.StreamBits, L.Output, L.InWords, L.Terminated, Adler.Update, BigEndian, GoodHeader, BytesBits;
    var bs, pad := parts.blocks, parts.pad;
    sum := if zlib then BytesBits(BigEndian(parts.sum)) else [];
    HeadSize(zlib, parts.head);
    Regroup2(BytesBits(parts.head), L.StreamBits(bs), pad, sum, more);
    PadWhole(|L.StreamBits(bs)|, |pad|);
    WholeBytes(HeadLength(zlib) + |L.StreamBits(bs)|, |pad|, |sum + more|, bits);
  }

  lemma HeadSize(zlib: bool, head: seq<byte>)
    requires |head| == if zlib then 2 else 0
    ensures |BytesBits(head)| == HeadLength(zlib)
  {
  }

  lemma PadWhole(n: nat, pad: nat)
    requires pad == Pad(n)
    ensures pad < 8 && pad == Pad(n + 16)
  {
  }

  lemma Regroup2(a: seq<bool>, b: seq<bool>, c: seq<bool>, d: seq<bool>, e: seq<bool>)
    ensures a + (b + (c + d)) + e == a + (b + c + (d + e))
  {
  }

  lemma WholeBytes(start: nat, pad: nat, tail: nat, bits: nat)
    requires start + pad + tail == bits && bits % 8 == 0 && pad == Pad(start)
    ensures tail % 8 == 0
  {
  }

  /** Compares the checksum of the output with the one at the end of the stream. */
  method CheckSum(r: BitReader, check: nat, ghost adler: nat, ghost more: seq<bool>, ghost live: bool)
      returns (st: Status)
    requires r.Valid() && r.Pos() % 8 == 0 && r.numBits == 0
    requires check < 0x1_0000_0000
    requires live ==> adler < 0x1_0000_0000 && r.Rest() == BytesBits(BigEndian(adler)) + more
    modifies r`cur, r`end, r`bitBuf, r`numBits
    ensures r.Valid() && r.numBits == 0 && st != NoRoom && (st == NoInput ==> r.Spent())
    ensures st == Done ==> 4 <= r.cur <= |r.data| && Number(r.data[r.cur - 4..r.cur]) == check
    ensures st == Done || st == Mismatch || st == NoInput
    ensures live && st == NoInput ==> r.Lacks(more)
    ensures live && st != NoInput ==> r.Rest() == more && (st == Done <==> adler == check)
    ensures st == Done ==> old(r.Rest()) == BytesBits(BigEndian(check)) + r.Rest()
  {
    hide BytesBits, BitsOf, BigEndian, Number;
    var ok, z := ReadAdler(r, adler, more, live);
    if !ok { return NoInput; }
    NumberOf(z);
    st := if z != check then Mismatch else Done;
  }
}
