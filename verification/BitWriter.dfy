/** The compressor's bit buffer and output buffer (`TDEFL_PUT_BITS`). */
module BitWriter {
  import opened Bits

  class BitWriter {
    const buf: array<byte>
    var pos: nat        // where the next byte goes (m_pOutput_buf)
    var end: nat        // bytes past this point are dropped (m_pOutput_buf_end)
    var bitBuffer: nat
    var bitsIn: nat
    var out: seq<byte>  // the bytes already handed to the caller
    ghost var sent: seq<bool>    // every bit that was put, dropped or not
    ghost var mark: nat          // the buffer up to here is not touched until the next mark
    ghost var marked: seq<byte>

    constructor (size: nat, end: nat)
      requires end <= size
      ensures Valid() && fresh(buf) && this.end == end && sent == [] && pos == 0 && out == [] && mark == 0
    {
      buf := new byte[size](_ => 0);
      pos, bitBuffer, bitsIn := 0, 0, 0;
      this.end := end;
      out, sent, mark, marked := [], [], 0, [];
    }

    ghost predicate Valid()
      reads this, buf
    {
      && pos <= end <= buf.Length && bitsIn < 8 && bitBuffer < Pow2(bitsIn) && bitsIn == |sent| % 8
      && mark <= pos && buf[..mark] == marked
      && (pos < end ==> sent == BytesBits(out) + Contents())
      && (pos < end <==> |sent| < 8 * (|out| + end))
    }

    /** The bits in the output buffer and the bit buffer. */
    ghost function Contents(): seq<bool>
      reads this, buf
      requires pos <= buf.Length
    {
      BytesBits(buf[..pos]) + BitsOf(bitBuffer, bitsIn)
    }

    /** Appends the low `l` bits of `b`. Bytes that no longer fit are silently dropped, so what is
        in the buffers is what was sent exactly as long as the output position stays before the end. */
    method PutBits(b: nat, l: nat)
      requires Valid() && l <= 16 && b < Pow2(l)
      modifies this`pos, this`bitBuffer, this`bitsIn, this`sent, buf
      ensures Valid() && sent == old(sent) + BitsOf(b, l) && old(pos) <= pos
    {
      hide *;
      ValidParts();
      ghost var held := Contents() + BitsOf(b, l);
      PutAbove(bitBuffer, bitsIn, b, l);
      MoreContents(b, l, BitOr(bitBuffer, Shl(b, bitsIn)));
      SameRest(bitsIn, |sent|, l);
      bitBuffer := BitOr(bitBuffer, Shl(b, bitsIn));
      bitsIn := bitsIn + l;
      sent := sent + BitsOf(b, l);
      ContentsIs(bitBuffer, bitsIn);
      assert pos < end ==> sent == BytesBits(out) + held;
      Drain(held);
      IsValid();
    }

    lemma ValidParts()
      requires Valid()
      ensures pos <= end <= buf.Length && bitsIn < 8 && bitBuffer < Pow2(bitsIn) && bitsIn == |sent| % 8 && Kept()
      ensures pos < end ==> sent == BytesBits(out) + Contents() && 8 * (|out| + pos) + bitsIn == |sent|
      ensures pos == end ==> |sent| >= 8 * (|out| + end)
    {
      hide BitsOf, BytesBits, Pow2;
    }

    lemma IsValid()
      requires pos <= end <= buf.Length && bitBuffer < Pow2(bitsIn) && bitsIn == |sent| % 8 && Kept()
      requires pos < end ==> sent == BytesBits(out) + Contents()
      requires pos < end <==> |sent| < 8 * (|out| + end)
      ensures Valid()
    {
      hide BitsOf, BytesBits, Pow2, Contents;
    }

    lemma ContentsIs(buffer: nat, n: nat)
      requires pos <= buf.Length && buffer == bitBuffer && n == bitsIn
      ensures Contents() == BytesBits(buf[..pos]) + BitsOf(buffer, n)
    {
    }

    lemma MoreContents(b: nat, l: nat, r: nat)
      requires pos <= buf.Length && BitsOf(r, bitsIn + l) == BitsOf(bitBuffer, bitsIn) + BitsOf(b, l)
      ensures BytesBits(buf[..pos]) + BitsOf(r, bitsIn + l) == Contents() + BitsOf(b, l)
    {
      hide BitsOf, BytesBits;
    }

    /** Moves all whole bytes of the bit buffer to the output. */
    method Drain(ghost held: seq<bool>)
      requires pos <= end <= buf.Length && bitBuffer < Pow2(bitsIn) && Kept() && bitsIn % 8 == |sent| % 8
      requires held == Contents() && (pos < end ==> 8 * (|out| + pos) + bitsIn == |sent|)
      requires pos == end ==> |sent| >= 8 * (|out| + end)
      modifies this`pos, this`bitBuffer, this`bitsIn, buf
      ensures old(pos) <= pos <= end && bitBuffer < Pow2(bitsIn) && Kept() && bitsIn == |sent| % 8
      ensures pos < end ==> old(pos) < end && Contents() == held
      ensures pos < end <==> |sent| < 8 * (|out| + end)
    {
      hide *;
      while bitsIn >= 8
        invariant old(pos) <= pos <= end <= buf.Length && bitBuffer < Pow2(bitsIn) && Kept()
        invariant bitsIn % 8 == |sent| % 8
        invariant pos < end ==> 8 * (|out| + pos) + bitsIn == |sent| && Contents() == held
        invariant pos == end ==> |sent| >= 8 * (|out| + end)
        decreases bitsIn
      {
        OutByte();
      }
    }

    ghost predicate Kept()
      reads this`pos, this`mark, this`marked, buf
    {
      mark <= pos <= buf.Length && buf[..mark] == marked
    }

    /** Moves the low byte of the bit buffer to the output, or drops it if there is no room. */
    method OutByte()
      requires pos <= end <= buf.Length && bitsIn >= 8 && bitBuffer < Pow2(bitsIn) && Kept()
      modifies this`pos, this`bitBuffer, this`bitsIn, buf
      ensures pos == (if old(pos) < end then old(pos) + 1 else old(pos)) && bitsIn == old(bitsIn) - 8
      ensures bitBuffer < Pow2(bitsIn) && Kept()
      ensures old(pos) < end ==> Contents() == old(Contents())
    {
      hide BitsOf, BytesBits, Pow2;
      ShiftOut(bitBuffer, bitsIn);
      if pos < end {
        AppendByte(buf[..pos], bitBuffer % 256, BitsOf(bitBuffer / 256, bitsIn - 8));
        buf[pos] := bitBuffer % 256;
        pos := pos + 1;
        assert buf[..pos] == buf[..pos - 1] + [bitBuffer % 256];
      }
      bitBuffer := bitBuffer / 256;
      bitsIn := bitsIn - 8;
    }
  
    /** Marks the current position as the one to come back to. */
    ghost method SetMark()
      requires Valid()
      modifies this`mark, this`marked
      ensures Valid() && mark == pos && marked == buf[..pos]
    {
      mark, marked := pos, buf[..pos];
    }

    /** Goes back to the marked state: as if nothing had been put since. */
    method Rewind(savedPos: nat, savedBuffer: nat, savedBits: nat, ghost savedSent: seq<bool>)
      requires Valid() && savedPos == mark < end && savedBits == |savedSent| % 8 && savedBuffer < Pow2(savedBits)
      requires savedSent == BytesBits(out) + (BytesBits(marked) + BitsOf(savedBuffer, savedBits))
      modifies this`pos, this`bitBuffer, this`bitsIn, this`sent
      ensures Valid() && pos == savedPos && sent == savedSent
    {
      pos, bitBuffer, bitsIn := savedPos, savedBuffer, savedBits;
      sent := savedSent;
    }

    /** Hands the output buffer to the caller; the bit buffer is kept. */
    method HandOver()
      requires Valid() && pos < end
      modifies this`out, this`pos, this`mark, this`marked
      ensures Valid() && out == old(out) + old(buf[..pos]) && pos == 0
    {
      BytesBitsAppend(out, buf[..pos]);
      out := out + buf[..pos];
      pos, mark, marked := 0, 0, [];
      assert buf[..0] == [];
    }
  }

  lemma SameRest(n: nat, m: nat, l: nat)
    requires n == m % 8
    ensures (n + l) % 8 == (m + l) % 8
  {
  }

  lemma PutAbove(buffer: nat, n: nat, b: nat, l: nat)
    requires buffer < Pow2(n) && b < Pow2(l)
    ensures var r := BitOr(buffer, Shl(b, n));
      r < Pow2(n + l) && BitsOf(r, n + l) == BitsOf(buffer, n) + BitsOf(b, l)
  {
    hide BitsOf, BitOr, BytesBits, Pow2;
    BitOrDisjoint(buffer, b, n);
    BitsOfJoin(buffer, n, b, l);
    Pow2Add(n, l);
    MulDistrib(Pow2(n), Pow2(l), b);
    MulAtLeast(Pow2(n), Pow2(l) - b);
  }

  lemma AppendByte(bytes: seq<byte>, b: byte, rest: seq<bool>)
    ensures BytesBits(bytes + [b]) + rest == BytesBits(bytes) + (BitsOf(b, 8) + rest)
  {
    hide *;
    BytesBitsAppend(bytes, [b]);
    BytesBitsOne(b);
  }

  /** Taking the low byte out of the bit buffer. */
  lemma ShiftOut(buffer: nat, n: nat)
    requires n >= 8 && buffer < Pow2(n)
    ensures BitsOf(buffer, n) == BitsOf(buffer % 256, 8) + BitsOf(buffer / 256, n - 8)
    ensures buffer / 256 < Pow2(n - 8)
  {
    hide *;
    Pow2Values();
    Pow2Add(8, n - 8);
    var q, r := DivMod(buffer, 256);
    BitsOfJoin(r, 8, q, n - 8);
  }
}
