/** The decompressor's bit buffer over an input that arrives in chunks. */
module BitReader {
  import opened Bits
  import opened PrefixCode
  import opened DecodeTable
  import BitWriter

  class BitReader {
    const data: seq<byte>         // the bytes supplied
    ghost const input: seq<byte>  // an input that starts with them
    var cur: nat            // next byte to read (pIn_buf_cur)
    var end: nat            // end of the current chunk (pIn_buf_end)
    var bitBuf: nat
    var numBits: nat

    constructor (data: seq<byte>, ghost input: seq<byte>)
      requires data <= input
      ensures Valid() && this.data == data && this.input == input && Pos() == 0 && numBits == 0
    {
      this.data, this.input := data, input;
      cur, end, bitBuf, numBits := 0, 0, 0, 0;
      new;
      assert Bits()[0..0] == [];
    }

    ghost function Bits(): seq<bool>
    {
      BytesBits(input)
    }

    /** The number of bits consumed so far. */
    ghost function Pos(): int
      reads this
    {
      8 * cur - numBits
    }

    /** The buffered bits are the ones just before the read position; they fit a 64-bit buffer. */
    ghost predicate Valid()
      reads this
    {
      && data <= input && cur <= end <= |data| && numBits <= 8 * cur && numBits <= 64 && bitBuf < Pow2(numBits)
      && BitsOf(bitBuf, numBits) == Bits()[Pos()..8 * cur]
    }

    /** The bits that are still to be consumed. */
    ghost function Rest(): seq<bool>
      reads this
      requires Valid()
    {
      Bits()[Pos()..]
    }

    /** How many bits of the input are not supplied. */
    ghost function Missing(): int {
      8 * (|input| - |data|)
    }

    /** The input is not supplied up to its end `tail`. */
    ghost predicate Lacks(tail: seq<bool>) {
      |tail| < Missing()
    }

    lemma LacksIs(tail: seq<bool>)
      ensures Lacks(tail) <==> |tail| < Missing()
    {
    }

    /** All bytes supplied have been fetched. */
    ghost predicate Spent()
      reads this`cur
    {
      cur == |data|
    }

    /** Suspends until more input is there; fails at the end of all that is supplied. */
    method AwaitInput() returns (ok: bool)
      requires Valid()
      modifies this`end
      ensures Valid() && ok == (cur < |data|) && (ok ==> cur < end) && (!ok ==> Spent())
      ensures Pos() == old(Pos()) && Rest() == old(Rest())
    {
      if cur >= end {
        if end == |data| { return false; }
        var e: nat :| end < e <= |data|;
        end := e;
      }
      ok := true;
    }

    /** Moves one byte of the current chunk into the bit buffer. */
    method LoadByte()
      requires Valid() && cur < end && numBits <= 56
      modifies this`cur, this`bitBuf, this`numBits
      ensures Valid() && cur == old(cur) + 1 && numBits == old(numBits) + 8
    {
      Pow2Values();
      hide BitsOf, BitOr, BytesBits, Pow2, Shl;
      BitWriter.PutAbove(bitBuf, numBits, data[cur], 8);
      ByteAt(input, cur);
      Join(Bits(), Pos(), 8 * cur, 8 * cur + 8);
      bitBuf := BitOr(bitBuf, Shl(data[cur], numBits));
      numBits := numBits + 8;
      cur := cur + 1;
    }

    static lemma Join(s: seq<bool>, i: int, j: int, k: int)
      requires 0 <= i <= j <= k <= |s|
      ensures s[i..k] == s[i..j] + s[j..k]
    {
    }

    /** Drops `n` bits from the bit buffer. */
    method Drop(n: nat)
      requires Valid() && n <= numBits
      modifies this`bitBuf, this`numBits
      ensures Valid() && numBits == old(numBits) - n && Pos() == old(Pos()) + n
    {
      SplitBits(bitBuf, n, numBits);
      ShrBound(bitBuf, n, numBits);
      bitBuf := Shr(bitBuf, n);
      numBits := numBits - n;
      assert Bits()[Pos() - n..8 * cur][n..] == Bits()[Pos()..8 * cur];
    }

    /** Fetches bytes until at least `n` bits are buffered. */
    method NeedBits(n: nat) returns (ok: bool)
      requires Valid() && n <= 16
      modifies this`cur, this`end, this`bitBuf, this`numBits
      ensures Valid() && Pos() == old(Pos())
      ensures ok <==> n + Missing() <= |Rest()|
      ensures if ok then numBits >= n else Spent()
    {
      while numBits < n
        invariant Valid() && Pos() == old(Pos())
        decreases n - numBits
      {
        ok := AwaitInput();
        if !ok { return; }
        LoadByte();
      }
      ok := true;
    }

    /** Reads the next `n` bits as a number, low bit first. */
    method GetBits(n: nat) returns (ok: bool, b: nat)
      requires Valid() && n <= 16
      modifies this`cur, this`end, this`bitBuf, this`numBits
      ensures Valid() && (!ok ==> Spent())
      ensures ok <==> n + Missing() <= |old(Rest())|
      ensures ok ==> Pos() == old(Pos()) + n && b < Pow2(n) && BitsOf(b, n) == old(Rest())[..n]
      ensures !ok ==> Pos() == old(Pos())
    {
      b := 0;
      ok := NeedBits(n);
      if !ok { return; }
      SplitBits(bitBuf, n, numBits);
      b := LowBits(bitBuf, n);
      assert Bits()[Pos()..8 * cur][..n] == Rest()[..n];
      Drop(n);
    }

    /** Drops the bits up to the next byte boundary. */
    method SkipToByte()
      requires Valid()
      modifies this`bitBuf, this`numBits
      ensures Valid() && cur == old(cur) && Pos() % 8 == 0 && old(Pos()) <= Pos() < old(Pos()) + 8
    {
      Drop(numBits % 8);
    }

    /** Reads one byte at a byte boundary, from the bit buffer if there is anything in it. */
    method GetAlignedByte() returns (ok: bool, b: nat)
      requires Valid() && Pos() % 8 == 0
      modifies this`cur, this`end, this`bitBuf, this`numBits
      ensures Valid() && (old(numBits) == 0 ==> numBits == 0)
      ensures ok && old(numBits) == 0 ==> cur == old(cur) + 1 && b == data[old(cur)]
      ensures ok <==> 8 + Missing() <= |old(Rest())|
      ensures !ok ==> Spent()
      ensures ok ==> Pos() == old(Pos()) + 8 && b < 256 && BitsOf(b, 8) == old(Rest())[..8]
      ensures !ok ==> Pos() == old(Pos())
    {
      Pow2Values();
      if numBits > 0 {
        ok, b := GetBits(8);
      } else {
        b := 0;
        ok := AwaitInput();
        if !ok { return; }
        ByteAt(input, cur);
        b := data[cur];
        cur := cur + 1;
        assert Bits()[8 * cur..8 * cur] == [];
        assert old(Rest())[..8] == Bits()[8 * cur - 8..8 * cur];
      }
    }

    /** Gives whole buffered bytes back to the input, down to position `start` (`common_exit`). */
    method PutBack(start: nat)
      requires Valid() && start <= cur
      modifies this`cur, this`bitBuf, this`numBits
      ensures Valid() && Pos() == old(Pos()) && start <= cur
      ensures numBits < 8 || cur == start
      ensures Rest() == old(Rest()) && (old(numBits) < 8 ==> numBits == old(numBits) && cur == old(cur))
    {
      ghost var had := numBits;
      while cur > start && numBits >= 8
        invariant start <= cur <= end && numBits <= had && 8 * cur - numBits == old(Pos())
        invariant bitBuf == old(bitBuf)
        decreases cur
      {
        cur := cur - 1;
        numBits := numBits - 8;
      }
      SplitBits(bitBuf, numBits, had);
      bitBuf := LowBits(bitBuf, numBits);
      assert Bits()[Pos()..8 * old(cur)][..numBits] == Bits()[Pos()..8 * cur];
    }

    /** Decodes one symbol from the bit buffer, which holds enough of it. */
    method DecodeBuffered(t: HuffTable) returns (sym: nat)
      requires Valid() && t.Valid()
      requires numBits >= MAX_BITS || 0 < Resolve(t.lookup[..], t.tree[..], bitBuf).1 <= numBits
      modifies this`bitBuf, this`numBits
      ensures Valid() && sym < 288 && (sym != 0 ==> sym < |t.sizes| && Pos() > old(Pos()))
      ensures old(Pos()) <= Pos() <= old(Pos()) + MAX_BITS
      ensures forall s: nat :: Used(t.sizes, s) && Word(t.sizes, s) <= old(Rest()) ==>
        sym == s && Pos() == old(Pos()) + t.sizes[s]
      ensures ReadsAt(t.sizes, old(Rest()), Pos() - old(Pos()), sym)
    {
      hide *;
      ghost var rest := Rest();
      Buffered();
      var raw, codeLen := t.Decode(bitBuf);
      WordDecoded(t.sizes, bitBuf, numBits, rest, raw, codeLen);
      OnlyWord(t.sizes, bitBuf, numBits, rest, raw, codeLen);
      sym := raw % 512;
      Drop(codeLen);
    }

    lemma Buffered()
      requires Valid()
      ensures numBits <= |Rest()| && BitsOf(bitBuf, numBits) == Rest()[..numBits] && bitBuf < Pow2(numBits)
    {
    }

    /** Fetches bytes one by one until the next symbol can be decoded (`TINFL_HUFF_BITBUF_FILL`):
        it never reads a byte that the symbol does not need. */
    method FillForSymbol(t: HuffTable) returns (ok: bool)
      requires Valid() && t.Valid() && numBits < MAX_BITS
      modifies this`cur, this`end, this`bitBuf, this`numBits
      ensures Valid() && Pos() == old(Pos())
      ensures ok ==> numBits >= MAX_BITS || 0 < Resolve(t.lookup[..], t.tree[..], bitBuf).1 <= numBits
      ensures !ok ==> Spent() && TooShort(t.sizes)
    {
      while numBits < MAX_BITS
        invariant Valid() && Pos() == old(Pos())
        decreases MAX_BITS - numBits
      {
        var found := t.CanDecode(bitBuf, numBits);
        if found { return true; }
        ok := AwaitInput();
        if !ok {
          NoWord(t);
          return;
        }
        LoadByte();
      }
      ok := true;
    }

    /** No symbol's word is among the bits supplied. */
    ghost predicate TooShort(sizes: seq<nat>)
      requires Valid()
      reads this
    {
      forall s: nat :: Used(sizes, s) && Word(sizes, s) <= Rest() ==> |Rest()| < sizes[s] + Missing()
    }

    /** When all input is buffered and no symbol can be decoded, none is there. */
    lemma NoWord(t: HuffTable)
      requires Valid() && t.Valid() && numBits < MAX_BITS && Spent()
      requires !(0 < Resolve(t.lookup[..], t.tree[..], bitBuf).1 <= numBits)
      ensures TooShort(t.sizes)
    {
      ResolvedDecodes(t.sizes, t.idx, t.cnt, t.lookup[..], t.tree[..], bitBuf);
      var len := Resolve(t.lookup[..], t.tree[..], bitBuf).1;
      hide Resolve, Inv, Word, BitsOf, BytesBits;
      Buffered();
      assert |Rest()| == numBits + Missing();
      var rest := Rest();
      hide HuffTable.Valid, BitReader.Valid, Rest, Pos;
      forall s: nat | Used(t.sizes, s) && Word(t.sizes, s) <= rest
        ensures |rest| < t.sizes[s] + Missing()
      {
        WordLength(t.sizes, s);
        if t.sizes[s] <= numBits { Agree(bitBuf, numBits, rest, Word(t.sizes, s), len); }
      }
    }

    /** Decodes the next symbol (`TINFL_HUFF_DECODE`). */
    method HuffDecode(t: HuffTable) returns (ok: bool, sym: nat)
      requires Valid() && t.Valid()
      modifies this`cur, this`end, this`bitBuf, this`numBits
      ensures Valid()
      ensures ok ==> sym < 288 && (sym != 0 ==> sym < |t.sizes| && Pos() > old(Pos()))
      ensures ok ==> old(Pos()) <= Pos() <= old(Pos()) + MAX_BITS
      ensures ok ==> forall s: nat :: Used(t.sizes, s) && Word(t.sizes, s) <= old(Rest()) ==>
        sym == s && Pos() == old(Pos()) + t.sizes[s]
      ensures ok ==> ReadsAt(t.sizes, old(Rest()), Pos() - old(Pos()), sym)
      ensures !ok ==> Pos() == old(Pos()) && Spent() && TooShort(t.sizes)
    {
      hide Word, BitsOf, BytesBits, ReadsAt, HuffTable.Valid, Resolve, TooShort, Complete, Pow2;
      sym := 0;
      if numBits < MAX_BITS {
        if end - cur < 2 {
          ok := FillForSymbol(t);
          if !ok { return; }
        } else {
          LoadByte();
          LoadByte();
        }
      }
      sym := DecodeBuffered(t);
      ok := true;
    }
  }

  /** The first `n` of the bits are taken for the code of `sym`. */
  ghost predicate ReadsAt(sizes: seq<nat>, rest: seq<bool>, n: int, sym: nat) {
    0 <= n <= |rest| && Reads(sizes, rest[..n], sym)
  }

  /** If a symbol's word comes next, that symbol is decoded. */
  lemma OnlyWord(sizes: seq<nat>, buffer: nat, n: nat, rest: seq<bool>, raw: nat, codeLen: nat)
    requires Decoded(sizes, BitsOf(buffer, MAX_BITS), raw, codeLen)
    requires buffer < Pow2(n) && n <= |rest| && BitsOf(buffer, n) == rest[..n] && (n >= MAX_BITS || 0 < codeLen <= n)
    ensures codeLen <= MAX_BITS && raw % 512 < 288 && (raw % 512 != 0 ==> raw % 512 < |sizes| && codeLen > 0)
    ensures forall s: nat :: Used(sizes, s) && Word(sizes, s) <= rest ==> raw % 512 == s && codeLen == sizes[s]
  {
    hide Word, BitsOf;
    forall s: nat | Used(sizes, s) && Word(sizes, s) <= rest
      ensures raw % 512 == s && codeLen == sizes[s]
    {
      Agree(buffer, n, rest, Word(sizes, s), codeLen);
      assert Meets(sizes, s, BitsOf(buffer, MAX_BITS), codeLen);
    }
  }

  /** Whatever is decoded comes next in the input, unless it is symbol 0 of a table that is not complete. */
  lemma WordDecoded(sizes: seq<nat>, buffer: nat, n: nat, rest: seq<bool>, raw: nat, codeLen: nat)
    requires Decoded(sizes, BitsOf(buffer, MAX_BITS), raw, codeLen)
    requires buffer < Pow2(n) && n <= |rest| && BitsOf(buffer, n) == rest[..n] && (n >= MAX_BITS || 0 < codeLen <= n)
    ensures ReadsAt(sizes, rest, codeLen, raw % 512)
  {
    hide *;
    var w := BitsOf(buffer, MAX_BITS);
    var k := if n < MAX_BITS then n else MAX_BITS;
    SplitBits(buffer, k, MAX_BITS);
    SplitBits(buffer, k, n);
    assert w[..k] == rest[..k];
    DecodedFound(sizes, w, raw, codeLen);
    if Found(sizes, raw % 512, w, codeLen) { FoundAhead(sizes, raw % 512, w, codeLen); }
    assert w[..k][..codeLen] == w[..codeLen];
    IsRead(sizes, rest, codeLen, raw % 512);
  }

  lemma DecodedFound(sizes: seq<nat>, w: seq<bool>, raw: nat, codeLen: nat)
    requires Decoded(sizes, w, raw, codeLen) && |w| == MAX_BITS
    ensures codeLen <= MAX_BITS && (Found(sizes, raw % 512, w, codeLen) || (!Complete(sizes) && raw % 512 == 0))
  {
    hide Word;
    if Complete(sizes) {
      var t := CompleteCovers(sizes, w);
      assert Meets(sizes, t, w, codeLen);
    }
  }

  lemma FoundAhead(sizes: seq<nat>, s: nat, w: seq<bool>, codeLen: nat)
    requires Found(sizes, s, w, codeLen)
    ensures Used(sizes, s) && codeLen <= |w| && w[..codeLen] == Word(sizes, s)
  {
    WordLength(sizes, s);
    hide Word;
  }

  lemma IsRead(sizes: seq<nat>, rest: seq<bool>, n: nat, sym: nat)
    requires n <= |rest| && n <= MAX_BITS
    requires (Used(sizes, sym) && rest[..n] == Word(sizes, sym)) || (!Complete(sizes) && sym == 0)
    ensures ReadsAt(sizes, rest, n, sym)
  {
  }

  lemma WordLength(sizes: seq<nat>, t: nat)
    requires Used(sizes, t)
    ensures |Word(sizes, t)| == sizes[t] <= MAX_BITS == 15
  {
  }

  /** As far as it is filled, the bit buffer holds the front of the remaining bits. */
  lemma Agree(buffer: nat, n: nat, rest: seq<bool>, word: seq<bool>, codeLen: nat)
    requires buffer < Pow2(n) && n <= |rest| && BitsOf(buffer, n) == rest[..n]
    requires word <= rest && |word| <= MAX_BITS && codeLen <= MAX_BITS
    requires n >= MAX_BITS || |word| <= n || 0 < codeLen <= n
    ensures var w := BitsOf(buffer, MAX_BITS);
      word <= w || (0 < codeLen <= |w| && w[..codeLen] <= word)
  {
    hide *;
    var w := BitsOf(buffer, MAX_BITS);
    var k := if n < MAX_BITS then n else MAX_BITS;
    SplitBits(buffer, k, MAX_BITS);
    SplitBits(buffer, k, n);
    assert w[..k] == rest[..k];
    if |word| <= k {
      assert word == w[..k][..|word|];
    } else {
      assert w[..k][..codeLen] == w[..codeLen];
    }
  }

  lemma {:induction false} ByteAt(bytes: seq<byte>, i: nat)
    requires i < |bytes|
    ensures BytesBits(bytes)[8 * i..8 * i + 8] == BitsOf(bytes[i], 8)
  {
    hide BitsOf;
    if i > 0 {
      ByteAt(bytes[1..], i - 1);
      var tail := BytesBits(bytes[1..]);
      assert BytesBits(bytes)[8..] == tail;
      assert BytesBits(bytes)[8 * i..8 * i + 8] == tail[8 * i - 8..8 * i];
    }
  }
}
