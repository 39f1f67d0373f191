/** Reading the token buffer back and sending the tokens (`tdefl_compress_lz_codes`). */
module TokenWriter {
  import opened Bits
  import opened PrefixCode
  import opened Tokens
  import opened LzCodeBuffer
  import opened BitWriter
  import opened HuffmanEncoder

  // ---------------------------------------------------------------- the flag-byte reader

  /** The reader is before token `i`; the current group ends before token `e`, and `left` of its
      flag bits have not been shifted out yet, below a sentinel bit. */
  ghost predicate Reading(img: seq<byte>, p: nat, flags: nat, ts: seq<Token>, i: nat, e: nat, left: nat) {
    && AllValid(ts) && i <= e <= |ts| && p <= |img|
    && e - i <= left <= 8 && (e < |ts| ==> left == e - i)
    && img[p..] == Payloads(ts[i..e]) + Image(ts[e..])
    && flags == Val(Flags(ts[i..e])) + Pow2(left)
  }

  lemma StartReading(ts: seq<Token>)
    requires AllValid(ts)
    ensures Reading(Image(ts), 0, 1, ts, 0, 0, 0)
  {
    assert ts[0..0] == [] && ts[0..] == ts;
  }

  /** The sentinel is alone exactly when the group is used up; at the end of the buffer no token is left. */
  lemma ReadingAt(img: seq<byte>, p: nat, flags: nat, ts: seq<Token>, i: nat, e: nat, left: nat)
    requires Reading(img, p, flags, ts, i, e, left)
    ensures flags == 1 <==> left == 0
    ensures p == |img| ==> i == |ts|
    ensures p < |img| ==> i < |ts| && (left > 0 ==> i < e)
  {
    hide Flags;
    if left > 0 { assert Pow2(left) >= 2; } else { assert Flags(ts[i..e]) == []; }
    assert |img[p..]| >= (e - i) + (|ts| - e);
    if i == e == |ts| {
      assert img[p..] == [];
    }
  }

  /** Loading the next flag byte. */
  lemma NextGroup(img: seq<byte>, p: nat, ts: seq<Token>, i: nat) returns (e: nat)
    requires Reading(img, p, 1, ts, i, i, 0) && p < |img|
    ensures Reading(img, p + 1, BitOr(img[p], 0x100), ts, i, e, 8) && i < e
  {
    ReadingAt(img, p, 1, ts, i, i, 0);
    var rest := ts[i..];
    var m := GroupLen(rest);
    e := i + m;
    assert rest[..m] == ts[i..e] && rest[m..] == ts[e..];
    assert img[p..] == Payloads(ts[i..i]) + Image(rest);
    GroupAt(img, p, rest);
    Pow2Values();
    BitOrDisjoint(img[p], 1, 8);
    hide BitOr, Pow2;
  }

  lemma GroupAt(img: seq<byte>, p: nat, rest: seq<Token>)
    requires p < |img| && AllValid(rest) && rest != [] && img[p..] == Image(rest)
    ensures var m := GroupLen(rest);
      img[p] == Val(Flags(rest[..m])) && img[p + 1..] == Payloads(rest[..m]) + Image(rest[m..])
  {
    hide Payloads, Flags, Val;
    var m := GroupLen(rest);
    assert Image(rest) == [FlagByte(rest[..m])] + (Payloads(rest[..m]) + Image(rest[m..]));
    assert img[p] == img[p..][0] && img[p + 1..] == img[p..][1..];
  }

  /** The low flag bit tells what the next token is, and its bytes are next in the buffer. */
  lemma CutFirst(ts: seq<Token>, i: nat, e: nat)
    requires i < e <= |ts|
    ensures ts[i..e] != [] && ts[i..e][0] == ts[i] && ts[i..e][1..] == ts[i + 1..e]
  {
  }

  lemma NextToken(img: seq<byte>, p: nat, flags: nat, ts: seq<Token>, i: nat, e: nat, left: nat) returns (q: nat)
    requires Reading(img, p, flags, ts, i, e, left) && i < e
    ensures ValidToken(ts[i]) && (flags % 2 == 1 <==> ts[i].Match?)
    ensures q == p + |Payload(ts[i])| <= |img| && img[p..q] == Payload(ts[i])
    ensures Reading(img, q, flags / 2, ts, i + 1, e, left - 1)
  {
    hide *;
    ReadingAll(img, p, flags, ts, i, e, left);
    CutFirst(ts, i, e);
    q := FirstAhead(img, p, flags, ts[i..e], Image(ts[e..]), left);
    IsReading(img, q, flags / 2, ts, i + 1, e, left - 1);
  }

  lemma FirstAhead(img: seq<byte>, p: nat, flags: nat, g: seq<Token>, tail: seq<byte>, left: nat) returns (q: nat)
    requires AllValid(g) && g != [] && p <= |img| && img[p..] == Payloads(g) + tail
    requires left > 0 && flags == Val(Flags(g)) + Pow2(left)
    ensures ValidToken(g[0]) && (flags % 2 == 1 <==> g[0].Match?)
    ensures q == p + |Payload(g[0])| <= |img| && img[p..q] == Payload(g[0])
    ensures AllValid(g[1..]) && img[q..] == Payloads(g[1..]) + tail
    ensures flags / 2 == Val(Flags(g[1..])) + Pow2(left - 1)
  {
    PayloadsHead(g);
    hide *;
    FlagsHead(g);
    PayloadAhead(img, p, g, tail);
    PowStep(left);
    FlagsShift(flags, g[0].Match?, Val(Flags(g[1..])), Pow2(left - 1));
    q := p + |Payload(g[0])|;
  }

  lemma FlagsShift(flags: nat, b: bool, v: nat, p: nat)
    requires flags == B2N(b) + 2 * v + 2 * p
    ensures (flags % 2 == 1 <==> b) && flags / 2 == v + p
  {
  }

  lemma PowStep(n: nat)
    requires n > 0
    ensures Pow2(n) == 2 * Pow2(n - 1)
  {
  }

  lemma ReadingAll(img: seq<byte>, p: nat, flags: nat, ts: seq<Token>, i: nat, e: nat, left: nat)
    requires Reading(img, p, flags, ts, i, e, left) && i < e
    ensures AllValid(ts) && i < e <= |ts| && p <= |img| && e - i <= left <= 8 && (e < |ts| ==> left == e - i)
    ensures AllValid(ts[i..e]) && AllValid(ts[e..]) && AllValid(ts[i + 1..e]) && ValidToken(ts[i])
    ensures img[p..] == Payloads(ts[i..e]) + Image(ts[e..]) && flags == Val(Flags(ts[i..e])) + Pow2(left)
  {
    hide Payloads, Image, Val, Flags, Pow2;
  }

  lemma IsReading(img: seq<byte>, p: nat, flags: nat, ts: seq<Token>, i: nat, e: nat, left: nat)
    requires AllValid(ts) && i <= e <= |ts| && p <= |img| && e - i <= left <= 8 && (e < |ts| ==> left == e - i)
    requires img[p..] == Payloads(ts[i..e]) + Image(ts[e..]) && flags == Val(Flags(ts[i..e])) + Pow2(left)
    ensures Reading(img, p, flags, ts, i, e, left)
  {
  }

  lemma PayloadAhead(img: seq<byte>, p: nat, g: seq<Token>, tail: seq<byte>)
    requires AllValid(g) && g != [] && p <= |img| && img[p..] == Payloads(g) + tail
    ensures var n := |Payload(g[0])|;
      p + n <= |img| && img[p..p + n] == Payload(g[0]) && img[p + n..] == Payloads(g[1..]) + tail
  {
    PayloadsHead(g);
    hide *;
    assert img[p..] == Payload(g[0]) + (Payloads(g[1..]) + tail);
    SliceHead(img, p, Payload(g[0]), Payloads(g[1..]) + tail);
  }

  lemma PayloadsHead(g: seq<Token>)
    requires AllValid(g) && g != []
    ensures ValidToken(g[0]) && AllValid(g[1..]) && Payloads(g) == Payload(g[0]) + Payloads(g[1..])
  {
  }

  lemma SliceHead(img: seq<byte>, p: nat, a: seq<byte>, b: seq<byte>)
    requires p <= |img| && img[p..] == a + b
    ensures p + |a| <= |img| && img[p..p + |a|] == a && img[p + |a|..] == b
  {
    assert img[p..][|a|..] == img[p + |a|..];
    assert img[p..][..|a|] == img[p..p + |a|];
  }

  lemma FlagsHead(g: seq<Token>)
    requires g != []
    ensures Val(Flags(g)) == B2N(g[0].Match?) + 2 * Val(Flags(g[1..]))
  {
    assert Flags(g)[1..] == Flags(g[1..]);
  }

  // ---------------------------------------------------------------- sending

  method PutSym(w: BitWriter, t: CodeTable, s: nat)
    requires w.Valid() && Ready(w, t) && Used(t.sizes[..], s)
    modifies w`pos, w`bitBuffer, w`bitsIn, w`sent, w.buf
    ensures w.Valid() && w.sent == old(w.sent) + Word(t.sizes[..], s) && old(w.pos) <= w.pos
    ensures Ready(w, t) && t.sizes[..] == old(t.sizes[..])
  {
    assert t.CodeReady(s);
    w.PutBits(t.codes[s], t.sizes[s]);
  }

  /** Sends a match: length symbol and extra bits, distance symbol and extra bits. */
  method PutMatch(w: BitWriter, lit: CodeTable, dist: CodeTable, len: nat, d: nat)
    requires w.Valid() && Ready(w, lit) && Ready(w, dist) && len < 256 && d < LZ_DICT_SIZE
    requires Codable(lit.sizes[..], dist.sizes[..], Match(len + 3, d + 1))
    modifies w`pos, w`bitBuffer, w`bitsIn, w`sent, w.buf
    ensures Ready(w, lit) && Ready(w, dist)
    ensures w.Valid() && w.sent == old(w.sent) + TokenBits(lit.sizes[..], dist.sizes[..], Match(len + 3, d + 1))
    ensures old(w.pos) <= w.pos
  {
    hide *;
    ghost var zl, zd, before := lit.sizes[..], dist.sizes[..], w.sent;
    MatchBits(zl, zd, len, d);
    PutSym(w, lit, LenSym(len));
    PutLow(w, len, LenExtra(len));
    var sym, extra := DistCode(d);
    PutSym(w, dist, sym);
    PutLow(w, d, extra);
    Regrouped(before, Word(zl, LenSym(len)), BitsOf(LowBits(len, LenExtra(len)), LenExtra(len)), Word(zd, sym),
              BitsOf(LowBits(d, extra), extra));
  }

  lemma Regrouped(s: seq<bool>, a: seq<bool>, b: seq<bool>, c: seq<bool>, d: seq<bool>)
    ensures s + a + b + c + d == s + (a + b + c + d)
  {
  }

  lemma MatchBits(zl: seq<nat>, zd: seq<nat>, len: nat, d: nat)
    requires len < 256 && d < LZ_DICT_SIZE && Codable(zl, zd, Match(len + 3, d + 1))
    ensures Used(zl, LenSym(len)) && Used(zd, DistSym(d)) && LenExtra(len) <= 16 && DistExtra(d) <= 16
    ensures TokenBits(zl, zd, Match(len + 3, d + 1)) ==
      Word(zl, LenSym(len)) + BitsOf(LowBits(len, LenExtra(len)), LenExtra(len)) +
      Word(zd, DistSym(d)) + BitsOf(LowBits(d, DistExtra(d)), DistExtra(d))
  {
    LengthTablesAgree(len);
    DistTablesAgree(d);
  }

  /** Looks the distance up in the table for small or for large distances. */
  method DistCode(d: nat) returns (sym: nat, extra: nat)
    requires d < LZ_DICT_SIZE
    ensures sym == DistSym(d) && extra == DistExtra(d)
  {
    hide SmallDistSym, SmallDistExtra, LargeDistSym, LargeDistExtra;
    if d < 512 {
      sym, extra := SmallDistSym(d), SmallDistExtra(d);
    } else {
      assert d / 256 < 128;
      sym, extra := LargeDistSym(d / 256), LargeDistExtra(d / 256);
    }
  }

  /** Sends the low `n` bits of `x`. */
  method PutLow(w: BitWriter, x: nat, n: nat)
    requires w.Valid() && n <= 16
    modifies w`pos, w`bitBuffer, w`bitsIn, w`sent, w.buf
    ensures w.Valid() && w.sent == old(w.sent) + BitsOf(LowBits(x, n), n) && old(w.pos) <= w.pos
  {
    SplitBits(x, n, n);
    w.PutBits(LowBits(x, n), n);
  }

  /** The table can be used with this writer. */
  ghost predicate Ready(w: BitWriter, t: CodeTable)
    reads t.sizes, t.codes
  {
    t.Valid() && w.buf as object != t.sizes as object && w.buf as object != t.codes as object
  }

  /** Sends all buffered tokens and the end-of-block symbol: what the flag-byte reader finds in
      the buffer is exactly the sequence of tokens that was recorded. */
  method CompressLzCodes(w: BitWriter, buf: array<byte>, codeEnd: nat, lit: CodeTable, dist: CodeTable,
                         ghost ts: seq<Token>)
      returns (fits: bool)
    requires w.Valid() && Ready(w, lit) && Ready(w, dist) && w.buf != buf
    requires AllValid(ts) && codeEnd <= buf.Length && buf[..codeEnd] == Image(ts)
    requires AllCodable(lit.sizes[..], dist.sizes[..], ts) && Used(lit.sizes[..], END_OF_BLOCK)
    modifies w`pos, w`bitBuffer, w`bitsIn, w`sent, w.buf
    ensures w.Valid() && fits == (w.pos < w.end) && old(w.pos) <= w.pos
    ensures w.sent == old(w.sent) + TokensBits(lit.sizes[..], dist.sizes[..], ts) + Word(lit.sizes[..], END_OF_BLOCK)
  {
    hide *;
    ghost var img, zl, zd, start := buf[..codeEnd], lit.sizes[..], dist.sizes[..], w.sent;
    ghost var i: nat, e: nat, left: nat := 0, 0, 0;
    StartReading(ts);
    NothingSent(zl, zd, ts);
    assert start + [] == start;
    var flags, p := 1, 0;
    while p < codeEnd
      invariant w.Valid() && Ready(w, lit) && Ready(w, dist) && old(w.pos) <= w.pos
      invariant lit.sizes[..] == zl && dist.sizes[..] == zd && buf[..codeEnd] == img
      invariant Reading(img, p, flags, ts, i, e, left) && i <= |ts| && p <= codeEnd
      invariant AllCodable(zl, zd, ts[..i]) && w.sent == start + TokensBits(zl, zd, ts[..i])
      decreases codeEnd - p
    {
      ReadingAt(img, p, flags, ts, i, e, left);
      if flags == 1 {
        ReadingBounds(img, p, flags, ts, i, e, left);
        e := NextGroup(img, p, ts, i);
        assert buf[p] == img[p];
        flags := BitOr(buf[p], 0x100);
        p := p + 1;
        left := 8;
      }
      ReadingBounds(img, p, flags, ts, i, e, left);
      ghost var q := NextToken(img, p, flags, ts, i, e, left);
      CodableAt(zl, zd, ts, i);
      TokensBitsAppend(zl, zd, ts[..i], ts[i]);
      assert ts[..i + 1] == ts[..i] + [ts[i]];
      p := PutToken(w, buf, codeEnd, p, flags, lit, dist, ts[i]);
      flags := flags / 2;
      i, left := i + 1, left - 1;
    }
    ReadingAt(img, p, flags, ts, i, e, left);
    assert ts[..i] == ts;
    PutEnd(w, lit);
    fits := w.pos < w.end;
  }

  method PutEnd(w: BitWriter, lit: CodeTable)
    requires w.Valid() && Ready(w, lit) && Used(lit.sizes[..], END_OF_BLOCK)
    modifies w`pos, w`bitBuffer, w`bitsIn, w`sent, w.buf
    ensures w.Valid() && w.sent == old(w.sent) + Word(lit.sizes[..], END_OF_BLOCK) && old(w.pos) <= w.pos
  {
    PutSym(w, lit, END_OF_BLOCK);
  }

  lemma ReadingBounds(img: seq<byte>, p: nat, flags: nat, ts: seq<Token>, i: nat, e: nat, left: nat)
    requires Reading(img, p, flags, ts, i, e, left)
    ensures i <= e <= |ts| && p <= |img| && e - i <= left && (left == 0 ==> e == i)
  {
  }

  lemma NothingSent(zl: seq<nat>, zd: seq<nat>, ts: seq<Token>)
    ensures AllCodable(zl, zd, ts[..0]) && TokensBits(zl, zd, ts[..0]) == []
  {
    assert ts[..0] == [];
  }

  lemma CodableAt(zl: seq<nat>, zd: seq<nat>, ts: seq<Token>, i: nat)
    requires AllCodable(zl, zd, ts) && i < |ts|
    ensures AllCodable(zl, zd, ts[..i]) && Codable(zl, zd, ts[i])
  {
  }

  /** Reads one token from the buffer and sends it. */
  method PutToken(w: BitWriter, buf: array<byte>, codeEnd: nat, p: nat, flags: nat, lit: CodeTable, dist: CodeTable,
                  ghost t: Token)
      returns (next: nat)
    requires w.Valid() && Ready(w, lit) && Ready(w, dist) && w.buf != buf && codeEnd <= buf.Length
    requires ValidToken(t) && Codable(lit.sizes[..], dist.sizes[..], t) && (flags % 2 == 1 <==> t.Match?)
    requires p + |Payload(t)| <= codeEnd && buf[..codeEnd][p..p + |Payload(t)|] == Payload(t)
    modifies w`pos, w`bitBuffer, w`bitsIn, w`sent, w.buf
    ensures w.Valid() && w.sent == old(w.sent) + TokenBits(lit.sizes[..], dist.sizes[..], t) && old(w.pos) <= w.pos
    ensures next == p + |Payload(t)|
  {
    hide *;
    ghost var pay := Payload(t);
    assert forall k :: 0 <= k < |pay| ==> buf[p + k] == buf[..codeEnd][p..p + |pay|][k] == pay[k];
    PayloadBytes(t);
    assert buf[p + 0] == pay[0];
    if flags % 2 == 1 {
      var len: nat, d := buf[p], BitOr(buf[p + 1], Shl(buf[p + 2], 8));
      DistanceBytes(buf[p + 1], buf[p + 2]);
      assert t == Match(len + 3, d + 1);
      PutMatch(w, lit, dist, len, d);
      next := p + 3;
    } else {
      assert t == Lit(buf[p]);
      PutLiteral(w, lit, dist, buf[p]);
      next := p + 1;
    }
  }

  lemma PayloadBytes(t: Token)
    requires ValidToken(t)
    ensures match t
      case Lit(b) => Payload(t) == [b]
      case Match(len, d) =>
        && |Payload(t)| == 3 && Payload(t)[0] == len - 3
        && var lo: int, hi: int := Payload(t)[1], Payload(t)[2];
           lo + 256 * hi == d - 1 < LZ_DICT_SIZE
  {
  }

  method PutLiteral(w: BitWriter, lit: CodeTable, ghost dist: CodeTable, b: byte)
    requires w.Valid() && Ready(w, lit) && Codable(lit.sizes[..], dist.sizes[..], Lit(b))
    modifies w`pos, w`bitBuffer, w`bitsIn, w`sent, w.buf
    ensures w.Valid() && w.sent == old(w.sent) + TokenBits(lit.sizes[..], dist.sizes[..], Lit(b)) && old(w.pos) <= w.pos
  {
    PutSym(w, lit, b);
  }

  lemma DistanceBytes(lo: byte, hi: byte)
    ensures BitOr(lo, Shl(hi, 8)) == lo + 256 * hi
  {
    Pow2Values();
    BitOrDisjoint(lo, hi, 8);
  }
}
