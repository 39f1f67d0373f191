/** LZ77 tokens, what they stand for, and how deflate codes them (RFC 1951 section 3.2.5). */
module Tokens {
  import opened Bits
  import opened PrefixCode

  const MIN_MATCH_LEN: nat := 3
  const MAX_MATCH_LEN: nat := 258
  const LZ_DICT_SIZE: nat := 32768
  const END_OF_BLOCK: nat := 256

  datatype Token = Lit(b: byte) | Match(len: nat, dist: nat)

  predicate ValidToken(t: Token) {
    t.Match? ==> MIN_MATCH_LEN <= t.len <= MAX_MATCH_LEN && 1 <= t.dist <= LZ_DICT_SIZE
  }

  // ---------------------------------------------------------------- meaning

  /** Appends `n` bytes, each equal to the byte `dist` places before it. */
  function Copy(h: seq<byte>, dist: nat, n: nat): (r: seq<byte>)
    requires 1 <= dist <= |h|
    ensures |r| == |h| + n && h <= r
    decreases n
  {
    if n == 0 then h else Copy(h + [h[|h| - dist]], dist, n - 1)
  }

  /** A token that can follow the output `h`. */
  predicate CanFollow(h: seq<byte>, t: Token) {
    ValidToken(t) && (t.Match? ==> t.dist <= |h|)
  }

  function Step(h: seq<byte>, t: Token): (r: seq<byte>)
    requires CanFollow(h, t)
    ensures h <= r && |h| < |r| <= |h| + MAX_MATCH_LEN
  {
    match t
    case Lit(b) => h + [b]
    case Match(len, dist) => Copy(h, dist, len)
  }

  predicate AllFit(h: seq<byte>, ts: seq<Token>)
    decreases |ts|
  {
    ts == [] || (CanFollow(h, ts[0]) && AllFit(Step(h, ts[0]), ts[1..]))
  }

  /** The output after the tokens `ts`, when `h` was put out before. */
  function Expand(h: seq<byte>, ts: seq<Token>): (r: seq<byte>)
    requires AllFit(h, ts)
    ensures h <= r && |r| >= |h| + |ts|
    decreases |ts|
  {
    if ts == [] then h else Expand(Step(h, ts[0]), ts[1..])
  }

  lemma {:induction false} ExpandAppend(h: seq<byte>, a: seq<Token>, b: seq<Token>)
    ensures AllFit(h, a + b) <==> AllFit(h, a) && AllFit(Expand(h, a), b)
    ensures AllFit(h, a + b) ==> Expand(h, a + b) == Expand(Expand(h, a), b)
    decreases |a|
  {
    if a == [] {
      assert a + b == b;
    } else {
      assert (a + b)[0] == a[0] && (a + b)[1..] == a[1..] + b;
      if CanFollow(h, a[0]) { ExpandAppend(Step(h, a[0]), a[1..], b); }
    }
  }

  /** Recording one more token. */
  lemma ExpandOne(h: seq<byte>, ts: seq<Token>, t: Token)
    requires AllFit(h, ts) && CanFollow(Expand(h, ts), t)
    ensures AllFit(h, ts + [t]) && Expand(h, ts + [t]) == Step(Expand(h, ts), t)
  {
    var e := Expand(h, ts);
    assert [t][1..] == [];
    assert AllFit(Step(e, t), []);
    ExpandAppend(h, ts, [t]);
  }

  predicate Repeats(all: seq<byte>, dist: nat, i: nat) {
    1 <= dist <= i < |all| && all[i] == all[i - dist]
  }

  /** Copying extends `h` to `all`, when each added byte repeats the one `dist` places before it. */
  lemma {:induction false} CopyIs(h: seq<byte>, dist: nat, all: seq<byte>)
    requires 1 <= dist <= |h| && h <= all
    requires forall i :: |h| <= i < |all| ==> Repeats(all, dist, i)
    ensures Copy(h, dist, |all| - |h|) == all
    decreases |all| - |h|
  {
    if |h| < |all| {
      assert Repeats(all, dist, |h|);
      var h' := h + [h[|h| - dist]];
      assert h' == all[..|h| + 1];
      CopyIs(h', dist, all);
    }
  }

  // ---------------------------------------------------------------- the compressor's symbol tables

  /** `s_tdefl_len_sym`, indexed by match length - 3. */
  function LenSym(l: byte): nat {
    if l < 8 then 257 + l
    else if l < 16 then 265 + (l - 8) / 2
    else if l < 32 then 269 + (l - 16) / 4
    else if l < 64 then 273 + (l - 32) / 8
    else if l < 128 then 277 + (l - 64) / 16
    else if l < 255 then 281 + (l - 128) / 32
    else 285
  }

  /** `s_tdefl_len_extra`. */
  function LenExtra(l: byte): nat {
    if l < 8 then 0 else if l < 16 then 1 else if l < 32 then 2 else if l < 64 then 3
    else if l < 128 then 4 else if l < 255 then 5 else 0
  }

  /** `s_tdefl_small_dist_sym`, indexed by distance - 1 below 512. */
  function SmallDistSym(d: nat): nat
    requires d < 512
  {
    if d < 4 then d
    else if d < 8 then 4 + (d - 4) / 2
    else if d < 16 then 6 + (d - 8) / 4
    else if d < 32 then 8 + (d - 16) / 8
    else if d < 64 then 10 + (d - 32) / 16
    else if d < 128 then 12 + (d - 64) / 32
    else if d < 256 then 14 + (d - 128) / 64
    else 16 + (d - 256) / 128
  }

  /** `s_tdefl_small_dist_extra`. */
  function SmallDistExtra(d: nat): nat
    requires d < 512
  {
    if d < 4 then 0 else if d < 8 then 1 else if d < 16 then 2 else if d < 32 then 3
    else if d < 64 then 4 else if d < 128 then 5 else if d < 256 then 6 else 7
  }

  /** `s_tdefl_large_dist_sym`, indexed by the high byte of distance - 1. */
  function LargeDistSym(h: nat): nat
    requires h < 128
  {
    if h < 2 then 0
    else if h < 4 then 18 + (h - 2)
    else if h < 8 then 20 + (h - 4) / 2
    else if h < 16 then 22 + (h - 8) / 4
    else if h < 32 then 24 + (h - 16) / 8
    else if h < 64 then 26 + (h - 32) / 16
    else 28 + (h - 64) / 32
  }

  /** `s_tdefl_large_dist_extra`. */
  function LargeDistExtra(h: nat): nat
    requires h < 128
  {
    if h < 2 then 0 else if h < 4 then 8 else if h < 8 then 9 else if h < 16 then 10
    else if h < 32 then 11 else if h < 64 then 12 else 13
  }

  function DistSym(d: nat): nat
    requires d < LZ_DICT_SIZE
  {
    if d < 512 then SmallDistSym(d) else LargeDistSym(d / 256)
  }

  function DistExtra(d: nat): nat
    requires d < LZ_DICT_SIZE
  {
    if d < 512 then SmallDistExtra(d) else LargeDistExtra(d / 256)
  }

  // ---------------------------------------------------------------- the decompressor's tables

  /** `s_length_base`, `s_length_extra`, `s_dist_base`, `s_dist_extra`. */
  const LENGTH_BASE: seq<nat> := [
    3, 4, 5, 6, 7, 8, 9, 10, 11, 13, 15, 17, 19, 23, 27, 31, 35, 43, 51, 59, 67, 83, 99, 115, 131, 163, 195, 227, 258,
    0, 0]
  const LENGTH_EXTRA: seq<nat> := [
    0, 0, 0, 0, 0, 0, 0, 0, 1, 1, 1, 1, 2, 2, 2, 2, 3, 3, 3, 3, 4, 4, 4, 4, 5, 5, 5, 5, 0, 0, 0]
  const DIST_BASE: seq<nat> := [
    1, 2, 3, 4, 5, 7, 9, 13, 17, 25, 33, 49, 65, 97, 129, 193, 257, 385, 513, 769, 1025, 1537, 2049, 3073, 4097, 6145,
    8193, 12289, 16385, 24577, 0, 0]
  const DIST_EXTRA: seq<nat> := [
    0, 0, 0, 0, 1, 1, 2, 2, 3, 3, 4, 4, 5, 5, 6, 6, 7, 7, 8, 8, 9, 9, 10, 10, 11, 11, 12, 12, 13, 13, 0, 0]

  /** The tables by their rule: each symbol starts where the one before ends, and the numbers of extra bits
      grow every four lengths and every two distances (RFC 1951 section 3.2.5). */
  lemma LengthTableRule(k: nat)
    requires k < 28
    ensures LENGTH_BASE[0] == 3 && LENGTH_BASE[28] == 258 && LENGTH_EXTRA[28] == 0
    ensures LENGTH_EXTRA[k] == if k < 8 then 0 else (k - 4) / 4
    ensures k < 27 ==> LENGTH_BASE[k + 1] == LENGTH_BASE[k] + Pow2(LENGTH_EXTRA[k])
    ensures LENGTH_BASE[29] == LENGTH_BASE[30] == LENGTH_EXTRA[29] == LENGTH_EXTRA[30] == 0
  {
    Pow2Values();
    hide Pow2;
  }

  lemma DistTableRule(k: nat)
    requires k < 30
    ensures DIST_BASE[0] == 1 && DIST_EXTRA[k] == if k < 4 then 0 else k / 2 - 1
    ensures k < 29 ==> DIST_BASE[k + 1] == DIST_BASE[k] + Pow2(DIST_EXTRA[k])
    ensures DIST_BASE[30] == DIST_BASE[31] == DIST_EXTRA[30] == DIST_EXTRA[31] == 0
  {
    Pow2Values();
    hide Pow2;
  }

  lemma {:induction false} LowBitsMod(x: nat, n: nat)
    ensures LowBits(x, n) == x % Pow2(n)
  {
    SplitBits(x, n, n);
    BitsOfMod(x, n);
    ValOfBits(LowBits(x, n), n);
    ValOfBits(x % Pow2(n), n);
    assert BitsOf(x, n)[..n] == BitsOf(x, n);
  }

  /** The decompressor's length tables undo the compressor's, for every length. */
  lemma LengthTablesAgree(l: byte)
    ensures 257 <= LenSym(l) <= 285
    ensures LENGTH_EXTRA[LenSym(l) - 257] == LenExtra(l) <= 5
    ensures LENGTH_BASE[LenSym(l) - 257] + LowBits(l, LenExtra(l)) == l + MIN_MATCH_LEN
  {
    Pow2Values();
    LowBitsMod(l, LenExtra(l));
    hide Pow2, LowBits;
    if l < 16 { TinyLength(l); } else if l < 32 { ShortLength(l); } else { LongLength(l); }
  }

  lemma TinyLength(l: byte)
    requires l < 16
    ensures 257 <= LenSym(l) < 269 && LENGTH_EXTRA[LenSym(l) - 257] == LenExtra(l) <= 1
    ensures LENGTH_BASE[LenSym(l) - 257] + l % Pow2(LenExtra(l)) == l + MIN_MATCH_LEN
  {
    Pow2Values();
    hide Pow2;
  }

  lemma ShortLength(l: byte)
    requires 16 <= l < 32
    ensures 269 <= LenSym(l) < 273 && LENGTH_EXTRA[LenSym(l) - 257] == LenExtra(l) <= 2
    ensures LENGTH_BASE[LenSym(l) - 257] + l % Pow2(LenExtra(l)) == l + MIN_MATCH_LEN
  {
    Pow2Values();
    hide Pow2;
  }

  lemma LongLength(l: byte)
    requires 32 <= l
    ensures 273 <= LenSym(l) <= 285 && LENGTH_EXTRA[LenSym(l) - 257] == LenExtra(l) <= 5
    ensures LENGTH_BASE[LenSym(l) - 257] + l % Pow2(LenExtra(l)) == l + MIN_MATCH_LEN
  {
    Pow2Values();
    hide Pow2;
  }

  /** The decompressor's distance tables undo the compressor's, for every distance. */
  lemma DistTablesAgree(d: nat)
    requires d < LZ_DICT_SIZE
    ensures DistSym(d) < 30
    ensures DIST_EXTRA[DistSym(d)] == DistExtra(d) <= 13
    ensures DIST_BASE[DistSym(d)] + LowBits(d, DistExtra(d)) == d + 1
  {
    LowBitsMod(d, DistExtra(d));
    hide Pow2, LowBits;
    if d < 512 { SmallDist(d); } else if d < 4096 { MediumDist(d); } else { LargeDist(d); }
  }

  lemma SmallDist(d: nat)
    requires d < 512
    ensures DistSym(d) < 18 && DIST_EXTRA[DistSym(d)] == DistExtra(d) <= 7
    ensures DIST_BASE[DistSym(d)] + d % Pow2(DistExtra(d)) == d + 1
  {
    hide *;
    if d < 32 { TinyDist(d); } else { ShortDist(d); }
  }

  lemma TinyDist(d: nat)
    requires d < 32
    ensures DistSym(d) < 10 && DIST_EXTRA[DistSym(d)] == DistExtra(d) <= 3
    ensures DIST_BASE[DistSym(d)] + d % Pow2(DistExtra(d)) == d + 1
  {
    Pow2Values();
    hide Pow2;
  }

  lemma ShortDist(d: nat)
    requires 32 <= d < 512
    ensures 10 <= DistSym(d) < 18 && DIST_EXTRA[DistSym(d)] == DistExtra(d) <= 7
    ensures DIST_BASE[DistSym(d)] + d % Pow2(DistExtra(d)) == d + 1
  {
    Pow2Values();
    hide Pow2;
  }

  lemma MediumDist(d: nat)
    requires 512 <= d < 4096
    ensures 18 <= DistSym(d) < 24 && DIST_EXTRA[DistSym(d)] == DistExtra(d) <= 10
    ensures DIST_BASE[DistSym(d)] + d % Pow2(DistExtra(d)) == d + 1
  {
    Pow2Values();
    hide Pow2;
  }

  lemma LargeDist(d: nat)
    requires 4096 <= d < LZ_DICT_SIZE
    ensures 24 <= DistSym(d) < 30 && DIST_EXTRA[DistSym(d)] == DistExtra(d) <= 13
    ensures DIST_BASE[DistSym(d)] + d % Pow2(DistExtra(d)) == d + 1
  {
    Pow2Values();
    hide Pow2;
  }

  // ---------------------------------------------------------------- bits

  /** The tables have codes for everything the token needs. */
  predicate Codable(lit: seq<nat>, dist: seq<nat>, t: Token) {
    match t
    case Lit(b) => Used(lit, b)
    case Match(len, d) => ValidToken(t) && Used(lit, LenSym(len - 3)) && Used(dist, DistSym(d - 1))
  }

  function TokenBits(lit: seq<nat>, dist: seq<nat>, t: Token): seq<bool>
    requires Codable(lit, dist, t)
  {
    match t
    case Lit(b) => Word(lit, b)
    case Match(len, d) =>
      Word(lit, LenSym(len - 3)) + BitsOf(LowBits(len - 3, LenExtra(len - 3)), LenExtra(len - 3)) +
      Word(dist, DistSym(d - 1)) + BitsOf(LowBits(d - 1, DistExtra(d - 1)), DistExtra(d - 1))
  }

  predicate AllCodable(lit: seq<nat>, dist: seq<nat>, ts: seq<Token>) {
    forall i :: 0 <= i < |ts| ==> Codable(lit, dist, ts[i])
  }

  /** The coded form of a token sequence, with the end-of-block symbol. */
  function TokensBits(lit: seq<nat>, dist: seq<nat>, ts: seq<Token>): seq<bool>
    requires AllCodable(lit, dist, ts)
  {
    if ts == [] then [] else TokenBits(lit, dist, ts[0]) + TokensBits(lit, dist, ts[1..])
  }

  lemma {:induction false} TokensBitsAppend(lit: seq<nat>, dist: seq<nat>, ts: seq<Token>, t: Token)
    requires AllCodable(lit, dist, ts) && Codable(lit, dist, t)
    ensures AllCodable(lit, dist, ts + [t])
    ensures TokensBits(lit, dist, ts + [t]) == TokensBits(lit, dist, ts) + TokenBits(lit, dist, t)
    decreases |ts|
  {
    hide TokenBits, Codable;
    if ts == [] {
      assert ts + [t] == [t] && [t][1..] == [];
    } else {
      assert (ts + [t])[0] == ts[0] && (ts + [t])[1..] == ts[1..] + [t];
      TokensBitsAppend(lit, dist, ts[1..], t);
    }
  }
}
