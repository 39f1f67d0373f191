/** Adler-32 (RFC 1950 section 2.2) with the modulo taken once per block (`mz_adler32`). */
module Adler32 {
  import opened Bits

  const BASE: nat := 65521
  const BLOCK: nat := 5552

  // ---------------------------------------------------------------- definition

  datatype Sums = Sums(s1: nat, s2: nat)

  /** The two sums after the bytes `d`, byte by byte and modulo 65521, from the sums `s`. */
  function Fold(s: Sums, d: seq<byte>): Sums
    decreases |d|
  {
    if d == [] then s else
      var t := Fold(s, d[..|d| - 1]);
      var s1 := (t.s1 + d[|d| - 1]) % BASE;
      Sums(s1, (t.s2 + s1) % BASE)
  }

  function Pack(s: Sums): nat { 65536 * s.s2 + s.s1 }

  function Unpack(adler: nat): Sums { Sums(adler % 65536, adler / 65536) }

  /** The checksum of the bytes `d`, continued from the running value `adler`. */
  function Update(adler: nat, d: seq<byte>): nat { Pack(Fold(Unpack(adler), d)) }

  lemma {:induction false} FoldAppend(s: Sums, x: seq<byte>, y: seq<byte>)
    ensures Fold(s, x + y) == Fold(Fold(s, x), y)
    decreases |y|
  {
    if y == [] {
      assert x + y == x;
    } else {
      var l := |y| - 1;
      FoldAppend(s, x, y[..l]);
      assert (x + y)[..|x + y| - 1] == x + y[..l];
    }
  }

  lemma FoldBound(s: Sums, d: seq<byte>)
    requires d != []
    ensures Fold(s, d).s1 < BASE && Fold(s, d).s2 < BASE
  {
  }

  lemma UnpackPack(s: Sums)
    requires s.s1 < 65536
    ensures Unpack(Pack(s)) == s
  {
  }

  lemma PackUnpack(adler: nat)
    ensures Pack(Unpack(adler)) == adler
  {
  }

  lemma UpdateNothing(adler: nat)
    ensures Update(adler, []) == adler
  {
    PackUnpack(adler);
    hide Pack, Unpack;
  }

  /** Checksumming one piece after the other is checksumming the whole. */
  lemma UpdateAppend(adler: nat, x: seq<byte>, y: seq<byte>)
    ensures Update(Update(adler, x), y) == Update(adler, x + y)
  {
    FoldAppend(Unpack(adler), x, y);
    if x == [] {
      PackUnpack(adler);
    } else {
      FoldBound(Unpack(adler), x);
      UnpackPack(Fold(Unpack(adler), x));
    }
  }

  lemma UpdateFits(adler: nat, d: seq<byte>)
    requires adler < 0x1_0000_0000
    ensures Update(adler, d) < 0x1_0000_0000
  {
    if d == [] { PackUnpack(adler); } else { FoldBound(Unpack(adler), d); }
  }

  // ---------------------------------------------------------------- sums without modulo

  function Raw(s: Sums, d: seq<byte>): Sums
    decreases |d|
  {
    if d == [] then s else
      var t := Raw(s, d[..|d| - 1]);
      Sums(t.s1 + d[|d| - 1], t.s2 + t.s1 + d[|d| - 1])
  }

  function Reduce(s: Sums): Sums { Sums(s.s1 % BASE, s.s2 % BASE) }

  lemma AddMod(a: nat, b: nat)
    ensures (a % BASE + b) % BASE == (a + b) % BASE
  {
  }

  /** Taking the modulo at the end is enough. */
  lemma {:induction false} RawIsFold(s: Sums, d: seq<byte>)
    requires d != []
    ensures Reduce(Raw(s, d)) == Fold(s, d)
    decreases |d|
  {
    hide *;
    var l := |d| - 1;
    var t, b := Raw(s, d[..l]), d[l];
    RawStep(s, d);
    if l == 0 {
      assert d[..l] == [];
      RawNone(s);
      OneFold(s, d);
    } else {
      RawIsFold(s, d[..l]);
      NextFold(s, d, t);
    }
  }

  /** The sum of all bytes. */
  function Total(d: seq<byte>): nat { if d == [] then 0 else d[0] + Total(d[1..]) }

  /** The sum of the bytes, the last one taken once, the one before it twice, and so on. */
  function Weighted(d: seq<byte>): nat { if d == [] then 0 else |d| * d[0] + Weighted(d[1..]) }

  lemma {:induction false} SumsOne(d: seq<byte>, b: byte)
    ensures Total(d + [b]) == Total(d) + b && Weighted(d + [b]) == Weighted(d) + Total(d) + b
    decreases |d|
  {
    if d == [] {
      assert [b][1..] == [];
    } else {
      assert (d + [b])[1..] == d[1..] + [b];
      SumsOne(d[1..], b);
    }
  }

  lemma {:induction false} RawIs(d: seq<byte>)
    ensures Raw(Sums(1, 0), d) == Sums(1 + Total(d), |d| + Weighted(d))
    decreases |d|
  {
    if d != [] {
      var l := |d| - 1;
      RawIs(d[..l]);
      SumsOne(d[..l], d[l]);
      assert d[..l] + [d[l]] == d;
    }
  }

  /** The checksum as RFC 1950 defines it (section 8.2): both sums modulo 65521. */
  lemma UpdateIs(d: seq<byte>)
    ensures Update(1, d) == (|d| + Weighted(d)) % 65521 * 65536 + (1 + Total(d)) % 65521
  {
    hide *;
    FromOne(d);
    if d == [] {
      NoBytes();
    } else {
      RawIs(d);
      RawIsFold(Sums(1, 0), d);
      PackReduced(1 + Total(d), |d| + Weighted(d));
    }
  }

  lemma FromOne(d: seq<byte>)
    ensures Update(1, d) == Pack(Fold(Sums(1, 0), d))
  {
    hide Fold, Pack;
  }

  lemma NoBytes()
    ensures Pack(Fold(Sums(1, 0), [])) == (0 + Weighted([])) % 65521 * 65536 + (1 + Total([])) % 65521
  {
  }

  lemma PackReduced(a: nat, b: nat)
    ensures Pack(Reduce(Sums(a, b))) == b % 65521 * 65536 + a % 65521
  {
  }

  lemma OneFold(s: Sums, d: seq<byte>)
    requires |d| == 1
    ensures Reduce(Sums(s.s1 + d[0], s.s2 + s.s1 + d[0])) == Fold(s, d)
  {
    assert d[..0] == [] && Fold(s, d[..0]) == s;
    AddMod(s.s1 + d[0], s.s2);
  }

  lemma NextFold(s: Sums, d: seq<byte>, t: Sums)
    requires d != [] && Reduce(t) == Fold(s, d[..|d| - 1])
    ensures var b := d[|d| - 1]; Reduce(Sums(t.s1 + b, t.s2 + t.s1 + b)) == Fold(s, d)
  {
    var b := d[|d| - 1];
    AddMod(t.s1, b);
    AddMod(t.s2, (t.s1 + b) % BASE);
    AddMod(t.s1 + b, t.s2);
  }

  lemma RawNone(s: Sums)
    ensures Raw(s, []) == s
  {
  }

  lemma RawStep(s: Sums, d: seq<byte>)
    requires d != []
    ensures var t, b := Raw(s, d[..|d| - 1]), d[|d| - 1]; Raw(s, d) == Sums(t.s1 + b, t.s2 + t.s1 + b)
  {
  }

  /** How large the sums get in one block; this is what limits a block to 5552 bytes. */
  lemma {:induction false} RawBound(s: Sums, d: seq<byte>)
    requires s.s1 < 65536 && s.s2 < 65536
    ensures Raw(s, d).s1 <= 65535 + 255 * |d|
    ensures 2 * Raw(s, d).s2 <= 2 * (65535 + 65535 * |d|) + 255 * (|d| * (|d| + 1))
    decreases |d|
  {
    if d != [] {
      RawBound(s, d[..|d| - 1]);
      assert |d| * (|d| + 1) == (|d| - 1) * |d| + 2 * |d|;
    }
  }

  lemma BlockFits(s: Sums, d: seq<byte>)
    requires s.s1 < 65536 && s.s2 < 65536 && |d| <= BLOCK
    ensures Raw(s, d).s1 < 0x1_0000_0000 && Raw(s, d).s2 < 0x1_0000_0000
  {
    RawBound(s, d);
    SquareMono(|d|);
  }

  lemma Product(a: nat, b: nat)
    ensures a * b >= 0
  {
  }

  lemma SquareMono(n: nat)
    requires n <= BLOCK
    ensures n * (n + 1) <= BLOCK * (BLOCK + 1)
  {
    Product(BLOCK - n, n + 1);
    assert (BLOCK - n) * (n + 1) == BLOCK * (n + 1) - n * (n + 1);
  }

  // ---------------------------------------------------------------- the loop

  /** Adds the bytes `d[from..to]` to 32-bit sums, eight at a time and then one at a time. */
  method AddBlock(s1: u32, s2: u32, d: seq<byte>, from: nat, to: nat) returns (t1: u32, t2: u32)
    requires s1 < 65536 && s2 < 65536 && from <= to <= |d| && to - from <= BLOCK
    ensures Sums(t1, t2) == Raw(Sums(s1, s2), d[from..to])
  {
    ghost var start, part := Sums(s1, s2), d[from..to];
    t1, t2 := s1, s2;
    var i := from;
    assert part[..0] == [] && Raw(start, []) == start && |part| <= BLOCK;
    hide *;
    while i + 7 < to
      invariant from <= i <= to && Sums(t1, t2) == Raw(start, part[..i - from])
    {
      for j := 0 to 8
        invariant Sums(t1, t2) == Raw(start, part[..i + j - from])
      {
        t1, t2 := AddByte(t1, t2, d[i + j], start, part, i + j - from);
      }
      i := i + 8;
    }
    while i < to
      invariant from <= i <= to && Sums(t1, t2) == Raw(start, part[..i - from])
    {
      t1, t2 := AddByte(t1, t2, d[i], start, part, i - from);
      i := i + 1;
    }
    assert part[..to - from] == part;
  }

  lemma NextRaw(start: Sums, part: seq<byte>, k: nat)
    requires start.s1 < 65536 && start.s2 < 65536 && k < |part| <= BLOCK
    ensures var r, n := Raw(start, part[..k]), Raw(start, part[..k + 1]);
      n == Sums(r.s1 + part[k], r.s2 + r.s1 + part[k]) && n.s1 < 0x1_0000_0000 && n.s2 < 0x1_0000_0000
  {
    assert part[..k + 1][..k] == part[..k];
    BlockFits(start, part[..k + 1]);
  }

  method AddByte(s1: u32, s2: u32, b: byte, ghost start: Sums, ghost part: seq<byte>, ghost k: nat)
      returns (t1: u32, t2: u32)
    requires start.s1 < 65536 && start.s2 < 65536 && k < |part| <= BLOCK && part[k] == b
    requires Sums(s1, s2) == Raw(start, part[..k])
    ensures Sums(t1, t2) == Raw(start, part[..k + 1])
  {
    NextRaw(start, part, k);
    t1 := s1 + b;
    t2 := s2 + t1;
  }

  /** Only the sums modulo 65521 matter for what follows. */
  lemma {:induction false} FoldReduced(a: Sums, b: Sums, d: seq<byte>)
    requires Reduce(a) == Reduce(b) && d != []
    ensures Fold(a, d) == Fold(b, d)
    decreases |d|
  {
    if |d| == 1 {
      assert d[..0] == [];
      var x := d[0];
      AddMod(a.s1, x);
      AddMod(b.s1, x);
      AddMod(a.s2, (a.s1 + x) % BASE);
      AddMod(b.s2, (b.s1 + x) % BASE);
    } else {
      FoldReduced(a, b, d[..|d| - 1]);
    }
  }

  /** One more block, from sums that are right modulo 65521. */
  lemma ReduceTwice(s: Sums)
    ensures Reduce(Reduce(s)) == Reduce(s)
  {
  }

  lemma NextBlock(start: Sums, s: Sums, d: seq<byte>, at: nat, len: nat)
    requires at + len <= |d| && Reduce(s) == Reduce(Fold(start, d[..at]))
    ensures var t := Reduce(Raw(s, d[at..at + len]));
      Reduce(t) == Reduce(Fold(start, d[..at + len])) && (len > 0 ==> t == Fold(start, d[..at + len]))
  {
    hide *;
    var part := d[at..at + len];
    if len == 0 {
      assert part == [] && d[..at + len] == d[..at];
      RawNone(s);
      ReduceTwice(s);
    } else {
      RawIsFold(s, part);
      FoldReduced(s, Fold(start, d[..at]), part);
      FoldAppend(start, d[..at], part);
      assert d[..at + len] == d[..at] + part;
    }
  }

  /** The checksum, for any running value and any length; the first block may be empty. */
  method MzAdler32(adler: u32, d: seq<byte>) returns (r: u32)
    ensures r == Update(adler, d)
  {
    var s1: u32, s2: u32 := adler % 65536, adler / 65536;
    var left, blockLen := |d|, |d| % BLOCK;
    ghost var start := Sums(s1, s2);
    StartFold(adler, d);
    hide *;
    while left > 0
      invariant 0 <= left <= |d| && 0 <= blockLen && BlockLen(|d|, left, blockLen) && (left > 0 ==> blockLen <= left)
      invariant Partial(start, d, |d| - left, s1, s2)
      decreases left, if blockLen == 0 then 1 else 0
    {
      BlockStep(|d|, left, blockLen);
      s1, s2 := ReducedBlock(start, s1, s2, d, |d| - left, blockLen);
      left := left - blockLen;
      blockLen := 5552;
    }
    EndFold(start, d, s1, s2);
    r := s2 * 65536 + s1;
  }

  /** The first block takes the odd bytes, all others are full. */
  ghost predicate BlockLen(total: nat, left: nat, len: nat) {
    (left == total && len == left % BLOCK) || (len == BLOCK && left % BLOCK == 0) 
  }

  lemma BlockStep(total: nat, left: nat, len: nat)
    requires BlockLen(total, left, len) && 0 < left <= total && len <= left
    ensures len <= BLOCK == 5552 && BlockLen(total, left - len, 5552)
    ensures left - len > 0 ==> 5552 <= left - len
  {
    var q := left / BLOCK;
    assert left == BLOCK * q + left % BLOCK;
    if len == BLOCK { DivUnique(left - len, BLOCK, q - 1, 0); } else { DivUnique(left - len, BLOCK, q, 0); }
  }

  /** The sums after the first `at` bytes: exact, except that nothing is reduced before the first block. */
  ghost predicate Partial(start: Sums, d: seq<byte>, at: nat, s1: nat, s2: nat) {
    && at <= |d| && s1 < 65536 && s2 < 65536
    && Reduce(Sums(s1, s2)) == Reduce(Fold(start, d[..at]))
    && (at > 0 || d == [] ==> Sums(s1, s2) == Fold(start, d[..at]))
  }

  method ReducedBlock(ghost start: Sums, s1: u32, s2: u32, d: seq<byte>, at: nat, len: nat) returns (t1: u32, t2: u32)
    requires Partial(start, d, at, s1, s2) && at + len <= |d| && len <= BLOCK && d != []
    ensures Partial(start, d, at + len, t1, t2)
  {
    NextBlock(start, Sums(s1, s2), d, at, len);
    hide Fold, Raw;
    t1, t2 := AddBlock(s1, s2, d, at, at + len);
    t1, t2 := t1 % BASE, t2 % BASE;
    if len == 0 { assert d[..at + len] == d[..at]; }
  }

  lemma StartFold(adler: nat, d: seq<byte>)
    requires adler < 0x1_0000_0000
    ensures Partial(Sums(adler % 65536, adler / 65536), d, |d| - |d|, adler % 65536, adler / 65536)
    ensures BlockLen(|d|, |d|, |d| % BLOCK) && |d| % BLOCK <= |d|
    ensures Update(adler, d) == Pack(Fold(Sums(adler % 65536, adler / 65536), d))
  {
  }

  lemma EndFold(start: Sums, d: seq<byte>, s1: nat, s2: nat)
    requires Partial(start, d, |d| - 0, s1, s2)
    ensures Pack(Fold(start, d)) == s2 * 65536 + s1 && s1 < 65536 && s2 < 65536
  {
    assert d[..|d|] == d;
  }
}
