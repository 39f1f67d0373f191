/** Bit strings, their values, and the byte-oriented view of a deflate stream.
    A bit string is a `seq<bool>` whose first element is the bit sent first; as a number it is
    read least significant bit first, the order of the deflate bit buffers. */
module Bits {
  type byte = x: int | 0 <= x < 256
  type u16 = x: int | 0 <= x < 0x1_0000
  type u32 = x: int | 0 <= x < 0x1_0000_0000

  function Pow2(n: nat): (p: nat)
    ensures p >= 1
  {
    if n == 0 then 1 else 2 * Pow2(n - 1)
  }

  /** `x << n`, `x >> n`, and the low `n` bits of `x`. */
  function Shl(x: nat, n: nat): nat { x * Pow2(n) }

  function Shr(x: nat, n: nat): nat { if n == 0 then x else Shr(x / 2, n - 1) }

  function LowBits(x: nat, n: nat): nat { if n == 0 then 0 else x % 2 + 2 * LowBits(x / 2, n - 1) }

  function B2N(b: bool): nat { if b then 1 else 0 }

  /** The value of a bit string, least significant bit first. */
  function Val(bs: seq<bool>): nat {
    if bs == [] then 0 else B2N(bs[0]) + 2 * Val(bs[1..])
  }

  /** The low `n` bits of `v`, least significant bit first. */
  function BitsOf(v: nat, n: nat): (bs: seq<bool>)
    ensures |bs| == n
  {
    if n == 0 then [] else [v % 2 == 1] + BitsOf(v / 2, n - 1)
  }

  /** The low `n` bits of `v`, most significant bit first. */
  function MsbBits(v: nat, n: nat): (bs: seq<bool>)
    ensures |bs| == n
  {
    if n == 0 then [] else MsbBits(v / 2, n - 1) + [v % 2 == 1]
  }

  /** The C operator `|` on unsigned integers. */
  function BitOr(a: nat, b: nat): nat
    decreases a + b
  {
    if a == 0 && b == 0 then 0
    else (if a % 2 == 1 || b % 2 == 1 then 1 else 0) + 2 * BitOr(a / 2, b / 2)
  }

  /** The C operator `^` on unsigned integers. */
  function BitXor(a: nat, b: nat): nat
    decreases a + b
  {
    if a == 0 && b == 0 then 0
    else (if (a % 2 == 1) != (b % 2 == 1) then 1 else 0) + 2 * BitXor(a / 2, b / 2)
  }

  /** The bits of a byte sequence in stream order. */
  function BytesBits(bytes: seq<byte>): (bs: seq<bool>)
    ensures |bs| == 8 * |bytes|
  {
    if bytes == [] then [] else BitsOf(bytes[0], 8) + BytesBits(bytes[1..])
  }

  // ---------------------------------------------------------------- powers of two

  lemma {:induction false} Pow2Add(m: nat, n: nat)
    ensures Pow2(m + n) == Pow2(m) * Pow2(n)
  {
    if m == 0 {
    } else {
      Pow2Add(m - 1, n);
      assert Pow2(m + n) == 2 * Pow2(m + n - 1);
      assert 2 * (Pow2(m - 1) * Pow2(n)) == (2 * Pow2(m - 1)) * Pow2(n);
    }
  }

  lemma {:induction false} Pow2Mono(m: nat, n: nat)
    requires m <= n
    ensures Pow2(m) <= Pow2(n)
    decreases n
  {
    if m < n { Pow2Mono(m, n - 1); }
  }

  lemma Pow2Values()
    ensures Pow2(0) == 1 && Pow2(1) == 2 && Pow2(2) == 4 && Pow2(3) == 8 && Pow2(4) == 16 && Pow2(5) == 32
    ensures Pow2(6) == 64 && Pow2(7) == 128 && Pow2(8) == 256 && Pow2(9) == 512 && Pow2(10) == 1024
    ensures Pow2(11) == 2048 && Pow2(12) == 4096 && Pow2(13) == 8192 && Pow2(14) == 16384 && Pow2(15) == 32768
    ensures Pow2(16) == 65536
  {
    assert Pow2(4) == 16;
    assert Pow2(8) == 256;
    assert Pow2(12) == 4096;
  }

  lemma MulDistrib(d: int, a: int, b: int)
    ensures d * a - d * b == d * (a - b)
  {
  }

  lemma MulMono(a: nat, x: nat, y: nat)
    requires x <= y
    ensures a * x <= a * y
  {
  }

  lemma MulAdd(a: int, b: int, p: int)
    ensures (a + b) * p == a * p + b * p
  {
  }

  lemma MulTwice(a: int, p: int)
    ensures a * (2 * p) == (2 * a) * p
  {
  }

  function Min(a: int, b: int): (m: int)
    ensures m <= a && m <= b && (m == a || m == b)
  {
    if a < b then a else b
  }

  lemma MulAtLeast(d: nat, k: nat)
    requires k >= 1
    ensures d * k >= d
  {
    MulDistrib(d, k, 1);
    assert d * (k - 1) >= 0;
  }

  lemma QuotientUnique(d: nat, q: int, r: nat, q1: int, r1: nat)
    requires d * q + r == d * q1 + r1 && r < d && r1 < d
    ensures q == q1
  {
    if q1 > q { MulDistrib(d, q1, q); MulAtLeast(d, q1 - q); }
    if q > q1 { MulDistrib(d, q, q1); MulAtLeast(d, q - q1); }
  }

  lemma DivUnique(x: nat, d: nat, q: nat, r: nat)
    requires d > 0 && x == d * q + r && r < d
    ensures x / d == q && x % d == r
  {
    QuotientUnique(d, q, r, x / d, x % d);
  }

  // ---------------------------------------------------------------- values and bit strings

  lemma {:induction false} ValBound(bs: seq<bool>)
    ensures Val(bs) < Pow2(|bs|)
  {
    if bs != [] { ValBound(bs[1..]); }
  }

  /** `Val` undoes `BitsOf` on every value that fits. */
  lemma {:induction false} ValOfBits(v: nat, n: nat)
    requires v < Pow2(n)
    ensures Val(BitsOf(v, n)) == v
  {
    if n > 0 {
      ValOfBits(v / 2, n - 1);
      assert BitsOf(v, n)[1..] == BitsOf(v / 2, n - 1);
    }
  }

  /** `BitsOf` undoes `Val`. */
  lemma {:induction false} BitsOfVal(bs: seq<bool>)
    ensures BitsOf(Val(bs), |bs|) == bs
  {
    if bs != [] {
      BitsOfVal(bs[1..]);
      assert Val(bs) / 2 == Val(bs[1..]);
      assert bs == [bs[0]] + bs[1..];
    }
  }

  lemma {:induction false} ValAppend(a: seq<bool>, b: seq<bool>)
    ensures Val(a + b) == Val(a) + Pow2(|a|) * Val(b)
  {
    if a == [] {
      assert a + b == b;
    } else {
      ValAppend(a[1..], b);
      assert (a + b)[1..] == a[1..] + b;
      assert 2 * (Pow2(|a| - 1) * Val(b)) == Pow2(|a|) * Val(b);
    }
  }

  /** Putting the `n`-bit value `b` above the `m`-bit value `a`. */
  lemma {:induction false} BitsOfJoin(a: nat, m: nat, b: nat, n: nat)
    requires a < Pow2(m)
    ensures BitsOf(a + Pow2(m) * b, m + n) == BitsOf(a, m) + BitsOf(b, n)
    decreases m
  {
    if m == 0 {
      assert BitsOf(a, m) + BitsOf(b, n) == BitsOf(b, n);
    } else {
      var t := Pow2(m - 1) * b;
      assert Pow2(m) * b == 2 * t by { assert (2 * Pow2(m - 1)) * b == 2 * (Pow2(m - 1) * b); }
      BitsOfJoin(a / 2, m - 1, b, n);
      assert (a + 2 * t) / 2 == a / 2 + t && (a + 2 * t) % 2 == a % 2;
      assert BitsOf(a, m) + BitsOf(b, n) == [a % 2 == 1] + (BitsOf(a / 2, m - 1) + BitsOf(b, n));
    }
  }

  lemma DivMod(v: nat, p: nat) returns (q: nat, r: nat)
    requires p > 0
    ensures q == v / p && r == v % p && r < p && v == r + p * q
  {
    q, r := v / p, v % p;
  }

  lemma BitsOfMod(v: nat, n: nat)
    ensures BitsOf(v % Pow2(n), n) == BitsOf(v, n)
  {
    hide *;
    var q, r := DivMod(v, Pow2(n));
    BitsOfJoin(r, n, q, 0);
    assert BitsOf(r, n) + [] == BitsOf(r, n);
  }

  /** The low bits of a number are its first bits, the shifted number has the rest. */
  lemma {:induction false} SplitBits(x: nat, n: nat, m: nat)
    requires n <= m
    ensures LowBits(x, n) < Pow2(n) && BitsOf(LowBits(x, n), n) == BitsOf(x, m)[..n]
    ensures BitsOf(Shr(x, n), m - n) == BitsOf(x, m)[n..]
    decreases n
  {
    if n > 0 {
      SplitBits(x / 2, n - 1, m - 1);
      BitsFirst(x, m);
      LowBitsFirst(x, n);
      hide *;
      assert BitsOf(x, m)[n..] == BitsOf(x / 2, m - 1)[n - 1..];
      assert BitsOf(x, m)[..n] == [x % 2 == 1] + BitsOf(x / 2, m - 1)[..n - 1];
    }
  }

  lemma BitsFirst(x: nat, n: nat)
    requires n > 0
    ensures BitsOf(x, n) == [x % 2 == 1] + BitsOf(x / 2, n - 1)
  {
  }

  lemma LowBitsFirst(x: nat, n: nat)
    requires n > 0
    ensures LowBits(x, n) == x % 2 + 2 * LowBits(x / 2, n - 1) && Shr(x, n) == Shr(x / 2, n - 1)
    ensures LowBits(x / 2, n - 1) < Pow2(n - 1) ==> LowBits(x, n) < Pow2(n)
    ensures BitsOf(LowBits(x, n), n) == [x % 2 == 1] + BitsOf(LowBits(x / 2, n - 1), n - 1)
  {
    var low := LowBits(x / 2, n - 1);
    assert LowBits(x, n) % 2 == x % 2 && LowBits(x, n) / 2 == low;
    BitsFirst(LowBits(x, n), n);
    hide BitsOf;
  }

  lemma {:induction false} ShrBound(x: nat, n: nat, m: nat)
    requires n <= m && x < Pow2(m)
    ensures Shr(x, n) < Pow2(m - n)
    decreases n
  {
    if n > 0 { ShrBound(x / 2, n - 1, m - 1); }
  }

  /** Bit `d` of a string is bit `d` of its value. */
  lemma FirstBit(bs: seq<bool>)
    requires bs != []
    ensures Val(bs) % 2 == B2N(bs[0])
  {
  }

  lemma {:induction false} ValBit(bs: seq<bool>, d: nat)
    requires d < |bs|
    ensures Val(bs) / Pow2(d) == Val(bs[d..])
    ensures (Val(bs) / Pow2(d)) % 2 == B2N(bs[d])
    decreases d
  {
    hide *;
    assert bs == bs[..d] + bs[d..];
    ValAppend(bs[..d], bs[d..]);
    ValBound(bs[..d]);
    DivUnique(Val(bs), Pow2(d), Val(bs[d..]), Val(bs[..d]));
    FirstBit(bs[d..]);
  }

  /** The low `n` bits of a bit string's value are its first `n` bits. */
  lemma ValPrefix(bs: seq<bool>, n: nat)
    requires n <= |bs|
    ensures Val(bs) % Pow2(n) == Val(bs[..n])
    ensures BitsOf(Val(bs), n) == bs[..n]
  {
    assert bs == bs[..n] + bs[n..];
    ValAppend(bs[..n], bs[n..]);
    ValBound(bs[..n]);
    DivUnique(Val(bs), Pow2(n), Val(bs[n..]), Val(bs[..n]));
    BitsOfMod(Val(bs), n);
    BitsOfVal(bs[..n]);
  }

  lemma {:induction false} BitOrComm(a: nat, b: nat)
    ensures BitOr(a, b) == BitOr(b, a)
    decreases a + b
  {
    if a != 0 || b != 0 { BitOrComm(a / 2, b / 2); }
  }

  lemma {:induction false} BitOrZero(a: nat)
    ensures BitOr(a, 0) == a
  {
    if a != 0 { BitOrZero(a / 2); }
  }

  /** Or-ing a shifted value above a bit buffer adds it: the step of both bit buffers. */
  lemma {:induction false} BitOrDisjoint(a: nat, b: nat, n: nat)
    requires a < Pow2(n)
    ensures BitOr(a, b * Pow2(n)) == a + b * Pow2(n)
    decreases n
  {
    var s := b * Pow2(n);
    if n == 0 {
      BitOrComm(a, s);
      BitOrZero(s);
    } else {
      var t := b * Pow2(n - 1);
      assert s == 2 * t by { assert b * (2 * Pow2(n - 1)) == 2 * (b * Pow2(n - 1)); }
      BitOrDisjoint(a / 2, b, n - 1);
      assert s % 2 == 0 && s / 2 == t;
    }
  }

  // ---------------------------------------------------------------- bytes

  lemma {:induction false} BytesBitsAppend(a: seq<byte>, b: seq<byte>)
    ensures BytesBits(a + b) == BytesBits(a) + BytesBits(b)
  {
    hide BitsOf;
    if a == [] {
      assert a + b == b;
    } else {
      BytesBitsAppend(a[1..], b);
      assert (a + b)[1..] == a[1..] + b;
    }
  }

  /** Whole bytes from their bits. */
  function ToBytes(bs: seq<bool>): (bytes: seq<byte>)
    requires |bs| % 8 == 0
    ensures BytesBits(bytes) == bs
  {
    if bs == [] then [] else
      ByteOfBits(bs[..8]);
      var bytes := [Val(bs[..8])] + ToBytes(bs[8..]);
      assert bytes[1..] == ToBytes(bs[8..]) && bs == bs[..8] + bs[8..];
      bytes
  }

  lemma ByteOfBits(bs: seq<bool>)
    requires |bs| == 8
    ensures Val(bs) < 256 && BitsOf(Val(bs), 8) == bs
  {
    Pow2Values();
    ValBound(bs);
    BitsOfVal(bs);
  }

  lemma BytesBitsOne(b: byte)
    ensures BytesBits([b]) == BitsOf(b, 8)
  {
    assert [b][1..] == [];
  }
}
