/** What the compressor's hash chains hold: for every hash value the newest position with it, and for
    every position the one before it with the same hash value; and the positions that a search visits. */
module HashChains {
  import opened Bits
  import opened Tokens

  const HASH_SIZE: nat := 32768
  const HASH_SHIFT: nat := 5

  // ---------------------------------------------------------------- hash values

  /** The hash value of three bytes. */
  function Hash3(a: byte, b: byte, c: byte): (h: nat)
    ensures h < HASH_SIZE
  {
    BitXor(BitXor(Shl(a, 2 * HASH_SHIFT), Shl(b, HASH_SHIFT)), c) % HASH_SIZE
  }

  function HashAt(s: seq<byte>, p: nat): (h: nat)
    requires p + 2 < |s|
    ensures h < HASH_SIZE
  {
    Hash3(s[p], s[p + 1], s[p + 2])
  }

  /** A running value in which only the last two bytes still count. */
  predicate Rolled(h: nat, a: byte, b: byte) {
    h % 1024 == BitXor(Shl(a, HASH_SHIFT), b) % 1024
  }

  lemma {:induction false} XorMod(a: nat, b: nat, n: nat)
    ensures BitXor(a, b) % Pow2(n) == BitXor(a % Pow2(n), b % Pow2(n))
    decreases n
  {
    if n == 0 {
      assert Pow2(0) == 1;
    } else {
      XorMod(a / 2, b / 2, n - 1);
      HalfMod(a, n);
      HalfMod(b, n);
      HalfMod(BitXor(a, b), n);
      hide Pow2;
      XorParts(a, b);
      XorParts(a % Pow2(n), b % Pow2(n));
    }
  }

  lemma XorParts(a: nat, b: nat)
    ensures BitXor(a, b) % 2 == (if (a % 2 == 1) != (b % 2 == 1) then 1 else 0)
    ensures BitXor(a, b) / 2 == BitXor(a / 2, b / 2)
  {
  }

  lemma HalfMod(a: nat, n: nat)
    requires n > 0
    ensures a % Pow2(n) % 2 == a % 2 && a % Pow2(n) / 2 == a / 2 % Pow2(n - 1)
  {
    var p := Pow2(n - 1);
    assert Pow2(n) == 2 * p;
    hide Pow2;
    var q, r := DivMod(a / 2, p);
    assert a == 2 * (r + p * q) + a % 2;
    assert 2 * (p * q) == 2 * p * q;
    DivUnique(a, 2 * p, q, 2 * r + a % 2);
  }

  lemma {:induction false} XorShl(a: nat, b: nat, k: nat)
    ensures BitXor(Shl(a, k), Shl(b, k)) == Shl(BitXor(a, b), k)
    decreases k
  {
    if k > 0 {
      XorShl(a, b, k - 1);
      ShlTwice(a, k);
      ShlTwice(b, k);
      ShlTwice(BitXor(a, b), k);
      hide Shl;
      XorDouble(Shl(a, k - 1), Shl(b, k - 1));
    }
  }

  lemma ShlTwice(a: nat, k: nat)
    requires k > 0
    ensures Shl(a, k) == 2 * Shl(a, k - 1)
  {
    assert a * (2 * Pow2(k - 1)) == 2 * (a * Pow2(k - 1));
  }

  lemma XorDouble(a: nat, b: nat)
    ensures BitXor(2 * a, 2 * b) == 2 * BitXor(a, b)
  {
    XorParts(2 * a, 2 * b);
    hide BitXor;
  }

  lemma ShlMod(a: nat, k: nat, n: nat)
    ensures Shl(a, k) % Pow2(n + k) == Shl(a % Pow2(n), k)
  {
    hide Pow2;
    Pow2Add(n, k);
    var q, r := DivMod(a, Pow2(n));
    Distribute(r, Pow2(n), q, Pow2(k));
    MulLess(r, Pow2(n), Pow2(k));
    DivUnique(a * Pow2(k), Pow2(n) * Pow2(k), q, r * Pow2(k));
  }

  lemma Distribute(r: nat, p: nat, q: nat, s: nat)
    ensures (r + p * q) * s == p * s * q + r * s
  {
    MulAdd(r, p * q, s);
    assert p * q * s == p * s * q;
  }

  lemma MulLess(r: nat, p: nat, s: nat)
    requires r < p && s > 0
    ensures r * s < p * s && p * s > 0
  {
  }

  /** One more byte shifted in gives the hash value of the last three. */
  lemma RollHash(h: nat, a: byte, b: byte, c: byte)
    requires Rolled(h, a, b)
    ensures BitXor(Shl(h, HASH_SHIFT), c) % HASH_SIZE == Hash3(a, b, c) && Rolled(Hash3(a, b, c), b, c)
  {
    Pow2Values();
    var x := BitXor(Shl(a, 5), b);
    ShlMod(h, 5, 10);
    ShlMod(x, 5, 10);
    XorShl(Shl(a, 5), b, 5);
    ShlAdd(a, 5, 5);
    hide Shl, BitXor, Pow2;
    XorMod(Shl(h, 5), c, 15);
    XorMod(Shl(x, 5), c, 15);
    LowTen(a, b, c);
  }

  lemma ShlAdd(a: nat, j: nat, k: nat)
    ensures Shl(Shl(a, j), k) == Shl(a, j + k)
  {
    hide Pow2;
    Pow2Add(j, k);
    MulAssoc(a, Pow2(j), Pow2(k));
  }

  lemma MulAssoc(a: nat, b: nat, c: nat)
    ensures a * b * c == a * (b * c)
  {
  }

  /** In the low ten bits the oldest byte does not count any more. */
  lemma LowTen(a: byte, b: byte, c: byte)
    ensures Hash3(a, b, c) % 1024 == BitXor(Shl(b, HASH_SHIFT), c) % 1024
  {
    Pow2Values();
    var u, v := Shl(a, 10), Shl(b, 5);
    ShlMod(a, 10, 0);
    assert Shl(0, 10) == 0;
    hide Shl, Pow2;
    ModMod(BitXor(BitXor(u, v), c), 32);
    XorMod(BitXor(u, v), c, 10);
    XorMod(u, v, 10);
    XorZero(v % 1024);
    XorMod(v, c, 10);
    ModTwice(v);
  }

  lemma ModTwice(v: nat)
    ensures v % 1024 % 1024 == v % 1024
  {
  }

  lemma ModMod(x: nat, k: nat)
    requires k == 32
    ensures x % 32768 % 1024 == x % 1024
  {
    var q, r := DivMod(x, 32768);
    DivUnique(x, 1024, 32 * q + r / 1024, r % 1024);
  }

  lemma {:induction false} XorZero(b: nat)
    ensures BitXor(0, b) == b
  {
    if b > 0 { XorZero(b / 2); }
  }

  // ---------------------------------------------------------------- chains

  /** The newest position from `from` on and before `end` with hash value `h`, or -1. */
  function Newest(s: seq<byte>, from: nat, end: nat, h: nat): (q: int)
    requires from < end ==> end + 2 <= |s|
    ensures q == -1 || (from <= q < end && q + 2 < |s| && HashAt(s, q) == h)
    ensures forall p: nat :: from <= p < end && p + 2 < |s| && HashAt(s, p) == h ==> p <= q
  {
    if end <= from then -1 else if HashAt(s, end - 1) == h then end - 1 else Newest(s, from, end - 1, h)
  }

  /** A position as it is stored, in 16 bits; 0 stands for none. */
  function Link(q: int): (n: u16) { if q < 0 then 0 else q % 0x1_0000 }

  /** The chains of the positions from `start` on and before `n`. */
  ghost predicate Chains(next: seq<u16>, hash: seq<u16>, s: seq<byte>, start: nat, n: nat) {
    && |next| == LZ_DICT_SIZE && |hash| == HASH_SIZE && (start < n ==> n + 2 <= |s|)
    && (forall h: nat :: h < HASH_SIZE ==> hash[h] == Link(Newest(s, start, n, h)))
    && (forall p: nat :: start <= p < n <= p + LZ_DICT_SIZE ==>
         next[p % LZ_DICT_SIZE] == Link(Newest(s, start, p, HashAt(s, p))))
  }

  lemma NoChains(next: seq<u16>, hash: seq<u16>, s: seq<byte>, start: nat)
    requires |next| == LZ_DICT_SIZE && |hash| == HASH_SIZE && forall i :: 0 <= i < HASH_SIZE ==> hash[i] == 0
    ensures Chains(next, hash, s, start, start)
  {
  }

  lemma {:induction false} NewestGrows(s: seq<byte>, c: byte, from: nat, end: nat, h: nat)
    requires from < end ==> end + 2 <= |s|
    ensures Newest(s + [c], from, end, h) == Newest(s, from, end, h)
    decreases end
  {
    hide Hash3;
    if from < end { NewestGrows(s, c, from, end - 1, h); }
  }

  lemma ChainsGrow(next: seq<u16>, hash: seq<u16>, s: seq<byte>, c: byte, start: nat, n: nat)
    requires Chains(next, hash, s, start, n)
    ensures Chains(next, hash, s + [c], start, n)
  {
    hide Hash3, Newest, Link;
    forall h: nat | h < HASH_SIZE ensures hash[h] == Link(Newest(s + [c], start, n, h)) {
      NewestGrows(s, c, start, n, h);
    }
    forall p: nat | start <= p < n <= p + LZ_DICT_SIZE
      ensures next[p % LZ_DICT_SIZE] == Link(Newest(s + [c], start, p, HashAt(s + [c], p)))
    {
      NewestGrows(s, c, start, p, HashAt(s, p));
    }
  }

  /** Position `n` is put at the head of the chain of its hash value. */
  lemma ChainsInsert(next: seq<u16>, hash: seq<u16>, s: seq<byte>, start: nat, n: nat)
    requires Chains(next, hash, s, start, n) && start <= n && n + 2 < |s|
    ensures var h := HashAt(s, n);
      Chains(next[n % LZ_DICT_SIZE := hash[h]], hash[h := Link(n)], s, start, n + 1)
  {
    var h := HashAt(s, n);
    var next', hash' := next[n % LZ_DICT_SIZE := hash[h]], hash[h := Link(n)];
    hide Hash3, HashAt, Link, Newest;
    forall g: nat | g < HASH_SIZE ensures hash'[g] == Link(Newest(s, start, n + 1, g)) { NewestNext(s, start, n, g); }
    forall p: nat | start <= p < n + 1 <= p + LZ_DICT_SIZE
      ensures next'[p % LZ_DICT_SIZE] == Link(Newest(s, start, p, HashAt(s, p)))
    {
      InsertedAt(next, hash, s, start, n, p);
    }
    hide Chains;
    IsChains(next', hash', s, start, n + 1);
  }

  lemma InsertedAt(next: seq<u16>, hash: seq<u16>, s: seq<byte>, start: nat, n: nat, p: nat)
    requires Chains(next, hash, s, start, n) && start <= n && n + 2 < |s| && start <= p < n + 1 <= p + LZ_DICT_SIZE
    ensures next[n % LZ_DICT_SIZE := hash[HashAt(s, n)]][p % LZ_DICT_SIZE] == Link(Newest(s, start, p, HashAt(s, p)))
  {
    hide Hash3, HashAt, Link, Newest;
    if p < n { OtherSlot(p, n); }
  }

  lemma IsChains(next: seq<u16>, hash: seq<u16>, s: seq<byte>, start: nat, n: nat)
    requires |next| == LZ_DICT_SIZE && |hash| == HASH_SIZE && (start < n ==> n + 2 <= |s|)
    requires forall h: nat :: h < HASH_SIZE ==> hash[h] == Link(Newest(s, start, n, h))
    requires forall p: nat :: start <= p < n <= p + LZ_DICT_SIZE ==>
      next[p % LZ_DICT_SIZE] == Link(Newest(s, start, p, HashAt(s, p)))
    ensures Chains(next, hash, s, start, n)
  {
  }

  lemma NewestNext(s: seq<byte>, from: nat, end: nat, h: nat)
    requires from <= end && end + 2 < |s|
    ensures Newest(s, from, end + 1, h) == if HashAt(s, end) == h then end else Newest(s, from, end, h)
  {
  }

  lemma OtherSlot(i: nat, j: nat)
    requires i < j < i + LZ_DICT_SIZE
    ensures i % LZ_DICT_SIZE != j % LZ_DICT_SIZE
  {
  }

  // ---------------------------------------------------------------- walking a chain

  /** The distances of the first `m` positions of the chain behind `probe`, seen from `head`; the chain ends where
      there is no link, or one that leads too far back or nowhere. */
  function Walk(next: seq<u16>, head: u32, limit: nat, probe: nat, m: nat): (ds: seq<nat>)
    requires |next| == LZ_DICT_SIZE && probe < LZ_DICT_SIZE
    ensures |ds| <= m && forall i :: 0 <= i < |ds| ==> 1 <= ds[i] <= limit
    decreases m
  {
    if m == 0 || Ends(next, head, limit, probe) then [] else
      [(head - next[probe]) % 0x1_0000] + Walk(next, head, limit, next[probe] % LZ_DICT_SIZE, m - 1)
  }

  predicate Ends(next: seq<u16>, head: u32, limit: nat, probe: nat)
    requires |next| == LZ_DICT_SIZE && probe < LZ_DICT_SIZE
  {
    var n := next[probe];
    var d := (head - n) % 0x1_0000;
    n == 0 || d == 0 || d > limit
  }

  /** After `v` steps, at the distances `ds`, the walk has come to `probe`. */
  ghost predicate Reached(next: seq<u16>, head: u32, limit: nat, cur: nat, v: nat, ds: seq<nat>, probe: nat) {
    && |next| == LZ_DICT_SIZE && cur < LZ_DICT_SIZE && probe < LZ_DICT_SIZE && |ds| == v
    && forall m: nat :: Walk(next, head, limit, cur, v + m) == ds + Walk(next, head, limit, probe, m)
  }

  lemma StartWalk(next: seq<u16>, head: u32, limit: nat, cur: nat)
    requires |next| == LZ_DICT_SIZE && cur < LZ_DICT_SIZE
    ensures Reached(next, head, limit, cur, 0, [], cur)
  {
    forall m: nat ensures Walk(next, head, limit, cur, 0 + m) == [] + Walk(next, head, limit, cur, m) {}
  }

  lemma WalkOn(next: seq<u16>, head: u32, limit: nat, cur: nat, v: nat, ds: seq<nat>, probe: nat)
    requires Reached(next, head, limit, cur, v, ds, probe) && !Ends(next, head, limit, probe)
    ensures var d := (head - next[probe]) % 0x1_0000;
      Reached(next, head, limit, cur, v + 1, ds + [d], next[probe] % LZ_DICT_SIZE)
  {
    var d, probe' := (head - next[probe]) % 0x1_0000, next[probe] % LZ_DICT_SIZE;
    forall m: nat
      ensures Walk(next, head, limit, cur, v + 1 + m) == ds + [d] + Walk(next, head, limit, probe', m)
    {
      assert Walk(next, head, limit, cur, v + (1 + m)) == ds + Walk(next, head, limit, probe, 1 + m);
    }
  }

  /** What has been walked is the first part of the walk, and all of it where the chain ends. */
  lemma Walked(next: seq<u16>, head: u32, limit: nat, cur: nat, v: nat, ds: seq<nat>, probe: nat, m: nat)
    requires Reached(next, head, limit, cur, v, ds, probe) && m >= v
    ensures ds <= Walk(next, head, limit, cur, m)
    ensures m == v || Ends(next, head, limit, probe) ==> Walk(next, head, limit, cur, m) == ds
  {
    assert Walk(next, head, limit, cur, v + (m - v)) == ds + Walk(next, head, limit, probe, m - v);
  }

  // ---------------------------------------------------------------- what a search comes by

  /** The distances from `at` to the older positions than `p` with its hash value, newest first, as long as they are
      within the limit and not stored as 0. */
  function Older(s: seq<byte>, start: nat, p: nat, at: nat, limit: nat, m: nat): (ds: seq<nat>)
    requires start <= p <= at && at + 2 < |s|
    decreases m
  {
    if m == 0 then [] else
      var q := Newest(s, start, p, HashAt(s, at));
      if q < 0 || q % 0x1_0000 == 0 || at - q > limit then [] else
        [at - q] + Older(s, start, q, at, limit, m - 1)
  }

  /** In chains that are kept right, the search comes by all of them first. */
  lemma {:induction false} OlderVisited(next: seq<u16>, hash: seq<u16>, s: seq<byte>, start: nat, n: nat, p: nat,
                                        at: nat, limit: nat, m: nat)
    requires Chains(next, hash, s, start, n) && start <= p <= at < n && at + 2 < |s| && HashAt(s, p) == HashAt(s, at)
    requires n <= p + LZ_DICT_SIZE && limit <= LZ_DICT_SIZE && n <= at - limit + LZ_DICT_SIZE
    ensures Older(s, start, p, at, limit, m) <=
      Walk(next, at % 0x1_0000_0000, limit, p % LZ_DICT_SIZE, m)
    decreases m
  {
    hide Hash3, Newest, HashAt, Chains, Link;
    if m > 0 {
      var q := Newest(s, start, p, HashAt(s, at));
      NextInChain(next, hash, s, start, n, p);
      if !(q < 0 || q % 0x1_0000 == 0 || at - q > limit) {
        StoredDistance(at, q);
        OlderVisited(next, hash, s, start, n, q, at, limit, m - 1);
      }
    }
  }

  lemma NextInChain(next: seq<u16>, hash: seq<u16>, s: seq<byte>, start: nat, n: nat, p: nat)
    requires Chains(next, hash, s, start, n) && start <= p < n <= p + LZ_DICT_SIZE && p + 2 < |s|
    ensures |next| == LZ_DICT_SIZE
    ensures var q := Newest(s, start, p, HashAt(s, p));
      q >= 0 ==> next[p % LZ_DICT_SIZE] == q % 0x1_0000
  {
    hide Hash3, Newest, HashAt;
  }

  lemma StoredDistance(at: nat, q: nat)
    requires q < at <= q + LZ_DICT_SIZE
    ensures (at % 0x1_0000_0000 - q % 0x1_0000) % 0x1_0000 == at - q
    ensures q % 0x1_0000 % LZ_DICT_SIZE == q % LZ_DICT_SIZE
  {
    var a, r := DivMod(at, 0x1_0000_0000);
    var b, t := DivMod(q, 0x1_0000);
    var x: int, k: int := r as int - t as int, b as int - 65536 * a;
    WholeSteps(x, k, at - q);
    var c, u := DivMod(t, 32768);
    DivUnique(q, 32768, 2 * b + c, u);
  }

  lemma WholeSteps(x: int, k: int, r: nat)
    requires x == 0x1_0000 * k + r && r < 0x1_0000
    ensures x % 0x1_0000 == r
  {
  }

  // ---------------------------------------------------------------- the longest match

  /** How many bytes from `at` on agree with those `dist` before, at most `max`. */
  function Agreement(s: seq<byte>, at: nat, dist: nat, max: nat): (n: nat)
    requires 1 <= dist <= at && at + max <= |s|
    ensures n <= max && (forall i :: at <= i < at + n ==> Repeats(s, dist, i))
    ensures n < max ==> !Repeats(s, dist, at + n)
    decreases max
  {
    if max == 0 || !Repeats(s, dist, at) then 0 else 1 + Agreement(s, at + 1, dist, max - 1)
  }

  lemma {:induction false} AgreementIs(s: seq<byte>, at: nat, dist: nat, max: nat, n: nat)
    requires 1 <= dist <= at && at + max <= |s| && n <= max && forall i :: at <= i < at + n ==> Repeats(s, dist, i)
    requires n < max ==> !Repeats(s, dist, at + n)
    ensures Agreement(s, at, dist, max) == n
    decreases max
  {
    if n > 0 {
      assert Repeats(s, dist, at);
      AgreementIs(s, at + 1, dist, max - 1, n - 1);
    }
  }

  lemma {:induction false} AgreementAtMost(s: seq<byte>, at: nat, dist: nat, max: nat, k: nat)
    requires 1 <= dist <= at && at + max <= |s| && k < max && !Repeats(s, dist, at + k)
    ensures Agreement(s, at, dist, max) <= k
    decreases max
  {
    if k > 0 { AgreementAtMost(s, at + 1, dist, max - 1, k - 1); }
  }

  /** None of the distances gives an agreement of more than `len` bytes. */
  ghost predicate NoneLonger(s: seq<byte>, at: nat, max: nat, ds: seq<nat>, len: nat) {
    at + max <= |s| && forall i :: 0 <= i < |ds| ==> 1 <= ds[i] <= at && Agreement(s, at, ds[i], max) <= len
  }

  /** The longest agreement at one of the distances, if it is longer than `least`, and the first distance with it;
      otherwise nothing. */
  ghost predicate Longest(s: seq<byte>, at: nat, max: nat, ds: seq<nat>, least: nat, dist: nat, len: nat) {
    && NoneLonger(s, at, max, ds, len)
    && if dist == 0 then len == least else len > least && exists i: nat :: FirstAt(s, at, max, ds, i, dist, len)
  }

  ghost predicate FirstAt(s: seq<byte>, at: nat, max: nat, ds: seq<nat>, i: nat, dist: nat, len: nat) {
    && at + max <= |s| && i < |ds| && 1 <= ds[i] == dist <= at && Agreement(s, at, dist, max) == len
    && forall j :: 0 <= j < i ==> 1 <= ds[j] <= at && Agreement(s, at, ds[j], max) < len
  }

  lemma NothingYet(s: seq<byte>, at: nat, max: nat, least: nat)
    requires at + max <= |s|
    ensures Longest(s, at, max, [], least, 0, least)
  {
  }

  /** More distances, none of which gives more. */
  lemma NotLonger(s: seq<byte>, at: nat, max: nat, ds: seq<nat>, more: seq<nat>, least: nat, dist: nat, len: nat)
    requires Longest(s, at, max, ds, least, dist, len) && ds <= more && NoneLonger(s, at, max, more, len)
    ensures Longest(s, at, max, more, least, dist, len)
  {
    hide Agreement;
    if dist != 0 {
      var i: nat :| FirstAt(s, at, max, ds, i, dist, len);
      assert FirstAt(s, at, max, more, i, dist, len);
    }
  }

  /** A new distance that gives more than all before. */
  lemma NowLonger(s: seq<byte>, at: nat, max: nat, ds: seq<nat>, least: nat, was: nat, d: nat, len: nat)
    requires NoneLonger(s, at, max, ds, was) && 0 < d <= at && Agreement(s, at, d, max) == len > was >= least
    ensures Longest(s, at, max, ds + [d], least, d, len)
  {
    hide Agreement;
    assert FirstAt(s, at, max, ds + [d], |ds|, d, len);
  }

  lemma NoneLongerOne(s: seq<byte>, at: nat, max: nat, ds: seq<nat>, d: nat, len: nat)
    requires NoneLonger(s, at, max, ds, len) && 1 <= d <= at && Agreement(s, at, d, max) <= len
    ensures NoneLonger(s, at, max, ds + [d], len)
  {
    hide Agreement;
  }

  /** Nothing gives more than everything. */
  lemma NoneLongerAll(s: seq<byte>, at: nat, max: nat, ds: seq<nat>)
    requires at + max <= |s| && forall i :: 0 <= i < |ds| ==> 1 <= ds[i] <= at
    ensures NoneLonger(s, at, max, ds, max)
  {
  }
}
