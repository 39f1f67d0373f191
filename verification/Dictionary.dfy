/** The compressor's sliding window: a circular buffer whose first 257 bytes are mirrored behind its
    end, hash chains, and the search for the longest match (`tdefl_find_match`). */
module Dictionary {
  import opened Bits
  import opened Tokens
  import opened HashChains

  const MIRRORED: nat := 257

  class Dictionary {
    const dict: array<byte>
    const next: array<u16>
    const hash: array<u16>
    var lookaheadPos: u32     // where the next token starts
    var lookaheadSize: nat    // bytes loaded after that
    var dictSize: nat         // bytes before that which may be referred to
    ghost var seen: seq<byte> // everything loaded so far
    ghost var pos: nat        // the lookahead position, not wrapped around
    ghost var start: nat      // nothing before this position may be referred to

    constructor ()
      ensures Valid() && seen == [] && pos == 0 && NoLinks() && fresh(dict) && fresh(next) && fresh(hash)
    {
      dict := new byte[33025](_ => 0);
      next := new u16[32768](_ => 0);
      hash := new u16[32768](_ => 0);
      lookaheadPos, lookaheadSize, dictSize := 0, 0, 0;
      seen, pos, start := [], 0, 0;
      new;
      hide Chains;
      NoChains(next[..], hash[..], seen, 0);
    }

    ghost predicate Shape() {
      dict.Length == LZ_DICT_SIZE + MIRRORED && next.Length == LZ_DICT_SIZE && hash.Length == HASH_SIZE &&
      next != hash &&
      dict as object != next as object && dict as object != hash as object
    }

    /** Byte `i` of the data is still in the buffer. */
    ghost predicate Kept(i: nat)
      reads this`seen, dict
      requires dict.Length == LZ_DICT_SIZE + MIRRORED
    {
      i < |seen| && dict[i % LZ_DICT_SIZE] == seen[i]
    }

    ghost predicate InBuffer(i: nat)
      reads this`seen
    {
      i < |seen| <= i + LZ_DICT_SIZE
    }

    /** The last 32768 bytes are in the buffer, and its head is mirrored behind its end. */
    ghost predicate Circular()
      reads this`seen, dict
    {
      && Shape()
      && (forall i: nat :: InBuffer(i) ==> Kept(i))
      && (forall j :: 0 <= j < MIRRORED ==> dict[LZ_DICT_SIZE + j] == dict[j])
    }

    ghost predicate Valid()
      reads this, dict, next, hash
    {
      && Circular() && lookaheadPos == pos % 0x1_0000_0000 && pos + lookaheadSize == |seen|
      && lookaheadSize <= MAX_MATCH_LEN && start <= pos && dictSize == Min(pos - start, LZ_DICT_SIZE - lookaheadSize)
      && Chained()
    }

    /** Positions are in the chains as soon as the three bytes there are loaded. */
    ghost function Inserted(): (n: nat)
      reads this`seen, this`start
      ensures n >= start && (n == start || n + 2 == |seen|)
    {
      if start + 2 <= |seen| then |seen| - 2 else start
    }

    /** There are no chains yet, or no longer. */
    ghost predicate NoLinks()
      reads next, hash
    {
      && (forall i :: 0 <= i < next.Length ==> next[i] == 0)
      && (forall i :: 0 <= i < hash.Length ==> hash[i] == 0)
    }

    ghost predicate Chained()
      reads this`seen, this`start, next, hash
    {
      Chains(next[..], hash[..], seen, start, Inserted())
    }

    /** The data at `at` repeats the data `dist` bytes before it, for `len` bytes. */
    ghost predicate IsMatch(at: nat, dist: nat, len: nat)
      reads this`seen
    {
      1 <= dist <= at && at + len <= |seen| && forall i: nat :: at <= i < at + len ==> Repeats(seen, dist, i)
    }

    // -------------------------------------------------------------- loading

    /** Appends one byte to the circular buffer, and mirrors it if it is near the beginning. */
    method Append(dst: nat, c: byte)
      requires Circular() && dst == |seen| % LZ_DICT_SIZE
      modifies this`seen, dict
      ensures Circular() && seen == old(seen) + [c] && next[..] == old(next[..]) && hash[..] == old(hash[..])
    {
      dict[dst] := c;
      if dst < MIRRORED {
        dict[LZ_DICT_SIZE + dst] := c;
      }
      ghost var was := seen;
      seen := seen + [c];
      forall i: nat | InBuffer(i) ensures Kept(i) {
        if i < |was| {
          assert old(InBuffer(i)) && old(Kept(i));
          OtherPlace(i, |was|);
        }
      }
    }

    /** Links position `p`, which is `ins` wrapped around at 32 bits, into the chain of its hash value. */
    method Insert(ins: u32, h: nat, ghost p: nat)
      requires Shape() && ins == p % 0x1_0000_0000 && start <= p && p + 2 < |seen| && h == HashAt(seen, p)
      requires Chains(next[..], hash[..], seen, start, p)
      modifies next, hash
      ensures Chains(next[..], hash[..], seen, start, p + 1)
    {
      hide Chains, HashAt;
      ghost var ns: seq<u16>, hs: seq<u16> := next[..], hash[..];
      StoredPlace(p);
      next[ins % LZ_DICT_SIZE] := hash[h];
      hash[h] := ins % 0x1_0000;
      assert next[..] == ns[p % LZ_DICT_SIZE := hs[h]] && hash[..] == hs[h := Link(p)];
      ChainsInsert(ns, hs, seen, start, p);
    }

    /** Loads input until the lookahead is full, and keeps the hash chains up to date. */
    method LoadFast(src: seq<byte>, from: nat) returns (n: nat)
      requires Circular() && from <= |src| && lookaheadPos == pos % 0x1_0000_0000
      requires pos + lookaheadSize == |seen| && lookaheadSize <= MAX_MATCH_LEN && dictSize <= pos
      requires 2 <= lookaheadSize + dictSize && start + 2 <= |seen| && Chained()
      modifies this`seen, this`lookaheadSize, dict, next, hash
      ensures Circular() && Chained() && n == Min(|src| - from, MAX_MATCH_LEN - old(lookaheadSize))
      ensures lookaheadSize == old(lookaheadSize) + n
      ensures seen == old(seen) + src[from..from + n]
    {
      hide *;
      WindowSize();
      ghost var was, size := seen, lookaheadSize;
      var dst, ins, h := StartLoad();
      n := Min(|src| - from, MAX_MATCH_LEN - lookaheadSize);
      lookaheadSize := lookaheadSize + n;
      for i := 0 to n
        invariant Circular() && seen == was + src[from..from + i] && lookaheadSize == size + n
        invariant Chained() && start + 2 <= |seen| && Loading(dst, ins, h)
      {
        dst, ins, h := LoadByte(dst, ins, h, src[from + i]);
      }
    }

    /** Ready to load the next byte. */
    ghost predicate Loading(dst: nat, ins: u32, h: nat)
      reads this`seen
    {
      && |seen| >= 2 && dst == |seen| % LZ_DICT_SIZE && ins == (|seen| - 2) % 0x1_0000_0000
      && Rolled(h, seen[|seen| - 2], seen[|seen| - 1])
    }

    /** Where the next byte goes, which position gets its hash value next, and the bytes before it. */
    method StartLoad() returns (dst: nat, ins: u32, h: nat)
      requires Circular() && lookaheadPos == pos % 0x1_0000_0000 && pos + lookaheadSize == |seen| && |seen| >= 2
      ensures Loading(dst, ins, h)
    {
      hide BitXor, Shl;
      WrappedPlace(pos, lookaheadSize);
      WrappedSum(pos, lookaheadSize - 2);
      StoredPlace(|seen| - 2);
      WrappedPlace(|seen| - 2, 1);
      LastTwo();
      dst := (lookaheadPos + lookaheadSize) % LZ_DICT_SIZE;
      ins := (lookaheadPos + lookaheadSize - 2) % 0x1_0000_0000;
      h := BitXor(Shl(dict[ins % LZ_DICT_SIZE], HASH_SHIFT), dict[(ins + 1) % LZ_DICT_SIZE]);
    }

    lemma LastTwo()
      requires Circular() && |seen| >= 2
      ensures dict[(|seen| - 2) % LZ_DICT_SIZE] == seen[|seen| - 2]
      ensures dict[(|seen| - 1) % LZ_DICT_SIZE] == seen[|seen| - 1]
    {
      assert Kept(|seen| - 2) && Kept(|seen| - 1);
    }

    /** One byte goes into the buffer, and one position into the hash chains. */
    method LoadByte(dst: nat, ins: u32, h: nat, c: byte) returns (dst': nat, ins': u32, h': nat)
      requires Circular() && Chained() && start + 2 <= |seen| && Loading(dst, ins, h)
      modifies this`seen, dict, next, hash
      ensures Circular() && Chained() && seen == old(seen) + [c] && Loading(dst', ins', h')
    {
      hide *;
      ghost var p := |seen| - 2;
      LoadingParts(dst, ins, h, c);
      ChainedParts();
      ChainsGrow(next[..], hash[..], seen, c, start, p);
      Append(dst, c);
      h' := BitXor(Shl(h, HASH_SHIFT), c) % HASH_SIZE;
      Insert(ins, h', p);
      dst' := (dst + 1) % LZ_DICT_SIZE;
      ins' := (ins + 1) % 0x1_0000_0000;
      NextLoading(p, dst, ins, dst', ins', h');
      IsChained();
    }

    lemma LoadingParts(dst: nat, ins: u32, h: nat, c: byte)
      requires Circular() && Loading(dst, ins, h)
      ensures Shape() && |seen| >= 2 && dst == |seen| % LZ_DICT_SIZE && ins == (|seen| - 2) % 0x1_0000_0000
      ensures LZ_DICT_SIZE == 32768 && HASH_SIZE > 0
      ensures BitXor(Shl(h, HASH_SHIFT), c) % HASH_SIZE == HashAt(seen + [c], |seen| - 2)
      ensures Rolled(HashAt(seen + [c], |seen| - 2), seen[|seen| - 1], c)
    {
      RollHash(h, seen[|seen| - 2], seen[|seen| - 1], c);
      hide Circular, Rolled, Hash3, BitXor, Shl;
    }

    lemma ChainedParts()
      requires start + 2 <= |seen|
      ensures Chained() <==> Chains(next[..], hash[..], seen, start, |seen| - 2)
    {
    }

    lemma IsChained()
      requires start + 2 <= |seen| && Chains(next[..], hash[..], seen, start, |seen| - 2)
      ensures Chained()
    {
    }

    lemma NextLoading(p: nat, dst: nat, ins: u32, dst': nat, ins': nat, h: nat)
      requires |seen| == p + 3 && dst == (p + 2) % LZ_DICT_SIZE && ins == p % 0x1_0000_0000
      requires dst' == (dst + 1) % LZ_DICT_SIZE && ins' == (ins + 1) % 0x1_0000_0000
      requires Rolled(h, seen[p + 1], seen[p + 2])
      ensures ins' < 0x1_0000_0000 && Loading(dst', ins', h)
    {
      NextPlaces(p);
      hide Rolled;
    }

    /** The same at the very beginning, before there is enough data for a first hash value. */
    method LoadSlow(src: seq<byte>, from: nat) returns (n: nat)
      requires Circular() && from <= |src| && lookaheadPos == pos % 0x1_0000_0000
      requires pos + lookaheadSize == |seen| && lookaheadSize <= MAX_MATCH_LEN && start <= pos
      requires dictSize == pos - start
      requires Chained()
      modifies this`seen, this`lookaheadSize, dict, next, hash
      ensures Circular() && Chained() && n == Min(|src| - from, MAX_MATCH_LEN - old(lookaheadSize))
      ensures lookaheadSize == old(lookaheadSize) + n
      ensures seen == old(seen) + src[from..from + n]
    {
      ghost var was, size := seen, lookaheadSize;
      n := 0;
      hide *;
      WindowSize();
      while from + n < |src| && lookaheadSize < MAX_MATCH_LEN
        invariant from + n <= |src| && Circular() && Chained() && seen == was + src[from..from + n]
        invariant lookaheadSize == size + n <= MAX_MATCH_LEN && pos + lookaheadSize == |seen|
      {
        LoadByteSlow(src[from + n]);
        n := n + 1;
      }
    }

    /** One byte goes into the buffer, and its position into the chains if there are three bytes. */
    method LoadByteSlow(c: byte)
      requires Circular() && Chained() && lookaheadPos == pos % 0x1_0000_0000 && pos + lookaheadSize == |seen|
      requires start <= pos && dictSize == pos - start
      modifies this`seen, this`lookaheadSize, dict, next, hash
      ensures Circular() && Chained() && seen == old(seen) + [c] && lookaheadSize == old(lookaheadSize) + 1
    {
      hide *;
      WindowSize();
      WrappedPlace(pos, lookaheadSize);
      ghost var was, n := seen, Inserted();
      ChainedAt();
      ChainsGrow(next[..], hash[..], seen, c, start, n);
      Append((lookaheadPos + lookaheadSize) % LZ_DICT_SIZE, c);
      lookaheadSize := lookaheadSize + 1;
      if lookaheadSize + dictSize >= MIN_MATCH_LEN {
        ghost var p := |seen| - 3;
        FirstHash(p, c);
        WrappedSum(pos, lookaheadSize - 3);
        StoredPlace(p);
        WrappedPlace(p, 1);
        var ins: u32 := (lookaheadPos + (lookaheadSize - 1) - 2) % 0x1_0000_0000;
        var h: nat := BitXor(
          BitXor(Shl(dict[ins % LZ_DICT_SIZE], 2 * HASH_SHIFT), Shl(dict[(ins + 1) % LZ_DICT_SIZE], HASH_SHIFT)), c);
        Insert(ins, h % HASH_SIZE, p);
      }
      ChainedAt();
    }

    lemma ChainedAt()
      ensures Chained() <==> Chains(next[..], hash[..], seen, start, Inserted())
      ensures Inserted() == if start + 2 <= |seen| then |seen| - 2 else start
    {
      hide Chains;
    }

    lemma FirstHash(p: nat, c: byte)
      requires Circular() && |seen| == p + 3 && seen[p + 2] == c
      ensures Shape() && dict[p % LZ_DICT_SIZE] == seen[p] && dict[(p + 1) % LZ_DICT_SIZE] == seen[p + 1]
      ensures HASH_SIZE > 0 && dict.Length > LZ_DICT_SIZE == 32768
      ensures
        var a, b := dict[p % LZ_DICT_SIZE], dict[(p + 1) % LZ_DICT_SIZE];
        HashAt(seen, p) == BitXor(BitXor(Shl(a, 2 * HASH_SHIFT), Shl(b, HASH_SHIFT)), c) % HASH_SIZE
    {
      assert Kept(p) && Kept(p + 1);
      hide BitXor, Shl;
    }

    /** Loads as much input as the lookahead takes. */
    method Load(src: seq<byte>, from: nat) returns (n: nat)
      requires Valid() && from <= |src|
      modifies this`seen, this`lookaheadSize, this`dictSize, dict, next, hash
      ensures Valid() && from + n <= |src| && seen == old(seen) + src[from..from + n]
      ensures from + n == |src| || lookaheadSize == MAX_MATCH_LEN
      ensures lookaheadSize == old(lookaheadSize) + n
    {
      hide Circular, Chained;
      if lookaheadSize + dictSize >= MIN_MATCH_LEN - 1 {
        n := LoadFast(src, from);
      } else {
        n := LoadSlow(src, from);
      }
      dictSize := Min(LZ_DICT_SIZE - lookaheadSize, dictSize);
    }

    /** Moves the lookahead over the bytes of a token. */
    method Advance(len: nat)
      requires Valid() && len <= lookaheadSize
      modifies this`lookaheadPos, this`lookaheadSize, this`dictSize, this`pos
      ensures Valid() && pos == old(pos) + len && lookaheadSize == old(lookaheadSize) - len
      ensures dictSize == old(dictSize) + len
    {
      hide Circular, Chained;
      lookaheadPos := (lookaheadPos + len) % 0x1_0000_0000;
      lookaheadSize := lookaheadSize - len;
      dictSize := Min(dictSize + len, LZ_DICT_SIZE);
      pos := pos + len;
    }

    /** Forgets everything before the lookahead (after a full flush). */
    method Forget()
      requires Valid() && lookaheadSize == 0
      modifies this`dictSize, this`start, next, hash
      ensures Valid() && dictSize == 0 && start == pos && NoLinks()
    {
      hide Chains;
      forall i | 0 <= i < next.Length { next[i] := 0; }
      forall i | 0 <= i < hash.Length { hash[i] := 0; }
      dictSize, start := 0, pos;
      NoChains(next[..], hash[..], seen, start);
    }

    // -------------------------------------------------------------- searching

    /** Place `x`, in the buffer or in its mirror, holds byte `i`. */
    lemma ByteAt(x: nat, i: nat)
      requires Circular() && x < LZ_DICT_SIZE + MIRRORED && x % LZ_DICT_SIZE == i % LZ_DICT_SIZE && InBuffer(i)
      ensures dict[x] == seen[i]
    {
      assert Kept(i);
      if x >= LZ_DICT_SIZE { assert dict[LZ_DICT_SIZE + (x - LZ_DICT_SIZE)] == dict[x - LZ_DICT_SIZE]; }
    }

    /** The lookahead byte `k` is at place `cur + k`; the byte `dist` before it at `probe + k`. */
    lemma Compared(cur: nat, probe: nat, dist: nat, k: nat)
      requires Valid() && k < lookaheadSize && cur == lookaheadPos % LZ_DICT_SIZE && dist <= dictSize
      requires probe < LZ_DICT_SIZE && (probe + dist) % LZ_DICT_SIZE == cur % LZ_DICT_SIZE
      ensures cur + k < dict.Length && probe + k < dict.Length
      ensures dict[cur + k] == seen[pos + k] && dict[probe + k] == seen[pos + k - dist]
    {
      WrappedPlace(pos, 0);
      WrappedPlace(pos, k);
      Places(pos, cur, probe, dist, k);
      hide Circular;
      ByteAt(cur + k, pos + k);
      ByteAt(probe + k, pos + k - dist);
    }

    /** A stretch of equal bytes is a match. */
    lemma MatchFound(cur: nat, probe: nat, dist: nat, len: nat)
      requires Valid() && len <= lookaheadSize && cur == lookaheadPos % LZ_DICT_SIZE && 1 <= dist <= dictSize
      requires probe < LZ_DICT_SIZE && (probe + dist) % LZ_DICT_SIZE == cur % LZ_DICT_SIZE && probe + len <= dict.Length
      requires cur + len <= dict.Length
      requires forall k: nat :: k < len ==> SameAt(cur, probe, k)
      ensures IsMatch(pos, dist, len)
    {
      forall i: nat | pos <= i < pos + len ensures Repeats(seen, dist, i) {
        Compared(cur, probe, dist, i - pos);
        assert SameAt(cur, probe, i - pos);
      }
    }

    ghost predicate SameAt(a: nat, b: nat, k: nat)
      reads dict
    {
      a + k < dict.Length && b + k < dict.Length && dict[a + k] == dict[b + k]
    }

    ghost predicate RunAt(a: nat, k: nat, c: byte)
      reads dict
    {
      a + k < dict.Length && dict[a + k] == c
    }

    /** A usable result of the search: a match longer than `least`, or nothing. */
    ghost predicate Found(dist: nat, len: nat, least: nat)
      reads this
    {
      if dist == 0 then len == least else least < len <= lookaheadSize && dist <= dictSize && IsMatch(pos, dist, len)
    }

    /** The distances of the first `m` positions of the chain of the lookahead. */
    ghost function Probed(m: nat): (ds: seq<nat>)
      requires Shape()
      reads this`lookaheadPos, this`dictSize, next
    {
      Walk(next[..], lookaheadPos, dictSize, lookaheadPos % LZ_DICT_SIZE, m)
    }

    ghost predicate Probing(v: nat, ds: seq<nat>, probe: nat)
      reads this`lookaheadPos, this`dictSize, next
    {
      Shape() && Reached(next[..], lookaheadPos, dictSize, lookaheadPos % LZ_DICT_SIZE, v, ds, probe)
    }

    ghost predicate ChainEnds(probe: nat)
      reads this`lookaheadPos, this`dictSize, next
    {
      Shape() && probe < LZ_DICT_SIZE && Ends(next[..], lookaheadPos, dictSize, probe)
    }

    /** Walks the hash chain and keeps the longest match. The search looks at `v` positions, at least one for each
        probe but the last, and at most three: what it finds is the longest match at one of them that is longer
        than `matchLen`, at the first of these positions with it; it finds nothing only if there is none. */
    method FindMatch(matchLen: nat, maxProbes: nat) returns (dist: nat, len: nat, ghost v: nat)
      requires Valid() && 2 <= matchLen <= 128 && maxProbes >= 1
      ensures Found(dist, len, matchLen)
      ensures lookaheadSize <= matchLen ==> dist == 0
      ensures lookaheadSize > matchLen ==> maxProbes - 1 <= v <= 3 * (maxProbes - 1)
      ensures lookaheadSize > matchLen ==> Longest(seen, pos, lookaheadSize, Probed(v), matchLen, dist, len)
    {
      hide *;
      ValidParts();
      WindowSize();
      var cur := lookaheadPos % LZ_DICT_SIZE;
      var probesLeft: nat, probe: nat := maxProbes, cur;
      dist, len, v := 0, matchLen, 0;
      NothingFound(matchLen);
      if lookaheadSize <= matchLen { return; }
      ghost var ds: seq<nat> := [];
      StartProbing();
      NothingYet(seen, pos, lookaheadSize, matchLen);
      while true
        invariant Found(dist, len, matchLen) && 2 <= matchLen <= len < lookaheadSize && probesLeft >= 1
        invariant probe < LZ_DICT_SIZE && Probing(v, ds, probe)
        invariant maxProbes - probesLeft <= v <= 3 * (maxProbes - probesLeft)
        invariant Longest(seen, pos, lookaheadSize, ds, matchLen, dist, len)
        decreases probesLeft
      {
        ghost var v0, ds0, at := v, ds, probe;
        LongestParts(ds, matchLen, dist, len);
        var more, d;
        more, probesLeft, probe, d, v, ds, at := NextProbe(cur, probe, len, probesLeft, v, ds);
        if !more || d == 0 {
          Searched(v, ds, at, maxProbes, matchLen, dist, len, ds0);
          v := if v < maxProbes - 1 then maxProbes - 1 else v;
          return;
        }
        var n := CommonLength(cur, probe);
        CommonIs(cur, probe, d, n);
        ghost var front := ds[..|ds| - 1];
        assert ds == front + [d];
        if n > len {
          MatchFound(cur, probe, d, n);
          NowLonger(seen, pos, lookaheadSize, front, matchLen, len, d, n);
          dist, len := d, n;
          IsFound(d, n, matchLen);
          if len == lookaheadSize {
            Complete(v, ds, probe, maxProbes, matchLen, dist);
            v := if v < maxProbes - 1 then maxProbes - 1 else v;
            return;
          }
        } else {
          NoneLongerOne(seen, pos, lookaheadSize, front, d, len);
          NotLonger(seen, pos, lookaheadSize, ds0, ds, matchLen, dist, len);
        }
      }
    }

    lemma ValidParts()
      requires Valid()
      ensures Circular() && Shape() && pos + lookaheadSize == |seen| && dictSize <= pos
      ensures lookaheadSize <= MAX_MATCH_LEN
      ensures dict.Length == 33025 && dictSize <= 32768
    {
      hide Chained;
    }

    lemma NothingFound(least: nat)
      ensures Found(0, least, least)
    {
    }

    lemma IsFound(d: nat, n: nat, least: nat)
      requires least < n <= lookaheadSize && d <= dictSize && IsMatch(pos, d, n) && d > 0
      ensures Found(d, n, least)
    {
      hide IsMatch;
    }

    lemma StartProbing()
      requires Shape()
      ensures lookaheadPos % LZ_DICT_SIZE < LZ_DICT_SIZE && Probing(0, [], lookaheadPos % LZ_DICT_SIZE)
    {
      StartWalk(next[..], lookaheadPos, dictSize, lookaheadPos % LZ_DICT_SIZE);
      hide Reached;
    }

    lemma LongestParts(ds: seq<nat>, least: nat, dist: nat, len: nat)
      requires Longest(seen, pos, lookaheadSize, ds, least, dist, len)
      ensures NoneLonger(seen, pos, lookaheadSize, ds, len)
    {
    }

    /** The search has come to the end of the chain, or used up its probes. */
    lemma Searched(v: nat, ds: seq<nat>, at: nat, maxProbes: nat, least: nat, dist: nat, len: nat, ds0: seq<nat>)
      requires Probing(v, ds, at) && NoneLonger(seen, pos, lookaheadSize, ds, len) && ds0 <= ds && maxProbes >= 1
      requires v >= maxProbes - 1 || ChainEnds(at)
      requires Longest(seen, pos, lookaheadSize, ds0, least, dist, len)
      ensures Shape()
      ensures Longest(seen, pos, lookaheadSize, Probed(if v < maxProbes - 1 then maxProbes - 1 else v), least, dist,
                      len)
    {
      NotLonger(seen, pos, lookaheadSize, ds0, ds, least, dist, len);
      hide Longest, NoneLonger, Reached, Ends;
      Walked(next[..], lookaheadPos, dictSize, lookaheadPos % LZ_DICT_SIZE, v, ds, at,
             if v < maxProbes - 1 then maxProbes - 1 else v);
    }

    /** A match of all of the lookahead cannot be beaten. */
    lemma Complete(v: nat, ds: seq<nat>, at: nat, maxProbes: nat, least: nat, dist: nat)
      requires Probing(v, ds, at) && maxProbes >= 1 && dictSize <= pos && pos + lookaheadSize == |seen|
      requires Longest(seen, pos, lookaheadSize, ds, least, dist, lookaheadSize)
      ensures Shape()
      ensures Longest(seen, pos, lookaheadSize, Probed(if v < maxProbes - 1 then maxProbes - 1 else v), least, dist,
                      lookaheadSize)
    {
      hide Longest, NoneLonger, Reached;
      var m := if v < maxProbes - 1 then maxProbes - 1 else v;
      Walked(next[..], lookaheadPos, dictSize, lookaheadPos % LZ_DICT_SIZE, v, ds, at, m);
      var more := Probed(m);
      NoneLongerAll(seen, pos, lookaheadSize, more);
      NotLonger(seen, pos, lookaheadSize, ds, more, least, dist, lookaheadSize);
    }

    /** The positions that the search looks at are, to begin with, those with the hash value of the next three bytes,
        newest first, as far back as the window goes, if none of them is a multiple of 65536. */
    lemma SameHashVisited(m: nat)
      requires Valid() && lookaheadSize >= MIN_MATCH_LEN
      ensures Older(seen, start, pos, pos, dictSize, m) <= Probed(m)
    {
      ValidParts();
      assert Inserted() == pos + lookaheadSize - 2;
      StoredPlace(pos);
      OlderVisited(next[..], hash[..], seen, start, Inserted(), pos, pos, dictSize, m);
    }

    /** Follows the chain to the next position whose bytes at the end of the current match agree; those that are
        passed over cannot give a longer match. */
    method NextProbe(cur: nat, probe0: nat, len: nat, left0: nat, ghost v0: nat, ghost ds0: seq<nat>)
        returns (more: bool, left: nat, probe: nat, dist: nat, ghost v: nat, ghost ds: seq<nat>, ghost at: nat)
      requires Valid() && cur == lookaheadPos % LZ_DICT_SIZE && probe0 < LZ_DICT_SIZE && 2 <= len < lookaheadSize
      requires left0 >= 1 && Probing(v0, ds0, probe0) && NoneLonger(seen, pos, lookaheadSize, ds0, len)
      ensures more ==> 1 <= left < left0 && probe < LZ_DICT_SIZE && dist <= dictSize
      ensures more ==> (probe + dist) % LZ_DICT_SIZE == cur
      ensures Probing(v, ds, at) && ds0 <= ds && left <= left0
      ensures more && dist != 0 ==> at == probe && ds != [] && ds[|ds| - 1] == dist && ds0 <= ds[..|ds| - 1]
      ensures more && dist != 0 ==> NoneLonger(seen, pos, lookaheadSize, ds[..|ds| - 1], len)
      ensures more && dist != 0 ==> left0 - left <= v - v0 <= 3 * (left0 - left)
      ensures !(more && dist != 0) ==> NoneLonger(seen, pos, lookaheadSize, ds, len) && 0 <= v - v0 <= 3 * (left0 - 1)
      ensures !(more && dist != 0) ==> v - v0 >= left0 - 1 || ChainEnds(at)
    {
      hide *;
      ValidParts();
      WindowSize();
      var c0, c1 := dict[cur + len], dict[cur + len - 1];
      left, probe, dist, v, ds, at := left0, probe0, 0, v0, ds0, probe0;
      while true
        invariant 1 <= left <= left0 && probe < LZ_DICT_SIZE && at == probe && Probing(v, ds, probe) && ds0 <= ds
        invariant left0 - left <= v - v0 <= 3 * (left0 - left) && NoneLonger(seen, pos, lookaheadSize, ds, len)
        decreases left
      {
        left := left - 1;
        if left == 0 { return false, left, probe, dist, v, ds, at; }
        for i := 0 to 3
          invariant 1 <= left < left0 && probe < LZ_DICT_SIZE && at == probe && Probing(v, ds, probe) && ds0 <= ds
          invariant left0 - left - 1 + i <= v - v0 <= 3 * (left0 - left - 1) + i
          invariant NoneLonger(seen, pos, lookaheadSize, ds, len)
        {
          EndsIs(probe);
          var n := next[probe];
          dist := (lookaheadPos - n) % 0x1_0000;
          if n == 0 || dist > dictSize { return false, left, probe, dist, v, ds, at; }
          probe := n % LZ_DICT_SIZE;
          ProbePlace(lookaheadPos, n);
          if dist != 0 {
            ProbeOn(v, ds, at);
            v, ds, at := v + 1, ds + [dist], probe;
          }
          PlaceInDict(probe, len);
          if dict[probe + len] == c0 && dict[probe + len - 1] == c1 { return true, left, probe, dist, v, ds, at; }
          if dist == 0 { SamePlace(cur, probe); }
          PassedOver(cur, probe, dist, len);
          NoneLongerOne(seen, pos, lookaheadSize, ds[..|ds| - 1], dist, len);
          assert ds == ds[..|ds| - 1] + [dist];
        }
      }
    }

    lemma EndsIs(probe: nat)
      requires Shape() && probe < LZ_DICT_SIZE
      ensures next.Length == LZ_DICT_SIZE
      ensures var n := next[probe];
        var d := (lookaheadPos - n) % 0x1_0000;
        ChainEnds(probe) <==> n == 0 || d == 0 || d > dictSize
    {
    }

    lemma ProbeOn(v: nat, ds: seq<nat>, at: nat)
      requires Probing(v, ds, at) && !ChainEnds(at) && at < LZ_DICT_SIZE
      ensures next.Length == LZ_DICT_SIZE
      ensures Probing(v + 1, ds + [(lookaheadPos - next[at]) % 0x1_0000], next[at] % LZ_DICT_SIZE)
    {
      hide Reached, Ends;
      WalkOn(next[..], lookaheadPos, dictSize, lookaheadPos % LZ_DICT_SIZE, v, ds, at);
    }

    lemma PlaceInDict(probe: nat, len: nat)
      requires Shape() && probe < LZ_DICT_SIZE && 1 <= len < MAX_MATCH_LEN
      ensures probe + len < dict.Length
    {
    }

    lemma SamePlace(cur: nat, probe: nat)
      requires probe < LZ_DICT_SIZE && cur == probe % LZ_DICT_SIZE
      ensures cur == probe
    {
    }

    /** A position where one of the two bytes differs gives no longer match. */
    lemma PassedOver(cur: nat, probe: nat, dist: nat, len: nat)
      requires Valid() && cur == lookaheadPos % LZ_DICT_SIZE && 1 <= len < lookaheadSize && 1 <= dist <= dictSize
      requires probe < LZ_DICT_SIZE && (probe + dist) % LZ_DICT_SIZE == cur
      requires cur + len < dict.Length && probe + len < dict.Length
      requires dict[probe + len] != dict[cur + len] || dict[probe + len - 1] != dict[cur + len - 1]
      ensures dist <= pos && pos + lookaheadSize == |seen| && Agreement(seen, pos, dist, lookaheadSize) <= len
    {
      Compared(cur, probe, dist, len);
      Compared(cur, probe, dist, len - 1);
      ValidParts();
      hide Valid;
      if dict[probe + len] != dict[cur + len] {
        AgreementAtMost(seen, pos, dist, lookaheadSize, len);
      } else {
        AgreementAtMost(seen, pos, dist, lookaheadSize, len - 1);
      }
    }

    /** How many bytes at `probe` agree with the lookahead. */
    method CommonLength(cur: nat, probe: nat) returns (n: nat)
      requires Valid() && cur < LZ_DICT_SIZE && probe < LZ_DICT_SIZE
      ensures n <= lookaheadSize && cur + n <= dict.Length && probe + n <= dict.Length
      ensures forall k: nat :: k < n ==> SameAt(cur, probe, k)
      ensures n < lookaheadSize ==> !SameAt(cur, probe, n)
    {
      n := 0;
      while n < lookaheadSize && dict[cur + n] == dict[probe + n]
        invariant n <= lookaheadSize && forall k: nat :: k < n ==> SameAt(cur, probe, k)
      {
        n := n + 1;
      }
    }

    lemma CommonIs(cur: nat, probe: nat, dist: nat, n: nat)
      requires Valid() && cur == lookaheadPos % LZ_DICT_SIZE && 1 <= dist <= dictSize && n <= lookaheadSize
      requires probe < LZ_DICT_SIZE && (probe + dist) % LZ_DICT_SIZE == cur
      requires forall k: nat :: k < n ==> SameAt(cur, probe, k)
      requires n < lookaheadSize ==> !SameAt(cur, probe, n)
      ensures dist <= pos && pos + lookaheadSize == |seen| && Agreement(seen, pos, dist, lookaheadSize) == n
    {
      ValidParts();
      forall i | pos <= i < pos + n ensures Repeats(seen, dist, i) {
        Compared(cur, probe, dist, i - pos);
        assert SameAt(cur, probe, i - pos);
      }
      if n < lookaheadSize { Compared(cur, probe, dist, n); }
      hide Valid;
      AgreementIs(seen, pos, dist, lookaheadSize, n);
    }

    /** The other search: the longest run of the byte before the lookahead, if it has three bytes or more. */
    method FindRun() returns (dist: nat, len: nat)
      requires Valid() && dictSize > 0
      ensures if dist == 0 then len == 0 else dist == 1 && MIN_MATCH_LEN <= len <= lookaheadSize && IsMatch(pos, 1, len)
      ensures 1 <= pos && pos + lookaheadSize == |seen|
      ensures var a := Agreement(seen, pos, 1, lookaheadSize);
        (dist, len) == if a < MIN_MATCH_LEN then (0, 0) else (1, a)
    {
      var cur := lookaheadPos % LZ_DICT_SIZE;
      var before := (cur - 1) % LZ_DICT_SIZE;
      var c := dict[before];
      len := 0;
      while len < lookaheadSize && dict[cur + len] == c
        invariant len <= lookaheadSize && forall k: nat :: k < len ==> RunAt(cur, k, c)
      {
        len := len + 1;
      }
      RunRepeats(cur, before, c, len);
      RunIs(cur, before, c, len);
      if len < MIN_MATCH_LEN {
        return 0, 0;
      }
      dist := 1;
    }

    lemma RunIs(cur: nat, before: nat, c: byte, len: nat)
      requires Valid() && dictSize > 0 && len <= lookaheadSize && cur == lookaheadPos % LZ_DICT_SIZE
      requires before == (cur - 1) % LZ_DICT_SIZE && c == dict[before] && IsMatch(pos, 1, len)
      requires len < lookaheadSize ==> !RunAt(cur, len, c)
      requires forall k: nat :: k < len ==> RunAt(cur, k, c)
      ensures 1 <= pos && pos + lookaheadSize == |seen| && Agreement(seen, pos, 1, lookaheadSize) == len
    {
      ValidParts();
      if len < lookaheadSize {
        Compared(cur, before, 1, len);
        Compared(cur, before, 1, 0);
        if len > 0 {
          Compared(cur, before, 1, len - 1);
          assert RunAt(cur, len - 1, c);
        }
      }
      hide Valid;
      AgreementIs(seen, pos, 1, lookaheadSize, len);
    }

    /** A run of the byte before the lookahead. */
    lemma RunRepeats(cur: nat, before: nat, c: byte, len: nat)
      requires Valid() && dictSize > 0 && len <= lookaheadSize && cur == lookaheadPos % LZ_DICT_SIZE
      requires before == (cur - 1) % LZ_DICT_SIZE && c == dict[before]
      requires forall k: nat :: k < len ==> RunAt(cur, k, c)
      ensures IsMatch(pos, 1, len)
    {
      forall i: nat | pos <= i < pos + len ensures Repeats(seen, 1, i) {
        Compared(cur, before, 1, 0);
        Compared(cur, before, 1, i - pos);
        if i > pos { Compared(cur, before, 1, i - pos - 1); assert RunAt(cur, i - pos - 1, c); }
        assert RunAt(cur, i - pos, c);
      }
    }
  }

  lemma ProbePlace(p: u32, n: u16)
    ensures (n % LZ_DICT_SIZE + (p - n) % 0x1_0000) % LZ_DICT_SIZE == p % LZ_DICT_SIZE
  {
    var q := (p - n) / 0x1_0000;
    assert p - n == 0x1_0000 * q + (p - n) % 0x1_0000;
  }

  /** Places of a lookahead byte and of the byte `dist` before it. */
  lemma Places(p: nat, cur: nat, probe: nat, dist: nat, k: nat)
    requires cur == p % LZ_DICT_SIZE && (probe + dist) % LZ_DICT_SIZE == cur % LZ_DICT_SIZE && dist <= p
    ensures (cur + k) % LZ_DICT_SIZE == (p + k) % LZ_DICT_SIZE
    ensures (probe + k) % LZ_DICT_SIZE == (p + k - dist) % LZ_DICT_SIZE
  {
    var a := p / LZ_DICT_SIZE;
    var b := (probe + dist) / LZ_DICT_SIZE;
    assert p == LZ_DICT_SIZE * a + cur && probe + dist == LZ_DICT_SIZE * b + cur;
    assert probe + k == LZ_DICT_SIZE * (b - a) + (p + k - dist);
  }

  lemma WindowSize()
    ensures LZ_DICT_SIZE == 32768 && MAX_MATCH_LEN == 258 && MIN_MATCH_LEN == 3
  {
  }

  lemma WrappedSum(p: nat, k: int)
    requires p + k >= 0
    ensures (p % 0x1_0000_0000 + k) % 0x1_0000_0000 == (p + k) % 0x1_0000_0000
  {
    var q, r := DivMod(p, 0x1_0000_0000);
    SameRemainder(r + k, p + k, q);
  }

  lemma SameRemainder(x: int, y: int, q: nat)
    requires y == x + 0x1_0000_0000 * q
    ensures x % 0x1_0000_0000 == y % 0x1_0000_0000
  {
  }

  lemma StoredPlace(p: nat)
    ensures p % 0x1_0000_0000 % LZ_DICT_SIZE == p % LZ_DICT_SIZE && p % 0x1_0000_0000 % 0x1_0000 == p % 0x1_0000
  {
    var q, r := DivMod(p, 0x1_0000_0000);
    DivUnique(p, 32768, 131072 * q + r / 32768, r % 32768);
    DivUnique(p, 0x1_0000, 65536 * q + r / 0x1_0000, r % 0x1_0000);
  }

  lemma NextPlaces(p: nat)
    ensures ((p + 2) % LZ_DICT_SIZE + 1) % LZ_DICT_SIZE == (p + 3) % LZ_DICT_SIZE
    ensures (p % 0x1_0000_0000 + 1) % 0x1_0000_0000 == (p + 1) % 0x1_0000_0000
  {
    WrappedSum(p, 1);
    var q, r := DivMod(p + 2, 32768);
    if r == 32767 { DivUnique(p + 3, 32768, q + 1, 0); } else { DivUnique(p + 3, 32768, q, r + 1); }
  }

  /** Different bytes in the buffer are at different places. */
  lemma OtherPlace(i: nat, j: nat)
    requires i < j < i + LZ_DICT_SIZE
    ensures i % LZ_DICT_SIZE != j % LZ_DICT_SIZE
  {
  }

  /** Positions may wrap around at 32 bits: their place in the buffer stays the same. */
  lemma WrappedPlace(p: nat, k: int)
    ensures (p % 0x1_0000_0000 + k) % LZ_DICT_SIZE == (p + k) % LZ_DICT_SIZE
  {
    var q, r := p / 0x1_0000_0000, p % 0x1_0000_0000;
    assert p + k == LZ_DICT_SIZE * (131072 * q) + (r + k);
  }
}
