/** The decompressor's symbol loop: literals, matches, end of block. It is safe for every input and
    every pair of tables; on the coded form of a token sequence it puts out what the tokens mean. */
module InflateTokens {
  import opened Bits
  import opened PrefixCode
  import opened DecodeTable
  import opened Tokens
  import opened BitReader
  import opened OutWindow
  import L = LooseFormat
  import S = StrictForm

  datatype Status = Done | Failed | NoInput | NoRoom | Mismatch

  // ---------------------------------------------------------------- what is ahead

  /** The rest of the input is the form of the items `rem`, the end of the block, and `after`; with the output so
      far they stand for `target`. All symbols are given by their words. */
  ghost predicate Ahead(rest: seq<bool>, all: seq<byte>, lit: seq<nat>, dist: seq<nat>, rem: seq<L.Item>,
                        target: seq<byte>, after: seq<bool>) {
    && L.ItemsInWords(lit, dist, rem) && Used(lit, END_OF_BLOCK)
    && L.ItemsFit(all, rem) && L.ItemsOut(all, rem) == target && rest == Coded(lit, rem, after)
  }

  /** The form of `rem`, the end of the block, and what follows. */
  ghost function Coded(lit: seq<nat>, rem: seq<L.Item>, after: seq<bool>): seq<bool>
    requires Used(lit, END_OF_BLOCK)
  {
    L.ItemsBits(rem) + (Word(lit, END_OF_BLOCK) + after)
  }

  /** The symbol that comes next. */
  function NextSym(rem: seq<L.Item>): nat { if rem == [] then END_OF_BLOCK else rem[0].sym }

  /** What follows the symbol of a match. */
  function MatchTail(it: L.Item): seq<bool> { it.lenBits + (it.distCode + it.distBits) }

  lemma SymAhead(rest: seq<bool>, all: seq<byte>, lit: seq<nat>, dist: seq<nat>, rem: seq<L.Item>, target: seq<byte>,
                 after: seq<bool>)
    requires Ahead(rest, all, lit, dist, rem, target, after)
    ensures Used(lit, NextSym(rem)) && Word(lit, NextSym(rem)) <= rest
    ensures rem == [] ==> rest[|Word(lit, NextSym(rem))|..] == after && all == target
    ensures all <= target
    ensures NextSym(rem) < |lit| && |after| + lit[NextSym(rem)] <= |rest|
  {
    hide *;
    AheadParts(rest, all, lit, dist, rem, target, after);
    L.ItemsGrow(all, rem);
    if rem != [] {
      HeadAhead(rest, all, lit, dist, rem, target, after);
      HeadWord(lit, dist, rem, after);
    } else {
      EndAhead(all, lit, after);
    }
  }

  lemma AheadParts(rest: seq<bool>, all: seq<byte>, lit: seq<nat>, dist: seq<nat>, rem: seq<L.Item>,
                   target: seq<byte>, after: seq<bool>)
    requires Ahead(rest, all, lit, dist, rem, target, after)
    ensures L.ItemsInWords(lit, dist, rem) && Used(lit, END_OF_BLOCK)
    ensures L.ItemsFit(all, rem) && L.ItemsOut(all, rem) == target && rest == Coded(lit, rem, after)
  {
  }

  lemma IsAhead(rest: seq<bool>, all: seq<byte>, lit: seq<nat>, dist: seq<nat>, rem: seq<L.Item>,
                target: seq<byte>, after: seq<bool>)
    requires L.ItemsInWords(lit, dist, rem) && Used(lit, END_OF_BLOCK)
    requires L.ItemsFit(all, rem) && L.ItemsOut(all, rem) == target && rest == Coded(lit, rem, after)
    ensures Ahead(rest, all, lit, dist, rem, target, after)
  {
  }

  lemma HeadWord(lit: seq<nat>, dist: seq<nat>, rem: seq<L.Item>, after: seq<bool>)
    requires rem != [] && L.ItemInWords(lit, dist, rem[0]) && Used(lit, END_OF_BLOCK)
    ensures NextSym(rem) == rem[0].sym && Used(lit, rem[0].sym) && rem[0].code == Word(lit, rem[0].sym)
    ensures rem[0].sym < |lit| && |rem[0].code| == lit[rem[0].sym]
    ensures |after| <= |Coded(lit, rem[1..], after)|
  {
    hide L.ItemsBits, L.Item.Valid;
  }

  lemma EndAhead(all: seq<byte>, lit: seq<nat>, after: seq<bool>)
    requires Used(lit, END_OF_BLOCK)
    ensures NextSym([]) == END_OF_BLOCK < |lit| && |Word(lit, END_OF_BLOCK)| == lit[END_OF_BLOCK]
    ensures Coded(lit, [], after) == Word(lit, END_OF_BLOCK) + after
    ensures L.ItemsFit(all, []) && L.ItemsOut(all, []) == all
  {
  }

  /** After the length symbol of a match: its extra bits, and the distance. */
  ghost predicate MatchAhead(rest: seq<bool>, all: seq<byte>, lit: seq<nat>, dist: seq<nat>, rem: seq<L.Item>,
                             target: seq<byte>, after: seq<bool>) {
    && rem != [] && END_OF_BLOCK < rem[0].sym < 288 && rem[0].IsMatch(dist)
    && L.IsWord(dist, rem[0].distCode, rem[0].distSym) && rem[0].Fits(all)
    && L.ItemsInWords(lit, dist, rem[1..]) && Used(lit, END_OF_BLOCK)
    && L.ItemsFit(rem[0].Step(all), rem[1..]) && L.ItemsOut(rem[0].Step(all), rem[1..]) == target
    && rest == MatchTail(rem[0]) + Coded(lit, rem[1..], after)
  }

  lemma HeadAhead(rest: seq<bool>, all: seq<byte>, lit: seq<nat>, dist: seq<nat>, rem: seq<L.Item>, target: seq<byte>,
                  after: seq<bool>)
    requires Ahead(rest, all, lit, dist, rem, target, after) && rem != []
    ensures L.ItemInWords(lit, dist, rem[0]) && rem[0].Fits(all)
    ensures L.ItemsInWords(lit, dist, rem[1..]) && Used(lit, END_OF_BLOCK)
    ensures L.ItemsFit(rem[0].Step(all), rem[1..]) && L.ItemsOut(rem[0].Step(all), rem[1..]) == target
    ensures rest == rem[0].code + (MatchTail(rem[0]) + Coded(lit, rem[1..], after))
  {
    hide *;
    AheadParts(rest, all, lit, dist, rem, target, after);
    L.ItemsHead(all, rem);
    HeadInWords(lit, dist, rem);
    HeadCoded(lit, rem, after);
  }

  lemma HeadInWords(lit: seq<nat>, dist: seq<nat>, rem: seq<L.Item>)
    requires L.ItemsInWords(lit, dist, rem) && rem != []
    ensures L.ItemInWords(lit, dist, rem[0]) && L.ItemsInWords(lit, dist, rem[1..])
  {
    hide L.ItemInWords;
  }

  lemma HeadCoded(lit: seq<nat>, rem: seq<L.Item>, after: seq<bool>)
    requires Used(lit, END_OF_BLOCK) && rem != []
    ensures Coded(lit, rem, after) == rem[0].code + (MatchTail(rem[0]) + Coded(lit, rem[1..], after))
  {
    L.ItemsBitsHead(rem);
    hide L.ItemsBits, Word;
    var it, more, end := rem[0], L.ItemsBits(rem[1..]), Word(lit, END_OF_BLOCK) + after;
    assert it.Bits() == it.code + MatchTail(it);
    assert it.code + MatchTail(it) + more + end == it.code + (MatchTail(it) + (more + end));
  }

  lemma DropPrefix(rest: seq<bool>, a: seq<bool>, b: seq<bool>)
    requires rest == a + b
    ensures |a| <= |rest| && rest[|a|..] == b
  {
  }

  lemma LitAhead(rest: seq<bool>, all: seq<byte>, lit: seq<nat>, dist: seq<nat>, rem: seq<L.Item>, target: seq<byte>,
                 after: seq<bool>)
    requires Ahead(rest, all, lit, dist, rem, target, after) && rem != [] && rem[0].sym < END_OF_BLOCK
    ensures Used(lit, rem[0].sym) && lit[rem[0].sym] <= |rest| && END_OF_BLOCK == 256
    ensures Ahead(rest[lit[rem[0].sym]..], all + [rem[0].sym], lit, dist, rem[1..], target, after)
  {
    hide *;
    HeadAhead(rest, all, lit, dist, rem, target, after);
    HeadWord(lit, dist, rem, after);
    LitStep(lit, dist, rem[0], all);
    var next := Coded(lit, rem[1..], after);
    assert rest == rem[0].code + next;
    DropPrefix(rest, rem[0].code, next);
    IsAhead(next, all + [rem[0].sym], lit, dist, rem[1..], target, after);
  }

  lemma LitStep(lit: seq<nat>, dist: seq<nat>, it: L.Item, all: seq<byte>)
    requires L.ItemInWords(lit, dist, it) && it.sym < END_OF_BLOCK && it.Fits(all)
    ensures MatchTail(it) == [] && it.Step(all) == all + [it.sym] && END_OF_BLOCK == 256
  {
  }

  lemma LenAhead(rest: seq<bool>, all: seq<byte>, lit: seq<nat>, dist: seq<nat>, rem: seq<L.Item>, target: seq<byte>,
                 after: seq<bool>)
    requires Ahead(rest, all, lit, dist, rem, target, after) && rem != [] && rem[0].sym >= END_OF_BLOCK
    ensures Used(lit, rem[0].sym) && lit[rem[0].sym] <= |rest| && END_OF_BLOCK == 256 && rem[0].sym > 256
    ensures MatchAhead(rest[lit[rem[0].sym]..], all, lit, dist, rem, target, after)
  {
    hide *;
    HeadAhead(rest, all, lit, dist, rem, target, after);
    HeadWord(lit, dist, rem, after);
    var tail := MatchTail(rem[0]) + Coded(lit, rem[1..], after);
    DropPrefix(rest, rem[0].code, tail);
    IsMatchAhead(tail, all, lit, dist, rem, target, after);
  }

  lemma IsMatchAhead(rest: seq<bool>, all: seq<byte>, lit: seq<nat>, dist: seq<nat>, rem: seq<L.Item>,
                     target: seq<byte>, after: seq<bool>)
    requires rem != [] && L.ItemInWords(lit, dist, rem[0]) && rem[0].sym >= END_OF_BLOCK && rem[0].Fits(all)
    requires L.ItemsInWords(lit, dist, rem[1..]) && Used(lit, END_OF_BLOCK)
    requires L.ItemsFit(rem[0].Step(all), rem[1..]) && L.ItemsOut(rem[0].Step(all), rem[1..]) == target
    requires rest == MatchTail(rem[0]) + Coded(lit, rem[1..], after)
    ensures END_OF_BLOCK == 256 && rem[0].sym > 256 && MatchAhead(rest, all, lit, dist, rem, target, after)
  {
    hide L.ItemsFit, L.ItemsOut, L.ItemsBits, L.ItemsInWords, Word, L.Item.Step, Coded;
  }

  // ---------------------------------------------------------------- reading

  /** Decodes a symbol; if symbol `s` is next in the input, the result is `s`, unless its bits are not
      all supplied. */
  method DecodeSym(r: BitReader, t: HuffTable, ghost s: nat, ghost live: bool)
      returns (ok: bool, sym: nat, ghost code: seq<bool>)
    requires r.Valid() && t.Valid() && (live ==> Used(t.sizes, s) && Word(t.sizes, s) <= r.Rest())
    modifies r`cur, r`end, r`bitBuf, r`numBits
    ensures r.Valid() && |r.Rest()| <= |old(r.Rest())|
    ensures if ok then sym < 288 && (sym != 0 ==> sym < |t.sizes| && |r.Rest()| < |old(r.Rest())|) else r.Spent()
    ensures live && ok ==>
      sym == s && t.sizes[s] <= |old(r.Rest())| && r.Rest() == old(r.Rest())[t.sizes[s]..]
    ensures live && !ok ==> |old(r.Rest())| < t.sizes[s] + r.Missing()
    ensures ok ==> Reads(t.sizes, code, sym) && old(r.Rest()) == code + r.Rest()
  {
    hide HuffTable.Valid, Word, BytesBits, Reads;
    ok, sym := r.HuffDecode(t);
    code := if ok then old(r.Rest())[..r.Pos() - old(r.Pos())] else [];
  }

  /** The same from the bit buffer, when it is known to hold enough bits. */
  method DecodeFast(r: BitReader, t: HuffTable, ghost s: nat, ghost live: bool)
      returns (sym: nat, ghost code: seq<bool>)
    requires r.Valid() && t.Valid() && r.numBits >= MAX_BITS
    requires live ==> Used(t.sizes, s) && Word(t.sizes, s) <= r.Rest()
    modifies r`bitBuf, r`numBits
    ensures r.Valid() && |r.Rest()| <= |old(r.Rest())| && r.numBits >= old(r.numBits) - MAX_BITS
    ensures sym < 288 && (sym != 0 ==> sym < |t.sizes| && |r.Rest()| < |old(r.Rest())|)
    ensures live ==> sym == s && t.sizes[s] <= |old(r.Rest())| && r.Rest() == old(r.Rest())[t.sizes[s]..]
    ensures Reads(t.sizes, code, sym) && old(r.Rest()) == code + r.Rest()
  {
    hide HuffTable.Valid, Word, BytesBits, Reads;
    sym := r.DecodeBuffered(t);
    code := old(r.Rest())[..r.Pos() - old(r.Pos())];
  }

  /** Reads `n` extra bits; if the low bits of `x` are next in the input, it is those. */
  method ReadExtra(r: BitReader, n: nat, ghost x: nat, ghost live: bool) returns (ok: bool, b: nat)
    requires r.Valid() && n <= 16 && (live ==> BitsOf(LowBits(x, n), n) <= r.Rest())
    modifies r`cur, r`end, r`bitBuf, r`numBits
    ensures r.Valid() && |r.Rest()| <= |old(r.Rest())| && (if ok then b < Pow2(n) else r.Spent())
    ensures live && ok ==> b == LowBits(x, n) && r.Rest() == old(r.Rest())[n..]
    ensures !ok ==> |old(r.Rest())| < n + r.Missing()
    ensures ok ==> old(r.Rest()) == BitsOf(b, n) + r.Rest()
  {
    if n == 0 {
      LowBitsNone(x);
      assert BitsOf(0, 0) + r.Rest() == r.Rest();
      return true, 0;
    }
    hide BytesBits, BitsOf, LowBits, Pow2;
    ok, b := r.GetBits(n);
    if live && ok {
      assert old(r.Rest())[..n] == BitsOf(LowBits(x, n), n);
      SplitBits(x, n, n);
      ValOfBits(b, n);
      ValOfBits(LowBits(x, n), n);
    }
  }

  lemma LowBitsNone(x: nat)
    ensures LowBits(x, 0) == 0 && BitsOf(LowBits(x, 0), 0) == [] && Pow2(0) == 1
  {
  }

  /** The decompressor's objects do not share arrays. */
  ghost predicate Separate(o: OutWindow, t: HuffTable) {
    o.buf as object != t.lookup as object && o.buf as object != t.tree as object
  }

  /** The output will not run out of room before it is `target`. */
  ghost predicate Enough(o: OutWindow, target: seq<byte>) {
    |target| <= if o.wrapping then o.budget else o.buf.Length
  }

  /** Decoding towards `target` has stopped: the input up to `after` is not all supplied, or there is no
      room for `target`. */
  ghost predicate Stopped(r: BitReader, o: OutWindow, st: Status, target: seq<byte>, after: seq<bool>) {
    (st == NoInput && r.Lacks(after)) || (st == NoRoom && !Enough(o, target))
  }

  lemma StoppedIs(r: BitReader, o: OutWindow, target: seq<byte>, after: seq<bool>)
    ensures r.Lacks(after) ==> Stopped(r, o, NoInput, target, after)
    ensures !Enough(o, target) ==> Stopped(r, o, NoRoom, target, after)
  {
  }

  lemma LacksRest(r: BitReader, rest: seq<bool>, tail: seq<bool>, n: nat)
    requires |rest| < n + r.Missing() && n + |tail| <= |rest|
    ensures r.Lacks(tail)
  {
  }

  /** Reads the extra bits of a length. */
  method ReadLength(r: BitReader, sym: nat) returns (ok: bool, len: nat, ghost bits: seq<bool>)
    requires r.Valid() && 257 <= sym < 288
    modifies r`cur, r`end, r`bitBuf, r`numBits
    ensures r.Valid() && |r.Rest()| <= |old(r.Rest())| && (!ok ==> r.Spent())
    ensures !ok ==> |old(r.Rest())| < LENGTH_EXTRA[sym - 257] + r.Missing()
    ensures ok ==> |bits| == LENGTH_EXTRA[sym - 257] && len == LENGTH_BASE[sym - 257] + Val(bits)
    ensures ok ==> old(r.Rest()) == bits + r.Rest()
  {
    hide *;
    LengthTable(sym);
    var numExtra := LENGTH_EXTRA[sym - 257];
    len := LENGTH_BASE[sym - 257];
    var extra;
    ok, extra := ReadExtra(r, numExtra, 0, false);
    bits := BitsOf(extra, numExtra);
    if ok { ValOfBits(extra, numExtra); }
    len := len + extra;
  }

  /** Reads the extra bits of a distance. */
  method ReadDistance(r: BitReader, sym: nat) returns (ok: bool, d: nat, ghost bits: seq<bool>)
    requires r.Valid() && sym < 32
    modifies r`cur, r`end, r`bitBuf, r`numBits
    ensures r.Valid() && |r.Rest()| <= |old(r.Rest())| && (!ok ==> r.Spent())
    ensures !ok ==> |old(r.Rest())| < DIST_EXTRA[sym] + r.Missing()
    ensures ok ==> |bits| == DIST_EXTRA[sym] && d == DIST_BASE[sym] + Val(bits) && old(r.Rest()) == bits + r.Rest()
  {
    hide *;
    DistTable(sym);
    var numExtra := DIST_EXTRA[sym];
    d := DIST_BASE[sym];
    var extra;
    ok, extra := ReadExtra(r, numExtra, 0, false);
    bits := BitsOf(extra, numExtra);
    if ok { ValOfBits(extra, numExtra); }
    d := d + extra;
  }

  lemma LengthTable(sym: nat)
    requires 257 <= sym < 288
    ensures |LENGTH_EXTRA| == |LENGTH_BASE| == 31 && LENGTH_EXTRA[sym - 257] <= 5
  {
  }

  lemma DistTable(sym: nat)
    requires sym < 32
    ensures |DIST_EXTRA| == |DIST_BASE| == 32 && DIST_EXTRA[sym] <= 13
  {
  }

  /** The rest of the match `t` is next in the input, and then `tail`. */
  ghost predicate TailAhead(rest: seq<bool>, dist: seq<nat>, sym: nat, t: L.Item, tail: seq<bool>) {
    && END_OF_BLOCK < t.sym == sym < 288 && t.IsMatch(dist) && L.IsWord(dist, t.distCode, t.distSym)
    && rest == MatchTail(t) + tail
  }

  lemma TailParts(rest: seq<bool>, dist: seq<nat>, sym: nat, t: L.Item, tail: seq<bool>)
    requires TailAhead(rest, dist, sym, t, tail)
    ensures 257 <= t.sym == sym < 288 && |LENGTH_EXTRA| == |LENGTH_BASE| == 31 && |DIST_EXTRA| == |DIST_BASE| == 32
    ensures |t.lenBits| == LENGTH_EXTRA[sym - 257] && t.distSym < 32 && |t.distBits| == DIST_EXTRA[t.distSym]
    ensures Used(dist, t.distSym) && t.distCode == Word(dist, t.distSym) && t.distSym < |dist|
    ensures |t.distCode| == dist[t.distSym]
    ensures t.Len() == LENGTH_BASE[sym - 257] + Val(t.lenBits) && t.Dist() == DIST_BASE[t.distSym] + Val(t.distBits)
    ensures rest == t.lenBits + (t.distCode + (t.distBits + tail))
  {
    hide Word, Val, LENGTH_EXTRA, LENGTH_BASE, DIST_EXTRA, DIST_BASE, Reads;
    TableSizes();
    assert t.lenBits + (t.distCode + t.distBits) + tail == t.lenBits + (t.distCode + (t.distBits + tail));
  }

  lemma TableSizes()
    ensures |LENGTH_EXTRA| == |LENGTH_BASE| == 31 && |DIST_EXTRA| == |DIST_BASE| == 32
  {
  }

  /** The same number of bits at the front are the same bits. */
  lemma SameFront(a: seq<bool>, x: seq<bool>, b: seq<bool>, y: seq<bool>)
    requires a + x == b + y && |a| == |b|
    ensures a == b && x == y
  {
    assert (a + x)[..|a|] == a && (a + x)[|a|..] == x && (b + y)[..|a|] == b && (b + y)[|a|..] == y;
  }

  /** Reads the rest of a match, after its length symbol `sym`, which was read from `code`. */
  method ReadMatch(r: BitReader, dist: HuffTable, sym: nat, ghost t: L.Item, ghost tail: seq<bool>, ghost live: bool,
                   ghost code: seq<bool>)
      returns (ok: bool, len: nat, d: nat, ghost it: L.Item)
    requires r.Valid() && dist.Valid() && |dist.sizes| <= 32 && 257 <= sym < 288
    requires live ==> TailAhead(r.Rest(), dist.sizes, sym, t, tail)
    modifies r`cur, r`end, r`bitBuf, r`numBits
    ensures r.Valid() && |r.Rest()| <= |old(r.Rest())| && (!ok ==> r.Spent())
    ensures live && ok ==> t.distSym < 32 && END_OF_BLOCK < t.sym < 288
    ensures live && ok ==> len == t.Len() && d == t.Dist() && r.Rest() == tail
    ensures live && !ok ==> r.Lacks(tail)
    ensures ok ==> it.code == code && it.sym == sym && it.IsMatch(dist.sizes) && len == it.Len() && d == it.Dist()
    ensures ok ==> old(r.Rest()) == it.lenBits + (it.distCode + it.distBits) + r.Rest()
  {
    hide *;
    it := L.Item(code, sym, [], [], 0, []);
    d := 0;
    EndSym();
    ghost var rest0 := r.Rest();
    if live { TailParts(rest0, dist.sizes, sym, t, tail); }
    ghost var lenBits, distCode, distBits;
    ok, len, lenBits := ReadLength(r, sym);
    if live && !ok { LacksRest(r, rest0, tail, |t.lenBits|); }
    if !ok { return; }
    ghost var rest1 := r.Rest();
    if live { SameFront(t.lenBits, t.distCode + (t.distBits + tail), lenBits, rest1); }
    var dsym;
    ok, dsym, distCode := DecodeSym(r, dist, t.distSym, live);
    if live && !ok { LacksRest(r, rest1, tail, |t.distCode|); }
    if !ok { return; }
    ghost var rest2 := r.Rest();
    if live { DropPrefix(rest1, t.distCode, t.distBits + tail); }
    ok, d, distBits := ReadDistance(r, dsym);
    if live && !ok { LacksRest(r, rest2, tail, |t.distBits|); }
    if !ok { return; }
    if live { SameFront(t.distBits, tail, distBits, r.Rest()); }
    it := L.Item(code, sym, lenBits, distCode, dsym, distBits);
    MatchRead(it, dist.sizes, len, d);
    assert rest0 == lenBits + (distCode + distBits) + r.Rest();
  }

  lemma MatchRead(it: L.Item, dist: seq<nat>, len: nat, d: nat)
    requires 257 <= it.sym < 288 && it.distSym < 32 && Reads(dist, it.distCode, it.distSym)
    requires |it.lenBits| == LENGTH_EXTRA[it.sym - 257] && len == LENGTH_BASE[it.sym - 257] + Val(it.lenBits)
    requires |it.distBits| == DIST_EXTRA[it.distSym] && d == DIST_BASE[it.distSym] + Val(it.distBits)
    ensures it.IsMatch(dist) && len == it.Len() && d == it.Dist()
  {
    hide Reads, Val, LENGTH_EXTRA, LENGTH_BASE, DIST_EXTRA, DIST_BASE;
    TableSizes();
  }

  // ---------------------------------------------------------------- the loop

  /** Where decoding the symbol `sym` leads. */
  ghost predicate AfterSym(rest: seq<bool>, all: seq<byte>, lit: seq<nat>, dist: seq<nat>, rem: seq<L.Item>,
                           target: seq<byte>, after: seq<bool>, sym: nat) {
    if sym < 256 then rem != [] && Ahead(rest, all + [sym], lit, dist, rem[1..], target, after)
    else if sym == 256 then rest == after && all == target
    else rem != [] && sym == rem[0].sym && MatchAhead(rest, all, lit, dist, rem, target, after)
  }

  lemma SymTaken(rest: seq<bool>, all: seq<byte>, lit: seq<nat>, dist: seq<nat>, rem: seq<L.Item>, target: seq<byte>,
                 after: seq<bool>, sym: nat)
    requires Ahead(rest, all, lit, dist, rem, target, after) && sym == NextSym(rem)
    ensures Used(lit, sym) && lit[sym] <= |rest| && AfterSym(rest[lit[sym]..], all, lit, dist, rem, target, after, sym)
  {
    hide Ahead, MatchAhead;
    assert END_OF_BLOCK == 256;
    SymAhead(rest, all, lit, dist, rem, target, after);
    if rem != [] {
      if rem[0].sym < 256 {
        LitAhead(rest, all, lit, dist, rem, target, after);
      } else {
        LenAhead(rest, all, lit, dist, rem, target, after);
      }
    }
  }

  method TakeSym(r: BitReader, lit: HuffTable, ghost all: seq<byte>, ghost dist: seq<nat>, ghost rem: seq<L.Item>,
                 ghost target: seq<byte>,
                 ghost after: seq<bool>, ghost live: bool) returns (ok: bool, sym: nat, ghost code: seq<bool>)
    requires r.Valid() && lit.Valid() && (live ==> Ahead(r.Rest(), all, lit.sizes, dist, rem, target, after))
    modifies r`cur, r`end, r`bitBuf, r`numBits
    ensures r.Valid() && |r.Rest()| <= |old(r.Rest())|
    ensures if ok then sym < 288 && (sym != 0 ==> |r.Rest()| < |old(r.Rest())|) else r.Spent()
    ensures live && ok ==> AfterSym(r.Rest(), all, lit.sizes, dist, rem, target, after, sym)
    ensures live && !ok ==> r.Lacks(after)
    ensures ok ==> Reads(lit.sizes, code, sym) && old(r.Rest()) == code + r.Rest()
  {
    hide *;
    ghost var rest := r.Rest();
    if live { SymAhead(rest, all, lit.sizes, dist, rem, target, after); }
    ok, sym, code := DecodeSym(r, lit, if live then NextSym(rem) else 0, live);
    if live && !ok { LacksRest(r, rest, after, lit.sizes[NextSym(rem)]); }
    if live && ok { SymTaken(rest, all, lit.sizes, dist, rem, target, after, sym); }
  }

  method TakeFast(r: BitReader, lit: HuffTable, ghost all: seq<byte>, ghost dist: seq<nat>, ghost rem: seq<L.Item>,
                  ghost target: seq<byte>,
                  ghost after: seq<bool>, ghost live: bool) returns (sym: nat, ghost code: seq<bool>)
    requires r.Valid() && lit.Valid() && (live ==> Ahead(r.Rest(), all, lit.sizes, dist, rem, target, after))
    requires r.numBits >= MAX_BITS
    modifies r`bitBuf, r`numBits
    ensures r.Valid() && |r.Rest()| <= |old(r.Rest())| && r.numBits >= old(r.numBits) - MAX_BITS
    ensures sym < 288 && (sym != 0 ==> |r.Rest()| < |old(r.Rest())|)
    ensures live ==> AfterSym(r.Rest(), all, lit.sizes, dist, rem, target, after, sym)
    ensures Reads(lit.sizes, code, sym) && old(r.Rest()) == code + r.Rest()
  {
    hide *;
    ghost var rest := r.Rest();
    if live { SymAhead(rest, all, lit.sizes, dist, rem, target, after); }
    sym, code := DecodeFast(r, lit, if live then NextSym(rem) else 0, live);
    if live { SymTaken(rest, all, lit.sizes, dist, rem, target, after, sym); }
  }

  /** Loads four bytes at once. */
  method LoadWord(r: BitReader)
    requires r.Valid() && r.end - r.cur >= 4 && r.numBits <= 30
    modifies r`cur, r`bitBuf, r`numBits
    ensures r.Valid() && r.numBits == old(r.numBits) + 32 && r.Rest() == old(r.Rest())
  {
    r.LoadByte();
    r.LoadByte();
    r.LoadByte();
    r.LoadByte();
  }

  /** One symbol, near the end of the input or of the room; a literal is put out. */
  method LiteralSlow(r: BitReader, o: OutWindow, lit: HuffTable, ghost dist: seq<nat>, ghost rem0: seq<L.Item>,
                     ghost target: seq<byte>,
                     ghost after: seq<bool>, ghost live: bool, ghost g0: L.Trace)
      returns (st: Status, more: bool, sym: nat, ghost rem: seq<L.Item>, ghost g: L.Trace, ghost code: seq<bool>)
    requires r.Valid() && o.Valid() && lit.Valid() && Separate(o, lit)
    requires Follows(o.wrapping, g0, g0, lit.sizes, dist, [], r.Rest(), o.all)
    requires live ==> Ahead(r.Rest(), o.all, lit.sizes, dist, rem0, target, after)
    modifies r`cur, r`end, r`bitBuf, r`numBits, o`cur, o`end, o`taken, o`from, o`check, o`all, o.buf
    ensures r.Valid() && o.Valid() && lit.Valid() && |r.Rest()| <= |old(r.Rest())| && old(o.all) <= o.all
    ensures st != Mismatch && (st == NoInput ==> r.Spent()) && (st == NoRoom ==> o.Full())
    ensures more ==> st == Done && |o.all| > |old(o.all)|
    ensures more && live ==> Ahead(r.Rest(), o.all, lit.sizes, dist, rem, target, after)
    ensures !more && st == Done ==> 256 <= sym < 288 && |r.Rest()| < |old(r.Rest())|
    ensures live ==> o.all <= target && (st == Done || Stopped(r, o, st, target, after))
    ensures live && st == Done && !more ==> AfterSym(r.Rest(), o.all, lit.sizes, dist, rem, target, after, sym)
    ensures st == Done ==> Follows(o.wrapping, g0, g, lit.sizes, dist, if more then [] else code, r.Rest(), o.all)
    ensures st == Done && !more ==> Reads(lit.sizes, code, sym)
    ensures live && st == NoRoom ==> |after| <= |r.Rest()|
  {
    hide *;
    SeparateArrays(o, lit);
    rem, st, more, g, code := rem0, Done, false, g0, [];
    var ok;
    if live {
      SymAhead(r.Rest(), o.all, lit.sizes, dist, rem, target, after);
      StoppedIs(r, o, target, after);
    }
    ok, sym, code := TakeSym(r, lit, o.all, dist, rem, target, after, live);
    if !ok { return NoInput, false, sym, rem, g, code; }
    FollowCode(o.wrapping, g, lit.sizes, dist, code, r.Rest(), o.all);
    if sym >= 256 { return; }
    if live { TokenLeft(r.Rest(), o.all, lit.sizes, dist, rem, target, after, sym); }
    ok := o.AwaitOutput();
    if !ok {
      if live { RoomFor(o, target); }
      return NoRoom, false, sym, rem, g, code;
    }
    if live { rem := rem[1..]; }
    FollowLiteral(o.wrapping, g, lit.sizes, dist, code, sym, r.Rest(), o.all);
    o.Put(sym);
    g := WithLiteral(g, code, sym);
    FollowsOn(o.wrapping, g0, g, g, lit.sizes, dist, [], r.Rest(), o.all);
    more := true;
  }

  /** What has been read, from where `g0` starts on, is the trace `g` and then `code`. */
  ghost predicate Follows(wrapping: bool, g0: L.Trace, g: L.Trace, lit: seq<nat>, dist: seq<nat>, code: seq<bool>,
                          rest: seq<bool>, all: seq<byte>) {
    g.rest == g0.rest && g.h == g0.h && (!wrapping ==> L.Traced(g, lit, dist, code, rest, all))
  }

  ghost function WithLiteral(g: L.Trace, code: seq<bool>, sym: nat): L.Trace {
    L.Trace(g.rest, g.h, g.items + [L.Item(code, sym, [], [], 0, [])])
  }

  lemma FollowCode(wrapping: bool, g: L.Trace, lit: seq<nat>, dist: seq<nat>, code: seq<bool>, rest: seq<bool>,
                   all: seq<byte>)
    requires Follows(wrapping, g, g, lit, dist, [], code + rest, all)
    ensures Follows(wrapping, g, g, lit, dist, code, rest, all)
  {
    hide L.Traced;
    if !wrapping { L.TraceCode(g, lit, dist, code, rest, all); }
  }

  lemma FollowLiteral(wrapping: bool, g: L.Trace, lit: seq<nat>, dist: seq<nat>, code: seq<bool>, sym: nat,
                      rest: seq<bool>, all: seq<byte>)
    requires Follows(wrapping, g, g, lit, dist, code, rest, all) && Reads(lit, code, sym) && sym < 256
    ensures var n := WithLiteral(g, code, sym);
      n.rest == g.rest && n.h == g.h && Follows(wrapping, n, n, lit, dist, [], rest, all + [sym])
  {
    var it := L.Item(code, sym, [], [], 0, []);
    assert it.Valid(lit, dist) && it.Fits(all) && it.Step(all) == all + [sym];
    hide L.Traced, Reads;
    assert [] + ([] + []) + rest == rest;
    if !wrapping { L.TraceItem(g, lit, dist, it, rest, all); }
  }

  lemma FollowMatch(wrapping: bool, g: L.Trace, lit: seq<nat>, dist: seq<nat>, it: L.Item, rest: seq<bool>,
                    h: seq<byte>, all: seq<byte>)
    requires Follows(wrapping, g, g, lit, dist, it.code, it.lenBits + (it.distCode + it.distBits) + rest, h)
    requires Reads(lit, it.code, it.sym) && it.IsMatch(dist)
    requires !wrapping ==> 1 <= it.Dist() <= |h| && all == Copy(h, it.Dist(), it.Len())
    ensures Follows(wrapping, g, L.Trace(g.rest, g.h, g.items + [it]), lit, dist, [], rest, all)
  {
    assert it.Valid(lit, dist) && (!wrapping ==> it.Fits(h) && it.Step(h) == all);
    hide L.Traced, Reads;
    if !wrapping { L.TraceItem(g, lit, dist, it, rest, h); }
  }

  lemma EndSym()
    ensures END_OF_BLOCK == 256
  {
  }

  /** Only the start of `g0` matters. */
  lemma FollowsOn(wrapping: bool, g0: L.Trace, g1: L.Trace, g: L.Trace, lit: seq<nat>, dist: seq<nat>,
                  code: seq<bool>, rest: seq<bool>, all: seq<byte>)
    requires g1.rest == g0.rest && g1.h == g0.h
    ensures Follows(wrapping, g1, g, lit, dist, code, rest, all) ==>
      && Follows(wrapping, g0, g, lit, dist, code, rest, all) && Follows(wrapping, g, g, lit, dist, code, rest, all)
      && g.rest == g0.rest && g.h == g0.h && (!wrapping ==> L.Traced(g, lit, dist, code, rest, all))
  {
    hide L.Traced;
  }

  lemma FollowsIs(wrapping: bool, g0: L.Trace, g: L.Trace, lit: seq<nat>, dist: seq<nat>, code: seq<bool>,
                  rest: seq<bool>, all: seq<byte>)
    requires g.rest == g0.rest && g.h == g0.h && L.Traced(g, lit, dist, code, rest, all)
    ensures Follows(wrapping, g0, g, lit, dist, code, rest, all)
  {
    hide L.Traced;
  }

  /** Two symbols at once, while there is enough input and room. */
  method LiteralPair(r: BitReader, o: OutWindow, lit: HuffTable, ghost dist: seq<nat>, ghost rem0: seq<L.Item>,
                     ghost target: seq<byte>,
                     ghost after: seq<bool>, ghost live: bool, ghost g0: L.Trace)
      returns (more: bool, sym: nat, ghost rem: seq<L.Item>, ghost g: L.Trace, ghost code: seq<bool>)
    requires r.Valid() && o.Valid() && lit.Valid() && Separate(o, lit)
    requires Follows(o.wrapping, g0, g0, lit.sizes, dist, [], r.Rest(), o.all)
    requires r.end - r.cur >= 4 && o.end - o.cur >= 2
    requires live ==> Ahead(r.Rest(), o.all, lit.sizes, dist, rem0, target, after)
    modifies r`cur, r`end, r`bitBuf, r`numBits, o`cur, o`end, o`taken, o`from, o`check, o`all, o.buf
    ensures r.Valid() && o.Valid() && lit.Valid() && |r.Rest()| <= |old(r.Rest())| && old(o.all) <= o.all
    ensures more ==> |o.all| > |old(o.all)| && (live ==> Ahead(r.Rest(), o.all, lit.sizes, dist, rem, target, after))
    ensures !more ==> 256 <= sym < 288 && |r.Rest()| < |old(r.Rest())|
    ensures live && !more ==> AfterSym(r.Rest(), o.all, lit.sizes, dist, rem, target, after, sym)
    ensures live ==> o.all <= target
    ensures Follows(o.wrapping, g0, g, lit.sizes, dist, if more then [] else code, r.Rest(), o.all)
    ensures !more ==> Reads(lit.sizes, code, sym)
  {
    hide *;
    Fifteen();
    SeparateArrays(o, lit);
    rem, more, g := rem0, false, g0;
    if live { SymAhead(r.Rest(), o.all, lit.sizes, dist, rem, target, after); }
    if r.numBits < 30 { LoadWord(r); }
    sym, code := TakeFast(r, lit, o.all, dist, rem, target, after, live);
    FollowCode(o.wrapping, g, lit.sizes, dist, code, r.Rest(), o.all);
    if sym >= 256 { return; }
    FollowLiteral(o.wrapping, g, lit.sizes, dist, code, sym, r.Rest(), o.all);
    g := WithLiteral(g, code, sym);
    if live {
      FirstLiteral(r.Rest(), o.all, lit.sizes, dist, rem, target, after, sym);
      rem := rem[1..];
    }
    var sym2; ghost var code2;
    sym2, code2 := TakeFast(r, lit, o.all + [sym], dist, rem, target, after, live);
    FollowCode(o.wrapping, g, lit.sizes, dist, code2, r.Rest(), o.all + [sym]);
    o.Put(sym);
    FollowsOn(o.wrapping, g0, g, g, lit.sizes, dist, code2, r.Rest(), o.all);
    if sym2 >= 256 { return false, sym2, rem, g, code2; }
    if live {
      FirstLiteral(r.Rest(), o.all, lit.sizes, dist, rem, target, after, sym2);
      rem := rem[1..];
    }
    FollowLiteral(o.wrapping, g, lit.sizes, dist, code2, sym2, r.Rest(), o.all);
    o.Put(sym2);
    g := WithLiteral(g, code2, sym2);
    FollowsOn(o.wrapping, g0, g, g, lit.sizes, dist, [], r.Rest(), o.all);
    more := true;
  }

  lemma Fifteen()
    ensures MAX_BITS == 15
  {
  }

  lemma FirstLiteral(rest: seq<bool>, all: seq<byte>, lit: seq<nat>, dist: seq<nat>, rem: seq<L.Item>,
                     target: seq<byte>,
                     after: seq<bool>, sym: nat)
    requires AfterSym(rest, all, lit, dist, rem, target, after, sym) && sym < 256
    ensures rem != [] && Ahead(rest, all + [sym], lit, dist, rem[1..], target, after) && all + [sym] <= target
  {
    hide Ahead, MatchAhead;
    SymAhead(rest, all + [sym], lit, dist, rem[1..], target, after);
  }

  /** Puts literals out until a symbol that is not a literal; two at a time while there is enough
      input and room, which comes to the same. */
  method DecodeLiterals(r: BitReader, o: OutWindow, lit: HuffTable, ghost dist: seq<nat>, ghost rem0: seq<L.Item>,
                        ghost target: seq<byte>,
                        ghost after: seq<bool>, ghost live: bool, ghost g0: L.Trace)
      returns (st: Status, sym: nat, ghost rem: seq<L.Item>, ghost g: L.Trace, ghost code: seq<bool>)
    requires r.Valid() && o.Valid() && lit.Valid() && Separate(o, lit)
    requires Follows(o.wrapping, g0, g0, lit.sizes, dist, [], r.Rest(), o.all)
    requires live ==> Ahead(r.Rest(), o.all, lit.sizes, dist, rem0, target, after)
    modifies r`cur, r`end, r`bitBuf, r`numBits, o`cur, o`end, o`taken, o`from, o`check, o`all, o.buf
    ensures r.Valid() && o.Valid() && lit.Valid() && |r.Rest()| <= |old(r.Rest())| && old(o.all) <= o.all
    ensures st != Mismatch && (st == NoInput ==> r.Spent()) && (st == NoRoom ==> o.Full())
    ensures st == Done ==> 256 <= sym < 288 && |r.Rest()| < |old(r.Rest())|
    ensures live ==> o.all <= target && (st == Done || Stopped(r, o, st, target, after))
    ensures live && st == Done ==> AfterSym(r.Rest(), o.all, lit.sizes, dist, rem, target, after, sym)
    ensures st == Done ==> Follows(o.wrapping, g0, g, lit.sizes, dist, code, r.Rest(), o.all)
    ensures st == Done ==> Reads(lit.sizes, code, sym)
    ensures live && st == NoRoom ==> |after| <= |r.Rest()|
  {
    hide *;
    ghost var limit := (if o.wrapping then o.budget + 32768 else o.buf.Length);
    rem, g, code := rem0, g0, [];
    st, sym := Done, 0;
    while true
      invariant r.Valid() && o.Valid() && lit.Valid() && |r.Rest()| <= |old(r.Rest())| && old(o.all) <= o.all
      invariant st == Done
      invariant live ==> Ahead(r.Rest(), o.all, lit.sizes, dist, rem, target, after)
      invariant Follows(o.wrapping, g, g, lit.sizes, dist, [], r.Rest(), o.all) && g.rest == g0.rest && g.h == g0.h
      decreases limit - |o.all|
    {
      OutBound(o);
      var more;
      ghost var g1 := g;
      if r.end - r.cur < 4 || o.end - o.cur < 2 {
        st, more, sym, rem, g, code := LiteralSlow(r, o, lit, dist, rem, target, after, live, g);
      } else {
        more, sym, rem, g, code := LiteralPair(r, o, lit, dist, rem, target, after, live, g);
      }
      FollowsOn(o.wrapping, g0, g1, g, lit.sizes, dist, if more then [] else code, r.Rest(), o.all);
      if !more { return; }
    }
  }

  lemma OutBound(o: OutWindow)
    requires o.Valid()
    ensures |o.all| <= if o.wrapping then o.budget + 32768 else o.buf.Length
  {
  }

  lemma RoomFor(o: OutWindow, target: seq<byte>)
    requires o.Full() && |o.all| < |target|
    ensures !Enough(o, target)
  {
  }

  /** As long as tokens are left, the output is not complete. */
  lemma TokenLeft(rest: seq<bool>, all: seq<byte>, lit: seq<nat>, dist: seq<nat>, rem: seq<L.Item>, target: seq<byte>,
                  after: seq<bool>, sym: nat)
    requires AfterSym(rest, all, lit, dist, rem, target, after, sym) && sym < 256
    ensures rem != [] && all + [sym] <= target && Ahead(rest, all + [sym], lit, dist, rem[1..], target, after)
    ensures |after| <= |rest|
  {
    hide Ahead, MatchAhead;
    SymAhead(rest, all + [sym], lit, dist, rem[1..], target, after);
  }

  lemma SeparateArrays(o: OutWindow, t: HuffTable)
    requires Separate(o, t)
    ensures o.buf as object != t.lookup as object && o.buf as object != t.tree as object
  {
  }

  /** What `MatchAhead` says about the parts. */
  lemma MatchParts(rest: seq<bool>, all: seq<byte>, lit: seq<nat>, dist: seq<nat>, rem: seq<L.Item>, target: seq<byte>,
                   after: seq<bool>)
    requires MatchAhead(rest, all, lit, dist, rem, target, after)
    ensures rem != [] && END_OF_BLOCK < rem[0].sym < 288 && rem[0].distSym < 32 && Used(lit, END_OF_BLOCK)
    ensures 1 <= rem[0].Dist() <= |all| && rem[0].Dist() <= LZ_DICT_SIZE
    ensures TailAhead(rest, dist, rem[0].sym, rem[0], Coded(lit, rem[1..], after))
    ensures var next := Copy(all, rem[0].Dist(), rem[0].Len());
      Ahead(Coded(lit, rem[1..], after), next, lit, dist, rem[1..], target, after) && next <= target
    ensures |after| <= |Coded(lit, rem[1..], after)|
  {
    hide *;
    MatchAheadParts(rest, all, lit, dist, rem, target, after);
    var it := rem[0];
    DistSmall(it, dist, all);
    L.ItemsGrow(it.Step(all), rem[1..]);
    MatchStep(it, all);
    AfterCoded(lit, rem[1..], after);
    IsAhead(Coded(lit, rem[1..], after), it.Step(all), lit, dist, rem[1..], target, after);
    IsTailAhead(rest, dist, it, Coded(lit, rem[1..], after));
  }

  lemma MatchAheadParts(rest: seq<bool>, all: seq<byte>, lit: seq<nat>, dist: seq<nat>, rem: seq<L.Item>,
                        target: seq<byte>, after: seq<bool>)
    requires MatchAhead(rest, all, lit, dist, rem, target, after)
    ensures rem != [] && END_OF_BLOCK < rem[0].sym < 288 && rem[0].IsMatch(dist)
    ensures L.IsWord(dist, rem[0].distCode, rem[0].distSym) && rem[0].Fits(all)
    ensures L.ItemsInWords(lit, dist, rem[1..]) && Used(lit, END_OF_BLOCK)
    ensures L.ItemsFit(rem[0].Step(all), rem[1..]) && L.ItemsOut(rem[0].Step(all), rem[1..]) == target
    ensures rest == MatchTail(rem[0]) + Coded(lit, rem[1..], after)
  {
  }

  lemma MatchStep(it: L.Item, all: seq<byte>)
    requires END_OF_BLOCK < it.sym < 288 && it.Fits(all)
    ensures it.distSym < 32 && 1 <= it.Dist() <= |all| && it.Step(all) == Copy(all, it.Dist(), it.Len())
    ensures |Copy(all, it.Dist(), it.Len())| >= |all|
  {
    hide L.Item.Dist, L.Item.Len;
  }

  lemma AfterCoded(lit: seq<nat>, rem: seq<L.Item>, after: seq<bool>)
    requires Used(lit, END_OF_BLOCK)
    ensures |after| <= |Coded(lit, rem, after)|
  {
    hide L.ItemsBits, Word;
  }

  lemma IsTailAhead(rest: seq<bool>, dist: seq<nat>, t: L.Item, tail: seq<bool>)
    requires END_OF_BLOCK < t.sym < 288 && t.IsMatch(dist) && L.IsWord(dist, t.distCode, t.distSym)
    requires rest == MatchTail(t) + tail
    ensures TailAhead(rest, dist, t.sym, t, tail)
  {
  }

  lemma DistSmall(it: L.Item, dist: seq<nat>, all: seq<byte>)
    requires END_OF_BLOCK < it.sym < 288 && it.IsMatch(dist) && it.Fits(all)
    ensures it.distSym < 32 && 1 <= it.Dist() <= LZ_DICT_SIZE
  {
    S.RealDistance(it, all);
    ValBound(it.distBits);
    S.DistRange(it.distSym, Val(it.distBits));
  }

  /** Copies the match that was read, unless it refers to before the start of the output. */
  method CopyChecked(o: OutWindow, d: nat, len: nat) returns (st: Status)
    requires o.Valid()
    modifies o`cur, o`end, o`taken, o`from, o`check, o`all, o.buf
    ensures o.Valid() && old(o.all) <= o.all
    ensures 1 <= d <= |old(o.all)| && d <= LZ_DICT_SIZE ==> st == Done || st == NoRoom
    ensures st == Done && 1 <= d <= |old(o.all)| && d <= LZ_DICT_SIZE ==> o.all == Copy(old(o.all), d, len)
    ensures 1 <= d <= |old(o.all)| && d <= LZ_DICT_SIZE ==> o.all <= Copy(old(o.all), d, len)
    ensures st == Done && !o.wrapping ==> 1 <= d <= |old(o.all)| && o.all == Copy(old(o.all), d, len)
    ensures st != NoInput && st != Mismatch && (st == NoRoom ==> o.Full() && |o.all| < |old(o.all)| + len)
  {
    if !o.wrapping && (d == 0 || d > o.cur || o.cur == 0) {
      return Failed;
    }
    var ok := o.CopyMatch(d, len);
    st := if ok then Done else NoRoom;
  }

  /** The compressed data of a block (RFC 1951 section 3.2.3): if what comes next in the input is the
      coded form of tokens that can follow the output, the output is extended by what they mean, as far
      as input and room go. */
  method DecodeTokens(r: BitReader, o: OutWindow, lit: HuffTable, dist: HuffTable, ghost items: seq<L.Item>,
                      ghost target: seq<byte>,
                      ghost after: seq<bool>, ghost live: bool)
      returns (st: Status, ghost g: L.Trace, ghost end: seq<bool>)
    requires r.Valid() && o.Valid() && lit.Valid() && dist.Valid() && Separate(o, lit) && Separate(o, dist)
    requires |dist.sizes| <= 32
    requires live ==> Ahead(r.Rest(), o.all, lit.sizes, dist.sizes, items, target, after)
    modifies r`cur, r`end, r`bitBuf, r`numBits, o`cur, o`end, o`taken, o`from, o`check, o`all, o.buf
    ensures r.Valid() && o.Valid() && lit.Valid() && dist.Valid() && |r.Rest()| <= |old(r.Rest())|
    ensures old(o.all) <= o.all && st != Mismatch && (st == NoInput ==> r.Spent()) && (st == NoRoom ==> o.Full())
    ensures live ==> o.all <= target && (st == Done || Stopped(r, o, st, target, after))
    ensures live && st == Done ==> r.Rest() == after && o.all == target
    ensures st == Done && !o.wrapping ==> L.Traced(g, lit.sizes, dist.sizes, end, r.Rest(), o.all)
    ensures st == Done ==> g.rest == old(r.Rest()) && g.h == old(o.all) && Reads(lit.sizes, end, END_OF_BLOCK)
    ensures live && st == NoRoom ==> |after| <= |r.Rest()|
  {
    hide *;
    SeparateArrays(o, lit);
    SeparateArrays(o, dist);
    ghost var rem := items;
    g, end := L.Trace(r.Rest(), o.all, []), [];
    L.StartTrace(lit.sizes, dist.sizes, r.Rest(), o.all);
    FollowsIs(o.wrapping, g, g, lit.sizes, dist.sizes, [], r.Rest(), o.all);
    while true
      invariant r.Valid() && o.Valid() && lit.Valid() && dist.Valid() && |r.Rest()| <= |old(r.Rest())|
      invariant old(o.all) <= o.all
      invariant live ==> Ahead(r.Rest(), o.all, lit.sizes, dist.sizes, rem, target, after)
      invariant Follows(o.wrapping, g, g, lit.sizes, dist.sizes, [], r.Rest(), o.all)
      invariant g.rest == old(r.Rest()) && g.h == old(o.all)
      decreases |r.Rest()|
    {
      var more;
      ghost var g1 := g;
      st, more, rem, g, end := TokenRun(r, o, lit, dist, rem, target, after, live, g);
      FollowsOn(o.wrapping, g1, g1, g, lit.sizes, dist.sizes, if more then [] else end, r.Rest(), o.all);
      if !more { return; }
    }
  }

  /** Literals and one match, or literals and the end of the block. */
  method TokenRun(r: BitReader, o: OutWindow, lit: HuffTable, dist: HuffTable, ghost rem0: seq<L.Item>,
                  ghost target: seq<byte>,
                  ghost after: seq<bool>, ghost live: bool, ghost g0: L.Trace)
      returns (st: Status, more: bool, ghost rem: seq<L.Item>, ghost g: L.Trace, ghost code: seq<bool>)
    requires r.Valid() && o.Valid() && lit.Valid() && dist.Valid() && Separate(o, lit) && Separate(o, dist)
    requires Follows(o.wrapping, g0, g0, lit.sizes, dist.sizes, [], r.Rest(), o.all)
    requires |dist.sizes| <= 32
    requires live ==> Ahead(r.Rest(), o.all, lit.sizes, dist.sizes, rem0, target, after)
    modifies r`cur, r`end, r`bitBuf, r`numBits, o`cur, o`end, o`taken, o`from, o`check, o`all, o.buf
    ensures r.Valid() && o.Valid() && lit.Valid() && dist.Valid() && |r.Rest()| <= |old(r.Rest())|
    ensures old(o.all) <= o.all && st != Mismatch && (st == NoInput ==> r.Spent()) && (st == NoRoom ==> o.Full())
    ensures more ==> |r.Rest()| < |old(r.Rest())|
    ensures more && live ==> Ahead(r.Rest(), o.all, lit.sizes, dist.sizes, rem, target, after)
    ensures live ==> o.all <= target && (st == Done || Stopped(r, o, st, target, after))
    ensures live && !more && st == Done ==> r.Rest() == after && o.all == target
    ensures more ==> st == Done
    ensures st == Done ==> Follows(o.wrapping, g0, g, lit.sizes, dist.sizes, if more then [] else code, r.Rest(), o.all)
    ensures st == Done && !more ==> Reads(lit.sizes, code, END_OF_BLOCK)
    ensures live && st == NoRoom ==> |after| <= |r.Rest()|
  {
    hide *;
    SeparateArrays(o, lit);
    SeparateArrays(o, dist);
    more := false;
    var sym;
    st, sym, rem, g, code := DecodeLiterals(r, o, lit, dist.sizes, rem0, target, after, live, g0);
    if st != Done { return; }
    if live { SymCases(r.Rest(), o.all, lit.sizes, dist.sizes, rem, target, after, sym); }
    EndSym();
    if sym == 256 { return; }
    ghost var t, tail, h := if live then rem[0] else L.Item([], 0, [], [], 0, []), [], o.all;
    if live {
      MatchParts(r.Rest(), o.all, lit.sizes, dist.sizes, rem, target, after);
      tail := Coded(lit.sizes, rem[1..], after);
      r.LacksIs(tail);
      r.LacksIs(after);
      StoppedIs(r, o, target, after);
    }
    ghost var all := o.all;
    var ok, len, d; ghost var it;
    ok, len, d, it := ReadMatch(r, dist, sym, t, tail, live, code);
    if !ok { return NoInput, false, rem, g, code; }
    st := CopyChecked(o, d, len);
    if st == Done {
      FollowsOn(o.wrapping, g0, g0, g, lit.sizes, dist.sizes, code,
                it.lenBits + (it.distCode + it.distBits) + r.Rest(), all);
      FollowMatch(o.wrapping, g, lit.sizes, dist.sizes, it, r.Rest(), all, o.all);
      FollowsOn(o.wrapping, g0, g, L.Trace(g.rest, g.h, g.items + [it]), lit.sizes, dist.sizes, [], r.Rest(), o.all);
      g := L.Trace(g.rest, g.h, g.items + [it]);
    }
    if live {
      NoRoomLeft(o, target, h, d, len, st);
      rem := rem[1..];
    }
    more := st == Done;
  }

  lemma SymCases(rest: seq<bool>, all: seq<byte>, lit: seq<nat>, dist: seq<nat>, rem: seq<L.Item>, target: seq<byte>,
                 after: seq<bool>, sym: nat)
    requires AfterSym(rest, all, lit, dist, rem, target, after, sym) && sym >= 256
    ensures sym == 256 ==> rest == after && all == target
    ensures sym != 256 ==> rem != [] && sym == rem[0].sym && MatchAhead(rest, all, lit, dist, rem, target, after)
    ensures LZ_DICT_SIZE == 32768
  {
  }

  lemma NoRoomLeft(o: OutWindow, target: seq<byte>, h: seq<byte>, d: nat, len: nat, st: Status)
    requires 1 <= d <= |h| && o.all <= Copy(h, d, len) <= target && (st == Done || st == NoRoom)
    requires st == NoRoom ==> o.Full() && |o.all| < |h| + len
    ensures o.all <= target && (st == NoRoom ==> !Enough(o, target))
  {
  }
}
