/** The compressor (`tdefl_compress`): lazy or greedy LZ77 parsing over the sliding window, with a block
    flushed whenever the token buffer is full (`tdefl_compress_normal`). */
module Deflate {
  import opened Bits
  import opened Tokens
  import opened LzCodeBuffer
  import opened HashChains
  import opened Dictionary
  import opened DeflateFormat
  import opened BlockFlusher
  import Adler = Adler32

  // ---------------------------------------------------------------- lazy matching

  /** A match that has been found but not recorded: it starts one byte before the lookahead, and a longer one at
      the lookahead replaces it. */
  datatype Pending = Nothing | Pending(lit: byte, dist: nat, len: nat)

  /** What one parsing step records, what it leaves pending, and how far the lookahead moves. */
  datatype Choice = Choice(tokens: seq<Token>, pending: Pending, move: nat)

  /** The step after the match `(dist, len)` has been found at the lookahead, which starts with the byte `c`. */
  function Decide(before: Pending, c: byte, dist: nat, len: nat, eager: bool): Choice {
    match before
    case Pending(lit, d, n) =>
      if len <= n then Choice([Match(n, d)], Nothing, if n > 0 then n - 1 else 0)
      else if len < 128 then Choice([Lit(lit)], Pending(c, dist, len), 1)
      else Choice([Lit(lit), Match(len, dist)], Nothing, len)
    case Nothing =>
      if dist == 0 then Choice([Lit(c)], Nothing, 1)
      else if eager || len >= 128 then Choice([Match(len, dist)], Nothing, len)
      else Choice([], Pending(c, dist, len), 1)
  }

  /** How many bytes tokens stand for. */
  function Covered(ts: seq<Token>): nat {
    if ts == [] then 0 else Covered(ts[..|ts| - 1]) + (if ts[|ts| - 1].Match? then ts[|ts| - 1].len else 1)
  }

  /** A match is left pending exactly if it has less than 128 bytes, matching is lazy, and it is longer than the one
      that was pending; and it is just that match. */
  lemma DecidePending(before: Pending, c: byte, dist: nat, len: nat, eager: bool)
    requires dist == 0 && before.Pending? ==> len <= before.len
    ensures var p := Decide(before, c, dist, len, eager).pending;
      && (p.Pending? ==> p == Pending(c, dist, len))
      && (p.Pending? <==> dist > 0 && len < 128 && (if before.Pending? then len > before.len else !eager))
  {
  }

  lemma CoveredOne(t: Token)
    ensures Covered([t]) == if t.Match? then t.len else 1
  {
    assert [t][..0] == [];
  }

  /** Every byte is recorded once: what was pending and what the lookahead moves over is in the tokens, but for the
      first byte of what is pending now. */
  lemma DecideCovers(before: Pending, c: byte, dist: nat, len: nat, eager: bool)
    requires before.Pending? ==> before.len > 0
    ensures var r := Decide(before, c, dist, len, eager);
      Covered(r.tokens) + (if r.pending.Pending? then 1 else 0) == r.move + (if before.Pending? then 1 else 0)
  {
    var ts := Decide(before, c, dist, len, eager).tokens;
    if ts != [] {
      CoveredOne(ts[0]);
      if |ts| == 2 { assert ts[..1] == [ts[0]]; }
    }
  }

  /** A match is recorded where it was found only if matching is eager or it has 128 bytes, and one that is
      pending if and only if there is none longer at the next byte. */
  lemma DecideMatch(before: Pending, c: byte, dist: nat, len: nat, eager: bool, n: nat, d: nat)
    requires dist == 0 && before.Pending? ==> len <= before.len
    ensures Match(n, d) in Decide(before, c, dist, len, eager).tokens <==>
      || (n == len && d == dist && dist > 0 && (len >= 128 || (eager && before.Nothing?)) &&
          (before.Pending? ==> len > before.len))
      || (before.Pending? && n == before.len && d == before.dist && len <= before.len)
  {
  }

  class Compressor {
    const d: Dictionary
    const f: BlockFlusher
    var dictPos: u32       // m_lz_code_buf_dict_pos: where the data of the current block starts
    var savedLit: byte
    var savedDist: nat
    var savedLen: nat      // 0, or a match one byte back that a better match may replace
    var adler: u32
    var finished: bool

    constructor (d: Dictionary, f: BlockFlusher)
      requires d.Valid() && d.seen == [] && f.Valid() && f.blocks == [] && f.lz.Tokens() == [] && f.lz.totalBytes == 0
      requires f.lz.codeEnd == 1
      requires f.Outside(d.dict) && OutsideAll(d, f)
      ensures Valid() && this.d == d && this.f == f && !finished
    {
      this.d, this.f := d, f;
      dictPos, savedLit, savedDist, savedLen, adler, finished := 0, 0, 0, 0, 1, false;
      new;
      hide *;
      StartsValid();
    }

    lemma StartsValid()
      requires d.Valid() && d.seen == [] && f.Valid() && f.blocks == [] && f.lz.Tokens() == [] && f.lz.totalBytes == 0
      requires f.lz.codeEnd == 1
      requires f.Outside(d.dict) && OutsideAll(d, f)
      requires dictPos == 0 && savedLen == 0 && adler == 1
      ensures Valid()
    {
      Adler.PackUnpack(1);
      hide Dictionary.Circular, BlockFlusher.Valid, BlockFlusher.Outside, OutsideAll;
    }

    /** Every object the compressor writes. */
    ghost function Repr(): set<object> {
      {this, d, f, f.w, f.lz} + {d.dict as object, d.next as object, d.hash as object} +
      BlockFlusher.Buffers(f.w, f.lz) + BlockFlusher.Tables(f.lit, f.dist, f.len)
    }

    /** The hash chains are none of the arrays that a flush writes. */
    static ghost predicate OutsideAll(d: Dictionary, f: BlockFlusher) {
      var all := BlockFlusher.Buffers(f.w, f.lz) + BlockFlusher.Tables(f.lit, f.dist, f.len);
      d.dict as object !in all && d.next as object !in all && d.hash as object !in all
    }

    /** How many of the bytes seen are recorded as tokens or written in blocks. */
    ghost function Recorded(): int
      reads this`savedLen, d`pos
    {
      d.pos - (if savedLen > 0 then 1 else 0)
    }

    /** The blocks and the buffered tokens stand for exactly the first `rec` bytes seen. */
    ghost predicate Parsed(rec: nat)
      reads d`seen, f`blocks, f.lz
    {
      && rec <= |d.seen| && ValidStream(f.blocks) && Output(f.blocks) <= d.seen[..rec]
      && AllFit(Output(f.blocks), f.lz.Tokens()) && Expand(Output(f.blocks), f.lz.Tokens()) == d.seen[..rec]
      && f.lz.totalBytes == rec - |Output(f.blocks)|
    }

    /** The saved match: a real one, that starts one byte before the lookahead. */
    ghost predicate Saved()
      reads this`savedLen, this`savedDist, this`savedLit, d
    {
      savedLen > 0 ==>
        && MIN_MATCH_LEN <= savedLen < 128 && 1 <= d.pos <= |d.seen| && savedLit == d.seen[d.pos - 1]
        && savedDist <= LZ_DICT_SIZE && d.IsMatch(d.pos - 1, savedDist, savedLen)
    }

    ghost predicate Separate()
    {
      f.Outside(d.dict) && OutsideAll(d, f)
    }

    ghost predicate Checksum()
      reads this`adler, d`seen
    {
      f.options.zlib ==> adler == Adler.Update(1, d.seen)
    }

    ghost predicate Ready()
      reads this`dictPos, this`savedLit, this`savedDist, this`savedLen, d, d.dict, d.next, d.hash
      reads f, f.w, f.w.buf, f.lz, f.lz.buf, f.lz.litCount, f.lz.distCount
    {
      && Separate() && d.Valid() && f.Valid() && Saved() && Recorded() >= 0 && Parsed(Recorded())
      && dictPos == |Output(f.blocks)| % 0x1_0000_0000 && d.start <= |Output(f.blocks)|
    }

    /** The test that ends a block. */
    ghost predicate Full()
      reads f.lz
    {
      || f.lz.codeEnd > 65528
      || (f.lz.totalBytes > 31 * 1024 && (f.lz.codeEnd * 115 / 128 >= f.lz.totalBytes || f.options.forceRaw))
    }

    /** The invariant of the parsing loop: no block is due. */
    ghost predicate Looping()
      reads this`dictPos, this`savedLit, this`savedDist, this`savedLen, d, d.dict, d.next, d.hash
      reads f, f.w, f.w.buf, f.lz, f.lz.buf, f.lz.litCount, f.lz.distCount
    {
      Ready() && !Full()
    }

    ghost predicate Valid()
      reads this, d, d.dict, d.next, d.hash, f, f.w, f.w.buf, f.lz, f.lz.buf, f.lz.litCount, f.lz.distCount
    {
      Looping() && Checksum()
    }

    // -------------------------------------------------------------- recording

    lemma LitParsed(rec: nat, h: seq<byte>, ts: seq<Token>)
      requires rec < |d.seen| && AllFit(h, ts) && Expand(h, ts) == d.seen[..rec]
      ensures AllFit(h, ts + [Lit(d.seen[rec])]) && Expand(h, ts + [Lit(d.seen[rec])]) == d.seen[..rec + 1]
    {
      ExpandOne(h, ts, Lit(d.seen[rec]));
    }

    lemma MatchParsed(rec: nat, h: seq<byte>, ts: seq<Token>, len: nat, dist: nat)
      requires AllFit(h, ts) && rec <= |d.seen| && Expand(h, ts) == d.seen[..rec]
      requires MIN_MATCH_LEN <= len <= MAX_MATCH_LEN && dist <= LZ_DICT_SIZE && d.IsMatch(rec, dist, len)
      ensures rec + len <= |d.seen| && AllFit(h, ts + [Match(len, dist)])
      ensures Expand(h, ts + [Match(len, dist)]) == d.seen[..rec + len]
    {
      var t := Match(len, dist);
      MatchCopies(rec, len, dist);
      assert CanFollow(d.seen[..rec], t) && Step(d.seen[..rec], t) == Copy(d.seen[..rec], dist, len);
      hide *;
      ExpandOne(h, ts, t);
    }

    lemma MatchCopies(rec: nat, len: nat, dist: nat)
      requires d.IsMatch(rec, dist, len)
      ensures rec + len <= |d.seen| && Copy(d.seen[..rec], dist, len) == d.seen[..rec + len]
    {
      var all := d.seen[..rec + len];
      forall i: nat | rec <= i < rec + len ensures Repeats(all, dist, i) {
        assert Repeats(d.seen, dist, i);
      }
      CopyIs(d.seen[..rec], dist, all);
    }

    lemma AMatch(rec: nat, len: nat, dist: nat)
      requires MIN_MATCH_LEN <= len <= MAX_MATCH_LEN && dist <= LZ_DICT_SIZE && d.IsMatch(rec, dist, len)
      ensures ValidToken(Match(len, dist))
    {
    }

    /** What recording may rely on, and keeps. */
    ghost predicate Recording(rec: nat)
      reads d, d.dict, d.next, d.hash, f, f.w, f.w.buf, f.lz, f.lz.buf, f.lz.litCount, f.lz.distCount
    {
      Separate() && d.Valid() && f.Valid() && Parsed(rec)
    }

    /** Records the next byte as a literal. */
    method RecordLit(ghost rec: nat, lit: byte)
      requires Recording(rec) && rec < |d.seen| && lit == d.seen[rec] && f.lz.codeEnd + 4 <= 65536
      modifies f.lz, f.lz.buf, f.lz.litCount
      ensures Recording(rec + 1) && f.lz.codeEnd <= old(f.lz.codeEnd) + 2
      ensures f.lz.Tokens() == old(f.lz.Tokens()) + [Lit(lit)]
    {
      hide *;
      RecordingParts(rec);
      LitParsed(rec, Output(f.blocks), f.lz.Tokens());
      f.RecordLiteral(lit);
      IsRecording(rec + 1);
    }

    lemma RecordingParts(rec: nat)
      requires Recording(rec)
      ensures Separate() && d.Valid() && f.Valid() && rec <= |d.seen| && ValidStream(f.blocks)
      ensures |Output(f.blocks)| <= rec
      ensures Output(f.blocks) <= d.seen[..rec]
      ensures AllFit(Output(f.blocks), f.lz.Tokens()) && Expand(Output(f.blocks), f.lz.Tokens()) == d.seen[..rec]
      ensures f.lz.totalBytes == rec - |Output(f.blocks)|
      ensures d.dict as object != f.lz.buf as object && d.dict as object != f.lz.litCount as object
      ensures d.dict as object != f.lz.distCount as object
      ensures d.next as object != f.lz.buf as object && d.next as object != f.lz.litCount as object
      ensures d.next as object != f.lz.distCount as object
      ensures d.hash as object != f.lz.buf as object && d.hash as object != f.lz.litCount as object
      ensures d.hash as object != f.lz.distCount as object
      ensures 65536 == LZ_CODE_BUF_SIZE
    {
    }

    lemma IsRecording(rec: nat)
      requires Separate() && d.Valid() && f.Valid() && rec <= |d.seen| && ValidStream(f.blocks)
      requires |Output(f.blocks)| <= rec
      requires Output(f.blocks) <= d.seen[..rec]
      requires AllFit(Output(f.blocks), f.lz.Tokens()) && Expand(Output(f.blocks), f.lz.Tokens()) == d.seen[..rec]
      requires f.lz.totalBytes == rec - |Output(f.blocks)|
      ensures Recording(rec)
    {
    }

    /** Records a match. */
    method RecordMatch(ghost rec: nat, len: nat, dist: nat)
      requires Recording(rec) && f.lz.codeEnd + 4 <= 65536
      requires MIN_MATCH_LEN <= len <= MAX_MATCH_LEN && dist <= LZ_DICT_SIZE && d.IsMatch(rec, dist, len)
      modifies f.lz, f.lz.buf, f.lz.litCount, f.lz.distCount
      ensures Recording(rec + len) && f.lz.codeEnd <= old(f.lz.codeEnd) + 4
      ensures f.lz.Tokens() == old(f.lz.Tokens()) + [Match(len, dist)]
    {
      hide *;
      RecordingParts(rec);
      MatchParsed(rec, Output(f.blocks), f.lz.Tokens(), len, dist);
      AMatch(rec, len, dist);
      f.RecordMatch(len, dist);
      IsRecording(rec + len);
    }
  
    // -------------------------------------------------------------- one parsing step

    /** The length that a match at the lookahead has to beat. */
    ghost function Least(): (n: nat)
      reads this`savedLen
    {
      if savedLen > 0 then savedLen else 2
    }

    /** What the search may come up with. */
    ghost predicate Candidate(dist: nat, len: nat)
      reads this`savedLen, d
    {
      if dist == 0 then len <= Least()
      else MIN_MATCH_LEN <= len <= d.lookaheadSize && dist <= d.dictSize && d.IsMatch(d.pos, dist, len)
    }

    /** How many positions the search may try. */
    ghost function Probes(): (n: nat)
      reads this`savedLen
      ensures n >= 1
    {
      1 + ((if Least() >= 32 then f.options.probes / 4 else f.options.probes) + 2) / 3
    }

    /** What the options make the search look for: nothing, the longest run, or the longest match in the chain that
        is longer than what is pending. */
    ghost predicate LookedUp(dist: nat, len: nat)
      reads this`savedLen, d, d.next
    {
      var o := f.options;
      if o.forceRaw || (o.rleMatches && d.dictSize == 0) || (!o.rleMatches && d.lookaheadSize <= Least()) then
        (dist, len) == (0, Least())
      else if o.rleMatches then
        && 1 <= d.pos && d.pos + d.lookaheadSize == |d.seen|
        && var a := Agreement(d.seen, d.pos, 1, d.lookaheadSize);
           (dist, len) == if a < MIN_MATCH_LEN then (0, 0) else (1, a)
      else d.Shape() && exists v: nat :: LookedAt(v, dist, len)
    }

    /** The longest match at the first `v` positions of the chain: at least one for each probe but the last, at most
        three. */
    ghost predicate LookedAt(v: nat, dist: nat, len: nat)
      requires d.Shape()
      reads this`savedLen, d, d.next
    {
      && Probes() - 1 <= v <= 3 * (Probes() - 1)
      && Longest(d.seen, d.pos, d.lookaheadSize, d.Probed(v), Least(), dist, len)
    }

    /** Matches that are not worth recording. */
    ghost predicate Poor(dist: nat, len: nat)
      reads d`lookaheadPos
    {
      || (len == MIN_MATCH_LEN && dist >= 8192)
      || d.lookaheadPos % LZ_DICT_SIZE == dist
      || (f.options.filter && len <= 5)
    }

    /** The result of the search. */
    ghost predicate Searched(dist: nat, len: nat)
      reads this`savedLen, d, d.next
    {
      exists d0: nat, n0: nat ::
        LookedUp(d0, n0) && (if Poor(d0, n0) then dist == 0 && len == 0 else dist == d0 && len == n0)
    }

    /** Looks for a match at the lookahead, and drops one that is not worth it. */
    method Search() returns (dist: nat, len: nat)
      requires d.Valid() && d.lookaheadSize > 0 && (savedLen > 0 ==> MIN_MATCH_LEN <= savedLen < 128)
      ensures Candidate(dist, len) && Searched(dist, len)
    {
      hide Dictionary.Valid, Dictionary.IsMatch, Longest, Agreement, Dictionary.Probed, Dictionary.Shape;
      dist, len := 0, if savedLen > 0 then savedLen else MIN_MATCH_LEN - 1;
      var o := f.options;
      if o.rleMatches || o.forceRaw {
        if d.dictSize != 0 && !o.forceRaw {
          dist, len := d.FindRun();
        }
      } else {
        var probes := if len >= 32 then 1 + (o.probes / 4 + 2) / 3 else 1 + (o.probes + 2) / 3;
        ghost var v;
        dist, len, v := d.FindMatch(len, probes);
        d.ValidParts();
        assert d.lookaheadSize > Least() ==> LookedAt(v, dist, len);
      }
      assert LookedUp(dist, len);
      var cur := d.lookaheadPos % LZ_DICT_SIZE;
      if (len == MIN_MATCH_LEN && dist >= 8192) || cur == dist || (o.filter && len <= 5) {
        dist, len := 0, 0;
      }
    }

    /** The step has recorded everything up to where the lookahead will move, or it has saved a match. */
    ghost predicate Chosen(move: nat)
      reads this`savedLen, this`savedDist, this`savedLit, d, d.dict, d.next, d.hash
      reads f, f.w, f.w.buf, f.lz, f.lz.buf, f.lz.litCount, f.lz.distCount
    {
      && 1 <= move <= d.lookaheadSize
      && Recording(d.pos + move - (if savedLen > 0 then 1 else 0))
      && (savedLen > 0 ==>
        && move == 1 && MIN_MATCH_LEN <= savedLen < 128 && d.pos < |d.seen| && savedLit == d.seen[d.pos]
        && savedDist <= LZ_DICT_SIZE && d.IsMatch(d.pos, savedDist, savedLen))
    }

    /** The next byte of the lookahead. */
    method NextByte() returns (c: byte)
      requires d.Valid() && d.lookaheadSize > 0
      ensures d.pos < |d.seen| && c == d.seen[d.pos]
    {
      WrappedPlace(d.pos, 0);
      var cur := d.lookaheadPos % LZ_DICT_SIZE;
      d.ByteAt(cur, d.pos);
      c := d.dict[cur];
    }

    lemma CandidateFits(dist: nat, len: nat)
      requires d.Valid() && Candidate(dist, len) && dist > 0
      ensures MIN_MATCH_LEN <= len <= MAX_MATCH_LEN && len <= d.lookaheadSize && dist <= LZ_DICT_SIZE
      ensures d.IsMatch(d.pos, dist, len)
      ensures MIN_MATCH_LEN == 3 && MAX_MATCH_LEN == 258 && LZ_DICT_SIZE == 32768
    {
    }

    /** Keeps a match for later: the next byte may start a longer one. */
    method Save(dist: nat, len: nat) returns (move: nat)
      requires Recording(d.pos) && d.lookaheadSize > 0 && Candidate(dist, len) && 0 < dist && len < 128
      modifies this`savedLit, this`savedDist, this`savedLen
      ensures Chosen(move) && move == 1 && d.pos < |d.seen|
      ensures savedLit == d.seen[d.pos] && savedDist == dist && savedLen == len > 0
    {
      hide *;
      RecordingParts(d.pos);
      CandidateFits(dist, len);
      var c := NextByte();
      savedLit, savedDist, savedLen, move := c, dist, len, 1;
      IsChosen(1);
    }

    lemma IsChosen(move: nat)
      requires 1 <= move <= d.lookaheadSize
      requires savedLen == 0 ==> Recording(d.pos + move)
      requires savedLen > 0 ==> Recording(d.pos) && move == 1 && MIN_MATCH_LEN <= savedLen < 128
      requires savedLen > 0 ==> d.pos < |d.seen| && savedLit == d.seen[d.pos] && savedDist <= LZ_DICT_SIZE
      requires savedLen > 0 ==> d.IsMatch(d.pos, savedDist, savedLen)
      ensures Chosen(move)
    {
      hide Recording, Dictionary.IsMatch;
    }

    /** Records a match at the lookahead. */
    method TakeMatch(dist: nat, len: nat) returns (move: nat)
      requires Recording(d.pos) && Candidate(dist, len) && 0 < dist && f.lz.codeEnd + 4 <= 65536
      modifies this`savedLen, f.lz, f.lz.buf, f.lz.litCount, f.lz.distCount
      ensures Chosen(move) && f.lz.codeEnd <= old(f.lz.codeEnd) + 4
      ensures move == len && savedLen == 0 && f.lz.Tokens() == old(f.lz.Tokens()) + [Match(len, dist)]
    {
      hide *;
      RecordingParts(d.pos);
      CandidateFits(dist, len);
      savedLen := 0;
      RecordMatch(d.pos, len, dist);
      move := len;
      IsChosen(len);
    }

    /** What is pending. */
    ghost function Held(): Pending
      reads this`savedLen, this`savedDist, this`savedLit
    {
      if savedLen > 0 then Pending(savedLit, savedDist, savedLen) else Nothing
    }

    /** The step that this result of the search leads to. */
    ghost function Decision(dist: nat, len: nat): Choice
      requires d.pos < |d.seen|
      reads this`savedLen, this`savedDist, this`savedLit, d`pos, d`seen
    {
      Decide(Held(), d.seen[d.pos], dist, len, f.options.greedy || f.options.rleMatches)
    }

    /** The lazy matching state machine: record a literal, record a match, or save one. */
    method Choose(dist: nat, len: nat) returns (move: nat)
      requires Recorded() >= 0 && Recording(Recorded()) && Saved() && d.lookaheadSize > 0 && Candidate(dist, len)
      requires f.lz.codeEnd <= 65528 && d.pos < |d.seen|
      modifies this`savedLit, this`savedDist, this`savedLen, f.lz, f.lz.buf, f.lz.litCount, f.lz.distCount
      ensures Chosen(move) && f.lz.codeEnd <= old(f.lz.codeEnd) + 6
      ensures var r := old(Decision(dist, len));
        f.lz.Tokens() == old(f.lz.Tokens()) + r.tokens && Held() == r.pending && move == r.move
    {
      hide *;
      RecordedIs();
      RecordingParts(Recorded());
      ChoiceParts(dist, len);
      DecisionIs(dist, len);
      ghost var ts := f.lz.Tokens();
      if savedLen > 0 {
        if len > savedLen {
          RecordLit(d.pos - 1, savedLit);
          if len >= 128 {
            move := TakeMatch(dist, len);
            assert ts + [Lit(savedLit)] + [Match(len, dist)] == ts + [Lit(savedLit), Match(len, dist)];
          } else {
            move := Save(dist, len);
          }
        } else {
          move := TakeSaved();
        }
      } else if dist == 0 {
        move := TakeLiteral();
      } else if f.options.greedy || f.options.rleMatches || len >= 128 {
        move := TakeMatch(dist, len);
      } else {
        move := Save(dist, len);
        assert ts + [] == ts;
      }
      HeldIs();
    }

    lemma HeldIs()
      ensures Held() == if savedLen > 0 then Pending(savedLit, savedDist, savedLen) else Nothing
    {
    }

    lemma DecisionIs(dist: nat, len: nat)
      requires d.pos < |d.seen|
      ensures Decision(dist, len) ==
        var c, eager := d.seen[d.pos], f.options.greedy || f.options.rleMatches;
        if savedLen > 0 then
          if len <= savedLen then Choice([Match(savedLen, savedDist)], Nothing, savedLen - 1)
          else if len < 128 then Choice([Lit(savedLit)], Pending(c, dist, len), 1)
          else Choice([Lit(savedLit), Match(len, dist)], Nothing, len)
        else if dist == 0 then Choice([Lit(c)], Nothing, 1)
        else if eager || len >= 128 then Choice([Match(len, dist)], Nothing, len)
        else Choice([], Pending(c, dist, len), 1)
    {
    }

    lemma ChoiceParts(dist: nat, len: nat)
      requires d.Valid() && Saved() && Candidate(dist, len)
      ensures dist > 0 ==> len <= d.lookaheadSize
      ensures savedLen > 0 && dist == 0 ==> len <= savedLen
      ensures savedLen > 0 ==> d.pos >= 1 && d.pos - 1 < |d.seen| && savedLit == d.seen[d.pos - 1]
    {
    }

    method TakeSaved() returns (move: nat)
      requires savedLen > 0 && Recorded() >= 0 && Recording(Recorded()) && Saved() && f.lz.codeEnd + 4 <= 65536
      modifies this`savedLen, f.lz, f.lz.buf, f.lz.litCount, f.lz.distCount
      ensures Chosen(move) && f.lz.codeEnd <= old(f.lz.codeEnd) + 4
      ensures move == old(savedLen) - 1 && savedLen == 0
      ensures f.lz.Tokens() == old(f.lz.Tokens()) + [Match(old(savedLen), savedDist)]
    {
      hide *;
      RecordedIs();
      RecordingParts(Recorded());
      SavedFits();
      RecordMatch(d.pos - 1, savedLen, savedDist);
      move := savedLen - 1;
      savedLen := 0;
      IsChosen(move);
    }

    lemma RecordedIs()
      ensures Recorded() == d.pos - (if savedLen > 0 then 1 else 0)
    {
    }

    lemma SavedFits()
      requires savedLen > 0 && Saved() && d.Valid()
      ensures 1 <= d.pos && MIN_MATCH_LEN <= savedLen <= MAX_MATCH_LEN && savedDist <= LZ_DICT_SIZE
      ensures d.IsMatch(d.pos - 1, savedDist, savedLen)
      ensures savedLen - 1 <= d.lookaheadSize && MIN_MATCH_LEN == 3
    {
    }

    method TakeLiteral() returns (move: nat)
      requires savedLen == 0 && Recording(d.pos) && d.lookaheadSize > 0 && f.lz.codeEnd + 4 <= 65536
      modifies f.lz, f.lz.buf, f.lz.litCount
      ensures Chosen(move) && f.lz.codeEnd <= old(f.lz.codeEnd) + 2 && move == 1 && d.pos < |d.seen|
      ensures f.lz.Tokens() == old(f.lz.Tokens()) + [Lit(d.seen[d.pos])]
    {
      hide *;
      RecordingParts(d.pos);
      var c := NextByte();
      RecordLit(d.pos, c);
      move := 1;
      IsChosen(1);
    }

    /** One step of the parser: it searches and decides, and afterwards the lookahead is at least one byte shorter.
        Without a flush, all of the longest match has to be in the lookahead. */
    method ParseStep(ghost flush: Flush) returns (ghost dist: nat, ghost len: nat)
      requires Looping() && d.lookaheadSize > 0 && d.pos < |d.seen|
      requires flush != NoFlush || d.lookaheadSize == MAX_MATCH_LEN
      modifies this`savedLit, this`savedDist, this`savedLen, f.lz, f.lz.buf, f.lz.litCount, f.lz.distCount
      modifies d`lookaheadPos, d`lookaheadSize, d`dictSize, d`pos
      ensures Ready() && d.lookaheadSize < old(d.lookaheadSize) && f.lz.codeEnd <= old(f.lz.codeEnd) + 6
      ensures old(Searched(dist, len))
      ensures var r := old(Decision(dist, len));
        f.lz.Tokens() == old(f.lz.Tokens()) + r.tokens && Held() == r.pending && d.pos == old(d.pos) + r.move
    {
      hide *;
      LoopingParts();
      var dist', len' := Search();
      dist, len := dist', len';
      var move := Choose(dist', len');
      ghost var p := d.pos;
      ChosenParts(move);
      d.Advance(move);
      AfterMove(p, move);
    }

    lemma LoopingParts()
      requires Looping()
      ensures Recorded() >= 0 && Recording(Recorded()) && Saved() && f.lz.codeEnd <= 65528 && d.Valid() && Separate()
      ensures savedLen > 0 ==> MIN_MATCH_LEN <= savedLen < 128
      ensures dictPos == |Output(f.blocks)| % 0x1_0000_0000 && d.start <= |Output(f.blocks)|
    {
    }

    lemma ChosenParts(move: nat)
      requires Chosen(move)
      ensures 1 <= move <= d.lookaheadSize && d.Valid() && f.Valid() && Separate()
      ensures var rec := d.pos + move - (if savedLen > 0 then 1 else 0); Parsed(rec) && ValidStream(f.blocks)
      ensures savedLen > 0 ==> move == 1 && MIN_MATCH_LEN <= savedLen < 128 && d.pos < |d.seen|
      ensures savedLen > 0 ==> savedLit == d.seen[d.pos]
      ensures savedLen > 0 ==> savedDist <= LZ_DICT_SIZE && d.IsMatch(d.pos, savedDist, savedLen)
    {
      hide Dictionary.Valid, Dictionary.IsMatch, BlockFlusher.Valid, Parsed, Separate;
      assert Recording(d.pos + move - (if savedLen > 0 then 1 else 0));
      RecordingParts(d.pos + move - (if savedLen > 0 then 1 else 0));
    }

    lemma AfterMove(p: nat, move: nat)
      requires d.Valid() && f.Valid() && Separate() && d.pos == p + move && move >= 1
      requires var rec := p + move - (if savedLen > 0 then 1 else 0); Parsed(rec) && ValidStream(f.blocks)
      requires savedLen > 0 ==> move == 1 && MIN_MATCH_LEN <= savedLen < 128 && p < |d.seen| && savedLit == d.seen[p]
      requires savedLen > 0 ==> savedDist <= LZ_DICT_SIZE && d.IsMatch(p, savedDist, savedLen)
      requires dictPos == |Output(f.blocks)| % 0x1_0000_0000 && d.start <= |Output(f.blocks)|
      ensures Ready()
    {
      hide Dictionary.Valid, Dictionary.IsMatch, BlockFlusher.Valid, Parsed, Separate;
    }
  
    // -------------------------------------------------------------- flushing

    lemma {:induction false} ExpandBound(h: seq<byte>, ts: seq<Token>)
      requires AllFit(h, ts)
      ensures |Expand(h, ts)| <= |h| + MAX_MATCH_LEN * |ts|
      decreases |ts|
    {
      if ts != [] { ExpandBound(Step(h, ts[0]), ts[1..]); }
    }

    /** The data of the current block. */
    ghost function BlockData(): seq<byte>
      requires d.Valid() && Recorded() >= 0 && Parsed(Recorded())
      reads this`savedLen, d, d.dict, d.next, d.hash, f`blocks, f.lz
    {
      d.seen[|Output(f.blocks)|..Recorded()]
    }

    /** The distance between two wrapped positions is right as long as it fits 32 bits. */
    lemma WrappedDistance(a: nat, b: nat)
      requires b <= a < b + 0x1_0000_0000
      ensures (a % 0x1_0000_0000 - b % 0x1_0000_0000) % 0x1_0000_0000 == a - b
    {
      var q, r := a / 0x1_0000_0000 - b / 0x1_0000_0000, a % 0x1_0000_0000 - b % 0x1_0000_0000;
      assert a - b == 0x1_0000_0000 * q + r;
    }

    /** If the block's data is within the window, it is still in the dictionary. */
    lemma DataStillThere(behind: nat)
      requires Ready() && behind == (d.lookaheadPos - dictPos) % 0x1_0000_0000
      ensures f.Carries(BlockData()) && behind == d.pos - |Output(f.blocks)|
      ensures behind <= d.dictSize ==> f.StillThere(d.dict, dictPos, BlockData())
    {
      hide *;
      ReadyParts();
      ParsedCarries();
      BlockSmall();
      WrappedDistance(d.pos, |Output(f.blocks)|);
      if behind <= d.dictSize {
        DataThere();
      }
    }

    lemma ReadyParts()
      requires Ready()
      ensures d.Valid() && Recorded() >= 0 && Parsed(Recorded()) && ValidStream(f.blocks) && f.Valid()
      ensures f.Outside(d.dict) && Separate()
      ensures dictPos == |Output(f.blocks)| % 0x1_0000_0000 && d.lookaheadPos == d.pos % 0x1_0000_0000
      ensures d.start <= |Output(f.blocks)|
      ensures LZ_DICT_SIZE == 32768 && d.dict.Length >= 32768 && d.dictSize <= 32768
      ensures d.dictSize <= d.pos && |d.seen| + d.dictSize <= d.pos + 32768 && Recorded() <= d.pos <= |d.seen|
      ensures Recorded() <= |d.seen|
      ensures d.start <= d.pos && (d.lookaheadSize == 0 ==> d.dictSize == Min(d.pos - d.start, 32768))
    {
    }

    lemma ParsedCarries()
      requires d.Valid() && Recorded() >= 0 && Parsed(Recorded())
      ensures f.Carries(BlockData()) && |BlockData()| == Recorded() - |Output(f.blocks)| && |Output(f.blocks)| <= d.pos
      ensures Output(f.blocks) + BlockData() == d.seen[..Recorded()]
    {
      hide AllFit, Expand, Output, ValidStream;
      assert d.seen[..Recorded()] == Output(f.blocks) + BlockData();
    }

    lemma BlockSmall()
      requires Ready()
      ensures d.pos - |Output(f.blocks)| < 0x1_0000_0000
    {
      TokensSmall(f);
      hide Expand, AllFit, Dictionary.Valid, BlockFlusher.Valid, Dictionary.IsMatch;
      ExpandBound(Output(f.blocks), f.lz.Tokens());
    }

    static lemma TokensSmall(f: BlockFlusher)
      requires f.Valid()
      ensures |f.lz.Tokens()| <= 2 * LZ_CODE_BUF_SIZE
    {
      assert f.lz.Layout();
      assert |Image(f.lz.done)| <= LZ_CODE_BUF_SIZE;
      hide Image, Payloads;
    }

    lemma DataThere()
      requires Ready() && d.pos - |Output(f.blocks)| <= d.dictSize && d.dict.Length >= LZ_DICT_SIZE
      ensures f.StillThere(d.dict, dictPos, BlockData())
    {
      hide *;
      ReadyParts();
      ParsedCarries();
      forall i: nat | i < |BlockData()| ensures d.dict[(dictPos + i) % 32768] == BlockData()[i] {
        DataAt(i);
      }
      IsThere(BlockData());
    }

    lemma IsThere(data: seq<byte>)
      requires d.dict.Length >= 32768 && LZ_DICT_SIZE == 32768 && |data| <= 32768
      requires forall i: nat :: i < |data| ==> d.dict[(dictPos + i) % 32768] == data[i]
      ensures f.StillThere(d.dict, dictPos, data)
    {
    }

    lemma DataAt(i: nat)
      requires Ready() && d.pos - |Output(f.blocks)| <= d.dictSize && d.dict.Length >= 32768
      requires d.Valid() && Recorded() >= 0 && Parsed(Recorded()) && i < |BlockData()|
      ensures d.dict[(dictPos + i) % 32768] == BlockData()[i]
    {
      hide *;
      ReadyParts();
      var from := |Output(f.blocks)|;
      ParsedCarries();
      WrappedPlace(from, i);
      BlockByte(i);
      DictAt(from + i);
    }

    lemma BlockByte(i: nat)
      requires d.Valid() && Recorded() >= 0 && Parsed(Recorded()) && i < |BlockData()|
      ensures BlockData()[i] == d.seen[|Output(f.blocks)| + i]
    {
      hide Output, ValidStream, AllFit, Expand, Dictionary.Valid;
    }

    lemma DictAt(p: nat)
      requires d.Valid() && p < |d.seen| <= p + 32768
      ensures d.dict.Length >= 32768 && d.dict[p % 32768] == d.seen[p]
    {
      assert d.InBuffer(p);
      d.ByteAt(p % LZ_DICT_SIZE, p);
    }

    // -------------------------------------------------------------- the loop

    /** Ends the block when the token buffer is full, or when it does not compress. */
    method FlushIfFull()
      requires Ready()
      modifies this`dictPos, f`blockIndex, f`prefix, f`blocks, f.w, f.w.buf, f.lz, f.lz.buf, f.lz.litCount
      modifies f.lz.distCount
      modifies f.lit.sizes, f.lit.codes, f.dist.sizes, f.dist.codes, f.len.sizes, f.len.codes
      ensures Looping()
      ensures !old(Full()) ==> f.blocks == old(f.blocks) && f.lz.Tokens() == old(f.lz.Tokens())
      ensures old(Full()) ==> |f.blocks| == |old(f.blocks)| + 1
    {
      hide *;
      FullIs();
      var codes, total := f.lz.codeEnd, f.lz.totalBytes;
      if codes > LZ_CODE_BUF_SIZE - 8 ||
         (total > 31 * 1024 && (codes * 115 / 128 >= total || f.options.forceRaw))
      {
        ghost var was := f.blocks;
        ghost var body := WriteBlock(NoFlush);
        NextParts(was, NoFlush, body);
      } else {
        NotDue();
      }
    }

    lemma FullIs()
      ensures Full() <==>
        var codes, total := f.lz.codeEnd, f.lz.totalBytes;
        codes > LZ_CODE_BUF_SIZE - 8 || (total > 31 * 1024 && (codes * 115 / 128 >= total || f.options.forceRaw))
    {
    }

    lemma NotDue()
      requires Ready() && !Full()
      ensures Looping()
    {
    }

    /** The data of the current block is still in the window. */
    ghost predicate InWindow()
      requires ValidStream(f.blocks)
      reads d`pos, d`dictSize, f`blocks
    {
      d.pos - |Output(f.blocks)| <= d.dictSize
    }

    /** Writes the buffered tokens as a block; without a flush, only when one is due. */
    method WriteBlock(flush: Flush) returns (ghost body: Body)
      requires Ready() && (flush == NoFlush ==> Full())
      modifies this`dictPos, f`blockIndex, f`prefix, f`blocks, f.w, f.w.buf, f.lz, f.lz.buf, f.lz.litCount
      modifies f.lz.distCount
      modifies f.lit.sizes, f.lit.codes, f.dist.sizes, f.dist.codes, f.len.sizes, f.len.codes
      ensures flush != Finish ==> Looping()
      ensures f.blocks == NextBlocks(old(f.blocks), flush, body)
      ensures Picked(f.options, old(InWindow()), old(f.BlockStart()), old(f.lz.Tokens()), old(BlockData()), body)
      ensures d.Valid() && ValidStream(f.blocks) && 0 <= Recorded() <= |d.seen|
      ensures Output(f.blocks) == d.seen[..Recorded()]
      ensures flush == Finish ==> f.Finished(adler)
      ensures flush == SyncFlush || flush == FullFlush ==> f.blocks != [] && f.w.sent == BytesBits(f.w.out)
    {
      hide *;
      ReadyParts();
      SeparateParts();
      var behind := (d.lookaheadPos - dictPos) % 0x1_0000_0000;
      DataStillThere(behind);
      ParsedCarries();
      var total := f.lz.totalBytes;
      ghost var base := |Output(f.blocks)|;
      SavedAndTotal();
      WindowIs(behind);
      body := f.FlushBlock(d.dict, dictPos, behind, d.dictSize, flush, adler, BlockData());
      dictPos := (dictPos + total) % 0x1_0000_0000;
      if flush != Finish { AfterWrite(base, total); }
    }

    lemma WindowIs(behind: nat)
      requires ValidStream(f.blocks) && behind == d.pos - |Output(f.blocks)|
      ensures InWindow() <==> behind <= d.dictSize
    {
    }

    lemma SavedAndTotal()
      requires Ready()
      ensures Saved() && f.lz.totalBytes == Recorded() - |Output(f.blocks)|
    {
    }

    lemma AfterWrite(base: nat, total: nat)
      requires Separate() && d.Valid() && f.Valid() && Saved() && Recorded() >= 0 && Recorded() <= |d.seen|
      requires ValidStream(f.blocks) && Output(f.blocks) == d.seen[..Recorded()] && f.lz.Tokens() == []
      requires f.lz.totalBytes == 0 && f.lz.codeEnd == 1
      requires base + total == Recorded() && dictPos == (base % 0x1_0000_0000 + total) % 0x1_0000_0000
      requires d.start <= base
      ensures Looping()
    {
      hide *;
      NotFull();
      WrapAdd(base, total);
      NothingBuffered();
      assert d.seen[..Recorded()] == Output(f.blocks);
      RecordedIs();
      IsLooping(Recorded());
    }

    lemma NothingBuffered()
      requires ValidStream(f.blocks) && f.lz.Tokens() == []
      ensures AllFit(Output(f.blocks), f.lz.Tokens()) && Expand(Output(f.blocks), f.lz.Tokens()) == Output(f.blocks)
    {
    }

    lemma NotFull()
      requires f.lz.totalBytes == 0 && f.lz.codeEnd == 1
      ensures !Full()
    {
    }

    static lemma WrapAdd(a: nat, b: nat)
      ensures (a % 0x1_0000_0000 + b) % 0x1_0000_0000 == (a + b) % 0x1_0000_0000
    {
    }

    lemma SeparateParts()
      requires Separate()
      ensures d.dict as object != f.lz.buf as object && d.dict as object != f.lz.litCount as object
      ensures d.dict as object != f.lz.distCount as object && d.dict as object != f.w.buf as object
      ensures d.dict as object != f.lit.sizes as object && d.dict as object != f.lit.codes as object
      ensures d.dict as object != f.dist.sizes as object && d.dict as object != f.dist.codes as object
      ensures d.dict as object != f.len.sizes as object && d.dict as object != f.len.codes as object
      ensures d.next as object != f.lz.buf as object && d.next as object != f.lz.litCount as object
      ensures d.next as object != f.lz.distCount as object && d.next as object != f.w.buf as object
      ensures d.next as object != f.lit.sizes as object && d.next as object != f.lit.codes as object
      ensures d.next as object != f.dist.sizes as object && d.next as object != f.dist.codes as object
      ensures d.next as object != f.len.sizes as object && d.next as object != f.len.codes as object
      ensures d.hash as object != f.lz.buf as object && d.hash as object != f.lz.litCount as object
      ensures d.hash as object != f.lz.distCount as object && d.hash as object != f.w.buf as object
      ensures d.hash as object != f.lit.sizes as object && d.hash as object != f.lit.codes as object
      ensures d.hash as object != f.dist.sizes as object && d.hash as object != f.dist.codes as object
      ensures d.hash as object != f.len.sizes as object && d.hash as object != f.len.codes as object
    {
    }
  
    /** Parses input until all of it is in the window, or, when flushing, until all of it is recorded.
        Whatever is recorded stands for exactly the data seen so far. */
    method CompressNormal(src: seq<byte>, flush: Flush)
      requires Looping()
      modifies this`dictPos, this`savedLit, this`savedDist, this`savedLen
      modifies d, d.dict, d.next, d.hash, f`blockIndex, f`prefix, f`blocks, f.w, f.w.buf, f.lz, f.lz.buf
      modifies f.lz.litCount, f.lz.distCount
      modifies f.lit.sizes, f.lit.codes, f.dist.sizes, f.dist.codes, f.len.sizes, f.len.codes
      ensures Looping() && d.seen == old(d.seen) + src && (flush != NoFlush ==> d.lookaheadSize == 0)
      ensures d.start == old(d.start)
    {
      hide *;
      var at: nat := 0;
      ghost var was := d.seen;
      assert was + src[..0] == was;
      while at < |src| || (flush != NoFlush && d.lookaheadSize > 0)
        invariant at <= |src| && Looping() && d.seen == was + src[..at] && d.start == old(d.start)
        decreases |src| - at, d.lookaheadSize
      {
        var n := LoadMore(src, at);
        assert src[..at + n] == src[..at] + src[at..at + n];
        at := at + n;
        if flush == NoFlush && d.lookaheadSize < MAX_MATCH_LEN {
          break;
        }
        ParseRound(flush);
      }
      assert src[..at] == src;
    }

    /** A parsing step, and a block if one is due then. */
    method ParseRound(flush: Flush)
      requires Looping() && d.lookaheadSize > 0 && d.pos < |d.seen|
      requires flush != NoFlush || d.lookaheadSize == MAX_MATCH_LEN
      modifies this`dictPos, this`savedLit, this`savedDist, this`savedLen
      modifies d`lookaheadPos, d`lookaheadSize, d`dictSize, d`pos
      modifies f`blockIndex, f`prefix, f`blocks, f.w, f.w.buf, f.lz, f.lz.buf, f.lz.litCount, f.lz.distCount
      modifies f.lit.sizes, f.lit.codes, f.dist.sizes, f.dist.codes, f.len.sizes, f.len.codes
      ensures Looping() && d.lookaheadSize < old(d.lookaheadSize)
    {
      hide *;
      ghost var _, _ := ParseStep(flush);
      FlushIfFull();
    }

    /** Loads input into the window; what is recorded is not affected. */
    method LoadMore(src: seq<byte>, at: nat) returns (n: nat)
      requires Looping() && at <= |src| && (at < |src| || d.lookaheadSize > 0)
      modifies d`seen, d`lookaheadSize, d`dictSize, d.dict, d.next, d.hash
      ensures Looping() && at + n <= |src| && d.seen == old(d.seen) + src[at..at + n]
      ensures at + n == |src| || d.lookaheadSize == MAX_MATCH_LEN
      ensures d.lookaheadSize == old(d.lookaheadSize) + n && 0 < d.lookaheadSize <= MAX_MATCH_LEN && d.pos < |d.seen|
    {
      hide *;
      ReadyToLoad();
      ghost var was, rec := d.seen, Recorded();
      n := d.Load(src, at);
      AfterLoad(was, rec);
      d.ValidParts();
    }

    lemma ReadyToLoad()
      requires Looping()
      ensures d.Valid() && f.Valid() && Separate() && !Full()
      ensures dictPos == |Output(f.blocks)| % 0x1_0000_0000 && d.start <= |Output(f.blocks)|
      ensures 0 <= Recorded() <= |d.seen| && Recorded() == d.pos - (if savedLen > 0 then 1 else 0)
      ensures ValidStream(f.blocks)
      ensures Output(f.blocks) <= d.seen[..Recorded()] && AllFit(Output(f.blocks), f.lz.Tokens())
      ensures Expand(Output(f.blocks), f.lz.Tokens()) == d.seen[..Recorded()]
      ensures f.lz.totalBytes == Recorded() - |Output(f.blocks)|
      ensures Saved() && SavedIn(d.seen, d.pos)
      ensures MAX_MATCH_LEN == 258 && 0 <= d.lookaheadSize
      ensures d.dict as object != f.w.buf as object && d.dict as object != f.lz.buf as object
      ensures d.dict as object != f.lz.litCount as object && d.dict as object != f.lz.distCount as object
      ensures d.next as object != f.w.buf as object && d.next as object != f.lz.buf as object
      ensures d.next as object != f.lz.litCount as object && d.next as object != f.lz.distCount as object
      ensures d.hash as object != f.w.buf as object && d.hash as object != f.lz.buf as object
      ensures d.hash as object != f.lz.litCount as object && d.hash as object != f.lz.distCount as object
    {
    }

    /** The saved match, as a fact about the data alone. */
    ghost predicate SavedIn(seen: seq<byte>, pos: nat)
      reads this`savedLen, this`savedDist, this`savedLit
    {
      savedLen > 0 ==>
        && MIN_MATCH_LEN <= savedLen < 128 && 1 <= pos <= |seen| && savedLit == seen[pos - 1]
        && savedDist <= LZ_DICT_SIZE && 1 <= savedDist <= pos - 1 && pos - 1 + savedLen <= |seen|
        && forall i: nat :: pos - 1 <= i < pos - 1 + savedLen ==> Repeats(seen, savedDist, i)
    }

    lemma SavedGrows(was: seq<byte>)
      requires was <= d.seen && SavedIn(was, d.pos)
      ensures Saved()
    {
      if savedLen > 0 {
        forall i: nat | d.pos - 1 <= i < d.pos - 1 + savedLen ensures Repeats(d.seen, savedDist, i) {
          assert Repeats(was, savedDist, i);
        }
      }
    }

    lemma AfterLoad(was: seq<byte>, rec: int)
      requires d.Valid() && f.Valid() && Separate() && !Full()
      requires dictPos == |Output(f.blocks)| % 0x1_0000_0000 && d.start <= |Output(f.blocks)|
      requires 0 <= rec <= |was| && rec == d.pos - (if savedLen > 0 then 1 else 0) && ValidStream(f.blocks)
      requires was <= d.seen
      requires Output(f.blocks) <= was[..rec] && AllFit(Output(f.blocks), f.lz.Tokens())
      requires Expand(Output(f.blocks), f.lz.Tokens()) == was[..rec] && f.lz.totalBytes == rec - |Output(f.blocks)|
      requires SavedIn(was, d.pos)
      ensures Looping()
    {
      hide *;
      SavedGrows(was);
      assert d.seen[..rec] == was[..rec];
      IsLooping(rec);
    }

    lemma IsLooping(rec: int)
      requires d.Valid() && f.Valid() && Separate() && !Full()
      requires dictPos == |Output(f.blocks)| % 0x1_0000_0000 && d.start <= |Output(f.blocks)|
      requires 0 <= rec <= |d.seen| && rec == d.pos - (if savedLen > 0 then 1 else 0) && ValidStream(f.blocks)
      requires Output(f.blocks) <= d.seen[..rec] && AllFit(Output(f.blocks), f.lz.Tokens())
      requires Expand(Output(f.blocks), f.lz.Tokens()) == d.seen[..rec] && f.lz.totalBytes == rec - |Output(f.blocks)|
      requires Saved()
      ensures Looping()
    {
      hide Dictionary.Valid, BlockFlusher.Valid, Saved, Output, ValidStream, Separate, AllFit, Expand;
    }

    // -------------------------------------------------------------- the compressor's entry point

    /** Compresses one more piece of input (`tdefl_compress`). With a flush, everything seen so far is
        in the blocks written, and all their bits are handed over; at the end the stream is complete. */
    method Compress(src: seq<byte>, flush: Flush)
      requires Valid() && !finished
      modifies this, d, d.dict, d.next, d.hash, f`blockIndex, f`prefix, f`blocks, f.w, f.w.buf, f.lz, f.lz.buf
      modifies f.lz.litCount, f.lz.distCount
      modifies f.lit.sizes, f.lit.codes, f.dist.sizes, f.dist.codes, f.len.sizes, f.len.codes
      ensures d.seen == old(d.seen) + src && finished == (flush == Finish)
      ensures flush != Finish ==> Valid()
      ensures flush != NoFlush ==> ValidStream(f.blocks) && Output(f.blocks) == d.seen
      ensures flush == Finish ==> f.Finished(adler) && (f.options.zlib ==> adler == Adler.Update(1, d.seen))
      ensures flush == SyncFlush || flush == FullFlush ==> f.blocks != [] && f.w.sent == BytesBits(f.w.out)
      ensures d.start == if flush == FullFlush then |d.seen| else old(d.start)
      ensures flush == FullFlush ==> d.NoLinks()
    {
      hide *;
      ghost var was := d.seen;
      ValidParts();
      CompressNormal(src, flush);
      if f.options.zlib {
        Adler.UpdateAppend(1, was, src);
        adler := Adler.MzAdler32(adler, src);
      }
      ghost var _ := FlushPiece(flush);
    }

    /** What a flush adds to a piece that has been parsed. */
    method FlushPiece(flush: Flush) returns (ghost body: Body)
      requires Looping() && (f.options.zlib ==> adler == Adler.Update(1, d.seen))
      requires flush != NoFlush ==> d.lookaheadSize == 0
      modifies this`dictPos, this`finished, d`dictSize, d`start, d.next, d.hash
      modifies f`blockIndex, f`prefix, f`blocks, f.w, f.w.buf, f.lz, f.lz.buf, f.lz.litCount, f.lz.distCount
      modifies f.lit.sizes, f.lit.codes, f.dist.sizes, f.dist.codes, f.len.sizes, f.len.codes
      ensures d.seen == old(d.seen) && finished == (flush == Finish)
      ensures f.blocks == if flush == NoFlush then old(f.blocks) else NextBlocks(old(f.blocks), flush, body)
      ensures flush != NoFlush ==>
        Picked(f.options, old(InWindow()), old(f.BlockStart()), old(f.lz.Tokens()), old(BlockData()), body)
      ensures flush != Finish ==> Valid()
      ensures flush != NoFlush ==> ValidStream(f.blocks) && Output(f.blocks) == d.seen
      ensures flush == Finish ==> f.Finished(adler) && (f.options.zlib ==> adler == Adler.Update(1, d.seen))
      ensures flush == SyncFlush || flush == FullFlush ==> f.blocks != [] && f.w.sent == BytesBits(f.w.out)
      ensures d.start == if flush == FullFlush then |d.seen| else old(d.start)
      ensures flush == FullFlush ==> d.NoLinks()
    {
      hide *;
      finished, body := flush == Finish, Stored([]);
      if flush != NoFlush {
        EverythingRecorded();
        body := WriteBlock(flush);
        if flush == FullFlush { ForgetWindow(); }
      }
      if flush != Finish { IsValid(); }
    }

    lemma ValidParts()
      requires Valid()
      ensures Looping() && (f.options.zlib ==> adler == Adler.Update(1, d.seen))
    {
    }

    lemma IsValid()
      requires Looping() && (f.options.zlib ==> adler == Adler.Update(1, d.seen))
      ensures Valid()
    {
    }

    lemma EverythingRecorded()
      requires Looping() && d.lookaheadSize == 0
      ensures Ready() && Recorded() == |d.seen| == d.pos && d.seen[..Recorded()] == d.seen
    {
      if savedLen > 0 { SavedFits(); }
    }

    /** A full flush starts over with an empty window. */
    method ForgetWindow()
      requires Looping() && ValidStream(f.blocks) && d.pos <= |Output(f.blocks)| && d.lookaheadSize == 0
      modifies d`dictSize, d`start, d.next, d.hash
      ensures Looping() && d.seen == old(d.seen) && d.start == d.pos && d.dictSize == 0 && d.NoLinks()
    {
      hide *;
      ReadyToLoad();
      ghost var was, rec := d.seen, Recorded();
      d.Forget();
      AfterLoad(was, rec);
    }
  }
}
