/** The buffer of recorded tokens: groups of up to eight tokens, each group led by a byte of
    flags that is filled by shifting bits in from the top. */
module LzCodeBuffer {
  import opened Bits
  import opened Tokens

  const LZ_CODE_BUF_SIZE: nat := 65536
  const MAX_HUFF_SYMBOLS_0: nat := 288
  const MAX_HUFF_SYMBOLS_1: nat := 32

  // ---------------------------------------------------------------- layout

  function Payload(t: Token): (p: seq<byte>)
    requires ValidToken(t)
    ensures 1 <= |p| <= 3
  {
    match t
    case Lit(b) => [b]
    case Match(len, dist) => [len - 3, (dist - 1) % 256, (dist - 1) / 256]
  }

  predicate AllValid(ts: seq<Token>) {
    forall i :: 0 <= i < |ts| ==> ValidToken(ts[i])
  }

  function Payloads(ts: seq<Token>): (p: seq<byte>)
    requires AllValid(ts)
    ensures |p| >= |ts|
  {
    if ts == [] then [] else Payload(ts[0]) + Payloads(ts[1..])
  }

  function Flags(ts: seq<Token>): (f: seq<bool>)
    ensures |f| == |ts|
  {
    seq(|ts|, i requires 0 <= i < |ts| => ts[i].Match?)
  }

  function FlagByte(ts: seq<Token>): byte
    requires |ts| <= 8
  {
    ValBound(Flags(ts));
    Pow2Mono(|ts|, 8);
    Pow2Values();
    Val(Flags(ts))
  }

  function GroupLen(ts: seq<Token>): nat { if |ts| < 8 then |ts| else 8 }

  /** The finished form of the buffer. */
  function Image(ts: seq<Token>): (p: seq<byte>)
    requires AllValid(ts)
    ensures |p| >= |ts|
    decreases |ts|
  {
    if ts == [] then [] else
      var m := GroupLen(ts);
      [FlagByte(ts[..m])] + Payloads(ts[..m]) + Image(ts[m..])
  }

  lemma {:induction false} PayloadsAppend(a: seq<Token>, b: seq<Token>)
    requires AllValid(a) && AllValid(b)
    ensures Payloads(a + b) == Payloads(a) + Payloads(b)
    decreases |a|
  {
    if a == [] {
      assert a + b == b;
    } else {
      assert (a + b)[1..] == a[1..] + b;
      PayloadsAppend(a[1..], b);
    }
  }

  lemma PayloadsOne(t: Token)
    requires ValidToken(t)
    ensures Payloads([t]) == Payload(t)
  {
    assert [t][1..] == [];
  }

  lemma {:induction false} ImageAppend(a: seq<Token>, b: seq<Token>)
    requires AllValid(a) && AllValid(b) && |a| % 8 == 0
    ensures Image(a + b) == Image(a) + Image(b)
    decreases |a|
  {
    hide Payloads, FlagByte;
    if a == [] {
      assert a + b == b;
    } else {
      assert (a + b)[..8] == a[..8] && (a + b)[8..] == a[8..] + b;
      ImageAppend(a[8..], b);
    }
  }

  lemma ImageGroup(g: seq<Token>)
    requires AllValid(g) && 0 < |g| <= 8
    ensures Image(g) == [FlagByte(g)] + Payloads(g)
  {
    hide Payloads, FlagByte;
    assert g[..|g|] == g && g[|g|..] == [];
  }

  // ---------------------------------------------------------------- symbol statistics

  function LitSym(t: Token): nat
    requires ValidToken(t)
    ensures LitSym(t) < 286 && LitSym(t) != END_OF_BLOCK
  {
    match t
    case Lit(b) => b
    case Match(len, d) => LengthTablesAgree(len - 3); LenSym(len - 3)
  }

  /** How many tokens use literal/length symbol `s`. */
  function LitCount(ts: seq<Token>, s: nat): (n: nat)
    requires AllValid(ts)
    ensures n <= |ts|
  {
    if ts == [] then 0 else
      var l := |ts| - 1;
      LitCount(ts[..l], s) + (if LitSym(ts[l]) == s then 1 else 0)
  }

  /** How many tokens use distance symbol `s`. */
  function DistCount(ts: seq<Token>, s: nat): (n: nat)
    requires AllValid(ts)
    ensures n <= |ts|
  {
    if ts == [] then 0 else
      var l := |ts| - 1;
      DistCount(ts[..l], s) + (if ts[l].Match? && DistSym(ts[l].dist - 1) == s then 1 else 0)
  }

  // ---------------------------------------------------------------- the buffer

  class LzCodeBuffer {
    const buf: array<byte>
    const litCount: array<nat>
    const distCount: array<nat>
    var codeEnd: nat     // m_pLZ_code_buf
    var flagsAt: nat     // m_pLZ_flags
    var flagsLeft: nat   // m_num_flags_left
    var totalBytes: nat  // m_total_lz_bytes
    ghost var done: seq<Token>  // tokens in finished groups
    ghost var open: seq<Token>  // tokens in the current group

    constructor ()
      ensures Valid() && Tokens() == [] && fresh(buf) && fresh(litCount) && fresh(distCount)
      ensures codeEnd == 1 && totalBytes == 0
      ensures litCount != distCount && litCount.Length == MAX_HUFF_SYMBOLS_0 && distCount.Length == MAX_HUFF_SYMBOLS_1
    {
      buf := new byte[LZ_CODE_BUF_SIZE](_ => 0);
      litCount := new nat[MAX_HUFF_SYMBOLS_0](_ => 0);
      distCount := new nat[MAX_HUFF_SYMBOLS_1](_ => 0);
      codeEnd, flagsAt, flagsLeft, totalBytes := 1, 0, 8, 0;
      done, open := [], [];
      new;
      FreshGroup(buf[0]);
    }

    ghost function Tokens(): seq<Token>
      reads this
    {
      done + open
    }

    ghost predicate Layout()
      reads this, buf
    {
      && buf.Length == LZ_CODE_BUF_SIZE && AllValid(done) && AllValid(open)
      && |done| % 8 == 0 && |open| < 8 && flagsLeft == 8 - |open|
      && 0 <= flagsAt < codeEnd <= buf.Length
      && buf[..flagsAt] == Image(done) && buf[flagsAt + 1..codeEnd] == Payloads(open)
      && Shr(buf[flagsAt], flagsLeft) == Val(Flags(open))
    }

    ghost predicate StatsOf(ts: seq<Token>)
      reads litCount, distCount
      requires AllValid(ts)
    {
      && litCount != distCount
      && litCount.Length == MAX_HUFF_SYMBOLS_0 && distCount.Length == MAX_HUFF_SYMBOLS_1
      && (forall s :: 0 <= s < MAX_HUFF_SYMBOLS_0 ==> litCount[s] == LitCount(ts, s))
      && (forall s :: 0 <= s < MAX_HUFF_SYMBOLS_1 ==> distCount[s] == DistCount(ts, s))
    }

    ghost predicate Counts()
      reads this, litCount, distCount
    {
      AllValid(Tokens()) && StatsOf(Tokens())
    }

    /** The buffer holds the tokens, and the symbol statistics are theirs. */
    ghost predicate Valid()
      reads this, buf, litCount, distCount
    {
      Layout() && Counts()
    }

    method RecordLiteral(lit: byte)
      requires Valid() && codeEnd + 4 <= buf.Length
      modifies this, buf, litCount
      ensures Valid() && Tokens() == old(Tokens()) + [Lit(lit)]
      ensures totalBytes == old(totalBytes) + 1 && codeEnd <= old(codeEnd) + 2
    {
      ghost var t := Lit(lit);
      assert Payload(t) == [lit];
      hide LitCount, DistCount, Image, Payloads, Payload, Flags, Val, Shr;
      totalBytes := totalBytes + 1;
      ghost var at := codeEnd;
      buf[codeEnd] := lit;
      codeEnd := codeEnd + 1;
      KeepsGroups(at);
      AddFlag(false, t, at);
      CountLiteral(lit, old(Tokens()));
    }

    method RecordMatch(matchLen: nat, matchDist: nat)
      requires Valid() && codeEnd + 4 <= buf.Length
      requires ValidToken(Match(matchLen, matchDist))
      modifies this, buf, litCount, distCount
      ensures Valid() && Tokens() == old(Tokens()) + [Match(matchLen, matchDist)]
      ensures totalBytes == old(totalBytes) + matchLen && codeEnd <= old(codeEnd) + 4
    {
      ghost var t := Match(matchLen, matchDist);
      var d := matchDist - 1;
      assert Payload(t) == [matchLen - 3, d % 256, d / 256];
      hide LitCount, DistCount, Image, Payloads, Payload, Flags, Val, Shr;
      totalBytes := totalBytes + matchLen;
      ghost var at := codeEnd;
      PutThree(matchLen - MIN_MATCH_LEN, d % 256, d / 256);
      AddFlag(true, t, at);
      CountMatch(matchLen, d, old(Tokens()));
    }

    /** Writes the payload of a match. */
    method PutThree(a: byte, b: byte, c: byte)
      requires 0 <= flagsAt < codeEnd && codeEnd + 3 < buf.Length
      modifies this`codeEnd, buf
      ensures codeEnd == old(codeEnd) + 3 && buf[old(codeEnd)..codeEnd] == [a, b, c]
      ensures buf[flagsAt] == old(buf[flagsAt])
      ensures buf[..flagsAt] == old(buf[..flagsAt])
      ensures buf[flagsAt + 1..old(codeEnd)] == old(buf[flagsAt + 1..codeEnd])
    {
      buf[codeEnd] := a;
      buf[codeEnd + 1] := b;
      buf[codeEnd + 2] := c;
      codeEnd := codeEnd + 3;
    }

    /** Writing past `at` does not touch the groups before it. */
    twostate lemma KeepsGroups(at: nat)
      requires flagsAt < at <= buf.Length && flagsAt == old(flagsAt)
      requires forall i :: 0 <= i < at ==> buf[i] == old(buf[i])
      ensures buf[..flagsAt] == old(buf[..flagsAt]) && buf[flagsAt + 1..at] == old(buf[flagsAt + 1..at])
    {
    }

    /** Updates the symbol statistics for the literal that was just recorded. */
    method CountLiteral(lit: byte, ghost before: seq<Token>)
      requires AllValid(before) && Tokens() == before + [Lit(lit)] && StatsOf(before)
      modifies litCount
      ensures Counts()
    {
      assert Tokens()[..|before|] == before;
      litCount[lit] := litCount[lit] + 1;
    }

    /** Updates the symbol statistics for the match that was just recorded. */
    method CountMatch(matchLen: nat, d: nat, ghost before: seq<Token>)
      requires AllValid(before) && ValidToken(Match(matchLen, d + 1)) && StatsOf(before)
      requires Tokens() == before + [Match(matchLen, d + 1)]
      modifies litCount, distCount
      ensures Counts()
    {
      assert Tokens()[..|before|] == before;
      var l: byte := matchLen - MIN_MATCH_LEN;
      LengthTablesAgree(l);
      hide LenSym, SmallDistSym, LargeDistSym;
      var s := MatchDistSym(d);
      distCount[s] := distCount[s] + 1;
      litCount[LenSym(l)] := litCount[LenSym(l)] + 1;
    }

    /** Looks the symbol up in both tables and picks one. */
    static method MatchDistSym(d: nat) returns (s: nat)
      requires d < LZ_DICT_SIZE
      ensures s == DistSym(d) < 30
    {
      hide SmallDistSym, LargeDistSym;
      assert (d < 512 ==> d % 512 == d) && (d / 256) % 128 == d / 256;
      DistSymBound(d);
      var s0 := SmallDistSym(d % 512);
      var s1 := LargeDistSym((d / 256) % 128);
      s := if d < 512 then s0 else s1;
    }

    /** Shifts the token's flag into the flag byte; a full flag byte starts a new group, whose own
        flag byte is left as it is. */
    method AddFlag(isMatch: bool, ghost t: Token, ghost at: nat)
      requires ValidToken(t) && isMatch == t.Match? && AllValid(done) && AllValid(open)
      requires buf.Length == LZ_CODE_BUF_SIZE && |done| % 8 == 0 && |open| < 8 && flagsLeft == 8 - |open|
      requires flagsAt < at <= codeEnd < buf.Length
      requires buf[..flagsAt] == Image(done) && buf[flagsAt + 1..at] == Payloads(open)
      requires buf[at..codeEnd] == Payload(t)
      requires Shr(buf[flagsAt], flagsLeft) == Val(Flags(open))
      modifies this`codeEnd, this`flagsAt, this`flagsLeft, this`done, this`open, buf
      ensures Layout() && Tokens() == old(Tokens()) + [t] && codeEnd <= old(codeEnd) + 1
    {
      ghost var grown := open + [t];
      hide Image, Payloads, Payload, Flags, FlagByte, Shr, Val, BitOr;
      PayloadsAppend(open, [t]);
      PayloadsOne(t);
      assert buf[flagsAt + 1..codeEnd] == buf[flagsAt + 1..at] + buf[at..codeEnd];
      ShiftFlagIn(buf[flagsAt], open, t);
      buf[flagsAt] := BitOr(buf[flagsAt] / 2, if isMatch then 0x80 else 0);
      flagsLeft := flagsLeft - 1;
      open := grown;
      assert buf[..flagsAt] == Image(done) && buf[flagsAt + 1..codeEnd] == Payloads(open);
      assert Tokens() == old(Tokens()) + [t];
      if flagsLeft == 0 {
        CloseGroup();
      }
    }

    method CloseGroup()
      requires AllValid(done) && AllValid(open)
      requires buf.Length == LZ_CODE_BUF_SIZE && |done| % 8 == 0 && |open| == 8
      requires flagsAt < codeEnd < buf.Length
      requires buf[..flagsAt] == Image(done) && buf[flagsAt + 1..codeEnd] == Payloads(open)
      requires Shr(buf[flagsAt], 0) == Val(Flags(open))
      modifies this`codeEnd, this`flagsAt, this`flagsLeft, this`done, this`open
      ensures Layout() && Tokens() == old(Tokens()) && codeEnd == old(codeEnd) + 1
    {
      GroupClosed(buf[..], flagsAt, codeEnd, done, open);
      assert buf[..codeEnd] == buf[..][..codeEnd];
      hide *;
      flagsLeft := 8;
      flagsAt := codeEnd;
      codeEnd := codeEnd + 1;
      done, open := done + open, [];
      OpenGroup();
      assert done == old(Tokens());
    }

    /** The state just after a new group was started. */
    lemma OpenGroup()
      requires buf.Length == LZ_CODE_BUF_SIZE && AllValid(done) && |done| % 8 == 0 && open == [] && flagsLeft == 8
      requires 0 <= flagsAt < buf.Length && codeEnd == flagsAt + 1 && buf[..flagsAt] == Image(done)
      ensures Layout() && Tokens() == done
    {
      hide Image, Val, Flags, Shr;
      FreshGroup(buf[flagsAt]);
      EmptyPayloads();
      assert buf[flagsAt + 1..codeEnd] == [];
    }

    /** Completes the last group: the flags move to the low end of their byte, and a flag byte
        without tokens is dropped. */
    method Finish()
      requires Valid()
      modifies this`codeEnd, buf
      ensures Tokens() == old(Tokens()) && Counts()
      ensures codeEnd <= old(codeEnd) <= buf.Length && buf[..codeEnd] == Image(Tokens())
    {
      FinishedImage(buf[..], flagsAt, codeEnd, flagsLeft, done, open);
      hide Image, Payloads, Flags, Val, Shr, LitCount, DistCount;
      ghost var before := buf[..];
      buf[flagsAt] := Shr(buf[flagsAt], flagsLeft);
      assert buf[..] == before[flagsAt := buf[flagsAt]];
      if flagsLeft == 8 {
        codeEnd := codeEnd - 1;
      }
      assert buf[..codeEnd] == buf[..][..codeEnd];
    }

    /** Starts a new, empty buffer after a flush. */
    method Restart()
      requires buf.Length == LZ_CODE_BUF_SIZE && litCount != distCount
      requires litCount.Length == MAX_HUFF_SYMBOLS_0 && distCount.Length == MAX_HUFF_SYMBOLS_1
      modifies this, litCount, distCount
      ensures Valid() && Tokens() == [] && totalBytes == 0 && codeEnd == 1
    {
      forall i | 0 <= i < litCount.Length { litCount[i] := 0; }
      forall i | 0 <= i < distCount.Length { distCount[i] := 0; }
      codeEnd, flagsAt, flagsLeft, totalBytes := 1, 0, 8, 0;
      done, open := [], [];
      FreshGroup(buf[0]);
    }
  }

  lemma DistSymBound(d: nat)
    requires d < LZ_DICT_SIZE
    ensures DistSym(d) < 30
  {
    DistTablesAgree(d);
  }

  lemma SetMiddle(b: seq<byte>, i: nat, j: nat, f: byte)
    requires i < j <= |b|
    ensures b[i := f][..i] == b[..i] && b[i := f][..j] == b[..i] + ([f] + b[i + 1..j])
  {
  }

  lemma FinishedImage(b: seq<byte>, flagsAt: nat, codeEnd: nat, left: nat, done: seq<Token>, open: seq<Token>)
    requires flagsAt < codeEnd <= |b| && AllValid(done) && AllValid(open)
    requires |done| % 8 == 0 && |open| < 8 && left == 8 - |open|
    requires b[..flagsAt] == Image(done) && b[flagsAt + 1..codeEnd] == Payloads(open)
    requires Shr(b[flagsAt], left) == Val(Flags(open))
    ensures Shr(b[flagsAt], left) < 256
    ensures b[flagsAt := Shr(b[flagsAt], left)][..if left == 8 then codeEnd - 1 else codeEnd] == Image(done + open)
  {
    FlagsFit(open);
    ImageAppend(done, open);
    EmptyPayloads();
    if open != [] { ImageGroup(open); }
    hide Image, Payloads, Flags, FlagByte, Val, Shr;
    var f := Shr(b[flagsAt], left);
    var head, tail := b[..flagsAt], b[flagsAt + 1..codeEnd];
    SetMiddle(b, flagsAt, codeEnd, f);
    if open == [] {
      assert done + open == done;
      assert codeEnd == flagsAt + 1;
    }
  }

  lemma GroupClosed(b: seq<byte>, flagsAt: nat, codeEnd: nat, done: seq<Token>, open: seq<Token>)
    requires AllValid(done) && AllValid(open) && |done| % 8 == 0 && |open| == 8 && flagsAt < codeEnd <= |b|
    requires b[..flagsAt] == Image(done) && b[flagsAt + 1..codeEnd] == Payloads(open)
    requires Shr(b[flagsAt], 0) == Val(Flags(open))
    ensures AllValid(done + open) && |done + open| % 8 == 0 && b[..codeEnd] == Image(done + open)
  {
    hide *;
    ShrNone(b[flagsAt]);
    BothValid(done, open);
    FlagsFit(open);
    ImageGroup(open);
    ImageAppend(done, open);
    SplitAround(b, flagsAt, codeEnd);
  }

  lemma SplitAround(b: seq<byte>, i: nat, j: nat)
    requires i < j <= |b|
    ensures b[..j] == b[..i] + ([b[i]] + b[i + 1..j])
  {
  }

  lemma ShrNone(x: nat)
    ensures Shr(x, 0) == x
  {
  }

  lemma BothValid(a: seq<Token>, b: seq<Token>)
    requires AllValid(a) && AllValid(b)
    ensures AllValid(a + b)
  {
  }

  lemma EmptyPayloads()
    ensures Payloads([]) == []
  {
  }

  lemma FlagsFit(ts: seq<Token>)
    requires |ts| <= 8
    ensures Val(Flags(ts)) == FlagByte(ts)
  {
  }

  /** Whatever an untouched flag byte holds is shifted out by the time it is used. */
  lemma FreshGroup(f: byte)
    ensures Shr(f, 8) == 0 == Val(Flags([]))
  {
    Pow2Values();
    ShrBound(f, 8, 8);
  }

  /** Shifting a flag in at the top keeps the recorded flags at the top of the byte. */
  lemma ShiftFlagIn(f: byte, open: seq<Token>, t: Token)
    requires |open| < 8 && Shr(f, 8 - |open|) == Val(Flags(open))
    ensures var f' := BitOr(f / 2, if t.Match? then 0x80 else 0);
      f' < 256 && Shr(f', 7 - |open|) == Val(Flags(open + [t]))
  {
    var k, m := |open|, B2N(t.Match?);
    hide BitsOf, Shr, Val, BitOr, Pow2;
    var f' := f / 2 + 128 * m;
    assert (if t.Match? then 0x80 else 0) == 0x80 * m;
    TopBit(f, m);
    var w := Flags(open + [t]);
    assert w == Flags(open) + [t.Match?];
    hide Flags;
    Pow2Values();
    SplitBits(f', 7 - k, 8);
    SplitBits(f, 8 - k, 8);
    BitsOfVal(Flags(open));
    assert BitsOf(f', 8)[7 - k..] == BitsOf(f, 8)[1..][7 - k..] + [t.Match?];
    assert BitsOf(f, 8)[1..][7 - k..] == BitsOf(f, 8)[8 - k..];
    ShrBound(f', 7 - k, 8);
    ValOfBits(Shr(f', 7 - k), k + 1);
  }

  /** A byte shifted right by one with a new top bit. */
  lemma TopBit(f: byte, m: nat)
    requires m <= 1
    ensures BitOr(f / 2, 0x80 * m) == f / 2 + 128 * m < 256
    ensures BitsOf(f / 2 + 128 * m, 8) == BitsOf(f, 8)[1..] + [m == 1]
  {
    hide *;
    OneBit(f, m);
    Pow2Values();
    BitOrDisjoint(f / 2, m, 7);
    SplitBits(f, 1, 8);
    BitsOfJoin(f / 2, 7, m, 1);
  }

  lemma OneBit(f: byte, m: nat)
    requires m <= 1
    ensures Shr(f, 1) == f / 2 && BitsOf(m, 1) == [m == 1]
  {
    assert Shr(f / 2, 0) == f / 2 && BitsOf(m / 2, 0) == [];
  }
}
