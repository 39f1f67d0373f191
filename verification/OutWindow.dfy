/** The decompressor's output: a buffer for everything, filled in pieces, or a circular buffer of
    32768 bytes that the caller empties whenever it is full. */
module OutWindow {
  import opened Bits
  import opened Tokens
  import Adler = Adler32

  class OutWindow {
    const buf: array<byte>
    const wrapping: bool
    const budget: nat        // with a circular buffer: when the caller stops asking for more
    var cur: nat             // where the next byte goes (pOut_buf_cur)
    var end: nat             // end of the piece that may be written (pOut_buf_end)
    var taken: nat           // bytes of earlier rounds through the circular buffer
    var from: nat            // where the current call started to write (pOut_buf_next)
    var check: u32           // checksum of everything before that (m_check_adler32)
    ghost var all: seq<byte> // everything put out so far

    constructor (buf: array<byte>, wrapping: bool, budget: nat)
      requires wrapping ==> buf.Length == LZ_DICT_SIZE
      ensures Valid() && all == [] && this.buf == buf && this.wrapping == wrapping && this.budget == budget
    {
      this.buf, this.wrapping, this.budget := buf, wrapping, budget;
      cur, end, taken, from, check, all := 0, if wrapping then buf.Length else 0, 0, 0, 1, [];
      new;
      hide *;
      StartCheck();
    }

    lemma StartCheck()
      requires from == cur == taken == 0 && all == [] && check == 1
      requires if wrapping then end == buf.Length == LZ_DICT_SIZE else end == 0
      ensures Valid()
    {
      Adler.UpdateNothing(1);
      hide Adler.Update;
      assert buf[0..0] == [] && all[..0] == [];
    }

    /** Where byte `i` of the output is, as long as it is there. */
    function Index(i: int): int {
      if wrapping then i % LZ_DICT_SIZE else i
    }

    /** The buffer holds the output `a`, or its last 32768 bytes. */
    ghost predicate Holds(b: seq<byte>, a: seq<byte>) {
      forall i: nat :: i < |a| && (wrapping ==> |a| <= i + LZ_DICT_SIZE) ==>
        0 <= Index(i) < |b| && b[Index(i)] == a[i]
    }

    lemma HoldsOne(b: seq<byte>, a: seq<byte>, at: nat, x: byte)
      requires Holds(b, a) && at == Index(|a|) && at < |b|
      ensures Holds(b[at := x], a + [x])
    {
    }

    lemma ByteAt(i: nat)
      requires Placed() && i < |all| && (wrapping ==> |all| <= i + LZ_DICT_SIZE)
      ensures 0 <= Index(i) < buf.Length && buf[Index(i)] == all[i]
    {
    }

    /** The buffer holds the end of the output: all of it, or the last 32768 bytes; and the checksum is right. */
    ghost predicate Valid()
      reads this, buf
    {
      Placed() && Checked()
    }

    ghost predicate Placed()
      reads this, buf
    {
      cur <= end && |all| == taken + cur && Numbers() && Holds(buf[..], all)
    }

    /** The checksum covers all but the bytes of the current call. */
    ghost predicate Checked()
      reads this, buf
    {
      && from <= cur <= buf.Length && cur - from <= |all|
      && check == Adler.Update(1, all[..|all| - (cur - from)])
      && buf[from..cur] == all[|all| - (cur - from)..]
    }

    /** Brings the checksum up to date, as `tinfl_decompress` does whenever it returns to its caller. */
    method Settle()
      requires Checked()
      modifies this`from, this`check
      ensures Checked() && from == cur && check == Adler.Update(1, all)
    {
      ghost var n := |all| - (cur - from);
      assert all == all[..n] + all[n..];
      Adler.UpdateAppend(1, all[..n], all[n..]);
      hide *;
      check := Adler.MzAdler32(check, buf[from..cur]);
      from := cur;
      SettledNow();
    }

    /** The last call has returned: the checksum covers everything. */
    method Close()
      requires Valid()
      modifies this`from, this`check
      ensures Valid() && check == Adler.Update(1, all)
    {
      hide Checked, Holds, Adler.Update;
      Settle();
    }

    lemma SettledNow()
      requires from == cur <= buf.Length && check == Adler.Update(1, all)
      ensures Checked()
    {
      assert all[..|all|] == all;
      hide Adler.Update;
    }

    /** There is no room any more. */
    ghost predicate Full()
      reads this`all
    {
      if wrapping then |all| >= budget else |all| == buf.Length
    }

    /** Waits until there is room for at least one byte; the caller may have had enough. */
    method AwaitOutput() returns (ok: bool)
      requires Valid()
      modifies this`cur, this`end, this`taken, this`from, this`check
      ensures Valid() && (ok ==> cur < end)
      ensures !ok ==> Full()
    {
      hide Checked, Adler.Update, Holds;
      if cur >= end {
        Settle();
        if wrapping {
          if taken + cur >= budget { return false; }
          NextRound();
        } else {
          if end == buf.Length { return false; }
          var e: nat :| end < e <= buf.Length;
          end := e;
          SettledNow();
        }
      }
      ok := true;
    }

    /** Starts at the beginning of the circular buffer again. */
    method NextRound()
      requires Placed() && wrapping && cur == end && taken + cur < budget && check == Adler.Update(1, all)
      modifies this`cur, this`taken, this`from
      ensures Valid() && cur < end
    {
      hide Checked, Adler.Update, Holds;
      taken := taken + cur;
      cur, from := 0, 0;
      SettledNow();
    }

    lemma NextPlace()
      requires Valid() && cur < end
      ensures Index(|all|) == cur && end <= buf.Length && Holds(buf[..], all)
      ensures from <= cur && cur - from <= |all| && check == Adler.Update(1, all[..|all| - (cur - from)])
      ensures buf[from..cur] == all[|all| - (cur - from)..]
      ensures |all| == taken + cur && Numbers()
    {
      hide Holds, Adler.Update;
    }

    /** What is said about the numbers. */
    ghost predicate Numbers()
      reads this`end, this`taken
    {
      && end <= buf.Length && (!wrapping ==> taken == 0)
      && (wrapping ==> end == buf.Length == LZ_DICT_SIZE && taken % LZ_DICT_SIZE == 0 && (taken < budget || taken == 0))
    }

    lemma IsPlaced()
      requires cur <= end && Numbers() && |all| == taken + cur && Holds(buf[..], all)
      ensures Placed()
    {
      hide Holds;
    }

    method Put(b: byte)
      requires Valid() && cur < end
      modifies this`cur, this`all, buf
      ensures Valid() && all == old(all) + [b] && cur == old(cur) + 1
    {
      hide *;
      NextPlace();
      ghost var was, bytes, n, part := all, buf[..], |all| - (cur - from), buf[from..cur];
      HoldsOne(bytes, was, cur, b);
      buf[cur] := b;
      assert buf[..] == bytes[cur := b] && buf[from..cur + 1] == part + [b];
      cur := cur + 1;
      all := all + [b];
      StillChecked(was, n, b);
      IsPlaced();
      IsValid();
    }

    lemma IsValid()
      ensures Valid() <==> Placed() && Checked()
    {
    }

    lemma StillChecked(was: seq<byte>, n: nat, b: byte)
      requires n <= |was| && all == was + [b] && from <= cur <= buf.Length && |all| - (cur - from) == n
      requires check == Adler.Update(1, was[..n]) && buf[from..cur] == was[n..] + [b]
      ensures Checked()
    {
      hide Adler.Update;
      assert all[..n] == was[..n] && all[n..] == was[n..] + [b];
    }

    /** After the output `h`, a reference `dist` bytes back is to a byte that is still there. */
    predicate Reaches(h: seq<byte>, dist: nat) {
      1 <= dist <= |h| && (wrapping ==> dist <= LZ_DICT_SIZE)
    }

    /** The output so far is `h`, followed by a copy from `dist` bytes back if that was possible. */
    ghost predicate Copying(h: seq<byte>, dist: nat)
      reads this`all
    {
      h <= all && (Reaches(h, dist) ==> forall i: nat :: |h| <= i < |all| ==> Repeats(all, dist, i))
    }

    lemma NothingCopied(dist: nat)
      ensures Copying(all, dist)
    {
    }

    lemma ByteBack(dist: nat, h: seq<byte>)
      requires Placed() && h <= all && Reaches(h, dist)
      ensures 0 <= Index(|all| - dist) < buf.Length && buf[Index(|all| - dist)] == all[|all| - dist]
    {
      ByteAt(|all| - dist);
    }

    lemma RoomLeft()
      requires Placed()
      ensures end <= buf.Length
    {
    }

    /** One byte of a match: the byte at `from`, which is `dist` bytes back. */
    method CopyByte(from: nat, dist: nat, ghost h: seq<byte>)
      requires Valid() && cur < end && from < buf.Length && Copying(h, dist)
      requires Reaches(h, dist) ==> from == Index(|all| - dist)
      modifies this`cur, this`all, buf
      ensures Valid() && Copying(h, dist) && |all| == |old(all)| + 1 && cur == old(cur) + 1 && old(all) <= all
    {
      hide Checked, Placed, Index;
      ghost var was := all;
      if Reaches(h, dist) { ByteBack(dist, h); }
      RoomLeft();
      hide Valid;
      Put(buf[from]);
      if Reaches(h, dist) {
        forall i: nat | |h| <= i < |all| ensures Repeats(all, dist, i) {
          if i < |was| { assert Repeats(was, dist, i); }
        }
      }
    }

    /** Copies a match byte by byte; the output may run full in the middle. */
    method CopySlowly(dist: nat, len: nat) returns (ok: bool)
      requires Valid() && (!wrapping ==> 1 <= dist <= cur)
      modifies this`cur, this`end, this`taken, this`from, this`check, this`all, buf
      ensures Valid() && old(all) <= all && Copying(old(all), dist)
      ensures ok ==> |all| == |old(all)| + len
      ensures !ok ==> Full() && |all| < |old(all)| + len
    {
      ghost var h := all;
      NothingCopied(dist);
      var from: nat, counter := cur, len;
      StartSlow(dist);
      hide *;
      while counter > 0
        invariant Valid() && Copying(h, dist) && h <= all && 0 <= counter <= len && |all| == |h| + len - counter
        invariant SlowFrom(from, dist)
      {
        ok := AwaitOutput();
        if !ok { return; }
        from := SlowByte(from, dist, h);
        counter := counter - 1;
      }
      ok := true;
    }

    ghost predicate SlowFrom(from: nat, dist: nat)
      reads this`all
    {
      if wrapping then from % LZ_DICT_SIZE == |all| % LZ_DICT_SIZE else from == |all| && 1 <= dist <= from
    }

    lemma StartSlow(dist: nat)
      requires Placed() && (!wrapping ==> 1 <= dist <= cur)
      ensures SlowFrom(cur, dist)
    {
    }

    method SlowByte(from: nat, dist: nat, ghost h: seq<byte>) returns (next: nat)
      requires Valid() && cur < end && Copying(h, dist) && SlowFrom(from, dist)
      modifies this`cur, this`all, buf
      ensures Valid() && Copying(h, dist) && |all| == |old(all)| + 1 && h <= all
      ensures SlowFrom(next, dist)
    {
      hide Checked;
      var at: nat := if wrapping then (from - dist) % LZ_DICT_SIZE else from - dist;
      SlowIndex(from, dist, h, at);
      NextIndex(from, |all|);
      ghost var n := |all|;
      assert h <= all;
      hide Valid, Copying, Reaches, Index;
      CopyByte(at, dist, h);
      next := from + 1;
    }

    lemma SlowIndex(from: nat, dist: nat, h: seq<byte>, at: nat)
      requires Placed() && cur < end && SlowFrom(from, dist) && h <= all
      requires at == if wrapping then (from - dist) % LZ_DICT_SIZE else from - dist
      ensures at < buf.Length && (Reaches(h, dist) ==> at == Index(|all| - dist))
    {
      if wrapping && Reaches(h, dist) { SameIndex(from, |all|, dist); }
    }

    /** Copies a match that fits the current piece three bytes at a time. */
    method CopyFast(dist: nat, len: nat, src: nat)
      requires Valid() && cur + len <= end && src + len <= end && (Reaches(all, dist) ==> src == Index(|all| - dist))
      modifies this`cur, this`all, buf
      ensures Valid() && old(all) <= all && Copying(old(all), dist) && |all| == |old(all)| + len
    {
      ghost var h := all;
      NothingCopied(dist);
      hide *;
      var from: nat, counter := src, len;
      while counter > 2
        invariant Valid() && Copying(h, dist) && h <= all && 0 <= counter <= len && |all| == |h| + len - counter
        invariant cur + counter <= end && from + counter <= end
        invariant Reaches(h, dist) && from < end ==> from == Index(|all| - dist)
      {
        CopyNext(from, dist, h);
        CopyNext(from + 1, dist, h);
        CopyNext(from + 2, dist, h);
        from := from + 3;
        counter := counter - 3;
      }
      if counter > 0 {
        CopyNext(from, dist, h);
        if counter > 1 {
          CopyNext(from + 1, dist, h);
        }
      }
    }

    method CopyNext(from: nat, dist: nat, ghost h: seq<byte>)
      requires Valid() && cur < end && from < end && Copying(h, dist)
      requires Reaches(h, dist) ==> from == Index(|all| - dist)
      modifies this`cur, this`all, buf
      ensures Valid() && Copying(h, dist) && |all| == |old(all)| + 1 && cur == old(cur) + 1 && h <= all
      ensures Reaches(h, dist) && from + 1 < end ==> from + 1 == Index(|all| - dist)
    {
      hide Checked, Index, Holds;
      FastIndex(from, dist, h);
      CopyByte(from, dist, h);
    }

    lemma FastIndex(from: nat, dist: nat, h: seq<byte>)
      requires Placed() && from < end && h <= all && (Reaches(h, dist) ==> from == Index(|all| - dist))
      ensures Reaches(h, dist) && from + 1 < end ==> from + 1 == Index(|all| + 1 - dist)
    {
    }

    /** Copies a match of the output: three bytes at a time if it fits, or else byte by byte. */
    method CopyMatch(dist: nat, len: nat) returns (ok: bool)
      requires Valid() && (!wrapping ==> 1 <= dist <= cur)
      modifies this`cur, this`end, this`taken, this`from, this`check, this`all, buf
      ensures Valid() && old(all) <= all
      ensures ok ==> |all| == |old(all)| + len
      ensures ok && Reaches(old(all), dist) ==> all == Copy(old(all), dist, len)
      ensures Reaches(old(all), dist) ==> all <= Copy(old(all), dist, len)
      ensures !ok ==> Full() && |all| < |old(all)| + len
    {
      ghost var h := all;
      hide *;
      WindowSize();
      var src: nat := if wrapping then (cur - dist) % LZ_DICT_SIZE else cur - dist;
      FastStart(dist, src);
      if (if cur > src then cur else src) + len > end {
        ok := CopySlowly(dist, len);
      } else {
        CopyFast(dist, len, src);
        ok := true;
      }
      CopiedIs(h, dist, len);
    }

    static lemma WindowSize()
      ensures LZ_DICT_SIZE == 32768
    {
    }

    lemma CopiedIs(h: seq<byte>, dist: nat, len: nat)
      requires Copying(h, dist) && |all| <= |h| + len
      ensures Reaches(h, dist) ==>
        all <= Copy(h, dist, len) && (|all| == |h| + len ==> all == Copy(h, dist, len))
    {
      if Reaches(h, dist) {
        CopyIs(h, dist, all);
        CopyPrefix(h, dist, |all| - |h|, len);
      }
    }

    lemma FastStart(dist: nat, src: nat)
      requires Valid() && (!wrapping ==> 1 <= dist <= cur)
      requires src == if wrapping then (cur - dist) % LZ_DICT_SIZE else cur - dist
      ensures Reaches(all, dist) ==> src == Index(|all| - dist)
    {
      PlaceOf();
      hide Valid;
      if wrapping && Reaches(all, dist) { SameIndex(cur, |all|, dist); }
    }

    lemma PlaceOf()
      requires Valid()
      ensures if wrapping then cur % LZ_DICT_SIZE == |all| % LZ_DICT_SIZE else cur == |all|
    {
      hide Checked, Holds;
      if wrapping { SameRound(taken, cur); }
    }

    static lemma SameRound(a: nat, b: nat)
      requires a % LZ_DICT_SIZE == 0
      ensures (a + b) % LZ_DICT_SIZE == b % LZ_DICT_SIZE
    {
    }
  }

  lemma {:induction false} CopyPrefix(h: seq<byte>, dist: nat, k: nat, n: nat)
    requires 1 <= dist <= |h| && k <= n
    ensures Copy(h, dist, k) <= Copy(h, dist, n)
    decreases k
  {
    if k > 0 { CopyPrefix(h + [h[|h| - dist]], dist, k - 1, n - 1); }
  }

  lemma NextIndex(i: nat, j: nat)
    ensures i % LZ_DICT_SIZE == j % LZ_DICT_SIZE ==> (i + 1) % LZ_DICT_SIZE == (j + 1) % LZ_DICT_SIZE
  {
  }

  lemma SameIndex(i: nat, j: nat, dist: nat)
    requires i % LZ_DICT_SIZE == j % LZ_DICT_SIZE && dist <= j
    ensures (i - dist) % LZ_DICT_SIZE == (j - dist) % LZ_DICT_SIZE
  {
  }
}
