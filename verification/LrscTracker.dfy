/** The scoreboard's LR/SC reservation (`hpdcache_test_scoreboard::core_req_process`): which
    store-conditionals may be atomic. */
module LrscTracker {
  import opened Bits

  /** What a core request does; the atomic operations other than LR and SC are one kind. */
  datatype Op = Load | Store | Amo | LoadReserved | StoreConditional | Cmo

  /** An accepted request for `Pow2(size)` bytes; `error`: it touches an error segment. */
  datatype Request = Request(op: Op, addr: nat, size: nat, error: bool) {
    function Bytes(): nat { Pow2(size) }
  }

  /** What the entry of a request says afterwards. */
  datatype Entry = Entry(error: bool, atomic: bool)

  // ---------------------------------------------------------------- words

  function Line(addr: nat, line: nat): nat
    requires line > 0
  {
    addr / line
  }

  function Offset(addr: nat, line: nat): nat
    requires line > 0
  {
    addr % line
  }

  function Words(bytes: nat): nat { if bytes < 8 then 1 else bytes / 8 }

  /** The comparison the scoreboard makes: same line, and the word of `base` is among those counted. */
  predicate Covers(r: Request, base: nat, line: nat)
    requires line > 0
  {
    && Line(base, line) == Line(r.addr, line)
    && Offset(r.addr, line) / 8 <= Offset(base, line) / 8 < Offset(r.addr, line) / 8 + Words(r.Bytes())
  }

  /** One of the request's bytes lies in the 8-byte word of `base`. */
  ghost predicate Touches(r: Request, base: nat) {
    exists b: nat :: InRequest(r, b) && b / 8 == base / 8
  }

  predicate InRequest(r: Request, b: nat) { r.addr <= b < r.addr + r.Bytes() }

  /** The request's bytes stay within the words counted for it, and those within its line. */
  predicate Contained(r: Request, line: nat)
    requires line > 0
  {
    && r.addr % 8 + r.Bytes() <= 8 * Words(r.Bytes())
    && Offset(r.addr, line) / 8 + Words(r.Bytes()) <= line / 8
  }

  lemma WordOf(addr: nat, line: nat)
    requires line > 0 && line % 8 == 0
    ensures addr / 8 == line / 8 * Line(addr, line) + Offset(addr, line) / 8 && Offset(addr, line) / 8 < line / 8
    ensures addr % 8 == Offset(addr, line) % 8
  {
    var q, k := addr / line, line / 8;
    assert addr == line * q + addr % line;
    assert line * q == 8 * (k * q);
  }

  lemma TouchesIs(r: Request, base: nat)
    ensures Touches(r, base) <==> r.addr / 8 <= base / 8 <= (r.addr + r.Bytes() - 1) / 8
  {
    PowPos(r.size);
    if r.addr / 8 <= base / 8 <= (r.addr + r.Bytes() - 1) / 8 {
      var b := if base / 8 == r.addr / 8 then r.addr else base / 8 * 8;
      assert InRequest(r, b) && b / 8 == base / 8;
    }
  }

  lemma PowPos(n: nat)
    ensures Pow2(n) >= 1 && (n < 3 <==> Pow2(n) < 8) && (n >= 3 ==> Pow2(n) % 8 == 0)
  {
    if n == 3 { assert Pow2(3) == 8; } else if n > 3 { PowPos(n - 1); }
    assert Pow2(0) == 1 && Pow2(1) == 2 && Pow2(2) == 4;
  }

  /** With word `a` as the first of the request and `l` as its last, the words the comparison finds. */
  lemma CoversIs(r: Request, base: nat, line: nat)
    requires line > 0 && line % 8 == 0
    ensures Covers(r, base, line) <==>
      r.addr / 8 <= base / 8 < r.addr / 8 + Words(r.Bytes()) && base / 8 < line / 8 * (Line(r.addr, line) + 1)
  {
    WordOf(base, line);
    WordOf(r.addr, line);
    SameLine(line / 8, Line(base, line), Offset(base, line) / 8, Line(r.addr, line), Offset(r.addr, line) / 8);
    hide Line, Offset, Words;
  }

  lemma SameLine(k: nat, p: nat, v: nat, q: nat, w: nat)
    requires v < k && w < k
    ensures p == q <==> k * q <= k * p + v < k * (q + 1)
    ensures k * p + v >= k * q + w ==> k * p + v >= k * q
  {
    MulDistrib(k, q, 1);
    if p < q { MulDistrib(k, q, p + 1); MulDistrib(k, p, 1); MulAtLeast(k, q - p); MulMono(k, p + 1, q); }
    if p > q { MulMono(k, q + 1, p); }
  }

  /** The comparison finds exactly the words a request touches if and only if the request is contained
      in its words and its line. */
  lemma CoversTouches(r: Request, line: nat)
    requires line > 0 && line % 8 == 0
    ensures (forall base: nat :: Covers(r, base, line) <==> Touches(r, base)) <==> Contained(r, line)
  {
    PowPos(r.size);
    WordOf(r.addr, line);
    var a, n, k := r.addr / 8, Words(r.Bytes()), line / 8;
    var l := (r.addr + r.Bytes() - 1) / 8;
    var end := k * (Line(r.addr, line) + 1);
    assert end == k * Line(r.addr, line) + k;
    forall base: nat
      ensures Covers(r, base, line) <==> a <= base / 8 < a + n && base / 8 < end
      ensures Touches(r, base) <==> a <= base / 8 <= l
    {
      CoversIs(r, base, line);
      TouchesIs(r, base);
    }
    LastWord(r.addr, r.Bytes());
    assert Contained(r, line) <==> l + 1 == a + n && a + n <= end;
    hide Covers, Touches, Contained, Words, Line;
    var last := 8 * l;
    assert Touches(r, last);
    if l + 1 > a + n || l + 1 > end {
      assert !Covers(r, last, line);
    }
  }

  lemma LastWord(addr: nat, bytes: nat)
    requires bytes >= 1 && (bytes >= 8 ==> bytes % 8 == 0)
    ensures addr % 8 + bytes <= 8 * Words(bytes) ==> (addr + bytes - 1) / 8 + 1 == addr / 8 + Words(bytes)
    ensures addr % 8 + bytes > 8 * Words(bytes) ==> (addr + bytes - 1) / 8 + 1 > addr / 8 + Words(bytes)
    ensures (addr + bytes - 1) / 8 >= addr / 8
  {
  }

  /** Requests aligned to their size are contained, if lines are a multiple of words and of that size. */
  lemma AlignedContained(r: Request, line: nat)
    requires line > 0 && line % 8 == 0 && r.addr % r.Bytes() == 0 && line % r.Bytes() == 0
    ensures Contained(r, line)
  {
    PowPos(r.size);
    OffsetAligned(r.addr, line, r.Bytes());
    AlignedInWord(r.addr, r.Bytes(), r.size);
    WordOf(r.addr, line);
    hide Pow2;
  }

  lemma AlignedInWord(addr: nat, n: nat, size: nat)
    requires n == Pow2(size) && n > 0 && addr % n == 0
    ensures if n < 8 then addr % 8 + n <= 8 else addr % 8 == 0 && n % 8 == 0
  {
    PowPos(size);
    hide *;
    if n < 8 {
      SmallSizes(size);
      SmallAligned(addr, n);
    } else {
      var q, _ := DivMod(addr, n);
      EightTimes(addr, n, n / 8, q);
    }
  }

  lemma SmallAligned(addr: nat, n: nat)
    requires (n == 1 || n == 2 || n == 4) && addr % n == 0
    ensures addr % 8 + n <= 8
  {
    if n == 2 {
      DivUnique(addr, 8, addr / 2 / 4, 2 * (addr / 2 % 4));
    } else if n == 4 {
      DivUnique(addr, 8, addr / 4 / 2, 4 * (addr / 4 % 2));
    }
  }

  lemma SmallSizes(size: nat)
    requires Pow2(size) < 8
    ensures Pow2(size) == 1 || Pow2(size) == 2 || Pow2(size) == 4
  {
    PowPos(size);
    assert Pow2(0) == 1 && Pow2(1) == 2 && Pow2(2) == 4;
  }

  lemma EightTimes(addr: nat, n: nat, k: nat, q: nat)
    requires n == 8 * k && addr == n * q
    ensures addr % 8 == 0
  {
    assert addr == 8 * (k * q);
  }

  /** The offset of an aligned address is aligned, so that a whole unit follows it in the line. */
  lemma OffsetAligned(addr: nat, line: nat, n: nat)
    requires line > 0 && n > 0 && addr % n == 0 && line % n == 0
    ensures Offset(addr, line) + n <= line
  {
    var a, m, q := addr / n, line / n, addr / line;
    var c := a - m * q;
    assert addr == n * a && line == n * m && line * q == n * (m * q);
    MulDistrib(n, a, m * q);
    assert Offset(addr, line) == n * c;
    Between(n, c, m);
  }

  lemma Between(n: nat, c: int, m: nat)
    requires 0 <= n * c < n * m
    ensures n * c + n <= n * m
  {
    if c >= m { MulMono(n, m, c); } else { MulDistrib(n, m, c); MulAtLeast(n, m - c); }
  }

  // ---------------------------------------------------------------- histories

  predicate Writes(op: Op) { op == Store || op == Amo }

  predicate MakesReservation(r: Request) { r.op == LoadReserved && !r.error }

  /** The request neither replaces nor ends a reservation of the word of `base`. */
  predicate Keeps(r: Request, base: nat, line: nat)
    requires line > 0
  {
    r.op != LoadReserved && r.op != StoreConditional && !(Writes(r.op) && Covers(r, base, line))
  }

  /** Before request `n`, the reservation of request `j` is there. */
  predicate Reserved(h: seq<Request>, j: nat, n: nat, line: nat)
    requires line > 0 && n <= |h|
  {
    j < n && MakesReservation(h[j]) && forall i :: j < i < n ==> Keeps(h[i], h[j].addr, line)
  }

  /** Request `n` is an SC; the latest LR before it met no error; since then there has been no SC, and no
      store or AMO that covers the reserved word; and the SC itself covers that word. */
  ghost predicate MayBeAtomic(h: seq<Request>, n: nat, line: nat)
    requires line > 0 && n < |h|
  {
    h[n].op == StoreConditional && exists j: nat :: Reserved(h, j, n, line) && Covers(h[n], h[j].addr, line)
  }

  /** Some LR or SC is among the first `n` requests. */
  predicate Settled(h: seq<Request>, n: nat)
    requires n <= |h|
  {
    exists i :: 0 <= i < n && (h[i].op == LoadReserved || h[i].op == StoreConditional)
  }

  /** A reservation buffer that says what the first `n` requests mean. */
  ghost predicate Tracks(h: seq<Request>, n: nat, line: nat, valid: bool, base: nat)
    requires line > 0 && n <= |h|
  {
    && (valid <==> exists j: nat :: Reserved(h, j, n, line))
    && (valid ==> forall j: nat :: Reserved(h, j, n, line) ==> base == h[j].addr)
  }

  /** How one request carries reservations on. */
  lemma ReservedNext(h: seq<Request>, j: nat, n: nat, line: nat)
    requires line > 0 && n < |h|
    ensures Reserved(h, j, n + 1, line) <==>
      (j == n && MakesReservation(h[n])) || (Reserved(h, j, n, line) && Keeps(h[n], h[j].addr, line))
  {
  }

  /** The buffer after request `r`. */
  function Next(r: Request, line: nat, valid: bool, base: nat): (next: (bool, nat))
    requires line > 0
  {
    if r.op == LoadReserved then (!r.error, if r.error then base else r.addr)
    else (valid && r.op != StoreConditional && !(Writes(r.op) && Covers(r, base, line)), base)
  }

  lemma {:induction false} TracksNext(h: seq<Request>, n: nat, line: nat, valid: bool, base: nat)
    requires line > 0 && n < |h|
    requires Tracks(h, n, line, valid, base) || h[n].op == LoadReserved || h[n].op == StoreConditional
    ensures var next := Next(h[n], line, valid, base); Tracks(h, n + 1, line, next.0, next.1)
  {
    var next := Next(h[n], line, valid, base);
    var m := n + 1;
    forall j: nat
      ensures Reserved(h, j, m, line) <==>
        (j == n && MakesReservation(h[n])) || (Reserved(h, j, n, line) && Keeps(h[n], h[j].addr, line))
    {
      ReservedNext(h, j, n, line);
    }
    hide Reserved, Covers;
    if next.0 {
      if h[n].op == LoadReserved {
        assert Reserved(h, n, m, line);
      } else {
        var j: nat :| Reserved(h, j, n, line);
        assert Reserved(h, j, m, line);
      }
    }
  }

  lemma TracksAtomic(h: seq<Request>, n: nat, line: nat, valid: bool, base: nat)
    requires line > 0 && n < |h| && h[n].op == StoreConditional && Tracks(h, n, line, valid, base)
    ensures valid && Covers(h[n], base, line) <==> MayBeAtomic(h, n, line)
  {
    hide Reserved, Covers;
    if valid { var j: nat :| Reserved(h, j, n, line); }
  }

  /** The same in terms of bytes: no store or AMO since the LR has touched a byte of the reserved word,
      and the SC touches one. */
  ghost predicate KeepsBytes(r: Request, base: nat) {
    r.op != LoadReserved && r.op != StoreConditional && !(Writes(r.op) && Touches(r, base))
  }

  ghost predicate ReservedBytes(h: seq<Request>, j: nat, n: nat)
    requires n <= |h|
  {
    j < n && MakesReservation(h[j]) && forall i :: j < i < n ==> KeepsBytes(h[i], h[j].addr)
  }

  ghost predicate AtomicBytes(h: seq<Request>, n: nat)
    requires n < |h|
  {
    h[n].op == StoreConditional && exists j: nat :: ReservedBytes(h, j, n) && Touches(h[n], h[j].addr)
  }

  /** The stores, AMOs and SCs up to request `n` stay in their words and lines. */
  predicate AllContained(h: seq<Request>, n: nat, line: nat)
    requires line > 0 && n < |h|
  {
    forall i :: 0 <= i <= n && (Writes(h[i].op) || h[i].op == StoreConditional) ==> Contained(h[i], line)
  }

  /** For contained requests the scoreboard's history is the one of the bytes. */
  lemma AtomicMeansBytes(h: seq<Request>, n: nat, line: nat)
    requires line > 0 && line % 8 == 0 && n < |h| && AllContained(h, n, line)
    ensures MayBeAtomic(h, n, line) <==> AtomicBytes(h, n)
  {
    forall i: nat, base: nat | i <= n && (Writes(h[i].op) || h[i].op == StoreConditional)
      ensures Covers(h[i], base, line) <==> Touches(h[i], base)
    {
      CoversTouches(h[i], line);
    }
    hide Covers, Touches;
    forall j: nat ensures Reserved(h, j, n, line) <==> ReservedBytes(h, j, n) {
      if j < n {
        forall i | j < i < n ensures Keeps(h[i], h[j].addr, line) <==> KeepsBytes(h[i], h[j].addr) {}
      }
    }
  }

  /** Among the first `n` requests: the LRs without error, and the SCs that may be atomic. */
  function Reservations(h: seq<Request>, n: nat): nat
    requires n <= |h|
  {
    if n == 0 then 0 else Reservations(h, n - 1) + if MakesReservation(h[n - 1]) then 1 else 0
  }

  ghost function AtomicScs(h: seq<Request>, n: nat, line: nat): nat
    requires line > 0 && n <= |h|
  {
    if n == 0 then 0 else AtomicScs(h, n - 1, line) + if MayBeAtomic(h, n - 1, line) then 1 else 0
  }

  /** Every SC that may be atomic uses up an LR of its own. */
  lemma {:induction false} OneEach(h: seq<Request>, n: nat, line: nat)
    requires line > 0 && n <= |h|
    ensures AtomicScs(h, n, line) <= Reservations(h, n)
    ensures (exists j: nat :: Reserved(h, j, n, line)) ==> AtomicScs(h, n, line) < Reservations(h, n)
  {
    if n > 0 {
      var m := n - 1;
      OneEach(h, m, line);
      if MayBeAtomic(h, m, line) { var j: nat :| Reserved(h, j, m, line); }
      forall j: nat
        ensures Reserved(h, j, n, line) <==>
          (j == m && MakesReservation(h[m])) || (Reserved(h, j, m, line) && Keeps(h[m], h[j].addr, line))
      {
        ReservedNext(h, j, m, line);
      }
      hide Reserved, Covers;
    }
  }

  // ---------------------------------------------------------------- the tracker

  class LrscTracker {
    const line: nat
    var valid: bool
    var baseAddr: nat
    var endAddr: nat
    var isAtomic: bool

    /** The buffer starts with arbitrary contents. */
    constructor (line: nat, valid: bool, baseAddr: nat)
      requires line > 0
      ensures this.line == line && this.valid == valid && this.baseAddr == baseAddr
    {
      this.line, this.valid, this.baseAddr := line, valid, baseAddr;
    }

    /** One accepted request. */
    method Process(r: Request) returns (e: Entry)
      requires line > 0
      modifies this
      ensures (valid, baseAddr) == Next(r, line, old(valid), old(baseAddr))
      ensures (endAddr, isAtomic) == if MakesReservation(r) then (r.addr + 8, false) else old((endAddr, isAtomic))
      ensures e.atomic <==> r.op == StoreConditional && old(valid) && Covers(r, old(baseAddr), line)
      ensures e.error <==> r.error && (r.op == StoreConditional ==> e.atomic)
    {
      e := Entry(r.error, false);
      if r.op == LoadReserved {
        if !e.error {
          valid, baseAddr, endAddr, isAtomic := true, r.addr, r.addr + 8, false;
        } else {
          valid := false;
        }
      }
      if r.op == Amo || r.op == StoreConditional || r.op == Store {
        var rsrvLine, rsrvWord := Line(baseAddr, line), Offset(baseAddr, line) / 8;
        var entryLine := Line(r.addr, line);
        var entryWords := if r.Bytes() < 8 then 1 else r.Bytes() / 8;
        var entryBase := Offset(r.addr, line) / 8;
        var entryEnd := entryBase + entryWords;
        var match_ := valid && rsrvLine == entryLine && rsrvWord >= entryBase && rsrvWord < entryEnd;
        if r.op == StoreConditional {
          e := Entry(e.error && match_, match_);
        }
        if match_ || r.op == StoreConditional {
          valid := false;
        }
      }
    }

    /** A run of the scoreboard over all accepted requests: an SC is flagged exactly when the history
        says it may be atomic, and it is an error only if it is flagged, too. If the buffer was not
        invalid to begin with, this holds for every SC but the first LR or SC of the run. */
    method Run(h: seq<Request>) returns (entries: seq<Entry>)
      requires line > 0
      modifies this
      ensures |entries| == |h|
      ensures forall n :: 0 <= n < |h| && (!old(valid) || Settled(h, n)) ==>
        (entries[n].atomic <==> MayBeAtomic(h, n, line))
      ensures forall n :: 0 <= n < |h| ==>
        (entries[n].error <==> h[n].error && (h[n].op == StoreConditional ==> entries[n].atomic))
    {
      entries := [];
      ghost var was := valid;
      RunStart(h, line, was, valid, baseAddr);
      hide *;
      for n := 0 to |h|
        invariant line > 0 && RunState(h, n, line, was, valid, baseAddr, entries)
      {
        ghost var v, b := valid, baseAddr;
        var e := Process(h[n]);
        RunNext(h, n, line, was, v, b, entries, e);
        entries := entries + [e];
      }
      RunEnd(h, line, was, valid, baseAddr, entries);
    }
  }

  /** After `n` requests: the buffer says what they mean, if it can, and their entries are right. */
  ghost predicate RunState(h: seq<Request>, n: nat, line: nat, was: bool, valid: bool, base: nat, entries: seq<Entry>)
    requires line > 0
  {
    && n <= |h| && |entries| == n && (!was || Settled(h, n) ==> Tracks(h, n, line, valid, base))
    && (forall i :: 0 <= i < n ==> Flagged(h, i, line, was, entries[i]))
  }

  ghost predicate Flagged(h: seq<Request>, n: nat, line: nat, was: bool, e: Entry)
    requires line > 0 && n < |h|
  {
    && (!was || Settled(h, n) ==> (e.atomic <==> MayBeAtomic(h, n, line)))
    && (e.error <==> h[n].error && (h[n].op == StoreConditional ==> e.atomic))
  }

  lemma RunStart(h: seq<Request>, line: nat, was: bool, valid: bool, base: nat)
    requires line > 0 && (was <==> valid)
    ensures RunState(h, 0, line, was, valid, base, [])
  {
    if !valid { TracksStart(h, line, base); }
    SettledStart(h);
    hide Tracks, Settled;
  }

  lemma RunNext(h: seq<Request>, n: nat, line: nat, was: bool, valid: bool, base: nat, entries: seq<Entry>, e: Entry)
    requires line > 0 && n < |h| && RunState(h, n, line, was, valid, base, entries)
    requires e.atomic <==> h[n].op == StoreConditional && valid && Covers(h[n], base, line)
    requires e.error <==> h[n].error && (h[n].op == StoreConditional ==> e.atomic)
    ensures var next := Next(h[n], line, valid, base); RunState(h, n + 1, line, was, next.0, next.1, entries + [e])
  {
    SettledNext(h, n);
    hide Covers, Reserved, Tracks, Next, MayBeAtomic, Settled;
    if !was || Settled(h, n + 1) { TracksNext(h, n, line, valid, base); }
    if h[n].op == StoreConditional && (!was || Settled(h, n)) { TracksAtomic(h, n, line, valid, base); }
    NotSc(h, n, line);
    assert Flagged(h, n, line, was, e);
  }

  lemma RunEnd(h: seq<Request>, line: nat, was: bool, valid: bool, base: nat, entries: seq<Entry>)
    requires line > 0 && RunState(h, |h|, line, was, valid, base, entries)
    ensures |entries| == |h|
    ensures forall n :: 0 <= n < |h| && (!was || Settled(h, n)) ==> (entries[n].atomic <==> MayBeAtomic(h, n, line))
    ensures forall n :: 0 <= n < |h| ==>
      (entries[n].error <==> h[n].error && (h[n].op == StoreConditional ==> entries[n].atomic))
  {
  }

  lemma TracksStart(h: seq<Request>, line: nat, base: nat)
    requires line > 0
    ensures Tracks(h, 0, line, false, base)
  {
  }

  lemma SettledNext(h: seq<Request>, n: nat)
    requires n < |h|
    ensures Settled(h, n + 1) <==> Settled(h, n) || h[n].op == LoadReserved || h[n].op == StoreConditional
  {
  }

  lemma SettledStart(h: seq<Request>)
    ensures !Settled(h, 0)
  {
  }

  lemma NotSc(h: seq<Request>, n: nat, line: nat)
    requires line > 0 && n < |h|
    ensures MayBeAtomic(h, n, line) ==> h[n].op == StoreConditional
  {
  }
}
