/** The set-associative cache directory with bit-PLRU replacement of the cache's reference model
    (`GenericCacheDirectoryBase`, `GenericCacheDirectoryPlru`). */
module CacheDirectory {
  import opened Bits

  /** One way of one set; `used` is its PLRU bit. */
  datatype Way = Way(valid: bool, tag: nat, used: bool)

  // ---------------------------------------------------------------- one set

  predicate Holds(row: seq<Way>, w: nat, tag: nat) {
    w < |row| && row[w].valid && row[w].tag == tag
  }

  /** The tags of the lines a set holds. */
  ghost function Tags(row: seq<Way>): set<nat> {
    set w | 0 <= w < |row| && row[w].valid :: row[w].tag
  }

  /** Below a valid way no way has the same tag, not even an invalid one. */
  ghost predicate LowestFirst(row: seq<Way>) {
    forall v, w :: 0 <= v < w < |row| && row[w].valid ==> row[v].tag != row[w].tag
  }

  function Used(row: seq<Way>): (bits: seq<bool>)
    ensures |bits| == |row|
  {
    seq(|row|, w requires 0 <= w < |row| => row[w].used)
  }

  /** A set with room to choose a victim: not all PLRU bits are set. */
  predicate SomeClear(bits: seq<bool>) { exists w :: 0 <= w < |bits| && !bits[w] }

  ghost predicate RowOk(row: seq<Way>) {
    && LowestFirst(row) && (|row| >= 2 ==> SomeClear(Used(row)))
    && (|row| == 1 && row[0].valid ==> row[0].used)
  }

  // ---------------------------------------------------------------- PLRU bits

  function Only(n: nat, w: nat): (bits: seq<bool>)
    ensures |bits| == n
  {
    seq(n, v => v == w)
  }

  /** Marks way `w` as used; when that was the last one, all others become unused. */
  function Touch(bits: seq<bool>, w: nat): (r: seq<bool>)
    requires w < |bits|
    ensures |r| == |bits| && r[w]
  {
    var b := bits[w := true];
    if forall v :: 0 <= v < |b| ==> b[v] then Only(|b|, w) else b
  }

  /** With at least two ways there is always a clear bit afterwards, and never that of the way used last. */
  lemma TouchLeavesClear(bits: seq<bool>, w: nat)
    requires w < |bits|
    ensures SomeClear(Touch(bits, w)) <==> |bits| >= 2
  {
    var b := bits[w := true];
    if forall v :: 0 <= v < |b| ==> b[v] {
      if |bits| >= 2 { assert !Touch(bits, w)[if w == 0 then 1 else 0]; }
    } else {
      var v :| 0 <= v < |b| && !b[v];
      assert !Touch(bits, w)[v] && v != w;
    }
  }

  ghost function Clear(bits: seq<bool>): set<nat> {
    set w | 0 <= w < |bits| && !bits[w]
  }

  predicate IsVictim(bits: seq<bool>, w: nat) {
    w < |bits| && !bits[w] && forall v :: 0 <= v < w ==> bits[v]
  }

  /** A victim's bit leaves the clear ones; after the last one, all other ways are clear again. */
  lemma TouchClear(bits: seq<bool>, w: nat)
    requires w < |bits| && !bits[w]
    ensures Clear(bits) != {w} ==> Clear(Touch(bits, w)) == Clear(bits) - {w}
    ensures Clear(bits) == {w} ==> Clear(Touch(bits, w)) == Clear(Only(|bits|, w))
  {
    var b := bits[w := true];
    assert w in Clear(bits);
    if forall v :: 0 <= v < |b| ==> b[v] {
      assert forall v :: 0 <= v < |bits| && v != w ==> bits[v] == b[v];
      assert Clear(bits) == {w};
    } else {
      var v :| 0 <= v < |b| && !b[v];
      assert v in Clear(bits) && v != w;
    }
  }

  /** The victims of `k` misses in a full set. */
  ghost predicate Victims(bits: seq<bool>, ways: seq<nat>)
    decreases |ways|
  {
    ways == [] || (IsVictim(bits, ways[0]) && Victims(Touch(bits, ways[0]), ways[1..]))
  }

  /** From a full set with `k` clear bits, the next `k` misses evict `k` different ways: exactly
      those whose bits are clear. */
  lemma {:induction false} VictimsDistinct(bits: seq<bool>, ways: seq<nat>)
    requires Victims(bits, ways) && |ways| <= |Clear(bits)|
    ensures forall i, j :: 0 <= i < j < |ways| ==> ways[i] != ways[j]
    ensures forall i :: 0 <= i < |ways| ==> ways[i] in Clear(bits)
    ensures |ways| == |Clear(bits)| ==> Elements(ways) == Clear(bits)
    decreases |ways|
  {
    if ways != [] {
      var w, rest := ways[0], ways[1..];
      assert IsVictim(bits, w) && Victims(Touch(bits, w), rest);
      VictimClear(bits, w);
      TouchClear(bits, w);
      RemoveOne(Clear(bits), w);
      HeadAndRest(ways);
      hide *;
      if |ways| > 1 {
        VictimsDistinct(Touch(bits, w), rest);
      }
      HeadApart(ways, Clear(bits));
    } else {
      NoElements(Clear(bits));
    }
  }

  lemma VictimClear(bits: seq<bool>, w: nat)
    requires IsVictim(bits, w)
    ensures w < |bits| && !bits[w] && w in Clear(bits)
  {
  }

  lemma HeadApart(ways: seq<nat>, c: set<nat>)
    requires ways != [] && ways[0] in c
    requires var rest := ways[1..]; forall i, j :: 0 <= i < j < |rest| ==> rest[i] != rest[j]
    requires var rest := ways[1..]; forall i :: 0 <= i < |rest| ==> rest[i] in c - {ways[0]}
    ensures forall i, j :: 0 <= i < j < |ways| ==> ways[i] != ways[j]
    ensures forall i :: 0 <= i < |ways| ==> ways[i] in c
  {
    var rest := ways[1..];
    forall j | 0 < j < |ways| ensures ways[j] == rest[j - 1] {}
    forall i, j | 0 <= i < j < |ways| ensures ways[i] != ways[j] {
      if i > 0 { assert rest[i - 1] != rest[j - 1]; }
    }
  }

  lemma RemoveOne(a: set<nat>, w: nat)
    requires w in a
    ensures |a - {w}| == |a| - 1 && (|a| == 1 ==> a == {w}) && {w} + (a - {w}) == a
  {
    if |a| == 1 { assert a - {w} == {}; }
  }

  lemma NoElements(a: set<nat>)
    ensures |a| == 0 ==> a == {}
  {
  }

  ghost function Elements(s: seq<nat>): set<nat> { set x | x in s }

  lemma HeadAndRest(s: seq<nat>)
    requires s != []
    ensures Elements(s) == {s[0]} + Elements(s[1..])
  {
    assert s == [s[0]] + s[1..];
  }

  /** The set after way `w` has been used. */
  function Touched(row: seq<Way>, w: nat): (r: seq<Way>)
    requires w < |row|
    ensures |r| == |row|
  {
    var bits := Touch(Used(row), w);
    seq(|row|, v requires 0 <= v < |row| => row[v].(used := bits[v]))
  }

  lemma TouchedBits(row: seq<Way>, w: nat)
    requires w < |row|
    ensures Used(Touched(row, w)) == Touch(Used(row), w)
    ensures Tags(Touched(row, w)) == Tags(row)
    ensures LowestFirst(row) ==> RowOk(Touched(row, w))
  {
    TouchLeavesClear(Used(row), w);
    hide Touch;
    assert Used(Touched(row, w)) == Touch(Used(row), w);
    var r := Touched(row, w);
    forall t ensures t in Tags(r) <==> t in Tags(row) {
      if t in Tags(row) {
        var v :| 0 <= v < |row| && row[v].valid && row[v].tag == t;
        assert r[v].valid && r[v].tag == t;
      }
      if t in Tags(r) { var v :| 0 <= v < |r| && r[v].valid && r[v].tag == t; assert row[v].valid && row[v].tag == t; }
    }
  }

  // ---------------------------------------------------------------- filling and invalidating a set

  /** Way `w` takes the line with the given tag. */
  function Filled(row: seq<Way>, w: nat, tag: nat): (r: seq<Way>)
    requires w < |row|
    ensures |r| == |row|
  {
    Touched(row[w := row[w].(valid := true, tag := tag)], w)
  }

  /** The way that a miss fills: the first invalid one, or else the first whose PLRU bit is clear. */
  predicate FillsWay(row: seq<Way>, w: nat) {
    && w < |row|
    && if row[w].valid then (forall v :: 0 <= v < |row| ==> row[v].valid) && IsVictim(Used(row), w)
       else forall v :: 0 <= v < w ==> row[v].valid
  }

  /** A miss adds its line, removes the line of the way it fills, and nothing else. */
  lemma FillMiss(row: seq<Way>, w: nat, tag: nat)
    requires LowestFirst(row) && FillsWay(row, w) && tag !in Tags(row)
    ensures RowOk(Filled(row, w, tag))
    ensures Tags(Filled(row, w, tag)) == (if row[w].valid then Tags(row) - {row[w].tag} else Tags(row)) + {tag}
    ensures row[w].valid ==> row[w].tag in Tags(row)
  {
    var r := row[w := row[w].(valid := true, tag := tag)];
    forall v | 0 <= v < |row| && row[v].valid ensures row[v].tag in Tags(row) && row[v].tag != tag {
    }
    assert forall v, u :: 0 <= v < u < |row| && row[u].valid ==> row[v].tag != row[u].tag;
    FillLowest(row, w, tag);
    TouchedBits(r, w);
    hide Touched;
    forall t ensures t in Tags(r) <==> t in (if row[w].valid then Tags(row) - {row[w].tag} else Tags(row)) + {tag} {
      FillTags(row, w, tag, t);
    }
  }

  lemma FillLowest(row: seq<Way>, w: nat, tag: nat)
    requires LowestFirst(row) && FillsWay(row, w) && tag !in Tags(row)
    ensures LowestFirst(row[w := row[w].(valid := true, tag := tag)])
  {
    var r := row[w := row[w].(valid := true, tag := tag)];
    forall v, u | 0 <= v < u < |r| && r[u].valid ensures r[v].tag != r[u].tag {
      if u == w { assert row[v].valid && row[v].tag in Tags(row); }
      if v == w { assert row[u].tag in Tags(row); }
    }
  }

  lemma FillTags(row: seq<Way>, w: nat, tag: nat, t: nat)
    requires LowestFirst(row) && FillsWay(row, w)
    ensures var r := row[w := row[w].(valid := true, tag := tag)];
      t in Tags(r) <==> t in (if row[w].valid then Tags(row) - {row[w].tag} else Tags(row)) + {tag}
  {
    var r := row[w := row[w].(valid := true, tag := tag)];
    assert r[w].valid && r[w].tag == tag;
    if t in Tags(r) {
      var v :| 0 <= v < |r| && r[v].valid && r[v].tag == t;
      if v != w {
        assert row[v].valid && row[v].tag == t;
        if row[w].valid { assert if v < w then row[v].tag != row[w].tag else row[w].tag != row[v].tag; }
      }
    }
    if t in Tags(row) && (row[w].valid ==> t != row[w].tag) {
      var v :| 0 <= v < |row| && row[v].valid && row[v].tag == t;
      assert v != w && r[v].valid && r[v].tag == t;
    }
  }

  predicate AllValid(row: seq<Way>) { forall w :: 0 <= w < |row| ==> row[w].valid }

  lemma FullMiss(row: seq<Way>, w: nat, tag: nat)
    requires AllValid(row) && FillsWay(row, w)
    ensures AllValid(Filled(row, w, tag)) && IsVictim(Used(row), w)
    ensures Used(Filled(row, w, tag)) == Touch(Used(row), w)
  {
    var r := row[w := row[w].(valid := true, tag := tag)];
    TouchedBits(r, w);
    assert Used(r) == Used(row);
  }

  /** Misses on the given tags, one after another, that fill the given ways. */
  ghost predicate Misses(row: seq<Way>, tags: seq<nat>, ways: seq<nat>)
    requires |tags| == |ways|
    decreases |ways|
  {
    ways == [] || (FillsWay(row, ways[0]) && Misses(Filled(row, ways[0], tags[0]), tags[1..], ways[1..]))
  }

  lemma {:induction false} MissVictims(row: seq<Way>, tags: seq<nat>, ways: seq<nat>)
    requires |tags| == |ways| && AllValid(row) && Misses(row, tags, ways)
    ensures Victims(Used(row), ways)
    decreases |ways|
  {
    if ways != [] {
      FullMiss(row, ways[0], tags[0]);
      hide FillsWay, Filled, IsVictim;
      MissVictims(Filled(row, ways[0], tags[0]), tags[1..], ways[1..]);
    }
  }

  /** After an access to way `last` of a full set with `k` clear bits, the next `k` misses evict `k`
      different ways, and never `last`. */
  lemma LastAccessedStays(row: seq<Way>, last: nat, tags: seq<nat>, ways: seq<nat>)
    requires AllValid(row) && last < |row| && |tags| == |ways| && Misses(Touched(row, last), tags, ways)
    requires |ways| <= |Clear(Used(Touched(row, last)))|
    ensures forall i, j :: 0 <= i < j < |ways| ==> ways[i] != ways[j]
    ensures last !in ways
    ensures |ways| == |Clear(Used(Touched(row, last)))| ==> Elements(ways) == Clear(Used(Touched(row, last)))
  {
    TouchedBits(row, last);
    MissVictims(Touched(row, last), tags, ways);
    VictimsDistinct(Touch(Used(row), last), ways);
    assert last !in Clear(Touch(Used(row), last));
  }

  /** The first way with the tag, valid or not. */
  predicate FirstWith(row: seq<Way>, w: nat, tag: nat) {
    w < |row| && row[w].tag == tag && forall v :: 0 <= v < w ==> row[v].tag != tag
  }

  function Cleared(row: seq<Way>, w: nat): (r: seq<Way>)
    requires w < |row|
    ensures |r| == |row|
  {
    row[w := row[w].(valid := false)]
  }

  /** Clearing the first way with the tag removes the line exactly when no valid way above it has the tag. */
  lemma ClearFirst(row: seq<Way>, w: nat, tag: nat)
    requires FirstWith(row, w, tag)
    ensures tag !in Tags(Cleared(row, w)) <==> forall v :: w < v < |row| ==> !Holds(row, v, tag)
    ensures Tags(Cleared(row, w)) - {tag} == Tags(row) - {tag}
  {
    var r := Cleared(row, w);
    if v :| w < v < |row| && Holds(row, v, tag) { assert r[v].valid && r[v].tag == tag; }
    if tag in Tags(r) {
      var v :| 0 <= v < |r| && r[v].valid && r[v].tag == tag;
      assert Holds(row, v, tag) && v != w && !(v < w);
    }
    forall t | t != tag ensures t in Tags(r) <==> t in Tags(row) {
      if t in Tags(row) {
        var v :| 0 <= v < |row| && row[v].valid && row[v].tag == t;
        assert r[v].valid && r[v].tag == t;
      }
      if t in Tags(r) { var v :| 0 <= v < |r| && r[v].valid && r[v].tag == t; assert row[v].valid && row[v].tag == t; }
    }
  }

  /** So in every reachable set it removes the line, although the valid bit is not looked at. */
  lemma InvalidateRight(row: seq<Way>, w: nat, tag: nat)
    requires RowOk(row) && FirstWith(row, w, tag)
    ensures Tags(Cleared(row, w)) == Tags(row) - {tag} && RowOk(Cleared(row, w))
  {
    ClearFirst(row, w, tag);
    ClearedOk(row, w);
    assert forall v :: w < v < |row| ==> !Holds(row, v, tag);
    assert tag !in Tags(Cleared(row, w));
  }

  lemma ClearedOk(row: seq<Way>, w: nat)
    requires RowOk(row) && w < |row|
    ensures RowOk(Cleared(row, w))
  {
    assert Used(Cleared(row, w)) == Used(row);
  }

  /** A set never holds more lines than it has ways. */
  lemma {:induction false} TagsBounded(row: seq<Way>)
    ensures |Tags(row)| <= |row|
    decreases |row|
  {
    if row == [] {
      assert Tags(row) == {};
    } else {
      var l := |row| - 1;
      TagsBounded(row[..l]);
      assert Tags(row) <= Tags(row[..l]) + {row[l].tag};
      SubsetSize(Tags(row), Tags(row[..l]) + {row[l].tag});
    }
  }

  lemma {:induction false} SubsetSize(a: set<nat>, b: set<nat>)
    requires a <= b
    ensures |a| <= |b|
    decreases |a|
  {
    if a != {} {
      var x :| x in a;
      SubsetSize(a - {x}, b - {x});
    }
  }

  // ---------------------------------------------------------------- addresses

  lemma {:induction false} IndexBound(w: nat, ways: nat, s: nat, sets: nat)
    requires w < ways && s < sets
    ensures w * sets + s < ways * sets
  {
    MulDistrib(sets, ways, w);
    MulAtLeast(sets, ways - w);
  }

  lemma IndexInjective(w: nat, s: nat, w': nat, s': nat, sets: nat)
    requires s < sets && s' < sets && w * sets + s == w' * sets + s'
    ensures w == w' && s == s'
  {
    QuotientUnique(sets, w, s, w', s');
  }

  /** Dividing in two steps. */
  lemma DivDiv(a: nat, b: nat, c: nat)
    requires b > 0 && c > 0
    ensures c * b > 0 && a / (c * b) == a / b / c && a == c * b * (a / b / c) + (b * (a / b % c) + a % b)
  {
    hide *;
    MulAtLeast(b, c);
    var q1, r1 := DivMod(a, b);
    var q2, r2 := DivMod(q1, c);
    Nested(b, c, r1, r2, q2);
    DivUnique(a, c * b, q2, b * r2 + r1);
  }

  lemma Nested(b: nat, c: nat, r1: nat, r2: nat, q2: nat)
    requires r1 < b && r2 < c
    ensures b * r2 + r1 < c * b && r1 + b * (r2 + c * q2) == c * b * q2 + (b * r2 + r1)
  {
    MulDistrib(b, c, r2);
    MulAtLeast(b, c - r2);
    assert b * (c * q2) == c * b * q2;
    assert b * (r2 + c * q2) == b * r2 + b * (c * q2);
  }

  /** Set `s`, way by way, out of the arrays' contents. */
  function RowOf(val: seq<bool>, tag: seq<nat>, plru: seq<bool>, ways: nat, sets: nat, s: nat): (row: seq<Way>)
    requires |val| == |tag| == |plru| == ways * sets && s < sets
    ensures |row| == ways
  {
    seq(ways, w requires 0 <= w < ways =>
      IndexBound(w, ways, s, sets);
      Way(val[w * sets + s], tag[w * sets + s], plru[w * sets + s]))
  }

  /** All sets, out of the arrays' contents. */
  function RowsOf(val: seq<bool>, tag: seq<nat>, plru: seq<bool>, ways: nat, sets: nat): (rows: seq<seq<Way>>)
    requires |val| == |tag| == |plru| == ways * sets
    ensures Rectangle(rows, ways, sets)
  {
    seq(sets, s requires 0 <= s < sets => RowOf(val, tag, plru, ways, sets, s))
  }

  predicate Rectangle(rows: seq<seq<Way>>, ways: nat, sets: nat) {
    |rows| == sets && forall s :: 0 <= s < sets ==> |rows[s]| == ways
  }

  lemma RowWidth(rows: seq<seq<Way>>, ways: nat, sets: nat, s: nat)
    requires Rectangle(rows, ways, sets) && s < sets
    ensures |rows| == sets && |rows[s]| == ways
  {
  }

  lemma Entry(val: seq<bool>, tag: seq<nat>, plru: seq<bool>, ways: nat, sets: nat, w: nat, s: nat)
    requires |val| == |tag| == |plru| == ways * sets && w < ways && s < sets
    ensures |RowsOf(val, tag, plru, ways, sets)| == sets && |RowsOf(val, tag, plru, ways, sets)[s]| == ways
    ensures w * sets + s < ways * sets
    ensures RowsOf(val, tag, plru, ways, sets)[s][w] == Way(val[w * sets + s], tag[w * sets + s], plru[w * sets + s])
  {
    IndexBound(w, ways, s, sets);
  }

  /** Writing one entry of the arrays changes one way of one set. */
  lemma EntryChange(val: seq<bool>, tag: seq<nat>, plru: seq<bool>, val': seq<bool>, tag': seq<nat>, plru': seq<bool>,
                    ways: nat, sets: nat, w: nat, s: nat, i: nat, e: Way)
    requires |val| == |tag| == |plru| == ways * sets && w < ways && s < sets
    requires i == w * sets + s && i < ways * sets
    requires val' == val[i := e.valid] && tag' == tag[i := e.tag] && plru' == plru[i := e.used]
    ensures RowsOf(val', tag', plru', ways, sets) ==
      SetWay(RowsOf(val, tag, plru, ways, sets), w, s, e)
  {
    var a, b := RowsOf(val, tag, plru, ways, sets), RowsOf(val', tag', plru', ways, sets);
    forall s': nat | s' < sets ensures b[s'] == if s' == s then a[s][w := e] else a[s'] {
      forall w': nat | w' < ways ensures b[s'][w'] == if s' == s && w' == w then e else a[s'][w'] {
        SameEntry(val, tag, plru, val', tag', plru', ways, sets, w, s, i, e, w', s');
      }
    }
  }

  lemma SameEntry(val: seq<bool>, tag: seq<nat>, plru: seq<bool>, val': seq<bool>, tag': seq<nat>, plru': seq<bool>,
                  ways: nat, sets: nat, w: nat, s: nat, i: nat, e: Way, w': nat, s': nat)
    requires |val| == |tag| == |plru| == ways * sets && w < ways && s < sets && w' < ways && s' < sets
    requires i == w * sets + s && i < ways * sets
    requires val' == val[i := e.valid] && tag' == tag[i := e.tag] && plru' == plru[i := e.used]
    ensures RowsOf(val', tag', plru', ways, sets)[s'][w'] ==
      if s' == s && w' == w then e else RowsOf(val, tag, plru, ways, sets)[s'][w']
  {
    hide *;
    Entry(val, tag, plru, ways, sets, w', s');
    Entry(val', tag', plru', ways, sets, w', s');
    if w' * sets + s' == i { IndexInjective(w', s', w, s, sets); }
  }

  function SetWay(rows: seq<seq<Way>>, w: nat, s: nat, e: Way): (r: seq<seq<Way>>)
    requires s < |rows| && w < |rows[s]|
    ensures |r| == |rows|
  {
    rows[s := rows[s][w := e]]
  }

  // ---------------------------------------------------------------- the directory's meaning

  /** The line with tag `t` is in set `s`. */
  ghost predicate Line(rows: seq<seq<Way>>, t: nat, s: nat) {
    s < |rows| && t in Tags(rows[s])
  }

  ghost predicate AllOk(rows: seq<seq<Way>>) {
    forall s :: 0 <= s < |rows| ==> RowOk(rows[s])
  }

  /** The lines are the same. */
  ghost predicate SameLines(a: seq<seq<Way>>, b: seq<seq<Way>>) {
    forall t: nat, s: nat :: Line(b, t, s) <==> Line(a, t, s)
  }

  /** Line (t, s) is gone, and no other. */
  ghost predicate WithoutLine(a: seq<seq<Way>>, b: seq<seq<Way>>, t: nat, s: nat) {
    forall t': nat, s': nat :: Line(b, t', s') <==> Line(a, t', s') && !(t' == t && s' == s)
  }

  /** Line (t, s) has come, and the victim, if there is one, has gone; nothing else has changed. */
  ghost predicate WithLine(a: seq<seq<Way>>, b: seq<seq<Way>>, t: nat, s: nat, evicted: bool, victim: nat) {
    forall t': nat, s': nat :: Line(b, t', s') <==>
      (Line(a, t', s') && !(evicted && t' == victim && s' == s)) || (t' == t && s' == s)
  }

  ghost predicate Full(rows: seq<seq<Way>>, s: nat) {
    s < |rows| && forall w :: 0 <= w < |rows[s]| ==> rows[s][w].valid
  }

  lemma TouchRows(rows: seq<seq<Way>>, w: nat, s: nat)
    requires AllOk(rows) && s < |rows| && w < |rows[s]|
    ensures var r := rows[s := Touched(rows[s], w)]; AllOk(r) && SameLines(rows, r)
  {
    TouchedBits(rows[s], w);
    hide Touched, Tags, RowOk;
  }

  lemma ClearRows(rows: seq<seq<Way>>, w: nat, s: nat)
    requires AllOk(rows) && s < |rows| && w < |rows[s]|
    ensures AllOk(rows[s := Cleared(rows[s], w)])
  {
    ClearedOk(rows[s], w);
    hide RowOk, Cleared;
  }

  lemma InvalidateRows(rows: seq<seq<Way>>, w: nat, s: nat, t: nat)
    requires AllOk(rows) && s < |rows| && FirstWith(rows[s], w, t)
    ensures var r := rows[s := Cleared(rows[s], w)]; AllOk(r) && WithoutLine(rows, r, t, s)
  {
    InvalidateRight(rows[s], w, t);
    hide RowOk, Tags, Cleared, FirstWith;
  }

  lemma FillRows(rows: seq<seq<Way>>, w: nat, s: nat, t: nat)
    requires AllOk(rows) && s < |rows| && FillsWay(rows[s], w) && !Line(rows, t, s)
    ensures var r := rows[s := Filled(rows[s], w, t)];
      AllOk(r) && WithLine(rows, r, t, s, rows[s][w].valid, rows[s][w].tag)
    ensures rows[s][w].valid ==> Line(rows, rows[s][w].tag, s) && Full(rows, s)
    ensures !rows[s][w].valid ==> !Full(rows, s)
  {
    FillMiss(rows[s], w, t);
    hide RowOk, Tags, Filled;
  }

  /** No line of the set has tag `t` if none of its ways holds it. */
  lemma NotHeld(rows: seq<seq<Way>>, t: nat, s: nat)
    requires s < |rows| && forall v: nat :: v < |rows[s]| ==> !Holds(rows[s], v, t)
    ensures !Line(rows, t, s)
  {
    var row := rows[s];
    if t in Tags(row) {
      var v: nat :| v < |row| && row[v].valid && row[v].tag == t;
      assert Holds(row, v, t);
    }
  }

  lemma NoTag(rows: seq<seq<Way>>, t: nat, s: nat)
    requires s < |rows| && NoneWith(rows[s], |rows[s]|, t)
    ensures WithoutLine(rows, rows, t, s) && !Line(rows, t, s)
  {
    NotHeld(rows, t, s);
  }

  /** None of the first `n` ways has the tag. */
  predicate NoneWith(row: seq<Way>, n: nat, t: nat)
    requires n <= |row|
  {
    forall v :: 0 <= v < n ==> row[v].tag != t
  }

  lemma NoneNext(row: seq<Way>, n: nat, t: nat)
    ensures NoneWith(row, 0, t)
    ensures n < |row| && NoneWith(row, n, t) ==>
      if row[n].tag == t then FirstWith(row, n, t) && !NoneWith(row, |row|, t) else NoneWith(row, n + 1, t)
  {
  }

  /** A full set has no clear PLRU bit. */
  predicate Stuck(rows: seq<seq<Way>>, s: nat) {
    s < |rows| && forall w :: 0 <= w < |rows[s]| ==> rows[s][w].valid && rows[s][w].used
  }

  /** That happens to no set of two ways or more, and to a set of one way as soon as it is full. */
  lemma StuckIffOneWay(rows: seq<seq<Way>>, s: nat)
    requires AllOk(rows) && s < |rows| && rows[s] != []
    ensures Stuck(rows, s) <==> |rows[s]| == 1 && Full(rows, s)
  {
    assert RowOk(rows[s]);
    if |rows[s]| >= 2 {
      var w :| 0 <= w < |Used(rows[s])| && !Used(rows[s])[w];
      assert !rows[s][w].used;
    }
  }

  /** All ways below `n` are valid; if `full`, all ways are, and those below `n` are used. */
  predicate Passed(row: seq<Way>, n: nat, full: bool)
    requires n <= |row|
  {
    && (forall v :: 0 <= v < (if full then |row| else n) ==> row[v].valid)
    && (full ==> forall v :: 0 <= v < n ==> row[v].used)
  }

  lemma PassedStart(row: seq<Way>)
    ensures Passed(row, 0, false)
    ensures Passed(row, |row|, false) ==> Passed(row, 0, true)
  {
  }

  lemma PassedNext(row: seq<Way>, n: nat, full: bool)
    requires n < |row| && Passed(row, n, full)
    ensures (if full then row[n].used else row[n].valid) ==> Passed(row, n + 1, full)
    ensures (if full then !row[n].used else !row[n].valid) ==> FillsWay(row, n) && row[n].valid == full
  {
  }

  lemma PassedAll(rows: seq<seq<Way>>, s: nat)
    requires s < |rows| && Passed(rows[s], |rows[s]|, true)
    ensures Stuck(rows, s)
  {
  }

  lemma FillNotStuck(rows: seq<seq<Way>>, w: nat, s: nat)
    requires s < |rows| && FillsWay(rows[s], w)
    ensures !Stuck(rows, s)
  {
  }

  /** Way `way` keeps its bit, those below `n` have lost theirs. */
  function LeftUsed(row: seq<Way>, way: nat, n: nat): (r: seq<Way>)
    ensures |r| == |row|
  {
    seq(|row|, v requires 0 <= v < |row| => if v < n && v != way then row[v].(used := false) else row[v])
  }

  predicate AllUsed(row: seq<Way>, n: nat)
    requires n <= |row|
  {
    forall v :: 0 <= v < n ==> row[v].used
  }

  lemma AllUsedNext(row: seq<Way>, n: nat)
    requires n < |row|
    ensures AllUsed(row, 0) && (AllUsed(row, n + 1) <==> AllUsed(row, n) && row[n].used)
  {
  }

  lemma LeftUsedNext(row: seq<Way>, way: nat, n: nat)
    requires n < |row|
    ensures LeftUsed(row, way, 0) == row
    ensures LeftUsed(row, way, n + 1) ==
      if n == way then LeftUsed(row, way, n) else LeftUsed(row, way, n)[n := LeftUsed(row, way, n)[n].(used := false)]
  {
    var a, b := LeftUsed(row, way, n), LeftUsed(row, way, n + 1);
    forall v | 0 <= v < |row| ensures b[v] == if v == n && n != way then a[v].(used := false) else a[v] {
    }
    assert LeftUsed(row, way, 0) == row;
  }

  lemma TouchedIs(row: seq<Way>, way: nat)
    requires way < |row|
    ensures var r := row[way := row[way].(used := true)];
      Touched(row, way) == if AllUsed(r, |r|) then LeftUsed(r, way, |r|) else r
  {
    var r := row[way := row[way].(used := true)];
    var b := Used(row)[way := true];
    assert forall v :: 0 <= v < |row| ==> b[v] == r[v].used;
    assert AllUsed(r, |r|) <==> forall v :: 0 <= v < |b| ==> b[v];
    forall v | 0 <= v < |row|
      ensures Touched(row, way)[v] == if AllUsed(r, |r|) then LeftUsed(r, way, |r|)[v] else r[v]
    {
    }
  }

  lemma ResetWays(val: seq<bool>, tag: seq<nat>, plru: seq<bool>, ways: nat, sets: nat)
    requires |val| == |tag| == |plru| == ways * sets && ways > 0
    requires forall i :: 0 <= i < |val| ==> !val[i] && !plru[i] && tag[i] == 0
    ensures forall s: nat, w: nat :: s < sets && w < ways ==>
      RowsOf(val, tag, plru, ways, sets)[s][w] == Way(false, 0, false)
  {
    forall s: nat, w: nat | s < sets && w < ways
      ensures RowsOf(val, tag, plru, ways, sets)[s][w] == Way(false, 0, false)
    {
      Entry(val, tag, plru, ways, sets, w, s);
    }
    hide RowsOf;
  }

  lemma ResetRows(val: seq<bool>, tag: seq<nat>, plru: seq<bool>, ways: nat, sets: nat)
    requires |val| == |tag| == |plru| == ways * sets
    requires forall i :: 0 <= i < |val| ==> !val[i] && !plru[i] && tag[i] == 0
    ensures var rows := RowsOf(val, tag, plru, ways, sets); AllOk(rows) && forall t, s :: !Line(rows, t, s)
  {
    var rows := RowsOf(val, tag, plru, ways, sets);
    forall s: nat | s < sets ensures RowOk(rows[s]) && Tags(rows[s]) == {} {
      forall w: nat | w < ways ensures rows[s][w] == Way(false, 0, false) { Entry(val, tag, plru, ways, sets, w, s); }
      if ways >= 2 { assert !Used(rows[s])[0]; }
    }
  }

  class CacheDirectory {
    const ways: nat
    const sets: nat
    const bytes: nat
    const tag: array<nat>
    const val: array<bool>
    const plru: array<bool>

    /** The arrays start with arbitrary contents; the directory is used after `Reset`. */
    constructor (ways: nat, sets: nat, bytes: nat, tag: array<nat>, val: array<bool>, plru: array<bool>)
      requires ways > 0 && sets > 0 && bytes > 0 && val != plru
      requires tag.Length == val.Length == plru.Length == ways * sets
      ensures Shape() && this.ways == ways && this.sets == sets && this.bytes == bytes
      ensures this.tag == tag && this.val == val && this.plru == plru
    {
      this.ways, this.sets, this.bytes := ways, sets, bytes;
      this.tag, this.val, this.plru := tag, val, plru;
    }

    ghost predicate Shape() {
      ways > 0 && sets > 0 && bytes > 0 && val != plru && tag.Length == val.Length == plru.Length == ways * sets
    }

    /** All sets, way by way. */
    ghost function Rows(): (rows: seq<seq<Way>>)
      requires Shape()
      reads tag, val, plru
      ensures Rectangle(rows, ways, sets)
    {
      RowsOf(val[..], tag[..], plru[..], ways, sets)
    }

    ghost predicate Valid()
      reads tag, val, plru
    {
      Shape() && AllOk(Rows())
    }

    lemma ValidIs()
      ensures Valid() <==> Shape() && AllOk(Rows())
    {
    }

    function AddrSet(addr: nat): (s: nat)
      requires Shape()
      ensures s < sets
    {
      addr / bytes % sets
    }

    function AddrTag(addr: nat): nat
      requires Shape()
    {
      DivDiv(addr, bytes, sets);
      addr / (sets * bytes)
    }

    function Addr(t: nat, s: nat): nat { (t * sets + s) * bytes }

    /** Tag and set determine the line's address, and every address of the line gives them back. */
    lemma AddrSplit(addr: nat)
      requires Shape()
      ensures Addr(AddrTag(addr), AddrSet(addr)) == addr / bytes * bytes
    {
      DivDiv(addr, bytes, sets);
      var n := addr / bytes;
      assert n == sets * (n / sets) + n % sets;
      assert AddrTag(addr) * sets == sets * (n / sets);
    }

    lemma AddrJoin(t: nat, s: nat, offset: nat)
      requires Shape() && s < sets && offset < bytes
      ensures AddrTag(Addr(t, s) + offset) == t && AddrSet(Addr(t, s) + offset) == s
    {
      var n := t * sets + s;
      var addr := n * bytes + offset;
      assert n * bytes == bytes * n && t * sets == sets * t;
      DivUnique(addr, bytes, n, offset);
      DivUnique(n, sets, t, s);
      DivDiv(addr, bytes, sets);
    }

    /** Neighbouring lines of memory go to neighbouring sets. */
    lemma LineAt(k: nat, offset: nat)
      requires Shape() && offset < bytes
      ensures AddrSet(k * bytes + offset) == k % sets && AddrTag(k * bytes + offset) == k / sets
    {
      assert k * bytes == bytes * k;
      DivUnique(k * bytes + offset, bytes, k, offset);
      DivDiv(k * bytes + offset, bytes, sets);
    }

    // -------------------------------------------------------------- single entries

    function At(w: nat, s: nat): (i: nat)
      requires w < ways && s < sets
      ensures i == w * sets + s && i < ways * sets
    {
      IndexBound(w, ways, s, sets);
      w * sets + s
    }

    method GetWay(w: nat, s: nat) returns (e: Way)
      requires Shape() && w < ways && s < sets
      ensures Rectangle(Rows(), ways, sets) && e == Rows()[s][w]
    {
      Entry(val[..], tag[..], plru[..], ways, sets, w, s);
      var i := At(w, s);
      e := Way(val[i], tag[i], plru[i]);
    }

    method SetValid(w: nat, s: nat, x: bool)
      requires Shape() && w < ways && s < sets
      modifies val
      ensures Rows() == SetWay(old(Rows()), w, s, old(Rows()[s][w]).(valid := x))
    {
      ghost var v, t, p := val[..], tag[..], plru[..];
      var i := At(w, s);
      Entry(v, t, p, ways, sets, w, s);
      val[i] := x;
      EntryChange(v, t, p, val[..], tag[..], plru[..], ways, sets, w, s, i, Way(val[i], tag[i], plru[i]));
    }

    method SetTag(w: nat, s: nat, x: nat)
      requires Shape() && w < ways && s < sets
      modifies tag
      ensures Rows() == SetWay(old(Rows()), w, s, old(Rows()[s][w]).(tag := x))
    {
      ghost var v, t, p := val[..], tag[..], plru[..];
      var i := At(w, s);
      Entry(v, t, p, ways, sets, w, s);
      tag[i] := x;
      EntryChange(v, t, p, val[..], tag[..], plru[..], ways, sets, w, s, i, Way(val[i], tag[i], plru[i]));
    }

    method SetPlru(w: nat, s: nat, x: bool)
      requires Shape() && w < ways && s < sets
      modifies plru
      ensures Rows() == SetWay(old(Rows()), w, s, old(Rows()[s][w]).(used := x))
    {
      ghost var v, t, p := val[..], tag[..], plru[..];
      var i := At(w, s);
      Entry(v, t, p, ways, sets, w, s);
      plru[i] := x;
      EntryChange(v, t, p, val[..], tag[..], plru[..], ways, sets, w, s, i, Way(val[i], tag[i], plru[i]));
    }

    // -------------------------------------------------------------- operations

    /** Empties the directory; this makes it valid whatever it contained. */
    method Reset()
      requires Shape()
      modifies tag, val, plru
      ensures Valid() && forall t, s :: !Line(Rows(), t, s)
      ensures forall s: nat, w: nat :: s < sets && w < ways ==> Rows()[s][w] == Way(false, 0, false)
    {
      for i := 0 to val.Length
        invariant forall j :: 0 <= j < i ==> !val[j] && tag[j] == 0
      {
        val[i], tag[i] := false, 0;
      }
      for i := 0 to plru.Length
        invariant forall j :: 0 <= j < i ==> !plru[j]
        invariant forall j :: 0 <= j < val.Length ==> !val[j] && tag[j] == 0
      {
        plru[i] := false;
      }
      ResetRows(val[..], tag[..], plru[..], ways, sets);
      ResetWays(val[..], tag[..], plru[..], ways, sets);
    }

    /** Whether the line is there, and where; `UINT_MAX` stands for nowhere. */
    method Hit(addr: nat) returns (found: bool, way: nat, set_: nat)
      requires Shape()
      ensures Rectangle(Rows(), ways, sets) && (found <==> Line(Rows(), AddrTag(addr), AddrSet(addr)))
      ensures found ==> way < ways && set_ == AddrSet(addr) && Holds(Rows()[set_], way, AddrTag(addr))
      ensures !found ==> way == set_ == 0xFFFF_FFFF
    {
      var s, t := AddrSet(addr), AddrTag(addr);
      ghost var row := Rows()[s];
      hide AddrSet, AddrTag, RowsOf;
      for w := 0 to ways
        invariant forall v: nat :: v < w ==> !Holds(row, v, t)
      {
        var e := GetWay(w, s);
        if e.valid && e.tag == t {
          assert Holds(row, w, t);
          return true, w, s;
        }
      }
      NotHeld(Rows(), t, s);
      found, way, set_ := false, 0xFFFF_FFFF, 0xFFFF_FFFF;
    }

    /** Marks a way as used. */
    method ReplUpdate(way: nat, s: nat)
      requires Shape() && way < ways && s < sets
      modifies plru
      ensures Rectangle(Rows(), ways, sets)
      ensures Rows() == old(Rows())[s := Touched(old(Rows()[s]), way)]
    {
      ghost var rows0 := Rows();
      RowWidth(rows0, ways, sets, s);
      TouchedIs(rows0[s], way);
      SetPlru(way, s, true);
      ghost var rows := Rows();
      ghost var row := rows[s];
      assert row == rows0[s][way := rows0[s][way].(used := true)] && rows == rows0[s := row];
      hide *;
      AllUsedNext(row, 0);
      var reset := true;
      for w := 0 to ways
        invariant Shape() && Rows() == rows && reset == AllUsed(row, w)
      {
        var e := GetWay(w, s);
        AllUsedNext(row, w);
        reset := reset && e.used;
      }
      if reset {
        ResetOthers(way, s);
      }
    }

    /** Only way `way` of the set stays marked. */
    method ResetOthers(way: nat, s: nat)
      requires Shape() && way < ways && s < sets
      modifies plru
      ensures Rectangle(Rows(), ways, sets)
      ensures Rows() == old(Rows())[s := LeftUsed(old(Rows()[s]), way, ways)]
    {
      ghost var rows := Rows();
      RowWidth(rows, ways, sets, s);
      ghost var row := rows[s];
      assert Shape();
      LeftUsedNext(row, way, 0);
      hide *;
      for w := 0 to ways
        invariant Shape() && Rows() == rows[s := LeftUsed(row, way, w)]
      {
        LeftUsedNext(row, way, w);
        if w != way { SetPlru(w, s, false); SetWayIs(rows, LeftUsed(row, way, w), w, s); }
      }
    }

    /** Looks a line up, and marks it as used if it is there. */
    method Access(addr: nat, update: bool) returns (found: bool, way: nat, set_: nat)
      requires Valid()
      modifies plru
      ensures Valid() && (found <==> old(Line(Rows(), AddrTag(addr), AddrSet(addr))))
      ensures found ==> way < ways && set_ == AddrSet(addr) && Holds(old(Rows()[set_]), way, AddrTag(addr))
      ensures found && update ==> Rows() == old(Rows())[set_ := Touched(old(Rows()[set_]), way)]
      ensures !found || !update ==> Rows() == old(Rows())
      ensures SameLines(old(Rows()), Rows())
    {
      hide RowsOf, AllOk, Touched, AddrTag, AddrSet, Tags;
      found, way, set_ := Hit(addr);
      if found && update {
        TouchRows(Rows(), way, set_);
        ReplUpdate(way, set_);
      }
    }

    /** Invalidates one way. */
    method InvalWay(way: nat, s: nat) returns (was: bool)
      requires Valid() && way < ways && s < sets
      modifies val
      ensures Valid() && was == old(Rows()[s][way].valid)
      ensures Rows() == old(Rows())[s := Cleared(old(Rows()[s]), way)]
    {
      var e := GetWay(way, s);
      was := e.valid;
      ClearRows(Rows(), way, s);
      hide RowsOf, AllOk;
      SetValid(way, s, false);
    }

    /** Invalidates a line by its address, without looking at valid bits: afterwards the line is not
        there, and every other line is as before. */
    method InvalAddr(addr: nat) returns (found: bool)
      requires Valid()
      modifies val
      ensures Valid() && WithoutLine(old(Rows()), Rows(), AddrTag(addr), AddrSet(addr))
      ensures found <==> !NoneWith(old(Rows()[AddrSet(addr)]), ways, AddrTag(addr))
      ensures found ==>
        exists w: nat ::
          && FirstWith(old(Rows()[AddrSet(addr)]), w, AddrTag(addr))
          && Rows() == old(Rows())[AddrSet(addr) := Cleared(old(Rows()[AddrSet(addr)]), w)]
      ensures !found ==> Rows() == old(Rows())
    {
      var s, t := AddrSet(addr), AddrTag(addr);
      ghost var rows := Rows();
      RowWidth(rows, ways, sets, s);
      assert Shape() && AllOk(rows);
      NoneNext(rows[s], 0, t);
      hide *;
      for w := 0 to ways
        invariant Shape() && Rows() == rows && NoneWith(rows[s], w, t)
      {
        var e := GetWay(w, s);
        NoneNext(rows[s], w, t);
        if e.tag == t {
          InvalidateRows(rows, w, s, t);
          ClearedIs(rows, w, s);
          SetValid(w, s, false);
          ValidIs();
          return true;
        }
      }
      ValidIs();
      NoTag(rows, t, s);
      found := false;
    }

    /** Takes a line in after a miss. If the set was full, another line goes, and it is reported. The
        search for a victim fails only if the set is full and all its PLRU bits are set: never with two
        ways or more, and with one way for every miss in a full set. */
    method Repl(addr: nat) returns (ok: bool, evicted: bool, victimTag: nat, victimWay: nat, victimSet: nat)
      requires Valid() && !Line(Rows(), AddrTag(addr), AddrSet(addr))
      modifies tag, val, plru
      ensures ok <==> !old(Stuck(Rows(), AddrSet(addr)))
      ensures ok <==> ways >= 2 || !old(Full(Rows(), AddrSet(addr)))
      ensures ok ==> Valid() && victimSet == AddrSet(addr) && FillsWay(old(Rows()[victimSet]), victimWay)
      ensures ok ==> Rows() == old(Rows())[victimSet := Filled(old(Rows()[victimSet]), victimWay, AddrTag(addr))]
      ensures ok ==> (evicted <==> old(Full(Rows(), AddrSet(addr))))
      ensures ok ==> (evicted ==> old(Line(Rows(), victimTag, victimSet)))
      ensures ok ==> WithLine(old(Rows()), Rows(), AddrTag(addr), AddrSet(addr), evicted, victimTag)
      ensures !ok ==> Rows() == old(Rows())
    {
      var s, t := AddrSet(addr), AddrTag(addr);
      ghost var rows := Rows();
      RowWidth(rows, ways, sets, s);
      assert Valid() ==> Shape() && AllOk(rows);
      PassedStart(rows[s]);
      StuckIffOneWay(rows, s);
      victimTag, victimWay, victimSet := 0, 0, s;
      hide *;
      for w := 0 to ways
        invariant Shape() && Valid() && Rows() == rows && Passed(rows[s], w, false)
      {
        var e := GetWay(w, s);
        PassedNext(rows[s], w, false);
        if !e.valid {
          Fill(w, s, t);
          return true, false, 0, w, s;
        }
      }
      for w := 0 to ways
        invariant Shape() && Valid() && Rows() == rows && Passed(rows[s], w, true)
      {
        var e := GetWay(w, s);
        PassedNext(rows[s], w, true);
        if !e.used {
          Fill(w, s, t);
          return true, true, e.tag, w, s;
        }
      }
      PassedAll(rows, s);
      ok, evicted := false, false;
    }

    method Fill(w: nat, s: nat, t: nat)
      requires Valid() && w < ways && s < sets && FillsWay(Rows()[s], w) && !Line(Rows(), t, s)
      modifies tag, val, plru
      ensures Valid() && !old(Stuck(Rows(), s))
      ensures Rows() == old(Rows())[s := Filled(old(Rows()[s]), w, t)]
      ensures WithLine(old(Rows()), Rows(), t, s, old(Rows()[s][w].valid), old(Rows()[s][w].tag))
      ensures old(Rows()[s][w].valid) == old(Full(Rows(), s))
      ensures old(Rows()[s][w].valid ==> Line(Rows(), Rows()[s][w].tag, s))
    {
      ghost var rows := Rows();
      FillRows(rows, w, s, t);
      FillNotStuck(rows, w, s);
      FilledIs(rows, w, s, t);
      RowWidth(rows, ways, sets, s);
      assert Shape();
      hide *;
      SetValid(w, s, true);
      SetTag(w, s, t);
      ReplUpdate(w, s);
      ValidIs();
    }
  }

  lemma ClearedIs(rows: seq<seq<Way>>, w: nat, s: nat)
    requires s < |rows| && w < |rows[s]|
    ensures SetWay(rows, w, s, rows[s][w].(valid := false)) == rows[s := Cleared(rows[s], w)]
  {
  }

  lemma FilledIs(rows: seq<seq<Way>>, w: nat, s: nat, t: nat)
    requires s < |rows| && w < |rows[s]|
    ensures var a := SetWay(rows, w, s, rows[s][w].(valid := true));
      && |a[s]| == |rows[s]| && a[s][w] == rows[s][w].(valid := true)
      && var b := SetWay(a, w, s, a[s][w].(tag := t));
      |b[s]| == |rows[s]| && b[s := Touched(b[s], w)] == rows[s := Filled(rows[s], w, t)]
  {
    hide Touched;
    assert rows[s][w := rows[s][w].(valid := true)][w := rows[s][w].(valid := true, tag := t)] ==
      rows[s][w := rows[s][w].(valid := true, tag := t)];
  }

  lemma SetWayIs(rows: seq<seq<Way>>, row: seq<Way>, w: nat, s: nat)
    requires s < |rows| && w < |row|
    ensures SetWay(rows[s := row], w, s, row[w].(used := false)) == rows[s := row[w := row[w].(used := false)]]
  {
  }
}
