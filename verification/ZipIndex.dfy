/** The sorted index over the names of a ZIP archive: the in-place heapsort
    (`mz_zip_reader_sort_central_dir_offsets_by_filename`), the binary search
    (`mz_zip_locate_file_binary_search`), and the scan it replaces. */
module ZipIndex {
  import opened Bits

  /** The name of an entry; its length is a 16-bit field of the entry's header. */
  type Name = s: seq<byte> | |s| <= 0xFFFF

  // ---------------------------------------------------------------- the order of names

  function ToLower(c: byte): byte { if 65 <= c <= 90 then c - 65 + 97 else c }

  /** Capital letters become small ones, and nothing else changes. */
  lemma ToLowerIs(c: byte)
    ensures !IsCapital(ToLower(c)) && (ToLower(c) == c || (IsCapital(c) && ToLower(c) == c + 32))
  {
  }

  predicate IsCapital(c: byte) { 'A' as int <= c <= 'Z' as int }

  /** Equal bytes, or the two cases of one letter. */
  predicate SameLetter(c: byte, d: byte) {
    c == d || (IsCapital(c) && d == c + 32) || (IsCapital(d) && c == d + 32)
  }

  function Lowered(s: seq<byte>): (r: seq<byte>)
    ensures |r| == |s|
  {
    seq(|s|, i requires 0 <= i < |s| => ToLower(s[i]))
  }

  /** Two names are the same to the index exactly if they agree but for the case of letters. */
  lemma SameButCase(a: seq<byte>, b: seq<byte>)
    ensures Lowered(a) == Lowered(b) <==> |a| == |b| && forall i :: 0 <= i < |a| ==> SameLetter(a[i], b[i])
  {
    if |a| == |b| {
      forall i | 0 <= i < |a| ensures Lowered(a)[i] == Lowered(b)[i] <==> SameLetter(a[i], b[i]) {}
    }
  }

  /** Lexicographic order. */
  predicate Less(a: seq<byte>, b: seq<byte>) {
    if a == [] || b == [] then |a| < |b|
    else if a[0] != b[0] then a[0] < b[0]
    else Less(a[1..], b[1..])
  }

  lemma {:induction false} LessTotal(a: seq<byte>, b: seq<byte>)
    ensures a == b ==> !Less(a, b)
    ensures a != b ==> Less(a, b) != Less(b, a)
    decreases |a|
  {
    if a != [] && b != [] {
      LessTotal(a[1..], b[1..]);
      if a[0] == b[0] && a[1..] == b[1..] { assert a == [a[0]] + a[1..] == b; }
    }
  }

  lemma {:induction false} LessTransitive(a: seq<byte>, b: seq<byte>, c: seq<byte>)
    requires Less(a, b) && Less(b, c)
    ensures Less(a, c)
    decreases |a|
  {
    if a != [] && a[0] == b[0] == c[0] { LessTransitive(a[1..], b[1..], c[1..]); }
  }

  /** The first difference decides, or else the length. */
  lemma {:induction false} LessAt(a: seq<byte>, b: seq<byte>, k: nat)
    requires k <= |a| && k <= |b| && a[..k] == b[..k]
    ensures k == |a| || k == |b| ==> (Less(a, b) <==> |a| < |b|) && (a == b <==> |a| == |b|)
    ensures k < |a| && k < |b| && a[k] != b[k] ==> (Less(a, b) <==> a[k] < b[k]) && a != b
  {
    if k > 0 {
      assert a[0] == a[..k][0] == b[..k][0] == b[0];
      assert a[1..][..k - 1] == a[..k][1..] == b[..k][1..] == b[1..][..k - 1];
      LessAt(a[1..], b[1..], k - 1);
    }
  }

  /** Two names with equal lowered prefixes, and their next bytes. */
  lemma LoweredStep(a: seq<byte>, b: seq<byte>, k: nat)
    requires k < |a| && k < |b| && Lowered(a)[..k] == Lowered(b)[..k] && ToLower(a[k]) == ToLower(b[k])
    ensures Lowered(a)[..k + 1] == Lowered(b)[..k + 1]
  {
    assert Lowered(a)[..k + 1] == Lowered(a)[..k] + [Lowered(a)[k]];
    assert Lowered(b)[..k + 1] == Lowered(b)[..k] + [Lowered(b)[k]];
  }

  /** `mz_zip_reader_filename_less`. */
  method FilenameLess(l: Name, r: Name) returns (less: bool)
    ensures less <==> Less(Lowered(l), Lowered(r))
  {
    var lLen, rLen := |l|, |r|;
    var end := if lLen < rLen then lLen else rLen;
    var k := 0;
    hide Less, Lowered, ToLower;
    while k < end
      invariant 0 <= k <= end && Lowered(l)[..k] == Lowered(r)[..k]
    {
      if ToLower(l[k]) != ToLower(r[k]) {
        break;
      }
      LoweredStep(l, r, k);
      k := k + 1;
    }
    LessAt(Lowered(l), Lowered(r), k);
    if k < end { LoweredAt(l, k); LoweredAt(r, k); }
    less := if k == end then lLen < rLen else ToLower(l[k]) < ToLower(r[k]);
  }

  lemma LoweredAt(a: seq<byte>, k: nat)
    requires k < |a|
    ensures Lowered(a)[k] == ToLower(a[k])
  {
  }

  /** The value of a 32-bit unsigned number as a signed one. */
  function Signed(x: u32): int { if x < 0x8000_0000 then x else x - 0x1_0000_0000 }

  /** The number of leading bytes in which two strings agree. */
  function CommonLength(a: seq<byte>, b: seq<byte>): (k: nat)
    ensures k <= |a| && k <= |b| && a[..k] == b[..k]
    ensures k < |a| && k < |b| ==> a[k] != b[k]
  {
    if a == [] || b == [] || a[0] != b[0] then 0
    else
      var k := CommonLength(a[1..], b[1..]);
      assert a[..k + 1] == [a[0]] + a[1..][..k] && b[..k + 1] == [b[0]] + b[1..][..k];
      k + 1
  }

  lemma {:induction false} CommonLengthIs(a: seq<byte>, b: seq<byte>, k: nat)
    requires k <= |a| && k <= |b| && a[..k] == b[..k]
    requires k < |a| && k < |b| ==> a[k] != b[k]
    ensures CommonLength(a, b) == k
  {
    if k > 0 {
      assert a[0] == a[..k][0] == b[..k][0] == b[0];
      assert a[1..][..k - 1] == a[..k][1..] == b[..k][1..] == b[1..][..k - 1];
      CommonLengthIs(a[1..], b[1..], k - 1);
    }
  }

  /** The sign by which the binary search goes on: the first differing byte decides, or else the
      difference of the lengths, taken as a 32-bit number. */
  function Compare(l: Name, r: seq<byte>): int {
    var k := CommonLength(Lowered(l), Lowered(r));
    if k == |l| || k == |r| then Signed((|l| - |r|) % 0x1_0000_0000) else Lowered(l)[k] as int - Lowered(r)[k] as int
  }

  /** `r` starts with `l`, and it is longer by more than an `int` can hold. */
  predicate Wraps(l: Name, r: seq<byte>) {
    |r| - |l| > 0x8000_0000 && Lowered(l) == Lowered(r)[..|l|]
  }

  /** The comparison is the three-way form of `Less`, except exactly where the difference wraps. */
  lemma CompareSign(l: Name, r: seq<byte>)
    requires |r| < 0x1_0000_0000
    ensures Compare(l, r) == 0 <==> Lowered(l) == Lowered(r)
    ensures (Compare(l, r) < 0 <==> Less(Lowered(l), Lowered(r))) <==> !Wraps(l, r)
  {
    var a, b := Lowered(l), Lowered(r);
    var k := CommonLength(a, b);
    hide Lowered, Less, CommonLength;
    LessAt(a, b, k);
    if k == |a| { assert a == b[..k]; }
    if k < |a| <= |b| { assert b[..|a|][k] == b[k]; }
  }

  /** The sign is right for all names of entries if and only if the name searched for has at most 2 GiB. */
  lemma CompareIsLess(r: seq<byte>)
    requires |r| < 0x1_0000_0000
    ensures (forall l: Name :: Compare(l, r) < 0 <==> Less(Lowered(l), Lowered(r))) <==> |r| <= 0x8000_0000
  {
    forall l: Name | |r| <= 0x8000_0000 ensures Compare(l, r) < 0 <==> Less(Lowered(l), Lowered(r)) {
      CompareSign(l, r);
    }
    if |r| > 0x8000_0000 {
      var l: Name := [];
      assert Lowered(l) == [] == Lowered(r)[..|l|];
      CompareSign(l, r);
    }
  }

  /** `mz_zip_filename_compare`. */
  method FilenameCompare(l: Name, r: seq<byte>) returns (comp: int)
    requires |r| < 0x1_0000_0000
    ensures comp == Compare(l, r) && (comp == 0 <==> Lowered(l) == Lowered(r))
    ensures (comp < 0 <==> Less(Lowered(l), Lowered(r))) <==> !Wraps(l, r)
  {
    var lLen, rLen := |l|, |r|;
    var end := if lLen < rLen then lLen else rLen;
    var k := 0;
    hide Less, Lowered, ToLower, CommonLength, Wraps;
    while k < end
      invariant 0 <= k <= end && Lowered(l)[..k] == Lowered(r)[..k]
    {
      if ToLower(l[k]) != ToLower(r[k]) {
        break;
      }
      LoweredStep(l, r, k);
      k := k + 1;
    }
    if k < end { LoweredAt(l, k); LoweredAt(r, k); }
    CommonLengthIs(Lowered(l), Lowered(r), k);
    CompareSign(l, r);
    comp := if k == end then Signed((lLen - rLen) % 0x1_0000_0000) else ToLower(l[k]) - ToLower(r[k]);
  }

  // ---------------------------------------------------------------- heaps of indices

  /** Entry `x` does not come after entry `y`. */
  predicate Le(keys: seq<seq<byte>>, x: nat, y: nat) {
    x < |keys| && y < |keys| && !Less(keys[y], keys[x])
  }

  lemma LeTotal(keys: seq<seq<byte>>, x: nat, y: nat)
    requires x < |keys| && y < |keys|
    ensures Le(keys, x, y) || Le(keys, y, x)
    ensures Le(keys, x, x)
    ensures !Le(keys, x, y) ==> Less(keys[y], keys[x])
    ensures Le(keys, x, y) && Le(keys, y, x) ==> keys[x] == keys[y]
  {
    LessTotal(keys[x], keys[y]);
    LessTotal(keys[x], keys[x]);
  }

  lemma LeTransitive(keys: seq<seq<byte>>, x: nat, y: nat, z: nat)
    requires Le(keys, x, y) && Le(keys, y, z)
    ensures Le(keys, x, z)
  {
    LessTotal(keys[x], keys[y]);
    LessTotal(keys[y], keys[z]);
    LessTotal(keys[x], keys[z]);
    if Less(keys[z], keys[x]) && keys[x] != keys[y] && keys[y] != keys[z] {
      LessTransitive(keys[x], keys[y], keys[z]);
    }
  }

  function Parent(k: nat): nat
    requires k > 0
  {
    (k - 1) / 2
  }

  /** The heap order holds below `end` from `lo` on, except between `hole` and its children. */
  predicate HeapBut(keys: seq<seq<byte>>, s: seq<nat>, lo: nat, end: nat, hole: nat)
    requires end <= |s|
  {
    && (forall k: nat :: 2 * lo < k < end && Parent(k) != hole ==> Le(keys, s[k], s[Parent(k)]))
    && (hole > 2 * lo ==> forall k: nat :: 2 * hole < k < end && Parent(k) == hole ==> Le(keys, s[k], s[Parent(hole)]))
  }

  predicate Heap(keys: seq<seq<byte>>, s: seq<nat>, lo: nat, end: nat)
    requires end <= |s|
  {
    forall k: nat :: 2 * lo < k < end ==> Le(keys, s[k], s[Parent(k)])
  }

  function Swap(s: seq<nat>, i: nat, j: nat): (r: seq<nat>)
    requires i < |s| && j < |s|
    ensures |r| == |s|
  {
    s[i := s[j]][j := s[i]]
  }

  /** The children of `root` below `end` do not come after `child`. */
  predicate Greatest(keys: seq<seq<byte>>, s: seq<nat>, root: nat, child: nat, end: nat)
    requires end <= |s|
  {
    && 2 * root < child < end && Parent(child) == root
    && forall k: nat :: 2 * root < k < end && Parent(k) == root ==> Le(keys, s[k], s[child])
  }

  lemma GreatestIs(keys: seq<seq<byte>>, s: seq<nat>, root: nat, child: nat, end: nat)
    requires end <= |s| && forall k :: 0 <= k < |s| ==> s[k] < |keys|
    requires 2 * root + 1 < end
    requires child == 2 * root + 1 +
      if 2 * root + 2 < end && Less(keys[s[2 * root + 1]], keys[s[2 * root + 2]]) then 1 else 0
    ensures Greatest(keys, s, root, child, end)
  {
    LeTotal(keys, s[child], s[child]);
    if 2 * root + 2 < end { LessTotal(keys[s[2 * root + 1]], keys[s[2 * root + 2]]); }
    forall k: nat | 2 * root < k < end && Parent(k) == root ensures Le(keys, s[k], s[child]) {
      assert k == 2 * root + 1 || k == 2 * root + 2;
    }
  }

  lemma SiftStep(keys: seq<seq<byte>>, s: seq<nat>, lo: nat, end: nat, root: nat, child: nat)
    requires end <= |s| && forall k :: 0 <= k < |s| ==> s[k] < |keys|
    requires lo <= root && HeapBut(keys, s, lo, end, root) && Greatest(keys, s, root, child, end)
    requires Less(keys[s[root]], keys[s[child]])
    ensures HeapBut(keys, Swap(s, root, child), lo, end, child)
  {
    var t := Swap(s, root, child);
    LeTotal(keys, s[root], s[child]);
    LessTotal(keys[s[root]], keys[s[child]]);
    assert Le(keys, s[root], s[child]);
    hide Le, Less;
    forall k: nat | 2 * lo < k < end && Parent(k) != child ensures Le(keys, t[k], t[Parent(k)]) {
      if Parent(k) == root {
        assert t[Parent(k)] == s[child];
      } else if k == root {
        assert Le(keys, s[child], s[Parent(root)]);
      } else {
        assert t[k] == s[k] && t[Parent(k)] == s[Parent(k)];
      }
    }
    forall k: nat | 2 * child < k < end && Parent(k) == child ensures Le(keys, t[k], t[Parent(child)]) {
      assert Le(keys, s[k], s[Parent(k)]);
    }
  }

  lemma SiftEnd(keys: seq<seq<byte>>, s: seq<nat>, lo: nat, end: nat, root: nat, child: nat)
    requires end <= |s| && forall k :: 0 <= k < |s| ==> s[k] < |keys|
    requires lo <= root && HeapBut(keys, s, lo, end, root)
    requires 2 * root + 1 >= end || (Greatest(keys, s, root, child, end) && !Less(keys[s[root]], keys[s[child]]))
    ensures Heap(keys, s, lo, end)
  {
    forall k: nat | 2 * lo < k < end ensures Le(keys, s[k], s[Parent(k)]) {
      if Parent(k) == root { LeTransitive(keys, s[k], s[child], s[root]); }
    }
  }

  lemma {:induction false} HeapTop(keys: seq<seq<byte>>, s: seq<nat>, end: nat, k: nat)
    requires end <= |s| && forall k :: 0 <= k < |s| ==> s[k] < |keys|
    requires k < end && Heap(keys, s, 0, end)
    ensures Le(keys, s[k], s[0])
    decreases k
  {
    if k == 0 {
      LeTotal(keys, s[0], s[0]);
    } else {
      HeapTop(keys, s, end, Parent(k));
      LeTransitive(keys, s[k], s[Parent(k)], s[0]);
    }
  }

  /** From `end` on, everything is where it belongs. */
  predicate Done(keys: seq<seq<byte>>, s: seq<nat>, end: nat) {
    forall i: nat, j: nat :: i < j && end <= j < |s| ==> Le(keys, s[i], s[j])
  }

  /** Sorted by lowered names. */
  predicate Sorted(keys: seq<seq<byte>>, s: seq<nat>) {
    forall i: nat, j: nat :: i < j < |s| ==> Le(keys, s[i], s[j])
  }

  lemma TakeTop(keys: seq<seq<byte>>, s: seq<nat>, end: nat)
    requires end < |s| && forall k :: 0 <= k < |s| ==> s[k] < |keys|
    requires Heap(keys, s, 0, end + 1) && Done(keys, s, end + 1)
    ensures Done(keys, Swap(s, end, 0), end) && HeapBut(keys, Swap(s, end, 0), 0, end, 0)
  {
    var t := Swap(s, end, 0);
    forall i: nat, j: nat | i < j && end <= j < |s| ensures Le(keys, t[i], t[j]) {
      if j == end {
        var i' := if i == 0 then end else i;
        HeapTop(keys, s, end + 1, i');
      } else {
        var i' := if i == 0 then end else if i == end then 0 else i;
        assert t[i] == s[i'] && t[j] == s[j];
      }
    }
    forall k: nat | 0 < k < end && Parent(k) != 0 ensures Le(keys, t[k], t[Parent(k)]) {
      assert t[k] == s[k] && t[Parent(k)] == s[Parent(k)];
    }
  }

  /** `t` rearranges the part of `s` below `end`. */
  predicate Rearranged(s: seq<nat>, t: seq<nat>, end: nat)
    requires end <= |s|
  {
    |t| == |s| && multiset(t[..end]) == multiset(s[..end]) && t[end..] == s[end..]
  }

  lemma SwapRearranges(s: seq<nat>, t: seq<nat>, end: nat, i: nat, j: nat)
    requires end <= |s| && Rearranged(s, t, end) && i < end && j < end
    ensures Rearranged(s, Swap(t, i, j), end)
  {
    assert Swap(t, i, j)[..end] == t[..end][i := t[j]][j := t[i]];
    assert Swap(t, i, j)[end..] == t[end..];
  }

  predicate Among(x: nat, s: seq<nat>, end: nat)
    requires end <= |s|
  {
    exists j: nat :: j < end && s[j] == x
  }

  lemma RearrangedAll(s: seq<nat>, t: seq<nat>, end: nat)
    requires end <= |s| && Rearranged(s, t, end)
    ensures multiset(t) == multiset(s)
    ensures forall i: nat :: i < end ==> Among(t[i], s, end)
  {
    assert t == t[..end] + t[end..] && s == s[..end] + s[end..];
    forall i: nat | i < end ensures Among(t[i], s, end) {
      assert t[..end][i] in multiset(t[..end]);
      var j: nat :| j < end && s[..end][j] == t[i];
    }
  }

  lemma StillDone(keys: seq<seq<byte>>, s: seq<nat>, t: seq<nat>, end: nat)
    requires end <= |s| && Rearranged(s, t, end) && Done(keys, s, end)
    ensures Done(keys, t, end)
  {
    RearrangedAll(s, t, end);
    forall i: nat, j: nat | i < j && end <= j < |s| ensures Le(keys, t[i], t[j]) {
      assert t[j] == t[end..][j - end] == s[end..][j - end] == s[j];
      if i < end {
        var i': nat :| i' < end && t[i] == s[i'];
      } else {
        assert t[i] == t[end..][i - end] == s[end..][i - end] == s[i];
      }
    }
  }

  lemma SameIndices(s: seq<nat>, t: seq<nat>, n: nat)
    requires multiset(s) == multiset(t) && forall k :: 0 <= k < |s| ==> s[k] < n
    ensures |t| == |s| && forall k :: 0 <= k < |t| ==> t[k] < n
  {
    assert |multiset(s)| == |s| && |multiset(t)| == |t|;
    forall k | 0 <= k < |t| ensures t[k] < n { assert t[k] in multiset(t); assert t[k] in multiset(s); }
  }

  lemma {:induction false} HeapStart(keys: seq<seq<byte>>, s: seq<nat>, lo: nat)
    requires |s| <= 2 * lo + 1
    ensures Heap(keys, s, lo, |s|)
  {
  }

  lemma HeapHole(keys: seq<seq<byte>>, s: seq<nat>, lo: nat, end: nat)
    requires end <= |s| && Heap(keys, s, lo + 1, end)
    ensures HeapBut(keys, s, lo, end, lo)
  {
  }

  lemma DoneAll(keys: seq<seq<byte>>, s: seq<nat>)
    ensures Done(keys, s, |s|)
    ensures Done(keys, s, 1) ==> Sorted(keys, s)
  {
  }

  /** `s` lists the numbers below `n`. */
  function Identity(n: nat): (s: seq<nat>)
    ensures |s| == n && forall i :: 0 <= i < n ==> s[i] == i
  {
    seq(n, i => i)
  }

  predicate AllBelow(s: seq<nat>, n: nat) { forall k :: 0 <= k < |s| ==> s[k] < n }

  predicate Permuted(s: seq<nat>, t: seq<nat>) { multiset(s) == multiset(t) }

  lemma PermutedParts(s: seq<nat>, t: seq<nat>, n: nat)
    requires Permuted(s, t)
    ensures |t| == |s| && (AllBelow(s, n) ==> AllBelow(t, n))
    ensures forall x: nat :: Among(x, s, |s|) <==> Among(x, t, |t|)
  {
    assert |multiset(s)| == |s| && |multiset(t)| == |t|;
    if AllBelow(s, n) { SameIndices(s, t, n); }
    forall x: nat ensures Among(x, s, |s|) <==> Among(x, t, |t|) {
      if Among(x, s, |s|) { assert x in multiset(t); var j: nat :| j < |t| && t[j] == x; }
      if Among(x, t, |t|) { assert x in multiset(s); var j: nat :| j < |s| && s[j] == x; }
    }
  }

  lemma PermutedTrans(s: seq<nat>, t: seq<nat>, u: seq<nat>)
    requires Permuted(s, t)
    ensures Permuted(t, u) ==> Permuted(s, u)
    ensures Permuted(s, s)
  {
  }

  lemma SwapPermutes(s: seq<nat>, i: nat, j: nat)
    requires i < |s| && j < |s|
    ensures Permuted(s, Swap(s, i, j))
  {
  }

  predicate AllLess(keys: seq<seq<byte>>, s: seq<nat>, l: int, x: seq<byte>) {
    forall k: nat :: k < l && k < |s| && s[k] < |keys| ==> Less(keys[s[k]], x)
  }

  predicate AllGreater(keys: seq<seq<byte>>, s: seq<nat>, h: int, x: seq<byte>) {
    forall k: nat :: h < k < |s| && s[k] < |keys| ==> Less(x, keys[s[k]])
  }

  lemma SearchStart(keys: seq<seq<byte>>, s: seq<nat>, x: seq<byte>)
    ensures AllLess(keys, s, 0, x) && AllGreater(keys, s, |s| - 1, x)
  {
  }

  /** The two ways a comparison narrows the search. */
  lemma SearchStep(keys: seq<seq<byte>>, s: seq<nat>, m: nat, x: seq<byte>)
    requires Sorted(keys, s) && m < |s| && s[m] < |keys|
    ensures Less(keys[s[m]], x) ==> AllLess(keys, s, m + 1, x)
    ensures Less(x, keys[s[m]]) ==> AllGreater(keys, s, m - 1, x)
  {
    forall k: nat | k < |s| && s[k] < |keys|
      ensures Less(keys[s[m]], x) && k <= m ==> Less(keys[s[k]], x)
      ensures Less(x, keys[s[m]]) && m <= k ==> Less(x, keys[s[k]])
    {
      var a, b := keys[s[k]], keys[s[m]];
      if Less(b, x) && k < m {
        assert Le(keys, s[k], s[m]);
        LessTotal(a, b);
        if a != b { LessTransitive(a, b, x); }
      }
      if Less(x, b) && m < k {
        assert Le(keys, s[m], s[k]);
        LessTotal(a, b);
        if a != b { LessTransitive(x, b, a); }
      }
    }
  }

  lemma SearchEnd(names: seq<Name>, s: seq<nat>, l: int, h: int, name: seq<byte>)
    requires Permuted(Identity(|names|), s) && l > h
    requires AllLess(Keys(names), s, l, Lowered(name)) && AllGreater(Keys(names), s, h, Lowered(name))
    ensures forall i: nat :: !SameName(names, i, name)
  {
    PermutedParts(Identity(|names|), s, |names|);
    forall i: nat ensures !SameName(names, i, name) {
      if SameName(names, i, name) {
        assert Identity(|names|)[i] == i;
        assert Among(i, Identity(|names|), |names|);
        assert Among(i, s, |s|);
        var k: nat :| k < |s| && s[k] == i;
        LessTotal(Lowered(name), Lowered(name));
      }
    }
  }

  lemma TooLong(names: seq<Name>, name: seq<byte>)
    requires |name| > 0xFFFF
    ensures forall i: nat :: !SameName(names, i, name)
  {
    forall i: nat ensures !SameName(names, i, name) {
      if i < |names| { assert |Lowered(names[i])| == |names[i]|; }
    }
  }

  lemma SameNameIs(names: seq<Name>, i: nat, name: seq<byte>)
    ensures SameName(names, i, name) <==> i < |names| && Lowered(names[i]) == Lowered(name)
  {
  }

  /** Some entry has the name, up to the case of letters. */
  ghost predicate Named(names: seq<Name>, name: seq<byte>) {
    exists i: nat :: SameName(names, i, name)
  }

  ghost predicate SearchFinds(names: seq<Name>, name: seq<byte>) { Named(names, Cut(name)) }

  ghost predicate ScanFinds(names: seq<Name>, name: seq<byte>) { |name| <= 0xFFFF && Named(names, name) }

  /** Search and scan agree, whatever the archive, exactly for names that have less than 4 GiB, or whose
      length modulo 4 GiB is not that of a ZIP name. */
  lemma SearchIsScan(name: seq<byte>)
    ensures (forall names: seq<Name> :: SearchFinds(names, name) <==> ScanFinds(names, name))
      <==> |name| < 0x1_0000_0000 || |name| % 0x1_0000_0000 > 0xFFFF
  {
    if |name| < 0x1_0000_0000 || |name| % 0x1_0000_0000 > 0xFFFF {
      if |name| < 0x1_0000_0000 { assert Cut(name) == name; }
      forall names: seq<Name> ensures SearchFinds(names, name) <==> ScanFinds(names, name) {
        if |Cut(name)| > 0xFFFF { TooLong(names, Cut(name)); }
      }
    } else {
      var n: Name := Cut(name);
      assert SameName([n], 0, n);
      assert SearchFinds([n], name) && !ScanFinds([n], name);
    }
  }

  // ---------------------------------------------------------------- the archive

  /** `MZ_ZIP_FILE_NOT_FOUND` and `MZ_ZIP_INVALID_PARAMETER`. */
  datatype Located = Found(index: nat) | NotFound | InvalidParameter

  function Keys(names: seq<Name>): (keys: seq<seq<byte>>)
    ensures |keys| == |names|
  {
    seq(|names|, i requires 0 <= i < |names| => Lowered(names[i]))
  }

  lemma KeyAt(names: seq<Name>, i: nat)
    requires i < |names|
    ensures Keys(names)[i] == Lowered(names[i])
  {
  }

  /** The name of entry `i` is `name` but for the case of letters. */
  predicate SameName(names: seq<Name>, i: nat, name: seq<byte>) {
    i < |names| && Lowered(names[i]) == Lowered(name)
  }

  class Archive {
    const names: seq<Name>
    const sorted: array<nat>

    /** The index starts as the entries in their order. */
    constructor (names: seq<Name>)
      requires |names| < 0x1_0000_0000
      ensures this.names == names && sorted.Length == |names| && fresh(sorted)
      ensures sorted[..] == Identity(|names|)
    {
      this.names := names;
      sorted := new nat[|names|](i => i);
    }

    /** The index is a permutation of the entries. */
    ghost predicate Indexed()
      reads sorted
    {
      Permuted(Identity(|names|), sorted[..])
    }

    ghost predicate Ready()
      reads sorted
    {
      Indexed() && Sorted(Keys(names), sorted[..])
    }

    lemma IndexedParts()
      requires Indexed()
      ensures sorted.Length == |names| && AllBelow(sorted[..], |names|)
      ensures forall k :: 0 <= k < sorted.Length ==> sorted[k] < |names|
    {
      PermutedParts(Identity(|names|), sorted[..], |names|);
      assert forall k :: 0 <= k < sorted.Length ==> sorted[k] == sorted[..][k];
    }

    method LessAt(i: nat, j: nat) returns (less: bool)
      requires i < sorted.Length && j < sorted.Length && Indexed()
      ensures sorted[i] < |names| && sorted[j] < |names|
      ensures less <==> Less(Keys(names)[sorted[i]], Keys(names)[sorted[j]])
    {
      IndexedParts();
      KeyAt(names, sorted[i]);
      KeyAt(names, sorted[j]);
      less := FilenameLess(names[sorted[i]], names[sorted[j]]);
    }

    method SwapAt(i: nat, j: nat)
      requires i < sorted.Length && j < sorted.Length && Indexed()
      modifies sorted
      ensures sorted[..] == Swap(old(sorted[..]), i, j) && Indexed()
    {
      ghost var s := sorted[..];
      sorted[i], sorted[j] := sorted[j], sorted[i];
      assert sorted[..] == Swap(s, i, j);
      SwapPermutes(s, i, j);
      PermutedTrans(Identity(|names|), s, sorted[..]);
    }

    /** Lets the entry at `start` sink below `end`. */
    method SiftDown(start: nat, end: nat)
      requires Indexed() && end <= sorted.Length && HeapBut(Keys(names), sorted[..], start, end, start)
      modifies sorted
      ensures Indexed() && Heap(Keys(names), sorted[..], start, end) && Rearranged(old(sorted[..]), sorted[..], end)
    {
      var root := start;
      ghost var keys, s := Keys(names), sorted[..];
      IndexedParts();
      assert Rearranged(s, s, end);
      hide *;
      while true
        invariant Indexed() && start <= root && Rearranged(s, sorted[..], end)
        invariant HeapBut(keys, sorted[..], start, end, root)
        decreases end - root
      {
        ghost var t := sorted[..];
        IndexedParts();
        BelowIs(t, keys);
        var child := 2 * root + 1;
        if child >= end {
          SiftEnd(keys, t, start, end, root, 0);
          break;
        }
        if child + 1 < end {
          var right := LessAt(child, child + 1);
          if right { child := child + 1; }
        }
        GreatestIs(keys, t, root, child, end);
        var less := LessAt(root, child);
        if !less {
          SiftEnd(keys, t, start, end, root, child);
          break;
        }
        SiftStep(keys, t, start, end, root, child);
        SwapRearranges(s, t, end, root, child);
        SwapAt(root, child);
        root := child;
      }
    }

    /** Heapsort: the index becomes sorted by lowered names. */
    method Sort()
      requires Indexed()
      modifies sorted
      ensures Ready()
    {
      IndexedParts();
      var size := sorted.Length;
      ghost var keys := Keys(names);
      if size <= 1 { return; }
      var start := (size - 2) / 2;
      MakeHeap(start);
      var end := size - 1;
      DoneAll(keys, sorted[..]);
      hide *;
      while end > 0
        invariant end < sorted.Length && Indexed()
        invariant Heap(keys, sorted[..], 0, end + 1) && Done(keys, sorted[..], end + 1)
      {
        ghost var s := sorted[..];
        IndexedParts();
        BelowIs(s, keys);
        TakeTop(keys, s, end);
        SwapAt(end, 0);
        ghost var t := sorted[..];
        SiftDown(0, end);
        StillDone(keys, t, sorted[..], end);
        end := end - 1;
      }
      DoneAll(keys, sorted[..]);
      ReadyIs();
    }

    lemma ReadyIs()
      ensures Ready() <==> Indexed() && Sorted(Keys(names), sorted[..])
    {
    }

    method MakeHeap(first: nat)
      requires Indexed() && sorted.Length >= 2 && first == (sorted.Length - 2) / 2
      modifies sorted
      ensures Indexed() && Heap(Keys(names), sorted[..], 0, sorted.Length)
    {
      var start := first;
      ghost var keys := Keys(names);
      HeapStart(keys, sorted[..], start + 1);
      hide *;
      while true
        invariant Indexed() && Heap(keys, sorted[..], start + 1, sorted.Length)
        decreases start
      {
        HeapHole(keys, sorted[..], start, sorted.Length);
        SiftDown(start, sorted.Length);
        if start == 0 { break; }
        start := start - 1;
      }
    }

    /** Binary search, for a name given with its length, which is cut off to 32 bits: it finds an entry
        if and only if there is one of that name, up to the case of letters. */
    method BinarySearch(name: seq<byte>) returns (r: Located)
      requires Ready()
      ensures match r
        case Found(i) => SameName(names, i, Cut(name))
        case NotFound => forall i: nat :: !SameName(names, i, Cut(name))
        case InvalidParameter => false
    {
      IndexedParts();
      var target := Cut(name);
      ghost var keys, s := Keys(names), sorted[..];
      var size := sorted.Length;
      var l, h := 0, size - 1;
      SearchStart(keys, s, Lowered(target));
      assert Permuted(Identity(|names|), s) && Sorted(keys, s) && |s| == size && keys == Keys(names);
      assert forall k :: 0 <= k < size ==> sorted[k] == s[k] && s[k] < |names|;
      hide *;
      while l <= h
        invariant 0 <= l <= size && -1 <= h < size
        invariant |target| <= 0x8000_0000 ==> AllLess(keys, s, l, Lowered(target))
        invariant |target| <= 0x8000_0000 ==> AllGreater(keys, s, h, Lowered(target))
      {
        var m := l + (h - l) / 2;
        var fileIndex := sorted[m];
        var comp := FilenameCompare(names[fileIndex], target);
        SameNameIs(names, fileIndex, target);
        KeyAt(names, fileIndex);
        SearchStep(keys, s, m, Lowered(target));
        LessTotal(Lowered(names[fileIndex]), Lowered(target));
        if comp == 0 {
          return Found(fileIndex);
        } else if comp < 0 {
          l := m + 1;
        } else {
          h := m - 1;
        }
      }
      if |target| <= 0x8000_0000 { SearchEnd(names, s, l, h, target); } else { TooLong(names, target); }
      r := NotFound;
    }

    /** The scan over all entries, in their order; it finds the first one of that name. */
    method Scan(name: seq<byte>) returns (r: Located)
      ensures match r
        case Found(i) =>
          |name| <= 0xFFFF && SameName(names, i, name) && forall j: nat :: j < i ==> !SameName(names, j, name)
        case NotFound => |name| <= 0xFFFF && forall i: nat :: !SameName(names, i, name)
        case InvalidParameter => |name| > 0xFFFF
    {
      if |name| > 0xFFFF { return InvalidParameter; }
      for i := 0 to |names|
        invariant forall j: nat :: j < i ==> !SameName(names, j, name)
      {
        if |names[i]| < |name| { continue; }
        if |names[i]| == |name| {
          var equal := StringEqual(name, names[i]);
          if equal { return Found(i); }
        }
      }
      r := NotFound;
    }

    /** `mz_zip_reader_locate_file_v2` without flags or a comment, with (`sort`) or without a sorted index. */
    method Locate(name: seq<byte>, sort: bool) returns (r: Located)
      requires Ready()
      ensures |name| < 0x1_0000_0000 ==> (r.Found? <==> Named(names, name))
      ensures r.Found? && |name| < 0x1_0000_0000 ==> SameName(names, r.index, name)
    {
      if sort && sorted.Length > 0 {
        if |name| < 0x1_0000_0000 { assert Cut(name) == name; }
        r := BinarySearch(name);
      } else {
        if |name| > 0xFFFF { TooLong(names, name); }
        r := Scan(name);
      }
    }
  }

  /** `(mz_uint)strlen(name)` bytes of it. */
  function Cut(name: seq<byte>): (r: seq<byte>)
    ensures |r| < 0x1_0000_0000
  {
    name[..|name| % 0x1_0000_0000]
  }

  method StringEqual(a: seq<byte>, b: seq<byte>) returns (equal: bool)
    requires |a| == |b|
    ensures equal <==> Lowered(a) == Lowered(b)
  {
    for i := 0 to |a|
      invariant Lowered(a)[..i] == Lowered(b)[..i]
    {
      if ToLower(a[i]) != ToLower(b[i]) {
        assert Lowered(a)[i] != Lowered(b)[i];
        return false;
      }
      LoweredStep(a, b, i);
    }
    equal := true;
  }

  lemma BelowIs(s: seq<nat>, keys: seq<seq<byte>>)
    requires AllBelow(s, |keys|)
    ensures forall k :: 0 <= k < |s| ==> s[k] < |keys|
  {
  }
}
