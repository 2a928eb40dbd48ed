/** The bytewise comparator: lexicographic order of byte strings, and the short keys it finds. */
module Comparators {
  import opened Coding
  import opened LevelLists

  /** Lexicographic order, 0 exactly on equal strings. */
  function LexCompare(a: Bytes, b: Bytes): (r: int) {
    if a == [] then (if b == [] then 0 else -1)
    else if b == [] || a[0] > b[0] then 1
    else if a[0] < b[0] then -1
    else LexCompare(a[1..], b[1..])
  }

  lemma {:induction false} LexAntisymmetric(a: Bytes, b: Bytes)
    ensures LexCompare(a, b) == -LexCompare(b, a)
    ensures LexCompare(a, b) == 0 <==> a == b
  {
    if a != [] && b != [] && a[0] == b[0] {
      LexAntisymmetric(a[1..], b[1..]);
      assert a == [a[0]] + a[1..] && b == [b[0]] + b[1..];
    }
  }

  lemma {:induction false} LexTransitive(a: Bytes, b: Bytes, c: Bytes)
    requires LexCompare(a, b) <= 0 && LexCompare(b, c) <= 0
    ensures LexCompare(a, c) <= 0
  {
    if a != [] && b != [] && c != [] && a[0] == b[0] == c[0] {
      LexTransitive(a[1..], b[1..], c[1..]);
    }
  }

  /** Lexicographic order meets the comparator contract. */
  lemma LexIsOrder()
    ensures IsOrder<Bytes>(LexCompare)
  {
    forall a: Bytes, b: Bytes
      ensures LexCompare(a, b) < 0 <==> LexCompare(b, a) > 0
    {
      LexAntisymmetric(a, b);
    }
    forall a: Bytes, b: Bytes, c: Bytes | LexCompare(a, b) <= 0 && LexCompare(b, c) <= 0
      ensures LexCompare(a, c) <= 0
    {
      LexTransitive(a, b, c);
    }
  }

  /** The first difference decides. */
  lemma {:induction false} LexAt(a: Bytes, b: Bytes, i: nat)
    requires i <= |a| && i <= |b| && a[..i] == b[..i]
    ensures i < |a| && i < |b| && a[i] < b[i] ==> LexCompare(a, b) < 0
    ensures i == |a| < |b| ==> LexCompare(a, b) < 0
  {
    if i > 0 {
      assert a[0] == a[..i][0] == b[..i][0] == b[0];
      assert a[1..][..i - 1] == a[..i][1..] && b[1..][..i - 1] == b[..i][1..];
      LexAt(a[1..], b[1..], i - 1);
    }
  }

  // -------------------------------------------------- Slice::compare as written

  function MemCmp(a: Bytes, b: Bytes): int
    requires |a| == |b|
  {
    if a == [] then 0 else if a[0] < b[0] then -1 else if a[0] > b[0] then 1 else MemCmp(a[1..], b[1..])
  }

  function SliceCompare(a: Bytes, b: Bytes): int {
    var n := if |a| > |b| then |b| else |a|;
    var r := MemCmp(a[..n], b[..n]);
    if r == 0 then (if |a| < |b| then -1 else 1) else r
  }

  lemma {:induction false} SliceCompareDifferent(a: Bytes, b: Bytes)
    requires a != b
    ensures SliceCompare(a, b) == LexCompare(a, b)
  {
    var n := if |a| > |b| then |b| else |a|;
    if a != [] && b != [] && a[0] == b[0] {
      assert a == [a[0]] + a[1..] && b == [b[0]] + b[1..];
      SliceCompareDifferent(a[1..], b[1..]);
      assert a[..n][1..] == a[1..][..n - 1] && b[..n][1..] == b[1..][..n - 1];
    }
  }

  lemma {:induction false} MemCmpEqual(a: Bytes)
    ensures MemCmp(a, a) == 0
  {
    if a != [] {
      MemCmpEqual(a[1..]);
    }
  }

  /** The comparison as written agrees with the comparator contract exactly on different strings: it
      calls every string larger than itself. */
  lemma SliceCompareMeetsContract(a: Bytes, b: Bytes)
    ensures SliceCompare(a, b) == LexCompare(a, b) <==> a != b
    ensures SliceCompare(a, a) == 1
  {
    MemCmpEqual(a);
    assert a[..|a|] == a;
    LexAntisymmetric(a, a);
    if a != b {
      SliceCompareDifferent(a, b);
    }
  }

  /** So it is not an order, and there is no key it finds equal to any. */
  lemma SliceCompareIsNoOrder()
    ensures !IsOrder<Bytes>(SliceCompare)
    ensures forall a, b :: SliceCompare(a, b) != 0
  {
    SliceCompareMeetsContract([], []);
    forall a: Bytes, b: Bytes
      ensures SliceCompare(a, b) != 0
    {
      SliceCompareMeetsContract(a, b);
      LexAntisymmetric(a, b);
    }
  }

  // -------------------------------------------------------------- short keys

  /** start cut after its i-th byte, which is made one larger. */
  function Bumped(start: Bytes, i: nat): (r: Bytes)
    requires i < |start| && start[i] < 0xff
    ensures |r| == i + 1 <= |start|
  {
    start[..i] + [start[i] + 1]
  }

  lemma BumpedIsLarger(start: Bytes, i: nat)
    requires i < |start| && start[i] < 0xff
    ensures LexCompare(start, Bumped(start, i)) < 0
    ensures forall limit: Bytes :: i < |limit| && limit[..i] == start[..i] && start[i] + 1 < limit[i] ==>
      LexCompare(Bumped(start, i), limit) < 0
  {
    var r := Bumped(start, i);
    assert start[i] < r[i] && r[..i] == start[..i];
    LexAt(start, r, i);
    forall limit: Bytes | i < |limit| && limit[..i] == start[..i] && start[i] + 1 < limit[i]
      ensures LexCompare(r, limit) < 0
    {
      LexAt(r, limit, i);
    }
  }

  /** The strings first differ at i, by more than one, so that there is room between them. */
  predicate RoomAt(start: Bytes, limit: Bytes, i: nat) {
    i < |start| && i < |limit| && start[..i] == limit[..i] && start[i] < 0xff && start[i] + 1 < limit[i]
  }

  lemma SamePrefix(a: Bytes, b: Bytes, i: nat)
    requires i <= |a| && i <= |b| && a[..i] == b[..i]
    ensures forall k :: 0 <= k < i ==> a[k] == b[k]
  {
    forall k | 0 <= k < i
      ensures a[k] == b[k]
    {
      assert a[k] == a[..i][k] == b[..i][k];
    }
  }

  lemma RoomAtFirstDifference(start: Bytes, limit: Bytes, i: nat, d: nat)
    requires RoomAt(start, limit, i)
    requires d <= |start| && d <= |limit| && forall k :: 0 <= k < d ==> start[k] == limit[k]
    requires d < |start| && d < |limit| ==> start[d] != limit[d]
    ensures i == d
  {
    SamePrefix(start, limit, i);
  }

  function FirstDifference(a: Bytes, b: Bytes): (i: nat)
    ensures i <= |a| && i <= |b| && a[..i] == b[..i]
    ensures i < |a| && i < |b| ==> a[i] != b[i]
  {
    if a == [] || b == [] || a[0] != b[0] then 0 else
      var i := FirstDifference(a[1..], b[1..]);
      assert a[..i + 1] == [a[0]] + a[1..][..i] && b[..i + 1] == [b[0]] + b[1..][..i];
      i + 1
  }

  /** What the bytewise comparator's FindShortestSeparator makes of start. */
  function ShortestSeparator(start: Bytes, limit: Bytes): (r: Bytes) {
    var i := FirstDifference(start, limit);
    if RoomAt(start, limit, i) then Bumped(start, i) else start
  }

  /** It is start itself, or strictly between start and limit and no longer than start, the latter
      exactly if the first difference leaves room. */
  lemma SeparatorBetween(start: Bytes, limit: Bytes)
    ensures var r := ShortestSeparator(start, limit);
            && (r == start || (LexCompare(start, r) < 0 && LexCompare(r, limit) < 0 && |r| <= |start|))
            && (forall i: nat :: RoomAt(start, limit, i) ==> r == Bumped(start, i))
            && (r != start <==> exists i: nat :: RoomAt(start, limit, i))
  {
    hide LexCompare;
    var d := FirstDifference(start, limit);
    SamePrefix(start, limit, d);
    forall i: nat | RoomAt(start, limit, i)
      ensures i == d
    {
      RoomAtFirstDifference(start, limit, i, d);
    }
    if RoomAt(start, limit, d) {
      BumpedIsLarger(start, d);
      assert Bumped(start, d)[d] != start[d];
    }
  }

  method FindShortestSeparator(start: Bytes, limit: Bytes) returns (r: Bytes)
    ensures r == ShortestSeparator(start, limit)
  {
    var minLength := if |start| < |limit| then |start| else |limit|;
    var diffIndex := 0;
    while diffIndex < minLength && start[diffIndex] == limit[diffIndex]
      invariant 0 <= diffIndex <= minLength
      invariant forall k :: 0 <= k < diffIndex ==> start[k] == limit[k]
    {
      diffIndex := diffIndex + 1;
    }
    DifferenceIs(start, limit, diffIndex);
    r := start;
    if diffIndex < minLength {
      var diffByte := start[diffIndex];
      if diffByte < 0xff && diffByte + 1 < limit[diffIndex] {
        r := Bumped(start, diffIndex);
      }
    }
  }

  lemma DifferenceIs(a: Bytes, b: Bytes, i: nat)
    requires i <= |a| && i <= |b| && forall k :: 0 <= k < i ==> a[k] == b[k]
    requires i < |a| && i < |b| ==> a[i] != b[i]
    ensures FirstDifference(a, b) == i
  {
    var d := FirstDifference(a, b);
    SamePrefix(a, b, d);
  }

  /** The first byte that can be incremented; |key| if there is none. */
  function FirstBelow(key: Bytes): (i: nat)
    ensures i <= |key|
    ensures forall k :: 0 <= k < i ==> key[k] == 0xff
    ensures i < |key| ==> key[i] < 0xff
  {
    if key == [] || key[0] < 0xff then 0 else 1 + FirstBelow(key[1..])
  }

  lemma FirstBelowIs(key: Bytes, i: nat)
    requires i < |key| && key[i] < 0xff && forall k :: 0 <= k < i ==> key[k] == 0xff
    ensures FirstBelow(key) == i
  {
  }

  /** What the bytewise comparator's FindShortSuccessor makes of key. */
  function ShortSuccessor(key: Bytes): Bytes {
    var i := FirstBelow(key);
    if i < |key| then Bumped(key, i) else key
  }

  /** It is larger than key and no longer, or key itself, the latter exactly if all bytes are 0xff. */
  lemma SuccessorLarger(key: Bytes)
    ensures var r := ShortSuccessor(key);
            && (r != key ==> LexCompare(key, r) < 0)
            && |r| <= |key|
            && (r == key <==> forall i :: 0 <= i < |key| ==> key[i] == 0xff)
  {
    hide LexCompare;
    var i := FirstBelow(key);
    if i < |key| {
      BumpedIsLarger(key, i);
      assert Bumped(key, i)[i] != key[i];
    }
  }

  /** No string larger than key is shorter, and none of the same length is smaller. */
  lemma SuccessorShortest(key: Bytes, s: Bytes)
    requires LexCompare(key, s) < 0 && ShortSuccessor(key) != key
    ensures |s| >= |ShortSuccessor(key)|
    ensures |s| == |ShortSuccessor(key)| ==> LexCompare(ShortSuccessor(key), s) <= 0
  {
    var i, r := FirstBelow(key), ShortSuccessor(key);
    LargerThanBumped(key, s, i);
  }

  lemma {:induction false} LargerThanBumped(key: Bytes, s: Bytes, i: nat)
    requires LexCompare(key, s) < 0 && i < |key| && key[i] < 0xff && forall k :: 0 <= k < i ==> key[k] == 0xff
    ensures |s| >= i + 1
    ensures |s| == i + 1 ==> LexCompare(Bumped(key, i), s) <= 0
    decreases i
  {
    hide LexCompare, Bumped;
    LexHead(key, s);
    if i > 0 {
      assert key[0] == 0xff == s[0] by { NothingAbove(s[0]); }
      LargerThanBumped(key[1..], s[1..], i - 1);
      BumpedTail(key, i);
      LexHead(Bumped(key, i), s);
    } else {
      LexHead(key[1..], s[1..]);
      if |s| == 1 {
        BumpedByte(key, s);
      }
    }
  }

  lemma LexHead(a: Bytes, b: Bytes)
    ensures LexCompare(a, b) < 0 ==> b != []
    ensures a != [] && b != [] && LexCompare(a, b) < 0 ==> a[0] <= b[0]
    ensures a != [] && b != [] && a[0] == b[0] ==> LexCompare(a, b) == LexCompare(a[1..], b[1..])
  {
  }

  lemma NothingAbove(b: bv8)
    ensures 0xff <= b ==> b == 0xff
  {
  }

  lemma BumpedTail(key: Bytes, i: nat)
    requires 0 < i < |key| && key[i] < 0xff
    ensures Bumped(key, i)[0] == key[0] && Bumped(key, i)[1..] == Bumped(key[1..], i - 1)
  {
  }

  lemma BumpedByte(key: Bytes, s: Bytes)
    requires key != [] && key[0] < 0xff && |s| == 1 && LexCompare(key, s) < 0
    ensures LexCompare(Bumped(key, 0), s) <= 0
  {
    hide LexCompare;
    assert key[0] < s[0] by {
      LexHead(key, s);
      LexHead(key[1..], s[1..]);
    }
    LexOneByte(key[0] + 1, s[0]);
    assert Bumped(key, 0) == [key[0] + 1] && s == [s[0]];
  }

  lemma LexOneByte(x: bv8, y: bv8)
    ensures x <= y ==> LexCompare([x], [y]) <= 0
  {
  }

  method FindShortSuccessor(key: Bytes) returns (r: Bytes)
    ensures r == ShortSuccessor(key)
  {
    for i := 0 to |key|
      invariant forall k :: 0 <= k < i ==> key[k] == 0xff
    {
      var byte := key[i];
      if byte != 0xff {
        FirstBelowIs(key, i);
        return Bumped(key, i);
      }
    }
    return key;
  }

  // ----------------------------------------------------- any user comparator

  /** A comparator as a client may supply it. */
  datatype Comparator = Comparator(
    compare: (Bytes, Bytes) -> int, separator: (Bytes, Bytes) -> Bytes, successor: Bytes -> Bytes)
  {
    /** The contract: an order, a separator from start on and before limit if start is before limit,
        and a successor that is not smaller. */
    ghost predicate MeetsContract() {
      && IsOrder(compare)
      && (forall start, limit :: compare(start, limit) < 0 ==>
            compare(start, separator(start, limit)) <= 0 && compare(separator(start, limit), limit) < 0)
      && (forall key :: compare(key, successor(key)) <= 0)
    }
  }

  const BYTEWISE := Comparator(LexCompare, ShortestSeparator, ShortSuccessor)

  lemma BytewiseMeetsContract()
    ensures BYTEWISE.MeetsContract()
  {
    hide LexCompare, ShortestSeparator, ShortSuccessor;
    LexIsOrder();
    forall start: Bytes, limit: Bytes | LexCompare(start, limit) < 0
      ensures LexCompare(start, ShortestSeparator(start, limit)) <= 0 && LexCompare(ShortestSeparator(start, limit), limit) < 0
    {
      SeparatorBetween(start, limit);
      LexAntisymmetric(start, start);
    }
    forall key: Bytes
      ensures LexCompare(key, ShortSuccessor(key)) <= 0
    {
      SuccessorLarger(key);
      LexAntisymmetric(key, key);
    }
  }
}
