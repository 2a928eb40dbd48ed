/** The levels of a skip list, abstractly. Element k of the sequence (0 is the head) is linked into
    levels 0 .. ranks[k]-1, so level i is the subsequence of the elements whose rank exceeds i. */
module LevelLists {
  const MAX_HEIGHT: nat := 12

  /** The successor of element k in level i; |ranks| stands for null. */
  function Succ(ranks: seq<nat>, k: nat, i: nat): (j: nat)
    requires k < |ranks|
    ensures k < j <= |ranks|
    ensures forall m :: k < m < j ==> ranks[m] <= i
    ensures j < |ranks| ==> ranks[j] > i
    decreases |ranks| - k
  {
    if k + 1 == |ranks| || ranks[k + 1] > i then k + 1 else Succ(ranks, k + 1, i)
  }

  /** The last element before position p that is linked into level i. */
  function Pred(ranks: seq<nat>, p: nat, i: nat): (q: nat)
    requires 0 < p <= |ranks| && ranks[0] > i
    ensures q < p && ranks[q] > i
    ensures forall m :: q < m < p ==> ranks[m] <= i
  {
    if ranks[p - 1] > i then p - 1 else Pred(ranks, p - 1, i)
  }

  function Shift(p: nat, k: nat): nat {
    if k < p then k else k + 1
  }

  function Inserted<T>(s: seq<T>, p: nat, x: T): (r: seq<T>)
    requires p <= |s|
    ensures |r| == |s| + 1 && r[p] == x
    ensures forall m :: 0 <= m < p ==> r[m] == s[m]
    ensures forall m :: p < m < |r| ==> r[m] == s[m - 1]
  {
    s[..p] + [x] + s[p..]
  }

  /** An unlinked element changes no level. */
  lemma InsertUnlinked(ranks: seq<nat>, p: nat, k: nat, i: nat)
    requires k < |ranks| && 0 < p <= |ranks|
    ensures Succ(Inserted<nat>(ranks, p, 0), Shift(p, k), i) == Shift(p, Succ(ranks, k, i))
  {
    hide Inserted;
    var r := Inserted<nat>(ranks, p, 0);
    var s := Succ(ranks, k, i);
    forall m | Shift(p, k) < m < Shift(p, s)
      ensures r[m] <= i
    {
      if m < p {
        assert r[Shift(p, m)] == ranks[m];
      }
    }
    if s < |ranks| {
      assert r[Shift(p, s)] == ranks[s];
    }
    SuccUnique(r, Shift(p, k), i, Shift(p, s));
  }

  /** Linking element p into one more level splices it between its neighbours there and changes no
      other link. */
  lemma RaiseRank(ranks: seq<nat>, p: nat, k: nat, i: nat)
    requires 0 < p < |ranks| && k < |ranks| && ranks[0] > ranks[p]
    ensures var l := ranks[p];
            var q := Pred(ranks, p, l);
            Succ(ranks[p := l + 1], k, i) ==
              if i == l && q <= k < p then p
              else Succ(ranks, k, i)
  {
    var l := ranks[p];
    var q := Pred(ranks, p, l);
    SuccUnique(ranks[p := l + 1], k, i, if i == l && q <= k < p then p else Succ(ranks, k, i));
  }

  lemma {:induction false} SuccUnique(ranks: seq<nat>, k: nat, i: nat, j: nat)
    requires k < j <= |ranks|
    requires forall m :: k < m < j ==> ranks[m] <= i
    requires j < |ranks| ==> ranks[j] > i
    ensures Succ(ranks, k, i) == j
  {
  }

  lemma SuccOfPred(ranks: seq<nat>, p: nat)
    requires 0 < p < |ranks| && ranks[0] > ranks[p]
    ensures Succ(ranks, p, ranks[p]) == Succ(ranks, Pred(ranks, p, ranks[p]), ranks[p])
  {
    hide Succ, Pred;
    SuccUnique(ranks, Pred(ranks, p, ranks[p]), ranks[p], Succ(ranks, p, ranks[p]));
  }

  // A comparator in the sense of Comparator::Compare: a total order, up to keys it calls equal.

  ghost predicate IsOrder<K(!new)>(cmp: (K, K) -> int) {
    && (forall a, b :: cmp(a, b) < 0 <==> cmp(b, a) > 0)
    && (forall a, b, c :: cmp(a, b) <= 0 && cmp(b, c) <= 0 ==> cmp(a, c) <= 0)
  }

  lemma Antisymmetric<K(!new)>(cmp: (K, K) -> int, a: K, b: K)
    requires IsOrder(cmp)
    ensures cmp(a, b) < 0 <==> cmp(b, a) > 0
  {
  }

  lemma StrictThrough<K(!new)>(cmp: (K, K) -> int, a: K, b: K, c: K)
    requires IsOrder(cmp)
    requires cmp(a, b) <= 0 && cmp(b, c) <= 0 && (cmp(a, b) < 0 || cmp(b, c) < 0)
    ensures cmp(a, c) < 0
  {
  }

  ghost predicate Sorted<K>(cmp: (K, K) -> int, keys: seq<K>) {
    forall a, b :: 0 <= a < b < |keys| ==> cmp(keys[a], keys[b]) < 0
  }

  /** How many leading keys are less than key. */
  ghost function LowerBound<K>(cmp: (K, K) -> int, keys: seq<K>, key: K): (p: nat)
    ensures p <= |keys|
    ensures forall m :: 0 <= m < p ==> cmp(keys[m], key) < 0
    ensures p < |keys| ==> cmp(keys[p], key) >= 0
  {
    if keys == [] || cmp(keys[0], key) >= 0 then 0 else
      var p := LowerBound(cmp, keys[1..], key);
      assert forall m :: 0 < m < p + 1 ==> keys[m] == keys[1..][m - 1];
      p + 1
  }

  /** In a sorted sequence exactly the leading keys are less. */
  lemma LowerBoundSplits<K(!new)>(cmp: (K, K) -> int, keys: seq<K>, key: K, m: nat)
    requires IsOrder(cmp) && Sorted(cmp, keys) && m < |keys|
    ensures cmp(keys[m], key) < 0 <==> m < LowerBound(cmp, keys, key)
  {
    hide IsOrder, LowerBound;
    var p := LowerBound(cmp, keys, key);
    if p < m && cmp(keys[m], key) < 0 {
      StrictThrough(cmp, keys[p], keys[m], key);
    }
  }

  /** Where a search for key stands after looking at the successor of element k in a level, when the
      keys after the head are sorted: either the successor is still before the answer, or k is the
      answer's predecessor in that level. */
  lemma SearchStep<K(!new)>(cmp: (K, K) -> int, keys: seq<K>, ranks: seq<nat>, key: K, k: nat, level: nat)
    requires IsOrder(cmp) && Sorted(cmp, keys) && |ranks| == |keys| + 1
    requires k <= LowerBound(cmp, keys, key) && ranks[k] > level && ranks[0] > level
    ensures var p, j := LowerBound(cmp, keys, key), Succ(ranks, k, level);
            && (j < |ranks| ==> (cmp(keys[j - 1], key) < 0 <==> j <= p))
            && (p < j ==> Pred(ranks, p + 1, level) == k)
            && (p < j && (forall m :: 0 <= m < |ranks| ==> ranks[m] > level) ==> k == p && j == p + 1)
  {
    hide IsOrder, Sorted, LowerBound;
    var p, j := LowerBound(cmp, keys, key), Succ(ranks, k, level);
    if j < |ranks| {
      LowerBoundSplits(cmp, keys, key, j - 1);
    }
    if p < j {
      PredUnique(ranks, p + 1, level, k);
    }
  }

  lemma PredUnique(ranks: seq<nat>, p: nat, i: nat, q: nat)
    requires q < p <= |ranks| && ranks[0] > i && ranks[q] > i
    requires forall m :: q < m < p ==> ranks[m] <= i
    ensures Pred(ranks, p, i) == q
  {
  }

  /** A search for the last element, with no key to compare. */
  lemma LastStep(ranks: seq<nat>, k: nat, level: nat)
    requires k < |ranks| && Succ(ranks, k, level) == |ranks|
    requires level == 0 ==> forall m :: 0 <= m < |ranks| ==> ranks[m] > 0
    ensures level == 0 ==> k == |ranks| - 1
  {
  }

  /** Predecessors before p depend only on what precedes p. */
  lemma {:induction false} PredPrefix(r: seq<nat>, s: seq<nat>, p: nat, i: nat)
    requires 0 < p <= |r| && p <= |s| && r[0] > i && r[..p] == s[..p]
    ensures s[0] > i && Pred(s, p, i) == Pred(r, p, i)
  {
    var q := Pred(r, p, i);
    assert forall m :: 0 <= m < p ==> s[m] == r[..p][m] == r[m];
    PredUnique(s, p, i, q);
  }

  lemma InsertSorted<K(!new)>(cmp: (K, K) -> int, keys: seq<K>, key: K)
    requires IsOrder(cmp) && Sorted(cmp, keys)
    requires forall m :: 0 <= m < |keys| ==> cmp(keys[m], key) != 0
    ensures Sorted(cmp, Inserted(keys, LowerBound(cmp, keys, key), key))
  {
    hide LowerBound, IsOrder, Inserted;
    var p := LowerBound(cmp, keys, key);
    var r := Inserted(keys, p, key);
    forall a, b | 0 <= a < b < |r|
      ensures cmp(r[a], r[b]) < 0
    {
      if a == p {
        LowerBoundSplits(cmp, keys, key, b - 1);
        Antisymmetric(cmp, key, keys[b - 1]);
      }
    }
  }

  /** The key at index i of a sorted sequence has exactly i keys below it. */
  lemma LowerBoundOfMember<K(!new)>(cmp: (K, K) -> int, keys: seq<K>, i: nat)
    requires IsOrder(cmp) && Sorted(cmp, keys) && i < |keys|
    ensures LowerBound(cmp, keys, keys[i]) == i
  {
    hide LowerBound;
    var p := LowerBound(cmp, keys, keys[i]);
    assert cmp(keys[i], keys[i]) == 0;
  }

  predicate Subsequence<T(==)>(a: seq<T>, b: seq<T>) {
    a == [] || (b != [] && ((a[0] == b[0] && Subsequence(a[1..], b[1..])) || Subsequence(a, b[1..])))
  }

  /** The elements after k in level i, as one meets them by following successors. */
  function Members(ranks: seq<nat>, k: nat, i: nat): seq<nat>
    requires k < |ranks|
    decreases |ranks| - k
  {
    var j := Succ(ranks, k, i);
    if j == |ranks| then [] else [j] + Members(ranks, j, i)
  }

  /** The part of that walk from f up to and including k. */
  function Upto(ranks: seq<nat>, f: nat, k: nat, i: nat): (s: seq<nat>)
    requires f <= k < |ranks| && ranks[k] > i
    ensures f < k ==> s != [] && s[|s| - 1] == k
    ensures f == k ==> s == []
    ensures forall m :: 0 <= m < |s| ==> f < s[m] <= k && ranks[s[m]] > i
    decreases k - f
  {
    if f == k then [] else
      var j := Succ(ranks, f, i);
      var rest := Upto(ranks, j, k, i);
      assert j == k ==> rest == [];
      [j] + rest
  }

  lemma {:induction false} MembersSplit(ranks: seq<nat>, f: nat, k: nat, i: nat)
    requires f <= k < |ranks| && ranks[k] > i
    ensures Members(ranks, f, i) == Upto(ranks, f, k, i) + Members(ranks, k, i)
    decreases k - f
  {
    if f < k {
      MembersSplit(ranks, Succ(ranks, f, i), k, i);
    }
  }

  lemma {:induction false} MembersBounds(ranks: seq<nat>, k: nat, i: nat)
    requires k < |ranks|
    ensures forall m :: 0 <= m < |Members(ranks, k, i)| ==>
      Succ(ranks, k, i) <= Members(ranks, k, i)[m] < |ranks| && ranks[Members(ranks, k, i)[m]] > i
    decreases |ranks| - k
  {
    var j := Succ(ranks, k, i);
    if j < |ranks| {
      MembersBounds(ranks, j, i);
    }
  }
}
