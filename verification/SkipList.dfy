/** The skip list as a heap structure: nodes with one next pointer per level. */
module SkipListHeap {
  import opened LevelLists

  class Node<K> {
    const key: K
    const height: nat
    var next: seq<Node?<K>>

    constructor (key: K, height: nat)
      ensures this.key == key && this.height == height
      ensures next == seq(height, i => null)
    {
      this.key := key;
      this.height := height;
      next := seq(height, i => null);
    }
  }

  ghost function At<K>(all: seq<Node<K>>, j: nat): Node?<K> {
    if j < |all| then all[j] else null
  }

  ghost function KeysOf<K>(nodes: seq<Node<K>>): (s: seq<K>)
    ensures |s| == |nodes|
    ensures forall m :: 0 <= m < |nodes| ==> s[m] == nodes[m].key
  {
    seq(|nodes|, m requires 0 <= m < |nodes| => nodes[m].key)
  }

  ghost function HeightsOf<K>(nodes: seq<Node<K>>): (s: seq<nat>)
    ensures |s| == |nodes|
    ensures forall m :: 0 <= m < |nodes| ==> s[m] == nodes[m].height
  {
    seq(|nodes|, m requires 0 <= m < |nodes| => nodes[m].height)
  }

  /** Every element is linked, in each level up to its rank, to its successor there. */
  ghost predicate Linked<K>(all: seq<Node<K>>, ranks: seq<nat>)
    reads all
  {
    && |ranks| == |all|
    && (forall k :: 0 <= k < |all| ==> ranks[k] <= |all[k].next|)
    && (forall k, i :: 0 <= k < |all| && 0 <= i < ranks[k] ==> all[k].next[i] == At(all, Succ(ranks, k, i)))
  }

  lemma Follow<K>(all: seq<Node<K>>, ranks: seq<nat>, k: nat, i: nat)
    requires Linked(all, ranks) && k < |all| && i < ranks[k]
    ensures i < |all[k].next| && all[k].next[i] == At(all, Succ(ranks, k, i))
  {
  }

  ghost predicate Distinct<T>(s: seq<T>) {
    forall a, b :: 0 <= a < b < |s| ==> s[a] != s[b]
  }

  /** The two stores that splice n into level i behind its predecessor there. */
  method Splice<K>(n: Node<K>, pred: Node<K>, i: nat, ghost all: seq<Node<K>>, ghost ranks: seq<nat>, ghost pos: nat)
    requires Linked(all, ranks) && Distinct(all)
    requires 0 < pos < |all| && all[pos] == n && ranks[pos] == i < |n.next| && ranks[0] > i
    requires pred == all[Pred(ranks, pos, i)]
    modifies n, pred
    ensures Linked(all, ranks[pos := i + 1])
    ensures |n.next| == old(|n.next|)
  {
    hide Succ, Pred, At;
    ghost var q := Pred(ranks, pos, i);
    SuccOfPred(ranks, pos);
    n.next := n.next[i := pred.next[i]];
    pred.next := pred.next[i := n];
    forall k, j | 0 <= k < |all| && 0 <= j < ranks[pos := i + 1][k]
      ensures j < |all[k].next| && all[k].next[j] == At(all, Succ(ranks[pos := i + 1], k, j))
    {
      RaiseRank(ranks, pos, k, j);
      AtIndex(all, pos);
    }
  }

  /** A node that is in the sequence but in no level yet. */
  lemma UnlinkedNode<K>(all: seq<Node<K>>, ranks: seq<nat>, p: nat, n: Node<K>)
    requires Linked(all, ranks) && 0 < p <= |all|
    ensures Linked(Inserted(all, p, n), Inserted(ranks, p, 0))
  {
    hide Succ, Inserted;
    var all', ranks' := Inserted(all, p, n), Inserted(ranks, p, 0);
    forall m, i | 0 <= m < |all'| && 0 <= i < ranks'[m]
      ensures i < |all'[m].next| && all'[m].next[i] == At(all', Succ(ranks', m, i))
    {
      var k := if m < p then m else m - 1;
      InsertUnlinked(ranks, p, k, i);
      assert all'[m] == all[k] && ranks'[m] == ranks[k];
    }
  }

  lemma AtIndex<K>(all: seq<Node<K>>, j: nat)
    requires j < |all|
    ensures At(all, j) == all[j]
  {
  }

  /** The nodes that reach level i, in order. */
  ghost function OnLevel<K>(nodes: seq<Node<K>>, i: nat): seq<Node<K>> {
    if nodes == [] then [] else
      (if nodes[0].height > i then [nodes[0]] else []) + OnLevel(nodes[1..], i)
  }

  /** Following the level-i pointers from x visits exactly s and then null. */
  ghost predicate Chain<K>(x: Node<K>, i: nat, s: seq<Node<K>>)
    reads x, s
    decreases |s|
  {
    && i < |x.next|
    && x.next[i] == (if s == [] then null else s[0])
    && (s != [] ==> Chain(s[0], i, s[1..]))
  }

  lemma {:induction false} ChainFrom<K>(all: seq<Node<K>>, ranks: seq<nat>, k: nat, i: nat)
    requires ranks == HeightsOf(all) && Linked(all, ranks) && k < |all| && i < ranks[k]
    ensures Chain(all[k], i, OnLevel(all[k + 1..], i))
    decreases |all| - k
  {
    hide Linked, HeightsOf;
    var j := Succ(ranks, k, i);
    Follow(all, ranks, k, i);
    SkipLower(all, k + 1, j, i);
    if j < |all| {
      assert all[j..][0] == all[j] && all[j..][1..] == all[j + 1..];
      ChainFrom(all, ranks, j, i);
    }
  }

  lemma {:induction false} SkipLower<K>(all: seq<Node<K>>, k: nat, j: nat, i: nat)
    requires k <= j <= |all|
    requires forall m :: k <= m < j ==> all[m].height <= i
    ensures OnLevel(all[k..], i) == OnLevel(all[j..], i)
    decreases j - k
  {
    if k < j {
      assert all[k..][0] == all[k] && all[k..][1..] == all[k + 1..];
      SkipLower(all, k + 1, j, i);
    }
  }

  lemma {:induction false} OnLevelMembers<K>(nodes: seq<Node<K>>, i: nat)
    ensures forall n :: n in OnLevel(nodes, i) ==> n in nodes && n.height > i
    ensures forall n :: n in nodes && n.height > i ==> n in OnLevel(nodes, i)
  {
    if nodes != [] {
      OnLevelMembers(nodes[1..], i);
      assert nodes == [nodes[0]] + nodes[1..];
    }
  }

  lemma {:induction false} OnLevelNested<K>(nodes: seq<Node<K>>, i: nat)
    ensures Subsequence(OnLevel(nodes, i + 1), OnLevel(nodes, i))
  {
    if nodes != [] {
      OnLevelNested(nodes[1..], i);
      var a, b := OnLevel(nodes[1..], i + 1), OnLevel(nodes[1..], i);
      if nodes[0].height > i + 1 {
        assert ([nodes[0]] + a)[1..] == a && ([nodes[0]] + b)[1..] == b;
        assert OnLevel(nodes, i + 1) == [nodes[0]] + a && OnLevel(nodes, i) == [nodes[0]] + b;
      } else if nodes[0].height > i {
        assert [] + a == a && ([nodes[0]] + b)[1..] == b;
        assert OnLevel(nodes, i + 1) == a && OnLevel(nodes, i) == [nodes[0]] + b;
      } else {
        assert OnLevel(nodes, i + 1) == a && OnLevel(nodes, i) == b;
      }
    }
  }

  lemma SortedTail<K>(cmp: (K, K) -> int, nodes: seq<Node<K>>)
    requires nodes != [] && Sorted(cmp, KeysOf(nodes))
    ensures Sorted(cmp, KeysOf(nodes[1..]))
    ensures forall n :: n in nodes[1..] ==> cmp(nodes[0].key, n.key) < 0
  {
    hide KeysOf;
    var keys := KeysOf(nodes);
    forall a, b | 0 <= a < b < |nodes[1..]|
      ensures cmp(KeysOf(nodes[1..])[a], KeysOf(nodes[1..])[b]) < 0
    {
      assert cmp(keys[a + 1], keys[b + 1]) < 0;
    }
    forall n | n in nodes[1..]
      ensures cmp(nodes[0].key, n.key) < 0
    {
      var m :| 0 <= m < |nodes[1..]| && nodes[1..][m] == n;
      assert cmp(keys[0], keys[m + 1]) < 0;
    }
  }

  lemma SortedCons<K>(cmp: (K, K) -> int, x: Node<K>, rest: seq<Node<K>>)
    requires Sorted(cmp, KeysOf(rest)) && forall n :: n in rest ==> cmp(x.key, n.key) < 0
    ensures Sorted(cmp, KeysOf([x] + rest))
  {
    hide KeysOf;
    forall a, b | 0 <= a < b < |[x] + rest|
      ensures cmp(KeysOf([x] + rest)[a], KeysOf([x] + rest)[b]) < 0
    {
      assert ([x] + rest)[b] == rest[b - 1] && rest[b - 1] in rest;
      if a > 0 {
        assert cmp(KeysOf(rest)[a - 1], KeysOf(rest)[b - 1]) < 0;
      }
    }
  }

  lemma {:induction false} OnLevelSorted<K>(cmp: (K, K) -> int, nodes: seq<Node<K>>, i: nat)
    requires Sorted(cmp, KeysOf(nodes))
    ensures Sorted(cmp, KeysOf(OnLevel(nodes, i)))
  {
    hide Sorted, KeysOf;
    if nodes == [] {
      SortedEmpty(cmp, OnLevel(nodes, i));
    } else {
      SortedTail(cmp, nodes);
      OnLevelSorted(cmp, nodes[1..], i);
      OnLevelMembers(nodes[1..], i);
      forall n | n in OnLevel(nodes[1..], i)
        ensures cmp(nodes[0].key, n.key) < 0
      {
        assert n in nodes[1..];
      }
      SortedCons(cmp, nodes[0], OnLevel(nodes[1..], i));
      assert [] + OnLevel(nodes[1..], i) == OnLevel(nodes[1..], i);
    }
  }

  lemma SortedEmpty<K>(cmp: (K, K) -> int, nodes: seq<Node<K>>)
    requires nodes == []
    ensures Sorted(cmp, KeysOf(nodes))
  {
  }

  class SkipList<K(!new)> {
    const cmp: (K, K) -> int
    const head: Node<K>
    var maxHeight: nat
    ghost var nodes: seq<Node<K>>  // level 0, without the head

    ghost function All(): seq<Node<K>>
      reads this
    {
      [head] + nodes
    }

    ghost function Keys(): seq<K>
      reads this
    {
      KeysOf(nodes)
    }

    ghost predicate Valid()
      reads this, head, nodes
    {
      && IsOrder(cmp)
      && Sorted(cmp, Keys())
      && Distinct(All())
      && head.height == MAX_HEIGHT
      && 1 <= maxHeight <= MAX_HEIGHT
      && (forall m :: 0 <= m < |nodes| ==> 1 <= nodes[m].height <= maxHeight)
      && Linked(All(), HeightsOf(All()))
    }

    constructor (cmp: (K, K) -> int, zero: K)
      requires IsOrder(cmp)
      ensures Valid() && nodes == [] && this.cmp == cmp
      ensures fresh(head)
    {
      this.cmp := cmp;
      head := new Node(zero, MAX_HEIGHT);
      maxHeight := 1;
      nodes := [];
    }

    /** What one load in the search for key shows: element k is linked in this level and lies
        before the answer. */
    lemma Load(key: K, k: nat, level: nat)
      requires Valid() && k <= LowerBound(cmp, Keys(), key) && level < All()[k].height
      ensures level < |All()[k].next|
      ensures var ranks, p := HeightsOf(All()), LowerBound(cmp, Keys(), key);
              var j := Succ(ranks, k, level);
              && All()[k].next[level] == At(All(), j)
              && (At(All(), j) != null ==> j < |All()| && At(All(), j) == All()[j])
              && (j <= p <==> At(All(), j) != null && cmp(At(All(), j).key, key) < 0)
              && (p < j ==> Pred(ranks, p + 1, level) == k)
              && (p < j && level == 0 ==> k == p && At(All(), j) == At(nodes, p))
    {
      hide IsOrder, Sorted, Distinct, LowerBound, Succ, Pred, Linked;
      Follow(All(), HeightsOf(All()), k, level);
      var ranks, p := HeightsOf(All()), LowerBound(cmp, Keys(), key);
      var j := Succ(ranks, k, level);
      assert ranks[k] > level && ranks[0] > level;
      SearchStep(cmp, Keys(), ranks, key, k, level);
      assert j < |All()| ==> All()[j].key == Keys()[j - 1];
      assert forall m :: 0 < m < |ranks| ==> ranks[m] == nodes[m - 1].height;
    }

    /** The node with the least key not below the given one and, for an insertion, its
        predecessor in each level in use. */
    method FindGreaterOrEqual(key: K, prev: array?<Node?<K>>) returns (x: Node?<K>)
      requires Valid()
      requires prev != null ==> prev.Length == MAX_HEIGHT
      modifies prev
      ensures x == At(nodes, LowerBound(cmp, Keys(), key))
      ensures prev != null ==> forall i :: 0 <= i < maxHeight ==>
        prev[i] == All()[Pred(HeightsOf(All()), LowerBound(cmp, Keys(), key) + 1, i)]
    {
      hide Valid, LowerBound, KeysOf, HeightsOf, Succ, Pred, At;
      ghost var all, ranks, p := All(), HeightsOf(All()), LowerBound(cmp, Keys(), key);
      HeadFacts();
      var node := head;
      ghost var k := 0;
      var level := maxHeight - 1;
      while true
        invariant Valid()
        invariant 0 <= level < maxHeight
        invariant 0 <= k <= p && node == all[k] && node.height > level
        invariant prev != null ==> forall i :: level < i < maxHeight ==> prev[i] == all[Pred(ranks, p + 1, i)]
        decreases level, |all| - k
      {
        Load(key, k, level);
        ghost var j := Succ(ranks, k, level);
        var next := node.next[level];
        if next != null && cmp(next.key, key) < 0 {
          node := next;
          k := j;
        } else {
          if prev != null {
            prev[level] := node;
          }
          if level == 0 {
            return next;
          }
          level := level - 1;
        }
      }
    }

    lemma PositionOf(i: nat)
      requires Valid() && i < |nodes|
      ensures LowerBound(cmp, Keys(), nodes[i].key) == i
      ensures All()[i] == (if i == 0 then head else nodes[i - 1]) && (i > 0 ==> nodes[i - 1] != head)
    {
      hide IsOrder, Sorted, Linked, Distinct, LowerBound;
      OnlyFirstIsHead();
      LowerBoundOfMember(cmp, Keys(), i);
      assert i > 0 ==> All()[i] == nodes[i - 1];
    }

    lemma OnlyFirstIsHead()
      requires Valid()
      ensures forall m :: 0 < m < |All()| ==> All()[m] != head
    {
      assert All()[0] == head;
    }

    lemma HeadFacts()
      requires Valid()
      ensures head.height == MAX_HEIGHT && 1 <= maxHeight <= MAX_HEIGHT
    {
    }

    /** The node before the answer of FindGreaterOrEqual, possibly the head. */
    method FindLessThan(key: K) returns (x: Node<K>)
      requires Valid()
      ensures x == All()[LowerBound(cmp, Keys(), key)]
    {
      hide Valid, LowerBound, KeysOf, HeightsOf, Succ, Pred, At;
      ghost var all, ranks, p := All(), HeightsOf(All()), LowerBound(cmp, Keys(), key);
      HeadFacts();
      x := head;
      ghost var k := 0;
      var level := maxHeight - 1;
      while true
        invariant 0 <= level < maxHeight
        invariant 0 <= k <= p && x == all[k] && x.height > level
        decreases level, |all| - k
      {
        Load(key, k, level);
        var next := x.next[level];
        if next == null || cmp(next.key, key) >= 0 {
          if level == 0 {
            return;
          }
          level := level - 1;
        } else {
          x := next;
          k := Succ(ranks, k, level);
        }
      }
    }

    lemma LoadAny(k: nat, level: nat)
      requires Valid() && k < |All()| && level < All()[k].height
      ensures level < |All()[k].next|
      ensures var j := Succ(HeightsOf(All()), k, level);
              && All()[k].next[level] == At(All(), j)
              && (At(All(), j) == null && level == 0 ==> k == |All()| - 1)
    {
      hide IsOrder, Sorted, Distinct, Succ, Linked;
      var ranks := HeightsOf(All());
      Follow(All(), ranks, k, level);
      assert ranks[k] > level;
      if Succ(ranks, k, level) == |ranks| && level == 0 {
        assert forall m :: 0 < m < |ranks| ==> ranks[m] == nodes[m - 1].height;
        LastStep(ranks, k, level);
      }
    }

    /** The last node, or the head of an empty list. */
    method FindLast() returns (x: Node<K>)
      requires Valid()
      ensures x == All()[|nodes|]
    {
      hide Valid, HeightsOf, Succ;
      ghost var all, ranks := All(), HeightsOf(All());
      HeadFacts();
      x := head;
      ghost var k := 0;
      var level := maxHeight - 1;
      while true
        invariant 0 <= level < maxHeight
        invariant 0 <= k < |all| && x == all[k] && x.height > level
        decreases level, |all| - k
      {
        LoadAny(k, level);
        var next := x.next[level];
        if next == null {
          if level == 0 {
            return;
          }
          level := level - 1;
        } else {
          x := next;
          k := Succ(ranks, k, level);
        }
      }
    }

    method Contains(key: K) returns (found: bool)
      requires Valid()
      ensures found <==> exists m :: 0 <= m < |Keys()| && cmp(Keys()[m], key) == 0
    {
      var x := FindGreaterOrEqual(key, null);
      found := x != null && cmp(key, x.key) == 0;
      EqualOnlyAtLowerBound(key);
    }

    lemma EqualOnlyAtLowerBound(key: K)
      requires Valid()
      ensures var p := LowerBound(cmp, Keys(), key);
              (exists m :: 0 <= m < |Keys()| && cmp(Keys()[m], key) == 0)
              <==> p < |Keys()| && cmp(key, Keys()[p]) == 0
    {
      hide LowerBound, Linked, Distinct;
      var p := LowerBound(cmp, Keys(), key);
      forall m | 0 <= m < |Keys()| && cmp(Keys()[m], key) == 0
        ensures m == p
      {
        LowerBoundSplits(cmp, Keys(), key, m);
      }
    }

    /** Any height the generator may produce. */
    method RandomHeight() returns (height: nat)
      ensures 1 <= height <= MAX_HEIGHT
    {
      height := 1;
      var oneIn: bool := *;
      while height < MAX_HEIGHT && oneIn
        invariant 1 <= height <= MAX_HEIGHT
      {
        height := height + 1;
        oneIn := *;
      }
    }

    /** The levels above those in use hold nothing, so the head precedes every position there. */
    lemma EmptyLevels(p: nat, i: nat)
      requires Valid() && 0 < p <= |All()| && maxHeight <= i < MAX_HEIGHT
      ensures Pred(HeightsOf(All()), p, i) == 0
      ensures i < |head.next| && head.next[i] == null
    {
      hide IsOrder, Sorted, Distinct, Linked;
      var ranks := HeightsOf(All());
      assert forall m :: 0 < m < |ranks| ==> ranks[m] == nodes[m - 1].height;
      PredUnique(ranks, p, i, 0);
      Follow(All(), ranks, 0, i);
    }

    /** Links a new node into its levels from level 0 upward. */
    method LinkLevels(n: Node<K>, prev: array<Node?<K>>, ghost all: seq<Node<K>>, ghost ranks: seq<nat>, ghost p: nat)
      requires |ranks| == |all| && Linked(all, ranks) && Distinct(all) && 0 < p <= |all|
      requires n !in all && |n.next| == n.height <= prev.Length && n.height <= ranks[0]
      requires forall i :: 0 <= i < n.height ==> prev[i] == all[Pred(ranks, p, i)]
      modifies n, all
      ensures Linked(Inserted(all, p, n), Inserted(ranks, p, n.height))
    {
      hide Linked, Succ, Pred;
      ghost var all', ranks' := Inserted(all, p, n), Inserted(ranks, p, 0);
      UnlinkedNode(all, ranks, p, n);
      assert ranks'[p := 0] == ranks';
      assert Distinct(all');
      for i := 0 to n.height
        invariant |n.next| == n.height
        invariant Linked(all', ranks'[p := i])
      {
        PredPrefix(ranks, ranks'[p := i], p, i);
        Splice(n, prev[i], i, all', ranks'[p := i], p);
        assert ranks'[p := i][p := i + 1] == ranks'[p := i + 1];
      }
      assert Inserted(ranks, p, n.height) == ranks'[p := n.height];
    }

    /** The predecessors of key in every level of a node of the given height, growing the list to
        that height first if need be. */
    method FindPredecessors(key: K, height: nat) returns (prev: array<Node?<K>>)
      requires Valid() && 1 <= height <= MAX_HEIGHT
      modifies this`maxHeight
      ensures Valid() && maxHeight == if height > old(maxHeight) then height else old(maxHeight)
      ensures fresh(prev) && prev.Length == MAX_HEIGHT
      ensures forall i :: 0 <= i < height ==>
        prev[i] == All()[Pred(HeightsOf(All()), LowerBound(cmp, Keys(), key) + 1, i)]
    {
      hide IsOrder, Sorted, Linked, LowerBound, Succ, Pred, Distinct;
      ghost var all, ranks, p := All(), HeightsOf(All()), LowerBound(cmp, Keys(), key) + 1;
      prev := new Node?<K>[MAX_HEIGHT](i => null);
      var x := FindGreaterOrEqual(key, prev);
      if height > maxHeight {
        for i := maxHeight to height
          invariant Valid() && maxHeight == old(maxHeight) && nodes == old(nodes)
          invariant forall j :: 0 <= j < i ==> prev[j] == all[Pred(ranks, p, j)]
        {
          EmptyLevels(p, i);
          prev[i] := head;
        }
        maxHeight := height;
      }
    }

    lemma ValidAfterInsert(before: seq<Node<K>>, p: nat, n: Node<K>)
      requires IsOrder(cmp) && Sorted(cmp, KeysOf(before)) && p == LowerBound(cmp, KeysOf(before), n.key)
      requires forall m :: 0 <= m < |before| ==> cmp(KeysOf(before)[m], n.key) != 0
      requires Distinct([head] + before) && n !in [head] + before
      requires nodes == Inserted(before, p, n)
      requires 1 <= n.height <= maxHeight <= MAX_HEIGHT == head.height
      requires forall m :: 0 <= m < |before| ==> 1 <= before[m].height <= maxHeight
      requires Linked(Inserted([head] + before, p + 1, n), Inserted(HeightsOf([head] + before), p + 1, n.height))
      ensures Valid() && Keys() == Inserted(KeysOf(before), p, n.key)
    {
      hide IsOrder, Sorted, Linked, LowerBound, Inserted;
      InsertSorted(cmp, KeysOf(before), n.key);
      assert All() == Inserted([head] + before, p + 1, n);
      assert HeightsOf(All()) == Inserted(HeightsOf([head] + before), p + 1, n.height);
      assert Keys() == Inserted(KeysOf(before), p, n.key);
    }

    /** Adds a key that no key of the list compares equal to. */
    method Insert(key: K)
      requires Valid()
      requires forall m :: 0 <= m < |Keys()| ==> cmp(Keys()[m], key) != 0
      modifies this, head, nodes
      ensures Valid()
      ensures Keys() == Inserted(old(Keys()), LowerBound(cmp, old(Keys()), key), key)
      ensures exists n :: fresh(n) && nodes == Inserted(old(nodes), LowerBound(cmp, old(Keys()), key), n)
    {
      hide IsOrder, Sorted, Linked, LowerBound, Succ, Pred, Inserted, KeysOf, HeightsOf;
      ghost var all, ranks, p := All(), HeightsOf(All()), LowerBound(cmp, Keys(), key);
      var height := RandomHeight();
      var prev := FindPredecessors(key, height);
      var n := new Node(key, height);
      LinkLevels(n, prev, all, ranks, p + 1);
      nodes := Inserted(nodes, p, n);
      ValidAfterInsert(old(nodes), p, n);
    }

    /** Following the pointers of any level visits a strictly sorted, null-terminated list; each
        level is a subsequence of the one below, level 0 is everything, and the levels not in use
        are empty. */
    lemma Levels(i: nat)
      requires Valid() && i < MAX_HEIGHT
      ensures Chain(head, i, OnLevel(nodes, i))
      ensures Sorted(cmp, KeysOf(OnLevel(nodes, i)))
      ensures Subsequence(OnLevel(nodes, i + 1), OnLevel(nodes, i))
      ensures OnLevel(nodes, 0) == nodes
      ensures i >= maxHeight ==> OnLevel(nodes, i) == []
    {
      hide IsOrder, Sorted, Linked, Distinct, KeysOf;
      assert All()[1..] == nodes;
      assert HeightsOf(All())[0] == MAX_HEIGHT;
      ChainFrom(All(), HeightsOf(All()), 0, i);
      OnLevelSorted(cmp, nodes, i);
      OnLevelMembers(nodes, i);
      OnLevelNested(nodes, i);
      NothingDropped(nodes);
      assert OnLevel(nodes, i) != [] ==> OnLevel(nodes, i)[0] in OnLevel(nodes, i);
    }
  }

  lemma {:induction false} NothingDropped<K>(nodes: seq<Node<K>>)
    requires forall m :: 0 <= m < |nodes| ==> nodes[m].height >= 1
    ensures OnLevel(nodes, 0) == nodes
  {
    if nodes != [] {
      NothingDropped(nodes[1..]);
    }
  }

  class Iterator<K(!new)> {
    const list: SkipList<K>
    var node: Node?<K>

    constructor (list: SkipList<K>)
      ensures this.list == list && node == null
    {
      this.list := list;
      node := null;
    }

    /** The iterator is at the i-th key in order, or past the last one. */
    ghost predicate Stands(i: nat)
      reads this, list
    {
      i <= |list.nodes| && node == At(list.nodes, i)
    }

    method Next(ghost i: nat)
      requires list.Valid() && Stands(i) && node != null
      modifies this
      ensures Stands(i + 1)
    {
      list.LoadAny(i + 1, 0);
      assert HeightsOf(list.All())[i + 1] > 0;
      assert i + 2 < |list.All()| ==> HeightsOf(list.All())[i + 2] > 0;
      node := node.next[0];
    }

    method Prev(ghost i: nat)
      requires list.Valid() && Stands(i) && node != null
      modifies this
      ensures if i == 0 then node == null else Stands(i - 1)
    {
      hide SkipList.Valid, LowerBound, KeysOf;
      list.PositionOf(i);
      node := list.FindLessThan(node.key);
      if node == list.head {
        node := null;
      }
    }

    method Seek(target: K)
      requires list.Valid()
      modifies this
      ensures Stands(LowerBound(list.cmp, list.Keys(), target))
    {
      node := list.FindGreaterOrEqual(target, null);
    }

    method SeekToFirst()
      requires list.Valid()
      modifies this
      ensures Stands(0)
    {
      list.LoadAny(0, 0);
      assert |list.nodes| > 0 ==> HeightsOf(list.All())[1] > 0;
      node := list.head.next[0];
    }

    method SeekToLast()
      requires list.Valid()
      modifies this
      ensures if list.nodes == [] then node == null else Stands(|list.nodes| - 1)
    {
      hide SkipList.Valid;
      list.OnlyFirstIsHead();
      node := list.FindLast();
      if node == list.head {
        node := null;
      }
    }
  }
}
