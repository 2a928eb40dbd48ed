/** The cache's circular doubly linked lists, each threaded through a sentinel. */
module LruLists {
  import opened HandleTables

  /** The i-th entry of the circle, both 0 and |s| + 1 being the sentinel. */
  function Around(head: LRUHandle, s: seq<LRUHandle>, i: nat): LRUHandle {
    if 1 <= i <= |s| then s[i - 1] else head
  }

  /** head and s, in this order, form a circle in both directions. */
  ghost predicate Circle(head: LRUHandle, s: seq<LRUHandle>)
    reads head`next, head`prev, s`next, s`prev
  {
    && head !in s && NoDuplicates(s)
    && forall i :: 0 <= i <= |s| ==>
         Around(head, s, i).next == Around(head, s, i + 1) && Around(head, s, i + 1).prev == Around(head, s, i)
  }

  lemma AroundAppended(head: LRUHandle, s: seq<LRUHandle>, e: LRUHandle, i: nat)
    ensures Around(head, s + [e], i) == (if i == |s| + 1 then e else Around(head, s, i))
  {
  }

  /** Makes e the newest entry. */
  method Append(head: LRUHandle, e: LRUHandle, ghost s: seq<LRUHandle>)
    requires Circle(head, s) && e != head && e !in s
    modifies head`next, head`prev, e`next, e`prev, s`next, s`prev
    ensures Circle(head, s + [e])
  {
    ghost var last := Around(head, s, |s|);
    assert Around(head, s, |s| + 1) == head && head.prev == last && last.next == head;
    e.next := head;
    e.prev := head.prev;
    e.prev.next := e;
    e.next.prev := e;
    forall i | 0 <= i <= |s| + 1
      ensures Around(head, s + [e], i).next == Around(head, s + [e], i + 1)
      ensures Around(head, s + [e], i + 1).prev == Around(head, s + [e], i)
    {
      AroundAppended(head, s, e, i);
      AroundAppended(head, s, e, i + 1);
    }
  }

  /** Takes e, the i-th entry, out of its circle; its own links are left as they are. */
  method Remove(e: LRUHandle, ghost head: LRUHandle, ghost s: seq<LRUHandle>, ghost i: nat)
    requires Circle(head, s) && i < |s| && s[i] == e
    modifies head`next, head`prev, s`next, s`prev
    ensures Circle(head, Without(s, i))
  {
    hide Without;
    assert Around(head, s, i + 1) == e && e.prev == Around(head, s, i) && e.next == Around(head, s, i + 2);
    e.next.prev := e.prev;
    e.prev.next := e.next;
    forall j | 0 <= j < |s|
      ensures Around(head, Without(s, i), j).next == Around(head, Without(s, i), j + 1)
      ensures Around(head, Without(s, i), j + 1).prev == Around(head, Without(s, i), j)
    {
      AroundWithout(head, s, i, j);
      AroundWithout(head, s, i, j + 1);
    }
  }

  lemma AroundWithout(head: LRUHandle, s: seq<LRUHandle>, i: nat, j: nat)
    requires i < |s|
    ensures Around(head, Without(s, i), j) == Around(head, s, if j <= i then j else j + 1)
  {
  }

  // ------------------------------------------------- sequences without an entry

  ghost function IndexIn(s: seq<LRUHandle>, e: LRUHandle): (i: nat)
    ensures e in s ==> i < |s| && s[i] == e
    ensures e !in s ==> i == |s|
  {
    if s == [] || s[0] == e then 0 else 1 + IndexIn(s[1..], e)
  }

  ghost function Minus(s: seq<LRUHandle>, e: LRUHandle): seq<LRUHandle> {
    if e in s then Without(s, IndexIn(s, e)) else s
  }

  lemma MinusMembers(s: seq<LRUHandle>, e: LRUHandle)
    requires NoDuplicates(s)
    ensures NoDuplicates(Minus(s, e))
    ensures forall h :: h in Minus(s, e) ==> h in s && h != e
    ensures forall h :: h in s && h != e ==> h in Minus(s, e)
  {
    if e in s {
      var i := IndexIn(s, e);
      forall h | h in s && h != e
        ensures h in Without(s, i)
      {
        var j :| 0 <= j < |s| && s[j] == h;
        assert Without(s, i)[if j < i then j else j - 1] == h;
      }
    }
  }

  ghost function Total(s: seq<LRUHandle>): nat {
    if s == [] then 0 else s[0].charge + Total(s[1..])
  }

  lemma {:induction false} TotalAppend(s: seq<LRUHandle>, e: LRUHandle)
    ensures Total(s + [e]) == Total(s) + e.charge
  {
    if s == [] {
      assert s + [e] == [e] && [e][1..] == [];
    } else {
      assert (s + [e])[1..] == s[1..] + [e];
      TotalAppend(s[1..], e);
    }
  }

  lemma {:induction false} TotalWithout(s: seq<LRUHandle>, i: nat)
    requires i < |s|
    ensures Total(Without(s, i)) == Total(s) - s[i].charge
  {
    if i == 0 {
      assert Without(s, 0) == s[1..];
    } else {
      TotalWithout(s[1..], i - 1);
      assert Without(s, i)[0] == s[0] && Without(s, i)[1..] == Without(s[1..], i - 1);
    }
  }

  lemma TotalMinus(s: seq<LRUHandle>, e: LRUHandle)
    ensures Total(Minus(s, e)) == Total(s) - (if e in s then e.charge else 0)
  {
    if e in s {
      TotalWithout(s, IndexIn(s, e));
    }
  }


  ghost predicate Separate(head: LRUHandle, s: seq<LRUHandle>, head': LRUHandle, s': seq<LRUHandle>) {
    head != head' && head !in s' && head' !in s && forall h :: h in s ==> h !in s'
  }

  lemma AroundIsOneOf(head: LRUHandle, s: seq<LRUHandle>)
    ensures forall i :: 0 <= i <= |s| + 1 ==> Around(head, s, i) == head || Around(head, s, i) in s
  {
  }

  /** Removes e from one of two circles. */
  method RemoveFrom(e: LRUHandle, ghost head: LRUHandle, ghost s: seq<LRUHandle>, ghost head': LRUHandle, ghost s': seq<LRUHandle>)
    requires Circle(head, s) && Circle(head', s') && Separate(head, s, head', s') && e in s
    modifies head`next, head`prev, s`next, s`prev
    ensures Circle(head, Minus(s, e)) && Circle(head', s') && Separate(head, Minus(s, e), head', s') && e !in Minus(s, e)
  {
    hide Around, Without;
    MinusMembers(s, e);
    AroundIsOneOf(head', s');
    Remove(e, head, s, IndexIn(s, e));
  }

  /** Appends e to one of two circles. */
  method AppendTo(head: LRUHandle, e: LRUHandle, ghost s: seq<LRUHandle>, ghost head': LRUHandle, ghost s': seq<LRUHandle>)
    requires Circle(head, s) && Circle(head', s') && Separate(head, s, head', s')
    requires e != head && e !in s && e != head' && e !in s'
    modifies head`next, head`prev, e`next, e`prev, s`next, s`prev
    ensures Circle(head, s + [e]) && Circle(head', s') && Separate(head, s + [e], head', s')
  {
    hide Around;
    AroundIsOneOf(head', s');
    Append(head, e, s);
  }

  /** How many of the oldest entries must go for usage to fit: the fewest, or all of them. */
  ghost function EvictCount(s: seq<LRUHandle>, usage: int, capacity: int): (k: nat)
    ensures k <= |s|
  {
    if s == [] || usage <= capacity then 0 else 1 + EvictCount(s[1..], usage - s[0].charge, capacity)
  }

  lemma {:induction false} EvictCountFewest(s: seq<LRUHandle>, usage: int, capacity: int)
    ensures var k := EvictCount(s, usage, capacity);
            && (usage - Total(s[..k]) <= capacity || k == |s|)
            && forall j :: 0 <= j < k ==> usage - Total(s[..j]) > capacity
  {
    if s != [] && usage > capacity {
      var k := EvictCount(s[1..], usage - s[0].charge, capacity);
      EvictCountFewest(s[1..], usage - s[0].charge, capacity);
      assert s[..k + 1][1..] == s[1..][..k];
      forall j | 0 <= j < k + 1
        ensures usage - Total(s[..j]) > capacity
      {
        if j > 0 {
          assert s[..j][1..] == s[1..][..j - 1];
        }
      }
    }
  }

  lemma MinusFirst(s: seq<LRUHandle>)
    requires s != []
    ensures Minus(s, s[0]) == s[1..]
  {
  }
}
