/** The LRU cache. The mutex makes every public method atomic. */
module LruCaches {
  import opened Coding
  import opened HandleTables
  import opened LruLists

  function One(b: bool): nat {
    if b then 1 else 0
  }

  /** The references to h: one for each time a client holds it, one for being cached, and one more for
      the surplus entry, if there is one, whose reference is about to be dropped. */
  ghost function RefsOf(held: map<LRUHandle, nat>, cached: set<LRUHandle>, surplus: LRUHandle?, h: LRUHandle): nat
    requires h in held
  {
    held[h] + One(h in cached) + One(h == surplus)
  }

  /** A cached entry is on the LRU list if its only reference is the cache's, and on the in-use list
      otherwise; nothing else is on a list. */
  ghost predicate Placed(lruList: seq<LRUHandle>, useList: seq<LRUHandle>, held: map<LRUHandle, nat>, cached: set<LRUHandle>, surplus: LRUHandle?) {
    && cached <= held.Keys
    && NoDuplicates(lruList) && NoDuplicates(useList)
    && (forall h :: h in lruList ==> h in cached && RefsOf(held, cached, surplus, h) == 1)
    && (forall h :: h in useList ==> h in cached && RefsOf(held, cached, surplus, h) >= 2)
    && (forall h :: h in cached ==> if RefsOf(held, cached, surplus, h) == 1 then h in lruList else h in useList)
  }

  lemma PlacedRef(lruList: seq<LRUHandle>, useList: seq<LRUHandle>, held: map<LRUHandle, nat>, cached: set<LRUHandle>, e: LRUHandle)
    requires Placed(lruList, useList, held, cached, null) && e in held
    ensures Placed(Minus(lruList, e), if e in lruList then useList + [e] else useList, held[e := held[e] + 1], cached, null)
  {
    hide Minus;
    MinusMembers(lruList, e);
  }

  /** A hold is given back: the last one makes a cached entry the newest on the LRU list. */
  lemma PlacedUnref(lruList: seq<LRUHandle>, useList: seq<LRUHandle>, held: map<LRUHandle, nat>, cached: set<LRUHandle>, e: LRUHandle)
    requires Placed(lruList, useList, held, cached, e) && e in held
    ensures var idle := e in cached && held[e] == 0;
            && (idle ==> e in useList)
            && Placed(if idle then lruList + [e] else lruList, if idle then Minus(useList, e) else useList, held, cached, null)
  {
    hide Minus;
    MinusMembers(useList, e);
  }

  lemma PlacedReturned(lruList: seq<LRUHandle>, useList: seq<LRUHandle>, held: map<LRUHandle, nat>, cached: set<LRUHandle>, e: LRUHandle)
    requires Placed(lruList, useList, held, cached, null) && e in held && held[e] > 0
    ensures Placed(lruList, useList, held[e := held[e] - 1], cached, e)
  {
  }

  lemma PlacedForget(lruList: seq<LRUHandle>, useList: seq<LRUHandle>, held: map<LRUHandle, nat>, cached: set<LRUHandle>, e: LRUHandle)
    requires Placed(lruList, useList, held, cached, null) && e in held && e !in cached
    ensures Placed(lruList, useList, held - {e}, cached, null)
  {
  }

  /** An entry leaves the cache; its reference has yet to be dropped. */
  lemma PlacedUncache(lruList: seq<LRUHandle>, useList: seq<LRUHandle>, held: map<LRUHandle, nat>, cached: set<LRUHandle>, e: LRUHandle)
    requires Placed(lruList, useList, held, cached, null) && e in cached
    ensures Placed(Minus(lruList, e), Minus(useList, e), held, cached - {e}, e)
    ensures e in lruList <==> e !in useList
  {
    hide Minus;
    MinusMembers(lruList, e);
    MinusMembers(useList, e);
  }

  /** Every entry ever made is live or has been deleted, once, but not both. */
  ghost predicate LiveOrDeleted(live: set<LRUHandle>, deleted: seq<LRUHandle>, made: set<LRUHandle>) {
    NoDuplicates(deleted) && made == live + Elements(deleted) && live !! Elements(deleted)
  }

  lemma DeleteLive(live: set<LRUHandle>, deleted: seq<LRUHandle>, made: set<LRUHandle>, e: LRUHandle)
    requires LiveOrDeleted(live, deleted, made) && e in live
    ensures LiveOrDeleted(live - {e}, deleted + [e], made)
  {
    ElementsAppend(deleted, e);
  }

  /** A new entry, held once by the client that made it and not cached. */
  lemma PlacedNew(lruList: seq<LRUHandle>, useList: seq<LRUHandle>, held: map<LRUHandle, nat>, cached: set<LRUHandle>, e: LRUHandle)
    requires Placed(lruList, useList, held, cached, null) && e !in held
    ensures Placed(lruList, useList, held[e := 1], cached, null)
  {
  }

  /** An entry held by a client becomes cached, and so goes to the in-use list. */
  lemma PlacedEnter(lruList: seq<LRUHandle>, useList: seq<LRUHandle>, held: map<LRUHandle, nat>, cached: set<LRUHandle>, e: LRUHandle)
    requires Placed(lruList, useList, held, cached, null) && e in held && e !in cached && held[e] > 0
    ensures e !in lruList && e !in useList
    ensures Placed(lruList, useList + [e], held, cached + {e}, null)
  {
  }

  // ------------------------------------------- what the calls do, on values

  /** What a cache holds, apart from its capacity. */
  datatype View = View(
    cached: set<LRUHandle>, usage: int, held: map<LRUHandle, nat>,
    lruList: seq<LRUHandle>, useList: seq<LRUHandle>, deleted: seq<LRUHandle>, made: set<LRUHandle>)

  /** One more hold on e, which is idle no longer. */
  ghost function AfterRef(v: View, e: LRUHandle): View
    requires e in v.held
  {
    v.(held := v.held[e := v.held[e] + 1],
       lruList := Minus(v.lruList, e),
       useList := if e in v.lruList then v.useList + [e] else v.useList)
  }

  /** One reference to e, already uncounted, is gone. The last reference deletes e; the last but the
      cache's own makes e the newest idle entry. */
  ghost function AfterUnref(v: View, e: LRUHandle): View
    requires e in v.held
  {
    if v.held[e] > 0 then v
    else if e in v.cached then v.(lruList := v.lruList + [e], useList := Minus(v.useList, e))
    else v.(held := v.held - {e}, deleted := v.deleted + [e])
  }

  ghost function AfterRelease(v: View, e: LRUHandle): View
    requires e in v.held && v.held[e] > 0
  {
    AfterUnref(v.(held := v.held[e := v.held[e] - 1]), e)
  }

  ghost function AfterErase(v: View, e: LRUHandle?): View
    requires e != null ==> e in v.held
  {
    if e == null then v
    else AfterUnref(v.(cached := v.cached - {e}, usage := v.usage - e.charge,
                       lruList := Minus(v.lruList, e), useList := Minus(v.useList, e)), e)
  }

  /** The k oldest idle entries are evicted. */
  ghost function AfterEvict(v: View, k: nat): View
    requires k <= |v.lruList|
  {
    var gone := v.lruList[..k];
    v.(lruList := v.lruList[k..], deleted := v.deleted + gone, usage := v.usage - Total(gone),
       cached := v.cached - Elements(gone), held := v.held - Elements(gone))
  }

  /** Erasing the oldest idle entry evicts it. */
  lemma EvictOne(v: View)
    requires v.lruList != [] && v.lruList[0] in v.held && v.held[v.lruList[0]] == 0 && v.lruList[0] !in v.useList
    ensures AfterErase(v, v.lruList[0]) == AfterEvict(v, 1)
  {
    var e := v.lruList[0];
    MinusFirst(v.lruList);
    hide Minus;
    assert v.lruList[..1] == [e] && Elements([e]) == {e};
    assert Total([e]) == e.charge + Total([]);
    assert Minus(v.useList, e) == v.useList;
  }

  lemma EvictNone(v: View)
    ensures AfterEvict(v, 0) == v && v.lruList[0..] == v.lruList
  {
    assert v.lruList[..0] == [] && Elements(v.lruList[..0]) == {};
  }

  lemma EvictMore(v: View, j: nat)
    requires j < |v.lruList|
    ensures AfterEvict(AfterEvict(v, j), 1) == AfterEvict(v, j + 1)
  {
    hide Total, Elements;
    var s := v.lruList;
    var v' := AfterEvict(v, j);
    assert s[..j + 1] == s[..j] + [s[j]] && s[j..][..1] == [s[j]] == [] + [s[j]] && s[j..][1..] == s[j + 1..];
    TotalAppend(s[..j], s[j]);
    TotalAppend([], s[j]);
    EvictNone(v);
    ElementsAppend(s[..j], s[j]);
    ElementsAppend([], s[j]);
    assert v'.deleted + [s[j]] == v.deleted + s[..j + 1];
  }

  lemma EvictNext(v: View, capacity: nat)
    requires v.lruList != [] && v.usage > capacity
    ensures var v' := AfterEvict(v, 1);
            EvictCount(v.lruList, v.usage, capacity) == 1 + EvictCount(v'.lruList, v'.usage, capacity)
  {
    var e := v.lruList[0];
    assert v.lruList[..1] == [] + [e];
    TotalAppend([], e);
  }

  lemma ElementsAppend(s: seq<LRUHandle>, e: LRUHandle)
    ensures Elements(s + [e]) == Elements(s) + {e}
    ensures Elements([]) == {}
  {
  }

  /** Erasing and evicting leave every entry that a client holds as it is, and free no other. */
  lemma EraseKeeps(v: View, r: LRUHandle?, e: LRUHandle)
    requires r != null ==> r in v.held && r != e
    ensures var v' := AfterErase(v, r);
            && v'.held.Keys <= v.held.Keys && (e in v.cached <==> e in v'.cached)
            && (e in v.held ==> e in v'.held && v'.held[e] == v.held[e])
  {
    hide Minus;
  }

  lemma EvictKeeps(v: View, k: nat, e: LRUHandle)
    requires k <= |v.lruList| && e !in v.lruList
    ensures var v' := AfterEvict(v, k);
            && v'.held.Keys <= v.held.Keys && (e in v.cached <==> e in v'.cached)
            && (e in v.held ==> e in v'.held && v'.held[e] == v.held[e])
  {
    assert forall h :: h in Elements(v.lruList[..k]) ==> h in v.lruList;
  }

  ghost function AfterNew(v: View, e: LRUHandle): View {
    v.(held := v.held[e := 1], made := v.made + {e})
  }

  ghost function AfterEnter(v: View, e: LRUHandle): View {
    v.(cached := v.cached + {e}, usage := v.usage + e.charge, useList := v.useList + [e])
  }

  /** What is in use and cannot be evicted once e has been inserted in place of replaced. */
  ghost function Pinned(v: View, capacity: nat, e: LRUHandle, replaced: LRUHandle?): int {
    Total(v.useList) + (if capacity > 0 then e.charge else 0)
    - (if replaced != null && replaced in v.useList then replaced.charge else 0)
  }

  /** Evicting makes things fit exactly if what is not idle fits. */
  lemma FitsAfterEvict(v: View, capacity: nat)
    requires v.usage == Total(v.lruList) + Total(v.useList)
    ensures AfterEvict(v, EvictCount(v.lruList, v.usage, capacity)).usage <= capacity <==> Total(v.useList) <= capacity
  {
    hide Total, EvictCount;
    var k := EvictCount(v.lruList, v.usage, capacity);
    EvictCountFewest(v.lruList, v.usage, capacity);
    TotalSplit(v.lruList, k);
    assert k == |v.lruList| ==> v.lruList[..k] == v.lruList;
  }

  lemma {:induction false} TotalSplit(s: seq<LRUHandle>, k: nat)
    requires k <= |s|
    ensures Total(s) == Total(s[..k]) + Total(s[k..])
  {
    if k == 0 {
      assert s[..0] == [] && s[0..] == s;
    } else {
      TotalSplit(s[1..], k - 1);
      assert s[..k][1..] == s[1..][..k - 1] && s[1..][k - 1..] == s[k..];
    }
  }

  /** An insertion leaves exactly that in use. */
  lemma PinnedAfterAdmit(v: View, e: LRUHandle, replaced: LRUHandle?)
    requires replaced != null ==> replaced in v.held && replaced != e
    ensures Total(AfterErase(AfterEnter(AfterNew(v, e), e), replaced).useList) == Pinned(v, 1, e, replaced)
  {
    hide Total, Minus;
    TotalAppend(v.useList, e);
    if replaced != null {
      TotalMinus(v.useList + [e], replaced);
      UnrefUncached(AfterEnter(AfterNew(v, e), e), replaced);
    }
  }

  lemma UnrefUncached(v: View, e: LRUHandle)
    requires e in v.held
    ensures AfterErase(v, e).useList == Minus(v.useList, e)
  {
    hide Minus, Total;
  }

  class LRUCache {
    var capacity: nat
    var usage: nat
    const lru: LRUHandle
    const inUse: LRUHandle
    const table: HandleTable
    var deleted: seq<LRUHandle>             // the entries whose deleter has been called, in order
    ghost var lruList: seq<LRUHandle>       // oldest first
    ghost var useList: seq<LRUHandle>
    ghost var cached: set<LRUHandle>
    ghost var held: map<LRUHandle, nat>     // how often clients hold each entry that has not been freed
    ghost var made: set<LRUHandle>          // every entry ever made

    ghost predicate Circles()
      reads this`lruList, this`useList, lru`next, lru`prev, inUse`next, inUse`prev, lruList`next, lruList`prev, useList`next, useList`prev
    {
      && Separate(lru, lruList, inUse, useList)
      && Circle(lru, lruList) && Circle(inUse, useList)
    }

    ghost predicate Fields(surplus: LRUHandle?)
      reads this`held, this`cached, held.Keys`refs, held.Keys`inCache
    {
      && lru !in held && inUse !in held
      && forall h :: h in held ==>
           h.refs > 0 && h.refs == RefsOf(held, cached, surplus, h) && h.inCache == (h in cached)
    }

    /** The hash table holds exactly the cached entries, but for one that is about to leave the cache. */
    ghost predicate Tabled(leaving: LRUHandle?)
      reads this`cached, table, table.list, table.contents`nextHash
    {
      && table.Valid() && table.elems <= table.length
      && table.contents == cached - AsSet(leaving)
      && (leaving != null ==> leaving in cached)
    }

    ghost predicate Charged()
      reads this`usage, this`lruList, this`useList
    {
      usage == Total(lruList) + Total(useList)
    }

    ghost predicate Accounted()
      reads this`deleted, this`held, this`made
    {
      LiveOrDeleted(held.Keys, deleted, made)
    }

    ghost predicate Inv(surplus: LRUHandle?, leaving: LRUHandle?)
      reads this, lru, inUse, lruList, useList, held.Keys, table, table.list, table.contents`nextHash
    {
      && Circles() && Fields(surplus) && Tabled(leaving) && Charged() && Accounted()
      && Placed(lruList, useList, held, cached, surplus)
    }

    ghost predicate Valid()
      reads this, lru, inUse, lruList, useList, held.Keys, table, table.list, table.contents`nextHash
    {
      Inv(null, null)
    }

    ghost function Now(): View
      reads this
    {
      View(cached, usage, held, lruList, useList, deleted, made)
    }

    constructor ()
      ensures Valid() && capacity == 0
      ensures Now() == View({}, 0, map[], [], [], [], {})
      ensures fresh(lru) && fresh(inUse) && fresh(table) && fresh(table.list)
    {
      hide HandleTable.Valid;
      capacity, usage, deleted := 0, 0, [];
      lru := new LRUHandle([], 0, 0, 0);
      inUse := new LRUHandle([], 0, 0, 0);
      table := new HandleTable();
      lruList, useList, cached, held, made := [], [], {}, map[], {};
      new;
      lru.next, lru.prev := lru, lru;
      inUse.next, inUse.prev := inUse, inUse;
    }

    method SetCapacity(capacity: nat)
      modifies this`capacity
      ensures this.capacity == capacity && Now() == old(Now()) && (old(Valid()) ==> Valid())
    {
      this.capacity := capacity;
    }

    /** Moves e to the newest end of the in-use list. */
    method MoveToInUse(e: LRUHandle)
      requires Circles() && e in lruList
      modifies this`lruList, this`useList, lru`next, lru`prev, inUse`next, inUse`prev, lruList`next, lruList`prev, useList`next, useList`prev
      ensures Circles()
      ensures lruList == Minus(old(lruList), e) && useList == old(useList) + [e]
    {
      RemoveFrom(e, lru, lruList, inUse, useList);
      lruList := Minus(lruList, e);
      AppendTo(inUse, e, useList, lru, lruList);
      useList := useList + [e];
    }

    /** Moves e to the newest end of the LRU list. */
    method MoveToLru(e: LRUHandle)
      requires Circles() && e in useList
      modifies this`lruList, this`useList, lru`next, lru`prev, inUse`next, inUse`prev, lruList`next, lruList`prev, useList`next, useList`prev
      ensures Circles()
      ensures lruList == old(lruList) + [e] && useList == Minus(old(useList), e)
    {
      RemoveFrom(e, inUse, useList, lru, lruList);
      useList := Minus(useList, e);
      AppendTo(lru, e, lruList, inUse, useList);
      lruList := lruList + [e];
    }

    /** The move that Ref makes for an entry nobody holds yet. */
    method MoveIfIdle(e: LRUHandle)
      requires Circles() && Fields(null) && Tabled(null) && Placed(lruList, useList, held, cached, null) && e in held
      modifies this`lruList, this`useList, lru`next, lru`prev, inUse`next, inUse`prev, held.Keys`next, held.Keys`prev
      ensures Circles() && Fields(null) && Tabled(null)
      ensures lruList == Minus(old(lruList), e)
      ensures useList == (if e in old(lruList) then old(useList) + [e] else old(useList))
    {
      hide Tabled, Circles, Minus;
      ListsHeld(null);
      if e.refs == 1 && e.inCache {
        MoveToInUse(e);
      } else {
        NothingRemoved(lruList, e);
      }
    }

    method CountHold(e: LRUHandle)
      requires Fields(null) && e in held
      modifies this`held, e`refs
      ensures Fields(null) && held == old(held)[e := old(held)[e] + 1] && held.Keys == old(held.Keys)
    {
      e.refs := e.refs + 1;
      held := held[e := held[e] + 1];
      assert held.Keys == old(held.Keys);
    }

    /** A client is given one more hold on e. */
    method Ref(e: LRUHandle)
      requires Valid() && e in held
      modifies this`lruList, this`useList, this`held, lru`next, lru`prev, inUse`next, inUse`prev, held.Keys`next, held.Keys`prev, e`refs
      ensures Valid() && Now() == AfterRef(old(Now()), e)
    {
      hide Tabled, Circles, Fields, Minus, Total, Placed, LiveOrDeleted;
      PlacedRef(lruList, useList, held, cached, e);
      TotalMinus(lruList, e);
      TotalAppend(useList, e);
      MoveIfIdle(e);
      CountHold(e);
      assert Circles() && Tabled(null) && Charged() && Accounted();
    }

    /** The move that Unref makes for a cached entry nobody holds any more. */
    method MoveIfLeft(e: LRUHandle)
      requires Circles() && Fields(null) && Tabled(null) && Placed(lruList, useList, held, cached, e) && e in held
      requires e in cached
      modifies this`lruList, this`useList, lru`next, lru`prev, inUse`next, inUse`prev, held.Keys`next, held.Keys`prev
      ensures Circles() && Fields(null) && Tabled(null)
      ensures var idle := held[e] == 0;
              && lruList == (if idle then old(lruList) + [e] else old(lruList))
              && useList == (if idle then Minus(old(useList), e) else old(useList))
    {
      hide Tabled, Circles, Minus;
      ListsHeld(e);
      PlacedUnref(lruList, useList, held, cached, e);
      if e.refs == 1 {
        MoveToLru(e);
      }
    }

    /** Drops one reference: the last one frees e, and the last but the cache's own makes e the newest
        entry that may be evicted. */
    method Unref(e: LRUHandle)
      requires Inv(e, null) && e in held
      modifies this`lruList, this`useList, this`held, this`deleted, lru`next, lru`prev, inUse`next, inUse`prev, held.Keys`next, held.Keys`prev, e`refs
      ensures Valid()
      ensures Now() == AfterUnref(old(Now()), e)
    {
      hide Tabled, Circles, Minus, Total, Placed, LiveOrDeleted;
      PlacedUnref(lruList, useList, held, cached, e);
      TotalMinus(useList, e);
      TotalAppend(lruList, e);
      e.refs := e.refs - 1;
      if e.refs == 0 {
        PlacedForget(lruList, useList, held, cached, e);
        DeleteLive(held.Keys, deleted, made, e);
        deleted := deleted + [e];
        held := held - {e};
        assert held.Keys == old(held.Keys) - {e};
      } else if e.inCache {
        MoveIfLeft(e);
      }
      assert Circles() && Tabled(null) && Charged() && Accounted();
      assert Fields(null);
    }

    /** Takes e off the list it is on. */
    method TakeOff(e: LRUHandle)
      requires Circles() && (e in lruList <==> e !in useList)
      modifies this`lruList, this`useList, lru`next, lru`prev, inUse`next, inUse`prev, lruList`next, lruList`prev, useList`next, useList`prev
      ensures Circles() && lruList == Minus(old(lruList), e) && useList == Minus(old(useList), e)
    {
      ghost var idle := e in lruList;
      RemoveFrom(e, if idle then lru else inUse, if idle then lruList else useList,
                 if idle then inUse else lru, if idle then useList else lruList);
      lruList, useList := Minus(lruList, e), Minus(useList, e);
    }

    /** Takes e, which has just left the hash table, out of the cache. */
    method LeaveCache(e: LRUHandle)
      requires Inv(null, e)
      modifies this`lruList, this`useList, this`cached, this`usage, lru`next, lru`prev, inUse`next, inUse`prev, held.Keys`next, held.Keys`prev, e`inCache
      ensures Inv(e, null)
      ensures cached == old(cached) - {e} && usage == old(usage) - e.charge
      ensures lruList == Minus(old(lruList), e) && useList == Minus(old(useList), e)
    {
      hide Circles, Minus, Total, Placed, HandleTable.Valid, Accounted;
      PlacedUncache(lruList, useList, held, cached, e);
      TotalMinus(lruList, e);
      TotalMinus(useList, e);
      ListsHeld(null);
      TakeOff(e);
      e.inCache := false;
      usage := usage - e.charge;
      cached := cached - {e};
      assert Circles() && Tabled(null) && Charged() && Accounted();
      assert Fields(e);
    }

    /** The second half of an erasure, after the hash table has given up e. */
    method FinishErase(e: LRUHandle?) returns (erased: bool)
      requires Inv(null, e)
      modifies this`lruList, this`useList, this`cached, this`usage, this`held, this`deleted, lru`next, lru`prev, inUse`next, inUse`prev, held.Keys`next, held.Keys`prev, held.Keys`inCache, held.Keys`refs
      ensures Valid() && erased == (e != null) && (e != null ==> e in old(held))
      ensures Now() == AfterErase(old(Now()), e)
    {
      hide Circles, Minus, Total, Placed, Tabled, Charged, Accounted;
      if e != null {
        LeavingHeld(e);
        LeaveCache(e);
        Unref(e);
      }
      return e != null;
    }

    lemma LeavingHeld(e: LRUHandle)
      requires Inv(null, e)
      ensures e in held
    {
    }

    /** Has the hash table give up the entry under a key. */
    method TableRemove(key: Bytes, hash: nat) returns (e: LRUHandle?)
      requires Valid()
      modifies table`chains, table`contents, table`elems, table.list, held.Keys`nextHash
      ensures Inv(null, e) && IsEntry(cached, key, hash, e)
    {
      hide Circles, Charged, Accounted, HandleTable.Valid, Fields;
      CachedHeld();
      assert table.contents == cached;
      hide Placed;
      e := table.Remove(key, hash);
      assert Tabled(e);
      assert Circles() && Fields(null) && Charged() && Accounted();
    }

    lemma CachedHeld()
      requires Placed(lruList, useList, held, cached, null)
      ensures cached <= held.Keys
    {
    }

    /** Takes the entry under a key out of the cache; e is that entry, or null if there is none. */
    method Erase(key: Bytes, hash: nat) returns (ghost e: LRUHandle?)
      requires Valid()
      modifies this`lruList, this`useList, this`cached, this`usage, this`held, this`deleted, lru`next, lru`prev, inUse`next, inUse`prev
      modifies held.Keys`next, held.Keys`prev, held.Keys`inCache, held.Keys`refs, held.Keys`nextHash
      modifies table`chains, table`contents, table`elems, table.list
      ensures Valid() && IsEntry(old(cached), key, hash, e) && (e != null ==> e in old(held))
      ensures Now() == AfterErase(old(Now()), e)
    {
      hide Circles, Placed, Charged, Accounted, Tabled, Fields;
      var removed := TableRemove(key, hash);
      e := removed;
      var erased := FinishErase(removed);
    }

    /** The LRU list's head leads to the oldest entry, if there is one. */
    lemma Oldest()
      requires Valid()
      ensures lru.next == lru <==> lruList == []
      ensures lruList != [] ==> lru.next == lruList[0]
    {
      hide Placed, Tabled, Charged, Accounted, Fields;
      assert Around(lru, lruList, 0).next == Around(lru, lruList, 1);
    }

    lemma OldestIdle()
      requires Placed(lruList, useList, held, cached, null) && Tabled(null) && lruList != []
      ensures var e := lruList[0]; e in cached && e in held && held[e] == 0 && e !in useList && UniqueKeys(cached)
    {
      hide HandleTable.Valid;
      assert lruList[0] in lruList;
      UniqueInTable();
    }

    lemma UniqueInTable()
      requires Tabled(null)
      ensures UniqueKeys(cached)
    {
    }

    /** The oldest entry nobody holds leaves the cache and is freed. */
    method EvictOldest()
      requires Valid() && lruList != []
      modifies this`lruList, this`useList, this`cached, this`usage, this`held, this`deleted, lru`next, lru`prev, inUse`next, inUse`prev
      modifies held.Keys`next, held.Keys`prev, held.Keys`inCache, held.Keys`refs, held.Keys`nextHash
      modifies table`chains, table`contents, table`elems, table.list
      ensures Valid()
      ensures Now() == AfterEvict(old(Now()), 1)
    {
      hide Circles, Placed, Tabled, Charged, Accounted, Fields, AfterErase, AfterEvict;
      Oldest();
      OldestIdle();
      EvictOne(Now());
      var e := lru.next;
      var removed := TableRemove(e.key, e.hash);
      assert removed == e;
      var erased := FinishErase(removed);
    }

    /** Evicts the oldest idle entries while too much is in use: the fewest that are enough, or all. */
    method EvictOver()
      requires Valid()
      modifies this`lruList, this`useList, this`cached, this`usage, this`held, this`deleted, lru`next, lru`prev, inUse`next, inUse`prev
      modifies held.Keys`next, held.Keys`prev, held.Keys`inCache, held.Keys`refs, held.Keys`nextHash
      modifies table`chains, table`contents, table`elems, table.list
      ensures Valid()
      ensures Now() == AfterEvict(old(Now()), EvictCount(old(lruList), old(usage), capacity))
      ensures usage <= capacity || lruList == []
    {
      hide Inv, Total, Elements, EvictCount;
      EvictCountFewest(lruList, usage, capacity);
      ghost var j, all, k := 0, lruList, EvictCount(lruList, usage, capacity);
      EvictNone(Now());
      Oldest();
      while usage > capacity && lru.next != lru
        invariant Valid() && (lru.next == lru <==> lruList == [])
        invariant held.Keys <= old(held.Keys)
        invariant 0 <= j <= k <= |all| && k == j + EvictCount(lruList, usage, capacity)
        invariant Now() == AfterEvict(old(Now()), j)
        decreases |lruList|
      {
        EvictMore(old(Now()), j);
        EvictNext(Now(), capacity);
        EvictOldest();
        Oldest();
        j := j + 1;
      }
    }

    /** Evicts every entry nobody holds. */
    method Prune()
      requires Valid()
      modifies this`lruList, this`useList, this`cached, this`usage, this`held, this`deleted, lru`next, lru`prev, inUse`next, inUse`prev
      modifies held.Keys`next, held.Keys`prev, held.Keys`inCache, held.Keys`refs, held.Keys`nextHash
      modifies table`chains, table`contents, table`elems, table.list
      ensures Valid()
      ensures Now() == AfterEvict(old(Now()), |old(lruList)|)
    {
      hide Inv, Total, Elements;
      ghost var j, all := 0, lruList;
      EvictNone(Now());
      Oldest();
      while lru.next != lru
        invariant Valid() && (lru.next == lru <==> lruList == [])
        invariant held.Keys <= old(held.Keys)
        invariant 0 <= j <= |all|
        invariant Now() == AfterEvict(old(Now()), j)
        decreases |lruList|
      {
        EvictMore(old(Now()), j);
        EvictOldest();
        Oldest();
        j := j + 1;
      }
    }

    method Lookup(key: Bytes, hash: nat) returns (e: LRUHandle?)
      requires Valid()
      modifies this`lruList, this`useList, this`held, lru`next, lru`prev, inUse`next, inUse`prev, held.Keys`next, held.Keys`prev, held.Keys`refs
      ensures Valid() && IsEntry(cached, key, hash, e) && (e != null ==> e in old(held))
      ensures Now() == (if e == null then old(Now()) else AfterRef(old(Now()), e))
    {
      hide Circles, Charged, Accounted, HandleTable.Valid, Fields, Minus;
      CachedHeld();
      hide Placed;
      e := table.Lookup(key, hash);
      if e != null {
        Ref(e);
      }
    }

    /** A client gives back one of its holds on e. */
    method Release(e: LRUHandle)
      requires Valid() && e in held && held[e] > 0
      modifies this`lruList, this`useList, this`held, this`deleted, lru`next, lru`prev, inUse`next, inUse`prev, held.Keys`next, held.Keys`prev, e`refs
      ensures Valid()
      ensures Now() == AfterRelease(old(Now()), e)
    {
      hide Circles, Charged, Tabled, Minus, Placed, Elements, NoDuplicates;
      PlacedReturned(lruList, useList, held, cached, e);
      held := held[e := held[e] - 1];
      assert Circles() && Charged() && Tabled(null) && Accounted();
      Unref(e);
    }

    /** Makes an entry that its client holds once. */
    method NewEntry(key: Bytes, hash: nat, value: int, charge: nat) returns (e: LRUHandle)
      requires Valid()
      modifies this`held, this`made
      ensures Valid() && fresh(e) && Now() == AfterNew(old(Now()), e)
      ensures e.key == key && e.hash == hash && e.value == value && e.charge == charge && e !in cached
      ensures e !in old(held)
    {
      hide Circles, Charged, Tabled, Placed, Elements, NoDuplicates;
      e := new LRUHandle(key, hash, value, charge);
      CachedHeld();
      PlacedNew(lruList, useList, held, cached, e);
      held, made := held[e := 1], made + {e};
      assert Circles() && Charged() && Tabled(null);
    }

    /** Makes e the newest entry of the in-use list. */
    method AppendInUse(e: LRUHandle)
      requires Circles() && e != lru && e != inUse && e !in lruList && e !in useList
      modifies this`useList, inUse`next, inUse`prev, e`next, e`prev, useList`next, useList`prev
      ensures Circles() && useList == old(useList) + [e]
    {
      AppendTo(inUse, e, useList, lru, lruList);
      useList := useList + [e];
    }

    method MarkCached(e: LRUHandle)
      requires Fields(null) && Tabled(null) && e in held && e !in cached
      modifies this`cached, e`refs, e`inCache
      ensures Fields(null) && Tabled(e) && cached == old(cached) + {e}
    {
      hide HandleTable.Valid;
      e.refs := e.refs + 1;
      e.inCache := true;
      cached := cached + {e};
    }

    /** Makes e a cached entry, which the hash table does not have yet. */
    method EnterCache(e: LRUHandle)
      requires Valid() && e in held && e !in cached && held[e] == 1
      modifies this`useList, this`cached, this`usage, inUse`next, inUse`prev, held.Keys`next, held.Keys`prev, e`refs, e`inCache
      ensures Inv(null, e) && Now() == AfterEnter(old(Now()), e)
    {
      hide Tabled, Accounted, Placed, Total, Circles, RefsOf;
      PlacedEnter(lruList, useList, held, cached, e);
      TotalAppend(useList, e);
      ListsHeld(null);
      assert e != lru && e != inUse;
      hide Fields;
      MarkCached(e);
      AppendInUse(e);
      usage := usage + e.charge;
      assert Circles() && Charged() && Accounted() && Tabled(e);
    }

    /** Links e, already counted as cached, into the hash table. */
    method TableInsert(e: LRUHandle) returns (replaced: LRUHandle?)
      requires Inv(null, e)
      modifies table, table.list, held.Keys`nextHash
      ensures Inv(null, replaced) && IsEntry(cached - {e}, e.key, e.hash, replaced)
      ensures table.list == old(table.list) || fresh(table.list)
    {
      hide Circles, Charged, Accounted, HandleTable.Valid, Fields;
      CachedHeld();
      assert table.contents == cached - {e};
      hide Placed;
      replaced := table.Insert(e);
      assert Tabled(replaced);
      assert Circles() && Fields(null) && Charged() && Accounted();
    }

    /** Caches e in place of the entry with the same key, if there is one, which is returned. */
    method Admit(e: LRUHandle) returns (replaced: LRUHandle?)
      requires Valid() && e in held && e !in cached && held[e] == 1
      modifies this`lruList, this`useList, this`cached, this`usage, this`held, this`deleted, lru`next, lru`prev, inUse`next, inUse`prev
      modifies held.Keys`next, held.Keys`prev, held.Keys`inCache, held.Keys`refs, held.Keys`nextHash
      modifies table, table.list
      ensures Valid() && (table.list == old(table.list) || fresh(table.list))
      ensures IsEntry(old(cached), e.key, e.hash, replaced) && (replaced != null ==> replaced in old(held))
      ensures Now() == AfterErase(AfterEnter(old(Now()), e), replaced)
    {
      hide Circles, Placed, Charged, Accounted, Fields, Minus;
      EnterCache(e);
      replaced := TableInsert(e);
      hide Tabled;
      var erased := FinishErase(replaced);
    }

    /** Adds an entry, in place of the one with the same key if there is one, and then evicts what no
        longer fits. With no capacity the entry is not cached, but goes to the client all the same. */
    method Insert(key: Bytes, hash: nat, value: int, charge: nat) returns (e: LRUHandle, ghost replaced: LRUHandle?)
      requires Valid()
      modifies this`lruList, this`useList, this`cached, this`usage, this`held, this`deleted, this`made, lru`next, lru`prev, inUse`next, inUse`prev
      modifies held.Keys`next, held.Keys`prev, held.Keys`inCache, held.Keys`refs, held.Keys`nextHash
      modifies table, table.list
      ensures Valid() && (table.list == old(table.list) || fresh(table.list))
      ensures fresh(e) && e.key == key && e.hash == hash && e.value == value && e.charge == charge
      ensures e in held && held[e] == 1 && (capacity > 0 <==> e in cached)
      ensures if capacity > 0 then IsEntry(old(cached), key, hash, replaced) else replaced == null
      ensures replaced != null ==> replaced in old(held)
      ensures var new1 := AfterNew(old(Now()), e);
              var new2 := if capacity > 0 then AfterErase(AfterEnter(new1, e), replaced) else new1;
              Now() == AfterEvict(new2, EvictCount(new2.lruList, new2.usage, capacity))
      ensures usage <= capacity || lruList == []
      ensures usage <= capacity <==> Pinned(old(Now()), capacity, e, replaced) <= capacity
    {
      hide Inv, AfterErase, EvictCount, Minus, AfterEvict, Total;
      e := NewEntry(key, hash, value, charge);
      replaced := null;
      ghost var new1 := Now();
      if capacity > 0 {
        replaced := Admit(e);
        EraseKeeps(AfterEnter(new1, e), replaced, e);
        PinnedAfterAdmit(old(Now()), e, replaced);
      } else {
        Detach(e);
      }
      HeldStays(e);
      UsageIsTotal();
      FitsAfterEvict(Now(), capacity);
      EvictKeeps(Now(), EvictCount(lruList, usage, capacity), e);
      EvictOver();
    }

    lemma UsageIsTotal()
      requires Valid()
      ensures usage == Total(lruList) + Total(useList)
    {
    }

    /** What a client holds is not on the list that entries are evicted from. */
    lemma HeldStays(e: LRUHandle)
      requires Valid() && e in held && held[e] > 0
      ensures e !in lruList
    {
    }

    /** Clears the link of an entry that is on no list. */
    method Detach(e: LRUHandle)
      requires Valid() && e in held && e !in cached
      modifies e`next
      ensures Valid()
    {
      hide Tabled, Charged, Accounted, Around;
      assert e !in lruList && e !in useList && e != lru && e != inUse;
      e.next := null;
      assert Tabled(null) && Charged() && Accounted() && Fields(null);
      assert Circles();
    }

    /** What is in use is what the cached entries are charged. */
    method TotalCharge() returns (total: nat)
      requires Valid()
      ensures total == Total(lruList) + Total(useList)
    {
      total := usage;
    }

    /** In every reachable state an entry has been deleted exactly if no reference to it is left, and
        its count tells which list it is on. */
    lemma EntryState(h: LRUHandle)
      requires Valid() && h in made
      ensures h in deleted <==> h !in held
      ensures h in held ==> h.refs == held[h] + One(h in cached) > 0 && h.inCache == (h in cached)
      ensures h in cached ==> h in held && h in table.contents
      ensures h in lruList <==> h in cached && h.refs == 1
      ensures h in useList <==> h in cached && h.refs >= 2
    {
      hide Circles, HandleTable.Valid;
    }

    /** The destructor, which clients may run once they hold no cached entry: it frees every cached
        entry, oldest first. */
    method Destroy()
      requires Valid() && useList == []
      modifies this`held, this`deleted, held.Keys`inCache, held.Keys`refs
      ensures deleted == old(deleted) + lruList && held == old(held) - Elements(lruList)
      ensures LiveOrDeleted(held.Keys, deleted, made)
      ensures forall h :: h in held ==> held[h] > 0
    {
      hide LiveOrDeleted, Elements, HandleTable.Valid;
      var e := lru.next;
      ghost var i := 0;
      IdleListed();
      ghost var held0 := held;
      assert lruList[..0] == [];
      assert Around(lru, lruList, 0).next == Around(lru, lruList, 1);
      while e != lru
        invariant 0 <= i <= |lruList| && e == Around(lru, lruList, i + 1)
        invariant deleted == old(deleted) + lruList[..i] && held == old(held) - Elements(lruList[..i])
        invariant LiveOrDeleted(held.Keys, deleted, made)
        invariant forall j :: i <= j < |lruList| ==> lruList[j].refs == 1 && lruList[j] in held
        decreases |lruList| - i
      {
        assert e == lruList[i] && Around(lru, lruList, i + 1).next == Around(lru, lruList, i + 2);
        var next := e.next;
        e.inCache := false;
        e.refs := e.refs - 1;
        if e.refs == 0 {
          DeleteLive(held.Keys, deleted, made, e);
          deleted, held := deleted + [e], held - {e};
        }
        assert lruList[..i + 1] == lruList[..i] + [e];
        ElementsAppend(lruList[..i], e);
        e := next;
        i := i + 1;
      }
      assert lruList[..i] == lruList;
      assert held == held0 - Elements(lruList);
    }

    lemma IdleListed()
      requires Valid()
      ensures forall j :: 0 <= j < |lruList| ==> lruList[j] in held && lruList[j].refs == 1
      ensures forall h :: h in held && held[h] == 0 ==> h in Elements(lruList)
      ensures Elements([]) == {}
    {
      hide Circles, HandleTable.Valid;
      forall j | 0 <= j < |lruList|
        ensures lruList[j] in held && lruList[j].refs == 1
      {
        assert lruList[j] in lruList;
      }
    }

    lemma ListsHeld(surplus: LRUHandle?)
      requires Placed(lruList, useList, held, cached, surplus)
      ensures Elements(lruList) <= held.Keys && Elements(useList) <= held.Keys
    {
    }

    lemma NothingRemoved(s: seq<LRUHandle>, e: LRUHandle)
      requires e !in s
      ensures Minus(s, e) == s
    {
    }
  }
}
