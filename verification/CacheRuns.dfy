/** Whole runs of cache calls, on values: what every sequence of calls keeps. */
module CacheRuns {
  import opened Coding
  import opened HandleTables
  import opened LruLists
  import opened LruCaches
  import opened Options

  /** Every entry that is live is referenced and accounted for; surplus is an entry with one reference
      that is about to be dropped. */
  ghost predicate SoundBut(v: View, surplus: LRUHandle?) {
    && Placed(v.lruList, v.useList, v.held, v.cached, surplus)
    && v.usage == Total(v.lruList) + Total(v.useList)
    && LiveOrDeleted(v.held.Keys, v.deleted, v.made)
    && forall h :: h in v.held ==> RefsOf(v.held, v.cached, surplus, h) > 0
  }

  ghost predicate Sound(v: View) {
    SoundBut(v, null) && UniqueKeys(v.cached)
  }

  /** The states the class can be in are sound. */
  lemma ValidIsSound(c: LRUCache)
    requires c.Valid()
    ensures Sound(c.Now())
  {
    hide Placed, LiveOrDeleted, Total, LRUCache.Circles;
    c.UniqueInTable();
    hide LRUCache.Tabled;
  }

  lemma SoundRef(v: View, e: LRUHandle)
    requires SoundBut(v, null) && e in v.held
    ensures SoundBut(AfterRef(v, e), null)
  {
    hide Placed, LiveOrDeleted, Total, Minus;
    PlacedRef(v.lruList, v.useList, v.held, v.cached, e);
    TotalMinus(v.lruList, e);
    TotalAppend(v.useList, e);
    assert AfterRef(v, e).held.Keys == v.held.Keys;
  }

  lemma SoundUnref(v: View, e: LRUHandle)
    requires SoundBut(v, e) && e in v.held
    ensures SoundBut(AfterUnref(v, e), null)
  {
    hide Placed, LiveOrDeleted, Total, Minus;
    PlacedUnref(v.lruList, v.useList, v.held, v.cached, e);
    if v.held[e] == 0 {
      if e in v.cached {
        TotalMinus(v.useList, e);
        TotalAppend(v.lruList, e);
      } else {
        PlacedForget(v.lruList, v.useList, v.held, v.cached, e);
        DeleteLive(v.held.Keys, v.deleted, v.made, e);
        assert AfterUnref(v, e).held.Keys == v.held.Keys - {e};
      }
    }
  }

  lemma SoundRelease(v: View, e: LRUHandle)
    requires SoundBut(v, null) && e in v.held && v.held[e] > 0
    ensures SoundBut(AfterRelease(v, e), null)
  {
    hide Placed, LiveOrDeleted, Total, Minus, AfterUnref;
    var w := v.(held := v.held[e := v.held[e] - 1]);
    PlacedReturned(v.lruList, v.useList, v.held, v.cached, e);
    assert w.held.Keys == v.held.Keys;
    SoundUnref(w, e);
  }

  lemma SoundErase(v: View, e: LRUHandle)
    requires SoundBut(v, null) && e in v.cached
    ensures e in v.held && SoundBut(AfterErase(v, e), null)
  {
    hide LiveOrDeleted, Total, Minus, AfterUnref;
    PlacedUncache(v.lruList, v.useList, v.held, v.cached, e);
    hide Placed;
    TotalMinus(v.lruList, e);
    TotalMinus(v.useList, e);
    SoundUnref(v.(cached := v.cached - {e}, usage := v.usage - e.charge,
                  lruList := Minus(v.lruList, e), useList := Minus(v.useList, e)), e);
  }

  lemma SoundEnter(v: View, e: LRUHandle)
    requires SoundBut(v, null) && e in v.held && e !in v.cached && v.held[e] > 0
    ensures SoundBut(AfterEnter(v, e), null)
  {
    hide Placed, LiveOrDeleted, Total;
    PlacedEnter(v.lruList, v.useList, v.held, v.cached, e);
    TotalAppend(v.useList, e);
  }

  lemma SoundNew(v: View, e: LRUHandle)
    requires SoundBut(v, null) && e !in v.made
    ensures SoundBut(AfterNew(v, e), null) && e !in v.cached
  {
    hide Total;
  }

  lemma {:induction false} SoundEvict(v: View, k: nat)
    requires SoundBut(v, null) && k <= |v.lruList|
    ensures SoundBut(AfterEvict(v, k), null)
    ensures AfterEvict(v, k).cached <= v.cached
  {
    hide Placed, LiveOrDeleted, Total, Minus, AfterErase;
    if k == 0 {
      EvictNone(v);
    } else {
      SoundEvict(v, k - 1);
      EvictMore(v, k - 1);
      var w := AfterEvict(v, k - 1);
      OldestIdle(w);
      EvictOne(w);
      hide AfterEvict;
      SoundErase(w, w.lruList[0]);
    }
  }

  lemma OldestIdle(v: View)
    requires SoundBut(v, null) && v.lruList != []
    ensures var e := v.lruList[0]; e in v.cached && e in v.held && v.held[e] == 0 && e !in v.useList
  {
    hide Total, LiveOrDeleted;
    assert v.lruList[0] in v.lruList;
  }

  // ---------------------------------------------------------------------- runs

  /** A call with what it found or made: found, erased and replaced are the cached entry under the
      key, or null. */
  datatype Call =
    | Lookup(key: Bytes, hash: nat, found: LRUHandle?)
    | Release(e: LRUHandle)
    | Erase(key: Bytes, hash: nat, erased: LRUHandle?)
    | Prune
    | Insert(capacity: nat, e: LRUHandle, replaced: LRUHandle?)

  /** The clients' side, that only what is held is released, and what the code determines. */
  ghost predicate Allowed(v: View, call: Call) {
    match call
    case Lookup(key, hash, found) => IsEntry(v.cached, key, hash, found)
    case Release(e) => e in v.held && v.held[e] > 0
    case Erase(key, hash, erased) => IsEntry(v.cached, key, hash, erased)
    case Prune => true
    case Insert(capacity, e, replaced) =>
      e !in v.made && if capacity > 0 then IsEntry(v.cached, e.key, e.hash, replaced) else replaced == null
  }

  /** The state before Insert evicts. */
  ghost function AfterAdmit(v: View, capacity: nat, e: LRUHandle, replaced: LRUHandle?): View
    requires replaced != null ==> replaced in AfterEnter(AfterNew(v, e), e).held
  {
    if capacity > 0 then AfterErase(AfterEnter(AfterNew(v, e), e), replaced) else AfterNew(v, e)
  }

  lemma EntryHeld(v: View, key: Bytes, hash: nat, e: LRUHandle?)
    requires SoundBut(v, null) && IsEntry(v.cached, key, hash, e)
    ensures e != null ==> e in v.cached && e in v.held
  {
  }

  ghost function Apply(v: View, call: Call): View
    requires SoundBut(v, null) && Allowed(v, call)
  {
    match call
    case Lookup(key, hash, found) =>
      EntryHeld(v, key, hash, found);
      if found == null then v else AfterRef(v, found)
    case Release(e) => AfterRelease(v, e)
    case Erase(key, hash, erased) =>
      EntryHeld(v, key, hash, erased);
      AfterErase(v, erased)
    case Prune => AfterEvict(v, |v.lruList|)
    case Insert(capacity, e, replaced) =>
      if capacity > 0 then
        EntryHeld(v, e.key, e.hash, replaced);
        var w := AfterAdmit(v, capacity, e, replaced);
        AfterEvict(w, EvictCount(w.lruList, w.usage, capacity))
      else
        var w := AfterAdmit(v, capacity, e, null);
        AfterEvict(w, EvictCount(w.lruList, w.usage, capacity))
  }

  /** Only deletions go on the list of deletions, and only at its end. */
  ghost predicate Grows(v: View, w: View) {
    v.deleted <= w.deleted && v.made <= w.made
  }

  lemma ApplyAdmit(v: View, capacity: nat, e: LRUHandle, replaced: LRUHandle?)
    requires Sound(v) && Allowed(v, Insert(capacity, e, replaced))
    ensures replaced != null ==> replaced in AfterEnter(AfterNew(v, e), e).held
    ensures Sound(AfterAdmit(v, capacity, e, replaced)) && Grows(v, AfterAdmit(v, capacity, e, replaced))
  {
    hide Placed, LiveOrDeleted, Total, AfterErase, UniqueKeys;
    SoundNew(v, e);
    var w := AfterNew(v, e);
    assert w.cached == v.cached && Grows(v, w);
    if capacity > 0 {
      SoundEnter(w, e);
      assert AfterEnter(w, e).cached == v.cached + {e};
      if replaced == null {
        EraseNothing(AfterEnter(w, e));
      } else {
        SoundErase(AfterEnter(w, e), replaced);
        EraseGrows(AfterEnter(w, e), replaced);
      }
      LinkUnique(v.cached, e, replaced);
      EntryHeld(v, e.key, e.hash, replaced);
      assert v.cached - AsSet(replaced) + {e} == v.cached + {e} - AsSet(replaced);
      assert AfterAdmit(v, capacity, e, replaced).cached == v.cached + {e} - AsSet(replaced);
    }
  }

  lemma EraseNothing(v: View)
    ensures AfterErase(v, null) == v
  {
  }

  lemma EraseGrows(v: View, e: LRUHandle)
    requires e in v.held
    ensures Grows(v, AfterErase(v, e)) && AfterErase(v, e).cached == v.cached - AsSet(e)
  {
    hide Minus, Total;
  }

  /** Every call keeps the state sound. */
  lemma ApplySound(v: View, call: Call)
    requires Sound(v) && Allowed(v, call)
    ensures Sound(Apply(v, call)) && Grows(v, Apply(v, call))
  {
    hide Placed, LiveOrDeleted, Total, AfterErase, UniqueKeys, Minus, AfterAdmit;
    match call
    case Lookup(key, hash, found) =>
      EntryHeld(v, key, hash, found);
      if found != null {
        SoundRef(v, found);
      }
    case Release(e) =>
      SoundRelease(v, e);
    case Erase(key, hash, erased) =>
      EntryHeld(v, key, hash, erased);
      EraseNothing(v);
      if erased != null {
        SoundErase(v, erased);
        EraseGrows(v, erased);
        FewerUnique(v.cached, AfterErase(v, erased).cached);
      }
    case Prune =>
      SoundEvict(v, |v.lruList|);
      FewerUnique(v.cached, Apply(v, call).cached);
    case Insert(capacity, e, replaced) =>
      ApplyAdmit(v, capacity, e, replaced);
      var w := AfterAdmit(v, capacity, e, replaced);
      SoundEvict(w, EvictCount(w.lruList, w.usage, capacity));
      FewerUnique(w.cached, Apply(v, call).cached);
  }

  lemma FewerUnique(all: set<LRUHandle>, some: set<LRUHandle>)
    requires UniqueKeys(all) && some <= all
    ensures UniqueKeys(some)
  {
  }

  ghost function Run(v: View, calls: seq<Call>): Option<View>
    decreases |calls|
  {
    if calls == [] then Some(v)
    else if SoundBut(v, null) && Allowed(v, calls[0]) then Run(Apply(v, calls[0]), calls[1..])
    else None
  }

  lemma {:induction false} RunSound(v: View, calls: seq<Call>)
    requires Sound(v) && Run(v, calls).Some?
    ensures Sound(Run(v, calls).value) && Grows(v, Run(v, calls).value)
    decreases |calls|
  {
    hide Apply, Sound;
    if calls != [] {
      ApplySound(v, calls[0]);
      RunSound(Apply(v, calls[0]), calls[1..]);
    }
  }

  ghost function References(v: View, h: LRUHandle): nat {
    (if h in v.held then v.held[h] else 0) + One(h in v.cached)
  }

  /** After any sequence of calls to a new cache, an entry has been deleted exactly if no client holds it
      and it is not cached; none has been deleted twice; and what is in use is what the cached entries
      are charged. */
  lemma DeletedWhenUnreferenced(calls: seq<Call>, h: LRUHandle)
    requires Run(View({}, 0, map[], [], [], [], {}), calls).Some?
    ensures var v := Run(View({}, 0, map[], [], [], [], {}), calls).value;
            && NoDuplicates(v.deleted)
            && (h in v.made ==> (h in v.deleted <==> References(v, h) == 0))
            && v.usage == Total(v.lruList) + Total(v.useList)
            && (h in v.lruList || h in v.useList <==> h in v.cached)
  {
    var empty := View({}, 0, map[], [], [], [], {});
    EmptySound();
    RunSound(empty, calls);
  }

  lemma EmptySound()
    ensures Sound(View({}, 0, map[], [], [], [], {}))
  {
  }

  // ----------------------------------------------------------- holds, counted

  function HoldsOf(v: View, h: LRUHandle): nat {
    if h in v.held then v.held[h] else 0
  }

  /** A handle is given out by an insertion and by a lookup that finds it, and given back by a release. */
  function Change(call: Call, h: LRUHandle): int {
    match call
    case Lookup(_, _, found) => if found == h then 1 else 0
    case Insert(_, e, _) => if e == h then 1 else 0
    case Release(e) => if e == h then -1 else 0
    case Erase(_, _, _) => 0
    case Prune => 0
  }

  function NetHolds(calls: seq<Call>, h: LRUHandle): int {
    if calls == [] then 0 else Change(calls[0], h) + NetHolds(calls[1..], h)
  }

  lemma EraseHolds(v: View, e: LRUHandle, h: LRUHandle)
    requires e in v.held
    ensures HoldsOf(AfterErase(v, e), h) == HoldsOf(v, h)
  {
    hide Minus;
  }

  lemma EvictHolds(v: View, k: nat, h: LRUHandle)
    requires SoundBut(v, null) && k <= |v.lruList|
    ensures HoldsOf(AfterEvict(v, k), h) == HoldsOf(v, h)
  {
    hide Total, LiveOrDeleted;
    if h in Elements(v.lruList[..k]) {
      assert h in v.lruList;
    }
  }

  lemma AdmitHolds(v: View, capacity: nat, e: LRUHandle, replaced: LRUHandle?, h: LRUHandle)
    requires Sound(v) && Allowed(v, Insert(capacity, e, replaced))
    ensures replaced != null ==> replaced in AfterEnter(AfterNew(v, e), e).held
    ensures HoldsOf(AfterAdmit(v, capacity, e, replaced), h) == if h == e then 1 else HoldsOf(v, h)
  {
    hide Placed, Total, UniqueKeys, AfterErase;
    if replaced != null {
      EntryHeld(v, e.key, e.hash, replaced);
      EraseHolds(AfterEnter(AfterNew(v, e), e), replaced, h);
    } else {
      EraseNothing(AfterEnter(AfterNew(v, e), e));
    }
  }

  lemma ApplyHolds(v: View, call: Call, h: LRUHandle)
    requires Sound(v) && Allowed(v, call)
    ensures HoldsOf(Apply(v, call), h) == HoldsOf(v, h) + Change(call, h)
  {
    hide Placed, Total, UniqueKeys, Minus, AfterErase, AfterAdmit, AfterEvict, EvictCount;
    match call
    case Lookup(key, hash, found) => EntryHeld(v, key, hash, found);
    case Release(e) =>
    case Erase(key, hash, erased) =>
      EntryHeld(v, key, hash, erased);
      EraseNothing(v);
      if erased != null {
        EraseHolds(v, erased, h);
      }
    case Prune => EvictHolds(v, |v.lruList|, h);
    case Insert(capacity, e, replaced) =>
      ApplyAdmit(v, capacity, e, replaced);
      AdmitHolds(v, capacity, e, replaced, h);
      var w := AfterAdmit(v, capacity, e, replaced);
      EvictHolds(w, EvictCount(w.lruList, w.usage, capacity), h);
      assert h == e ==> HoldsOf(v, h) == 0;
  }

  lemma {:induction false} RunHolds(v: View, calls: seq<Call>, h: LRUHandle)
    requires Sound(v) && Run(v, calls).Some?
    ensures HoldsOf(Run(v, calls).value, h) == HoldsOf(v, h) + NetHolds(calls, h)
    decreases |calls|
  {
    hide Apply, Sound, HoldsOf, Change;
    if calls != [] {
      ApplySound(v, calls[0]);
      ApplyHolds(v, calls[0], h);
      RunHolds(Apply(v, calls[0]), calls[1..], h);
    }
  }

  /** After any sequence of calls, clients hold an entry as often as it was given out and not given
      back; so it has been deleted exactly if that is never and it is not cached. */
  lemma HoldsAreCounted(calls: seq<Call>, h: LRUHandle)
    requires Run(View({}, 0, map[], [], [], [], {}), calls).Some?
    ensures var v := Run(View({}, 0, map[], [], [], [], {}), calls).value;
            && HoldsOf(v, h) == NetHolds(calls, h)
            && (h in v.made ==> (h in v.deleted <==> NetHolds(calls, h) == 0 && h !in v.cached))
  {
    EmptySound();
    RunHolds(View({}, 0, map[], [], [], [], {}), calls, h);
    DeletedWhenUnreferenced(calls, h);
  }

  // ------------------------------------------------------- what a lookup finds

  /** An entry that a client holds stays cached until its key is erased or inserted again, whatever
      else is called. */
  lemma HeldStaysCached(v: View, call: Call, h: LRUHandle)
    requires Sound(v) && Allowed(v, call) && h in v.cached && HoldsOf(v, h) > 0
    requires call.Erase? || (call.Insert? && call.capacity > 0) ==>
               (if call.Erase? then call.key != h.key else call.e.key != h.key)
    ensures h in Apply(v, call).cached
  {
    hide Total, LiveOrDeleted, UniqueKeys, Minus, EvictCount;
    match call
    case Lookup(key, hash, found) => EntryHeld(v, key, hash, found);
    case Release(e) =>
    case Erase(key, hash, erased) => EntryHeld(v, key, hash, erased);
    case Prune => EvictKeeps(v, |v.lruList|, h);
    case Insert(capacity, e, replaced) =>
      AdmitIdle(v, capacity, e, replaced);
      ApplyAdmit(v, capacity, e, replaced);
      AdmitHolds(v, capacity, e, replaced, h);
      var w := AfterAdmit(v, capacity, e, replaced);
      hide AfterAdmit;
      EvictKeeps(w, EvictCount(w.lruList, w.usage, capacity), h);
  }

  /** A lookup right after an insertion finds the new entry, and the replaced one is gone. */
  lemma InsertThenLookup(v: View, capacity: nat, e: LRUHandle, replaced: LRUHandle?, found: LRUHandle?)
    requires Sound(v) && Allowed(v, Insert(capacity, e, replaced)) && capacity > 0
    requires Allowed(Apply(v, Insert(capacity, e, replaced)), Lookup(e.key, e.hash, found))
    ensures found == e && replaced !in Apply(v, Insert(capacity, e, replaced)).cached
  {
    hide Placed, LiveOrDeleted, Total, AfterAdmit, EvictCount, SoundBut;
    AdmitIdle(v, capacity, e, replaced);
    NotIdle(v, e, replaced);
    var w := AfterAdmit(v, capacity, e, replaced);
    EvictKeeps(w, EvictCount(w.lruList, w.usage, capacity), e);
    ApplySound(v, Insert(capacity, e, replaced));
  }

  lemma NotIdle(v: View, e: LRUHandle, replaced: LRUHandle?)
    requires Sound(v) && e !in v.made && (replaced != null ==> replaced in v.cached)
    ensures e !in v.lruList && e != replaced && (replaced != null ==> e !in Minus(v.lruList, replaced))
  {
    hide Total, Minus;
    NotMade(v, e, replaced);
    MinusMembers(v.lruList, if replaced == null then e else replaced);
  }

  /** A lookup right after an erasure finds nothing. */
  lemma EraseThenLookup(v: View, key: Bytes, hash: nat, erased: LRUHandle?, found: LRUHandle?)
    requires Sound(v) && Allowed(v, Erase(key, hash, erased))
    requires Allowed(Apply(v, Erase(key, hash, erased)), Lookup(key, hash, found))
    ensures found == null
  {
    hide Placed, LiveOrDeleted, Total, Minus;
    EntryHeld(v, key, hash, erased);
    EraseNothing(v);
    if erased != null {
      EraseGrows(v, erased);
    }
  }

  /** Pruning leaves exactly the cached entries that clients hold, and charges for nothing else. */
  lemma PruneKeepsHeld(v: View, h: LRUHandle)
    requires Sound(v)
    ensures var w := Apply(v, Prune);
            && w.lruList == [] && w.usage == Total(w.useList)
            && (h in w.cached <==> h in v.cached && HoldsOf(v, h) > 0)
  {
    hide LiveOrDeleted, UniqueKeys;
    ApplySound(v, Prune);
    if h in v.cached && HoldsOf(v, h) == 0 {
      assert v.lruList[..|v.lruList|] == v.lruList;
    } else {
      EvictKeeps(v, |v.lruList|, h);
    }
  }

  // --------------------------------------------- least recently used first

  /** When h was last released, as an index among the calls; -1 if it never was. */
  ghost function LastRelease(calls: seq<Call>, h: LRUHandle): (i: int)
    ensures -1 <= i < |calls|
    ensures i >= 0 ==> calls[i] == Release(h)
    ensures forall j :: i < j < |calls| ==> calls[j] != Release(h)
    decreases |calls|
  {
    var last := |calls| - 1;
    if calls == [] || calls[last] == Release(h) then last else LastRelease(calls[..last], h)
  }

  lemma ReleaseNext(calls: seq<Call>, call: Call, h: LRUHandle)
    ensures LastRelease(calls + [call], h) == if call == Release(h) then |calls| else LastRelease(calls, h)
  {
    assert (calls + [call])[..|calls|] == calls;
  }

  /** Every entry of s has been released, and each one before the next. */
  ghost predicate InReleaseOrder(calls: seq<Call>, s: seq<LRUHandle>) {
    && (forall i :: 0 <= i < |s| ==> LastRelease(calls, s[i]) >= 0)
    && forall i, j :: 0 <= i < j < |s| ==> LastRelease(calls, s[i]) < LastRelease(calls, s[j])
  }

  lemma OrderWithout(calls: seq<Call>, s: seq<LRUHandle>, e: LRUHandle)
    requires InReleaseOrder(calls, s)
    ensures InReleaseOrder(calls, Minus(s, e))
  {
    hide LastRelease;
  }

  lemma OrderBehind(calls: seq<Call>, s: seq<LRUHandle>, k: nat)
    requires InReleaseOrder(calls, s) && k <= |s|
    ensures InReleaseOrder(calls, s[k..])
  {
    hide LastRelease;
  }

  /** Only calls that release an entry of s move it. */
  lemma OrderKept(calls: seq<Call>, call: Call, s: seq<LRUHandle>)
    requires InReleaseOrder(calls, s) && forall h :: h in s ==> call != Release(h)
    ensures InReleaseOrder(calls + [call], s)
  {
    hide LastRelease;
    forall i | 0 <= i < |s| ensures LastRelease(calls + [call], s[i]) == LastRelease(calls, s[i]) {
      assert s[i] in s;
      ReleaseNext(calls, call, s[i]);
    }
  }

  lemma OrderAppend(calls: seq<Call>, s: seq<LRUHandle>, e: LRUHandle)
    requires InReleaseOrder(calls, s) && e !in s
    ensures InReleaseOrder(calls + [Release(e)], s + [e])
  {
    hide LastRelease;
    ReleaseNext(calls, Release(e), e);
    OrderKept(calls, Release(e), s);
    var calls' := calls + [Release(e)];
    forall i | 0 <= i < |s| ensures LastRelease(calls', s[i]) < |calls| {
      assert s[i] in s;
      ReleaseNext(calls, Release(e), s[i]);
    }
  }

  lemma ReleaseOrder(v: View, e: LRUHandle, calls: seq<Call>)
    requires Sound(v) && Allowed(v, Release(e)) && InReleaseOrder(calls, v.lruList)
    ensures InReleaseOrder(calls + [Release(e)], AfterRelease(v, e).lruList)
  {
    hide InReleaseOrder, Total, LiveOrDeleted;
    assert e !in v.lruList;
    OrderKept(calls, Release(e), v.lruList);
    OrderAppend(calls, v.lruList, e);
  }

  lemma AdmitIdle(v: View, capacity: nat, e: LRUHandle, replaced: LRUHandle?)
    requires Sound(v) && Allowed(v, Insert(capacity, e, replaced))
    ensures replaced != null ==> replaced in AfterEnter(AfterNew(v, e), e).held
    ensures AfterAdmit(v, capacity, e, replaced).lruList == if replaced == null then v.lruList else Minus(v.lruList, replaced)
    ensures AfterAdmit(v, capacity, e, replaced).cached == v.cached - AsSet(replaced) + if capacity > 0 then {e} else {}
  {
    hide Minus, Total, LiveOrDeleted;
    ApplyAdmit(v, capacity, e, replaced);
    if replaced != null {
      EntryHeld(v, e.key, e.hash, replaced);
      EraseGrows(AfterEnter(AfterNew(v, e), e), replaced);
      NotMade(v, e, replaced);
    }
  }

  /** A call keeps the idle entries in the order of their last releases. */
  lemma ApplyKeepsOrder(v: View, call: Call, calls: seq<Call>)
    requires Sound(v) && Allowed(v, call) && InReleaseOrder(calls, v.lruList)
    ensures InReleaseOrder(calls + [call], Apply(v, call).lruList)
  {
    hide InReleaseOrder, Placed, LiveOrDeleted, Total, UniqueKeys, Minus, AfterAdmit, EvictCount;
    if !call.Release? {
      OrderKept(calls, call, v.lruList);
    }
    match call
    case Lookup(key, hash, found) =>
      EntryHeld(v, key, hash, found);
      if found != null {
        OrderWithout(calls + [call], v.lruList, found);
      }
    case Release(e) =>
      ReleaseOrder(v, e, calls);
    case Erase(key, hash, erased) =>
      EntryHeld(v, key, hash, erased);
      if erased != null {
        OrderWithout(calls + [call], v.lruList, erased);
      }
    case Prune =>
      OrderBehind(calls + [call], v.lruList, |v.lruList|);
    case Insert(capacity, e, replaced) =>
      AdmitIdle(v, capacity, e, replaced);
      var w := AfterAdmit(v, capacity, e, replaced);
      if replaced != null {
        OrderWithout(calls + [call], v.lruList, replaced);
      }
      OrderBehind(calls + [call], w.lruList, EvictCount(w.lruList, w.usage, capacity));
  }

  lemma {:induction false} RunKeepsOrder(v: View, past: seq<Call>, calls: seq<Call>)
    requires Sound(v) && Run(v, calls).Some? && InReleaseOrder(past, v.lruList)
    ensures InReleaseOrder(past + calls, Run(v, calls).value.lruList)
    decreases |calls|
  {
    hide Apply, Sound, InReleaseOrder;
    if calls == [] {
      assert past + calls == past;
    } else {
      ApplySound(v, calls[0]);
      ApplyKeepsOrder(v, calls[0], past);
      RunKeepsOrder(Apply(v, calls[0]), past + [calls[0]], calls[1..]);
      assert past + [calls[0]] + calls[1..] == past + calls;
    }
  }

  /** After any sequence of calls to a new cache, the list of idle entries is in the order in which
      they were last released. */
  lemma IdleInReleaseOrder(calls: seq<Call>)
    requires Run(View({}, 0, map[], [], [], [], {}), calls).Some?
    ensures InReleaseOrder(calls, Run(View({}, 0, map[], [], [], [], {}), calls).value.lruList)
  {
    EmptySound();
    RunKeepsOrder(View({}, 0, map[], [], [], [], {}), [], calls);
    assert [] + calls == calls;
  }

  /** So an insertion evicts the least recently used: whatever idle entry it evicts was released for
      the last time before any entry that stays idle. */
  lemma LeastRecentlyUsedFirst(calls: seq<Call>, capacity: nat, e: LRUHandle, replaced: LRUHandle?, gone: LRUHandle, kept: LRUHandle)
    requires Run(View({}, 0, map[], [], [], [], {}), calls).Some?
    requires var v := Run(View({}, 0, map[], [], [], [], {}), calls).value;
             && SoundBut(v, null) && Allowed(v, Insert(capacity, e, replaced))
             && gone in v.cached && gone != replaced && gone !in Apply(v, Insert(capacity, e, replaced)).cached
             && kept in Apply(v, Insert(capacity, e, replaced)).lruList
    ensures 0 <= LastRelease(calls, gone) < LastRelease(calls, kept)
  {
    hide InReleaseOrder, Placed, LiveOrDeleted, Total, UniqueKeys, Minus, AfterAdmit, EvictCount, LastRelease, Run;
    var empty := View({}, 0, map[], [], [], [], {});
    var v := Run(empty, calls).value;
    EmptySound();
    RunSound(empty, calls);
    IdleInReleaseOrder(calls);
    AdmitIdle(v, capacity, e, replaced);
    var w := AfterAdmit(v, capacity, e, replaced);
    if replaced != null {
      OrderWithout(calls, v.lruList, replaced);
    }
    FrontBeforeBack(calls, w.lruList, EvictCount(w.lruList, w.usage, capacity), gone, kept);
  }

  lemma FrontBeforeBack(calls: seq<Call>, s: seq<LRUHandle>, k: nat, x: LRUHandle, y: LRUHandle)
    requires InReleaseOrder(calls, s) && k <= |s| && x in Elements(s[..k]) && y in s[k..]
    ensures 0 <= LastRelease(calls, x) < LastRelease(calls, y)
  {
    hide LastRelease;
    assert x in s[..k];
    var i :| 0 <= i < k && s[i] == x;
    var j :| k <= j < |s| && s[j] == y;
  }

  // ------------------------------------------------------------ the capacity

  /** An insertion ends within the capacity exactly if what cannot be evicted fits, the new entry
      included and the replaced one not; with no capacity, exactly if nothing is in use. */
  lemma InsertFitsIff(v: View, capacity: nat, e: LRUHandle, replaced: LRUHandle?)
    requires Sound(v) && Allowed(v, Insert(capacity, e, replaced))
    ensures Apply(v, Insert(capacity, e, replaced)).usage <= capacity <==> Pinned(v, capacity, e, replaced) <= capacity
  {
    hide Placed, LiveOrDeleted, Total, AfterErase, UniqueKeys, AfterEvict, EvictCount;
    ApplyAdmit(v, capacity, e, replaced);
    FitsAfterEvict(AfterAdmit(v, capacity, e, replaced), capacity);
    if capacity > 0 {
      EntryHeld(v, e.key, e.hash, replaced);
      NotMade(v, e, replaced);
      PinnedAfterAdmit(v, e, replaced);
    }
  }

  lemma NotMade(v: View, e: LRUHandle, h: LRUHandle?)
    requires SoundBut(v, null) && e !in v.made && (h != null ==> h in v.held)
    ensures h != e
  {
    hide Placed, Total;
  }

  /** No other call lets usage grow. */
  lemma OthersDoNotGrow(v: View, call: Call)
    requires Sound(v) && Allowed(v, call) && !call.Insert?
    ensures Apply(v, call).usage <= v.usage
  {
    hide Placed, LiveOrDeleted, Total, UniqueKeys, Minus;
    match call
    case Lookup(key, hash, found) => EntryHeld(v, key, hash, found);
    case Release(e) =>
    case Erase(key, hash, erased) => EntryHeld(v, key, hash, erased);
    case Prune =>
  }

  /** This insertion has room. */
  ghost predicate HasRoom(v: View, call: Call) {
    call.Insert? ==> Pinned(v, call.capacity, call.e, call.replaced) <= call.capacity
  }

  /** Every insertion of a run is made with this capacity. */
  predicate SameCapacity(calls: seq<Call>, capacity: nat) {
    forall i :: 0 <= i < |calls| && calls[i].Insert? ==> calls[i].capacity == capacity
  }

  /** A run with one capacity that starts within it and ends outside has made an insertion without
      room: that is the only way to break the bound. */
  lemma {:induction false} OnlyInsertBreaksBound(v: View, calls: seq<Call>, capacity: nat) returns (i: nat)
    requires Sound(v) && v.usage <= capacity && SameCapacity(calls, capacity)
    requires Run(v, calls).Some? && Run(v, calls).value.usage > capacity
    ensures i < |calls| && calls[i].Insert?
    ensures Run(v, calls[..i]).Some? && !HasRoom(Run(v, calls[..i]).value, calls[i])
    decreases |calls|
  {
    hide Apply, Sound, SoundBut, Pinned;
    var w := Apply(v, calls[0]);
    ApplySound(v, calls[0]);
    assert calls[..0] == [];
    if calls[0].Insert? && !HasRoom(v, calls[0]) {
      i := 0;
    } else {
      if calls[0].Insert? {
        InsertFitsIff(v, calls[0].capacity, calls[0].e, calls[0].replaced);
      } else {
        OthersDoNotGrow(v, calls[0]);
      }
      var j := OnlyInsertBreaksBound(w, calls[1..], capacity);
      i := j + 1;
      assert calls[..i][0] == calls[0] && calls[..i][1..] == calls[1..][..j];
    }
  }

  /** So usage_ can exceed capacity_: an entry too large for the cache is kept while a client holds it,
      and stays, idle, when the client gives it back. */
  lemma ReleasedEntryExceedsCapacity(e: LRUHandle)
    requires e.charge == 2
    ensures var empty := View({}, 0, map[], [], [], [], {});
            && Run(empty, [Insert(1, e, null)]) == Some(View({e}, 2, map[e := 1], [], [e], [], {e}))
            && Run(empty, [Insert(1, e, null), Release(e)]) == Some(View({e}, 2, map[e := 0], [e], [], [], {e}))
  {
    hide Apply, SoundBut, Allowed;
    var empty, inserted := View({}, 0, map[], [], [], [], {}), View({e}, 2, map[e := 1], [], [e], [], {e});
    InsertAlone(e);
    ReleaseAlone(e);
    assert [Insert(1, e, null), Release(e)][1..] == [Release(e)];
    assert Run(inserted, [Release(e)]) == Run(Apply(inserted, Release(e)), [Release(e)][1..]);
    assert Run(empty, [Insert(1, e, null)]) == Run(inserted, [Insert(1, e, null)][1..]);
  }

  lemma InsertAlone(e: LRUHandle)
    requires e.charge == 2
    ensures var empty := View({}, 0, map[], [], [], [], {});
            && SoundBut(empty, null) && Allowed(empty, Insert(1, e, null))
            && Apply(empty, Insert(1, e, null)) == View({e}, 2, map[e := 1], [], [e], [], {e})
  {
    hide SoundBut;
    var empty, inserted := View({}, 0, map[], [], [], [], {}), View({e}, 2, map[e := 1], [], [e], [], {e});
    EmptySound();
    EvictNone(inserted);
    EntryHeld(empty, e.key, e.hash, null);
    assert AfterAdmit(empty, 1, e, null) == inserted;
  }

  lemma ReleaseAlone(e: LRUHandle)
    requires e.charge == 2
    ensures var inserted := View({e}, 2, map[e := 1], [], [e], [], {e});
            && SoundBut(inserted, null) && Allowed(inserted, Release(e))
            && Apply(inserted, Release(e)) == View({e}, 2, map[e := 0], [e], [], [], {e})
  {
    hide SoundBut;
    InsertAlone(e);
    EmptySound();
    ApplySound(View({}, 0, map[], [], [], [], {}), Insert(1, e, null));
    MinusFirst([e]);
    assert map[e := 1][e := 0] == map[e := 0];
  }
}
