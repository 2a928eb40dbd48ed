/** A client that drives the cache through any list of requests. */
module CacheClient {
  import opened Coding
  import opened HandleTables
  import opened LruCaches
  import opened LruLists
  import opened CacheRuns
  import opened Options

  /** What a client asks for; handles are named by the client's own list of the ones it holds. */
  datatype Request =
    | Find(key: Bytes, hash: nat)
    | GiveBack(i: nat)
    | Forget(key: Bytes, hash: nat)
    | Clear
    | Store(key: Bytes, hash: nat, value: int, charge: nat)
    | Resize(capacity: nat)

  /** The calls a request leads to: one, or none for a change of capacity and for a handle that the
      client does not have. */
  ghost predicate Answers(request: Request, capacity: nat, call: Option<Call>) {
    match request
    case Find(key, hash) => call.Some? && call.value.Lookup? && call.value.key == key && call.value.hash == hash
    case GiveBack(_) => call.Some? ==> call.value.Release?
    case Forget(key, hash) => call.Some? && call.value.Erase? && call.value.key == key && call.value.hash == hash
    case Clear => call == Some(Call.Prune)
    case Store(key, hash, value, charge) =>
      && call.Some? && call.value.Insert? && call.value.capacity == capacity
      && call.value.e.key == key && call.value.e.hash == hash && call.value.e.value == value && call.value.e.charge == charge
    case Resize(_) => call == None
  }

  function AsCalls(call: Option<Call>): seq<Call> {
    if call.Some? then [call.value] else []
  }

  // ----------------------------------------------------- what the client holds

  /** The client holds each entry as often as it is on its list. */
  ghost predicate Holding(held: map<LRUHandle, nat>, handles: seq<LRUHandle>) {
    && (forall h :: h in handles ==> h in held)
    && (forall h :: h in held ==> multiset(handles)[h] == held[h])
  }

  /** Nothing that is held is lost, and nothing else becomes held. */
  ghost predicate KeepsHeld(held: map<LRUHandle, nat>, held': map<LRUHandle, nat>) {
    && (forall h :: h in held' ==> h in held && held'[h] == held[h])
    && (forall h :: h in held && held[h] > 0 ==> h in held')
  }

  lemma HoldingKept(held: map<LRUHandle, nat>, held': map<LRUHandle, nat>, handles: seq<LRUHandle>)
    requires Holding(held, handles) && KeepsHeld(held, held')
    ensures Holding(held', handles)
  {
    forall h | h in handles
      ensures h in held'
    {
      assert multiset(handles)[h] > 0;
    }
  }

  lemma HoldingMore(held: map<LRUHandle, nat>, handles: seq<LRUHandle>, e: LRUHandle)
    requires Holding(held, handles)
    ensures Holding(held[e := (if e in held then held[e] else 0) + 1], handles + [e])
  {
    assert e !in held ==> multiset(handles)[e] == 0;
    assert multiset(handles + [e]) == multiset(handles) + multiset{e};
  }

  lemma HoldingLess(held: map<LRUHandle, nat>, handles: seq<LRUHandle>, i: nat)
    requires Holding(held, handles) && i < |handles|
    ensures handles[i] in held && held[handles[i]] > 0
    ensures Holding(held[handles[i] := held[handles[i]] - 1], handles[..i] + handles[i + 1..])
  {
    TakenOut(handles, i);
    assert handles[i] in handles && multiset(handles)[handles[i]] > 0;
  }

  lemma TakenOut(s: seq<LRUHandle>, i: nat)
    requires i < |s|
    ensures multiset(s[..i] + s[i + 1..]) == multiset(s) - multiset{s[i]}
    ensures forall h :: h in s[..i] + s[i + 1..] ==> h in s
  {
    assert s == s[..i] + ([s[i]] + s[i + 1..]);
    assert multiset(s) == multiset(s[..i]) + (multiset{s[i]} + multiset(s[i + 1..]));
  }

  lemma UnrefKeepsHeld(v: View, e: LRUHandle)
    requires e in v.held
    ensures KeepsHeld(v.held, AfterUnref(v, e).held)
  {
    hide Minus;
  }

  lemma EraseKeepsHeld(v: View, e: LRUHandle?)
    requires e != null ==> e in v.held
    ensures KeepsHeld(v.held, AfterErase(v, e).held)
  {
    hide Minus, Total;
  }

  lemma EvictKeepsHeld(v: View, k: nat)
    requires SoundBut(v, null) && k <= |v.lruList|
    ensures KeepsHeld(v.held, AfterEvict(v, k).held)
  {
    hide LiveOrDeleted, Total;
    forall h | h in v.held && v.held[h] > 0
      ensures h in AfterEvict(v, k).held
    {
      EvictKeeps(v, k, h);
    }
  }

  lemma SoundParts(v: View)
    requires Sound(v)
    ensures SoundBut(v, null)
  {
  }

  /** An insertion gives the client one more hold, on the new entry. */
  lemma InsertHolds(v: View, capacity: nat, e: LRUHandle, replaced: LRUHandle?, handles: seq<LRUHandle>)
    requires Sound(v) && Allowed(v, Insert(capacity, e, replaced)) && Holding(v.held, handles)
    ensures var w := Apply(v, Insert(capacity, e, replaced));
            Holding(w.held, handles + [e]) && forall h :: h in w.held ==> h in v.held || h == e
  {
    hide Placed, LiveOrDeleted, Total, AfterErase, UniqueKeys, AfterEvict, EvictCount, Holding, Sound, SoundBut;
    SoundParts(v);
    ApplyAdmit(v, capacity, e, replaced);
    NotMade(v, e, null);
    var new1, new2 := AfterNew(v, e), AfterAdmit(v, capacity, e, replaced);
    NotHeld(v, e);
    HoldingMore(v.held, handles, e);
    if capacity > 0 {
      EntryHeld(v, e.key, e.hash, replaced);
      EraseKeepsHeld(AfterEnter(new1, e), replaced);
      HoldingKept(new1.held, new2.held, handles + [e]);
    }
    SoundParts(new2);
    EvictKeepsHeld(new2, EvictCount(new2.lruList, new2.usage, capacity));
    HoldingKept(new2.held, Apply(v, Insert(capacity, e, replaced)).held, handles + [e]);
  }

  lemma NotHeld(v: View, e: LRUHandle)
    requires SoundBut(v, null) && e !in v.made
    ensures e !in v.held
  {
  }

  // --------------------------------------------------------------- the driver

  /** The call has had the effect that the runs are made of. */
  ghost predicate Served(v: View, call: Option<Call>, w: View) {
    && Sound(v)
    && (if call.Some? then Allowed(v, call.value) && w == Apply(v, call.value) else w == v)
  }

  method Serve(c: LRUCache, request: Request, handles: seq<LRUHandle>) returns (handles': seq<LRUHandle>, ghost call: Option<Call>)
    requires c.Valid() && Holding(c.held, handles)
    modifies c, c.lru, c.inUse, c.held.Keys, c.table, c.table.list
    ensures c.Valid() && Holding(c.held, handles')
    ensures Answers(request, old(c.capacity), call) && Served(old(c.Now()), call, c.Now())
    ensures request.GiveBack? ==> call == if request.i < |handles| then Some(Release(handles[request.i])) else None
    ensures c.table.list == old(c.table.list) || fresh(c.table.list)
    ensures forall h :: h in c.held ==> h in old(c.held) || fresh(h)
    ensures c.capacity == if request.Resize? then request.capacity else old(c.capacity)
  {
    hide LRUCache.Inv, AfterErase, AfterEvict, AfterUnref, Sound, SoundBut, Holding, Minus, EvictCount, Total;
    ValidIsSound(c);
    handles', call := handles, None;
    ghost var v := c.Now();
    match request
    case Find(key, hash) =>
      var e := c.Lookup(key, hash);
      call := Some(Lookup(key, hash, e));
      if e != null {
        HoldingMore(v.held, handles, e);
        handles' := handles + [e];
      }
    case GiveBack(i) =>
      if i < |handles| {
        HoldingLess(v.held, handles, i);
        call := Some(Release(handles[i]));
        c.Release(handles[i]);
        ghost var w := v.(held := v.held[handles[i] := v.held[handles[i]] - 1]);
        UnrefKeepsHeld(w, handles[i]);
        HoldingKept(w.held, c.held, handles[..i] + handles[i + 1..]);
        handles' := handles[..i] + handles[i + 1..];
      }
    case Forget(key, hash) =>
      ghost var e := c.Erase(key, hash);
      call := Some(Erase(key, hash, e));
      EraseKeepsHeld(v, e);
      HoldingKept(v.held, c.held, handles);
    case Clear =>
      SoundParts(v);
      c.Prune();
      call := Some(Prune);
      EvictKeepsHeld(v, |v.lruList|);
      HoldingKept(v.held, c.held, handles);
    case Store(key, hash, value, charge) =>
      ghost var replaced;
      var e: LRUHandle;
      e, replaced := c.Insert(key, hash, value, charge);
      call := Some(Insert(c.capacity, e, replaced));
      InsertHolds(v, c.capacity, e, replaced, handles);
      handles' := handles + [e];
    case Resize(capacity) =>
      c.SetCapacity(capacity);
  }

  function Made(calls: seq<Option<Call>>): seq<Call> {
    if calls == [] then [] else Made(calls[..|calls| - 1]) + AsCalls(calls[|calls| - 1])
  }

  /** The capacity in force after some requests. */
  function CapacityAfter(capacity: nat, requests: seq<Request>): nat {
    if requests == [] then capacity else
      var last := requests[|requests| - 1];
      if last.Resize? then last.capacity else CapacityAfter(capacity, requests[..|requests| - 1])
  }

  lemma {:induction false} RunAppend(v: View, calls: seq<Call>, call: Call)
    requires Run(v, calls).Some?
    requires var w := Run(v, calls).value; SoundBut(w, null) && Allowed(w, call)
    ensures Run(v, calls + [call]) == Some(Apply(Run(v, calls).value, call))
    decreases |calls|
  {
    hide Apply, SoundBut, Allowed;
    if calls == [] {
      assert calls + [call] == [call] && [call][1..] == [];
    } else {
      assert (calls + [call])[1..] == calls[1..] + [call];
      RunAppend(Apply(v, calls[0]), calls[1..], call);
    }
  }

  lemma RunServed(v: View, calls: seq<Option<Call>>, call: Option<Call>, w: View)
    requires Run(v, Made(calls)).Some? && Served(Run(v, Made(calls)).value, call, w)
    ensures Run(v, Made(calls + [call])) == Some(w)
  {
    hide Apply, SoundBut, Allowed, Run;
    assert (calls + [call])[..|calls|] == calls;
    SoundParts(Run(v, Made(calls)).value);
    if call.Some? {
      RunAppend(v, Made(calls), call.value);
    } else {
      assert Made(calls) + [] == Made(calls);
    }
  }

  /** Whatever a client asks of a new cache, the cache ends in the state to which the run of the calls
      leads that the requests amount to. */
  method Drive(capacity: nat, requests: seq<Request>)
    returns (c: LRUCache, handles: seq<LRUHandle>, ghost calls: seq<Option<Call>>)
    ensures c.Valid() && Holding(c.held, handles)
    ensures Run(View({}, 0, map[], [], [], [], {}), Made(calls)) == Some(c.Now())
    ensures |calls| == |requests| && c.capacity == CapacityAfter(capacity, requests)
    ensures forall i :: 0 <= i < |requests| ==> Answers(requests[i], CapacityAfter(capacity, requests[..i]), calls[i])
  {
    hide LRUCache.Valid, Holding, Run, Answers, Served;
    ghost var empty := View({}, 0, map[], [], [], [], {});
    c := new LRUCache();
    c.SetCapacity(capacity);
    handles, calls := [], [];
    NothingHeld();
    assert Run(empty, []) == Some(empty) by {
      EmptyRun(empty);
    }
    for i := 0 to |requests|
      invariant fresh(c) && fresh(c.lru) && fresh(c.inUse) && fresh(c.table) && fresh(c.table.list)
      invariant c.Valid() && Holding(c.held, handles) && forall h :: h in c.held ==> fresh(h)
      invariant Run(empty, Made(calls)) == Some(c.Now())
      invariant |calls| == i && c.capacity == CapacityAfter(capacity, requests[..i])
      invariant forall j :: 0 <= j < i ==> Answers(requests[j], CapacityAfter(capacity, requests[..j]), calls[j])
    {
      ghost var call;
      handles, call := Serve(c, requests[i], handles);
      RunServed(empty, calls, call, c.Now());
      assert requests[..i + 1][..i] == requests[..i];
      calls := calls + [call];
    }
    assert requests[..|requests|] == requests;
  }

  lemma NothingHeld()
    ensures Holding(map[], [])
  {
  }

  lemma EmptyRun(v: View)
    ensures Run(v, []) == Some(v)
  {
  }
}
