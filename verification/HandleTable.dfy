/** The cache's chained hash table. Entries are linked through their nextHash fields. */
module HandleTables {
  import opened Coding

  /** An entry of the cache, a node of the hash table and of one of the cache's two circular lists. */
  class LRUHandle {
    const key: Bytes
    const hash: nat
    const charge: nat
    const value: int
    var nextHash: LRUHandle?
    var next: LRUHandle?
    var prev: LRUHandle?
    var inCache: bool
    var refs: nat

    constructor (key: Bytes, hash: nat, value: int, charge: nat)
      ensures this.key == key && this.hash == hash && this.value == value && this.charge == charge
      ensures nextHash == null && next == null && prev == null && !inCache && refs == 1
    {
      this.key, this.hash, this.value, this.charge := key, hash, value, charge;
      nextHash, next, prev := null, null, null;
      inCache, refs := false, 1;
    }
  }

  predicate Matches(h: LRUHandle, key: Bytes, hash: nat) {
    h.hash == hash && h.key == key
  }

  // ------------------------------------------------------------------ buckets

  /** Bitwise and. */
  function BitAnd(a: nat, b: nat): nat {
    if a == 0 || b == 0 then 0 else (a % 2) * (b % 2) + 2 * BitAnd(a / 2, b / 2)
  }

  predicate PowerOfTwo(n: nat) {
    n == 1 || (n > 0 && n % 2 == 0 && PowerOfTwo(n / 2))
  }

  function Bucket(hash: nat, length: nat): nat
    requires length > 0
  {
    BitAnd(hash, length - 1)
  }

  /** The mask picks the low bits, so that every hash has a bucket. */
  lemma {:induction false} BucketIsRemainder(hash: nat, length: nat)
    requires PowerOfTwo(length)
    ensures Bucket(hash, length) == hash % length
  {
    if length > 1 {
      var half := length / 2;
      BucketIsRemainder(hash / 2, half);
      assert length - 1 == 2 * (half - 1) + 1;
      RemainderByHalves(hash, half);
      if hash > 0 && half > 1 {
        assert Bucket(hash, length) == hash % 2 + 2 * BitAnd(hash / 2, half - 1);
      } else if hash > 0 {
        assert BitAnd(hash / 2, 0) == 0;
      }
    }
  }

  lemma RemainderByHalves(hash: nat, half: nat)
    requires half > 0
    ensures hash % (2 * half) == hash % 2 + 2 * (hash / 2 % half)
  {
    var q, r := hash / 2 / half, hash / 2 % half;
    assert hash == (2 * half) * q + (hash % 2 + 2 * r);
    RemainderUnique(hash, 2 * half, q, hash % 2 + 2 * r);
  }

  lemma BucketInRange(hash: nat, length: nat)
    requires PowerOfTwo(length)
    ensures Bucket(hash, length) < length
  {
    BucketIsRemainder(hash, length);
  }

  // ------------------------------------------------------------------- chains

  function ItemAt(s: seq<LRUHandle>, i: nat): LRUHandle? {
    if i < |s| then s[i] else null
  }

  /** From head, the nextHash fields lead through exactly the entries of s. */
  ghost predicate Linked(head: LRUHandle?, s: seq<LRUHandle>, contents: set<LRUHandle>)
    reads contents`nextHash
    requires forall i :: 0 <= i < |s| ==> s[i] in contents
  {
    && head == ItemAt(s, 0)
    && (forall i :: 0 <= i < |s| ==> s[i].nextHash == ItemAt(s, i + 1))
  }

  ghost predicate NoDuplicates<T>(s: seq<T>) {
    forall i, j :: 0 <= i < j < |s| ==> s[i] != s[j]
  }

  /** No two entries have the same key and hash. */
  ghost predicate UniqueKeys(contents: set<LRUHandle>) {
    forall a, b :: a in contents && b in contents && Matches(a, b.key, b.hash) ==> a == b
  }

  ghost predicate Home(chains: seq<seq<LRUHandle>>, h: LRUHandle) {
    |chains| > 0 ==> Bucket(h.hash, |chains|) < |chains| && h in chains[Bucket(h.hash, |chains|)]
  }

  /** Each bucket's chain holds exactly the entries whose hash belongs there. */
  ghost predicate Distributed(chains: seq<seq<LRUHandle>>, contents: set<LRUHandle>) {
    && (forall b, i :: 0 <= b < |chains| && 0 <= i < |chains[b]| ==>
          chains[b][i] in contents && Bucket(chains[b][i].hash, |chains|) == b)
    && (forall h {:trigger Home(chains, h)} :: h in contents ==> Home(chains, h))
    && (forall b :: 0 <= b < |chains| ==> NoDuplicates(chains[b]))
  }

  ghost predicate Inside(chains: seq<seq<LRUHandle>>, contents: set<LRUHandle>) {
    forall b, i :: 0 <= b < |chains| && 0 <= i < |chains[b]| ==> chains[b][i] in contents
  }

  ghost predicate Wired(list: array<LRUHandle?>, chains: seq<seq<LRUHandle>>, contents: set<LRUHandle>)
    reads list, contents`nextHash
    requires list.Length == |chains| && Inside(chains, contents)
  {
    forall b :: 0 <= b < |chains| ==> Linked(list[b], chains[b], contents)
  }

  /** A list of buckets that holds exactly the given entries. */
  ghost predicate Buckets(list: array<LRUHandle?>, chains: seq<seq<LRUHandle>>, contents: set<LRUHandle>)
    reads list, contents`nextHash
  {
    list.Length == |chains| && Inside(chains, contents) && Distributed(chains, contents) && Wired(list, chains, contents)
  }

  /** r is the entry under a key, or null if there is none. */
  ghost predicate IsEntry(contents: set<LRUHandle>, key: Bytes, hash: nat, r: LRUHandle?) {
    if r != null then r in contents && Matches(r, key, hash)
    else forall h :: h in contents ==> !Matches(h, key, hash)
  }

  class HandleTable {
    var length: nat
    var elems: nat
    var list: array<LRUHandle?>
    ghost var chains: seq<seq<LRUHandle>>
    ghost var contents: set<LRUHandle>

    ghost predicate Valid()
      reads this, list, contents`nextHash
    {
      && PowerOfTwo(length) && length == list.Length == |chains|
      && elems == |contents|
      && UniqueKeys(contents)
      && Distributed(chains, contents)
      && Inside(chains, contents)
      && Wired(list, chains, contents)
    }

    /** The slot that points, or would point, to the entry with this key: the i-th link of its
        bucket's chain. The link is the bucket itself for i == 0 and the field of pred otherwise. */
    method FindPointer(key: Bytes, hash: nat) returns (b: nat, pred: LRUHandle?, cur: LRUHandle?, ghost i: nat)
      requires Valid()
      ensures b == Bucket(hash, length) < length && i <= |chains[b]|
      ensures cur == ItemAt(chains[b], i) && IsEntry(contents, key, hash, cur)
      ensures pred == (if i == 0 then null else chains[b][i - 1])
    {
      hide Valid, Bucket, ItemAt;
      BucketChain(hash);
      b := Bucket(hash, length);
      pred, cur, i := null, list[b], 0;
      ghost var s := chains[b];
      ItemInRange(s, 0);
      while cur != null && (cur.hash != hash || key != cur.key)
        invariant 0 <= i <= |s| && cur == ItemAt(s, i) && (cur != null <==> i < |s|) && (i < |s| ==> cur == s[i])
        invariant pred == (if i == 0 then null else s[i - 1])
        invariant forall j :: 0 <= j < i ==> !Matches(s[j], key, hash)
        decreases |s| - i
      {
        ItemInRange(s, i + 1);
        pred, cur, i := cur, cur.nextHash, i + 1;
      }
    }

    /** A hash's bucket leads to every entry with that hash. */
    lemma BucketChain(hash: nat)
      requires Valid()
      ensures var b := Bucket(hash, length);
              && b < length == list.Length == |chains|
              && (forall i :: 0 <= i < |chains[b]| ==> chains[b][i] in contents)
              && Linked(list[b], chains[b], contents)
              && (forall h :: h in contents && h.hash == hash ==> h in chains[b])
    {
      hide Linked, Bucket;
      BucketInRange(hash, length);
      var b := Bucket(hash, length);
      forall h | h in contents && h.hash == hash
        ensures h in chains[b]
      {
        assert Home(chains, h);
      }
    }

    method Lookup(key: Bytes, hash: nat) returns (r: LRUHandle?)
      requires Valid()
      ensures IsEntry(contents, key, hash, r)
    {
      var b, pred, cur, i := FindPointer(key, hash);
      r := cur;
    }

    /** Stores through a slot found by FindPointer. */
    method StorePointer(b: nat, pred: LRUHandle?, h: LRUHandle?)
      requires b < list.Length
      modifies if pred == null then {list} else {}, AsSet(pred)`nextHash
      ensures pred == null ==> list[b] == h && forall k :: 0 <= k < list.Length && k != b ==> list[k] == old(list[k])
      ensures pred != null ==> pred.nextHash == h
    {
      if pred == null {
        list[b] := h;
      } else {
        pred.nextHash := h;
      }
    }

    /** The two stores that put h where the slot found by FindPointer points. */
    method Rewire(b: nat, pred: LRUHandle?, cur: LRUHandle?, h: LRUHandle, ghost i: nat)
      requires Valid() && h !in contents && b < length && i <= |chains[b]|
      requires cur == ItemAt(chains[b], i) && pred == (if i == 0 then null else chains[b][i - 1])
      modifies list, contents`nextHash, h`nextHash
      ensures Inside(chains[b := Relinked(chains[b], i, h)], contents - AsSet(cur) + {h})
      ensures Wired(list, chains[b := Relinked(chains[b], i, h)], contents - AsSet(cur) + {h})
    {
      hide UniqueKeys, PowerOfTwo, Distributed, Bucket, ItemAt, Relinked;
      ghost var s := chains[b];
      InBucket(b);
      RelinkedItems(s, i, h);
      ItemInRange(s, i);
      ItemInRange(s, i + 1);
      assert i > 0 ==> s[i - 1] in contents;
      h.nextHash := if cur == null then null else cur.nextHash;
      StorePointer(b, pred, h);
    }

    /** Links h in, in place of the entry with the same key if there is one, which is returned. */
    method Link(h: LRUHandle) returns (replaced: LRUHandle?)
      requires Valid() && h !in contents
      modifies this`chains, this`contents, this`elems, list, contents`nextHash, h`nextHash
      ensures Valid()
      ensures IsEntry(old(contents), h.key, h.hash, replaced)
      ensures contents == old(contents) - AsSet(replaced) + {h}
    {
      hide Distributed, UniqueKeys, Bucket, PowerOfTwo, Wired, Relinked;
      var b, pred, cur, i := FindPointer(h.key, h.hash);
      replaced := cur;
      LinkUnique(contents, h, replaced);
      LinkDistributed(chains, contents, b, i, h);
      Rewire(b, pred, cur, h, i);
      chains := chains[b := Relinked(chains[b], i, h)];
      contents := contents - AsSet(replaced) + {h};
      if replaced == null {
        elems := elems + 1;
      }
    }

    method Remove(key: Bytes, hash: nat) returns (result: LRUHandle?)
      requires Valid()
      modifies this`chains, this`contents, this`elems, list, contents`nextHash
      ensures Valid()
      ensures IsEntry(old(contents), key, hash, result)
      ensures contents == old(contents) - AsSet(result) && elems <= old(elems)
    {
      hide Distributed, UniqueKeys, Bucket, PowerOfTwo, Wired;
      var b, pred, cur, i := FindPointer(key, hash);
      result := cur;
      if result != null {
        UnlinkDistributed(chains, contents, b, i);
        Unwire(b, pred, result, i);
        chains := chains[b := Without(chains[b], i)];
        contents := contents - {result};
        elems := elems - 1;
      }
    }

    /** The store that takes the entry found by FindPointer out of its chain. */
    method Unwire(b: nat, pred: LRUHandle?, cur: LRUHandle, ghost i: nat)
      requires Valid() && b < length && i < |chains[b]|
      requires cur == chains[b][i] && pred == (if i == 0 then null else chains[b][i - 1])
      modifies list, contents`nextHash
      ensures Inside(chains[b := Without(chains[b], i)], contents - {cur})
      ensures Wired(list, chains[b := Without(chains[b], i)], contents - {cur})
    {
      hide UniqueKeys, PowerOfTwo, Distributed;
      hide ItemAt, Without;
      ghost var s := chains[b];
      InBucket(b);
      StorePointer(b, pred, cur.nextHash);
      forall j | 0 <= j <= |s| - 1
        ensures (if j == 0 then list[b] else Without(s, i)[j - 1].nextHash) == ItemAt(Without(s, i), j)
      {
        ItemWithout(s, i, j);
      }
    }

    /** Moves one entry to the front of its chain in the new list. */
    method MoveEntry(h: LRUHandle, newList: array<LRUHandle?>, ghost nc: seq<seq<LRUHandle>>, ghost moved: set<LRUHandle>)
      returns (ghost nc': seq<seq<LRUHandle>>)
      requires PowerOfTwo(newList.Length) && h !in moved && Buckets(newList, nc, moved)
      modifies newList, h`nextHash
      ensures Buckets(newList, nc', moved + {h})
    {
      hide Distributed, Bucket, PowerOfTwo;
      BucketInRange(h.hash, |nc|);
      var b := Bucket(h.hash, newList.Length);
      PrependDistributed(nc, moved, h);
      nc' := nc[b := [h] + nc[b]];
      h.nextHash := newList[b];
      newList[b] := h;
    }

    /** Moves a bucket's whole chain. */
    method MoveChain(head: LRUHandle?, newList: array<LRUHandle?>, count: nat, ghost s: seq<LRUHandle>,
                     ghost nc: seq<seq<LRUHandle>>, ghost moved: set<LRUHandle>)
      returns (count': nat, ghost nc': seq<seq<LRUHandle>>)
      requires PowerOfTwo(newList.Length) && Buckets(newList, nc, moved)
      requires Linked(head, s, Elements(s)) && NoDuplicates(s) && moved !! Elements(s) && count == |moved|
      modifies newList, Elements(s)`nextHash
      ensures count' == |moved + Elements(s)| && Buckets(newList, nc', moved + Elements(s))
    {
      hide Bucket, PowerOfTwo, Buckets, ItemAt, Elements;
      var h := head;
      count', nc' := count, nc;
      ghost var j := 0;
      ghost var done := moved;
      while h != null
        invariant 0 <= j <= |s| && h == ItemAt(s, j) && count' == |done|
        invariant moved <= done <= moved + Elements(s) && forall k :: 0 <= k < |s| ==> (s[k] in done <==> k < j)
        invariant forall k :: j <= k < |s| ==> s[k].nextHash == ItemAt(s, k + 1)
        invariant Buckets(newList, nc', done)
        decreases |s| - j
      {
        ItemInRange(s, j);
        var next := h.nextHash;
        nc' := MoveEntry(h, newList, nc', done);
        done := done + {h};
        h := next;
        count' := count' + 1;
        j := j + 1;
      }
      ItemInRange(s, j);
      AllElements(s, done);
      assert done == moved + Elements(s);
    }

    /** The table but for its length: the constructor starts with no buckets at all. */
    ghost predicate Shaped()
      reads this, list, contents`nextHash
    {
      && length == list.Length == |chains|
      && elems == |contents|
      && UniqueKeys(contents)
      && Distributed(chains, contents)
      && Inside(chains, contents)
      && Wired(list, chains, contents)
      && (if length == 0 then contents == {} else PowerOfTwo(length))
    }

    constructor ()
      ensures Valid() && contents == {} && fresh(list) && elems <= length
    {
      length, elems := 0, 0;
      list := new LRUHandle?[0];
      chains, contents := [], {};
      new;
      Resize();
    }

    /** The smallest power of two from 4 on that is enough for one entry per bucket. */
    method NewLength() returns (newLength: nat)
      ensures PowerOfTwo(newLength) && elems <= newLength
      ensures newLength == 4 || newLength / 2 < elems
    {
      newLength := 4;
      while newLength < elems
        invariant PowerOfTwo(newLength) && newLength >= 4
        invariant newLength == 4 || newLength / 2 < elems
        decreases elems - newLength
      {
        assert newLength * 2 / 2 == newLength;
        newLength := newLength * 2;
      }
    }

    /** Moves every entry to a new, empty list of buckets. */
    method MoveAll(newList: array<LRUHandle?>) returns (ghost nc: seq<seq<LRUHandle>>)
      requires Shaped() && PowerOfTwo(newList.Length) && newList != list
      requires forall b :: 0 <= b < newList.Length ==> newList[b] == null
      modifies newList, contents`nextHash
      ensures Buckets(newList, nc, contents)
    {
      hide Bucket, PowerOfTwo, UniqueKeys, Buckets, Distributed, Elements;
      nc := seq(newList.Length, k => []);
      ghost var moved: set<LRUHandle> := {};
      EmptyBuckets(newList, nc);
      var count := 0;
      for i := 0 to length
        invariant Buckets(newList, nc, moved) && moved <= contents && count == |moved|
        invariant forall b :: i <= b < length ==> Linked(list[b], chains[b], contents)
        invariant forall b, k :: 0 <= b < length && 0 <= k < |chains[b]| ==> (chains[b][k] in moved <==> b < i)
      {
        InBucket(i);
        MovedBucket(i, moved);
        count, nc := MoveChain(list[i], newList, count, chains[i], nc, moved);
        moved := moved + Elements(chains[i]);
      }
      AllMoved(moved);
      assert elems == count;
    }

    /** Moves every entry to a new list of buckets: the same contents, with no more entries than
        buckets. */
    method Resize()
      requires Shaped()
      modifies this`length, this`list, this`chains, contents`nextHash
      ensures Valid() && fresh(list) && elems <= length
    {
      hide Distributed, Bucket, PowerOfTwo, UniqueKeys;
      var newLength := NewLength();
      var newList := new LRUHandle?[newLength](k => null);
      ghost var nc := MoveAll(newList);
      list := newList;
      chains := nc;
      length := newLength;
    }

    lemma MovedBucket(i: nat, moved: set<LRUHandle>)
      requires Distributed(chains, contents) && Inside(chains, contents) && i < |chains| == list.Length
      requires Linked(list[i], chains[i], contents)
      requires forall k :: 0 <= k < |chains[i]| ==> chains[i][k] !in moved
      ensures Linked(list[i], chains[i], Elements(chains[i])) && moved !! Elements(chains[i]) && Elements(chains[i]) <= contents
      ensures forall b, k :: 0 <= b < |chains| && b != i && 0 <= k < |chains[b]| ==> chains[b][k] !in Elements(chains[i])
    {
      InBucket(i);
      hide Distributed;
    }

    lemma AllMoved(moved: set<LRUHandle>)
      requires Distributed(chains, contents) && |chains| == length && (length == 0 ==> contents == {}) && moved <= contents
      requires forall b, k :: 0 <= b < length && 0 <= k < |chains[b]| ==> chains[b][k] in moved
      ensures moved == contents
    {
      forall h | h in contents
        ensures h in moved
      {
        assert Home(chains, h);
      }
    }

    method Insert(h: LRUHandle) returns (replaced: LRUHandle?)
      requires Valid() && h !in contents
      modifies this, list, contents`nextHash, h`nextHash
      ensures Valid()
      ensures IsEntry(old(contents), h.key, h.hash, replaced)
      ensures contents == old(contents) - AsSet(replaced) + {h}
      ensures list == old(list) || fresh(list)
      ensures old(elems <= length) ==> elems <= length
    {
      replaced := Link(h);
      if replaced == null {
        if elems > length {
          Resize();
        }
      }
    }

    lemma InBucket(b: nat)
      requires Distributed(chains, contents) && b < |chains|
      ensures NoDuplicates(chains[b]) && forall i :: 0 <= i < |chains[b]| ==> chains[b][i] in contents
      ensures forall c, i, j :: 0 <= c < |chains| && c != b && 0 <= i < |chains[b]| && 0 <= j < |chains[c]| ==>
        chains[b][i] != chains[c][j]
    {
    }
  }

  ghost function AsSet(h: LRUHandle?): set<LRUHandle> {
    if h == null then {} else {h}
  }

  /** s without its i-th entry. */
  ghost function Without<T>(s: seq<T>, i: nat): (r: seq<T>)
    requires i < |s|
    ensures |r| == |s| - 1
    ensures forall j :: 0 <= j < i ==> r[j] == s[j]
    ensures forall j :: i <= j < |r| ==> r[j] == s[j + 1]
  {
    s[..i] + s[i + 1..]
  }

  lemma ItemWithout(s: seq<LRUHandle>, i: nat, j: nat)
    requires i < |s|
    ensures ItemAt(Without(s, i), j) == ItemAt(s, if j < i then j else j + 1)
  {
  }

  /** h in place of the i-th entry, or at the end. */
  ghost function Relinked(s: seq<LRUHandle>, i: nat, h: LRUHandle): seq<LRUHandle> {
    if i < |s| then s[i := h] else s + [h]
  }

  lemma RelinkedItems(s: seq<LRUHandle>, i: nat, h: LRUHandle)
    requires i <= |s|
    ensures |Relinked(s, i, h)| == (if i < |s| then |s| else |s| + 1)
    ensures forall j :: 0 <= j < |Relinked(s, i, h)| ==> Relinked(s, i, h)[j] == (if j == i then h else s[j])
    ensures forall j: nat :: ItemAt(Relinked(s, i, h), j) == (if j == i then h else ItemAt(s, j))
  {
  }

  lemma LinkUnique(contents: set<LRUHandle>, h: LRUHandle, replaced: LRUHandle?)
    requires UniqueKeys(contents)
    requires IsEntry(contents, h.key, h.hash, replaced)
    ensures UniqueKeys(contents - AsSet(replaced) + {h})
  {
  }

  lemma LinkDistributed(chains: seq<seq<LRUHandle>>, contents: set<LRUHandle>, b: nat, i: nat, h: LRUHandle)
    requires Distributed(chains, contents) && h !in contents
    requires b < |chains| && b == Bucket(h.hash, |chains|) && i <= |chains[b]|
    ensures Distributed(chains[b := Relinked(chains[b], i, h)], contents - AsSet(ItemAt(chains[b], i)) + {h})
  {
    hide Bucket;
    var s := chains[b];
    var chains', contents' := chains[b := Relinked(s, i, h)], contents - AsSet(ItemAt(s, i)) + {h};
    forall g | g in contents'
      ensures Home(chains', g)
    {
      assert g != h ==> Home(chains, g);
      var c := Bucket(g.hash, |chains|);
      if g == h {
        assert Relinked(s, i, h)[i] == h;
      } else if c == b {
        assert g in s;
        var j :| 0 <= j < |s| && s[j] == g;
        assert Relinked(s, i, h)[j] == g;
      }
    }
  }

  lemma UnlinkDistributed(chains: seq<seq<LRUHandle>>, contents: set<LRUHandle>, b: nat, i: nat)
    requires Distributed(chains, contents) && b < |chains| && i < |chains[b]|
    ensures Distributed(chains[b := Without(chains[b], i)], contents - {chains[b][i]})
    ensures UniqueKeys(contents) ==> UniqueKeys(contents - {chains[b][i]})
  {
    hide Bucket;
    var s := chains[b];
    var s', contents' := Without(s, i), contents - {s[i]};
    var chains' := chains[b := s'];
    forall g | g in contents'
      ensures Home(chains', g)
    {
      assert Home(chains, g);
      var c := Bucket(g.hash, |chains|);
      if c == b {
        var j :| 0 <= j < |s| && s[j] == g;
        assert s'[if j < i then j else j - 1] == g;
      }
    }
  }

  lemma ItemInRange(s: seq<LRUHandle>, j: nat)
    ensures ItemAt(s, j) == null <==> j >= |s|
    ensures j < |s| ==> ItemAt(s, j) == s[j]
  {
  }

  lemma AllElements(s: seq<LRUHandle>, all: set<LRUHandle>)
    ensures (forall k :: 0 <= k < |s| ==> s[k] in all) ==> Elements(s) <= all
  {
  }

  ghost function Elements(s: seq<LRUHandle>): (r: set<LRUHandle>)
    ensures forall i :: 0 <= i < |s| ==> s[i] in r
  {
    set h | h in s
  }

  lemma PrependDistributed(chains: seq<seq<LRUHandle>>, contents: set<LRUHandle>, h: LRUHandle)
    requires Distributed(chains, contents) && h !in contents && |chains| > 0 && Bucket(h.hash, |chains|) < |chains|
    ensures var b := Bucket(h.hash, |chains|);
            Distributed(chains[b := [h] + chains[b]], contents + {h})
  {
    hide Bucket;
    var b := Bucket(h.hash, |chains|);
    var chains' := chains[b := [h] + chains[b]];
    forall g | g in contents + {h}
      ensures Home(chains', g)
    {
      if g == h {
        assert ([h] + chains[b])[0] == h;
      } else {
        assert Home(chains, g);
      }
    }
  }

  lemma EmptyBuckets(list: array<LRUHandle?>, chains: seq<seq<LRUHandle>>)
    requires list.Length == |chains| && forall b :: 0 <= b < |chains| ==> list[b] == null && chains[b] == []
    ensures Buckets(list, chains, {})
  {
  }
}
