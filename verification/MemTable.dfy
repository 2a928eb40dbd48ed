/** The memtable: versioned lookup by one ordered seek over encoded entries. */
module MemTables {
  import opened Coding
  import opened DbFormat
  import opened LevelLists
  import opened Options
  import opened SkipListHeap

  // ----------------------------------------------------------------- entries

  /** s starts with a length-prefixed internal key, as the entries and the lookup keys do. */
  predicate StartsWithKey(s: Bytes) {
    match Get(KSlice, s)
    case Some((Slice(data), _)) => |data| >= 8
    case _ => false
  }

  function ZeroKey(): (s: Bytes)
    ensures StartsWithKey(s)
  {
    var item := Slice([0, 0, 0, 0, 0, 0, 0, 0]);
    GetPut(item, []);
    assert item.Put() + [] == item.Put();
    item.Put()
  }

  type Encoded = s: Bytes | StartsWithKey(s) witness ZeroKey()

  function KeyPart(s: Encoded): InternalKey {
    Get(KSlice, s).value.0.data
  }

  function AfterKey(s: Encoded): Bytes {
    Get(KSlice, s).value.1
  }

  function EncodedOrder(userCompare: (Bytes, Bytes) -> int): (Encoded, Encoded) -> int {
    (a: Encoded, b: Encoded) => InternalCompare(userCompare, KeyPart(a), KeyPart(b))
  }

  lemma EncodedIsOrder(userCompare: (Bytes, Bytes) -> int)
    requires IsOrder(userCompare)
    ensures IsOrder(EncodedOrder(userCompare))
  {
    hide InternalCompare, KeyPart;
    InternalIsOrder(userCompare);
    hide IsOrder;
    LiftOrder(userCompare);
  }

  lemma LiftOrder(userCompare: (Bytes, Bytes) -> int)
    requires IsOrder(InternalOrder(userCompare))
    ensures IsOrder(EncodedOrder(userCompare))
  {
    hide InternalCompare, KeyPart;
    var cmp, lifted := InternalOrder(userCompare), EncodedOrder(userCompare);
    forall a: Encoded, b: Encoded
      ensures lifted(a, b) < 0 <==> lifted(b, a) > 0
    {
      assert cmp(KeyPart(a), KeyPart(b)) < 0 <==> cmp(KeyPart(b), KeyPart(a)) > 0;
    }
    forall a: Encoded, b: Encoded, c: Encoded | lifted(a, b) <= 0 && lifted(b, c) <= 0
      ensures lifted(a, c) <= 0
    {
      assert cmp(KeyPart(a), KeyPart(b)) <= 0 && cmp(KeyPart(b), KeyPart(c)) <= 0;
    }
  }

  /** One call of Add. */
  datatype Addition = Addition(userKey: Bytes, tag: nat, value: Bytes) {
    predicate Fits() {
      |userKey| + 8 < LIMIT_32 && |value| < LIMIT_32 && tag < LIMIT_64 && TypeByte(tag) <= 1
    }

    function Key(): InternalKey {
      userKey + Fixed64(tag)
    }

    function Entry(): Bytes {
      Slice(Key()).Put() + Slice(value).Put()
    }
  }

  /** An entry gives back its key and its value. */
  lemma EntryParts(a: Addition)
    requires a.Fits()
    ensures StartsWithKey(a.Entry()) && KeyPart(a.Entry()) == a.Key()
    ensures Get(KSlice, AfterKey(a.Entry())) == Some((Slice(a.value), []))
  {
    hide Get;
    GetPut(Slice(a.Key()), Slice(a.value).Put());
    GetPut(Slice(a.value), []);
    assert Slice(a.value).Put() + [] == Slice(a.value).Put();
  }

  lemma SeekParts(userKey: Bytes, sequence: nat)
    requires |userKey| + 8 < LIMIT_32
    ensures var s := Slice(SeekKey(userKey, sequence)).Put(); StartsWithKey(s) && KeyPart(s) == SeekKey(userKey, sequence)
  {
    hide Get, SeekKey;
    var item := Slice(SeekKey(userKey, sequence));
    GetPut(item, []);
    assert item.Put() + [] == item.Put();
  }

  // ------------------------------------------------------------------ lookup

  /** a is an entry for this user key that a reader at this sequence number may see. */
  predicate Visible(userCompare: (Bytes, Bytes) -> int, a: Addition, userKey: Bytes, sequence: nat) {
    userCompare(a.userKey, userKey) == 0 && a.tag <= Pack(sequence, TYPE_FOR_SEEK)
  }

  /** a is what a reader at this sequence number finds: the newest of the entries it may see. */
  ghost predicate Newest(userCompare: (Bytes, Bytes) -> int, added: seq<Addition>, a: Addition, userKey: Bytes, sequence: nat) {
    && a in added && Visible(userCompare, a, userKey, sequence)
    && forall b :: b in added && Visible(userCompare, b, userKey, sequence) ==> b.tag <= a.tag
  }

  ghost predicate NoneVisible(userCompare: (Bytes, Bytes) -> int, added: seq<Addition>, userKey: Bytes, sequence: nat) {
    forall a :: a in added ==> !Visible(userCompare, a, userKey, sequence)
  }

  /** In terms of sequence numbers: an entry is visible if its number is no larger, and newer entries
      have a larger one, or the same one and the larger type. */
  lemma VisibleByNumber(userCompare: (Bytes, Bytes) -> int, userKey: Bytes, sequence: nat, key: Bytes, value: Bytes, s: nat, t: ValueType)
    requires s <= MAX_SEQUENCE && sequence <= MAX_SEQUENCE
    ensures Visible(userCompare, Addition(key, Pack(s, t), value), userKey, sequence)
      <==> userCompare(key, userKey) == 0 && s <= sequence
  {
    PackOrder(s, t, sequence, TYPE_FOR_SEEK);
  }

  /** The list holds exactly the entries that were added. */
  ghost predicate Holds(keys: seq<Encoded>, added: seq<Addition>) {
    && (forall a :: a in added ==> a.Fits() && a.Entry() in keys)
    && (forall k :: k in keys ==> exists a :: a in added && k == a.Entry())
  }

  lemma CompareAdditions(userCompare: (Bytes, Bytes) -> int, a: Addition, b: Addition)
    requires a.Fits() && b.Fits()
    ensures StartsWithKey(a.Entry()) && StartsWithKey(b.Entry())
    ensures EncodedOrder(userCompare)(a.Entry(), b.Entry()) == CompareParts(userCompare, a.userKey, a.tag, b.userKey, b.tag)
  {
    hide Fixed64, CompareParts, ExtractUserKey, TagOf, KeyPart, StartsWithKey, Addition.Entry, Addition.Fits, Pack;
    EntryParts(a);
    EntryParts(b);
    assert a.tag < LIMIT_64 && b.tag < LIMIT_64 by {
      FitsTag(a);
      FitsTag(b);
    }
    Parts(a.userKey, a.tag);
    Parts(b.userKey, b.tag);
  }

  lemma FitsTag(a: Addition)
    requires a.Fits()
    ensures a.tag < LIMIT_64 && (a.tag % 256 == 0 || a.tag % 256 == 1)
  {
  }

  lemma CompareToSeek(userCompare: (Bytes, Bytes) -> int, a: Addition, userKey: Bytes, sequence: nat)
    requires a.Fits() && |userKey| + 8 < LIMIT_32
    ensures var target := Slice(SeekKey(userKey, sequence)).Put();
            StartsWithKey(target) && StartsWithKey(a.Entry()) &&
            EncodedOrder(userCompare)(a.Entry(), target) == CompareParts(userCompare, a.userKey, a.tag, userKey, Pack(sequence, TYPE_FOR_SEEK))
  {
    hide Fixed64, CompareParts, ExtractUserKey, TagOf, KeyPart, StartsWithKey, Addition.Entry, Addition.Fits, Pack;
    EntryParts(a);
    SeekParts(userKey, sequence);
    FitsTag(a);
    Parts(a.userKey, a.tag);
    Parts(userKey, Pack(sequence, TYPE_FOR_SEEK));
  }

  ghost function Target(userKey: Bytes, sequence: nat): Encoded
    requires |userKey| + 8 < LIMIT_32
  {
    SeekParts(userKey, sequence);
    Slice(SeekKey(userKey, sequence)).Put()
  }

  /** What the reader may see is not before the place it seeks. */
  lemma VisibleAfterSeek(userCompare: (Bytes, Bytes) -> int, keys: seq<Encoded>, added: seq<Addition>, b: Addition, userKey: Bytes, sequence: nat)
    returns (m: nat)
    requires Holds(keys, added) && |userKey| + 8 < LIMIT_32
    requires b in added && Visible(userCompare, b, userKey, sequence)
    ensures LowerBound(EncodedOrder(userCompare), keys, Target(userKey, sequence)) <= m < |keys| && keys[m] == b.Entry()
  {
    hide LowerBound, Addition.Entry, Addition.Fits;
    CompareToSeek(userCompare, b, userKey, sequence);
    m :| 0 <= m < |keys| && keys[m] == b.Entry();
  }

  /** What stands where the seek ends, a, is the newest visible entry if it has the right user key;
      otherwise nothing is visible. */
  lemma FoundBySeek(userCompare: (Bytes, Bytes) -> int, keys: seq<Encoded>, added: seq<Addition>, a: Addition, userKey: Bytes, sequence: nat)
    requires IsOrder(userCompare) && Sorted(EncodedOrder(userCompare), keys) && Holds(keys, added) && |userKey| + 8 < LIMIT_32
    requires var p := LowerBound(EncodedOrder(userCompare), keys, Target(userKey, sequence)); p < |keys| && keys[p] == a.Entry() && a in added
    ensures if userCompare(a.userKey, userKey) == 0 then Newest(userCompare, added, a, userKey, sequence)
            else NoneVisible(userCompare, added, userKey, sequence)
  {
    hide LowerBound, Addition.Entry, Addition.Fits, IsOrder, Sorted, Holds, Visible;
    var p := LowerBound(EncodedOrder(userCompare), keys, Target(userKey, sequence));
    AddedFits(keys, added, a);
    CompareToSeek(userCompare, a, userKey, sequence);
    AtSeek(userCompare, a, userKey, sequence);
    forall b | b in added && Visible(userCompare, b, userKey, sequence)
      ensures userCompare(a.userKey, userKey) == 0 && b.tag <= a.tag
    {
      var m := VisibleAfterSeek(userCompare, keys, added, b, userKey, sequence);
      AddedFits(keys, added, b);
      CompareAdditions(userCompare, a, b);
      SortedNotAfter(userCompare, keys, p, m);
      EarlierIsNewer(userCompare, a, b, userKey, sequence);
    }
  }

  lemma AddedFits(keys: seq<Encoded>, added: seq<Addition>, a: Addition)
    requires Holds(keys, added) && a in added
    ensures a.Fits()
  {
  }

  lemma SortedNotAfter(userCompare: (Bytes, Bytes) -> int, keys: seq<Encoded>, p: nat, m: nat)
    requires IsOrder(userCompare) && Sorted(EncodedOrder(userCompare), keys) && p <= m < |keys|
    ensures EncodedOrder(userCompare)(keys[p], keys[m]) <= 0
  {
    if p == m {
      EncodedIsOrder(userCompare);
      OrderReflexive(EncodedOrder(userCompare), keys[p]);
    }
  }

  lemma OrderReflexive<K(!new)>(cmp: (K, K) -> int, k: K)
    requires IsOrder(cmp)
    ensures cmp(k, k) == 0
  {
  }

  lemma AtSeek(userCompare: (Bytes, Bytes) -> int, a: Addition, userKey: Bytes, sequence: nat)
    requires CompareParts(userCompare, a.userKey, a.tag, userKey, Pack(sequence, TYPE_FOR_SEEK)) >= 0
    ensures userCompare(a.userKey, userKey) == 0 ==> Visible(userCompare, a, userKey, sequence)
    ensures userCompare(a.userKey, userKey) >= 0
  {
  }

  lemma EarlierIsNewer(userCompare: (Bytes, Bytes) -> int, a: Addition, b: Addition, userKey: Bytes, sequence: nat)
    requires IsOrder(userCompare) && Visible(userCompare, b, userKey, sequence) && userCompare(a.userKey, userKey) >= 0
    requires CompareParts(userCompare, a.userKey, a.tag, b.userKey, b.tag) <= 0
    ensures userCompare(a.userKey, userKey) == 0 && b.tag <= a.tag
  {
    assert userCompare(a.userKey, b.userKey) <= 0 && userCompare(b.userKey, userKey) == 0;
    assert userCompare(a.userKey, userKey) <= 0;
    assert userCompare(userKey, b.userKey) == 0 && userCompare(userKey, a.userKey) == 0;
    assert userCompare(b.userKey, a.userKey) <= 0;
  }

  // --------------------------------------------------------------- the table

  datatype Answer = Absent | Deleted | Found(value: Bytes)

  /** A new buffer with the encoded entry. */
  method EncodeEntry(a: Addition) returns (buf: array<bv8>)
    requires a.Fits()
    ensures fresh(buf) && buf[..] == a.Entry()
  {
    EntryLayout(a);
    hide Varint, Addition.Entry, Addition.Key;
    var keySize, valSize := |a.userKey| + 8, |a.value|;
    var keyLength := VarintLength(keySize);
    var valLength := VarintLength(valSize);
    buf := new bv8[keyLength + keySize + valLength + valSize];
    var p, q := EncodeKey(buf, a.userKey, a.tag);
    ghost var front := buf[..q];
    assert front == buf[..p] + buf[p..q];
    var r := EncodeVarint32(buf, q, valSize);
    assert buf[..q] == front;
    CopyBytes(buf, r, a.value);
    assert buf[..q] == front && buf[q..r] == Varint(valSize);
    assert buf[..] == buf[..q] + buf[q..r] + buf[r..];
  }

  lemma EntryLayout(a: Addition)
    ensures a.Key() == a.userKey + Fixed64(a.tag)
    ensures a.Entry() == Varint(|a.userKey| + 8) + a.Key() + Varint(|a.value|) + a.value
  {
    hide Varint, Fixed64;
    assert a.Entry() == (Varint(|a.userKey| + 8) + a.Key()) + (Varint(|a.value|) + a.value);
  }

  lemma HoldsInserted(keys: seq<Encoded>, added: seq<Addition>, p: nat, a: Addition)
    requires Holds(keys, added) && a.Fits() && StartsWithKey(a.Entry()) && p <= |keys|
    ensures Holds(Inserted<Encoded>(keys, p, a.Entry()), added + [a])
  {
    hide Addition.Entry, Addition.Fits, StartsWithKey;
    var r := Inserted<Encoded>(keys, p, a.Entry());
    forall b | b in added + [a]
      ensures b.Fits() && b.Entry() in r
    {
      if b in added {
        var m :| 0 <= m < |keys| && keys[m] == b.Entry();
        assert r[if m < p then m else m + 1] == b.Entry();
      } else {
        assert r[p] == b.Entry();
      }
    }
    forall k | k in r
      ensures exists b :: b in added + [a] && k == b.Entry()
    {
      if k == a.Entry() {
        assert a in added + [a];
      } else {
        NodesInserted<Encoded>(keys, p);
        assert k in keys;
        var b :| b in added && k == b.Entry();
        assert b in added + [a];
      }
    }
  }

  lemma NodesInserted<T>(s: seq<T>, p: nat)
    requires p <= |s|
    ensures forall n: T, x: T :: x in Inserted(s, p, n) ==> x == n || x in s
  {
  }

  /** Reads an entry's key, and finds where its value starts. */
  method ReadKey(entry: Encoded, ghost a: Addition) returns (userKey: Bytes, tag: nat, rest: Bytes)
    requires a.Fits() && entry == a.Entry()
    ensures userKey == a.userKey && tag == a.tag && Get(KSlice, rest) == Some((Slice(a.value), []))
  {
    hide Fixed64, Varint, DecodeFixed, Addition.Entry;
    EntryParts(a);
    FitsTag(a);
    Parts(a.userKey, a.tag);
    var length := GetVarint32Ptr(entry);
    var keyLength, keyPtr := length.value.0, length.value.1;
    ghost var k := entry[keyPtr..keyPtr + keyLength];
    assert k == a.Key();
    userKey := entry[keyPtr..keyPtr + keyLength - 8];
    tag := DecodeFixed64(entry[keyPtr + keyLength - 8..]);
    rest := entry[keyPtr + keyLength..];
    assert entry[keyPtr + keyLength - 8..][..8] == k[|k| - 8..] == k[|k| - 8..][..8];
  }

  class MemTable {
    const userCompare: (Bytes, Bytes) -> int
    const table: SkipList<Encoded>
    ghost var added: seq<Addition>

    ghost predicate Valid()
      reads this, table, table.head, table.nodes
    {
      && IsOrder(userCompare) && table.Valid() && table.cmp == EncodedOrder(userCompare)
      && Holds(table.Keys(), added)
    }

    constructor (userCompare: (Bytes, Bytes) -> int)
      requires IsOrder(userCompare)
      ensures Valid() && added == [] && this.userCompare == userCompare && fresh(table) && fresh(table.head) && table.nodes == []
    {
      EncodedIsOrder(userCompare);
      this.userCompare := userCompare;
      table := new SkipList(EncodedOrder(userCompare), ZeroKey());
      added := [];
    }

    /** Adds an entry; the table must not have one for this user key with this number and type. */
    method Add(s: nat, t: ValueType, key: Bytes, value: Bytes)
      requires Valid() && s < LIMIT_64 && |key| + 8 < LIMIT_32 && |value| < LIMIT_32
      requires forall a :: a in added ==> userCompare(a.userKey, key) != 0 || a.tag != Pack(s, t)
      modifies this, table, table.head, table.nodes
      ensures Valid() && added == old(added) + [Addition(key, Pack(s, t), value)]
      ensures forall n :: n in table.nodes && n !in old(table.nodes) ==> fresh(n)
    {
      hide IsOrder, SkipList.Valid, Addition.Entry, Fixed64, LowerBound, Inserted, Holds, KeyPart, StartsWithKey, EncodedOrder, AfterKey;
      ghost var keys, nodes := table.Keys(), table.nodes;
      var a := Addition(key, Pack(s, t), value);
      var buf := EncodeEntry(a);
      EntryParts(a);
      NotYetThere(table.Keys(), added, a);
      var entry: Encoded := buf[..];
      table.Insert(entry);
      HoldsInserted(keys, added, LowerBound(table.cmp, keys, entry), a);
      NodesInserted(nodes, LowerBound(table.cmp, keys, entry));
      added := added + [a];
    }

    lemma NotYetThere(keys: seq<Encoded>, added: seq<Addition>, b: Addition)
      requires b.Fits() && Holds(keys, added)
      requires forall a :: a in added ==> userCompare(a.userKey, b.userKey) != 0 || a.tag != b.tag
      ensures StartsWithKey(b.Entry()) && forall m :: 0 <= m < |keys| ==> EncodedOrder(userCompare)(keys[m], b.Entry()) != 0
    {
      hide Addition.Entry, Addition.Fits;
      EntryParts(b);
      forall m | 0 <= m < |keys|
        ensures EncodedOrder(userCompare)(keys[m], b.Entry()) != 0
      {
        assert keys[m] in keys;
        var a :| a in added && keys[m] == a.Entry();
        CompareAdditions(userCompare, a, b);
      }
    }

    lemma TableSorted()
      requires Valid()
      ensures Sorted(EncodedOrder(userCompare), table.Keys())
    {
      hide Sorted, IsOrder;
    }

    /** The value or deletion that the newest visible entry records, if any is visible; that entry. */
    method Get(key: LookupKey) returns (r: Answer, ghost newest: Addition)
      requires Valid() && key.Valid()
      ensures r == Absent <==> NoneVisible(userCompare, added, key.userKey, key.sequence)
      ensures r != Absent ==> Newest(userCompare, added, newest, key.userKey, key.sequence)
      ensures r.Found? ==> newest.tag % 256 == 1 && r.value == newest.value
      ensures r == Deleted ==> newest.tag % 256 == 0
    {
      hide IsOrder, SkipList.Valid, Addition.Entry, Addition.Fits, Fixed64, SeekKey, LowerBound, Coding.Get, Holds, Newest, NoneVisible;
      var memkey, internalKey, user := key.Views();
      var iter := new Iterator(table);
      SeekParts(key.userKey, key.sequence);
      var target: Encoded := memkey;
      iter.Seek(target);
      TableSorted();
      ghost var p := LowerBound(table.cmp, table.Keys(), target);
      if iter.node != null {
        var entry := iter.node.key;
        newest := HeldEntry(table.Keys(), added, p);
        FoundBySeek(userCompare, table.Keys(), added, newest, key.userKey, key.sequence);
        var userKey, tag, rest := ReadKey(entry, newest);
        FitsTag(newest);
        NewestIsVisible(userCompare, added, newest, key.userKey, key.sequence);
        if userCompare(userKey, user) == 0 {
          match TypeOf(TypeByte(tag))
          case Value =>
            var v := Coding.Get(KSlice, rest);
            return Found(v.value.0.data), newest;
          case Deletion =>
            return Deleted, newest;
        }
      } else {
        NothingAfterSeek(userCompare, table.Keys(), added, key.userKey, key.sequence);
        newest := Addition([], 0, []);
      }
      r := Absent;
    }
  }

  lemma NewestIsVisible(userCompare: (Bytes, Bytes) -> int, added: seq<Addition>, a: Addition, userKey: Bytes, sequence: nat)
    ensures Newest(userCompare, added, a, userKey, sequence) ==> !NoneVisible(userCompare, added, userKey, sequence)
  {
  }

  /** What was added last of what can be seen is what a lookup finds: the value that was put, or that
      it has been deleted. */
  method AddThenGet(m: MemTable, s: nat, t: ValueType, key: Bytes, value: Bytes, at: nat) returns (r: Answer)
    requires m.Valid() && s <= at <= MAX_SEQUENCE && |key| + 8 < LIMIT_32 && |value| < LIMIT_32
    requires forall a :: a in m.added && m.userCompare(a.userKey, key) == 0 && a.tag / 256 <= at ==> a.tag < Pack(s, t)
    modifies m, m.table, m.table.head, m.table.nodes
    ensures m.Valid()
    ensures r == if t.Value? then Found(value) else Deleted
  {
    hide Newest, NoneVisible, MemTable.Valid, Visible, Pack;
    ghost var a, before := Addition(key, Pack(s, t), value), m.added;
    AddedIsNewest(m, before, a, s, t, at);
    m.Add(s, t, key, value);
    var k := new LookupKey(key, at);
    ghost var newest;
    r, newest := m.Get(k);
    NewestUnique(m.userCompare, m.added, a, newest, key, at);
    PackParts(a.tag, s, t);
  }

  lemma AddedIsNewest(m: MemTable, before: seq<Addition>, a: Addition, s: nat, t: ValueType, at: nat)
    requires m.Valid() && before == m.added && s <= at <= MAX_SEQUENCE && a.tag == Pack(s, t)
    requires forall b :: b in before && m.userCompare(b.userKey, a.userKey) == 0 && b.tag / 256 <= at ==> b.tag < Pack(s, t)
    ensures forall b :: b in before ==> m.userCompare(b.userKey, a.userKey) != 0 || b.tag != Pack(s, t)
    ensures Newest(m.userCompare, before + [a], a, a.userKey, at)
    ensures forall b :: b in before && Visible(m.userCompare, b, a.userKey, at) ==> b.tag < a.tag
  {
    hide SkipList.Valid, Holds, IsOrder;
    OrderReflexive(m.userCompare, a.userKey);
    PackOrder(s, t, at, Value);
    PackParts(a.tag, s, t);
    PackParts(Pack(at, Value), at, Value);
  }

  lemma NewestUnique(userCompare: (Bytes, Bytes) -> int, added: seq<Addition>, a: Addition, b: Addition, userKey: Bytes, at: nat)
    requires added != [] && a == added[|added| - 1] && Newest(userCompare, added, a, userKey, at)
    requires forall c :: c in added[..|added| - 1] && Visible(userCompare, c, userKey, at) ==> c.tag < a.tag
    ensures !NoneVisible(userCompare, added, userKey, at)
    ensures Newest(userCompare, added, b, userKey, at) ==> b == a
  {
    hide Visible;
    if Newest(userCompare, added, b, userKey, at) {
      assert b in added[..|added| - 1] || b == a;
    }
  }

  lemma HeldEntry(keys: seq<Encoded>, added: seq<Addition>, p: nat) returns (a: Addition)
    requires Holds(keys, added) && p < |keys|
    ensures a in added && keys[p] == a.Entry() && a.Fits()
  {
    hide Addition.Entry, Addition.Fits;
    assert keys[p] in keys;
    a :| a in added && keys[p] == a.Entry();
  }

  lemma NothingAfterSeek(userCompare: (Bytes, Bytes) -> int, keys: seq<Encoded>, added: seq<Addition>, userKey: Bytes, sequence: nat)
    requires Holds(keys, added) && |userKey| + 8 < LIMIT_32
    requires LowerBound(EncodedOrder(userCompare), keys, Target(userKey, sequence)) == |keys|
    ensures NoneVisible(userCompare, added, userKey, sequence)
  {
    hide LowerBound, Holds, Visible;
    forall b | b in added
      ensures !Visible(userCompare, b, userKey, sequence)
    {
      if Visible(userCompare, b, userKey, sequence) {
        var m := VisibleAfterSeek(userCompare, keys, added, b, userKey, sequence);
        assert false;
      }
    }
  }

  // ------------------------------------------------------------ the iterator

  ghost function KeyParts(keys: seq<Encoded>): (s: seq<InternalKey>)
    ensures |s| == |keys| && forall i :: 0 <= i < |keys| ==> s[i] == KeyPart(keys[i])
  {
    seq(|keys|, i requires 0 <= i < |keys| => KeyPart(keys[i]))
  }

  lemma {:induction false} LowerBoundOfParts(userCompare: (Bytes, Bytes) -> int, keys: seq<Encoded>, target: Encoded)
    ensures LowerBound(EncodedOrder(userCompare), keys, target) == LowerBound(InternalOrder(userCompare), KeyParts(keys), KeyPart(target))
  {
    hide InternalCompare, KeyPart;
    if keys != [] {
      assert KeyParts(keys)[1..] == KeyParts(keys[1..]);
      LowerBoundOfParts(userCompare, keys[1..], target);
    }
  }

  class MemTableIterator {
    const mem: MemTable
    const iter: Iterator<Encoded>

    constructor (mem: MemTable)
      ensures this.mem == mem && fresh(iter) && iter.list == mem.table && iter.node == null
    {
      this.mem := mem;
      iter := new Iterator(mem.table);
    }

    /** The iterator is at the i-th entry in the order of internal keys, or past the last one. */
    ghost predicate Stands(i: nat)
      reads iter, iter.list, mem.table
    {
      iter.list == mem.table && iter.Stands(i)
    }

    /** The internal keys in the table, in order. */
    ghost function Keys(): seq<InternalKey>
      reads mem.table
    {
      KeyParts(mem.table.Keys())
    }

    lemma InOrder()
      requires mem.Valid()
      ensures Sorted(InternalOrder(mem.userCompare), Keys())
    {
      hide IsOrder, InternalCompare, KeyPart;
      mem.TableSorted();
      assert forall a, b :: 0 <= a < b < |mem.table.Keys()| ==>
        EncodedOrder(mem.userCompare)(mem.table.Keys()[a], mem.table.Keys()[b]) < 0;
    }

    method Seek(k: InternalKey)
      requires mem.Valid() && iter.list == mem.table && |k| < LIMIT_32
      modifies iter
      ensures Stands(LowerBound(InternalOrder(mem.userCompare), Keys(), k))
    {
      hide IsOrder, SkipList.Valid, LowerBound, Get;
      var item := Slice(k);
      GetPut(item, []);
      assert item.Put() + [] == item.Put();
      var target: Encoded := item.Put();
      LowerBoundOfParts(mem.userCompare, mem.table.Keys(), target);
      iter.Seek(target);
    }

    method SeekToFirst()
      requires mem.Valid() && iter.list == mem.table
      modifies iter
      ensures Stands(0)
    {
      iter.SeekToFirst();
    }

    method SeekToLast()
      requires mem.Valid() && iter.list == mem.table
      modifies iter
      ensures if Keys() == [] then iter.node == null else Stands(|Keys()| - 1)
    {
      iter.SeekToLast();
    }

    method Next(ghost i: nat)
      requires mem.Valid() && Stands(i) && iter.node != null
      modifies iter
      ensures Stands(i + 1)
    {
      iter.Next(i);
    }

    method Prev(ghost i: nat)
      requires mem.Valid() && Stands(i) && iter.node != null
      modifies iter
      ensures if i == 0 then iter.node == null else Stands(i - 1)
    {
      iter.Prev(i);
    }

    /** The internal key and the value of the entry, as they were added. */
    method Current(ghost i: nat) returns (key: InternalKey, value: Bytes, ghost a: Addition)
      requires mem.Valid() && Stands(i) && iter.node != null
      ensures i < |Keys()| && key == Keys()[i]
      ensures a in mem.added && key == a.Key() && value == a.value
    {
      hide IsOrder, SkipList.Valid, Addition.Entry, Addition.Fits, Holds, Get;
      var entry := iter.node.key;
      a := HeldEntry(mem.table.Keys(), mem.added, i);
      EntryParts(a);
      key := KeyPart(entry);
      var v := Get(KSlice, AfterKey(entry));
      value := v.value.0.data;
    }
  }
}
