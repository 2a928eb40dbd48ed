/** Internal keys: a user key followed by a fixed64 tag of a sequence number and a value type. */
module DbFormat {
  import opened Coding
  import opened Comparators
  import opened LevelLists
  import opened Options

  datatype ValueType = Deletion | Value

  const MAX_SEQUENCE: nat := 0xff_ffff_ffff_ffff
  const TYPE_FOR_SEEK := Value

  function Code(t: ValueType): nat {
    if t.Deletion? then 0 else 1
  }

  function TypeOf(code: nat): ValueType {
    if code == 0 then Deletion else Value
  }

  /** The sequence number shifted left by a byte, in 64 bits, and the type in the low byte. */
  function Pack(sequence: nat, t: ValueType): (tag: nat)
    ensures tag < LIMIT_64
  {
    sequence * 0x100 % LIMIT_64 + Code(t)
  }

  function SequenceOf(tag: nat): nat {
    tag / 0x100
  }

  function TypeByte(tag: nat): nat {
    tag % 0x100
  }

  /** Tags and pairs of a sequence number and a type determine each other. */
  lemma PackParts(tag: nat, sequence: nat, t: ValueType)
    requires tag < LIMIT_64 && sequence <= MAX_SEQUENCE
    ensures tag == Pack(sequence, t) <==> SequenceOf(tag) == sequence && TypeByte(tag) == Code(t)
    ensures Pack(sequence, t) == 256 * sequence + (if t.Value? then 1 else 0)
    ensures TypeByte(Pack(sequence, t)) == (if t.Value? then 1 else 0)
  {
  }

  /** Tags are ordered by sequence number, then by type. */
  lemma PackOrder(s1: nat, t1: ValueType, s2: nat, t2: ValueType)
    requires s1 <= MAX_SEQUENCE && s2 <= MAX_SEQUENCE
    ensures Pack(s1, t1) < Pack(s2, t2) <==> s1 < s2 || (s1 == s2 && t1.Deletion? && t2.Value?)
    ensures Pack(s1, t1) <= Pack(s2, Value) <==> s1 <= s2
  {
  }

  datatype ParsedInternalKey = ParsedInternalKey(userKey: Bytes, sequence: nat, kind: ValueType)

  function AppendInternalKey(result: Bytes, key: ParsedInternalKey): Bytes {
    result + key.userKey + Fixed64(Pack(key.sequence, key.kind))
  }

  function ParseInternalKey(s: Bytes): Option<ParsedInternalKey> {
    if |s| < 8 then None else
      var num := DecodeFixed64(s[|s| - 8..]);
      var c := TypeByte(num);
      if c <= 1 then Some(ParsedInternalKey(s[..|s| - 8], SequenceOf(num), TypeOf(c))) else None
  }

  lemma TagRoundTrip(tag: nat)
    requires tag < LIMIT_64
    ensures DecodeFixed64(Fixed64(tag)) == tag
  {
    Fixed64RoundTrip(tag, []);
    assert Fixed64(tag) + [] == Fixed64(tag);
  }

  /** Parsing and appending are inverse to each other. */
  lemma ParseAppend(key: ParsedInternalKey, s: Bytes)
    requires key.sequence <= MAX_SEQUENCE
    ensures ParseInternalKey(s) == Some(key) <==> s == AppendInternalKey([], key)
  {
    hide Fixed64, DecodeFixed64, Pack, SequenceOf, TypeByte;
    var t, n, tag := AppendInternalKey([], key), |key.userKey|, Pack(key.sequence, key.kind);
    assert t[..n] == key.userKey && t[n..] == Fixed64(tag);
    TagRoundTrip(tag);
    PackParts(tag, key.sequence, key.kind);
    if ParseInternalKey(s) == Some(key) {
      var tail := s[|s| - 8..];
      Fixed64OfDecoded(tail);
      PackParts(DecodeFixed64(tail), key.sequence, key.kind);
      assert s == s[..|s| - 8] + tail;
    }
  }

  // ---------------------------------------------------------- the comparator

  type InternalKey = s: Bytes | |s| >= 8 witness [0, 0, 0, 0, 0, 0, 0, 0]

  function ExtractUserKey(key: InternalKey): Bytes {
    key[..|key| - 8]
  }

  function TagOf(key: InternalKey): nat {
    DecodeFixed64(key[|key| - 8..])
  }

  /** User keys ascending, then tags descending. */
  function CompareParts(userCompare: (Bytes, Bytes) -> int, akey: Bytes, anum: nat, bkey: Bytes, bnum: nat): int {
    var r := userCompare(akey, bkey);
    if r == 0 then (if anum > bnum then -1 else if anum < bnum then 1 else r) else r
  }

  function InternalCompare(userCompare: (Bytes, Bytes) -> int, a: InternalKey, b: InternalKey): int {
    CompareParts(userCompare, ExtractUserKey(a), TagOf(a), ExtractUserKey(b), TagOf(b))
  }

  function InternalOrder(userCompare: (Bytes, Bytes) -> int): (InternalKey, InternalKey) -> int {
    (a: InternalKey, b: InternalKey) => InternalCompare(userCompare, a, b)
  }

  /** Internal keys are totally ordered exactly if user keys are. */
  lemma InternalIsOrder(userCompare: (Bytes, Bytes) -> int)
    ensures IsOrder(InternalOrder(userCompare)) <==> IsOrder(userCompare)
  {
    hide DecodeFixed64;
    var cmp := InternalOrder(userCompare);
    if IsOrder(userCompare) {
      forall a: InternalKey, b: InternalKey, c: InternalKey | cmp(a, b) <= 0 && cmp(b, c) <= 0
        ensures cmp(a, c) <= 0
      {
        var x, y, z := ExtractUserKey(a), ExtractUserKey(b), ExtractUserKey(c);
        assert userCompare(x, y) <= 0 && userCompare(y, z) <= 0 && userCompare(x, z) <= 0;
        if userCompare(x, z) == 0 {
          assert userCompare(z, x) == 0 && userCompare(y, x) <= 0 && userCompare(z, y) <= 0;
        }
      }
      forall a: InternalKey, b: InternalKey
        ensures cmp(a, b) < 0 <==> cmp(b, a) > 0
      {
        var x, y := ExtractUserKey(a), ExtractUserKey(b);
        assert userCompare(x, y) < 0 <==> userCompare(y, x) > 0;
        assert userCompare(y, x) < 0 <==> userCompare(x, y) > 0;
      }
    } 
    if IsOrder(cmp) {
      forall x: Bytes, y: Bytes
        ensures userCompare(x, y) == cmp(WithTag(x), WithTag(y))
      {
      }
    }
  }

  function WithTag(userKey: Bytes): InternalKey {
    userKey + [0, 0, 0, 0, 0, 0, 0, 0]
  }

  /** A user key and its tag determine how an internal key compares. */
  lemma Parts(userKey: Bytes, tag: nat)
    requires tag < LIMIT_64
    ensures var k: InternalKey := userKey + Fixed64(tag); ExtractUserKey(k) == userKey && TagOf(k) == tag
  {
    hide Fixed64, DecodeFixed64;
    var k: InternalKey := userKey + Fixed64(tag);
    assert k[|k| - 8..] == Fixed64(tag);
    TagRoundTrip(tag);
  }

  /** The order of parsed keys: newer entries of a user key come first. */
  lemma CompareParsed(userCompare: (Bytes, Bytes) -> int, a: ParsedInternalKey, b: ParsedInternalKey)
    requires a.sequence <= MAX_SEQUENCE && b.sequence <= MAX_SEQUENCE
    ensures var r := userCompare(a.userKey, b.userKey);
            InternalCompare(userCompare, AppendInternalKey([], a), AppendInternalKey([], b)) < 0 <==>
              r < 0 || (r == 0 && (a.sequence > b.sequence || (a.sequence == b.sequence && a.kind.Value? && b.kind.Deletion?)))
  {
    hide Fixed64, DecodeFixed64, Pack, ExtractUserKey, TagOf;
    assert AppendInternalKey([], a) == a.userKey + Fixed64(Pack(a.sequence, a.kind));
    assert AppendInternalKey([], b) == b.userKey + Fixed64(Pack(b.sequence, b.kind));
    Parts(a.userKey, Pack(a.sequence, a.kind));
    Parts(b.userKey, Pack(b.sequence, b.kind));
    PackOrder(b.sequence, b.kind, a.sequence, a.kind);
  }

  // ------------------------------------------------------- short internal keys

  /** The internal key that a lookup of a user key at a sequence number seeks. */
  function SeekKey(userKey: Bytes, sequence: nat): (r: InternalKey)
    ensures |r| == |userKey| + 8
  {
    userKey + Fixed64(Pack(sequence, TYPE_FOR_SEEK))
  }

  /** The first internal key of a user key. */
  function Earliest(userKey: Bytes): (r: InternalKey)
    ensures |r| == |userKey| + 8
  {
    SeekKey(userKey, MAX_SEQUENCE)
  }

  lemma EarliestCompares(userCompare: (Bytes, Bytes) -> int, userKey: Bytes, k: InternalKey)
    ensures ExtractUserKey(Earliest(userKey)) == userKey
    ensures userCompare(ExtractUserKey(k), userKey) < 0 ==> InternalCompare(userCompare, k, Earliest(userKey)) < 0
    ensures userCompare(userKey, ExtractUserKey(k)) < 0 ==> InternalCompare(userCompare, Earliest(userKey), k) < 0
  {
    hide Fixed64, ExtractUserKey, TagOf;
    Parts(userKey, Pack(MAX_SEQUENCE, TYPE_FOR_SEEK));
  }

  /** What FindShortestSeparator makes of start, for any user comparator. */
  function InternalSeparator(c: Comparator, start: InternalKey, limit: InternalKey): InternalKey {
    var userStart := ExtractUserKey(start);
    var tmp := c.separator(userStart, ExtractUserKey(limit));
    if |tmp| < |userStart| && c.compare(userStart, tmp) < 0 then Earliest(tmp) else start
  }

  /** Whatever the user comparator does, the result is start or larger and shorter. If it keeps its
      contract and the user keys are in order, the result is also before limit. */
  lemma InternalSeparatorBetween(c: Comparator, start: InternalKey, limit: InternalKey)
    ensures var r := InternalSeparator(c, start, limit);
            && (r == start || (InternalCompare(c.compare, start, r) < 0 && |r| < |start|))
            && (c.MeetsContract() && c.compare(ExtractUserKey(start), ExtractUserKey(limit)) < 0 ==>
                  InternalCompare(c.compare, r, limit) < 0)
  {
    hide InternalCompare, Earliest;
    var userStart, userLimit := ExtractUserKey(start), ExtractUserKey(limit);
    var tmp := c.separator(userStart, userLimit);
    EarliestCompares(c.compare, tmp, start);
    EarliestCompares(c.compare, tmp, limit);
    UserKeyDecides(c.compare, start, limit);
  }

  lemma UserKeyDecides(userCompare: (Bytes, Bytes) -> int, a: InternalKey, b: InternalKey)
    ensures userCompare(ExtractUserKey(a), ExtractUserKey(b)) < 0 ==> InternalCompare(userCompare, a, b) < 0
  {
  }

  /** The contract says nothing of user keys that are equal or out of order. Where the user's separator
      is not before limit, the result is before limit only if that separator is equal to limit's user
      key, whose tag is lower: exactly then. */
  lemma SeparatorBeforeLimitIff(c: Comparator, start: InternalKey, limit: InternalKey)
    requires InternalSeparator(c, start, limit) != start
    ensures var tmp := c.separator(ExtractUserKey(start), ExtractUserKey(limit));
            var r := c.compare(tmp, ExtractUserKey(limit));
            InternalCompare(c.compare, InternalSeparator(c, start, limit), limit) < 0 <==>
              r < 0 || (r == 0 && TagOf(limit) < Pack(MAX_SEQUENCE, TYPE_FOR_SEEK))
  {
    hide Fixed64, ExtractUserKey, TagOf, Pack;
    var tmp := c.separator(ExtractUserKey(start), ExtractUserKey(limit));
    Parts(tmp, Pack(MAX_SEQUENCE, TYPE_FOR_SEEK));
  }

  /** A separator that keeps the contract, and makes what it likes of user keys that are not in order. */
  function EagerSeparator(start: Bytes, limit: Bytes): Bytes {
    if LexCompare(start, limit) < 0 then ShortestSeparator(start, limit) else [1]
  }

  /** So the contract alone is not enough: two entries of one user key, in order, and a result that is
      behind the second of them. */
  lemma ContractIsNotEnough()
    ensures var c := Comparator(LexCompare, EagerSeparator, ShortSuccessor);
            var start, limit := [0, 0] + Fixed64(1), [0, 0] + Fixed64(0);
            && c.MeetsContract() && InternalCompare(c.compare, start, limit) < 0
            && InternalCompare(c.compare, limit, InternalSeparator(c, start, limit)) < 0
  {
    hide ShortestSeparator, ShortSuccessor, Fixed64, IsOrder;
    BytewiseMeetsContract();
    var start, limit := [0, 0] + Fixed64(1), [0, 0] + Fixed64(0);
    Parts([0, 0], 1);
    Parts([0, 0], 0);
    LexAntisymmetric([0, 0], [0, 0]);
    hide TagOf, ExtractUserKey;
    assert LexCompare([0, 0], [1]) < 0;
    EarliestCompares(LexCompare, [1], limit);
  }

  /** With the bytewise comparator it is strictly between for all inputs, and changed exactly if the
      user keys leave room for a shorter one. */
  lemma BytewiseSeparatorBetween(start: InternalKey, limit: InternalKey)
    ensures var r := InternalSeparator(BYTEWISE, start, limit);
            && (r == start || (InternalCompare(LexCompare, start, r) < 0 && InternalCompare(LexCompare, r, limit) < 0 && |r| < |start|))
            && (r != start <==> exists i: nat :: RoomAt(ExtractUserKey(start), ExtractUserKey(limit), i) && i + 1 < |start| - 8)
  {
    hide LexCompare, InternalCompare, RoomAt, Earliest, ShortestSeparator;
    var userStart, userLimit := ExtractUserKey(start), ExtractUserKey(limit);
    var tmp := ShortestSeparator(userStart, userLimit);
    SeparatorBetween(userStart, userLimit);
    EarliestCompares(LexCompare, tmp, start);
    EarliestCompares(LexCompare, tmp, limit);
  }

  method FindShortestSeparator(c: Comparator, start: InternalKey, limit: InternalKey) returns (r: InternalKey)
    ensures r == InternalSeparator(c, start, limit)
  {
    hide Fixed64;
    var userStart, userLimit := ExtractUserKey(start), ExtractUserKey(limit);
    var tmp := c.separator(userStart, userLimit);
    r := start;
    if |tmp| < |userStart| && c.compare(userStart, tmp) < 0 {
      r := tmp + Fixed64(Pack(MAX_SEQUENCE, TYPE_FOR_SEEK));
    }
  }

  /** What FindShortSuccessor makes of key, for any user comparator. */
  function InternalSuccessor(c: Comparator, key: InternalKey): InternalKey {
    var userKey := ExtractUserKey(key);
    var tmp := c.successor(userKey);
    if |tmp| < |userKey| && c.compare(userKey, tmp) < 0 then Earliest(tmp) else key
  }

  /** Whatever the user comparator does, the result is key or larger and shorter. With the bytewise one
      it is key exactly if every byte of the user key but the last is 0xff. */
  lemma InternalSuccessorLarger(c: Comparator, key: InternalKey)
    ensures var r := InternalSuccessor(c, key); r == key || (InternalCompare(c.compare, key, r) < 0 && |r| < |key|)
    ensures InternalSuccessor(BYTEWISE, key) != key <==> FirstBelow(ExtractUserKey(key)) + 1 < |key| - 8
  {
    hide LexCompare, InternalCompare, Earliest, FirstBelow;
    var userKey := ExtractUserKey(key);
    EarliestCompares(c.compare, c.successor(userKey), key);
    SuccessorLarger(userKey);
    var tmp := ShortSuccessor(userKey);
    assert FirstBelow(userKey) < |userKey| ==> |tmp| == FirstBelow(userKey) + 1;
    assert |tmp| < |userKey| ==> |Earliest(tmp)| < |key|;
  }

  method FindShortSuccessor(c: Comparator, key: InternalKey) returns (r: InternalKey)
    ensures r == InternalSuccessor(c, key)
  {
    hide Fixed64;
    var userKey := ExtractUserKey(key);
    var tmp := c.successor(userKey);
    r := key;
    if |tmp| < |userKey| && c.compare(userKey, tmp) < 0 {
      r := tmp + Fixed64(Pack(MAX_SEQUENCE, TYPE_FOR_SEEK));
    }
  }

  /** The user key's first internal key comes before all that have a type. */
  lemma EarliestIsFirst(userCompare: (Bytes, Bytes) -> int, userKey: Bytes, k: InternalKey)
    requires TypeByte(TagOf(k)) <= 1 && userCompare(userKey, ExtractUserKey(k)) == 0
    ensures InternalCompare(userCompare, Earliest(userKey), k) <= 0
  {
    TagFits(k);
    PackParts(TagOf(k), MAX_SEQUENCE, TYPE_FOR_SEEK);
    hide Fixed64, ExtractUserKey, TagOf, Pack;
    Parts(userKey, Pack(MAX_SEQUENCE, TYPE_FOR_SEEK));
  }

  lemma TagFits(k: InternalKey)
    ensures TagOf(k) < LIMIT_64
  {
    hide DecodeFixed;
    var tail := k[|k| - 8..];
    Fixed64OfDecoded(tail);
  }

  /** A short key that replaces a longer one has the user comparator's user key, and stands before every
      entry of that user key. */
  lemma ShortKeysComeFirst(c: Comparator, start: InternalKey, limit: InternalKey, k: InternalKey)
    requires TypeByte(TagOf(k)) <= 1
    ensures var r, tmp := InternalSeparator(c, start, limit), c.separator(ExtractUserKey(start), ExtractUserKey(limit));
            r != start ==> ExtractUserKey(r) == tmp && (c.compare(tmp, ExtractUserKey(k)) == 0 ==> InternalCompare(c.compare, r, k) <= 0)
    ensures var r, tmp := InternalSuccessor(c, start), c.successor(ExtractUserKey(start));
            r != start ==> ExtractUserKey(r) == tmp && (c.compare(tmp, ExtractUserKey(k)) == 0 ==> InternalCompare(c.compare, r, k) <= 0)
  {
    hide InternalCompare, Earliest, TagOf, TypeByte;
    var tmp, tmp' := c.separator(ExtractUserKey(start), ExtractUserKey(limit)), c.successor(ExtractUserKey(start));
    EarliestCompares(c.compare, tmp, start);
    EarliestCompares(c.compare, tmp', start);
    if c.compare(tmp, ExtractUserKey(k)) == 0 {
      EarliestIsFirst(c.compare, tmp, k);
    }
    if c.compare(tmp', ExtractUserKey(k)) == 0 {
      EarliestIsFirst(c.compare, tmp', k);
    }
  }

  // -------------------------------------------------------------- lookup keys

  /** Writes the length of an internal key, the user key and the tag. */
  method EncodeKey(buf: array<bv8>, userKey: Bytes, tag: nat) returns (kstart: nat, end: nat)
    requires |userKey| + 8 < LIMIT_32 && |Varint(|userKey| + 8)| + |userKey| + 8 <= buf.Length
    modifies buf
    ensures kstart == |Varint(|userKey| + 8)| && end == kstart + |userKey| + 8
    ensures buf[..kstart] == Varint(|userKey| + 8) && buf[kstart..end] == userKey + Fixed64(tag)
  {
    hide Varint, Fixed64;
    kstart := EncodeVarint32(buf, 0, |userKey| + 8);
    assert buf[..kstart] == Varint(|userKey| + 8);
    CopyBytes(buf, kstart, userKey);
    assert buf[..kstart] == Varint(|userKey| + 8);
    end := kstart + |userKey| + 8;
    EncodeFixed64(buf, kstart + |userKey|, tag);
    assert buf[..kstart] == Varint(|userKey| + 8);
    assert buf[kstart..end] == buf[kstart..kstart + |userKey|] + buf[kstart + |userKey|..end];
  }

  class LookupKey {
    const data: array<bv8>
    const kstart: nat
    const end: nat
    ghost const userKey: Bytes
    ghost const sequence: nat

    ghost predicate Valid()
      reads data
    {
      && sequence <= MAX_SEQUENCE && |userKey| + 8 < LIMIT_32
      && kstart + 8 <= end <= data.Length
      && data[..kstart] == Varint(|userKey| + 8)
      && data[kstart..end] == SeekKey(userKey, sequence)
    }

    constructor (userKey: Bytes, sequence: nat)
      requires |userKey| + 8 < LIMIT_32 && sequence <= MAX_SEQUENCE
      ensures Valid() && fresh(data) && this.userKey == userKey && this.sequence == sequence
    {
      hide Varint, Fixed64, Pack;
      VarintSizes(|userKey| + 8);
      var needed := |userKey| + 13;
      var dst := new bv8[if needed <= 200 then 200 else needed](i => 0);
      var p, q := EncodeKey(dst, userKey, Pack(sequence, TYPE_FOR_SEEK));
      this.data, this.kstart, this.end := dst, p, q;
      this.userKey, this.sequence := userKey, sequence;
    }

    /** The three views of a lookup key. */
    method Views() returns (memtableKey: Bytes, internalKey: Bytes, user: Bytes)
      requires Valid()
      ensures internalKey == SeekKey(userKey, sequence) && user == userKey
      ensures memtableKey == Slice(internalKey).Put()
    {
      hide Varint, Fixed64, Pack;
      memtableKey, internalKey, user := data[..end], data[kstart..end], data[kstart..end - 8];
      assert data[..end] == data[..kstart] + data[kstart..end];
      assert data[kstart..end - 8] == data[kstart..end][..end - kstart - 8];
    }
  }
}
