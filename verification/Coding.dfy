/** Fixed- and variable-length integers and length-prefixed slices. */
module Coding {
  import opened Options

  type Bytes = seq<bv8>

  // -------------------------------------------------------------------- bytes

  /** Every number below 256 is the value of a byte. */
  lemma {:induction false} ByteWithValue(n: nat) returns (b: bv8)
    requires n < 256
    ensures b as nat == n
  {
    if n == 0 {
      b := 0;
    } else {
      var c := ByteWithValue(n - 1);
      NextByte(c);
      b := c + 1;
    }
  }

  lemma NextByte(b: bv8)
    requires b as nat < 255
    ensures (b + 1) as nat == b as nat + 1
  {
    assert b != 255;
  }

  lemma ByteBack(b: bv8)
    ensures (b as nat) as bv8 == b
  {
  }

  lemma SmallByte(n: nat)
    requires n < 256
    ensures (n as bv8) as nat == n
  {
    var b := ByteWithValue(n);
    ByteBack(b);
  }

  predicate More(b: bv8) {
    b & 128 != 0
  }

  function Payload(b: bv8): nat {
    (b & 127) as nat
  }

  lemma Halves(b: bv8)
    ensures b as nat < 128 ==> !More(b) && Payload(b) == b as nat
    ensures b as nat >= 128 ==> More(b) && Payload(b) == b as nat - 128
  {
  }

  /** The low seven bits of v, marked as not the last byte. */
  function MoreByte(v: nat): (b: bv8)
    ensures More(b) && Payload(b) == v % 128
  {
    hide More, Payload;
    SmallByte(v % 128 + 128);
    Halves((v % 128 + 128) as bv8);
    (v % 128 + 128) as bv8
  }

  function LastByte(v: nat): (b: bv8)
    requires v < 128
    ensures !More(b) && Payload(b) == v
  {
    hide More, Payload;
    SmallByte(v);
    Halves(v as bv8);
    v as bv8
  }

  lemma PayloadSmall(b: bv8)
    ensures Payload(b) < 128
  {
  }

  // ------------------------------------------------------------------ varints

  /** v in base 128, least significant digit first, every byte but the last marked. */
  function Varint(v: nat): (s: Bytes)
    ensures s != []
  {
    if v < 128 then [LastByte(v)] else [MoreByte(v)] + Varint(v / 128)
  }

  /** The number whose base-128 digits are the payloads of s. */
  function Value(s: Bytes): nat {
    if s == [] then 0 else Payload(s[0]) + 128 * Value(s[1..])
  }

  /** How many bytes up to and including the first unmarked one, if it is among the first max. */
  function Terminated(input: Bytes, max: nat): (r: Option<nat>)
    ensures r.Some? ==> 0 < r.value <= |input| && r.value <= max
  {
    if max == 0 || input == [] then None
    else if !More(input[0]) then Some(1)
    else
      match Terminated(input[1..], max - 1)
      case None => None
      case Some(n) => Some(n + 1)
  }

  /** What a decoder of the given width makes of input: a value, and how many bytes it took. */
  function Decode(input: Bytes, max: nat, modulus: nat): Option<(nat, nat)>
    requires modulus > 0
  {
    match Terminated(input, max)
    case None => None
    case Some(n) => Some((Value(input[..n]) % modulus, n))
  }

  lemma {:induction false} VarintValue(v: nat)
    ensures Value(Varint(v)) == v
  {
    hide More, Payload;
    if v >= 128 {
      VarintValue(v / 128);
      assert Varint(v)[1..] == Varint(v / 128);
    }
  }

  /** An encoding ends itself: what follows it is not looked at. */
  lemma {:induction false} VarintTerminated(v: nat, rest: Bytes, max: nat)
    requires |Varint(v)| <= max
    ensures Terminated(Varint(v) + rest, max) == Some(|Varint(v)|)
  {
    hide More, Payload;
    if v >= 128 {
      VarintTerminated(v / 128, rest, max - 1);
      assert (Varint(v) + rest)[1..] == Varint(v / 128) + rest;
    }
  }

  /** Every strict prefix of an encoding is rejected. */
  lemma {:induction false} PrefixRejected(v: nat, n: nat, max: nat)
    requires n < |Varint(v)|
    ensures Terminated(Varint(v)[..n], max) == None
  {
    hide More, Payload;
    if n > 0 && max > 0 {
      PrefixRejected(v / 128, n - 1, max - 1);
      assert Varint(v)[..n][1..] == Varint(v / 128)[..n - 1];
      assert Varint(v)[..n][0] == MoreByte(v);
    }
  }

  function Pow128(n: nat): nat {
    if n == 0 then 1 else 128 * Pow128(n - 1)
  }

  lemma {:induction false} VarintFits(v: nat, n: nat)
    requires 0 < n
    ensures |Varint(v)| <= n <==> v < Pow128(n)
  {
    hide More, Payload;
    if n > 1 && v >= 128 {
      VarintFits(v / 128, n - 1);
      DivBelow(v, Pow128(n - 1));
    } else if n > 1 {
      PowAtLeast(n - 1);
    }
  }

  lemma DivBelow(v: nat, p: nat)
    ensures v / 128 < p <==> v < 128 * p
  {
  }

  lemma {:induction false} PowAtLeast(n: nat)
    ensures Pow128(n) >= 1
  {
    if n > 0 {
      PowAtLeast(n - 1);
    }
  }

  // ----------------------------------------------------------------- encoders

  lemma Shifts(v: nat)
    ensures v / 0x80 / 0x80 == v / 0x4000 && v / 0x4000 / 0x80 == v / 0x20_0000 && v / 0x20_0000 / 0x80 == v / 0x1000_0000
  {
  }

  lemma VarintStep(v: nat)
    ensures v < 0x80 ==> Varint(v) == [LastByte(v)]
    ensures v >= 0x80 ==> Varint(v) == [MoreByte(v)] + Varint(v / 0x80)
  {
  }

  // The explicit shifts of EncodeVarint32, by number of bytes.

  lemma VarintTwo(v: nat)
    requires 0x80 <= v < 0x4000
    ensures Varint(v) == [MoreByte(v), LastByte(v / 0x80)]
  {
    hide Varint, MoreByte, LastByte;
    VarintStep(v);
    VarintStep(v / 0x80);
  }

  lemma VarintThree(v: nat)
    requires 0x4000 <= v < 0x20_0000
    ensures Varint(v) == [MoreByte(v), MoreByte(v / 0x80), LastByte(v / 0x4000)]
  {
    hide Varint, MoreByte, LastByte;
    Shifts(v);
    VarintStep(v);
    VarintTwo(v / 0x80);
  }

  lemma VarintFour(v: nat)
    requires 0x20_0000 <= v < 0x1000_0000
    ensures Varint(v) == [MoreByte(v), MoreByte(v / 0x80), MoreByte(v / 0x4000), LastByte(v / 0x20_0000)]
  {
    hide Varint, MoreByte, LastByte;
    Shifts(v);
    Shifts(v / 0x80);
    VarintStep(v);
    VarintThree(v / 0x80);
  }

  lemma VarintFive(v: nat)
    requires 0x1000_0000 <= v < 0x1_0000_0000
    ensures Varint(v) == [MoreByte(v), MoreByte(v / 0x80), MoreByte(v / 0x4000), MoreByte(v / 0x20_0000), LastByte(v / 0x1000_0000)]
  {
    hide Varint, MoreByte, LastByte;
    Shifts(v);
    Shifts(v / 0x80);
    VarintStep(v);
    VarintFour(v / 0x80);
  }

  /** s stands in buf from off on, and the rest of buf is as it was. */
  twostate predicate Wrote(buf: array<bv8>, off: nat, s: Bytes)
    reads buf
  {
    && off + |s| <= buf.Length
    && buf[off..off + |s|] == s
    && (forall k :: 0 <= k < off || off + |s| <= k < buf.Length ==> buf[k] == old(buf[k]))
  }

  method EncodeVarint32(buf: array<bv8>, off: nat, v: nat) returns (end: nat)
    requires v < 0x1_0000_0000 && off + |Varint(v)| <= buf.Length
    modifies buf
    ensures end == off + |Varint(v)| && Wrote(buf, off, Varint(v))
  {
    hide Varint, MoreByte, LastByte;
    if v < 0x80 {
      VarintStep(v);
      buf[off] := LastByte(v);
      end := off + 1;
    } else if v < 0x4000 {
      VarintTwo(v);
      buf[off], buf[off + 1] := MoreByte(v), LastByte(v / 0x80);
      end := off + 2;
    } else if v < 0x20_0000 {
      VarintThree(v);
      buf[off], buf[off + 1], buf[off + 2] := MoreByte(v), MoreByte(v / 0x80), LastByte(v / 0x4000);
      end := off + 3;
    } else if v < 0x1000_0000 {
      end := EncodeFourBytes(buf, off, v);
    } else {
      end := EncodeFiveBytes(buf, off, v);
    }
  }

  method EncodeFourBytes(buf: array<bv8>, off: nat, v: nat) returns (end: nat)
    requires 0x20_0000 <= v < 0x1000_0000 && off + |Varint(v)| <= buf.Length
    modifies buf
    ensures end == off + |Varint(v)| && Wrote(buf, off, Varint(v))
  {
    hide Varint, MoreByte, LastByte;
    VarintFour(v);
    buf[off], buf[off + 1], buf[off + 2], buf[off + 3] :=
      MoreByte(v), MoreByte(v / 0x80), MoreByte(v / 0x4000), LastByte(v / 0x20_0000);
    end := off + 4;
  }

  method EncodeFiveBytes(buf: array<bv8>, off: nat, v: nat) returns (end: nat)
    requires 0x1000_0000 <= v < 0x1_0000_0000 && off + |Varint(v)| <= buf.Length
    modifies buf
    ensures end == off + |Varint(v)| && Wrote(buf, off, Varint(v))
  {
    hide Varint, MoreByte, LastByte;
    VarintFive(v);
    buf[off], buf[off + 1], buf[off + 2], buf[off + 3], buf[off + 4] :=
      MoreByte(v), MoreByte(v / 0x80), MoreByte(v / 0x4000), MoreByte(v / 0x20_0000), LastByte(v / 0x1000_0000);
    end := off + 5;
  }

  method EncodeVarint64(buf: array<bv8>, off: nat, v: nat) returns (end: nat)
    requires off + |Varint(v)| <= buf.Length
    modifies buf
    ensures end == off + |Varint(v)| && Wrote(buf, off, Varint(v))
  {
    hide Varint, MoreByte, LastByte;
    var w := v;
    end := off;
    ghost var done: Bytes := [];
    while w >= 128
      invariant end == off + |done| && Wrote(buf, off, done)
      invariant done + Varint(w) == Varint(v)
      decreases w
    {
      VarintStep(w);
      assert done + Varint(w) == (done + [MoreByte(w)]) + Varint(w / 128);
      buf[end] := MoreByte(w);
      done := done + [MoreByte(w)];
      end := end + 1;
      w := w / 128;
    }
    VarintStep(w);
    buf[end] := LastByte(w);
    end := end + 1;
  }

  method VarintLength(v: nat) returns (len: nat)
    ensures len == |Varint(v)|
  {
    hide More, Payload, MoreByte, LastByte;
    var w := v;
    len := 1;
    while w >= 128
      invariant len + |Varint(w)| == |Varint(v)| + 1
      decreases w
    {
      w := w / 128;
      len := len + 1;
    }
  }

  // ----------------------------------------------------------------- decoders

  lemma {:induction false} ValueSnoc(s: Bytes, b: bv8)
    ensures Value(s + [b]) == Value(s) + Payload(b) * Pow128(|s|)
  {
    hide More, Payload;
    if s == [] {
      assert s + [b] == [b] && [b][1..] == [];
    } else {
      assert (s + [b])[1..] == s[1..] + [b];
      ValueSnoc(s[1..], b);
      assert 128 * (Payload(b) * Pow128(|s| - 1)) == Payload(b) * (128 * Pow128(|s| - 1));
    }
  }

  lemma {:induction false} TerminatedAt(input: Bytes, max: nat, n: nat)
    requires 0 < n <= |input| && n <= max && !More(input[n - 1])
    requires forall k :: 0 <= k < n - 1 ==> More(input[k])
    ensures Terminated(input, max) == Some(n)
  {
    hide More;
    if n > 1 {
      TerminatedAt(input[1..], max - 1, n - 1);
    }
  }

  lemma {:induction false} NotTerminated(input: Bytes, max: nat)
    requires forall k :: 0 <= k < |input| && k < max ==> More(input[k])
    ensures Terminated(input, max) == None
  {
    hide More;
    if max > 0 && input != [] {
      NotTerminated(input[1..], max - 1);
    }
  }

  /** The loop of GetVarint32PtrFallback (max 5, modulus 2^32) and of GetVarint64Ptr (max 10, modulus
      2^64): shift is seven times the number of bytes taken. */
  method GetVarintPtr(input: Bytes, max: nat, modulus: nat) returns (r: Option<(nat, nat)>)
    requires modulus > 0
    ensures r == Decode(input, max, modulus)
  {
    hide More, Payload;
    var result, p := 0, 0;
    var scale := 1;
    while p < max && p < |input|
      invariant 0 <= p <= |input| && p <= max
      invariant scale == Pow128(p)
      invariant forall k :: 0 <= k < p ==> More(input[k])
      invariant result == Value(input[..p]) % modulus
    {
      var byte := input[p];
      p := p + 1;
      assert input[..p] == input[..p - 1] + [byte];
      ValueSnoc(input[..p - 1], byte);
      AddModulo(Value(input[..p - 1]), Payload(byte) * scale, modulus);
      result := (result + Payload(byte) * scale) % modulus;
      if !More(byte) {
        TerminatedAt(input, max, p);
        return Some((result, p));
      }
      scale := 128 * scale;
    }
    NotTerminated(input, max);
    return None;
  }

  lemma AddModulo(a: nat, b: nat, m: nat)
    requires m > 0
    ensures (a % m + b) % m == (a + b) % m
  {
    var c := a % m + b;
    DivMod(a, m);
    DivMod(c, m);
    Distribute(m, a / m, c / m);
    RemainderUnique(a + b, m, a / m + c / m, c % m);
  }

  lemma DivMod(a: nat, m: nat)
    requires m > 0
    ensures a == m * (a / m) + a % m && a / m >= 0
  {
  }

  lemma Distribute(m: int, x: int, y: int)
    ensures m * (x + y) == m * x + m * y
  {
  }

  lemma RemainderUnique(a: nat, m: nat, q: nat, r: nat)
    requires r < m && a == m * q + r
    ensures a % m == r
  {
    assert m * (q - a / m) == a % m - r;
    Multiples(m, q - a / m);
  }

  lemma Multiples(m: nat, d: int)
    ensures d >= 1 ==> m * d >= m
    ensures d <= -1 ==> m * d + m <= 0
  {
  }

  const LIMIT_32: nat := 0x1_0000_0000
  const LIMIT_64: nat := 0x1_0000_0000_0000_0000

  method GetVarint32Ptr(input: Bytes) returns (r: Option<(nat, nat)>)
    ensures r == Decode(input, 5, LIMIT_32)
  {
    hide More, Payload;
    if |input| > 0 {
      var result := input[0];
      if !More(result) {
        ValueSnoc([], result);
        assert input[..1] == [result] == [] + [result];
        TerminatedAt(input, 5, 1);
        PayloadSmall(result);
        return Some((Payload(result), 1));
      }
    }
    r := GetVarintPtr(input, 5, LIMIT_32);
  }

  lemma DecodeVarint(v: nat, rest: Bytes, max: nat, modulus: nat)
    requires |Varint(v)| <= max && v < modulus
    ensures Decode(Varint(v) + rest, max, modulus) == Some((v, |Varint(v)|))
  {
    hide Varint, Value, Terminated;
    VarintTerminated(v, rest, max);
    VarintValue(v);
    assert (Varint(v) + rest)[..|Varint(v)|] == Varint(v);
  }

  lemma VarintSizes(v: nat)
    ensures v < LIMIT_32 ==> |Varint(v)| <= 5
    ensures v < LIMIT_64 ==> |Varint(v)| <= 10
  {
    hide Varint;
    assert Pow128(5) == 0x8_0000_0000 && Pow128(10) == Pow128(5) * Pow128(5);
    VarintFits(v, 5);
    VarintFits(v, 10);
  }

  // ------------------------------------------------------------ mixed records

  datatype Kind = KVarint32 | KVarint64 | KSlice

  datatype Item = Varint32(v: nat) | Varint64(v: nat) | Slice(data: Bytes) {
    predicate Valid() {
      match this
      case Varint32(v) => v < LIMIT_32
      case Varint64(v) => v < LIMIT_64
      case Slice(data) => |data| < LIMIT_32
    }

    function KindOf(): Kind {
      match this
      case Varint32(_) => KVarint32
      case Varint64(_) => KVarint64
      case Slice(_) => KSlice
    }

    /** PutVarint32, PutVarint64 and PutLengthPrefixedSlice. */
    function Put(): Bytes {
      match this
      case Varint32(v) => Varint(v)
      case Varint64(v) => Varint(v)
      case Slice(data) => Varint(|data|) + data
    }
  }

  /** GetVarint32, GetVarint64 and GetLengthPrefixedSlice: an item and the input that is left. */
  function Get(kind: Kind, input: Bytes): Option<(Item, Bytes)> {
    match kind
    case KVarint32 =>
      (match Decode(input, 5, LIMIT_32)
       case None => None
       case Some((v, n)) => Some((Varint32(v), input[n..])))
    case KVarint64 =>
      (match Decode(input, 10, LIMIT_64)
       case None => None
       case Some((v, n)) => Some((Varint64(v), input[n..])))
    case KSlice =>
      match Decode(input, 5, LIMIT_32)
      case None => None
      case Some((len, n)) =>
        if |input| - n < len then None else Some((Slice(input[n..n + len]), input[n + len..]))
  }

  lemma GetPut(item: Item, rest: Bytes)
    requires item.Valid()
    ensures Get(item.KindOf(), item.Put() + rest) == Some((item, rest))
  {
    hide Varint, Decode;
    match item
    case Varint32(v) =>
      VarintSizes(v);
      DecodeVarint(v, rest, 5, LIMIT_32);
    case Varint64(v) =>
      VarintSizes(v);
      DecodeVarint(v, rest, 10, LIMIT_64);
    case Slice(data) =>
      VarintSizes(|data|);
      DecodeVarint(|data|, data + rest, 5, LIMIT_32);
      assert item.Put() + rest == Varint(|data|) + (data + rest);
  }

  function PutAll(items: seq<Item>): Bytes {
    if items == [] then [] else items[0].Put() + PutAll(items[1..])
  }

  function GetAll(kinds: seq<Kind>, input: Bytes): Option<(seq<Item>, Bytes)> {
    if kinds == [] then Some(([], input))
    else
      match Get(kinds[0], input)
      case None => None
      case Some((item, rest)) =>
        match GetAll(kinds[1..], rest)
        case None => None
        case Some((items, left)) => Some(([item] + items, left))
  }

  function Kinds(items: seq<Item>): seq<Kind> {
    if items == [] then [] else [items[0].KindOf()] + Kinds(items[1..])
  }

  /** Items written back to back are read back the same, with exactly the written bytes consumed. */
  lemma {:induction false} GetAllPutAll(items: seq<Item>, rest: Bytes)
    requires forall k :: 0 <= k < |items| ==> items[k].Valid()
    ensures GetAll(Kinds(items), PutAll(items) + rest) == Some((items, rest))
  {
    hide Get;
    if items == [] {
      assert PutAll(items) + rest == rest;
    } else {
      GetPut(items[0], PutAll(items[1..]) + rest);
      GetAllPutAll(items[1..], rest);
      assert PutAll(items) + rest == items[0].Put() + (PutAll(items[1..]) + rest);
      assert Kinds(items)[1..] == Kinds(items[1..]);
      assert [items[0]] + items[1..] == items;
    }
  }

  /** An item that has been cut off anywhere is rejected. */
  lemma PutPrefixRejected(item: Item, n: nat)
    requires item.Valid() && n < |item.Put()|
    ensures Get(item.KindOf(), item.Put()[..n]) == None
  {
    hide Varint;
    match item
    case Varint32(v) => PrefixRejected(v, n, 5);
    case Varint64(v) => PrefixRejected(v, n, 10);
    case Slice(data) =>
      var len := Varint(|data|);
      if n < |len| {
        PrefixRejected(|data|, n, 5);
        assert item.Put()[..n] == len[..n];
      } else {
        VarintSizes(|data|);
        DecodeVarint(|data|, data[..n - |len|], 5, LIMIT_32);
        assert item.Put()[..n] == len + data[..n - |len|];
      }
  }

  /** So is a list of items that has been cut off anywhere. */
  lemma {:induction false} PutAllPrefixRejected(items: seq<Item>, n: nat)
    requires (forall k :: 0 <= k < |items| ==> items[k].Valid()) && n < |PutAll(items)|
    ensures GetAll(Kinds(items), PutAll(items)[..n]) == None
  {
    hide Get;
    var first, rest := items[0].Put(), PutAll(items[1..]);
    assert Kinds(items)[1..] == Kinds(items[1..]);
    if n < |first| {
      PutPrefixRejected(items[0], n);
      assert PutAll(items)[..n] == first[..n];
    } else {
      GetPut(items[0], rest[..n - |first|]);
      assert PutAll(items)[..n] == first + rest[..n - |first|];
      PutAllPrefixRejected(items[1..], n - |first|);
    }
  }

  /** v without its i lowest digits. */
  function WithoutDigits(v: nat, base: nat, i: nat): nat
    requires base > 0
    decreases i
  {
    if i == 0 then v else WithoutDigits(v / base, base, i - 1)
  }

  /** Byte i of an encoding holds digit i in base 128, and all but the last one are marked. */
  lemma {:induction false} VarintDigits(v: nat, i: nat)
    requires i < |Varint(v)|
    ensures Payload(Varint(v)[i]) == WithoutDigits(v, 128, i) % 128 && (More(Varint(v)[i]) <==> i < |Varint(v)| - 1)
    decreases i
  {
    hide More, Payload;
    if v >= 128 && i > 0 {
      VarintDigits(v / 128, i - 1);
      assert Varint(v)[i] == Varint(v / 128)[i - 1];
    }
  }

  /** 300 is 2 * 128 + 44, and 44 + 128 is 0xac. */
  lemma VarintOutput()
    ensures Varint(127) == [127] && Varint(128) == [0x80, 1] && Varint(300) == [0xac, 2]
  {
  }

  // ------------------------------------------------------------- fixed widths

  function Fixed32(v: bv32): Bytes {
    [(v & 0xff) as bv8, ((v >> 8) & 0xff) as bv8, ((v >> 16) & 0xff) as bv8, ((v >> 24) & 0xff) as bv8]
  }

  function DecodeFixed32(s: Bytes): bv32
    requires |s| >= 4
  {
    (s[0] as bv32) | (s[1] as bv32 << 8) | (s[2] as bv32 << 16) | (s[3] as bv32 << 24)
  }

  lemma Fixed32RoundTrip(v: bv32, rest: Bytes)
    ensures DecodeFixed32(Fixed32(v) + rest) == v
  {
  }

  /** The byte a value is truncated to. */
  function Byte(v: nat): (b: bv8)
    ensures b as nat == v % 256
  {
    SmallByte(v % 256);
    (v % 256) as bv8
  }

  lemma SameByte(a: bv8, b: bv8)
    requires a as nat == b as nat
    ensures a == b
  {
  }

  /** The n low bytes of v, the lowest first. */
  function Fixed(v: nat, n: nat): (s: Bytes)
    ensures |s| == n
  {
    if n == 0 then [] else [Byte(v)] + Fixed(v / 256, n - 1)
  }

  function DecodeFixed(s: Bytes): nat {
    if s == [] then 0 else s[0] as nat + 256 * DecodeFixed(s[1..])
  }

  lemma {:induction false} FixedRoundTrip(v: nat, n: nat)
    ensures DecodeFixed(Fixed(v, n)) == v % Pow256(n)
  {
    if n > 0 {
      FixedRoundTrip(v / 256, n - 1);
      DigitRemainder(v, Pow256(n - 1));
    }
  }

  lemma {:induction false} FixedOfDecoded(s: Bytes)
    ensures Fixed(DecodeFixed(s), |s|) == s
    ensures DecodeFixed(s) < Pow256(|s|)
  {
    if s != [] {
      FixedOfDecoded(s[1..]);
      ByteOfDecoded(s[0], DecodeFixed(s[1..]));
    }
  }

  function Pow256(n: nat): (p: nat)
    ensures p > 0
  {
    if n == 0 then 1 else 256 * Pow256(n - 1)
  }

  lemma DigitRemainder(v: nat, p: nat)
    requires p > 0
    ensures v % 256 + 256 * (v / 256 % p) == v % (256 * p)
  {
    var q, r := v / 256 / p, v / 256 % p;
    assert v == (256 * p) * q + (v % 256 + 256 * r);
    RemainderUnique(v, 256 * p, q, v % 256 + 256 * r);
  }

  lemma ByteRange(b: bv8)
    ensures b as nat < 256
  {
  }

  lemma ByteIs(v: nat, b: bv8)
    requires v % 256 == b as nat
    ensures Byte(v) == b
  {
    hide Byte;
    SameByte(Byte(v), b);
  }

  lemma ByteOfDecoded(b: bv8, rest: nat)
    ensures Byte(b as nat + 256 * rest) == b && (b as nat + 256 * rest) / 256 == rest
  {
    ByteRange(b);
    DigitsOf(b as nat, rest);
    ByteIs(b as nat + 256 * rest, b);
  }

  lemma DigitsOf(d: nat, rest: nat)
    requires d < 256
    ensures (d + 256 * rest) % 256 == d && (d + 256 * rest) / 256 == rest
  {
  }

  function Fixed64(v: nat): (s: Bytes)
    ensures |s| == 8
  {
    Fixed(v, 8)
  }

  function DecodeFixed64(s: Bytes): nat
    requires |s| >= 8
  {
    DecodeFixed(s[..8])
  }

  /** Byte i of a fixed-width value holds digit i in base 256. */
  lemma {:induction false} FixedDigits(v: nat, n: nat, i: nat)
    requires i < n
    ensures Fixed(v, n)[i] as nat == WithoutDigits(v, 256, i) % 256
    decreases i
  {
    if i > 0 {
      FixedDigits(v / 256, n - 1, i - 1);
    }
  }

  lemma Fixed32Output()
    ensures Fixed32(0x04030201) == [1, 2, 3, 4]
  {
  }

  /** Fixed64 is a bijection between the 64-bit values and the strings of eight bytes. */
  lemma Fixed64RoundTrip(v: nat, rest: Bytes)
    requires v < LIMIT_64
    ensures DecodeFixed64(Fixed64(v) + rest) == v
  {
    hide Fixed, DecodeFixed;
    assert (Fixed(v, 8) + rest)[..8] == Fixed(v, 8);
    FixedRoundTrip(v, 8);
    PowerOf64();
  }

  lemma Fixed64OfDecoded(s: Bytes)
    requires |s| == 8
    ensures Fixed64(DecodeFixed64(s)) == s && DecodeFixed64(s) < LIMIT_64
  {
    hide Fixed, DecodeFixed;
    assert s[..8] == s;
    FixedOfDecoded(s);
    PowerOf64();
  }

  lemma PowerOf64()
    ensures Pow256(8) == LIMIT_64
  {
    assert Pow256(4) == 0x1_0000_0000;
  }

  lemma Shifts256(v: nat)
    ensures v / 0x100 / 0x100 == v / 0x1_0000 && v / 0x1_0000 / 0x100 == v / 0x100_0000
    ensures v / 0x100_0000 / 0x100 == v / 0x1_0000_0000
  {
  }

  lemma FixedStep(v: nat, n: nat)
    ensures Fixed(v, n + 1) == [Byte(v)] + Fixed(v / 0x100, n)
  {
  }

  lemma FourBytes(v: nat, n: nat)
    ensures Fixed(v, n + 4) == [Byte(v), Byte(v / 0x100), Byte(v / 0x1_0000), Byte(v / 0x100_0000)] + Fixed(v / 0x1_0000_0000, n)
  {
    hide Byte, Fixed;
    Shifts256(v);
    FixedStep(v, n + 3);
    FixedStep(v / 0x100, n + 2);
    FixedStep(v / 0x1_0000, n + 1);
    FixedStep(v / 0x100_0000, n);
  }

  lemma EightBytes(v: nat)
    ensures Fixed64(v) == [Byte(v), Byte(v / 0x100), Byte(v / 0x1_0000), Byte(v / 0x100_0000), Byte(v / 0x1_0000_0000),
                           Byte(v / 0x100_0000_0000), Byte(v / 0x1_0000_0000_0000), Byte(v / 0x100_0000_0000_0000)]
  {
    hide Byte;
    var w := v / 0x1_0000_0000;
    FourBytes(v, 4);
    FourBytes(w, 0);
    HighShifts(v);
    assert Fixed(w / 0x1_0000_0000, 0) == [];
  }

  lemma HighShifts(v: nat)
    ensures var w := v / 0x1_0000_0000;
            && w / 0x100 == v / 0x100_0000_0000 && w / 0x1_0000 == v / 0x1_0000_0000_0000
            && w / 0x100_0000 == v / 0x100_0000_0000_0000
  {
  }

  method EncodeFixed64(buf: array<bv8>, off: nat, v: nat)
    requires off + 8 <= buf.Length
    modifies buf
    ensures Wrote(buf, off, Fixed64(v))
  {
    hide Byte, Fixed64;
    EightBytes(v);
    StoreFour(buf, off, Byte(v), Byte(v / 0x100), Byte(v / 0x1_0000), Byte(v / 0x100_0000));
    StoreFour(buf, off + 4, Byte(v / 0x1_0000_0000), Byte(v / 0x100_0000_0000), Byte(v / 0x1_0000_0000_0000),
              Byte(v / 0x100_0000_0000_0000));
    assert buf[off..off + 8] == buf[off..off + 4] + buf[off + 4..off + 8];
  }

  method StoreFour(buf: array<bv8>, off: nat, b0: bv8, b1: bv8, b2: bv8, b3: bv8)
    requires off + 4 <= buf.Length
    modifies buf
    ensures Wrote(buf, off, [b0, b1, b2, b3])
  {
    buf[off] := b0;
    buf[off + 1] := b1;
    buf[off + 2] := b2;
    buf[off + 3] := b3;
  }

  /** memcpy to off. */
  method CopyBytes(buf: array<bv8>, off: nat, s: Bytes)
    requires off + |s| <= buf.Length
    modifies buf
    ensures Wrote(buf, off, s)
  {
    forall i | 0 <= i < |s| {
      buf[off + i] := s[i];
    }
  }
}
