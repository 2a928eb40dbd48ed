/** CRC32C: the byte-at-a-time definition, and the four-stream, alignment-dependent loop of the
    portable implementation, proved equal to it. */
module Crc32c {
  import opened CrcRegister

  const CRC_XOR: bv32 := 0xffffffff
  const MASK_DELTA: bv32 := 0xa282ead8

  // ---------------------------------------------------------------- definition

  /** The register after the bytes of data have been shifted in, one at a time. */
  function Feed(l: bv32, data: seq<bv8>): bv32 {
    if data == [] then l else FeedByte(Feed(l, data[..|data| - 1]), data[|data| - 1])
  }

  function FeedByte(l: bv32, b: bv8): bv32 {
    ZeroByte(Xor(l, b as bv32))
  }

  /** The CRC32C of a string followed by data, where crc is the CRC32C of the string. */
  function Crc(crc: bv32, data: seq<bv8>): bv32 {
    Xor(Feed(Xor(crc, CRC_XOR), data), CRC_XOR)
  }

  lemma {:induction false} FeedConcat(l: bv32, a: seq<bv8>, b: seq<bv8>)
    ensures Feed(l, a + b) == Feed(Feed(l, a), b)
  {
    if b == [] {
      assert a + b == a;
    } else {
      var front := b[..|b| - 1];
      assert (a + b)[..|a + b| - 1] == a + front;
      FeedConcat(l, a, front);
    }
  }

  // -------------------------------------------------------------------- tables

  /** kByteExtensionTable[c]: the register c after one zero byte. */
  function ByteTable(c: bv32): bv32 {
    ZeroByte(c)
  }

  /** kStrideExtensionTable3 .. 0: a register byte in each of the four positions, after sixteen
      zero bytes. */
  function StrideTable3(c: bv32): bv32 {
    ZeroStride(c)
  }

  function StrideTable2(c: bv32): bv32 {
    ZeroStride(c << 8)
  }

  function StrideTable1(c: bv32): bv32 {
    ZeroStride(c << 16)
  }

  function StrideTable0(c: bv32): bv32 {
    ZeroStride(c << 24)
  }

  // --------------------------------------------------------------------- words

  function Word(b0: bv8, b1: bv8, b2: bv8, b3: bv8): bv32 {
    (b0 as bv32) | (b1 as bv32 << 8) | (b2 as bv32 << 16) | (b3 as bv32 << 24)
  }

  function ReadUint32LE(data: seq<bv8>, i: nat): bv32
    requires i + 4 <= |data|
  {
    Word(data[i], data[i + 1], data[i + 2], data[i + 3])
  }

  /** Feeding four bytes is feeding their little-endian word. */
  lemma FeedWord(l: bv32, b0: bv8, b1: bv8, b2: bv8, b3: bv8)
    ensures FeedByte(FeedByte(FeedByte(FeedByte(l, b0), b1), b2), b3) == ZeroWord(Xor(l, Word(b0, b1, b2, b3)))
  {
    hide ZeroByte, Xor, Word;
    PeelByte(l, b0, b1, b2, b3);
    PeelByte(FeedByte(l, b0), b1, b2, b3, 0);
    PeelByte(FeedByte(FeedByte(l, b0), b1), b2, b3, 0, 0);
    PeelByte(FeedByte(FeedByte(FeedByte(l, b0), b1), b2), b3, 0, 0, 0);
    XorZero(FeedByte(FeedByte(FeedByte(FeedByte(l, b0), b1), b2), b3));
  }

  lemma XorZero(l: bv32)
    ensures Xor(l, Word(0, 0, 0, 0)) == l
  {
  }

  lemma PeelByte(l: bv32, b0: bv8, b1: bv8, b2: bv8, b3: bv8)
    ensures ZeroByte(Xor(l, Word(b0, b1, b2, b3))) == Xor(FeedByte(l, b0), Word(b1, b2, b3, 0))
  {
    hide ZeroByte, Xor, Word;
    var high := Word(0, b1, b2, b3);
    SplitWord(b0, b1, b2, b3);
    XorAssociates(l, b0 as bv32, high);
    ZeroByteLinear(Xor(l, b0 as bv32), high);
    HighBytes(b1, b2, b3);
    ZeroByteShifts(high);
  }

  lemma SplitWord(b0: bv8, b1: bv8, b2: bv8, b3: bv8)
    ensures Word(b0, b1, b2, b3) == Xor(b0 as bv32, Word(0, b1, b2, b3))
  {
  }

  lemma HighBytes(b1: bv8, b2: bv8, b3: bv8)
    ensures Word(0, b1, b2, b3) & 0xff == 0
    ensures Word(0, b1, b2, b3) >> 8 == Word(b1, b2, b3, 0)
  {
  }

  lemma FeedWordAt(l: bv32, data: seq<bv8>, p: nat)
    requires p + 4 <= |data|
    ensures Feed(l, data[..p + 4]) == ZeroWord(Xor(Feed(l, data[..p]), ReadUint32LE(data, p)))
  {
    hide ZeroByte, Xor, Word, FeedByte;
    FeedOne(l, data, p);
    FeedOne(l, data, p + 1);
    FeedOne(l, data, p + 2);
    FeedOne(l, data, p + 3);
    FeedWord(Feed(l, data[..p]), data[p], data[p + 1], data[p + 2], data[p + 3]);
  }

  lemma FeedOne(l: bv32, data: seq<bv8>, p: nat)
    requires p < |data|
    ensures Feed(l, data[..p + 1]) == FeedByte(Feed(l, data[..p]), data[p])
  {
    assert data[..p + 1][..p] == data[..p];
  }

  // ------------------------------------------------------------------- streams

  /** The four per-lookup parts of a stride step together apply sixteen zero bytes. */
  lemma StrideByTables(c: bv32, w: bv32)
    ensures Xor(Xor(Xor(Xor(w, StrideTable3(c & 0xff)), StrideTable2((c >> 8) & 0xff)),
                    StrideTable1((c >> 16) & 0xff)), StrideTable0(c >> 24))
         == Xor(w, ZeroStride(c))
  {
    hide ZeroStride, Xor;
    var c3, c2, c1, c0 := c & 0xff, ((c >> 8) & 0xff) << 8, ((c >> 16) & 0xff) << 16, (c >> 24) << 24;
    FourBytes(c);
    ZeroStrideLinear(Xor(Xor(c3, c2), c1), c0);
    ZeroStrideLinear(Xor(c3, c2), c1);
    ZeroStrideLinear(c3, c2);
    var z3, z2, z1, z0 := ZeroStride(c3), ZeroStride(c2), ZeroStride(c1), ZeroStride(c0);
    XorAssociates(w, z3, z2);
    XorAssociates(w, Xor(z3, z2), z1);
    XorAssociates(w, Xor(Xor(z3, z2), z1), z0);
  }

  lemma FourBytes(c: bv32)
    ensures c == Xor(Xor(Xor(c & 0xff, ((c >> 8) & 0xff) << 8), ((c >> 16) & 0xff) << 16), (c >> 24) << 24)
  {
  }

  /** The register that four stride streams stand for. */
  function Combine(c0: bv32, c1: bv32, c2: bv32, c3: bv32): bv32 {
    ZeroWord(Xor(ZeroWord(Xor(ZeroWord(Xor(ZeroWord(c0), c1)), c2)), c3))
  }

  function CombineThree(c1: bv32, c2: bv32, c3: bv32): bv32 {
    ZeroWord(Xor(ZeroWord(Xor(ZeroWord(c1), c2)), c3))
  }

  lemma FirstStreamApart(c0: bv32, c1: bv32, c2: bv32, c3: bv32)
    ensures Combine(c0, c1, c2, c3) == Xor(ZeroStride(c0), CombineThree(c1, c2, c3))
  {
    hide ZeroWord, Xor;
    var z1 := ZeroWord(c0);
    ZeroWordLinear(z1, c1);
    var z2 := ZeroWord(z1);
    XorAssociates(z2, ZeroWord(c1), c2);
    ZeroWordLinear(z2, Xor(ZeroWord(c1), c2));
    var z3 := ZeroWord(z2);
    var t := ZeroWord(Xor(ZeroWord(c1), c2));
    XorAssociates(z3, t, c3);
    ZeroWordLinear(z3, Xor(t, c3));
  }

  /** One word is absorbed by advancing the oldest stream by a stride and making it the newest. */
  lemma RotateStreams(c0: bv32, c1: bv32, c2: bv32, c3: bv32, w: bv32)
    ensures Combine(c1, c2, c3, Xor(w, ZeroStride(c0))) == ZeroWord(Xor(Combine(c0, c1, c2, c3), w))
  {
    hide ZeroWord, ZeroStride, Xor;
    FirstStreamApart(c0, c1, c2, c3);
    var s, t := ZeroStride(c0), CombineThree(c1, c2, c3);
    XorAssociates(t, w, s);
    XorCommutes(Xor(t, w), s);
    XorAssociates(s, t, w);
  }

  // ----------------------------------------------------------------- algorithm

  function RoundUp(n: nat, address: nat): nat
    requires n > 0
  {
    (address + (n - 1)) / n * n
  }

  method StrideStep(data: seq<bv8>, p: nat, c: bv32) returns (r: bv32)
    requires p + 4 <= |data|
    ensures r == Xor(ReadUint32LE(data, p), ZeroStride(c))
  {
    r := Xor(Xor(Xor(Xor(ReadUint32LE(data, p), StrideTable3(c & 0xff)), StrideTable2((c >> 8) & 0xff)),
                 StrideTable1((c >> 16) & 0xff)), StrideTable0(c >> 24));
    StrideByTables(c, ReadUint32LE(data, p));
  }

  method WordStep(l: bv32, word: bv32) returns (r: bv32)
    ensures r == ZeroWord(Xor(l, word))
  {
    hide ZeroByte, Xor;
    var w := Xor(word, l);
    XorCommutes(word, l);
    ghost var start := w;
    for i := 0 to 4
      invariant i == 0 ==> w == start
      invariant i == 1 ==> w == ZeroByte(start)
      invariant i == 2 ==> w == ZeroByte(ZeroByte(start))
      invariant i == 3 ==> w == ZeroByte(ZeroByte(ZeroByte(start)))
      invariant i == 4 ==> w == ZeroWord(start)
    {
      ZeroByteByTable(w);
      XorCommutes(ByteTable(w & 0xff), w >> 8);
      w := Xor(w >> 8, ByteTable(w & 0xff));
    }
    r := w;
  }

  method ByteStep(l: bv32, b: bv8) returns (r: bv32)
    ensures r == FeedByte(l, b)
  {
    hide ZeroByte, Xor;
    var c := Xor(l & 0xff, b as bv32);
    r := Xor(ByteTable(c), l >> 8);
    ZeroByteByTable(Xor(l, b as bv32));
    LowByteMixed(l, b);
  }

  lemma LowByteMixed(l: bv32, b: bv8)
    ensures Xor(l, b as bv32) & 0xff == Xor(l & 0xff, b as bv32)
    ensures Xor(l, b as bv32) >> 8 == l >> 8
  {
  }

  /** One 16-byte swath, a word for each stream. */
  method SwathStep(ghost start: bv32, data: seq<bv8>, p: nat, c0: bv32, c1: bv32, c2: bv32, c3: bv32)
    returns (r0: bv32, r1: bv32, r2: bv32, r3: bv32)
    requires p + 16 <= |data|
    requires Combine(c0, c1, c2, c3) == Feed(start, data[..p])
    ensures r0 == Xor(ReadUint32LE(data, p), ZeroStride(c0))
    ensures r1 == Xor(ReadUint32LE(data, p + 4), ZeroStride(c1))
    ensures r2 == Xor(ReadUint32LE(data, p + 8), ZeroStride(c2))
    ensures r3 == Xor(ReadUint32LE(data, p + 12), ZeroStride(c3))
    ensures Combine(r0, r1, r2, r3) == Feed(start, data[..p + 16])
  {
    hide ZeroWord, ZeroStride, Xor, Word, Combine;
    r0 := StrideStep(data, p, c0);
    r1 := StrideStep(data, p + 4, c1);
    r2 := StrideStep(data, p + 8, c2);
    r3 := StrideStep(data, p + 12, c3);
    AdvanceStreams(start, data, p, c0, c1, c2, c3);
    AdvanceStreams(start, data, p + 4, c1, c2, c3, r0);
    AdvanceStreams(start, data, p + 8, c2, c3, r0, r1);
    AdvanceStreams(start, data, p + 12, c3, r0, r1, r2);
  }

  /** data lies at the given address, which decides how many bytes precede the first stride. */
  method Extend(crc: bv32, data: seq<bv8>, address: nat) returns (r: bv32)
    ensures r == Crc(crc, data)
  {
    hide ZeroByte, ZeroWord, ZeroStride, Xor, Word, FeedByte;
    var p, e := 0, |data|;
    var l := Xor(crc, CRC_XOR);
    ghost var start := l;
    var x := RoundUp(4, address) - address;
    if x <= e {
      while p != x
        invariant 0 <= p <= x
        invariant l == Feed(start, data[..p])
      {
        FeedOne(start, data, p);
        l := ByteStep(l, data[p]);
        p := p + 1;
      }
    }
    if e - p >= 16 {
      var crc0 := Xor(ReadUint32LE(data, p), l);
      var crc1, crc2, crc3 := ReadUint32LE(data, p + 4), ReadUint32LE(data, p + 8), ReadUint32LE(data, p + 12);
      LoadStreams(start, data, p);
      XorCommutes(ReadUint32LE(data, p), l);
      p := p + 16;
      while e - p >= 16
        invariant 0 <= p <= e
        invariant Combine(crc0, crc1, crc2, crc3) == Feed(start, data[..p])
      {
        crc0, crc1, crc2, crc3 := SwathStep(start, data, p, crc0, crc1, crc2, crc3);
        p := p + 16;
      }
      while e - p >= 4
        invariant 0 <= p <= e
        invariant Combine(crc0, crc1, crc2, crc3) == Feed(start, data[..p])
      {
        AdvanceStreams(start, data, p, crc0, crc1, crc2, crc3);
        crc0 := StrideStep(data, p, crc0);
        var tmp := crc0;
        crc0 := crc1;
        crc1 := crc2;
        crc2 := crc3;
        crc3 := tmp;
        p := p + 4;
      }
      l := 0;
      XorZeroLeft(crc0);
      l := WordStep(l, crc0);
      l := WordStep(l, crc1);
      l := WordStep(l, crc2);
      l := WordStep(l, crc3);
    }
    while p != e
      invariant 0 <= p <= e
      invariant l == Feed(start, data[..p])
    {
      FeedOne(start, data, p);
      l := ByteStep(l, data[p]);
      p := p + 1;
    }
    assert data[..e] == data;
    r := Xor(l, CRC_XOR);
  }

  lemma XorZeroLeft(a: bv32)
    ensures Xor(0, a) == a
  {
  }

  lemma LoadStreams(start: bv32, data: seq<bv8>, p: nat)
    requires p + 16 <= |data|
    ensures Combine(Xor(Feed(start, data[..p]), ReadUint32LE(data, p)), ReadUint32LE(data, p + 4),
                    ReadUint32LE(data, p + 8), ReadUint32LE(data, p + 12)) == Feed(start, data[..p + 16])
  {
    hide ZeroWord, Xor, Word;
    FeedWordAt(start, data, p);
    FeedWordAt(start, data, p + 4);
    FeedWordAt(start, data, p + 8);
    FeedWordAt(start, data, p + 12);
  }

  lemma AdvanceStreams(start: bv32, data: seq<bv8>, p: nat, c0: bv32, c1: bv32, c2: bv32, c3: bv32)
    requires p + 4 <= |data|
    requires Combine(c0, c1, c2, c3) == Feed(start, data[..p])
    ensures Combine(c1, c2, c3, Xor(ReadUint32LE(data, p), ZeroStride(c0))) == Feed(start, data[..p + 4])
  {
    hide ZeroWord, ZeroStride, Xor, Word;
    RotateStreams(c0, c1, c2, c3, ReadUint32LE(data, p));
    FeedWordAt(start, data, p);
  }

  // ---------------------------------------------------------------- properties

  /** Extending by a and then by b is extending by a followed by b. */
  lemma ExtendComposes(crc: bv32, a: seq<bv8>, b: seq<bv8>)
    ensures Crc(Crc(crc, a), b) == Crc(crc, a + b)
  {
    hide Xor;
    var f := Feed(Xor(crc, CRC_XOR), a);
    XorCommutes(f, CRC_XOR);
    XorCancels(f, CRC_XOR);
    XorCommutes(Xor(f, CRC_XOR), CRC_XOR);
    FeedConcat(Xor(crc, CRC_XOR), a, b);
  }

  lemma {:induction false} FeedInjective(l: bv32, m: bv32, data: seq<bv8>)
    requires Feed(l, data) == Feed(m, data)
    ensures l == m
  {
    hide ZeroByte, Xor;
    if data != [] {
      var b := data[|data| - 1] as bv32;
      var l', m' := Feed(l, data[..|data| - 1]), Feed(m, data[..|data| - 1]);
      ZeroByteInjective(Xor(l', b), Xor(m', b));
      XorInjective(l', m', b);
      FeedInjective(l, m, data[..|data| - 1]);
    }
  }

  lemma XorInjective(l: bv32, m: bv32, b: bv32)
    requires Xor(l, b) == Xor(m, b)
    ensures l == m
  {
    hide Xor;
    XorCommutes(l, b);
    XorCommutes(m, b);
    XorCancels(l, b);
    XorCancels(m, b);
    XorCommutes(b, l);
    XorCommutes(b, m);
  }

  /** Damage confined to four consecutive bytes always changes the checksum. */
  lemma BurstDetected(crc: bv32, before: seq<bv8>, x: seq<bv8>, y: seq<bv8>, after: seq<bv8>)
    requires |x| == |y| <= 4 && x != y
    ensures Crc(crc, before + x + after) != Crc(crc, before + y + after)
  {
    hide Xor;
    var s := Feed(Xor(crc, CRC_XOR), before);
    var f, g := Feed(s, x), Feed(s, y);
    FeedConcat(Xor(crc, CRC_XOR), before, x);
    FeedConcat(Xor(crc, CRC_XOR), before, y);
    FeedConcat(Xor(crc, CRC_XOR), before + x, after);
    FeedConcat(Xor(crc, CRC_XOR), before + y, after);
    if Crc(crc, before + x + after) == Crc(crc, before + y + after) {
      XorInjective(Feed(f, after), Feed(g, after), CRC_XOR);
      FeedInjective(f, g, after);
      var zeros := seq(4 - |x|, i => 0);
      FeedConcat(s, x, zeros);
      FeedConcat(s, y, zeros);
      assert x == (x + zeros)[..|x|] && y == (y + zeros)[..|x|];
      FourBytesDiffer(s, x + zeros, y + zeros);
    }
  }

  lemma FourBytesDiffer(l: bv32, x: seq<bv8>, y: seq<bv8>)
    requires |x| == |y| == 4
    requires Feed(l, x) == Feed(l, y)
    ensures x == y
  {
    hide ZeroByte, Xor, Word;
    assert x[..4] == x && y[..4] == y;
    FeedWordAt(l, x, 0);
    FeedWordAt(l, y, 0);
    var u, v := ReadUint32LE(x, 0), ReadUint32LE(y, 0);
    assert ZeroWord(Xor(l, u)) == ZeroWord(Xor(l, v));
    var a, b := Xor(l, u), Xor(l, v);
    ZeroByteInjective(ZeroByte(ZeroByte(ZeroByte(a))), ZeroByte(ZeroByte(ZeroByte(b))));
    ZeroByteInjective(ZeroByte(ZeroByte(a)), ZeroByte(ZeroByte(b)));
    ZeroByteInjective(ZeroByte(a), ZeroByte(b));
    ZeroByteInjective(a, b);
    XorCommutes(l, u);
    XorCommutes(l, v);
    XorInjective(u, v, l);
    WordInjective(x[0], x[1], x[2], x[3], y[0], y[1], y[2], y[3]);
  }

  lemma WordInjective(x0: bv8, x1: bv8, x2: bv8, x3: bv8, y0: bv8, y1: bv8, y2: bv8, y3: bv8)
    requires Word(x0, x1, x2, x3) == Word(y0, y1, y2, y3)
    ensures x0 == y0 && x1 == y1 && x2 == y2 && x3 == y3
  {
  }

  // ------------------------------------------------------------------- masking

  function Rotate15Right(l: bv32): bv32 {
    (l >> 15) | (l << 17)
  }

  function Rotate15Left(l: bv32): bv32 {
    (l >> 17) | (l << 15)
  }

  /** A CRC as it is stored next to the data it covers. */
  function Mask(crc: bv32): bv32 {
    Rotate15Right(crc) + MASK_DELTA
  }

  function Unmask(masked: bv32): bv32 {
    Rotate15Left(masked - MASK_DELTA)
  }

  lemma RotationsCancel(l: bv32)
    ensures Rotate15Left(Rotate15Right(l)) == l
    ensures Rotate15Right(Rotate15Left(l)) == l
  {
  }

  lemma DeltaCancels(l: bv32, d: bv32)
    ensures l + d - d == l && l - d + d == l
  {
  }

  /** Masking is a bijection on 32-bit words, undone by unmasking. */
  lemma MaskRoundTrip(crc: bv32)
    ensures Unmask(Mask(crc)) == crc && Mask(Unmask(crc)) == crc
  {
    hide Rotate15Left, Rotate15Right;
    RotationsCancel(crc);
    RotationsCancel(crc - MASK_DELTA);
    DeltaCancels(Rotate15Right(crc), MASK_DELTA);
    DeltaCancels(crc, MASK_DELTA);
  }
}
