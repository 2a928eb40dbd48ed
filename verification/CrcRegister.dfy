/** The bit-serial CRC32C register of section 12.1 of RFC 3720 and its linear algebra over
    exclusive or. */
module CrcRegister {
  function Xor(a: bv32, b: bv32): bv32 {
    a ^ b
  }

  function Half(l: bv32): bv32 {
    l >> 1
  }

  predicate Odd(l: bv32) {
    l & 1 == 1
  }

  /** One step of the register; 0x82f63b78 is the Castagnoli polynomial, bit-reversed. */
  function BitStep(l: bv32): bv32 {
    if Odd(l) then Xor(Half(l), 0x82f63b78) else Half(l)
  }

  function TwoBits(l: bv32): bv32 {
    BitStep(BitStep(l))
  }

  function FourBits(l: bv32): bv32 {
    TwoBits(TwoBits(l))
  }

  /** Eight bit steps: the register after one zero byte. */
  function ZeroByte(l: bv32): bv32 {
    FourBits(FourBits(l))
  }

  /** The register after four zero bytes. */
  function ZeroWord(l: bv32): bv32 {
    ZeroByte(ZeroByte(ZeroByte(ZeroByte(l))))
  }

  /** The register after sixteen zero bytes: one stride. */
  function ZeroStride(l: bv32): bv32 {
    ZeroWord(ZeroWord(ZeroWord(ZeroWord(l))))
  }

  // Linearity, level by level.

  lemma BitStepLinear(a: bv32, b: bv32)
    ensures BitStep(Xor(a, b)) == Xor(BitStep(a), BitStep(b))
  {
    hide Xor, Odd, Half;
    XorHalves(a, b);
    XorParity(a, b);
    var x, y, p: bv32 := Half(a), Half(b), 0x82f63b78;
    XorAssociates(x, y, p);
    XorAssociates(x, p, y);
    XorAssociates(x, p, Xor(y, p));
    XorCommutes(y, p);
    XorCancels(y, p);
  }

  lemma XorHalves(a: bv32, b: bv32)
    ensures Half(Xor(a, b)) == Xor(Half(a), Half(b))
  {
  }

  lemma XorParity(a: bv32, b: bv32)
    ensures Odd(Xor(a, b)) == (Odd(a) != Odd(b))
  {
    assert (a ^ b) & 1 == (a & 1) ^ (b & 1);
    assert a & 1 == 0 || a & 1 == 1;
    assert b & 1 == 0 || b & 1 == 1;
  }

  lemma XorAssociates(a: bv32, b: bv32, c: bv32)
    ensures Xor(Xor(a, b), c) == Xor(a, Xor(b, c))
  {
    assert (a ^ b) ^ c == a ^ (b ^ c);
  }

  lemma XorCommutes(a: bv32, b: bv32)
    ensures Xor(a, b) == Xor(b, a)
  {
  }

  lemma XorCancels(a: bv32, b: bv32)
    ensures Xor(b, Xor(a, b)) == a
  {
    assert b ^ (a ^ b) == a;
  }

  lemma FourBitsLinear(a: bv32, b: bv32)
    ensures FourBits(Xor(a, b)) == Xor(FourBits(a), FourBits(b))
  {
    hide BitStep, Xor;
    BitStepLinear(a, b);
    BitStepLinear(BitStep(a), BitStep(b));
    BitStepLinear(TwoBits(a), TwoBits(b));
    BitStepLinear(BitStep(TwoBits(a)), BitStep(TwoBits(b)));
  }

  lemma ZeroByteLinear(a: bv32, b: bv32)
    ensures ZeroByte(Xor(a, b)) == Xor(ZeroByte(a), ZeroByte(b))
  {
    hide FourBits, Xor;
    FourBitsLinear(a, b);
    FourBitsLinear(FourBits(a), FourBits(b));
  }

  lemma ZeroWordLinear(a: bv32, b: bv32)
    ensures ZeroWord(Xor(a, b)) == Xor(ZeroWord(a), ZeroWord(b))
  {
    hide ZeroByte, Xor;
    ZeroByteLinear(a, b);
    var a1, b1 := ZeroByte(a), ZeroByte(b);
    ZeroByteLinear(a1, b1);
    ZeroByteLinear(ZeroByte(a1), ZeroByte(b1));
    ZeroByteLinear(ZeroByte(ZeroByte(a1)), ZeroByte(ZeroByte(b1)));
  }

  lemma ZeroStrideLinear(a: bv32, b: bv32)
    ensures ZeroStride(Xor(a, b)) == Xor(ZeroStride(a), ZeroStride(b))
  {
    hide ZeroWord, Xor;
    ZeroWordLinear(a, b);
    var a1, b1 := ZeroWord(a), ZeroWord(b);
    ZeroWordLinear(a1, b1);
    ZeroWordLinear(ZeroWord(a1), ZeroWord(b1));
    ZeroWordLinear(ZeroWord(ZeroWord(a1)), ZeroWord(ZeroWord(b1)));
  }

  // A register whose low bits are clear is only shifted.

  lemma TwoBitsShift(l: bv32)
    requires l & 3 == 0
    ensures TwoBits(l) == l >> 2
  {
    assert l & 1 == 0 && (l >> 1) & 1 == 0 && (l >> 1) >> 1 == l >> 2;
    assert BitStep(l) == l >> 1;
  }

  lemma FourBitsShift(l: bv32)
    requires l & 15 == 0
    ensures FourBits(l) == l >> 4
  {
    hide TwoBits;
    assert l & 3 == 0 && (l >> 2) & 3 == 0 && (l >> 2) >> 2 == l >> 4;
    TwoBitsShift(l);
    TwoBitsShift(l >> 2);
  }

  lemma ZeroByteShifts(l: bv32)
    requires l & 0xff == 0
    ensures ZeroByte(l) == l >> 8
  {
    hide FourBits;
    assert l & 15 == 0 && (l >> 4) & 15 == 0 && (l >> 4) >> 4 == l >> 8;
    FourBitsShift(l);
    FourBitsShift(l >> 4);
  }

  /** The register's low byte alone decides what is mixed in: the table-driven step. */
  lemma ZeroByteByTable(l: bv32)
    ensures ZeroByte(l) == Xor(ZeroByte(l & 0xff), l >> 8)
  {
    hide ZeroByte, Xor;
    SplitLowByte(l);
    ZeroByteLinear(l & 0xff, (l >> 8) << 8);
    ZeroByteShifts((l >> 8) << 8);
    assert ((l >> 8) << 8) >> 8 == l >> 8;
  }

  lemma SplitLowByte(l: bv32)
    ensures l == Xor(l & 0xff, (l >> 8) << 8)
  {
  }

  // No information is lost: the top bit of the polynomial tells which branch was taken.

  lemma BitStepInjective(a: bv32, b: bv32)
    requires BitStep(a) == BitStep(b)
    ensures a == b
  {
    assert (a >> 1) & 0x80000000 == 0 && (b >> 1) & 0x80000000 == 0;
    assert a == ((a >> 1) << 1) ^ (a & 1) && b == ((b >> 1) << 1) ^ (b & 1);
    assert a & 1 == 0 || a & 1 == 1;
    assert b & 1 == 0 || b & 1 == 1;
  }

  lemma ZeroByteInjective(a: bv32, b: bv32)
    requires ZeroByte(a) == ZeroByte(b)
    ensures a == b
  {
    hide BitStep;
    FourBitsInjective(FourBits(a), FourBits(b));
    FourBitsInjective(a, b);
  }

  lemma FourBitsInjective(a: bv32, b: bv32)
    requires FourBits(a) == FourBits(b)
    ensures a == b
  {
    hide BitStep;
    BitStepInjective(BitStep(TwoBits(a)), BitStep(TwoBits(b)));
    BitStepInjective(TwoBits(a), TwoBits(b));
    BitStepInjective(BitStep(a), BitStep(b));
    BitStepInjective(a, b);
  }
}
