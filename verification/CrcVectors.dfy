/** Known values: the vectors of section B.4 of RFC 3720, which the tests check too, entries of the
    tables, and masked values. They fix the polynomial, the order of bits and bytes, and every
    constant. */
module CrcVectors {
  import opened CrcRegister
  import opened Crc32c

  function FeedEight(l: bv32, b0: bv8, b1: bv8, b2: bv8, b3: bv8, b4: bv8, b5: bv8, b6: bv8, b7: bv8): bv32 {
    FeedByte(FeedByte(FeedByte(FeedByte(FeedByte(FeedByte(FeedByte(FeedByte(l, b0), b1), b2), b3), b4), b5), b6), b7)
  }

  lemma NextEight(l: bv32, data: seq<bv8>, p: nat)
    requires p + 8 <= |data|
    ensures Feed(l, data[..p + 8]) == FeedEight(Feed(l, data[..p]), data[p], data[p + 1], data[p + 2], data[p + 3],
                                                data[p + 4], data[p + 5], data[p + 6], data[p + 7])
  {
    hide FeedByte, Feed;
    FeedOne(l, data, p);
    FeedOne(l, data, p + 1);
    FeedOne(l, data, p + 2);
    FeedOne(l, data, p + 3);
    FeedOne(l, data, p + 4);
    FeedOne(l, data, p + 5);
    FeedOne(l, data, p + 6);
    FeedOne(l, data, p + 7);
  }

  lemma EightMore(l: bv32, data: seq<bv8>, b0: bv8, b1: bv8, b2: bv8, b3: bv8, b4: bv8, b5: bv8, b6: bv8, b7: bv8)
    ensures Feed(l, data + [b0, b1, b2, b3, b4, b5, b6, b7]) == FeedEight(Feed(l, data), b0, b1, b2, b3, b4, b5, b6, b7)
  {
    hide FeedEight, Feed;
    var all := data + [b0, b1, b2, b3, b4, b5, b6, b7];
    assert all[..|data|] == data && all[..|data| + 8] == all;
    NextEight(l, all, |data|);
  }

  lemma ZeroBytesAt0()
    ensures FeedEight(0xffffffff, 0, 0, 0, 0, 0, 0, 0, 0) == 0x73d74d75
  {
    assert FeedByte(0xffffffff, 0) == 0xad82acae && FeedByte(0xad82acae, 0) == 0x0e9e882d;
    assert FeedByte(0x0e9e882d, 0) == 0x9f9b5c85 && FeedByte(0x9f9b5c85, 0) == 0xb798b438;
    assert FeedByte(0xb798b438, 0) == 0xba8d89ca && FeedByte(0xba8d89ca, 0) == 0xa8d58375;
    assert FeedByte(0xa8d58375, 0) == 0x44c19592 && FeedByte(0x44c19592, 0) == 0x73d74d75;
    hide FeedByte;
  }

  lemma ZeroBytesAt8()
    ensures FeedEight(0x73d74d75, 0, 0, 0, 0, 0, 0, 0, 0) == 0xbd8f6515
  {
    assert FeedByte(0x73d74d75, 0) == 0x441a975c && FeedByte(0x441a975c, 0) == 0x1c220f94;
    assert FeedByte(0x1c220f94, 0) == 0x552e4907 && FeedByte(0x552e4907, 0) == 0xd49f4aa2;
    assert FeedByte(0xd49f4aa2, 0) == 0x43a45a1b && FeedByte(0x43a45a1b, 0) == 0x8994c80e;
    assert FeedByte(0x8994c80e, 0) == 0xacf12bef && FeedByte(0xacf12bef, 0) == 0xbd8f6515;
    hide FeedByte;
  }

  lemma ZeroBytesAt16()
    ensures FeedEight(0xbd8f6515, 0, 0, 0, 0, 0, 0, 0, 0) == 0x7b041311
  {
    assert FeedByte(0xbd8f6515, 0) == 0x25125c16 && FeedByte(0x25125c16, 0) == 0x36da32db;
    assert FeedByte(0x36da32db, 0) == 0x4a6c90a2 && FeedByte(0x4a6c90a2, 0) == 0x433aa9c1;
    assert FeedByte(0x433aa9c1, 0) == 0x31a59f6e && FeedByte(0x31a59f6e, 0) == 0xcd8f89da;
    assert FeedByte(0xcd8f89da, 0) == 0xb8fc461a && FeedByte(0xb8fc461a, 0) == 0x7b041311;
    hide FeedByte;
  }

  lemma ZeroBytesAt24()
    ensures FeedEight(0x7b041311, 0, 0, 0, 0, 0, 0, 0, 0) == 0x756ec955
  {
    assert FeedByte(0x7b041311, 0) == 0xe24e407f && FeedByte(0xe24e407f, 0) == 0x2f692669;
    assert FeedByte(0x2f692669, 0) == 0x195b2188 && FeedByte(0x195b2188, 0) == 0x08363896;
    assert FeedByte(0x08363896, 0) == 0xb4012dc7 && FeedByte(0xb4012dc7, 0) == 0x17f34302;
    assert FeedByte(0x17f34302, 0) == 0xe12c83b4 && FeedByte(0xe12c83b4, 0) == 0x756ec955;
    hide FeedByte;
  }

  /** 32 bytes of zero. */
  lemma ZeroBytes()
    ensures Crc(0, seq(32, i => 0)) == 0x8a9136aa
  {
    hide FeedEight, FeedByte;
    var start: bv32, data: seq<bv8> := 0xffffffff, seq(32, i => 0);
    assert data[..0] == [] && data[..32] == data;
    ZeroBytesAt0();
    NextEight(start, data, 0);
    ZeroBytesAt8();
    NextEight(start, data, 8);
    ZeroBytesAt16();
    NextEight(start, data, 16);
    ZeroBytesAt24();
    NextEight(start, data, 24);
    assert Xor(0, CRC_XOR) == 0xffffffff && Xor(0x756ec955, CRC_XOR) == 0x8a9136aa;
  }

  lemma OneBytesAt0()
    ensures FeedEight(0xffffffff, 255, 255, 255, 255, 255, 255, 255, 255) == 0xb798b438
  {
    assert FeedByte(0xffffffff, 255) == 0x00ffffff && FeedByte(0x00ffffff, 255) == 0x0000ffff;
    assert FeedByte(0x0000ffff, 255) == 0x000000ff && FeedByte(0x000000ff, 255) == 0x00000000;
    assert FeedByte(0x00000000, 255) == 0xad7d5351 && FeedByte(0xad7d5351, 255) == 0x0e9e77d2;
    assert FeedByte(0x0e9e77d2, 255) == 0x9f9b5c7a && FeedByte(0x9f9b5c7a, 255) == 0xb798b438;
    hide FeedByte;
  }

  lemma OneBytesAt8()
    ensures FeedEight(0xb798b438, 255, 255, 255, 255, 255, 255, 255, 255) == 0x10d0b3ef
  {
    assert FeedByte(0xb798b438, 255) == 0x17f0da9b && FeedByte(0x17f0da9b, 255) == 0xa64bf4a7;
    assert FeedByte(0xa64bf4a7, 255) == 0xdb5ac9e8 && FeedByte(0xdb5ac9e8, 255) == 0xc44ff94d;
    assert FeedByte(0xc44ff94d, 255) == 0x53ea4dc7 && FeedByte(0x53ea4dc7, 255) == 0xba69fb33;
    assert FeedByte(0xba69fb33, 255) == 0x8e7480ef && FeedByte(0x8e7480ef, 255) == 0x10d0b3ef;
    hide FeedByte;
  }

  lemma OneBytesAt16()
    ensures FeedEight(0x10d0b3ef, 255, 255, 255, 255, 255, 255, 255, 255) == 0xee657f3b
  {
    assert FeedByte(0x10d0b3ef, 255) == 0x104e17dc && FeedByte(0x104e17dc, 255) == 0x33fd333d;
    assert FeedByte(0x33fd333d, 255) == 0x2285ab00 && FeedByte(0x2285ab00, 255) == 0xad5fd6fa;
    assert FeedByte(0xad5fd6fa, 255) == 0x355c4bca && FeedByte(0x355c4bca, 255) == 0x052701e6;
    assert FeedByte(0x052701e6, 255) == 0x68e93ba2 && FeedByte(0x68e93ba2, 255) == 0xee657f3b;
    hide FeedByte;
  }

  lemma OneBytesAt24()
    ensures FeedEight(0xee657f3b, 255, 255, 255, 255, 255, 255, 255, 255) == 0x9d5754bc
  {
    assert FeedByte(0xee657f3b, 255) == 0x04f9d4a4 && FeedByte(0x04f9d4a4, 255) == 0xc8a8883c;
    assert FeedByte(0xc8a8883c, 255) == 0xd0157db8 && FeedByte(0xd0157db8, 255) == 0x95616c2a;
    assert FeedByte(0x95616c2a, 255) == 0xe6b794db && FeedByte(0xe6b794db, 255) == 0xe7c1ae55;
    assert FeedByte(0xe7c1ae55, 255) == 0xc94e5c30 && FeedByte(0xc94e5c30, 255) == 0x9d5754bc;
    hide FeedByte;
  }

  /** 32 bytes of ones. */
  lemma OneBytes()
    ensures Crc(0, seq(32, i => 0xff)) == 0x62a8ab43
  {
    hide FeedEight, FeedByte;
    var start: bv32, data: seq<bv8> := 0xffffffff, seq(32, i => 0xff);
    assert data[..0] == [] && data[..32] == data;
    OneBytesAt0();
    NextEight(start, data, 0);
    OneBytesAt8();
    NextEight(start, data, 8);
    OneBytesAt16();
    NextEight(start, data, 16);
    OneBytesAt24();
    NextEight(start, data, 24);
    assert Xor(0, CRC_XOR) == 0xffffffff && Xor(0x9d5754bc, CRC_XOR) == 0x62a8ab43;
  }

  lemma CountingUpAt0()
    ensures FeedEight(0xffffffff, 0, 1, 2, 3, 4, 5, 6, 7) == 0x75d343c4
  {
    assert FeedByte(0xffffffff, 0) == 0xad82acae && FeedByte(0xad82acae, 1) == 0xfcf50b2e;
    assert FeedByte(0xfcf50b2e, 2) == 0x6d02b405 && FeedByte(0x6d02b405, 3) == 0x26cce55c;
    assert FeedByte(0x26cce55c, 4) == 0xdbda4ef9 && FeedByte(0xdbda4ef9, 5) == 0xbef67aeb;
    assert FeedByte(0xbef67aeb, 6) == 0x5ca612b3 && FeedByte(0x5ca612b3, 7) == 0x75d343c4;
    hide FeedByte;
  }

  lemma CountingUpAt8()
    ensures FeedEight(0x75d343c4, 8, 9, 10, 11, 12, 13, 14, 15) == 0x2636f714
  {
    assert FeedByte(0x75d343c4, 8) == 0x8ebb3a57 && FeedByte(0x8ebb3a57, 9) == 0xfdd3dece;
    assert FeedByte(0xfdd3dece, 10) == 0x04ea6205 && FeedByte(0x04ea6205, 11) == 0xac7c5545;
    assert FeedByte(0xac7c5545, 12) == 0x3965ba25 && FeedByte(0x3965ba25, 13) == 0xaa5db3ab;
    assert FeedByte(0xaa5db3ab, 14) == 0x9710fc09 && FeedByte(0x9710fc09, 15) == 0x2636f714;
    hide FeedByte;
  }

  lemma CountingUpAt16()
    ensures FeedEight(0x2636f714, 16, 17, 18, 19, 20, 21, 22, 23) == 0xd643786a
  {
    assert FeedByte(0x2636f714, 16) == 0xc7bca1e8 && FeedByte(0xc7bca1e8, 17) == 0x8b1b0818;
    assert FeedByte(0x8b1b0818, 18) == 0x6b693330 && FeedByte(0x6b693330, 19) == 0x33861419;
    assert FeedByte(0x33861419, 20) == 0xbf1bcac7 && FeedByte(0xbf1bcac7, 21) == 0x32578a96;
    assert FeedByte(0x32578a96, 22) == 0x82c46cf2 && FeedByte(0x82c46cf2, 23) == 0xd643786a;
    hide FeedByte;
  }

  lemma CountingUpAt24()
    ensures FeedEight(0xd643786a, 24, 25, 26, 27, 28, 29, 30, 31) == 0xb92286b1
  {
    assert FeedByte(0xd643786a, 24) == 0x90756782 && FeedByte(0x90756782, 25) == 0x0bb1224b;
    assert FeedByte(0x0bb1224b, 26) == 0xa345e8f2 && FeedByte(0xa345e8f2, 27) == 0x9b21363e;
    assert FeedByte(0x9b21363e, 28) == 0xc11ddf1f && FeedByte(0xc11ddf1f, 29) == 0xe1fa6d28;
    assert FeedByte(0xe1fa6d28, 30) == 0x16a35434 && FeedByte(0x16a35434, 31) == 0xb92286b1;
    hide FeedByte;
  }

  /** 32 bytes counting up. */
  lemma CountingUp()
    ensures Crc(0, [0, 1, 2, 3, 4, 5, 6, 7] + [8, 9, 10, 11, 12, 13, 14, 15]
                   + [16, 17, 18, 19, 20, 21, 22, 23] + [24, 25, 26, 27, 28, 29, 30, 31]) == 0x46dd794e
  {
    hide FeedEight, FeedByte;
    var start: bv32 := 0xffffffff;
    CountingUpAt0();
    EightMore(start, [], 0, 1, 2, 3, 4, 5, 6, 7);
    var d0: seq<bv8> := [0, 1, 2, 3, 4, 5, 6, 7];
    assert [] + d0 == d0;
    CountingUpAt8();
    EightMore(start, d0, 8, 9, 10, 11, 12, 13, 14, 15);
    var d1: seq<bv8> := d0 + [8, 9, 10, 11, 12, 13, 14, 15];
    CountingUpAt16();
    EightMore(start, d1, 16, 17, 18, 19, 20, 21, 22, 23);
    var d2: seq<bv8> := d1 + [16, 17, 18, 19, 20, 21, 22, 23];
    CountingUpAt24();
    EightMore(start, d2, 24, 25, 26, 27, 28, 29, 30, 31);
    var d3: seq<bv8> := d2 + [24, 25, 26, 27, 28, 29, 30, 31];
    assert Xor(0, CRC_XOR) == 0xffffffff && Xor(0xb92286b1, CRC_XOR) == 0x46dd794e;
  }

  lemma CountingDownAt0()
    ensures FeedEight(0xffffffff, 31, 30, 29, 28, 27, 26, 25, 24) == 0xeef60158
  {
    assert FeedByte(0xffffffff, 31) == 0xe3cf57e5 && FeedByte(0xe3cf57e5, 30) == 0x6a040b19;
    assert FeedByte(0x6a040b19, 29) == 0xc7f09314 && FeedByte(0xc7f09314, 28) == 0x8a1ea85c;
    assert FeedByte(0x8a1ea85c, 27) == 0x953b67ff && FeedByte(0x953b67ff, 26) == 0xd6548761;
    assert FeedByte(0xd6548761, 25) == 0xfb975845 && FeedByte(0xfb975845, 24) == 0xeef60158;
    hide FeedByte;
  }

  lemma CountingDownAt8()
    ensures FeedEight(0xeef60158, 23, 22, 21, 20, 19, 18, 17, 16) == 0x7016b70c
  {
    assert FeedByte(0xeef60158, 23) == 0x1f86d799 && FeedByte(0x1f86d799, 22) == 0xdcfa818b;
    assert FeedByte(0xdcfa818b, 21) == 0x3e0cb9b1 && FeedByte(0x3e0cb9b1, 20) == 0x9784ad03;
    assert FeedByte(0x9784ad03, 19) == 0x10c943c2 && FeedByte(0x10c943c2, 18) == 0xd3c328e8;
    assert FeedByte(0xd3c328e8, 17) == 0x8b0f7791 && FeedByte(0x8b0f7791, 16) == 0x7016b70c;
    hide FeedByte;
  }

  lemma CountingDownAt16()
    ensures FeedEight(0x7016b70c, 15, 14, 13, 12, 11, 10, 9, 8) == 0x5c7c4cfa
  {
    assert FeedByte(0x7016b70c, 15) == 0x1320e543 && FeedByte(0x1320e543, 14) == 0xfe40718a;
    assert FeedByte(0xfe40718a, 13) == 0x56c21fe2 && FeedByte(0x56c21fe2, 12) == 0x4f1ed522;
    assert FeedByte(0x4f1ed522, 11) == 0x58404bc7 && FeedByte(0x58404bc7, 10) == 0x7cfd2a5c;
    assert FeedByte(0x7cfd2a5c, 9) == 0x64a833e5 && FeedByte(0x64a833e5, 8) == 0x5c7c4cfa;
    hide FeedByte;
  }

  lemma CountingDownAt24()
    ensures FeedEight(0x5c7c4cfa, 7, 6, 5, 4, 3, 2, 1, 0) == 0xeec024a3
  {
    assert FeedByte(0x5c7c4cfa, 7) == 0x4c1a5fea && FeedByte(0x4c1a5fea, 6) == 0xae3f7d95;
    assert FeedByte(0xae3f7d95, 5) == 0x9206c36a && FeedByte(0x9206c36a, 4) == 0xcd2c2a86;
    assert FeedByte(0xcd2c2a86, 3) == 0xb7ca034e && FeedByte(0xb7ca034e, 2) == 0x0c8f186f;
    assert FeedByte(0x0c8f186f, 1) == 0xcdb2a35d && FeedByte(0xcdb2a35d, 0) == 0xeec024a3;
    hide FeedByte;
  }

  /** 32 bytes counting down. */
  lemma CountingDown()
    ensures Crc(0, [31, 30, 29, 28, 27, 26, 25, 24] + [23, 22, 21, 20, 19, 18, 17, 16]
                   + [15, 14, 13, 12, 11, 10, 9, 8] + [7, 6, 5, 4, 3, 2, 1, 0]) == 0x113fdb5c
  {
    hide FeedEight, FeedByte;
    var start: bv32 := 0xffffffff;
    CountingDownAt0();
    EightMore(start, [], 31, 30, 29, 28, 27, 26, 25, 24);
    var d0: seq<bv8> := [31, 30, 29, 28, 27, 26, 25, 24];
    assert [] + d0 == d0;
    CountingDownAt8();
    EightMore(start, d0, 23, 22, 21, 20, 19, 18, 17, 16);
    var d1: seq<bv8> := d0 + [23, 22, 21, 20, 19, 18, 17, 16];
    CountingDownAt16();
    EightMore(start, d1, 15, 14, 13, 12, 11, 10, 9, 8);
    var d2: seq<bv8> := d1 + [15, 14, 13, 12, 11, 10, 9, 8];
    CountingDownAt24();
    EightMore(start, d2, 7, 6, 5, 4, 3, 2, 1, 0);
    var d3: seq<bv8> := d2 + [7, 6, 5, 4, 3, 2, 1, 0];
    assert Xor(0, CRC_XOR) == 0xffffffff && Xor(0xeec024a3, CRC_XOR) == 0x113fdb5c;
  }

  lemma ReadCommandAt0()
    ensures FeedEight(0xffffffff, 1, 192, 0, 0, 0, 0, 0, 0) == 0xb53239dc
  {
    assert FeedByte(0xffffffff, 1) == 0x5fe92fad && FeedByte(0x5fe92fad, 192) == 0xdeb1369e;
    assert FeedByte(0xdeb1369e, 0) == 0x3e0ef206 && FeedByte(0x3e0ef206, 0) == 0x269fe91a;
    assert FeedByte(0x269fe91a, 0) == 0x7b9a70be && FeedByte(0x7b9a70be, 0) == 0x1e16579e;
    assert FeedByte(0x1e16579e, 0) == 0x3ece5567 && FeedByte(0x3ece5567, 0) == 0xb53239dc;
    hide FeedByte;
  }

  lemma ReadCommandAt8()
    ensures FeedEight(0xb53239dc, 0, 0, 0, 0, 0, 0, 0, 0) == 0xf2772c61
  {
    assert FeedByte(0xb53239dc, 0) == 0x9e251c42 && FeedByte(0x9e251c42, 0) == 0xa0de4857;
    assert FeedByte(0xa0de4857, 0) == 0x854f6070 && FeedByte(0x854f6070, 0) == 0x711d1b6d;
    assert FeedByte(0x711d1b6d, 0) == 0xde9fc2aa && FeedByte(0xde9fc2aa, 0) == 0xc977025c;
    assert FeedByte(0xc977025c, 0) == 0x1caf6201 && FeedByte(0x1caf6201, 0) == 0xf2772c61;
    hide FeedByte;
  }

  lemma ReadCommandAt16()
    ensures FeedEight(0xf2772c61, 20, 0, 0, 0, 0, 0, 4, 0) == 0x13a5b76d
  {
    assert FeedByte(0xf2772c61, 20) == 0x449b373d && FeedByte(0x449b373d, 0) == 0x8f8f9e55;
    assert FeedByte(0x8f8f9e55, 0) == 0x645b4151 && FeedByte(0x645b4151, 0) == 0xa32a0291;
    assert FeedByte(0xa32a0291, 0) == 0x60605516 && FeedByte(0x60605516, 0) == 0x369f40d2;
    assert FeedByte(0x369f40d2, 4) == 0xf5449903 && FeedByte(0xf5449903, 0) == 0x13a5b76d;
    hide FeedByte;
  }

  lemma ReadCommandAt24()
    ensures FeedEight(0x13a5b76d, 0, 0, 0, 20, 0, 0, 0, 24) == 0x8259fe8c
  {
    assert FeedByte(0x13a5b76d, 0) == 0xdefd7a06 && FeedByte(0xdefd7a06, 0) == 0x267f1a92;
    assert FeedByte(0x267f1a92, 0) == 0x73b5f3fa && FeedByte(0x73b5f3fa, 20) == 0x4f3ba2ce;
    assert FeedByte(0x4f3ba2ce, 0) == 0x6fbaa241 && FeedByte(0x6fbaa241, 0) == 0xb37f241d;
    assert FeedByte(0xb37f241d, 0) == 0xafc5f498 && FeedByte(0xafc5f498, 24) == 0x8259fe8c;
    hide FeedByte;
  }

  lemma ReadCommandAt32()
    ensures FeedEight(0x8259fe8c, 40, 0, 0, 0, 0, 0, 0, 0) == 0x52b072c0
  {
    assert FeedByte(0x8259fe8c, 40) == 0x65537b47 && FeedByte(0x65537b47, 0) == 0x95d42a2c;
    assert FeedByte(0x95d42a2c, 0) == 0x6d6b9524 && FeedByte(0x6d6b9524, 0) == 0xe74a7254;
    assert FeedByte(0xe74a7254, 0) == 0x965807be && FeedByte(0x965807be, 0) == 0x1efb95e9;
    assert FeedByte(0x1efb95e9, 0) == 0x9b9c8843 && FeedByte(0x9b9c8843, 0) == 0x52b072c0;
    hide FeedByte;
  }

  lemma ReadCommandAt40()
    ensures FeedEight(0x52b072c0, 2, 0, 0, 0, 0, 0, 0, 0) == 0x2669c5a9
  {
    assert FeedByte(0x52b072c0, 2) == 0x22e4e641 && FeedByte(0x22e4e641, 0) == 0xb3327a59;
    assert FeedByte(0xb3327a59, 0) == 0x29243365 && FeedByte(0x29243365, 0) == 0x541ea34d;
    assert FeedByte(0x541ea34d, 0) == 0xfe074fcc && FeedByte(0xfe074fcc, 0) == 0x8e30ee5b;
    assert FeedByte(0x8e30ee5b, 0) == 0xc8224106 && FeedByte(0xc8224106, 0) == 0x2669c5a9;
    hide FeedByte;
  }

  /** An iSCSI read command. */
  lemma ReadCommand()
    ensures Crc(0, [1, 192, 0, 0, 0, 0, 0, 0] + [0, 0, 0, 0, 0, 0, 0, 0] + [20, 0, 0, 0, 0, 0, 4, 0]
                   + [0, 0, 0, 20, 0, 0, 0, 24] + [40, 0, 0, 0, 0, 0, 0, 0] + [2, 0, 0, 0, 0, 0, 0, 0]) == 0xd9963a56
  {
    hide FeedEight, FeedByte;
    var start: bv32 := 0xffffffff;
    ReadCommandAt0();
    EightMore(start, [], 1, 192, 0, 0, 0, 0, 0, 0);
    var d0: seq<bv8> := [1, 192, 0, 0, 0, 0, 0, 0];
    assert [] + d0 == d0;
    ReadCommandAt8();
    EightMore(start, d0, 0, 0, 0, 0, 0, 0, 0, 0);
    var d1: seq<bv8> := d0 + [0, 0, 0, 0, 0, 0, 0, 0];
    ReadCommandAt16();
    EightMore(start, d1, 20, 0, 0, 0, 0, 0, 4, 0);
    var d2: seq<bv8> := d1 + [20, 0, 0, 0, 0, 0, 4, 0];
    ReadCommandAt24();
    EightMore(start, d2, 0, 0, 0, 20, 0, 0, 0, 24);
    var d3: seq<bv8> := d2 + [0, 0, 0, 20, 0, 0, 0, 24];
    ReadCommandAt32();
    EightMore(start, d3, 40, 0, 0, 0, 0, 0, 0, 0);
    var d4: seq<bv8> := d3 + [40, 0, 0, 0, 0, 0, 0, 0];
    ReadCommandAt40();
    EightMore(start, d4, 2, 0, 0, 0, 0, 0, 0, 0);
    var d5: seq<bv8> := d4 + [2, 0, 0, 0, 0, 0, 0, 0];
    assert Xor(0, CRC_XOR) == 0xffffffff && Xor(0x2669c5a9, CRC_XOR) == 0xd9963a56;
  }

  /** The entries for one bit of the byte table; the others are exclusive ors of these. */
  lemma ByteTableValues()
    ensures ByteTable(1) == 0xf26b8303
    ensures ByteTable(2) == 0xe13b70f7
    ensures ByteTable(4) == 0xc79a971f
    ensures ByteTable(8) == 0x8ad958cf
    ensures ByteTable(16) == 0x105ec76f
    ensures ByteTable(32) == 0x20bd8ede
    ensures ByteTable(64) == 0x417b1dbc
    ensures ByteTable(128) == 0x82f63b78
  {
  }

  lemma StrideTable0Value()
    ensures StrideTable0(1) == 0x30d23865
  {
    assert ZeroByte(0x01000000) == 0x00010000 && ZeroByte(0x00010000) == 0x00000100;
    assert ZeroByte(0x00000100) == 0x00000001 && ZeroByte(0x00000001) == 0xf26b8303;
    assert ZeroByte(0xf26b8303) == 0x13a29877 && ZeroByte(0x13a29877) == 0xa541927e;
    assert ZeroByte(0xa541927e) == 0xdd45aab8 && ZeroByte(0xdd45aab8) == 0x38116fac;
    assert ZeroByte(0x38116fac) == 0xef306b19 && ZeroByte(0xef306b19) == 0x68032cc8;
    assert ZeroByte(0x68032cc8) == 0x493c7d27 && ZeroByte(0x493c7d27) == 0xf43ed648;
    assert ZeroByte(0xf43ed648) == 0xcb567ba5 && ZeroByte(0xcb567ba5) == 0x9771f7c1;
    assert ZeroByte(0x9771f7c1) == 0x3171d430 && ZeroByte(0x3171d430) == 0x30d23865;
    hide ZeroByte;
    assert ZeroWord(0x01000000) == 0xf26b8303 && ZeroWord(0xf26b8303) == 0x38116fac;
  }

  lemma StrideTable1Value()
    ensures StrideTable1(1) == 0x54075546
  {
    assert ZeroByte(0x00010000) == 0x00000100 && ZeroByte(0x00000100) == 0x00000001;
    assert ZeroByte(0x00000001) == 0xf26b8303 && ZeroByte(0xf26b8303) == 0x13a29877;
    assert ZeroByte(0x13a29877) == 0xa541927e && ZeroByte(0xa541927e) == 0xdd45aab8;
    assert ZeroByte(0xdd45aab8) == 0x38116fac && ZeroByte(0x38116fac) == 0xef306b19;
    assert ZeroByte(0xef306b19) == 0x68032cc8 && ZeroByte(0x68032cc8) == 0x493c7d27;
    assert ZeroByte(0x493c7d27) == 0xf43ed648 && ZeroByte(0xf43ed648) == 0xcb567ba5;
    assert ZeroByte(0xcb567ba5) == 0x9771f7c1 && ZeroByte(0x9771f7c1) == 0x3171d430;
    assert ZeroByte(0x3171d430) == 0x30d23865 && ZeroByte(0x30d23865) == 0x54075546;
    hide ZeroByte;
    assert ZeroWord(0x00010000) == 0x13a29877 && ZeroWord(0x13a29877) == 0xef306b19;
  }

  lemma StrideTable2Value()
    ensures StrideTable2(1) == 0x678efd01
  {
    assert ZeroByte(0x00000100) == 0x00000001 && ZeroByte(0x00000001) == 0xf26b8303;
    assert ZeroByte(0xf26b8303) == 0x13a29877 && ZeroByte(0x13a29877) == 0xa541927e;
    assert ZeroByte(0xa541927e) == 0xdd45aab8 && ZeroByte(0xdd45aab8) == 0x38116fac;
    assert ZeroByte(0x38116fac) == 0xef306b19 && ZeroByte(0xef306b19) == 0x68032cc8;
    assert ZeroByte(0x68032cc8) == 0x493c7d27 && ZeroByte(0x493c7d27) == 0xf43ed648;
    assert ZeroByte(0xf43ed648) == 0xcb567ba5 && ZeroByte(0xcb567ba5) == 0x9771f7c1;
    assert ZeroByte(0x9771f7c1) == 0x3171d430 && ZeroByte(0x3171d430) == 0x30d23865;
    assert ZeroByte(0x30d23865) == 0x54075546 && ZeroByte(0x54075546) == 0x678efd01;
    hide ZeroByte;
    assert ZeroWord(0x00000100) == 0xa541927e && ZeroWord(0xa541927e) == 0x68032cc8;
  }

  lemma StrideTable3Value()
    ensures StrideTable3(1) == 0xf20c0dfe
  {
    assert ZeroByte(0x00000001) == 0xf26b8303 && ZeroByte(0xf26b8303) == 0x13a29877;
    assert ZeroByte(0x13a29877) == 0xa541927e && ZeroByte(0xa541927e) == 0xdd45aab8;
    assert ZeroByte(0xdd45aab8) == 0x38116fac && ZeroByte(0x38116fac) == 0xef306b19;
    assert ZeroByte(0xef306b19) == 0x68032cc8 && ZeroByte(0x68032cc8) == 0x493c7d27;
    assert ZeroByte(0x493c7d27) == 0xf43ed648 && ZeroByte(0xf43ed648) == 0xcb567ba5;
    assert ZeroByte(0xcb567ba5) == 0x9771f7c1 && ZeroByte(0x9771f7c1) == 0x3171d430;
    assert ZeroByte(0x3171d430) == 0x30d23865 && ZeroByte(0x30d23865) == 0x54075546;
    assert ZeroByte(0x54075546) == 0x678efd01 && ZeroByte(0x678efd01) == 0xf20c0dfe;
    hide ZeroByte;
    assert ZeroWord(0x00000001) == 0xdd45aab8 && ZeroWord(0xdd45aab8) == 0x493c7d27;
  }

  /** Masking rotates by fifteen places to the right and adds the constant. */
  lemma MaskValues()
    ensures Mask(0) == 0xa282ead8 && Mask(1) == 0xa284ead8 && Mask(0x8000) == 0xa282ead9 && Unmask(0xa282ead8) == 0
  {
  }
}
