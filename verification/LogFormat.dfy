/** The on-disk format of the write-ahead log: physical records inside 32 KiB blocks, and the
    fragments into which a logical record is cut. */
module LogFormat {
  import opened Coding
  import Crc32c

  const BLOCK: nat := 32768
  const HEADER: nat := 7

  const ZERO_TYPE: bv8 := 0
  const FULL: bv8 := 1
  const FIRST: bv8 := 2
  const MIDDLE: bv8 := 3
  const LAST: bv8 := 4

  // -------------------------------------------------------- physical records

  function LengthBytes(n: nat): Bytes
    requires n <= 0xffff
  {
    [(n % 256) as bv8, (n / 256) as bv8]
  }

  /** The CRC covers the type byte and the data. */
  function Header(t: bv8, data: Bytes): (h: Bytes)
    requires |data| <= 0xffff
    ensures |h| == HEADER
  {
    Fixed32(Crc32c.Mask(Crc32c.Crc(Crc32c.Crc(0, [t]), data))) + LengthBytes(|data|) + [t]
  }

  function Physical(t: bv8, data: Bytes): (b: Bytes)
    requires |data| <= 0xffff
    ensures |b| == HEADER + |data|
  {
    Header(t, data) + data
  }

  function ParsedLength(b: Bytes): nat
    requires |b| >= HEADER
  {
    b[4] as nat + 256 * (b[5] as nat)
  }

  predicate ChecksumMatches(b: Bytes)
    requires |b| >= HEADER && |b| >= HEADER + ParsedLength(b)
  {
    Crc32c.Crc(0, b[6..HEADER + ParsedLength(b)]) == Crc32c.Unmask(DecodeFixed32(b))
  }

  lemma LengthRoundTrip(n: nat)
    requires n <= 0xffff
    ensures LengthBytes(n)[0] as nat + 256 * (LengthBytes(n)[1] as nat) == n
  {
    SmallByte(n % 256);
    SmallByte(n / 256);
  }

  lemma HeaderLayout(crc: Bytes, length: Bytes, t: bv8, data: Bytes, rest: Bytes)
    requires |crc| == 4 && |length| == 2
    ensures var b := crc + length + [t] + data + rest;
            && b == crc + (length + [t] + data + rest)
            && b[4] == length[0] && b[5] == length[1] && b[6] == t
            && b[6..HEADER + |data|] == [t] + data && b[HEADER..HEADER + |data|] == data
  {
  }

  /** A physical record parses back to its own type, length, checksum and data. */
  lemma PhysicalParses(t: bv8, data: Bytes, rest: Bytes)
    requires |data| <= 0xffff
    ensures var b := Physical(t, data) + rest;
            && ParsedLength(b) == |data|
            && b[6] == t
            && ChecksumMatches(b)
            && b[HEADER..HEADER + |data|] == data
  {
    hide Crc32c.Crc, Crc32c.Mask, Crc32c.Unmask, Fixed32, DecodeFixed32, LengthBytes;
    var crc := Crc32c.Crc(Crc32c.Crc(0, [t]), data);
    var f := Fixed32(Crc32c.Mask(crc));
    LengthSize(|data|);
    FixedSize(Crc32c.Mask(crc));
    HeaderLayout(f, LengthBytes(|data|), t, data, rest);
    LengthRoundTrip(|data|);
    Fixed32RoundTrip(Crc32c.Mask(crc), LengthBytes(|data|) + [t] + data + rest);
    Crc32c.ExtendComposes(0, [t], data);
    Crc32c.MaskRoundTrip(crc);
  }

  /** Bytes 0 to 3 of a header are the masked CRC of type and data, 4 and 5 the length, 6 the type. */
  lemma HeaderBytes(t: bv8, data: Bytes)
    requires |data| <= 0xffff
    ensures var b := Physical(t, data);
            && Crc32c.Unmask(DecodeFixed32(b)) == Crc32c.Crc(0, [t] + data)
            && b[4] as nat == |data| % 256 && b[5] as nat == |data| / 256 && b[6] == t && b[7..] == data
  {
    hide Crc32c.Crc, Crc32c.Mask, Crc32c.Unmask, Fixed32, DecodeFixed32;
    var crc := Crc32c.Crc(Crc32c.Crc(0, [t]), data);
    var length := LengthBytes(|data|);
    FixedSize(Crc32c.Mask(crc));
    HeaderLayout(Fixed32(Crc32c.Mask(crc)), length, t, data, []);
    SmallByte(|data| % 256);
    SmallByte(|data| / 256);
    Fixed32RoundTrip(Crc32c.Mask(crc), length + [t] + data);
    Crc32c.ExtendComposes(0, [t], data);
    Crc32c.MaskRoundTrip(crc);
    var b := Physical(t, data);
    assert b + [] == b && b == Fixed32(Crc32c.Mask(crc)) + (length + [t] + data);
  }

  lemma LengthSize(n: nat)
    requires n <= 0xffff
    ensures |LengthBytes(n)| == 2
  {
  }

  lemma SplitTwice(b: Bytes, from: nat, i: nat, j: nat, end: nat)
    requires from <= i <= j <= end <= |b|
    ensures b[from..end] == b[from..i] + b[i..j] + b[j..end]
  {
  }

  /** Strings that agree before i and from j on. */
  lemma SameAround(b: Bytes, b': Bytes, from: nat, i: nat, j: nat, end: nat)
    requires from <= i <= j <= end <= |b| == |b'| && b[..i] == b'[..i] && b[j..] == b'[j..]
    ensures b[from..i] == b'[from..i] && b[j..end] == b'[j..end]
    ensures b[i..j] == b'[i..j] ==> b == b'
  {
    assert b[from..i] == b[..i][from..] && b'[from..i] == b'[..i][from..];
    assert b[j..end] == b[j..][..end - j] && b'[j..end] == b'[j..][..end - j];
    assert b == b[..i] + b[i..j] + b[j..] && b' == b'[..i] + b'[i..j] + b'[j..];
  }

  lemma SameHeaderBytes(b: Bytes, b': Bytes, i: nat)
    requires 6 <= i <= |b| == |b'| && b[..i] == b'[..i]
    ensures forall j :: 0 <= j < 6 ==> b[j] == b'[j]
  {
    assert forall j :: 0 <= j < 6 ==> b[j] == b[..i][j] && b'[j] == b'[..i][j];
  }

  /** Damage to the type or data that stays within four consecutive bytes never passes for good. */
  lemma DamageDetected(b: Bytes, b': Bytes, i: nat, k: nat)
    requires HEADER <= |b| == |b'| && |b| >= HEADER + ParsedLength(b)
    requires 6 <= i && k <= 4 && i + k <= HEADER + ParsedLength(b)
    requires b[..i] == b'[..i] && b[i + k..] == b'[i + k..] && b != b'
    requires ChecksumMatches(b)
    ensures ParsedLength(b') == ParsedLength(b) && !ChecksumMatches(b')
  {
    hide Crc32c.Crc, Crc32c.Unmask, DecodeFixed32, ParsedLength;
    SameHeaderBytes(b, b', i);
    SameHeaderCrc(b, b');
    SameLength(b, b');
    var before, x, y, after := Burst(b, b', 6, i, i + k, HEADER + ParsedLength(b));
    Crc32c.BurstDetected(0, before, x, y, after);
  }

  lemma SameLength(b: Bytes, b': Bytes)
    requires HEADER <= |b| == |b'| && b[4] == b'[4] && b[5] == b'[5]
    ensures ParsedLength(b) == ParsedLength(b')
  {
  }

  lemma Burst(b: Bytes, b': Bytes, from: nat, i: nat, j: nat, end: nat) returns (before: Bytes, x: Bytes, y: Bytes, after: Bytes)
    requires from <= i <= j <= end <= |b| == |b'| && b[..i] == b'[..i] && b[j..] == b'[j..] && b != b'
    ensures b[from..end] == before + x + after && b'[from..end] == before + y + after
    ensures |x| == |y| == j - i && x != y
  {
    before, x, y, after := b[from..i], b[i..j], b'[i..j], b[j..end];
    SameAround(b, b', from, i, j, end);
    SplitTwice(b, from, i, j, end);
    SplitTwice(b', from, i, j, end);
  }

  lemma SameHeaderCrc(b: Bytes, b': Bytes)
    requires 4 <= |b| && 4 <= |b'| && forall j :: 0 <= j < 4 ==> b[j] == b'[j]
    ensures DecodeFixed32(b) == DecodeFixed32(b')
  {
  }

  lemma FixedSize(v: bv32)
    ensures |Fixed32(v)| == 4
  {
  }

  // ---------------------------------------------------------------- placement

  /** How many bytes of trailer follow position pos: fewer than a header leaves are never used. */
  function Lead(pos: nat): nat {
    if BLOCK - pos % BLOCK < HEADER then BLOCK - pos % BLOCK else 0
  }

  /** Where the next header after pos goes. */
  function HeaderPos(pos: nat): (q: nat)
    ensures q >= pos
    ensures q % BLOCK + HEADER <= BLOCK
  {
    pos + Lead(pos)
  }

  /** How much data fits behind that header in its block. */
  function Avail(pos: nat): nat {
    BLOCK - HeaderPos(pos) % BLOCK - HEADER
  }

  datatype Fragment = Fragment(start: nat, t: bv8, data: Bytes) {
    function End(): nat {
      start + HEADER + |data|
    }
  }

  function FragmentType(begin: bool, end: bool): bv8 {
    if begin && end then FULL else if begin then FIRST else if end then LAST else MIDDLE
  }

  /** The fragments of a payload, or of what is left of it, written from position pos on. A FIRST
      fragment may be empty, so the measure looks at the room in the block too. */
  function Fragments(pos: nat, payload: Bytes, begin: bool): (fs: seq<Fragment>)
    ensures fs != []
    decreases |payload|, if Avail(pos) == 0 then 1 else 0
  {
    var n := if |payload| < Avail(pos) then |payload| else Avail(pos);
    var f := Fragment(HeaderPos(pos), FragmentType(begin, n == |payload|), payload[..n]);
    if n == |payload| then [f] else [f] + Fragments(f.End(), payload[n..], false)
  }

  function Zeros(n: nat): Bytes {
    seq(n, i => 0)
  }

  /** Each fragment starts where the next header goes, and stays inside its block. */
  ghost predicate Placed(pos: nat, fs: seq<Fragment>)
    decreases |fs|
  {
    fs != [] ==>
      && fs[0].start == HeaderPos(pos)
      && |fs[0].data| <= Avail(pos)
      && Placed(fs[0].End(), fs[1..])
  }

  /** The bytes of placed fragments: trailers of zeros, headers and data. */
  ghost function Layout(pos: nat, fs: seq<Fragment>): (b: Bytes)
    requires Placed(pos, fs)
    decreases |fs|
  {
    if fs == [] then [] else
      Zeros(Lead(pos)) + Physical(fs[0].t, fs[0].data) + Layout(fs[0].End(), fs[1..])
  }

  function EndOf(pos: nat, fs: seq<Fragment>): nat {
    if fs == [] then pos else fs[|fs| - 1].End()
  }

  lemma {:induction false} LayoutSize(pos: nat, fs: seq<Fragment>)
    requires Placed(pos, fs)
    ensures pos + |Layout(pos, fs)| == EndOf(pos, fs)
    decreases |fs|
  {
    hide Physical;
    if fs != [] {
      LayoutSize(fs[0].End(), fs[1..]);
    }
  }

  lemma {:induction false} PlacedConcat(pos: nat, a: seq<Fragment>, b: seq<Fragment>)
    requires Placed(pos, a) && Placed(EndOf(pos, a), b)
    ensures Placed(pos, a + b)
    ensures Layout(pos, a + b) == Layout(pos, a) + Layout(EndOf(pos, a), b)
    decreases |a|
  {
    hide Physical, HeaderPos, Avail, Zeros;
    if a == [] {
      assert a + b == b;
    } else {
      assert (a + b)[1..] == a[1..] + b;
      PlacedConcat(a[0].End(), a[1..], b);
    }
  }

  lemma {:induction false} FragmentsPlaced(pos: nat, payload: Bytes, begin: bool)
    ensures Placed(pos, Fragments(pos, payload, begin))
    decreases |payload|, if Avail(pos) == 0 then 1 else 0
  {
    var n := if |payload| < Avail(pos) then |payload| else Avail(pos);
    var f := Fragment(HeaderPos(pos), FragmentType(begin, n == |payload|), payload[..n]);
    if n != |payload| {
      FragmentsPlaced(f.End(), payload[n..], false);
      assert Fragments(pos, payload, begin)[1..] == Fragments(f.End(), payload[n..], false);
    }
  }

  /** The next header follows at once if there is room for one, and starts the next block if not. */
  lemma HeaderGoes(pos: nat)
    ensures pos % BLOCK <= BLOCK - 7 ==> HeaderPos(pos) == pos
    ensures pos % BLOCK > BLOCK - 7 ==> HeaderPos(pos) % BLOCK == 0 && pos < HeaderPos(pos) < pos + 7
  {
  }

  /** Only the last fragment of a payload leaves room in its block. */
  lemma {:induction false} FragmentsFill(pos: nat, payload: Bytes, begin: bool, k: nat)
    requires k < |Fragments(pos, payload, begin)| - 1
    ensures Fragments(pos, payload, begin)[k].End() % BLOCK == 0
    decreases k
  {
    var n := if |payload| < Avail(pos) then |payload| else Avail(pos);
    var f := Fragment(HeaderPos(pos), FragmentType(begin, n == |payload|), payload[..n]);
    if k == 0 {
      FullBlock(pos);
    } else {
      assert Fragments(pos, payload, begin)[1..] == Fragments(f.End(), payload[n..], false);
      FragmentsFill(f.End(), payload[n..], false, k - 1);
    }
  }

  lemma FullBlock(pos: nat)
    ensures (HeaderPos(pos) + HEADER + Avail(pos)) % BLOCK == 0
  {
  }

  /** What lies between the headers and data of placed fragments is zero. */
  lemma {:induction false} OutsideIsZero(pos: nat, fs: seq<Fragment>, k: nat)
    requires Placed(pos, fs) && pos <= k < pos + |Layout(pos, fs)|
    requires forall j :: 0 <= j < |fs| ==> !(fs[j].start <= k < fs[j].End())
    ensures Layout(pos, fs)[k - pos] == 0
    decreases |fs|
  {
    hide Physical, HeaderPos, Avail;
    var g := fs[0];
    LeadReaches(pos);
    if k >= g.End() {
      assert forall j :: 0 <= j < |fs[1..]| ==> fs[1..][j] == fs[j + 1];
      OutsideIsZero(g.End(), fs[1..], k);
    } else {
      ZerosAre(Lead(pos), k - pos);
    }
  }

  lemma LeadReaches(pos: nat)
    ensures pos + Lead(pos) == HeaderPos(pos)
  {
  }

  lemma ZerosAre(n: nat, k: nat)
    requires k < n
    ensures |Zeros(n)| == n && Zeros(n)[k] == 0
  {
  }

  /** Each fragment is there as one physical record. */
  lemma {:induction false} FragmentIsThere(pos: nat, fs: seq<Fragment>, k: nat)
    requires Placed(pos, fs) && k < |fs|
    ensures |fs[k].data| <= 0xffff && pos <= fs[k].start && fs[k].End() <= pos + |Layout(pos, fs)|
    ensures Layout(pos, fs)[fs[k].start - pos..fs[k].End() - pos] == Physical(fs[k].t, fs[k].data)
    decreases |fs|
  {
    hide Physical, HeaderPos, Avail, Zeros;
    LeadReaches(pos);
    ZerosLength(Lead(pos));
    DataFits(pos, fs[0].data);
    var zeros, phys, rest := Zeros(Lead(pos)), Physical(fs[0].t, fs[0].data), Layout(fs[0].End(), fs[1..]);
    hide Lead;
    if k == 0 {
      SliceOfThree(zeros, phys, rest, 0, 0);
    } else {
      FragmentIsThere(fs[0].End(), fs[1..], k - 1);
      hide Placed;
      SliceOfThree(zeros, phys, rest, fs[k].start - fs[0].End(), fs[k].End() - fs[0].End());
    }
  }

  lemma ZerosLength(n: nat)
    ensures |Zeros(n)| == n
  {
  }

  lemma SliceOfThree(a: Bytes, b: Bytes, c: Bytes, i: nat, j: nat)
    requires i <= j <= |c|
    ensures (a + b + c)[|a|..|a| + |b|] == b
    ensures (a + b + c)[|a| + |b| + i..|a| + |b| + j] == c[i..j]
  {
  }

  lemma DataFits(pos: nat, data: Bytes)
    requires |data| <= Avail(pos)
    ensures |data| <= 0xffff
  {
  }

  // ------------------------------------------------------------------ records

  /** MIDDLE fragments and then a LAST one. */
  predicate Continuation(fs: seq<Fragment>) {
    fs != [] && (if |fs| == 1 then fs[0].t == LAST else fs[0].t == MIDDLE && Continuation(fs[1..]))
  }

  /** One FULL fragment, or a FIRST one and a continuation. */
  predicate WholeRecord(fs: seq<Fragment>) {
    fs != [] && (if |fs| == 1 then fs[0].t == FULL else fs[0].t == FIRST && Continuation(fs[1..]))
  }

  function DataOf(fs: seq<Fragment>): Bytes {
    if fs == [] then [] else fs[0].data + DataOf(fs[1..])
  }

  /** A payload is cut into a whole record's fragments, which together hold it. */
  lemma {:induction false} FragmentsForm(pos: nat, payload: Bytes, begin: bool)
    ensures var fs := Fragments(pos, payload, begin);
            (if begin then WholeRecord(fs) else Continuation(fs)) && DataOf(fs) == payload
    decreases |payload|, if Avail(pos) == 0 then 1 else 0
  {
    var n := if |payload| < Avail(pos) then |payload| else Avail(pos);
    var f := Fragment(HeaderPos(pos), FragmentType(begin, n == |payload|), payload[..n]);
    var fs := Fragments(pos, payload, begin);
    if n == |payload| {
      assert fs == [f] && payload[..n] == payload && DataOf([f]) == f.data + DataOf([]);
    } else {
      FragmentsForm(f.End(), payload[n..], false);
      assert fs[1..] == Fragments(f.End(), payload[n..], false);
      assert payload == payload[..n] + payload[n..];
    }
  }

  /** No header or fragment straddles a block. */
  lemma {:induction false} InsideBlocks(pos: nat, fs: seq<Fragment>, k: nat)
    requires Placed(pos, fs) && k < |fs|
    ensures fs[k].start / BLOCK == (fs[k].End() - 1) / BLOCK
    ensures fs[k].start % BLOCK + HEADER + |fs[k].data| <= BLOCK
    decreases |fs|
  {
    if k > 0 {
      InsideBlocks(fs[0].End(), fs[1..], k - 1);
    }
  }

  /** The bytes of a payload, or of the rest of one, written from position pos on. */
  ghost function PartBytes(pos: nat, payload: Bytes, begin: bool): Bytes {
    FragmentsPlaced(pos, payload, begin);
    Layout(pos, Fragments(pos, payload, begin))
  }

  /** The bytes AddRecord appends to a file of length pos. */
  ghost function RecordBytes(pos: nat, payload: Bytes): Bytes {
    PartBytes(pos, payload, true)
  }

  lemma PartStep(pos: nat, payload: Bytes, begin: bool)
    ensures var n := if |payload| < Avail(pos) then |payload| else Avail(pos);
            var first := Zeros(Lead(pos)) + Physical(FragmentType(begin, n == |payload|), payload[..n]);
            PartBytes(pos, payload, begin) ==
              if n == |payload| then first else first + PartBytes(HeaderPos(pos) + HEADER + n, payload[n..], false)
  {
    hide Physical, Zeros, Lead, HeaderPos, Avail, FragmentType;
    FragmentsPlaced(pos, payload, begin);
    var n := if |payload| < Avail(pos) then |payload| else Avail(pos);
    var f := Fragment(HeaderPos(pos), FragmentType(begin, n == |payload|), payload[..n]);
    var fs := Fragments(pos, payload, begin);
    if n == |payload| {
      assert fs == [f] && fs[1..] == [] && Layout(f.End(), []) == [];
    } else {
      assert fs[1..] == Fragments(f.End(), payload[n..], false);
    }
  }

  /** Only the place in the block matters for what is written. */
  lemma {:induction false} SamePlaceInBlock(pos: nat, pos': nat, payload: Bytes, begin: bool)
    requires pos % BLOCK == pos' % BLOCK
    ensures PartBytes(pos, payload, begin) == PartBytes(pos', payload, begin)
    decreases |payload|, if Avail(pos) == 0 then 1 else 0
  {
    hide Physical, Zeros, FragmentType, PartBytes;
    PartStep(pos, payload, begin);
    PartStep(pos', payload, begin);
    var n := if |payload| < Avail(pos) then |payload| else Avail(pos);
    if n != |payload| {
      SamePlaceInBlock(HeaderPos(pos) + HEADER + n, HeaderPos(pos') + HEADER + n, payload[n..], false);
    }
  }

  ghost function LogBytes(pos: nat, records: seq<Bytes>): Bytes
    decreases |records|
  {
    hide RecordBytes;
    if records == [] then [] else
      var b := RecordBytes(pos, records[0]);
      b + LogBytes(pos + |b|, records[1..])
  }

  /** The fragments of all records. */
  ghost function LogFragments(pos: nat, records: seq<Bytes>): seq<Fragment>
    decreases |records|
  {
    if records == [] then [] else
      var fs := Fragments(pos, records[0], true);
      fs + LogFragments(EndOf(pos, fs), records[1..])
  }

  lemma {:induction false} LogIsLayout(pos: nat, records: seq<Bytes>)
    ensures Placed(pos, LogFragments(pos, records))
    ensures Layout(pos, LogFragments(pos, records)) == LogBytes(pos, records)
    decreases |records|
  {
    hide Fragments, Placed, Layout;
    if records != [] {
      var fs := Fragments(pos, records[0], true);
      FragmentsPlaced(pos, records[0], true);
      LayoutSize(pos, fs);
      LogIsLayout(EndOf(pos, fs), records[1..]);
      PlacedConcat(pos, fs, LogFragments(EndOf(pos, fs), records[1..]));
    } else {
      EmptyLayout(pos);
    }
  }

  lemma EmptyLayout(pos: nat)
    ensures Placed(pos, []) && Layout(pos, []) == []
  {
  }

  /** Every byte of a log belongs to one of its fragments or is zero. */
  lemma LogTrailersAreZero(pos: nat, records: seq<Bytes>, k: nat)
    requires pos <= k < pos + |LogBytes(pos, records)|
    requires forall g :: g in LogFragments(pos, records) ==> !(g.start <= k < g.End())
    ensures LogBytes(pos, records)[k - pos] == 0
  {
    hide LogFragments, LogBytes, Placed, Layout;
    LogIsLayout(pos, records);
    OutsideIsZero(pos, LogFragments(pos, records), k);
  }

  /** Writing some records and then more, in one go or by a second writer that starts where the first
      left the file, gives the same bytes. */
  lemma {:induction false} LogConcat(pos: nat, a: seq<Bytes>, b: seq<Bytes>)
    ensures LogBytes(pos, a + b) == LogBytes(pos, a) + LogBytes(pos + |LogBytes(pos, a)|, b)
    decreases |a|
  {
    hide RecordBytes;
    if a == [] {
      assert a + b == b;
    } else {
      assert (a + b)[1..] == a[1..] + b;
      LogConcat(pos + |RecordBytes(pos, a[0])|, a[1..], b);
    }
  }

  /** As much of s as fits. */
  function Fit(s: Bytes, room: nat): Bytes {
    if |s| <= room then s else s[..room]
  }

  // ------------------------------------------------------------ a known record

  lemma FooCrc()
    ensures Crc32c.Crc(Crc32c.Crc(0, [1]), [0x66, 0x6f, 0x6f]) == 0x3a82ec18
    ensures Crc32c.Mask(0x3a82ec18) == 0x7ab35fdd && Fixed32(0x7ab35fdd) == [0xdd, 0x5f, 0xb3, 0x7a]
  {
    assert Crc32c.FeedByte(0xffffffff, 1) == 0x5fe92fad && Crc32c.FeedByte(0x5fe92fad, 0x66) == 0x5a5b64d0;
    assert Crc32c.FeedByte(0x5a5b64d0, 0x6f) == 0xec5c1589 && Crc32c.FeedByte(0xec5c1589, 0x6f) == 0xc57d13e7;
    hide Crc32c.FeedByte;
    var data: Bytes := [1, 0x66, 0x6f, 0x6f];
    assert data[..0] == [] && data[..4] == data && data == [1] + [0x66, 0x6f, 0x6f];
    Crc32c.FeedOne(0xffffffff, data, 0);
    Crc32c.FeedOne(0xffffffff, data, 1);
    Crc32c.FeedOne(0xffffffff, data, 2);
    Crc32c.FeedOne(0xffffffff, data, 3);
    Crc32c.ExtendComposes(0, [1], [0x66, 0x6f, 0x6f]);
  }

  /** The ten bytes that a new log gets for the record "foo". */
  lemma FooRecord()
    ensures RecordBytes(0, [0x66, 0x6f, 0x6f]) == [0xdd, 0x5f, 0xb3, 0x7a, 3, 0, 1, 0x66, 0x6f, 0x6f]
  {
    hide Crc32c.Crc, Crc32c.Mask, Fixed32, PartBytes;
    var foo: Bytes := [0x66, 0x6f, 0x6f];
    FooCrc();
    PartStep(0, foo, true);
    assert foo[..3] == foo && Zeros(0) == [] && LengthBytes(3) == [3, 0];
    assert Header(1, foo) == [0xdd, 0x5f, 0xb3, 0x7a] + [3, 0] + [1];
    hide Header;
    assert Physical(1, foo) == [0xdd, 0x5f, 0xb3, 0x7a] + [3, 0] + [1] + foo;
  }
}
