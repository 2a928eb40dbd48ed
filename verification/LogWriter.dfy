/** The log writer, appending to a file on a device that may fill up. */
module LogWriter {
  import opened Coding
  import opened LogFormat
  import Crc32c

  /** A file that takes room more bytes: an Append that does not fit leaves a prefix and fails. */
  class WritableFile {
    var data: Bytes
    var room: nat

    constructor (data: Bytes, room: nat)
      ensures this.data == data && this.room == room
    {
      this.data, this.room := data, room;
    }

    method Append(s: Bytes) returns (ok: bool)
      modifies this
      ensures ok <==> |s| <= old(room)
      ensures data == old(data) + Fit(s, old(room))
      ensures room == old(room) - |Fit(s, old(room))|
    {
      ok := |s| <= room;
      data, room := data + Fit(s, room), room - |Fit(s, room)|;
    }
  }

  lemma FitTwice(a: Bytes, b: Bytes, room: nat)
    ensures |Fit(a, room)| <= room
    ensures Fit(a, room) + Fit(b, room - |Fit(a, room)|) == Fit(a + b, room)
    ensures b != [] ==> (|b| <= room - |Fit(a, room)| <==> |a + b| <= room)
  {
  }

  class Writer {
    const dest: WritableFile
    var blockOffset: nat
    const typeCrc: seq<bv32>

    /** The precomputed checksums are those of the type bytes. */
    ghost predicate TypeCrcsRight() {
      && |typeCrc| == 5
      && typeCrc[0] == Crc32c.Crc(0, [ZERO_TYPE]) && typeCrc[1] == Crc32c.Crc(0, [FULL])
      && typeCrc[2] == Crc32c.Crc(0, [FIRST]) && typeCrc[3] == Crc32c.Crc(0, [MIDDLE])
      && typeCrc[4] == Crc32c.Crc(0, [LAST])
    }

    ghost predicate Valid()
      reads this
    {
      blockOffset <= BLOCK && TypeCrcsRight()
    }

    /** The writer knows where in a block the file ends; a full block counts as an empty one. */
    ghost predicate InStep()
      reads this, dest
    {
      blockOffset % BLOCK == |dest.data| % BLOCK
    }

    /** On an empty file. */
    constructor (dest: WritableFile)
      requires dest.data == []
      ensures Valid() && InStep() && this.dest == dest
    {
      hide Crc32c.Crc;
      this.dest := dest;
      blockOffset := 0;
      typeCrc := InitTypeCrc();
    }

    /** On a file that already holds destLength bytes. */
    constructor Reopen(dest: WritableFile, destLength: nat)
      requires |dest.data| == destLength
      ensures Valid() && InStep() && this.dest == dest
    {
      hide Crc32c.Crc;
      this.dest := dest;
      blockOffset := destLength % BLOCK;
      typeCrc := InitTypeCrc();
    }

    static function InitTypeCrc(): seq<bv32> {
      [Crc32c.Crc(0, [ZERO_TYPE]), Crc32c.Crc(0, [FULL]), Crc32c.Crc(0, [FIRST]),
       Crc32c.Crc(0, [MIDDLE]), Crc32c.Crc(0, [LAST])]
    }

    function TypeCrc(t: bv8): bv32
      requires |typeCrc| == 5
    {
      if t == ZERO_TYPE then typeCrc[0] else if t == FULL then typeCrc[1] else if t == FIRST then typeCrc[2]
      else if t == MIDDLE then typeCrc[3] else typeCrc[4]
    }

    lemma TypeCrcRight(t: bv8)
      requires Valid() && t in {FULL, FIRST, MIDDLE, LAST}
      ensures TypeCrc(t) == Crc32c.Crc(0, [t])
    {
      hide Crc32c.Crc;
    }

    method EmitPhysicalRecord(t: bv8, data: Bytes) returns (ok: bool)
      requires Valid() && t in {FULL, FIRST, MIDDLE, LAST}
      requires blockOffset + HEADER + |data| <= BLOCK
      modifies this, dest
      ensures Valid() && blockOffset == old(blockOffset) + HEADER + |data|
      ensures Emitted(old(dest.data), old(dest.room), Physical(t, data), ok)
    {
      hide Crc32c.Crc, Crc32c.Mask, Fixed32, LengthBytes, TypeCrc;
      TypeCrcRight(t);
      var address: nat := *;
      var crc := Crc32c.Extend(TypeCrc(t), data, address);
      crc := Crc32c.Mask(crc);
      FixedSize(crc);
      var buf := Fixed32(crc) + LengthBytes(|data|) + [t];
      assert buf == Header(t, data);
      FitTwice(buf, data, dest.room);
      ok := dest.Append(buf);
      if ok {
        ok := dest.Append(data);
      }
      blockOffset := blockOffset + HEADER + |data|;
    }

    /** Exactly s, or the prefix of it that fits, has gone to the file. */
    ghost predicate Emitted(before: Bytes, room: nat, s: Bytes, ok: bool)
      reads dest
    {
      && dest.data == before + Fit(s, room)
      && dest.room == room - |Fit(s, room)|
      && (ok <==> |s| <= room)
    }

    /** Fills the rest of the block with zeros if no header fits there any more. */
    method SkipTrailer()
      requires Valid()
      modifies this, dest
      ensures Valid() && blockOffset == HeaderPos(old(blockOffset)) % BLOCK
      ensures dest.data == old(dest.data) + Fit(Zeros(Lead(old(blockOffset))), old(dest.room))
      ensures dest.room == old(dest.room) - |Fit(Zeros(Lead(old(blockOffset))), old(dest.room))|
    {
      hide TypeCrcsRight, Zeros;
      ZerosSize(Lead(blockOffset));
      var leftover := BLOCK - blockOffset;
      if leftover < HEADER {
        if leftover > 0 {
          var ignored := dest.Append(Zeros(leftover));
        }
        blockOffset := 0;
      }
    }

    /** One pass of AddRecord's loop: the trailer if the block is used up, and one fragment. */
    method EmitFragment(left: Bytes, begin: bool) returns (ok: bool, n: nat)
      requires Valid()
      modifies this, dest
      ensures Valid() && n <= |left| && n <= 0xffff
      ensures n == if |left| < Avail(old(blockOffset)) then |left| else Avail(old(blockOffset))
      ensures Emitted(old(dest.data), old(dest.room),
                      Zeros(Lead(old(blockOffset))) + Physical(FragmentType(begin, n == |left|), left[..n]), ok)
      ensures blockOffset == HeaderPos(old(blockOffset)) % BLOCK + HEADER + n
    {
      hide TypeCrcsRight, Physical, Zeros, Lead, HeaderPos, Fit;
      SkipTrailer();
      var avail := BLOCK - blockOffset - HEADER;
      n := if |left| < avail then |left| else avail;
      var end := |left| == n;
      var t := if begin && end then FULL else if begin then FIRST else if end then LAST else MIDDLE;
      FitTwice(Zeros(Lead(old(blockOffset))), Physical(t, left[..n]), old(dest.room));
      ok := EmitPhysicalRecord(t, left[..n]);
    }

    /** Appends the record's bytes for the current place in the block, or as many as the device takes. */
    method AddRecord(slice: Bytes) returns (ok: bool)
      requires Valid()
      modifies this, dest
      ensures Valid()
      ensures Emitted(old(dest.data), old(dest.room), RecordBytes(old(blockOffset), slice), ok)
      ensures ok ==> blockOffset % BLOCK == (old(blockOffset) + |RecordBytes(old(blockOffset), slice)|) % BLOCK
    {
      hide Physical, PartBytes, Valid, Zeros, Lead, HeaderPos, Avail, FragmentType, Fit;
      ghost var start, room := blockOffset, dest.room;
      ghost var done: Bytes, pos := [], start;
      var left := slice;
      var begin := true;
      FitNothing(room);
      while true
        invariant Valid() && blockOffset % BLOCK == pos % BLOCK && pos == start + |done|
        invariant done + PartBytes(pos, left, begin) == RecordBytes(start, slice)
        invariant dest.data == old(dest.data) + done && dest.room == room - |done|
        decreases |left|, if Avail(pos) == 0 then 1 else 0
      {
        PartStep(pos, left, begin);
        AvailSmall(pos);
        SameStep(pos, blockOffset);
        var n: nat;
        ok, n := EmitFragment(left, begin);
        ghost var head := Zeros(Lead(pos)) + Physical(FragmentType(begin, n == |left|), left[..n]);
        ghost var rest := if n == |left| then [] else PartBytes(HeaderPos(pos) + HEADER + n, left[n..], false);
        FitExtends(done, head, rest, room);
        StepSize(pos, begin, left, n);
        done := done + head;
        pos := HeaderPos(pos) + HEADER + n;
        left := left[n..];
        begin := false;
        if !(ok && |left| > 0) {
          break;
        }
      }
    }
  }

  lemma FitNothing(room: nat)
    ensures Fit([], room) == []
  {
  }

  /** What has gone out so far, and what fits of the next piece: all of a whole, or its longest prefix. */
  lemma FitExtends(done: Bytes, head: Bytes, rest: Bytes, room: nat)
    requires |done| <= room
    ensures done + (head + rest) == done + head + rest && (rest == [] ==> done + head + rest == done + head)
    ensures |head| <= room - |done| ==> Fit(head, room - |done|) == head
    ensures |head| > room - |done| || rest == [] ==> done + Fit(head, room - |done|) == Fit(done + head + rest, room)
  {
  }

  lemma StepSize(pos: nat, begin: bool, left: Bytes, n: nat)
    requires n <= |left| && n <= Avail(pos)
    ensures pos + |Zeros(Lead(pos)) + Physical(FragmentType(begin, n == |left|), left[..n])| == HeaderPos(pos) + HEADER + n
    ensures (HeaderPos(pos) % BLOCK + HEADER + n) % BLOCK == (HeaderPos(pos) + HEADER + n) % BLOCK
    ensures n == Avail(pos) == 0 ==> Avail(HeaderPos(pos) + HEADER + n) > 0
  {
    hide Physical;
    ZerosSize(Lead(pos));
  }

  lemma AvailSmall(pos: nat)
    ensures Avail(pos) <= 0xffff
  {
  }

  lemma ZerosSize(n: nat)
    ensures |Zeros(n)| == n && (n == 0 ==> Zeros(n) == [])
  {
  }

  lemma SameStep(pos: nat, pos': nat)
    requires pos % BLOCK == pos' % BLOCK
    ensures Lead(pos) == Lead(pos') && Avail(pos) == Avail(pos') && HeaderPos(pos) % BLOCK == HeaderPos(pos') % BLOCK
  {
  }

  function Flatten(sessions: seq<seq<Bytes>>): seq<Bytes> {
    if sessions == [] then [] else sessions[0] + Flatten(sessions[1..])
  }

  /** Any number of calls: the file ends up with the bytes of the whole log, or with the prefix that
      the device took, whether or not the caller goes on after a failure. */
  method WriteAll(w: Writer, records: seq<Bytes>)
    requires w.Valid() && (w.InStep() || w.dest.room == 0)
    modifies w, w.dest
    ensures w.Valid() && (w.InStep() || w.dest.room == 0)
    ensures w.dest.data == old(w.dest.data) + Fit(LogBytes(|old(w.dest.data)|, records), old(w.dest.room))
    ensures w.dest.room == old(w.dest.room) - |Fit(LogBytes(|old(w.dest.data)|, records), old(w.dest.room))|
  {
    hide RecordBytes, Writer.Valid, Fit;
    FitNothing(w.dest.room);
    if records != [] {
      ghost var pos, room, offset := |w.dest.data|, w.dest.room, w.blockOffset;
      ghost var b := RecordBytes(pos, records[0]);
      if w.InStep() {
        SameRecord(offset, pos, records[0]);
      }
      FitNone(RecordBytes(offset, records[0]), b);
      var ok := w.AddRecord(records[0]);
      FitSize(b, room);
      FitTwice(b, LogBytes(pos + |b|, records[1..]), room);
      FitNone(LogBytes(|w.dest.data|, records[1..]), LogBytes(pos + |b|, records[1..]));
      WriteAll(w, records[1..]);
    }
  }

  lemma SameRecord(pos: nat, pos': nat, payload: Bytes)
    requires pos % BLOCK == pos' % BLOCK
    ensures RecordBytes(pos, payload) == RecordBytes(pos', payload)
  {
    hide PartBytes;
    SamePlaceInBlock(pos, pos', payload, true);
  }

  lemma FitNone(a: Bytes, b: Bytes)
    ensures Fit(a, 0) == Fit(b, 0) == []
  {
  }

  lemma FitSize(s: Bytes, room: nat)
    ensures |s| <= room ==> Fit(s, room) == s
    ensures |s| > room ==> |Fit(s, room)| == room
  {
  }

  /** A chain of writers, each opened where the last one left the file, writes what one writer would. */
  method WriteSessions(dest: WritableFile, sessions: seq<seq<Bytes>>)
    modifies dest
    ensures dest.data == old(dest.data) + Fit(LogBytes(|old(dest.data)|, Flatten(sessions)), old(dest.room))
    decreases |sessions|
  {
    hide RecordBytes, Writer.Valid, Fit;
    FitNothing(dest.room);
    if sessions != [] {
      ghost var pos, room := |dest.data|, dest.room;
      ghost var first := LogBytes(pos, sessions[0]);
      var w := new Writer.Reopen(dest, |dest.data|);
      WriteAll(w, sessions[0]);
      LogConcat(pos, sessions[0], Flatten(sessions[1..]));
      FitSize(first, room);
      FitTwice(first, LogBytes(pos + |first|, Flatten(sessions[1..])), room);
      FitNone(LogBytes(|dest.data|, Flatten(sessions[1..])), LogBytes(pos + |first|, Flatten(sessions[1..])));
      WriteSessions(dest, sessions[1..]);
    }
  }
}
