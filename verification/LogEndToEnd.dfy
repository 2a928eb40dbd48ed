/** Writer and reader together. */
module LogEndToEnd {
  import opened Coding
  import opened LogFormat
  import opened LogParse
  import opened LogReader
  import opened LogReaderProperties
  import opened LogWriter
  import P = LogReaderProperties

  /** A record that is returned starts at or after the initial offset, so the reader never skips again. */
  lemma FoundPastInitial(f: Bytes, cfg: Settings, p: nat, resyncing: bool)
    requires NextRecord(f, cfg, p, Fresh(resyncing)).found
    ensures NextRecord(f, cfg, p, Fresh(resyncing)).offset >= cfg.initial
  {
    hide NextRecord, DataOf, ReadAt;
    P.ReturnedIsWhole(f, cfg, p, resyncing);
    var o := NextRecord(f, cfg, p, Fresh(resyncing));
    var first, fs :| P.IsWhole(f, cfg, o, first, fs);
    AcceptedPastInitial(f, cfg, first);
  }

  lemma AcceptedPastInitial(f: Bytes, cfg: Settings, p: nat)
    ensures ReadAt(f, cfg, p).Accepted? ==> ReadAt(f, cfg, p).start >= cfg.initial
  {
  }

  /** A reader that has not been called yet. */
  ghost predicate Unused(r: Reader)
    reads r, r.file
  {
    && r.Tracking() && r.place == Place(r.file.contents, 0, 0) && r.file.pos == 0
    && r.lastRecordOffset == 0 && r.resyncing == (r.cfg.initial > 0) && r.drops == []
  }

  /** The next call of a reader that has skipped at most once looks at the file from p on. */
  ghost predicate NextFrom(r: Reader, p: nat)
    reads r, r.file
  {
    && r.Tracking() && r.place == Place(r.file.contents, r.place.end, 0)
    && (if r.lastRecordOffset < r.cfg.initial then
          p == BlockStart(r.cfg.initial) && r.file.pos == 0 && r.place.end == 0 && r.buffer == []
        else p == r.Pos())
  }

  method ReadNext(r: Reader, ghost p: nat) returns (ok: bool, record: Bytes)
    requires NextFrom(r, p)
    modifies r, r.file
    ensures var o := NextRecord(r.file.contents, r.cfg, p, Fresh(old(r.resyncing)));
            && ok == o.found
            && (ok ==> record == o.record && r.lastRecordOffset == o.offset && r.resyncing == o.resyncing && NextFrom(r, o.pos))
  {
    hide NextRecord, BlockStart, Reader.Tracking, StopAt, LooksLikeEof, Fit, From, Wrap, Reader.ReportAt, Reader.Finished, ReadAt;
    ghost var f, cfg := r.file.contents, r.cfg;
    ghost var o := NextRecord(f, cfg, p, Fresh(r.resyncing));
    if o.found {
      FoundPastInitial(f, cfg, p, r.resyncing);
    }
    if r.lastRecordOffset < cfg.initial && p > |f| {
      P.PastTheEnd(f, cfg, p);
      P.StopsAtEof(f, cfg, p, r.resyncing);
    }
    assert cfg.(shift := 0) == cfg;
    ok, record := r.ReadRecord();
  }

  /** A client that calls ReadRecord until it returns false. */
  method ReadUntilFalse(r: Reader) returns (found: seq<Found>)
    requires Unused(r)
    modifies r, r.file
    ensures found == ReadAll(r.file.contents, r.cfg, BlockStart(r.cfg.initial), r.cfg.initial > 0).found
  {
    hide NextRecord, ReadAll, BlockStart, NextFrom;
    ghost var f, cfg := r.file.contents, r.cfg;
    ghost var p, total := BlockStart(cfg.initial), ReadAll(f, cfg, BlockStart(cfg.initial), cfg.initial > 0).found;
    found := [];
    StartsAtBlock(r);
    while true
      invariant NextFrom(r, p) && total == found + ReadAll(f, cfg, p, r.resyncing).found
      decreases if p <= |f| then |f| - p else 0
    {
      ghost var o := NextRecord(f, cfg, p, Fresh(r.resyncing));
      ReadAllStep(f, cfg, p, r.resyncing);
      FoundAdvances(f, cfg, p, Fresh(r.resyncing));
      var ok, record := ReadNext(r, p);
      if !ok {
        return;
      }
      found := found + [Found(record, r.lastRecordOffset)];
      p := o.pos;
    }
  }

  lemma StartsAtBlock(r: Reader)
    requires Unused(r)
    ensures NextFrom(r, BlockStart(r.cfg.initial))
  {
  }

  lemma ReadAllStep(f: Bytes, cfg: Config, p: nat, resyncing: bool)
    ensures var o := NextRecord(f, cfg, p, Fresh(resyncing));
            ReadAll(f, cfg, p, resyncing).found ==
              if o.found then [Found(o.record, o.offset)] + ReadAll(f, cfg, o.pos, o.resyncing).found else []
  {
    hide NextRecord;
  }

  /** Records written until the device is full, and read back from any offset: exactly those that went
      out whole and start at or after the offset. */
  method WriteThenRead(records: seq<Bytes>, room: nat, cfg: Config, failsPastEnd: bool) returns (found: seq<Found>)
    ensures found == P.Expected(0, records, room, cfg.initial)
  {
    hide LogBytes, ReadAll, Fit, Reader.Tracking, Writer.Valid, Writer.InStep;
    var disk := new WritableFile([], room);
    var w := new Writer(disk);
    WriteAll(w, records);
    var file := new SequentialFile(disk.data, failsPastEnd);
    var r := new Reader(file, cfg);
    found := ReadUntilFalse(r);
    P.CleanLog(records, room, cfg);
    assert [] + Fit(LogBytes(0, records), room) == Fit(LogBytes(0, records), room);
  }

  // -------------------------------------------------------- skipping twice

  /** A log with a record before the initial offset 8, then an empty one of on-disk type 5. */
  function TwiceSkipped(data: Bytes): Bytes
    requires |data| < BLOCK - 22
  {
    Physical(FULL, [0]) + Physical(EOF_CODE, []) + Physical(FULL, data)
  }

  lemma TwiceSkippedRecords(data: Bytes, cfg: Settings)
    requires |data| < BLOCK - 22 && cfg.initial == 8
    ensures var f := TwiceSkipped(data);
            && |f| == 22 + |data|
            && (cfg.shift == 0 ==> ReadAt(f, cfg, 0) == Rejected(8, []) && ReadAt(f, cfg, 8) == Accepted(EOF_CODE, [], 8, 15))
            && (cfg.shift == -|f| ==> ReadAt(f, cfg, 15) == Accepted(FULL, data, LIMIT_64 - HEADER - |data|, |f|))
  {
    hide ReadAt, Physical;
    var f := TwiceSkipped(data);
    var a, b, c := Physical(FULL, [0]), Physical(EOF_CODE, []), Physical(FULL, data);
    assert f[..|f|] == f;
    assert f[0..8] == a && f[8..15] == b && f[15..22 + |data|] == c;
    ReadFragment(f, |f|, cfg, 0, FULL, [0]);
    ReadFragment(f, |f|, cfg, 8, EOF_CODE, []);
    ReadFragment(f, |f|, cfg, 15, FULL, data);
  }

  /** A file of less than a block is in the buffer as a whole once anything has been read. */
  lemma ShortFileBuffered(r: Reader, f: Bytes)
    requires r.Tracking() && r.place.seen == f && |f| < BLOCK && 0 < r.Pos() < |f|
    ensures r.place.end == |f| == |r.buffer| + r.Pos()
    ensures Skipped(r.place, BlockStart(8)) == Place(f, |f|, -|f|) && BlockStart(8) == 0
  {
    assert f[..|f|] == f && f + [] == f;
  }

  /** The first call stops at the record of type 5. The second one finds the record behind it, but
      skips first, and so returns it with an offset just below 2^64. */
  method SecondCallMisplaces(data: Bytes, checksum: bool, failsPastEnd: bool)
    returns (first: bool, second: bool, record: Bytes, offset: nat)
    requires |data| < BLOCK - 22
    ensures !first && second && record == data && offset == LIMIT_64 - HEADER - |data|
  {
    hide ReadAt, TwiceSkipped, Reader.Tracking, StopAt, LooksLikeEof, From, Reader.Finished;
    ghost var f, own, off := TwiceSkipped(data), Settings(checksum, true, 8, 0), Settings(checksum, true, 8, -|TwiceSkipped(data)|);
    TwiceSkippedRecords(data, own);
    TwiceSkippedRecords(data, off);
    var file := new SequentialFile(TwiceSkipped(data), failsPastEnd);
    var r := new Reader(file, Settings(checksum, true, 8, 0));
    assert NextRecord(f, own, 0, Fresh(true)) == Outcome(false, [], 0, 15, false, []);
    assert NextRecord(f, off, 15, Fresh(false)) == Outcome(true, data, LIMIT_64 - HEADER - |data|, |f|, false, []);
    var ignored: Bytes;
    first, ignored := r.ReadRecord();
    ShortFileBuffered(r, f);
    second, record := r.ReadRecord();
    offset := r.lastRecordOffset;
  }
}
