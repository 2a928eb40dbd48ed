/** The log reader with its block buffer, proved against reading by position. */
module LogReader {
  import opened Coding
  import opened LogFormat
  import opened LogParse
  import Crc32c
  import opened LogReaderProperties

  /** A file read front to back: a read falls short only at the end. Skipping past the end may fail. */
  class SequentialFile {
    const contents: Bytes
    const failsPastEnd: bool
    var pos: nat

    constructor (contents: Bytes, failsPastEnd: bool)
      ensures this.contents == contents && this.failsPastEnd == failsPastEnd && pos == 0
    {
      this.contents, this.failsPastEnd, pos := contents, failsPastEnd, 0;
    }

    method Read(n: nat) returns (s: Bytes)
      modifies this
      ensures old(pos) >= |contents| ==> s == []
      ensures old(pos) + n <= |contents| ==> s == contents[old(pos)..old(pos) + n]
      ensures old(pos) < |contents| < old(pos) + n ==> s == contents[old(pos)..]
      ensures pos == old(pos) + |s|
    {
      s := if pos >= |contents| then [] else if pos + n <= |contents| then contents[pos..pos + n] else contents[pos..];
      pos := pos + |s|;
    }

    method Skip(n: nat) returns (ok: bool)
      modifies this
      ensures ok <==> !(failsPastEnd && old(pos) + n > |contents|)
      ensures ok ==> pos == old(pos) + n
      ensures pos >= old(pos)
    {
      ok := !(failsPastEnd && pos + n > |contents|);
      if ok {
        pos := pos + n;
      } else {
        pos := if pos > |contents| then pos else |contents|;
      }
    }
  }

  // ----------------------------------------------- where a reader stands

  /** What is left of s from position p on. */
  function From(s: Bytes, p: nat): Bytes {
    if p <= |s| then s[p..] else []
  }

  lemma FromFrom(s: Bytes, p: nat, n: nat)
    ensures From(From(s, p), n) == From(s, p + n)
  {
  }

  /** What a reader takes for the file, how much of it has gone through the buffer, and how far the
      reader's own offsets are ahead of the positions in it. */
  datatype Place = Place(seen: Bytes, end: nat, shift: int)

  /** A skip to the first block takes an untouched reader there. It makes any other one miss as many
      bytes of the file, from the end of the buffer on, and take the offset of that end for start. */
  function Skipped(at: Place, start: nat): Place {
    if at.end == 0 then Place(at.seen, start, 0)
    else Place(Fit(at.seen, at.end) + From(at.seen, at.end + start), at.end, start - at.end)
  }

  /** A reader that has looked at the file before sees the same bytes at the same offsets after a skip
      exactly if the end of its buffer already had the first block's offset, and there is nothing to
      be missed. */
  lemma SkipAgainIsHarmless(at: Place, start: nat)
    requires at.end > 0
    ensures Skipped(at, start) == at <==> start == at.end + at.shift && (start == 0 || at.end >= |at.seen|)
  {
    var head, tail := Fit(at.seen, at.end), From(at.seen, at.end + start);
    if at.end < |at.seen| && start == 0 {
      assert head + tail == at.seen;
    } else if at.end < |at.seen| {
      assert |head + tail| < |at.seen|;
    }
  }

  /** The place in the file of what lies at q in what such a skip lets the reader see. */
  function PlaceInFile(at: Place, start: nat, q: nat): nat {
    if q < at.end then q else q + start
  }

  lemma SkipAgainShowsFile(at: Place, start: nat, q: nat)
    requires at.end > 0 && q < |Skipped(at, start).seen|
    ensures PlaceInFile(at, start, q) < |at.seen| && Skipped(at, start).seen[q] == at.seen[PlaceInFile(at, start, q)]
  {
  }

  /** After such a skip the reader's own offset of a record is that of the record's place in the file
      only if the record was in the buffer and the buffer ended at the first block. For a reader that
      has been there before, and so stands no earlier than at start, that is never. */
  lemma SkipAgainOffset(at: Place, start: nat, q: nat)
    requires 0 < at.end < LIMIT_64 && start < LIMIT_64
    ensures Wrap(q + Skipped(at, start).shift) == PlaceInFile(at, start, q) <==> q < at.end == start
    ensures start <= q ==> Wrap(q + Skipped(at, start).shift) != PlaceInFile(at, start, q)
  {
  }

  /** What a skip leaves to be read. */
  lemma FromSkipped(at: Place, start: nat)
    ensures From(Skipped(at, start).seen, Skipped(at, start).end) == From(at.seen, at.end + start)
  {
    var head, tail := Fit(at.seen, at.end), From(at.seen, at.end + start);
    if 0 < at.end <= |at.seen| {
      assert (head + tail)[at.end..] == tail;
    }
  }

  /** The buffer holds what is left of the block last read. */
  predicate Buffered(at: Place, buffer: Bytes, eof: bool) {
    && |buffer| <= at.end
    && (buffer != [] ==>
          && at.end <= |at.seen|
          && buffer == at.seen[at.end - |buffer|..at.end]
          && at.end <= BlockEnd(at.end - |buffer|))
    && (!eof ==> at.end % BLOCK == 0)
    && (eof ==> at.end >= |at.seen|)
    && (eof && buffer != [] ==> at.end % BLOCK != 0)
  }

  /** A skip does not touch the buffer. */
  lemma SkipKeepsBuffer(at: Place, buffer: Bytes, eof: bool, start: nat)
    requires Buffered(at, buffer, eof) && start % BLOCK == 0
    ensures Buffered(Skipped(at, start), buffer, eof)
  {
    hide BlockEnd;
    if at.end > 0 {
      var head, tail := Fit(at.seen, at.end), From(at.seen, at.end + start);
      if at.end <= |at.seen| {
        assert (head + tail)[at.end - |buffer|..at.end] == at.seen[at.end - |buffer|..at.end];
      }
    }
  }

  /** A refill: the next block, or the rest of the last one. */
  lemma RefillBuffers(at: Place, size: nat)
    requires at.end % BLOCK == 0 && size == |Fit(From(at.seen, at.end), BLOCK)|
    ensures Buffered(at.(end := at.end + size), Fit(From(at.seen, at.end), BLOCK), size < BLOCK)
  {
    OneBlockOn(at.end);
    if 0 < size < BLOCK {
      WithinBlock(at.end, size);
    }
    hide BlockEnd;
    if size > 0 {
      SameBlockEnd(at.end);
    }
  }

  lemma SameBlockEnd(offset: nat)
    requires offset % BLOCK == 0
    ensures BlockEnd(offset) == offset + BLOCK
  {
  }

  class Reader {
    const file: SequentialFile
    const cfg: Config
    var buffer: Bytes
    var eof: bool
    var lastRecordOffset: nat
    var endOfBufferOffset: nat
    var resyncing: bool
    var drops: seq<Drop>    // what the reporter has been told
    ghost var place: Place

    constructor (file: SequentialFile, cfg: Config)
      requires file.pos == 0
      ensures this.file == file && this.cfg == cfg
      ensures Valid() && Tracking() && place == Place(file.contents, 0, 0) && Pos() == 0 && file.pos == 0
      ensures lastRecordOffset == 0 && resyncing == (cfg.initial > 0) && drops == []
    {
      this.file, this.cfg := file, cfg;
      buffer, eof, lastRecordOffset, endOfBufferOffset := [], false, 0, 0;
      resyncing := cfg.initial > 0;
      drops := [];
      place := Place(file.contents, 0, 0);
    }

    /** The position of the next byte to be looked at. */
    ghost function Pos(): nat
      reads this`place, this`buffer
    {
      if |buffer| <= place.end then place.end - |buffer| else 0
    }

    /** The settings, with the reader's own offsets. */
    ghost function Own(): Settings
      reads this`place
    {
      cfg.(shift := place.shift)
    }

    /** The buffer is in order, and what is left of the file is what has yet to be seen. */
    ghost predicate Tracking()
      reads this`buffer, this`eof, this`endOfBufferOffset, this`place, file
    {
      && Buffered(place, buffer, eof)
      && endOfBufferOffset == place.end + place.shift
      && From(file.contents, file.pos) == From(place.seen, place.end)
    }

    /** Every call skips, and fails to. */
    ghost predicate Stuck()
      reads this`lastRecordOffset, file
    {
      lastRecordOffset < cfg.initial && SkipFails()
    }

    ghost predicate SkipFails()
      reads file
    {
      BlockStart(cfg.initial) > 0 && file.failsPastEnd && file.pos + BlockStart(cfg.initial) > |file.contents|
    }

    ghost predicate Valid()
      reads this, file
    {
      Tracking() || Stuck()
    }

    /** Nothing is left to be read. */
    ghost predicate Drained()
      reads this`buffer, this`eof
    {
      eof && buffer == []
    }

    ghost function Remaining(): nat
      reads this`buffer, file
    {
      |buffer| + |From(file.contents, file.pos)|
    }

    method ReportDrop(bytes: nat, reason: Reason)
      modifies this`drops
      ensures drops == old(drops) + ReportAt(endOfBufferOffset - |buffer| - bytes, bytes, reason)
    {
      if cfg.reporting && Wrap(endOfBufferOffset - |buffer| - bytes) >= cfg.initial {
        drops := drops + [Drop(bytes, reason)];
      }
    }

    ghost function ReportAt(at: int, bytes: nat, reason: Reason): seq<Drop> {
      if cfg.reporting && Wrap(at) >= cfg.initial then [Drop(bytes, reason)] else []
    }

    /** In terms of positions, these are the reports of the physical and logical records. */
    lemma ReportAtPos(bytes: nat, reason: Reason)
      requires Tracking()
      ensures ReportAt(endOfBufferOffset - |buffer| - bytes, bytes, reason) == Report(Own(), Pos(), bytes, reason)
    {
    }

    lemma HeaderInBuffer()
      requires Tracking() && |buffer| >= HEADER
      ensures var f, q := place.seen, Pos();
              && HeaderPos(q) == q && q + HEADER <= |f|
              && (BlockEnd(q) <= |f| <==> !eof) && (eof ==> place.end == |f|)
              && (if BlockEnd(q) <= |f| then BlockEnd(q) else |f|) == place.end
              && f[q..place.end] == buffer
    {
    }

    /** What the parse of a full header in the buffer amounts to, by position. */
    lemma ReadAtHeader()
      requires Tracking() && |buffer| >= HEADER
      ensures var length, end, own := ParsedLength(buffer), place.end, Own();
              var next := Pos() + HEADER + length;
              ReadAt(place.seen, own, Pos()) ==
                if HEADER + length > |buffer| then
                  if eof then AtEof(end) else Rejected(end, Report(own, end, |buffer|, BadRecordLength))
                else if buffer[6] == ZERO_TYPE && length == 0 then Rejected(end, [])
                else if cfg.checksum && !ChecksumMatches(buffer) then Rejected(end, Report(own, end, |buffer|, ChecksumMismatch))
                else if Wrap(Pos() + place.shift) < cfg.initial then Rejected(next, [])
                else Accepted(buffer[6], buffer[HEADER..HEADER + length], Wrap(Pos() + place.shift), next)
    {
      hide ReadAt, ChecksumMatches, ParsedLength, Report, Wrap, HeaderPos, BlockEnd, Tracking;
      HeaderInBuffer();
      ReadAtBytes(place.seen, Own(), Pos(), place.end, buffer);
    }

    method CompareChecksum(header: Bytes) returns (matches: bool)
      requires |header| >= HEADER && |header| >= HEADER + ParsedLength(header)
      ensures matches == ChecksumMatches(header)
    {
      hide ParsedLength, Crc32c.Crc, Crc32c.Unmask, DecodeFixed32;
      var address: nat := *;
      var expected := Crc32c.Unmask(DecodeFixed32(header));
      var actual := Crc32c.Extend(0, header[6..HEADER + ParsedLength(header)], address);
      matches := actual == expected;
    }

    /** The part of ReadPhysicalRecord behind the refill: a whole header is in the buffer. */
    method ParsePhysicalRecord(previous: Bytes) returns (t: bv8, fragment: Bytes)
      requires Tracking() && |buffer| >= HEADER
      modifies this`buffer, this`drops
      ensures |buffer| < |old(buffer)|
      ensures var ph := ReadAt(place.seen, Own(), old(Pos()));
              && Tracking() && t == ph.Code() && (ph.Accepted? ==> fragment == ph.data)
              && Pos() == ph.next && drops == old(drops) + ph.Drops()
              && (ph.AtEof? ==> Drained())
    {
      hide ChecksumMatches, ParsedLength, Report, Wrap, ReportAt, ReadAt, Buffered, From;
      ReadAtHeader();
      BufferBehind(place, buffer, eof);
      t, fragment := BAD_CODE, previous;
      var header := buffer;
      var length := ParsedLength(header);
      if HEADER + length > |buffer| {
        var dropSize := |buffer|;
        buffer := [];
        if !eof {
          ReportAtPos(dropSize, BadRecordLength);
          ReportDrop(dropSize, BadRecordLength);
          return;
        }
        return EOF_CODE, previous;
      }
      if header[6] == ZERO_TYPE && length == 0 {
        buffer := [];
        return;
      }
      if cfg.checksum {
        var matches := CompareChecksum(header);
        if !matches {
          var dropSize := |buffer|;
          buffer := [];
          ReportAtPos(dropSize, ChecksumMismatch);
          ReportDrop(dropSize, ChecksumMismatch);
          return;
        }
      }
      buffer := buffer[HEADER + length..];
      if Wrap(endOfBufferOffset - |buffer| - HEADER - length) < cfg.initial {
        fragment := [];
        return;
      }
      return header[6], header[HEADER..HEADER + length];
    }

    /** A refill does not change what is read next: too few bytes are left for a header. */
    lemma RefillKeeps()
      requires Tracking() && |buffer| < HEADER && !eof
      ensures ReadAt(place.seen, Own(), Pos()) == ReadAt(place.seen, Own(), place.end)
    {
      hide ChecksumMatches, ParsedLength, Report, HeaderPos, BlockEnd, Wrap;
      TooShortForHeader(Pos(), place.end);
    }

    lemma NothingLeft()
      requires Tracking() && |buffer| < HEADER && eof
      ensures ReadAt(place.seen, Own(), Pos()) == AtEof(place.end)
    {
      hide ChecksumMatches, ParsedLength, Report, Wrap;
    }

    method Refill()
      requires Tracking() && |buffer| < HEADER && !eof
      modifies this`buffer, this`endOfBufferOffset, this`eof, this`place, file
      ensures |buffer| < HEADER ==> eof
      ensures Remaining() <= old(Remaining())
      ensures Tracking() && Pos() == old(place.end) && place == old(place).(end := place.end)
    {
      hide Buffered, Fit;
      BlockBoundary(place, buffer);
      ghost var at, rest := place, From(file.contents, file.pos);
      buffer := [];
      buffer := ReadBlock();
      RefillBuffers(at, |buffer|);
      FromFrom(at.seen, at.end, |buffer|);
      endOfBufferOffset := endOfBufferOffset + |buffer|;
      place := at.(end := at.end + |buffer|);
      if |buffer| < BLOCK {
        eof := true;
      }
      StandsBefore(place, buffer, eof);
    }

    method ReadBlock() returns (s: Bytes)
      modifies file
      ensures s == Fit(From(file.contents, old(file.pos)), BLOCK)
      ensures From(file.contents, file.pos) == From(From(file.contents, old(file.pos)), |s|)
      ensures |s| < BLOCK ==> From(file.contents, file.pos) == []
      ensures |s| + |From(file.contents, file.pos)| == |From(file.contents, old(file.pos))|
    {
      s := file.Read(BLOCK);
    }

    /** The type of the next physical record, or EOF_CODE or BAD_CODE, and the new value of the caller's
        fragment. */
    method ReadPhysicalRecord(previous: Bytes) returns (t: bv8, fragment: Bytes)
      requires Tracking()
      modifies this`buffer, this`endOfBufferOffset, this`eof, this`drops, this`place, file
      ensures t != EOF_CODE ==> Remaining() < old(Remaining())
      ensures place == old(place).(end := place.end)
      ensures var ph := ReadAt(place.seen, Own(), old(Pos()));
              && Tracking() && t == ph.Code() && (ph.Accepted? ==> fragment == ph.data)
              && Pos() == ph.next && drops == old(drops) + ph.Drops()
              && (ph.AtEof? ==> Drained())
    {
      hide ReadAt, Buffered, From;
      while true
        invariant Tracking() && drops == old(drops) && place == old(place).(end := place.end)
        invariant ReadAt(place.seen, Own(), old(Pos())) == ReadAt(place.seen, Own(), Pos())
        invariant Remaining() <= old(Remaining())
        decreases if |buffer| < HEADER then (if eof then 1 else 2) else 0
      {
        if |buffer| < HEADER {
          if !eof {
            RefillKeeps();
            Refill();
            continue;
          }
          NothingLeft();
          BufferBehind(place, buffer, eof);
          buffer := [];
          return EOF_CODE, previous;
        }
        t, fragment := ParsePhysicalRecord(previous);
        return;
      }
    }

    /** Moves to the first block, from wherever the reader stands. */
    method SkipToInitialBlock() returns (ok: bool)
      requires Tracking() || SkipFails()
      modifies this`endOfBufferOffset, this`drops, this`place, file
      ensures ok <==> !old(SkipFails())
      ensures ok ==> Tracking() && place == Skipped(old(place), BlockStart(cfg.initial)) && drops == old(drops)
      ensures !ok ==> SkipFails() && place == old(place)
                      && drops == old(drops) + ReportAt(-|buffer|, BlockStart(cfg.initial), SkipFailed)
    {
      hide ReportAt, Fit, Buffered, From;
      var offsetInBlock := cfg.initial % BLOCK;
      var blockStartLocation := cfg.initial - offsetInBlock;
      if offsetInBlock > BLOCK - 6 {
        blockStartLocation := blockStartLocation + BLOCK;
      }
      assert blockStartLocation == BlockStart(cfg.initial);
      LogReaderProperties.BlockStartSkips(cfg.initial, 0);
      if !SkipFails() {
        SkipMissesBytes(blockStartLocation);
        SkipKeepsBuffer(place, buffer, eof, blockStartLocation);
      }
      endOfBufferOffset := blockStartLocation;
      ok := true;
      if blockStartLocation > 0 {
        ok := file.Skip(blockStartLocation);
        if !ok {
          ReportDrop(blockStartLocation, SkipFailed);
          return;
        }
      }
      place := Skipped(place, blockStartLocation);
    }

    lemma SkipMissesBytes(start: nat)
      requires Tracking()
      ensures From(file.contents, file.pos + start) == From(Skipped(place, start).seen, Skipped(place, start).end)
    {
      hide From, Skipped, Buffered;
      FromFrom(file.contents, file.pos, start);
      FromFrom(place.seen, place.end, start);
      FromSkipped(place, start);
    }

    /** An accepted record as the reader sees it: its own offset of the record follows from where it
        stands behind it. */
    ghost predicate Consistent(ph: Phys, fragment: Bytes)
      reads this`place
    {
      ph.Accepted? ==> fragment == ph.data && ph.start == Wrap(ph.next + place.shift - HEADER - |ph.data|)
    }

    /** The switch of ReadRecord: one physical record of the given type is added to the assembly a. */
    method AddFragment(t: bv8, fragment: Bytes, a: Assembly, ghost ph: Phys)
      returns (done: bool, ok: bool, record: Bytes, a': Assembly)
      requires a.resyncing == resyncing
      requires Tracking() && Pos() == ph.next && t == ph.Code() && Consistent(ph, fragment)
      modifies this`resyncing, this`drops, this`lastRecordOffset
      ensures t == EOF_CODE ==> done && !ok
      ensures !done ==> lastRecordOffset == old(lastRecordOffset) && a'.resyncing == resyncing
      ensures var step := Absorb(Own(), a, ph);
              && drops == old(drops) + step.drops
              && (if done then
                    && step.Return? && ok == step.found && resyncing == step.resyncing
                    && (if ok then record == step.record && lastRecordOffset == step.offset
                        else lastRecordOffset == old(lastRecordOffset) && t == EOF_CODE)
                  else step == Continue(a', step.drops))
    {
      hide Report, Wrap, ReportAt, Tracking;
      OwnOffsets();
      var physicalRecordOffset := Wrap(endOfBufferOffset - |buffer| - HEADER - |fragment|);
      done, ok, record, a' := false, false, [], a;
      if resyncing {
        if t == MIDDLE {
          return;
        } else if t == LAST {
          resyncing := false;
          a' := a.(resyncing := false);
          return;
        } else {
          resyncing := false;
        }
      }
      a' := a'.(resyncing := false);
      if t == FULL {
        if a.fragmented && a.scratch != [] {
          ReportAtPos(|a.scratch|, PartialRecord);
          ReportDrop(|a.scratch|, PartialRecord);
        }
        lastRecordOffset := physicalRecordOffset;
        done, ok, record := true, true, fragment;
      } else if t == FIRST {
        if a.fragmented && a.scratch != [] {
          ReportAtPos(|a.scratch|, PartialRecord);
          ReportDrop(|a.scratch|, PartialRecord);
        }
        a' := Assembly(false, true, fragment, physicalRecordOffset);
      } else if t == MIDDLE {
        if !a.fragmented {
          ReportAtPos(|fragment|, MissingStart);
          ReportDrop(|fragment|, MissingStart);
        } else {
          a' := a'.(scratch := a.scratch + fragment);
        }
      } else if t == LAST {
        if !a.fragmented {
          ReportAtPos(|fragment|, MissingStart);
          ReportDrop(|fragment|, MissingStart);
        } else {
          lastRecordOffset := a.offset;
          done, ok, record := true, true, a.scratch + fragment;
        }
      } else if t == EOF_CODE {
        done := true;
      } else if t == BAD_CODE {
        if a.fragmented {
          ReportAtPos(|a.scratch|, ErrorInMiddle);
          ReportDrop(|a.scratch|, ErrorInMiddle);
          a' := a'.(fragmented := false, scratch := []);
        }
      } else {
        ReportAtPos(|fragment| + (if a.fragmented then |a.scratch| else 0), UnknownType);
        ReportDrop(|fragment| + (if a.fragmented then |a.scratch| else 0), UnknownType);
        a' := a'.(fragmented := false, scratch := []);
      }
    }

    lemma OwnOffsets()
      requires Tracking()
      ensures endOfBufferOffset - |buffer| == Pos() + place.shift
    {
    }

    /** One pass of the loop of ReadRecord. */
    method TakeRecord(previous: Bytes, a: Assembly) returns (fragment: Bytes, done: bool, ok: bool, record: Bytes, a': Assembly)
      requires Tracking() && a.resyncing == resyncing
      modifies this, file
      ensures Tracking() && place == old(place).(end := place.end)
      ensures !done ==> Remaining() < old(Remaining()) && lastRecordOffset == old(lastRecordOffset) && a'.resyncing == resyncing
      ensures var ph := ReadAt(place.seen, Own(), old(Pos()));
              var step := Absorb(Own(), a, ph);
              && Pos() == ph.next && drops == old(drops) + (ph.Drops() + step.drops)
              && (if done then
                    && step.Return? && ok == step.found && resyncing == step.resyncing
                    && (if ok then record == step.record && lastRecordOffset == step.offset
                        else lastRecordOffset == old(lastRecordOffset) && ph.Code() == EOF_CODE && (ph.AtEof? ==> Drained()))
                  else step == Continue(a', step.drops))
    {
      hide ReadAt, Absorb, Wrap, Tracking, From;
      ghost var ph := ReadAt(place.seen, Own(), Pos());
      AcceptedSize(place.seen, Own(), Pos());
      var t: bv8;
      t, fragment := ReadPhysicalRecord(previous);
      done, ok, record, a' := AddFragment(t, fragment, a, ph);
    }

    /** The loop of ReadRecord. */
    method AssembleRecord() returns (ok: bool, record: Bytes)
      requires Tracking()
      modifies this, file
      ensures Tracking() && place == old(place).(end := place.end)
      ensures var o := NextRecord(place.seen, Own(), old(Pos()), Fresh(old(resyncing)));
              && ok == o.found
              && (ok ==> record == o.record)
              && lastRecordOffset == (if ok then o.offset else old(lastRecordOffset))
              && Pos() == o.pos && resyncing == o.resyncing && drops == old(drops) + o.drops
      ensures !ok ==> Drained() || LooksLikeEof(place.seen, Own(), StopAt(place.seen, Own(), old(Pos())))
    {
      hide ReadAt, Absorb, NextRecord, StopAt, Tracking, LooksLikeEof, From;
      ghost var at, f, own := place, place.seen, Own();
      ghost var full, stop, told := NextRecord(f, own, Pos(), Fresh(resyncing)), StopAt(f, own, Pos()), [];
      var a := Fresh(resyncing);
      var fragment: Bytes := [];
      while true
        invariant a.resyncing == resyncing && lastRecordOffset == old(lastRecordOffset)
        invariant Tracking() && place == at.(end := place.end)
        invariant drops == old(drops) + told && StopAt(f, own, Pos()) == stop
        invariant full == Told(told, NextRecord(f, own, Pos(), a))
        decreases Remaining()
      {
        OneStep(f, own, Pos(), a);
        ghost var ph, step := ReadAt(f, own, Pos()), Absorb(own, a, ReadAt(f, own, Pos()));
        var done: bool;
        fragment, done, ok, record, a := TakeRecord(fragment, a);
        told := told + (ph.Drops() + step.drops);
        if done {
          return;
        }
      }
    }

    /** One call, in any state. A reader that has returned nothing yet first skips to its first block:
        the first time it gets there, every further time it misses that many bytes. */
    method ReadRecord() returns (ok: bool, record: Bytes)
      requires Valid()
      modifies this, file
      ensures Valid()
      ensures old(lastRecordOffset) < cfg.initial && old(SkipFails()) ==>
        !ok && Stuck() && lastRecordOffset == old(lastRecordOffset)
        && drops == old(drops) + ReportAt(-|buffer|, BlockStart(cfg.initial), SkipFailed)
      ensures !(old(lastRecordOffset) < cfg.initial && old(SkipFails())) ==>
        var start := if old(lastRecordOffset) < cfg.initial then Skipped(old(place), BlockStart(cfg.initial)) else old(place);
        var o := NextRecord(start.seen, cfg.(shift := start.shift), Before(start, old(buffer)), Fresh(old(resyncing)));
        && Tracking() && place == start.(end := place.end) && Pos() == o.pos
        && ok == o.found && (ok ==> record == o.record)
        && lastRecordOffset == (if ok then o.offset else old(lastRecordOffset))
        && resyncing == o.resyncing && drops == old(drops) + o.drops
        && (!ok ==> Drained() || LooksLikeEof(start.seen, cfg.(shift := start.shift),
                                              StopAt(start.seen, cfg.(shift := start.shift), Before(start, old(buffer)))))
      ensures old(Finished()) ==> !ok
      ensures old(Finished()) ==> Finished()
    {
      hide NextRecord, ReadAt, BlockEnd, BlockStart, Tracking, StopAt, LooksLikeEof;
      if lastRecordOffset < cfg.initial {
        var skipped := SkipToInitialBlock();
        if !skipped {
          return false, [];
        }
      }
      if eof && buffer == [] {
        DrainedStops();
      }
      ok, record := AssembleRecord();
    }

    /** No later call will find anything. */
    ghost predicate Finished()
      reads this, file
    {
      Stuck() || (Tracking() && Drained())
    }

    lemma DrainedStops()
      requires Tracking() && Drained()
      ensures !NextRecord(place.seen, Own(), Pos(), Fresh(resyncing)).found
      ensures !LooksLikeEof(place.seen, Own(), StopAt(place.seen, Own(), Pos()))
    {
      hide ReadAt;
      PastTheEnd(place.seen, Own(), Pos());
    }
  }

  /** The position of the first byte of the buffer, at the end of which the reader stands. */
  function Before(at: Place, buffer: Bytes): nat {
    if |buffer| <= at.end then at.end - |buffer| else 0
  }

  /** The buffer ends where the reader stands, and what is taken from its front leaves it in order. */
  lemma BufferBehind(at: Place, buffer: Bytes, eof: bool)
    requires Buffered(at, buffer, eof)
    ensures |buffer| <= at.end
    ensures forall k :: 0 <= k <= |buffer| ==> Buffered(at, buffer[k..], eof)
    ensures Buffered(at, [], eof)
  {
    hide BlockEnd;
    forall k | 0 <= k <= |buffer|
      ensures Buffered(at, buffer[k..], eof)
    {
      BlockEndGrows(at.end - |buffer|, at.end - |buffer| + k);
    }
  }

  lemma BlockEndGrows(p: nat, q: nat)
    requires p <= q
    ensures BlockEnd(p) <= BlockEnd(q)
  {
  }

  lemma ReadAtBytes(f: Bytes, cfg: Settings, q: nat, end: nat, b: Bytes)
    requires HeaderPos(q) == q && q + HEADER <= |f| && end == (if BlockEnd(q) <= |f| then BlockEnd(q) else |f|)
    requires q <= end && b == f[q..end] && |b| >= HEADER
    ensures var length := ParsedLength(b);
            var next := q + HEADER + length;
            ReadAt(f, cfg, q) ==
              if HEADER + length > |b| then
                if BlockEnd(q) > |f| then AtEof(|f|) else Rejected(end, Report(cfg, end, |b|, BadRecordLength))
              else if b[6] == ZERO_TYPE && length == 0 then Rejected(end, [])
              else if cfg.checksum && !ChecksumMatches(b) then Rejected(end, Report(cfg, end, |b|, ChecksumMismatch))
              else if Wrap(q + cfg.shift) < cfg.initial then Rejected(next, [])
              else Accepted(b[6], b[HEADER..HEADER + length], Wrap(q + cfg.shift), next)
  {
    hide ChecksumMatches, ParsedLength, Report, Wrap, HeaderPos, BlockEnd;
  }

  lemma BlockBoundary(at: Place, buffer: Bytes)
    requires Buffered(at, buffer, false)
    ensures at.end % BLOCK == 0
  {
  }

  lemma StandsBefore(at: Place, buffer: Bytes, eof: bool)
    requires Buffered(at, buffer, eof)
    ensures |buffer| <= at.end
  {
  }

  lemma AcceptedSize(f: Bytes, cfg: Settings, p: nat)
    ensures var ph := ReadAt(f, cfg, p);
            ph.Accepted? ==> ph.start == Wrap(ph.next + cfg.shift - HEADER - |ph.data|)
  {
  }

  /** An outcome with what had been reported before. */
  function Told(before: seq<Drop>, o: Outcome): Outcome {
    o.(drops := before + o.drops)
  }

  /** A physical record either ends the call or is followed by the rest of it. */
  lemma OneStep(f: Bytes, cfg: Settings, p: nat, a: Assembly)
    ensures var ph, step, o := ReadAt(f, cfg, p), Absorb(cfg, a, ReadAt(f, cfg, p)), NextRecord(f, cfg, p, a);
            && (step.Return? ==> o == Outcome(step.found, step.record, step.offset, ph.next, step.resyncing, ph.Drops() + step.drops))
            && (step.Continue? ==> forall before :: Told(before, o) == Told(before + (ph.Drops() + step.drops), NextRecord(f, cfg, ph.next, step.a)))
            && (step.Continue? ==> StopAt(f, cfg, p) == StopAt(f, cfg, ph.next))
            && (ph.Code() == EOF_CODE ==> StopAt(f, cfg, p) == p)
            && (ph.Code() == EOF_CODE ==> ph.AtEof? || LooksLikeEof(f, cfg, p))
  {
    hide ReadAt, Report;
    var ph, step := ReadAt(f, cfg, p), Absorb(cfg, a, ReadAt(f, cfg, p));
    if step.Continue? {
      var more, rest := ph.Drops() + step.drops, NextRecord(f, cfg, ph.next, step.a);
      forall before: seq<Drop>
        ensures before + (more + rest.drops) == before + more + rest.drops
      {
      }
    }
  }

  /** From the last few bytes of a block the next header is at the block's end. */
  lemma TooShortForHeader(p: nat, end: nat)
    requires end % BLOCK == 0 && p <= end < p + HEADER
    ensures HeaderPos(p) == end == HeaderPos(end)
  {
    if p < end {
      RemainderUnique(p, BLOCK, end / BLOCK - 1, BLOCK - (end - p));
    }
  }

  lemma OneBlockOn(offset: nat)
    requires offset % BLOCK == 0
    ensures BlockEnd(offset) == offset + BLOCK && (offset + BLOCK) % BLOCK == 0
  {
  }

  lemma WithinBlock(offset: nat, r: nat)
    requires offset % BLOCK == 0 && 0 < r < BLOCK
    ensures (offset + r) % BLOCK != 0
  {
  }
}
