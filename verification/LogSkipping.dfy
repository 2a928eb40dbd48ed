/** What a reader reports about a clean log that it starts to read in the middle. */
module LogSkipping {
  import opened Coding
  import opened LogFormat
  import opened LogParse
  import opened LogReaderProperties
  import opened LogRecovery

  /** One report for each of these fragments that starts at or after the initial offset and lies inside
      the first n bytes. */
  function MissingStarts(fs: seq<Fragment>, n: nat, initial: nat): seq<Drop> {
    if fs == [] then [] else
      (if fs[0].start >= initial && fs[0].End() <= n then [Drop(|fs[0].data|, MissingStart)] else [])
      + MissingStarts(fs[1..], n, initial)
  }

  lemma {:induction false} MissingConcat(a: seq<Fragment>, b: seq<Fragment>, n: nat, initial: nat)
    ensures MissingStarts(a + b, n, initial) == MissingStarts(a, n, initial) + MissingStarts(b, n, initial)
  {
    if a == [] {
      assert a + b == b;
    } else {
      assert (a + b)[1..] == a[1..] + b;
      MissingConcat(a[1..], b, n, initial);
    }
  }

  /** Nothing is reported about fragments before the initial offset or behind the end of the file. */
  lemma {:induction false} NoneMissing(fs: seq<Fragment>, n: nat, initial: nat)
    requires forall k :: 0 <= k < |fs| ==> fs[k].start < initial || fs[k].End() > n
    ensures MissingStarts(fs, n, initial) == []
  {
    if fs != [] {
      assert forall k :: 0 <= k < |fs[1..]| ==> fs[1..][k] == fs[k + 1];
      NoneMissing(fs[1..], n, initial);
    }
  }

  lemma {:induction false} StartsFrom(pos: nat, fs: seq<Fragment>, k: nat)
    requires Placed(pos, fs) && k < |fs|
    ensures fs[k].start >= HeaderPos(pos) && fs[k].End() <= EndOf(pos, fs)
    decreases |fs|
  {
    hide Avail;
    if k > 0 {
      StartsFrom(fs[0].End(), fs[1..], k - 1);
    } else {
      EndBehind(pos, fs);
    }
  }

  lemma {:induction false} EndBehind(pos: nat, fs: seq<Fragment>)
    requires Placed(pos, fs) && fs != []
    ensures EndOf(pos, fs) >= fs[0].End()
    decreases |fs|
  {
    hide Avail;
    if |fs| > 1 {
      EndBehind(fs[0].End(), fs[1..]);
    }
  }

  /** A reader that is past the start of a record, and not passing over the rest, reports each of the
      fragments that are left; with begin, the first of them starts before the initial offset. */
  lemma {:induction false} RestReported(log: Bytes, n: nat, cfg: Config, pos: nat, payload: Bytes, begin: bool)
    requires n <= |log| && cfg.reporting && Holds(log, pos, PartBytes(pos, payload, begin))
    requires begin ==> HeaderPos(pos) < cfg.initial
    ensures var f, end, told := log[..n], pos + |PartBytes(pos, payload, begin)|, MissingStarts(Fragments(pos, payload, begin), n, cfg.initial);
            if end <= n then
              var rest := ReadAll(f, cfg, end, false);
              ReadAll(f, cfg, pos, false) == Reading(rest.found, told + rest.drops, rest.pos)
            else ReadAll(f, cfg, pos, false).drops == told && ReadAll(f, cfg, pos, false).found == []
    decreases |payload|, if Avail(pos) == 0 then 1 else 0
  {
    hide PartBytes, Avail, HeaderPos, ReadAt, Holds, ReadAll, ReadOn, Wrap, MissingStarts;
    var f := log[..n];
    NextAvail(pos);
    ReadFirst(log, n, cfg, pos, payload, begin);
    ReadAllIsReadOn(f, cfg, pos, false);
    ReadOnStep(f, cfg, pos, Fresh(false));
    var size := if |payload| < Avail(pos) then |payload| else Avail(pos);
    var next := HeaderPos(pos) + HEADER + size;
    MissingFirst(pos, payload, begin, n, cfg.initial);
    if next > n {
    } else {
      ReadAllIsReadOn(f, cfg, next, false);
      if size != |payload| {
        RestReported(log, n, cfg, next, payload[size..], false);
      }
    }
  }

  lemma MissingFirst(pos: nat, payload: Bytes, begin: bool, n: nat, initial: nat)
    ensures var size := if |payload| < Avail(pos) then |payload| else Avail(pos);
            var next := HeaderPos(pos) + HEADER + size;
            var told := MissingStarts(Fragments(pos, payload, begin), n, initial);
            if next > n then told == []
            else told == (if HeaderPos(pos) >= initial then [Drop(size, MissingStart)] else [])
                         + if size == |payload| then [] else MissingStarts(Fragments(next, payload[size..], false), n, initial)
  {
    hide HeaderPos, Avail;
    var size := if |payload| < Avail(pos) then |payload| else Avail(pos);
    var fs := Fragments(pos, payload, begin);
    var next := HeaderPos(pos) + HEADER + size;
    if next > n {
      FragmentsPlaced(pos, payload, begin);
      forall k | 0 <= k < |fs| ensures fs[k].End() > n {
        EndsBehindFirst(pos, fs, k);
      }
      NoneMissing(fs, n, initial);
    } else if size == |payload| {
      assert fs[1..] == [] && MissingStarts(fs[1..], n, initial) == [];
    } else {
      assert fs[1..] == Fragments(next, payload[size..], false);
    }
  }

  lemma {:induction false} EndsBehindFirst(pos: nat, fs: seq<Fragment>, k: nat)
    requires Placed(pos, fs) && k < |fs|
    ensures fs[k].End() >= fs[0].End()
  {
    hide Avail;
    if k > 0 {
      StartsFrom(fs[0].End(), fs[1..], k - 1);
    }
  }

  /** A reader that passes over the rest of a record reports nothing. */
  lemma {:induction false} RestSkipped(log: Bytes, n: nat, cfg: Config, pos: nat, payload: Bytes)
    requires n <= |log| && Holds(log, pos, PartBytes(pos, payload, false)) && cfg.initial <= HeaderPos(pos)
    ensures var f, end := log[..n], pos + |PartBytes(pos, payload, false)|;
            if end <= n then ReadAll(f, cfg, pos, true) == ReadAll(f, cfg, end, false)
            else ReadAll(f, cfg, pos, true).drops == [] && ReadAll(f, cfg, pos, true).found == []
    decreases |payload|, if Avail(pos) == 0 then 1 else 0
  {
    hide PartBytes, Avail, HeaderPos, ReadAt, Holds, ReadAll, ReadOn, Wrap, Report;
    var f := log[..n];
    NextAvail(pos);
    ReadFirst(log, n, cfg, pos, payload, false);
    ReadAllIsReadOn(f, cfg, pos, true);
    ReadOnStep(f, cfg, pos, Fresh(true));
    var size := if |payload| < Avail(pos) then |payload| else Avail(pos);
    var next := HeaderPos(pos) + HEADER + size;
    if next <= n {
      ReadAllIsReadOn(f, cfg, next, size != |payload|);
      if size != |payload| {
        NextAvail(next);
        RestSkipped(log, n, cfg, next, payload[size..]);
      }
    }
  }

  // ------------------------------------------------------------- whole logs

  /** The fragments at or after the initial offset of the records that start before it. */
  ghost function Spurious(pos: nat, records: seq<Bytes>, n: nat, initial: nat): seq<Drop>
    decreases |records|
  {
    hide RecordBytes;
    if records == [] then [] else
      (if HeaderPos(pos) < initial then MissingStarts(Fragments(pos, records[0], true), n, initial) else [])
      + Spurious(pos + |RecordBytes(pos, records[0])|, records[1..], n, initial)
  }

  lemma {:induction false} NothingSpurious(pos: nat, records: seq<Bytes>, n: nat, initial: nat)
    requires HeaderPos(pos) >= initial || pos > n
    ensures Spurious(pos, records, n, initial) == []
    decreases |records|
  {
    hide RecordBytes, Fragments, MissingStarts;
    if records != [] {
      NextAvail(pos);
      var end := pos + |RecordBytes(pos, records[0])|;
      RecordReaches(pos, records[0]);
      NextAvail(end);
      NothingSpurious(end, records[1..], n, initial);
      if pos > n {
        BeyondNothing(pos, records[0], n, initial);
      }
    }
  }

  lemma RecordReaches(pos: nat, payload: Bytes)
    ensures pos + |RecordBytes(pos, payload)| > HeaderPos(pos)
    ensures EndOf(pos, Fragments(pos, payload, true)) == pos + |RecordBytes(pos, payload)|
  {
    hide HeaderPos, Avail;
    var fs := Fragments(pos, payload, true);
    FragmentsPlaced(pos, payload, true);
    LayoutSize(pos, fs);
    EndBehind(pos, fs);
  }

  lemma BeyondNothing(pos: nat, payload: Bytes, n: nat, initial: nat)
    requires pos > n
    ensures MissingStarts(Fragments(pos, payload, true), n, initial) == []
  {
    hide HeaderPos, Avail, MissingStarts;
    var fs := Fragments(pos, payload, true);
    FragmentsPlaced(pos, payload, true);
    NextAvail(pos);
    forall k | 0 <= k < |fs| ensures fs[k].End() > n {
      StartsFrom(pos, fs, k);
    }
    NoneMissing(fs, n, initial);
  }

  /** A record that starts before the initial offset. */
  lemma RecordReported(log: Bytes, n: nat, cfg: Config, pos: nat, payload: Bytes)
    requires n <= |log| && cfg.reporting && Holds(log, pos, RecordBytes(pos, payload)) && HeaderPos(pos) < cfg.initial
    ensures var f, end, told := log[..n], pos + |RecordBytes(pos, payload)|, MissingStarts(Fragments(pos, payload, true), n, cfg.initial);
            if end <= n then ReadAll(f, cfg, pos, false).drops == told + ReadAll(f, cfg, end, false).drops
            else ReadAll(f, cfg, pos, false).drops == told
  {
    hide PartBytes, HeaderPos, Holds, ReadAll, Fragments, MissingStarts;
    RestReported(log, n, cfg, pos, payload, true);
  }

  /** From the start of a record on, a reader that has seen something else than the rest of a record. */
  lemma {:induction false} ReportsFrom(log: Bytes, n: nat, cfg: Config, pos: nat, records: seq<Bytes>)
    requires n <= |log| == pos + |LogBytes(pos, records)| && Holds(log, pos, LogBytes(pos, records)) && cfg.reporting
    ensures ReadAll(log[..n], cfg, pos, false).drops == Spurious(pos, records, n, cfg.initial)
    decreases |records|
  {
    hide RecordBytes, HeaderPos, Avail, ReadAt, Holds, NextRecord, Fragments, MissingStarts;
    var f := log[..n];
    if records == [] {
      PastTheEnd(f, cfg, pos);
      StopsAtEof(f, cfg, pos, false);
    } else {
      var b := RecordBytes(pos, records[0]);
      var end := pos + |b|;
      HoldsParts(log, pos, b, LogBytes(end, records[1..]));
      NextAvail(pos);
      if HeaderPos(pos) >= cfg.initial {
        ReadWhole(log, n, cfg, pos, records[0], false);
        RecordReaches(pos, records[0]);
        ReadRecords(log, n, cfg, end, records[1..], false);
        NothingSpurious(pos, records, n, cfg.initial);
      } else {
        RecordReported(log, n, cfg, pos, records[0]);
        if end <= n {
          ReportsFrom(log, n, cfg, end, records[1..]);
        } else {
          NothingSpurious(end, records[1..], n, cfg.initial);
        }
      }
    }
  }

  /** A first physical record that is rejected ends the passing over, so it might as well not have been. */
  lemma RejectedEndsResync(f: Bytes, cfg: Config, p: nat)
    requires cfg.initial > HeaderPos(p)
    ensures ReadAll(f, cfg, p, true) == ReadAll(f, cfg, p, false)
  {
    assert !ReadAt(f, cfg, p).Accepted? by { hide ChecksumMatches, ParsedLength, Report; }
    hide ReadAt, ReadAll, ReadOn;
    ReadAllIsReadOn(f, cfg, p, true);
    ReadAllIsReadOn(f, cfg, p, false);
    ReadOnStep(f, cfg, p, Fresh(true));
    ReadOnStep(f, cfg, p, Fresh(false));
  }

  lemma SameHeaderReports(f: Bytes, cfg: Config, p: nat, p': nat, r: bool)
    requires HeaderPos(p) == HeaderPos(p')
    ensures ReadAll(f, cfg, p, r).drops == ReadAll(f, cfg, p', r).drops
  {
    hide HeaderPos, Absorb, ChecksumMatches, ParsedLength, Report;
    assert ReadAt(f, cfg, p) == ReadAt(f, cfg, p') || (ReadAt(f, cfg, p).AtEof? && ReadAt(f, cfg, p').AtEof?);
    hide ReadAt;
    if ReadAt(f, cfg, p).AtEof? {
      StopsAtEof(f, cfg, p, r);
      StopsAtEof(f, cfg, p', r);
    }
  }

  lemma EndsBefore(pos: nat, payload: Bytes, n: nat, initial: nat)
    requires pos + |RecordBytes(pos, payload)| <= initial
    ensures MissingStarts(Fragments(pos, payload, true), n, initial) == []
  {
    hide HeaderPos, Avail, MissingStarts, RecordBytes;
    var fs := Fragments(pos, payload, true);
    FragmentsPlaced(pos, payload, true);
    RecordReaches(pos, payload);
    forall k | 0 <= k < |fs| ensures fs[k].start < initial {
      StartsFrom(pos, fs, k);
    }
    NoneMissing(fs, n, initial);
  }

  /** A reader that starts at a block boundary before its initial offset. */
  lemma {:induction false} ReportsFromBlock(log: Bytes, n: nat, cfg: Config, pos: nat, records: seq<Bytes>)
    requires n <= |log| == pos + |LogBytes(pos, records)| && Holds(log, pos, LogBytes(pos, records)) && cfg.reporting
    requires pos <= BlockStart(cfg.initial) < cfg.initial
    ensures ReadAll(log[..n], cfg, BlockStart(cfg.initial), false).drops == Spurious(pos, records, n, cfg.initial)
    decreases |records|
  {
    hide RecordBytes, PartBytes, HeaderPos, Avail, ReadAt, Holds, NextRecord, ReadAll, BlockStart, Fragments, MissingStarts;
    var f, start := log[..n], BlockStart(cfg.initial);
    BlockStartSkips(cfg.initial, pos);
    if records == [] {
      PastTheEnd(f, cfg, start);
      StopsAtEof(f, cfg, start, false);
    } else {
      var b := RecordBytes(pos, records[0]);
      var end := pos + |b|;
      HoldsParts(log, pos, b, LogBytes(end, records[1..]));
      if HeaderPos(pos) >= start {
        HeaderAtBlock(pos, start);
        SameHeaderReports(f, cfg, start, pos, false);
        ReportsFrom(log, n, cfg, pos, records);
      } else if end <= start {
        EndsBefore(pos, records[0], n, cfg.initial);
        ReportsFromBlock(log, n, cfg, end, records[1..]);
      } else {
        InsideReported(log, n, cfg, pos, records[0], start);
        if end <= n {
          ReportsFrom(log, n, cfg, end, records[1..]);
        } else {
          NothingSpurious(end, records[1..], n, cfg.initial);
        }
      }
    }
  }

  lemma InsideReported(log: Bytes, n: nat, cfg: Config, pos: nat, payload: Bytes, start: nat)
    requires n <= |log| && cfg.reporting && Holds(log, pos, RecordBytes(pos, payload))
    requires start % BLOCK == 0 && HeaderPos(pos) < start < pos + |RecordBytes(pos, payload)| && start < cfg.initial
    ensures var f, end, told := log[..n], pos + |RecordBytes(pos, payload)|, MissingStarts(Fragments(pos, payload, true), n, cfg.initial);
            if end <= n then ReadAll(f, cfg, start, false).drops == told + ReadAll(f, cfg, end, false).drops
            else ReadAll(f, cfg, start, false).drops == told
  {
    hide PartBytes, HeaderPos, Avail, ReadAt, Holds, NextRecord, ReadAll, Fragments, MissingStarts;
    var pos', payload', front := FragmentAtBlock(log, pos, payload, true, start);
    StartsAtHeader(start);
    SameHeaderReports(log[..n], cfg, start, pos', false);
    RestReported(log, n, cfg, pos', payload', false);
    MissingConcat(front, Fragments(pos', payload', false), n, cfg.initial);
    NoneMissing(front, n, cfg.initial);
  }

  /** A reader that starts at a block boundary at or after its initial offset. */
  lemma {:induction false} NoReportsFromBlock(log: Bytes, n: nat, cfg: Config, pos: nat, records: seq<Bytes>)
    requires n <= |log| == pos + |LogBytes(pos, records)| && Holds(log, pos, LogBytes(pos, records))
    requires pos <= BlockStart(cfg.initial) && cfg.initial <= BlockStart(cfg.initial)
    ensures ReadAll(log[..n], cfg, BlockStart(cfg.initial), true).drops == []
    decreases |records|
  {
    hide RecordBytes, PartBytes, HeaderPos, Avail, ReadAt, Holds, NextRecord, ReadAll, BlockStart, Fragments, MissingStarts;
    var f, start := log[..n], BlockStart(cfg.initial);
    BlockStartSkips(cfg.initial, pos);
    if records == [] {
      PastTheEnd(f, cfg, start);
      StopsAtEof(f, cfg, start, true);
    } else {
      var b := RecordBytes(pos, records[0]);
      var end := pos + |b|;
      HoldsParts(log, pos, b, LogBytes(end, records[1..]));
      RecordReaches(pos, records[0]);
      if HeaderPos(pos) >= start {
        HeaderAtBlock(pos, start);
        SameHeaderReports(f, cfg, start, pos, true);
        WholeIsSilent(log, n, cfg, pos, records[0], true);
        if end <= n {
          ReadRecords(log, n, cfg, end, records[1..], false);
        }
      } else if end <= start {
        NoReportsFromBlock(log, n, cfg, end, records[1..]);
      } else {
        InsideSkipped(log, n, cfg, pos, records[0], start);
        if end <= n {
          ReadRecords(log, n, cfg, end, records[1..], false);
        }
      }
    }
  }

  lemma WholeIsSilent(log: Bytes, n: nat, cfg: Config, pos: nat, payload: Bytes, r: bool)
    requires n <= |log| && cfg.initial <= HeaderPos(pos) && Holds(log, pos, RecordBytes(pos, payload))
    ensures var f, end := log[..n], pos + |RecordBytes(pos, payload)|;
            ReadAll(f, cfg, pos, r).drops == if end <= n then ReadAll(f, cfg, end, false).drops else []
  {
    hide RecordBytes, HeaderPos, NextRecord, Holds;
    ReadWhole(log, n, cfg, pos, payload, r);
  }

  lemma InsideSkipped(log: Bytes, n: nat, cfg: Config, pos: nat, payload: Bytes, start: nat)
    requires n <= |log| && Holds(log, pos, RecordBytes(pos, payload))
    requires start % BLOCK == 0 && HeaderPos(pos) < start < pos + |RecordBytes(pos, payload)| && cfg.initial <= start
    ensures var f, end := log[..n], pos + |RecordBytes(pos, payload)|;
            ReadAll(f, cfg, start, true).drops == if end <= n then ReadAll(f, cfg, end, false).drops else []
  {
    hide PartBytes, HeaderPos, Avail, ReadAt, Holds, NextRecord, ReadAll, Fragments;
    var pos', payload', front := FragmentAtBlock(log, pos, payload, true, start);
    StartsAtHeader(start);
    SameHeaderReports(log[..n], cfg, start, pos', true);
    RestSkipped(log, n, cfg, pos', payload');
  }

  /** What is reported about a log that is in order, cut off anywhere and read from any offset:
      nothing, if reading starts at or after that offset; if it starts before, each fragment at or
      after the offset of the record that starts before it. */
  lemma CleanLogReports(records: seq<Bytes>, n: nat, cfg: Config)
    requires cfg.reporting
    ensures ReadAll(Fit(LogBytes(0, records), n), cfg, BlockStart(cfg.initial), cfg.initial > 0).drops ==
              if cfg.initial <= BlockStart(cfg.initial) then [] else Spurious(0, records, n, cfg.initial)
  {
    hide LogBytes, ReadAll, BlockStart, Spurious;
    var log := LogBytes(0, records);
    var m := if n <= |log| then n else |log|;
    assert log[0..0 + |log|] == log && Fit(log, n) == log[..m];
    var start := BlockStart(cfg.initial);
    BlockStartSkips(cfg.initial, 0);
    StartsAtHeader(start);
    if cfg.initial == 0 {
      ReadRecords(log, m, cfg, 0, records, false);
    } else if cfg.initial <= start {
      NoReportsFromBlock(log, m, cfg, 0, records);
    } else {
      RejectedEndsResync(log[..m], cfg, start);
      ReportsFromBlock(log, m, cfg, 0, records);
      if n > |log| {
        SpuriousBeyond(0, records, n, m, cfg.initial);
      }
    }
  }

  /** Once all records are wholly inside, more room makes no difference. */
  lemma {:induction false} SpuriousBeyond(pos: nat, records: seq<Bytes>, n: nat, m: nat, initial: nat)
    requires n >= pos + |LogBytes(pos, records)| && m >= pos + |LogBytes(pos, records)|
    ensures Spurious(pos, records, n, initial) == Spurious(pos, records, m, initial)
    decreases |records|
  {
    hide RecordBytes, HeaderPos, Fragments, MissingStarts;
    if records != [] {
      var end := pos + |RecordBytes(pos, records[0])|;
      SpuriousBeyond(end, records[1..], n, m, initial);
      RecordReaches(pos, records[0]);
      FragmentsPlaced(pos, records[0], true);
      MissingBeyond(pos, Fragments(pos, records[0], true), n, m, initial);
    }
  }

  lemma {:induction false} MissingBeyond(pos: nat, fs: seq<Fragment>, n: nat, m: nat, initial: nat)
    requires Placed(pos, fs) && n >= EndOf(pos, fs) && m >= EndOf(pos, fs)
    ensures MissingStarts(fs, n, initial) == MissingStarts(fs, m, initial)
    decreases |fs|
  {
    hide Avail;
    if fs != [] {
      EndBehind(pos, fs);
      MissingBeyond(fs[0].End(), fs[1..], n, m, initial);
    }
  }

  // -------------------------------------------------------- when it is silent

  /** The record written at pos starts before the initial offset, and has a fragment at or after it that
      lies inside the first n bytes. */
  ghost predicate Straddles(pos: nat, payload: Bytes, n: nat, initial: nat) {
    HeaderPos(pos) < initial && exists g :: g in Fragments(pos, payload, true) && g.start >= initial && g.End() <= n
  }

  lemma {:induction false} MissingIff(fs: seq<Fragment>, n: nat, initial: nat)
    ensures MissingStarts(fs, n, initial) == [] <==> forall g :: g in fs ==> g.start < initial || g.End() > n
  {
    if fs != [] {
      MissingIff(fs[1..], n, initial);
      assert fs[0] in fs && forall g :: g in fs <==> g == fs[0] || g in fs[1..];
    }
  }

  /** Where record k of a log is written. */
  ghost function WrittenAt(pos: nat, records: seq<Bytes>, k: nat): nat
    requires k <= |records|
    decreases |records|
  {
    hide RecordBytes;
    if k == 0 then pos else WrittenAt(pos + |RecordBytes(pos, records[0])|, records[1..], k - 1)
  }

  /** That is the length of what is written before it. */
  lemma {:induction false} WrittenBehind(pos: nat, records: seq<Bytes>, k: nat)
    requires k <= |records|
    ensures WrittenAt(pos, records, k) == pos + |LogBytes(pos, records[..k])|
    decreases |records|
  {
    hide RecordBytes;
    if k > 0 {
      assert records[..k][1..] == records[1..][..k - 1];
      WrittenBehind(pos + |RecordBytes(pos, records[0])|, records[1..], k - 1);
    }
  }

  lemma {:induction false} SpuriousIff(pos: nat, records: seq<Bytes>, n: nat, initial: nat)
    ensures Spurious(pos, records, n, initial) == [] <==>
              forall k :: 0 <= k < |records| ==> !Straddles(WrittenAt(pos, records, k), records[k], n, initial)
    decreases |records|
  {
    hide RecordBytes, HeaderPos, Fragments, MissingStarts, Straddles;
    if records != [] {
      var end := pos + |RecordBytes(pos, records[0])|;
      SpuriousIff(end, records[1..], n, initial);
      StraddlesIff(pos, records[0], n, initial);
      assert WrittenAt(pos, records, 0) == pos;
      assert forall k :: 0 <= k < |records[1..]| ==>
               records[1..][k] == records[k + 1] && WrittenAt(end, records[1..], k) == WrittenAt(pos, records, k + 1);
      if Spurious(pos, records, n, initial) == [] {
        forall k | 0 <= k < |records| ensures !Straddles(WrittenAt(pos, records, k), records[k], n, initial) {
          if k > 0 {
            assert records[1..][k - 1] == records[k];
          }
        }
      } else if Straddles(pos, records[0], n, initial) {
        assert Straddles(WrittenAt(pos, records, 0), records[0], n, initial);
      } else {
        var k :| 0 <= k < |records[1..]| && Straddles(WrittenAt(end, records[1..], k), records[1..][k], n, initial);
        assert Straddles(WrittenAt(pos, records, k + 1), records[k + 1], n, initial);
      }
    }
  }

  lemma StraddlesIff(pos: nat, payload: Bytes, n: nat, initial: nat)
    ensures Straddles(pos, payload, n, initial) <==>
              HeaderPos(pos) < initial && MissingStarts(Fragments(pos, payload, true), n, initial) != []
  {
    hide HeaderPos, Fragments, MissingStarts;
    MissingIff(Fragments(pos, payload, true), n, initial);
  }

  /** So a log that is in order is read without a report exactly if reading starts at or after the
      initial offset, or no record extends past that offset from before it. */
  lemma CleanLogSilentIff(records: seq<Bytes>, n: nat, cfg: Config)
    requires cfg.reporting
    ensures ReadAll(Fit(LogBytes(0, records), n), cfg, BlockStart(cfg.initial), cfg.initial > 0).drops == [] <==>
              cfg.initial <= BlockStart(cfg.initial) ||
              forall k :: 0 <= k < |records| ==> !Straddles(WrittenAt(0, records, k), records[k], n, cfg.initial)
  {
    hide LogBytes, ReadAll, BlockStart, Spurious, WrittenAt, Straddles;
    CleanLogReports(records, n, cfg);
    SpuriousIff(0, records, n, cfg.initial);
  }

  /** The second case does occur: a log of one record that fills more than a block, read from offset 1. */
  lemma SkipIntoRecordIsReported(payload: Bytes, cfg: Config)
    requires cfg.reporting && cfg.initial == 1 && |payload| > BLOCK - HEADER
    ensures var drops := ReadAll(LogBytes(0, [payload]), cfg, 0, true).drops; drops != [] && drops[0].reason == MissingStart
  {
    hide LogBytes, ReadAll, Fragments, MissingStarts;
    var log := LogBytes(0, [payload]);
    CleanLogReports([payload], |log|, cfg);
    assert Fit(log, |log|) == log && BlockStart(1) == 0;
    OneRecord(payload, cfg.initial);
    var fs := Fragments(0, payload, true);
    SecondFragment(payload);
    RecordReaches(0, payload);
    FragmentsPlaced(0, payload, true);
    StartsFrom(0, fs, 1);
    MissingIff(fs, |log|, 1);
    assert fs[1] in fs;
    OnlyMissingStarts(fs, |log|, 1);
  }

  lemma OneRecord(payload: Bytes, initial: nat)
    requires initial > 0
    ensures LogBytes(0, [payload]) == RecordBytes(0, payload)
    ensures var n := |RecordBytes(0, payload)|; Spurious(0, [payload], n, initial) == MissingStarts(Fragments(0, payload, true), n, initial)
  {
    hide RecordBytes, Fragments, MissingStarts;
    var b := RecordBytes(0, payload);
    assert [payload][1..] == [] && LogBytes(|b|, []) == [] && b + [] == b;
    assert Spurious(|b|, [], |b|, initial) == [];
    var told := MissingStarts(Fragments(0, payload, true), |b|, initial);
    assert told + [] == told;
  }

  lemma SecondFragment(payload: Bytes)
    requires |payload| > BLOCK - HEADER
    ensures |Fragments(0, payload, true)| > 1 && Fragments(0, payload, true)[1].start == BLOCK
  {
    FragmentsStep(0, payload, true);
    FragmentsStep(BLOCK, payload[BLOCK - HEADER..], false);
  }

  lemma {:induction false} OnlyMissingStarts(fs: seq<Fragment>, n: nat, initial: nat)
    ensures forall k :: 0 <= k < |MissingStarts(fs, n, initial)| ==> MissingStarts(fs, n, initial)[k].reason == MissingStart
  {
    if fs != [] {
      OnlyMissingStarts(fs[1..], n, initial);
    }
  }
}
