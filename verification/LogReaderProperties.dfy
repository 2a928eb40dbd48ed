/** What reading a log by position guarantees: for arbitrary bytes, and for a clean log that has
    been cut off anywhere and is read from any offset. */
module LogReaderProperties {
  import opened Coding
  import opened LogFormat
  import opened LogParse

  // ---------------------------------------------------------- arbitrary bytes

  /** Physical records fs are accepted one right after the other from position p to position end. */
  ghost predicate AcceptedRun(f: Bytes, cfg: Settings, p: nat, fs: seq<Fragment>, end: nat)
    decreases |fs|
  {
    if fs == [] then p == end else
      var ph := ReadAt(f, cfg, p);
      && ph.Accepted? && fs[0] == Fragment(ph.start, ph.t, ph.data)
      && AcceptedRun(f, cfg, ph.next, fs[1..], end)
  }

  lemma {:induction false} RunSnoc(f: Bytes, cfg: Settings, p: nat, fs: seq<Fragment>, end: nat)
    requires AcceptedRun(f, cfg, p, fs, end) && ReadAt(f, cfg, end).Accepted?
    ensures var ph := ReadAt(f, cfg, end);
            AcceptedRun(f, cfg, p, fs + [Fragment(ph.start, ph.t, ph.data)], ph.next)
    decreases |fs|
  {
    hide ReadAt;
    var ph := ReadAt(f, cfg, end);
    var g := Fragment(ph.start, ph.t, ph.data);
    if fs == [] {
      assert fs + [g] == [g] && [g][1..] == [];
      assert AcceptedRun(f, cfg, ph.next, [], ph.next);
    } else {
      assert (fs + [g])[1..] == fs[1..] + [g];
      RunSnoc(f, cfg, ReadAt(f, cfg, p).next, fs[1..], end);
    }
  }

  /** A FIRST fragment and MIDDLE ones. */
  predicate Open(fs: seq<Fragment>) {
    fs != [] && fs[0].t == FIRST && forall k :: 1 <= k < |fs| ==> fs[k].t == MIDDLE
  }

  lemma {:induction false} DataSnoc(fs: seq<Fragment>, g: Fragment)
    ensures DataOf(fs + [g]) == DataOf(fs) + g.data
  {
    if fs == [] {
      assert fs + [g] == [g] && [g][1..] == [];
      assert DataOf([g]) == g.data + DataOf([]);
    } else {
      assert (fs + [g])[1..] == fs[1..] + [g];
      DataSnoc(fs[1..], g);
    }
  }

  lemma {:induction false} MiddlesThenLast(fs: seq<Fragment>, g: Fragment)
    requires g.t == LAST && forall k :: 0 <= k < |fs| ==> fs[k].t == MIDDLE
    ensures Continuation(fs + [g])
  {
    if fs != [] {
      assert (fs + [g])[1..] == fs[1..] + [g];
      MiddlesThenLast(fs[1..], g);
    }
  }

  lemma OpenThenLast(fs: seq<Fragment>, g: Fragment)
    requires Open(fs) && g.t == LAST
    ensures WholeRecord(fs + [g])
  {
    assert (fs + [g])[1..] == fs[1..] + [g];
    MiddlesThenLast(fs[1..], g);
  }

  /** The accepted fragments so far, from first, when a record is being assembled. */
  ghost predicate Assembled(f: Bytes, cfg: Settings, first: nat, fs: seq<Fragment>, p: nat, a: Assembly) {
    a.fragmented ==>
      && !a.resyncing
      && AcceptedRun(f, cfg, first, fs, p) && Open(fs) && a.scratch == DataOf(fs) && a.offset == fs[0].start
  }

  /** Whatever the file holds, a record that is returned is one accepted FULL payload, or the payloads
      of a FIRST, MIDDLE* and LAST record accepted one right after the other. */
  ghost predicate IsWhole(f: Bytes, cfg: Settings, o: Outcome, first: nat, fs: seq<Fragment>) {
    && AcceptedRun(f, cfg, first, fs, o.pos) && WholeRecord(fs)
    && o.record == DataOf(fs) && o.offset == fs[0].start
  }

  lemma {:induction false} AssembleWhole(f: Bytes, cfg: Settings, p: nat, a: Assembly, first: nat, fs: seq<Fragment>)
    returns (first': nat, fs': seq<Fragment>)
    requires Assembled(f, cfg, first, fs, p, a)
    ensures NextRecord(f, cfg, p, a).found ==> IsWhole(f, cfg, NextRecord(f, cfg, p, a), first', fs')
    ensures first' == first || Reaches(f, cfg, p, first')
    decreases if p <= |f| then |f| - p else 0
  {
    hide ReadAt, AcceptedRun, WholeRecord, DataOf, Open, Report;
    var ph := ReadAt(f, cfg, p);
    var step := Absorb(cfg, a, ph);
    first', fs' := first, fs;
    if ph.Accepted? {
      var g := Fragment(ph.start, ph.t, ph.data);
      OneFragment(f, cfg, p);
      if a.fragmented {
        RunSnoc(f, cfg, first, fs, p);
        DataSnoc(fs, g);
        OpenSnoc(fs, g);
      }
      if ph.t == FULL || ph.t == FIRST {
        first', fs' := p, [g];
      } else {
        fs' := fs + [g];
      }
    }
    if step.Continue? {
      first', fs' := AssembleWhole(f, cfg, ph.next, step.a, first', fs');
    }
  }

  lemma OneFragment(f: Bytes, cfg: Settings, p: nat)
    requires ReadAt(f, cfg, p).Accepted?
    ensures var ph := ReadAt(f, cfg, p);
            var g := Fragment(ph.start, ph.t, ph.data);
            && AcceptedRun(f, cfg, p, [g], ph.next) && DataOf([g]) == g.data
            && (ph.t == FULL ==> WholeRecord([g])) && (ph.t == FIRST ==> Open([g]))
  {
    hide ReadAt;
    var ph := ReadAt(f, cfg, p);
    var g := Fragment(ph.start, ph.t, ph.data);
    assert [g][1..] == [] && AcceptedRun(f, cfg, ph.next, [], ph.next);
    assert DataOf([g]) == g.data + DataOf([]);
  }

  lemma OpenSnoc(fs: seq<Fragment>, g: Fragment)
    requires Open(fs)
    ensures g.t == MIDDLE ==> Open(fs + [g])
    ensures g.t == LAST ==> WholeRecord(fs + [g])
    ensures (fs + [g])[0] == fs[0]
  {
    if g.t == LAST {
      OpenThenLast(fs, g);
    }
  }

  lemma ReturnedIsWhole(f: Bytes, cfg: Settings, p: nat, resyncing: bool)
    requires NextRecord(f, cfg, p, Fresh(resyncing)).found
    ensures exists first, fs :: IsWhole(f, cfg, NextRecord(f, cfg, p, Fresh(resyncing)), first, fs)
  {
    var first, fs := AssembleWhole(f, cfg, p, Fresh(resyncing), p, []);
  }

  // ------------------------------------------------------ where a reading ends

  /** Taking one physical record after the other, one comes from position p to position q. */
  ghost predicate Reaches(f: Bytes, cfg: Settings, p: nat, q: nat)
    decreases if p <= |f| then |f| - p else 0
  {
    p == q || (!ReadAt(f, cfg, p).AtEof? && Reaches(f, cfg, ReadAt(f, cfg, p).next, q))
  }

  /** An accepted physical record whose type byte on disk is that of kEof. */
  predicate LooksLikeEof(f: Bytes, cfg: Settings, q: nat) {
    var ph := ReadAt(f, cfg, q);
    ph.Accepted? && ph.t == EOF_CODE
  }

  /** The physical record at which the reader stops, whatever it has assembled until then. */
  function StopAt(f: Bytes, cfg: Settings, p: nat): nat
    decreases if p <= |f| then |f| - p else 0
  {
    var ph := ReadAt(f, cfg, p);
    if ph.Code() == EOF_CODE then p else StopAt(f, cfg, ph.next)
  }

  /** Where the last physical record of the file ends, or the cut-off rest of one. */
  function ChainEnd(f: Bytes, cfg: Settings, p: nat): nat
    decreases if p <= |f| then |f| - p else 0
  {
    var ph := ReadAt(f, cfg, p);
    if ph.AtEof? then ph.next else ChainEnd(f, cfg, ph.next)
  }

  /** A call goes no further than there, and gets there if it returns false. */
  lemma {:induction false} CallStops(f: Bytes, cfg: Settings, p: nat, a: Assembly)
    ensures var o := NextRecord(f, cfg, p, a);
            if o.found then StopAt(f, cfg, o.pos) == StopAt(f, cfg, p)
            else o.pos == ReadAt(f, cfg, StopAt(f, cfg, p)).next
    decreases if p <= |f| then |f| - p else 0
  {
    hide ReadAt, Report;
    var ph := ReadAt(f, cfg, p);
    var step := Absorb(cfg, a, ph);
    if step.Continue? {
      CallStops(f, cfg, ph.next, step.a);
    }
  }

  /** So do the calls up to the first that returns false. */
  lemma {:induction false} ReadingStops(f: Bytes, cfg: Settings, p: nat, r: bool)
    ensures ReadAll(f, cfg, p, r).pos == ReadAt(f, cfg, StopAt(f, cfg, p)).next
    decreases if p <= |f| then |f| - p else 0
  {
    hide ReadAt, NextRecord, StopAt;
    CallStops(f, cfg, p, Fresh(r));
    var o := NextRecord(f, cfg, p, Fresh(r));
    if o.found {
      FoundAdvances(f, cfg, p, Fresh(r));
      ReadingStops(f, cfg, o.pos, o.resyncing);
    }
  }

  /** The reader stops at the first record it can come to that looks like the end of the file, and at
      the end of the file if there is none. */
  lemma {:induction false} StopIsFirst(f: Bytes, cfg: Settings, p: nat)
    ensures var last := StopAt(f, cfg, p);
            && Reaches(f, cfg, p, last)
            && (ReadAt(f, cfg, last).AtEof? || LooksLikeEof(f, cfg, last))
            && (ReadAt(f, cfg, last).AtEof? ==> ReadAt(f, cfg, last).next == ChainEnd(f, cfg, p))
    ensures forall q :: Reaches(f, cfg, p, q) && LooksLikeEof(f, cfg, q) ==>
              LooksLikeEof(f, cfg, StopAt(f, cfg, p)) && ReadAt(f, cfg, StopAt(f, cfg, p)).next <= ReadAt(f, cfg, q).next
    decreases if p <= |f| then |f| - p else 0
  {
    hide ReadAt;
    var ph := ReadAt(f, cfg, p);
    if ph.Code() == EOF_CODE {
      forall q | Reaches(f, cfg, p, q) && LooksLikeEof(f, cfg, q)
        ensures LooksLikeEof(f, cfg, p) && ph.next <= ReadAt(f, cfg, q).next
      {
        if q != p {
          ReachesUp(f, cfg, p, q);
        }
      }
    } else {
      StopIsFirst(f, cfg, ph.next);
    }
  }

  lemma {:induction false} ReachesUp(f: Bytes, cfg: Settings, p: nat, q: nat)
    requires Reaches(f, cfg, p, q) && q != p
    ensures !ReadAt(f, cfg, p).AtEof? && ReadAt(f, cfg, p).next <= q
    ensures !ReadAt(f, cfg, q).AtEof? ==> ReadAt(f, cfg, p).next <= ReadAt(f, cfg, q).next
    decreases if p <= |f| then |f| - p else 0
  {
    hide ReadAt;
    var next := ReadAt(f, cfg, p).next;
    if q != next {
      ReachesUp(f, cfg, next, q);
    }
  }

  /** A call never leaves the reader further back than it was. */
  lemma {:induction false} NeverBack(f: Bytes, cfg: Settings, p: nat, a: Assembly)
    ensures NextRecord(f, cfg, p, a).pos >= p
    decreases if p <= |f| then |f| - p else 0
  {
    hide Report;
    var step := Absorb(cfg, a, ReadAt(f, cfg, p));
    NextNotBehind(f, cfg, p);
    hide ReadAt;
    if step.Continue? {
      NeverBack(f, cfg, ReadAt(f, cfg, p).next, step.a);
    }
  }

  lemma NextNotBehind(f: Bytes, cfg: Settings, p: nat)
    ensures ReadAt(f, cfg, p).next >= p
  {
    hide ChecksumMatches, ParsedLength, Report;
  }

  /** A reading stops at something else than the end of the file exactly if it can come to an accepted
      record of on-disk type 5. */
  lemma StopsAtEndIff(f: Bytes, cfg: Settings, p: nat)
    ensures ReadAt(f, cfg, StopAt(f, cfg, p)).AtEof? <==> forall q :: Reaches(f, cfg, p, q) ==> !LooksLikeEof(f, cfg, q)
  {
    hide ReadAt, StopAt, Reaches;
    StopIsFirst(f, cfg, p);
  }

  /** It stops short of where the records end exactly if one of those has records behind it. */
  lemma StopsShortIff(f: Bytes, cfg: Settings, p: nat, r: bool)
    ensures ReadAll(f, cfg, p, r).pos < ChainEnd(f, cfg, p) <==>
              exists q :: Reaches(f, cfg, p, q) && LooksLikeEof(f, cfg, q) && ReadAt(f, cfg, q).next < ChainEnd(f, cfg, p)
  {
    hide ReadAt, StopAt, Reaches, ChainEnd, LooksLikeEof, ReadAll;
    ReadingStops(f, cfg, p, r);
    StopIsFirst(f, cfg, p);
  }

  /** A call that returns false has either come to the end of the file, where all later calls return
      false too, or has met an accepted physical record whose type byte on disk is that of kEof. */
  lemma WhyFalse(f: Bytes, cfg: Settings, p: nat, a: Assembly)
    requires !NextRecord(f, cfg, p, a).found
    ensures var ph, o := ReadAt(f, cfg, StopAt(f, cfg, p)), NextRecord(f, cfg, p, a);
            && ph.next == o.pos && Reaches(f, cfg, p, StopAt(f, cfg, p))
            && (ph.AtEof? ==> o.pos >= |f| && forall r :: NextRecord(f, cfg, o.pos, Fresh(r)) == Outcome(false, [], 0, o.pos, false, []))
            && (!ph.AtEof? ==> LooksLikeEof(f, cfg, StopAt(f, cfg, p)) && o.pos <= |f|)
  {
    hide ReadAt, StopAt, Reaches, NextRecord;
    CallStops(f, cfg, p, a);
    StopIsFirst(f, cfg, p);
    if ReadAt(f, cfg, StopAt(f, cfg, p)).AtEof? {
      EofIsFinal(f, cfg, StopAt(f, cfg, p));
    }
  }

  lemma EofIsFinal(f: Bytes, cfg: Settings, p: nat)
    requires ReadAt(f, cfg, p).AtEof?
    ensures var end := ReadAt(f, cfg, p).next;
            && end >= |f| && ReadAt(f, cfg, end) == AtEof(end)
            && forall r :: NextRecord(f, cfg, end, Fresh(r)) == Outcome(false, [], 0, end, false, [])
  {
    hide ChecksumMatches, ParsedLength, Report;
  }

  /** The second case does occur: an empty record of on-disk type 5 makes one call return false, and the
      next call returns the record behind it. */
  lemma TypeFiveStopsEarly(data: Bytes, checksum: bool)
    requires |data| <= BLOCK - 2 * HEADER
    ensures var f, cfg := Physical(EOF_CODE, []) + Physical(FULL, data), Settings(checksum, true, 0, 0);
            && NextRecord(f, cfg, 0, Fresh(false)) == Outcome(false, [], 0, HEADER, false, [])
            && NextRecord(f, cfg, HEADER, Fresh(false)) == Outcome(true, data, HEADER, 2 * HEADER + |data|, false, [])
  {
    hide ReadAt, Physical;
    var f, cfg := Physical(EOF_CODE, []) + Physical(FULL, data), Settings(checksum, true, 0, 0);
    assert f[..|f|] == f;
    assert f[0..HEADER] == Physical(EOF_CODE, []);
    assert f[HEADER..HEADER + (HEADER + |data|)] == Physical(FULL, data);
    ReadFragment(f, |f|, cfg, 0, EOF_CODE, []);
    ReadFragment(f, |f|, cfg, HEADER, FULL, data);
  }

  /** An accepted record of on-disk type 6 does to the assembly what a rejected one does that nobody
      reports; one of any other unknown type is reported. */
  lemma TypeSixIsRejected(cfg: Settings, a: Assembly, t: bv8, data: Bytes, start: nat, next: nat)
    requires t !in {FULL, FIRST, MIDDLE, LAST, EOF_CODE}
    ensures var lost := if a.fragmented then |a.scratch| else 0;
            Absorb(cfg, a, Accepted(t, data, start, next)).drops ==
              if t == BAD_CODE then Absorb(cfg, a, Rejected(next, [])).drops
              else Report(cfg, next, |data| + lost, UnknownType)
    ensures t == BAD_CODE ==> Absorb(cfg, a, Accepted(t, data, start, next)) == Absorb(cfg, a, Rejected(next, []))
  {
  }

  /** So a record of on-disk type 6 vanishes without a report, and one of type 7 does not. */
  lemma TypeSixIsSilent(data: Bytes, checksum: bool)
    requires |data| <= BLOCK - HEADER
    ensures var cfg := Settings(checksum, true, 0, 0);
            && NextRecord(Physical(BAD_CODE, data), cfg, 0, Fresh(false)) == Outcome(false, [], 0, HEADER + |data|, false, [])
            && NextRecord(Physical(7, data), cfg, 0, Fresh(false)) == Outcome(false, [], 0, HEADER + |data|, false, [Drop(|data|, UnknownType)])
  {
    hide ReadAt, Physical;
    var cfg := Settings(checksum, true, 0, 0);
    OneRecordFile(BAD_CODE, data, cfg);
    OneRecordFile(7, data, cfg);
  }

  lemma OneRecordFile(t: bv8, data: Bytes, cfg: Config)
    requires |data| <= BLOCK - HEADER && t != ZERO_TYPE && cfg.initial == 0
    ensures var f := Physical(t, data);
            ReadAt(f, cfg, 0) == Accepted(t, data, 0, HEADER + |data|) && ReadAt(f, cfg, |f|) == AtEof(|f|)
  {
    hide ReadAt, Physical;
    var f := Physical(t, data);
    assert f[..|f|] == f && f[0..|f|] == f;
    ReadFragment(f, |f|, cfg, 0, t, data);
    PastTheEnd(f, cfg, |f|);
  }

  // -------------------------------------------------------------- clean logs

  /** log has b at position pos. */
  ghost predicate Holds(log: Bytes, pos: nat, b: Bytes) {
    pos + |b| <= |log| && log[pos..pos + |b|] == b
  }

  lemma HoldsParts(log: Bytes, pos: nat, a: Bytes, b: Bytes)
    requires Holds(log, pos, a + b)
    ensures Holds(log, pos, a) && Holds(log, pos + |a|, b)
  {
    var s := log[pos..pos + |a + b|];
    assert log[pos..pos + |a|] == s[..|a|] == a;
    assert log[pos + |a|..pos + |a| + |b|] == s[|a|..] == b;
  }

  /** What a reader finds at pos in the first n bytes of a log that has fragment g there: the whole
      fragment, or the end of the file. */
  lemma ReadFragment(log: Bytes, n: nat, cfg: Settings, pos: nat, t: bv8, data: Bytes)
    requires n <= |log| && |data| <= Avail(pos) && (t != ZERO_TYPE || data != [])
    requires Holds(log, HeaderPos(pos), Physical(t, data))
    ensures var start := HeaderPos(pos);
            var end := start + HEADER + |data|;
            ReadAt(log[..n], cfg, pos) ==
              if end > n then AtEof(if pos > n then pos else n)
              else if Wrap(start + cfg.shift) < cfg.initial then Rejected(end, [])
              else Accepted(t, data, Wrap(start + cfg.shift), end)
  {
    hide Physical, ChecksumMatches, ParsedLength, Report, Wrap;
    var f, q := log[..n], HeaderPos(pos);
    var end := q + HEADER + |data|;
    EndsInBlock(pos, |data|);
    if q + HEADER <= n {
      var limit := if BlockEnd(q) <= n then BlockEnd(q) else n;
      var b := f[q..limit];
      var whole := log[q..end];
      assert whole == Physical(t, data);
      PhysicalParses(t, data, []);
      assert whole + [] == whole;
      if end <= n {
        PhysicalParses(t, data, f[end..limit]);
        SliceThrough(log, n, q, end, limit);
      } else {
        SliceShort(log, n, q, end, limit);
        SameLength(b, whole);
      }
    }
  }

  lemma SliceThrough(log: Bytes, n: nat, q: nat, end: nat, limit: nat)
    requires q <= end <= limit <= n <= |log|
    ensures log[..n][q..limit] == log[q..end] + log[..n][end..limit]
  {
  }

  lemma SliceShort(log: Bytes, n: nat, q: nat, end: nat, limit: nat)
    requires q <= limit <= n <= end <= |log|
    ensures log[..n][q..limit] == log[q..end][..limit - q]
  {
  }

  lemma EndsInBlock(pos: nat, size: nat)
    requires size <= Avail(pos)
    ensures HeaderPos(pos) + HEADER + size <= BlockEnd(HeaderPos(pos))
    ensures size <= 0xffff
  {
  }

  lemma SameLength(b: Bytes, whole: Bytes)
    requires HEADER <= |b| <= |whole| && b == whole[..|b|]
    ensures ParsedLength(b) == ParsedLength(whole)
  {
  }

  /** The first fragment of a payload, or of the rest of one, as a reader finds it, and what follows. */
  lemma ReadFirst(log: Bytes, n: nat, cfg: Config, pos: nat, payload: Bytes, begin: bool)
    requires n <= |log| && Holds(log, pos, PartBytes(pos, payload, begin))
    ensures var size := if |payload| < Avail(pos) then |payload| else Avail(pos);
            var end := HeaderPos(pos) + HEADER + size;
            && end <= pos + |PartBytes(pos, payload, begin)|
            && ReadAt(log[..n], cfg, pos) ==
                 (if end > n then AtEof(if pos > n then pos else n)
                  else if HeaderPos(pos) < cfg.initial then Rejected(end, [])
                  else Accepted(FragmentType(begin, size == |payload|), payload[..size], HeaderPos(pos), end))
            && (if size == |payload| then pos + |PartBytes(pos, payload, begin)| == end
                else
                  && pos + |PartBytes(pos, payload, begin)| == end + |PartBytes(end, payload[size..], false)|
                  && Holds(log, end, PartBytes(end, payload[size..], false)))
  {
    hide Physical, Zeros, PartBytes, Lead, Avail, ReadAt;
    PartStep(pos, payload, begin);
    var size := if |payload| < Avail(pos) then |payload| else Avail(pos);
    var end := HeaderPos(pos) + HEADER + size;
    var t := FragmentType(begin, size == |payload|);
    ZerosSize(pos);
    EndsInBlock(pos, size);
    var phys := Physical(t, payload[..size]);
    var rest := if size == |payload| then [] else PartBytes(end, payload[size..], false);
    assert (Zeros(Lead(pos)) + phys) + [] == Zeros(Lead(pos)) + phys;
    HoldsParts(log, pos, Zeros(Lead(pos)) + phys, rest);
    HoldsParts(log, pos, Zeros(Lead(pos)), phys);
    ReadFragment(log, n, cfg, pos, t, payload[..size]);
  }

  lemma ZerosSize(pos: nat)
    ensures |Zeros(Lead(pos))| == Lead(pos) && pos + Lead(pos) == HeaderPos(pos)
  {
  }

  /** What an accepted continuation, or the end of the file, does to a record being assembled. */
  lemma Continues(f: Bytes, cfg: Settings, p: nat, scratch: Bytes, offset: nat)
    ensures var ph, o := ReadAt(f, cfg, p), NextRecord(f, cfg, p, Assembly(false, true, scratch, offset));
            && (ph.AtEof? ==> o == Outcome(false, [], 0, ph.next, false, []))
            && (ph.Accepted? && ph.t == LAST ==> o == Outcome(true, scratch + ph.data, offset, ph.next, false, []))
            && (ph.Accepted? && ph.t == MIDDLE ==> o == NextRecord(f, cfg, ph.next, Assembly(false, true, scratch + ph.data, offset)))
  {
    hide ReadAt, Report;
  }

  /** The rest of a record whose first fragment has been taken in. */
  lemma {:induction false} ReadPart(log: Bytes, n: nat, cfg: Config, pos: nat, payload: Bytes, scratch: Bytes, offset: nat)
    requires pos <= n <= |log| && cfg.initial <= pos && Holds(log, pos, PartBytes(pos, payload, false))
    ensures var end := pos + |PartBytes(pos, payload, false)|;
            NextRecord(log[..n], cfg, pos, Assembly(false, true, scratch, offset)) ==
              if end <= n then Outcome(true, scratch + payload, offset, end, false, [])
              else Outcome(false, [], 0, n, false, [])
    decreases |payload|, if Avail(pos) == 0 then 1 else 0
  {
    hide PartBytes, HeaderPos, Avail, ReadAt, Holds, Wrap, NextRecord;
    Continues(log[..n], cfg, pos, scratch, offset);
    NextAvail(pos);
    ReadFirst(log, n, cfg, pos, payload, false);
    var size := if |payload| < Avail(pos) then |payload| else Avail(pos);
    var end := HeaderPos(pos) + HEADER + size;
    if end <= n && size != |payload| {
      ReadPart(log, n, cfg, end, payload[size..], scratch + payload[..size], offset);
      assert scratch + payload[..size] + payload[size..] == scratch + payload;
    } else {
      assert payload[..|payload|] == payload;
    }
  }

  lemma NextAvail(pos: nat)
    ensures HeaderPos(pos) >= pos
    ensures Avail(pos) == 0 ==> Avail(HeaderPos(pos) + HEADER) > 0
  {
  }

  /** A record that starts at or after the initial offset. */
  lemma ReadWhole(log: Bytes, n: nat, cfg: Config, pos: nat, payload: Bytes, resyncing: bool)
    requires n <= |log| && cfg.initial <= HeaderPos(pos) && Holds(log, pos, RecordBytes(pos, payload))
    ensures var end := pos + |RecordBytes(pos, payload)|;
            NextRecord(log[..n], cfg, pos, Fresh(resyncing)) ==
              if end <= n then Outcome(true, payload, HeaderPos(pos), end, false, [])
              else Outcome(false, [], 0, if pos > n then pos else n, false, [])
  {
    hide PartBytes, HeaderPos, Avail, ReadAt, Holds, Wrap, Report;
    ReadFirst(log, n, cfg, pos, payload, true);
    var size := if |payload| < Avail(pos) then |payload| else Avail(pos);
    var end := HeaderPos(pos) + HEADER + size;
    if end <= n && size != |payload| {
      ReadPart(log, n, cfg, end, payload[size..], payload[..size], HeaderPos(pos));
      assert payload[..size] + payload[size..] == payload;
    } else {
      assert payload[..|payload|] == payload;
    }
  }

  // A record of which the reader has not seen an acceptable first fragment yields nothing.

  /** Reading on from p is reading on from p', but for reports. */
  ghost predicate LeadsTo(f: Bytes, cfg: Config, p: nat, r: bool, p': nat, r': bool) {
    ReadAll(f, cfg, p, r).found == ReadAll(f, cfg, p', r').found
  }

  /** A physical record that is dropped leaves the reader where it was, one record on. */
  lemma DropOne(f: Bytes, cfg: Config, p: nat, r: bool) returns (r': bool)
    requires var ph := ReadAt(f, cfg, p); ph.Rejected? || (ph.Accepted? && (ph.t == MIDDLE || ph.t == LAST))
    ensures LeadsTo(f, cfg, p, r, ReadAt(f, cfg, p).next, r')
  {
    hide ReadAt, Report;
    var ph := ReadAt(f, cfg, p);
    var step := Absorb(cfg, Fresh(r), ph);
    assert step.Continue? && step.a == Fresh(step.a.resyncing);
    var o, o' := NextRecord(f, cfg, p, Fresh(r)), NextRecord(f, cfg, ph.next, step.a);
    assert o.found == o'.found && o.record == o'.record && o.offset == o'.offset && o.pos == o'.pos && o.resyncing == o'.resyncing;
    r' := step.a.resyncing;
  }

  lemma StopsAtEof(f: Bytes, cfg: Settings, p: nat, r: bool)
    requires ReadAt(f, cfg, p).AtEof?
    ensures NextRecord(f, cfg, p, Fresh(r)) == Outcome(false, [], 0, ReadAt(f, cfg, p).next, false, [])
    ensures ReadAll(f, cfg, p, r) == Reading([], [], ReadAt(f, cfg, p).next)
  {
    hide ReadAt;
  }

  /** The rest of a record, read with nothing before it. */
  lemma {:induction false} SkipPart(log: Bytes, n: nat, cfg: Config, pos: nat, payload: Bytes, r: bool) returns (r': bool)
    requires n <= |log| && Holds(log, pos, PartBytes(pos, payload, false))
    ensures pos + |PartBytes(pos, payload, false)| <= n ==> LeadsTo(log[..n], cfg, pos, r, pos + |PartBytes(pos, payload, false)|, r')
    ensures pos + |PartBytes(pos, payload, false)| > n ==> ReadAll(log[..n], cfg, pos, r).found == []
    decreases |payload|, if Avail(pos) == 0 then 1 else 0
  {
    hide PartBytes, HeaderPos, Avail, ReadAt, Holds, ReadAll, NextRecord;
    NextAvail(pos);
    ReadFirst(log, n, cfg, pos, payload, false);
    var f := log[..n];
    r' := r;
    var size := if |payload| < Avail(pos) then |payload| else Avail(pos);
    var next := HeaderPos(pos) + HEADER + size;
    if next > n {
      StopsAtEof(f, cfg, pos, r);
    } else {
      r' := DropOne(f, cfg, pos, r);
      if size != |payload| {
        r' := SkipPart(log, n, cfg, next, payload[size..], r');
      }
    }
  }

  /** A record that starts before the initial offset. */
  lemma SkipWhole(log: Bytes, n: nat, cfg: Config, pos: nat, payload: Bytes, r: bool) returns (r': bool)
    requires n <= |log| && HeaderPos(pos) < cfg.initial && Holds(log, pos, RecordBytes(pos, payload))
    ensures pos + |RecordBytes(pos, payload)| <= n ==> LeadsTo(log[..n], cfg, pos, r, pos + |RecordBytes(pos, payload)|, r')
    ensures pos + |RecordBytes(pos, payload)| > n ==> ReadAll(log[..n], cfg, pos, r).found == []
  {
    hide PartBytes, HeaderPos, Avail, ReadAt, Holds, ReadAll, NextRecord;
    ReadFirst(log, n, cfg, pos, payload, true);
    var f := log[..n];
    r' := r;
    var size := if |payload| < Avail(pos) then |payload| else Avail(pos);
    var next := HeaderPos(pos) + HEADER + size;
    if next > n {
      StopsAtEof(f, cfg, pos, r);
    } else {
      r' := DropOne(f, cfg, pos, r);
      if size != |payload| {
        r' := SkipPart(log, n, cfg, next, payload[size..], r');
      }
    }
  }

  // ------------------------------------------------------------- whole logs

  /** The records, with the offsets of their first headers, that lie wholly inside the first n bytes
      and start at or after the initial offset. */
  ghost function Expected(pos: nat, records: seq<Bytes>, n: nat, initial: nat): seq<Found>
    decreases |records|
  {
    hide RecordBytes;
    if records == [] then [] else
      var end := pos + |RecordBytes(pos, records[0])|;
      var rest := Expected(end, records[1..], n, initial);
      if end <= n && HeaderPos(pos) >= initial then [Found(records[0], HeaderPos(pos))] + rest else rest
  }

  lemma {:induction false} NothingBeyond(pos: nat, records: seq<Bytes>, n: nat, initial: nat)
    requires pos > n
    ensures Expected(pos, records, n, initial) == []
    decreases |records|
  {
    hide RecordBytes;
    if records != [] {
      NothingBeyond(pos + |RecordBytes(pos, records[0])|, records[1..], n, initial);
    }
  }

  lemma PastTheEnd(f: Bytes, cfg: Settings, p: nat)
    requires p >= |f|
    ensures ReadAt(f, cfg, p) == AtEof(p)
  {
  }

  /** From the start of a record on, a reader returns exactly the expected records; if none of the
      log starts before the initial offset, it reports nothing. */
  lemma {:induction false} ReadRecords(log: Bytes, n: nat, cfg: Config, pos: nat, records: seq<Bytes>, r: bool)
    requires n <= |log| == pos + |LogBytes(pos, records)| && Holds(log, pos, LogBytes(pos, records))
    ensures ReadAll(log[..n], cfg, pos, r).found == Expected(pos, records, n, cfg.initial)
    ensures cfg.initial <= pos ==> ReadAll(log[..n], cfg, pos, r).drops == []
    ensures cfg.initial <= pos <= n ==> ReadAll(log[..n], cfg, pos, r).pos == n
    decreases |records|
  {
    hide RecordBytes, HeaderPos, Avail, ReadAt, Holds, NextRecord;
    var f := log[..n];
    if records == [] {
      PastTheEnd(f, cfg, pos);
      StopsAtEof(f, cfg, pos, r);
    } else {
      var b := RecordBytes(pos, records[0]);
      var end := pos + |b|;
      HoldsParts(log, pos, b, LogBytes(end, records[1..]));
      NextAvail(pos);
      if end > n {
        NothingBeyond(end, records[1..], n, cfg.initial);
      }
      if HeaderPos(pos) >= cfg.initial {
        ReadWhole(log, n, cfg, pos, records[0], r);
        ReadRecords(log, n, cfg, end, records[1..], false);
      } else {
        var r' := SkipWhole(log, n, cfg, pos, records[0], r);
        if end <= n {
          ReadRecords(log, n, cfg, end, records[1..], r');
        }
      }
    }
  }

  // --------------------------------------------------- starting inside a log

  /** Two positions before the same header are as good as each other. */
  lemma SameHeader(f: Bytes, cfg: Config, p: nat, p': nat, r: bool)
    requires HeaderPos(p) == HeaderPos(p')
    ensures ReadAll(f, cfg, p, r).found == ReadAll(f, cfg, p', r).found
  {
    hide HeaderPos, Absorb, ChecksumMatches, ParsedLength, Report;
    assert ReadAt(f, cfg, p) == ReadAt(f, cfg, p') || (ReadAt(f, cfg, p).AtEof? && ReadAt(f, cfg, p').AtEof?);
    if ReadAt(f, cfg, p).AtEof? {
      StopsAtEof(f, cfg, p, r);
      StopsAtEof(f, cfg, p', r);
    }
  }

  /** A block that starts inside a record starts with one of its fragments. */
  lemma {:induction false} FragmentAtBlock(log: Bytes, pos: nat, payload: Bytes, begin: bool, start: nat)
    returns (pos': nat, payload': Bytes, front: seq<Fragment>)
    requires start % BLOCK == 0 && HeaderPos(pos) < start < pos + |PartBytes(pos, payload, begin)|
    requires Holds(log, pos, PartBytes(pos, payload, begin))
    ensures HeaderPos(pos') == start && Holds(log, pos', PartBytes(pos', payload', false))
    ensures pos' + |PartBytes(pos', payload', false)| == pos + |PartBytes(pos, payload, begin)|
    ensures Fragments(pos, payload, begin) == front + Fragments(pos', payload', false)
    ensures forall k :: 0 <= k < |front| ==> front[k].start < start
    decreases |payload|, if Avail(pos) == 0 then 1 else 0
  {
    hide PartBytes, ReadAt, Holds;
    NextAvail(pos);
    ReadFirst(log, |log|, Settings(false, false, 0, 0), pos, payload, begin);
    var size := if |payload| < Avail(pos) then |payload| else Avail(pos);
    var next := HeaderPos(pos) + HEADER + size;
    NoBlockInside(pos, size, start);
    var first := Fragment(HeaderPos(pos), FragmentType(begin, size == |payload|), payload[..size]);
    FragmentsStep(pos, payload, begin);
    hide Fragments;
    if HeaderPos(next) < start {
      pos', payload', front := FragmentAtBlock(log, next, payload[size..], false, start);
      front := [first] + front;
    } else {
      pos', payload', front := next, payload[size..], [first];
      HeaderAtBlock(next, start);
    }
  }

  lemma FragmentsStep(pos: nat, payload: Bytes, begin: bool)
    ensures var size := if |payload| < Avail(pos) then |payload| else Avail(pos);
            var first := Fragment(HeaderPos(pos), FragmentType(begin, size == |payload|), payload[..size]);
            Fragments(pos, payload, begin) ==
              [first] + if size == |payload| then [] else Fragments(first.End(), payload[size..], false)
  {
    hide HeaderPos, Avail;
  }

  lemma NoBlockInside(pos: nat, size: nat, start: nat)
    requires start % BLOCK == 0 && HeaderPos(pos) < start && size <= Avail(pos)
    ensures HeaderPos(pos) + HEADER + size <= start
  {
    EndsInBlock(pos, size);
    BlocksApart(HeaderPos(pos), start);
  }

  lemma BlocksApart(q: nat, start: nat)
    requires start % BLOCK == 0 && q < start
    ensures BlockEnd(q) <= start
  {
  }

  lemma HeaderAtBlock(pos: nat, start: nat)
    requires start % BLOCK == 0 && pos <= start <= HeaderPos(pos)
    ensures HeaderPos(pos) == start == HeaderPos(start)
  {
  }

  /** No record that starts before the reader's first block starts at or after the initial offset. */
  lemma BlockStartSkips(initial: nat, pos: nat)
    ensures BlockStart(initial) % BLOCK == 0
    ensures BlockStart(initial) <= initial + 5 && initial < BlockStart(initial) + BLOCK - 5
    ensures HeaderPos(pos) < BlockStart(initial) ==> HeaderPos(pos) < initial
  {
  }

  /** From a block boundary on, wherever it falls among the records. */
  lemma {:induction false} ReadFromBlock(log: Bytes, n: nat, cfg: Config, pos: nat, records: seq<Bytes>, r: bool)
    requires n <= |log| == pos + |LogBytes(pos, records)| && Holds(log, pos, LogBytes(pos, records))
    requires pos <= BlockStart(cfg.initial)
    ensures ReadAll(log[..n], cfg, BlockStart(cfg.initial), r).found == Expected(pos, records, n, cfg.initial)
    decreases |records|
  {
    hide RecordBytes, PartBytes, HeaderPos, Avail, ReadAt, Holds, NextRecord, ReadAll, BlockStart;
    var f, start := log[..n], BlockStart(cfg.initial);
    BlockStartSkips(cfg.initial, pos);
    if records == [] {
      PastTheEnd(f, cfg, start);
      StopsAtEof(f, cfg, start, r);
    } else {
      var b := RecordBytes(pos, records[0]);
      var end := pos + |b|;
      HoldsParts(log, pos, b, LogBytes(end, records[1..]));
      if HeaderPos(pos) >= start {
        HeaderAtBlock(pos, start);
        SameHeader(f, cfg, start, pos, r);
        ReadRecords(log, n, cfg, pos, records, r);
      } else if end <= start {
        ReadFromBlock(log, n, cfg, end, records[1..], r);
      } else {
        var r' := InsideRecord(log, n, cfg, pos, records[0], start, r);
        if end <= n {
          ReadRecords(log, n, cfg, end, records[1..], r');
        } else {
          NothingBeyond(end, records[1..], n, cfg.initial);
        }
      }
    }
  }

  lemma InsideRecord(log: Bytes, n: nat, cfg: Config, pos: nat, payload: Bytes, start: nat, r: bool) returns (r': bool)
    requires n <= |log| && Holds(log, pos, RecordBytes(pos, payload))
    requires start % BLOCK == 0 && HeaderPos(pos) < start < pos + |RecordBytes(pos, payload)|
    ensures pos + |RecordBytes(pos, payload)| <= n ==> LeadsTo(log[..n], cfg, start, r, pos + |RecordBytes(pos, payload)|, r')
    ensures pos + |RecordBytes(pos, payload)| > n ==> ReadAll(log[..n], cfg, start, r).found == []
  {
    hide PartBytes, HeaderPos, Avail, ReadAt, Holds, NextRecord, ReadAll;
    var f, end := log[..n], pos + |RecordBytes(pos, payload)|;
    var pos', payload', front := FragmentAtBlock(log, pos, payload, true, start);
    StartsAtHeader(start);
    SameHeader(f, cfg, start, pos', r);
    r' := SkipPart(log, n, cfg, pos', payload', r);
  }

  lemma StartsAtHeader(start: nat)
    requires start % BLOCK == 0
    ensures HeaderPos(start) == start
  {
  }

  /** Once all records are wholly inside, more room makes no difference. */
  lemma {:induction false} ExpectedBeyond(pos: nat, records: seq<Bytes>, n: nat, m: nat, initial: nat)
    requires n >= pos + |LogBytes(pos, records)| && m >= pos + |LogBytes(pos, records)|
    ensures Expected(pos, records, n, initial) == Expected(pos, records, m, initial)
    decreases |records|
  {
    hide RecordBytes, HeaderPos;
    if records != [] {
      ExpectedBeyond(pos + |RecordBytes(pos, records[0])|, records[1..], n, m, initial);
    }
  }

  /** Any list of records, cut off after any number of bytes, read from any initial offset: exactly
      the records that lie wholly in what is left and start at or after that offset come back, in
      order and with the offsets of their first headers. */
  lemma CleanLog(records: seq<Bytes>, n: nat, cfg: Config)
    ensures ReadAll(Fit(LogBytes(0, records), n), cfg, BlockStart(cfg.initial), cfg.initial > 0).found
         == Expected(0, records, n, cfg.initial)
  {
    hide LogBytes, ReadAll, BlockStart, Expected;
    var log := LogBytes(0, records);
    var m := if n <= |log| then n else |log|;
    assert log[0..0 + |log|] == log && Fit(log, n) == log[..m];
    ReadFromBlock(log, m, cfg, 0, records, cfg.initial > 0);
    if n > |log| {
      ExpectedBeyond(0, records, n, m, cfg.initial);
    }
  }

  /** Read from the start, a log cut off anywhere causes no report, and every later call finds the end
      of the file again. */
  lemma CleanLogSilent(records: seq<Bytes>, n: nat, cfg: Config, r: bool)
    requires cfg.initial == 0
    ensures var file := Fit(LogBytes(0, records), n);
            var reading := ReadAll(file, cfg, 0, false);
            && reading.found == Expected(0, records, n, 0)
            && reading.drops == []
            && NextRecord(file, cfg, reading.pos, Fresh(r)) == Outcome(false, [], 0, reading.pos, false, [])
  {
    hide LogBytes, ReadAll, NextRecord, ReadAt, Expected;
    var log := LogBytes(0, records);
    var m := if n <= |log| then n else |log|;
    assert log[0..0 + |log|] == log && Fit(log, n) == log[..m];
    ReadRecords(log, m, cfg, 0, records, false);
    PastTheEnd(log[..m], cfg, m);
    StopsAtEof(log[..m], cfg, m, r);
    if n > |log| {
      ExpectedBeyond(0, records, n, m, 0);
    }
  }
}
