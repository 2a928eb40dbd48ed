/** What is recovered from an arbitrary file, said without the state of a reader: which physical
    records make up the records that come back, and what is reported about all the others. */
module LogRecovery {
  import opened Coding
  import opened LogFormat
  import opened LogParse
  import opened LogReaderProperties

  /** The physical records from position p to the one at which the reader stops. */
  function Stream(f: Bytes, cfg: Settings, p: nat): (s: seq<Phys>)
    ensures s != [] && s[0] == ReadAt(f, cfg, p)
    decreases if p <= |f| then |f| - p else 0
  {
    var ph := ReadAt(f, cfg, p);
    if ph.Code() == EOF_CODE then [ph] else [ph] + Stream(f, cfg, ph.next)
  }

  /** The FIRST record that is still without its end before record k, since nothing but MIDDLE
      records has come after it; -1 if there is none. */
  function OpenAt(s: seq<Phys>, k: nat): (i: int)
    requires k <= |s|
    ensures -1 <= i < k
    ensures i >= 0 ==> s[i].Code() == FIRST && forall m :: i < m < k ==> s[m].Code() == MIDDLE
    ensures forall j :: 0 <= j < k && j != i && s[j].Code() == FIRST ==> !(forall m :: j < m < k ==> s[m].Code() == MIDDLE)
  {
    if k == 0 then -1
    else if s[k - 1].Code() == FIRST then k - 1
    else if s[k - 1].Code() == MIDDLE then OpenAt(s, k - 1)
    else -1
  }

  function Payload(ph: Phys): Bytes {
    if ph.Accepted? then ph.data else []
  }

  /** The payloads of the records from i up to k. */
  function DataIn(s: seq<Phys>, i: nat, k: nat): Bytes
    requires i <= k <= |s|
  {
    if i == k then [] else DataIn(s, i, k - 1) + Payload(s[k - 1])
  }

  function Lost(s: seq<Phys>, k: nat): Bytes
    requires k <= |s|
  {
    if OpenAt(s, k) >= 0 then DataIn(s, OpenAt(s, k), k) else []
  }

  /** The record that comes back because of physical record k, if any: its own payload if it is a FULL
      one, and if it is a LAST one what has been gathered since the FIRST one that is open. */
  function ReturnedAt(s: seq<Phys>, k: nat): seq<Found>
    requires k < |s|
  {
    if s[k].Code() == FULL then [Found(s[k].data, s[k].start)]
    else if s[k].Code() == LAST && OpenAt(s, k) >= 0 then
      [Found(DataIn(s, OpenAt(s, k), k + 1), s[OpenAt(s, k)].start)]
    else []
  }

  /** What is reported because of physical record k. */
  function ReportedAt(cfg: Settings, s: seq<Phys>, k: nat): seq<Drop>
    requires k < |s|
  {
    var ph, lost := s[k], |Lost(s, k)|;
    var code := ph.Code();
    if code == EOF_CODE then []
    else if code == BAD_CODE then
      ph.Drops() + if OpenAt(s, k) >= 0 then Report(cfg, ph.next, lost, ErrorInMiddle) else []
    else if code == FULL || code == FIRST then
      if lost > 0 then Report(cfg, ph.next, lost, PartialRecord) else []
    else if code == MIDDLE || code == LAST then
      if OpenAt(s, k) >= 0 then [] else Report(cfg, ph.next, |Payload(ph)|, MissingStart)
    else Report(cfg, ph.next, |Payload(ph)| + lost, UnknownType)
  }

  function Returned(s: seq<Phys>, k: nat): seq<Found>
    requires k <= |s|
    decreases |s| - k
  {
    if k == |s| then [] else ReturnedAt(s, k) + Returned(s, k + 1)
  }

  function Reported(cfg: Settings, s: seq<Phys>, k: nat): seq<Drop>
    requires k <= |s|
    decreases |s| - k
  {
    if k == |s| then [] else ReportedAt(cfg, s, k) + Reported(cfg, s, k + 1)
  }

  // ---------------------------------------------------- the reader does this

  /** Reading on with a record half assembled. */
  function ReadOn(f: Bytes, cfg: Settings, p: nat, a: Assembly): Reading {
    var o := NextRecord(f, cfg, p, a);
    if !o.found then Reading([], o.drops, o.pos) else
      var rest := ReadAll(f, cfg, o.pos, o.resyncing);
      Reading([Found(o.record, o.offset)] + rest.found, o.drops + rest.drops, rest.pos)
  }

  lemma ReadAllIsReadOn(f: Bytes, cfg: Settings, p: nat, r: bool)
    ensures ReadAll(f, cfg, p, r) == ReadOn(f, cfg, p, Fresh(r))
  {
    hide ReadAt, NextRecord;
  }

  lemma ReadOnStep(f: Bytes, cfg: Settings, p: nat, a: Assembly)
    ensures var ph, step, all := ReadAt(f, cfg, p), Absorb(cfg, a, ReadAt(f, cfg, p)), ReadOn(f, cfg, p, a);
            match step
            case Continue(a', drops) =>
              var rest := ReadOn(f, cfg, ph.next, a');
              all == Reading(rest.found, ph.Drops() + drops + rest.drops, rest.pos)
            case Return(found, record, offset, r, drops) =>
              if !found then all == Reading([], ph.Drops() + drops, ph.next) else
                var rest := ReadOn(f, cfg, ph.next, Fresh(r));
                all == Reading([Found(record, offset)] + rest.found, ph.Drops() + drops + rest.drops, rest.pos)
  {
    hide ReadAt, Absorb;
    var ph, step := ReadAt(f, cfg, p), Absorb(cfg, a, ReadAt(f, cfg, p));
    if step.Continue? {
      var o, o' := NextRecord(f, cfg, p, a), NextRecord(f, cfg, ph.next, step.a);
      assert o == o'.(drops := ph.Drops() + step.drops + o'.drops);
      if o.found {
        var rest := ReadAll(f, cfg, o.pos, o.resyncing);
        assert o.drops + rest.drops == ph.Drops() + step.drops + (o'.drops + rest.drops);
      }
    } else if step.found {
      ReadAllIsReadOn(f, cfg, ph.next, step.resyncing);
    }
  }

  /** The reader has assembled what is open before record k. */
  predicate InStep(s: seq<Phys>, k: nat, a: Assembly)
    requires k <= |s|
  {
    && !a.resyncing && (a.fragmented <==> OpenAt(s, k) >= 0)
    && (a.fragmented ==> var i := OpenAt(s, k); a.offset == s[i].start && a.scratch == DataIn(s, i, k))
  }

  /** What is open, and what has been gathered, before and after record k. */
  lemma OpenStep(s: seq<Phys>, k: nat)
    requires k < |s|
    ensures OpenAt(s, k + 1) == if s[k].Code() == FIRST then k else if s[k].Code() == MIDDLE then OpenAt(s, k) else -1
    ensures OpenAt(s, k) >= 0 ==> DataIn(s, OpenAt(s, k), k + 1) == DataIn(s, OpenAt(s, k), k) + Payload(s[k])
    ensures DataIn(s, k, k + 1) == Payload(s[k])
  {
    assert DataIn(s, k, k) == [];
    assert DataIn(s, k, k + 1) == [] + Payload(s[k]);
  }

  /** One record, taken in by the assembly, does what the list of records says. */
  lemma AbsorbInStep(cfg: Settings, s: seq<Phys>, k: nat, a: Assembly)
    requires k < |s| && InStep(s, k, a)
    ensures var step := Absorb(cfg, a, s[k]);
            && s[k].Drops() + step.drops == ReportedAt(cfg, s, k)
            && (s[k].Code() == EOF_CODE <==> step.Return? && !step.found)
            && (step.Continue? ==> ReturnedAt(s, k) == [] && InStep(s, k + 1, step.a))
            && (step.Return? && step.found ==> ReturnedAt(s, k) == [Found(step.record, step.offset)] && !step.resyncing)
            && (step.Return? ==> OpenAt(s, k + 1) == -1)
            && (step.Return? && !step.found ==> ReturnedAt(s, k) == [])
  {
    hide Report, OpenAt, DataIn;
    OpenStep(s, k);
    AbsorbReports(cfg, s, k, a);
    hide ReportedAt;
  }

  lemma AbsorbReports(cfg: Settings, s: seq<Phys>, k: nat, a: Assembly)
    requires k < |s| && InStep(s, k, a)
    ensures s[k].Drops() + Absorb(cfg, a, s[k]).drops == ReportedAt(cfg, s, k)
  {
    hide Report, OpenAt, DataIn;
  }

  lemma {:induction false} ReadsStream(f: Bytes, cfg: Settings, p: nat, s: seq<Phys>, k: nat, a: Assembly)
    requires k < |s| && Stream(f, cfg, p) == s[k..] && InStep(s, k, a)
    ensures ReadOn(f, cfg, p, a) == Reading(Returned(s, k), Reported(cfg, s, k), s[|s| - 1].next)
    decreases |s| - k
  {
    hide ReadAt, Absorb, ReadOn, Report, ReturnedAt, ReportedAt, OpenAt, DataIn;
    ReadOnStep(f, cfg, p, a);
    assert s[k] == s[k..][0] == ReadAt(f, cfg, p);
    AbsorbInStep(cfg, s, k, a);
    var step := Absorb(cfg, a, s[k]);
    if s[k].Code() == EOF_CODE {
      assert |s[k..]| == 1;
      assert Returned(s, k + 1) == [] && Reported(cfg, s, k + 1) == [];
    } else {
      assert s[k + 1..] == s[k..][1..] == Stream(f, cfg, s[k].next);
      ReadsStream(f, cfg, s[k].next, s, k + 1, if step.Continue? then step.a else Fresh(false));
    }
  }

  /** Calls until one returns false give, in order, exactly the records and the reports of the list
      of physical records, and leave the reader behind the last of those. */
  lemma ReadAllReturns(f: Bytes, cfg: Settings, p: nat)
    ensures var s := Stream(f, cfg, p);
            ReadAll(f, cfg, p, false) == Reading(Returned(s, 0), Reported(cfg, s, 0), s[|s| - 1].next)
  {
    hide ReadAt, ReadOn, ReadAll;
    var s := Stream(f, cfg, p);
    assert s[0..] == s;
    ReadAllIsReadOn(f, cfg, p, false);
    ReadsStream(f, cfg, p, s, 0, Fresh(false));
  }

  // --------------------------------------------------------- resynchronising

  /** A reader that starts inside a record passes over MIDDLE records and one LAST record. */
  function AfterResync(f: Bytes, cfg: Settings, p: nat): nat
    decreases if p <= |f| then |f| - p else 0
  {
    var ph := ReadAt(f, cfg, p);
    if ph.Code() == MIDDLE then AfterResync(f, cfg, ph.next) else if ph.Code() == LAST then ph.next else p
  }

  lemma {:induction false} ResyncSkips(f: Bytes, cfg: Settings, p: nat)
    ensures ReadAll(f, cfg, p, true) == ReadAll(f, cfg, AfterResync(f, cfg, p), false)
    decreases if p <= |f| then |f| - p else 0
  {
    hide ReadAt, ReadOn, ReadAll;
    var ph := ReadAt(f, cfg, p);
    ReadAllIsReadOn(f, cfg, p, true);
    ReadOnStep(f, cfg, p, Fresh(true));
    if ph.Code() == MIDDLE {
      ReadAllIsReadOn(f, cfg, ph.next, true);
      ResyncSkips(f, cfg, ph.next);
    } else if ph.Code() == LAST {
      ReadAllIsReadOn(f, cfg, ph.next, false);
    } else {
      ReadAllIsReadOn(f, cfg, p, false);
      ReadOnStep(f, cfg, p, Fresh(false));
    }
  }

  // ---------------------------------------------- exactly the intact records

  /** Reading from p, one comes to the fragments of a whole record, accepted one right after the other
      from q to end, before anything stops the reader. */
  ghost predicate Intact(f: Bytes, cfg: Settings, p: nat, q: nat, fs: seq<Fragment>, end: nat): (b: bool)
    ensures b ==> fs != []
  {
    Reaches(f, cfg, p, q) && StopAt(f, cfg, q) == StopAt(f, cfg, p) && AcceptedRun(f, cfg, q, fs, end) && WholeRecord(fs)
  }

  lemma {:induction false} StopNotBehind(f: Bytes, cfg: Settings, p: nat)
    ensures StopAt(f, cfg, p) >= p
    decreases if p <= |f| then |f| - p else 0
  {
    NextNotBehind(f, cfg, p);
    hide ReadAt;
    if ReadAt(f, cfg, p).Code() != EOF_CODE {
      StopNotBehind(f, cfg, ReadAt(f, cfg, p).next);
    }
  }

  /** The rest of a record that is being assembled completes it. */
  lemma {:induction false} ContinuationReturns(f: Bytes, cfg: Settings, p: nat, fs: seq<Fragment>, end: nat, scratch: Bytes, offset: nat)
    requires AcceptedRun(f, cfg, p, fs, end) && Continuation(fs)
    ensures var all, rest := ReadOn(f, cfg, p, Assembly(false, true, scratch, offset)), ReadAll(f, cfg, end, false);
            all == Reading([Found(scratch + DataOf(fs), offset)] + rest.found, rest.drops, rest.pos)
    decreases |fs|
  {
    hide ReadAt, ReadOn, ReadAll, Report;
    ReadOnStep(f, cfg, p, Assembly(false, true, scratch, offset));
    var next := ReadAt(f, cfg, p).next;
    if |fs| == 1 {
      assert fs[1..] == [] && DataOf(fs) == fs[0].data + DataOf(fs[1..]) == fs[0].data;
      ReadAllIsReadOn(f, cfg, end, false);
    } else {
      ContinuationReturns(f, cfg, next, fs[1..], end, scratch + fs[0].data, offset);
      assert scratch + fs[0].data + DataOf(fs[1..]) == scratch + DataOf(fs);
    }
  }

  /** A whole record is returned next, whatever was being assembled before it. */
  lemma WholeReturns(f: Bytes, cfg: Settings, q: nat, fs: seq<Fragment>, end: nat, a: Assembly) returns (told: seq<Drop>)
    requires AcceptedRun(f, cfg, q, fs, end) && WholeRecord(fs)
    ensures var all, rest := ReadOn(f, cfg, q, a), ReadAll(f, cfg, end, false);
            all == Reading([Found(DataOf(fs), fs[0].start)] + rest.found, told + rest.drops, rest.pos)
  {
    hide ReadAt, ReadOn, ReadAll, Report;
    ReadOnStep(f, cfg, q, a);
    var ph := ReadAt(f, cfg, q);
    told := Absorb(cfg, a, ph).drops;
    assert ph.Drops() + told == told;
    if |fs| == 1 {
      assert fs[1..] == [] && DataOf(fs) == fs[0].data + DataOf(fs[1..]) == fs[0].data;
      ReadAllIsReadOn(f, cfg, end, false);
    } else {
      ContinuationReturns(f, cfg, ph.next, fs[1..], end, ph.data, ph.start);
    }
  }

  /** A physical record that does not stop the reader adds something in front of what follows. */
  lemma StepOn(f: Bytes, cfg: Settings, p: nat, a: Assembly) returns (found: seq<Found>, drops: seq<Drop>, a': Assembly)
    requires ReadAt(f, cfg, p).Code() != EOF_CODE
    ensures var all, rest := ReadOn(f, cfg, p, a), ReadOn(f, cfg, ReadAt(f, cfg, p).next, a');
            all == Reading(found + rest.found, drops + rest.drops, rest.pos)
  {
    hide ReadAt, ReadOn, Report;
    ReadOnStep(f, cfg, p, a);
    var ph, step := ReadAt(f, cfg, p), Absorb(cfg, a, ReadAt(f, cfg, p));
    drops := ph.Drops() + step.drops;
    found, a' := if step.Continue? then [] else [Found(step.record, step.offset)], if step.Continue? then step.a else Fresh(step.resyncing);
    var rest := ReadOn(f, cfg, ph.next, a');
    assert [] + rest.found == rest.found;
  }

  /** On the way to q nothing stops the reader. */
  lemma OnTheWay(f: Bytes, cfg: Settings, p: nat, q: nat)
    requires Reaches(f, cfg, p, q) && StopAt(f, cfg, q) == StopAt(f, cfg, p) && p != q
    ensures var ph := ReadAt(f, cfg, p);
            && ph.Code() != EOF_CODE && p < ph.next <= |f|
            && Reaches(f, cfg, ph.next, q) && StopAt(f, cfg, q) == StopAt(f, cfg, ph.next)
  {
    hide ReadAt;
    ReachesUp(f, cfg, p, q);
    StopNotBehind(f, cfg, q);
  }

  lemma {:induction false} ReadOnReturns(f: Bytes, cfg: Settings, p: nat, q: nat, fs: seq<Fragment>, end: nat, a: Assembly)
    returns (before: seq<Found>, told: seq<Drop>)
    requires Intact(f, cfg, p, q, fs, end)
    ensures var all, rest := ReadOn(f, cfg, p, a), ReadAll(f, cfg, end, false);
            all == Reading(before + [Found(DataOf(fs), fs[0].start)] + rest.found, told + rest.drops, rest.pos)
    decreases if p <= |f| then |f| - p else 0
  {
    assert fs != [];
    hide ReadAt, ReadOn, ReadAll, AcceptedRun, WholeRecord, Reaches, StopAt, DataOf;
    if p == q {
      before := [];
      told := WholeReturns(f, cfg, q, fs, end, a);
    } else {
      OnTheWay(f, cfg, p, q);
      var found, drops, a' := StepOn(f, cfg, p, a);
      var before', told' := ReadOnReturns(f, cfg, ReadAt(f, cfg, p).next, q, fs, end, a');
      before, told := Prepend(found, drops, before', told', [Found(DataOf(fs), fs[0].start)], ReadAll(f, cfg, end, false));
    }
  }

  /** A reading that goes on with one that is already divided. */
  lemma Prepend(found: seq<Found>, drops: seq<Drop>, before': seq<Found>, told': seq<Drop>, x: seq<Found>, rest: Reading)
    returns (before: seq<Found>, told: seq<Drop>)
    ensures before + x + rest.found == found + (before' + x + rest.found)
    ensures told + rest.drops == drops + (told' + rest.drops)
  {
    before, told := found + before', drops + told';
    Regroup(drops, told', rest.drops);
    Regroup(found, before', x);
    Regroup(found, before' + x, rest.found);
  }

  lemma Regroup<T>(a: seq<T>, b: seq<T>, c: seq<T>)
    ensures a + b + c == a + (b + c)
  {
  }

  /** A record that is in the file unharmed is returned, between what comes before it and what a
      reader gets that goes on behind it, no matter what stands between the records. */
  lemma IntactIsReturned(f: Bytes, cfg: Settings, p: nat, r: bool, q: nat, fs: seq<Fragment>, end: nat)
    returns (before: seq<Found>, told: seq<Drop>)
    requires Intact(f, cfg, p, q, fs, end)
    ensures var all, rest := ReadAll(f, cfg, p, r), ReadAll(f, cfg, end, false);
            all == Reading(before + [Found(DataOf(fs), fs[0].start)] + rest.found, told + rest.drops, rest.pos)
  {
    hide ReadAt, ReadOn, ReadAll, Intact, DataOf;
    ReadAllIsReadOn(f, cfg, p, r);
    before, told := ReadOnReturns(f, cfg, p, q, fs, end, Fresh(r));
  }

  lemma {:induction false} ReachesTrans(f: Bytes, cfg: Settings, p: nat, q: nat, t: nat)
    requires Reaches(f, cfg, p, q) && Reaches(f, cfg, q, t)
    ensures Reaches(f, cfg, p, t)
    decreases if p <= |f| then |f| - p else 0
  {
    hide ReadAt;
    if p != q {
      ReachesTrans(f, cfg, ReadAt(f, cfg, p).next, q, t);
    }
  }

  lemma {:induction false} CallReaches(f: Bytes, cfg: Settings, p: nat, a: Assembly)
    requires NextRecord(f, cfg, p, a).found
    ensures Reaches(f, cfg, p, NextRecord(f, cfg, p, a).pos)
    decreases if p <= |f| then |f| - p else 0
  {
    hide ReadAt, Report;
    var ph, step := ReadAt(f, cfg, p), Absorb(cfg, a, ReadAt(f, cfg, p));
    if step.Continue? {
      CallReaches(f, cfg, ph.next, step.a);
    } else {
      assert Reaches(f, cfg, ph.next, ph.next);
    }
  }

  lemma {:induction false} RunKeepsStop(f: Bytes, cfg: Settings, p: nat, fs: seq<Fragment>, end: nat)
    requires AcceptedRun(f, cfg, p, fs, end) && forall g :: g in fs ==> g.t != EOF_CODE
    ensures StopAt(f, cfg, p) == StopAt(f, cfg, end)
    decreases |fs|
  {
    hide ReadAt;
    if fs != [] {
      assert fs[0] in fs;
      RunKeepsStop(f, cfg, ReadAt(f, cfg, p).next, fs[1..], end);
    }
  }

  lemma {:induction false} ContinuationTypes(fs: seq<Fragment>)
    requires Continuation(fs)
    ensures forall g :: g in fs ==> g.t == MIDDLE || g.t == LAST
  {
    if |fs| > 1 {
      ContinuationTypes(fs[1..]);
    }
  }

  lemma WholeTypes(fs: seq<Fragment>)
    requires WholeRecord(fs)
    ensures forall g :: g in fs ==> g.t != EOF_CODE
  {
    if |fs| > 1 {
      ContinuationTypes(fs[1..]);
    }
  }

  /** Nothing else is returned. */
  lemma {:induction false} FoundIsIntact(f: Bytes, cfg: Settings, p: nat, r: bool, m: nat)
    returns (q: nat, fs: seq<Fragment>, end: nat)
    requires m < |ReadAll(f, cfg, p, r).found|
    ensures Intact(f, cfg, p, q, fs, end) && ReadAll(f, cfg, p, r).found[m] == Found(DataOf(fs), fs[0].start)
    decreases m
  {
    assert Reaches(f, cfg, p, p);
    hide ReadAt, NextRecord, AcceptedRun, WholeRecord, DataOf, Reaches, StopAt;
    var o := NextRecord(f, cfg, p, Fresh(r));
    CallReaches(f, cfg, p, Fresh(r));
    CallStops(f, cfg, p, Fresh(r));
    if m == 0 {
      q, fs := AssembleWhole(f, cfg, p, Fresh(r), p, []);
      end := o.pos;
      WholeTypes(fs);
      RunKeepsStop(f, cfg, q, fs, end);
    } else {
      q, fs, end := FoundIsIntact(f, cfg, o.pos, o.resyncing, m - 1);
      ReachesTrans(f, cfg, p, o.pos, q);
    }
  }

  /** What comes back is what is intact. */
  lemma ReturnedIffIntact(f: Bytes, cfg: Settings, p: nat, r: bool, x: Found)
    ensures x in ReadAll(f, cfg, p, r).found <==>
              exists q: nat, fs: seq<Fragment>, end: nat :: Intact(f, cfg, p, q, fs, end) && x == Found(DataOf(fs), fs[0].start)
  {
    hide Intact, ReadAll, DataOf;
    if x in ReadAll(f, cfg, p, r).found {
      var m :| 0 <= m < |ReadAll(f, cfg, p, r).found| && ReadAll(f, cfg, p, r).found[m] == x;
      var q, fs, end := FoundIsIntact(f, cfg, p, r, m);
    }
    if q: nat, fs: seq<Fragment>, end: nat :| Intact(f, cfg, p, q, fs, end) && x == Found(DataOf(fs), fs[0].start) {
      var before, told := IntactIsReturned(f, cfg, p, r, q, fs, end);
    }
  }

  // ------------------------------------------------------------ conservation

  function TotalBytes(found: seq<Found>): nat {
    if found == [] then 0 else |found[0].record| + TotalBytes(found[1..])
  }

  /** The bytes reported as lost from accepted physical records. */
  function ToldBytes(drops: seq<Drop>): nat {
    if drops == [] then 0 else
      (if drops[0].reason in {BadRecordLength, ChecksumMismatch} then 0 else drops[0].bytes) + ToldBytes(drops[1..])
  }

  function PayloadBytes(s: seq<Phys>): nat {
    if s == [] then 0 else |Payload(s[0])| + PayloadBytes(s[1..])
  }

  /** The payloads of accepted records of on-disk type 6. */
  function SilentBytes(s: seq<Phys>): nat {
    if s == [] then 0 else (if s[0].Code() == BAD_CODE then |Payload(s[0])| else 0) + SilentBytes(s[1..])
  }

  lemma {:induction false} TotalConcat(a: seq<Found>, b: seq<Found>)
    ensures TotalBytes(a + b) == TotalBytes(a) + TotalBytes(b)
  {
    if a == [] {
      assert a + b == b;
    } else {
      assert (a + b)[1..] == a[1..] + b;
      TotalConcat(a[1..], b);
    }
  }

  lemma {:induction false} ToldConcat(a: seq<Drop>, b: seq<Drop>)
    ensures ToldBytes(a + b) == ToldBytes(a) + ToldBytes(b)
  {
    if a == [] {
      assert a + b == b;
    } else {
      assert (a + b)[1..] == a[1..] + b;
      ToldConcat(a[1..], b);
    }
  }

  /** A list of physical records with the one that stops the reader at its end. */
  ghost predicate Complete(s: seq<Phys>) {
    && s != [] && (forall j :: 0 <= j < |s| ==> (s[j].Code() == EOF_CODE <==> j == |s| - 1))
    && forall j :: 0 <= j < |s| ==> ToldBytes(s[j].Drops()) == 0
  }

  lemma RejectionTold(f: Bytes, cfg: Settings, p: nat)
    ensures ToldBytes(ReadAt(f, cfg, p).Drops()) == 0
  {
    hide ChecksumMatches, ParsedLength, HeaderPos, Wrap;
    var drops := ReadAt(f, cfg, p).Drops();
    assert |drops| <= 1 && (|drops| == 1 ==> drops[1..] == [] && drops[0].reason in {BadRecordLength, ChecksumMismatch});
  }

  /** The list is the chain of physical records in the file. */
  lemma {:induction false} StreamIsChain(f: Bytes, cfg: Settings, p: nat)
    ensures var s := Stream(f, cfg, p);
            && Complete(s) && s[|s| - 1] == ReadAt(f, cfg, StopAt(f, cfg, p))
            && forall j :: 0 < j < |s| ==> s[j] == ReadAt(f, cfg, s[j - 1].next)
    decreases if p <= |f| then |f| - p else 0
  {
    hide ReadAt, ToldBytes;
    var ph, s := ReadAt(f, cfg, p), Stream(f, cfg, p);
    RejectionTold(f, cfg, p);
    if ph.Code() != EOF_CODE {
      StreamIsChain(f, cfg, ph.next);
      assert s[1..] == Stream(f, cfg, ph.next);
    }
  }

  lemma ToldOne(cfg: Settings, pos: nat, bytes: nat, reason: Reason)
    requires cfg.reporting && cfg.initial == 0 && reason !in {BadRecordLength, ChecksumMismatch}
    ensures ToldBytes(Report(cfg, pos, bytes, reason)) == bytes
  {
    assert [Drop(bytes, reason)][1..] == [];
    assert ToldBytes([Drop(bytes, reason)]) == bytes + ToldBytes([]);
  }

  lemma TotalOne(x: Found)
    ensures TotalBytes([x]) == |x.record|
  {
    assert [x][1..] == [] && TotalBytes([x]) == |x.record| + TotalBytes([]);
  }

  /** Every byte taken in with one physical record, or still open before it, is returned, reported,
      open after it, or of type 6. */
  lemma StepConserves(cfg: Settings, s: seq<Phys>, k: nat)
    requires cfg.reporting && cfg.initial == 0 && Complete(s) && k < |s| - 1
    ensures |Lost(s, k)| + |Payload(s[k])| ==
              TotalBytes(ReturnedAt(s, k)) + ToldBytes(ReportedAt(cfg, s, k)) + |Lost(s, k + 1)|
              + if s[k].Code() == BAD_CODE then |Payload(s[k])| else 0
  {
    hide OpenAt, DataIn, TotalBytes, ToldBytes, Report;
    OpenStep(s, k);
    var ph, lost := s[k], |Lost(s, k)|;
    assert TotalBytes([]) == 0 && ToldBytes([]) == 0 by { TotalNone(); }
    ToldConcat(ph.Drops(), Report(cfg, ph.next, lost, ErrorInMiddle));
    assert ph.Drops() + [] == ph.Drops();
    ToldOne(cfg, ph.next, lost, ErrorInMiddle);
    ToldOne(cfg, ph.next, lost, PartialRecord);
    ToldOne(cfg, ph.next, |Payload(ph)|, MissingStart);
    ToldOne(cfg, ph.next, |Payload(ph)| + lost, UnknownType);
    if ReturnedAt(s, k) != [] {
      TotalOne(ReturnedAt(s, k)[0]);
    }
  }

  lemma TotalNone()
    ensures TotalBytes([]) == 0 && ToldBytes([]) == 0
  {
  }

  lemma {:induction false} SumFrom(cfg: Settings, s: seq<Phys>, k: nat)
    requires cfg.reporting && cfg.initial == 0 && Complete(s) && k < |s|
    ensures |Lost(s, k)| + PayloadBytes(s[k..]) ==
              TotalBytes(Returned(s, k)) + ToldBytes(Reported(cfg, s, k)) + SilentBytes(s[k..])
              + |Lost(s, |s| - 1)| + |Payload(s[|s| - 1])|
    decreases |s| - k
  {
    hide OpenAt, DataIn, Lost, ReturnedAt, ReportedAt, TotalBytes, ToldBytes;
    assert s[k..][1..] == s[k + 1..];
    TotalConcat(ReturnedAt(s, k), Returned(s, k + 1));
    ToldConcat(ReportedAt(cfg, s, k), Reported(cfg, s, k + 1));
    TotalNone();
    if k < |s| - 1 {
      StepConserves(cfg, s, k);
      SumFrom(cfg, s, k + 1);
    } else {
      StopsQuietly(cfg, s);
    }
  }

  lemma StopsQuietly(cfg: Settings, s: seq<Phys>)
    requires Complete(s)
    ensures ReturnedAt(s, |s| - 1) == [] && ReportedAt(cfg, s, |s| - 1) == []
  {
  }

  /** With a reporter and from offset 0, every byte of every accepted physical record is either
      returned or reported once, but for type 6 records and for what is open, or stops the reader, at
      the end. */
  lemma BytesConserved(f: Bytes, cfg: Settings, p: nat)
    requires cfg.reporting && cfg.initial == 0
    ensures var s, all := Stream(f, cfg, p), ReadAll(f, cfg, p, false);
            PayloadBytes(s) == TotalBytes(all.found) + ToldBytes(all.drops) + SilentBytes(s)
                               + |Lost(s, |s| - 1)| + |Payload(s[|s| - 1])|
  {
    hide ReadAt, OpenAt, TotalBytes, ToldBytes, Returned, Reported;
    var s := Stream(f, cfg, p);
    StreamIsChain(f, cfg, p);
    ReadAllReturns(f, cfg, p);
    assert s[0..] == s;
    SumFrom(cfg, s, 0);
    NothingOpen(s);
  }

  lemma NothingOpen(s: seq<Phys>)
    ensures Lost(s, 0) == []
  {
  }

  // ------------------------------------------------------------------ damage

  lemma SliceOfTail(f: Bytes, n: nat, q: nat, limit: nat)
    requires n <= q <= limit <= |f|
    ensures f[q..limit] == f[n..][q - n..limit - n]
  {
  }

  /** What is found from n on depends on the bytes from there on alone. */
  lemma ReadAtFrom(f: Bytes, f': Bytes, cfg: Settings, n: nat, p: nat)
    requires |f| == |f'| && n <= p && n <= |f| && f[n..] == f'[n..]
    ensures ReadAt(f, cfg, p) == ReadAt(f', cfg, p)
  {
    hide ChecksumMatches, ParsedLength, Report, Wrap;
    var q := HeaderPos(p);
    if q + HEADER <= |f| {
      BlockEndBehind(q);
      var limit := if BlockEnd(q) <= |f| then BlockEnd(q) else |f|;
      SliceOfTail(f, n, q, limit);
      SliceOfTail(f', n, q, limit);
    }
  }

  lemma BlockEndBehind(q: nat)
    ensures BlockEnd(q) > q
  {
  }

  lemma {:induction false} ReadOnFrom(f: Bytes, f': Bytes, cfg: Settings, n: nat, p: nat, a: Assembly)
    requires |f| == |f'| && n <= p && n <= |f| && f[n..] == f'[n..]
    ensures NextRecord(f, cfg, p, a) == NextRecord(f', cfg, p, a)
    decreases if p <= |f| then |f| - p else 0
  {
    hide ReadAt, Report;
    ReadAtFrom(f, f', cfg, n, p);
    NextNotBehind(f, cfg, p);
    var step := Absorb(cfg, a, ReadAt(f, cfg, p));
    hide Absorb;
    if step.Continue? {
      ReadOnFrom(f, f', cfg, n, ReadAt(f, cfg, p).next, step.a);
    }
  }

  lemma {:induction false} ReadAllFrom(f: Bytes, f': Bytes, cfg: Settings, n: nat, p: nat, r: bool)
    requires |f| == |f'| && n <= p && n <= |f| && f[n..] == f'[n..]
    ensures ReadAll(f, cfg, p, r) == ReadAll(f', cfg, p, r)
    decreases if p <= |f| then |f| - p else 0
  {
    hide NextRecord;
    ReadOnFrom(f, f', cfg, n, p, Fresh(r));
    var o := NextRecord(f, cfg, p, Fresh(r));
    if o.found {
      FoundAdvances(f, cfg, p, Fresh(r));
      ReadAllFrom(f, f', cfg, n, o.pos, o.resyncing);
    }
  }

  /** Where the block of the header at q ends, or the file. */
  function RestOfBlock(f: Bytes, q: nat): nat {
    if BlockEnd(q) <= |f| then BlockEnd(q) else |f|
  }

  /** Damage within four consecutive bytes of the type or payload of an accepted record costs the rest
      of its block, which is reported unless the damage has made the record an empty one of type 0,
      and changes nothing of what is read from the next block on. */
  lemma DamageCostsBlock(f: Bytes, f': Bytes, cfg: Settings, p: nat, i: nat, k: nat, r: bool)
    requires cfg.checksum && ReadAt(f, cfg, p).Accepted?
    requires HeaderPos(p) + 6 <= i && k <= 4 && i + k <= ReadAt(f, cfg, p).next
    requires |f| == |f'| && f[..i] == f'[..i] && f[i + k..] == f'[i + k..] && f != f'
    ensures var q := HeaderPos(p);
            var limit := RestOfBlock(f, q);
            && q + HEADER <= |f'| && limit <= |f|
            && ReadAt(f', cfg, p) == Rejected(limit,
                 if f'[q + 6] == ZERO_TYPE && ReadAt(f, cfg, p).data == [] then [] else Report(cfg, limit, limit - q, ChecksumMismatch))
            && ReadAll(f', cfg, limit, r) == ReadAll(f, cfg, limit, r)
  {
    hide ReadAt, Report, ReadAll, BlockEnd, HeaderPos;
    var q := HeaderPos(p);
    var limit := RestOfBlock(f, q);
    AcceptedInBlock(f, cfg, p);
    DamageRejects(f, f', cfg, p, i, k);
    assert f[limit..] == f[i + k..][limit - i - k..] && f'[limit..] == f'[i + k..][limit - i - k..];
    ReadAllFrom(f, f', cfg, limit, limit, r);
  }

  /** What is known of an accepted record. */
  lemma AcceptedInBlock(f: Bytes, cfg: Settings, p: nat)
    requires ReadAt(f, cfg, p).Accepted?
    ensures var q, ph := HeaderPos(p), ReadAt(f, cfg, p);
            var limit := RestOfBlock(f, q);
            && q + HEADER <= ph.next <= limit <= |f|
            && var b := f[q..limit];
               ph.next == q + HEADER + ParsedLength(b) && |ph.data| == ParsedLength(b) && (cfg.checksum ==> ChecksumMatches(b))
  {
    hide ChecksumMatches, ParsedLength, Report, Wrap;
    BlockEndBehind(HeaderPos(p));
  }

  lemma DamageRejects(f: Bytes, f': Bytes, cfg: Settings, p: nat, i: nat, k: nat)
    requires cfg.checksum && ReadAt(f, cfg, p).Accepted?
    requires HeaderPos(p) + 6 <= i && k <= 4 && i + k <= ReadAt(f, cfg, p).next
    requires |f| == |f'| && f[..i] == f'[..i] && f[i + k..] == f'[i + k..] && f != f'
    ensures var q := HeaderPos(p);
            var limit := RestOfBlock(f, q);
            q + HEADER <= |f'| && limit <= |f| &&
            ReadAt(f', cfg, p) == Rejected(limit,
              if f'[q + 6] == ZERO_TYPE && ReadAt(f, cfg, p).data == [] then [] else Report(cfg, limit, limit - q, ChecksumMismatch))
  {
    hide ReadAt, ParsedLength, ChecksumMatches, Report, HeaderPos, BlockEnd;
    AcceptedInBlock(f, cfg, p);
    var q := HeaderPos(p);
    var limit := RestOfBlock(f, q);
    SliceDiffers(f, f', q, limit, i, i + k);
    DamageDetected(f[q..limit], f'[q..limit], i - q, k);
    MismatchRejected(f', cfg, p);
  }

  lemma MismatchRejected(f: Bytes, cfg: Settings, p: nat)
    requires var q := HeaderPos(p);
             var limit := RestOfBlock(f, q);
             && cfg.checksum && q + HEADER <= limit <= |f|
             && q + HEADER + ParsedLength(f[q..limit]) <= limit && !ChecksumMatches(f[q..limit])
    ensures var q := HeaderPos(p);
            var limit := RestOfBlock(f, q);
            ReadAt(f, cfg, p) == Rejected(limit,
              if f[q + 6] == ZERO_TYPE && ParsedLength(f[q..limit]) == 0 then [] else Report(cfg, limit, limit - q, ChecksumMismatch))
  {
    hide ChecksumMatches, ParsedLength, Report, Wrap;
  }

  lemma SliceOfSlice(f: Bytes, q: nat, limit: nat, i: nat, j: nat)
    requires q <= i <= j <= limit <= |f|
    ensures f[q..limit][i - q..j - q] == f[i..j]
  {
    var a := f[q..limit];
    forall m | 0 <= m < j - i ensures a[i - q..j - q][m] == f[i..j][m] {
      assert a[i - q + m] == f[i + m];
    }
  }

  lemma SliceDiffers(f: Bytes, f': Bytes, q: nat, limit: nat, i: nat, j: nat)
    requires q <= i <= j <= limit <= |f| == |f'| && f[..i] == f'[..i] && f[j..] == f'[j..]
    ensures var b, b' := f[q..limit], f'[q..limit];
            b[..i - q] == b'[..i - q] && b[j - q..] == b'[j - q..] && (b == b' ==> f == f')
  {
    var b, b' := f[q..limit], f'[q..limit];
    assert b[..i - q] == f[..i][q..] && b'[..i - q] == f'[..i][q..];
    assert b[j - q..] == f[j..][..limit - j] && b'[j - q..] == f'[j..][..limit - j];
    SliceOfSlice(f, q, limit, i, j);
    SliceOfSlice(f', q, limit, i, j);
    assert f == f[..i] + f[i..j] + f[j..] && f' == f'[..i] + f'[i..j] + f'[j..];
  }

  /** A length that runs past the end of the block costs the rest of the block, and is reported; one
      that runs past the end of the file is a record that was cut off. */
  lemma LengthTooLong(f: Bytes, cfg: Settings, p: nat)
    requires var q := HeaderPos(p);
             q + HEADER <= |f| && f[q + 4] as nat + 256 * (f[q + 5] as nat) > RestOfBlock(f, q) - q - HEADER
    ensures var q := HeaderPos(p);
            ReadAt(f, cfg, p) ==
              if q / BLOCK * BLOCK + BLOCK <= |f| then
                Rejected(BlockEnd(q), Report(cfg, BlockEnd(q), BLOCK - q % BLOCK, BadRecordLength))
              else AtEof(|f|)
  {
    hide ChecksumMatches, Report, Wrap;
    var q := HeaderPos(p);
    BlockEndBehind(q);
    var b := f[q..RestOfBlock(f, q)];
    assert |b| >= HEADER ==> b[4] == f[q + 4] && b[5] == f[q + 5];
    BlockRest(q);
  }

  lemma BlockRest(q: nat)
    ensures BlockEnd(q) - q == BLOCK - q % BLOCK
    ensures q % BLOCK + HEADER <= BLOCK ==> q + HEADER <= BlockEnd(q)
  {
  }

  // ---------------------------------------------- records that do not fit together

  /** A file of two records, in one block, is read as these two. */
  lemma TwoRecords(t: bv8, x: Bytes, u: bv8, y: Bytes, cfg: Config)
    requires cfg.initial == 0 && |x| + |y| <= BLOCK - 2 * HEADER && t != ZERO_TYPE && u != ZERO_TYPE
    ensures var f, m := Physical(t, x) + Physical(u, y), HEADER + |x|;
            && ReadAt(f, cfg, 0) == Accepted(t, x, 0, m)
            && ReadAt(f, cfg, m) == Accepted(u, y, m, |f|)
            && ReadAt(f, cfg, |f|) == AtEof(|f|)
  {
    hide ReadAt, Physical;
    var f, m := Physical(t, x) + Physical(u, y), HEADER + |x|;
    assert f[..|f|] == f && f[0..m] == Physical(t, x) && f[m..m + (HEADER + |y|)] == Physical(u, y);
    ReadFragment(f, |f|, cfg, 0, t, x);
    ReadFragment(f, |f|, cfg, m, u, y);
    PastTheEnd(f, cfg, |f|);
  }

  /** A record without its end is reported, and the one that follows it is not harmed. */
  lemma MissingEnd(x: Bytes, y: Bytes, checksum: bool)
    requires |x| + |y| <= BLOCK - 2 * HEADER
    ensures var f, cfg := Physical(FIRST, x) + Physical(FULL, y), Settings(checksum, true, 0, 0);
            ReadAll(f, cfg, 0, false) ==
              Reading([Found(y, HEADER + |x|)], if x == [] then [] else [Drop(|x|, PartialRecord)], |f|)
  {
    hide ReadAt, Physical, ReadOn, ReadAll;
    var f, cfg := Physical(FIRST, x) + Physical(FULL, y), Settings(checksum, true, 0, 0);
    TwoRecords(FIRST, x, FULL, y, cfg);
    ReadAllIsReadOn(f, cfg, 0, false);
    ReadOnStep(f, cfg, 0, Fresh(false));
    ReadOnStep(f, cfg, HEADER + |x|, Assembly(false, true, x, 0));
    ReadOnStep(f, cfg, |f|, Fresh(false));
  }

  /** So it is if it is the FIRST record of another one, which is not reported at the end of the file. */
  lemma MissingEndTwice(x: Bytes, y: Bytes, checksum: bool)
    requires |x| + |y| <= BLOCK - 2 * HEADER
    ensures var f, cfg := Physical(FIRST, x) + Physical(FIRST, y), Settings(checksum, true, 0, 0);
            ReadAll(f, cfg, 0, false) == Reading([], if x == [] then [] else [Drop(|x|, PartialRecord)], |f|)
  {
    hide ReadAt, Physical, ReadOn, ReadAll;
    var f, cfg := Physical(FIRST, x) + Physical(FIRST, y), Settings(checksum, true, 0, 0);
    TwoRecords(FIRST, x, FIRST, y, cfg);
    ReadAllIsReadOn(f, cfg, 0, false);
    ReadOnStep(f, cfg, 0, Fresh(false));
    ReadOnStep(f, cfg, HEADER + |x|, Assembly(false, true, x, 0));
    ReadOnStep(f, cfg, |f|, Assembly(false, true, y, HEADER + |x|));
  }

  /** The end of a record without its start is reported, unless the reader is passing over it. */
  lemma MissingBeginning(x: Bytes, y: Bytes, checksum: bool, r: bool)
    requires |x| + |y| <= BLOCK - 2 * HEADER
    ensures var f, cfg := Physical(MIDDLE, x) + Physical(LAST, y), Settings(checksum, true, 0, 0);
            ReadAll(f, cfg, 0, r) == Reading([], if r then [] else [Drop(|x|, MissingStart), Drop(|y|, MissingStart)], |f|)
  {
    hide ReadAt, Physical, ReadOn, ReadAll;
    var f, cfg := Physical(MIDDLE, x) + Physical(LAST, y), Settings(checksum, true, 0, 0);
    TwoRecords(MIDDLE, x, LAST, y, cfg);
    ReadAllIsReadOn(f, cfg, 0, r);
    ReadOnStep(f, cfg, 0, Fresh(r));
    ReadOnStep(f, cfg, HEADER + |x|, Fresh(r));
    ReadOnStep(f, cfg, |f|, Fresh(false));
  }

  /** A record of unknown type is reported together with the one it breaks off. */
  lemma UnknownBreaksOff(x: Bytes, t: bv8, y: Bytes, checksum: bool)
    requires |x| + |y| <= BLOCK - 2 * HEADER && t as nat > 6
    ensures var f, cfg := Physical(FIRST, x) + Physical(t, y), Settings(checksum, true, 0, 0);
            ReadAll(f, cfg, 0, false) == Reading([], [Drop(|x| + |y|, UnknownType)], |f|)
  {
    hide ReadAt, Physical, ReadOn, ReadAll;
    var f, cfg := Physical(FIRST, x) + Physical(t, y), Settings(checksum, true, 0, 0);
    TwoRecords(FIRST, x, t, y, cfg);
    ReadAllIsReadOn(f, cfg, 0, false);
    ReadOnStep(f, cfg, 0, Fresh(false));
    ReadOnStep(f, cfg, HEADER + |x|, Assembly(false, true, x, 0));
    ReadOnStep(f, cfg, |f|, Fresh(false));
  }

  /** A rejected one breaks it off in the same way: a type 6 record stands for it. */
  lemma RejectionBreaksOff(x: Bytes, y: Bytes, checksum: bool)
    requires |x| + |y| <= BLOCK - 2 * HEADER
    ensures var f, cfg := Physical(FIRST, x) + Physical(BAD_CODE, y), Settings(checksum, true, 0, 0);
            ReadAll(f, cfg, 0, false) == Reading([], [Drop(|x|, ErrorInMiddle)], |f|)
  {
    hide ReadAt, Physical, ReadOn, ReadAll;
    var f, cfg := Physical(FIRST, x) + Physical(BAD_CODE, y), Settings(checksum, true, 0, 0);
    TwoRecords(FIRST, x, BAD_CODE, y, cfg);
    ReadAllIsReadOn(f, cfg, 0, false);
    ReadOnStep(f, cfg, 0, Fresh(false));
    ReadOnStep(f, cfg, HEADER + |x|, Assembly(false, true, x, 0));
    ReadOnStep(f, cfg, |f|, Fresh(false));
  }
}
