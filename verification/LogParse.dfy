/** What a reader makes of a log file, by position in the file and without its buffer: the physical
    record found at a position, and the logical record assembled from there on. */
module LogParse {
  import opened Coding
  import opened LogFormat

  // On-disk types 5 and 6 are not told apart from these.
  const EOF_CODE: bv8 := 5
  const BAD_CODE: bv8 := 6

  /** What a reader is opened with, and how far its own offsets are ahead of the positions of the bytes
      it looks at. */
  datatype Settings = Settings(checksum: bool, reporting: bool, initial: nat, shift: int)

  /** Offsets are positions, as they are until the reader skips to its first block a second time. */
  type Config = s: Settings | s.shift == 0 witness Settings(true, true, 0, 0)

  /** An unsigned difference of 64 bits. */
  function Wrap(x: int): (w: nat)
    ensures x >= 0 ==> w == x
  {
    if x < 0 then x % LIMIT_64 else x
  }

  datatype Reason =
    | BadRecordLength | ChecksumMismatch | PartialRecord | MissingStart | ErrorInMiddle | UnknownType | SkipFailed

  datatype Drop = Drop(bytes: nat, reason: Reason)

  /** The report made, if any, when bytes ending at pos are dropped. */
  function Report(cfg: Settings, pos: nat, bytes: nat, reason: Reason): seq<Drop> {
    if cfg.reporting && Wrap(pos + cfg.shift - bytes) >= cfg.initial then [Drop(bytes, reason)] else []
  }

  // -------------------------------------------------------- physical records

  datatype Phys =
    | AtEof(next: nat)
    | Rejected(next: nat, drops: seq<Drop>)
    | Accepted(t: bv8, data: Bytes, start: nat, next: nat)
  {
    function Code(): bv8 {
      match this
      case AtEof(_) => EOF_CODE
      case Rejected(_, _) => BAD_CODE
      case Accepted(t, _, _, _) => t
    }

    function Drops(): seq<Drop> {
      if Rejected? then drops else []
    }
  }

  function BlockEnd(q: nat): nat {
    (q / BLOCK + 1) * BLOCK
  }

  /** The physical record at position p of file f: a header never starts in a block's trailer, and
      whatever is wrong with a record costs the rest of its block. */
  function ReadAt(f: Bytes, cfg: Settings, p: nat): (r: Phys)
    ensures !r.AtEof? ==> p < r.next <= |f|
  {
    var q := HeaderPos(p);
    if q + HEADER > |f| then AtEof(if p > |f| then p else |f|)
    else
      var limit := if BlockEnd(q) <= |f| then BlockEnd(q) else |f|;
      var b := f[q..limit];
      var end := q + HEADER + ParsedLength(b);
      if end > limit then
        if BlockEnd(q) <= |f| then Rejected(limit, Report(cfg, limit, limit - q, BadRecordLength))
        else AtEof(|f|)
      else if b[6] == ZERO_TYPE && ParsedLength(b) == 0 then Rejected(limit, [])
      else if cfg.checksum && !ChecksumMatches(b) then Rejected(limit, Report(cfg, limit, limit - q, ChecksumMismatch))
      else if Wrap(q + cfg.shift) < cfg.initial then Rejected(end, [])
      else Accepted(b[6], b[HEADER..end - q], Wrap(q + cfg.shift), end)
  }

  // --------------------------------------------------------- logical records

  /** Where the assembly of a logical record stands; offset is that of its first fragment. */
  datatype Assembly = Assembly(resyncing: bool, fragmented: bool, scratch: Bytes, offset: nat)

  datatype Step =
    | Continue(a: Assembly, drops: seq<Drop>)
    | Return(found: bool, record: Bytes, offset: nat, resyncing: bool, drops: seq<Drop>)

  /** What one physical record does to the assembly. */
  function Absorb(cfg: Settings, a: Assembly, ph: Phys): Step {
    var code := ph.Code();
    if a.resyncing && code == MIDDLE then Continue(a, [])
    else if a.resyncing && code == LAST then Continue(a.(resyncing := false), [])
    else
      var lost := if a.fragmented then a.scratch else [];
      if code == EOF_CODE then Return(false, [], 0, false, [])
      else if code == BAD_CODE then
        Continue(a.(resyncing := false, fragmented := false, scratch := if a.fragmented then [] else a.scratch),
                 if a.fragmented then Report(cfg, ph.next, |lost|, ErrorInMiddle) else [])
      else
        assert ph.Accepted?;
        if code == FULL then
          Return(true, ph.data, ph.start, false, if lost != [] then Report(cfg, ph.next, |lost|, PartialRecord) else [])
        else if code == FIRST then
          Continue(Assembly(false, true, ph.data, ph.start),
                   if lost != [] then Report(cfg, ph.next, |lost|, PartialRecord) else [])
        else if code == MIDDLE then
          if a.fragmented then Continue(a.(resyncing := false, scratch := a.scratch + ph.data), [])
          else Continue(a.(resyncing := false), Report(cfg, ph.next, |ph.data|, MissingStart))
        else if code == LAST then
          if a.fragmented then Return(true, a.scratch + ph.data, a.offset, false, [])
          else Continue(a.(resyncing := false), Report(cfg, ph.next, |ph.data|, MissingStart))
        else
          Continue(a.(resyncing := false, fragmented := false, scratch := []),
                   Report(cfg, ph.next, |ph.data| + |lost|, UnknownType))
  }

  /** The outcome of one ReadRecord call, where the reader then stands, and what it has reported. */
  datatype Outcome = Outcome(found: bool, record: Bytes, offset: nat, pos: nat, resyncing: bool, drops: seq<Drop>)

  function NextRecord(f: Bytes, cfg: Settings, p: nat, a: Assembly): Outcome
    decreases if p <= |f| then |f| - p else 0
  {
    var ph := ReadAt(f, cfg, p);
    match Absorb(cfg, a, ph)
    case Return(found, record, offset, resyncing, drops) =>
      Outcome(found, record, offset, ph.next, resyncing, ph.Drops() + drops)
    case Continue(a', drops) =>
      var o := NextRecord(f, cfg, ph.next, a');
      o.(drops := ph.Drops() + drops + o.drops)
  }

  function Fresh(resyncing: bool): Assembly {
    Assembly(resyncing, false, [], 0)
  }

  /** The block at which a reader with this initial offset starts. */
  function BlockStart(initial: nat): nat {
    var inBlock := initial % BLOCK;
    if inBlock > BLOCK - 6 then initial - inBlock + BLOCK else initial - inBlock
  }

  datatype Found = Found(record: Bytes, offset: nat)

  /** Consecutive calls up to and including the first that returns false: the records returned with
      their offsets, everything reported, and where the reader then stands. */
  datatype Reading = Reading(found: seq<Found>, drops: seq<Drop>, pos: nat)

  function ReadAll(f: Bytes, cfg: Settings, p: nat, resyncing: bool): Reading
    decreases if p <= |f| then |f| - p else 0
  {
    var o := NextRecord(f, cfg, p, Fresh(resyncing));
    if !o.found then Reading([], o.drops, o.pos) else
      FoundAdvances(f, cfg, p, Fresh(resyncing));
      var rest := ReadAll(f, cfg, o.pos, o.resyncing);
      Reading([Found(o.record, o.offset)] + rest.found, o.drops + rest.drops, rest.pos)
  }

  lemma {:induction false} FoundAdvances(f: Bytes, cfg: Settings, p: nat, a: Assembly)
    ensures var o := NextRecord(f, cfg, p, a); o.found ==> p < o.pos <= |f|
    decreases if p <= |f| then |f| - p else 0
  {
    hide ReadAt;
    var ph := ReadAt(f, cfg, p);
    var step := Absorb(cfg, a, ph);
    if step.Continue? {
      FoundAdvances(f, cfg, ph.next, step.a);
    }
  }
}
