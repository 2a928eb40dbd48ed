/** The skip list under concurrency: one writer, whose insertions are broken into single loads and
    stores, and any number of readers interleaved with it at every load. */
module SkipListSteps {
  import opened LevelLists

  datatype Slot = Uninit | Null | To(id: nat)

  /** A node: its slots are uninitialised until the writer stores them. */
  datatype Cell<K> = Cell(key: K, next: seq<Slot>)

  /** FindGreaterOrEqual, FindLessThan, FindLast, and the single load of SeekToFirst and Next. */
  datatype Op<K> = SeekGE(target: K) | SeekLT(target: K) | SeekLast | Follow(from: nat)

  datatype Reader<K> =
    | Starting(op: Op<K>)
    | Moving(op: Op<K>, x: nat, level: nat)
    | Done(op: Op<K>, result: Slot)
    | Fault

  /** Where the one insertion in progress stands; prev is its array of predecessors. */
  datatype Writer<K> =
    | Idle
    | Searching(key: K, x: nat, level: nat, prev: seq<nat>)
    | Found(key: K, prev: seq<nat>)
    | Ready(key: K, height: nat, prev: seq<nat>)
    | Linking(x: nat, level: nat, ownStored: bool, prev: seq<nat>)

  /** Nodes are numbered in order of allocation, the head being 0. The last two fields are history:
      every allocated node in key order, and into how many levels each has been linked. */
  datatype State<K> = State(
    mem: seq<Cell<K>>, maxHeight: nat, writer: Writer<K>, readers: map<nat, Reader<K>>,
    order: seq<nat>, ranks: seq<nat>)

  datatype Step<K> =
    | StartInsert(key: K)
    | WriterLoad
    | StoreHeight(height: nat)
    | Allocate
    | StoreOwn
    | StorePrev
    | StartRead(reader: nat, op: Op<K>)
    | ReaderLoad(reader: nat)

  // -------------------------------------------------------------------- steps

  function LoadSlot<K>(mem: seq<Cell<K>>, x: nat, level: nat): Slot {
    if x < |mem| && level < |mem[x].next| then mem[x].next[level] else Uninit
  }

  function StoreSlot<K>(mem: seq<Cell<K>>, x: nat, level: nat, slot: Slot): seq<Cell<K>> {
    if x < |mem| && level < |mem[x].next| then mem[x := mem[x].(next := mem[x].next[level := slot])] else mem
  }

  predicate KeyIsAfter<K>(cmp: (K, K) -> int, mem: seq<Cell<K>>, key: K, slot: Slot) {
    slot.To? && slot.id < |mem| && cmp(mem[slot.id].key, key) < 0
  }

  predicate GoesOn<K>(cmp: (K, K) -> int, mem: seq<Cell<K>>, op: Op<K>, next: Slot) {
    match op
    case SeekGE(key) => KeyIsAfter(cmp, mem, key, next)
    case SeekLT(key) => KeyIsAfter(cmp, mem, key, next)
    case SeekLast => next.To?
    case Follow(from) => false
  }

  /** One load by a reader, and what it then does on its own. */
  function ReaderStep<K>(cmp: (K, K) -> int, mem: seq<Cell<K>>, maxHeight: nat, r: Reader<K>): Reader<K> {
    match r
    case Starting(Follow(from)) => Moving(r.op, from, 0)
    case Starting(op) => if maxHeight == 0 then Fault else Moving(op, 0, maxHeight - 1)
    case Moving(op, x, level) =>
      var next := LoadSlot(mem, x, level);
      if next.Uninit? then Fault
      else if GoesOn(cmp, mem, op, next) then Moving(op, next.id, level)
      else if level > 0 then Moving(op, x, level - 1)
      else Done(op, if op.SeekLT? || op.SeekLast? then To(x) else next)
    case _ => r
  }

  function IndexOf(order: seq<nat>, id: nat): (k: nat)
    ensures k < |order| ==> order[k] == id
    ensures id in order ==> k < |order|
  {
    if order == [] then 0 else if order[0] == id then 0 else 1 + IndexOf(order[1..], id)
  }

  ghost predicate Present<K>(cmp: (K, K) -> int, mem: seq<Cell<K>>, order: seq<nat>, key: K) {
    exists k :: 0 < k < |order| && order[k] < |mem| && cmp(mem[order[k]].key, key) == 0
  }

  function SearchStepOf<K>(cmp: (K, K) -> int, mem: seq<Cell<K>>, w: Writer<K>): Writer<K>
    requires w.Searching?
  {
    var next := LoadSlot(mem, w.x, w.level);
    if KeyIsAfter(cmp, mem, w.key, next) then Searching(w.key, next.id, w.level, w.prev)
    else
      var prev := if w.level < |w.prev| then w.prev[w.level := w.x] else w.prev;
      if w.level == 0 then Found(w.key, prev) else Searching(w.key, w.x, w.level - 1, prev)
  }

  /** The head is the predecessor in the levels that come into use. */
  function GrowPrev(prev: seq<nat>, from: nat, to: nat): (r: seq<nat>)
    ensures |r| == |prev|
    ensures forall i :: 0 <= i < |r| ==> r[i] == if from <= i < to then 0 else prev[i]
  {
    seq(|prev|, i requires 0 <= i < |prev| => if from <= i < to then 0 else prev[i])
  }

  /** One step of the writer or of a reader; a step that is not enabled changes nothing. A caller
      never inserts a key that is present, and follows only nodes it has been given. */
  ghost function Apply<K>(cmp: (K, K) -> int, s: State<K>, step: Step<K>): State<K> {
    match step
    case StartInsert(key) =>
      if !s.writer.Idle? || Present(cmp, s.mem, s.order, key) || s.maxHeight == 0 then s
      else s.(writer := Searching(key, 0, s.maxHeight - 1, seq(MAX_HEIGHT, i => 0)))
    case WriterLoad =>
      if !s.writer.Searching? then s else s.(writer := SearchStepOf(cmp, s.mem, s.writer))
    case StoreHeight(height) =>
      if !s.writer.Found? || !(1 <= height <= MAX_HEIGHT) then s
      else
        s.(maxHeight := if height > s.maxHeight then height else s.maxHeight,
           writer := Ready(s.writer.key, height, GrowPrev(s.writer.prev, s.maxHeight, height)))
    case Allocate =>
      if !s.writer.Ready? || |s.writer.prev| == 0 || s.writer.prev[0] !in s.order || |s.ranks| != |s.order| then s
      else
        var p := IndexOf(s.order, s.writer.prev[0]) + 1;
        s.(mem := s.mem + [Cell(s.writer.key, seq(s.writer.height, i => Uninit))],
           writer := Linking(|s.mem|, 0, false, s.writer.prev),
           order := Inserted<nat>(s.order, p, |s.mem|), ranks := Inserted<nat>(s.ranks, p, 0))
    case StoreOwn =>
      if !s.writer.Linking? || s.writer.ownStored || s.writer.level >= |s.writer.prev| then s
      else
        var w := s.writer;
        s.(mem := StoreSlot(s.mem, w.x, w.level, LoadSlot(s.mem, w.prev[w.level], w.level)),
           writer := w.(ownStored := true))
    case StorePrev =>
      if !s.writer.Linking? || !s.writer.ownStored || s.writer.level >= |s.writer.prev| || s.writer.x >= |s.mem|
         || s.writer.x !in s.order || |s.ranks| != |s.order| then s
      else
        var w := s.writer;
        s.(mem := StoreSlot(s.mem, w.prev[w.level], w.level, To(w.x)),
           ranks := s.ranks[IndexOf(s.order, w.x) := w.level + 1],
           writer := if w.level + 1 == |s.mem[w.x].next| then Idle
                     else w.(level := w.level + 1, ownStored := false))
    case StartRead(t, op) =>
      if t in s.readers && !s.readers[t].Done? then s
      else if op.Follow? && op.from != 0 && !(t in s.readers && s.readers[t].result == To(op.from)) then s
      else s.(readers := s.readers[t := Starting(op)])
    case ReaderLoad(t) =>
      if t !in s.readers then s
      else s.(readers := s.readers[t := ReaderStep(cmp, s.mem, s.maxHeight, s.readers[t])])
  }

  function Init<K>(zero: K): State<K> {
    State([Cell(zero, seq(MAX_HEIGHT, i => Null))], 1, Idle, map[], [0], [MAX_HEIGHT])
  }

  ghost function Run<K>(cmp: (K, K) -> int, zero: K, steps: seq<Step<K>>): State<K> {
    if steps == [] then Init(zero)
    else Apply(cmp, Run(cmp, zero, steps[..|steps| - 1]), steps[|steps| - 1])
  }

  // --------------------------------------------------------------- invariants

  ghost predicate InMemory<K>(mem: seq<Cell<K>>, order: seq<nat>) {
    forall k :: 0 <= k < |order| ==> order[k] < |mem|
  }

  ghost function Keys<K>(mem: seq<Cell<K>>, order: seq<nat>): (s: seq<K>)
    requires InMemory(mem, order) && order != []
    ensures |s| == |order| - 1
    ensures forall k :: 0 < k < |order| ==> s[k - 1] == mem[order[k]].key
  {
    seq(|order| - 1, k requires 0 <= k < |order| - 1 => mem[order[k + 1]].key)
  }

  function SlotAt(order: seq<nat>, j: nat): Slot {
    if j < |order| then To(order[j]) else Null
  }

  ghost predicate Distinct(order: seq<nat>) {
    forall a, b :: 0 <= a < b < |order| ==> order[a] != order[b]
  }

  ghost predicate Linked<K>(mem: seq<Cell<K>>, order: seq<nat>, ranks: seq<nat>) {
    && |ranks| == |order|
    && InMemory(mem, order)
    && (forall k :: 0 <= k < |order| ==> ranks[k] <= |mem[order[k]].next|)
    && (forall k, i :: 0 <= k < |order| && 0 <= i < ranks[k] ==> mem[order[k]].next[i] == SlotAt(order, Succ(ranks, k, i)))
  }

  ghost predicate Memory<K(!new)>(cmp: (K, K) -> int, s: State<K>) {
    && |s.ranks| == |s.order| && InMemory(s.mem, s.order)
    && Linked(s.mem, s.order, s.ranks)
    && s.order != [] && s.order[0] == 0 && s.ranks[0] == MAX_HEIGHT
    && Distinct(s.order)
    && IsOrder(cmp)
    && Sorted(cmp, Keys(s.mem, s.order))
    && 1 <= s.maxHeight <= MAX_HEIGHT
  }

  // Every element other than pos (0 for none) is linked into all of its levels.

  ghost predicate Settled(ranks: seq<nat>, maxHeight: nat, pos: nat) {
    forall k :: 0 < k < |ranks| && k != pos ==> 1 <= ranks[k] <= maxHeight
  }

  ghost predicate FullyLinked<K>(mem: seq<Cell<K>>, order: seq<nat>, ranks: seq<nat>, pos: nat)
    requires InMemory(mem, order) && |ranks| == |order|
  {
    forall k :: 0 < k < |ranks| && k != pos ==> ranks[k] == |mem[order[k]].next|
  }

  ghost predicate PredsUpTo(order: seq<nat>, ranks: seq<nat>, p: nat, prev: seq<nat>, from: nat, to: nat) {
    && |prev| == MAX_HEIGHT && to <= MAX_HEIGHT && |ranks| == |order| && 0 < p <= |ranks| && ranks[0] == MAX_HEIGHT
    && forall i :: from <= i < to ==> prev[i] == order[Pred(ranks, p, i)]
  }

  /** The key to insert is absent, and the levels searched so far have yielded its predecessors. */
  ghost predicate SearchOk<K(!new)>(cmp: (K, K) -> int, s: State<K>, key: K, prev: seq<nat>, from: nat, to: nat)
    requires Memory(cmp, s)
  {
    && !Present(cmp, s.mem, s.order, key)
    && PredsUpTo(s.order, s.ranks, LowerBound(cmp, Keys(s.mem, s.order), key) + 1, prev, from, to)
  }

  ghost predicate SearchAt<K(!new)>(cmp: (K, K) -> int, s: State<K>, key: K, x: nat, level: nat)
    requires Memory(cmp, s)
  {
    exists k :: 0 <= k <= LowerBound(cmp, Keys(s.mem, s.order), key) && s.order[k] == x && level < s.ranks[k]
  }

  ghost predicate WriterOk<K(!new)>(cmp: (K, K) -> int, s: State<K>)
    requires Memory(cmp, s)
  {
    match s.writer
    case Idle => Settled(s.ranks, s.maxHeight, 0) && FullyLinked(s.mem, s.order, s.ranks, 0)
    case Searching(key, x, level, prev) =>
      && Settled(s.ranks, s.maxHeight, 0) && FullyLinked(s.mem, s.order, s.ranks, 0)
      && SearchOk(cmp, s, key, prev, level + 1, s.maxHeight)
      && level < s.maxHeight
      && SearchAt(cmp, s, key, x, level)
    case Found(key, prev) =>
      && Settled(s.ranks, s.maxHeight, 0) && FullyLinked(s.mem, s.order, s.ranks, 0)
      && SearchOk(cmp, s, key, prev, 0, s.maxHeight)
    case Ready(key, height, prev) =>
      && Settled(s.ranks, s.maxHeight, 0) && FullyLinked(s.mem, s.order, s.ranks, 0)
      && 1 <= height <= s.maxHeight
      && SearchOk(cmp, s, key, prev, 0, height)
    case Linking(x, level, ownStored, prev) =>
      var pos := IndexOf(s.order, x);
      && 0 < pos < |s.order| && s.ranks[pos] == level < |s.mem[x].next| <= s.maxHeight
      && Settled(s.ranks, s.maxHeight, pos) && FullyLinked(s.mem, s.order, s.ranks, pos)
      && PredsUpTo(s.order, s.ranks, pos, prev, 0, |s.mem[x].next|)
      && (ownStored ==> s.mem[x].next[level] == LoadSlot(s.mem, prev[level], level))
  }

  /** x is linked into level. */
  ghost predicate LinkedAt(order: seq<nat>, ranks: seq<nat>, x: nat, level: nat) {
    exists k :: 0 <= k < |order| && k < |ranks| && order[k] == x && level < ranks[k]
  }

  ghost predicate Before<K>(cmp: (K, K) -> int, mem: seq<Cell<K>>, op: Op<K>, x: nat) {
    (op.SeekGE? || op.SeekLT?) && x != 0 ==> x < |mem| && cmp(mem[x].key, op.target) < 0
  }

  ghost predicate ReaderOk<K>(cmp: (K, K) -> int, mem: seq<Cell<K>>, order: seq<nat>, ranks: seq<nat>, r: Reader<K>) {
    match r
    case Starting(op) => op.Follow? ==> LinkedAt(order, ranks, op.from, 0)
    case Moving(op, x, level) => LinkedAt(order, ranks, x, level) && Before(cmp, mem, op, x) && (op.Follow? ==> level == 0 && x == op.from)
    case Done(op, result) => !result.Uninit? && (result.To? ==> LinkedAt(order, ranks, result.id, 0))
    case Fault => false
  }

  ghost predicate Inv<K(!new)>(cmp: (K, K) -> int, s: State<K>) {
    && Memory(cmp, s)
    && WriterOk(cmp, s)
    && forall t :: t in s.readers ==> ReaderOk(cmp, s.mem, s.order, s.ranks, s.readers[t])
  }

  // ------------------------------------------------------------------- readers

  lemma Follows<K>(mem: seq<Cell<K>>, order: seq<nat>, ranks: seq<nat>, k: nat, level: nat)
    requires Linked(mem, order, ranks) && k < |order| && level < ranks[k]
    ensures LoadSlot(mem, order[k], level) == SlotAt(order, Succ(ranks, k, level))
    ensures level < |mem[order[k]].next| && mem[order[k]].next[level] == LoadSlot(mem, order[k], level)
    ensures |ranks| == |order| && InMemory(mem, order)
  {
  }

  /** What a reader standing at element k of a level sees next is again linked in that level. */
  lemma MovingStep<K(!new)>(cmp: (K, K) -> int, s: State<K>, op: Op<K>, x: nat, level: nat, k: nat)
    requires Linked(s.mem, s.order, s.ranks)
    requires k < |s.order| && s.order[k] == x && level < s.ranks[k]
    requires Before(cmp, s.mem, op, x) && (op.Follow? ==> level == 0 && x == op.from)
    ensures ReaderOk(cmp, s.mem, s.order, s.ranks, ReaderStep(cmp, s.mem, s.maxHeight, Moving(op, x, level)))
  {
    hide Linked;
    Follows(s.mem, s.order, s.ranks, k, level);
    var j := Succ(s.ranks, k, level);
    var r := ReaderStep(cmp, s.mem, s.maxHeight, Moving(op, x, level));
    if j < |s.order| {
      assert LinkedAt(s.order, s.ranks, s.order[j], level) && LinkedAt(s.order, s.ranks, s.order[j], 0);
    }
    if level > 0 {
      assert LinkedAt(s.order, s.ranks, x, level - 1);
    }
    assert LinkedAt(s.order, s.ranks, x, 0);
  }

  /** A reader that is linked where it stands never loads an uninitialised slot, and stays on linked
      nodes. */
  lemma ReaderStepOk<K(!new)>(cmp: (K, K) -> int, s: State<K>, r: Reader<K>)
    requires Memory(cmp, s) && ReaderOk(cmp, s.mem, s.order, s.ranks, r)
    ensures ReaderOk(cmp, s.mem, s.order, s.ranks, ReaderStep(cmp, s.mem, s.maxHeight, r))
  {
    hide IsOrder, Sorted, Distinct, Linked;
    match r
    case Starting(op) =>
      assert LinkedAt(s.order, s.ranks, s.order[0], s.maxHeight - 1);
    case Moving(op, x, level) =>
      var k :| 0 <= k < |s.order| && k < |s.ranks| && s.order[k] == x && level < s.ranks[k];
      MovingStep(cmp, s, op, x, level, k);
    case _ =>
  }

  /** The writer only ever adds links, and never touches a key. */
  ghost predicate Grows<K>(s: State<K>, s': State<K>) {
    && |s.mem| <= |s'.mem|
    && (forall id :: 0 <= id < |s.mem| ==> s'.mem[id].key == s.mem[id].key)
    && (forall x, level :: LinkedAt(s.order, s.ranks, x, level) ==> LinkedAt(s'.order, s'.ranks, x, level))
  }

  lemma ReaderStable<K>(cmp: (K, K) -> int, s: State<K>, s': State<K>, r: Reader<K>)
    requires Grows(s, s') && ReaderOk(cmp, s.mem, s.order, s.ranks, r)
    ensures ReaderOk(cmp, s'.mem, s'.order, s'.ranks, r)
  {
    hide LinkedAt;
  }

  // -------------------------------------------------------------------- writer

  lemma IndexUnique(order: seq<nat>, k: nat)
    requires Distinct(order) && k < |order|
    ensures IndexOf(order, order[k]) == k
  {
    assert order[k] in order;
  }

  lemma SearchLoad<K(!new)>(cmp: (K, K) -> int, s: State<K>, key: K, k: nat, level: nat)
    requires Memory(cmp, s) && k <= LowerBound(cmp, Keys(s.mem, s.order), key) && level < s.ranks[k]
    requires level < MAX_HEIGHT
    ensures var p, j := LowerBound(cmp, Keys(s.mem, s.order), key), Succ(s.ranks, k, level);
            var next := LoadSlot(s.mem, s.order[k], level);
            if KeyIsAfter(cmp, s.mem, key, next)
            then j <= p && next.id == s.order[j]
            else Pred(s.ranks, p + 1, level) == k
  {
    hide IsOrder, Sorted, Distinct, Linked, LowerBound, Pred, Succ, Keys;
    var keys := Keys(s.mem, s.order);
    Follows(s.mem, s.order, s.ranks, k, level);
    SearchStep(cmp, keys, s.ranks, key, k, level);
    var j := Succ(s.ranks, k, level);
    assert j < |s.order| ==> keys[j - 1] == s.mem[s.order[j]].key;
  }

  lemma WriterLoadOk<K(!new)>(cmp: (K, K) -> int, s: State<K>)
    requires Memory(cmp, s) && s.writer.Searching? && WriterOk(cmp, s)
    ensures var s' := s.(writer := SearchStepOf(cmp, s.mem, s.writer)); Memory(cmp, s') && WriterOk(cmp, s')
  {
    hide IsOrder, Sorted, Distinct, Linked, InMemory, LowerBound, Pred, Succ, Settled, Present, Keys, LoadSlot, KeyIsAfter;
    hide PredsUpTo;
    var w := s.writer;
    var p := LowerBound(cmp, Keys(s.mem, s.order), w.key);
    var k :| 0 <= k <= p && s.order[k] == w.x && w.level < s.ranks[k];
    SearchLoad(cmp, s, w.key, k, w.level);
    PredsExtended(s.order, s.ranks, p + 1, w.prev, w.level, s.maxHeight, k);
    if KeyIsAfter(cmp, s.mem, w.key, LoadSlot(s.mem, w.x, w.level)) {
      assert w.level < s.ranks[Succ(s.ranks, k, w.level)];
    } else if w.level > 0 {
      assert w.level - 1 < s.ranks[k];
    }
  }

  lemma PredsExtended(order: seq<nat>, ranks: seq<nat>, p: nat, prev: seq<nat>, level: nat, to: nat, k: nat)
    requires PredsUpTo(order, ranks, p, prev, level + 1, to) && level < to
    requires k < |order|
    ensures |prev| == MAX_HEIGHT && level < MAX_HEIGHT
    ensures Pred(ranks, p, level) == k ==> PredsUpTo(order, ranks, p, prev[level := order[k]], level, to)
  {
    hide Pred;
  }

  lemma StoreHeightOk<K(!new)>(cmp: (K, K) -> int, s: State<K>, height: nat)
    requires Memory(cmp, s) && WriterOk(cmp, s) && s.writer.Found? && 1 <= height <= MAX_HEIGHT
    ensures var s' := Apply(cmp, s, StoreHeight(height)); Memory(cmp, s') && WriterOk(cmp, s')
  {
    hide IsOrder, Sorted, Distinct, Linked, LowerBound, Pred, Present;
    var s' := Apply(cmp, s, StoreHeight(height));
    var p := LowerBound(cmp, Keys(s.mem, s.order), s.writer.key) + 1;
    forall i | s.maxHeight <= i < height
      ensures Pred(s.ranks, p, i) == 0
    {
      PredUnique(s.ranks, p, i, 0);
    }
  }

  /** A new node enters the history behind its level-0 predecessor, linked into no level. */
  lemma AllocateOk<K(!new)>(cmp: (K, K) -> int, s: State<K>)
    requires Memory(cmp, s) && WriterOk(cmp, s) && s.writer.Ready?
    ensures var s' := Apply(cmp, s, Allocate); Memory(cmp, s') && WriterOk(cmp, s') && Grows(s, s')
  {
    hide IsOrder, Sorted, Distinct, Linked, LowerBound, Pred, Inserted, Present, Keys, LinkedAt, Grows, IndexOf;
    var w, keys := s.writer, Keys(s.mem, s.order);
    var p := LowerBound(cmp, keys, w.key) + 1;
    LevelZeroPred(s.ranks, s.maxHeight, p);
    assert w.prev[0] == s.order[p - 1];
    IndexUnique(s.order, p - 1);
    var s' := Apply(cmp, s, Allocate);
    assert s'.order == Inserted<nat>(s.order, p, |s.mem|) && s'.ranks == Inserted<nat>(s.ranks, p, 0);
    NewNodeLinked(s, s', p);
    NewNodeGrows(s, s', p);
    NewNodeDistinct(s.mem, s.order, p);
    NewKeySorted(cmp, s, s', p);
    IndexUnique(s'.order, p);
    NewNodePreds(s.order, s.ranks, p, |s.mem|, w.prev, w.height);
  }

  lemma LevelZeroPred(ranks: seq<nat>, maxHeight: nat, p: nat)
    requires 0 < p <= |ranks| && ranks[0] == MAX_HEIGHT && Settled(ranks, maxHeight, 0)
    ensures Pred(ranks, p, 0) == p - 1
  {
    PredUnique(ranks, p, 0, p - 1);
  }

  lemma NewNodeLinked<K>(s: State<K>, s': State<K>, p: nat)
    requires Linked(s.mem, s.order, s.ranks) && 0 < p <= |s.order|
    requires |s'.mem| == |s.mem| + 1 && forall id :: 0 <= id < |s.mem| ==> s'.mem[id] == s.mem[id]
    requires s'.order == Inserted<nat>(s.order, p, |s.mem|) && s'.ranks == Inserted<nat>(s.ranks, p, 0)
    ensures Linked(s'.mem, s'.order, s'.ranks)
  {
    hide Succ, Inserted, SlotAt;
    forall m | 0 <= m < |s'.order| && m != p
      ensures s'.mem[s'.order[m]] == s.mem[s.order[if m < p then m else m - 1]]
    {
    }
    forall m, i | 0 <= m < |s'.order| && 0 <= i < s'.ranks[m]
      ensures i < |s'.mem[s'.order[m]].next| && s'.mem[s'.order[m]].next[i] == SlotAt(s'.order, Succ(s'.ranks, m, i))
    {
      var k := if m < p then m else m - 1;
      InsertUnlinked(s.ranks, p, k, i);
      Follows(s.mem, s.order, s.ranks, k, i);
      assert m == Shift(p, k) && i < s.ranks[k];
      SlotShifted(s.order, p, |s.mem|, Succ(s.ranks, k, i));
    }
  }

  lemma SlotShifted(order: seq<nat>, p: nat, x: nat, j: nat)
    requires p <= |order|
    ensures SlotAt(Inserted<nat>(order, p, x), Shift(p, j)) == SlotAt(order, j)
  {
  }

  lemma NewNodeGrows<K>(s: State<K>, s': State<K>, p: nat)
    requires |s.ranks| == |s.order| && p <= |s.order|
    requires |s'.mem| == |s.mem| + 1 && forall id :: 0 <= id < |s.mem| ==> s'.mem[id] == s.mem[id]
    requires s'.order == Inserted<nat>(s.order, p, |s.mem|) && s'.ranks == Inserted<nat>(s.ranks, p, 0)
    ensures Grows(s, s')
  {
    hide Inserted;
    forall x, level | LinkedAt(s.order, s.ranks, x, level)
      ensures LinkedAt(s'.order, s'.ranks, x, level)
    {
      var k :| 0 <= k < |s.order| && k < |s.ranks| && s.order[k] == x && level < s.ranks[k];
      assert s'.order[Shift(p, k)] == x && s'.ranks[Shift(p, k)] == s.ranks[k];
    }
  }

  lemma NewNodeDistinct<K>(mem: seq<Cell<K>>, order: seq<nat>, p: nat)
    requires Distinct(order) && InMemory(mem, order) && p <= |order|
    ensures Distinct(Inserted<nat>(order, p, |mem|))
  {
  }

  lemma NewKeySorted<K(!new)>(cmp: (K, K) -> int, s: State<K>, s': State<K>, p: nat)
    requires |s'.mem| == |s.mem| + 1 && forall id :: 0 <= id < |s.mem| ==> s'.mem[id] == s.mem[id]
    requires Memory(cmp, s) && !Present(cmp, s.mem, s.order, s'.mem[|s.mem|].key)
    requires p == LowerBound(cmp, Keys(s.mem, s.order), s'.mem[|s.mem|].key) + 1
    requires s'.order == Inserted<nat>(s.order, p, |s.mem|) && InMemory(s'.mem, s'.order)
    ensures Sorted(cmp, Keys(s'.mem, s'.order))
  {
    hide IsOrder, Sorted, Distinct, Linked, LowerBound, Inserted, Keys;
    var keys, key := Keys(s.mem, s.order), s'.mem[|s.mem|].key;
    assert InMemory(s.mem, s.order);
    forall m | 0 <= m < |keys|
      ensures cmp(keys[m], key) != 0
    {
      assert keys[m] == s.mem[s.order[m + 1]].key;
    }
    InsertSorted(cmp, keys, key);
    forall m | 0 <= m < |keys| + 1
      ensures Keys(s'.mem, s'.order)[m] == Inserted(keys, p - 1, key)[m]
    {
      assert Keys(s'.mem, s'.order)[m] == s'.mem[s'.order[m + 1]].key;
      if m > p - 1 {
        assert keys[m - 1] == s.mem[s.order[m]].key;
      }
      if m < p - 1 {
        assert keys[m] == s.mem[s.order[m + 1]].key;
      }
    }
    assert Keys(s'.mem, s'.order) == Inserted(keys, p - 1, key);
  }

  lemma NewNodePreds(order: seq<nat>, ranks: seq<nat>, p: nat, x: nat, prev: seq<nat>, height: nat)
    requires |order| == |ranks| && PredsUpTo(order, ranks, p, prev, 0, height)
    ensures PredsUpTo(Inserted<nat>(order, p, x), Inserted<nat>(ranks, p, 0), p, prev, 0, height)
  {
    hide Pred;
    forall i | 0 <= i < height
      ensures prev[i] == Inserted<nat>(order, p, x)[Pred(Inserted<nat>(ranks, p, 0), p, i)]
    {
      PredPrefix(ranks, Inserted<nat>(ranks, p, 0), p, i);
    }
  }

  lemma StoreOwnOk<K(!new)>(cmp: (K, K) -> int, s: State<K>)
    requires Memory(cmp, s) && WriterOk(cmp, s) && s.writer.Linking? && !s.writer.ownStored
    ensures var s' := Apply(cmp, s, StoreOwn); Memory(cmp, s') && WriterOk(cmp, s') && Grows(s, s')
  {
    hide IsOrder, Sorted, Pred, Keys;
    var w := s.writer;
    var pos := IndexOf(s.order, w.x);
    var q := Pred(s.ranks, pos, w.level);
    assert w.prev[w.level] == s.order[q] != w.x;
    var s' := Apply(cmp, s, StoreOwn);
    SameKeys(s, s');
    forall k | 0 <= k < |s.order| && k != pos
      ensures s'.mem[s.order[k]] == s.mem[s.order[k]]
    {
    }
  }

  lemma SameKeys<K>(s: State<K>, s': State<K>)
    requires InMemory(s.mem, s.order) && s.order != [] && s'.order == s.order && |s'.mem| == |s.mem|
    requires forall id :: 0 <= id < |s.mem| ==> s'.mem[id].key == s.mem[id].key
    ensures Keys(s'.mem, s'.order) == Keys(s.mem, s.order)
  {
  }

  /** The store that publishes the node in one more level. */
  lemma StorePrevOk<K(!new)>(cmp: (K, K) -> int, s: State<K>)
    requires Memory(cmp, s) && WriterOk(cmp, s) && s.writer.Linking? && s.writer.ownStored
    ensures var s' := Apply(cmp, s, StorePrev); Memory(cmp, s') && WriterOk(cmp, s') && Grows(s, s')
  {
    hide IsOrder, Sorted, Pred, Keys, Linked, Distinct;
    var w := s.writer;
    var pos := IndexOf(s.order, w.x);
    var s' := Apply(cmp, s, StorePrev);
    assert w.x == s.order[pos];
    PublishLinked(s.mem, s.order, s.ranks, pos, w.level);
    SameKeys(s, s');
    forall i | 0 <= i < |s.mem[w.x].next|
      ensures Pred(s'.ranks, pos, i) == Pred(s.ranks, pos, i)
    {
      PredPrefix(s.ranks, s'.ranks, pos, i);
    }
  }

  lemma PublishLinked<K>(mem: seq<Cell<K>>, order: seq<nat>, ranks: seq<nat>, pos: nat, level: nat)
    requires Linked(mem, order, ranks) && Distinct(order)
    requires 0 < pos < |order| && ranks[pos] == level < |mem[order[pos]].next| && ranks[0] > level
    requires mem[order[pos]].next[level] == LoadSlot(mem, order[Pred(ranks, pos, level)], level)
    ensures Linked(StoreSlot(mem, order[Pred(ranks, pos, level)], level, To(order[pos])), order, ranks[pos := level + 1])
  {
    hide Succ, Pred;
    var q := Pred(ranks, pos, level);
    var mem' := StoreSlot(mem, order[q], level, To(order[pos]));
    SuccOfPred(ranks, pos);
    Follows(mem, order, ranks, q, level);
    forall k, i | 0 <= k < |order| && 0 <= i < ranks[pos := level + 1][k]
      ensures i < |mem'[order[k]].next|
      ensures mem'[order[k]].next[i] == SlotAt(order, Succ(ranks[pos := level + 1], k, i))
    {
      RaiseRank(ranks, pos, k, i);
    }
  }

  // ---------------------------------------------------------------------- runs

  lemma ReadersStable<K(!new)>(cmp: (K, K) -> int, s: State<K>, s': State<K>)
    requires Inv(cmp, s) && Grows(s, s') && s'.readers == s.readers
    ensures forall t :: t in s'.readers ==> ReaderOk(cmp, s'.mem, s'.order, s'.ranks, s'.readers[t])
  {
    forall t | t in s'.readers
      ensures ReaderOk(cmp, s'.mem, s'.order, s'.ranks, s'.readers[t])
    {
      ReaderStable(cmp, s, s', s.readers[t]);
    }
  }

  lemma StartInsertOk<K(!new)>(cmp: (K, K) -> int, s: State<K>, key: K)
    requires Memory(cmp, s) && WriterOk(cmp, s)
    ensures var s' := Apply(cmp, s, StartInsert(key)); Memory(cmp, s') && WriterOk(cmp, s')
  {
    hide IsOrder, Sorted, Distinct, Linked, InMemory, LowerBound, Pred, Settled, Present, Keys;
    if s.writer.Idle? && !Present(cmp, s.mem, s.order, key) {
      assert s.order[0] == 0 && s.maxHeight - 1 < s.ranks[0];
    }
  }

  lemma WriterStepOk<K(!new)>(cmp: (K, K) -> int, s: State<K>, step: Step<K>)
    requires Inv(cmp, s) && !step.StartRead? && !step.ReaderLoad?
    ensures Inv(cmp, Apply(cmp, s, step)) && Grows(s, Apply(cmp, s, step))
  {
    hide Memory, WriterOk, ReaderOk, LinkedAt, StoreSlot, SearchStepOf, IndexOf, GrowPrev;
    var s' := Apply(cmp, s, step);
    if s' != s {
      match step {
        case StartInsert(key) => StartInsertOk(cmp, s, key);
        case WriterLoad => WriterLoadOk(cmp, s);
        case StoreHeight(height) => StoreHeightOk(cmp, s, height);
        case Allocate => AllocateOk(cmp, s);
        case StoreOwn => StoreOwnOk(cmp, s);
        case StorePrev => StorePrevOk(cmp, s);
      }
      ReadersStable(cmp, s, s');
    }
  }

  /** Reads change neither the memory nor the writer. */
  lemma SameMemory<K(!new)>(cmp: (K, K) -> int, s: State<K>, s': State<K>)
    requires Memory(cmp, s) && WriterOk(cmp, s)
    requires s' == s.(readers := s'.readers)
    ensures Memory(cmp, s') && WriterOk(cmp, s') && LinkedAt(s.order, s.ranks, 0, 0)
  {
    hide IsOrder, Sorted, Distinct, Linked, InMemory, LowerBound, Pred, Settled, Present, Keys;
    assert s.order[0] == 0;
  }

  lemma ReadStepOk<K(!new)>(cmp: (K, K) -> int, s: State<K>, step: Step<K>)
    requires Inv(cmp, s) && (step.StartRead? || step.ReaderLoad?)
    ensures Inv(cmp, Apply(cmp, s, step)) && Grows(s, Apply(cmp, s, step))
  {
    hide Memory, WriterOk, Linked, IsOrder, Sorted, Distinct, Keys, ReaderStep;
    SameMemory(cmp, s, Apply(cmp, s, step));
    match step
    case StartRead(t, op) =>
    case ReaderLoad(t) =>
      if t in s.readers {
        ReaderStepOk(cmp, s, s.readers[t]);
      }
  }

  lemma InitOk<K(!new)>(cmp: (K, K) -> int, zero: K)
    requires IsOrder(cmp)
    ensures Inv(cmp, Init(zero))
  {
    hide IsOrder;
    assert Keys(Init(zero).mem, Init(zero).order) == [];
  }

  /** The invariant holds in every reachable state: in particular no reader ever loads a slot that
      the writer has not initialised. */
  lemma {:induction false} RunOk<K(!new)>(cmp: (K, K) -> int, zero: K, steps: seq<Step<K>>)
    requires IsOrder(cmp)
    ensures Inv(cmp, Run(cmp, zero, steps))
    ensures forall t :: t in Run(cmp, zero, steps).readers ==> !Run(cmp, zero, steps).readers[t].Fault?
  {
    hide IsOrder, Apply, Memory, WriterOk, Init;
    if steps == [] {
      InitOk(cmp, zero);
    } else {
      var before := steps[..|steps| - 1];
      RunOk(cmp, zero, before);
      var step := steps[|steps| - 1];
      if step.StartRead? || step.ReaderLoad? {
        ReadStepOk(cmp, Run(cmp, zero, before), step);
      } else {
        WriterStepOk(cmp, Run(cmp, zero, before), step);
      }
    }
  }

  // ------------------------------------------------------------------- answers

  /** Following the level-0 pointers from x visits exactly l and then null. */
  ghost predicate Chain<K>(mem: seq<Cell<K>>, x: nat, l: seq<nat>)
    decreases |l|
  {
    && LoadSlot(mem, x, 0) == SlotAt(l, 0)
    && (l != [] ==> Chain(mem, l[0], l[1..]))
  }

  lemma {:induction false} ChainUnique<K>(mem: seq<Cell<K>>, x: nat, l: seq<nat>, l': seq<nat>)
    requires Chain(mem, x, l) && Chain(mem, x, l')
    ensures l == l'
    decreases |l|
  {
    if l != [] {
      ChainUnique(mem, l[0], l[1..], l'[1..]);
    }
  }

  /** Exactly the first p nodes of l hold keys below key. */
  ghost predicate Splits<K>(cmp: (K, K) -> int, mem: seq<Cell<K>>, l: seq<nat>, key: K, p: nat) {
    && p <= |l|
    && forall m :: 0 <= m < |l| ==> l[m] < |mem| && (cmp(mem[l[m]].key, key) < 0 <==> m < p)
  }

  /** The result is the right one for the list whose nodes after the head are l. */
  ghost predicate Answers<K>(cmp: (K, K) -> int, mem: seq<Cell<K>>, l: seq<nat>, op: Op<K>, result: Slot) {
    match op
    case SeekGE(key) => exists p :: Splits(cmp, mem, l, key, p) && result == SlotAt(l, p)
    case SeekLT(key) => exists p :: Splits(cmp, mem, l, key, p) && result == SlotAt([0] + l, p)
    case SeekLast => result == SlotAt([0] + l, |l|)
    case Follow(from) => exists j :: 0 <= j <= |l| && SlotAt([0] + l, j) == To(from) && result == SlotAt([0] + l, j + 1)
  }

  function Ids(order: seq<nat>, members: seq<nat>): (s: seq<nat>)
    requires forall m :: 0 <= m < |members| ==> members[m] < |order|
    ensures |s| == |members|
    ensures forall m :: 0 <= m < |members| ==> s[m] == order[members[m]]
  {
    seq(|members|, m requires 0 <= m < |members| => order[members[m]])
  }

  /** The nodes currently in level 0. */
  ghost function Level0(order: seq<nat>, ranks: seq<nat>, k: nat): seq<nat>
    requires |order| == |ranks| && k < |ranks|
  {
    MembersBounds(ranks, k, 0);
    Ids(order, Members(ranks, k, 0))
  }

  lemma {:induction false} Level0IsChain<K>(mem: seq<Cell<K>>, order: seq<nat>, ranks: seq<nat>, k: nat)
    requires |order| == |ranks| && Linked(mem, order, ranks) && k < |ranks| && ranks[k] > 0
    ensures Chain(mem, order[k], Level0(order, ranks, k))
    decreases |ranks| - k
  {
    hide Linked, LoadSlot;
    Follows(mem, order, ranks, k, 0);
    var j := Succ(ranks, k, 0);
    if j < |ranks| {
      Level0IsChain(mem, order, ranks, j);
      assert Level0(order, ranks, k)[1..] == Level0(order, ranks, j);
    }
  }

  /** A linked node divides level 0 into what is up to it and what follows. */
  lemma Level0Split(order: seq<nat>, ranks: seq<nat>, k: nat) returns (front: seq<nat>)
    requires |order| == |ranks| && k < |ranks| && ranks[k] > 0
    ensures forall m :: 0 <= m < |front| ==> 0 < front[m] <= k
    ensures Level0(order, ranks, 0) == Ids(order, front) + Level0(order, ranks, k)
    ensures SlotAt([order[0]] + Level0(order, ranks, 0), |front|) == To(order[k])
    ensures SlotAt(Level0(order, ranks, 0), |front|) == SlotAt(order, Succ(ranks, k, 0))
  {
    hide Succ;
    front := Upto(ranks, 0, k, 0);
    MembersSplit(ranks, 0, k, 0);
    MembersBounds(ranks, k, 0);
    MembersBounds(ranks, 0, 0);
  }

  lemma FrontSplits<K(!new)>(cmp: (K, K) -> int, s: State<K>, key: K, k: nat, front: seq<nat>)
    requires Memory(cmp, s) && k < |s.order| && s.ranks[k] > 0
    requires forall m :: 0 <= m < |front| ==> 0 < front[m] <= k
    requires Level0(s.order, s.ranks, 0) == Ids(s.order, front) + Level0(s.order, s.ranks, k)
    requires k > 0 ==> cmp(s.mem[s.order[k]].key, key) < 0
    requires var j := Succ(s.ranks, k, 0); j < |s.order| ==> cmp(s.mem[s.order[j]].key, key) >= 0
    ensures Splits(cmp, s.mem, Level0(s.order, s.ranks, 0), key, |front|)
  {
    hide IsOrder, Sorted, Distinct, Linked, LowerBound, Succ, Members, Keys;
    var keys := Keys(s.mem, s.order);
    var j := Succ(s.ranks, k, 0);
    var l := Level0(s.order, s.ranks, 0);
    var back := Members(s.ranks, k, 0);
    MembersBounds(s.ranks, k, 0);
    if k > 0 {
      LowerBoundSplits(cmp, keys, key, k - 1);
    }
    if j < |s.order| {
      LowerBoundSplits(cmp, keys, key, j - 1);
    }
    forall m | 0 <= m < |l|
      ensures l[m] < |s.mem| && (cmp(s.mem[l[m]].key, key) < 0 <==> m < |front|)
    {
      var e := if m < |front| then front[m] else back[m - |front|];
      assert l[m] == s.order[e];
      assert keys[e - 1] == s.mem[s.order[e]].key;
      LowerBoundSplits(cmp, keys, key, e - 1);
    }
  }

  lemma HeadIsFirst(order: seq<nat>, k: nat)
    requires Distinct(order) && k < |order|
    ensures order[k] == order[0] ==> k == 0
  {
  }

  lemma AnswerAtLoad<K(!new)>(cmp: (K, K) -> int, s: State<K>, op: Op<K>, x: nat, level: nat, result: Slot)
    requires Inv(cmp, s) && ReaderOk(cmp, s.mem, s.order, s.ranks, Moving(op, x, level))
    requires ReaderStep(cmp, s.mem, s.maxHeight, Moving(op, x, level)) == Done(op, result)
    ensures Answers(cmp, s.mem, Level0(s.order, s.ranks, 0), op, result)
  {
    hide IsOrder, Sorted, Distinct, Linked, WriterOk, Level0, Succ, Keys;
    var k :| 0 <= k < |s.order| && k < |s.ranks| && s.order[k] == x && level < s.ranks[k];
    Follows(s.mem, s.order, s.ranks, k, 0);
    var front := Level0Split(s.order, s.ranks, k);
    HeadIsFirst(s.order, k);
    var l := Level0(s.order, s.ranks, 0);
    var p := |front|;
    if op.SeekGE? || op.SeekLT? {
      FrontSplits(cmp, s, op.target, k, front);
    }
    assert [s.order[0]] + l == [0] + l;
    assert SlotAt([0] + l, p + 1) == SlotAt(l, p);
    match op
    case SeekGE(key) => assert Splits(cmp, s.mem, l, key, p) && result == SlotAt(l, p);
    case SeekLT(key) => assert Splits(cmp, s.mem, l, key, p) && result == SlotAt([0] + l, p);
    case SeekLast => assert result == SlotAt([0] + l, |l|);
    case Follow(from) => assert 0 <= p <= |l| && SlotAt([0] + l, p) == To(from) && result == SlotAt([0] + l, p + 1);
  }

  /** In any run, the answer a reader arrives at is the right one for the level-0 list as it stands in
      memory when the reader makes its last load. */
  lemma ReaderAnswers<K(!new)>(cmp: (K, K) -> int, zero: K, steps: seq<Step<K>>, t: nat)
    requires IsOrder(cmp)
    requires var s := Run(cmp, zero, steps); t in s.readers && s.readers[t].Moving?
    requires var s := Run(cmp, zero, steps); ReaderStep(cmp, s.mem, s.maxHeight, s.readers[t]).Done?
    ensures var s := Run(cmp, zero, steps);
            exists l :: Chain(s.mem, 0, l)
              && Answers(cmp, s.mem, l, s.readers[t].op, ReaderStep(cmp, s.mem, s.maxHeight, s.readers[t]).result)
  {
    hide IsOrder, Run, Linked, WriterOk, Sorted, Distinct, ReaderOk, Chain, Answers, Level0;
    var s := Run(cmp, zero, steps);
    RunOk(cmp, zero, steps);
    var r := s.readers[t];
    Level0IsChain(s.mem, s.order, s.ranks, 0);
    AnswerAtLoad(cmp, s, r.op, r.x, r.level, ReaderStep(cmp, s.mem, s.maxHeight, r).result);
    assert Chain(s.mem, 0, Level0(s.order, s.ranks, 0));
  }

  /** Level 0 in memory holds exactly the nodes whose publishing store has been made. */
  lemma Level0Holds<K(!new)>(cmp: (K, K) -> int, s: State<K>, x: nat)
    requires Memory(cmp, s) && x != 0
    ensures x in Level0(s.order, s.ranks, 0) <==> LinkedAt(s.order, s.ranks, x, 0)
  {
    hide IsOrder, Sorted, Distinct, Linked, Succ, Members, Keys;
    var members := Members(s.ranks, 0, 0);
    MembersBounds(s.ranks, 0, 0);
    if LinkedAt(s.order, s.ranks, x, 0) {
      var k :| 0 <= k < |s.order| && k < |s.ranks| && s.order[k] == x && 0 < s.ranks[k];
      var front := Level0Split(s.order, s.ranks, k);
      assert ([s.order[0]] + Level0(s.order, s.ranks, 0))[|front|] == x;
    }
    if x in Level0(s.order, s.ranks, 0) {
      var m :| 0 <= m < |Level0(s.order, s.ranks, 0)| && Level0(s.order, s.ranks, 0)[m] == x;
      assert s.order[members[m]] == x && s.ranks[members[m]] > 0;
    }
  }

  /** Once in the level-0 list, a node stays in it, whatever happens next. */
  lemma {:induction false} PublishedStays<K(!new)>(cmp: (K, K) -> int, zero: K, steps: seq<Step<K>>, more: seq<Step<K>>, x: nat)
    requires IsOrder(cmp)
    requires var s := Run(cmp, zero, steps); LinkedAt(s.order, s.ranks, x, 0)
    ensures var s := Run(cmp, zero, steps + more);
            LinkedAt(s.order, s.ranks, x, 0) && Memory(cmp, s) && (x != 0 ==> x in Level0(s.order, s.ranks, 0))
  {
    hide IsOrder, Apply, Memory, WriterOk, Level0, LinkedAt;
    RunOk(cmp, zero, steps + more);
    if more == [] {
      assert steps + more == steps;
    } else {
      var front := more[..|more| - 1];
      PublishedStays(cmp, zero, steps, front, x);
      assert (steps + more)[..|steps + more| - 1] == steps + front;
      var step, before := more[|more| - 1], Run(cmp, zero, steps + front);
      RunOk(cmp, zero, steps + front);
      if step.StartRead? || step.ReaderLoad? {
        ReadStepOk(cmp, before, step);
      } else {
        WriterStepOk(cmp, before, step);
      }
    }
    if x != 0 {
      Level0Holds(cmp, Run(cmp, zero, steps + more), x);
    }
  }

  /** The store into the level-0 predecessor publishes the new node and nothing else; no other step
      changes level 0. */
  lemma OnlyStorePrevPublishes<K(!new)>(cmp: (K, K) -> int, s: State<K>, step: Step<K>, id: nat)
    requires Inv(cmp, s)
    ensures var s' := Apply(cmp, s, step);
            var publishes := step.StorePrev? && s.writer.Linking? && s.writer.ownStored && s.writer.level == 0;
            LinkedAt(s'.order, s'.ranks, id, 0) <==>
              LinkedAt(s.order, s.ranks, id, 0) || (publishes && id == s.writer.x)
  {
    hide IsOrder, Sorted, Distinct, Linked, Keys, Pred, StoreSlot, GrowPrev, ReaderOk, ReaderStep, SearchStepOf, Inserted;
    var s' := Apply(cmp, s, step);
    if step.Allocate? && s'.order != s.order {
      var p := IndexOf(s.order, s.writer.prev[0]) + 1;
      AllocateKeepsLevel0(s.order, s.ranks, p, |s.mem|, id);
    } else if step.StorePrev? && s' != s {
      var pos := IndexOf(s.order, s.writer.x);
      RaiseKeepsLevel0(s.order, s.ranks, pos, id);
    }
  }

  lemma AllocateKeepsLevel0(order: seq<nat>, ranks: seq<nat>, p: nat, x: nat, id: nat)
    requires |order| == |ranks| && p <= |order|
    ensures LinkedAt(Inserted<nat>(order, p, x), Inserted<nat>(ranks, p, 0), id, 0) <==> LinkedAt(order, ranks, id, 0)
  {
    hide Inserted;
    var order', ranks' := Inserted<nat>(order, p, x), Inserted<nat>(ranks, p, 0);
    if LinkedAt(order, ranks, id, 0) {
      var k :| 0 <= k < |order| && k < |ranks| && order[k] == id && 0 < ranks[k];
      assert order'[Shift(p, k)] == id && ranks'[Shift(p, k)] == ranks[k];
    }
    if LinkedAt(order', ranks', id, 0) {
      var k :| 0 <= k < |order'| && k < |ranks'| && order'[k] == id && 0 < ranks'[k];
      assert order[if k < p then k else k - 1] == id;
    }
  }

  lemma RaiseKeepsLevel0(order: seq<nat>, ranks: seq<nat>, pos: nat, id: nat)
    requires |order| == |ranks| && pos < |order|
    ensures LinkedAt(order, ranks[pos := ranks[pos] + 1], id, 0) <==>
      LinkedAt(order, ranks, id, 0) || id == order[pos]
  {
    var ranks' := ranks[pos := ranks[pos] + 1];
    if LinkedAt(order, ranks, id, 0) {
      var k :| 0 <= k < |order| && k < |ranks| && order[k] == id && 0 < ranks[k];
      assert 0 < ranks'[k];
    }
    if LinkedAt(order, ranks', id, 0) && id != order[pos] {
      var k :| 0 <= k < |order| && k < |ranks'| && order[k] == id && 0 < ranks'[k];
      assert 0 < ranks[k];
    }
    if id == order[pos] {
      assert 0 < ranks'[pos];
    }
  }
}
