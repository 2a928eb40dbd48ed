/** Insertions into the concurrent skip list finish: from every reachable state the writer, on its
    own, gets to the end of the insertion it is in, and the key is then in the list. */
module SkipListProgress {
  import opened LevelLists
  import opened SkipListSteps

  ghost function Continue<K>(cmp: (K, K) -> int, s: State<K>, more: seq<Step<K>>): State<K>
    decreases |more|
  {
    if more == [] then s else Continue(cmp, Apply(cmp, s, more[0]), more[1..])
  }

  lemma {:induction false} RunContinues<K>(cmp: (K, K) -> int, zero: K, steps: seq<Step<K>>, more: seq<Step<K>>)
    ensures Run(cmp, zero, steps + more) == Continue(cmp, Run(cmp, zero, steps), more)
    decreases |more|
  {
    hide Apply;
    if more == [] {
      assert steps + more == steps;
    } else {
      var next := steps + [more[0]];
      assert next[..|next| - 1] == steps && next + more[1..] == steps + more;
      RunContinues(cmp, zero, next, more[1..]);
    }
  }

  predicate ByWriter<K>(step: Step<K>) {
    !step.StartRead? && !step.ReaderLoad?
  }

  /** The one step by which an insertion goes on; the height of the new node is drawn on the way. */
  function NextStep<K>(w: Writer<K>, height: nat): Step<K>
    requires !w.Idle?
  {
    match w
    case Searching(_, _, _, _) => WriterLoad
    case Found(_, _) => StoreHeight(height)
    case Ready(_, _, _) => Allocate
    case Linking(_, _, ownStored, _) => if ownStored then StorePrev else StoreOwn
  }

  // What is left to do, as three numbers in order of weight.

  function Phase<K>(w: Writer<K>): nat {
    match w
    case Searching(_, _, _, _) => 4
    case Found(_, _) => 3
    case Ready(_, _, _) => 2
    case Linking(_, _, _, _) => 1
    case Idle => 0
  }

  function Levels<K>(s: State<K>): int {
    match s.writer
    case Searching(_, _, level, _) => level
    case Linking(x, level, _, _) => if x < |s.mem| then |s.mem[x].next| - level else 0
    case _ => 0
  }

  function Rest<K>(s: State<K>): int {
    match s.writer
    case Searching(_, x, _, _) => |s.order| - IndexOf(s.order, x)
    case Linking(_, _, ownStored, _) => if ownStored then 0 else 1
    case _ => 0
  }

  ghost predicate Less<K>(s': State<K>, s: State<K>) {
    var p, p' := Phase(s.writer), Phase(s'.writer);
    && 0 <= Levels(s') && 0 <= Rest(s')
    && (p' < p || (p' == p && (Levels(s') < Levels(s) || (Levels(s') == Levels(s) && Rest(s') < Rest(s)))))
  }

  lemma IndexBound(order: seq<nat>, x: nat)
    ensures IndexOf(order, x) <= |order|
  {
  }

  lemma SearchLess<K(!new)>(cmp: (K, K) -> int, s: State<K>)
    requires Memory(cmp, s) && s.writer.Searching? && WriterOk(cmp, s)
    ensures Less(s.(writer := SearchStepOf(cmp, s.mem, s.writer)), s)
  {
    hide IsOrder, Sorted, Linked, InMemory, LowerBound, Pred, Succ, Settled, Present, Keys, LoadSlot, KeyIsAfter, IndexOf, PredsUpTo, Distinct;
    var w := s.writer;
    var p := LowerBound(cmp, Keys(s.mem, s.order), w.key);
    var k :| 0 <= k <= p && s.order[k] == w.x && w.level < s.ranks[k];
    SearchLoad(cmp, s, w.key, k, w.level);
    IndexUnique(s.order, k);
    IndexBound(s.order, w.x);
    if KeyIsAfter(cmp, s.mem, w.key, LoadSlot(s.mem, w.x, w.level)) {
      var j := Succ(s.ranks, k, w.level);
      IndexUnique(s.order, j);
      IndexBound(s.order, s.order[j]);
    }
  }

  /** Every step of the insertion is taken, and brings it nearer to its end. */
  lemma NextStepLess<K(!new)>(cmp: (K, K) -> int, s: State<K>, height: nat)
    requires Inv(cmp, s) && !s.writer.Idle? && 1 <= height <= MAX_HEIGHT
    ensures Less(Apply(cmp, s, NextStep(s.writer, height)), s)
  {
    hide SearchStepOf, Memory, WriterOk, ReaderOk, StoreSlot, LoadSlot, Present, IndexOf;
    match s.writer
    case Searching(_, _, _, _) => SearchLess(cmp, s);
    case Found(_, _) =>
    case Ready(_, _, _) => ReadyCanAllocate(cmp, s);
    case Linking(x, level, _, prev) =>
      LinkingCanStore(cmp, s);
      StoreKeeps(s.mem, x, level, LoadSlot(s.mem, prev[level], level), x);
      StoreKeeps(s.mem, prev[level], level, To(x), x);
  }

  lemma LinkingCanStore<K(!new)>(cmp: (K, K) -> int, s: State<K>)
    requires Memory(cmp, s) && WriterOk(cmp, s) && s.writer.Linking?
    ensures var w, pos := s.writer, IndexOf(s.order, s.writer.x);
            && w.x in s.order && w.x < |s.mem| && |s.ranks| == |s.order| && pos < |s.order| && s.order[pos] == w.x
            && w.level < |w.prev| && w.level < |s.mem[w.x].next|
  {
    hide IsOrder, Sorted, Linked, Keys, Pred, Settled, FullyLinked, Distinct, IndexOf, LoadSlot;
  }

  /** A store into a slot changes neither the keys nor the heights. */
  lemma StoreKeeps<K>(mem: seq<Cell<K>>, at: nat, level: nat, slot: Slot, x: nat)
    requires x < |mem|
    ensures var mem' := StoreSlot(mem, at, level, slot);
            |mem'| == |mem| && mem'[x].key == mem[x].key && |mem'[x].next| == |mem[x].next|
  {
  }

  lemma ReadyCanAllocate<K(!new)>(cmp: (K, K) -> int, s: State<K>)
    requires Memory(cmp, s) && WriterOk(cmp, s) && s.writer.Ready?
    ensures |s.writer.prev| > 0 && s.writer.prev[0] in s.order && |s.ranks| == |s.order|
  {
    hide IsOrder, Sorted, Linked, Keys, LowerBound, Present;
  }

  /** The node of the insertion in progress: allocated already, or the next to be. */
  function NodeOf<K>(s: State<K>): nat {
    if s.writer.Linking? then s.writer.x else |s.mem|
  }

  /** The key and height of that node. */
  ghost predicate Carries<K>(s: State<K>, key: K, height: nat) {
    match s.writer
    case Searching(k, _, _, _) => k == key
    case Found(k, _) => k == key
    case Ready(k, h, _) => k == key && h == height
    case Linking(x, _, _, _) => x < |s.mem| && s.mem[x].key == key && |s.mem[x].next| == height
    case Idle => false
  }

  /** x is a node with this key and height, and in level 0. */
  ghost predicate Stands<K>(s: State<K>, x: nat, key: K, height: nat) {
    && x < |s.mem| && s.mem[x].key == key && |s.mem[x].next| == height && LinkedAt(s.order, s.ranks, x, 0)
  }

  lemma StepCarries<K(!new)>(cmp: (K, K) -> int, s: State<K>, key: K, height: nat)
    requires Inv(cmp, s) && Carries(s, key, height) && 1 <= height <= MAX_HEIGHT
    ensures var s' := Apply(cmp, s, NextStep(s.writer, height));
            if s'.writer.Idle? then Stands(s', NodeOf(s), key, height)
            else Carries(s', key, height) && NodeOf(s') == NodeOf(s)
  {
    hide SearchStepOf, Memory, WriterOk, ReaderOk, StoreSlot, LoadSlot, Present, IndexOf;
    match s.writer
    case Searching(_, _, _, _) => SearchGoesOn(cmp, s);
    case Found(_, _) =>
    case Ready(_, _, _) => ReadyCanAllocate(cmp, s);
    case Linking(x, level, ownStored, prev) =>
      LinkingCanStore(cmp, s);
      StoreKeeps(s.mem, x, level, LoadSlot(s.mem, prev[level], level), x);
      StoreKeeps(s.mem, prev[level], level, To(x), x);
      if ownStored {
        var s', pos := Apply(cmp, s, StorePrev), IndexOf(s.order, x);
        assert s'.order[pos] == x && s'.ranks[pos] > 0;
      }
  }

  lemma SearchGoesOn<K>(cmp: (K, K) -> int, s: State<K>)
    requires s.writer.Searching?
    ensures var w := SearchStepOf(cmp, s.mem, s.writer); !w.Idle? && !w.Linking? && !w.Ready? && w.key == s.writer.key
  {
  }

  /** Whatever insertion is in progress, the writer's steps alone finish it. */
  lemma {:induction false} Finish<K(!new)>(cmp: (K, K) -> int, s: State<K>, key: K, height: nat) returns (more: seq<Step<K>>)
    requires Inv(cmp, s) && Carries(s, key, height) && 1 <= height <= MAX_HEIGHT
    ensures forall i :: 0 <= i < |more| ==> ByWriter(more[i])
    ensures var s' := Continue(cmp, s, more); s'.writer.Idle? && Stands(s', NodeOf(s), key, height)
    decreases Phase(s.writer), Levels(s), Rest(s)
  {
    hide Inv, Apply, Phase, Levels, Rest, Stands, NodeOf;
    var step := NextStep(s.writer, height);
    var s' := Apply(cmp, s, step);
    NextStepLess(cmp, s, height);
    StepCarries(cmp, s, key, height);
    WriterStepOk(cmp, s, step);
    if s'.writer.Idle? {
      more := [step];
      assert Continue(cmp, s, more) == Continue(cmp, s', more[1..]);
    } else {
      var rest := Finish(cmp, s', key, height);
      more := [step] + rest;
      assert more[1..] == rest;
    }
  }

  /** In any reachable state in which no insertion is in progress, an insertion of a key that is not
      there can be started and run to its end, with any height, and the new node, with that key, is
      then in the level-0 list that readers follow; and there it stays. */
  lemma InsertionFinishes<K(!new)>(cmp: (K, K) -> int, zero: K, steps: seq<Step<K>>, key: K, height: nat)
    returns (more: seq<Step<K>>)
    requires IsOrder(cmp) && 1 <= height <= MAX_HEIGHT
    requires var s := Run(cmp, zero, steps); s.writer.Idle? && !Present(cmp, s.mem, s.order, key)
    ensures forall i :: 0 <= i < |more| ==> ByWriter(more[i])
    ensures var s, s' := Run(cmp, zero, steps), Run(cmp, zero, steps + more);
            && s'.writer.Idle? && Memory(cmp, s') && |s.mem| < |s'.mem|
            && s'.mem[|s.mem|].key == key && |s'.mem[|s.mem|].next| == height
            && |s.mem| in Level0(s'.order, s'.ranks, 0)
  {
    hide IsOrder, Inv, Continue, Level0;
    var s := Run(cmp, zero, steps);
    RunOk(cmp, zero, steps);
    HasHeight(cmp, s);
    var started := Apply(cmp, s, StartInsert(key));
    WriterStepOk(cmp, s, StartInsert(key));
    var rest := Finish(cmp, started, key, height);
    more := [StartInsert(key)] + rest;
    OneStepContinues(cmp, s, StartInsert(key), rest);
    RunContinues(cmp, zero, steps, more);
    RunOk(cmp, zero, steps + more);
    HasHeight(cmp, Run(cmp, zero, steps + more));
    Level0Holds(cmp, Run(cmp, zero, steps + more), |s.mem|);
  }

  lemma HasHeight<K(!new)>(cmp: (K, K) -> int, s: State<K>)
    requires Inv(cmp, s)
    ensures Memory(cmp, s) && s.maxHeight > 0 && |s.mem| > 0
  {
    hide IsOrder, Sorted, Linked, Keys, Distinct, WriterOk;
    assert s.order[0] < |s.mem|;
  }

  lemma OneStepContinues<K>(cmp: (K, K) -> int, s: State<K>, step: Step<K>, rest: seq<Step<K>>)
    ensures Continue(cmp, s, [step] + rest) == Continue(cmp, Apply(cmp, s, step), rest)
  {
    hide Apply;
    assert ([step] + rest)[1..] == rest;
  }
}
