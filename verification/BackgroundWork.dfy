/** The background work queue: any number of threads call Schedule, one worker thread runs the items.
    Each step is what one thread does at once; the mutex orders them, and a waiting worker may wake up
    without having been signalled. */
module BackgroundWork {
  import opened Options

  type Item = nat

  datatype Owner = Free | Producer(p: nat) | Worker

  /** Where a thread is in Schedule; it holds the mutex from Start on. */
  datatype ProducerAt = Idle | Lock(item: Item) | Start(item: Item) | Signal(item: Item) | Enqueue(item: Item) | Unlock {
    predicate HoldsLock() {
      Start? || Signal? || Enqueue? || Unlock?
    }
  }

  /** Where the worker is in BackgroundThreadMain; it holds the mutex at Test, Take and Leave. */
  datatype WorkerAt = NotStarted | Locking | Test | Waiting(signalled: bool) | Take | Leave(item: Item) | Running(item: Item) {
    predicate HoldsLock() {
      Test? || Take? || Leave?
    }
  }

  datatype State = State(
    owner: Owner, started: bool, queue: seq<Item>, producers: seq<ProducerAt>, worker: WorkerAt,
    scheduled: seq<Item>,  // the items in the order in which their Schedule calls got the mutex
    executed: seq<Item>)

  datatype Step = Call(p: nat, item: Item) | ProducerStep(p: nat) | WorkerStep | SpuriousWake

  function Init(n: nat): State {
    State(Free, false, [], seq(n, i => Idle), NotStarted, [], [])
  }

  /** What a producer does next, if it can. */
  function StepProducer(s: State, p: nat): Option<State>
    requires p < |s.producers|
  {
    match s.producers[p]
    case Idle => None
    case Lock(item) =>
      if s.owner.Free? then
        Some(s.(owner := Producer(p), scheduled := s.scheduled + [item], producers := s.producers[p := Start(item)]))
      else None
    case Start(item) =>
      Some(s.(started := true, worker := if s.started then s.worker else Locking, producers := s.producers[p := Signal(item)]))
    case Signal(item) =>
      Some(s.(worker := if s.queue == [] && s.worker.Waiting? then Waiting(true) else s.worker,
              producers := s.producers[p := Enqueue(item)]))
    case Enqueue(item) => Some(s.(queue := s.queue + [item], producers := s.producers[p := Unlock]))
    case Unlock => Some(s.(owner := Free, producers := s.producers[p := Idle]))
  }

  /** What the worker does next, if it can; a wake-up gets the mutex back first. */
  function StepWorker(s: State): Option<State> {
    match s.worker
    case NotStarted => None
    case Locking => if s.owner.Free? then Some(s.(owner := Worker, worker := Test)) else None
    case Test => Some(if s.queue == [] then s.(owner := Free, worker := Waiting(false)) else s.(worker := Take))
    case Waiting(signalled) => if signalled && s.owner.Free? then Some(s.(owner := Worker, worker := Test)) else None
    case Take => if s.queue == [] then None else Some(s.(worker := Leave(s.queue[0]), queue := s.queue[1..]))
    case Leave(item) => Some(s.(owner := Free, worker := Running(item)))
    case Running(item) => Some(s.(executed := s.executed + [item], worker := Locking))
  }

  function Apply(s: State, step: Step): Option<State> {
    match step
    case Call(p, item) =>
      if p < |s.producers| && s.producers[p].Idle? then Some(s.(producers := s.producers[p := Lock(item)])) else None
    case ProducerStep(p) => if p < |s.producers| then StepProducer(s, p) else None
    case WorkerStep => StepWorker(s)
    case SpuriousWake =>
      if s.worker.Waiting? && s.owner.Free? then Some(s.(owner := Worker, worker := Test)) else None
  }

  function Run(s: State, steps: seq<Step>): Option<State>
    decreases |steps|
  {
    if steps == [] then Some(s)
    else
      match Apply(s, steps[0])
      case None => None
      case Some(s') => Run(s', steps[1..])
  }

  // -------------------------------------------------------------- invariant

  /** Threads hold the mutex one at a time, where the code says so. */
  predicate Exclusive(s: State) {
    && (s.owner.Producer? ==> s.owner.p < |s.producers|)
    && (forall p :: 0 <= p < |s.producers| ==> (s.producers[p].HoldsLock() <==> s.owner == Producer(p)))
    && (s.worker.HoldsLock() <==> s.owner == Worker)
  }

  /** The item that the holder of the mutex has yet to put into the queue. */
  function Pending(s: State): seq<Item> {
    if s.owner.Producer? && s.owner.p < |s.producers| then
      match s.producers[s.owner.p]
      case Start(item) => [item]
      case Signal(item) => [item]
      case Enqueue(item) => [item]
      case _ => []
    else []
  }

  function InHand(s: State): seq<Item> {
    match s.worker
    case Leave(item) => [item]
    case Running(item) => [item]
    case _ => []
  }

  /** No item is lost, doubled or overtaken. */
  predicate Fifo(s: State) {
    s.executed + InHand(s) + s.queue + Pending(s) == s.scheduled
  }

  /** A worker that waits without having been signalled has nothing to do. */
  predicate NoLostSignal(s: State) {
    s.worker == Waiting(false) ==> s.queue == [] && forall p :: 0 <= p < |s.producers| ==> !s.producers[p].Enqueue?
  }

  predicate StartedOnce(s: State) {
    && (s.started <==> !s.worker.NotStarted?)
    && (s.queue != [] ==> s.started)
    && (s.worker.Take? ==> s.queue != [])
    && (forall p :: 0 <= p < |s.producers| && s.producers[p].HoldsLock() && !s.producers[p].Start? ==> s.started)
  }

  predicate Inv(s: State) {
    Exclusive(s) && Fifo(s) && NoLostSignal(s) && StartedOnce(s)
  }

  lemma ProducerStepOk(s: State, p: nat)
    requires Inv(s) && p < |s.producers| && StepProducer(s, p).Some?
    ensures Inv(StepProducer(s, p).value)
  {
    var s' := StepProducer(s, p).value;
    match s.producers[p]
    case Lock(item) =>
      assert Pending(s) == [] && Pending(s') == [item];
      assert s'.executed + InHand(s') + s'.queue + [item] == (s.executed + InHand(s) + s.queue + []) + [item];
    case Enqueue(item) =>
      assert Pending(s) == [item] && Pending(s') == [];
      assert s'.executed + InHand(s') + s'.queue + [] == s.executed + InHand(s) + s.queue + [item];
    case _ =>
  }

  lemma WorkerStepOk(s: State)
    requires Inv(s) && StepWorker(s).Some?
    ensures Inv(StepWorker(s).value)
  {
    var s' := StepWorker(s).value;
    match s.worker
    case Take =>
      assert s.executed + [] + s.queue == s'.executed + [s.queue[0]] + s'.queue;
    case Running(item) =>
      assert s.executed + [item] + s.queue == s'.executed + [] + s'.queue;
    case _ =>
  }

  lemma StepOk(s: State, step: Step)
    requires Inv(s) && Apply(s, step).Some?
    ensures Inv(Apply(s, step).value)
  {
    match step
    case ProducerStep(p) => ProducerStepOk(s, p);
    case WorkerStep => WorkerStepOk(s);
    case _ =>
  }

  lemma {:induction false} RunOk(s: State, steps: seq<Step>)
    requires Inv(s) && Run(s, steps).Some?
    ensures Inv(Run(s, steps).value)
    decreases |steps|
  {
    if steps != [] {
      StepOk(s, steps[0]);
      RunOk(Apply(s, steps[0]).value, steps[1..]);
    }
  }

  /** Whatever the threads do, the items executed, the one in hand and the queue make up the items
      scheduled, in order, and no worker is left waiting for a signal with work in the queue. */
  lemma ReachableOk(n: nat, steps: seq<Step>)
    requires Run(Init(n), steps).Some?
    ensures var s := Run(Init(n), steps).value;
            && (s.owner.Free? ==> s.executed + InHand(s) + s.queue == s.scheduled)
            && s.executed <= s.scheduled
            && !(s.queue != [] && s.worker == Waiting(false))
  {
    RunOk(Init(n), steps);
    var s := Run(Init(n), steps).value;
    assert s.scheduled == s.executed + (InHand(s) + s.queue + Pending(s));
  }

  // --------------------------------------------------------------- progress

  function ProducerWork(at: ProducerAt): nat {
    match at
    case Idle => 0
    case Lock(_) => 25
    case Start(_) => 24
    case Signal(_) => 18
    case Enqueue(_) => 12
    case Unlock => 1
  }

  function WorkerWork(at: WorkerAt): nat {
    match at
    case NotStarted => 0
    case Locking => 5
    case Test => 4
    case Waiting(signalled) => if signalled then 5 else 0
    case Take => 3
    case Leave(_) => 8
    case Running(_) => 7
  }

  function AllProducersWork(producers: seq<ProducerAt>): nat {
    if producers == [] then 0 else ProducerWork(producers[0]) + AllProducersWork(producers[1..])
  }

  /** A bound on the steps that are left if nothing more is scheduled. */
  function Work(s: State): nat {
    AllProducersWork(s.producers) + 10 * |s.queue| + WorkerWork(s.worker)
  }

  lemma {:induction false} WorkUpdate(producers: seq<ProducerAt>, p: nat, at: ProducerAt)
    requires p < |producers|
    ensures AllProducersWork(producers[p := at]) == AllProducersWork(producers) - ProducerWork(producers[p]) + ProducerWork(at)
  {
    if p == 0 {
      assert producers[p := at][1..] == producers[1..];
    } else {
      WorkUpdate(producers[1..], p - 1, at);
      assert producers[p := at][1..] == producers[1..][p - 1 := at];
    }
  }

  function IsSpurious(step: Step): nat {
    if step.SpuriousWake? then 1 else 0
  }

  function SpuriousWakes(steps: seq<Step>): nat {
    if steps == [] then 0 else IsSpurious(steps[0]) + SpuriousWakes(steps[1..])
  }

  lemma StepWork(s: State, step: Step)
    requires !step.Call? && Apply(s, step).Some? && Inv(s)
    ensures Work(Apply(s, step).value) < Work(s) + 5 * IsSpurious(step)
  {
    var s' := Apply(s, step).value;
    if step.ProducerStep? {
      WorkUpdate(s.producers, step.p, s'.producers[step.p]);
    }
  }

  /** Without new calls the threads come to rest, however they are interleaved, after a number of steps
      bounded by the work at hand and the number of spurious wake-ups. */
  lemma {:induction false} RunsEnd(s: State, steps: seq<Step>)
    requires Inv(s) && Run(s, steps).Some? && forall i :: 0 <= i < |steps| ==> !steps[i].Call?
    ensures |steps| + Work(Run(s, steps).value) <= Work(s) + 5 * SpuriousWakes(steps)
    decreases |steps|
  {
    if steps != [] {
      StepWork(s, steps[0]);
      StepOk(s, steps[0]);
      RunsEnd(Apply(s, steps[0]).value, steps[1..]);
    }
  }

  /** Nobody can do anything without a new call or a spurious wake-up. */
  predicate AtRest(s: State) {
    StepWorker(s).None? && forall p :: 0 <= p < |s.producers| ==> StepProducer(s, p).None?
  }

  /** Whoever holds the mutex can go on. */
  lemma HolderMoves(s: State)
    requires Inv(s)
    ensures s.owner.Producer? ==> s.owner.p < |s.producers| && StepProducer(s, s.owner.p).Some?
    ensures s.owner.Worker? ==> StepWorker(s).Some?
  {
  }

  /** Where the threads come to rest every scheduled item has been executed, in order. */
  lemma RestMeansDone(s: State)
    requires Inv(s) && AtRest(s)
    ensures s.executed == s.scheduled && s.queue == []
    ensures s.owner.Free? && forall p :: 0 <= p < |s.producers| ==> s.producers[p].Idle?
  {
    HolderMoves(s);
    assert s.owner.Free?;
    forall p | 0 <= p < |s.producers|
      ensures s.producers[p].Idle?
    {
      assert StepProducer(s, p).None?;
    }
  }

  // ------------------------------------------------------------ every call

  /** How often item x is scheduled by the calls of a run. */
  function Called(steps: seq<Step>, x: Item): nat {
    if steps == [] then 0 else (if steps[0].Call? && steps[0].item == x then 1 else 0) + Called(steps[1..], x)
  }

  function LockItem(at: ProducerAt, x: Item): nat {
    if at.Lock? && at.item == x then 1 else 0
  }

  /** How many calls that schedule x have not got the mutex yet. */
  function AtTheLock(producers: seq<ProducerAt>, x: Item): nat {
    if producers == [] then 0 else LockItem(producers[0], x) + AtTheLock(producers[1..], x)
  }

  lemma {:induction false} LockUpdate(producers: seq<ProducerAt>, p: nat, at: ProducerAt, x: Item)
    requires p < |producers|
    ensures AtTheLock(producers[p := at], x) + LockItem(producers[p], x) == AtTheLock(producers, x) + LockItem(at, x)
  {
    if p == 0 {
      assert producers[p := at][1..] == producers[1..];
    } else {
      LockUpdate(producers[1..], p - 1, at, x);
      assert producers[p := at][1..] == producers[1..][p - 1 := at];
    }
  }

  lemma StepCalls(s: State, step: Step, x: Item)
    requires Apply(s, step).Some?
    ensures var s' := Apply(s, step).value;
            multiset(s'.scheduled)[x] + AtTheLock(s'.producers, x) ==
              multiset(s.scheduled)[x] + AtTheLock(s.producers, x) + Called([step], x)
  {
    var s' := Apply(s, step).value;
    assert [step][1..] == [] && Called([step], x) == (if step.Call? && step.item == x then 1 else 0) + Called([], x);
    hide Called, AtTheLock, StepProducer;
    if step.Call? {
      LockUpdate(s.producers, step.p, s'.producers[step.p], x);
    } else if step.ProducerStep? {
      LockUpdate(s.producers, step.p, s'.producers[step.p], x);
      ProducerCalls(s, step.p, x);
    }
  }

  lemma ProducerCalls(s: State, p: nat, x: Item)
    requires p < |s.producers| && StepProducer(s, p).Some?
    ensures var s' := StepProducer(s, p).value;
            && s'.producers == s.producers[p := s'.producers[p]] && !s'.producers[p].Lock?
            && multiset(s'.scheduled)[x] == multiset(s.scheduled)[x] + LockItem(s.producers[p], x)
  {
  }

  lemma {:induction false} RunCalls(s: State, steps: seq<Step>, x: Item)
    requires Run(s, steps).Some?
    ensures var s' := Run(s, steps).value;
            multiset(s'.scheduled)[x] + AtTheLock(s'.producers, x) ==
              multiset(s.scheduled)[x] + AtTheLock(s.producers, x) + Called(steps, x)
    decreases |steps|
  {
    hide Apply;
    if steps != [] {
      StepCalls(s, steps[0], x);
      RunCalls(Apply(s, steps[0]).value, steps[1..], x);
    }
  }

  lemma {:induction false} NobodyAtTheLock(producers: seq<ProducerAt>, x: Item)
    requires forall p :: 0 <= p < |producers| ==> producers[p].Idle?
    ensures AtTheLock(producers, x) == 0
  {
    if producers != [] {
      NobodyAtTheLock(producers[1..], x);
    }
  }

  /** Where the threads come to rest, every item has been executed exactly as often as Schedule was
      called with it. */
  lemma EveryCallIsExecuted(n: nat, steps: seq<Step>, x: Item)
    requires Run(Init(n), steps).Some? && AtRest(Run(Init(n), steps).value)
    ensures multiset(Run(Init(n), steps).value.executed)[x] == Called(steps, x)
  {
    hide Apply, StepWorker, StepProducer, Run;
    var s := Run(Init(n), steps).value;
    RunOk(Init(n), steps);
    RunCalls(Init(n), steps, x);
    RestMeansDone(s);
    NobodyAtTheLock(s.producers, x);
    NobodyAtTheLock(Init(n).producers, x);
  }
}
