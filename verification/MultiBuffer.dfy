/**
 The multi-buffer pipeline of src/display/m_buffer.cpp: any number of producer threads, a consumer
 thread and a clock move buffer tasks round between two queues, each guarded by a mutex.

 Producers and the consumer run the same loop with the queues exchanged, except that a producer only
 tries to lock its source queue.  Every step between two points of the loop is atomic, and the threads
 interleave as they like.
 */
module MultiBuffer {
  import opened Options

  type Task = nat
  datatype Role = Producer | Consumer

  // Which callbacks a task has.
  datatype Callbacks = Callbacks(produce: bool, consume: bool)

  datatype Event = Event(role: Role, task: Task)

  // Points of a worker's loop: 0 sem_wait, 1 lock the source queue, 2 take, 3 unlock, 4 is there
  // something to do, 5 call back, 6 lock the target queue, 7 put, 8 unlock.
  type Point = p: nat | p <= 8

  datatype Worker = Worker(at: Point, hand: Option<Task>, tokens: nat)

  // A queue with its mutex; `put` and `taken` record all that ever went in and came out.
  datatype Queue = Queue(items: seq<Task>, owner: Option<nat>, put: seq<Task>, taken: seq<Task>)

  // The last worker is the consumer.  `lost` holds tasks that no queue will see again; `settled`
  // lists those the consumer has called back for or lost.
  datatype State = State(workers: seq<Worker>, producing: Queue, consuming: Queue, tick: nat,
                         history: seq<Event>, lost: multiset<Task>, settled: seq<Task>)

  function RoleOf(s: State, w: nat): Role {
    if w + 1 == |s.workers| then Consumer else Producer
  }

  function Source(s: State, role: Role): Queue {
    if role == Producer then s.producing else s.consuming
  }

  function Target(s: State, role: Role): Queue {
    if role == Producer then s.consuming else s.producing
  }

  function WithSource(s: State, role: Role, q: Queue): State {
    if role == Producer then s.(producing := q) else s.(consuming := q)
  }

  function WithTarget(s: State, role: Role, q: Queue): State {
    if role == Producer then s.(consuming := q) else s.(producing := q)
  }

  function AllTasks(n: nat): seq<Task> {
    seq(n, i => i)
  }

  // The constructor: all tasks wait to be produced.
  function Initial(producers: nat, tasks: nat): State {
    State(seq(producers + 1, _ => Worker(0, None, 0)),
          Queue(AllTasks(tasks), None, AllTasks(tasks), []), Queue([], None, [], []), 0, [], multiset{}, [])
  }

  function HasCallback(calls: seq<Callbacks>, role: Role, t: Task): bool {
    t < |calls| && if role == Producer then calls[t].produce else calls[t].consume
  }

  // A worker waits for a token, for its source queue (the consumer only) or for its target queue.
  predicate Enabled(s: State, w: nat) {
    && w < |s.workers|
    && (s.workers[w].at == 0 ==> s.workers[w].tokens > 0)
    && (s.workers[w].at == 1 && RoleOf(s, w) == Consumer ==> s.consuming.owner == None)
    && (s.workers[w].at == 6 ==> Target(s, RoleOf(s, w)).owner == None)
  }

  function Set(s: State, w: nat, worker: Worker): State
    requires w < |s.workers|
  {
    s.(workers := s.workers[w := worker])
  }

  function GoTo(s: State, w: nat, p: Point): State
    requires w < |s.workers|
  {
    Set(s, w, s.workers[w].(at := p))
  }

  // The steps of worker w.
  function Step(calls: seq<Callbacks>, s: State, w: nat): State
    requires Enabled(s, w)
  {
    var me := s.workers[w];
    var role := RoleOf(s, w);
    match me.at
    case 0 => Set(s, w, me.(at := 1, tokens := me.tokens - 1))
    case 1 =>
      if Source(s, role).owner == None then WithSource(GoTo(s, w, 2), role, Source(s, role).(owner := Some(w)))
      else GoTo(s, w, 4)
    case 2 => Take(s, w)
    case 3 => WithSource(GoTo(s, w, 4), role, Source(s, role).(owner := None))
    case 4 =>
      if me.hand == None then GoTo(s, w, 0)
      else if HasCallback(calls, role, me.hand.value) then GoTo(s, w, 5)
      else Set(s, w, me.(at := 0, hand := None)).(lost := s.lost + multiset{me.hand.value},
                                                  settled := Settle(s, role, me))
    case 5 =>
      if me.hand == None then s
      else GoTo(s, w, 6).(history := s.history + [Event(role, me.hand.value)], settled := Settle(s, role, me))
    case 6 => WithTarget(GoTo(s, w, 7), role, Target(s, role).(owner := Some(w)))
    case 7 => if me.hand == None then s else Put(s, w)
    case 8 => WithTarget(GoTo(s, w, 0), role, Target(s, role).(owner := None))
  }

  function Settle(s: State, role: Role, me: Worker): seq<Task> {
    if role == Consumer && me.hand.Some? then s.settled + [me.hand.value] else s.settled
  }

  function Take(s: State, w: nat): State
    requires w < |s.workers|
  {
    var role, q := RoleOf(s, w), Source(s, RoleOf(s, w));
    if q.items == [] then GoTo(s, w, 3)
    else WithSource(Set(s, w, s.workers[w].(at := 3, hand := Some(q.items[0]))), role,
                    q.(items := q.items[1..], taken := q.taken + [q.items[0]]))
  }

  function Put(s: State, w: nat): State
    requires w < |s.workers| && s.workers[w].hand.Some?
  {
    var role, q, t := RoleOf(s, w), Target(s, RoleOf(s, w)), s.workers[w].hand.value;
    WithTarget(Set(s, w, s.workers[w].(at := 8, hand := None)), role,
               q.(items := q.items + [t], put := q.put + [t]))
  }

  // timetick_thread_handle: a token for every producer in turn, then one for the consumer
  function Tick(s: State): State {
    if s.tick < |s.workers| then
      var worker := s.workers[s.tick];
      Set(s, s.tick, worker.(tokens := worker.tokens + 1)).(tick := s.tick + 1)
    else s.(tick := 0)
  }

  // A run: the scheduler picks workers in any order, or the clock; one that is blocked stays put.
  function Run(calls: seq<Callbacks>, s: State, schedule: seq<nat>): State
    decreases |schedule|
  {
    if schedule == [] then s
    else
      var w := schedule[0];
      Run(calls, if Enabled(s, w) then Step(calls, s, w) else if w >= |s.workers| then Tick(s) else s, schedule[1..])
  }

  // ----- hands -----

  // A worker has a task from when it took one until it puts it back.
  predicate HandFits(worker: Worker) {
    && (worker.at <= 2 || worker.at == 8 ==> worker.hand == None)
    && (5 <= worker.at <= 7 ==> worker.hand.Some?)
  }

  ghost predicate Handed(s: State) {
    forall w :: 0 <= w < |s.workers| ==> HandFits(s.workers[w])
  }

  lemma StepKeepsHands(calls: seq<Callbacks>, s: State, w: nat)
    requires Enabled(s, w) && Handed(s)
    ensures Handed(Step(calls, s, w))
    ensures Step(calls, s, w).workers == s.workers[w := Step(calls, s, w).workers[w]]
  {
  }

  // ----- every task is somewhere -----

  function Has(worker: Worker, t: Task): nat {
    if worker.hand == Some(t) then 1 else 0
  }

  // In how many hands task t is.
  function Holding(workers: seq<Worker>, t: Task): nat {
    if workers == [] then 0 else Has(workers[0], t) + Holding(workers[1..], t)
  }

  lemma {:induction false} HoldingUpdated(workers: seq<Worker>, w: nat, worker: Worker, t: Task)
    requires w < |workers|
    ensures Holding(workers[w := worker], t) == Holding(workers, t) - Has(workers[w], t) + Has(worker, t)
    ensures Has(workers[w], t) <= Holding(workers, t)
  {
    var after := workers[w := worker];
    if w == 0 {
      assert after[1..] == workers[1..];
    } else {
      assert after[1..] == workers[1..][w - 1 := worker];
      HoldingUpdated(workers[1..], w - 1, worker, t);
    }
  }

  lemma {:induction false} EmptyHands(workers: seq<Worker>, t: Task)
    requires forall w :: 0 <= w < |workers| ==> workers[w].hand == None
    ensures Holding(workers, t) == 0
  {
    if workers != [] {
      EmptyHands(workers[1..], t);
    }
  }

  // How many places task t is in.
  function Places(s: State, t: Task): nat {
    Count(s.producing.items, t) + Count(s.consuming.items, t) + Holding(s.workers, t) + s.lost[t]
  }

  ghost predicate Conserved(s: State, tasks: nat) {
    forall t: Task :: Places(s, t) == if t < tasks then 1 else 0
  }

  lemma {:induction false} TaskOnce(tasks: nat, t: Task)
    ensures multiset(AllTasks(tasks))[t] == if t < tasks then 1 else 0
  {
    if tasks > 0 {
      TaskOnce(tasks - 1, t);
      assert AllTasks(tasks) == AllTasks(tasks - 1) + [tasks - 1];
    }
  }

  lemma StepConserves(calls: seq<Callbacks>, s: State, w: nat, t: Task)
    requires Enabled(s, w) && Handed(s)
    ensures Places(Step(calls, s, w), t) == Places(s, t)
  {
    var s' := Step(calls, s, w);
    StepKeepsHands(calls, s, w);
    HoldingUpdated(s.workers, w, s'.workers[w], t);
    QueuesAndHand(calls, s, w, t);
  }

  // How many times task t is in the queues, the hand of worker w, and lost.
  function Balance(s: State, w: nat, t: Task): nat
    requires w < |s.workers|
  {
    Count(s.producing.items, t) + Count(s.consuming.items, t) + Has(s.workers[w], t) + s.lost[t]
  }

  // What a step takes from a queue it puts into the hand, and the other way round.
  lemma QueuesAndHand(calls: seq<Callbacks>, s: State, w: nat, t: Task)
    requires Enabled(s, w) && Handed(s)
    ensures w < |Step(calls, s, w).workers| && Balance(Step(calls, s, w), w, t) == Balance(s, w, t)
  {
    if s.workers[w].at == 2 {
      TakeBalances(s, w, t);
    } else if s.workers[w].at == 7 {
      PutBalances(s, w, t);
    } else {
      OthersBalance(calls, s, w, t);
    }
  }

  lemma TakeBalances(s: State, w: nat, t: Task)
    requires w < |s.workers| && s.workers[w].hand == None
    ensures w < |Take(s, w).workers| && Balance(Take(s, w), w, t) == Balance(s, w, t)
  {
    var q := Source(s, RoleOf(s, w));
    if q.items != [] {
      Popped(q.items, t);
    }
  }

  lemma PutBalances(s: State, w: nat, t: Task)
    requires w < |s.workers| && s.workers[w].hand.Some?
    ensures w < |Put(s, w).workers| && Balance(Put(s, w), w, t) == Balance(s, w, t)
  {
  }

  lemma OthersBalance(calls: seq<Callbacks>, s: State, w: nat, t: Task)
    requires Enabled(s, w) && s.workers[w].at != 2 && s.workers[w].at != 7
    ensures w < |Step(calls, s, w).workers| && Balance(Step(calls, s, w), w, t) == Balance(s, w, t)
  {
    OthersLeaveQueues(calls, s, w);
  }

  lemma OthersLeaveQueues(calls: seq<Callbacks>, s: State, w: nat)
    requires Enabled(s, w) && s.workers[w].at != 2 && s.workers[w].at != 7
    ensures var s' := Step(calls, s, w);
      && s'.producing.items == s.producing.items && s'.consuming.items == s.consuming.items
      && w < |s'.workers|
      && ((s'.workers[w].hand == s.workers[w].hand && s'.lost == s.lost)
          || (s'.workers[w].hand == None && s.workers[w].hand.Some?
              && s'.lost == s.lost + multiset{s.workers[w].hand.value}))
  {
  }

  function Count(items: seq<Task>, t: Task): nat {
    multiset(items)[t]
  }

  lemma Popped(items: seq<Task>, t: Task)
    requires items != []
    ensures Count(items, t) == Count(items[1..], t) + if items[0] == t then 1 else 0
  {
    assert items == [items[0]] + items[1..];
  }

  // ----- mutexes -----

  // Does a worker at this point hold the mutex of the producing (or the consuming) queue?
  predicate Holds(role: Role, at: Point, producing: bool) {
    if (role == Producer) == producing then 2 <= at <= 3 else 7 <= at <= 8
  }

  ghost predicate OwnedBy(workers: seq<Worker>, owner: Option<nat>, producing: bool) {
    && (forall w :: 0 <= w < |workers| ==> (HoldsHere(workers, w, producing) <==> owner == Some(w)))
    && (owner.Some? ==> owner.value < |workers|)
  }

  predicate HoldsHere(workers: seq<Worker>, w: nat, producing: bool)
    requires w < |workers|
  {
    Holds(if w + 1 == |workers| then Consumer else Producer, workers[w].at, producing)
  }

  // A queue's mutex belongs to the worker that is between locking and unlocking it.
  ghost predicate Owned(s: State) {
    OwnedBy(s.workers, s.producing.owner, true) && OwnedBy(s.workers, s.consuming.owner, false)
  }

  function OwnerAfter(owner: Option<nat>, w: nat, before: bool, after: bool): Option<nat> {
    if after && !before then Some(w) else if before && !after then None else owner
  }

  lemma OwnerKept(workers: seq<Worker>, owner: Option<nat>, producing: bool, w: nat,
                  workers': seq<Worker>, owner': Option<nat>)
    requires OwnedBy(workers, owner, producing) && w < |workers| && |workers'| == |workers|
    requires workers' == workers[w := workers'[w]]
    requires var before, after := HoldsHere(workers, w, producing), HoldsHere(workers', w, producing);
      owner' == OwnerAfter(owner, w, before, after) && (after && !before ==> owner == None)
    ensures OwnedBy(workers', owner', producing)
  {
  }

  lemma StepKeepsOwners(calls: seq<Callbacks>, s: State, w: nat)
    requires Enabled(s, w) && Owned(s) && Handed(s)
    ensures Owned(Step(calls, s, w))
  {
    var s' := Step(calls, s, w);
    StepKeepsHands(calls, s, w);
    StepLocks(calls, s, w, s', true);
    StepLocks(calls, s, w, s', false);
    OwnerKept(s.workers, s.producing.owner, true, w, s'.workers, s'.producing.owner);
    OwnerKept(s.workers, s.consuming.owner, false, w, s'.workers, s'.consuming.owner);
  }

  function OwnerOf(s: State, producing: bool): Option<nat> {
    if producing then s.producing.owner else s.consuming.owner
  }

  // A step takes a mutex that is free, or gives up its own, as its point in the loop says.
  lemma StepLocks(calls: seq<Callbacks>, s: State, w: nat, s': State, producing: bool)
    requires Enabled(s, w) && Handed(s) && s' == Step(calls, s, w) && |s'.workers| == |s.workers|
    ensures var before, after := HoldsHere(s.workers, w, producing), HoldsHere(s'.workers, w, producing);
      && OwnerOf(s', producing) == OwnerAfter(OwnerOf(s, producing), w, before, after)
      && (after && !before ==> OwnerOf(s, producing) == None)
  {
  }

  // A worker that has to wait holds no mutex.
  lemma WaitsWithEmptyHands(s: State, w: nat)
    requires Owned(s) && w < |s.workers| && !Enabled(s, w)
    ensures s.producing.owner != Some(w) && s.consuming.owner != Some(w)
  {
  }

  // So whoever holds a mutex can go on.
  lemma OwnerGoesOn(s: State, q: Queue)
    requires Owned(s) && (q == s.producing || q == s.consuming) && q.owner.Some?
    ensures Enabled(s, q.owner.value)
  {
  }

  // ----- produce, consume, produce, consume, ... -----

  // Was task t produced and not yet consumed?
  function Filled(history: seq<Event>, t: Task): bool {
    if history == [] then false
    else
      var last := history[|history| - 1];
      if last.task == t then last.role == Producer else Filled(history[..|history| - 1], t)
  }

  // Every task is produced when it is not filled, and consumed when it is.
  ghost predicate Alternates(history: seq<Event>) {
    forall i :: 0 <= i < |history| ==> (history[i].role == Producer <==> !Filled(history[..i], history[i].task))
  }

  // Does a worker at this point hold filled tasks?
  predicate Carries(role: Role, at: Point) {
    if role == Producer then 6 <= at else at <= 5
  }

  ghost predicate InPhase(s: State) {
    && (forall k :: 0 <= k < |s.producing.items| ==> !Filled(s.history, s.producing.items[k]))
    && (forall k :: 0 <= k < |s.consuming.items| ==> Filled(s.history, s.consuming.items[k]))
    && (forall w :: 0 <= w < |s.workers| ==> HandInPhase(s.history, RoleOf(s, w), s.workers[w]))
  }

  predicate HandInPhase(history: seq<Event>, role: Role, worker: Worker) {
    worker.hand.Some? ==> (Filled(history, worker.hand.value) <==> Carries(role, worker.at))
  }

  // A task in a hand is nowhere else.
  lemma InOneHand(s: State, tasks: nat, w: nat, t: Task)
    requires Conserved(s, tasks) && w < |s.workers| && s.workers[w].hand == Some(t)
    ensures t !in s.producing.items && t !in s.consuming.items
    ensures forall u :: 0 <= u < |s.workers| && u != w ==> s.workers[u].hand != Some(t)
  {
    var without := s.workers[w := s.workers[w].(hand := None)];
    assert Places(s, t) <= 1;
    HoldingUpdated(s.workers, w, without[w], t);
    forall u | 0 <= u < |s.workers| && u != w
      ensures s.workers[u].hand != Some(t)
    {
      HoldingUpdated(without, u, without[u], t);
    }
  }

  lemma FilledAfter(history: seq<Event>, e: Event, t: Task)
    ensures Filled(history + [e], t) == if e.task == t then e.role == Producer else Filled(history, t)
  {
  }

  lemma AlternatesAfter(history: seq<Event>, e: Event)
    requires Alternates(history) && (e.role == Producer <==> !Filled(history, e.task))
    ensures Alternates(history + [e])
  {
    var h := history + [e];
    forall i | 0 <= i < |h|
      ensures h[i].role == Producer <==> !Filled(h[..i], h[i].task)
    {
      assert h[..i] == history[..i];
      assert history[..|history|] == history;
    }
  }

  // The call itself: the task in the worker's hand changes phase, all others stay.
  lemma CallKeepsPhases(s: State, tasks: nat, w: nat)
    requires Conserved(s, tasks) && InPhase(s) && w < |s.workers| && s.workers[w].at == 5 && s.workers[w].hand.Some?
    ensures InPhase(GoTo(s, w, 6).(history := s.history + [Event(RoleOf(s, w), s.workers[w].hand.value)]))
  {
    var t := s.workers[w].hand.value;
    var e := Event(RoleOf(s, w), t);
    InOneHand(s, tasks, w, t);
    forall x: Task
      ensures Filled(s.history + [e], x) == if t == x then e.role == Producer else Filled(s.history, x)
    {
      FilledAfter(s.history, e, x);
    }
  }

  lemma TakeKeepsPhases(s: State, w: nat)
    requires InPhase(s) && w < |s.workers| && s.workers[w].at == 2
    ensures InPhase(Take(s, w))
  {
  }

  lemma PutKeepsPhases(s: State, w: nat)
    requires InPhase(s) && w < |s.workers| && s.workers[w].at == 7 && s.workers[w].hand.Some?
    ensures InPhase(Put(s, w))
  {
  }

  lemma OthersKeepPhases(calls: seq<Callbacks>, s: State, w: nat)
    requires InPhase(s) && Enabled(s, w) && Handed(s) && s.workers[w].at !in {2, 5, 7}
    ensures InPhase(Step(calls, s, w))
  {
  }

  lemma StepKeepsPhases(calls: seq<Callbacks>, s: State, tasks: nat, w: nat)
    requires Conserved(s, tasks) && InPhase(s) && Alternates(s.history) && Enabled(s, w) && Handed(s)
    ensures InPhase(Step(calls, s, w)) && Alternates(Step(calls, s, w).history)
  {
    if s.workers[w].at == 5 {
      CallKeepsPhases(s, tasks, w);
      assert HandInPhase(s.history, RoleOf(s, w), s.workers[w]);
      AlternatesAfter(s.history, Event(RoleOf(s, w), s.workers[w].hand.value));
    } else if s.workers[w].at == 2 {
      TakeKeepsPhases(s, w);
    } else if s.workers[w].at == 7 {
      PutKeepsPhases(s, w);
    } else {
      OthersKeepPhases(calls, s, w);
    }
  }

  // ----- first in, first out -----

  predicate QueueOk(q: Queue) {
    q.put == q.taken + q.items
  }

  // What the consumer has taken but not yet called back for.
  function Pending(worker: Worker): seq<Task> {
    if worker.at <= 5 && worker.hand.Some? then [worker.hand.value] else []
  }

  // The tasks the consumer called back for, in order.
  function Consumed(history: seq<Event>): seq<Task> {
    if history == [] then []
    else
      var last := history[|history| - 1];
      Consumed(history[..|history| - 1]) + if last.role == Consumer then [last.task] else []
  }

  function Consumable(calls: seq<Callbacks>, tasks: seq<Task>): seq<Task> {
    if tasks == [] then []
    else
      var last := tasks[|tasks| - 1];
      Consumable(calls, tasks[..|tasks| - 1]) + if HasCallback(calls, Consumer, last) then [last] else []
  }

  // The consumer calls back in the order in which the tasks came into its queue.
  ghost predicate InOrder(calls: seq<Callbacks>, s: State) {
    && s.workers != [] && QueueOk(s.producing) && QueueOk(s.consuming)
    && Calls(calls, s.consuming.taken, s.history, s.workers[|s.workers| - 1], s.settled)
  }

  ghost predicate Calls(calls: seq<Callbacks>, taken: seq<Task>, history: seq<Event>, consumer: Worker,
                        settled: seq<Task>)
  {
    && taken == settled + Pending(consumer)
    && Consumed(history) == Consumable(calls, settled)
    && (consumer.at == 5 && consumer.hand.Some? ==> HasCallback(calls, Consumer, consumer.hand.value))
  }

  lemma ConsumedAfter(history: seq<Event>, e: Event)
    ensures Consumed(history + [e]) == Consumed(history) + if e.role == Consumer then [e.task] else []
  {
    assert (history + [e])[..|history|] == history;
  }

  lemma ConsumableAfter(calls: seq<Callbacks>, tasks: seq<Task>, t: Task)
    ensures Consumable(calls, tasks + [t]) ==
            Consumable(calls, tasks) + if HasCallback(calls, Consumer, t) then [t] else []
  {
  }

  lemma StepKeepsQueues(calls: seq<Callbacks>, s: State, w: nat, s': State)
    requires Enabled(s, w) && QueueOk(s.producing) && QueueOk(s.consuming) && s' == Step(calls, s, w)
    ensures QueueOk(s'.producing) && QueueOk(s'.consuming)
  {
  }

  // A producer's step does not touch what the consumer has seen.
  lemma ProducerLeaves(calls: seq<Callbacks>, s: State, w: nat, s': State)
    requires Enabled(s, w) && Handed(s) && w + 1 < |s.workers| && s' == Step(calls, s, w)
    ensures |s'.workers| == |s.workers| && s'.workers[|s.workers| - 1] == s.workers[|s.workers| - 1]
    ensures s'.consuming.taken == s.consuming.taken && s'.settled == s.settled
    ensures Consumed(s'.history) == Consumed(s.history)
  {
    StepKeepsHands(calls, s, w);
    if s.workers[w].at == 5 {
      ConsumedAfter(s.history, Event(Producer, s.workers[w].hand.value));
    } else {
      assert s'.history == s.history;
    }
  }

  // What the consumer's steps do to what it has seen: the call ...
  lemma AtCall(calls: seq<Callbacks>, s: State, w: nat, s': State)
    requires Enabled(s, w) && w + 1 == |s.workers| && s' == Step(calls, s, w)
    requires s.workers[w].at == 5 && s.workers[w].hand.Some?
    ensures |s'.workers| == |s.workers| && s'.workers[w] == s.workers[w].(at := 6)
    ensures s'.consuming == s.consuming && s'.history == s.history + [Event(Consumer, s.workers[w].hand.value)]
    ensures s'.settled == s.settled + [s.workers[w].hand.value]
  {
  }

  // ... the loss of a task that has no callback ...
  lemma AtLoss(calls: seq<Callbacks>, s: State, w: nat, s': State)
    requires Enabled(s, w) && w + 1 == |s.workers| && s' == Step(calls, s, w)
    requires s.workers[w].at == 4 && s.workers[w].hand.Some? && !HasCallback(calls, Consumer, s.workers[w].hand.value)
    ensures |s'.workers| == |s.workers| && s'.workers[w] == s.workers[w].(at := 0, hand := None)
    ensures s'.consuming == s.consuming && s'.history == s.history
    ensures s'.settled == s.settled + [s.workers[w].hand.value]
  {
  }

  // ... and the others.
  lemma ConsumerMoves(calls: seq<Callbacks>, s: State, w: nat, s': State)
    requires Enabled(s, w) && Handed(s) && w + 1 == |s.workers| && s.workers[w].at != 5 && s' == Step(calls, s, w)
    requires s.workers[w].at == 4 && s.workers[w].hand.Some? ==> HasCallback(calls, Consumer, s.workers[w].hand.value)
    ensures |s'.workers| == |s.workers| && s'.history == s.history && s'.settled == s.settled
    ensures Moved(calls, s.consuming.taken, s.workers[w], s'.consuming.taken, s'.workers[w])
  {
  }

  ghost predicate Moved(calls: seq<Callbacks>, taken: seq<Task>, me: Worker, taken': seq<Task>, me': Worker) {
    && (if me.at == 2 then taken' == taken + Pending(me') && Pending(me) == []
        else taken' == taken && Pending(me') == Pending(me))
    && (me'.at == 5 && me'.hand.Some? ==> HasCallback(calls, Consumer, me'.hand.value))
  }

  // A task is pending from when it is taken until the call, or the loss.
  lemma ConsumerKeepsCalls(calls: seq<Callbacks>, s: State, w: nat, s': State)
    requires Enabled(s, w) && Handed(s) && w + 1 == |s.workers| && s' == Step(calls, s, w)
    requires Calls(calls, s.consuming.taken, s.history, s.workers[w], s.settled)
    ensures |s'.workers| == |s.workers|
    ensures Calls(calls, s'.consuming.taken, s'.history, s'.workers[w], s'.settled)
  {
    var me := s.workers[w];
    if me.at == 5 {
      AtCall(calls, s, w, s');
      ConsumerCalls(calls, s.consuming.taken, s.history, me, s.settled);
    } else if me.at == 4 && me.hand.Some? && !HasCallback(calls, Consumer, me.hand.value) {
      AtLoss(calls, s, w, s');
      ConsumerLoses(calls, s.consuming.taken, s.history, me, s.settled);
    } else {
      ConsumerMoves(calls, s, w, s');
      MovedKeepsCalls(calls, s.consuming.taken, s.history, me, s.settled, s'.consuming.taken, s'.workers[w]);
    }
  }

  lemma ConsumerCalls(calls: seq<Callbacks>, taken: seq<Task>, history: seq<Event>, me: Worker, settled: seq<Task>)
    requires Calls(calls, taken, history, me, settled) && me.at == 5 && me.hand.Some?
    ensures Calls(calls, taken, history + [Event(Consumer, me.hand.value)], me.(at := 6), settled + [me.hand.value])
  {
    ConsumedAfter(history, Event(Consumer, me.hand.value));
    ConsumableAfter(calls, settled, me.hand.value);
    assert taken == taken + [];
  }

  lemma ConsumerLoses(calls: seq<Callbacks>, taken: seq<Task>, history: seq<Event>, me: Worker, settled: seq<Task>)
    requires Calls(calls, taken, history, me, settled)
    requires me.at == 4 && me.hand.Some? && !HasCallback(calls, Consumer, me.hand.value)
    ensures Calls(calls, taken, history, me.(at := 0, hand := None), settled + [me.hand.value])
  {
    ConsumableAfter(calls, settled, me.hand.value);
    assert taken == taken + [];
  }

  lemma MovedKeepsCalls(calls: seq<Callbacks>, taken: seq<Task>, history: seq<Event>, me: Worker, settled: seq<Task>,
                        taken': seq<Task>, me': Worker)
    requires Calls(calls, taken, history, me, settled) && Moved(calls, taken, me, taken', me')
    ensures Calls(calls, taken', history, me', settled)
  {
    if me.at == 2 {
      assert taken == settled + [] == settled;
      assert taken' == settled + Pending(me');
    }
  }

  lemma StepKeepsOrder(calls: seq<Callbacks>, s: State, w: nat)
    requires InOrder(calls, s) && Enabled(s, w) && Handed(s)
    ensures InOrder(calls, Step(calls, s, w))
  {
    OrderKept(calls, s, w, Step(calls, s, w));
  }

  lemma OrderKept(calls: seq<Callbacks>, s: State, w: nat, s': State)
    requires InOrder(calls, s) && Enabled(s, w) && Handed(s) && s' == Step(calls, s, w)
    ensures InOrder(calls, s')
  {
    StepKeepsQueues(calls, s, w, s');
    if w + 1 < |s.workers| {
      ProducerLeaves(calls, s, w, s');
      Unseen(calls, s, s');
    } else {
      ConsumerKeepsCalls(calls, s, w, s');
    }
  }

  lemma Unseen(calls: seq<Callbacks>, s: State, s': State)
    requires InOrder(calls, s) && QueueOk(s'.producing) && QueueOk(s'.consuming) && |s'.workers| == |s.workers|
    requires s'.workers[|s.workers| - 1] == s.workers[|s.workers| - 1]
    requires s'.consuming.taken == s.consuming.taken && s'.settled == s.settled
    requires Consumed(s'.history) == Consumed(s.history)
    ensures InOrder(calls, s')
  {
  }

  // ----- every run -----

  // A task is lost only for want of a callback.
  ghost predicate LostForCause(calls: seq<Callbacks>, s: State) {
    forall t: Task :: s.lost[t] > 0 ==> !HasCallback(calls, Producer, t) || !HasCallback(calls, Consumer, t)
  }

  ghost predicate Inv(calls: seq<Callbacks>, s: State, tasks: nat) {
    && Handed(s) && Owned(s) && Conserved(s, tasks) && InPhase(s) && Alternates(s.history)
    && InOrder(calls, s) && LostForCause(calls, s)
  }

  lemma Starts(calls: seq<Callbacks>, producers: nat, tasks: nat)
    ensures Inv(calls, Initial(producers, tasks), tasks)
  {
    var s := Initial(producers, tasks);
    forall t: Task
      ensures Places(s, t) == if t < tasks then 1 else 0
    {
      TaskOnce(tasks, t);
      EmptyHands(s.workers, t);
    }
  }

  lemma StepKeepsInv(calls: seq<Callbacks>, s: State, tasks: nat, w: nat)
    requires Inv(calls, s, tasks) && Enabled(s, w)
    ensures Inv(calls, Step(calls, s, w), tasks)
  {
    StepKeepsHands(calls, s, w);
    StepKeepsOwners(calls, s, w);
    forall t: Task
      ensures Places(Step(calls, s, w), t) == Places(s, t)
    {
      StepConserves(calls, s, w, t);
    }
    StepKeepsPhases(calls, s, tasks, w);
    StepKeepsOrder(calls, s, w);
    StepLosesForCause(calls, s, w);
  }

  lemma StepLosesForCause(calls: seq<Callbacks>, s: State, w: nat)
    requires LostForCause(calls, s) && Enabled(s, w)
    ensures LostForCause(calls, Step(calls, s, w))
  {
  }

  // The clock changes nothing but tokens.
  lemma TickKeepsInv(calls: seq<Callbacks>, s: State, tasks: nat, s': State)
    requires Inv(calls, s, tasks) && s' == Tick(s)
    ensures Inv(calls, s', tasks)
  {
    var w := if s.tick < |s.workers| then s.tick else 0;
    assert s'.workers == s.workers[w := s'.workers[w]];
    TokenKeepsHands(s, w, s');
    TokenConserves(s, tasks, w, s');
    TokenKeepsOwners(s, w, s');
  }

  // Only the tokens of worker w, and the clock's place, may differ.
  predicate Posted(s: State, w: nat, s': State) {
    && w < |s.workers| == |s'.workers|
    && s'.workers[w] == s.workers[w].(tokens := s'.workers[w].tokens)
    && s' == s.(workers := s.workers[w := s'.workers[w]], tick := s'.tick)
  }

  lemma TokenKeepsHands(s: State, w: nat, s': State)
    requires Posted(s, w, s') && Handed(s) && InPhase(s)
    ensures Handed(s') && InPhase(s')
  {
  }

  lemma TokenConserves(s: State, tasks: nat, w: nat, s': State)
    requires Posted(s, w, s') && Conserved(s, tasks)
    ensures Conserved(s', tasks)
  {
    forall t: Task
      ensures Places(s', t) == Places(s, t)
    {
      HoldingUpdated(s.workers, w, s'.workers[w], t);
    }
  }

  lemma TokenKeepsOwners(s: State, w: nat, s': State)
    requires Posted(s, w, s') && Owned(s)
    ensures Owned(s')
  {
    OwnerKept(s.workers, s.producing.owner, true, w, s'.workers, s'.producing.owner);
    OwnerKept(s.workers, s.consuming.owner, false, w, s'.workers, s'.consuming.owner);
  }

  lemma {:induction false} RunKeepsInv(calls: seq<Callbacks>, s: State, tasks: nat, schedule: seq<nat>)
    requires Inv(calls, s, tasks)
    ensures Inv(calls, Run(calls, s, schedule), tasks)
    decreases |schedule|
  {
    if schedule != [] {
      var w := schedule[0];
      if Enabled(s, w) {
        StepKeepsInv(calls, s, tasks, w);
        RunKeepsInv(calls, Step(calls, s, w), tasks, schedule[1..]);
      } else if w >= |s.workers| {
        TickKeepsInv(calls, s, tasks, Tick(s));
        RunKeepsInv(calls, Tick(s), tasks, schedule[1..]);
      } else {
        RunKeepsInv(calls, s, tasks, schedule[1..]);
      }
    }
  }

  // In every run and at all times a task with both callbacks is in exactly one place, a queue or one
  // hand, whatever callbacks the others have.
  lemma NoTaskIsLost(calls: seq<Callbacks>, producers: nat, schedule: seq<nat>, t: Task)
    requires t < |calls| && calls[t].produce && calls[t].consume
    ensures var s := Run(calls, Initial(producers, |calls|), schedule);
      && s.lost[t] == 0
      && Count(s.producing.items, t) + Count(s.consuming.items, t) + Holding(s.workers, t) == 1
  {
    Starts(calls, producers, |calls|);
    RunKeepsInv(calls, Initial(producers, |calls|), |calls|, schedule);
    var s := Run(calls, Initial(producers, |calls|), schedule);
    assert Places(s, t) == 1;
  }

  // A task survives every run if and only if it has both callbacks, or there is no producer to take it.
  lemma SurvivesIff(calls: seq<Callbacks>, producers: nat, t: Task)
    requires t < |calls|
    ensures (forall schedule :: Run(calls, Initial(producers, |calls|), schedule).lost[t] == 0) <==>
            producers == 0 || (calls[t].produce && calls[t].consume)
  {
    var s := Initial(producers, |calls|);
    if producers == 0 {
      forall schedule
        ensures Run(calls, s, schedule).lost[t] == 0
      {
        NothingMoves(calls, s, schedule);
      }
    } else if calls[t].produce && calls[t].consume {
      forall schedule
        ensures Run(calls, s, schedule).lost[t] == 0
      {
        NoTaskIsLost(calls, producers, schedule, t);
      }
    } else {
      var schedule := LosingSchedule(calls, producers, t);
      assert Run(calls, s, schedule).lost[t] != 0;
    }
  }

  // A task that lacks a callback is lost by some schedule, however many producers and other tasks
  // there are.
  lemma LosingSchedule(calls: seq<Callbacks>, producers: nat, t: Task) returns (schedule: seq<nat>)
    requires producers > 0 && t < |calls| && !(calls[t].produce && calls[t].consume)
    ensures Run(calls, Initial(producers, |calls|), schedule).lost[t] > 0
  {
    var s := Initial(producers, |calls|);
    assert s.producing.items[t] == t;
    var s' := DrivenToLoss(calls, s, t, t);
    schedule :| Run(calls, s, schedule) == s';
  }

  // ----- driving a task to its loss -----

  // Some schedule leads from s to s'.
  ghost predicate Reaches(calls: seq<Callbacks>, s: State, s': State) {
    exists schedule :: Run(calls, s, schedule) == s'
  }

  lemma {:induction false} RunAppend(calls: seq<Callbacks>, s: State, first: seq<nat>, rest: seq<nat>)
    ensures Run(calls, s, first + rest) == Run(calls, Run(calls, s, first), rest)
    decreases |first|
  {
    if first == [] {
      assert first + rest == rest;
    } else {
      var w := first[0];
      assert (first + rest)[1..] == first[1..] + rest;
      RunAppend(calls, if Enabled(s, w) then Step(calls, s, w) else if w >= |s.workers| then Tick(s) else s,
                first[1..], rest);
    }
  }

  lemma ReachesTransitive(calls: seq<Callbacks>, s: State, t: State, u: State)
    requires Reaches(calls, s, t) && Reaches(calls, t, u)
    ensures Reaches(calls, s, u)
  {
    var first :| Run(calls, s, first) == t;
    var rest :| Run(calls, t, rest) == u;
    RunAppend(calls, s, first, rest);
  }

  lemma ReachesStep(calls: seq<Callbacks>, s: State, w: nat)
    requires Enabled(s, w)
    ensures Reaches(calls, s, Step(calls, s, w))
  {
    assert Run(calls, s, [w]) == Step(calls, s, w);
  }

  lemma ReachesTick(calls: seq<Callbacks>, s: State)
    ensures Reaches(calls, s, Tick(s))
  {
    assert Run(calls, s, [|s.workers|]) == Tick(s);
  }

  // Everybody waits for a token, and no mutex is taken.
  ghost predicate Idle(s: State) {
    && (forall w :: 0 <= w < |s.workers| ==> s.workers[w].at == 0 && s.workers[w].hand == None)
    && s.producing.owner == None && s.consuming.owner == None
  }

  // How many ticks worker w is away from its next token.
  function TicksTo(s: State, w: nat): nat
    requires w < |s.workers|
  {
    if s.tick <= w then w - s.tick else if s.tick < |s.workers| then |s.workers| - s.tick + 1 + w else 1 + w
  }

  // The clock gives worker w a token and leaves the rest alone.
  lemma {:induction false} Fuelled(calls: seq<Callbacks>, s: State, w: nat) returns (s': State)
    requires Idle(s) && w < |s.workers|
    ensures Reaches(calls, s, s') && Idle(s') && |s'.workers| == |s.workers| && s'.workers[w].tokens > 0
    ensures s'.producing == s.producing && s'.consuming == s.consuming && s'.lost == s.lost
    decreases TicksTo(s, w)
  {
    ReachesTick(calls, s);
    var t := Tick(s);
    if s.tick == w {
      s' := t;
    } else {
      s' := Fuelled(calls, t, w);
      ReachesTransitive(calls, s, t, s');
    }
  }

  // Worker w has taken the first task of its queue, and has not looked at it yet.
  ghost predicate Picked(s: State, w: nat, s': State)
    requires w < |s.workers| && Source(s, RoleOf(s, w)).items != []
  {
    var role := RoleOf(s, w);
    && |s'.workers| == |s.workers| && s'.workers == s.workers[w := s'.workers[w]]
    && s'.workers[w].at == 4 && s'.workers[w].hand == Some(Source(s, role).items[0])
    && Source(s', role).items == Source(s, role).items[1..] && Target(s', role).items == Target(s, role).items
    && s'.producing.owner == None && s'.consuming.owner == None && s'.lost == s.lost
  }

  lemma Picks(calls: seq<Callbacks>, s: State, w: nat) returns (s': State)
    requires Idle(s) && w < |s.workers| && s.workers[w].tokens > 0 && Source(s, RoleOf(s, w)).items != []
    ensures Reaches(calls, s, s') && Picked(s, w, s')
  {
    var a := Step(calls, s, w);
    ReachesStep(calls, s, w);
    var b := Step(calls, a, w);
    ReachesStep(calls, a, w);
    ReachesTransitive(calls, s, a, b);
    var c := Step(calls, b, w);
    ReachesStep(calls, b, w);
    ReachesTransitive(calls, s, b, c);
    s' := Step(calls, c, w);
    ReachesStep(calls, c, w);
    ReachesTransitive(calls, s, c, s');
  }

  // Without a callback the task picked is lost ...
  lemma Drops(calls: seq<Callbacks>, s: State, w: nat, s': State)
    requires Idle(s) && w < |s.workers| && Source(s, RoleOf(s, w)).items != [] && Picked(s, w, s')
    requires !HasCallback(calls, RoleOf(s, w), Source(s, RoleOf(s, w)).items[0])
    ensures Enabled(s', w) && Idle(Step(calls, s', w)) && |Step(calls, s', w).workers| == |s.workers|
    ensures Step(calls, s', w).lost == s.lost + multiset{Source(s, RoleOf(s, w)).items[0]}
    ensures Source(Step(calls, s', w), RoleOf(s, w)).items == Source(s, RoleOf(s, w)).items[1..]
    ensures Target(Step(calls, s', w), RoleOf(s, w)).items == Target(s, RoleOf(s, w)).items
  {
  }

  // ... and with one it goes to the end of the other queue.
  lemma Delivers(calls: seq<Callbacks>, s: State, w: nat, s': State) returns (u: State)
    requires Idle(s) && w < |s.workers| && Source(s, RoleOf(s, w)).items != [] && Picked(s, w, s')
    requires HasCallback(calls, RoleOf(s, w), Source(s, RoleOf(s, w)).items[0])
    ensures Reaches(calls, s', u) && Idle(u) && |u.workers| == |s.workers| && u.lost == s.lost
    ensures Source(u, RoleOf(s, w)).items == Source(s, RoleOf(s, w)).items[1..]
    ensures Target(u, RoleOf(s, w)).items == Target(s, RoleOf(s, w)).items + [Source(s, RoleOf(s, w)).items[0]]
  {
    var a := CallsBack(calls, s', w);
    u := PutsBack(calls, a, w);
    ReachesTransitive(calls, s', a, u);
  }

  // Lock, put, unlock.
  lemma PutsBack(calls: seq<Callbacks>, s: State, w: nat) returns (u: State)
    requires w < |s.workers| && s.workers[w].at == 6 && s.workers[w].hand.Some?
    requires s.producing.owner == None && s.consuming.owner == None
    ensures Reaches(calls, s, u) && |u.workers| == |s.workers| && u.lost == s.lost
    ensures u.workers == s.workers[w := s.workers[w].(at := 0, hand := None)]
    ensures u.producing.owner == None && u.consuming.owner == None
    ensures Source(u, RoleOf(s, w)) == Source(s, RoleOf(s, w))
    ensures Target(u, RoleOf(s, w)).items == Target(s, RoleOf(s, w)).items + [s.workers[w].hand.value]
  {
    var b := Step(calls, s, w);
    ReachesStep(calls, s, w);
    var c := Step(calls, b, w);
    ReachesStep(calls, b, w);
    ReachesTransitive(calls, s, b, c);
    u := Step(calls, c, w);
    ReachesStep(calls, c, w);
    ReachesTransitive(calls, s, c, u);
    assert u.workers == s.workers[w := s.workers[w].(at := 0, hand := None)];
  }

  // The call itself.
  lemma CallsBack(calls: seq<Callbacks>, s: State, w: nat) returns (u: State)
    requires w < |s.workers| && s.workers[w].at == 4 && s.workers[w].hand.Some?
    requires HasCallback(calls, RoleOf(s, w), s.workers[w].hand.value)
    ensures Reaches(calls, s, u) && u.workers == s.workers[w := s.workers[w].(at := 6)]
    ensures u.producing == s.producing && u.consuming == s.consuming && u.lost == s.lost
  {
    var a := Step(calls, s, w);
    ReachesStep(calls, s, w);
    u := Step(calls, a, w);
    ReachesStep(calls, a, w);
    ReachesTransitive(calls, s, a, u);
    assert u.workers == s.workers[w := s.workers[w].(at := 6)];
  }

  // One round of worker w: what becomes of the first task of its queue.
  ghost predicate Round(calls: seq<Callbacks>, s: State, w: nat, s': State)
    requires w < |s.workers| && Source(s, RoleOf(s, w)).items != []
  {
    var role, items := RoleOf(s, w), Source(s, RoleOf(s, w)).items;
    && Idle(s') && |s'.workers| == |s.workers| && Source(s', role).items == items[1..]
    && if HasCallback(calls, role, items[0]) then
         Target(s', role).items == Target(s, role).items + [items[0]] && s'.lost == s.lost
       else
         Target(s', role).items == Target(s, role).items && s'.lost == s.lost + multiset{items[0]}
  }

  lemma GoesRound(calls: seq<Callbacks>, s: State, w: nat) returns (s': State)
    requires Idle(s) && w < |s.workers| && Source(s, RoleOf(s, w)).items != []
    ensures Reaches(calls, s, s') && Round(calls, s, w, s')
  {
    var a := Fuelled(calls, s, w);
    var b := Picks(calls, a, w);
    ReachesTransitive(calls, s, a, b);
    if HasCallback(calls, RoleOf(s, w), Source(s, RoleOf(s, w)).items[0]) {
      s' := Delivers(calls, a, w, b);
    } else {
      Drops(calls, a, w, b);
      s' := Step(calls, b, w);
      ReachesStep(calls, b, w);
    }
    ReachesTransitive(calls, s, b, s');
  }

  // With task t at place i of the producing queue, producer 0 goes round until it has taken it; if t
  // is passed on, the consumer loses it.
  lemma {:induction false} DrivenToLoss(calls: seq<Callbacks>, s: State, t: Task, i: nat) returns (s': State)
    requires Idle(s) && |s.workers| >= 2 && i < |s.producing.items| && s.producing.items[i] == t
    requires t < |calls| && !(calls[t].produce && calls[t].consume)
    ensures Reaches(calls, s, s') && s'.lost[t] > 0
    decreases i
  {
    var a := GoesRound(calls, s, 0);
    if i > 0 {
      s' := DrivenToLoss(calls, a, t, i - 1);
      ReachesTransitive(calls, s, a, s');
    } else if calls[t].produce {
      s' := LostByConsumer(calls, a, t, |a.consuming.items| - 1);
      ReachesTransitive(calls, s, a, s');
    } else {
      s' := a;
    }
  }

  lemma {:induction false} LostByConsumer(calls: seq<Callbacks>, s: State, t: Task, i: nat) returns (s': State)
    requires Idle(s) && |s.workers| >= 2 && i < |s.consuming.items| && s.consuming.items[i] == t
    requires t < |calls| && !calls[t].consume
    ensures Reaches(calls, s, s') && s'.lost[t] > 0
    decreases i
  {
    s' := GoesRound(calls, s, |s.workers| - 1);
    if i > 0 {
      var a := s';
      s' := LostByConsumer(calls, a, t, i - 1);
      ReachesTransitive(calls, s, a, s');
    }
  }

  // The consumer alone finds nothing to take.
  lemma {:induction false} NothingMoves(calls: seq<Callbacks>, s: State, schedule: seq<nat>)
    requires |s.workers| == 1 && s.consuming.items == [] && s.lost == multiset{} && s.workers[0].hand == None
    requires s.workers[0].at <= 4
    ensures Run(calls, s, schedule).lost == multiset{}
    decreases |schedule|
  {
    if schedule != [] {
      var w := schedule[0];
      NothingMoves(calls, if Enabled(s, w) then Step(calls, s, w) else if w >= |s.workers| then Tick(s) else s,
                   schedule[1..]);
    }
  }

  // In every run, each task's callbacks alternate, beginning with produce.
  lemma CallbacksAlternate(calls: seq<Callbacks>, producers: nat, tasks: nat, schedule: seq<nat>)
    ensures Alternates(Run(calls, Initial(producers, tasks), schedule).history)
  {
    Starts(calls, producers, tasks);
    RunKeepsInv(calls, Initial(producers, tasks), tasks, schedule);
  }

  lemma RunIsInOrder(calls: seq<Callbacks>, producers: nat, tasks: nat, schedule: seq<nat>)
    ensures InOrder(calls, Run(calls, Initial(producers, tasks), schedule))
  {
    Starts(calls, producers, tasks);
    RunKeepsInv(calls, Initial(producers, tasks), tasks, schedule);
  }

  // In every run, the tasks consumed are those that came into the consumer's queue, in that order:
  // what is not settled yet is in the consumer's hand or still in the queue.
  lemma ConsumedInOrder(calls: seq<Callbacks>, producers: nat, tasks: nat, schedule: seq<nat>)
    ensures var s := Run(calls, Initial(producers, tasks), schedule);
      && s.workers != []
      && s.consuming.put == s.settled + Pending(s.workers[|s.workers| - 1]) + s.consuming.items
      && Consumed(s.history) == Consumable(calls, s.settled)
  {
    RunIsInOrder(calls, producers, tasks, schedule);
  }

  // No mutex has two owners, its owner is never blocked, and whoever is blocked owns none.
  lemma MutexesAreSafe(calls: seq<Callbacks>, producers: nat, tasks: nat, schedule: seq<nat>, w: nat)
    ensures var s := Run(calls, Initial(producers, tasks), schedule);
      && Owned(s)
      && (s.producing.owner.Some? ==> Enabled(s, s.producing.owner.value))
      && (s.consuming.owner.Some? ==> Enabled(s, s.consuming.owner.value))
      && (w < |s.workers| && !Enabled(s, w) ==> s.producing.owner != Some(w) && s.consuming.owner != Some(w))
  {
    Starts(calls, producers, tasks);
    RunKeepsInv(calls, Initial(producers, tasks), tasks, schedule);
    var s := Run(calls, Initial(producers, tasks), schedule);
    if s.producing.owner.Some? { OwnerGoesOn(s, s.producing); }
    if s.consuming.owner.Some? { OwnerGoesOn(s, s.consuming); }
    if w < |s.workers| && !Enabled(s, w) { WaitsWithEmptyHands(s, w); }
  }

  // ----- who waits, and for what -----

  // A worker stays where it is exactly if it waits for a token and has none, or for a mutex that is
  // taken: the consumer for its source queue, either role for its target queue.  A producer never
  // waits for its source queue.
  lemma StaysIff(calls: seq<Callbacks>, s: State, w: nat)
    requires Handed(s) && w < |s.workers|
    ensures var me, consumer := s.workers[w], w + 1 == |s.workers|;
      Run(calls, s, [w]) == s <==>
        || (me.at == 0 && me.tokens == 0)
        || (me.at == 1 && consumer && s.consuming.owner.Some?)
        || (me.at == 6 && consumer && s.producing.owner.Some?)
        || (me.at == 6 && !consumer && s.consuming.owner.Some?)
  {
    assert [w][1..] == [];
    if Enabled(s, w) {
      MovesOn(calls, s, w, Step(calls, s, w));
    }
  }

  lemma MovesOn(calls: seq<Callbacks>, s: State, w: nat, s': State)
    requires Handed(s) && Enabled(s, w) && s' == Step(calls, s, w)
    ensures |s'.workers| == |s.workers| && s'.workers[w].at != s.workers[w].at
    ensures s'.tick == s.tick && forall u :: 0 <= u < |s.workers| && u != w ==> s'.workers[u] == s.workers[u]
    ensures s'.workers[w].tokens == s.workers[w].tokens - if s.workers[w].at == 0 then 1 else 0
  {
  }

  // How often worker w passes its wait in a run ...
  function Rounds(calls: seq<Callbacks>, s: State, schedule: seq<nat>, w: nat): nat
    requires w < |s.workers|
    decreases |schedule|
  {
    if schedule == [] then 0
    else
      var s' := Run(calls, s, schedule[..1]);
      (if schedule[0] == w && s.workers[w].at == 0 && s.workers[w].tokens > 0 then 1 else 0)
      + if w < |s'.workers| then Rounds(calls, s', schedule[1..], w) else 0
  }

  // ... and how often the clock gives it a token.
  function Ticks(calls: seq<Callbacks>, s: State, schedule: seq<nat>, w: nat): nat
    requires w < |s.workers|
    decreases |schedule|
  {
    if schedule == [] then 0
    else
      var s' := Run(calls, s, schedule[..1]);
      (if schedule[0] >= |s.workers| && s.tick == w then 1 else 0)
      + if w < |s'.workers| then Ticks(calls, s', schedule[1..], w) else 0
  }

  // Every round takes a token that the clock gave: no worker goes round more often than the clock ticks
  // for it.
  lemma {:induction false} TokensAreCounted(calls: seq<Callbacks>, s: State, schedule: seq<nat>, w: nat)
    requires Handed(s) && w < |s.workers|
    ensures w < |Run(calls, s, schedule).workers|
    ensures Run(calls, s, schedule).workers[w].tokens + Rounds(calls, s, schedule, w) ==
            s.workers[w].tokens + Ticks(calls, s, schedule, w)
    decreases |schedule|
  {
    if schedule != [] {
      var u := schedule[0];
      assert schedule[..1] == [u] && schedule == [u] + schedule[1..];
      RunAppend(calls, s, [u], schedule[1..]);
      OneStepCounted(calls, s, u, w);
      TokensAreCounted(calls, Run(calls, s, [u]), schedule[1..], w);
    }
  }

  lemma OneStepCounted(calls: seq<Callbacks>, s: State, u: nat, w: nat)
    requires Handed(s) && w < |s.workers|
    ensures var s' := Run(calls, s, [u]);
      && Handed(s') && w < |s'.workers| == |s.workers|
      && s'.workers[w].tokens == s.workers[w].tokens
           + (if u >= |s.workers| && s.tick == w then 1 else 0)
           - (if u == w && s.workers[w].at == 0 && s.workers[w].tokens > 0 then 1 else 0)
  {
    assert [u][1..] == [];
    if Enabled(s, u) {
      StepKeepsHands(calls, s, u);
      MovesOn(calls, s, u, Step(calls, s, u));
    }
  }

  // From the start: as many tokens are left as the clock gave and the rounds did not take.
  lemma RoundsFollowTicks(calls: seq<Callbacks>, producers: nat, tasks: nat, schedule: seq<nat>, w: nat)
    requires w <= producers
    ensures var s := Initial(producers, tasks);
      Rounds(calls, s, schedule, w) <= Ticks(calls, s, schedule, w)
  {
    TokensAreCounted(calls, Initial(producers, tasks), schedule, w);
  }
}
