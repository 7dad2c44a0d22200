/**
 The bounded buffer of product_consume_model.c: producers and consumers share a ring of ten slots,
 guarded by two counting semaphores and a mutex.

 A thread goes round seven points; every step between two of them is atomic and the threads
 interleave as they like.  The numbers of producers and consumers are arbitrary.
 */
module RingBuffer {
  import opened Options

  const SIZE := 10

  datatype Role = Producer | Consumer

  // Points of a thread's loop: 0 sem_wait, 1 mutex_lock, 2 use the slot, 3 advance the index,
  // 4 adjust count, 5 mutex_unlock, 6 sem_post.
  type Point = p: nat | p <= 6

  datatype Thread = Thread(role: Role, at: Point, item: int)

  // `written` and `consumed` record what went into and came out of the ring, `writers` who wrote it.
  datatype State = State(threads: seq<Thread>, buffer: seq<int>, input: nat, output: nat, count: int,
                         emptySlots: nat, filledSlots: nat, mutex: Option<nat>,
                         written: seq<int>, writers: seq<nat>, consumed: seq<int>)

  function Initial(roles: seq<Role>): State {
    State(seq(|roles|, i requires 0 <= i < |roles| => Thread(roles[i], 0, 1)), seq(SIZE, _ => 0), 0, 0, 0,
          SIZE, 0, None, [], [], [])
  }

  // A thread waits at point 0 for a token and at point 1 for the mutex, and nowhere else.
  predicate Enabled(s: State, t: nat) {
    && t < |s.threads|
    && (s.threads[t].at == 0 ==> (if s.threads[t].role == Producer then s.emptySlots else s.filledSlots) > 0)
    && (s.threads[t].at == 1 ==> s.mutex == None)
  }

  function GoTo(s: State, t: nat, p: Point): State
    requires t < |s.threads|
  {
    s.(threads := s.threads[t := s.threads[t].(at := p)])
  }

  predicate Shaped(s: State) {
    |s.buffer| == SIZE && s.input < SIZE && s.output < SIZE
  }

  // The step of thread t.
  function Step(s: State, t: nat): State
    requires Enabled(s, t) && Shaped(s)
  {
    var me := s.threads[t];
    var producer := me.role == Producer;
    match me.at
    case 0 =>
      if producer then GoTo(s, t, 1).(emptySlots := s.emptySlots - 1)
      else GoTo(s, t, 1).(filledSlots := s.filledSlots - 1)
    case 1 => GoTo(s, t, 2).(mutex := Some(t))
    case 2 =>
      if producer then
        GoTo(s, t, 3).(buffer := s.buffer[s.input := me.item],
                       written := s.written + [me.item], writers := s.writers + [t])
      else GoTo(s, t, 3).(consumed := s.consumed + [s.buffer[s.output]])
    case 3 =>
      if producer then
        s.(threads := s.threads[t := me.(at := 4, item := me.item + 1)], input := (s.input + 1) % SIZE)
      else GoTo(s, t, 4).(output := (s.output + 1) % SIZE)
    case 4 => GoTo(s, t, 5).(count := if producer then s.count + 1 else s.count - 1)
    case 5 => GoTo(s, t, 6).(mutex := None)
    case 6 =>
      if producer then GoTo(s, t, 0).(filledSlots := s.filledSlots + 1)
      else GoTo(s, t, 0).(emptySlots := s.emptySlots + 1)
  }

  // ----- accounting for slots -----

  // Slots a thread keeps out of the tokens of empty_slots: claimed to write to, or read but not yet posted.
  function Reserves(t: Thread): nat {
    if (t.role == Producer && 1 <= t.at <= 2) || (t.role == Consumer && 3 <= t.at) then 1 else 0
  }

  // ... and out of those of filled_slots: written but not yet posted, or claimed to read.
  function Fills(t: Thread): nat {
    if (t.role == Producer && 3 <= t.at) || (t.role == Consumer && 1 <= t.at <= 2) then 1 else 0
  }

  function Sum(threads: seq<Thread>, f: Thread -> nat): nat {
    if threads == [] then 0 else f(threads[0]) + Sum(threads[1..], f)
  }

  lemma {:induction false} SumOfUpdated(threads: seq<Thread>, t: nat, new_: Thread, f: Thread -> nat)
    requires t < |threads|
    ensures Sum(threads[t := new_], f) == Sum(threads, f) - f(threads[t]) + f(new_)
    ensures Sum(threads, f) >= f(threads[t])
  {
    var s := threads[t := new_];
    if t == 0 {
      assert s[1..] == threads[1..];
    } else {
      assert s[1..] == threads[1..][t - 1 := new_];
      SumOfUpdated(threads[1..], t - 1, new_, f);
    }
  }

  lemma {:induction false} SumIsZero(threads: seq<Thread>, f: Thread -> nat)
    requires forall t :: 0 <= t < |threads| ==> f(threads[t]) == 0
    ensures Sum(threads, f) == 0
  {
    if threads != [] {
      SumIsZero(threads[1..], f);
    }
  }

  // ----- what every run keeps -----

  // The thread in the critical section, if it is a `role` at one of the points from lo to hi.
  predicate Inside(s: State, role: Role, lo: Point, hi: Point) {
    && s.mutex.Some? && s.mutex.value < |s.threads|
    && s.threads[s.mutex.value].role == role && lo <= s.threads[s.mutex.value].at <= hi
  }

  function One(b: bool): nat {
    if b then 1 else 0
  }

  // The slot of the n-th item.
  function Slot(n: int): nat {
    n % SIZE
  }

  // The mutex belongs to the one thread between lock and unlock.
  ghost predicate Exclusive(s: State) {
    && (forall t :: 0 <= t < |s.threads| ==> (2 <= s.threads[t].at <= 5 <==> s.mutex == Some(t)))
    && (s.mutex.Some? ==> s.mutex.value < |s.threads|)
  }

  // Every slot is an unread item or free, and has a token or is in the hands of one thread.
  ghost predicate Accounted(s: State) {
    && |s.written| - |s.consumed| == s.filledSlots + Sum(s.threads, Fills)
    && SIZE - (|s.written| - |s.consumed|) == s.emptySlots + Sum(s.threads, Reserves)
  }

  // The indices and the counter are right, but for the steps a thread in the critical section still owes.
  ghost predicate Indexed(s: State) {
    && s.input == Slot(|s.written| - One(Inside(s, Producer, 3, 3)))
    && s.output == Slot(|s.consumed| - One(Inside(s, Consumer, 3, 3)))
    && s.count == |s.written| - |s.consumed| - One(Inside(s, Producer, 3, 4)) + One(Inside(s, Consumer, 3, 4))
  }

  // Items come out in the order in which they went in, and those still in the ring are intact.
  ghost predicate Fifo(s: State) {
    && s.consumed <= s.written && |s.buffer| == SIZE
    && forall j :: |s.consumed| <= j < |s.written| ==> s.buffer[Slot(j)] == s.written[j]
  }

  // Producer t has written the items 1, 2, 3, ... in turn ...
  ghost predicate History(written: seq<int>, writers: seq<nat>) {
    && |writers| == |written|
    && (forall j :: 0 <= j < |written| ==> written[j] == 1 + Before(writers, j, writers[j]))
  }

  // How many of the first j items thread t wrote.
  ghost function Before(writers: seq<nat>, j: nat, t: nat): nat
    requires j <= |writers|
  {
    multiset(writers[..j])[t]
  }

  // ... and knows what comes next.
  ghost predicate Counters(threads: seq<Thread>, writers: seq<nat>) {
    forall t :: 0 <= t < |threads| ==> Counter(threads[t], Before(writers, |writers|, t))
  }

  predicate Counter(t: Thread, wrote: nat) {
    t.role == Producer ==> t.item == wrote + One(t.at != 3)
  }

  ghost predicate Numbered(s: State) {
    History(s.written, s.writers) && Counters(s.threads, s.writers)
  }

  ghost predicate Inv(s: State) {
    Exclusive(s) && Accounted(s) && Indexed(s) && Fifo(s) && Numbered(s)
  }

  lemma Starts(roles: seq<Role>)
    ensures Inv(Initial(roles))
  {
    var s := Initial(roles);
    SumIsZero(s.threads, Fills);
    SumIsZero(s.threads, Reserves);
  }

  // What a step does to its thread.
  function Moved(t: Thread): Thread {
    Thread(t.role, if t.at == 6 then 0 else t.at + 1, if t.role == Producer && t.at == 3 then t.item + 1 else t.item)
  }

  lemma StepMoves(s: State, t: nat)
    requires Enabled(s, t) && Shaped(s)
    ensures var s' := Step(s, t);
      && s'.threads == s.threads[t := Moved(s.threads[t])]
      && if s.threads[t].role == Producer && s.threads[t].at == 2
         then s'.written == s.written + [s.threads[t].item] && s'.writers == s.writers + [t]
         else s'.written == s.written && s'.writers == s.writers
  {
  }

  lemma StepKeepsAccounts(s: State, t: nat)
    requires Accounted(s) && Shaped(s) && Enabled(s, t)
    ensures Accounted(Step(s, t))
  {
    var s' := Step(s, t);
    StepMoves(s, t);
    TokensMove(s, t, s');
    SumOfUpdated(s.threads, t, s'.threads[t], Fills);
    SumOfUpdated(s.threads, t, s'.threads[t], Reserves);
  }

  // What a step takes from the tokens and the ring its thread has in hand, and the other way round.
  lemma TokensMove(s: State, t: nat, s': State)
    requires Shaped(s) && Enabled(s, t) && s' == Step(s, t)
    ensures t < |s'.threads|
    ensures s'.filledSlots + Fills(s'.threads[t]) - (|s'.written| - |s'.consumed|)
            == s.filledSlots + Fills(s.threads[t]) - (|s.written| - |s.consumed|)
    ensures s'.emptySlots + Reserves(s'.threads[t]) + (|s'.written| - |s'.consumed|)
            == s.emptySlots + Reserves(s.threads[t]) + (|s.written| - |s.consumed|)
  {
  }

  lemma StepKeepsMutex(s: State, t: nat)
    requires Exclusive(s) && Shaped(s) && Enabled(s, t)
    ensures Exclusive(Step(s, t))
  {
  }

  lemma StepKeepsIndices(s: State, t: nat)
    requires Exclusive(s) && Indexed(s) && Shaped(s) && Enabled(s, t)
    ensures Indexed(Step(s, t))
  {
    if s.threads[t].at < 2 || s.threads[t].at > 5 {
      OutsideKeepsIndices(s, t);
    } else if s.threads[t].at == 3 {
      AdvanceKeepsIndices(s, t);
    }
  }

  lemma OutsideKeepsIndices(s: State, t: nat)
    requires Exclusive(s) && Indexed(s) && Shaped(s) && Enabled(s, t) && (s.threads[t].at < 2 || s.threads[t].at > 5)
    ensures Indexed(Step(s, t))
  {
  }

  lemma AdvanceKeepsIndices(s: State, t: nat)
    requires Exclusive(s) && Indexed(s) && Shaped(s) && Enabled(s, t) && s.threads[t].at == 3
    ensures Indexed(Step(s, t))
  {
    NextSlot(|s.written| - 1);
    NextSlot(|s.consumed| - 1);
  }

  lemma NextSlot(n: int)
    ensures Slot(n + 1) == (Slot(n) + 1) % SIZE
  {
  }

  // A producer about to write has a free slot; a consumer about to read has an item.
  lemma SlotIsReady(s: State, t: nat)
    requires Exclusive(s) && Accounted(s) && Indexed(s) && t < |s.threads| && s.threads[t].at == 2
    ensures s.threads[t].role == Producer ==> |s.written| - |s.consumed| < SIZE && s.input == Slot(|s.written|)
    ensures s.threads[t].role == Consumer ==> |s.consumed| < |s.written| && s.output == Slot(|s.consumed|)
  {
    SumOfUpdated(s.threads, t, s.threads[t], Fills);
    SumOfUpdated(s.threads, t, s.threads[t], Reserves);
  }

  lemma StepKeepsOrder(s: State, t: nat)
    requires Exclusive(s) && Accounted(s) && Indexed(s) && Fifo(s) && Enabled(s, t)
    ensures Fifo(Step(s, t))
  {
    if s.threads[t].at == 2 {
      SlotIsReady(s, t);
      if s.threads[t].role == Producer {
        WriteKeepsOrder(s, Step(s, t), s.threads[t].item);
      }
    }
  }

  lemma StepKeepsNumbers(s: State, t: nat)
    requires Numbered(s) && Enabled(s, t) && Shaped(s)
    ensures Numbered(Step(s, t))
  {
    StepMoves(s, t);
    NumbersKept(s, t, Step(s, t));
  }

  lemma NumbersKept(s: State, t: nat, s': State)
    requires Numbered(s) && t < |s.threads|
    requires s'.threads == s.threads[t := Moved(s.threads[t])]
    requires if s.threads[t].role == Producer && s.threads[t].at == 2
             then s'.written == s.written + [s.threads[t].item] && s'.writers == s.writers + [t]
             else s'.written == s.written && s'.writers == s.writers
    ensures Numbered(s')
  {
    if s.threads[t].role == Producer && s.threads[t].at == 2 {
      WriteKeepsHistory(s.written, s.writers, s.threads[t].item, t);
      WriteKeepsCounters(s.threads, s.writers, t);
    } else {
      OtherKeepsCounters(s.threads, s.writers, t, s'.threads[t]);
    }
  }

  lemma OtherKeepsCounters(threads: seq<Thread>, writers: seq<nat>, t: nat, me: Thread)
    requires Counters(threads, writers) && t < |threads|
    requires Counter(me, Before(writers, |writers|, t))
    ensures Counters(threads[t := me], writers)
  {
  }

  lemma WriteCounts(writers: seq<nat>, t: nat)
    ensures var writers' := writers + [t];
      && (forall j, u :: 0 <= j <= |writers| ==> Before(writers', j, u) == Before(writers, j, u))
      && (forall u :: Before(writers', |writers'|, u) == Before(writers, |writers|, u) + One(u == t))
  {
    var writers' := writers + [t];
    assert writers'[..|writers'|] == writers' && writers[..|writers|] == writers;
    forall j, u | 0 <= j <= |writers|
      ensures Before(writers', j, u) == Before(writers, j, u)
    {
      assert writers'[..j] == writers[..j];
    }
  }

  lemma WriteKeepsHistory(written: seq<int>, writers: seq<nat>, item: int, t: nat)
    requires History(written, writers) && item == 1 + Before(writers, |writers|, t)
    ensures History(written + [item], writers + [t])
  {
    WriteCounts(writers, t);
  }

  lemma WriteKeepsCounters(threads: seq<Thread>, writers: seq<nat>, t: nat)
    requires Counters(threads, writers) && t < |threads| && threads[t].at == 2
    ensures Counters(threads[t := threads[t].(at := 3)], writers + [t])
  {
    WriteCounts(writers, t);
  }

  lemma WriteKeepsOrder(s: State, s': State, item: int)
    requires Fifo(s) && |s.written| - |s.consumed| < SIZE
    requires s'.buffer == s.buffer[Slot(|s.written|) := item]
    requires s'.written == s.written + [item] && s'.consumed == s.consumed
    ensures Fifo(s')
  {
  }

  lemma StepKeepsInv(s: State, t: nat)
    requires Inv(s) && Enabled(s, t)
    ensures Inv(Step(s, t))
  {
    StepKeepsAccounts(s, t);
    StepKeepsMutex(s, t);
    StepKeepsIndices(s, t);
    StepKeepsOrder(s, t);
    StepKeepsNumbers(s, t);
  }

  // A run: the scheduler picks threads in any order; one that is blocked stays where it is.
  function Run(s: State, schedule: seq<nat>): State
    decreases |schedule|
  {
    if schedule == [] || !Shaped(s) then s
    else Run(if Enabled(s, schedule[0]) then Step(s, schedule[0]) else s, schedule[1..])
  }

  lemma {:induction false} RunKeepsInv(s: State, schedule: seq<nat>)
    requires Inv(s)
    ensures Inv(Run(s, schedule))
    decreases |schedule|
  {
    if schedule != [] {
      if Enabled(s, schedule[0]) {
        StepKeepsInv(s, schedule[0]);
        RunKeepsInv(Step(s, schedule[0]), schedule[1..]);
      } else {
        RunKeepsInv(s, schedule[1..]);
      }
    }
  }

  // ----- what it means -----

  // In every state of every run the consumers have got a prefix of what was written, in the order of
  // the critical sections, and the ring holds the rest.
  lemma EveryRunIsFifo(roles: seq<Role>, schedule: seq<nat>)
    ensures Delivers(Run(Initial(roles), schedule))
  {
    Starts(roles);
    RunKeepsInv(Initial(roles), schedule);
    InvDelivers(Run(Initial(roles), schedule));
  }

  ghost predicate Delivers(s: State) {
    && s.consumed <= s.written && |s.written| - |s.consumed| <= SIZE
    && |s.buffer| == SIZE
    && (forall j :: |s.consumed| <= j < |s.written| ==> s.buffer[Slot(j)] == s.written[j])
    && 0 <= s.count <= SIZE
    && (s.mutex == None ==> s.count == |s.written| - |s.consumed| && s.input == (s.output + s.count) % SIZE)
  }

  lemma InvDelivers(s: State)
    requires Exclusive(s) && Accounted(s) && Indexed(s) && Fifo(s)
    ensures Delivers(s)
  {
    if s.mutex.Some? {
      var t := s.mutex.value;
      SumOfUpdated(s.threads, t, s.threads[t], Fills);
      SumOfUpdated(s.threads, t, s.threads[t], Reserves);
    } else {
      IndexBehind(|s.written|, |s.consumed|);
    }
  }

  lemma IndexBehind(w: nat, r: nat)
    requires r <= w
    ensures Slot(w) == (Slot(r) + (w - r)) % SIZE
  {
  }

  // Two threads are never in the critical section together.
  lemma NoTwoInside(s: State, t: nat, u: nat)
    requires Inv(s) && t < |s.threads| && u < |s.threads|
    requires 2 <= s.threads[t].at <= 5 && 2 <= s.threads[u].at <= 5
    ensures t == u
  {
    assert s.mutex == Some(t) && s.mutex == Some(u);
  }

  // A run never gets stuck while there is a producer and a consumer.
  lemma NeverStuck(s: State, p: nat, c: nat)
    requires Inv(s) && p < |s.threads| && c < |s.threads|
    requires s.threads[p].role == Producer && s.threads[c].role == Consumer
    ensures exists t :: Enabled(s, t)
  {
    if s.mutex.Some? {
      assert Enabled(s, s.mutex.value);
    } else if t :| 0 <= t < |s.threads| && s.threads[t].at != 0 {
      assert Enabled(s, t);
    } else {
      SumIsZero(s.threads, Fills);
      SumIsZero(s.threads, Reserves);
      assert Enabled(s, p) || Enabled(s, c);
    }
  }

  // Each thread that is past its wait took one token and has not given one back.
  lemma TokensAndThreads(s: State)
    requires Inv(s)
    ensures s.emptySlots + s.filledSlots + Sum(s.threads, Busy) == SIZE
  {
    SumsAddUp(s.threads);
  }

  function Busy(t: Thread): nat {
    One(t.at != 0)
  }

  lemma {:induction false} SumsAddUp(threads: seq<Thread>)
    ensures Sum(threads, Busy) == Sum(threads, Fills) + Sum(threads, Reserves)
  {
    if threads != [] {
      SumsAddUp(threads[1..]);
    }
  }

  // What is consumed of one producer's items comes in its own order, without gaps: the item at
  // place j is one more than the number its producer had before it.
  lemma ItemsInOrder(roles: seq<Role>, schedule: seq<nat>, j: nat)
    ensures var s := Run(Initial(roles), schedule);
      j < |s.consumed| ==> j < |s.writers| && s.consumed[j] == 1 + Before(s.writers, j, s.writers[j])
  {
    Starts(roles);
    RunKeepsInv(Initial(roles), schedule);
  }

  // ----- who can go on, and how far -----

  // A thread stays where it is exactly if it waits for a token and there is none, or waits for the
  // mutex and somebody has it.
  lemma StaysIff(s: State, t: nat)
    requires Inv(s) && t < |s.threads|
    ensures Run(s, [t]) == s <==>
            || (s.threads[t].at == 0 && s.threads[t].role == Producer && s.emptySlots == 0)
            || (s.threads[t].at == 0 && s.threads[t].role == Consumer && s.filledSlots == 0)
            || (s.threads[t].at == 1 && s.mutex.Some?)
  {
    assert [t][1..] == [];
    if Enabled(s, t) {
      StepMoves(s, t);
      assert Step(s, t).threads[t] != s.threads[t];
    }
  }

  function Times(t: nat, n: nat): seq<nat> {
    if n == 0 then [] else [t] + Times(t, n - 1)
  }

  lemma RunOnce(s: State, t: nat, n: nat)
    requires Shaped(s) && Enabled(s, t) && n > 0
    ensures Run(s, Times(t, n)) == Run(Step(s, t), Times(t, n - 1))
  {
    assert Times(t, n)[1..] == Times(t, n - 1);
  }

  // With the mutex free, a consumer that finds an item takes the oldest one in seven steps, and leaves a
  // free slot; without an item it waits.
  lemma ConsumerRound(s: State, c: nat)
    requires Inv(s) && s.mutex == None && c < |s.threads|
    requires s.threads[c].role == Consumer && s.threads[c].at == 0
    ensures s.filledSlots == 0 ==> Run(s, [c]) == s
    ensures s.filledSlots > 0 ==> |s.consumed| < |s.written| && var s' := Run(s, Times(c, 7));
      && s'.consumed == s.consumed + [s.written[|s.consumed|]] && s'.written == s.written
      && s'.threads == s.threads && s'.mutex == None
      && s'.filledSlots == s.filledSlots - 1 && s'.emptySlots == s.emptySlots + 1
  {
    StaysIff(s, c);
    if s.filledSlots > 0 {
      assert s.output == Slot(|s.consumed|) && s.buffer[s.output] == s.written[|s.consumed|];
      ConsumerSteps(s, c);
    }
  }

  lemma ConsumerSteps(s: State, c: nat)
    requires Shaped(s) && s.mutex == None && c < |s.threads| && s.filledSlots > 0
    requires s.threads[c].role == Consumer && s.threads[c].at == 0
    ensures var s' := Run(s, Times(c, 7));
      && s'.consumed == s.consumed + [s.buffer[s.output]] && s'.written == s.written
      && s'.threads == s.threads && s'.mutex == None
      && s'.filledSlots == s.filledSlots - 1 && s'.emptySlots == s.emptySlots + 1
  {
    var a := Step(s, c);
    RunOnce(s, c, 7);
    var b := Step(a, c);
    RunOnce(a, c, 6);
    var d := Step(b, c);
    RunOnce(b, c, 5);
    var e := Step(d, c);
    RunOnce(d, c, 4);
    var f := Step(e, c);
    RunOnce(e, c, 3);
    var g := Step(f, c);
    RunOnce(f, c, 2);
    RunOnce(g, c, 1);
    assert Step(g, c).threads == s.threads;
  }

  // ... and a producer that finds a free slot puts its next item behind the others.
  lemma ProducerRound(s: State, p: nat)
    requires Inv(s) && s.mutex == None && p < |s.threads|
    requires s.threads[p].role == Producer && s.threads[p].at == 0
    ensures s.emptySlots == 0 ==> Run(s, [p]) == s
    ensures s.emptySlots > 0 ==> var s' := Run(s, Times(p, 7));
      && s'.written == s.written + [s.threads[p].item] && s'.writers == s.writers + [p] && s'.consumed == s.consumed
      && s'.threads == s.threads[p := s.threads[p].(item := s.threads[p].item + 1)] && s'.mutex == None
      && s'.emptySlots == s.emptySlots - 1 && s'.filledSlots == s.filledSlots + 1
  {
    StaysIff(s, p);
    if s.emptySlots > 0 {
      ProducerSteps(s, p);
    }
  }

  lemma ProducerSteps(s: State, p: nat)
    requires Shaped(s) && s.mutex == None && p < |s.threads| && s.emptySlots > 0
    requires s.threads[p].role == Producer && s.threads[p].at == 0
    ensures var s' := Run(s, Times(p, 7));
      && s'.written == s.written + [s.threads[p].item] && s'.writers == s.writers + [p] && s'.consumed == s.consumed
      && s'.threads == s.threads[p := s.threads[p].(item := s.threads[p].item + 1)] && s'.mutex == None
      && s'.emptySlots == s.emptySlots - 1 && s'.filledSlots == s.filledSlots + 1
  {
    var a := Step(s, p);
    RunOnce(s, p, 7);
    var b := Step(a, p);
    RunOnce(a, p, 6);
    var d := Step(b, p);
    RunOnce(b, p, 5);
    var e := Step(d, p);
    RunOnce(d, p, 4);
    var f := Step(e, p);
    RunOnce(e, p, 3);
    var g := Step(f, p);
    RunOnce(f, p, 2);
    RunOnce(g, p, 1);
    assert Step(g, p).threads == s.threads[p := s.threads[p].(item := s.threads[p].item + 1)];
  }

  function Laps(t: nat, n: nat): seq<nat> {
    if n == 0 then [] else Times(t, 7) + Laps(t, n - 1)
  }

  // So a producer alone fills all ten slots of a new ring, and then waits.
  lemma {:induction false} FillsFreeSlots(s: State, p: nat, n: nat)
    requires Inv(s) && s.mutex == None && p < |s.threads| && n <= s.emptySlots
    requires s.threads[p].role == Producer && s.threads[p].at == 0
    ensures var s' := Run(s, Laps(p, n));
      |s'.written| == |s.written| + n && s'.consumed == s.consumed && s'.emptySlots == s.emptySlots - n
    decreases n
  {
    if n > 0 {
      ProducerRound(s, p);
      RunKeepsInv(s, Times(p, 7));
      RunAppend(s, Times(p, 7), Laps(p, n - 1));
      FillsFreeSlots(Run(s, Times(p, 7)), p, n - 1);
    }
  }

  lemma {:induction false} RunAppend(s: State, first: seq<nat>, rest: seq<nat>)
    requires Inv(s)
    ensures Run(s, first + rest) == Run(Run(s, first), rest)
    decreases |first|
  {
    if first == [] {
      assert first + rest == rest;
    } else {
      var t := first[0];
      assert (first + rest)[1..] == first[1..] + rest;
      if Enabled(s, t) { StepKeepsInv(s, t); }
      RunAppend(if Enabled(s, t) then Step(s, t) else s, first[1..], rest);
    }
  }
}
