/**
 The request queue and its workers, one lock operation at a time: any number of producers push,
 any number of workers wait, pop and answer, and shutdown may come at any moment.
 */
module WorkerQueue {
  import opened Bytes

  /** A submitted request with its callback; `ticket` is its place in the order of submission. */
  datatype Task = Task(ticket: nat)

  /** Where a worker's loop stands. `Evaluating` and `Popping` hold the queue mutex. */
  datatype Worker =
    | Looping
    | Locking
    | Sleeping
    | Evaluating
    | Popping
    | Holding(task: Task)
    | Left

  /** Who holds the queue mutex. */
  datatype Holder = Nobody | ByWorker(index: nat) | ByProducer

  /** `submitted`, `taken` and `answered` are history, in the order of the events. */
  datatype Pool = Pool(
    queue: seq<Task>,
    mutex: Holder,
    running: bool,
    workers: seq<Worker>,
    submitted: seq<Task>,
    taken: seq<Task>,
    answered: seq<Task>)

  datatype PoolAction =
    | ProducerLock
    | Push
    | ProducerUnlock
    | CheckRunning(index: nat)
    | Lock(index: nat)
    | Evaluate(index: nat)
    | Wake(index: nat)
    | Pop(index: nat)
    | Answer(index: nat)
    | StopPool

  function NewPool(size: nat): Pool {
    Pool([], Nobody, true, seq(size, _ => Looping), [], [], [])
  }

  predicate WorkerAt(p: Pool, i: nat, w: Worker) {
    i < |p.workers| && p.workers[i] == w
  }

  predicate Possible(p: Pool, a: PoolAction) {
    match a
    case ProducerLock => p.mutex == Nobody
    case Push => p.mutex == ByProducer
    case ProducerUnlock => p.mutex == ByProducer
    case CheckRunning(i) => WorkerAt(p, i, Looping)
    case Lock(i) => WorkerAt(p, i, Locking) && p.mutex == Nobody
    case Evaluate(i) => WorkerAt(p, i, Evaluating)
    case Wake(i) => WorkerAt(p, i, Sleeping)
    case Pop(i) => WorkerAt(p, i, Popping)
    case Answer(i) => i < |p.workers| && p.workers[i].Holding?
    case StopPool => true
  }

  function Goes(p: Pool, i: nat, w: Worker): Pool
    requires i < |p.workers|
  {
    p.(workers := p.workers[i := w])
  }

  /**
   `Evaluate` is the wait predicate and the shutdown test behind it: sleep, leave, or go on to pop.
   `Wake` covers notifications and spurious wakeups.
   */
  function Advance(p: Pool, a: PoolAction): Pool
    requires Possible(p, a)
  {
    match a
    case ProducerLock => p.(mutex := ByProducer)
    case Push =>
      var task := Task(|p.submitted|);
      p.(queue := p.queue + [task], submitted := p.submitted + [task])
    case ProducerUnlock => p.(mutex := Nobody)
    case CheckRunning(i) => Goes(p, i, if p.running then Locking else Left)
    case Lock(i) => Goes(p, i, Evaluating).(mutex := ByWorker(i))
    case Evaluate(i) =>
      if p.queue == [] && p.running then Goes(p, i, Sleeping).(mutex := Nobody)
      else if p.queue == [] then Goes(p, i, Left).(mutex := Nobody)
      else Goes(p, i, Popping)
    case Wake(i) => Goes(p, i, Locking)
    case Pop(i) =>
      if p.queue == [] then Goes(p, i, Looping).(mutex := Nobody)
      else
        Goes(p, i, Holding(p.queue[0])).(queue := p.queue[1..], taken := p.taken + [p.queue[0]], mutex := Nobody)
    case Answer(i) => Goes(p, i, Looping).(answered := p.answered + [p.workers[i].task])
    case StopPool => p.(running := false)
  }

  function RunPool(size: nat, actions: seq<PoolAction>): Option<Pool> {
    if actions == [] then Some(NewPool(size))
    else
      var n := |actions| - 1;
      var before := RunPool(size, actions[..n]);
      if before.Some? && Possible(before.value, actions[n]) then Some(Advance(before.value, actions[n])) else None
  }

  predicate HoldsMutex(w: Worker) {
    w.Evaluating? || w.Popping?
  }

  ghost predicate MutexMatches(p: Pool) {
    && (forall i | 0 <= i < |p.workers| :: HoldsMutex(p.workers[i]) <==> p.mutex == ByWorker(i))
    && (p.mutex.ByWorker? ==> p.mutex.index < |p.workers|)
    && (forall i | 0 <= i < |p.workers| :: p.workers[i].Popping? ==> p.queue != [])
  }

  /** First in, first out: what was submitted is what was taken, then what waits. */
  ghost predicate Conserved(p: Pool) {
    && p.submitted == p.taken + p.queue
    && forall t | 0 <= t < |p.submitted| :: p.submitted[t] == Task(t)
  }

  /** How often a task is in the workers' hands. */
  function InHand(workers: seq<Worker>, task: Task): nat {
    if workers == [] then 0
    else InHand(workers[..|workers| - 1], task) + Has(workers[|workers| - 1], task)
  }

  function Has(w: Worker, task: Task): nat {
    if w == Holding(task) then 1 else 0
  }

  /** Every task taken is in one worker's hands or answered, once. */
  ghost predicate Accounted(p: Pool) {
    forall task :: multiset(p.taken)[task] == InHand(p.workers, task) + multiset(p.answered)[task]
  }

  lemma {:induction false} InHandAfterUpdate(workers: seq<Worker>, i: nat, w: Worker, task: Task)
    requires i < |workers|
    ensures InHand(workers[i := w], task) == InHand(workers, task) - Has(workers[i], task) + Has(w, task)
  {
    var n := |workers| - 1;
    if i < n {
      InHandAfterUpdate(workers[..n], i, w, task);
      assert workers[i := w][..n] == workers[..n][i := w];
    } else {
      assert workers[i := w][..n] == workers[..n];
    }
  }

  lemma {:induction false} NothingInHand(workers: seq<Worker>, task: Task)
    requires forall i | 0 <= i < |workers| :: workers[i] == Looping
    ensures InHand(workers, task) == 0
  {
    if workers != [] {
      NothingInHand(workers[..|workers| - 1], task);
    }
  }

  lemma MutexKept(p: Pool, a: PoolAction)
    requires MutexMatches(p) && Possible(p, a)
    ensures MutexMatches(Advance(p, a))
  {
  }

  lemma ConservedKept(p: Pool, a: PoolAction)
    requires Conserved(p) && Possible(p, a)
    ensures Conserved(Advance(p, a))
  {
  }

  /** One worker moved: what it had goes, what it has comes. */
  lemma HandsAfterMove(p: Pool, i: nat, w: Worker, task: Task)
    requires Accounted(p) && i < |p.workers|
    ensures multiset(p.taken)[task] + Has(w, task)
         == InHand(p.workers[i := w], task) + Has(p.workers[i], task) + multiset(p.answered)[task]
  {
    InHandAfterUpdate(p.workers, i, w, task);
  }

  lemma AccountedKept(p: Pool, a: PoolAction)
    requires Accounted(p) && Possible(p, a)
    ensures Accounted(Advance(p, a))
  {
    if a.CheckRunning? || a.Lock? || a.Evaluate? || a.Wake? || a.Pop? || a.Answer? {
      WorkerActionKeepsAccounted(p, a, a.index);
    }
  }

  /** What a worker's action adds to what was taken and answered balances with its hands. */
  lemma WorkerActionBalances(p: Pool, a: PoolAction, i: nat, task: Task)
    requires Possible(p, a) && a in {CheckRunning(i), Lock(i), Evaluate(i), Wake(i), Pop(i), Answer(i)}
    ensures i < |p.workers|
    ensures var p' := Advance(p, a);
            && p'.workers == p.workers[i := p'.workers[i]]
            && multiset(p'.taken)[task] - multiset(p.taken)[task]
               == Has(p'.workers[i], task) - Has(p.workers[i], task)
                  + multiset(p'.answered)[task] - multiset(p.answered)[task]
  {
  }

  lemma WorkerActionKeepsAccounted(p: Pool, a: PoolAction, i: nat)
    requires Accounted(p) && Possible(p, a)
    requires a in {CheckRunning(i), Lock(i), Evaluate(i), Wake(i), Pop(i), Answer(i)}
    ensures Accounted(Advance(p, a))
  {
    var p' := Advance(p, a);
    forall task
      ensures multiset(p'.taken)[task] == InHand(p'.workers, task) + multiset(p'.answered)[task]
    {
      WorkerActionBalances(p, a, i, task);
      HandsAfterMove(p, i, p'.workers[i], task);
    }
  }

  lemma {:induction false} RunKeepsPool(size: nat, actions: seq<PoolAction>)
    requires RunPool(size, actions).Some?
    ensures var p := RunPool(size, actions).value;
            MutexMatches(p) && Conserved(p) && Accounted(p)
  {
    if actions == [] {
      forall task
        ensures InHand(NewPool(size).workers, task) == 0
      {
        NothingInHand(NewPool(size).workers, task);
      }
    } else {
      var n := |actions| - 1;
      var before := RunPool(size, actions[..n]).value;
      RunKeepsPool(size, actions[..n]);
      MutexKept(before, actions[n]);
      ConservedKept(before, actions[n]);
      AccountedKept(before, actions[n]);
    }
  }

  lemma {:induction false} TakenOnce(taken: seq<Task>, task: Task)
    requires forall t | 0 <= t < |taken| :: taken[t] == Task(t)
    ensures multiset(taken)[task] == if task.ticket < |taken| then 1 else 0
  {
    if taken != [] {
      var n := |taken| - 1;
      TakenOnce(taken[..n], task);
      assert taken == taken[..n] + [taken[n]];
    }
  }

  /**
   In every interleaving, shutdown included: tasks are taken in the order submitted and what is not
   taken still waits in order; each taken task is in exactly one worker's hands or was answered
   exactly once; no pop meets an empty queue; the mutex has one holder.
   */
  lemma QueueConservation(size: nat, actions: seq<PoolAction>, task: Task, i: nat)
    requires RunPool(size, actions).Some?
    ensures var p := RunPool(size, actions).value;
            && p.submitted == p.taken + p.queue
            && InHand(p.workers, task) + multiset(p.answered)[task]
               == (if task.ticket < |p.taken| then 1 else 0)
            && (Possible(p, Pop(i)) ==> p.queue != [] && p.mutex == ByWorker(i))
  {
    var p := RunPool(size, actions).value;
    RunKeepsPool(size, actions);
    forall t | 0 <= t < |p.taken|
      ensures p.taken[t] == Task(t)
    {
      assert p.submitted[t] == p.taken[t];
    }
    TakenOnce(p.taken, task);
  }

  /** A submitted task is the last in the queue. */
  lemma PushAddsLast(p: Pool)
    requires p.mutex == ByProducer
    ensures var t := Advance(p, Push);
            exists task :: t.queue == p.queue + [task] && t.submitted == p.submitted + [task]
  {
    assert Advance(p, Push).queue == p.queue + [Task(|p.submitted|)];
  }

  /** A producer's turn with nothing in between: lock, push, unlock. It needs only the mutex. */
  function ProducerTurn(p: Pool): Pool
    requires p.mutex == Nobody
  {
    Advance(Advance(Advance(p, ProducerLock), Push), ProducerUnlock)
  }

  lemma ProducerTurnOutcome(p: Pool)
    requires p.mutex == Nobody
    ensures var task := Task(|p.submitted|);
            ProducerTurn(p) == p.(queue := p.queue + [task], submitted := p.submitted + [task])
  {
  }

  /** In every run the pool can be stopped, and whoever holds the mutex can give it back. */
  lemma MutexIsGivenBack(size: nat, actions: seq<PoolAction>)
    requires RunPool(size, actions).Some?
    ensures var p := RunPool(size, actions).value;
            && Possible(p, StopPool)
            && match p.mutex
               case Nobody => true
               case ByProducer => Possible(p, ProducerUnlock) && Advance(p, ProducerUnlock).mutex == Nobody
               case ByWorker(i) =>
                 if Possible(p, Evaluate(i)) then
                   var t := Advance(p, Evaluate(i));
                   t.mutex == Nobody || (Possible(t, Pop(i)) && Advance(t, Pop(i)).mutex == Nobody)
                 else Possible(p, Pop(i)) && Advance(p, Pop(i)).mutex == Nobody
  {
    RunKeepsPool(size, actions);
  }

  /** One turn of a worker's loop with nothing in between, up to where it works, sleeps or leaves. */
  function WorkerTurn(p: Pool, i: nat): Pool
    requires WorkerAt(p, i, Looping) && p.mutex == Nobody
  {
    var checked := Advance(p, CheckRunning(i));
    if !checked.workers[i].Locking? then checked
    else
      var woken := Advance(Advance(checked, Lock(i)), Evaluate(i));
      if woken.workers[i].Popping? then Advance(woken, Pop(i)) else woken
  }

  /**
   On its turn a worker takes the oldest task if there is one, sleeps if there is none, and leaves
   once the pool is stopped; the mutex is free afterwards and no other worker is touched.
   */
  lemma WorkerTurnOutcome(p: Pool, i: nat)
    requires WorkerAt(p, i, Looping) && p.mutex == Nobody
    ensures var t := WorkerTurn(p, i);
            && t.mutex == Nobody && t.running == p.running
            && t.submitted == p.submitted && t.answered == p.answered
            && |t.workers| == |p.workers|
            && (forall j | 0 <= j < |p.workers| && j != i :: t.workers[j] == p.workers[j])
            && if !p.running then
                 t.workers[i] == Left && t.queue == p.queue && t.taken == p.taken
               else if p.queue == [] then
                 t.workers[i] == Sleeping && t.queue == [] && t.taken == p.taken
               else
                 && t.workers[i] == Holding(p.queue[0])
                 && t.queue == p.queue[1..] && t.taken == p.taken + [p.queue[0]]
  {
  }

  /** A worker woken by a task, or by the stop of the pool, does what a worker on its turn does. */
  lemma WokenWorkerOutcome(p: Pool, i: nat)
    requires WorkerAt(p, i, Sleeping) && p.mutex == Nobody
    ensures var woken := Advance(Advance(Advance(p, Wake(i)), Lock(i)), Evaluate(i));
            && woken.queue == p.queue
            && woken.workers[i] == (if p.queue != [] then Popping else if p.running then Sleeping else Left)
            && woken.mutex == (if p.queue != [] then ByWorker(i) else Nobody)
  {
  }

  /** A task that is answered is the one its worker held, and the worker goes on. */
  lemma AnswerHandsOver(p: Pool, i: nat, task: Task)
    requires WorkerAt(p, i, Holding(task))
    ensures var t := Advance(p, Answer(i));
            t.answered == p.answered + [task] && t.workers == p.workers[i := Looping] && t.queue == p.queue
  {
  }

  lemma OnlyStopPoolStops(p: Pool, a: PoolAction)
    requires Possible(p, a)
    ensures Advance(p, a).running <==> p.running && a != StopPool
    ensures |Advance(p, a).workers| == |p.workers|
  {
  }

  /** The pool runs until it is stopped. */
  lemma {:induction false} PoolRunsUntilStopped(size: nat, actions: seq<PoolAction>)
    requires RunPool(size, actions).Some?
    ensures RunPool(size, actions).value.running <==> StopPool !in actions
    ensures |RunPool(size, actions).value.workers| == size
  {
    if actions != [] {
      var n := |actions| - 1;
      PoolRunsUntilStopped(size, actions[..n]);
      OnlyStopPoolStops(RunPool(size, actions[..n]).value, actions[n]);
      assert actions == actions[..n] + [actions[n]];
    }
  }

  // ---------------------------------------------------------------- the queue object

  class RequestQueue {
    var queue: seq<Task>
    var running: bool
    ghost var submitted: seq<Task>
    ghost var taken: seq<Task>

    /** What the pool keeps between lock operations. */
    ghost predicate Valid()
      reads this
    {
      submitted == taken + queue && forall t | 0 <= t < |submitted| :: submitted[t] == Task(t)
    }

    constructor ()
      ensures Valid() && queue == [] && submitted == [] && running
    {
      queue, running, submitted, taken := [], true, [], [];
    }

    method ProcessRequestAsync(task: Task)
      requires Valid() && task == Task(|submitted|)
      modifies this
      ensures Valid() && submitted == old(submitted) + [task] && queue == old(queue) + [task]
      ensures taken == old(taken) && running == old(running)
    {
      queue := queue + [task];
      submitted := submitted + [task];
    }

    /** The part of a worker's turn behind the wait: a task, or nothing when it is to leave. */
    method NextTask() returns (task: Option<Task>)
      requires Valid() && (queue != [] || !running)
      modifies this
      ensures Valid() && submitted == old(submitted) && running == old(running)
      ensures task == None <==> old(queue) == []
      ensures task.Some? ==> task.value == Task(|old(taken)|) && taken == old(taken) + [task.value]
      ensures task.None? ==> taken == old(taken)
    {
      if !running && queue == [] {
        return None;
      }
      var first := queue[0];
      assert submitted[|taken|] == first;
      queue := queue[1..];
      taken := taken + [first];
      return Some(first);
    }
  }
}
