// The monitor behind the thread pool and the bounded queue: a task list under
// one mutex, one condition variable for takers and one for putters, each step
// being what one thread does between taking and releasing the mutex.

/** States, steps and invariants of the pool's threads. */
module PoolMonitor {
  import opened Basics

  type Task = nat

  /** A worker: at the loop condition, about to take, waiting on `m_condPush`
      un-notified or notified, running a task, or returned. */
  datatype Worker = AtCheck | AtTake | Asleep | Signalled | Busy(task: Task) | Exited

  /** A thread that calls `Run`: outside, about to put, waiting on `m_condPop`
      un-notified or notified. */
  datatype Producer = Outside | AtPut(task: Task) | Blocked(task: Task) | Roused(task: Task)

  datatype Pool = Pool(
    capacity: nat, running: bool, tasks: seq<Task>, workers: seq<Worker>, producers: seq<Producer>)

  /** `wake` names the waiting thread `notify_one` picks.  A spurious wake-up, or
      one that lost the race for the mutex, is a `Wake` step of a thread that
      was not notified. */
  datatype Action =
    | Check(w: nat)                   // the loop condition of runInThread
    | Take(w: nat, wake: nat)         // a worker enters take()
    | WakeWorker(w: nat, wake: nat)   // a waiting worker re-acquires the mutex
    | Finish(w: nat)                  // a task returns
    | Submit(p: nat, task: Task)      // a thread calls Run
    | Put(p: nat, wake: nat)          // it enters the monitor
    | WakeProducer(p: nat, wake: nat) // a blocked one re-acquires the mutex
    | Stop

  function Init(capacity: nat, workers: nat, producers: nat): Pool {
    Pool(capacity, true, [], seq(workers, _ => AtCheck), seq(producers, _ => Outside))
  }

  // ----- notification -----

  predicate SleepingWorker(s: Pool, i: nat) {
    i < |s.workers| && s.workers[i] == Asleep
  }

  predicate BlockedProducer(s: Pool, i: nat) {
    i < |s.producers| && s.producers[i].Blocked?
  }

  /** notify_one wakes a waiting thread if there is one. */
  predicate PicksWorker(s: Pool, wake: nat) {
    SleepingWorker(s, wake) || forall i | 0 <= i < |s.workers| :: s.workers[i] != Asleep
  }

  predicate PicksProducer(s: Pool, wake: nat) {
    BlockedProducer(s, wake) || forall i | 0 <= i < |s.producers| :: !s.producers[i].Blocked?
  }

  function NotifyWorker(s: Pool, wake: nat): Pool {
    if SleepingWorker(s, wake) then s.(workers := s.workers[wake := Signalled]) else s
  }

  function NotifyProducer(s: Pool, wake: nat): Pool {
    if BlockedProducer(s, wake) then
      s.(producers := s.producers[wake := Roused(s.producers[wake].task)])
    else s
  }

  function NotifyAll(ws: seq<Worker>): (r: seq<Worker>)
    ensures |r| == |ws|
    ensures forall i :: 0 <= i < |ws| ==> r[i] == if ws[i] == Asleep then Signalled else ws[i]
  {
    seq(|ws|, i requires 0 <= i < |ws| => if ws[i] == Asleep then Signalled else ws[i])
  }

  // ----- critical sections -----

  /** The body of `take`, from holding the mutex to waiting or returning. */
  function TakeStep(s: Pool, w: nat, wake: nat): Pool
    requires w < |s.workers|
  {
    if s.tasks == [] && s.running then s.(workers := s.workers[w := Asleep])
    else if s.tasks != [] then
      var t := s.(tasks := s.tasks[1..], workers := s.workers[w := Busy(s.tasks[0])]);
      if s.capacity > 0 then NotifyProducer(t, wake) else t
    else s.(workers := s.workers[w := AtCheck])
  }

  predicate Full(s: Pool) {
    s.capacity > 0 && |s.tasks| >= s.capacity
  }

  /** The body of `Run`, from holding the mutex to waiting or returning. */
  function PutStep(s: Pool, p: nat, task: Task, wake: nat): Pool
    requires p < |s.producers|
  {
    if Full(s) then s.(producers := s.producers[p := Blocked(task)])
    else NotifyWorker(s.(tasks := s.tasks + [task], producers := s.producers[p := Outside]), wake)
  }

  predicate Enabled(s: Pool, a: Action) {
    match a
    case Check(w) => w < |s.workers| && s.workers[w] == AtCheck
    case Take(w, wake) => w < |s.workers| && s.workers[w] == AtTake && PicksProducer(s, wake)
    case WakeWorker(w, wake) =>
      w < |s.workers| && (s.workers[w] == Asleep || s.workers[w] == Signalled) && PicksProducer(s, wake)
    case Finish(w) => w < |s.workers| && s.workers[w].Busy?
    case Submit(p, _) => p < |s.producers| && s.producers[p] == Outside
    case Put(p, wake) => p < |s.producers| && s.producers[p].AtPut? && PicksWorker(s, wake)
    case WakeProducer(p, wake) =>
      p < |s.producers| && (s.producers[p].Blocked? || s.producers[p].Roused?) && PicksWorker(s, wake)
    case Stop => true
  }

  /** With no worker threads `Run` runs what it is given at once and queues nothing. */
  function Next(s: Pool, a: Action): Pool
    requires Enabled(s, a)
  {
    match a
    case Check(w) => s.(workers := s.workers[w := if s.running then AtTake else Exited])
    case Take(w, wake) => TakeStep(s, w, wake)
    case WakeWorker(w, wake) => TakeStep(s, w, wake)
    case Finish(w) => s.(workers := s.workers[w := AtCheck])
    case Submit(p, task) =>
      if s.workers == [] then s else s.(producers := s.producers[p := AtPut(task)])
    case Put(p, wake) => PutStep(s, p, s.producers[p].task, wake)
    case WakeProducer(p, wake) => PutStep(s, p, s.producers[p].task, wake)
    case Stop => s.(running := false, workers := NotifyAll(s.workers))
  }

  predicate Runs(s: Pool, acts: seq<Action>)
    decreases |acts|
  {
    acts == [] || (Enabled(s, acts[0]) && Runs(Next(s, acts[0]), acts[1..]))
  }

  function End(s: Pool, acts: seq<Action>): Pool
    requires Runs(s, acts)
    decreases |acts|
  {
    if acts == [] then s else End(Next(s, acts[0]), acts[1..])
  }

  lemma {:induction false} RunsAppend(s: Pool, front: seq<Action>, back: seq<Action>)
    requires Runs(s, front)
    ensures Runs(s, front + back) <==> Runs(End(s, front), back)
    ensures Runs(s, front + back) ==> End(s, front + back) == End(End(s, front), back)
    decreases |front|
  {
    if front == [] {
      assert front + back == back;
    } else {
      assert (front + back)[1..] == front[1..] + back;
      RunsAppend(Next(s, front[0]), front[1..], back);
    }
  }

  /** A run taken one action further. */
  lemma ExtendRun(s: Pool, acts: seq<Action>, a: Action) returns (more: seq<Action>)
    requires Runs(s, acts) && Enabled(End(s, acts), a)
    ensures more == acts + [a]
    ensures Runs(s, more) && End(s, more) == Next(End(s, acts), a)
  {
    more := acts + [a];
    RunsAppend(s, acts, [a]);
  }

  // ----- counting -----

  function SignalWeight(w: Worker): nat {
    if w == Signalled then 1 else 0
  }

  function RousedWeight(p: Producer): nat {
    if p.Roused? then 1 else 0
  }

  function CountSignalled(ws: seq<Worker>): nat {
    Sum(ws, SignalWeight)
  }

  function CountRoused(ps: seq<Producer>): nat {
    Sum(ps, RousedWeight)
  }

  // ----- the invariant -----

  predicate SomeAsleep(s: Pool) {
    exists i :: 0 <= i < |s.workers| && s.workers[i] == Asleep
  }

  predicate SomeBlocked(s: Pool) {
    exists i :: 0 <= i < |s.producers| && s.producers[i].Blocked?
  }

  predicate WorkersCovered(s: Pool) {
    SomeAsleep(s) ==> s.running && |s.tasks| <= CountSignalled(s.workers)
  }

  predicate ProducersCovered(s: Pool) {
    SomeBlocked(s) ==> s.capacity > 0 && s.capacity - |s.tasks| <= CountRoused(s.producers)
  }

  predicate Inv(s: Pool) {
    && (s.capacity > 0 ==> |s.tasks| <= s.capacity)
    && WorkersCovered(s)
    && ProducersCovered(s)
    && (forall i :: 0 <= i < |s.workers| && s.workers[i] == Exited ==> !s.running)
  }

  lemma InitOk(capacity: nat, workers: nat, producers: nat)
    ensures Inv(Init(capacity, workers, producers))
  {
  }

  lemma TakeKeeps(s: Pool, w: nat, wake: nat)
    requires Inv(s) && w < |s.workers| && PicksProducer(s, wake)
    requires s.workers[w] == AtTake || s.workers[w] == Asleep || s.workers[w] == Signalled
    ensures Inv(TakeStep(s, w, wake))
  {
    var s' := TakeStep(s, w, wake);
    SumUpdate(s.workers, SignalWeight, w, s'.workers[w]);
    if SomeAsleep(s') && s.tasks != [] {
      var i :| 0 <= i < |s'.workers| && s'.workers[i] == Asleep;
      assert s.workers[i] == Asleep;
    }
    if s.tasks != [] && s.capacity > 0 && BlockedProducer(s, wake) {
      SumUpdate(s.producers, RousedWeight, wake, Roused(s.producers[wake].task));
    }
    if SomeBlocked(s') {
      var i :| 0 <= i < |s'.producers| && s'.producers[i].Blocked?;
      assert s.producers[i].Blocked?;
    }
  }

  lemma PutKeeps(s: Pool, p: nat, task: Task, wake: nat)
    requires Inv(s) && p < |s.producers| && PicksWorker(s, wake)
    requires s.producers[p] != Outside
    ensures Inv(PutStep(s, p, task, wake))
  {
    var s' := PutStep(s, p, task, wake);
    SumUpdate(s.producers, RousedWeight, p, s'.producers[p]);
    if !Full(s) {
      if SomeBlocked(s') {
        var i :| 0 <= i < |s'.producers| && s'.producers[i].Blocked?;
        assert s.producers[i].Blocked?;
      }
      if SleepingWorker(s, wake) {
        SumUpdate(s.workers, SignalWeight, wake, Signalled);
      }
      if SomeAsleep(s') {
        var i :| 0 <= i < |s'.workers| && s'.workers[i] == Asleep;
        assert s.workers[i] == Asleep;
      }
    }
  }

  /** A step of a worker or a producer outside the monitor. */
  lemma OutsideKeeps(s: Pool, a: Action)
    requires Inv(s) && Enabled(s, a) && (a.Check? || a.Finish? || a.Submit?)
    ensures Inv(Next(s, a))
  {
    var s' := Next(s, a);
    match a {
      case Check(w) => SumUpdate(s.workers, SignalWeight, w, s'.workers[w]);
      case Finish(w) => SumUpdate(s.workers, SignalWeight, w, AtCheck);
      case Submit(p, task) =>
        if s.workers != [] { SumUpdate(s.producers, RousedWeight, p, AtPut(task)); }
    }
    if SomeAsleep(s') {
      var i :| 0 <= i < |s'.workers| && s'.workers[i] == Asleep;
      assert s.workers[i] == Asleep;
    }
    if SomeBlocked(s') {
      var i :| 0 <= i < |s'.producers| && s'.producers[i].Blocked?;
      assert s.producers[i].Blocked?;
    }
  }

  lemma StepKeeps(s: Pool, a: Action)
    requires Inv(s) && Enabled(s, a)
    ensures Inv(Next(s, a))
  {
    match a
    case Take(w, wake) => TakeKeeps(s, w, wake);
    case WakeWorker(w, wake) => TakeKeeps(s, w, wake);
    case Put(p, wake) => PutKeeps(s, p, s.producers[p].task, wake);
    case WakeProducer(p, wake) => PutKeeps(s, p, s.producers[p].task, wake);
    case Stop =>
    case _ => OutsideKeeps(s, a);
  }

  lemma {:induction false} RunKeeps(s: Pool, acts: seq<Action>)
    requires Inv(s) && Runs(s, acts)
    ensures Inv(End(s, acts))
    decreases |acts|
  {
    if acts != [] {
      StepKeeps(s, acts[0]);
      RunKeeps(Next(s, acts[0]), acts[1..]);
    }
  }

  // ----- no lost wake-up -----

  /** In every run: while a task is queued and workers sleep un-notified, at
      least as many workers are notified as tasks are queued; so a queued task
      never waits with all workers asleep, and the pool never stands still with
      a producer blocked. */
  lemma NoLostWakeUp(capacity: nat, workers: nat, producers: nat, acts: seq<Action>)
    requires Runs(Init(capacity, workers, producers), acts)
    ensures
      var s := End(Init(capacity, workers, producers), acts);
      && (SomeAsleep(s) ==> s.running && |s.tasks| <= CountSignalled(s.workers))
      && (SomeBlocked(s) ==> s.capacity - |s.tasks| <= CountRoused(s.producers))
      && (SomeAsleep(s) && s.tasks != [] ==> exists i :: 0 <= i < |s.workers| && s.workers[i] == Signalled)
      && (SomeBlocked(s) && SomeAsleep(s) ==>
            (exists i :: 0 <= i < |s.workers| && s.workers[i] == Signalled) ||
            (exists i :: 0 <= i < |s.producers| && s.producers[i].Roused?))
  {
    InitOk(capacity, workers, producers);
    RunKeeps(Init(capacity, workers, producers), acts);
    var s := End(Init(capacity, workers, producers), acts);
    SumPositive(s.workers, SignalWeight);
    SumPositive(s.producers, RousedWeight);
  }

  // ----- first in, first out -----

  /** What a step appends to the queue, or removes from it. */
  function PutInStep(s: Pool, a: Action): seq<Task>
    requires Enabled(s, a)
  {
    if (a.Put? || a.WakeProducer?) && !Full(s) then [s.producers[a.p].task] else []
  }

  function TakenInStep(s: Pool, a: Action): seq<Task>
    requires Enabled(s, a)
  {
    if (a.Take? || a.WakeWorker?) && s.tasks != [] then [s.tasks[0]] else []
  }

  function PutBy(s: Pool, acts: seq<Action>): seq<Task>
    requires Runs(s, acts)
    decreases |acts|
  {
    if acts == [] then [] else PutInStep(s, acts[0]) + PutBy(Next(s, acts[0]), acts[1..])
  }

  function TakenBy(s: Pool, acts: seq<Action>): seq<Task>
    requires Runs(s, acts)
    decreases |acts|
  {
    if acts == [] then [] else TakenInStep(s, acts[0]) + TakenBy(Next(s, acts[0]), acts[1..])
  }

  lemma StepIsFifo(s: Pool, a: Action)
    requires Enabled(s, a)
    ensures s.tasks + PutInStep(s, a) == TakenInStep(s, a) + Next(s, a).tasks
  {
  }

  /** Tasks are taken in the order they were put, none twice and none lost. */
  lemma {:induction false} FirstInFirstOut(s: Pool, acts: seq<Action>)
    requires Runs(s, acts)
    ensures s.tasks + PutBy(s, acts) == TakenBy(s, acts) + End(s, acts).tasks
    decreases |acts|
  {
    if acts == [] {
      assert s.tasks + [] == [] + s.tasks;
    } else {
      var a, rest := acts[0], acts[1..];
      var t := Next(s, a);
      StepIsFifo(s, a);
      FirstInFirstOut(t, rest);
      ChainQueues(s.tasks, PutInStep(s, a), TakenInStep(s, a), t.tasks, PutBy(t, rest), TakenBy(t, rest), End(t, rest).tasks);
    }
  }

  // ----- after Stop -----

  /** Steps a worker still has before it returns. */
  function WorkerRank(w: Worker): nat {
    match w
    case AtTake => 3
    case Asleep => 3
    case Signalled => 3
    case Busy(_) => 2
    case AtCheck => 1
    case Exited => 0
  }

  function SumRank(ws: seq<Worker>): nat {
    Sum(ws, WorkerRank)
  }

  predicate WorkerAction(a: Action) {
    a.Check? || a.Take? || a.WakeWorker? || a.Finish?
  }

  /** Stop leaves no worker asleep. */
  lemma StopWakesAll(s: Pool)
    requires Inv(s)
    ensures !SomeAsleep(Next(s, Stop)) && !Next(s, Stop).running
  {
  }

  /** After Stop no worker ever falls asleep again. */
  lemma {:induction false} StoppedNeverSleep(s: Pool, acts: seq<Action>)
    requires Inv(s) && Runs(Next(s, Stop), acts)
    ensures !SomeAsleep(End(Next(s, Stop), acts)) && !End(Next(s, Stop), acts).running
  {
    StepKeeps(s, Stop);
    RunKeeps(Next(s, Stop), acts);
    StaysStopped(Next(s, Stop), acts);
  }

  lemma {:induction false} StaysStopped(s: Pool, acts: seq<Action>)
    requires !s.running && Runs(s, acts)
    ensures !End(s, acts).running
    decreases |acts|
  {
    if acts != [] { StaysStopped(Next(s, acts[0]), acts[1..]); }
  }

  /** After Stop every step of a worker brings the workers nearer to their end,
      and no step of anyone else takes them back. */
  lemma StoppedComesNearer(s: Pool, a: Action)
    requires Inv(s) && !s.running && Enabled(s, a)
    ensures !Next(s, a).running
    ensures WorkerAction(a) ==> SumRank(Next(s, a).workers) < SumRank(s.workers)
    ensures !WorkerAction(a) ==> Next(s, a).workers == s.workers
  {
    match a
    case Check(w) => SumUpdate(s.workers, WorkerRank, w, Exited);
    case Take(w, wake) => SumUpdate(s.workers, WorkerRank, w, TakeStep(s, w, wake).workers[w]);
    case WakeWorker(w, wake) => SumUpdate(s.workers, WorkerRank, w, TakeStep(s, w, wake).workers[w]);
    case Finish(w) => SumUpdate(s.workers, WorkerRank, w, AtCheck);
    case Put(p, wake) => assert !SleepingWorker(s, wake);
    case WakeProducer(p, wake) => assert !SleepingWorker(s, wake);
    case _ =>
  }

  function WorkerSteps(acts: seq<Action>): nat {
    if acts == [] then 0 else (if WorkerAction(acts[0]) then 1 else 0) + WorkerSteps(acts[1..])
  }

  /** After Stop the workers together take at most three steps each. */
  lemma {:induction false} StoppedWorkersFinish(s: Pool, acts: seq<Action>)
    requires Inv(s) && !s.running && Runs(s, acts)
    ensures WorkerSteps(acts) + SumRank(End(s, acts).workers) <= SumRank(s.workers) <= 3 * |s.workers|
    decreases |acts|
  {
    SumBound(s.workers, WorkerRank, 3);
    if acts != [] {
      StoppedComesNearer(s, acts[0]);
      StepKeeps(s, acts[0]);
      StoppedWorkersFinish(Next(s, acts[0]), acts[1..]);
    }
  }

  /** While some worker has not returned, some worker can make its next step: so
      with the bound above the workers can only come to a halt by returning. */
  lemma StoppedCanStep(s: Pool)
    requires Inv(s) && !s.running
    ensures (exists a :: WorkerAction(a) && Enabled(s, a)) <==>
            exists i :: 0 <= i < |s.workers| && s.workers[i] != Exited
  {
    var wake := AnyProducer(s);
    if i :| 0 <= i < |s.workers| && s.workers[i] != Exited {
      var w: nat := i;
      var a :=
        if s.workers[w] == AtCheck then Check(w)
        else if s.workers[w] == AtTake then Take(w, wake)
        else if s.workers[w].Busy? then Finish(w)
        else WakeWorker(w, wake);
      assert WorkerAction(a) && Enabled(s, a);
    }
    if a :| WorkerAction(a) && Enabled(s, a) {
      assert s.workers[a.w] != Exited;
    }
  }

  /** A thread for notify_one to pick. */
  lemma AnyProducer(s: Pool) returns (wake: nat)
    ensures PicksProducer(s, wake)
  {
    wake := 0;
    if i :| 0 <= i < |s.producers| && s.producers[i].Blocked? {
      wake := i;
    }
  }

  function TakesOf(s: Pool, acts: seq<Action>, w: nat): nat
    requires Runs(s, acts)
    decreases |acts|
  {
    if acts == [] then 0
    else (if (acts[0].Take? || acts[0].WakeWorker?) && acts[0].w == w && s.tasks != [] then 1 else 0)
         + TakesOf(Next(s, acts[0]), acts[1..], w)
  }

  /** After Stop a worker takes at most one more task, and none unless it is in
      `take` or has already passed the loop condition. */
  lemma {:induction false} AtMostOneMoreTask(s: Pool, acts: seq<Action>, w: nat)
    requires Inv(s) && !s.running && Runs(s, acts) && w < |s.workers|
    ensures TakesOf(s, acts, w) <= if WorkerRank(s.workers[w]) == 3 then 1 else 0
    decreases |acts|
  {
    if acts != [] {
      StepKeeps(s, acts[0]);
      StoppedComesNearer(s, acts[0]);
      assert |Next(s, acts[0]).workers| == |s.workers|;
      AtMostOneMoreTask(Next(s, acts[0]), acts[1..], w);
    }
  }

  function TakerWeight(w: Worker): nat {
    if WorkerRank(w) == 3 then 1 else 0
  }

  /** Workers that can still take a task after Stop. */
  function CountTakers(ws: seq<Worker>): nat {
    Sum(ws, TakerWeight)
  }

  function Min(a: nat, b: nat): nat {
    if a <= b then a else b
  }

  /** After Stop a step takes only what a worker inside `take` takes; and as long
      as both tasks and such workers are left, a worker that leaves `take` has
      taken one. */
  lemma StoppedStepTakes(s: Pool, a: Action)
    requires Inv(s) && !s.running && Enabled(s, a)
    ensures
      var s' := Next(s, a);
      && |TakenInStep(s, a)| + CountTakers(s'.workers) <= CountTakers(s.workers)
      && |TakenInStep(s, a)| + Min(|s'.tasks|, CountTakers(s'.workers)) >= Min(|s.tasks|, CountTakers(s.workers))
  {
    StoppedComesNearer(s, a);
    if WorkerAction(a) {
      SumUpdate(s.workers, TakerWeight, a.w, Next(s, a).workers[a.w]);
    }
  }

  /** How much is still taken after Stop: never more than one task for each worker
      inside `take`, and, once all workers have returned, no less unless the
      queue ran empty. */
  lemma {:induction false} StopLeavesTasks(s: Pool, acts: seq<Action>)
    requires Inv(s) && !s.running && Runs(s, acts)
    ensures |TakenBy(s, acts)| <= CountTakers(s.workers) <= |s.workers|
    ensures |TakenBy(s, acts)| + Min(|End(s, acts).tasks|, CountTakers(End(s, acts).workers))
            >= Min(|s.tasks|, CountTakers(s.workers))
    ensures |End(s, acts).tasks| >= |s.tasks| - |s.workers|
    decreases |acts|
  {
    SumBound(s.workers, TakerWeight, 1);
    FirstInFirstOut(s, acts);
    assert |s.tasks + PutBy(s, acts)| == |TakenBy(s, acts) + End(s, acts).tasks|;
    if acts != [] {
      StepKeeps(s, acts[0]);
      StoppedComesNearer(s, acts[0]);
      StoppedStepTakes(s, acts[0]);
      StopLeavesTasks(Next(s, acts[0]), acts[1..]);
    }
  }

  /** Which queues Stop drains: when all workers have returned, everything that
      was queued at Stop has been taken exactly if there were no more tasks than
      workers inside `take`. */
  lemma StopDrainsExactly(s: Pool, acts: seq<Action>)
    requires Inv(s) && !s.running && Runs(s, acts)
    requires AllExited(End(s, acts))
    ensures s.tasks <= TakenBy(s, acts) <==> |s.tasks| <= CountTakers(s.workers)
  {
    var e := End(s, acts);
    StopLeavesTasks(s, acts);
    FirstInFirstOut(s, acts);
    SumPositive(e.workers, TakerWeight);
    if |s.tasks| <= |TakenBy(s, acts)| {
      var n := |s.tasks|;
      assert s.tasks == (s.tasks + PutBy(s, acts))[..n];
      assert (TakenBy(s, acts) + e.tasks)[..n] == TakenBy(s, acts)[..n];
    }
  }

  predicate AllExited(s: Pool) {
    forall i :: 0 <= i < |s.workers| ==> s.workers[i] == Exited
  }

  /** One worker, one caller: a task is put and the pool is stopped before the
      worker enters `take`; it returns and the task stays. */
  lemma StopCanLeaveTasks()
    ensures exists acts: seq<Action> :: Runs(Init(0, 1, 1), acts) &&
              var s := End(Init(0, 1, 1), acts);
              !s.running && AllExited(s) && s.tasks == [7]
  {
    var s0 := Init(0, 1, 1);
    var acts := ExtendRun(s0, [], Submit(0, 7));
    acts := ExtendRun(s0, acts, Put(0, 0));
    assert End(s0, acts) == Pool(0, true, [7], [AtCheck], [Outside]);
    acts := ExtendRun(s0, acts, Stop);
    acts := ExtendRun(s0, acts, Check(0));
    assert End(s0, acts) == Pool(0, false, [7], [Exited], [Outside]);
  }
}
