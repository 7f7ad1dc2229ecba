// What the pool gets done while it runs: queued tasks are taken after a bounded
// number of worker steps, each is run by the worker that took it, and what a
// caller submits is what it puts.

/** Progress of a running pool, and the tasks of single threads. */
module PoolProgress {
  import opened Basics
  import opened PoolMonitor

  // ----- queued tasks are taken -----

  /** Steps a worker can make before it is in `take`. */
  function Far(w: Worker): nat {
    match w
    case Busy(_) => 2
    case AtCheck => 1
    case _ => 0
  }

  function SumFar(s: Pool): nat {
    Sum(s.workers, Far)
  }

  /** With tasks queued, a step of a worker takes one or brings the worker nearer
      to `take`; no one else's step takes the workers back. */
  lemma RunningComesNearer(s: Pool, a: Action)
    requires Inv(s) && Enabled(s, a) && s.running && s.tasks != []
    ensures WorkerAction(a) && TakenInStep(s, a) == [] ==> SumFar(Next(s, a)) < SumFar(s)
    ensures WorkerAction(a) && TakenInStep(s, a) != [] ==> SumFar(Next(s, a)) == SumFar(s) + 2
    ensures !WorkerAction(a) ==> TakenInStep(s, a) == [] && SumFar(Next(s, a)) == SumFar(s)
  {
    var s' := Next(s, a);
    match a
    case Check(w) => SumUpdate(s.workers, Far, w, s'.workers[w]);
    case Take(w, wake) => SumUpdate(s.workers, Far, w, s'.workers[w]);
    case WakeWorker(w, wake) => SumUpdate(s.workers, Far, w, s'.workers[w]);
    case Finish(w) => SumUpdate(s.workers, Far, w, s'.workers[w]);
    case Put(p, wake) => NotifyKeepsFar(s, wake);
    case WakeProducer(p, wake) => NotifyKeepsFar(s, wake);
    case Submit(_, _) =>
    case Stop => NotifyAllKeepsFar(s.workers);
  }

  lemma NotifyKeepsFar(s: Pool, wake: nat)
    ensures SumFar(NotifyWorker(s, wake)) == SumFar(s)
  {
    if SleepingWorker(s, wake) { SumUpdate(s.workers, Far, wake, Signalled); }
  }

  lemma {:induction false} NotifyAllKeepsFar(ws: seq<Worker>)
    ensures Sum(NotifyAll(ws), Far) == Sum(ws, Far)
  {
    if ws != [] {
      assert NotifyAll(ws)[1..] == NotifyAll(ws[1..]);
      NotifyAllKeepsFar(ws[1..]);
    }
  }

  lemma {:induction false} Throughput(s: Pool, acts: seq<Action>)
    requires Inv(s) && Runs(s, acts) && End(s, acts).running
    requires |TakenBy(s, acts)| < |s.tasks|
    ensures WorkerSteps(acts) + SumFar(End(s, acts)) <= SumFar(s) + 3 * |TakenBy(s, acts)|
    decreases |acts|
  {
    if acts != [] {
      var a := acts[0];
      if !s.running { StaysStopped(s, acts); }
      StepKeeps(s, a);
      RunningComesNearer(s, a);
      StepIsFifo(s, a);
      assert |s.tasks + PutInStep(s, a)| == |TakenInStep(s, a) + Next(s, a).tasks|;
      Throughput(Next(s, a), acts[1..]);
    }
  }

  /** While the pool runs, the first k + 1 queued tasks are taken, in order, within
      three worker steps for each of them but the first and two for every worker,
      and one more, in every interleaving. */
  lemma QueuedAreTaken(s: Pool, acts: seq<Action>, k: nat)
    requires Inv(s) && Runs(s, acts) && End(s, acts).running && k < |s.tasks|
    requires WorkerSteps(acts) > 2 * |s.workers| + 3 * k
    ensures s.tasks[..k + 1] <= TakenBy(s, acts)
  {
    SumBound(s.workers, Far, 2);
    if |TakenBy(s, acts)| <= k { Throughput(s, acts); }
    FirstInFirstOut(s, acts);
    assert s.tasks[..k + 1] == (s.tasks + PutBy(s, acts))[..k + 1];
    assert (TakenBy(s, acts) + End(s, acts).tasks)[..k + 1] == TakenBy(s, acts)[..k + 1];
  }

  /** And there is always a worker to make the next step: one that does not sleep,
      or was notified. */
  lemma RunningCanStep(s: Pool)
    requires Inv(s) && s.running && s.tasks != [] && s.workers != []
    ensures exists a :: WorkerAction(a) && Enabled(s, a) && s.workers[a.w] != Asleep
  {
    SumPositive(s.workers, SignalWeight);
    if SomeAsleep(s) {
      var i: nat :| i < |s.workers| && SignalWeight(s.workers[i]) > 0;
      StepOf(s, i);
    } else {
      assert s.workers[0] != Asleep;
      StepOf(s, 0);
    }
  }

  lemma StepOf(s: Pool, w: nat)
    requires Inv(s) && s.running && w < |s.workers| && s.workers[w] != Asleep
    ensures exists a :: WorkerAction(a) && Enabled(s, a) && s.workers[a.w] != Asleep
  {
    var wake := AnyProducer(s);
    var a :=
      if s.workers[w] == AtCheck then Check(w)
      else if s.workers[w] == AtTake then Take(w, wake)
      else if s.workers[w].Busy? then Finish(w)
      else WakeWorker(w, wake);
    assert WorkerAction(a) && Enabled(s, a) && a.w == w;
  }

  // ----- what a worker takes is what it runs -----

  function InHand(w: Worker): seq<Task> {
    if w.Busy? then [w.task] else []
  }

  function TakenInStepBy(s: Pool, a: Action, w: nat): seq<Task>
    requires Enabled(s, a)
  {
    if (a.Take? || a.WakeWorker?) && a.w == w then TakenInStep(s, a) else []
  }

  function RunInStepBy(s: Pool, a: Action, w: nat): seq<Task>
    requires Enabled(s, a)
  {
    if a == Finish(w) then [s.workers[w].task] else []
  }

  /** The tasks worker `w` takes in a run, and those it has run to their end. */
  function TakenByWorker(s: Pool, acts: seq<Action>, w: nat): seq<Task>
    requires Runs(s, acts)
    decreases |acts|
  {
    if acts == [] then [] else TakenInStepBy(s, acts[0], w) + TakenByWorker(Next(s, acts[0]), acts[1..], w)
  }

  function RunByWorker(s: Pool, acts: seq<Action>, w: nat): seq<Task>
    requires Runs(s, acts)
    decreases |acts|
  {
    if acts == [] then [] else RunInStepBy(s, acts[0], w) + RunByWorker(Next(s, acts[0]), acts[1..], w)
  }

  lemma WorkerStep(s: Pool, a: Action, w: nat)
    requires Enabled(s, a) && w < |s.workers|
    ensures |Next(s, a).workers| == |s.workers|
    ensures InHand(s.workers[w]) + TakenInStepBy(s, a, w) ==
            RunInStepBy(s, a, w) + InHand(Next(s, a).workers[w])
  {
    match a
    case Put(p, wake) =>
    case WakeProducer(p, wake) =>
    case Take(v, wake) =>
    case WakeWorker(v, wake) =>
    case _ =>
  }

  /** Every worker runs exactly the tasks it takes, each once and in that order. */
  lemma {:induction false} WorkerRunsWhatItTakes(s: Pool, acts: seq<Action>, w: nat)
    requires Runs(s, acts) && w < |s.workers|
    ensures |End(s, acts).workers| == |s.workers|
    ensures InHand(s.workers[w]) + TakenByWorker(s, acts, w) ==
            RunByWorker(s, acts, w) + InHand(End(s, acts).workers[w])
    decreases |acts|
  {
    if acts == [] {
      EmptyAppend(InHand(s.workers[w]));
    } else {
      var a, rest := acts[0], acts[1..];
      var t := Next(s, a);
      WorkerStep(s, a, w);
      WorkerRunsWhatItTakes(t, rest, w);
      ChainQueues(InHand(s.workers[w]), TakenInStepBy(s, a, w), RunInStepBy(s, a, w), InHand(t.workers[w]),
        TakenByWorker(t, rest, w), RunByWorker(t, rest, w), InHand(End(t, rest).workers[w]));
    }
  }

  function LoopWeight(w: Worker): nat {
    if w == AtCheck then 1 else 0
  }

  /** How often worker `w` looks at the loop condition. */
  function Rounds(acts: seq<Action>, w: nat): nat {
    if acts == [] then 0 else (if acts[0] == Check(w) then 1 else 0) + Rounds(acts[1..], w)
  }

  /** How often its `take` finds the pool stopped and the queue empty. */
  function EmptyHanded(s: Pool, acts: seq<Action>, w: nat): nat
    requires Runs(s, acts)
    decreases |acts|
  {
    if acts == [] then 0
    else
      (if (acts[0].Take? || acts[0].WakeWorker?) && acts[0].w == w && s.tasks == [] && !s.running
       then 1 else 0) + EmptyHanded(Next(s, acts[0]), acts[1..], w)
  }

  /** Every round of a worker's loop runs one task, or ends with an empty `take` of a
      stopped pool: while the pool runs `take` does not return without a task. */
  lemma {:induction false} EveryRoundRunsATask(s: Pool, acts: seq<Action>, w: nat)
    requires Runs(s, acts) && w < |s.workers|
    ensures |End(s, acts).workers| == |s.workers|
    ensures Rounds(acts, w) + LoopWeight(End(s, acts).workers[w]) ==
            |RunByWorker(s, acts, w)| + EmptyHanded(s, acts, w) + LoopWeight(s.workers[w])
    ensures End(s, acts).running ==> EmptyHanded(s, acts, w) == 0
    decreases |acts|
  {
    if acts != [] {
      if !s.running { StaysStopped(s, acts); }
      WorkerStep(s, acts[0], w);
      EveryRoundRunsATask(Next(s, acts[0]), acts[1..], w);
    }
  }

  // ----- what a caller submits is what it puts -----

  function Waiting(p: Producer): seq<Task> {
    if p == Outside then [] else [p.task]
  }

  function SubmittedInStep(a: Action, p: nat): seq<Task> {
    if a.Submit? && a.p == p then [a.task] else []
  }

  function PutInStepBy(s: Pool, a: Action, p: nat): seq<Task>
    requires Enabled(s, a)
  {
    if (a.Put? || a.WakeProducer?) && a.p == p then PutInStep(s, a) else []
  }

  function Submitted(acts: seq<Action>, p: nat): seq<Task> {
    if acts == [] then [] else SubmittedInStep(acts[0], p) + Submitted(acts[1..], p)
  }

  function PutByCaller(s: Pool, acts: seq<Action>, p: nat): seq<Task>
    requires Runs(s, acts)
    decreases |acts|
  {
    if acts == [] then [] else PutInStepBy(s, acts[0], p) + PutByCaller(Next(s, acts[0]), acts[1..], p)
  }

  lemma CallerStep(s: Pool, a: Action, p: nat)
    requires Enabled(s, a) && s.workers != [] && p < |s.producers|
    ensures |Next(s, a).producers| == |s.producers| && Next(s, a).workers != []
    ensures Waiting(s.producers[p]) + SubmittedInStep(a, p) ==
            PutInStepBy(s, a, p) + Waiting(Next(s, a).producers[p])
  {
    match a
    case Put(q, wake) =>
    case WakeProducer(q, wake) =>
    case Take(w, wake) =>
    case WakeWorker(w, wake) =>
    case Submit(q, task) =>
    case _ =>
  }

  /** Every caller of `Run` puts exactly the tasks it is called with, each once and
      in that order, however often it waits for room; a stop changes nothing. */
  lemma {:induction false} CallerPutsWhatItSubmits(s: Pool, acts: seq<Action>, p: nat)
    requires Runs(s, acts) && s.workers != [] && p < |s.producers|
    ensures |End(s, acts).producers| == |s.producers|
    ensures Waiting(s.producers[p]) + Submitted(acts, p) ==
            PutByCaller(s, acts, p) + Waiting(End(s, acts).producers[p])
    decreases |acts|
  {
    if acts == [] {
      EmptyAppend(Waiting(s.producers[p]));
    } else {
      var a, rest := acts[0], acts[1..];
      var t := Next(s, a);
      CallerStep(s, a, p);
      CallerPutsWhatItSubmits(t, rest, p);
      ChainQueues(Waiting(s.producers[p]), SubmittedInStep(a, p), PutInStepBy(s, a, p), Waiting(t.producers[p]),
        Submitted(rest, p), PutByCaller(t, rest, p), Waiting(End(t, rest).producers[p]));
    }
  }

  /** A caller that has come to the monitor, or was notified, can make its step; with
      room in the queue the step puts its task and the caller is done. */
  lemma CallerCanStep(s: Pool, p: nat)
    requires p < |s.producers| && (s.producers[p].AtPut? || s.producers[p].Roused?)
    ensures exists a: Action :: (a.Put? || a.WakeProducer?) && a.p == p && Enabled(s, a) &&
              (!Full(s) ==> Next(s, a).tasks == s.tasks + [s.producers[p].task] && Next(s, a).producers[p] == Outside)
  {
    var wake := AnyWorker(s);
    var a := if s.producers[p].AtPut? then Put(p, wake) else WakeProducer(p, wake);
    assert Enabled(s, a) && a.p == p;
  }

  lemma AnyWorker(s: Pool) returns (wake: nat)
    ensures PicksWorker(s, wake)
  {
    wake := 0;
    if i :| 0 <= i < |s.workers| && s.workers[i] == Asleep {
      wake := i;
    }
  }
}
