// The thread pool and the bounded queue as objects whose methods run inside the
// monitor, each shown to be a step of the machine in PoolMonitor.

/** `ThreadPool` and `Queue`. */
module ThreadPools {
  import opened Basics
  import opened PoolMonitor

  class ThreadPool {
    const capacity: nat              // m_capacity
    var isRunning: bool              // m_isRunning
    var tasks: seq<Task>             // m_tasks
    var workers: seq<Worker>         // where the threads of m_threads are
    var producers: seq<Producer>     // where the callers of Run are

    function View(): Pool
      reads this
    {
      Pool(capacity, isRunning, tasks, workers, producers)
    }

    constructor (cap: nat, callers: nat)
      ensures View() == Init(cap, 0, callers).(running := false)
    {
      capacity := cap;
      isRunning, tasks, workers := false, [], [];
      producers := seq(callers, _ => Outside);
    }

    method Start(threads: nat)
      requires workers == [] && tasks == []
      requires forall i :: 0 <= i < |producers| ==> producers[i] == Outside
      modifies this
      ensures View() == Init(capacity, threads, |old(producers)|) && Inv(View())
    {
      isRunning := true;
      workers := seq(threads, _ => AtCheck);
      assert producers == seq(|producers|, _ => Outside);
      InitOk(capacity, threads, |producers|);
    }

    method Stop()
      requires Inv(View())
      modifies this
      ensures View() == Next(old(View()), PoolMonitor.Stop) && Inv(View())
      ensures !SomeAsleep(View())
    {
      StepKeeps(View(), PoolMonitor.Stop);
      isRunning := false;
      NotifyAllWorkers();
    }

    /** `m_condPush.notify_all()` */
    method NotifyAllWorkers()
      modifies this`workers
      ensures workers == NotifyAll(old(workers))
    {
      var i := 0;
      ghost var before := workers;
      while i < |workers|
        invariant 0 <= i <= |workers| == |before|
        invariant forall j :: 0 <= j < i ==> workers[j] == if before[j] == Asleep then Signalled else before[j]
        invariant forall j :: i <= j < |workers| ==> workers[j] == before[j]
      {
        if workers[i] == Asleep {
          workers := workers[i := Signalled];
        }
        i := i + 1;
      }
    }

    /** One pass through `take` by worker `w`, from holding the mutex until it
        waits again or returns a task, or none. */
    method Take(w: nat, wake: nat) returns (task: Option<Task>)
      requires Inv(View())
      requires Enabled(View(), PoolMonitor.Take(w, wake)) || Enabled(View(), WakeWorker(w, wake))
      modifies this
      ensures View() == TakeStep(old(View()), w, wake) && Inv(View())
      ensures task == if old(tasks) == [] then None else Some(old(tasks)[0])
      ensures task.Some? <==> workers[w].Busy?
    {
      TakeKeeps(View(), w, wake);
      task := None;
      if tasks == [] && isRunning {
        workers := workers[w := Asleep];
      } else if tasks != [] {
        task := Some(tasks[0]);
        tasks := tasks[1..];
        workers := workers[w := Busy(task.value)];
        if capacity > 0 && wake < |producers| && producers[wake].Blocked? {
          producers := producers[wake := Roused(producers[wake].task)];
        }
      } else {
        workers := workers[w := AtCheck];
      }
    }

    /** The beginning of `Run`: without worker threads the task is run at once by its
        caller and the pool is left alone. */
    method Submit(p: nat, task: Task) returns (atOnce: bool)
      requires Inv(View()) && Enabled(View(), PoolMonitor.Submit(p, task))
      modifies this
      ensures View() == Next(old(View()), PoolMonitor.Submit(p, task)) && Inv(View())
      ensures atOnce <==> workers == []
      ensures if atOnce then View() == old(View()) else producers[p] == AtPut(task)
    {
      StepKeeps(View(), PoolMonitor.Submit(p, task));
      atOnce := workers == [];
      if !atOnce {
        producers := producers[p := AtPut(task)];
      }
    }

    /** One pass through the monitor part of `Run` by caller `p`: it waits while
        the queue is full, or puts its task and notifies one worker. */
    method Put(p: nat, wake: nat) returns (done: bool)
      requires Inv(View())
      requires Enabled(View(), PoolMonitor.Put(p, wake)) || Enabled(View(), WakeProducer(p, wake))
      modifies this
      ensures View() == PutStep(old(View()), p, old(producers)[p].task, wake) && Inv(View())
      ensures done <==> !(capacity > 0 && |old(tasks)| >= capacity)
      ensures tasks == if done then old(tasks) + [old(producers)[p].task] else old(tasks)
    {
      PutKeeps(View(), p, producers[p].task, wake);
      var task := producers[p].task;
      if capacity > 0 && |tasks| >= capacity {
        done := false;
        producers := producers[p := Blocked(task)];
      } else {
        done := true;
        tasks := tasks + [task];
        producers := producers[p := Outside];
        if wake < |workers| && workers[wake] == Asleep {
          workers := workers[wake := Signalled];
        }
      }
    }
  }

  /** The bounded queue: the same monitor, never stopped.  Threads in `Pop` are
      the takers, threads in `Push` the putters. */
  class Queue {
    const capacity: nat              // m_capacity, 0 for unlimited
    var queue: seq<Task>             // m_queue
    var poppers: seq<Worker>
    var pushers: seq<Producer>

    function View(): Pool
      reads this
    {
      Pool(capacity, true, queue, poppers, pushers)
    }

    constructor (cap: nat, takers: nat, putters: nat)
      ensures View() == Init(cap, takers, putters) && Inv(View())
    {
      capacity := cap;
      queue := [];
      poppers := seq(takers, _ => AtCheck);
      pushers := seq(putters, _ => Outside);
      new;
      InitOk(cap, takers, putters);
    }

    /** `Pop` notifies a putter even if the capacity is unlimited; then none is
        waiting, so this is the same step as the pool's `take`. */
    method Pop(w: nat, wake: nat) returns (value: Option<Task>)
      requires Inv(View())
      requires Enabled(View(), PoolMonitor.Take(w, wake)) || Enabled(View(), WakeWorker(w, wake))
      modifies this
      ensures View() == TakeStep(old(View()), w, wake) && Inv(View())
      ensures value == if old(queue) == [] then None else Some(old(queue)[0])
    {
      TakeKeeps(View(), w, wake);
      value := None;
      if queue == [] {
        poppers := poppers[w := Asleep];
      } else {
        value := Some(queue[0]);
        queue := queue[1..];
        poppers := poppers[w := Busy(value.value)];
        if wake < |pushers| && pushers[wake].Blocked? {
          assert SomeBlocked(old(View()));
          pushers := pushers[wake := Roused(pushers[wake].task)];
        }
      }
    }

    method Push(p: nat, wake: nat) returns (done: bool)
      requires Inv(View())
      requires Enabled(View(), PoolMonitor.Put(p, wake)) || Enabled(View(), WakeProducer(p, wake))
      modifies this
      ensures View() == PutStep(old(View()), p, old(pushers)[p].task, wake) && Inv(View())
      ensures done <==> !(capacity > 0 && |old(queue)| >= capacity)
      ensures queue == if done then old(queue) + [old(pushers)[p].task] else old(queue)
    {
      PutKeeps(View(), p, pushers[p].task, wake);
      var value := pushers[p].task;
      if capacity > 0 && |queue| >= capacity {
        done := false;
        pushers := pushers[p := Blocked(value)];
      } else {
        done := true;
        queue := queue + [value];
        pushers := pushers[p := Outside];
        if wake < |poppers| && poppers[wake] == Asleep {
          poppers := poppers[wake := Signalled];
        }
      }
    }
  }
}
