// The timer manager as the source writes it: an object whose methods splice,
// merge and erase in its list and update its flags.  Every method is shown to
// make steps of the machine in TimerSystem, so what is proved of that machine's
// runs holds of this code.

/** `TimerManager::Impl`. */
module TimerManagerImpl {
  import opened Basics
  import opened TimerList
  import opened TimerSystem
  import opened TimerInvariant
  import opened TimerShutdown
  import opened TimerClients

  predicate ClientAction(a: Action) {
    a != Work && a != Spurious
  }

  /** A run of client actions leaves the worker where it is and adds no expired timer. */
  lemma {:induction false} ClientsKeepPlace(s: Sys, acts: seq<Action>)
    requires Runs(s, acts) && forall a :: a in acts ==> ClientAction(a)
    ensures End(s, acts).place == s.place
    ensures Count(End(s, acts).list, Expired) <= Count(s.list, Expired)
    decreases |acts|
  {
    if acts != [] {
      assert acts[0] in acts;
      ClientCounts(s, acts[0], Expired);
      ClientsKeepPlace(Next(s, acts[0]), acts[1..]);
    }
  }

  /** How often the worker, in a run, starts another cycle or goes on after a wait. */
  function Turns(s: Sys, acts: seq<Action>): nat
    requires Runs(s, acts)
    decreases |acts|
  {
    if acts == [] then 0 else StepTurns(s, acts[0]) + Turns(Next(s, acts[0]), acts[1..])
  }

  function StepTurns(s: Sys, a: Action): nat {
    if !ClientAction(a) && (s.place.Rescan? || s.place.Starting? || s.place.Asleep? || s.place.LastWait?)
    then 1 else 0
  }

  lemma {:induction false} ClientsDoNotTurn(s: Sys, acts: seq<Action>)
    requires Runs(s, acts) && forall a :: a in acts ==> ClientAction(a)
    ensures Turns(s, acts) == 0
    decreases |acts|
  {
    if acts != [] {
      assert acts[0] in acts;
      ClientsDoNotTurn(Next(s, acts[0]), acts[1..]);
    }
  }

  /** Two runs one after the other. */
  lemma {:induction false} JoinRuns(s: Sys, front: seq<Action>, back: seq<Action>)
    requires Runs(s, front) && Runs(End(s, front), back)
    ensures Runs(s, front + back) && End(s, front + back) == End(End(s, front), back)
    ensures Turns(s, front + back) == Turns(s, front) + Turns(End(s, front), back)
    decreases |front|
  {
    if front == [] {
      assert front + back == back;
    } else {
      assert (front + back)[1..] == front[1..] + back;
      JoinRuns(Next(s, front[0]), front[1..], back);
    }
  }

  /** A run taken one action further. */
  lemma OneMore(s: Sys, acts: seq<Action>, a: Action) returns (more: seq<Action>)
    requires Runs(s, acts) && Enabled(End(s, acts), a)
    ensures Runs(s, more) && End(s, more) == Next(End(s, acts), a)
    ensures Turns(s, more) == Turns(s, acts) + StepTurns(End(s, acts), a)
  {
    more := acts + [a];
    assert Runs(End(s, acts), [a]);
    JoinRuns(s, acts, [a]);
  }

  class TimerManager {
    var timers: seq<Timer>      // m_timerList
    var termination: bool       // m_termination
    var notified: bool          // a notification of m_sync is pending for the waiting worker
    var clock: int              // what steady_clock::now() reads
    var nextId: nat             // identities handed out so far
    var starts: nat             // successful starts so far
    var place: Place            // where the worker thread is (its program counter)

    function View(): Sys
      reads this
    {
      Sys(timers, termination, notified, clock, nextId, starts, place)
    }

    constructor (now: int)
      ensures View() == Init(now) && Inv(View())
    {
      timers, termination, notified, clock, nextId, starts := [], false, false, now, 0, 0;
      place := Starting;
    }

    method CreateTimer(handler: bool) returns (timer: Option<nat>)
      requires LockFree(place)
      modifies this
      ensures View() == Next(old(View()), Create(handler))
      ensures timer == if old(termination) then None else Some(old(nextId))
    {
      timer := None;
      if !termination {
        timer := Some(nextId);
        timers := Merge(timers, NewTimer(nextId, handler));
        nextId := nextId + 1;
        notified := true;
      }
    }

    method DestroyTimer(id: nat)
      requires LockFree(place)
      modifies this
      ensures View() == Next(old(View()), Destroy(id))
    {
      var it := IndexOf(timers, id);
      if it != |timers| {
        timers := timers[it := timers[it].(inst := false)];
        if timers[it].access == Direct {
          timers := RemoveAt(timers, it);
          assert timers == RemoveAt(old(timers), it);
          if termination && timers == [] {
            notified := true;
          }
        } else {
          timers := timers[it := timers[it].(access := Destruct)];
        }
      }
    }

    method UpdateTimer(id: nat, duration: Duration) returns (ok: bool)
      requires LockFree(place)
      modifies this
      ensures View() == Next(old(View()), Update(id, duration))
      ensures ok == UpdateAccepted(old(View()), id, duration)
      ensures Distinct(old(timers)) ==>
                (ok <==> exists t :: t in old(timers) && t.id == id && t.access != Destruct &&
                           (duration == 0 || (t.handler && !old(termination))))
    {
      if Distinct(timers) { AcceptedExactly(View(), id, duration); }
      ok := false;
      if !termination || duration == 0 {
        var it := IndexOf(timers, id);
        if it != |timers| {
          var updated := SetDuration(timers[it], duration, clock, starts);
          if updated.Some? {
            timers := RemoveAt(timers, it);
            timers := Merge(timers, updated.value);
            if duration != 0 {
              starts := starts + 1;
              notified := true;
            }
            ok := true;
          }
        }
      }
    }

    /** The part of ~Impl that runs before the worker is joined. */
    method Terminate()
      requires LockFree(place) && !termination
      modifies this
      ensures View() == Next(old(View()), TimerSystem.Terminate)
    {
      termination := true;
      notified := true;
    }

    /** What may happen while the lock is released for a call-back: any finite
        sequence of client operations, by the call-back or by other threads,
        on any timer, and the passing of time. */
    method Unlocked() returns (ghost acts: seq<Action>)
      requires LockFree(place)
      modifies this
      ensures Runs(old(View()), acts) && View() == End(old(View()), acts)
      ensures forall a :: a in acts ==> ClientAction(a)
      ensures place == old(place)
    {
      acts := [];
      var ops: seq<Action> := *;
      for i := 0 to |ops|
        invariant Runs(old(View()), acts) && View() == End(old(View()), acts)
        invariant forall a :: a in acts ==> ClientAction(a)
        invariant place == old(place)
      {
        if ClientAction(ops[i]) && Enabled(View(), ops[i]) {
          match ops[i] {
            case Tick(to) => clock := to;
            case Create(handler) => var _ := CreateTimer(handler);
            case Update(id, duration) => var _ := UpdateTimer(id, duration);
            case Destroy(id) => DestroyTimer(id);
            case Terminate => Terminate();
            case _ =>
          }
          acts := ExtendRun(old(View()), acts, ops[i]);
        }
      }
    }

    /** The prefix scan: marks timers from the front while they are active and due. */
    method MarkDue(now: int) returns (it: nat)
      modifies this`timers
      ensures it == DuePrefix(old(timers), now)
      ensures timers == Expire(old(timers)[..it]) + old(timers)[it..]
    {
      ghost var l := timers;
      it := 0;
      while it != |timers| && timers[it].state == Active && GetDuration(timers[it], now) == 0
        invariant it <= |timers| == |l|
        invariant forall i :: 0 <= i < it ==>
            timers[i] == l[i].(state := Expired) && l[i].state == Active && GetDuration(l[i], now) == 0
        invariant forall i :: it <= i < |l| ==> timers[i] == l[i]
        decreases |timers| - it
      {
        timers := timers[it := timers[it].(state := Expired)];
        it := it + 1;
      }
      assert timers == Expire(l[..it]) + l[it..];
    }

    /** `steady_clock::now()`: some time may have passed since the last reading. */
    method Now() returns (now: int)
      modifies this`clock
      ensures old(clock) <= now == clock
    {
      now := *;
      if now < clock { now := clock; }
      clock := now;
    }

    /** One cycle of the `for` loop of `updateTimers`, up to the second reading
        of the clock; `run` says whether a timer was due, so that another cycle follows. */
    method Cycle(now: int) returns (run: bool, ghost acts: seq<Action>)
      requires Inv(View()) && place == Scan(now)
      modifies this
      ensures Runs(old(View()), acts) && View() == End(old(View()), acts)
      ensures Inv(View())
      ensures Turns(old(View()), acts) == 0
      ensures run <==> DuePrefix(old(timers), now) > 0
      ensures place == if run then Rescan else Settle(now)
    {
      WorkKeeps(View());
      run := Collect(now);
      acts := OneMore(old(View()), [], Work);
      if run {
        // 3. process all expired timers
        ghost var more := ServeExpired();
        JoinRuns(old(View()), acts, more);
        acts := acts + more;
      }
    }

    /** The first two parts of a cycle: the scan and the splice. */
    method Collect(now: int) returns (run: bool)
      requires place == Scan(now)
      modifies this
      ensures View() == WorkStep(old(View()))
      ensures run <==> DuePrefix(old(timers), now) > 0
      ensures place == if run then Drain else Settle(now)
    {
      ghost var l := timers;
      // 1. check which active timers have expired
      var it := MarkDue(now);
      run := it != 0;
      if run {
        // 2. move the expired timers to the end of the list
        timers := timers[it..] + timers[..it];
        assert timers == SpliceExpired(l, it);
        place := Drain;
      } else {
        assert timers == l;
        place := Settle(now);
      }
    }

    /** `updateTimers`, followed for at most `rounds` cycles: call-backs that take
        long and restart their timers can keep the source's loop going for ever;
        it is not done then after `rounds` cycles, each with a timer that was due.
        When it returns, the duration is what the earliest active timer has left. */
    method UpdateTimers(rounds: nat) returns (done: bool, duration: Duration, ghost acts: seq<Action>)
      requires Inv(View()) && place == Scan(clock)
      modifies this
      ensures Runs(old(View()), acts) && View() == End(old(View()), acts)
      ensures Inv(View())
      ensures done ==> place.Asleep? && place.ms == duration && place.since == clock && !notified
      ensures done ==> NextInterval(timers, clock, duration)
      ensures if done then Turns(old(View()), acts) < rounds
              else Turns(old(View()), acts) == rounds && place.Scan?
    {
      duration, done, acts := 0, false, [];
      var now := clock;
      for round := 0 to rounds
        invariant Runs(old(View()), acts) && View() == End(old(View()), acts) && Inv(View())
        invariant !done && place == Scan(now) && Turns(old(View()), acts) == round
      {
        var run;
        ghost var more;
        run, more := Cycle(now);
        JoinRuns(old(View()), acts, more);
        acts := acts + more;
        duration, more := Settled(now, run);
        JoinRuns(old(View()), acts, more);
        acts := acts + more;
        if !run { done := true; break; }
        now := clock;
      }
    }

    method ReadClock() returns (now: int, ghost acts: seq<Action>)
      requires Inv(View())
      modifies this`clock
      ensures now == clock && Inv(View())
      ensures Runs(old(View()), acts) && View() == End(old(View()), acts)
      ensures Turns(old(View()), acts) == 0
    {
      now := Now();
      StepKeeps(old(View()), Tick(now));
      acts := OneMore(old(View()), [], Tick(now));
    }

    /** The end of a cycle: the clock is read again and gives the next interval. */
    method Settled(scanned: int, run: bool) returns (duration: Duration, ghost acts: seq<Action>)
      requires Inv(View()) && place == if run then Rescan else Settle(scanned)
      modifies this
      ensures Runs(old(View()), acts) && View() == End(old(View()), acts)
      ensures Inv(View())
      ensures run ==> place == Scan(clock)
      ensures !run ==> place == Asleep(duration, scanned, clock) && !notified
      ensures !run ==> NextInterval(timers, clock, duration)
      ensures Turns(old(View()), acts) == if run then 1 else 0
    {
      var now;
      now, acts := ReadClock();
      duration := if timers == [] then 0 else GetDuration(timers[0], now);
      WorkKeeps(View());
      if run {
        place := Scan(now);
      } else {
        SleepTimeIsInterval(View());
        place := Asleep(duration, scanned, now);
        notified := false;
      }
      acts := OneMore(old(View()), acts, Work);
    }

    /** The loop over the expired timers.  It ends whatever the clients do while
        the lock is released, because none of them can make a timer expired. */
    method ServeExpired() returns (ghost acts: seq<Action>)
      requires Inv(View()) && place == Drain
      modifies this
      ensures Runs(old(View()), acts) && View() == End(old(View()), acts)
      ensures Inv(View()) && place == Rescan
      ensures Turns(old(View()), acts) == 0
    {
      acts := [];
      var it := FirstExpired(timers);
      while it != |timers|
        invariant Runs(old(View()), acts) && View() == End(old(View()), acts) && Inv(View())
        invariant place == Drain && it == FirstExpired(timers) && Turns(old(View()), acts) == 0
        decreases Count(timers, Expired)
      {
        ghost var more := ServeOne(it);
        JoinRuns(old(View()), acts, more);
        acts := acts + more;
        it := FirstExpired(timers);
      }
      WorkKeeps(View());
      place := Rescan;
      acts := OneMore(old(View()), acts, Work);
    }

    /** One expired timer is made idle and locked, called back with the lock
        released, then unlocked or erased. */
    method ServeOne(it: nat) returns (ghost acts: seq<Action>)
      requires Inv(View()) && place == Drain && it == FirstExpired(timers) && it < |timers|
      modifies this
      ensures Runs(old(View()), acts) && View() == End(old(View()), acts)
      ensures Inv(View()) && place == Drain
      ensures Turns(old(View()), acts) == 0
      ensures Count(timers, Expired) < Count(old(timers), Expired)
    {
      WorkKeeps(View());
      var id := Select(it);
      acts := OneMore(old(View()), [], Work);
      ghost var calls := CallBack(id);
      JoinRuns(old(View()), acts, calls);
      acts := acts + calls;
      WorkKeeps(View());
      Reenter(id);
      acts := OneMore(old(View()), acts, Work);
    }

    /** The timer stops being expired and is locked against destruction. */
    method Select(it: nat) returns (id: nat)
      requires place == Drain && it == FirstExpired(timers) && it < |timers|
      modifies this
      ensures View() == WorkStep(old(View()))
      ensures Count(timers, Expired) == Count(old(timers), Expired) - 1
      ensures id == old(timers)[it].id && (place == Handler(id) || place == Relock(id))
    {
      WorkCounts(View(), Expired);
      id := timers[it].id;
      timers := timers[it := timers[it].(state := Idle)];
      timers := timers[it := timers[it].(access := Locked)];
      place := if timers[it].inst && timers[it].handler then Handler(id) else Relock(id);
    }

    /** `m_lock.unlock()`, the call-back, `m_lock.lock()`, if there is a call-back. */
    method CallBack(id: nat) returns (ghost acts: seq<Action>)
      requires Inv(View()) && (place == Handler(id) || place == Relock(id))
      modifies this
      ensures Runs(old(View()), acts) && View() == End(old(View()), acts)
      ensures Inv(View()) && place == Relock(id)
      ensures Turns(old(View()), acts) == 0
      ensures Count(timers, Expired) <= Count(old(timers), Expired)
    {
      acts := [];
      if place.Handler? {
        acts := Unlocked();
        RunKeeps(old(View()), acts);
        ClientsKeepPlace(old(View()), acts);
        ClientsDoNotTurn(old(View()), acts);
        WorkKeeps(View());
        place := Relock(id);
        acts := OneMore(old(View()), acts, Work);
      }
    }

    /** With the lock held again: the timer is unlocked, or erased if it was
        destroyed in the meantime. */
    method Reenter(id: nat)
      requires place == Relock(id) && IndexOf(timers, id) < |timers|
      modifies this
      ensures View() == WorkStep(old(View()))
      ensures Count(timers, Expired) <= Count(old(timers), Expired)
      ensures place == Drain
    {
      WorkCounts(View(), Expired);
      var it := IndexOf(timers, id);
      if timers[it].access != Destruct {
        timers := timers[it := timers[it].(access := Direct)];
      } else {
        timers := RemoveAt(timers, it);
      }
      place := Drain;
    }

    /** Acquiring the lock at the start of the thread, or waiting on `m_sync`:
        clients go on meanwhile, then the worker is back, notified, after its
        time-out or without cause, and looks at the condition of its loop. */
    method Resume() returns (ghost acts: seq<Action>)
      requires Inv(View()) && (place.Starting? || place.Asleep? || place.LastWait?)
      modifies this
      ensures Runs(old(View()), acts) && View() == End(old(View()), acts)
      ensures Inv(View())
      ensures place == Scan(clock) || place.LastWait? || place.Gone?
      ensures Turns(old(View()), acts) == 1
    {
      ghost var s := View();
      acts := Unlocked();
      RunKeeps(s, acts);
      ClientsDoNotTurn(s, acts);
      WorkKeeps(View());
      ghost var wake := if CanWork(View()) then Work else Spurious;
      if !place.LastWait? && !termination {
        place := Scan(clock);
      } else if timers == [] {
        place := Gone;
      } else {
        place := LastWait;
        notified := false;
      }
      acts := OneMore(s, acts, wake);
    }

    /** `workThread`, followed for at most `rounds` waits, each `updateTimers` for
        at most `cycles` cycles; it stops early only by returning, and then the
        list is empty. */
    method WorkThread(rounds: nat, cycles: nat) returns (ghost acts: seq<Action>)
      requires Inv(View()) && place == Starting
      modifies this
      ensures Runs(old(View()), acts) && View() == End(old(View()), acts)
      ensures Inv(View())
      ensures place == Gone ==> termination && timers == []
      ensures place == Gone || Turns(old(View()), acts) > rounds ||
              (place.Scan? && Turns(old(View()), acts) > cycles)
    {
      ghost var s := View();
      acts := Resume();
      for round := 0 to rounds
        invariant Runs(s, acts) && View() == End(s, acts) && Inv(View())
        invariant place == Scan(clock) || place.LastWait? || place.Gone?
        invariant place == Gone || Turns(s, acts) > round
      {
        ghost var more;
        if place.Gone? { return; }
        if !place.LastWait? {
          var done, duration;
          done, duration, more := UpdateTimers(cycles);
          JoinRuns(s, acts, more);
          acts := acts + more;
          if !done { return; }
        }
        more := Resume();
        JoinRuns(s, acts, more);
        acts := acts + more;
      }
    }
  }
}
