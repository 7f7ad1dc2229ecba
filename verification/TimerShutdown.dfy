// What the timer manager does once its termination flag is set: how many steps
// the worker still takes, and when its last wait is never ended.

/** Termination of the worker and the shutdown of the timer manager. */
module TimerShutdown {
  import opened TimerList
  import opened TimerSystem
  import opened TimerInvariant

  // ----- counting -----

  function Count(l: seq<Timer>, state: State): nat {
    if l == [] then 0 else (if l[0].state == state then 1 else 0) + Count(l[1..], state)
  }

  lemma {:induction false} CountAppend(a: seq<Timer>, b: seq<Timer>, state: State)
    ensures Count(a + b, state) == Count(a, state) + Count(b, state)
  {
    if a == [] {
      assert a + b == b;
    } else {
      assert (a + b)[1..] == a[1..] + b;
      CountAppend(a[1..], b, state);
    }
  }

  lemma CountInsert(l: seq<Timer>, p: nat, x: Timer, state: State)
    requires p <= |l|
    ensures Count(InsertAt(l, p, x), state) == Count(l, state) + (if x.state == state then 1 else 0)
  {
    CountAppend(l[..p] + [x], l[p..], state);
    CountAppend(l[..p], [x], state);
    CountAppend(l[..p], l[p..], state);
    assert l == l[..p] + l[p..];
  }

  lemma CountRemove(l: seq<Timer>, k: nat, state: State)
    requires k < |l|
    ensures Count(RemoveAt(l, k), state) == Count(l, state) - (if l[k].state == state then 1 else 0)
  {
    CountInsert(RemoveAt(l, k), k, l[k], state);
    assert InsertAt(RemoveAt(l, k), k, l[k]) == l;
  }

  lemma CountUpdate(l: seq<Timer>, k: nat, t: Timer, state: State)
    requires k < |l|
    ensures Count(l[k := t], state) ==
            Count(l, state) - (if l[k].state == state then 1 else 0) + (if t.state == state then 1 else 0)
  {
    CountRemove(l, k, state);
    CountInsert(RemoveAt(l, k), k, t, state);
    assert InsertAt(RemoveAt(l, k), k, t) == l[k := t];
  }

  lemma {:induction false} CountAll(l: seq<Timer>, state: State, other: State)
    requires forall t :: t in l ==> t.state == state
    ensures Count(l, other) == if state == other then |l| else 0
  {
    if l != [] {
      assert l[0] in l;
      CountAll(l[1..], state, other);
    }
  }

  lemma CountSplice(l: seq<Timer>, k: nat)
    requires k <= |l|
    requires forall i :: 0 <= i < k ==> l[i].state == Active
    ensures Count(SpliceExpired(l, k), Active) == Count(l, Active) - k
    ensures Count(SpliceExpired(l, k), Expired) == Count(l, Expired) + k
  {
    assert l == l[..k] + l[k..];
    forall state: State
      ensures Count(l, state) == Count(l[..k], state) + Count(l[k..], state)
      ensures Count(SpliceExpired(l, k), state) == Count(l[k..], state) + Count(Expire(l[..k]), state)
    {
      CountAppend(l[..k], l[k..], state);
      CountAppend(l[k..], Expire(l[..k]), state);
    }
    CountAll(l[..k], Active, Active);
    CountAll(l[..k], Active, Expired);
    CountAll(Expire(l[..k]), Expired, Expired);
    CountAll(Expire(l[..k]), Expired, Active);
  }

  // ----- the worker comes to an end -----

  lemma UpdateCounts(s: Sys, id: nat, duration: Duration, state: State)
    requires state == Expired || (state == Active && s.termination)
    ensures Count(UpdateTimer(s, id, duration).list, state) <= Count(s.list, state)
  {
    if UpdateAccepted(s, id, duration) {
      var k := IndexOf(s.list, id);
      var t := SetDuration(s.list[k], duration, s.clock, s.starts).value;
      var rest := RemoveAt(s.list, k);
      CountRemove(s.list, k, state);
      CountInsert(rest, MergePos(rest, t), t, state);
    }
  }

  lemma DestroyCounts(s: Sys, id: nat, state: State)
    ensures Count(DestroyTimer(s, id).list, state) <= Count(s.list, state)
  {
    var k := IndexOf(s.list, id);
    if k < |s.list| {
      CountRemove(s.list, k, state);
      CountUpdate(s.list, k, s.list[k].(inst := false, access := Destruct), state);
    }
  }

  /** No client operation makes a timer expired; with the flag set none makes one active. */
  lemma ClientCounts(s: Sys, a: Action, state: State)
    requires Enabled(s, a) && a != Work && a != Spurious
    requires state == Expired || (state == Active && s.termination)
    ensures Count(Next(s, a).list, state) <= Count(s.list, state)
  {
    match a
    case Create(handler) =>
      var x := NewTimer(s.nextId, handler);
      CountInsert(s.list, MergePos(s.list, x), x, state);
    case Update(id, duration) => UpdateCounts(s, id, duration, state);
    case Destroy(id) => DestroyCounts(s, id, state);
    case _ =>
  }

  /** Outside the scan the worker makes no timer active or expired, and every
      round of the loop over the expired timers leaves one fewer of them. */
  lemma WorkCounts(s: Sys, state: State)
    requires !s.place.Scan? && !s.place.Gone? && state != Idle
    ensures Count(WorkStep(s).list, state) <= Count(s.list, state)
    ensures state == Expired && s.place.Drain? && FirstExpired(s.list) < |s.list| ==>
              Count(WorkStep(s).list, state) == Count(s.list, state) - 1
  {
    match s.place
    case Drain =>
      var k := FirstExpired(s.list);
      if k < |s.list| {
        CountUpdate(s.list, k, s.list[k].(state := Idle, access := Locked), state);
      }
    case Relock(id) =>
      var k := IndexOf(s.list, id);
      if k < |s.list| {
        CountRemove(s.list, k, state);
        CountUpdate(s.list, k, s.list[k].(access := Direct), state);
      }
    case _ =>
  }

  function PlaceRank(p: Place): nat {
    match p
    case Handler(_) => 8
    case Relock(_) => 7
    case Drain => 6
    case Rescan => 5
    case Scan(_) => 4
    case Settle(_) => 3
    case Asleep(_, _, _) => 2
    case Starting => 2
    case LastWait => 0
    case Gone => 0
  }

  /** An upper bound on the steps left to the worker before its last wait. */
  function Rank(s: Sys): nat {
    10 * Count(s.list, Active) + 5 * Count(s.list, Expired) + PlaceRank(s.place)
  }

  /** With the flag set, clients cannot give the worker more to do. */
  lemma ClientsDoNotDelay(s: Sys, a: Action)
    requires Enabled(s, a) && s.termination && a != Work && a != Spurious
    ensures Next(s, a).termination && Rank(Next(s, a)) <= Rank(s)
  {
    ClientCounts(s, a, Active);
    ClientCounts(s, a, Expired);
  }

  /** With the flag set, every step of the worker brings it nearer to its last wait. */
  lemma WorkComesNearer(s: Sys)
    requires s.termination && !s.place.LastWait? && !s.place.Gone?
    ensures WorkStep(s).termination && Rank(WorkStep(s)) < Rank(s)
  {
    if s.place.Scan? {
      var k := DuePrefix(s.list, s.place.now);
      if k > 0 { CountSplice(s.list, k); }
    } else {
      WorkCounts(s, Active);
      WorkCounts(s, Expired);
    }
  }

  function WorkCount(acts: seq<Action>): nat {
    if acts == [] then 0
    else (if acts[0] == Work || acts[0] == Spurious then 1 else 0) + WorkCount(acts[1..])
  }

  /** Once the flag is set the worker is in its last wait, or gone, after at
      most Rank(s) of its own steps, however the clients interleave. */
  lemma {:induction false} WorkerFinishes(s: Sys, acts: seq<Action>)
    requires Runs(s, acts) && s.termination
    requires WorkCount(acts) >= Rank(s)
    ensures End(s, acts).place.LastWait? || End(s, acts).place.Gone?
    decreases |acts|
  {
    if s.place.LastWait? || s.place.Gone? {
      StaysFinished(s, acts);
    } else if acts != [] {
      var a := acts[0];
      if a == Work || a == Spurious {
        WorkComesNearer(s);
      } else {
        ClientsDoNotDelay(s, a);
      }
      WorkerFinishes(Next(s, a), acts[1..]);
    }
  }

  lemma {:induction false} StaysFinished(s: Sys, acts: seq<Action>)
    requires Runs(s, acts) && (s.place.LastWait? || s.place.Gone?)
    ensures End(s, acts).place.LastWait? || End(s, acts).place.Gone?
    decreases |acts|
  {
    if acts != [] {
      StaysFinished(Next(s, acts[0]), acts[1..]);
    }
  }

  // ----- the wake-up at shutdown -----

  /** The worker waits without a time-out, un-notified, although the flag is set
      and there is no timer left whose destruction would notify it. */
  predicate Stranded(s: Sys) {
    s.termination && s.list == [] && s.place.Asleep? && s.place.ms == 0 && !s.notified
  }

  /** Nothing but a spurious wake-up ends that wait: the join in ~Impl never returns. */
  lemma StrandedForGood(s: Sys, a: Action)
    requires Stranded(s) && Enabled(s, a) && a != Spurious
    ensures Stranded(Next(s, a))
  {
  }

  /** The one way into that wait: `updateTimers` returns, with the flag already
      set and the list empty, and `workThread` waits without looking at the flag. */
  lemma StrandedExactly(s: Sys, a: Action)
    requires Inv(s) && Enabled(s, a) && !Stranded(s)
    ensures Stranded(Next(s, a)) <==>
            s.place.Settle? && s.termination && s.list == [] && (a == Work || a == Spurious)
  {
    if a.Destroy? && s.termination {
      var k := IndexOf(s.list, a.id);
      if k < |s.list| && s.place.Asleep? { assert TimerOk(s, s.list[k]); }
    }
    if a.Update? && UpdateAccepted(s, a.id, a.duration) {
      assert |Next(s, a).list| == |s.list|;
    }
  }

  /** The flag was raised at a point where the worker has yet to look at it. */
  predicate FlagSeen(s: Sys) {
    s.termination ==>
      || s.place.Starting? || s.place.LastWait? || s.place.Gone?
      || (s.place.Asleep? && s.notified)
  }

  predicate QuietTerminate(s: Sys, acts: seq<Action>)
    requires Runs(s, acts)
    decreases |acts|
  {
    acts == [] ||
    ((acts[0] == Terminate ==> !s.place.Handler?) && QuietTerminate(Next(s, acts[0]), acts[1..]))
  }

  /** If the manager is destroyed while no call-back is running, the worker
      always sees the flag: it is never asleep un-notified with the flag set. */
  lemma {:induction false} QuietShutdownIsSeen(s: Sys, acts: seq<Action>)
    requires Runs(s, acts) && QuietTerminate(s, acts) && FlagSeen(s)
    ensures FlagSeen(End(s, acts)) && !Stranded(End(s, acts))
    decreases |acts|
  {
    if acts != [] {
      QuietShutdownIsSeen(Next(s, acts[0]), acts[1..]);
    }
  }

  /** Once the flag is set it is not raised again. */
  lemma {:induction false} TerminatedIsQuiet(s: Sys, acts: seq<Action>)
    requires Runs(s, acts) && s.termination
    ensures QuietTerminate(s, acts)
    decreases |acts|
  {
    if acts != [] {
      TerminatedIsQuiet(Next(s, acts[0]), acts[1..]);
    }
  }

  /** During a call-back the clients can destroy every timer; the one being
      served stays in the list until the worker is back. */
  lemma {:induction false} ClientsDestroyAll(s: Sys) returns (acts: seq<Action>)
    requires Inv(s) && s.place.Handler? && s.termination
    ensures Runs(s, acts)
    ensures
      var e := End(s, acts);
      && e.place == s.place && e.termination
      && |e.list| == 1 && e.list[0].id == s.place.id && e.list[0].access == Destruct
    decreases |s.list|
  {
    var served := IndexOf(s.list, s.place.id);
    if |s.list| == 1 {
      acts := ExtendRun(s, [], Destroy(s.place.id));
      assert TimerOk(s, s.list[0]);
    } else {
      var k := if served == 0 then 1 else 0;
      assert TimerOk(s, s.list[k]);
      LookupAt(s.list, k);
      var s' := Next(s, Destroy(s.list[k].id));
      DestroyKeeps(s, s.list[k].id);
      var rest := ClientsDestroyAll(s');
      acts := [Destroy(s.list[k].id)] + rest;
      assert acts[1..] == rest;
    }
  }

  /** With the served timer alone in the list and marked, the worker erases it
      and strands. */
  lemma LastOneStrands(s: Sys) returns (acts: seq<Action>)
    requires s.place.Handler? && s.termination
    requires |s.list| == 1 && s.list[0].id == s.place.id && s.list[0].access == Destruct
    ensures Runs(s, acts) && Stranded(End(s, acts))
  {
    acts := ExtendRun(s, [], Work);
    acts := ExtendRun(s, acts, Work);
    assert End(s, acts).list == [] && End(s, acts).place == Drain;
    acts := ExtendRun(s, acts, Work);
    acts := ExtendRun(s, acts, Work);
    acts := ExtendRun(s, acts, Work);
    acts := ExtendRun(s, acts, Work);
  }

  /** At the moment the manager is destroyed: its shutdown can hang exactly if a
      call-back is running. */
  lemma DestructionExactly(s: Sys)
    requires Inv(s) && LockFree(s.place) && !s.termination
    ensures (exists acts: seq<Action> :: Runs(Next(s, Terminate), acts) && Stranded(End(Next(s, Terminate), acts)))
            <==> s.place.Handler?
  {
    var s' := Next(s, Terminate);
    if s.place.Handler? {
      StepKeeps(s, Terminate);
      var front := ClientsDestroyAll(s');
      var back := LastOneStrands(End(s', front));
      RunsAppend(s', front, back);
      assert Runs(s', front + back) && Stranded(End(s', front + back));
    } else {
      forall acts | Runs(s', acts) ensures !Stranded(End(s', acts)) {
        TerminatedIsQuiet(s', acts);
        QuietShutdownIsSeen(s', acts);
      }
    }
  }

  /** Destroyed during the call-back of the last timer, after that timer: the
      worker is left waiting for good. */
  lemma ShutdownCanHang()
    ensures exists acts: seq<Action> :: Runs(Init(0), acts) && Stranded(End(Init(0), acts))
  {
    var s0 := Init(0);
    var live := Timer(0, true, true, MS, Active, Direct, 0);
    var acts := ExtendRun(s0, [], Create(true));
    assert End(s0, acts).list == [NewTimer(0, true)];
    acts := ExtendRun(s0, acts, Update(0, 1));
    assert End(s0, acts).list == [live];
    acts := ExtendRun(s0, acts, Tick(1));
    acts := ExtendRun(s0, acts, Work);
    acts := ExtendRun(s0, acts, Work);
    assert End(s0, acts).list == [live.(state := Expired)];
    acts := ExtendRun(s0, acts, Work);
    assert End(s0, acts).list == [live.(state := Idle, access := Locked)];
    acts := ExtendRun(s0, acts, Destroy(0));
    assert End(s0, acts).list == [live.(state := Idle, access := Destruct, inst := false)];
    acts := ExtendRun(s0, acts, Terminate);
    acts := ExtendRun(s0, acts, Work);
    acts := ExtendRun(s0, acts, Work);
    assert End(s0, acts).list == [] && End(s0, acts).place == Drain;
    acts := ExtendRun(s0, acts, Work);
    acts := ExtendRun(s0, acts, Work);
    acts := ExtendRun(s0, acts, Work);
    acts := ExtendRun(s0, acts, Work);
    assert Stranded(End(s0, acts));
  }
}
