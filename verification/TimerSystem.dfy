// The timer manager as a state machine: client operations, the worker thread
// between two points where it holds or releases the lock, and the clock.

/** States and steps of `TimerManager::Impl`. */
module TimerSystem {
  import opened TimerList

  /** Where the worker thread is.  The lock is free in `Starting`, `Handler`,
      `Asleep`, `LastWait` and `Gone`; in the others the worker holds it. */
  datatype Place =
    | Starting                                       // before the first lock acquisition
    | Scan(now: int)                                 // head of the cycle, time-stamp `now`
    | Drain                                          // looking for the next expired timer
    | Handler(id: nat)                               // call-back of timer `id`, lock released
    | Relock(id: nat)                                // lock taken again, timer `id` still locked
    | Rescan                                         // all call-backs done, another cycle follows
    | Settle(scanned: int)                           // nothing was due at `scanned`
    | Asleep(ms: Duration, scanned: int, since: int) // wait_for(ms), or wait if ms is 0
    | LastWait                                       // waiting for the list to become empty
    | Gone                                           // thread function returned

  /** `notified` says that the worker, if it is waiting, has been notified.
      `starts` counts successful starts (history). */
  datatype Sys = Sys(
    list: seq<Timer>, termination: bool, notified: bool, clock: int,
    nextId: nat, starts: nat, place: Place)

  datatype Action =
    | Tick(to: int)                          // time passes
    | Create(handler: bool)                  // createTimer
    | Update(id: nat, duration: Duration)    // updateTimer
    | Destroy(id: nat)                       // destroyTimer
    | Terminate                              // first half of ~Impl
    | Work                                   // the worker's next step
    | Spurious                               // the worker's wait returns without cause

  function Init(clock: int): Sys {
    Sys([], false, false, clock, 0, 0, Starting)
  }

  predicate LockFree(p: Place) {
    p.Starting? || p.Handler? || p.Asleep? || p.LastWait? || p.Gone?
  }

  /** A waiting worker goes on when it has been notified or its time is up. */
  predicate CanWork(s: Sys) {
    match s.place
    case Asleep(ms, _, since) => s.notified || (ms > 0 && s.clock >= since + ms * MS)
    case LastWait => s.notified
    case Gone => false
    case _ => true
  }

  predicate Enabled(s: Sys, a: Action) {
    match a
    case Tick(to) => s.clock <= to
    case Create(_) => LockFree(s.place)
    case Update(_, _) => LockFree(s.place)
    case Destroy(_) => LockFree(s.place)
    case Terminate => LockFree(s.place) && !s.termination
    case Work => CanWork(s)
    case Spurious => s.place.Asleep? || s.place.LastWait?
  }

  function Next(s: Sys, a: Action): Sys
    requires Enabled(s, a)
  {
    match a
    case Tick(to) => s.(clock := to)
    case Create(handler) => CreateTimer(s, handler)
    case Update(id, duration) => UpdateTimer(s, id, duration)
    case Destroy(id) => DestroyTimer(s, id)
    case Terminate => s.(termination := true, notified := true)
    case Work => WorkStep(s)
    case Spurious => WorkStep(s)
  }

  // ----- client operations -----

  function NewTimer(id: nat, handler: bool): Timer {
    Timer(id, true, handler, 0, Idle, Direct, 0)
  }

  function CreateTimer(s: Sys, handler: bool): Sys {
    if s.termination then s
    else s.(list := Merge(s.list, NewTimer(s.nextId, handler)), nextId := s.nextId + 1, notified := true)
  }

  /** The result `true` of updateTimer. */
  predicate UpdateAccepted(s: Sys, id: nat, duration: Duration) {
    && (!s.termination || duration == 0)
    && var k := IndexOf(s.list, id);
       k < |s.list| && SetDuration(s.list[k], duration, s.clock, s.starts).Some?
  }

  function UpdateTimer(s: Sys, id: nat, duration: Duration): Sys {
    if UpdateAccepted(s, id, duration) then
      var k := IndexOf(s.list, id);
      var t := SetDuration(s.list[k], duration, s.clock, s.starts).value;
      s.(list := Merge(RemoveAt(s.list, k), t),
         starts := if duration == 0 then s.starts else s.starts + 1,
         notified := s.notified || duration != 0)
    else s
  }

  function DestroyTimer(s: Sys, id: nat): Sys {
    var k := IndexOf(s.list, id);
    if k == |s.list| then s
    else if s.list[k].access == Direct then
      var rest := RemoveAt(s.list, k);
      s.(list := rest, notified := s.notified || (s.termination && rest == []))
    else s.(list := s.list[k := s.list[k].(inst := false, access := Destruct)])
  }

  // ----- the worker -----

  /** The condition of the outer loop, and of the last wait, after waking or starting. */
  function Loop(s: Sys): Sys {
    if !s.termination then s.(place := Scan(s.clock))
    else if s.list == [] then s.(place := Gone)
    else s.(place := LastWait, notified := false)
  }

  function WorkStep(s: Sys): Sys
    requires s.place != Gone
  {
    match s.place
    case Starting => Loop(s)
    case Scan(now) =>
      var k := DuePrefix(s.list, now);
      if k == 0 then s.(place := Settle(now))
      else s.(list := SpliceExpired(s.list, k), place := Drain)
    case Drain =>
      var k := FirstExpired(s.list);
      if k == |s.list| then s.(place := Rescan)
      else
        var t := s.list[k].(state := Idle, access := Locked);
        s.(list := s.list[k := t],
           place := if t.inst && t.handler then Handler(t.id) else Relock(t.id))
    case Handler(id) => s.(place := Relock(id))
    case Relock(id) =>
      var k := IndexOf(s.list, id);
      if k == |s.list| then s.(place := Drain)
      else if s.list[k].access != Destruct then
        s.(list := s.list[k := s.list[k].(access := Direct)], place := Drain)
      else s.(list := RemoveAt(s.list, k), place := Drain)
    case Rescan => s.(place := Scan(s.clock))
    case Settle(scanned) =>
      s.(place := Asleep(SleepTime(s), scanned, s.clock), notified := false)
    case Asleep(_, _, _) => Loop(s)
    case LastWait => if s.list == [] then s.(place := Gone) else s.(notified := false)
  }

  /** The value `updateTimers` returns. */
  function SleepTime(s: Sys): Duration {
    if s.list == [] then 0 else GetDuration(s.list[0], s.clock)
  }

  // ----- runs -----

  predicate Runs(s: Sys, acts: seq<Action>)
    decreases |acts|
  {
    acts == [] || (Enabled(s, acts[0]) && Runs(Next(s, acts[0]), acts[1..]))
  }

  function End(s: Sys, acts: seq<Action>): Sys
    requires Runs(s, acts)
    decreases |acts|
  {
    if acts == [] then s else End(Next(s, acts[0]), acts[1..])
  }

  lemma {:induction false} RunsAppend(s: Sys, front: seq<Action>, back: seq<Action>)
    requires Runs(s, front)
    ensures Runs(s, front + back) <==> Runs(End(s, front), back)
    ensures Runs(s, front + back) ==> End(s, front + back) == End(End(s, front), back)
    decreases |front|
  {
    if front == [] {
      assert front + back == back;
    } else {
      assert (front + back)[1..] == front[1..] + back;
      RunsAppend(Next(s, front[0]), front[1..], back);
    }
  }

  /** A run taken one action further. */
  lemma ExtendRun(s: Sys, acts: seq<Action>, a: Action) returns (more: seq<Action>)
    requires Runs(s, acts) && Enabled(End(s, acts), a)
    ensures more == acts + [a]
    ensures Runs(s, more) && End(s, more) == Next(End(s, acts), a)
  {
    more := acts + [a];
    RunsAppend(s, acts, [a]);
  }

  // ----- the invariant -----

  predicate Expiring(p: Place) {
    p.Drain? || p.Handler? || p.Relock?
  }

  /** The timer the worker is serving, if any. */
  predicate Serving(p: Place, id: nat) {
    (p.Handler? || p.Relock?) && p.id == id
  }

  /** What holds of a single timer of the list. */
  predicate TimerOk(s: Sys, t: Timer) {
    && t.id < s.nextId
    && (t.inst <==> t.access != Destruct)
    && (t.access == Direct <==> !Serving(s.place, t.id))
    && (t.state != Idle ==> t.handler && t.stamp < s.starts)
    && (t.state == Expired ==>
          Expiring(s.place) && t.access == Direct && t.expiration - s.clock < MS)
    && InReach(t, s.clock)
    && (t.state == Active ==> PlaceKnows(s, t.expiration))
  }

  /** What the worker's last scan established about an active timer's expiration. */
  predicate PlaceKnows(s: Sys, expiration: int) {
    match s.place
    case Scan(now) => expiration <= now + DURATION_MAX * MS
    case Settle(scanned) => expiration - scanned >= MS
    case Asleep(ms, scanned, since) =>
      s.notified || (expiration - scanned >= MS && (ms > 0 ==> expiration - since >= ms * MS))
    case _ => true
  }

  /** What holds of the worker's place. */
  predicate PlaceOk(s: Sys) {
    match s.place
    case Scan(now) => now <= s.clock
    case Handler(id) => IndexOf(s.list, id) < |s.list|
    case Relock(id) => IndexOf(s.list, id) < |s.list|
    case Settle(scanned) => scanned <= s.clock
    case Asleep(ms, scanned, since) =>
      && scanned <= since <= s.clock
      && (!s.notified && ms == 0 && scanned == since ==>
            forall t :: t in s.list ==> t.state != Active)
    case LastWait => s.termination && (s.notified || s.list != [])
    case Gone => s.termination && s.list == []
    case _ => true
  }

  predicate Inv(s: Sys) {
    && InOrder(s.list)
    && Distinct(s.list)
    && (forall t :: t in s.list ==> TimerOk(s, t))
    && PlaceOk(s)
  }

  lemma InitOk(clock: int)
    ensures Inv(Init(clock))
  {
  }

  // ----- one lemma per operation -----

  /** A client operation does not disturb the timers it leaves alone. */
  lemma OtherTimerOk(s: Sys, s': Sys, t: Timer)
    requires TimerOk(s, t)
    requires s'.place == s.place && s'.clock == s.clock
    requires s.nextId <= s'.nextId && s.starts <= s'.starts && (s.notified ==> s'.notified)
    ensures TimerOk(s', t)
  {
  }

  lemma CreateKeeps(s: Sys, handler: bool)
    requires Inv(s) && LockFree(s.place)
    ensures Inv(CreateTimer(s, handler))
  {
    if !s.termination {
      var x := NewTimer(s.nextId, handler);
      var s' := CreateTimer(s, handler);
      forall i | 0 <= i < |s.list| ensures s.list[i].id != x.id { assert s.list[i] in s.list; }
      MergeKeepsOrder(s.list, x);
      MergeKeepsDistinct(s.list, x);
      MergeMembers(s.list, x);
      if s.place.Handler? {
        assert Lookup(s.list, s.place.id).Some?;
        LookupMerge(s.list, x, s.place.id);
      }
      forall t | t in s.list ensures TimerOk(s', t) { OtherTimerOk(s, s', t); }
      assert TimerOk(s', x);
    }
  }

  lemma UpdateKeeps(s: Sys, id: nat, duration: Duration)
    requires Inv(s) && LockFree(s.place)
    ensures Inv(UpdateTimer(s, id, duration))
  {
    if UpdateAccepted(s, id, duration) {
      var k := IndexOf(s.list, id);
      var t := SetDuration(s.list[k], duration, s.clock, s.starts).value;
      var rest := RemoveAt(s.list, k);
      var s' := UpdateTimer(s, id, duration);
      assert TimerOk(s, s.list[k]);
      RemoveKeeps(s.list, k);
      RemoveMembers(s.list, k);
      forall i | 0 <= i < |rest| ensures rest[i].id != t.id { assert rest[i] in rest; }
      MergeKeepsOrder(rest, t);
      MergeKeepsDistinct(rest, t);
      MergeMembers(rest, t);
      if s.place.Handler? {
        assert Lookup(s.list, s.place.id).Some?;
        LookupRemove(s.list, k, s.place.id);
        LookupMerge(rest, t, s.place.id);
      }
      forall u | u in s.list ensures TimerOk(s', u) { OtherTimerOk(s, s', u); }
      assert TimerOk(s', t);
    }
  }

  lemma EraseKeeps(s: Sys, k: nat)
    requires Inv(s) && LockFree(s.place) && k < |s.list| && s.list[k].access == Direct
    ensures Inv(DestroyTimer(s, s.list[k].id))
  {
    var t := s.list[k];
    LookupAt(s.list, k);
    var s' := DestroyTimer(s, t.id);
    RemoveKeeps(s.list, k);
    RemoveMembers(s.list, k);
    assert TimerOk(s, t);
    if s.place.Handler? {
      assert Lookup(s.list, s.place.id).Some?;
      LookupRemove(s.list, k, s.place.id);
    }
    forall u | u in s'.list ensures TimerOk(s', u) { OtherTimerOk(s, s', u); }
  }

  lemma MarkKeeps(s: Sys, k: nat)
    requires Inv(s) && LockFree(s.place) && k < |s.list| && s.list[k].access != Direct
    ensures Inv(DestroyTimer(s, s.list[k].id))
  {
    var t := s.list[k];
    LookupAt(s.list, k);
    var s' := DestroyTimer(s, t.id);
    var u := t.(inst := false, access := Destruct);
    TouchKeeps(s.list, k, u);
    assert TimerOk(s, t);
    assert Lookup(s.list, s.place.id).Some?;
    LookupUpdate(s.list, k, u, s.place.id);
    forall i | 0 <= i < |s.list| ensures TimerOk(s', s'.list[i]) {
      OtherTimerOk(s, s', s.list[i]);
    }
  }

  lemma DestroyKeeps(s: Sys, id: nat)
    requires Inv(s) && LockFree(s.place)
    ensures Inv(DestroyTimer(s, id))
  {
    var k := IndexOf(s.list, id);
    if k < |s.list| {
      if s.list[k].access == Direct { EraseKeeps(s, k); } else { MarkKeeps(s, k); }
    }
  }
}
