// What the timer manager's worker gets done: an overdue timer is served after a
// bounded number of its steps, the lock is released after a few, and it returns.

/** Progress of the worker. */
module TimerProgress {
  import opened Basics
  import opened TimerList
  import opened TimerSystem
  import opened TimerInvariant
  import opened TimerShutdown
  import opened AlarmBoard
  import opened TimerRefinement

  // ----- the timers ahead of one -----

  /** How many timers of the same state stand before timer `id`. */
  function Ahead(l: seq<Timer>, id: nat): nat
    requires IndexOf(l, id) < |l|
  {
    var j := IndexOf(l, id);
    Count(l[..j], l[j].state)
  }

  lemma {:induction false} CountNone(l: seq<Timer>, state: State)
    requires forall i :: 0 <= i < |l| ==> l[i].state != state
    ensures Count(l, state) == 0
  {
    if l != [] { CountNone(l[1..], state); }
  }

  lemma {:induction false} CountBound(l: seq<Timer>, state: State)
    ensures Count(l, state) <= |l|
  {
    if l != [] { CountBound(l[1..], state); }
  }

  lemma AheadRemove(l: seq<Timer>, k: nat, id: nat)
    requires Distinct(l) && k < |l| && l[k].id != id && IndexOf(l, id) < |l|
    ensures IndexOf(RemoveAt(l, k), id) < |RemoveAt(l, k)| && Ahead(RemoveAt(l, k), id) <= Ahead(l, id)
  {
    var j := IndexOf(l, id);
    var r := RemoveAt(l, k);
    RemoveKeeps(l, k);
    RemovedFront(l, k, j);
    if k < j {
      LookupAt(r, j - 1);
      CountRemove(l[..j], k, l[j].state);
    } else {
      LookupAt(r, j);
    }
  }

  lemma RemovedFront(l: seq<Timer>, k: nat, j: nat)
    requires k < |l| && j < |l| && j != k
    ensures
      var r := RemoveAt(l, k);
      if k < j then r[j - 1] == l[j] && r[..j - 1] == RemoveAt(l[..j], k)
      else r[j] == l[j] && r[..j] == l[..j]
  {
  }

  lemma AheadMerge(l: seq<Timer>, x: Timer, id: nat)
    requires Distinct(l) && IndexOf(l, id) < |l|
    requires forall i :: 0 <= i < |l| ==> l[i].id != x.id
    requires x.state == l[IndexOf(l, id)].state ==> IndexOf(l, id) < MergePos(l, x)
    ensures IndexOf(Merge(l, x), id) < |Merge(l, x)| && Ahead(Merge(l, x), id) == Ahead(l, id)
  {
    var j, p := IndexOf(l, id), MergePos(l, x);
    var r := Merge(l, x);
    MergeKeepsDistinct(l, x);
    InsertedFront(l, p, x, j);
    if p <= j {
      LookupAt(r, j + 1);
      CountInsert(l[..j], p, x, l[j].state);
    } else {
      LookupAt(r, j);
    }
  }

  lemma InsertedFront(l: seq<Timer>, p: nat, x: Timer, j: nat)
    requires p <= |l| && j < |l|
    ensures
      var r := InsertAt(l, p, x);
      if p <= j then r[j + 1] == l[j] && r[..j + 1] == InsertAt(l[..j], p, x)
      else r[j] == l[j] && r[..j] == l[..j]
  {
  }

  lemma AheadUpdate(l: seq<Timer>, k: nat, t: Timer, id: nat)
    requires Distinct(l) && k < |l| && t.id == l[k].id != id && IndexOf(l, id) < |l|
    ensures
      var r, j := l[k := t], IndexOf(l, id);
      && IndexOf(r, id) == j
      && Ahead(r, id) == Ahead(l, id)
           - (if k < j && l[k].state == l[j].state then 1 else 0)
           + (if k < j && t.state == l[j].state then 1 else 0)
  {
    var r, j := l[k := t], IndexOf(l, id);
    assert forall i :: 0 <= i < |l| ==> r[i].id == l[i].id;
    LookupAt(r, j);
    if k < j {
      assert r[..j] == l[..j][k := t];
      CountUpdate(l[..j], k, t, l[j].state);
    } else {
      assert r[..j] == l[..j];
    }
  }

  lemma ActiveAhead(l: seq<Timer>, id: nat)
    requires InOrder(l) && IndexOf(l, id) < |l| && l[IndexOf(l, id)].state == Active
    ensures Ahead(l, id) == IndexOf(l, id)
  {
    var j := IndexOf(l, id);
    forall t | t in l[..j] ensures t.state == Active {
      var i :| 0 <= i < j && l[i] == t;
      assert Before(l[i], l[j]);
    }
    CountAll(l[..j], Active, Active);
  }

  // ----- an overdue timer -----

  /** A timer, not destroyed, that is due or already marked. */
  predicate Wanted(s: Sys, id: nat) {
    var t := Lookup(s.list, id);
    t.Some? && t.value.access != Destruct && (t.value.state == Expired || Due(t.value, s.clock))
  }

  function ExpiredOffset(p: Place): nat {
    if p.Handler? then 3 else if p.Relock? then 2 else 1
  }

  function DueOffset(p: Place, t: Timer): nat {
    match p
    case Handler(_) => 6
    case Relock(_) => 5
    case Scan(now) => if Due(t, now) then 2 else 5
    case Drain => 4
    case Settle(_) => 4
    case _ => 3
  }

  /** An upper bound on the worker's steps before it selects the timer. */
  function Distance(s: Sys, id: nat): nat
    requires Wanted(s, id)
  {
    var t := Lookup(s.list, id).value;
    if t.state == Expired then 3 * Ahead(s.list, id) + ExpiredOffset(s.place)
    else 3 * (Ahead(s.list, id) + Count(s.list, Expired)) + DueOffset(s.place, t)
  }

  /** Starting another timer does not put it in front: its expiration is later. */
  lemma UpdateDoesNotDefer(s: Sys, other: nat, duration: Duration, id: nat)
    requires Inv(s) && LockFree(s.place) && Wanted(s, id) && other != id
    ensures
      var s' := UpdateTimer(s, other, duration);
      && Lookup(s'.list, id) == Lookup(s.list, id)
      && Ahead(s'.list, id) <= Ahead(s.list, id)
  {
    if UpdateAccepted(s, other, duration) {
      var k := IndexOf(s.list, other);
      var rest := RemoveAt(s.list, k);
      var t := SetDuration(s.list[k], duration, s.clock, s.starts).value;
      RemoveKeeps(s.list, k);
      RemoveMembers(s.list, k);
      LookupRemove(s.list, k, id);
      AheadRemove(s.list, k, id);
      forall i | 0 <= i < |rest| ensures rest[i].id != other { assert rest[i] in rest; }
      LookupMerge(rest, t, id);
      if t.state == rest[IndexOf(rest, id)].state { StartedIsBehind(rest, t, id); }
      AheadMerge(rest, t, id);
    }
  }

  lemma StartedIsBehind(l: seq<Timer>, x: Timer, id: nat)
    requires InOrder(l) && IndexOf(l, id) < |l| && x.state == Active
    requires l[IndexOf(l, id)].state == Active && l[IndexOf(l, id)].expiration < x.expiration
    ensures IndexOf(l, id) < MergePos(l, x)
  {
    var j, p := IndexOf(l, id), MergePos(l, x);
    assert p < j ==> Before(l[p], l[j]);
  }

  lemma CreateDoesNotDefer(s: Sys, handler: bool, id: nat)
    requires Inv(s) && LockFree(s.place) && Wanted(s, id)
    ensures
      var s' := CreateTimer(s, handler);
      && Lookup(s'.list, id) == Lookup(s.list, id)
      && Ahead(s'.list, id) <= Ahead(s.list, id)
  {
    if !s.termination {
      var x := NewTimer(s.nextId, handler);
      forall i | 0 <= i < |s.list| ensures s.list[i].id != x.id { assert TimerOk(s, s.list[i]); }
      LookupMerge(s.list, x, id);
      AheadMerge(s.list, x, id);
    }
  }

  lemma DestroyDoesNotDefer(s: Sys, other: nat, id: nat)
    requires Inv(s) && Wanted(s, id) && other != id
    ensures
      var s' := DestroyTimer(s, other);
      && Lookup(s'.list, id) == Lookup(s.list, id)
      && Ahead(s'.list, id) <= Ahead(s.list, id)
  {
    var k := IndexOf(s.list, other);
    if k < |s.list| {
      if s.list[k].access == Direct {
        LookupRemove(s.list, k, id);
        AheadRemove(s.list, k, id);
      } else {
        var t := s.list[k].(inst := false, access := Destruct);
        LookupUpdate(s.list, k, t, id);
        AheadUpdate(s.list, k, t, id);
      }
    }
  }

  /** No client operation on other timers, and no passing of time, puts an overdue
      timer off. */
  lemma ClientsDoNotDefer(s: Sys, a: TimerSystem.Action, id: nat)
    requires Inv(s) && Enabled(s, a) && a != Work && a != Spurious
    requires Wanted(s, id) && !Disturbs(LabelOf(s, a), id)
    ensures Wanted(Next(s, a), id) && Distance(Next(s, a), id) <= Distance(s, id)
  {
    ClientCounts(s, a, Expired);
    match a
    case Create(handler) => CreateDoesNotDefer(s, handler, id);
    case Update(other, duration) => if other != id { UpdateDoesNotDefer(s, other, duration, id); }
    case Destroy(other) => if other != id { DestroyDoesNotDefer(s, other, id); }
    case _ =>
  }

  // ----- the worker's steps -----

  lemma AheadMarked(l: seq<Timer>, m: nat, id: nat)
    requires Distinct(l) && m <= |l| && IndexOf(l, id) < m
    requires forall i :: 0 <= i < |l| ==> l[i].state != Expired
    requires Distinct(SpliceExpired(l, m))
    ensures
      var r := SpliceExpired(l, m);
      IndexOf(r, id) < |r| && r[IndexOf(r, id)].state == Expired && Ahead(r, id) == IndexOf(l, id)
  {
    var r, j := SpliceExpired(l, m), IndexOf(l, id);
    LookupAt(r, |l| - m + j);
    assert r[..|l| - m + j] == l[m..] + Expire(l[..j]);
    CountAppend(l[m..], Expire(l[..j]), Expired);
    CountNone(l[m..], Expired);
    CountAll(Expire(l[..j]), Expired, Expired);
  }

  lemma AheadUnmarked(l: seq<Timer>, m: nat, id: nat)
    requires InOrder(l) && m <= IndexOf(l, id) < |l| && l[IndexOf(l, id)].state == Active
    requires InOrder(SpliceExpired(l, m)) && Distinct(SpliceExpired(l, m))
    ensures
      var r := SpliceExpired(l, m);
      IndexOf(r, id) < |r| && r[IndexOf(r, id)] == l[IndexOf(l, id)] && Ahead(r, id) == Ahead(l, id) - m
  {
    var r, j := SpliceExpired(l, m), IndexOf(l, id);
    LookupAt(r, j - m);
    ActiveAhead(r, id);
    ActiveAhead(l, id);
  }

  lemma ScanFinds(s: Sys, id: nat)
    requires Inv(s) && s.place.Scan? && Wanted(s, id)
    ensures
      var l, m, j := s.list, DuePrefix(s.list, s.place.now), IndexOf(s.list, id);
      && l[j].state == Active && Count(l, Expired) == 0
      && (j < m <==> Due(l[j], s.place.now))
      && InOrder(SpliceExpired(l, m)) && Distinct(SpliceExpired(l, m))
  {
    ScanMarksTheDue(s);
    assert s.list[IndexOf(s.list, id)] in s.list;
    CountNone(s.list, Expired);
    SpliceKeeps(s.list, DuePrefix(s.list, s.place.now));
  }

  lemma ScanMarksIt(s: Sys, id: nat)
    requires Inv(s) && s.place.Scan? && Wanted(s, id)
    requires IndexOf(s.list, id) < DuePrefix(s.list, s.place.now)
    ensures Wanted(WorkStep(s), id) && Distance(WorkStep(s), id) < Distance(s, id)
  {
    var l, m := s.list, DuePrefix(s.list, s.place.now);
    ScanFinds(s, id);
    ScanMarksTheDue(s);
    LookupSplice(l, m, id);
    ActiveAhead(l, id);
    AheadMarked(l, m, id);
  }

  lemma ScanPassesIt(s: Sys, id: nat)
    requires Inv(s) && s.place.Scan? && Wanted(s, id)
    requires 0 < DuePrefix(s.list, s.place.now) <= IndexOf(s.list, id)
    ensures Wanted(WorkStep(s), id) && Distance(WorkStep(s), id) < Distance(s, id)
  {
    var l, m := s.list, DuePrefix(s.list, s.place.now);
    ScanFinds(s, id);
    CountSplice(l, m);
    AheadUnmarked(l, m, id);
  }

  lemma ScanBringsNearer(s: Sys, id: nat)
    requires Inv(s) && s.place.Scan? && Wanted(s, id)
    ensures Wanted(WorkStep(s), id) && Distance(WorkStep(s), id) < Distance(s, id)
  {
    var m := DuePrefix(s.list, s.place.now);
    if IndexOf(s.list, id) < m {
      ScanMarksIt(s, id);
    } else if m > 0 {
      ScanPassesIt(s, id);
    } else {
      ScanFinds(s, id);
    }
  }

  lemma DrainBringsNearer(s: Sys, id: nat)
    requires Inv(s) && s.place.Drain? && Wanted(s, id) && WorkLabel(s) != Fire(id)
    ensures Wanted(WorkStep(s), id) && Distance(WorkStep(s), id) < Distance(s, id)
  {
    var l, k, j := s.list, FirstExpired(s.list), IndexOf(s.list, id);
    if k < |l| {
      var t := l[k].(state := Idle, access := Locked);
      LookupUpdate(l, k, t, id);
      AheadUpdate(l, k, t, id);
      WorkCounts(s, Expired);
    } else {
      CountNone(l, Expired);
    }
  }

  /** Unlocking keeps all states, erasing removes an idle or active timer. */
  lemma RelockCounts(s: Sys)
    requires Inv(s) && s.place.Relock?
    ensures Count(WorkStep(s).list, Expired) <= Count(s.list, Expired)
    ensures WorkStep(s).place == Drain && WorkStep(s).clock == s.clock
  {
    WorkCounts(s, Expired);
  }

  lemma UnlockKeepsAhead(s: Sys, id: nat)
    requires Inv(s) && s.place.Relock? && s.list[IndexOf(s.list, s.place.id)].access != Destruct
    requires Wanted(s, id)
    ensures
      var l, r := s.list, WorkStep(s).list;
      && IndexOf(r, id) == IndexOf(l, id) && Ahead(r, id) == Ahead(l, id)
      && r[IndexOf(r, id)].(access := Direct) == l[IndexOf(l, id)].(access := Direct)
      && r[IndexOf(r, id)].access != Destruct
  {
    var l, k := s.list, IndexOf(s.list, s.place.id);
    var t := l[k].(access := Direct);
    LookupUpdate(l, k, t, id);
    if id != t.id { AheadUpdate(l, k, t, id); } else { assert l[k := t][..k] == l[..k]; }
  }

  lemma RelockBringsNearer(s: Sys, id: nat)
    requires Inv(s) && s.place.Relock? && Wanted(s, id)
    ensures Wanted(WorkStep(s), id) && Distance(WorkStep(s), id) < Distance(s, id)
  {
    var l, k := s.list, IndexOf(s.list, s.place.id);
    RelockCounts(s);
    if l[k].access != Destruct {
      UnlockKeepsAhead(s, id);
    } else {
      LookupRemove(l, k, id);
      AheadRemove(l, k, id);
    }
  }

  lemma WaitBringsNearer(s: Sys, id: nat)
    requires Inv(s) && !s.place.Gone? && !s.termination && Wanted(s, id)
    requires !s.place.Scan? && !s.place.Drain? && !s.place.Relock?
    ensures Wanted(WorkStep(s), id) && Distance(WorkStep(s), id) < Distance(s, id)
  {
    KnownIds(s, id);
  }

  lemma WorkBringsNearer(s: Sys, id: nat)
    requires Inv(s) && !s.place.Gone? && !s.termination
    requires Wanted(s, id) && WorkLabel(s) != Fire(id)
    ensures Wanted(WorkStep(s), id) && Distance(WorkStep(s), id) < Distance(s, id)
  {
    match s.place
    case Scan(_) => ScanBringsNearer(s, id);
    case Drain => DrainBringsNearer(s, id);
    case Relock(_) => RelockBringsNearer(s, id);
    case _ => WaitBringsNearer(s, id);
  }

  lemma {:induction false} StaysTerminated(s: Sys, acts: seq<TimerSystem.Action>)
    requires Runs(s, acts) && s.termination
    ensures End(s, acts).termination
    decreases |acts|
  {
    if acts != [] { StaysTerminated(Next(s, acts[0]), acts[1..]); }
  }

  /** Until an overdue timer is selected, every step of the worker brings it nearer,
      whatever happens to other timers. */
  lemma {:induction false} OverdueComesNearer(s: Sys, acts: seq<TimerSystem.Action>, id: nat)
    requires Inv(s) && Runs(s, acts) && !End(s, acts).termination
    requires Wanted(s, id) && LeftAlone(s, acts, id) && Selections(s, acts, id) == 0
    ensures Wanted(End(s, acts), id)
    ensures WorkCount(acts) + Distance(End(s, acts), id) <= Distance(s, id)
    decreases |acts|
  {
    if acts != [] {
      var a := acts[0];
      if s.termination { StaysTerminated(s, acts); }
      StepKeeps(s, a);
      assert Labels(s, acts)[0] == LabelOf(s, a);
      if a == Work || a == Spurious { WorkBringsNearer(s, id); } else { ClientsDoNotDefer(s, a, id); }
      assert forall l :: l in Labels(Next(s, a), acts[1..]) ==> l in Labels(s, acts);
      OverdueComesNearer(Next(s, a), acts[1..], id);
    }
  }

  lemma DistanceBound(s: Sys, id: nat)
    requires Inv(s) && Wanted(s, id)
    ensures 0 < Distance(s, id) <= 3 * |s.list| + 3
  {
    var l, j := s.list, IndexOf(s.list, id);
    CountBound(l[..j], l[j].state);
    if l[j].state == Active {
      assert l == l[..j] + [l[j]] + l[j + 1..];
      CountAppend(l[..j] + [l[j]], l[j + 1..], Expired);
      CountAppend(l[..j], [l[j]], Expired);
      CountBound(l[j + 1..], Expired);
      NoneExpiredAhead(l, j);
    }
  }

  lemma NoneExpiredAhead(l: seq<Timer>, j: nat)
    requires InOrder(l) && j < |l| && l[j].state == Active
    ensures Count(l[..j], Expired) == 0
  {
    forall i | 0 <= i < j ensures l[..j][i].state != Expired { assert Before(l[i], l[j]); }
    CountNone(l[..j], Expired);
  }

  /** An overdue timer that clients leave alone is selected, and only once, within
      three steps of the worker for every timer in the list and three more; the
      manager must not have been destroyed meanwhile. */
  lemma OverdueIsServed(s: Sys, acts: seq<TimerSystem.Action>, id: nat)
    requires Inv(s) && Runs(s, acts) && !End(s, acts).termination
    requires Wanted(s, id) && LeftAlone(s, acts, id)
    requires WorkCount(acts) >= 3 * |s.list| + 3
    ensures Selections(s, acts, id) == 1
  {
    DistanceBound(s, id);
    if Selections(s, acts, id) == 0 {
      OverdueComesNearer(s, acts, id);
      RunKeeps(s, acts);
      DistanceBound(End(s, acts), id);
    }
    RunSimulates(s, acts);
    LeftAloneStarts(Labels(s, acts), id);
    FiresArePaidFor(Abs(s), Labels(s, acts), id);
  }

  // ----- the wait -----

  /** Nobody notifies the worker during the run. */
  predicate Unnotified(s: Sys, acts: seq<TimerSystem.Action>)
    requires Runs(s, acts)
    decreases |acts|
  {
    !s.notified && (acts == [] || Unnotified(Next(s, acts[0]), acts[1..]))
  }

  lemma {:induction false} ClockGoesOn(s: Sys, acts: seq<TimerSystem.Action>)
    requires Runs(s, acts)
    ensures s.clock <= End(s, acts).clock
    decreases |acts|
  {
    if acts != [] { ClockGoesOn(Next(s, acts[0]), acts[1..]); }
  }

  /** A notification from before the wait does not end it. */
  lemma WaitsAreFresh(s: Sys)
    requires !s.place.Gone?
    ensures WorkStep(s).place.Asleep? || WorkStep(s).place.LastWait? ==> !WorkStep(s).notified
  {
  }

  /** The worker does not go on before its time: un-notified, and but for a spurious
      wake-up, it waits until its time-out, or for good if it has none. */
  lemma {:induction false} SleepsThrough(s: Sys, acts: seq<TimerSystem.Action>)
    requires Runs(s, acts) && Unnotified(s, acts) && Spurious !in acts
    requires s.place.Asleep? || s.place.LastWait?
    requires s.place.Asleep? && s.place.ms > 0 ==>
               End(s, acts).clock < s.place.since + s.place.ms * MS
    ensures End(s, acts).place == s.place
    decreases |acts|
  {
    if acts != [] {
      assert acts[0] != Spurious;
      ClockGoesOn(s, acts);
      SleepsThrough(Next(s, acts[0]), acts[1..]);
    }
  }

  // ----- the lock -----

  /** Steps of the worker until it releases the lock. */
  function Held(s: Sys): nat {
    match s.place
    case Relock(_) => 5
    case Drain => if FirstExpired(s.list) < |s.list| then 1 else 4
    case Rescan => 3
    case Scan(_) => 2
    case Settle(_) => 1
    case _ => 0
  }

  /** Clients can create, update and destroy timers in call-backs and waits, and the
      worker comes to one of these after at most five of its steps. */
  lemma LockIsReleased(s: Sys, a: TimerSystem.Action)
    requires Inv(s) && (a.Create? || a.Update? || a.Destroy?)
    ensures Enabled(s, a) <==> Held(s) == 0
    ensures !Enabled(s, a) ==> CanWork(s) && Held(WorkStep(s)) < Held(s) <= 5
  {
    if s.place.Scan? && DuePrefix(s.list, s.place.now) > 0 {
      var r := WorkStep(s).list;
      assert r[|r| - 1].state == Expired;
    }
    if s.place.Drain? && FirstExpired(s.list) < |s.list| {
      assert TimerOk(s, s.list[FirstExpired(s.list)]);
    }
  }

  // ----- the end -----

  /** Steps left to the worker once the flag is set and the list is empty. */
  function Left(p: Place): nat {
    match p
    case Gone => 0
    case LastWait => 1
    case _ => PlaceRank(p) + 1
  }

  /** When the flag is set and the last timer is gone, the worker returns after a
      bounded number of its steps, and it can make them, if need be after its
      time-out, unless it is stranded. */
  lemma {:induction false} WorkerReturns(s: Sys, acts: seq<TimerSystem.Action>)
    requires Inv(s) && Runs(s, acts) && s.termination && s.list == []
    ensures WorkCount(acts) + Left(End(s, acts).place) <= Left(s.place)
    ensures
      var e := End(s, acts);
      && (Left(e.place) == 0 <==> e.place == Gone)
      && (e.place == Gone || CanWork(e) || Stranded(e) || (e.place.Asleep? && e.place.ms > 0))
    decreases |acts|
  {
    if acts != [] {
      StepKeeps(s, acts[0]);
      WorkerReturns(Next(s, acts[0]), acts[1..]);
    }
  }
}
