// What clients of the timer manager can count on: which calls are accepted, what
// a timer keeps from its creation on, and when the worker is notified.

/** Acceptance and notification. */
module TimerClients {
  import opened Basics
  import opened TimerList
  import opened TimerSystem
  import opened TimerInvariant
  import opened AlarmBoard
  import opened TimerRefinement

  /** A stop is accepted for every timer that was not destroyed; a start needs a
      call-back handler, and the manager must not be shutting down.  Whether the
      timer is idle, running, expired or being called back does not matter. */
  lemma AcceptedExactly(s: Sys, id: nat, duration: Duration)
    requires Distinct(s.list)
    ensures UpdateAccepted(s, id, duration) <==>
            exists t :: t in s.list && t.id == id && t.access != Destruct &&
              (duration == 0 || (t.handler && !s.termination))
  {
    if t :| t in s.list && t.id == id {
      var k :| 0 <= k < |s.list| && s.list[k] == t;
      LookupAt(s.list, k);
    }
  }

  /** The same in terms of the board, with the answer to be expected there. */
  lemma AcceptedOnBoard(s: Sys, id: nat, duration: Duration)
    requires Inv(s) && LockFree(s.place)
    ensures UpdateAccepted(s, id, duration) <==>
            id in Abs(s).live && (duration == 0 || (Nodes(s)[id].handler && !s.termination))
    ensures LabelOf(s, Update(id, duration)) ==
            if !UpdateAccepted(s, id, duration) then Skip
            else if duration == 0 then Disarm(id) else Arm(id, duration)
  {
    AcceptedExactly(s, id, duration);
    KnownNode(s, id);
  }

  // ----- what a timer keeps -----

  predicate SameHandler(m: map<nat, Timer>, m': map<nat, Timer>, id: nat) {
    id in m && id in m' ==> m'[id].handler == m[id].handler
  }

  lemma WorkKeepsHandler(s: Sys, id: nat)
    requires Inv(s) && !s.place.Gone?
    ensures SameHandler(Nodes(s), Nodes(WorkStep(s)), id)
  {
    match s.place
    case Scan(now) => ScanNodes(s); MarkKeepsHandler(Nodes(s), now, id);
    case Drain => DrainKeepsHandler(s, id);
    case Relock(_) => RelockKeepsHandler(s, id);
    case _ => ListKeepsNodes(s);
  }

  lemma MarkKeepsHandler(m: map<nat, Timer>, now: int, id: nat)
    ensures SameHandler(m, Marked(m, now), id)
  {
  }

  lemma DrainKeepsHandler(s: Sys, id: nat)
    requires Inv(s) && s.place.Drain?
    ensures SameHandler(Nodes(s), Nodes(WorkStep(s)), id)
  {
    if FirstExpired(s.list) < |s.list| { DrainNodes(s); } else { ListKeepsNodes(s); }
  }

  lemma RelockKeepsHandler(s: Sys, id: nat)
    requires Inv(s) && s.place.Relock?
    ensures SameHandler(Nodes(s), Nodes(WorkStep(s)), id)
  {
    RelockNodes(s);
  }

  lemma ListKeepsNodes(s: Sys)
    requires !s.place.Gone? && !s.place.Relock? && !s.place.Scan?
    requires s.place.Drain? ==> FirstExpired(s.list) == |s.list|
    ensures Nodes(WorkStep(s)) == Nodes(s)
  {
    assert WorkStep(s).list == s.list && WorkStep(s).nextId == s.nextId;
  }

  lemma UpdateKeepsHandler(s: Sys, other: nat, duration: Duration, id: nat)
    requires Inv(s)
    ensures SameHandler(Nodes(s), Nodes(UpdateTimer(s, other, duration)), id)
  {
    if UpdateAccepted(s, other, duration) { UpdateNodes(s, other, duration); }
  }

  lemma DestroyKeepsHandler(s: Sys, other: nat, id: nat)
    requires Inv(s)
    ensures SameHandler(Nodes(s), Nodes(DestroyTimer(s, other)), id)
  {
    KnownNode(s, other);
    if other in Nodes(s) { DestroyNodes(s, other); }
  }

  lemma StepKeepsHandler(s: Sys, a: TimerSystem.Action, id: nat)
    requires Inv(s) && Enabled(s, a)
    ensures SameHandler(Nodes(s), Nodes(Next(s, a)), id)
  {
    match a
    case Create(handler) => if !s.termination { CreateNodes(s, handler); }
    case Update(other, duration) => UpdateKeepsHandler(s, other, duration, id);
    case Destroy(other) => DestroyKeepsHandler(s, other, id);
    case Work => WorkKeepsHandler(s, id);
    case Spurious => WorkKeepsHandler(s, id);
    case Tick(_) => assert Nodes(Next(s, a)) == Nodes(s);
    case Terminate => assert Nodes(Next(s, a)) == Nodes(s);
  }

  /** A timer that is not destroyed stays, with the handler it was created with. */
  lemma {:induction false} LiveInEveryRun(s: Sys, acts: seq<TimerSystem.Action>, id: nat)
    requires Inv(s) && Runs(s, acts) && id in Abs(s).live
    requires Retire(id) !in Labels(s, acts)
    ensures id in Abs(End(s, acts)).live
    ensures Nodes(End(s, acts))[id].handler == Nodes(s)[id].handler
    decreases |acts|
  {
    if acts != [] {
      var t := Next(s, acts[0]);
      StepSimulates(s, acts[0]);
      StepKeeps(s, acts[0]);
      assert Labels(s, acts)[0] == LabelOf(s, acts[0]);
      assert id in Apply(Abs(s), LabelOf(s, acts[0])).live;
      assert id in Nodes(t);
      StepKeepsHandler(s, acts[0], id);
      LiveInEveryRun(t, acts[1..], id);
    }
  }

  /** From its creation until it is destroyed, a timer can be stopped in every run,
      and started exactly if it was created with a handler and the manager is not
      shutting down. */
  lemma AcceptedFromCreation(s: Sys, handler: bool, acts: seq<TimerSystem.Action>, duration: Duration)
    requires Inv(s) && LockFree(s.place) && !s.termination
    requires Runs(CreateTimer(s, handler), acts)
    requires Retire(s.nextId) !in Labels(CreateTimer(s, handler), acts)
    requires LockFree(End(CreateTimer(s, handler), acts).place)
    ensures
      var e := End(CreateTimer(s, handler), acts);
      UpdateAccepted(e, s.nextId, duration) <==> duration == 0 || (handler && !e.termination)
  {
    var s' := CreateTimer(s, handler);
    CreateKeeps(s, handler);
    CreateNodes(s, handler);
    LiveInEveryRun(s', acts, s.nextId);
    RunKeeps(s', acts);
    AcceptedOnBoard(End(s', acts), s.nextId, duration);
  }

  /** When the worker is notified: a timer is created or started, the manager is
      destroyed, or the last timer goes after that. */
  lemma NotifiesExactly(s: Sys, a: TimerSystem.Action)
    requires Enabled(s, a) && a != Work && a != Spurious
    ensures Next(s, a).notified <==>
            || s.notified || a == Terminate
            || |Next(s, a).list| > |s.list|
            || Next(s, a).starts > s.starts
            || (s.termination && s.list != [] && Next(s, a).list == [])
  {
    if a.Update? && UpdateAccepted(s, a.id, a.duration) {
      assert |Next(s, a).list| == |s.list|;
    }
  }
}
