// The timer manager, with its sorted list and its lock, refines the alarm board.

/** Simulation of every step and every run of the timer manager by the board. */
module TimerRefinement {
  import opened Basics
  import opened TimerList
  import opened TimerSystem
  import opened TimerInvariant
  import opened AlarmBoard

  predicate Live(t: Timer) {
    t.access != Destruct
  }

  predicate Armed(t: Timer) {
    t.access != Destruct && t.state != Idle
  }

  /** The nodes of the list by identity. */
  ghost function Nodes(s: Sys): map<nat, Timer> {
    map id | 0 <= id < s.nextId && Lookup(s.list, id).Some? :: Lookup(s.list, id).value
  }

  ghost function BoardOf(m: map<nat, Timer>, clock: int, born: nat, starts: nat): Board {
    Board(
      (set id | id in m && Live(m[id])),
      (map id | id in m && Armed(m[id]) :: Alarm(m[id].expiration, m[id].stamp)),
      (set id | id in m && m[id].state == Expired),
      clock, born, starts)
  }

  /** The board a state of the timer manager stands for. */
  ghost function Abs(s: Sys): Board {
    BoardOf(Nodes(s), s.clock, s.nextId, s.starts)
  }

  /** What a step means on the board. */
  function LabelOf(s: Sys, a: Action): Label
    requires Enabled(s, a)
  {
    match a
    case Tick(to) => Advance(to)
    case Create(_) => if s.termination then Skip else Born(s.nextId)
    case Update(id, duration) =>
      if !UpdateAccepted(s, id, duration) then Skip
      else if duration == 0 then Disarm(id) else Arm(id, duration)
    case Destroy(id) =>
      var t := Lookup(s.list, id);
      if t.Some? && Live(t.value) then Retire(id) else Skip
    case Terminate => Skip
    case Work => WorkLabel(s)
    case Spurious => WorkLabel(s)
  }

  function WorkLabel(s: Sys): Label {
    match s.place
    case Scan(now) => Collect(now)
    case Drain =>
      var k := FirstExpired(s.list);
      if k < |s.list| then Fire(s.list[k].id) else Skip
    case _ => Skip
  }

  // ----- one lemma per step -----

  lemma KnownIds(s: Sys, id: nat)
    requires Inv(s) && Lookup(s.list, id).Some?
    ensures id < s.nextId && TimerOk(s, Lookup(s.list, id).value)
  {
  }

  lemma KnownNode(s: Sys, id: nat)
    requires Inv(s)
    ensures id in Nodes(s) <==> Lookup(s.list, id).Some?
    ensures id in Nodes(s) ==> Nodes(s)[id] == Lookup(s.list, id).value && TimerOk(s, Nodes(s)[id])
  {
    if Lookup(s.list, id).Some? { KnownIds(s, id); }
  }

  ghost predicate NodeIs(s: Sys, m: map<nat, Timer>, id: nat) {
    && (id in m <==> id < s.nextId && Lookup(s.list, id).Some?)
    && (id in m ==> Lookup(s.list, id) == Some(m[id]))
  }

  lemma NodesAre(s: Sys, m: map<nat, Timer>)
    requires forall id: nat :: NodeIs(s, m, id)
    ensures Nodes(s) == m
  {
    forall id: nat ensures id in m <==> id in Nodes(s) {
      assert NodeIs(s, m, id);
    }
    forall id | id in m ensures m[id] == Nodes(s)[id] {
      assert NodeIs(s, m, id);
    }
  }

  /** How the board changes when one node changes, or goes. */
  lemma NodePut(m: map<nat, Timer>, id: nat, t: Timer, c: int, n: nat, k: nat)
    ensures
      var b, b' := BoardOf(m, c, n, k), BoardOf(m[id := t], c, n, k);
      && b'.live == (if Live(t) then b.live + {id} else b.live - {id})
      && b'.alarms == (if Armed(t) then b.alarms[id := Alarm(t.expiration, t.stamp)] else b.alarms - {id})
      && b'.batch == (if t.state == Expired then b.batch + {id} else b.batch - {id})
  {
  }

  lemma NodeGone(m: map<nat, Timer>, id: nat, c: int, n: nat, k: nat)
    ensures
      var b := BoardOf(m, c, n, k);
      BoardOf(m - {id}, c, n, k) ==
      b.(live := b.live - {id}, alarms := b.alarms - {id}, batch := b.batch - {id})
  {
  }

  lemma PutIsBorn(m: map<nat, Timer>, handler: bool, c: int, n: nat, k: nat)
    requires n !in m
    ensures BoardOf(m[n := NewTimer(n, handler)], c, n + 1, k) == Apply(BoardOf(m, c, n, k), Born(n))
  {
    var b := BoardOf(m, c, n, k);
    NodePut(m, n, NewTimer(n, handler), c, n, k);
    assert b.alarms - {n} == b.alarms && b.batch - {n} == b.batch;
  }

  lemma PutIsArm(m: map<nat, Timer>, id: nat, duration: Duration, c: int, n: nat, k: nat)
    requires id in m && SetDuration(m[id], duration, c, k).Some?
    ensures
      var b := BoardOf(m, c, n, k);
      var t := SetDuration(m[id], duration, c, k).value;
      if duration == 0 then
        Allowed(b, Disarm(id)) && BoardOf(m[id := t], c, n, k) == Apply(b, Disarm(id))
      else
        Allowed(b, Arm(id, duration)) && BoardOf(m[id := t], c, n, k + 1) == Apply(b, Arm(id, duration))
  {
    var b := BoardOf(m, c, n, k);
    NodePut(m, id, SetDuration(m[id], duration, c, k).value, c, n, k);
    assert b.live + {id} == b.live;
  }

  lemma PutIsRetire(m: map<nat, Timer>, id: nat, t: Timer, c: int, n: nat, k: nat)
    requires id in m && t.access == Destruct && t.state != Expired
    ensures BoardOf(m[id := t], c, n, k) == Apply(BoardOf(m, c, n, k), Retire(id))
    ensures m[id].access == Destruct && m[id].state == t.state ==>
              BoardOf(m[id := t], c, n, k) == BoardOf(m, c, n, k)
  {
    NodePut(m, id, t, c, n, k);
    var b := BoardOf(m, c, n, k);
    if m[id].access == Destruct && m[id].state == t.state {
      assert b.live - {id} == b.live && b.alarms - {id} == b.alarms && b.batch - {id} == b.batch;
    }
  }

  lemma PutIsFire(m: map<nat, Timer>, id: nat, c: int, n: nat, k: nat)
    requires id in m && m[id].access == Direct
    ensures BoardOf(m[id := m[id].(state := Idle, access := Locked)], c, n, k) ==
            Apply(BoardOf(m, c, n, k), Fire(id))
  {
    var b := BoardOf(m, c, n, k);
    NodePut(m, id, m[id].(state := Idle, access := Locked), c, n, k);
    assert b.live + {id} == b.live;
  }

  lemma PutIsSkip(m: map<nat, Timer>, id: nat, c: int, n: nat, k: nat)
    requires id in m && m[id].access != Destruct
    ensures BoardOf(m[id := m[id].(access := Direct)], c, n, k) == BoardOf(m, c, n, k)
  {
  }

  lemma GoneIsSkip(m: map<nat, Timer>, id: nat, c: int, n: nat, k: nat)
    requires id in m && m[id].access == Destruct && m[id].state != Expired
    ensures BoardOf(m - {id}, c, n, k) == BoardOf(m, c, n, k)
  {
    NodeGone(m, id, c, n, k);
    var b := BoardOf(m, c, n, k);
    assert b.live - {id} == b.live && b.alarms - {id} == b.alarms && b.batch - {id} == b.batch;
  }

  lemma CreateNodes(s: Sys, handler: bool)
    requires Inv(s) && !s.termination
    ensures s.nextId !in Nodes(s)
    ensures Nodes(CreateTimer(s, handler)) == Nodes(s)[s.nextId := NewTimer(s.nextId, handler)]
  {
    var x := NewTimer(s.nextId, handler);
    forall i | 0 <= i < |s.list| ensures s.list[i].id != x.id { assert TimerOk(s, s.list[i]); }
    LookupNone(s.list, x.id);
    var s' := CreateTimer(s, handler);
    var m := Nodes(s)[x.id := x];
    forall j: nat ensures NodeIs(s', m, j) {
      LookupMerge(s.list, x, j);
      KnownNode(s, j);
    }
    NodesAre(s', m);
  }

  lemma CreateSimulates(s: Sys, handler: bool)
    requires Inv(s) && LockFree(s.place) && !s.termination
    ensures Abs(CreateTimer(s, handler)) == Apply(Abs(s), Born(s.nextId))
  {
    CreateNodes(s, handler);
    PutIsBorn(Nodes(s), handler, s.clock, s.nextId, s.starts);
  }

  lemma UpdateNodes(s: Sys, id: nat, duration: Duration)
    requires Inv(s) && UpdateAccepted(s, id, duration)
    ensures id in Nodes(s)
    ensures
      var t := SetDuration(Nodes(s)[id], duration, s.clock, s.starts);
      t.Some? && Nodes(UpdateTimer(s, id, duration)) == Nodes(s)[id := t.value]
  {
    var k := IndexOf(s.list, id);
    var rest := RemoveAt(s.list, k);
    var t := SetDuration(s.list[k], duration, s.clock, s.starts).value;
    KnownNode(s, id);
    RemoveKeeps(s.list, k);
    RemoveMembers(s.list, k);
    forall i | 0 <= i < |rest| ensures rest[i].id != id { assert rest[i] in rest; }
    var s' := UpdateTimer(s, id, duration);
    var m := Nodes(s)[id := t];
    forall j: nat ensures NodeIs(s', m, j) {
      LookupRemove(s.list, k, j);
      LookupMerge(rest, t, j);
      KnownNode(s, j);
    }
    NodesAre(s', m);
  }

  lemma UpdateSimulates(s: Sys, id: nat, duration: Duration)
    requires Inv(s) && LockFree(s.place) && UpdateAccepted(s, id, duration)
    ensures
      var l := LabelOf(s, Update(id, duration));
      Allowed(Abs(s), l) && Abs(UpdateTimer(s, id, duration)) == Apply(Abs(s), l)
  {
    UpdateNodes(s, id, duration);
    PutIsArm(Nodes(s), id, duration, s.clock, s.nextId, s.starts);
  }

  lemma DestroyNodes(s: Sys, id: nat)
    requires Inv(s) && id in Nodes(s)
    ensures
      var t := Nodes(s)[id];
      Nodes(DestroyTimer(s, id)) ==
      if t.access == Direct then Nodes(s) - {id}
      else Nodes(s)[id := t.(inst := false, access := Destruct)]
  {
    var k := IndexOf(s.list, id);
    var t := s.list[k].(inst := false, access := Destruct);
    var s' := DestroyTimer(s, id);
    var m := if s.list[k].access == Direct then Nodes(s) - {id} else Nodes(s)[id := t];
    forall j: nat ensures NodeIs(s', m, j) {
      LookupRemove(s.list, k, j);
      LookupUpdate(s.list, k, t, j);
      KnownNode(s, j);
    }
    NodesAre(s', m);
  }

  lemma DestroySimulates(s: Sys, id: nat)
    requires Inv(s) && LockFree(s.place)
    ensures
      var l := LabelOf(s, Destroy(id));
      Allowed(Abs(s), l) && Abs(DestroyTimer(s, id)) == Apply(Abs(s), l)
  {
    KnownNode(s, id);
    if id in Nodes(s) {
      var t := Nodes(s)[id];
      DestroyNodes(s, id);
      if t.access == Direct {
        NodeGone(Nodes(s), id, s.clock, s.nextId, s.starts);
      } else {
        PutIsRetire(Nodes(s), id, t.(inst := false, access := Destruct), s.clock, s.nextId, s.starts);
      }
    }
  }

  ghost function Mark(t: Timer, now: int): Timer {
    if Due(t, now) then t.(state := Expired) else t
  }

  ghost function Marked(m: map<nat, Timer>, now: int): map<nat, Timer> {
    map id | id in m :: Mark(m[id], now)
  }

  lemma ScanLookup(s: Sys, id: nat)
    requires Inv(s) && s.place.Scan?
    ensures
      var t := Lookup(s.list, id);
      Lookup(WorkStep(s).list, id) == if t.Some? then Some(Mark(t.value, s.place.now)) else None
  {
    var k := DuePrefix(s.list, s.place.now);
    ScanMarksTheDue(s);
    if k > 0 {
      SpliceKeeps(s.list, k);
      LookupSplice(s.list, k, id);
    }
  }

  lemma ScanNodes(s: Sys)
    requires Inv(s) && s.place.Scan?
    ensures Nodes(WorkStep(s)) == Marked(Nodes(s), s.place.now)
  {
    var s' := WorkStep(s);
    var m := Marked(Nodes(s), s.place.now);
    forall j: nat ensures NodeIs(s', m, j) {
      ScanLookup(s, j);
      KnownNode(s, j);
    }
    NodesAre(s', m);
  }

  lemma ScanFindsDirect(s: Sys)
    requires Inv(s) && s.place.Scan?
    ensures s.place.now <= s.clock
    ensures forall id :: id in Nodes(s) ==> Nodes(s)[id].access == Direct && Nodes(s)[id].state != Expired
  {
    forall id | id in Nodes(s)
      ensures Nodes(s)[id].access == Direct && Nodes(s)[id].state != Expired
    {
      KnownNode(s, id);
    }
  }

  lemma BoardMark(m: map<nat, Timer>, now: int, c: int, n: nat, k: nat)
    requires forall id :: id in m ==> m[id].access == Direct && m[id].state != Expired
    ensures
      var b := BoardOf(m, c, n, k);
      && b.batch == {}
      && BoardOf(Marked(m, now), c, n, k) == Apply(b, Collect(now))
  {
  }

  /** The prefix scan and splice do what a full scan of the alarms does. */
  lemma ScanSimulates(s: Sys)
    requires Inv(s) && s.place.Scan?
    ensures Allowed(Abs(s), WorkLabel(s)) && Abs(WorkStep(s)) == Apply(Abs(s), WorkLabel(s))
  {
    ScanNodes(s);
    ScanFindsDirect(s);
    BoardMark(Nodes(s), s.place.now, s.clock, s.nextId, s.starts);
  }

  /** The first expired timer of the list is the earliest alarm of the batch. */
  lemma FirstExpiredIsEarliest(s: Sys, j: nat)
    requires Inv(s) && FirstExpired(s.list) < |s.list|
    requires j in Abs(s).batch
    ensures
      var first := s.list[FirstExpired(s.list)];
      && first.id in Abs(s).batch && first.id in Abs(s).alarms && j in Abs(s).alarms
      && Abs(s).alarms[first.id] == Alarm(first.expiration, first.stamp)
      && (j != first.id ==> Earlier(Abs(s).alarms[first.id], Abs(s).alarms[j]))
  {
    var k := FirstExpired(s.list);
    LookupAt(s.list, k);
    KnownNode(s, s.list[k].id);
    KnownNode(s, j);
    var i := IndexOf(s.list, j);
    assert i == k || Before(s.list[k], s.list[i]);
  }

  lemma DrainNodes(s: Sys)
    requires Inv(s) && s.place.Drain? && FirstExpired(s.list) < |s.list|
    ensures
      var t := s.list[FirstExpired(s.list)];
      && t.id in Nodes(s) && Nodes(s)[t.id] == t
      && Nodes(WorkStep(s)) == Nodes(s)[t.id := t.(state := Idle, access := Locked)]
  {
    var k := FirstExpired(s.list);
    var t := s.list[k].(state := Idle, access := Locked);
    LookupAt(s.list, k);
    KnownNode(s, t.id);
    var s' := WorkStep(s);
    var m := Nodes(s)[t.id := t];
    forall j: nat ensures NodeIs(s', m, j) {
      LookupUpdate(s.list, k, t, j);
      KnownNode(s, j);
    }
    NodesAre(s', m);
  }

  /** The timer taken next is the earliest of the batch. */
  lemma DrainSimulates(s: Sys)
    requires Inv(s) && s.place.Drain?
    ensures Allowed(Abs(s), WorkLabel(s)) && Abs(WorkStep(s)) == Apply(Abs(s), WorkLabel(s))
  {
    var k := FirstExpired(s.list);
    if k < |s.list| {
      var id := s.list[k].id;
      DrainNodes(s);
      KnownNode(s, id);
      PutIsFire(Nodes(s), id, s.clock, s.nextId, s.starts);
      forall j | j in Abs(s).batch && j != id
        ensures Earlier(Abs(s).alarms[id], Abs(s).alarms[j])
      {
        FirstExpiredIsEarliest(s, j);
      }
    } else {
      assert Nodes(WorkStep(s)) == Nodes(s);
    }
  }

  lemma RelockNodes(s: Sys)
    requires Inv(s) && s.place.Relock?
    ensures s.place.id in Nodes(s)
    ensures
      var t := Nodes(s)[s.place.id];
      && t.id == s.place.id
      && Nodes(WorkStep(s)) ==
         if t.access == Destruct then Nodes(s) - {t.id} else Nodes(s)[t.id := t.(access := Direct)]
  {
    var k := IndexOf(s.list, s.place.id);
    var t := s.list[k].(access := Direct);
    KnownNode(s, t.id);
    var s' := WorkStep(s);
    var m := if s.list[k].access == Destruct then Nodes(s) - {t.id} else Nodes(s)[t.id := t];
    forall j: nat ensures NodeIs(s', m, j) {
      LookupUpdate(s.list, k, t, j);
      LookupRemove(s.list, k, j);
      KnownNode(s, j);
    }
    NodesAre(s', m);
  }

  lemma RelockSimulates(s: Sys)
    requires Inv(s) && s.place.Relock?
    ensures Abs(WorkStep(s)) == Abs(s)
  {
    var id := s.place.id;
    RelockNodes(s);
    KnownNode(s, id);
    if Nodes(s)[id].access == Destruct {
      GoneIsSkip(Nodes(s), id, s.clock, s.nextId, s.starts);
    } else {
      PutIsSkip(Nodes(s), id, s.clock, s.nextId, s.starts);
    }
  }

  lemma WorkSimulates(s: Sys)
    requires Inv(s) && !s.place.Gone?
    ensures Allowed(Abs(s), WorkLabel(s)) && Abs(WorkStep(s)) == Apply(Abs(s), WorkLabel(s))
  {
    match s.place
    case Scan(_) => ScanSimulates(s);
    case Drain => DrainSimulates(s);
    case Relock(_) => RelockSimulates(s);
    case Gone =>
    case _ => SameNodes(s);
  }

  /** The worker's other steps leave the list alone. */
  lemma SameNodes(s: Sys)
    requires !s.place.Scan? && !s.place.Drain? && !s.place.Relock? && !s.place.Gone?
    ensures WorkLabel(s) == Skip && Abs(WorkStep(s)) == Abs(s)
  {
    assert WorkStep(s).list == s.list;
  }

  /** Every step of the timer manager is a step of the alarm board. */
  lemma StepSimulates(s: Sys, a: Action)
    requires Inv(s) && Enabled(s, a)
    ensures Allowed(Abs(s), LabelOf(s, a))
    ensures Abs(Next(s, a)) == Apply(Abs(s), LabelOf(s, a))
  {
    match a
    case Create(handler) => if !s.termination { CreateSimulates(s, handler); }
    case Update(id, duration) =>
      if UpdateAccepted(s, id, duration) { UpdateSimulates(s, id, duration); }
    case Destroy(id) => DestroySimulates(s, id);
    case Work => WorkSimulates(s);
    case Spurious => WorkSimulates(s);
    case _ =>
  }

  lemma AbsOk(s: Sys)
    requires Inv(s)
    ensures BoardOk(Abs(s))
  {
    forall id | id in Nodes(s) ensures TimerOk(s, Nodes(s)[id]) { KnownNode(s, id); }
  }

  // ----- runs -----

  function Labels(s: Sys, acts: seq<Action>): seq<Label>
    requires Runs(s, acts)
    decreases |acts|
  {
    if acts == [] then [] else [LabelOf(s, acts[0])] + Labels(Next(s, acts[0]), acts[1..])
  }

  /** Every run of the timer manager is a run of the alarm board. */
  lemma {:induction false} RunSimulates(s: Sys, acts: seq<Action>)
    requires Inv(s) && Runs(s, acts)
    ensures Follows(Abs(s), Labels(s, acts))
    ensures Abs(End(s, acts)) == After(Abs(s), Labels(s, acts))
    decreases |acts|
  {
    if acts != [] {
      StepSimulates(s, acts[0]);
      StepKeeps(s, acts[0]);
      RunSimulates(Next(s, acts[0]), acts[1..]);
    }
  }

  /** Selections of timer `id` for its call-back in a run. */
  function Selections(s: Sys, acts: seq<Action>, id: nat): nat
    requires Runs(s, acts)
  {
    Fires(Labels(s, acts), id)
  }

  /** Successful starts of timer `id` with a non-zero duration in a run. */
  function Starts(s: Sys, acts: seq<Action>, id: nat): nat
    requires Runs(s, acts)
  {
    Arms(Labels(s, acts), id)
  }

  /** From the creation of the manager on, a timer's call-backs, and one more
      while it is active or expired, are never more than its successful starts. */
  lemma AtMostOneCallbackPerStart(clock: int, acts: seq<Action>, id: nat)
    requires Runs(Init(clock), acts)
    ensures
      var s := End(Init(clock), acts);
      Selections(Init(clock), acts, id) + (if id in Nodes(s) && Armed(Nodes(s)[id]) then 1 else 0)
        <= Starts(Init(clock), acts, id)
  {
    var s0 := Init(clock);
    InitOk(clock);
    RunSimulates(s0, acts);
    RunKeeps(s0, acts);
    FiresArePaidFor(Abs(s0), Labels(s0, acts), id);
  }

  /** After a successful stop a timer is not selected before it is started again. */
  lemma StopIsSafe(s: Sys, id: nat, acts: seq<Action>)
    requires Inv(s) && LockFree(s.place) && UpdateAccepted(s, id, 0)
    requires Runs(UpdateTimer(s, id, 0), acts)
    requires Starts(UpdateTimer(s, id, 0), acts, id) == 0
    ensures Selections(UpdateTimer(s, id, 0), acts, id) == 0
  {
    var s' := UpdateTimer(s, id, 0);
    UpdateKeeps(s, id, 0);
    UpdateSimulates(s, id, 0);
    RunSimulates(s', acts);
    FiresArePaidFor(Abs(s'), Labels(s', acts), id);
  }

  /** Stopping a timer does not wait for a call-back that is already running:
      the documented "no call-back once this function returns" is about selections. */
  lemma StopDoesNotWait()
    ensures exists acts: seq<Action> :: Runs(Init(0), acts) &&
              var s := End(Init(0), acts);
              UpdateAccepted(s, 0, 0) && UpdateTimer(s, 0, 0).place == Handler(0)
  {
    var s0 := Init(0);
    var live := Timer(0, true, true, MS, Active, Direct, 0);
    var acts := ExtendRun(s0, [], Create(true));
    assert End(s0, acts).list == [NewTimer(0, true)];
    acts := ExtendRun(s0, acts, Update(0, 1));
    assert End(s0, acts).list == [live];
    acts := ExtendRun(s0, acts, Tick(1));
    acts := ExtendRun(s0, acts, Work);
    acts := ExtendRun(s0, acts, Work);
    assert End(s0, acts).list == [live.(state := Expired)];
    acts := ExtendRun(s0, acts, Work);
    assert End(s0, acts).list == [live.(state := Idle, access := Locked)];
    assert UpdateAccepted(End(s0, acts), 0, 0);
  }

  /** The call-back of a timer is entered only by selecting it. */
  lemma {:induction false} EnteredBySelection(s: Sys, acts: seq<Action>, id: nat)
    requires Runs(s, acts) && s.place != Handler(id) && Selections(s, acts, id) == 0
    ensures End(s, acts).place != Handler(id)
    decreases |acts|
  {
    if acts != [] {
      EnteredBySelection(Next(s, acts[0]), acts[1..], id);
    }
  }

  /** For which stops the documented promise holds: no call-back of the timer is
      running at any time before its next start exactly if none was running
      when it was stopped. */
  lemma StopExactly(s: Sys, id: nat)
    requires Inv(s) && LockFree(s.place) && UpdateAccepted(s, id, 0)
    ensures (forall acts | Runs(UpdateTimer(s, id, 0), acts) && Starts(UpdateTimer(s, id, 0), acts, id) == 0 ::
               End(UpdateTimer(s, id, 0), acts).place != Handler(id)) <==> s.place != Handler(id)
  {
    var s' := UpdateTimer(s, id, 0);
    if s.place == Handler(id) {
      assert Runs(s', []) && Starts(s', [], id) == 0 && End(s', []).place == Handler(id);
    } else {
      forall acts | Runs(s', acts) && Starts(s', acts, id) == 0
        ensures End(s', acts).place != Handler(id)
      {
        StopIsSafe(s, id, acts);
        EnteredBySelection(s', acts, id);
      }
    }
  }

  lemma DestroyedIsRetired(s: Sys, id: nat)
    requires Inv(s) && LockFree(s.place) && id in Nodes(s) && Live(Nodes(s)[id])
    ensures Allowed(Abs(s), Retire(id)) && Abs(DestroyTimer(s, id)) == Apply(Abs(s), Retire(id))
  {
    KnownNode(s, id);
    DestroySimulates(s, id);
  }

  lemma RetiredIsGone(b: Board, id: nat)
    requires BoardOk(b) && Allowed(b, Retire(id))
    ensures BoardOk(Apply(b, Retire(id)))
    ensures id !in Apply(b, Retire(id)).live && id < Apply(b, Retire(id)).born
  {
  }

  /** A destroyed timer is never started or selected again. */
  lemma DestroyIsSafe(s: Sys, id: nat, acts: seq<Action>)
    requires Inv(s) && LockFree(s.place) && id in Nodes(s) && Live(Nodes(s)[id])
    requires Runs(DestroyTimer(s, id), acts)
    ensures Selections(DestroyTimer(s, id), acts, id) == 0
    ensures Starts(DestroyTimer(s, id), acts, id) == 0
  {
    var s' := DestroyTimer(s, id);
    DestroyKeeps(s, id);
    AbsOk(s);
    DestroyedIsRetired(s, id);
    RetiredIsGone(Abs(s), id);
    RunSimulates(s', acts);
    RetiredStaysSilent(Abs(s'), Labels(s', acts), id);
  }

  /** A timer is selected only when under a millisecond of its last start's
      running time is left; its handler and API object are then there to call. */
  lemma SelectedWhenDue(s: Sys)
    requires Inv(s) && s.place.Drain? && FirstExpired(s.list) < |s.list|
    ensures
      var t := s.list[FirstExpired(s.list)];
      && t.expiration - s.clock < MS
      && t.id in Abs(s).alarms && Abs(s).alarms[t.id] == Alarm(t.expiration, t.stamp)
      && WorkStep(s).place == Handler(t.id)
  {
    var k := FirstExpired(s.list);
    DrainNodes(s);
    assert TimerOk(s, s.list[k]);
  }

  /** If a timer started for `duration` is selected and was not started again
      meanwhile, more than `duration` less one millisecond has passed. */
  lemma NeverEarly(s: Sys, id: nat, duration: Duration, acts: seq<Action>)
    requires Inv(s) && LockFree(s.place) && duration > 0 && UpdateAccepted(s, id, duration)
    requires Runs(UpdateTimer(s, id, duration), acts)
    requires Starts(UpdateTimer(s, id, duration), acts, id) == 0
    requires
      var e := End(UpdateTimer(s, id, duration), acts);
      e.place.Drain? && FirstExpired(e.list) < |e.list| && e.list[FirstExpired(e.list)].id == id
    ensures End(UpdateTimer(s, id, duration), acts).clock - s.clock > (duration - 1) * MS
  {
    var s' := UpdateTimer(s, id, duration);
    var e := End(s', acts);
    UpdateKeeps(s, id, duration);
    UpdateSimulates(s, id, duration);
    RunKeeps(s', acts);
    RunSimulates(s', acts);
    SelectedWhenDue(e);
    AlarmKept(Abs(s'), Labels(s', acts), id);
  }

  /** Call-backs between two scans come in order of expiration, ties in order
      of starting, whatever the clients stop, restart or destroy in between. */
  lemma CallbacksInOrder(s: Sys, acts: seq<Action>)
    requires Inv(s) && s.place.Drain? && FirstExpired(s.list) < |s.list|
    requires Runs(WorkStep(s), acts)
    requires forall l :: l in Labels(WorkStep(s), acts) ==> !l.Collect?
    requires End(WorkStep(s), acts).place.Drain?
    requires FirstExpired(End(WorkStep(s), acts).list) < |End(WorkStep(s), acts).list|
    ensures
      var e := End(WorkStep(s), acts);
      var first, second := s.list[FirstExpired(s.list)], e.list[FirstExpired(e.list)];
      second.id != first.id && Before(first, second)
  {
    var s' := WorkStep(s);
    var e := End(s', acts);
    WorkKeeps(s);
    RunKeeps(s', acts);
    AbsOk(s);
    DrainSimulates(s);
    RunSimulates(s', acts);
    DrainSimulates(e);
    SelectedWhenDue(s);
    SelectedWhenDue(e);
    BatchFiresInOrder(Abs(s), s.list[FirstExpired(s.list)].id, Labels(s', acts), e.list[FirstExpired(e.list)].id);
  }

  /** No step of the run starts, stops or destroys the timer. */
  predicate LeftAlone(s: Sys, acts: seq<Action>, id: nat)
    requires Runs(s, acts)
  {
    forall l :: l in Labels(s, acts) ==> !Disturbs(l, id)
  }

  /** What the scan collects: the timers that are due. */
  lemma ScanCollects(s: Sys, id: nat)
    requires Inv(s) && s.place.Scan? && id in Nodes(s)
    ensures id in Abs(WorkStep(s)).batch <==> Due(Nodes(s)[id], s.place.now)
  {
    ScanNodes(s);
    ScanFindsDirect(s);
  }

  /** When the call-backs of a scan are done, no timer is expired. */
  lemma RescanIsEmpty(s: Sys)
    requires Inv(s) && s.place.Rescan?
    ensures Abs(s).batch == {}
  {
    forall id | id in Nodes(s) ensures Nodes(s)[id].state != Expired { KnownNode(s, id); }
  }

  lemma {:induction false} LeftAloneStarts(ls: seq<Label>, id: nat)
    requires forall l :: l in ls ==> !Disturbs(l, id)
    ensures Arms(ls, id) == 0
  {
    if ls != [] {
      assert ls[0] in ls;
      LeftAloneStarts(ls[1..], id);
    }
  }

  /** Every timer that a scan finds due, and that clients leave alone, has been
      selected exactly once when the worker is done with the call-backs. */
  lemma DueIsSelected(s: Sys, acts: seq<Action>, id: nat)
    requires Inv(s) && s.place.Scan? && id in Nodes(s) && Due(Nodes(s)[id], s.place.now)
    requires Runs(WorkStep(s), acts) && LeftAlone(WorkStep(s), acts, id)
    requires End(WorkStep(s), acts).place.Rescan?
    ensures Selections(WorkStep(s), acts, id) == 1
  {
    var s' := WorkStep(s);
    var ls := Labels(s', acts);
    WorkKeeps(s);
    ScanCollects(s, id);
    RunKeeps(s', acts);
    RunSimulates(s', acts);
    RescanIsEmpty(End(s', acts));
    CollectedFires(Abs(s'), ls, id);
    LeftAloneStarts(ls, id);
    FiresArePaidFor(Abs(s'), ls, id);
  }

  /** A timer that a scan does not find due is not selected before the next scan,
      whatever the clients do with it. */
  lemma OnlyDueAreSelected(s: Sys, acts: seq<Action>, id: nat)
    requires Inv(s) && s.place.Scan? && (id in Nodes(s) ==> !Due(Nodes(s)[id], s.place.now))
    requires Runs(WorkStep(s), acts)
    requires forall l :: l in Labels(WorkStep(s), acts) ==> !l.Collect?
    ensures Selections(WorkStep(s), acts, id) == 0
  {
    var s' := WorkStep(s);
    WorkKeeps(s);
    ScanNodes(s);
    ScanFindsDirect(s);
    RunSimulates(s', acts);
    NotCollectedIsSilent(Abs(s'), Labels(s', acts), id);
  }
}
