// The list invariant over every step and every run of the timer manager, and
// how long its worker sleeps.

/** The timer manager's list invariant, step by step and over whole runs. */
module TimerInvariant {
  import opened TimerList
  import opened TimerSystem

  // ----- the worker's steps -----

  /** The prefix the scan marks is the set of all timers that are due. */
  lemma ScanMarksTheDue(s: Sys)
    requires Inv(s) && s.place.Scan?
    ensures forall i :: 0 <= i < |s.list| ==>
              (i < DuePrefix(s.list, s.place.now) <==> Due(s.list[i], s.place.now))
    ensures forall t :: t in s.list ==> t.state != Expired
  {
    forall t | t in s.list ensures InReach(t, s.place.now) && t.state != Expired {
      assert TimerOk(s, t);
    }
    DuePrefixIsFullScan(s.list, s.place.now);
  }

  lemma SpliceMember(l: seq<Timer>, k: nat, t: Timer) returns (i: nat)
    requires k <= |l| && t in SpliceExpired(l, k)
    ensures i < |l| && t == if i < k then l[i].(state := Expired) else l[i]
  {
    var r := SpliceExpired(l, k);
    var j :| 0 <= j < |r| && r[j] == t;
    i := if j < |l| - k then j + k else j - (|l| - k);
  }

  lemma ScanKeeps(s: Sys)
    requires Inv(s) && s.place.Scan?
    ensures Inv(WorkStep(s))
  {
    var k := DuePrefix(s.list, s.place.now);
    var s' := WorkStep(s);
    ScanMarksTheDue(s);
    if k == 0 {
      forall t | t in s.list ensures TimerOk(s', t) {
        assert TimerOk(s, t);
        assert s.list[IndexIn(s.list, t)] == t;
      }
    } else {
      SpliceKeeps(s.list, k);
      forall t | t in s'.list ensures TimerOk(s', t) {
        var i := SpliceMember(s.list, k, t);
        assert s.list[i] in s.list && TimerOk(s, s.list[i]);
        assert i < k <==> Due(s.list[i], s.place.now);
      }
    }
  }

  lemma DrainKeeps(s: Sys)
    requires Inv(s) && s.place.Drain?
    ensures Inv(WorkStep(s))
  {
    var k := FirstExpired(s.list);
    var s' := WorkStep(s);
    if k < |s.list| {
      var t := s.list[k].(state := Idle, access := Locked);
      assert TimerOk(s, s.list[k]);
      SelectKeeps(s.list, k, t);
      LookupAt(s'.list, k);
      forall i | 0 <= i < |s.list| ensures TimerOk(s', s'.list[i]) {
        assert TimerOk(s, s.list[i]);
        assert i != k ==> s.list[i].id != t.id;
      }
    } else {
      forall t | t in s.list ensures TimerOk(s', t) { assert TimerOk(s, t); }
    }
  }

  lemma RelockKeeps(s: Sys)
    requires Inv(s) && s.place.Relock?
    ensures Inv(WorkStep(s))
  {
    var k := IndexOf(s.list, s.place.id);
    var s' := WorkStep(s);
    var t := s.list[k];
    forall i | 0 <= i < |s.list| && i != k ensures TimerOk(s', s.list[i]) {
      assert TimerOk(s, s.list[i]);
      assert s.list[i].id != t.id;
    }
    if t.access != Destruct {
      assert TimerOk(s, t);
      TouchKeeps(s.list, k, t.(access := Direct));
    } else {
      RemoveKeeps(s.list, k);
      RemoveMembers(s.list, k);
      forall u | u in s'.list ensures TimerOk(s', u) {
        assert s.list[IndexIn(s.list, u)] == u;
      }
    }
  }

  ghost function IndexIn(l: seq<Timer>, t: Timer): (i: nat)
    requires t in l
    ensures i < |l| && l[i] == t
  {
    var i :| 0 <= i < |l| && l[i] == t; i
  }

  /** What is known when the worker has decided how long to sleep: the sleep is
      the earliest active timer's remaining time in whole milliseconds; it is
      unbounded exactly when no timer is active or when the earliest one has
      fallen under a millisecond since the scan found nothing due. */
  lemma SleepTimeIsExact(s: Sys)
    requires Inv(s) && s.place.Settle?
    ensures SleepTime(s) == 0 <==> (forall t :: t in s.list ==> t.state != Active) || Due(s.list[0], s.clock)
    ensures forall t :: t in s.list && t.state == Active ==>
              s.list[0].state == Active && s.list[0].expiration <= t.expiration
    ensures SleepTime(s) > 0 ==>
              SleepTime(s) * MS <= s.list[0].expiration - s.clock < (SleepTime(s) + 1) * MS
    ensures SleepTime(s) == 0 && (exists t :: t in s.list && t.state == Active) ==>
              s.list[0].expiration - s.place.scanned >= MS > s.list[0].expiration - s.clock
  {
    if s.list != [] {
      var front := s.list[0];
      assert TimerOk(s, front);
      GetDurationIsExact(front, s.clock);
      forall t | t in s.list && t.state == Active
        ensures front.state == Active && front.expiration <= t.expiration
      {
        var j := IndexIn(s.list, t);
        assert j == 0 || Before(front, s.list[j]);
      }
    }
  }

  /** The duration to the next invocation at `now`: 0 if no timer is active or the
      front one has under a millisecond left, else the whole milliseconds that the
      earliest active timer has left. */
  predicate NextInterval(l: seq<Timer>, now: int, duration: Duration) {
    && (duration == 0 <==> (forall t :: t in l ==> t.state != Active) || Due(l[0], now))
    && (duration > 0 ==>
          && (forall t :: t in l && t.state == Active ==> duration * MS <= t.expiration - now)
          && (exists t :: t in l && t.state == Active && t.expiration - now < (duration + 1) * MS))
  }

  lemma SleepTimeIsInterval(s: Sys)
    requires Inv(s) && s.place.Settle?
    ensures NextInterval(s.list, s.clock, SleepTime(s))
  {
    SleepTimeIsExact(s);
    if SleepTime(s) > 0 {
      var t :| t in s.list && t.state == Active;
      assert s.list[0] in s.list && s.list[0].state == Active;
    }
  }

  /** What the worker then does: it sleeps for exactly the whole milliseconds the
      front timer has left, or without a time-out. */
  lemma SleepsExactly(s: Sys)
    requires Inv(s) && s.place.Settle?
    ensures
      var s' := WorkStep(s);
      && s'.place.Asleep? && s'.place.since == s.clock && !s'.notified && s'.list == s.list
      && (s'.place.ms > 0 ==>
            && s.list != [] && s.list[0].state == Active
            && s'.place.ms * MS <= s.list[0].expiration - s.clock < (s'.place.ms + 1) * MS)
      && (s'.place.ms == 0 <==> (forall t :: t in s.list ==> t.state != Active) || Due(s.list[0], s.clock))
  {
    SleepTimeIsExact(s);
  }

  lemma SettleKeeps(s: Sys)
    requires Inv(s) && s.place.Settle?
    ensures Inv(WorkStep(s))
  {
    var s' := WorkStep(s);
    SleepTimeIsExact(s);
    forall t | t in s.list ensures TimerOk(s', t) { assert TimerOk(s, t); }
  }

  lemma OtherWorkKeeps(s: Sys)
    requires Inv(s) && !s.place.Gone?
    requires !s.place.Scan? && !s.place.Drain? && !s.place.Relock? && !s.place.Settle?
    ensures Inv(WorkStep(s))
  {
    var s' := WorkStep(s);
    forall t | t in s.list ensures TimerOk(s', t) { assert TimerOk(s, t); }
  }

  lemma WorkKeeps(s: Sys)
    requires Inv(s) && !s.place.Gone?
    ensures Inv(WorkStep(s))
  {
    match s.place
    case Scan(_) => ScanKeeps(s);
    case Drain => DrainKeeps(s);
    case Relock(_) => RelockKeeps(s);
    case Settle(_) => SettleKeeps(s);
    case _ => OtherWorkKeeps(s);
  }

  // ----- every step, every run -----

  lemma StepKeeps(s: Sys, a: Action)
    requires Inv(s) && Enabled(s, a)
    ensures Inv(Next(s, a))
  {
    match a
    case Create(handler) => CreateKeeps(s, handler);
    case Update(id, duration) => UpdateKeeps(s, id, duration);
    case Destroy(id) => DestroyKeeps(s, id);
    case Work => WorkKeeps(s);
    case Spurious => WorkKeeps(s);
    case _ =>
      var s' := Next(s, a);
      forall t | t in s.list ensures TimerOk(s', t) { assert TimerOk(s, t); }
  }

  lemma {:induction false} RunKeeps(s: Sys, acts: seq<Action>)
    requires Inv(s) && Runs(s, acts)
    ensures Inv(End(s, acts))
    decreases |acts|
  {
    if acts != [] {
      StepKeeps(s, acts[0]);
      RunKeeps(Next(s, acts[0]), acts[1..]);
    }
  }

  /** In every interleaving the list holds each timer once, active ones first
      by expiration, then idle ones, then expired ones; only the timer being
      served is locked or marked for destruction, and it is still in the list. */
  lemma ListInEveryRun(clock: int, acts: seq<Action>)
    requires Runs(Init(clock), acts)
    ensures
      var s := End(Init(clock), acts);
      && InOrder(s.list) && Distinct(s.list)
      && (forall t :: t in s.list && t.access != Direct ==> Serving(s.place, t.id))
      && (s.place.Handler? || s.place.Relock? ==> exists t :: t in s.list && t.id == s.place.id)
      && (s.place.Gone? ==> s.list == [])
  {
    InitOk(clock);
    RunKeeps(Init(clock), acts);
    var s := End(Init(clock), acts);
    forall t | t in s.list ensures TimerOk(s, t) {}
    if s.place.Handler? || s.place.Relock? {
      assert s.list[IndexOf(s.list, s.place.id)] in s.list;
    }
  }

  /** While the worker sleeps un-notified, its time-out is not later than any
      active timer, and every active timer had at least a millisecond left when
      the list was scanned.  An unbounded sleep beside an active timer means
      that the clock moved between the scan and the second reading. */
  lemma SleepInEveryRun(clock: int, acts: seq<Action>)
    requires Runs(Init(clock), acts)
    ensures
      var s := End(Init(clock), acts);
      s.place.Asleep? && !s.notified ==>
        forall t :: t in s.list && t.state == Active ==>
          && (s.place.ms > 0 ==> t.expiration >= s.place.since + s.place.ms * MS)
          && t.expiration >= s.place.scanned + MS
          && (s.place.ms == 0 ==> s.place.scanned < s.place.since)
  {
    InitOk(clock);
    RunKeeps(Init(clock), acts);
    var s := End(Init(clock), acts);
    forall t | t in s.list ensures TimerOk(s, t) {}
  }

  /** An active timer past its expiration gets the worker's attention: the worker
      can go on, or has left its loop for the last wait, or sleeps without a
      time-out because the clock moved between its two readings. */
  lemma OverdueIsSeen(clock: int, acts: seq<Action>, t: Timer)
    requires Runs(Init(clock), acts) && t in End(Init(clock), acts).list
    requires t.state == Active && t.expiration <= End(Init(clock), acts).clock
    ensures
      var s := End(Init(clock), acts);
      CanWork(s) || s.place.LastWait? || (s.place.Asleep? && s.place.ms == 0 && s.place.scanned < s.place.since)
  {
    SleepInEveryRun(clock, acts);
    ListInEveryRun(clock, acts);
  }

  /** In every run the remaining time of a timer is what `getDuration` returns:
      the conversion to 32 bits never truncates. */
  lemma NeverTruncates(clock: int, acts: seq<Action>, t: Timer)
    requires Runs(Init(clock), acts) && t in End(Init(clock), acts).list && t.state == Active
    ensures
      var now := End(Init(clock), acts).clock;
      GetDuration(t, now) == if t.expiration <= now then 0 else (t.expiration - now) / MS
  {
    InitOk(clock);
    RunKeeps(Init(clock), acts);
    var s := End(Init(clock), acts);
    assert TimerOk(s, t);
    GetDurationIsExact(t, s.clock);
  }

  /** The documented reading of a zero result, "list is empty", fails: a timer
      of two milliseconds can be left active with the worker asleep for good. */
  lemma OversleepHappens()
    ensures exists acts: seq<Action> :: Runs(Init(0), acts) &&
              var s := End(Init(0), acts);
              s.place.Asleep? && s.place.ms == 0 && !s.notified && exists t :: t in s.list && t.state == Active
  {
    var s0 := Init(0);
    var t := Timer(0, true, true, 2 * MS, Active, Direct, 0);
    var acts := ExtendRun(s0, [], Create(true));
    assert End(s0, acts).list == [NewTimer(0, true)];
    acts := ExtendRun(s0, acts, Update(0, 2));
    assert End(s0, acts).list == [t];
    acts := ExtendRun(s0, acts, Work);
    acts := ExtendRun(s0, acts, Work);
    acts := ExtendRun(s0, acts, Tick(MS + 1));
    acts := ExtendRun(s0, acts, Work);
    assert End(s0, acts).place == Asleep(0, 0, MS + 1);
    assert t in End(s0, acts).list;
  }
}
