// What a timer manager is for, without lists, locks or states: a board of
// alarms.  Its theorems are what clients of the timer manager rely on.

/** The alarm board and the properties of its runs. */
module AlarmBoard {
  import opened TimerList

  datatype Alarm = Alarm(due: int, order: nat)

  /** `live`: timers created and not yet destroyed.  `alarms`: those armed.
      `batch`: those collected as due and not yet fired. */
  datatype Board = Board(
    live: set<nat>, alarms: map<nat, Alarm>, batch: set<nat>, clock: int, born: nat, starts: nat)

  datatype Label =
    | Skip
    | Advance(to: int)
    | Born(id: nat)
    | Arm(id: nat, duration: Duration)
    | Disarm(id: nat)
    | Retire(id: nat)
    | Collect(now: int)
    | Fire(id: nat)

  predicate Earlier(a: Alarm, b: Alarm) {
    a.due < b.due || (a.due == b.due && a.order < b.order)
  }

  ghost predicate Allowed(b: Board, l: Label) {
    match l
    case Skip => true
    case Advance(to) => b.clock <= to
    case Born(id) => id == b.born
    case Arm(id, duration) => id in b.live && duration > 0
    case Disarm(id) => id in b.live
    case Retire(id) => id in b.live
    case Collect(now) => b.batch == {} && now <= b.clock
    case Fire(id) =>
      && id in b.batch && id in b.alarms
      && forall j :: j in b.batch && j in b.alarms && j != id ==> Earlier(b.alarms[id], b.alarms[j])
  }

  /** `Collect` is a full scan: it takes every alarm with less than a millisecond left. */
  ghost function Apply(b: Board, l: Label): Board {
    match l
    case Skip => b
    case Advance(to) => b.(clock := to)
    case Born(id) => b.(live := b.live + {id}, born := b.born + 1)
    case Arm(id, duration) =>
      b.(alarms := b.alarms[id := Alarm(b.clock + duration * MS, b.starts)],
         batch := b.batch - {id}, starts := b.starts + 1)
    case Disarm(id) => b.(alarms := b.alarms - {id}, batch := b.batch - {id})
    case Retire(id) =>
      b.(live := b.live - {id}, alarms := b.alarms - {id}, batch := b.batch - {id})
    case Collect(now) => b.(batch := set id | id in b.alarms && b.alarms[id].due - now < MS)
    case Fire(id) => b.(alarms := b.alarms - {id}, batch := b.batch - {id})
  }

  ghost predicate Follows(b: Board, ls: seq<Label>)
    decreases |ls|
  {
    ls == [] || (Allowed(b, ls[0]) && Follows(Apply(b, ls[0]), ls[1..]))
  }

  ghost function After(b: Board, ls: seq<Label>): Board
    requires Follows(b, ls)
    decreases |ls|
  {
    if ls == [] then b else After(Apply(b, ls[0]), ls[1..])
  }

  ghost predicate BoardOk(b: Board) {
    && b.batch <= b.alarms.Keys <= b.live
    && (forall id :: id in b.live ==> id < b.born)
    && (forall id :: id in b.batch ==> b.alarms[id].due - b.clock < MS)
  }

  lemma StepKeepsBoard(b: Board, l: Label)
    requires BoardOk(b) && Allowed(b, l)
    ensures BoardOk(Apply(b, l))
  {
  }

  // ----- counting -----

  function Fires(ls: seq<Label>, id: nat): nat {
    if ls == [] then 0 else (if ls[0] == Fire(id) then 1 else 0) + Fires(ls[1..], id)
  }

  function Arms(ls: seq<Label>, id: nat): nat {
    if ls == [] then 0 else (if ls[0].Arm? && ls[0].id == id then 1 else 0) + Arms(ls[1..], id)
  }

  ghost function Pending(b: Board, id: nat): nat {
    if id in b.alarms then 1 else 0
  }

  /** Each start pays for at most one call-back. */
  lemma {:induction false} FiresArePaidFor(b: Board, ls: seq<Label>, id: nat)
    requires Follows(b, ls)
    ensures Fires(ls, id) + Pending(After(b, ls), id) <= Arms(ls, id) + Pending(b, id)
    decreases |ls|
  {
    if ls != [] {
      FiresArePaidFor(Apply(b, ls[0]), ls[1..], id);
    }
  }

  /** A timer that was destroyed is never started again and never fires again. */
  lemma {:induction false} RetiredStaysSilent(b: Board, ls: seq<Label>, id: nat)
    requires BoardOk(b) && Follows(b, ls) && id !in b.live && id < b.born
    ensures Fires(ls, id) == 0 && Arms(ls, id) == 0
    decreases |ls|
  {
    if ls != [] {
      StepKeepsBoard(b, ls[0]);
      RetiredStaysSilent(Apply(b, ls[0]), ls[1..], id);
    }
  }

  /** Between two collections call-backs come in order of expiration, ties in
      order of starting. */
  lemma {:induction false} BatchFiresInOrder(b: Board, first: nat, ls: seq<Label>, second: nat)
    requires BoardOk(b) && Allowed(b, Fire(first)) && Follows(Apply(b, Fire(first)), ls)
    requires forall l :: l in ls ==> !l.Collect?
    requires Allowed(After(Apply(b, Fire(first)), ls), Fire(second))
    ensures second in b.alarms && second != first && Earlier(b.alarms[first], b.alarms[second])
    ensures After(Apply(b, Fire(first)), ls).alarms[second] == b.alarms[second]
  {
    BatchOnlyShrinks(Apply(b, Fire(first)), ls, second);
  }

  lemma {:induction false} BatchOnlyShrinks(b: Board, ls: seq<Label>, id: nat)
    requires BoardOk(b) && Follows(b, ls)
    requires forall l :: l in ls ==> !l.Collect?
    requires id in After(b, ls).batch
    ensures id in b.batch && id in After(b, ls).alarms && After(b, ls).alarms[id] == b.alarms[id]
    decreases |ls|
  {
    if ls != [] {
      assert ls[0] in ls;
      StepKeepsBoard(b, ls[0]);
      BatchOnlyShrinks(Apply(b, ls[0]), ls[1..], id);
    }
  }

  /** The client labels that take an alarm out of the batch. */
  predicate Disturbs(l: Label, id: nat) {
    (l.Arm? || l.Disarm? || l.Retire?) && l.id == id
  }

  /** A collected alarm that is left alone leaves the batch only by firing. */
  lemma {:induction false} CollectedFires(b: Board, ls: seq<Label>, id: nat)
    requires Follows(b, ls) && id in b.batch && id !in After(b, ls).batch
    requires forall l :: l in ls ==> !Disturbs(l, id)
    ensures Fires(ls, id) >= 1
    decreases |ls|
  {
    assert ls[0] in ls;
    if ls[0] != Fire(id) {
      CollectedFires(Apply(b, ls[0]), ls[1..], id);
    }
  }

  /** An alarm that was not collected does not fire before the next collection. */
  lemma {:induction false} NotCollectedIsSilent(b: Board, ls: seq<Label>, id: nat)
    requires Follows(b, ls) && id !in b.batch
    requires forall l :: l in ls ==> !l.Collect?
    ensures Fires(ls, id) == 0
    decreases |ls|
  {
    if ls != [] {
      assert ls[0] in ls;
      NotCollectedIsSilent(Apply(b, ls[0]), ls[1..], id);
    }
  }

  /** An alarm that is still there, and was not armed again, is unchanged. */
  lemma {:induction false} AlarmKept(b: Board, ls: seq<Label>, id: nat)
    requires Follows(b, ls) && Arms(ls, id) == 0 && id in After(b, ls).alarms
    ensures id in b.alarms && After(b, ls).alarms[id] == b.alarms[id]
    decreases |ls|
  {
    if ls != [] {
      AlarmKept(Apply(b, ls[0]), ls[1..], id);
    }
  }
}
