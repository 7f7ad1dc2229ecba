// The timer list of the timer manager: what one list node holds, how nodes
// compare, how the list is searched, merged, scanned and spliced.

/** The nodes of the timer list and the list operations of `TimerManager::Impl`. */
module TimerList {
  import opened Basics

  // steady_clock ticks (nanoseconds) in one millisecond
  const MS: int := 1000000

  // Timer::Duration is a uint32_t, in milliseconds
  const DURATION_MAX: int := 0xFFFF_FFFF
  type Duration = d: int | 0 <= d <= DURATION_MAX

  datatype State = Idle | Active | Expired

  datatype Access = Direct | Locked | Destruct

  /** One node of the list.  `id` is the node's identity (its address in the
      source); `inst` says whether the API object is still there and `handler`
      whether a call-back was given.  `stamp` numbers the successful starts: it
      is history, no operation reads it, and it only serves to say which of two
      timers with equal expiration was started first. */
  datatype Timer = Timer(
    id: nat, inst: bool, handler: bool, expiration: int, state: State, access: Access, stamp: nat)

  // ----- single timers -----

  /** `getDuration(now)`: remaining whole milliseconds, with the conversion of
      the 64-bit count to `uint32_t` written out. */
  function GetDuration(t: Timer, now: int): Duration
  {
    var remaining := if t.state != Active then 0 else TruncDiv(t.expiration - now, MS);
    if remaining < 0 then 0 else remaining % (DURATION_MAX + 1)
  }

  /** `setDuration(duration)` at clock reading `now`; None where the source returns false. */
  function SetDuration(t: Timer, duration: Duration, now: int, stamp: nat): Option<Timer>
  {
    if t.access == Destruct then None
    else if duration == 0 then Some(t.(state := Idle))
    else if t.handler then
      Some(t.(state := Active, expiration := now + duration * MS, stamp := stamp))
    else None
  }

  predicate Due(t: Timer, now: int) {
    t.state == Active && t.expiration - now < MS
  }

  /** The expiration lies no further ahead than the longest duration. */
  predicate InReach(t: Timer, now: int) {
    t.state == Active ==> t.expiration <= now + DURATION_MAX * MS
  }

  /** For timers in reach the conversion to 32 bits never truncates, and a
      result of 0 means exactly "not active, or less than a millisecond left". */
  lemma GetDurationIsExact(t: Timer, now: int)
    requires InReach(t, now)
    ensures GetDuration(t, now) == 0 <==> t.state != Active || Due(t, now)
    ensures GetDuration(t, now) > 0 ==>
              GetDuration(t, now) * MS <= t.expiration - now < (GetDuration(t, now) + 1) * MS
  {
    if t.state == Active && t.expiration - now >= MS {
      var left := t.expiration - now;
      assert 1 <= left / MS <= DURATION_MAX;
    }
  }

  // ----- order -----

  /** `operator<` as written in the source.  It is not a strict weak order: two
      idle timers are each less than the other. */
  predicate Less(a: Timer, b: Timer) {
    || (a.state == Active && b.state != Active)
    || (a.state == Active && b.state == Active && a.expiration < b.expiration)
    || (a.state == Idle && b.state != Active)
  }

  function Section(t: Timer): nat {
    match t.state
    case Active => 0
    case Idle => 1
    case Expired => 2
  }

  /** The intended order: by section; inside the active and inside the expired
      section by expiration, and by order of starting where that is equal. */
  predicate Before(a: Timer, b: Timer) {
    || Section(a) < Section(b)
    || (Section(a) == Section(b) &&
        (a.state == Idle || a.expiration < b.expiration ||
         (a.expiration == b.expiration && a.stamp < b.stamp)))
  }

  predicate InOrder(l: seq<Timer>) {
    forall i, j :: 0 <= i < j < |l| ==> Before(l[i], l[j])
  }

  predicate Distinct(l: seq<Timer>) {
    forall i, j :: 0 <= i < j < |l| ==> l[i].id != l[j].id
  }

  // ----- list operations -----

  /** `std::find` by identity; |l| stands for `end()`. */
  function IndexOf(l: seq<Timer>, id: nat): (r: nat)
    ensures r <= |l|
    ensures r < |l| ==> l[r].id == id
    ensures forall i :: 0 <= i < r ==> l[i].id != id
  {
    if l == [] then 0 else if l[0].id == id then 0 else 1 + IndexOf(l[1..], id)
  }

  /** `std::find_if` for the first expired timer. */
  function FirstExpired(l: seq<Timer>): (r: nat)
    ensures r <= |l|
    ensures r < |l| ==> l[r].state == Expired
    ensures forall i :: 0 <= i < r ==> l[i].state != Expired
  {
    if l == [] then 0 else if l[0].state == Expired then 0 else 1 + FirstExpired(l[1..])
  }

  /** Where `list::merge` puts a single node: before the first one it is less than. */
  function MergePos(l: seq<Timer>, x: Timer): (r: nat)
    ensures r <= |l|
    ensures r < |l| ==> Less(x, l[r])
    ensures forall i :: 0 <= i < r ==> !Less(x, l[i])
  {
    if l == [] then 0 else if Less(x, l[0]) then 0 else 1 + MergePos(l[1..], x)
  }

  function InsertAt(l: seq<Timer>, p: nat, x: Timer): seq<Timer>
    requires p <= |l|
  {
    l[..p] + [x] + l[p..]
  }

  function Merge(l: seq<Timer>, x: Timer): seq<Timer> {
    InsertAt(l, MergePos(l, x), x)
  }

  function RemoveAt(l: seq<Timer>, k: nat): seq<Timer>
    requires k < |l|
  {
    l[..k] + l[k + 1..]
  }

  /** How far the prefix scan of `updateTimers` gets. */
  function DuePrefix(l: seq<Timer>, now: int): (r: nat)
    ensures r <= |l|
    ensures r < |l| ==> !(l[r].state == Active && GetDuration(l[r], now) == 0)
    ensures forall i :: 0 <= i < r ==> l[i].state == Active && GetDuration(l[i], now) == 0
  {
    if l == [] then 0
    else if l[0].state == Active && GetDuration(l[0], now) == 0 then 1 + DuePrefix(l[1..], now)
    else 0
  }

  function Expire(l: seq<Timer>): (r: seq<Timer>)
    ensures |r| == |l|
    ensures forall i :: 0 <= i < |l| ==> r[i] == l[i].(state := Expired)
  {
    seq(|l|, i requires 0 <= i < |l| => l[i].(state := Expired))
  }

  /** The first k nodes marked expired and spliced to the end of the list. */
  function SpliceExpired(l: seq<Timer>, k: nat): seq<Timer>
    requires k <= |l|
  {
    l[k..] + Expire(l[..k])
  }

  // ----- members -----

  lemma MergeMembers(l: seq<Timer>, x: Timer)
    ensures forall t :: t in Merge(l, x) <==> t == x || t in l
  {
    var p := MergePos(l, x);
    assert l == l[..p] + l[p..];
  }

  lemma RemoveMembers(l: seq<Timer>, k: nat)
    requires k < |l| && Distinct(l)
    ensures forall t :: t in RemoveAt(l, k) <==> t in l && t.id != l[k].id
  {
    assert l == l[..k] + [l[k]] + l[k + 1..];
  }

  // ----- what the operations keep -----

  lemma RemoveKeeps(l: seq<Timer>, k: nat)
    requires k < |l|
    ensures InOrder(l) ==> InOrder(RemoveAt(l, k))
    ensures Distinct(l) ==> Distinct(RemoveAt(l, k))
  {
    var r := RemoveAt(l, k);
    assert forall i :: 0 <= i < |r| ==> r[i] == if i < k then l[i] else l[i + 1];
  }

  /** Merging one idle or newly started timer under the source's `operator<`
      keeps the intended order, although `operator<` is not a strict weak order. */
  lemma MergeKeepsOrder(l: seq<Timer>, x: Timer)
    requires InOrder(l) && x.state != Expired
    requires x.state == Active ==> forall t :: t in l && t.state == Active ==> t.stamp < x.stamp
    ensures InOrder(Merge(l, x))
  {
    var p := MergePos(l, x);
    var r := Merge(l, x);
    assert forall i :: 0 <= i < |r| ==>
        r[i] == if i < p then l[i] else if i == p then x else l[i - 1];
    forall i | 0 <= i < p
      ensures Before(l[i], x)
    {
      assert l[i] in l;
    }
    forall i | p <= i < |l|
      ensures Before(x, l[i])
    {
      assert Less(x, l[p]);
      assert i == p || Before(l[p], l[i]);
    }
  }

  /** Where merging puts a timer: an active one behind the active ones that expire no
      later, so ties keep the order of starting; an idle one in front of the idle ones. */
  lemma MergePosExactly(l: seq<Timer>, x: Timer)
    requires InOrder(l) && x.state != Expired
    ensures forall i :: 0 <= i < |l| ==>
              (i < MergePos(l, x) <==>
               l[i].state == Active && (x.state == Active ==> l[i].expiration <= x.expiration))
  {
    var p := MergePos(l, x);
    forall i | p <= i < |l| ensures Less(x, l[i]) {
      assert i == p || Before(l[p], l[i]);
    }
  }

  lemma MergeKeepsDistinct(l: seq<Timer>, x: Timer)
    requires Distinct(l)
    requires forall i :: 0 <= i < |l| ==> l[i].id != x.id
    ensures Distinct(Merge(l, x))
  {
    var p := MergePos(l, x);
    var r := Merge(l, x);
    assert forall i :: 0 <= i < |r| ==>
        r[i] == if i < p then l[i] else if i == p then x else l[i - 1];
  }

  /** The scan that stops at the first timer not due marks exactly the due ones. */
  lemma DuePrefixIsFullScan(l: seq<Timer>, now: int)
    requires InOrder(l)
    requires forall t :: t in l ==> InReach(t, now)
    ensures forall i :: 0 <= i < |l| ==> (i < DuePrefix(l, now) <==> Due(l[i], now))
  {
    var k := DuePrefix(l, now);
    forall i | 0 <= i < |l|
      ensures i < k <==> Due(l[i], now)
    {
      assert l[i] in l;
      GetDurationIsExact(l[i], now);
      if k <= i {
        assert l[k] in l;
        GetDurationIsExact(l[k], now);
        assert k == i || Before(l[k], l[i]);
      }
    }
  }

  lemma SpliceKeeps(l: seq<Timer>, k: nat)
    requires k <= |l| && InOrder(l) && Distinct(l)
    requires forall i :: 0 <= i < |l| ==> l[i].state != Expired
    requires forall i :: 0 <= i < k ==> l[i].state == Active
    ensures InOrder(SpliceExpired(l, k)) && Distinct(SpliceExpired(l, k))
  {
    var r := SpliceExpired(l, k);
    var n := |l| - k;
    assert forall i :: 0 <= i < |r| ==>
        r[i] == if i < n then l[i + k] else l[i - n].(state := Expired);
    forall i, j | 0 <= i < j < |r|
      ensures Before(r[i], r[j])
    {
      if j < n {
        assert Before(l[i + k], l[j + k]);
      } else if n <= i {
        assert Before(l[i - n], l[j - n]);
      }
    }
  }

  /** The earliest expired timer, marked idle where it stands, is the end of the idle section. */
  lemma SelectKeeps(l: seq<Timer>, k: nat, t: Timer)
    requires InOrder(l) && Distinct(l) && k < |l| && k == FirstExpired(l)
    requires t.id == l[k].id && t.state == Idle
    ensures InOrder(l[k := t]) && Distinct(l[k := t])
  {
    forall i | 0 <= i < |l| && i != k
      ensures i < k ==> Before(l[i], t)
      ensures k < i ==> Before(t, l[i])
    {
      assert k < i ==> Before(l[k], l[i]);
      assert i < k ==> Before(l[i], l[k]) && l[i].state != Expired;
    }
  }

  /** A change that keeps identity, state, expiration and stamp keeps the order. */
  lemma TouchKeeps(l: seq<Timer>, k: nat, t: Timer)
    requires InOrder(l) && Distinct(l) && k < |l|
    requires t.id == l[k].id && t.state == l[k].state
    requires t.expiration == l[k].expiration && t.stamp == l[k].stamp
    ensures InOrder(l[k := t]) && Distinct(l[k := t])
  {
  }

  // ----- the list as a partial function from identities to nodes -----

  function Lookup(l: seq<Timer>, id: nat): (r: Option<Timer>)
    ensures r.Some? <==> IndexOf(l, id) < |l|
    ensures r.Some? ==> r.value.id == id && r.value in l
  {
    var k := IndexOf(l, id);
    if k < |l| then Some(l[k]) else None
  }

  lemma LookupAt(l: seq<Timer>, k: nat)
    requires Distinct(l) && k < |l|
    ensures IndexOf(l, l[k].id) == k && Lookup(l, l[k].id) == Some(l[k])
  {
    var r := IndexOf(l, l[k].id);
    assert r <= k;
  }

  lemma LookupNone(l: seq<Timer>, id: nat)
    requires forall i :: 0 <= i < |l| ==> l[i].id != id
    ensures Lookup(l, id) == None
  {
  }

  /** What is found in the one list is found in the other, wherever it stands there. */
  lemma LookupMoved(l: seq<Timer>, k: nat, r: seq<Timer>, j: nat)
    requires Distinct(l) && Distinct(r) && k < |l| && j < |r| && l[k] == r[j]
    ensures Lookup(r, l[k].id) == Lookup(l, l[k].id)
  {
    LookupAt(l, k);
    LookupAt(r, j);
  }

  lemma LookupRemove(l: seq<Timer>, k: nat, id: nat)
    requires Distinct(l) && k < |l|
    ensures Lookup(RemoveAt(l, k), id) == if id == l[k].id then None else Lookup(l, id)
  {
    var r := RemoveAt(l, k);
    RemoveKeeps(l, k);
    assert forall i :: 0 <= i < |r| ==> r[i] == if i < k then l[i] else l[i + 1];
    var i := IndexOf(l, id);
    if i == |l| || id == l[k].id {
      LookupNone(r, id);
    } else {
      LookupMoved(l, i, r, if i < k then i else i - 1);
    }
  }

  lemma LookupMerge(l: seq<Timer>, x: Timer, id: nat)
    requires Distinct(l)
    requires forall i :: 0 <= i < |l| ==> l[i].id != x.id
    ensures Lookup(Merge(l, x), id) == if id == x.id then Some(x) else Lookup(l, id)
  {
    var p := MergePos(l, x);
    var r := Merge(l, x);
    MergeKeepsDistinct(l, x);
    assert forall i :: 0 <= i < |r| ==>
        r[i] == if i < p then l[i] else if i == p then x else l[i - 1];
    var i := IndexOf(l, id);
    if id == x.id {
      LookupAt(r, p);
    } else if i == |l| {
      LookupNone(r, id);
    } else {
      LookupMoved(l, i, r, if i < p then i else i + 1);
    }
  }

  lemma LookupUpdate(l: seq<Timer>, k: nat, t: Timer, id: nat)
    requires Distinct(l) && k < |l| && t.id == l[k].id
    ensures Lookup(l[k := t], id) == if id == t.id then Some(t) else Lookup(l, id)
  {
    var r := l[k := t];
    assert forall i :: 0 <= i < |l| ==> r[i].id == l[i].id;
    var i := IndexOf(l, id);
    if id == t.id {
      LookupAt(r, k);
    } else if i == |l| {
      LookupNone(r, id);
    } else {
      LookupMoved(l, i, r, i);
    }
  }

  lemma LookupSplice(l: seq<Timer>, k: nat, id: nat)
    requires k <= |l| && Distinct(l) && Distinct(SpliceExpired(l, k))
    ensures Lookup(SpliceExpired(l, k), id) ==
            var i := IndexOf(l, id);
            if i < k then Some(l[i].(state := Expired)) else Lookup(l, id)
  {
    var r := SpliceExpired(l, k);
    var n := |l| - k;
    assert forall i :: 0 <= i < |r| ==>
        r[i] == if i < n then l[i + k] else l[i - n].(state := Expired);
    var i := IndexOf(l, id);
    if i == |l| {
      LookupNone(r, id);
    } else if i < k {
      LookupAt(r, i + n);
    } else {
      LookupMoved(l, i, r, i - k);
    }
  }
}
