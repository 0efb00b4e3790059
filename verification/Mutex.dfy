/** The reentrant mutex (plain/mutex.rs, with the caller obligations of src/mutex.rs). */
module Mutexes {
  import opened Words
  import opened WaitQueues

  datatype LockResult = Acquired | WouldBlock

  datatype UnlockResult = Released | Unlocked | Transferred(t: Thread)

  /** What a mutex stands for. Waiting threads are listed in the order in which they
      came; `FirstMin` says who is served. */
  datatype State = State(owner: Option<u32>, count: nat, waiting: seq<Thread>)
  {
    ghost predicate Waits(id: u32) {
      exists k :: 0 <= k < |waiting| && waiting[k].id == id
    }

    ghost predicate Inv() {
      && (owner.Some? <==> count > 0)
      && count <= U32_MAX
      && (waiting != [] ==> owner.Some?)
      && |waiting| <= MAX_WAITERS
      && (forall j, k :: 0 <= j < k < |waiting| ==> waiting[j].id != waiting[k].id)
      && (forall k :: 0 <= k < |waiting| ==> waiting[k].state == Blocked)
      && (owner.Some? ==> !Waits(owner.value))
    }
  }

  const INIT: State := State(None, 0, [])

  datatype Event = EvTryLock(id: u32) | EvLockBlocking(t: Thread) | EvUnlock(id: u32)

  /** What the caller owes: no reentrant lock beyond the counter, and a thread blocks
      only on a mutex somebody else holds and only once. */
  ghost predicate Legal(s: State, e: Event) {
    match e
    case EvTryLock(id) => s.count < U32_MAX
    case EvLockBlocking(t) => s.owner.Some? && s.owner.value != t.id && !s.Waits(t.id)
    case EvUnlock(id) => true
  }

  function TryLockResult(s: State, id: u32): LockResult {
    if s.count == 0 || s.owner == Some(id) then Acquired else WouldBlock
  }

  ghost function UnlockReply(s: State, id: u32): Result<UnlockResult, i32> {
    if s.owner.None? then Err(EINVAL)
    else if s.owner.value != id then Err(EPERM)
    else if s.count > 1 then Ok(Released)
    else if s.waiting == [] then Ok(Unlocked)
    else Ok(Transferred(s.waiting[FirstMin(s.waiting)].(state := Ready, returnValue := 0)))
  }

  ghost function Step(s: State, e: Event): State {
    match e
    case EvTryLock(id) =>
      if s.count == 0 then s.(owner := Some(id), count := 1)
      else if s.owner == Some(id) then s.(count := s.count + 1)
      else s
    case EvLockBlocking(t) =>
      if |s.waiting| < MAX_WAITERS then s.(waiting := s.waiting + [t.(state := Blocked)]) else s
    case EvUnlock(id) =>
      match UnlockReply(s, id)
      case Err(_) => s
      case Ok(Released) => s.(count := s.count - 1)
      case Ok(Unlocked) => s.(owner := None, count := 0)
      case Ok(Transferred(t)) => s.(owner := Some(t.id), waiting := Without(s.waiting, FirstMin(s.waiting)))
  }

  // ---------------------------------------------------------------------------
  // Runs
  // ---------------------------------------------------------------------------

  /** The state after the first `n` events. */
  ghost function At(es: seq<Event>, n: nat): State
    requires n <= |es|
  {
    if n == 0 then INIT else Step(At(es, n - 1), es[n - 1])
  }

  /** Each of the first `n` events is legal where it happens. */
  ghost predicate LegalRun(es: seq<Event>, n: nat)
    requires n <= |es|
  {
    n == 0 || (LegalRun(es, n - 1) && Legal(At(es, n - 1), es[n - 1]))
  }

  lemma TransferKeepsInv(s: State)
    requires s.Inv() && s.count == 1 && s.waiting != []
    ensures var f := FirstMin(s.waiting);
      State(Some(s.waiting[f].id), 1, Without(s.waiting, f)).Inv()
  {
    var f := FirstMin(s.waiting);
    var w := Without(s.waiting, f);
    forall k | 0 <= k < |w| ensures w[k] == s.waiting[if k < f then k else k + 1] {
    }
  }

  lemma ArrivalKeepsInv(s: State, t: Thread)
    requires s.Inv() && Legal(s, EvLockBlocking(t)) && |s.waiting| < MAX_WAITERS
    ensures s.(waiting := s.waiting + [t.(state := Blocked)]).Inv()
  {
    var b := t.(state := Blocked);
    var w := s.waiting + [b];
    assert forall k :: 0 <= k < |w| ==> w[k] == if k < |s.waiting| then s.waiting[k] else b;
    assert forall k :: 0 <= k < |s.waiting| ==> s.waiting[k].id != t.id;
  }

  lemma StepKeepsInv(s: State, e: Event)
    requires s.Inv() && Legal(s, e)
    ensures Step(s, e).Inv()
  {
    match e
    case EvTryLock(id) =>
    case EvLockBlocking(t) =>
      if |s.waiting| < MAX_WAITERS {
        ArrivalKeepsInv(s, t);
      }
    case EvUnlock(id) =>
      if s.owner == Some(id) && s.count == 1 && s.waiting != [] {
        TransferKeepsInv(s);
      }
  }

  /** Every legal run keeps: an owner exactly while the count is positive, waiters
      only while owned, waiters distinct and never the owner. */
  lemma {:induction false} RunKeepsInv(es: seq<Event>, n: nat)
    requires n <= |es| && LegalRun(es, n)
    ensures At(es, n).Inv()
    decreases n
  {
    if n > 0 {
      RunKeepsInv(es, n - 1);
      StepKeepsInv(At(es, n - 1), es[n - 1]);
    }
  }

  /** Event `e` is a final unlock with somebody waiting. */
  ghost predicate HandsOn(s: State, e: Event) {
    e.EvUnlock? && UnlockReply(s, e.id).Ok? && UnlockReply(s, e.id).value.Transferred?
  }

  /** Event `e` hands the mutex to thread `id`. */
  ghost predicate Hands(s: State, e: Event, id: u32) {
    HandsOn(s, e) && UnlockReply(s, e.id).value.t.id == id
  }

  /** Event `e` makes `id` the owner. */
  ghost predicate Takes(s: State, e: Event, id: u32) {
    (e == EvTryLock(id) && s.count == 0) || Hands(s, e, id)
  }

  function Delta(e: Event, id: u32): int {
    if e == EvTryLock(id) then 1 else if e == EvUnlock(id) then -1 else 0
  }

  /** Acquisitions minus releases of `id`, counting event `k`, up to event `n`. */
  function Balance(es: seq<Event>, id: u32, k: nat, n: nat): int
    requires k < n <= |es|
  {
    if n == k + 1 then 1 else Balance(es, id, k, n - 1) + Delta(es[n - 1], id)
  }

  lemma KeepsOwner(s: State, e: Event, id: u32)
    requires s.Inv() && Legal(s, e) && Step(s, e).owner == Some(id) && !Takes(s, e, id)
    ensures s.owner == Some(id) && Step(s, e).count == s.count + Delta(e, id)
  {
  }

  /** In every legal run the count is the owner's acquisitions minus its releases
      since the event `k` by which it took ownership, which it has held since. */
  lemma {:induction false} CountIsBalance(es: seq<Event>, n: nat) returns (k: nat)
    requires n <= |es| && LegalRun(es, n) && At(es, n).owner.Some?
    ensures k < n && Takes(At(es, k), es[k], At(es, n).owner.value)
    ensures forall m :: k < m <= n ==> At(es, m).owner == At(es, n).owner
    ensures At(es, n).count == Balance(es, At(es, n).owner.value, k, n)
    decreases n
  {
    var s, e := At(es, n - 1), es[n - 1];
    var id := At(es, n).owner.value;
    RunKeepsInv(es, n - 1);
    RunKeepsInv(es, n);
    if Takes(s, e, id) {
      k := n - 1;
    } else {
      KeepsOwner(s, e, id);
      k := CountIsBalance(es, n - 1);
    }
  }

  // ---------------------------------------------------------------------------
  // Who holds the mutex, by the answers given
  // ---------------------------------------------------------------------------

  /** What the answer to event `e` gives thread `id`, or takes from it. */
  ghost function HeldChange(s: State, e: Event, id: u32): int {
    match e
    case EvTryLock(i) => if i == id && TryLockResult(s, i) == Acquired then 1 else 0
    case EvLockBlocking(_) => 0
    case EvUnlock(i) =>
      match UnlockReply(s, i)
      case Err(_) => 0
      case Ok(Transferred(t)) => (if t.id == id then 1 else 0) - (if i == id then 1 else 0)
      case Ok(_) => if i == id then -1 else 0
  }

  /** Locks acquired by or handed to thread `id` and not yet released. */
  ghost function Held(es: seq<Event>, n: nat, id: u32): int
    requires n <= |es|
  {
    if n == 0 then 0 else Held(es, n - 1, id) + HeldChange(At(es, n - 1), es[n - 1], id)
  }

  ghost function Holding(s: State, id: u32): nat {
    if s.owner == Some(id) then s.count else 0
  }

  lemma HoldingStep(s: State, e: Event, id: u32)
    requires s.Inv() && Legal(s, e)
    ensures Holding(Step(s, e), id) == Holding(s, id) + HeldChange(s, e, id)
  {
    if HandsOn(s, e) {
      assert !s.Waits(s.owner.value);
    }
  }

  /** In every legal run the answers add up to the state: the owner holds as many locks
      as the count says and nobody else holds any. */
  lemma {:induction false} HeldByOwner(es: seq<Event>, n: nat, id: u32)
    requires n <= |es| && LegalRun(es, n)
    ensures Held(es, n, id) == Holding(At(es, n), id)
    decreases n
  {
    if n > 0 {
      HeldByOwner(es, n - 1, id);
      RunKeepsInv(es, n - 1);
      HoldingStep(At(es, n - 1), es[n - 1], id);
    }
  }

  /** No two threads hold the mutex. */
  lemma MutualExclusion(es: seq<Event>, n: nat, id: u32, other: u32)
    requires n <= |es| && LegalRun(es, n) && id != other
    ensures Held(es, n, id) >= 0 && (Held(es, n, id) > 0 ==> Held(es, n, other) == 0)
  {
    HeldByOwner(es, n, id);
    HeldByOwner(es, n, other);
  }

  /** After `n` events some thread other than `id` holds the mutex. */
  ghost predicate HeldByOther(es: seq<Event>, n: nat, id: u32)
    requires n <= |es|
  {
    exists other: u32 :: other != id && Held(es, n, other) > 0
  }

  lemma OtherIsOwner(es: seq<Event>, n: nat, id: u32)
    requires n <= |es| && LegalRun(es, n)
    ensures HeldByOther(es, n, id) <==> At(es, n).owner.Some? && At(es, n).owner.value != id
  {
    RunKeepsInv(es, n);
    forall other: u32 ensures Held(es, n, other) == Holding(At(es, n), other) {
      HeldByOwner(es, n, other);
    }
    if At(es, n).owner.Some? && At(es, n).owner.value != id {
      assert Held(es, n, At(es, n).owner.value) > 0;
    }
  }

  /** Every answer follows from who holds the mutex: a try is refused exactly while
      another thread holds it; an unlock succeeds exactly for a holder, fails with -22 when
      nobody holds it and with -1 when another thread does. */
  lemma AnswersByHolding(es: seq<Event>, n: nat, id: u32)
    requires n <= |es| && LegalRun(es, n)
    ensures var s := At(es, n);
      && (TryLockResult(s, id) == WouldBlock <==> HeldByOther(es, n, id))
      && (UnlockReply(s, id).Ok? <==> Held(es, n, id) > 0)
      && (UnlockReply(s, id) == Ok(Released) <==> Held(es, n, id) > 1)
      && (UnlockReply(s, id) == Err(-22) <==> Held(es, n, id) == 0 && !HeldByOther(es, n, id))
      && (UnlockReply(s, id) == Err(-1) <==> HeldByOther(es, n, id))
  {
    RunKeepsInv(es, n);
    HeldByOwner(es, n, id);
    OtherIsOwner(es, n, id);
  }

  /** A final unlock hands the mutex to the most urgent waiter, to the earliest of
      those, with count one; nobody else's place changes. */
  lemma HandsOver(s: State, id: u32)
    requires s.Inv() && s.owner == Some(id) && s.count == 1 && s.waiting != []
    ensures var s', f := Step(s, EvUnlock(id)), FirstMin(s.waiting);
      && s'.owner == Some(s.waiting[f].id) && s'.count == 1 && s'.owner != s.owner
      && (forall k :: 0 <= k < |s.waiting| ==> s.waiting[f].priority <= s.waiting[k].priority)
      && (forall k :: 0 <= k < f ==> s.waiting[f].priority < s.waiting[k].priority)
      && s'.waiting == s.waiting[..f] + s.waiting[f + 1..]
  {
    assert !s.Waits(id);
  }

  // ---------------------------------------------------------------------------
  // The run as calls on the wait queue
  // ---------------------------------------------------------------------------

  ghost function CallOf(s: State, e: Event): Call {
    match e
    case EvTryLock(_) => NoCall
    case EvLockBlocking(t) => CallPend(t.(state := Blocked))
    case EvUnlock(id) => if s.owner == Some(id) && s.count <= 1 then CallUnpendFirst(OK) else NoCall
  }

  ghost function Calls(es: seq<Event>): (cs: seq<Call>)
    ensures |cs| == |es| && forall k :: 0 <= k < |cs| ==> cs[k] == CallOf(At(es, k), es[k])
  {
    seq(|es|, k requires 0 <= k < |es| => CallOf(At(es, k), es[k]))
  }

  /** Event `e` makes thread `id` wait. */
  predicate Blocks(s: State, e: Event, id: u32) {
    e.EvLockBlocking? && |s.waiting| < MAX_WAITERS && e.t.id == id
  }

  lemma CallIsStep(s: State, e: Event)
    ensures Step(s, e).waiting == ReferenceStep(s.waiting, CallOf(s, e)).0
  {
  }

  lemma {:induction false} WaitingIs(es: seq<Event>, n: nat)
    requires n <= |es|
    ensures At(es, n).waiting == ReferenceRun([], Calls(es), n).0
    decreases n
  {
    if n > 0 {
      WaitingIs(es, n - 1);
      assert Calls(es)[n - 1] == CallOf(At(es, n - 1), es[n - 1]);
      CallIsStep(At(es, n - 1), es[n - 1]);
    }
  }

  lemma LineIs(es: seq<Event>, n: nat)
    requires n <= |es|
    ensures Line([], Calls(es), n) == Sorted(At(es, n).waiting)
  {
    WaitingIs(es, n);
    QueueRefines([], Calls(es), n);
  }

  /** What the calls say of the events: who joins the queue blocks on the mutex, who is
      woken is handed it. */
  lemma CallsAreEvents(s: State, e: Event, id: u32)
    ensures Joins(s.waiting, CallOf(s, e), id) <==> Blocks(s, e, id)
    ensures s.Inv() ==> (Wakes(s.waiting, CallOf(s, e), id) <==> Hands(s, e, id))
  {
  }

  /** Nobody is lost or served twice: however often a thread was made to wait, it is
      still waiting or has been handed the mutex that often. */
  lemma WaitersConserved(es: seq<Event>, n: nat, id: u32)
    requires n <= |es|
    ensures JoinCount([], Calls(es), n, id) == WaitingCount(At(es, n).waiting, id) + WakeCount([], Calls(es), n, id)
  {
    WaitingIs(es, n);
    CallsConserve([], Calls(es), n, id);
    forall k | 0 <= k < n ensures !ClearedAt([], Calls(es), k, id) {
      assert !Calls(es)[k].CallUnpendAll?;
    }
    DropsExactly([], Calls(es), n, id);
  }

  /** Event `m` hands the mutex to thread `id`. */
  ghost predicate HandedAt(es: seq<Event>, m: nat, id: u32)
    requires m < |es|
  {
    Hands(At(es, m), es[m], id)
  }

  lemma {:induction false} LegalAt(es: seq<Event>, m: nat, n: nat)
    requires m < n <= |es| && LegalRun(es, n)
    ensures LegalRun(es, m) && Legal(At(es, m), es[m])
    decreases n
  {
    if m < n - 1 {
      LegalAt(es, m, n - 1);
    }
  }

  lemma LegalIsAnew(s: State, e: Event)
    requires Legal(s, e)
    ensures Anew(Sorted(s.waiting), CallOf(s, e))
  {
    if e.EvLockBlocking? {
      forall k | 0 <= k < |s.waiting| ensures Sorted(s.waiting)[k].id != e.t.id {
        InLine(s.waiting, k);
      }
    }
  }

  lemma WokenIsHanded(s: State, e: Event, id: u32)
    requires s.Inv()
    ensures ServesOne(Sorted(s.waiting), CallOf(s, e)) <==> HandsOn(s, e)
    ensures Hands(s, e, id) <==> HandsOn(s, e) && Sorted(s.waiting)[0].id == id
  {
    if s.waiting != [] {
      HeadIsFirstMin(s.waiting);
    }
  }

  lemma WokenIsHandedAt(es: seq<Event>, m: nat, id: u32)
    requires m < |es| && LegalRun(es, m)
    ensures WokenAt([], Calls(es), m, id) <==> HandedAt(es, m, id)
    ensures LeavesAt([], Calls(es), m, id) <==> HandedAt(es, m, id)
    ensures ServesOne(Line([], Calls(es), m), Calls(es)[m]) <==> HandsOn(At(es, m), es[m])
  {
    RunKeepsInv(es, m);
    LineIs(es, m);
    WokenIsHanded(At(es, m), es[m], id);
  }

  /** In every legal run the turn of the waiter at place `k` comes exactly at the
      hand-over before which there have been `k` others and one more for each thread
      that overtook it. */
  lemma TurnComesExactly(es: seq<Event>, from: nat, n: nat, k: nat, t: Thread)
    requires from <= n < |es| && LegalRun(es, n) && StandsAt(Sorted(At(es, from).waiting), t, k)
    requires HandsOn(At(es, n), es[n]) && forall m :: from <= m < n ==> !HandedAt(es, m, t.id)
    ensures HandedAt(es, n, t.id) <==>
      ServeCount([], Calls(es), from, n) == k + OvertakeCount([], Calls(es), from, n, t.priority)
  {
    var cs := Calls(es);
    LineIs(es, from);
    forall m | 0 <= m < n ensures AnewAt([], cs, m) {
      LegalAt(es, m, n);
      LineIs(es, m);
      LegalIsAnew(At(es, m), es[m]);
    }
    forall m | from <= m < n ensures !LeavesAt([], cs, m, t.id) {
      LegalAt(es, m, n);
      assert !HandedAt(es, m, t.id);
      WokenIsHandedAt(es, m, t.id);
    }
    WokenIsHandedAt(es, n, t.id);
    WaitQueues.TurnComesExactly([], cs, from, n, k, t);
  }

  // ---------------------------------------------------------------------------
  // The object
  // ---------------------------------------------------------------------------

  class Mutex {
    const waitQ: WaitQueue
    var owner: Option<u32>
    var lockCount: u32

    ghost function View(): State
      reads this, waitQ
    {
      State(owner, lockCount, waitQ.arrivals)
    }

    ghost predicate Valid()
      reads this, waitQ, waitQ.entries
    {
      waitQ.Valid() && View().Inv()
    }

    constructor ()
      ensures Valid() && View() == INIT && fresh(waitQ) && fresh(waitQ.entries)
    {
      waitQ := new WaitQueue();
      owner := None;
      lockCount := 0;
    }

    method TryLock(id: u32) returns (r: LockResult)
      requires Valid() && Legal(View(), EvTryLock(id))
      modifies this
      ensures Valid() && View() == Step(old(View()), EvTryLock(id)) && r == TryLockResult(old(View()), id)
    {
      StepKeepsInv(View(), EvTryLock(id));
      if lockCount == 0 {
        owner := Some(id);
        lockCount := 1;
        r := Acquired;
      } else {
        var ownerId := owner.value;
        if ownerId == id {
          lockCount := lockCount + 1;
          r := Acquired;
        } else {
          r := WouldBlock;
        }
      }
    }

    method LockBlocking(t: Thread) returns (ok: bool)
      requires Valid() && Legal(View(), EvLockBlocking(t))
      modifies waitQ, waitQ.entries
      ensures Valid() && View() == Step(old(View()), EvLockBlocking(t))
      ensures ok <==> |old(View()).waiting| < 64
    {
      StepKeepsInv(View(), EvLockBlocking(t));
      ok := waitQ.Pend(Block(t));
    }

    method Unlock(id: u32) returns (r: Result<UnlockResult, i32>)
      requires Valid()
      modifies this, waitQ, waitQ.entries
      ensures Valid() && View() == Step(old(View()), EvUnlock(id)) && r == UnlockReply(old(View()), id)
    {
      StepKeepsInv(View(), EvUnlock(id));
      if owner.None? {
        return Err(EINVAL);
      }
      var ownerId := owner.value;
      if ownerId != id {
        return Err(EPERM);
      }
      if lockCount > 1 {
        lockCount := lockCount - 1;
        return Ok(Released);
      }
      var next := waitQ.UnpendFirst(OK);
      match next {
        case Some(t) =>
          owner := Some(t.id);
          r := Ok(Transferred(t));
        case None =>
          owner := None;
          lockCount := 0;
          r := Ok(Unlocked);
      }
    }
  }
}
