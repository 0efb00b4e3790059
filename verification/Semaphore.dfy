/** The counting semaphore (plain/sem.rs, with the caller obligations of src/sem.rs). */
module Semaphores {
  import opened Words
  import opened WaitQueues

  datatype GiveResult = Incremented | WokeThread(t: Thread) | Saturated

  datatype TakeResult = Acquired | WouldBlock

  /** What a semaphore stands for; waiting threads in the order in which they came. */
  datatype State = State(count: nat, limit: nat, waiting: seq<Thread>)
  {
    ghost predicate Inv() {
      && 0 < limit <= U32_MAX && count <= limit
      && |waiting| <= MAX_WAITERS
      && (waiting != [] ==> count == 0)
      && (forall k :: 0 <= k < |waiting| ==> waiting[k].state == Blocked)
    }
  }

  datatype Event = EvGive | EvTryTake | EvTakeBlocking(t: Thread) | EvReset

  /** A thread blocks only after it was told the count is zero. */
  predicate Legal(s: State, e: Event) {
    e.EvTakeBlocking? ==> s.count == 0
  }

  ghost function GiveReply(s: State): GiveResult {
    if s.waiting != [] then WokeThread(s.waiting[FirstMin(s.waiting)].(state := Ready, returnValue := 0))
    else if s.count != s.limit then Incremented
    else Saturated
  }

  function TakeReply(s: State): TakeResult {
    if s.count > 0 then Acquired else WouldBlock
  }

  ghost function Step(s: State, e: Event): State {
    match e
    case EvGive =>
      if s.waiting != [] then s.(waiting := Without(s.waiting, FirstMin(s.waiting)))
      else if s.count != s.limit then s.(count := s.count + 1)
      else s
    case EvTryTake => if s.count > 0 then s.(count := s.count - 1) else s
    case EvTakeBlocking(t) =>
      if |s.waiting| < MAX_WAITERS then s.(waiting := s.waiting + [t.(state := Blocked)]) else s
    case EvReset => s.(count := 0, waiting := [])
  }

  // ---------------------------------------------------------------------------
  // Where each permit goes
  // ---------------------------------------------------------------------------

  /** How many permits were given, acquired, handed to a waiter, refused because the
      count was at its limit, and thrown away by a reset. */
  datatype Ledger = Ledger(gives: nat, acquired: nat, handed: nat, saturated: nat, discarded: nat)

  ghost function Book(l: Ledger, s: State, e: Event): Ledger {
    match e
    case EvGive =>
      (match GiveReply(s)
       case WokeThread(_) => l.(gives := l.gives + 1, handed := l.handed + 1)
       case Incremented => l.(gives := l.gives + 1)
       case Saturated => l.(gives := l.gives + 1, saturated := l.saturated + 1))
    case EvTryTake => if s.count > 0 then l.(acquired := l.acquired + 1) else l
    case EvTakeBlocking(_) => l
    case EvReset => l.(discarded := l.discarded + s.count)
  }

  ghost function At(s0: State, es: seq<Event>, n: nat): State
    requires n <= |es|
  {
    if n == 0 then s0 else Step(At(s0, es, n - 1), es[n - 1])
  }

  ghost function Books(s0: State, es: seq<Event>, n: nat): Ledger
    requires n <= |es|
  {
    if n == 0 then Ledger(0, 0, 0, 0, 0) else Book(Books(s0, es, n - 1), At(s0, es, n - 1), es[n - 1])
  }

  ghost predicate LegalRun(s0: State, es: seq<Event>, n: nat)
    requires n <= |es|
  {
    n == 0 || (LegalRun(s0, es, n - 1) && Legal(At(s0, es, n - 1), es[n - 1]))
  }

  lemma ArrivalKeepsInv(s: State, t: Thread)
    requires s.Inv() && Legal(s, EvTakeBlocking(t))
    ensures var w := if |s.waiting| < MAX_WAITERS then s.waiting + [t.(state := Blocked)] else s.waiting;
      s.(waiting := w).Inv() && Step(s, EvTakeBlocking(t)) == s.(waiting := w)
  {
  }

  lemma StepKeepsInv(s: State, e: Event)
    requires s.Inv() && Legal(s, e)
    ensures Step(s, e).Inv() && Step(s, e).limit == s.limit
  {
  }

  /** Every legal run keeps the count within its limit and has waiters only at zero. */
  lemma {:induction false} RunKeepsInv(s0: State, es: seq<Event>, n: nat)
    requires s0.Inv() && n <= |es| && LegalRun(s0, es, n)
    ensures At(s0, es, n).Inv() && At(s0, es, n).limit == s0.limit
    decreases n
  {
    if n > 0 {
      RunKeepsInv(s0, es, n - 1);
      StepKeepsInv(At(s0, es, n - 1), es[n - 1]);
    }
  }

  lemma BookStep(l: Ledger, s: State, e: Event)
    ensures var l', s' := Book(l, s, e), Step(s, e);
      l'.gives - l'.acquired - l'.handed - l'.saturated - l'.discarded - s'.count
      == l.gives - l.acquired - l.handed - l.saturated - l.discarded - s.count
  {
  }

  /** Permit conservation over every run: what was there and what was given is what
      is left, acquired, handed over, saturated away and discarded. */
  lemma {:induction false} PermitsConserved(s0: State, es: seq<Event>, n: nat)
    requires n <= |es|
    ensures var l := Books(s0, es, n);
      s0.count + l.gives
      == At(s0, es, n).count + l.acquired + l.handed + l.saturated + l.discarded
    decreases n
  {
    if n > 0 {
      PermitsConserved(s0, es, n - 1);
      BookStep(Books(s0, es, n - 1), At(s0, es, n - 1), es[n - 1]);
    }
  }

  // ---------------------------------------------------------------------------
  // The run as calls on the wait queue
  // ---------------------------------------------------------------------------

  function CallOf(e: Event): Call {
    match e
    case EvGive => CallUnpendFirst(OK)
    case EvTryTake => NoCall
    case EvTakeBlocking(t) => CallPend(t.(state := Blocked))
    case EvReset => CallUnpendAll(EAGAIN)
  }

  function Calls(es: seq<Event>): (cs: seq<Call>)
    ensures |cs| == |es| && forall k :: 0 <= k < |cs| ==> cs[k] == CallOf(es[k])
  {
    seq(|es|, k requires 0 <= k < |es| => CallOf(es[k]))
  }

  lemma CallIsStep(s: State, e: Event)
    ensures Step(s, e).waiting == ReferenceStep(s.waiting, CallOf(e)).0
  {
  }

  lemma {:induction false} WaitingIs(s0: State, es: seq<Event>, n: nat)
    requires n <= |es|
    ensures At(s0, es, n).waiting == ReferenceRun(s0.waiting, Calls(es), n).0
    decreases n
  {
    if n > 0 {
      WaitingIs(s0, es, n - 1);
      CallIsStep(At(s0, es, n - 1), es[n - 1]);
      assert Calls(es)[n - 1] == CallOf(es[n - 1]);
    }
  }

  /** Event `e` hands a permit to thread `id`. */
  ghost predicate Hands(s: State, e: Event, id: u32) {
    e.EvGive? && GiveReply(s).WokeThread? && GiveReply(s).t.id == id
  }

  /** What the calls say of the events: who joins the queue blocks on the semaphore, who
      is woken is handed a permit. */
  lemma CallsAreEvents(s: State, e: Event, id: u32)
    ensures Joins(s.waiting, CallOf(e), id) <==> e.EvTakeBlocking? && |s.waiting| < MAX_WAITERS && e.t.id == id
    ensures Wakes(s.waiting, CallOf(e), id) <==> Hands(s, e, id)
  {
  }

  /** However often a thread waited or was made to wait, it is still waiting, was handed
      a permit, or was dropped by a reset, that often. */
  lemma WaitersConserved(s0: State, es: seq<Event>, n: nat, id: u32)
    requires n <= |es|
    ensures var a, cs := s0.waiting, Calls(es);
      WaitingCount(a, id) + JoinCount(a, cs, n, id)
      == WaitingCount(At(s0, es, n).waiting, id) + WakeCount(a, cs, n, id) + DropCount(a, cs, n, id)
  {
    WaitingIs(s0, es, n);
    CallsConserve(s0.waiting, Calls(es), n, id);
  }

  /** Event `k` is a reset that finds thread `id` waiting. */
  ghost predicate ResetAt(s0: State, es: seq<Event>, k: nat, id: u32)
    requires k < |es|
  {
    es[k].EvReset? && WaitingCount(At(s0, es, k).waiting, id) > 0
  }

  /** A reset is documented to wake every waiter; it wakes none. So every thread that
      waited is waiting or was woken exactly when no reset found it waiting. */
  lemma WaitersWokenIff(s0: State, es: seq<Event>, n: nat, id: u32)
    requires n <= |es|
    ensures var a, cs := s0.waiting, Calls(es);
      WaitingCount(a, id) + JoinCount(a, cs, n, id)
      == WaitingCount(At(s0, es, n).waiting, id) + WakeCount(a, cs, n, id)
      <==> forall k :: 0 <= k < n ==> !ResetAt(s0, es, k, id)
  {
    var a, cs := s0.waiting, Calls(es);
    WaitingIs(s0, es, n);
    forall k | 0 <= k < n ensures ResetAt(s0, es, k, id) <==> ClearedAt(a, cs, k, id) {
      WaitingIs(s0, es, k);
    }
    WaitQueues.WaitersWokenIff(a, cs, n, id);
  }

  /** A thread that waits when the semaphore is reset is neither waiting nor woken. */
  lemma ResetDropsWaiter(t: Thread, limit: nat)
    requires 0 < limit <= U32_MAX
    ensures var s0, es := State(0, limit, []), [EvTakeBlocking(t), EvReset];
      && s0.Inv() && LegalRun(s0, es, 2)
      && JoinCount([], Calls(es), 2, t.id) == 1 && WakeCount([], Calls(es), 2, t.id) == 0
      && At(s0, es, 2).waiting == []
  {
    var s0, es := State(0, limit, []), [EvTakeBlocking(t), EvReset];
    assert At(s0, es, 0) == s0 && LegalRun(s0, es, 0);
    assert At(s0, es, 1) == State(0, limit, [t.(state := Blocked)]) && LegalRun(s0, es, 1);
    assert Calls(es) == [CallPend(t.(state := Blocked)), CallUnpendAll(EAGAIN)];
    UnpendAllDropsWaiter(t.(state := Blocked), EAGAIN);
  }

  lemma LineIs(s0: State, es: seq<Event>, n: nat)
    requires n <= |es|
    ensures Line(Sorted(s0.waiting), Calls(es), n) == Sorted(At(s0, es, n).waiting)
  {
    WaitingIs(s0, es, n);
    QueueRefines(s0.waiting, Calls(es), n);
  }

  lemma HandsToFirst(s: State, e: Event, id: u32)
    ensures Hands(s, e, id) <==> ServesOne(Sorted(s.waiting), CallOf(e)) && Sorted(s.waiting)[0].id == id
  {
    if s.waiting != [] {
      HeadIsFirstMin(s.waiting);
    }
  }

  lemma WokenIsHanded(s0: State, es: seq<Event>, m: nat, id: u32)
    requires m < |es|
    ensures WokenAt(Sorted(s0.waiting), Calls(es), m, id) <==> Hands(At(s0, es, m), es[m], id)
  {
    LineIs(s0, es, m);
    HandsToFirst(At(s0, es, m), es[m], id);
  }

  /** The turn of the waiter at place `k` comes exactly at the give before which `k` gives
      found a waiter and one more for each thread that overtook it, if no thread blocks
      twice and no reset intervenes. */
  lemma TurnComesExactly(s0: State, es: seq<Event>, from: nat, n: nat, k: nat, t: Thread)
    requires from <= n < |es| && s0.waiting == [] && StandsAt(Sorted(At(s0, es, from).waiting), t, k)
    requires forall m :: 0 <= m < n ==> AnewAt([], Calls(es), m)
    requires forall m :: from <= m < n ==> !LeavesAt([], Calls(es), m, t.id)
    requires es[n].EvGive? && At(s0, es, n).waiting != []
    ensures Hands(At(s0, es, n), es[n], t.id) <==>
      ServeCount([], Calls(es), from, n) == k + OvertakeCount([], Calls(es), from, n, t.priority)
  {
    LineIs(s0, es, from);
    LineIs(s0, es, n);
    WokenIsHanded(s0, es, n, t.id);
    WaitQueues.TurnComesExactly([], Calls(es), from, n, k, t);
  }

  /** A give hands over exactly while somebody waits, saturates exactly when nobody does
      and the count is the limit, and otherwise adds a permit. */
  lemma GiveExact(s: State)
    requires s.Inv()
    ensures GiveReply(s).WokeThread? <==> s.waiting != []
    ensures GiveReply(s).Saturated? <==> s.waiting == [] && s.count == s.limit
    ensures GiveReply(s).Saturated? ==> Step(s, EvGive) == s
    ensures GiveReply(s).Incremented? <==> s.waiting == [] && s.count < s.limit
    ensures GiveReply(s).Incremented? ==> Step(s, EvGive) == s.(count := s.count + 1)
  {
  }

  /** What the answers say is left: a reset leaves nothing, an answer `Incremented` adds
      one, an answer `Acquired` takes one. */
  ghost function Level(s0: State, es: seq<Event>, n: nat): int
    requires n <= |es|
  {
    if n == 0 then s0.count
    else
      var s, l := At(s0, es, n - 1), Level(s0, es, n - 1);
      match es[n - 1]
      case EvGive => if GiveReply(s).Incremented? then l + 1 else l
      case EvTryTake => if TakeReply(s) == Acquired then l - 1 else l
      case EvTakeBlocking(_) => l
      case EvReset => 0
  }

  /** In every legal run the answers follow from the answers before: a take is refused
      exactly when nothing is left, a give saturates exactly when the limit is left. */
  lemma {:induction false} AnswersByLevel(s0: State, es: seq<Event>, n: nat)
    requires n <= |es| && s0.Inv() && LegalRun(s0, es, n)
    ensures At(s0, es, n).count == Level(s0, es, n)
    ensures TakeReply(At(s0, es, n)) == WouldBlock <==> Level(s0, es, n) == 0
    ensures GiveReply(At(s0, es, n)).Saturated? <==> Level(s0, es, n) == s0.limit
    decreases n
  {
    RunKeepsInv(s0, es, n);
    GiveExact(At(s0, es, n));
    if n > 0 {
      AnswersByLevel(s0, es, n - 1);
      RunKeepsInv(s0, es, n - 1);
      GiveExact(At(s0, es, n - 1));
    }
  }

  /** A give with somebody waiting wakes the most urgent thread, the earliest of
      those, with a zero return value, and leaves the count alone. */
  lemma GiveServesMostUrgent(s: State)
    requires s.Inv() && s.waiting != []
    ensures var f := FirstMin(s.waiting);
      && GiveReply(s) == WokeThread(s.waiting[f].(state := Ready, returnValue := 0))
      && Step(s, EvGive).count == s.count
      && Step(s, EvGive).waiting == s.waiting[..f] + s.waiting[f + 1..]
      && (forall k :: 0 <= k < |s.waiting| ==> s.waiting[f].priority <= s.waiting[k].priority)
      && (forall k :: 0 <= k < f ==> s.waiting[f].priority < s.waiting[k].priority)
  {
    assert IsFirstMin(s.waiting, FirstMin(s.waiting));
  }

  // ---------------------------------------------------------------------------
  // The object
  // ---------------------------------------------------------------------------

  class Semaphore {
    const waitQ: WaitQueue
    var count: u32
    const limit: u32

    ghost function View(): State
      reads this, waitQ
    {
      State(count, limit, waitQ.arrivals)
    }

    ghost predicate Valid()
      reads this, waitQ, waitQ.entries
    {
      waitQ.Valid() && View().Inv()
    }

    constructor (initial: u32, limit: u32)
      requires 0 < limit && initial <= limit
      ensures Valid() && View() == State(initial, limit, []) && fresh(waitQ) && fresh(waitQ.entries)
    {
      waitQ := new WaitQueue();
      count := initial;
      this.limit := limit;
    }

    method Give() returns (r: GiveResult)
      requires Valid()
      modifies this, waitQ, waitQ.entries
      ensures Valid() && View() == Step(old(View()), EvGive) && r == GiveReply(old(View()))
    {
      StepKeepsInv(View(), EvGive);
      var t := waitQ.UnpendFirst(OK);
      match t {
        case Some(w) =>
          r := WokeThread(w);
        case None =>
          if count != limit {
            count := count + 1;
            r := Incremented;
          } else {
            r := Saturated;
          }
      }
    }

    method TryTake() returns (r: TakeResult)
      requires Valid()
      modifies this
      ensures Valid() && View() == Step(old(View()), EvTryTake)
      ensures r == TakeReply(old(View()))
    {
      StepKeepsInv(View(), EvTryTake);
      if count > 0 {
        count := count - 1;
        r := Acquired;
      } else {
        r := WouldBlock;
      }
    }

    method TakeBlocking(t: Thread) returns (ok: bool)
      requires Valid() && Legal(View(), EvTakeBlocking(t))
      modifies waitQ, waitQ.entries
      ensures Valid() && View() == Step(old(View()), EvTakeBlocking(t))
      ensures ok <==> |old(View()).waiting| < 64
    {
      ArrivalKeepsInv(View(), t);
      ok := waitQ.Pend(Block(t));
    }

    method Reset() returns (woken: nat)
      requires Valid()
      modifies this, waitQ, waitQ.entries
      ensures Valid() && View() == Step(old(View()), EvReset) && woken == |old(View()).waiting|
    {
      woken := waitQ.UnpendAll(EAGAIN);
      count := 0;
    }
  }

  /** `init` refuses a zero limit and an initial count above the limit. */
  method InitSemaphore(initial: u32, limit: u32) returns (r: Result<Semaphore, i32>)
    ensures if 0 < limit && initial <= limit
      then r.Ok? && fresh(r.value) && r.value.Valid() && r.value.View() == State(initial, limit, [])
      else r == Err(-22)
  {
    if limit == 0 || initial > limit {
      return Err(EINVAL);
    }
    var s := new Semaphore(initial, limit);
    r := Ok(s);
  }
}
