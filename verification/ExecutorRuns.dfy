/** Whole runs of the executor: every finite sequence of calls on a fresh table. */
module ExecutorRuns {
  import opened Words
  import opened Runs
  import opened Executor

  datatype Event =
    | EvAdmit(prio: u32)
    | EvWake(h: u32)
    | EvSetDeadline(h: u32, d: u64)
    | EvExpire(now: u64)
    | EvConsume(h: u32)
    | EvPollRound(poll: Poll)

  /** `consume` is the one call with a precondition on its argument. */
  predicate Legal(e: Event) {
    e.EvConsume? ==> e.h < MAX_TASKS
  }

  type Trace = es: seq<Event> | forall k :: 0 <= k < |es| ==> Legal(es[k])

  lemma {:induction false} LeastExists(t: Table, s: set<nat>) returns (h: nat)
    requires t.Inv() && s != {} && s <= t.ready
    ensures h in s && forall j :: j in s && j != h ==> t.Before(h, j)
    decreases s
  {
    h :| h in s;
    if s != {h} {
      var m := LeastExists(t, s - {h});
      assert forall j :: j in s ==> j == h || j in s - {h};
      if t.Before(m, h) {
        h := m;
      }
    }
  }

  lemma PickExists(t: Table)
    requires t.Inv()
    ensures exists h :: IsPick(t, h)
  {
    if t.ready == {} {
      assert IsPick(t, MAX_TASKS);
    } else {
      var h := LeastExists(t, t.ready);
      assert IsPick(t, h);
    }
  }

  /** The round as a function of the table: the ready slots in dispatch order. */
  ghost function Order(t: Table): (log: seq<nat>)
    requires t.Inv()
    ensures IsOrder(t, log)
    decreases t.ready
  {
    if t.ready == {} then []
    else
      PickExists(t);
      var h :| IsPick(t, h);
      [h] + Order(Consume(t, h))
  }

  ghost function Step(t: Table, e: Event): Table
    requires t.Inv() && Legal(e)
  {
    match e
    case EvAdmit(p) => Admit(t, p)
    case EvWake(h) => Wake(t, h)
    case EvSetDeadline(h, d) => SetDeadline(t, h, d)
    case EvExpire(now) => Expire(t, now)
    case EvConsume(h) => Consume(t, h)
    case EvPollRound(poll) => DispatchLog(t, Order(t), poll).(ready := {})
  }

  lemma StepKeepsInv(t: Table, e: Event)
    requires t.Inv() && Legal(e)
    ensures Step(t, e).Inv()
  {
  }

  ghost function Run(t: Table, es: Trace): (t': Table)
    requires t.Inv()
    ensures t'.Inv()
    decreases |es|
  {
    if es == [] then t
    else
      var t0 := Run(t, es[..|es| - 1]);
      StepKeepsInv(t0, es[|es| - 1]);
      Step(t0, es[|es| - 1])
  }

  /** The table after the first `k` calls on a fresh table. */
  ghost function After(es: Trace, k: nat): (t: Table)
    requires k <= |es|
    ensures t.Inv()
  {
    Run(New(), es[..k])
  }

  lemma AfterStep(es: Trace, k: nat)
    requires k < |es|
    ensures After(es, k + 1) == Step(After(es, k), es[k])
  {
    assert es[..k + 1][..k] == es[..k];
  }

  /** `After` looks at nothing beyond the first `k` calls. */
  lemma AfterPrefix(es: Trace, n: nat, k: nat)
    requires k <= n <= |es|
    ensures After(es[..n], k) == After(es, k)
  {
    assert es[..n][..k] == es[..k];
  }

  // ---------------------------------------------------------------------------
  // No lost wakeups
  // ---------------------------------------------------------------------------

  /** Call `e` delivers a wakeup to slot `i`: an explicit wake of a Pending task,
      or an expiry that has reached the deadline of one. */
  ghost predicate Delivers(t: Table, e: Event, i: nat)
    requires t.Shape()
  {
    t.IsPending(i) && match e
      case EvWake(h) => h == i
      case EvExpire(now) => t.deadline[i] <= now
      case _ => false
  }

  /** Call `e` takes the wakeups of slot `i`: it is consumed, or a round runs. */
  ghost predicate Takes(e: Event, i: nat) {
    e.EvPollRound? || (e.EvConsume? && e.h == i)
  }

  /** Call `k` delivered a wakeup to `i` and no later call took it. */
  ghost predicate OwedSince(es: Trace, k: nat, i: nat)
    requires k < |es|
  {
    Delivers(After(es, k), es[k], i) && forall m :: k < m < |es| ==> !Takes(es[m], i)
  }

  /** Some wakeup was delivered to `i` and has not been taken since. */
  ghost predicate Owed(es: Trace, i: nat) {
    exists k :: 0 <= k < |es| && OwedSince(es, k, i)
  }

  lemma StepReady(t: Table, e: Event, i: nat)
    requires t.Inv() && Legal(e)
    ensures i in Step(t, e).ready <==> Delivers(t, e, i) || (i in t.ready && !Takes(e, i))
  {
  }

  lemma OwedSincePrefix(es: Trace, k: nat, i: nat)
    requires k < |es| - 1
    ensures OwedSince(es, k, i) <==> OwedSince(es[..|es| - 1], k, i) && !Takes(es[|es| - 1], i)
  {
    var n := |es| - 1;
    var before: Trace := es[..n];
    AfterPrefix(es, n, k);
    assert before[k] == es[k];
    if OwedSince(before, k, i) && !Takes(es[n], i) {
      forall m | k < m < |es| ensures !Takes(es[m], i) {
        assert m < n ==> before[m] == es[m];
      }
    }
    if OwedSince(es, k, i) {
      forall m | k < m < n ensures !Takes(before[m], i) {
        assert before[m] == es[m];
      }
    }
  }

  lemma OwedStep(es: Trace, i: nat)
    requires es != []
    ensures var n := |es| - 1;
      Owed(es, i) <==> Delivers(After(es, n), es[n], i) || (Owed(es[..n], i) && !Takes(es[n], i))
  {
    var n := |es| - 1;
    assert OwedSince(es, n, i) <==> Delivers(After(es, n), es[n], i);
    forall k | 0 <= k < n
      ensures OwedSince(es, k, i) <==> OwedSince(es[..n], k, i) && !Takes(es[n], i)
    {
      OwedSincePrefix(es, k, i);
    }
  }

  /** In every reachable state a slot is ready exactly when it is owed a wakeup,
      and then it is Pending: no call sequence loses a wakeup or invents one. */
  lemma {:induction false} NoLostWakeups(es: Trace, i: nat)
    ensures i in After(es, |es|).ready <==> Owed(es, i)
    ensures Owed(es, i) ==> After(es, |es|).IsPending(i)
    decreases |es|
  {
    assert es[..|es|] == es;
    if es != [] {
      var n := |es| - 1;
      NoLostWakeups(es[..n], i);
      assert es[..n][..n] == es[..n];
      AfterStep(es, n);
      StepReady(After(es, n), es[n], i);
      OwedStep(es, i);
    }
  }

  /** End to end: a round after any run dispatches exactly the slots owed a
      wakeup, and every order the round could report is that one. */
  lemma RoundDispatchesOwed(es: Trace, log: seq<nat>)
    requires IsOrder(After(es, |es|), log)
    ensures forall i :: i in log <==> Owed(es, i)
    ensures log == Order(After(es, |es|))
  {
    forall i ensures i in log <==> Owed(es, i) {
      NoLostWakeups(es, i);
    }
    OrderUnique(After(es, |es|), log, Order(After(es, |es|)));
  }

  // ---------------------------------------------------------------------------
  // Slot allocation and tickless timing
  // ---------------------------------------------------------------------------

  function Admissions(es: seq<Event>): nat {
    if es == [] then 0 else Admissions(es[..|es| - 1]) + if es[|es| - 1].EvAdmit? then 1 else 0
  }

  /** Used slots are exactly the first `n`, and a Free slot carries no timer. */
  ghost predicate Allocated(t: Table, n: nat) {
    && t.Shape() && n <= MAX_TASKS
    && forall i :: 0 <= i < MAX_TASKS ==>
         (t.state[i] == Free <==> n <= i) && (t.state[i] == Free ==> t.deadline[i] == NO_TIMER)
  }

  lemma FirstFreeIs(t: Table, n: nat)
    requires Allocated(t, n)
    ensures FirstFree(t.state) == n
  {
    assert n < MAX_TASKS ==> t.state[n] == Free;
  }

  lemma AllocatedStep(t: Table, e: Event, n: nat)
    requires t.Inv() && Legal(e) && Allocated(t, n)
    ensures Allocated(Step(t, e), if e.EvAdmit? && n < MAX_TASKS then n + 1 else n)
  {
    FirstFreeIs(t, n);
  }

  /** Handles are given out as 0, 1, 2, ... and never twice: after any run the
      next admission returns the number of admissions so far, or `NO_SLOT` once
      eight have been made. */
  lemma {:induction false} AdmissionOrder(es: Trace)
    ensures Allocated(After(es, |es|), Min(Admissions(es), MAX_TASKS))
    ensures AdmitHandle(After(es, |es|)) == if Admissions(es) < 8 then Admissions(es) else 0xFFFF_FFFF
    decreases |es|
  {
    assert es[..|es|] == es;
    if es != [] {
      var n := |es| - 1;
      AdmissionOrder(es[..n]);
      assert es[..n][..n] == es[..n];
      AfterStep(es, n);
      AllocatedStep(After(es, n), es[n], Min(Admissions(es[..n]), MAX_TASKS));
    }
    FirstFreeIs(After(es, |es|), Min(Admissions(es), MAX_TASKS));
  }

  // ---------------------------------------------------------------------------
  // Every slot is its history
  // ---------------------------------------------------------------------------

  /** The priorities asked for, in the order of the admissions. */
  function AdmittedPrios(es: seq<Event>): (ps: seq<u32>)
    ensures |ps| == Admissions(es)
  {
    if es == [] then []
    else AdmittedPrios(es[..|es| - 1]) + if es[|es| - 1].EvAdmit? then [es[|es| - 1].prio] else []
  }

  /** Call `k` is a round in which slot `i` reports completion. */
  ghost predicate CompletedAt(es: Trace, k: nat, i: nat)
    requires k < |es|
  {
    es[k].EvPollRound? && Completes(Order(After(es, k)), es[k].poll, i)
  }

  ghost predicate EverCompleted(es: Trace, i: nat) {
    exists k :: 0 <= k < |es| && CompletedAt(es, k, i)
  }

  /** The last deadline set for slot `i` while it was Pending; no timer if none was. */
  ghost function LastArming(es: Trace, i: nat): u64 {
    if es == [] then 0xFFFF_FFFF_FFFF_FFFF
    else
      var n := |es| - 1;
      if es[n].EvSetDeadline? && es[n].h == i && After(es, n).IsPending(i) then es[n].d
      else LastArming(es[..n], i)
  }

  /** The state of slot `i` as its history says. */
  ghost function HistoricState(es: Trace, i: nat): TaskState {
    if i >= Admissions(es) then Free else if EverCompleted(es, i) then Done else Pending
  }

  lemma CompletedSnoc(es: Trace, i: nat)
    requires es != []
    ensures var n := |es| - 1; EverCompleted(es, i) <==> EverCompleted(es[..n], i) || CompletedAt(es, n, i)
  {
    var n := |es| - 1;
    forall k | 0 <= k < n ensures CompletedAt(es, k, i) <==> CompletedAt(es[..n], k, i) {
      AfterPrefix(es, n, k);
      assert es[..n][k] == es[k];
    }
  }

  /** One call: who is admitted, who completes, who is armed. */
  lemma StepSlot(t: Table, e: Event, n: nat, i: nat)
    requires t.Inv() && Legal(e) && Allocated(t, n) && i < MAX_TASKS
    ensures var t' := Step(t, e);
      && t'.state[i] == (if e.EvAdmit? && i == n then Pending
                         else if e.EvPollRound? && Completes(Order(t), e.poll, i) then Done else t.state[i])
      && t'.prio[i] == (if e.EvAdmit? && i == n then e.prio else t.prio[i])
      && t'.deadline[i] == (if e.EvSetDeadline? && e.h == i && t.IsPending(i) then e.d else t.deadline[i])
  {
    FirstFreeIs(t, n);
    if e.EvPollRound? {
      DispatchState(t, Order(t), e.poll, i);
    }
  }

  /** What completes was ready, so it had been admitted. */
  lemma CompletesPending(t: Table, poll: Poll, i: nat)
    requires t.Inv() && Completes(Order(t), poll, i)
    ensures i < MAX_TASKS && t.IsPending(i)
  {
    var log := Order(t);
    var k :| 0 <= k < |log| && log[k] == i && poll(k, i) == 1;
    assert log[k] in log;
  }

  /** The last call of a trace, as slot `i` sees it. */
  lemma LastCall(es: Trace, i: nat)
    requires es != [] && i < MAX_TASKS
    ensures var n := |es| - 1; var before: Trace := es[..n]; var t, t', e := After(before, n), After(es, |es|), es[n];
      && t == After(es, n)
      && t'.state[i] == (if e.EvAdmit? && i == Admissions(before) then Pending
                         else if CompletedAt(es, n, i) then Done else t.state[i])
      && t'.prio[i] == (if e.EvAdmit? && i == Admissions(before) then e.prio else t.prio[i])
      && t'.deadline[i] == (if e.EvSetDeadline? && e.h == i && t.IsPending(i) then e.d else t.deadline[i])
  {
    var n := |es| - 1;
    AfterPrefix(es, n, n);
    AdmissionOrder(es[..n]);
    assert es[..n + 1] == es;
    AfterStep(es, n);
    StepSlot(After(es, n), es[n], Min(Admissions(es[..n]), MAX_TASKS), i);
  }

  lemma AdmissionsSnoc(es: Trace)
    requires es != []
    ensures Admissions(es) == Admissions(es[..|es| - 1]) + if es[|es| - 1].EvAdmit? then 1 else 0
  {
  }

  ghost predicate StateKept(es: Trace, i: nat)
    requires i < MAX_TASKS
  {
    After(es, |es|).state[i] == HistoricState(es, i) && (EverCompleted(es, i) ==> i < Admissions(es))
  }

  lemma StateStep(es: Trace, i: nat)
    requires es != [] && i < MAX_TASKS && StateKept(es[..|es| - 1], i)
    ensures StateKept(es, i)
  {
    var n := |es| - 1;
    LastCall(es, i);
    CompletedSnoc(es, i);
    AdmissionsSnoc(es);
    if CompletedAt(es, n, i) {
      CompletesPending(After(es, n), es[n].poll, i);
    }
  }

  lemma {:induction false} StateIsHistory(es: Trace, i: nat)
    requires i < MAX_TASKS
    ensures StateKept(es, i)
    decreases |es|
  {
    if es != [] {
      StateIsHistory(es[..|es| - 1], i);
      StateStep(es, i);
    }
  }

  lemma {:induction false} PriorityIsHistory(es: Trace, i: nat)
    requires i < MAX_TASKS && i < Admissions(es)
    ensures After(es, |es|).prio[i] == AdmittedPrios(es)[i]
    decreases |es|
  {
    LastCall(es, i);
    if i < Admissions(es[..|es| - 1]) {
      PriorityIsHistory(es[..|es| - 1], i);
    }
  }

  lemma {:induction false} DeadlineIsHistory(es: Trace, i: nat)
    requires i < MAX_TASKS
    ensures After(es, |es|).deadline[i] == LastArming(es, i)
    decreases |es|
  {
    if es != [] {
      DeadlineIsHistory(es[..|es| - 1], i);
      LastCall(es, i);
    }
  }

  /** Over every trace each of the eight slots is what its history makes it: Free until
      its admission, Done from the round in which it completed, Pending in between; its
      priority is the one asked for in that admission, its deadline the last one set
      while it was Pending. */
  lemma SlotIsHistory(es: Trace, i: nat)
    requires i < 8
    ensures After(es, |es|).state[i] == HistoricState(es, i)
    ensures i < Admissions(es) ==> After(es, |es|).prio[i] == AdmittedPrios(es)[i]
    ensures After(es, |es|).deadline[i] == LastArming(es, i)
  {
    StateIsHistory(es, i);
    if i < Admissions(es) {
      PriorityIsHistory(es, i);
    }
    DeadlineIsHistory(es, i);
  }

  /** The dispatch order in terms of the admissions: lower priority value first, equal
      ones in the order of admission. */
  lemma RoundOrder(es: Trace, a: nat, b: nat)
    requires a < b < |Order(After(es, |es|))|
    ensures var log, ps := Order(After(es, |es|)), AdmittedPrios(es);
      && log[a] < |ps| && log[b] < |ps|
      && (ps[log[a]] < ps[log[b]] || (ps[log[a]] == ps[log[b]] && log[a] < log[b]))
  {
    var t := After(es, |es|);
    var log := Order(t);
    assert log[a] in log && log[b] in log;
    SlotIsHistory(es, log[a]);
    SlotIsHistory(es, log[b]);
    assert t.Before(log[a], log[b]);
  }

  /** Tickless expiry: before the next deadline it changes nothing, and from the
      next deadline on it wakes some task that was armed for it. */
  lemma ExpiryIsTickless(t: Table, d: u64, now: u64)
    requires t.Inv() && IsNextDeadline(t, d)
    ensures now < d ==> Expire(t, now) == t
    ensures d <= now && d != NO_TIMER ==>
      exists i :: 0 <= i < MAX_TASKS && t.IsPending(i) && t.deadline[i] == d && i in Expire(t, now).ready
  {
    if now < d {
      assert Due(t, now) == {};
      assert t.ready + Due(t, now) == t.ready;
    }
  }

  /** A task without a timer is woken by expiry exactly at the largest instant. */
  lemma NoTimerExpires(t: Table, now: u64, i: nat)
    requires t.Inv() && t.IsPending(i) && t.deadline[i] == NO_TIMER && i !in t.ready
    ensures i in Expire(t, now).ready <==> now == NO_TIMER
  {
  }

  /** There it does happen: a task admitted and never armed is woken. */
  lemma NoTimerCounterexample(p: u32)
    ensures var es: Trace := [EvAdmit(p), EvExpire(NO_TIMER)];
      After(es, 1).deadline[0] == NO_TIMER && 0 !in After(es, 1).ready && 0 in After(es, 2).ready
  {
    var es: Trace := [EvAdmit(p), EvExpire(NO_TIMER)];
    assert After(es, 0) == New();
    AfterStep(es, 0);
    AfterStep(es, 1);
    FirstFreeIs(New(), 0);
    NoTimerExpires(After(es, 1), NO_TIMER, 0);
  }

  // ---------------------------------------------------------------------------
  // Tickless against ticking
  // ---------------------------------------------------------------------------

  /** Calls on the table, and instants of a clock passing between them. */
  datatype Timed = Call(e: Event) | Instant(now: u64)

  type LegalTimed = x: Timed | x.Call? ==> Legal(x.e) witness Instant(0)

  type GoodTable = t: Table | t.Inv() ghost witness New()

  lemma {:induction false} NextExists(t: Table, n: nat) returns (d: u64)
    requires t.Inv() && n <= MAX_TASKS
    ensures forall i :: 0 <= i < n && t.IsPending(i) ==> d <= t.deadline[i]
    ensures d == NO_TIMER || exists i :: 0 <= i < n && t.IsPending(i) && d == t.deadline[i]
    decreases n
  {
    if n == 0 {
      d := NO_TIMER;
    } else {
      d := NextExists(t, n - 1);
      if t.IsPending(n - 1) && t.deadline[n - 1] < d {
        d := t.deadline[n - 1];
      }
    }
  }

  lemma NextUnique(t: Table, d: u64, d': u64)
    requires t.Inv() && IsNextDeadline(t, d) && IsNextDeadline(t, d')
    ensures d == d'
  {
  }

  /** The instant the one-shot alarm is armed for. */
  ghost function NextDeadlineOf(t: Table): (d: u64)
    requires t.Inv()
    ensures IsNextDeadline(t, d)
  {
    assert exists d: u64 :: IsNextDeadline(t, d) by {
      var d := NextExists(t, MAX_TASKS);
      assert IsNextDeadline(t, d);
    }
    var d: u64 :| IsNextDeadline(t, d);
    d
  }

  /** A ticking system calls `expire` at every instant. */
  ghost function TickingStep(t: GoodTable, x: LegalTimed): GoodTable {
    match x
    case Call(e) => StepKeepsInv(t, e); Step(t, e)
    case Instant(now) => Expire(t, now)
  }

  /** The tickless one calls it only once the armed instant has been reached. */
  ghost function TicklessStep(t: GoodTable, x: LegalTimed): GoodTable {
    match x
    case Call(e) => StepKeepsInv(t, e); Step(t, e)
    case Instant(now) => if NextDeadlineOf(t) <= now then Expire(t, now) else t
  }

  lemma StepsAgree(t: GoodTable, x: LegalTimed)
    ensures TicklessStep(t, x) == TickingStep(t, x)
  {
    if x.Instant? {
      ExpiryIsTickless(t, NextDeadlineOf(t), x.now);
    }
  }

  ghost const TICKING: (GoodTable, LegalTimed) -> GoodTable := (t, x) => TickingStep(t, x)

  ghost const TICKLESS: (GoodTable, LegalTimed) -> GoodTable := (t, x) => TicklessStep(t, x)

  /** Over every interleaving of calls and instants the tickless system is, after each
      of them, in the state of the ticking one. */
  lemma TicklessIsTicking(t: GoodTable, xs: seq<LegalTimed>, n: nat)
    requires n <= |xs|
    ensures Fold(TICKLESS, t, xs, n) == Fold(TICKING, t, xs, n)
  {
    forall s: GoodTable, x: LegalTimed ensures TICKLESS(s, x) == TICKING(s, x) {
      StepsAgree(s, x);
    }
    FoldsAgree(TICKLESS, TICKING, t, xs, n);
  }

  /** `expire` at every instant from `first` to `last`. */
  function EveryInstant(t: Table, first: nat, last: u64): (t': Table)
    requires t.Shape() && first <= last
    ensures t'.Shape()
    decreases last
  {
    Expire(if first == last then t else EveryInstant(t, first, last - 1), last)
  }

  /** One late call does the work of a call at every instant. */
  lemma {:induction false} OneCallIsEnough(t: Table, first: nat, last: u64)
    requires t.Shape() && first <= last
    ensures EveryInstant(t, first, last) == Expire(t, last)
    decreases last
  {
    if first < last {
      OneCallIsEnough(t, first, last - 1);
      assert Due(t, last - 1) <= Due(t, last);
      assert Due(Expire(t, last - 1), last) == Due(t, last);
      assert t.ready + Due(t, last - 1) + Due(t, last) == t.ready + Due(t, last);
    }
  }

  // ---------------------------------------------------------------------------
  // The alarm after a round
  // ---------------------------------------------------------------------------

  lemma NextAfter(t: Table, now: u64)
    requires t.Inv() && now < NO_TIMER
    ensures now < NextDeadlineOf(t) <==> forall i :: 0 <= i < MAX_TASKS && t.IsPending(i) ==> now < t.deadline[i]
  {
  }

  /** What a round after an expiry leaves Pending was Pending, and keeps its deadline;
      what was due and has not completed is still Pending. */
  lemma RoundAfterExpiry(t: Table, now: u64, poll: Poll, i: nat)
    requires t.Inv() && i < MAX_TASKS
    ensures var t' := Step(Expire(t, now), EvPollRound(poll));
      && t'.Inv() && t'.deadline == t.deadline
      && (t'.IsPending(i) ==> t.IsPending(i))
      && (i in Due(t, now) ==> t'.IsPending(i) || t'.state[i] == Done)
  {
  }

  /** `expire` and a round disarm nothing: after them the alarm is set for a later
      instant exactly when every task that was due has completed. */
  lemma AlarmAfterRound(t: Table, now: u64, poll: Poll)
    requires t.Inv() && now < NO_TIMER
    ensures var t' := Step(Expire(t, now), EvPollRound(poll));
      t'.Inv() && (now < NextDeadlineOf(t') <==> forall i :: i in Due(t, now) ==> t'.state[i] == Done)
  {
    var t' := Step(Expire(t, now), EvPollRound(poll));
    forall i | 0 <= i < MAX_TASKS
      ensures t'.Inv() && t'.deadline == t.deadline
      ensures t'.IsPending(i) && t.deadline[i] <= now <==> i in Due(t, now) && t'.state[i] != Done
    {
      RoundAfterExpiry(t, now, poll, i);
    }
    assert t'.Inv() by {
      RoundAfterExpiry(t, now, poll, 0);
    }
    NextAfter(t', now);
    if forall i :: i in Due(t, now) ==> t'.state[i] == Done {
      forall i | 0 <= i < MAX_TASKS && t'.IsPending(i) ensures now < t'.deadline[i] {
        assert i in Due(t, now) ==> t'.state[i] == Done;
      }
    }
  }

  /** A call of `set_deadline`. */
  datatype Arming = Arming(h: u32, d: u64)

  function Rearm(t: Table, arms: seq<Arming>): (t': Table)
    requires t.Shape()
    ensures t'.Shape() && t'.state == t.state && t'.ready == t.ready
  {
    if arms == [] then t
    else
      var last := arms[|arms| - 1];
      SetDeadline(Rearm(t, arms[..|arms| - 1]), last.h, last.d)
  }

  /** The deadline the last call for slot `i` set, `d` if there is none. */
  function ArmedFor(arms: seq<Arming>, i: nat, d: u64): u64 {
    if arms == [] then d
    else if arms[|arms| - 1].h == i then arms[|arms| - 1].d
    else ArmedFor(arms[..|arms| - 1], i, d)
  }

  lemma {:induction false} RearmDeadline(t: Table, arms: seq<Arming>, i: nat)
    requires t.Shape() && t.IsPending(i)
    ensures Rearm(t, arms).deadline[i] == ArmedFor(arms, i, t.deadline[i])
    decreases |arms|
  {
    if arms != [] {
      RearmDeadline(t, arms[..|arms| - 1], i);
    }
  }

  /** With re-arming calls after the round: the alarm is set for a later instant exactly
      when every task still Pending is, by its last call or else by its old deadline,
      armed for a later one. */
  lemma AlarmAfterRearming(t: Table, now: u64, poll: Poll, arms: seq<Arming>)
    requires t.Inv() && now < NO_TIMER
    ensures var t' := Step(Expire(t, now), EvPollRound(poll));
      && t'.Inv() && Rearm(t', arms).Inv()
      && (now < NextDeadlineOf(Rearm(t', arms)) <==>
            forall i :: 0 <= i < MAX_TASKS && t'.IsPending(i) ==> now < ArmedFor(arms, i, t.deadline[i]))
  {
    var t' := Step(Expire(t, now), EvPollRound(poll));
    RoundAfterExpiry(t, now, poll, 0);
    var r := Rearm(t', arms);
    NextAfter(r, now);
    forall i | 0 <= i < MAX_TASKS && t'.IsPending(i)
      ensures r.IsPending(i) && r.deadline[i] == ArmedFor(arms, i, t.deadline[i])
    {
      RearmDeadline(t', arms, i);
    }
  }

  lemma StaleRound(t: Table, poll: Poll)
    requires t.Inv() && t.ready == {} && t.IsPending(0) && t.deadline[0] == 5 && poll(0, 0) != POLL_DONE
    requires forall i :: 1 <= i < MAX_TASKS ==> !t.IsPending(i)
    ensures var t' := Step(Expire(t, 5), EvPollRound(poll)); t'.Inv() && NextDeadlineOf(t') == 5
  {
    var t1 := Expire(t, 5);
    assert t1.ready == {0};
    assert IsOrder(t1, [0]);
    OrderUnique(t1, [0], Order(t1));
    var t' := Step(t1, EvPollRound(poll));
    assert [0][..0] == [];
    assert t'.IsPending(0) && t'.deadline[0] == 5;
    RoundAfterExpiry(t, 5, poll, 0);
    assert forall i :: 1 <= i < MAX_TASKS ==> !t'.IsPending(i);
    assert IsNextDeadline(t', 5);
    NextUnique(t', NextDeadlineOf(t'), 5);
  }

  lemma ArmedAlone(es: Trace, p: u32)
    requires |es| >= 2 && es[0] == EvAdmit(p) && es[1] == EvSetDeadline(0, 5)
    ensures var t := After(es, 2);
      t.ready == {} && t.IsPending(0) && t.deadline[0] == 5 && forall i :: 1 <= i < MAX_TASKS ==> !t.IsPending(i)
  {
    assert After(es, 0) == New();
    FirstFreeIs(New(), 0);
    AfterStep(es, 0);
    AfterStep(es, 1);
  }

  lemma ExpireThenRound(es: Trace, k: nat, now: u64, poll: Poll)
    requires k + 2 <= |es| && es[k] == EvExpire(now) && es[k + 1] == EvPollRound(poll)
    ensures Expire(After(es, k), now).Inv()
    ensures After(es, k + 2) == Step(Expire(After(es, k), now), EvPollRound(poll))
  {
    AfterStep(es, k);
    AfterStep(es, k + 1);
  }

  /** A task armed for 5 that does not complete: after the expiry and the round at 5 the
      alarm is still set for 5. */
  lemma StaleAlarm(es: Trace, p: u32, poll: Poll)
    requires es == [EvAdmit(p), EvSetDeadline(0, 5), EvExpire(5), EvPollRound(poll)] && poll(0, 0) != POLL_DONE
    ensures NextDeadlineOf(After(es, 4)) == 5
  {
    ArmedAlone(es, p);
    StaleRound(After(es, 2), poll);
    ExpireThenRound(es, 2, 5, poll);
  }

  // ---------------------------------------------------------------------------
  // The class runs these traces
  // ---------------------------------------------------------------------------

  /** One call on the real table. */
  method PerformOne(tasks: Tasks, e: Event)
    requires tasks.Valid() && Legal(e)
    modifies tasks, tasks.state, tasks.prio, tasks.deadline
    ensures tasks.Valid() && tasks.View() == Step(old(tasks.View()), e)
  {
    match e {
      case EvAdmit(p) => var _ := tasks.AdmitTask(p);
      case EvWake(h) => tasks.WakeTask(h);
      case EvSetDeadline(h, d) => tasks.SetTaskDeadline(h, d);
      case EvExpire(now) => tasks.ExpireTasks(now);
      case EvConsume(h) => tasks.ConsumeTask(h);
      case EvPollRound(poll) =>
        ghost var t := tasks.View();
        ghost var log := tasks.PollRound(poll);
        OrderUnique(t, log, Order(t));
    }
  }

  /** Performing the calls on the real table gives the value the run gives. */
  method Perform(tasks: Tasks, es: Trace)
    requires tasks.Valid()
    modifies tasks, tasks.state, tasks.prio, tasks.deadline
    ensures tasks.Valid() && tasks.View() == Run(old(tasks.View()), es)
  {
    var k := 0;
    while k < |es|
      invariant k <= |es| && tasks.Valid()
      invariant tasks.View() == Run(old(tasks.View()), es[..k])
    {
      assert es[..k + 1][..k] == es[..k];
      PerformOne(tasks, es[k]);
      k := k + 1;
    }
    assert es[..k] == es;
  }
}
