/** The gust executor's task table (src/executor.rs): fixed-priority, tickless,
    with readiness kept in one 32-bit mask.

    `Table` is the value the table stands for, with readiness as a set; `Tasks`
    is the class the source has, and each of its methods is proved to move the
    value exactly as the function of the same name does. */
module Executor {
  import opened Words
  import opened Bits

  const MAX_TASKS: nat := 8
  const NO_TIMER: u64 := 0xFFFF_FFFF_FFFF_FFFF
  const NO_SLOT: u32 := 0xFFFF_FFFF
  const POLL_DONE: u32 := 1

  datatype TaskState = Free | Pending | Done

  datatype Table = Table(state: seq<TaskState>, prio: seq<u32>, deadline: seq<u64>, ready: set<nat>)
  {
    predicate Shape() {
      |state| == MAX_TASKS && |prio| == MAX_TASKS && |deadline| == MAX_TASKS
    }

    /** Representation invariant: only Pending slots are ever ready. */
    ghost predicate Inv() {
      Shape() && forall i :: i in ready ==> i < MAX_TASKS && state[i] == Pending
    }

    predicate IsPending(h: nat)
      requires Shape()
    {
      h < MAX_TASKS && state[h] == Pending
    }

    /** Slot `i` goes before slot `j`: lower `prio` value, then lower index. */
    predicate Before(i: nat, j: nat)
      requires Shape() && i < MAX_TASKS && j < MAX_TASKS
    {
      prio[i] < prio[j] || (prio[i] == prio[j] && i < j)
    }
  }

  /** What one poll of a task returns: an arbitrary function of how many polls
      the round has made so far and of the slot polled. */
  type Poll = (nat, nat) -> u32

  function New(): Table {
    Table(seq(MAX_TASKS, _ => Free), seq(MAX_TASKS, _ => 0), seq(MAX_TASKS, _ => NO_TIMER), {})
  }

  function FirstFree(state: seq<TaskState>): (h: nat)
    ensures h <= |state|
    ensures h < |state| ==> state[h] == Free
    ensures forall i :: 0 <= i < h ==> state[i] != Free
  {
    if state == [] || state[0] == Free then 0 else 1 + FirstFree(state[1..])
  }

  function Admit(t: Table, prio: u32): Table
    requires t.Shape()
  {
    var h := FirstFree(t.state);
    if h < MAX_TASKS then
      t.(state := t.state[h := Pending], prio := t.prio[h := prio], ready := t.ready - {h})
    else t
  }

  function AdmitHandle(t: Table): u32
    requires t.Shape()
  {
    if FirstFree(t.state) < MAX_TASKS then FirstFree(t.state) else NO_SLOT
  }

  function Wake(t: Table, h: nat): Table
    requires t.Shape()
  {
    if t.IsPending(h) then t.(ready := t.ready + {h}) else t
  }

  function SetDeadline(t: Table, h: nat, d: u64): Table
    requires t.Shape()
  {
    if t.IsPending(h) then t.(deadline := t.deadline[h := d]) else t
  }

  function Due(t: Table, now: u64): set<nat>
    requires t.Shape()
  {
    set i: nat | i < MAX_TASKS && t.IsPending(i) && t.deadline[i] <= now
  }

  function Expire(t: Table, now: u64): Table
    requires t.Shape()
  {
    t.(ready := t.ready + Due(t, now))
  }

  function Consume(t: Table, h: nat): Table {
    t.(ready := t.ready - {h})
  }

  function Dispatch(t: Table, h: nat, code: u32): Table
    requires t.Shape() && h < MAX_TASKS
  {
    if code == POLL_DONE then t.(state := t.state[h := Done]) else t
  }

  // ---------------------------------------------------------------------------
  // The dispatch order of one round
  // ---------------------------------------------------------------------------

  predicate Handles(log: seq<nat>) {
    forall k :: 0 <= k < |log| ==> log[k] < MAX_TASKS
  }

  /** `log` lists exactly the ready slots, each once, most urgent first. */
  ghost predicate IsOrder(t: Table, log: seq<nat>)
    requires t.Inv()
  {
    && (forall i :: i in log <==> i in t.ready)
    && Handles(log)
    && (forall a, b :: 0 <= a < b < |log| ==> t.Before(log[a], log[b]))
  }

  /** Consuming the head leaves an order of what remains. */
  lemma OrderTail(t: Table, log: seq<nat>)
    requires t.Inv() && IsOrder(t, log) && log != []
    ensures Consume(t, log[0]).Inv() && IsOrder(Consume(t, log[0]), log[1..])
  {
    var t' := Consume(t, log[0]);
    forall i ensures i in log[1..] <==> i in t'.ready {
      if i in log[1..] {
        var k :| 0 <= k < |log[1..]| && log[1..][k] == i;
        assert log[k + 1] == i && t.Before(log[0], log[k + 1]);
      }
      if i in t'.ready {
        var k :| 0 <= k < |log| && log[k] == i;
        assert log[1..][k - 1] == i;
      }
    }
  }

  /** Two orders of the same ready set are the same sequence. */
  lemma {:induction false} OrderUnique(t: Table, log: seq<nat>, log': seq<nat>)
    requires t.Inv() && IsOrder(t, log) && IsOrder(t, log')
    ensures log == log'
    decreases |log|
  {
    if log == [] {
      assert forall k :: 0 <= k < |log'| ==> log'[k] in t.ready;
    } else {
      assert log[0] in log';
      assert log'[0] in log;
      assert log[0] == log'[0];
      var h := log[0];
      OrderTail(t, log);
      OrderTail(t, log');
      OrderUnique(Consume(t, h), log[1..], log'[1..]);
      assert log == [h] + log[1..] && log' == [h] + log'[1..];
    }
  }

  /** The state after dispatching `log` in order. */
  function DispatchLog(t: Table, log: seq<nat>, poll: Poll): (t': Table)
    requires t.Shape() && Handles(log)
    ensures t'.Shape() && t'.prio == t.prio && t'.deadline == t.deadline && t'.ready == t.ready
    ensures forall i :: 0 <= i < MAX_TASKS ==>
      t'.state[i] == t.state[i] || (i in log && t'.state[i] == Done)
    decreases |log|
  {
    if log == [] then t
    else
      var n := |log| - 1;
      Dispatch(DispatchLog(t, log[..n], poll), log[n], poll(n, log[n]))
  }

  /** Some dispatch of slot `i` in `log` was answered with the completion code. */
  ghost predicate Completes(log: seq<nat>, poll: Poll, i: nat) {
    exists k :: 0 <= k < |log| && log[k] == i && poll(k, i) == 1
  }

  lemma CompletesSnoc(log: seq<nat>, poll: Poll, i: nat)
    requires log != []
    ensures var n := |log| - 1;
      Completes(log, poll, i) <==> Completes(log[..n], poll, i) || (log[n] == i && poll(n, i) == 1)
  {
    var n := |log| - 1;
    if k :| 0 <= k < n && log[..n][k] == i && poll(k, i) == 1 {
      assert log[k] == i;
    }
    if k :| 0 <= k < |log| && log[k] == i && poll(k, i) == 1 {
      assert k < n ==> log[..n][k] == i;
    }
  }

  /** Dispatching a log retires exactly the slots whose poll reported completion. */
  lemma {:induction false} DispatchState(t: Table, log: seq<nat>, poll: Poll, i: nat)
    requires t.Shape() && Handles(log) && i < MAX_TASKS
    ensures DispatchLog(t, log, poll).state[i] == if Completes(log, poll, i) then Done else t.state[i]
    decreases |log|
  {
    if log != [] {
      DispatchState(t, log[..|log| - 1], poll, i);
      CompletesSnoc(log, poll, i);
    }
  }

  /** `pick_next` of a table: a ready slot that goes before every other ready
      slot, or `MAX_TASKS` when nothing is ready. */
  ghost predicate IsPick(t: Table, h: nat)
    requires t.Inv()
  {
    if t.ready == {} then h == MAX_TASKS
    else h in t.ready && forall j :: j in t.ready && j != h ==> t.Before(h, j)
  }

  /** Mid-round: `log` has been dispatched, `rest` is still ready, and together
      they are what was ready at entry. */
  ghost predicate Progress(t: Table, log: seq<nat>, rest: set<nat>)
    requires t.Inv()
  {
    && Handles(log)
    && (forall i :: i in log || i in rest <==> i in t.ready)
    && (forall a, b :: 0 <= a < b < |log| ==> t.Before(log[a], log[b]))
    && (forall a, j :: 0 <= a < |log| && j in rest ==> t.Before(log[a], j))
  }

  /** The table mid-round. */
  ghost predicate Midway(t: Table, log: seq<nat>, poll: Poll, now: Table)
    requires t.Inv()
  {
    now.Inv() && Progress(t, log, now.ready) && now == DispatchLog(t, log, poll).(ready := now.ready)
  }

  lemma DispatchKeepsInv(t: Table, h: nat, code: u32)
    requires t.Inv() && h < MAX_TASKS
    ensures Dispatch(Consume(t, h), h, code).Inv()
  {
  }

  lemma BeforeAgrees(t: Table, now: Table, h: nat)
    requires t.Inv() && now.Inv() && t.prio == now.prio && now.ready != {} && IsPick(now, h)
    ensures forall j :: j in now.ready && j != h ==> t.Before(h, j)
  {
    assert forall j :: j in now.ready && j != h ==> now.Before(h, j);
  }

  lemma DispatchSnoc(t: Table, log: seq<nat>, h: nat, poll: Poll)
    requires t.Shape() && Handles(log) && h < MAX_TASKS
    ensures Handles(log + [h])
    ensures DispatchLog(t, log + [h], poll) == Dispatch(DispatchLog(t, log, poll), h, poll(|log|, h))
  {
    assert (log + [h])[..|log|] == log;
  }

  lemma ProgressStep(t: Table, log: seq<nat>, rest: set<nat>, h: nat)
    requires t.Inv() && Progress(t, log, rest) && h in rest
    requires forall j :: j in rest && j != h ==> t.Before(h, j)
    ensures Progress(t, log + [h], rest - {h})
  {
    var log' := log + [h];
    assert forall i :: i in log' <==> i in log || i == h;
  }

  lemma MidwayStep(t: Table, log: seq<nat>, poll: Poll, now: Table, h: nat)
    requires t.Inv() && Midway(t, log, poll, now) && now.ready != {} && IsPick(now, h)
    ensures Midway(t, log + [h], poll, Dispatch(Consume(now, h), h, poll(|log|, h)))
  {
    DispatchSnoc(t, log, h, poll);
    DispatchKeepsInv(now, h, poll(|log|, h));
    BeforeAgrees(t, now, h);
    ProgressStep(t, log, now.ready, h);
  }

  lemma RoundState(t: Table, log: seq<nat>, poll: Poll)
    requires t.Shape() && Handles(log)
    ensures forall i :: 0 <= i < MAX_TASKS ==>
      DispatchLog(t, log, poll).state[i] == if Completes(log, poll, i) then Done else t.state[i]
  {
    forall i | 0 <= i < MAX_TASKS
      ensures DispatchLog(t, log, poll).state[i] == if Completes(log, poll, i) then Done else t.state[i]
    {
      DispatchState(t, log, poll, i);
    }
  }

  /** `d` is the least deadline of a Pending slot, `NO_TIMER` when there is none. */
  ghost predicate IsNextDeadline(t: Table, d: u64)
    requires t.Shape()
  {
    && (forall i :: 0 <= i < MAX_TASKS && t.IsPending(i) ==> d <= t.deadline[i])
    && (d == NO_TIMER || exists i :: 0 <= i < MAX_TASKS && t.IsPending(i) && d == t.deadline[i])
  }

  // ---------------------------------------------------------------------------
  // The class
  // ---------------------------------------------------------------------------

  class Tasks {
    const state: array<TaskState>
    const prio: array<u32>
    const deadline: array<u64>
    var ready: bv32

    ghost predicate Arrays() {
      && state.Length == MAX_TASKS && prio.Length == MAX_TASKS && deadline.Length == MAX_TASKS
      && prio as object != deadline as object
    }

    ghost function View(): Table
      reads this, state, prio, deadline
    {
      Table(state[..], prio[..], deadline[..], Ones(ready))
    }

    ghost predicate Valid()
      reads this, state, prio, deadline
    {
      Arrays() && View().Inv()
    }

    constructor ()
      ensures Valid() && fresh(state) && fresh(prio) && fresh(deadline)
      ensures View() == New() && ready == 0
    {
      state := new TaskState[MAX_TASKS](_ => Free);
      prio := new u32[MAX_TASKS](_ => 0);
      deadline := new u64[MAX_TASKS](_ => NO_TIMER);
      ready := 0;
      new;
      NoOnes(ready);
      assert state[..] == New().state && prio[..] == New().prio && deadline[..] == New().deadline;
    }

    /** First `Free` slot becomes Pending, not ready; `NO_SLOT` when full. */
    method AdmitTask(p: u32) returns (h: u32)
      requires Valid()
      modifies this, state, prio
      ensures Valid() && View() == Admit(old(View()), p) && h == AdmitHandle(old(View()))
    {
      var i := 0;
      while i < MAX_TASKS
        invariant i <= MAX_TASKS
        invariant forall j :: 0 <= j < i ==> state[j] != Free
        invariant unchanged(this) && unchanged(state) && unchanged(prio)
      {
        if state[i] == Free {
          ghost var t := View();
          assert FirstFree(t.state) == i;
          state[i] := Pending;
          prio[i] := p;
          ready := Remove(ready, i);
          assert state[..] == t.state[i := Pending];
          assert prio[..] == t.prio[i := p];
          return i;
        }
        i := i + 1;
      }
      h := NO_SLOT;
    }

    method WakeTask(h: u32)
      requires Valid()
      modifies this
      ensures Valid() && View() == Wake(old(View()), h)
    {
      if h < MAX_TASKS && state[h] == Pending {
        ready := Insert(ready, h);
      }
    }

    method IsReady(h: u32) returns (b: bool)
      requires Valid() && h < MAX_TASKS
      ensures b <==> h in View().ready
    {
      b := Contains(ready, h);
    }

    method PickNext() returns (h: u32)
      requires Valid()
      ensures IsPick(View(), h)
    {
      ghost var t := View();
      h := MAX_TASKS;
      var i := 0;
      while i < MAX_TASKS
        invariant i <= MAX_TASKS
        invariant if h == MAX_TASKS then forall j :: j in t.ready ==> i <= j
                  else h < i && h in t.ready && forall j :: j in t.ready && j < i && j != h ==> t.Before(h, j)
      {
        var isReady := Contains(ready, i);
        if isReady {
          if h == MAX_TASKS || prio[i] < prio[h] {
            h := i;
          }
        }
        i := i + 1;
      }
      if h == MAX_TASKS {
        assert t.ready == {};
      }
    }

    /** The exact instant to arm the one-shot alarm for. */
    method NextDeadline() returns (d: u64)
      requires Valid()
      ensures IsNextDeadline(View(), d)
    {
      d := NO_TIMER;
      var i := 0;
      while i < MAX_TASKS
        invariant i <= MAX_TASKS
        invariant forall k :: 0 <= k < i && View().IsPending(k) ==> d <= View().deadline[k]
        invariant d == NO_TIMER || exists k :: 0 <= k < i && View().IsPending(k) && d == View().deadline[k]
      {
        if state[i] == Pending && deadline[i] < d {
          d := deadline[i];
          assert View().IsPending(i) && d == View().deadline[i];
        }
        i := i + 1;
      }
    }

    method SetTaskDeadline(h: u32, d: u64)
      requires Valid()
      modifies deadline
      ensures Valid() && View() == SetDeadline(old(View()), h, d)
    {
      if h < MAX_TASKS && state[h] == Pending {
        deadline[h] := d;
        assert deadline[..] == old(View()).deadline[h := d];
      }
    }

    method ExpireTasks(now: u64)
      requires Valid()
      modifies this
      ensures Valid() && View() == Expire(old(View()), now)
    {
      ghost var t := View();
      var i := 0;
      while i < MAX_TASKS
        invariant i <= MAX_TASKS && Arrays()
        invariant forall k :: k in Ones(ready) <==> k in t.ready || (k < i && k in Due(t, now))
      {
        if state[i] == Pending && deadline[i] <= now {
          ready := Insert(ready, i);
        }
        i := i + 1;
      }
      assert Ones(ready) == t.ready + Due(t, now);
    }

    method ConsumeTask(h: u32)
      requires Valid() && h < MAX_TASKS
      modifies this
      ensures Valid() && View() == Consume(old(View()), h)
    {
      ready := Remove(ready, h);
    }

    method DispatchOne(h: u32, code: u32)
      requires Arrays() && h < MAX_TASKS
      modifies state
      ensures View() == Dispatch(old(View()), h, code)
    {
      if code == POLL_DONE {
        state[h] := Done;
        assert state[..] == old(View()).state[h := Done];
      }
    }

    /** One scheduler round, whatever each poll returns: every slot ready at
        entry is dispatched exactly once, in (prio, index) order, nothing else is
        dispatched, and nothing is left ready. */
    method PollRound(poll: Poll) returns (ghost log: seq<nat>)
      requires Valid()
      modifies this, state
      ensures Valid() && ready == 0
      ensures IsOrder(old(View()), log)
      ensures View() == DispatchLog(old(View()), log, poll).(ready := {})
      ensures forall i :: 0 <= i < MAX_TASKS ==>
        View().state[i] == if Completes(log, poll, i) then Done else old(View()).state[i]
    {
      ghost var t := View();
      var n := 0;
      log := [];
      while true
        invariant Valid() && n == |log|
        invariant Midway(t, log, poll, View())
        decreases Ones(ready)
      {
        var h := PickNext();
        if h == MAX_TASKS {
          NoOnes(ready);
          RoundState(t, log, poll);
          return;
        }
        MidwayStep(t, log, poll, View(), h);
        ConsumeTask(h);
        DispatchOne(h, poll(n, h));
        log := log + [h];
        n := n + 1;
      }
    }
  }
}
