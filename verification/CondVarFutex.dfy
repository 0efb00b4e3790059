/** Draining a wait queue one thread at a time. */
module Draining {
  import opened Words
  import opened WaitQueues

  /** `n` calls that each wake the next thread. */
  function Signals(n: nat): (cs: seq<Call>)
    ensures |cs| == n && forall k :: 0 <= k < n ==> cs[k] == CallUnpendFirst(OK)
  {
    seq(n, _ => CallUnpendFirst(OK))
  }

  /** What the `k`-th of them returns from queue `q`. */
  function Signalled(q: seq<Thread>, k: nat): Reply {
    Unpended(if k < |q| then Some(q[k].(state := Ready, returnValue := 0)) else None)
  }

  lemma {:induction false} DrainLine(q: seq<Thread>, cs: seq<Call>, n: nat)
    requires n <= |cs| && forall k :: 0 <= k < |cs| ==> cs[k] == CallUnpendFirst(OK)
    ensures QueueRun(q, cs, n).0 == q[Min(n, |q|)..]
    ensures |QueueRun(q, cs, n).1| == n && forall k :: 0 <= k < n ==> QueueRun(q, cs, n).1[k] == Signalled(q, k)
    decreases n
  {
    if n > 0 {
      DrainLine(q, cs, n - 1);
    }
  }

  /** Draining wakes the queue from its front: the first `n` threads in service
      order, and the others keep their places. */
  lemma DrainServesInOrder(a: seq<Thread>, n: nat)
    ensures var (a', rs) := ReferenceRun(a, Signals(n), n);
      && Sorted(a') == Sorted(a)[Min(n, |a|)..]
      && |rs| == n && forall k :: 0 <= k < n ==> rs[k] == Signalled(Sorted(a), k)
  {
    QueueRefines(a, Signals(n), n);
    DrainLine(Sorted(a), Signals(n), n);
  }
}

/** The condition variable (plain/condvar.rs). */
module CondVars {
  import opened Words
  import opened WaitQueues
  import opened Draining

  datatype SignalResult = Empty | Woke(t: Thread)

  const BROADCAST: seq<Call> := [CallUnpendAll(OK)]

  lemma BroadcastRun(a: seq<Thread>, id: u32)
    ensures ReferenceRun(a, BROADCAST, 1).0 == [] && ReferenceRun(a, BROADCAST, 1).1 == [Cleared(|a|)]
    ensures WakeCount(a, BROADCAST, 1, id) == 0 && DropCount(a, BROADCAST, 1, id) == WaitingCount(a, id)
  {
    assert ReferenceRun(a, BROADCAST, 0) == (a, []);
    assert WakeCount(a, BROADCAST, 0, id) == 0 && DropCount(a, BROADCAST, 0, id) == 0;
  }

  /** As many signals as there are waiters leave what one broadcast leaves, the empty
      queue, and count as many threads; the signals wake all of them, in service order. */
  lemma SignalsEqualBroadcast(a: seq<Thread>)
    ensures ReferenceRun(a, Signals(|a|), |a|).0 == [] == ReferenceRun(a, BROADCAST, 1).0
    ensures ReferenceRun(a, BROADCAST, 1).1 == [Cleared(|a|)]
    ensures var rs := ReferenceRun(a, Signals(|a|), |a|).1;
      |rs| == |a| && forall k :: 0 <= k < |a| ==> rs[k] == Signalled(Sorted(a), k)
  {
    DrainServesInOrder(a, |a|);
    BroadcastRun(a, 0);
  }

  lemma {:induction false} SignalsOnly(a: seq<Thread>, cs: seq<Call>, n: nat, id: u32)
    requires n <= |cs| && forall k :: 0 <= k < |cs| ==> cs[k] == CallUnpendFirst(OK)
    ensures JoinCount(a, cs, n, id) == 0 && DropCount(a, cs, n, id) == 0
    decreases n
  {
    if n > 0 {
      SignalsOnly(a, cs, n - 1, id);
    }
  }

  /** Which threads they wake is another matter: one signal for each waiter wakes every
      one of them, a broadcast wakes none and drops them all. */
  lemma SignalsWakeBroadcastDrops(a: seq<Thread>, id: u32)
    ensures WakeCount(a, Signals(|a|), |a|, id) == WaitingCount(a, id)
    ensures WakeCount(a, BROADCAST, 1, id) == 0 && DropCount(a, BROADCAST, 1, id) == WaitingCount(a, id)
  {
    DrainServesInOrder(a, |a|);
    SignalsOnly(a, Signals(|a|), |a|, id);
    CallsConserve(a, Signals(|a|), |a|, id);
    BroadcastRun(a, id);
  }

  ghost predicate WokenAlike(a: seq<Thread>, id: u32) {
    WakeCount(a, Signals(|a|), |a|, id) == WakeCount(a, BROADCAST, 1, id)
  }

  lemma AlikeIffNotWaiting(a: seq<Thread>, id: u32)
    ensures WokenAlike(a, id) <==> WaitingCount(a, id) == 0
  {
    SignalsWakeBroadcastDrops(a, id);
  }

  /** So they wake the same threads exactly when nobody waits. */
  lemma SameThreadsWokenIff(a: seq<Thread>)
    ensures (forall id: u32 :: WokenAlike(a, id)) <==> a == []
  {
    if a == [] {
      forall id: u32 ensures WokenAlike(a, id) {
        AlikeIffNotWaiting(a, id);
      }
    } else {
      AlikeIffNotWaiting(a, a[|a| - 1].id);
    }
  }

  class CondVar {
    const waitQ: WaitQueue

    ghost predicate Valid()
      reads waitQ, waitQ.entries
    {
      waitQ.Valid()
    }

    constructor ()
      ensures Valid() && waitQ.arrivals == [] && fresh(waitQ) && fresh(waitQ.entries)
    {
      waitQ := new WaitQueue();
    }

    method Signal() returns (r: SignalResult)
      requires Valid()
      modifies waitQ, waitQ.entries
      ensures Valid()
      ensures (waitQ.arrivals, Unpended(if r.Woke? then Some(r.t) else None))
        == ReferenceStep(old(waitQ.arrivals), CallUnpendFirst(OK))
    {
      var t := waitQ.UnpendFirst(OK);
      match t {
        case Some(w) => r := Woke(w);
        case None => r := Empty;
      }
    }

    /** Leaves the queue, and returns the number, that one signal for each waiter would. */
    method Broadcast() returns (woken: nat)
      requires Valid()
      modifies waitQ, waitQ.entries
      ensures Valid()
      ensures (waitQ.arrivals, Cleared(woken)) == ReferenceStep(old(waitQ.arrivals), CallUnpendAll(OK))
      ensures var a := old(waitQ.arrivals);
        waitQ.arrivals == ReferenceRun(a, Signals(|a|), |a|).0 && woken == |ReferenceRun(a, Signals(|a|), |a|).1|
    {
      SignalsEqualBroadcast(waitQ.arrivals);
      woken := waitQ.UnpendAll(OK);
    }

    method WaitBlocking(t: Thread) returns (ok: bool)
      requires Valid()
      modifies waitQ, waitQ.entries
      ensures Valid() && (ok <==> |old(waitQ.arrivals)| < 64)
      ensures waitQ.arrivals == old(waitQ.arrivals) + if ok then [t.(state := Blocked)] else []
      ensures (waitQ.arrivals, Pended(ok)) == ReferenceStep(old(waitQ.arrivals), CallPend(t.(state := Blocked)))
    {
      ok := waitQ.Pend(Block(t));
    }
  }
}

/** The futex (src/futex.rs). */
module Futexes {
  import opened Words
  import opened WaitQueues

  datatype WaitResult = IsBlocked | Mismatch

  datatype WakeDecision = WakeDecision(woken: nat, remaining: nat)

  /** The scalar form of `wake`. */
  function WakeDecide(numWaiters: nat, wakeAll: bool): WakeDecision {
    if numWaiters == 0 then WakeDecision(0, 0)
    else if wakeAll then WakeDecision(numWaiters, 0)
    else WakeDecision(1, numWaiters - 1)
  }

  /** Slot `k` of the result holds the `k`-th woken thread; the others are empty. */
  ghost predicate Lists(threads: seq<Option<Thread>>, q: seq<Thread>, n: nat) {
    && |threads| == MAX_WAITERS && n <= |q| <= MAX_WAITERS
    && forall k :: 0 <= k < MAX_WAITERS ==>
         threads[k] == if k < n then Some(q[k].(state := Ready, returnValue := 0)) else None
  }

  class Futex {
    var val: u32
    const waitQ: WaitQueue

    ghost predicate Valid()
      reads waitQ, waitQ.entries
    {
      waitQ.Valid()
    }

    constructor (val: u32)
      ensures Valid() && this.val == val && waitQ.arrivals == [] && fresh(waitQ) && fresh(waitQ.entries)
    {
      this.val := val;
      waitQ := new WaitQueue();
    }

    /** Blocks exactly when the value is still the expected one. */
    method Wait(expected: u32, t: Thread) returns (r: WaitResult)
      requires Valid() && |waitQ.arrivals| < MAX_WAITERS
      modifies waitQ, waitQ.entries
      ensures Valid() && (r == IsBlocked <==> val == expected)
      ensures waitQ.arrivals == old(waitQ.arrivals) + if val == expected then [t.(state := Blocked)] else []
    {
      if val != expected {
        return Mismatch;
      }
      var inserted := waitQ.Pend(Block(t));
      assert inserted;
      r := IsBlocked;
    }

    /** `unpend_first` when the first `i` threads of queue `q` are already gone. */
    method WakeNext(ghost q: seq<Thread>, ghost i: nat) returns (t: Option<Thread>)
      requires Valid() && i <= |q| && Sorted(waitQ.arrivals) == q[i..]
      modifies waitQ, waitQ.entries
      ensures Valid()
      ensures if i < |q| then t == Some(q[i].(state := Ready, returnValue := 0)) && Sorted(waitQ.arrivals) == q[i + 1..]
              else t == None && Sorted(waitQ.arrivals) == q[i..]
    {
      if waitQ.len > 0 {
        HeadIsFirstMin(waitQ.arrivals);
        assert q[i..][1..] == q[i + 1..];
      }
      t := waitQ.UnpendFirst(OK);
    }

    method WakeOne() returns (woken: nat, threads: seq<Option<Thread>>)
      requires Valid()
      modifies waitQ, waitQ.entries
      ensures Valid() && woken == Min(1, |old(waitQ.arrivals)|)
      ensures Lists(threads, Sorted(old(waitQ.arrivals)), woken)
      ensures Sorted(waitQ.arrivals) == Sorted(old(waitQ.arrivals))[woken..]
    {
      threads := seq(MAX_WAITERS, _ => None);
      woken := 0;
      var t := WakeNext(Sorted(waitQ.arrivals), 0);
      match t {
        case Some(w) =>
          threads := threads[0 := Some(w)];
          woken := 1;
        case None =>
      }
    }

    method WakeEvery() returns (woken: nat, threads: seq<Option<Thread>>)
      requires Valid()
      modifies waitQ, waitQ.entries
      ensures Valid() && woken == |old(waitQ.arrivals)|
      ensures Lists(threads, Sorted(old(waitQ.arrivals)), woken)
      ensures Sorted(waitQ.arrivals) == []
    {
      ghost var q := Sorted(waitQ.arrivals);
      threads := seq(MAX_WAITERS, _ => None);
      woken := 0;
      var count := waitQ.len;
      var i := 0;
      while i < count
        invariant i <= count == |q| <= MAX_WAITERS && woken == i && Valid()
        invariant Sorted(waitQ.arrivals) == q[i..]
        invariant Lists(threads, q, i)
      {
        var t := WakeNext(q, i);
        match t {
          case Some(w) =>
            threads := threads[i := Some(w)];
            woken := woken + 1;
          case None =>
        }
        i := i + 1;
      }
    }

    /** Wakes one waiter or all of them: `threads` lists them in service order, and
        both counts are those of the scalar form. */
    method Wake(wakeAll: bool) returns (woken: nat, threads: seq<Option<Thread>>)
      requires Valid()
      modifies waitQ, waitQ.entries
      ensures Valid() && woken == if wakeAll then |old(waitQ.arrivals)| else Min(1, |old(waitQ.arrivals)|)
      ensures WakeDecision(woken, |waitQ.arrivals|) == WakeDecide(|old(waitQ.arrivals)|, wakeAll)
      ensures Lists(threads, Sorted(old(waitQ.arrivals)), woken)
      ensures Sorted(waitQ.arrivals) == Sorted(old(waitQ.arrivals))[woken..]
    {
      if !wakeAll {
        woken, threads := WakeOne();
      } else {
        woken, threads := WakeEvery();
      }
    }
  }
}
