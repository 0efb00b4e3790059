/** Priority-ordered wait queue shared by the kernel objects (plain/mutex.rs). */
module WaitQueues {
  import opened Words
  import opened Runs

  const MAX_WAITERS: nat := 64

  datatype ThreadState = Ready | Running | Blocked | Suspended

  /** Lower `priority` values are more urgent. */
  datatype Thread = Thread(id: u32, priority: u32, state: ThreadState, returnValue: i32)

  function Woken(t: Thread, rv: i32): Thread {
    t.(state := Ready, returnValue := rv)
  }

  function Block(t: Thread): Thread {
    t.(state := Blocked)
  }

  // ---------------------------------------------------------------------------
  // The queue as a sequence
  // ---------------------------------------------------------------------------

  /** Where a thread of priority `p` goes: before the first less urgent entry. */
  function InsertPos(q: seq<Thread>, p: u32): (i: nat)
    ensures i <= |q|
    ensures forall k :: 0 <= k < i ==> q[k].priority <= p
    ensures i < |q| ==> p < q[i].priority
  {
    if q == [] || p < q[0].priority then 0 else 1 + InsertPos(q[1..], p)
  }

  function InsertAt(q: seq<Thread>, i: nat, t: Thread): (r: seq<Thread>)
    requires i <= |q|
    ensures |r| == |q| + 1
  {
    q[..i] + [t] + q[i..]
  }

  function Pend(q: seq<Thread>, t: Thread): (r: seq<Thread>)
    ensures |r| == |q| + 1
  {
    InsertAt(q, InsertPos(q, t.priority), t)
  }

  // ---------------------------------------------------------------------------
  // The reference: threads in arrival order, the most urgent one served first and
  // the earliest among equals
  // ---------------------------------------------------------------------------

  /** `m` is the first of the most urgent threads. */
  ghost predicate IsFirstMin(a: seq<Thread>, m: nat) {
    && m < |a|
    && (forall k :: 0 <= k < |a| ==> a[m].priority <= a[k].priority)
    && (forall k :: 0 <= k < m ==> a[m].priority < a[k].priority)
  }

  lemma {:induction false} FirstMinExists(a: seq<Thread>)
    requires a != []
    ensures exists m: nat :: IsFirstMin(a, m)
    decreases |a|
  {
    if |a| == 1 {
      assert IsFirstMin(a, 0);
    } else {
      var n := |a| - 1;
      FirstMinExists(a[..n]);
      var m: nat :| IsFirstMin(a[..n], m);
      assert forall k :: 0 <= k < n ==> a[..n][k] == a[k];
      assert IsFirstMin(a, if a[n].priority < a[m].priority then n else m);
    }
  }

  /** The thread that is served next. */
  ghost function FirstMin(a: seq<Thread>): (m: nat)
    requires a != []
    ensures IsFirstMin(a, m)
  {
    FirstMinExists(a);
    var m: nat :| IsFirstMin(a, m);
    m
  }

  lemma FirstMinUnique(a: seq<Thread>, m: nat)
    requires a != [] && IsFirstMin(a, m)
    ensures FirstMin(a) == m
  {
    var f := FirstMin(a);
    assert a[f].priority <= a[m].priority && a[m].priority <= a[f].priority;
  }

  function Without(a: seq<Thread>, m: nat): seq<Thread>
    requires m < |a|
  {
    a[..m] + a[m + 1..]
  }

  /** The queue that holds arrivals `a`. */
  function Sorted(a: seq<Thread>): (q: seq<Thread>)
    ensures |q| == |a|
  {
    if a == [] then [] else Pend(Sorted(a[..|a| - 1]), a[|a| - 1])
  }

  lemma PendBehindHead(q: seq<Thread>, t: Thread)
    requires q != [] && q[0].priority <= t.priority
    ensures Pend(q, t) == [q[0]] + Pend(q[1..], t)
  {
    var i := InsertPos(q[1..], t.priority);
    assert InsertPos(q, t.priority) == 1 + i;
    assert q[..i + 1] == [q[0]] + q[1..][..i];
    assert q[i + 1..] == q[1..][i..];
  }

  lemma SortedSnoc(b: seq<Thread>, t: Thread)
    ensures Sorted(b + [t]) == Pend(Sorted(b), t)
  {
    assert (b + [t])[..|b|] == b;
  }

  lemma FirstMinSnoc(b: seq<Thread>, t: Thread)
    requires b != []
    ensures FirstMin(b + [t]) == if t.priority < b[FirstMin(b)].priority then |b| else FirstMin(b)
  {
    var a, m := b + [t], FirstMin(b);
    assert forall k :: 0 <= k < |b| ==> a[k] == b[k];
    FirstMinUnique(a, if t.priority < b[m].priority then |b| else m);
  }

  lemma WithoutSnoc(b: seq<Thread>, t: Thread, m: nat)
    requires m < |b|
    ensures Without(b + [t], m) == Without(b, m) + [t]
  {
  }

  /** How often thread `id` is among the waiting. */
  function WaitingCount(w: seq<Thread>, id: u32): nat {
    if w == [] then 0 else WaitingCount(w[..|w| - 1], id) + if w[|w| - 1].id == id then 1 else 0
  }

  lemma WaitingSnoc(w: seq<Thread>, t: Thread, id: u32)
    ensures WaitingCount(w + [t], id) == WaitingCount(w, id) + if t.id == id then 1 else 0
  {
    assert (w + [t])[..|w|] == w;
  }

  lemma {:induction false} WaitingWithout(w: seq<Thread>, f: nat, id: u32)
    requires f < |w|
    ensures WaitingCount(w, id) == WaitingCount(Without(w, f), id) + if w[f].id == id then 1 else 0
    decreases |w|
  {
    var n := |w| - 1;
    var v, t := w[..n], w[n];
    assert w == v + [t];
    if f < n {
      WaitingWithout(v, f, id);
      WithoutSnoc(v, t, f);
      WaitingSnoc(Without(v, f), t, id);
    } else {
      assert Without(w, f) == v;
    }
  }

  /** `q` is the head of arrivals `b` in front of the queue of the others. */
  ghost predicate Serves(b: seq<Thread>, q: seq<Thread>, m: nat) {
    m < |b| && q == [b[m]] + Sorted(Without(b, m))
  }

  lemma {:induction false} UrgentServes(b: seq<Thread>, t: Thread)
    requires b != [] && t.priority < Sorted(b)[0].priority
    ensures Serves(b + [t], Pend(Sorted(b), t), |b|)
  {
    var q := Sorted(b);
    assert InsertPos(q, t.priority) == 0;
    assert Pend(q, t) == [t] + q;
    assert Without(b + [t], |b|) == b;
  }

  lemma {:induction false} LaterServes(b: seq<Thread>, t: Thread, m: nat)
    requires b != [] && Serves(b, Sorted(b), m) && Sorted(b)[0].priority <= t.priority
    ensures Serves(b + [t], Pend(Sorted(b), t), m)
  {
    var q, w := Sorted(b), Without(b, m);
    PendBehindHead(q, t);
    assert q[1..] == Sorted(w);
    WithoutSnoc(b, t, m);
    SortedSnoc(w, t);
  }

  lemma {:induction false} ServesFirstMin(a: seq<Thread>)
    requires a != []
    ensures Serves(a, Sorted(a), FirstMin(a))
    decreases |a|
  {
    var b, t := a[..|a| - 1], a[|a| - 1];
    assert a == b + [t];
    if b == [] {
      FirstMinUnique(a, 0);
      assert Without(a, 0) == [] && Sorted(a) == [t];
    } else {
      ServesFirstMin(b);
      SortedSnoc(b, t);
      FirstMinSnoc(b, t);
      if t.priority < b[FirstMin(b)].priority {
        UrgentServes(b, t);
      } else {
        LaterServes(b, t, FirstMin(b));
      }
    }
  }

  /** The head of the queue is the first of the most urgent arrivals, and what is
      left is the queue of the other arrivals. */
  lemma HeadIsFirstMin(a: seq<Thread>)
    requires a != []
    ensures Sorted(a)[0] == a[FirstMin(a)]
    ensures Sorted(a)[1..] == Sorted(Without(a, FirstMin(a)))
  {
    ServesFirstMin(a);
  }

  ghost predicate Ordered(q: seq<Thread>) {
    forall i, j :: 0 <= i < j < |q| ==> q[i].priority <= q[j].priority
  }

  lemma {:induction false} PendKeepsOrder(q: seq<Thread>, t: Thread)
    requires Ordered(q)
    ensures Ordered(Pend(q, t))
  {
    var i, r := InsertPos(q, t.priority), Pend(q, t);
    assert r[i] == t;
    forall j, k | 0 <= j < k < |r| ensures r[j].priority <= r[k].priority {
      assert k < i ==> r[k] == q[k];
      assert k > i ==> r[k] == q[k - 1];
      assert j < i ==> r[j] == q[j];
      assert j > i ==> r[j] == q[j - 1];
    }
  }

  lemma {:induction false} PendKeepsThreads(q: seq<Thread>, t: Thread)
    ensures multiset(Pend(q, t)) == multiset(q) + multiset{t}
  {
    var i := InsertPos(q, t.priority);
    assert q == q[..i] + q[i..];
  }

  lemma PendSameThreads(q: seq<Thread>, b: seq<Thread>, t: Thread)
    requires multiset(q) == multiset(b)
    ensures multiset(Pend(q, t)) == multiset(b + [t])
  {
    PendKeepsThreads(q, t);
  }

  lemma {:induction false} SortedOrdered(a: seq<Thread>)
    ensures Ordered(Sorted(a))
    decreases |a|
  {
    if a != [] {
      SortedOrdered(a[..|a| - 1]);
      PendKeepsOrder(Sorted(a[..|a| - 1]), a[|a| - 1]);
    }
  }

  lemma {:induction false} SortedThreads(a: seq<Thread>)
    ensures multiset(Sorted(a)) == multiset(a)
    decreases |a|
  {
    if a != [] {
      var b, t := a[..|a| - 1], a[|a| - 1];
      assert b + [t] == a;
      SortedThreads(b);
      PendSameThreads(Sorted(b), b, t);
    }
  }

  lemma SortedIsOrdered(a: seq<Thread>)
    ensures Ordered(Sorted(a)) && multiset(Sorted(a)) == multiset(a)
  {
    SortedOrdered(a);
    SortedThreads(a);
  }

  lemma InLine(a: seq<Thread>, k: nat)
    requires k < |a|
    ensures Sorted(a)[k] in a
  {
    SortedIsOrdered(a);
    assert Sorted(a)[k] in multiset(Sorted(a));
  }

  // ---------------------------------------------------------------------------
  // Runs of calls
  // ---------------------------------------------------------------------------

  /** What one operation of a kernel object does with its queue; `NoCall` if nothing. */
  datatype Call = CallPend(t: Thread) | CallUnpendFirst(rv: i32) | CallUnpendAll(rv: i32) | NoCall

  datatype Reply = Pended(ok: bool) | Unpended(t: Option<Thread>) | Cleared(count: nat) | NoReply

  function QueueStep(q: seq<Thread>, c: Call): (seq<Thread>, Reply) {
    match c
    case CallPend(t) =>
      if |q| >= MAX_WAITERS then (q, Pended(false)) else (Pend(q, t), Pended(true))
    case CallUnpendFirst(rv) =>
      if q == [] then (q, Unpended(None)) else (q[1..], Unpended(Some(Woken(q[0], rv))))
    case CallUnpendAll(rv) => ([], Cleared(|q|))
    case NoCall => (q, NoReply)
  }

  ghost function ReferenceStep(a: seq<Thread>, c: Call): (seq<Thread>, Reply) {
    match c
    case CallPend(t) =>
      if |a| >= MAX_WAITERS then (a, Pended(false)) else (a + [t], Pended(true))
    case CallUnpendFirst(rv) =>
      if a == [] then (a, Unpended(None))
      else (Without(a, FirstMin(a)), Unpended(Some(a[FirstMin(a)].(state := Ready, returnValue := rv))))
    case CallUnpendAll(rv) => ([], Cleared(|a|))
    case NoCall => (a, NoReply)
  }

  /** The queue after the first `n` calls, and their replies. */
  function QueueRun(q: seq<Thread>, cs: seq<Call>, n: nat): (seq<Thread>, seq<Reply>)
    requires n <= |cs|
  {
    if n == 0 then (q, [])
    else
      var (q', rs) := QueueRun(q, cs, n - 1);
      var (q'', r) := QueueStep(q', cs[n - 1]);
      (q'', rs + [r])
  }

  ghost function ReferenceRun(a: seq<Thread>, cs: seq<Call>, n: nat): (seq<Thread>, seq<Reply>)
    requires n <= |cs|
  {
    if n == 0 then (a, [])
    else
      var (a', rs) := ReferenceRun(a, cs, n - 1);
      var (a'', r) := ReferenceStep(a', cs[n - 1]);
      (a'', rs + [r])
  }

  lemma StepRefines(a: seq<Thread>, c: Call)
    ensures QueueStep(Sorted(a), c) == (Sorted(ReferenceStep(a, c).0), ReferenceStep(a, c).1)
  {
    match c
    case CallPend(t) =>
      SortedSnoc(a, t);
    case CallUnpendFirst(rv) =>
      if a != [] {
        HeadIsFirstMin(a);
      }
    case CallUnpendAll(rv) =>
    case NoCall =>
  }

  /** For every sequence of calls the queue answers as the stable priority queue
      does, and holds what it holds. */
  lemma {:induction false} QueueRefines(a: seq<Thread>, cs: seq<Call>, n: nat)
    requires n <= |cs|
    ensures QueueRun(Sorted(a), cs, n).1 == ReferenceRun(a, cs, n).1
    ensures QueueRun(Sorted(a), cs, n).0 == Sorted(ReferenceRun(a, cs, n).0)
    decreases n
  {
    if n > 0 {
      QueueRefines(a, cs, n - 1);
      StepRefines(ReferenceRun(a, cs, n - 1).0, cs[n - 1]);
    }
  }

  // ---------------------------------------------------------------------------
  // What becomes of each waiter
  // ---------------------------------------------------------------------------

  /** Call `c` adds thread `id` to the waiting. */
  predicate Joins(a: seq<Thread>, c: Call, id: u32) {
    c.CallPend? && |a| < MAX_WAITERS && c.t.id == id
  }

  /** Call `c` returns thread `id`, woken. */
  ghost predicate Wakes(a: seq<Thread>, c: Call, id: u32) {
    c.CallUnpendFirst? && a != [] && a[FirstMin(a)].id == id
  }

  /** How often thread `id` is among those whose slots call `c` clears. */
  function Drops(a: seq<Thread>, c: Call, id: u32): nat {
    if c.CallUnpendAll? then WaitingCount(a, id) else 0
  }

  ghost function JoinCount(a: seq<Thread>, cs: seq<Call>, n: nat, id: u32): nat
    requires n <= |cs|
  {
    if n == 0 then 0
    else JoinCount(a, cs, n - 1, id) + if Joins(ReferenceRun(a, cs, n - 1).0, cs[n - 1], id) then 1 else 0
  }

  ghost function WakeCount(a: seq<Thread>, cs: seq<Call>, n: nat, id: u32): nat
    requires n <= |cs|
  {
    if n == 0 then 0
    else WakeCount(a, cs, n - 1, id) + if Wakes(ReferenceRun(a, cs, n - 1).0, cs[n - 1], id) then 1 else 0
  }

  ghost function DropCount(a: seq<Thread>, cs: seq<Call>, n: nat, id: u32): nat
    requires n <= |cs|
  {
    if n == 0 then 0
    else DropCount(a, cs, n - 1, id) + Drops(ReferenceRun(a, cs, n - 1).0, cs[n - 1], id)
  }

  lemma CallConserves(a: seq<Thread>, c: Call, id: u32)
    ensures WaitingCount(a, id) + (if Joins(a, c, id) then 1 else 0)
         == WaitingCount(ReferenceStep(a, c).0, id) + (if Wakes(a, c, id) then 1 else 0) + Drops(a, c, id)
  {
    match c
    case CallPend(t) =>
      WaitingSnoc(a, t, id);
    case CallUnpendFirst(_) =>
      if a != [] {
        WaitingWithout(a, FirstMin(a), id);
      }
    case CallUnpendAll(_) =>
    case NoCall =>
  }

  /** Over every sequence of calls: however often a thread came to wait, it is still
      waiting, was returned woken, or was dropped by `unpend_all`, that often. */
  lemma {:induction false} CallsConserve(a: seq<Thread>, cs: seq<Call>, n: nat, id: u32)
    requires n <= |cs|
    ensures WaitingCount(a, id) + JoinCount(a, cs, n, id)
         == WaitingCount(ReferenceRun(a, cs, n).0, id) + WakeCount(a, cs, n, id) + DropCount(a, cs, n, id)
    decreases n
  {
    if n > 0 {
      CallsConserve(a, cs, n - 1, id);
      CallConserves(ReferenceRun(a, cs, n - 1).0, cs[n - 1], id);
    }
  }

  /** Call `k` is an `unpend_all` that finds thread `id` waiting. */
  ghost predicate ClearedAt(a: seq<Thread>, cs: seq<Call>, k: nat, id: u32)
    requires k < |cs|
  {
    cs[k].CallUnpendAll? && WaitingCount(ReferenceRun(a, cs, k).0, id) > 0
  }

  ghost predicate NeverCleared(a: seq<Thread>, cs: seq<Call>, n: nat, id: u32)
    requires n <= |cs|
  {
    forall k :: 0 <= k < n ==> !ClearedAt(a, cs, k, id)
  }

  lemma {:induction false} DropsExactly(a: seq<Thread>, cs: seq<Call>, n: nat, id: u32)
    requires n <= |cs|
    ensures DropCount(a, cs, n, id) == 0 <==> NeverCleared(a, cs, n, id)
    decreases n
  {
    if n > 0 {
      DropsExactly(a, cs, n - 1, id);
      assert ClearedAt(a, cs, n - 1, id) <==> Drops(ReferenceRun(a, cs, n - 1).0, cs[n - 1], id) > 0;
    }
  }

  /** `unpend_all` is documented to wake each thread; it wakes none. So every thread
      that came to wait is waiting or was woken exactly when no `unpend_all` found it
      waiting. */
  lemma WaitersWokenIff(a: seq<Thread>, cs: seq<Call>, n: nat, id: u32)
    requires n <= |cs|
    ensures WaitingCount(a, id) + JoinCount(a, cs, n, id)
         == WaitingCount(ReferenceRun(a, cs, n).0, id) + WakeCount(a, cs, n, id)
       <==> NeverCleared(a, cs, n, id)
  {
    CallsConserve(a, cs, n, id);
    DropsExactly(a, cs, n, id);
  }

  /** A thread that waits alone when the queue is cleared is not woken. */
  lemma UnpendAllDropsWaiter(t: Thread, rv: i32)
    ensures var cs := [CallPend(t), CallUnpendAll(rv)];
      && JoinCount([], cs, 2, t.id) == 1 && ReferenceRun([], cs, 2).0 == [] && WakeCount([], cs, 2, t.id) == 0
      && ReferenceRun([], cs, 2).1 == [Pended(true), Cleared(1)]
  {
    var cs := [CallPend(t), CallUnpendAll(rv)];
    assert ReferenceRun([], cs, 0) == ([], []);
    var none: seq<Thread> := [];
    assert none + [t] == [t];
    assert ReferenceRun([], cs, 1).0 == [t] && ReferenceRun([], cs, 1).1 == [Pended(true)];
    assert JoinCount([], cs, 1, t.id) == 1 && WakeCount([], cs, 1, t.id) == 0;
  }

  // ---------------------------------------------------------------------------
  // When a waiter's turn comes
  // ---------------------------------------------------------------------------

  ghost predicate DistinctIds(q: seq<Thread>) {
    forall i, j :: 0 <= i < j < |q| ==> q[i].id != q[j].id
  }

  /** A thread that pends is not waiting already. */
  ghost predicate Anew(q: seq<Thread>, c: Call) {
    c.CallPend? ==> forall k :: 0 <= k < |q| ==> q[k].id != c.t.id
  }

  /** Call `c` lets a thread more urgent than `p` wait. */
  predicate Overtakes(q: seq<Thread>, c: Call, p: u32) {
    c.CallPend? && |q| < MAX_WAITERS && c.t.priority < p
  }

  /** Call `c` takes the first thread from the queue. */
  predicate ServesOne(q: seq<Thread>, c: Call) {
    c.CallUnpendFirst? && q != []
  }

  /** The queue after the first `n` calls. */
  function Line(q: seq<Thread>, cs: seq<Call>, n: nat): seq<Thread>
    requires n <= |cs|
  {
    QueueRun(q, cs, n).0
  }

  lemma LineStep(q: seq<Thread>, cs: seq<Call>, n: nat)
    requires n < |cs|
    ensures Line(q, cs, n + 1) == QueueStep(Line(q, cs, n), cs[n]).0
  {
  }

  /** Threads served by calls `from..n`. */
  function ServeCount(q: seq<Thread>, cs: seq<Call>, from: nat, n: nat): nat
    requires from <= n <= |cs|
  {
    if n == from then 0 else ServeCount(q, cs, from, n - 1) + if ServesOne(Line(q, cs, n - 1), cs[n - 1]) then 1 else 0
  }

  /** Arrivals more urgent than `p` by calls `from..n`. */
  function OvertakeCount(q: seq<Thread>, cs: seq<Call>, from: nat, n: nat, p: u32): nat
    requires from <= n <= |cs|
  {
    if n == from then 0
    else OvertakeCount(q, cs, from, n - 1, p) + if Overtakes(Line(q, cs, n - 1), cs[n - 1], p) then 1 else 0
  }

  /** Thread `t` is at `place` in the queue. */
  predicate StandsAt(q: seq<Thread>, t: Thread, place: int) {
    0 <= place < |q| && q[place] == t
  }

  lemma PlaceAfterArrival(q: seq<Thread>, t: Thread, k: nat)
    requires Ordered(q) && k < |q|
    ensures Pend(q, t)[if t.priority < q[k].priority then k + 1 else k] == q[k]
  {
    var i := InsertPos(q, t.priority);
    assert i <= k ==> q[i].priority <= q[k].priority;
  }

  /** One call moves a waiter back by an overtaking and forward by a service, unless it
      is itself served or the queue is cleared. */
  lemma PlaceMoves(q: seq<Thread>, c: Call, t: Thread, place: int)
    requires Ordered(q) && StandsAt(q, t, place) && !c.CallUnpendAll? && (ServesOne(q, c) ==> place > 0)
    ensures StandsAt(QueueStep(q, c).0, t,
      place + (if Overtakes(q, c, t.priority) then 1 else 0) - (if ServesOne(q, c) then 1 else 0))
  {
    if c.CallPend? {
      PlaceAfterArrival(q, c.t, place);
    }
  }

  lemma PendKeepsDistinct(q: seq<Thread>, t: Thread)
    requires DistinctIds(q) && Anew(q, CallPend(t))
    ensures DistinctIds(Pend(q, t))
  {
    var i, r := InsertPos(q, t.priority), Pend(q, t);
    forall j, k | 0 <= j < k < |r| ensures r[j].id != r[k].id {
      assert r[i] == t;
      assert k < i ==> r[k] == q[k];
      assert k > i ==> r[k] == q[k - 1];
      assert j < i ==> r[j] == q[j];
      assert j > i ==> r[j] == q[j - 1];
    }
  }

  /** In priority order and without repetition. */
  ghost predicate Proper(q: seq<Thread>) {
    Ordered(q) && DistinctIds(q)
  }

  lemma StepKeepsProper(q: seq<Thread>, c: Call)
    requires Proper(q) && Anew(q, c)
    ensures Proper(QueueStep(q, c).0)
  {
    if c.CallPend? && |q| < MAX_WAITERS {
      PendKeepsOrder(q, c.t);
      PendKeepsDistinct(q, c.t);
    }
  }

  /** The thread that pends in call `k` is not waiting already. */
  ghost predicate AnewAt(q: seq<Thread>, cs: seq<Call>, k: nat)
    requires k < |cs|
  {
    Anew(Line(q, cs, k), cs[k])
  }

  ghost predicate ProperAt(q: seq<Thread>, cs: seq<Call>, n: nat) {
    n <= |cs| && Proper(Line(q, cs, n))
  }

  lemma LineIsProper(q: seq<Thread>, cs: seq<Call>, n: nat)
    requires n <= |cs| && Proper(q) && forall k :: 0 <= k < n ==> AnewAt(q, cs, k)
    ensures Proper(Line(q, cs, n))
  {
    forall m | 0 <= m < n && ProperAt(q, cs, m) ensures ProperAt(q, cs, m + 1) {
      assert AnewAt(q, cs, m);
      StepKeepsProper(Line(q, cs, m), cs[m]);
      LineStep(q, cs, m);
    }
    Carried((m: nat) => ProperAt(q, cs, m), 0, n);
  }

  /** Call `m` returns thread `id`, woken. */
  predicate WokenAt(q: seq<Thread>, cs: seq<Call>, m: nat, id: u32)
    requires m < |cs|
  {
    ServesOne(Line(q, cs, m), cs[m]) && Line(q, cs, m)[0].id == id
  }

  /** Call `m` wakes thread `id`, or clears the queue. */
  predicate LeavesAt(q: seq<Thread>, cs: seq<Call>, m: nat, id: u32)
    requires m < |cs|
  {
    WokenAt(q, cs, m, id) || cs[m].CallUnpendAll?
  }

  /** Where thread `t`, at place `k` after `from` calls, should be after `n`: behind
      those who overtook it, before those who were served. */
  function Place(q: seq<Thread>, cs: seq<Call>, from: nat, n: nat, k: nat, t: Thread): int
    requires from <= n <= |cs|
  {
    k + OvertakeCount(q, cs, from, n, t.priority) - ServeCount(q, cs, from, n)
  }

  predicate InPlace(q: seq<Thread>, cs: seq<Call>, from: nat, n: nat, k: nat, t: Thread) {
    from <= n <= |cs| && StandsAt(Line(q, cs, n), t, Place(q, cs, from, n, k, t))
  }

  lemma PlaceStep(q: seq<Thread>, cs: seq<Call>, from: nat, m: nat, k: nat, t: Thread)
    requires m < |cs| && InPlace(q, cs, from, m, k, t) && Proper(Line(q, cs, m)) && !LeavesAt(q, cs, m, t.id)
    ensures InPlace(q, cs, from, m + 1, k, t)
  {
    LineStep(q, cs, m);
    PlaceMoves(Line(q, cs, m), cs[m], t, Place(q, cs, from, m, k, t));
  }

  /** Over every sequence of calls a waiter that has neither been woken nor cleared away
      is exactly there. */
  lemma PlaceInLine(q: seq<Thread>, cs: seq<Call>, from: nat, n: nat, k: nat, t: Thread)
    requires from <= n <= |cs| && Proper(q) && StandsAt(Line(q, cs, from), t, k)
    requires forall m :: 0 <= m < n ==> AnewAt(q, cs, m)
    requires forall m :: from <= m < n ==> !LeavesAt(q, cs, m, t.id)
    ensures StandsAt(Line(q, cs, n), t, Place(q, cs, from, n, k, t))
  {
    forall m | from <= m < n && InPlace(q, cs, from, m, k, t) ensures InPlace(q, cs, from, m + 1, k, t) {
      LineIsProper(q, cs, m);
      PlaceStep(q, cs, from, m, k, t);
    }
    Carried((m: nat) => InPlace(q, cs, from, m, k, t), from, n);
  }

  /** The turn of the waiter at place `k` comes exactly at the service before which
      there have been `k` others and one more for each thread that overtook it. */
  lemma TurnComesExactly(q: seq<Thread>, cs: seq<Call>, from: nat, n: nat, k: nat, t: Thread)
    requires from <= n < |cs| && Proper(q) && StandsAt(Line(q, cs, from), t, k)
    requires forall m :: 0 <= m < n ==> AnewAt(q, cs, m)
    requires forall m :: from <= m < n ==> !LeavesAt(q, cs, m, t.id)
    requires ServesOne(Line(q, cs, n), cs[n])
    ensures WokenAt(q, cs, n, t.id) <==> ServeCount(q, cs, from, n) == k + OvertakeCount(q, cs, from, n, t.priority)
  {
    PlaceInLine(q, cs, from, n, k, t);
    LineIsProper(q, cs, n);
  }

  // ---------------------------------------------------------------------------
  // The array
  // ---------------------------------------------------------------------------

  lemma InsertPosIs(q: seq<Thread>, p: u32, i: nat)
    requires i <= |q| && (forall k :: 0 <= k < i ==> q[k].priority <= p) && (i < |q| ==> p < q[i].priority)
    ensures InsertPos(q, p) == i
  {
  }

  class WaitQueue {
    const entries: array<Option<Thread>>
    var len: nat
    /** Who waits, in arrival order. */
    ghost var arrivals: seq<Thread>

    /** The first `len` slots are occupied and all others are empty. */
    ghost predicate Slots()
      reads this, entries
    {
      && entries.Length == MAX_WAITERS && len <= MAX_WAITERS
      && (forall i :: 0 <= i < len ==> entries[i].Some?)
      && (forall i :: len <= i < MAX_WAITERS ==> entries[i] == None)
    }

    ghost function Contents(): (q: seq<Thread>)
      requires Slots()
      reads this, entries
      ensures |q| == len && forall i :: 0 <= i < len ==> entries[i] == Some(q[i])
    {
      seq(len, i requires 0 <= i < len && Slots() reads this, entries => entries[i].value)
    }

    /** The array holds the arrivals in service order. */
    ghost predicate Valid()
      reads this, entries
    {
      Slots() && Contents() == Sorted(arrivals)
    }

    constructor ()
      ensures Valid() && arrivals == [] && fresh(entries)
    {
      entries := new Option<Thread>[MAX_WAITERS](_ => None);
      len := 0;
      arrivals := [];
    }

    /** Move every entry but the first down by one slot. */
    method ShiftDown()
      requires Slots() && len > 0
      modifies entries
      ensures forall k :: 0 <= k < len - 1 ==> entries[k] == old(entries[k + 1])
      ensures forall k :: len <= k < MAX_WAITERS ==> entries[k] == None
    {
      var i := 0;
      while i < len - 1
        invariant i <= len - 1
        invariant forall k :: 0 <= k < i ==> entries[k] == old(entries[k + 1])
        invariant forall k :: i < k < len ==> entries[k] == old(entries[k])
        invariant forall k :: len <= k < MAX_WAITERS ==> entries[k] == None
      {
        entries[i] := entries[i + 1];
        i := i + 1;
      }
    }

    method DropFirst()
      requires Slots() && len > 0
      modifies this, entries
      ensures Slots() && Contents() == old(Contents())[1..] && arrivals == old(arrivals)
    {
      ghost var q' := Contents()[1..];
      ShiftDown();
      entries[len - 1] := None;
      len := len - 1;
      assert forall k :: 0 <= k < len ==> entries[k] == Some(q'[k]);
      assert Contents() == q';
    }

    /** The array work of `UnpendFirst`. */
    method UnpendSlots(rv: i32) returns (t: Option<Thread>)
      requires Slots()
      modifies this, entries
      ensures Slots() && arrivals == old(arrivals)
      ensures (Contents(), Unpended(t)) == QueueStep(old(Contents()), CallUnpendFirst(rv))
    {
      if len == 0 {
        return None;
      }
      var first := entries[0];
      DropFirst();
      t := Some(Woken(first.value, rv));
    }

    method UnpendFirst(rv: i32) returns (t: Option<Thread>)
      requires Valid()
      modifies this, entries
      ensures Valid() && (arrivals, Unpended(t)) == ReferenceStep(old(arrivals), CallUnpendFirst(rv))
    {
      StepRefines(arrivals, CallUnpendFirst(rv));
      t := UnpendSlots(rv);
      arrivals := ReferenceStep(arrivals, CallUnpendFirst(rv)).0;
    }

    method FindPos(p: u32) returns (pos: nat)
      requires Slots()
      ensures pos == InsertPos(Contents(), p)
    {
      ghost var q := Contents();
      pos := len;
      var i := 0;
      while i < len
        invariant i <= len && pos == len
        invariant forall k :: 0 <= k < i ==> q[k].priority <= p
      {
        if p < entries[i].value.priority {
          pos := i;
          break;
        }
        i := i + 1;
      }
      InsertPosIs(q, p, pos);
    }

    /** Move the entries from `pos` on up by one slot. */
    method ShiftUp(pos: nat)
      requires Slots() && pos <= len < MAX_WAITERS
      modifies entries
      ensures forall k :: 0 <= k < pos ==> entries[k] == old(entries[k])
      ensures forall k :: pos < k <= len ==> entries[k] == old(entries[k - 1])
      ensures forall k :: len < k < MAX_WAITERS ==> entries[k] == old(entries[k])
    {
      var j := len;
      while j > pos
        invariant pos <= j <= len
        invariant forall k :: 0 <= k < j ==> entries[k] == old(entries[k])
        invariant forall k :: j < k <= len ==> entries[k] == old(entries[k - 1])
        invariant forall k :: len < k < MAX_WAITERS ==> entries[k] == old(entries[k])
      {
        entries[j] := entries[j - 1];
        j := j - 1;
      }
    }

    method Insert(pos: nat, t: Thread)
      requires Slots() && pos <= len < MAX_WAITERS
      modifies this, entries
      ensures Slots() && Contents() == InsertAt(old(Contents()), pos, t) && arrivals == old(arrivals)
    {
      ghost var q' := InsertAt(Contents(), pos, t);
      ShiftUp(pos);
      entries[pos] := Some(t);
      len := len + 1;
      assert forall k :: 0 <= k < len ==> entries[k] == Some(q'[k]);
      assert Contents() == q';
    }

    /** The array work of `Pend`. */
    method PendSlots(t: Thread) returns (ok: bool)
      requires Slots()
      modifies this, entries
      ensures Slots() && arrivals == old(arrivals)
      ensures (Contents(), Pended(ok)) == QueueStep(old(Contents()), CallPend(t))
    {
      if len >= MAX_WAITERS {
        return false;
      }
      var pos := FindPos(t.priority);
      Insert(pos, t);
      ok := true;
    }

    method Pend(t: Thread) returns (ok: bool)
      requires Valid()
      modifies this, entries
      ensures Valid() && (arrivals, Pended(ok)) == ReferenceStep(old(arrivals), CallPend(t))
    {
      StepRefines(arrivals, CallPend(t));
      ok := PendSlots(t);
      arrivals := ReferenceStep(arrivals, CallPend(t)).0;
    }

    method UnpendAll(rv: i32) returns (count: nat)
      requires Valid()
      modifies this, entries
      ensures Valid() && (arrivals, Cleared(count)) == ReferenceStep(old(arrivals), CallUnpendAll(rv))
    {
      count := len;
      var i := 0;
      while i < count
        invariant i <= count == len <= MAX_WAITERS
        invariant forall k :: 0 <= k < i ==> entries[k] == None
        invariant forall k :: len <= k < MAX_WAITERS ==> entries[k] == None
      {
        entries[i] := None;
        i := i + 1;
      }
      len := 0;
      arrivals := [];
    }
  }
}
