/** The gust health monitor (src/health_monitor.rs): seven gates over a scalar
    observation, and a failsafe state machine with a restart budget that only a
    quiet interval refills. */
module HealthMonitor {
  import opened Words

  const MAX_RESTARTS: u32 := 3
  const COOLDOWN_QUIET: u32 := 4

  datatype HmState = Normal | Degraded | PartitionFailsafe | CrossCoreTrip

  datatype Fault =
    | Stale | Implausible | Diverged | BudgetOverrun | DeadlineMiss | HeartbeatLoss | VoteMismatch

  datatype Obs = Obs(
    ageMs: u32, limitMs: u32, value: i32, lo: i32, hi: i32, innovAbs: u32, kSigma: u32,
    usedUs: u32, budgetUs: u32, latenessUs: u32, missedBeats: u32,
    s0: i32, s1: i32, s2: i32, voteTol: i32)

  // ---------------------------------------------------------------------------
  // Gates
  // ---------------------------------------------------------------------------

  function Distance(a: int, b: int): nat {
    if a >= b then a - b else b - a
  }

  predicate VoteOk(s0: i32, s1: i32, s2: i32, tol: i32) {
    var a01 := Distance(s0, s1) <= tol;
    var a02 := Distance(s0, s2) <= tol;
    var a12 := Distance(s1, s2) <= tol;
    (a01 && a02) || (a01 && a12) || (a02 && a12)
  }

  /** Readings `a` and `b` differ by at most `tol`. */
  predicate Agree(a: int, b: int, tol: int) {
    -tol <= a - b <= tol
  }

  /** The vote clears exactly when some replica is a median that both others
      agree with; the order of the replicas is immaterial. */
  lemma VoteIsMajority(s0: i32, s1: i32, s2: i32, tol: i32)
    ensures VoteOk(s0, s1, s2, tol) <==>
      exists m :: m in [s0, s1, s2] && Agree(m, s0, tol) && Agree(m, s1, tol) && Agree(m, s2, tol)
    ensures VoteOk(s0, s1, s2, tol) == VoteOk(s1, s0, s2, tol) == VoteOk(s0, s2, s1, tol)
    ensures tol < 0 ==> !VoteOk(s0, s1, s2, tol)
  {
    var replicas := [s0, s1, s2];
    assert replicas[0] == s0 && replicas[1] == s1 && replicas[2] == s2;
    if VoteOk(s0, s1, s2, tol) {
      assert s0 in replicas && s1 in replicas && s2 in replicas;
    }
  }

  predicate GateClears(cause: Fault, o: Obs) {
    match cause
    case Stale => o.ageMs <= o.limitMs
    case Implausible => o.lo <= o.value <= o.hi
    case Diverged => o.innovAbs <= o.kSigma
    case BudgetOverrun => o.usedUs <= o.budgetUs
    case DeadlineMiss => o.latenessUs == 0
    case HeartbeatLoss => o.missedBeats == 0
    case VoteMismatch => VoteOk(o.s0, o.s1, o.s2, o.voteTol)
  }

  predicate AllClear(o: Obs) {
    && o.ageMs <= o.limitMs
    && o.lo <= o.value <= o.hi
    && o.innovAbs <= o.kSigma
    && o.usedUs <= o.budgetUs
    && o.latenessUs == 0
    && o.missedBeats == 0
    && VoteOk(o.s0, o.s1, o.s2, o.voteTol)
  }

  /** One gate per fault, and no gate besides. */
  lemma AllClearIsEveryGate(o: Obs)
    ensures AllClear(o) <==> forall f: Fault :: GateClears(f, o)
  {
    if forall f: Fault :: GateClears(f, o) {
      assert GateClears(Stale, o) && GateClears(Implausible, o) && GateClears(Diverged, o);
      assert GateClears(BudgetOverrun, o) && GateClears(DeadlineMiss, o);
      assert GateClears(HeartbeatLoss, o) && GateClears(VoteMismatch, o);
    }
  }

  // ---------------------------------------------------------------------------
  // The state machine, as values
  // ---------------------------------------------------------------------------

  datatype Hm = Hm(state: HmState, cause: Fault, credits: u32, streak: u32)
  {
    predicate Inv() {
      && credits <= MAX_RESTARTS
      && (state == Degraded ==> credits >= 1)
      && streak < COOLDOWN_QUIET
      && (state != Normal ==> streak == 0)
    }

    predicate Latched() {
      state == PartitionFailsafe || state == CrossCoreTrip
    }
  }

  const INIT: Hm := Hm(Normal, HeartbeatLoss, MAX_RESTARTS, 0)

  predicate TripsCrossCore(f: Fault) {
    f == HeartbeatLoss || f == BudgetOverrun
  }

  function OnFault(h: Hm, f: Fault): Hm {
    match h.state
    case Normal =>
      Hm(if h.credits >= 1 then Degraded else PartitionFailsafe, f, h.credits, 0)
    case Degraded =>
      if h.credits <= 1 then h.(state := PartitionFailsafe, credits := 0)
      else h.(credits := h.credits - 1)
    case PartitionFailsafe =>
      if TripsCrossCore(f) then h.(state := CrossCoreTrip, credits := 0) else h
    case CrossCoreTrip => h
  }

  predicate Accepts(h: Hm, o: Obs) {
    h.state == Degraded && h.credits >= 1 && AllClear(o)
  }

  function OnRestart(h: Hm, o: Obs): Hm {
    if Accepts(h, o) then Hm(Normal, h.cause, h.credits - 1, 0) else h
  }

  function OnQuiet(h: Hm, o: Obs): Hm
    requires h.streak < COOLDOWN_QUIET
  {
    if h.state != Normal then h
    else if !AllClear(o) then h.(streak := 0)
    else if h.streak + 1 >= COOLDOWN_QUIET then h.(credits := MAX_RESTARTS, streak := 0)
    else h.(streak := h.streak + 1)
  }

  // ---------------------------------------------------------------------------
  // The monitor object
  // ---------------------------------------------------------------------------

  class Monitor {
    var state: HmState
    var cause: Fault
    var restartsRemaining: u32
    var quietStreak: u32

    function View(): Hm
      reads this
    {
      Hm(state, cause, restartsRemaining, quietStreak)
    }

    constructor ()
      ensures View() == INIT && View().Inv() && state == Normal && restartsRemaining == 3 && quietStreak == 0
    {
      state := Normal;
      cause := HeartbeatLoss;
      restartsRemaining := MAX_RESTARTS;
      quietStreak := 0;
    }

    method Fault(f: Fault)
      requires View().Inv()
      modifies this
      ensures View().Inv() && View() == OnFault(old(View()), f)
    {
      if state == Normal {
        cause := f;
        quietStreak := 0;
        if restartsRemaining >= 1 {
          state := Degraded;
        } else {
          state := PartitionFailsafe;
        }
      } else if state == Degraded {
        if restartsRemaining <= 1 {
          state := PartitionFailsafe;
          restartsRemaining := 0;
        } else {
          restartsRemaining := restartsRemaining - 1;
        }
      } else if state == PartitionFailsafe {
        if f == HeartbeatLoss || f == BudgetOverrun {
          state := CrossCoreTrip;
          restartsRemaining := 0;
        }
      }
    }

    method TryRestart(o: Obs) returns (ok: bool)
      requires View().Inv()
      modifies this
      ensures View().Inv() && View() == OnRestart(old(View()), o)
      ensures ok == Accepts(old(View()), o)
      ensures !ok ==> unchanged(this)
    {
      if state == Degraded && restartsRemaining >= 1 {
        if AllClear(o) {
          state := Normal;
          restartsRemaining := restartsRemaining - 1;
          quietStreak := 0;
          return true;
        }
      }
      ok := false;
    }

    method Quiet(o: Obs)
      requires View().Inv()
      modifies this
      ensures View().Inv() && View() == OnQuiet(old(View()), o)
    {
      if state == Normal {
        if AllClear(o) {
          if quietStreak + 1 >= COOLDOWN_QUIET {
            restartsRemaining := MAX_RESTARTS;
            quietStreak := 0;
          } else {
            quietStreak := quietStreak + 1;
          }
        } else {
          quietStreak := 0;
        }
      }
    }

    method IsFailsafeLatched() returns (b: bool)
      ensures b == View().Latched()
    {
      b := state == PartitionFailsafe || state == CrossCoreTrip;
    }
  }
}

/** Whole runs of the monitor: every finite sequence of faults, restart attempts
    and quiet ticks. */
module HealthMonitorRuns {
  import opened HealthMonitor

  datatype Event = EvFault(f: Fault) | EvRestart(o: Obs) | EvQuiet(o: Obs)

  function Step(h: Hm, e: Event): (h': Hm)
    requires h.Inv()
    ensures h'.Inv()
  {
    match e
    case EvFault(f) => OnFault(h, f)
    case EvRestart(o) => OnRestart(h, o)
    case EvQuiet(o) => OnQuiet(h, o)
  }

  function Run(h: Hm, es: seq<Event>): (h': Hm)
    requires h.Inv()
    ensures h'.Inv()
    decreases |es|
  {
    if es == [] then h else Run(Step(h, es[0]), es[1..])
  }

  lemma {:induction false} RunAppend(h: Hm, es: seq<Event>, fs: seq<Event>)
    requires h.Inv()
    ensures Run(h, es + fs) == Run(Run(h, es), fs)
    decreases |es|
  {
    if es == [] {
      assert es + fs == fs;
    } else {
      assert (es + fs)[1..] == es[1..] + fs;
      RunAppend(Step(h, es[0]), es[1..], fs);
    }
  }

  // ---------------------------------------------------------------------------
  // Restart accounting
  // ---------------------------------------------------------------------------

  predicate RestartAccepted(h: Hm, e: Event) {
    e.EvRestart? && Accepts(h, e.o)
  }

  predicate QuietClear(e: Event) {
    e.EvQuiet? && AllClear(e.o)
  }

  function Accepted(h: Hm, es: seq<Event>): nat
    requires h.Inv()
    decreases |es|
  {
    if es == [] then 0
    else (if RestartAccepted(h, es[0]) then 1 else 0) + Accepted(Step(h, es[0]), es[1..])
  }

  function QuietClears(es: seq<Event>): nat {
    if es == [] then 0 else (if QuietClear(es[0]) then 1 else 0) + QuietClears(es[1..])
  }

  /** Restart capacity in cooldown units. */
  function Pot(h: Hm): nat {
    COOLDOWN_QUIET * h.credits + MAX_RESTARTS * h.streak
  }

  /** The two faults that trip a latched monitor. */
  predicate IsTrip(e: Event) {
    e == EvFault(HeartbeatLoss) || e == EvFault(BudgetOverrun)
  }

  /** Capacity an event throws away: credits burnt by a fault, a streak cut short,
      quiet time outside Normal, and credits a refill finds unspent. */
  function Lost(h: Hm, e: Event): nat
    requires h.Inv()
  {
    match e
    case EvFault(f) =>
      if h.state == Normal then MAX_RESTARTS * h.streak
      else if h.state == Degraded then COOLDOWN_QUIET
      else if h.state == PartitionFailsafe && IsTrip(e) then COOLDOWN_QUIET * h.credits
      else 0
    case EvRestart(o) => 0
    case EvQuiet(o) =>
      if !AllClear(o) then if h.state == Normal then MAX_RESTARTS * h.streak else 0
      else if h.state != Normal then MAX_RESTARTS
      else if h.streak + 1 == COOLDOWN_QUIET then COOLDOWN_QUIET * h.credits
      else 0
  }

  function TotalLost(h: Hm, es: seq<Event>): nat
    requires h.Inv()
    decreases |es|
  {
    if es == [] then 0 else Lost(h, es[0]) + TotalLost(Step(h, es[0]), es[1..])
  }

  /** Conservation over any run: capacity at the start plus what quiet time earns
      is what restarts spend, what is left, and what was lost. */
  lemma {:induction false} CapacityConserved(h: Hm, es: seq<Event>)
    requires h.Inv()
    ensures COOLDOWN_QUIET * Accepted(h, es) + Pot(Run(h, es)) + TotalLost(h, es)
         == Pot(h) + MAX_RESTARTS * QuietClears(es)
    decreases |es|
  {
    if es != [] {
      CapacityConserved(Step(h, es[0]), es[1..]);
    }
  }

  /** The long-run rate bound. */
  lemma RestartRateBound(h: Hm, es: seq<Event>)
    requires h.Inv()
    ensures 4 * Accepted(h, es) + Pot(Run(h, es)) <= Pot(h) + 3 * QuietClears(es)
  {
    CapacityConserved(h, es);
  }

  /** Without quiet time the starting credits are all there is. */
  lemma {:induction false} ChatterBounded(h: Hm, es: seq<Event>)
    requires h.Inv() && QuietClears(es) == 0
    ensures Accepted(h, es) + Run(h, es).credits <= h.credits
    decreases |es|
  {
    if es != [] {
      ChatterBounded(Step(h, es[0]), es[1..]);
    }
  }

  /** Three fault/restart pairs spend the budget; four quiet ticks refill it. */
  function Round(f: Fault, o: Obs): seq<Event> {
    [EvFault(f), EvRestart(o), EvFault(f), EvRestart(o), EvFault(f), EvRestart(o),
     EvQuiet(o), EvQuiet(o), EvQuiet(o), EvQuiet(o)]
  }

  function Rounds(n: nat, f: Fault, o: Obs): seq<Event> {
    if n == 0 then [] else Round(f, o) + Rounds(n - 1, f, o)
  }

  lemma PairEffect(h: Hm, f: Fault, o: Obs, es: seq<Event>)
    requires h.Inv() && h.state == Normal && h.credits >= 1 && AllClear(o)
    ensures var es' := [EvFault(f), EvRestart(o)] + es; var h' := Hm(Normal, f, h.credits - 1, 0);
      && Run(h, es') == Run(h', es)
      && Accepted(h, es') == 1 + Accepted(h', es)
      && QuietClears(es') == QuietClears(es)
  {
    var es' := [EvFault(f), EvRestart(o)] + es;
    var mid := [EvRestart(o)] + es;
    assert es'[1..] == mid && mid[1..] == es;
    var d := Hm(Degraded, f, h.credits, 0);
    assert Step(h, es'[0]) == d && Step(d, mid[0]) == Hm(Normal, f, h.credits - 1, 0);
    assert QuietClears(mid) == QuietClears(es);
  }

  lemma QuietEffect(h: Hm, o: Obs, es: seq<Event>)
    requires h.Inv() && h.state == Normal && h.streak == 0 && AllClear(o)
    ensures var es' := [EvQuiet(o), EvQuiet(o), EvQuiet(o), EvQuiet(o)] + es;
      && Run(h, es') == Run(h.(credits := MAX_RESTARTS), es)
      && Accepted(h, es') == Accepted(h.(credits := MAX_RESTARTS), es)
      && QuietClears(es') == 4 + QuietClears(es)
  {
    var e4 := [EvQuiet(o), EvQuiet(o), EvQuiet(o), EvQuiet(o)] + es;
    var e3 := [EvQuiet(o), EvQuiet(o), EvQuiet(o)] + es;
    var e2 := [EvQuiet(o), EvQuiet(o)] + es;
    var e1 := [EvQuiet(o)] + es;
    assert e4[1..] == e3 && e3[1..] == e2 && e2[1..] == e1 && e1[1..] == es;
    var h1, h2, h3 := h.(streak := 1), h.(streak := 2), h.(streak := 3);
    assert Run(h1, e3) == Run(h2, e2) && Accepted(h1, e3) == Accepted(h2, e2);
    assert Run(h2, e2) == Run(h3, e1) && Accepted(h2, e2) == Accepted(h3, e1);
    assert QuietClears(e4) == 2 + QuietClears(e2);
  }

  lemma RoundEffect(h: Hm, f: Fault, o: Obs, es: seq<Event>)
    requires h.Inv() && h.state == Normal && h.credits == MAX_RESTARTS && h.streak == 0 && AllClear(o)
    ensures Run(h, Round(f, o) + es) == Run(h.(cause := f), es)
    ensures Accepted(h, Round(f, o) + es) == 3 + Accepted(h.(cause := f), es)
    ensures QuietClears(Round(f, o) + es) == 4 + QuietClears(es)
  {
    var h1, h2, h3 := Hm(Normal, f, 2, 0), Hm(Normal, f, 1, 0), Hm(Normal, f, 0, 0);
    var q := [EvQuiet(o), EvQuiet(o), EvQuiet(o), EvQuiet(o)] + es;
    var p1 := [EvFault(f), EvRestart(o)] + q;
    var p2 := [EvFault(f), EvRestart(o)] + p1;
    assert Round(f, o) + es == [EvFault(f), EvRestart(o)] + p2;
    PairEffect(h, f, o, p2);
    PairEffect(h1, f, o, p1);
    PairEffect(h2, f, o, q);
    QuietEffect(h3, o, es);
  }

  /** The rate bound is attained with equality by runs of every length. */
  lemma {:induction false} RateBoundAttained(n: nat, h: Hm, f: Fault, o: Obs)
    requires h.Inv() && h.state == Normal && h.credits == MAX_RESTARTS && h.streak == 0 && AllClear(o)
    ensures Accepted(h, Rounds(n, f, o)) == 3 * n && QuietClears(Rounds(n, f, o)) == 4 * n
    ensures 4 * Accepted(h, Rounds(n, f, o)) + Pot(Run(h, Rounds(n, f, o)))
         == Pot(h) + 3 * QuietClears(Rounds(n, f, o))
    decreases n
  {
    if n > 0 {
      RoundEffect(h, f, o, Rounds(n - 1, f, o));
      RateBoundAttained(n - 1, h.(cause := f), f, o);
    }
  }

  // ---------------------------------------------------------------------------
  // Failsafe is absorbing
  // ---------------------------------------------------------------------------

  /** A latched monitor stays latched, keeps its cause, accepts no restart, and
      trips at exactly the first heartbeat loss or budget overrun. */
  lemma {:induction false} LatchedForever(h: Hm, es: seq<Event>)
    requires h.Inv() && h.Latched()
    ensures Run(h, es).Latched() && Run(h, es).cause == h.cause && Accepted(h, es) == 0
    ensures Run(h, es).state == CrossCoreTrip <==>
      (h.state == CrossCoreTrip
       || exists k :: 0 <= k < |es| && (es[k] == EvFault(HeartbeatLoss) || es[k] == EvFault(BudgetOverrun)))
    decreases |es|
  {
    if es != [] {
      LatchedForever(Step(h, es[0]), es[1..]);
      assert forall k :: 1 <= k < |es| ==> es[k] == es[1..][k - 1];
    }
  }

  function Faults(es: seq<Event>): nat {
    if es == [] then 0 else (if es[0].EvFault? then 1 else 0) + Faults(es[1..])
  }

  /** Event `k` is a tripping fault that comes after `n` faults. */
  ghost predicate TripAfter(es: seq<Event>, k: nat, n: int)
    requires k < |es|
  {
    IsTrip(es[k]) && Faults(es[..k]) >= n
  }

  lemma TripAfterTail(es: seq<Event>, k: nat, n: int)
    requires 0 < k < |es|
    ensures TripAfter(es, k, n) <==> TripAfter(es[1..], k - 1, if es[0].EvFault? then n - 1 else n)
  {
    assert es[..k][1..] == es[1..][..k - 1];
  }

  /** Degraded with `c` credits and no accepted restart: latched exactly when `c`
      faults have come, tripped exactly when a tripping fault followed them. */
  lemma {:induction false} DegradedEscalates(h: Hm, es: seq<Event>)
    requires h.Inv() && h.state == Degraded && Accepted(h, es) == 0
    ensures Run(h, es).Latched() <==> Faults(es) >= h.credits
    ensures Run(h, es).state == CrossCoreTrip <==> exists k :: 0 <= k < |es| && TripAfter(es, k, h.credits)
    decreases |es|
  {
    if es != [] {
      var h' := Step(h, es[0]);
      var n := if es[0].EvFault? then h.credits - 1 else h.credits;
      forall k | 0 < k < |es|
        ensures TripAfter(es, k, h.credits) <==> TripAfter(es[1..], k - 1, n)
      {
        TripAfterTail(es, k, h.credits);
      }
      assert !TripAfter(es, 0, h.credits);
      if h'.state == Degraded {
        DegradedEscalates(h', es[1..]);
        if k :| 0 <= k < |es[1..]| && TripAfter(es[1..], k, n) {
          assert TripAfter(es, k + 1, h.credits);
        }
      } else {
        LatchedForever(h', es[1..]);
        if k :| 0 <= k < |es[1..]| && IsTrip(es[1..][k]) {
          assert TripAfter(es[1..], k, n);
          assert TripAfter(es, k + 1, h.credits);
        }
      }
    }
  }

  /** From the fault that leaves Normal with `r` credits, counting it: `r + 1`
      faults without an accepted restart latch the monitor and fewer never do; it
      trips exactly when a heartbeat loss or budget overrun follows those. */
  lemma EscalationExact(h: Hm, es: seq<Event>)
    requires h.Inv() && h.state == Normal && es != [] && es[0].EvFault? && Accepted(h, es) == 0
    ensures var n := h.credits + 1;
      && (Run(h, es).Latched() <==> Faults(es) >= n)
      && (Run(h, es).state == CrossCoreTrip <==> exists k :: 0 <= k < |es| && TripAfter(es, k, n))
  {
    var h', n := Step(h, es[0]), h.credits + 1;
    forall k | 0 < k < |es|
      ensures TripAfter(es, k, n) <==> TripAfter(es[1..], k - 1, h.credits)
    {
      TripAfterTail(es, k, n);
    }
    assert !TripAfter(es, 0, n);
    if h'.state == Degraded {
      DegradedEscalates(h', es[1..]);
    } else {
      LatchedForever(h', es[1..]);
    }
    if k :| 0 <= k < |es[1..]| && TripAfter(es[1..], k, h.credits) {
      assert TripAfter(es, k + 1, n);
    }
    if k :| 0 <= k < |es[1..]| && IsTrip(es[1..][k]) && h.credits == 0 {
      assert TripAfter(es[1..], k, h.credits);
      assert TripAfter(es, k + 1, n);
    }
  }

  // ---------------------------------------------------------------------------
  // The recorded cause is history
  // ---------------------------------------------------------------------------

  /** Event `k` is the fault that ended Normal, and Normal has not come back. */
  ghost predicate EndedNormal(h: Hm, es: seq<Event>, k: nat)
    requires h.Inv() && k < |es|
  {
    && es[k].EvFault?
    && Run(h, es[..k]).state == Normal
    && forall m :: k < m <= |es| ==> Run(h, es[..m]).state != Normal
  }

  lemma RunOne(h: Hm, e: Event)
    requires h.Inv()
    ensures Run(h, [e]) == Step(h, e)
  {
    assert [e][1..] == [];
  }

  lemma RunSnoc(h: Hm, es: seq<Event>, k: nat)
    requires h.Inv() && k < |es|
    ensures Run(h, es[..k + 1]) == Step(Run(h, es[..k]), es[k])
  {
    assert es[..k + 1] == es[..k] + [es[k]];
    RunAppend(h, es[..k], [es[k]]);
    RunOne(Run(h, es[..k]), es[k]);
  }

  /** Outside Normal the recorded cause is the fault that most recently ended it. */
  lemma {:induction false} CauseIsHistory(h: Hm, es: seq<Event>) returns (k: nat)
    requires h.Inv() && h.state == Normal && Run(h, es).state != Normal
    ensures k < |es| && EndedNormal(h, es, k) && Run(h, es).cause == es[k].f
    decreases |es|
  {
    var n := |es| - 1;
    var es' := es[..n];
    assert es[..n + 1] == es;
    RunSnoc(h, es, n);
    assert forall m :: 0 <= m <= n ==> es'[..m] == es[..m];
    if Run(h, es').state == Normal {
      k := n;
    } else {
      k := CauseIsHistory(h, es');
      forall m | k < m <= |es| ensures Run(h, es[..m]).state != Normal {
        if m <= n {
          assert Run(h, es'[..m]).state != Normal;
        } else {
          assert es[..m] == es;
        }
      }
    }
  }

  /** Every measurement within its limit and two of the three replicas agreeing with the
      third, in numbers. */
  predicate WithinLimits(o: Obs) {
    && o.ageMs <= o.limitMs
    && o.lo <= o.value && o.value <= o.hi
    && o.innovAbs <= o.kSigma
    && o.usedUs <= o.budgetUs
    && o.latenessUs == 0
    && o.missedBeats == 0
    && ((Agree(o.s0, o.s1, o.voteTol) && Agree(o.s0, o.s2, o.voteTol))
        || (Agree(o.s1, o.s0, o.voteTol) && Agree(o.s1, o.s2, o.voteTol))
        || (Agree(o.s2, o.s0, o.voteTol) && Agree(o.s2, o.s1, o.voteTol)))
  }

  lemma AllClearIsWithinLimits(o: Obs)
    ensures AllClear(o) <==> WithinLimits(o)
  {
    VoteIsMajority(o.s0, o.s1, o.s2, o.voteTol);
  }

  /** Observation `o` as far as fault `f` is concerned, and perfect in all other respects. */
  function OnlyMeasuring(f: Fault, o: Obs): Obs {
    var perfect := Obs(0, 0, 0, 0, 0, 0, 0, 0, 0, 0, 0, 0, 0, 0, 0);
    match f
    case Stale => perfect.(ageMs := o.ageMs, limitMs := o.limitMs)
    case Implausible => perfect.(value := o.value, lo := o.lo, hi := o.hi)
    case Diverged => perfect.(innovAbs := o.innovAbs, kSigma := o.kSigma)
    case BudgetOverrun => perfect.(usedUs := o.usedUs, budgetUs := o.budgetUs)
    case DeadlineMiss => perfect.(latenessUs := o.latenessUs)
    case HeartbeatLoss => perfect.(missedBeats := o.missedBeats)
    case VoteMismatch => perfect.(s0 := o.s0, s1 := o.s1, s2 := o.s2, voteTol := o.voteTol)
  }

  /** The gate of a fault looks at that fault's measurements and at nothing else. */
  lemma GateIsItsMeasurement(f: Fault, o: Obs)
    ensures GateClears(f, o) <==> WithinLimits(OnlyMeasuring(f, o))
  {
    VoteIsMajority(o.s0, o.s1, o.s2, o.voteTol);
  }

  /** At every point of every run a restart is accepted exactly when the monitor is
      Degraded and the observation is within all limits; then the monitor is Normal with
      one credit less, and otherwise nothing changes. */
  lemma RestartExact(h: Hm, es: seq<Event>, k: nat)
    requires h.Inv() && k < |es| && es[k].EvRestart?
    ensures var s, s' := Run(h, es[..k]), Run(h, es[..k + 1]);
      if s.state == Degraded && WithinLimits(es[k].o)
      then RestartAccepted(s, es[k]) && s.credits >= 1 && s' == s.(state := Normal, credits := s.credits - 1, streak := 0)
      else !RestartAccepted(s, es[k]) && s' == s
  {
    RunSnoc(h, es, k);
    AllClearIsWithinLimits(es[k].o);
  }

  /** At every point of every run a quiet tick within limits lengthens the streak of a
      Normal monitor, the fourth in a row refills its credits to three, and one outside
      the limits ends the streak. */
  lemma QuietExact(h: Hm, es: seq<Event>, k: nat)
    requires h.Inv() && k < |es| && es[k].EvQuiet?
    ensures var s, s' := Run(h, es[..k]), Run(h, es[..k + 1]);
      if s.state != Normal then s' == s
      else if !WithinLimits(es[k].o) then s' == s.(streak := 0)
      else if s.streak < 3 then s' == s.(streak := s.streak + 1)
      else s' == s.(credits := 3, streak := 0)
  {
    RunSnoc(h, es, k);
    AllClearIsWithinLimits(es[k].o);
  }

  /** No silent clear: a run that brings the monitor back to Normal contains an
      accepted restart, and its observation clears every gate. */
  lemma {:induction false} NoSilentClear(h: Hm, es: seq<Event>) returns (k: nat)
    requires h.Inv() && h.state != Normal && Run(h, es).state == Normal
    ensures k < |es| && es[k].EvRestart? && RestartAccepted(Run(h, es[..k]), es[k])
    ensures Run(h, es[..k]).state == Degraded && WithinLimits(es[k].o) && forall f: Fault :: GateClears(f, es[k].o)
    decreases |es|
  {
    var n := |es| - 1;
    assert es[..n + 1] == es;
    RunSnoc(h, es, n);
    if Run(h, es[..n]).state != Normal {
      k := n;
      AllClearIsEveryGate(es[k].o);
      AllClearIsWithinLimits(es[k].o);
    } else {
      k := NoSilentClear(h, es[..n]);
      assert es[..n][..k] == es[..k];
    }
  }

  // ---------------------------------------------------------------------------
  // The object runs these events
  // ---------------------------------------------------------------------------

  method Perform(m: Monitor, es: seq<Event>)
    requires m.View().Inv()
    modifies m
    ensures m.View().Inv() && m.View() == Run(old(m.View()), es)
  {
    var k := 0;
    while k < |es|
      invariant k <= |es| && m.View().Inv()
      invariant m.View() == Run(old(m.View()), es[..k])
    {
      RunSnoc(old(m.View()), es, k);
      match es[k] {
        case EvFault(f) => m.Fault(f);
        case EvRestart(o) => var _ := m.TryRestart(o);
        case EvQuiet(o) => m.Quiet(o);
      }
      k := k + 1;
    }
    assert es[..k] == es;
  }
}
