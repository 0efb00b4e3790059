/** SysTick tick arithmetic (plain/systick.rs, with the caller obligations of
    src/systick.rs). */
module SysTick {
  import opened Words
  import opened Binary
  import opened Runs

  const SYSTICK_MAX_LOAD: u32 := 0x00FF_FFFF

  function ElapsedCycles(last: u32, current: u32, load: u32): u32
    requires last <= load && current <= load
  {
    if last >= current then last - current else last + (load - current)
  }

  /** The hardware counter, read as the driver reads it: load, load - 1, ..., 1, load, ... */
  function Tick(c: u32, load: u32): u32
    requires 1 <= c <= load
  {
    if c == 1 then load else c - 1
  }

  function Ticks(c: u32, load: u32, n: nat): (c': u32)
    requires 1 <= c <= load
    ensures 1 <= c' <= load
  {
    if n == 0 then c else Tick(Ticks(c, load, n - 1), load)
  }

  lemma ModSmall(n: nat, d: nat)
    requires n < d
    ensures n % d == n
  {
  }

  lemma ModStep(n: nat, d: nat)
    requires d > 0
    ensures (n + 1) % d == if n % d + 1 == d then 0 else n % d + 1
  {
    var q, r := n / d, n % d;
    assert n == q * d + r;
    if r + 1 == d {
      assert n + 1 == (q + 1) * d;
      RemainderUnique(n + 1, d, q + 1, 0);
    } else {
      RemainderUnique(n + 1, d, q, r + 1);
    }
  }

  /** After any number of counter steps the difference is that number modulo the
      reload value; so it is the number itself exactly when no full turn was missed. */
  lemma {:induction false} ElapsedIsSteps(c: u32, load: u32, n: nat)
    requires 1 <= c <= load
    ensures ElapsedCycles(c, Ticks(c, load, n), load) == n % load
    ensures ElapsedCycles(c, Ticks(c, load, n), load) == n <==> n < load
    decreases n
  {
    if n > 0 {
      ElapsedIsSteps(c, load, n - 1);
      ModStep(n - 1, load);
    } else {
      ModSmall(0, load);
    }
    if n < load {
      ModSmall(n, load);
    }
  }

  // ---------------------------------------------------------------------------
  // Announcements
  // ---------------------------------------------------------------------------

  datatype Announce = Announce(dticks: u32, newCycleCount: u64, newAnnounced: u64)

  lemma QuotientNonNegative(d: nat, cpt: nat)
    requires cpt > 0
    ensures d / cpt >= 0
  {
  }

  lemma WholeTicks(d: nat, cpt: nat)
    requires cpt > 0
    ensures d == d / cpt * cpt + d % cpt
    ensures 0 <= d / cpt <= d / cpt * cpt <= d
  {
    var q := d / cpt;
    assert d == q * cpt + d % cpt;
    QuotientNonNegative(d, cpt);
    MulMonotone(1, cpt, q);
  }

  function AnnounceDecide(cycleCount: u64, announced: u64, overflow: u32, cpt: u32): Option<Announce>
    requires cpt > 0 && cycleCount + overflow <= U64_MAX && announced <= cycleCount + overflow
  {
    var newCc: u64 := cycleCount + overflow;
    var dcycles: u64 := newCc - announced;
    WholeTicks(dcycles, cpt);
    var dticks: u64 := dcycles / cpt;
    var newAnnounced: u64 := announced + dticks * cpt;
    if dticks > U32_MAX then None else Some(Announce(dticks, newCc, newAnnounced))
  }

  /** The announcement is refused exactly when the cycles not yet announced make more
      ticks than the result can hold. */
  lemma RefusedIff(cycleCount: u64, announced: u64, overflow: u32, cpt: u32)
    requires cpt > 0 && cycleCount + overflow <= U64_MAX && announced <= cycleCount + overflow
    ensures AnnounceDecide(cycleCount, announced, overflow, cpt) == None
       <==> cycleCount + overflow - announced >= 0x1_0000_0000 * cpt
  {
    var d := cycleCount + overflow - announced;
    var q := d / cpt;
    WholeTicks(d, cpt);
    if q > U32_MAX {
      MulMonotone(0x1_0000_0000, q, cpt);
    } else {
      MulMonotone(q, U32_MAX, cpt);
    }
  }

  datatype Clock = Clock(cycles: u64, announced: u64, ticks: nat)

  /** Less than one tick is waiting to be announced. */
  ghost predicate Settled(k: Clock, cpt: u32) {
    k.announced <= k.cycles < k.announced + cpt
  }

  function Sum(xs: seq<nat>): nat {
    if xs == [] then 0 else Sum(xs[..|xs| - 1]) + xs[|xs| - 1]
  }

  function Once(k: Clock, overflow: u32, cpt: u32): Option<Clock>
    requires cpt > 0
  {
    if k.cycles + overflow > U64_MAX || k.announced > k.cycles + overflow then None else
    match AnnounceDecide(k.cycles, k.announced, overflow, cpt)
    case None => None
    case Some(a) => Some(Clock(a.newCycleCount, a.newAnnounced, k.ticks + a.dticks))
  }

  /** The clock after the interrupt handler has run once per element of `overflows`;
      `None` when some announcement could not be made. */
  function Announcements(k: Clock, overflows: seq<u32>, cpt: u32): Option<Clock>
    requires cpt > 0
  {
    if overflows == [] then Some(k) else
    match Announcements(k, overflows[..|overflows| - 1], cpt)
    case None => None
    case Some(p) => Once(p, overflows[|overflows| - 1], cpt)
  }

  lemma Distribute(a: int, b: int, c: int)
    ensures (a + b) * c == a * c + b * c
  {
  }

  lemma OnceConserves(k: Clock, overflow: u32, cpt: u32)
    requires cpt > 0 && Settled(k, cpt) && k.cycles + overflow <= U64_MAX
    ensures Once(k, overflow, cpt).Some?
    ensures var k' := Once(k, overflow, cpt).value;
            && Settled(k', cpt)
            && k'.cycles == k.cycles + overflow
            && k'.ticks * cpt - k'.announced == k.ticks * cpt - k.announced
  {
    RefusedIff(k.cycles, k.announced, overflow, cpt);
    var d := k.cycles + overflow - k.announced;
    MulMonotone(1, cpt, U32_MAX);
    WholeTicks(d, cpt);
    Distribute(k.ticks, d / cpt, cpt);
  }

  /** The clock never drifts. However the cycles are split over interrupts, no
      announcement is refused, the announced ticks are exactly the whole ticks in the
      cycles counted, and what is left over is the remainder. */
  lemma {:induction false} NeverDrifts(k: Clock, overflows: seq<u32>, cpt: u32)
    requires cpt > 0 && Settled(k, cpt) && k.cycles + Sum(overflows) <= U64_MAX
    ensures Announcements(k, overflows, cpt).Some?
    ensures var k' := Announcements(k, overflows, cpt).value;
            && Settled(k', cpt)
            && k'.cycles == k.cycles + Sum(overflows)
            && k'.ticks * cpt - k'.announced == k.ticks * cpt - k.announced
    decreases |overflows|
  {
    if overflows != [] {
      var n := |overflows| - 1;
      NeverDrifts(k, overflows[..n], cpt);
      OnceConserves(Announcements(k, overflows[..n], cpt).value, overflows[n], cpt);
    }
  }

  /** From power-up the tick count depends only on the total number of cycles. */
  lemma TicksFromPowerUp(overflows: seq<u32>, cpt: u32)
    requires cpt > 0 && Sum(overflows) <= U64_MAX
    ensures Announcements(Clock(0, 0, 0), overflows, cpt).Some?
    ensures var k := Announcements(Clock(0, 0, 0), overflows, cpt).value;
            k.ticks == Sum(overflows) / cpt && k.cycles - k.announced == Sum(overflows) % cpt
  {
    NeverDrifts(Clock(0, 0, 0), overflows, cpt);
    var k := Announcements(Clock(0, 0, 0), overflows, cpt).value;
    RemainderUnique(k.cycles, cpt, k.ticks, k.cycles - k.announced);
  }

  // ---------------------------------------------------------------------------
  // Reading the counter
  // ---------------------------------------------------------------------------

  datatype Elapsed = Elapsed(wrapDetected: bool, newOverflow: u32, elapsed: u32)

  /** What the source asks of the caller. */
  predicate Readable(val2: u32, load: u32, overflow: u32) {
    val2 <= load && overflow + load <= U32_MAX && load - val2 + overflow + load <= U32_MAX
  }

  function ElapsedDecide(val1: u32, val2: u32, countflag: bool, load: u32, overflow: u32): Elapsed
    requires Readable(val2, load, overflow)
  {
    var wrap := countflag || val1 < val2;
    var newOverflow := if wrap then overflow + load else overflow;
    Elapsed(wrap, newOverflow, load - val2 + newOverflow)
  }

  /** The counter `n` steps after power-up. */
  function Val(n: nat, load: u32): (v: u32)
    requires load >= 1
    ensures 1 <= v <= load
  {
    Ticks(load, load, n)
  }

  /** How often it has wrapped by then. */
  function Wraps(n: nat, load: u32): (w: nat)
    requires load >= 1
  {
    QuotientNonNegative(n, load);
    n / load
  }

  lemma StepsOf(n: nat, load: u32)
    requires load >= 1
    ensures n == Wraps(n, load) * load + (load - Val(n, load))
  {
    ElapsedIsSteps(load, load, n);
    WholeTicks(n, load);
  }

  lemma WrapsMonotone(m: nat, n: nat, load: u32)
    requires load >= 1 && m <= n
    ensures Wraps(m, load) <= Wraps(n, load)
  {
    StepsOf(m, load);
    StepsOf(n, load);
    var w, w' := Wraps(m, load), Wraps(n, load);
    if w' < w {
      MulStep(w', w, load);
    }
  }

  /** Between two samples less than a turn apart the second is larger exactly when the
      counter wrapped. */
  lemma LargerIffWrapped(m: nat, n: nat, load: u32)
    requires load >= 1 && m <= n < m + load
    ensures Val(m, load) < Val(n, load) <==> Wraps(m, load) < Wraps(n, load)
  {
    StepsOf(m, load);
    StepsOf(n, load);
    WrapsMonotone(m, n, load);
    var w, w' := Wraps(m, load), Wraps(n, load);
    if w < w' {
      MulStep(w, w', load);
    }
  }

  /** One reading: the instants of the first sample of VAL, of the read of CTRL, and of
      the second sample. */
  datatype Reading = Reading(first: nat, ctrl: nat, second: nat)

  /** A reading after instant `now` that takes less than a turn of the counter. */
  predicate Timely(now: nat, r: Reading, load: u32) {
    now <= r.first <= r.ctrl <= r.second < r.first + load
  }

  /** COUNTFLAG: the counter wrapped since the last reading. */
  predicate CountFlag(now: nat, r: Reading, load: u32)
    requires load >= 1
  {
    Wraps(now, load) < Wraps(r.ctrl, load)
  }

  /** A reading detects a wrap exactly when there was at least one since the last. */
  lemma DetectsIffWrapped(now: nat, r: Reading, load: u32, overflow: u32)
    requires load >= 1 && Timely(now, r, load) && Readable(Val(r.second, load), load, overflow)
    ensures var e := ElapsedDecide(Val(r.first, load), Val(r.second, load), CountFlag(now, r, load), load, overflow);
      && (e.wrapDetected <==> Wraps(now, load) < Wraps(r.second, load))
      && e.newOverflow == (if Wraps(now, load) < Wraps(r.second, load) then overflow + load else overflow)
  {
    WrapsMonotone(now, r.first, load);
    WrapsMonotone(r.first, r.ctrl, load);
    WrapsMonotone(r.ctrl, r.second, load);
    LargerIffWrapped(r.first, r.second, load);
  }

  // ---------------------------------------------------------------------------
  // Runs of the driver
  // ---------------------------------------------------------------------------

  /** A reading by itself, or one in the interrupt handler, which then announces the
      overflow and starts it afresh. */
  datatype Event = Read(r: Reading) | Interrupt(r: Reading)

  /** `now` is the instant of the last reading, `elapsed` its result. */
  datatype Driver = Driver(clock: Clock, overflow: u32, now: nat, elapsed: u32)

  const POWER_UP: Driver := Driver(Clock(0, 0, 0), 0, 0, 0)

  function AfterRead(s: Driver, r: Reading, load: u32): Option<Driver>
    requires load >= 1
  {
    if !Readable(Val(r.second, load), load, s.overflow) then None else
    var e := ElapsedDecide(Val(r.first, load), Val(r.second, load), CountFlag(s.now, r, load), load, s.overflow);
    Some(Driver(s.clock, e.newOverflow, r.second, e.elapsed))
  }

  /** `None` when the source's demands on the caller are not met. */
  function DriverStep(s: Driver, e: Event, load: u32, cpt: u32): Option<Driver>
    requires load >= 1 && cpt >= 1
  {
    match AfterRead(s, e.r, load)
    case None => None
    case Some(s') =>
      if e.Read? then Some(s') else
      match Once(s'.clock, s'.overflow, cpt)
      case None => None
      case Some(k) => Some(Driver(k, 0, s'.now, s'.elapsed - s'.overflow))
  }

  function At(es: seq<Event>, n: nat, load: u32, cpt: u32): Option<Driver>
    requires n <= |es| && load >= 1 && cpt >= 1
  {
    if n == 0 then Some(POWER_UP) else
    match At(es, n - 1, load, cpt)
    case None => None
    case Some(s) => DriverStep(s, es[n - 1], load, cpt)
  }

  /** The instant of the last of the first `n` readings. */
  function LastInstant(es: seq<Event>, n: nat): nat
    requires n <= |es|
  {
    if n == 0 then 0 else es[n - 1].r.second
  }

  predicate TimelyAt(es: seq<Event>, k: nat, load: u32)
    requires k < |es|
  {
    Timely(LastInstant(es, k), es[k].r, load)
  }

  predicate TimelyRun(es: seq<Event>, load: u32) {
    forall k :: 0 <= k < |es| ==> TimelyAt(es, k, load)
  }

  /** Wraps between two readings beyond the first, which no reading can see. */
  function MissedBy(now: nat, r: Reading, load: u32): nat
    requires load >= 1
  {
    var w := Wraps(r.second, load) - Wraps(now, load);
    if w > 1 then w - 1 else 0
  }

  function Missed(es: seq<Event>, n: nat, load: u32): nat
    requires n <= |es| && load >= 1
  {
    if n == 0 then 0 else Missed(es, n - 1, load) + MissedBy(LastInstant(es, n - 1), es[n - 1].r, load)
  }

  /** All cycles but those of `missed` turns are accounted for: whole turns in the cycle
      count or the overflow, the rest in the last result, and the ticks are the whole
      ticks of the cycle count. */
  ghost predicate Accounts(s: Driver, missed: nat, load: u32, cpt: u32)
    requires load >= 1 && cpt >= 1
  {
    && s.clock.cycles + s.overflow == (Wraps(s.now, load) - missed) * load
    && s.clock.cycles + s.elapsed == s.now - missed * load
    && s.elapsed >= s.overflow
    && Settled(s.clock, cpt) && s.clock.ticks * cpt == s.clock.announced
  }

  lemma ReadAccounts(s: Driver, r: Reading, missed: nat, load: u32, cpt: u32)
    requires load >= 1 && cpt >= 1 && Accounts(s, missed, load, cpt) && Timely(s.now, r, load)
    requires AfterRead(s, r, load).Some?
    ensures Accounts(AfterRead(s, r, load).value, missed + MissedBy(s.now, r, load), load, cpt)
  {
    var s' := AfterRead(s, r, load).value;
    DetectsIffWrapped(s.now, r, load, s.overflow);
    WrapsMonotone(s.now, r.second, load);
    StepsOf(r.second, load);
    var w, w', more := Wraps(s.now, load), Wraps(r.second, load), MissedBy(s.now, r, load);
    var d := if w < w' then 1 else 0;
    assert w' - (missed + more) == (w - missed) + d;
    Distribute(w - missed, d, load);
    Distribute(w' - (missed + more), missed + more, load);
  }

  lemma InterruptAccounts(s: Driver, missed: nat, load: u32, cpt: u32)
    requires load >= 1 && cpt >= 1 && Accounts(s, missed, load, cpt) && Once(s.clock, s.overflow, cpt).Some?
    ensures Accounts(Driver(Once(s.clock, s.overflow, cpt).value, 0, s.now, s.elapsed - s.overflow), missed, load, cpt)
  {
    OnceConserves(s.clock, s.overflow, cpt);
  }

  lemma StepAccounts(s: Driver, e: Event, missed: nat, load: u32, cpt: u32)
    requires load >= 1 && cpt >= 1 && Accounts(s, missed, load, cpt) && Timely(s.now, e.r, load)
    requires DriverStep(s, e, load, cpt).Some?
    ensures var s' := DriverStep(s, e, load, cpt).value;
      && s'.now == e.r.second && (e.Interrupt? ==> s'.overflow == 0)
      && Accounts(s', missed + MissedBy(s.now, e.r, load), load, cpt)
  {
    ReadAccounts(s, e.r, missed, load, cpt);
    if e.Interrupt? {
      InterruptAccounts(AfterRead(s, e.r, load).value, missed + MissedBy(s.now, e.r, load), load, cpt);
    }
  }

  ghost predicate AccountedAt(es: seq<Event>, n: nat, load: u32, cpt: u32)
    requires load >= 1 && cpt >= 1
  {
    n <= |es| && (At(es, n, load, cpt).Some? ==>
      var s := At(es, n, load, cpt).value;
      && s.now == LastInstant(es, n) && (n > 0 && es[n - 1].Interrupt? ==> s.overflow == 0)
      && Accounts(s, Missed(es, n, load), load, cpt))
  }

  lemma AccountedStep(es: seq<Event>, n: nat, load: u32, cpt: u32)
    requires n < |es| && load >= 1 && cpt >= 1 && TimelyAt(es, n, load) && AccountedAt(es, n, load, cpt)
    ensures AccountedAt(es, n + 1, load, cpt)
  {
    if At(es, n + 1, load, cpt).Some? {
      StepAccounts(At(es, n, load, cpt).value, es[n], Missed(es, n, load), load, cpt);
    }
  }

  /** Over every run of readings and interrupts the driver accounts for every cycle since
      power-up but those of wraps no reading could see. */
  lemma CyclesAccounted(es: seq<Event>, n: nat, load: u32, cpt: u32)
    requires n <= |es| && load >= 1 && cpt >= 1 && TimelyRun(es, load)
    ensures AccountedAt(es, n, load, cpt)
  {
    StepsOf(0, load);
    assert AccountedAt(es, 0, load, cpt);
    forall m | 0 <= m < n && AccountedAt(es, m, load, cpt) ensures AccountedAt(es, m + 1, load, cpt) {
      assert TimelyAt(es, m, load);
      AccountedStep(es, m, load, cpt);
    }
    Carried((m: nat) => AccountedAt(es, m, load, cpt), 0, n);
  }

  /** Readings since the last interrupt. */
  function SinceInterrupt(es: seq<Event>, n: nat): nat
    requires n <= |es|
  {
    if n == 0 || es[n - 1].Interrupt? then 0 else SinceInterrupt(es, n - 1) + 1
  }

  lemma ReadTaken(s: Driver, r: Reading, since: nat, load: u32)
    requires 1 <= load <= SYSTICK_MAX_LOAD && since <= 254 && s.overflow <= since * load
    ensures AfterRead(s, r, load).Some? && AfterRead(s, r, load).value.overflow <= (since + 1) * load
  {
    MulMonotone(since, 254, load);
    Distribute(since, 1, load);
  }

  lemma InterruptTaken(s: Driver, missed: nat, load: u32, cpt: u32)
    requires load >= 1 && cpt >= 1 && Accounts(s, missed, load, cpt) && s.now <= U64_MAX
    ensures Once(s.clock, s.overflow, cpt).Some?
  {
    StepsOf(s.now, load);
    MulMonotone(Wraps(s.now, load) - missed, Wraps(s.now, load), load);
    OnceConserves(s.clock, s.overflow, cpt);
  }

  ghost predicate TakenAt(es: seq<Event>, n: nat, load: u32, cpt: u32)
    requires load >= 1 && cpt >= 1
  {
    && n <= |es| && At(es, n, load, cpt).Some?
    && At(es, n, load, cpt).value.overflow <= SinceInterrupt(es, n) * load
  }

  lemma TakenStep(es: seq<Event>, n: nat, load: u32, cpt: u32)
    requires n < |es| && 1 <= load <= SYSTICK_MAX_LOAD && cpt >= 1 && TimelyAt(es, n, load)
    requires AccountedAt(es, n, load, cpt) && TakenAt(es, n, load, cpt)
    requires SinceInterrupt(es, n) <= 254 && es[n].r.second <= U64_MAX
    ensures TakenAt(es, n + 1, load, cpt)
  {
    var s, r := At(es, n, load, cpt).value, es[n].r;
    ReadTaken(s, r, SinceInterrupt(es, n), load);
    if es[n].Interrupt? {
      ReadAccounts(s, r, Missed(es, n, load), load, cpt);
      InterruptTaken(AfterRead(s, r, load).value, Missed(es, n, load) + MissedBy(s.now, r, load), load, cpt);
    }
  }

  /** Every run goes through, with a 24-bit reload value, as long as an interrupt comes
      at least once in 255 readings and the cycles fit 64 bits. */
  lemma RunsGoThrough(es: seq<Event>, n: nat, load: u32, cpt: u32)
    requires n <= |es| && 1 <= load <= SYSTICK_MAX_LOAD && cpt >= 1 && TimelyRun(es, load)
    requires forall k :: 0 <= k < n ==> SinceInterrupt(es, k) <= 254
    requires forall k :: 0 <= k < n ==> es[k].r.second <= U64_MAX
    ensures At(es, n, load, cpt).Some?
  {
    assert TakenAt(es, 0, load, cpt);
    forall m | 0 <= m < n && TakenAt(es, m, load, cpt) ensures TakenAt(es, m + 1, load, cpt) {
      assert TimelyAt(es, m, load);
      CyclesAccounted(es, m, load, cpt);
      TakenStep(es, m, load, cpt);
    }
    Carried((m: nat) => TakenAt(es, m, load, cpt), 0, n);
  }

  lemma AccountsExactly(s: Driver, missed: nat, load: u32, cpt: u32)
    requires load >= 1 && cpt >= 1 && Accounts(s, missed, load, cpt)
    ensures s.clock.cycles + s.elapsed == s.now <==> missed == 0
    ensures missed == 0 && s.overflow == 0 ==> s.clock.cycles == Wraps(s.now, load) * load
    ensures s.clock.ticks == s.clock.cycles / cpt
  {
    if missed > 0 {
      MulMonotone(1, missed, load);
    }
    RemainderUnique(s.clock.cycles, cpt, s.clock.ticks, s.clock.cycles - s.clock.announced);
  }

  /** No two wraps fall between two readings. */
  ghost predicate SeenAt(es: seq<Event>, k: nat, load: u32)
    requires k < |es| && load >= 1
  {
    Wraps(es[k].r.second, load) <= Wraps(LastInstant(es, k), load) + 1
  }

  lemma {:induction false} MissedNone(es: seq<Event>, n: nat, load: u32)
    requires n <= |es| && load >= 1
    ensures Missed(es, n, load) == 0 <==> forall k :: 0 <= k < n ==> SeenAt(es, k, load)
    decreases n
  {
    if n > 0 {
      MissedNone(es, n - 1, load);
      assert SeenAt(es, n - 1, load) <==> MissedBy(LastInstant(es, n - 1), es[n - 1].r, load) == 0;
    }
  }

  /** The clock keeps time: cycle count and last result together are the number of steps
      since power-up if and only if never two wraps fell between two readings; and then
      after an interrupt the ticks are the whole ticks of the whole turns. */
  lemma ClockKeepsTime(es: seq<Event>, n: nat, load: u32, cpt: u32)
    requires n <= |es| && load >= 1 && cpt >= 1 && TimelyRun(es, load) && At(es, n, load, cpt).Some?
    ensures var s := At(es, n, load, cpt).value;
      && (s.clock.cycles + s.elapsed == LastInstant(es, n) <==> forall k :: 0 <= k < n ==> SeenAt(es, k, load))
      && s.clock.ticks == s.clock.cycles / cpt
      && ((forall k :: 0 <= k < n ==> SeenAt(es, k, load)) && n > 0 && es[n - 1].Interrupt? ==>
            s.clock.cycles == Wraps(LastInstant(es, n), load) * load)
  {
    CyclesAccounted(es, n, load, cpt);
    MissedNone(es, n, load);
    AccountsExactly(At(es, n, load, cpt).value, Missed(es, n, load), load, cpt);
  }
}
