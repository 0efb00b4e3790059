/** Runs of partition switches, looked at after every single register store. */
module MpuSwitch {
  import opened Words
  import opened MpuRegions
  import opened RegionTable
  import opened RegionGrants
  import opened MpuMachine
  import opened MpuProgram

  // ---------------------------------------------------------------------------
  // The device and the emission loop
  // ---------------------------------------------------------------------------

  /** The hardware behind the write seam. */
  class Device {
    var regs: Mpu

    constructor (regs: Mpu)
      ensures this.regs == regs
    {
      this.regs := regs;
    }

    method Write(w: MpuWrite)
      requires regs.Shape()
      modifies this
      ensures regs.Shape() && regs == ApplyAll(old(regs), Stores(w))
    {
      regs := ApplyAll(regs, Stores(w));
    }
  }

  method ApplyProgram(dev: Device, ws: seq<MpuWrite>)
    requires dev.regs.Shape() && |ws| == SEQ_LEN
    modifies dev
    ensures dev.regs.Shape() && dev.regs == ApplyAll(old(dev.regs), AllStores(ws))
  {
    var i := 0;
    while i < SEQ_LEN
      invariant i <= SEQ_LEN && dev.regs.Shape()
      invariant dev.regs == ApplyAll(old(dev.regs), AllStores(ws[..i]))
    {
      assert ws[..i + 1] == ws[..i] + [ws[i]];
      AllStoresAppend(ws[..i], [ws[i]]);
      AllStoresOne(ws[i]);
      ApplyAppend(old(dev.regs), AllStores(ws[..i]), Stores(ws[i]));
      dev.Write(ws[i]);
      i := i + 1;
    }
    assert ws[..i] == ws;
  }

  /** The one call a partition switch makes. */
  method SwitchToPartition(regions: Regions, dev: Device, part: u32)
    requires regions.Valid() && part < MAX_PARTITIONS && dev.regs.Shape()
    modifies dev
    ensures dev.regs == ApplyAll(old(dev.regs), ProgramStores(Part(regions.View(), part)))
    ensures dev.regs.Shape() && dev.regs.Enabled() && Allowed(dev.regs) == Permitted(Part(regions.View(), part))
  {
    var ws := ProgramPartition(regions, part);
    ghost var m := Part(regions.View(), part);
    assert MapInv(m);
    ProgramCorrect(dev.regs, m);
    ProgramStoresAre(m);
    ApplyProgram(dev, ws);
  }

  // ---------------------------------------------------------------------------
  // Inside one switch
  // ---------------------------------------------------------------------------

  ghost predicate NoCtrl(sts: seq<Store>) {
    forall k :: 0 <= k < |sts| ==> !sts[k].StCtrl?
  }

  lemma {:induction false} NoCtrlKeeps(hw: Mpu, sts: seq<Store>)
    requires hw.Shape() && NoCtrl(sts)
    ensures ApplyAll(hw, sts).ctrl == hw.ctrl
    decreases |sts|
  {
    if sts != [] {
      assert forall k :: 0 <= k < |sts[1..]| ==> sts[1..][k] == sts[k + 1];
      NoCtrlKeeps(Apply(hw, sts[0]), sts[1..]);
    }
  }

  lemma {:induction false} RegionStoresNoCtrl(ws: seq<MpuWrite>)
    requires forall k :: 0 <= k < |ws| ==> ws[k].rnr < MAX_REGIONS
    ensures NoCtrl(AllStores(ws))
    decreases |ws|
  {
    if ws != [] {
      RegionStoresNoCtrl(ws[1..]);
    }
  }

  /** From the first store of a switch to the last but one the unit is off. */
  lemma OffDuringSwitch(hw: Mpu, m: RegionMap, i: nat)
    requires hw.Shape() && 0 < i < |ProgramStores(m)|
    ensures !ApplyAll(hw, ProgramStores(m)[..i]).Enabled()
  {
    var body := AllStores(SlotWrites(m, 0));
    var off := [StCtrl(MPU_CTRL_DISABLE)];
    assert ProgramStores(m)[..i] == off + body[..i - 1];
    ApplyAppend(hw, off, body[..i - 1]);
    RegionStoresNoCtrl(SlotWrites(m, 0));
    NoCtrlKeeps(ApplyAll(hw, off), body[..i - 1]);
  }

  /** While stores `p` are under way the unit is off, whatever it was before. */
  ghost predicate OffUntilDone(p: seq<Store>) {
    p != [] && forall hw: Mpu, i {:trigger ApplyAll(hw, p[..i])} ::
      hw.Shape() && 0 < i < |p| ==> !ApplyAll(hw, p[..i]).Enabled()
  }

  lemma ProgramOffUntilDone(m: RegionMap)
    ensures OffUntilDone(ProgramStores(m))
  {
    assert ProgramStores(m)[0] == StCtrl(MPU_CTRL_DISABLE);
    forall hw: Mpu, i | hw.Shape() && 0 < i < |ProgramStores(m)|
      ensures !ApplyAll(hw, ProgramStores(m)[..i]).Enabled()
    {
      OffDuringSwitch(hw, m, i);
    }
  }

  lemma TakeAppend<T>(s: seq<T>, p: seq<T>, j: nat)
    requires j <= |s| + |p|
    ensures (s + p)[..j] == if j <= |s| then s[..j] else s + p[..j - |s|]
  {
  }

  // ---------------------------------------------------------------------------
  // Any number of switches
  // ---------------------------------------------------------------------------

  /** All register stores of the first `n` of the programs `ps`. */
  function Stream(ps: seq<seq<Store>>, n: nat): seq<Store>
    requires n <= |ps|
  {
    if n == 0 then [] else Stream(ps, n - 1) + ps[n - 1]
  }

  /** The program whose last store is the `j`-th store of the run, if any. */
  function EndingAt(ps: seq<seq<Store>>, n: nat, j: nat): (k: Option<nat>)
    requires n <= |ps| && j <= |Stream(ps, n)|
    ensures k.Some? ==> k.value < n && ps[k.value] != [] && j == |Stream(ps, k.value + 1)|
  {
    if n == 0 then None
    else if j <= |Stream(ps, n - 1)| then EndingAt(ps, n - 1, j)
    else if j == |Stream(ps, n)| then Some(n - 1)
    else None
  }

  lemma {:induction false} OffBetweenSwitches(hw: Mpu, ps: seq<seq<Store>>, n: nat, j: nat)
    requires hw.Shape() && !hw.Enabled() && n <= |ps| && j <= |Stream(ps, n)|
    requires forall k :: 0 <= k < |ps| && ps[k] != [] ==> OffUntilDone(ps[k])
    requires EndingAt(ps, n, j).None?
    ensures !ApplyAll(hw, Stream(ps, n)[..j]).Enabled()
    decreases n
  {
    if n == 0 {
      assert Stream(ps, n)[..j] == [];
    } else {
      var s, p := Stream(ps, n - 1), ps[n - 1];
      TakeAppend(s, p, j);
      if j <= |s| {
        OffBetweenSwitches(hw, ps, n - 1, j);
      } else {
        var i := j - |s|;
        ApplyAppend(hw, s, p[..i]);
        assert OffUntilDone(p) && i < |p|;
        assert !ApplyAll(ApplyAll(hw, s), p[..i]).Enabled();
      }
    }
  }

  lemma {:induction false} EndingPrefix(ps: seq<seq<Store>>, n: nat, j: nat)
    requires n <= |ps| && j <= |Stream(ps, n)| && EndingAt(ps, n, j).Some?
    ensures var k := EndingAt(ps, n, j).value;
      Stream(ps, n)[..j] == Stream(ps, k) + ps[k]
    decreases n
  {
    var s, p := Stream(ps, n - 1), ps[n - 1];
    TakeAppend(s, p, j);
    if j <= |s| {
      EndingPrefix(ps, n - 1, j);
    }
  }

  /** What the kernel does over time: at each step it switches to a map by storing
      its program, or does something that stores to no MPU register. */
  datatype Step = Idle | Switch(target: RegionMap)

  type Schedule = seq<Step>

  ghost predicate Sound(sch: Schedule) {
    forall k :: 0 <= k < |sch| && sch[k].Switch? ==> MapInv(sch[k].target)
  }

  function Emission(x: Step): seq<Store> {
    if x.Idle? then [] else ProgramStores(x.target)
  }

  /** The stores of each step. */
  function Emissions(sch: Schedule): (ps: seq<seq<Store>>)
    ensures |ps| == |sch| && forall k :: 0 <= k < |sch| ==> ps[k] == Emission(sch[k])
  {
    seq(|sch|, k requires 0 <= k < |sch| => Emission(sch[k]))
  }

  /** At every single register store of every run of switches that starts with the
      unit off: it is on exactly after the last store of a switch, and what it then
      enforces is that switch's map, never a mixture of old and new slots. */
  lemma NeverMixed(hw: Mpu, sch: Schedule, j: nat)
    requires hw.Shape() && !hw.Enabled() && Sound(sch) && j <= |Stream(Emissions(sch), |sch|)|
    ensures var hw', k := ApplyAll(hw, Stream(Emissions(sch), |sch|)[..j]), EndingAt(Emissions(sch), |sch|, j);
      && (hw'.Enabled() <==> k.Some?)
      && (k.Some? ==> sch[k.value].Switch? && Allowed(hw') == Permitted(sch[k.value].target))
  {
    var ps := Emissions(sch);
    match EndingAt(ps, |sch|, j)
    case None =>
      forall k | 0 <= k < |ps| && ps[k] != [] ensures OffUntilDone(ps[k]) {
        ProgramOffUntilDone(sch[k].target);
      }
      OffBetweenSwitches(hw, ps, |sch|, j);
    case Some(k) =>
      assert ps[k] == Emission(sch[k]);
      EndingPrefix(ps, |sch|, j);
      ApplyAppend(hw, Stream(ps, k), ps[k]);
      ProgramStoresAre(sch[k].target);
      ProgramCorrect(ApplyAll(hw, Stream(ps, k)), sch[k].target);
  }

  // ---------------------------------------------------------------------------
  // The whole system: grants and switches interleaved, from an empty table
  // ---------------------------------------------------------------------------

  datatype Op = Grant(q: Request) | SwitchTo(part: u32)

  predicate Legal(ops: seq<Op>) {
    forall k :: 0 <= k < |ops| && ops[k].SwitchTo? ==> ops[k].part < MAX_PARTITIONS
  }

  /** The region requests among the first `n` operations. */
  function Requests(ops: seq<Op>, n: nat): seq<Request>
    requires n <= |ops|
  {
    if n == 0 then []
    else if ops[n - 1].Grant? then Requests(ops, n - 1) + [ops[n - 1].q]
    else Requests(ops, n - 1)
  }

  /** The slots the partition of switch `k` has when it is switched to. */
  ghost function MapAt(ops: seq<Op>, k: nat): RegionMap
    requires Legal(ops) && k < |ops| && ops[k].SwitchTo?
  {
    Part(Build(Requests(ops, k)), ops[k].part)
  }

  ghost function StepOf(ops: seq<Op>, k: nat): Step
    requires Legal(ops) && k < |ops|
  {
    if ops[k].SwitchTo? then Switch(MapAt(ops, k)) else Idle
  }

  ghost function ScheduleOf(ops: seq<Op>): (sch: Schedule)
    requires Legal(ops)
    ensures |sch| == |ops| && forall k :: 0 <= k < |ops| ==> sch[k] == StepOf(ops, k)
  {
    seq(|ops|, k requires 0 <= k < |ops| => StepOf(ops, k))
  }

  /** The register stores of each operation. */
  ghost function EmissionsOf(ops: seq<Op>): (ps: seq<seq<Store>>)
    requires Legal(ops)
    ensures |ps| == |ops| && forall k :: 0 <= k < |ops| ==> ps[k] == Emission(StepOf(ops, k))
  {
    Emissions(ScheduleOf(ops))
  }

  lemma ScheduleSound(ops: seq<Op>)
    requires Legal(ops)
    ensures Sound(ScheduleOf(ops))
  {
    var sch := ScheduleOf(ops);
    forall k | 0 <= k < |sch| && sch[k].Switch?
      ensures MapInv(sch[k].target)
    {
      assert sch[k] == StepOf(ops, k);
      BuilderExact(Requests(ops, k), Request(0, 0, 0, false, 0));
    }
  }

  /** What a request asks for: privileged code may read and fetch, and write if asked to be
      writable; unprivileged code gets the same (0), reads and fetches only (1), or
      nothing. */
  predicate RequestPermits(q: Request, a: Attempt) {
    if a.privileged || q.unpriv == 0 then a.kind != Write || q.writable
    else q.unpriv == 1 && a.kind != Write
  }

  /** Some request granted to partition `p` covers the address and permits the access. */
  ghost predicate WasGranted(qs: seq<Request>, p: nat, a: Attempt)
    requires p < MAX_PARTITIONS
  {
    exists k :: 0 <= k < |GrantsOf(qs)[p]|
      && Within(GrantsOf(qs)[p][k].base, GrantsOf(qs)[p][k].size, a.addr)
      && RequestPermits(GrantsOf(qs)[p][k], a)
  }

  lemma MapPermitsIsGranted(qs: seq<Request>, p: nat, a: Attempt)
    requires p < MAX_PARTITIONS
    ensures MapPermits(Part(Build(qs), p), a) <==> WasGranted(qs, p, a)
  {
    BuilderExact(qs, Request(0, 0, 0, false, 0));
    var m, g := Part(Build(qs), p), GrantsOf(qs)[p];
    assert Lists(m, g);
    if r :| 0 <= r < MAX_REGIONS && Contains(m[r], a.addr) && SlotPermits(m[r], a) {
      assert m[r] == Granted(g[r]);
    }
    if k :| 0 <= k < |g| && Within(g[k].base, g[k].size, a.addr) && RequestPermits(g[k], a) {
      assert m[k] == Granted(g[k]) && Contains(m[k], a.addr);
    }
  }

  /** Exactly the accesses permitted by some request granted to the partition of
      switch `k` before that switch. */
  ghost predicate EnforcesGrants(hw: Mpu, ops: seq<Op>, k: nat)
    requires hw.Shape() && Legal(ops) && k < |ops| && ops[k].SwitchTo?
  {
    forall a: Attempt :: a in Allowed(hw) <==> WasGranted(Requests(ops, k), ops[k].part, a)
  }

  /** Isolation, end to end: from any register file with the unit off, after any
      interleaving of region requests and partition switches, at every single
      register store: the unit is on exactly after the last store of a switch `k`,
      and then an access is let through exactly when a request granted to that
      switch's partition before it covers the address and permits the access. */
  lemma OnlyGrantedAccess(hw: Mpu, ops: seq<Op>, j: nat)
    requires hw.Shape() && !hw.Enabled() && Legal(ops) && j <= |Stream(EmissionsOf(ops), |ops|)|
    ensures var hw', k := ApplyAll(hw, Stream(EmissionsOf(ops), |ops|)[..j]), EndingAt(EmissionsOf(ops), |ops|, j);
      && (hw'.Enabled() <==> k.Some?)
      && (k.Some? ==> ops[k.value].SwitchTo? && EnforcesGrants(hw', ops, k.value))
  {
    var sch := ScheduleOf(ops);
    ScheduleSound(ops);
    NeverMixed(hw, sch, j);
    match EndingAt(EmissionsOf(ops), |ops|, j)
    case None =>
    case Some(k) =>
      assert sch[k] == StepOf(ops, k);
      forall a: Attempt
        ensures a in Permitted(MapAt(ops, k)) <==> WasGranted(Requests(ops, k), ops[k].part, a)
      {
        MapPermitsIsGranted(Requests(ops, k), ops[k].part, a);
      }
  }

  lemma RequestsStep(ops: seq<Op>, k: nat)
    requires k < |ops|
    ensures Build(Requests(ops, k + 1)) ==
      if ops[k].Grant? then TryAdd(Build(Requests(ops, k)), ops[k].q) else Build(Requests(ops, k))
  {
    if ops[k].Grant? {
      var qs := Requests(ops, k);
      assert Requests(ops, k + 1)[..|qs|] == qs;
    }
  }

  lemma StreamStep(hw: Mpu, ops: seq<Op>, k: nat)
    requires hw.Shape() && Legal(ops) && k < |ops|
    ensures ApplyAll(hw, Stream(EmissionsOf(ops), k + 1)) ==
      if ops[k].Grant? then ApplyAll(hw, Stream(EmissionsOf(ops), k))
      else ApplyAll(ApplyAll(hw, Stream(EmissionsOf(ops), k)), ProgramStores(MapAt(ops, k)))
  {
    var ps := EmissionsOf(ops);
    assert ps[k] == Emission(StepOf(ops, k));
    ApplyAppend(hw, Stream(ps, k), ps[k]);
    if ops[k].Grant? {
      assert Stream(ps, k + 1) == Stream(ps, k);
    }
  }

  /** Table and registers are what the first `k` operations make of them. */
  ghost predicate Reached(regions: Regions, dev: Device, hw: Mpu, ops: seq<Op>, k: nat)
    requires hw.Shape() && Legal(ops) && k <= |ops|
    reads regions, regions.base, regions.size, regions.enabled, regions.writable, regions.unpriv, dev
  {
    && regions.Valid() && regions.View() == Build(Requests(ops, k))
    && dev.regs.Shape() && dev.regs == ApplyAll(hw, Stream(EmissionsOf(ops), k))
  }

  method PerformGrant(regions: Regions, dev: Device, ghost hw: Mpu, ops: seq<Op>, k: nat)
    requires hw.Shape() && Legal(ops) && k < |ops| && ops[k].Grant? && Reached(regions, dev, hw, ops, k)
    modifies regions.base, regions.size, regions.enabled, regions.writable, regions.unpriv
    ensures Reached(regions, dev, hw, ops, k + 1)
  {
    RequestsStep(ops, k);
    StreamStep(hw, ops, k);
    var _ := regions.TryAddRegionPerm(ops[k].q);
  }

  method PerformSwitch(regions: Regions, dev: Device, ghost hw: Mpu, ops: seq<Op>, k: nat)
    requires hw.Shape() && Legal(ops) && k < |ops| && ops[k].SwitchTo? && Reached(regions, dev, hw, ops, k)
    modifies dev
    ensures Reached(regions, dev, hw, ops, k + 1)
  {
    RequestsStep(ops, k);
    StreamStep(hw, ops, k);
    SwitchToPartition(regions, dev, ops[k].part);
  }

  method PerformOne(regions: Regions, dev: Device, ghost hw: Mpu, ops: seq<Op>, k: nat)
    requires hw.Shape() && Legal(ops) && k < |ops| && Reached(regions, dev, hw, ops, k)
    modifies dev, regions.base, regions.size, regions.enabled, regions.writable, regions.unpriv
    ensures Reached(regions, dev, hw, ops, k + 1)
  {
    match ops[k] {
      case Grant(_) => PerformGrant(regions, dev, hw, ops, k);
      case SwitchTo(_) => PerformSwitch(regions, dev, hw, ops, k);
    }
  }

  /** The objects, driven through the same operations, make the same stores. */
  method Perform(regions: Regions, dev: Device, ops: seq<Op>)
    requires regions.Valid() && regions.View() == EmptyTable() && dev.regs.Shape() && Legal(ops)
    modifies dev, regions.base, regions.size, regions.enabled, regions.writable, regions.unpriv
    ensures regions.Valid() && regions.View() == Build(Requests(ops, |ops|))
    ensures dev.regs.Shape() && dev.regs == ApplyAll(old(dev.regs), Stream(EmissionsOf(ops), |ops|))
  {
    ghost var hw := dev.regs;
    var k := 0;
    while k < |ops|
      invariant k <= |ops|
      invariant Reached(regions, dev, hw, ops, k)
    {
      PerformOne(regions, dev, hw, ops, k);
      k := k + 1;
    }
  }
}
