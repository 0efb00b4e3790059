/** The ARMv7-M PMSAv7 memory protection unit as a register machine (section B3.5
    of the ARMv7-M Architecture Reference Manual), and what a register file means. */
module MpuMachine {
  import opened Words
  import opened Binary
  import opened MpuRegions

  datatype Mpu = Mpu(ctrl: u32, rnr: u32, rbar: seq<u32>, rasr: seq<u32>)
  {
    predicate Shape() {
      |rbar| == MAX_REGIONS && |rasr| == MAX_REGIONS
    }

    /** MPU_CTRL.ENABLE. */
    predicate Enabled() {
      ctrl % 2 == 1
    }

    /** MPU_CTRL.PRIVDEFENA: privileged code falls back on the default map. */
    predicate Background() {
      (ctrl / 4) % 2 == 1
    }
  }

  /** One store to one MPU register. */
  datatype Store = StCtrl(v: u32) | StRnr(v: u32) | StRbar(v: u32) | StRasr(v: u32)

  /** A store to RBAR with its VALID bit (bit 4) set selects the region by its low
      four bits and overrides RNR; a store that selects a region the unit does not
      have changes no region. */
  function Apply(m: Mpu, st: Store): (m': Mpu)
    requires m.Shape()
    ensures m'.Shape()
  {
    match st
    case StCtrl(v) => m.(ctrl := v)
    case StRnr(v) => m.(rnr := v)
    case StRbar(v) =>
      var n := if (v / 16) % 2 == 1 then v % 16 else m.rnr;
      if n < MAX_REGIONS then m.(rnr := n, rbar := m.rbar[n := v]) else m.(rnr := n)
    case StRasr(v) => if m.rnr < MAX_REGIONS then m.(rasr := m.rasr[m.rnr := v]) else m
  }

  function ApplyAll(m: Mpu, sts: seq<Store>): (m': Mpu)
    requires m.Shape()
    ensures m'.Shape()
    decreases |sts|
  {
    if sts == [] then m else ApplyAll(Apply(m, sts[0]), sts[1..])
  }

  lemma {:induction false} ApplyAppend(m: Mpu, s1: seq<Store>, s2: seq<Store>)
    requires m.Shape()
    ensures ApplyAll(m, s1 + s2) == ApplyAll(ApplyAll(m, s1), s2)
    decreases |s1|
  {
    if s1 == [] {
      assert s1 + s2 == s2;
    } else {
      assert (s1 + s2)[1..] == s1[1..] + s2;
      ApplyAppend(Apply(m, s1[0]), s1[1..], s2);
    }
  }

  // ---------------------------------------------------------------------------
  // Meaning of a region register pair
  // ---------------------------------------------------------------------------

  function SizeBits(rasr: u32): nat { (rasr / 2) % 32 }
  function SubregionBits(rasr: u32): nat { (rasr / 0x100) % 0x100 }
  function AttributeBits(rasr: u32): nat { (rasr / 0x1_0000) % 0x40 }
  function AccessBits(rasr: u32): nat { (rasr / 0x100_0000) % 8 }
  function ExecuteNever(rasr: u32): bool { (rasr / 0x1000_0000) % 2 == 1 }

  function Extent(rasr: u32): (n: nat)
    ensures n > 0
  {
    Pow2(SizeBits(rasr) + 1)
  }

  function Quotient(a: nat, d: nat): nat
    requires d > 0
  {
    a / d
  }

  /** The number of the eighth of an `n`-byte region that `addr` lies in. */
  function Eighth(addr: u32, n: nat): nat
    requires n >= 256
  {
    Quotient(addr % n, n / 8)
  }

  /** From 256 bytes up, each eighth of a region can be switched off. */
  predicate SubregionOff(rasr: u32, addr: u32) {
    var n := Extent(rasr);
    n >= 256 && (SubregionBits(rasr) / Pow2(Eighth(addr, n))) % 2 == 1
  }

  /** An enabled region matches the addresses that agree with RBAR above SIZE. */
  predicate Hit(rbar: u32, rasr: u32, addr: u32) {
    && rasr % 2 == 1
    && addr / Extent(rasr) == (rbar / 32 * 32) / Extent(rasr)
    && !SubregionOff(rasr, addr)
  }

  /** Of several matching regions the highest-numbered one decides; below `n`. */
  function Matching(m: Mpu, addr: u32, n: nat): (r: Option<nat>)
    requires m.Shape() && n <= MAX_REGIONS
    ensures r.Some? ==> r.value < n && Hit(m.rbar[r.value], m.rasr[r.value], addr)
    ensures r.None? ==> forall k :: 0 <= k < n ==> !Hit(m.rbar[k], m.rasr[k], addr)
  {
    if n == 0 then None
    else if Hit(m.rbar[n - 1], m.rasr[n - 1], addr) then Some(n - 1)
    else Matching(m, addr, n - 1)
  }

  datatype Access = Read | Write | Fetch

  /** One attempted access. */
  datatype Attempt = Attempt(addr: u32, privileged: bool, kind: Access)

  /** The AP encodings. */
  predicate ApPermits(ap: nat, privileged: bool, write: bool) {
    match ap
    case 1 => privileged
    case 2 => privileged || !write
    case 3 => true
    case 5 => privileged && !write
    case 6 => !write
    case 7 => !write
    case _ => false
  }

  predicate RegionPermits(rasr: u32, a: Attempt) {
    ApPermits(AccessBits(rasr), a.privileged, a.kind == Write) && (a.kind == Fetch ==> !ExecuteNever(rasr))
  }

  /** Does the unit let this access through? */
  predicate Allows(m: Mpu, a: Attempt)
    requires m.Shape()
  {
    if !m.Enabled() then true
    else match Matching(m, a.addr, MAX_REGIONS)
      case Some(n) => RegionPermits(m.rasr[n], a)
      case None => a.privileged && m.Background()
  }

  /** The meaning of a register file: the accesses it lets through. */
  ghost function Allowed(m: Mpu): iset<Attempt>
    requires m.Shape()
  {
    iset a: Attempt | Allows(m, a)
  }
}

/** Program-on-switch (src/mpu_switch.rs): one partition's slots compiled into a
    register-write sequence. */
module MpuProgram {
  import opened Words
  import opened Binary
  import opened MpuRegions
  import opened RegionTable
  import opened MpuMachine

  const SEQ_LEN: nat := 10
  const MPU_CTRL_ID: u32 := 0xFFFF_FFFF
  const MPU_CTRL_ENABLE: u32 := 1
  const MPU_CTRL_DISABLE: u32 := 0

  datatype MpuWrite = MpuWrite(rnr: u32, rbar: u32, rasr: u32)

  function SizeField(size: u32): u32 {
    if size == 32 then 4
    else if size == 64 then 5
    else if size == 128 then 6
    else if size == 256 then 7
    else if size == 512 then 8
    else if size == 1024 then 9
    else if size == 2048 then 10
    else if size == 4096 then 11
    else if size == 8192 then 12
    else if size == 16384 then 13
    else if size == 32768 then 14
    else if size == 65536 then 15
    else if size == 131072 then 16
    else if size == 262144 then 17
    else if size == 524288 then 18
    else if size == 1048576 then 19
    else if size == 2097152 then 20
    else if size == 4194304 then 21
    else if size == 8388608 then 22
    else if size == 16777216 then 23
    else if size == 33554432 then 24
    else if size == 67108864 then 25
    else if size == 134217728 then 26
    else if size == 268435456 then 27
    else if size == 536870912 then 28
    else if size == 1073741824 then 29
    else if size == 2147483648 then 30
    else 0
  }

  lemma Pow2Table()
    ensures Pow2(5) == 32 && Pow2(6) == 64 && Pow2(7) == 128 && Pow2(8) == 256 && Pow2(9) == 512
    ensures Pow2(10) == 1024 && Pow2(11) == 2048 && Pow2(12) == 4096 && Pow2(13) == 8192 && Pow2(14) == 16384
    ensures Pow2(15) == 32768 && Pow2(16) == 65536 && Pow2(17) == 131072 && Pow2(18) == 262144
    ensures Pow2(19) == 524288 && Pow2(20) == 1048576 && Pow2(21) == 2097152 && Pow2(22) == 4194304
    ensures Pow2(23) == 8388608 && Pow2(24) == 16777216 && Pow2(25) == 33554432 && Pow2(26) == 67108864
    ensures Pow2(27) == 134217728 && Pow2(28) == 268435456 && Pow2(29) == 536870912
    ensures Pow2(30) == 1073741824 && Pow2(31) == 2147483648 && Pow2(32) == 0x1_0000_0000
  {
  }

  /** The SIZE field of a well-formed size names exactly that size. */
  lemma SizeFieldExact(size: u32)
    requires IsPow2(size) && size >= MIN_REGION_SIZE
    ensures 4 <= SizeField(size) <= 30 && Pow2(SizeField(size) + 1) == size
  {
    var k: nat :| size == Pow2(k);
    Pow2Table();
    if k > 31 {
      Pow2Monotone(32, k);
      assert false;
    }
  }

  function ApField(writable: bool, unpriv: u32): (ap: u32)
    ensures 1 <= ap <= 6
  {
    if unpriv == UNPRIV_NONE then if writable then 1 else 5
    else if unpriv == UNPRIV_RO then 2
    else if writable then 3 else 6
  }

  function RasrFor(size: u32, writable: bool, unpriv: u32): u32
    requires SizeField(size) <= 30
  {
    1 + 2 * SizeField(size) + 0x0100_0000 * ApField(writable, unpriv)
  }

  lemma SizeFieldBound(size: u32)
    ensures SizeField(size) <= 30
  {
  }

  /** The fields of an emitted RASR read back, and every other field is zero. */
  lemma RasrFields(size: u32, writable: bool, unpriv: u32)
    requires SizeField(size) <= 30
    ensures var v := RasrFor(size, writable, unpriv);
      && v % 2 == 1 && SizeBits(v) == SizeField(size) && AccessBits(v) == ApField(writable, unpriv)
      && SubregionBits(v) == 0 && AttributeBits(v) == 0 && !ExecuteNever(v)
  {
    var f, ap := SizeField(size), ApField(writable, unpriv);
    var v := RasrFor(size, writable, unpriv);
    assert v / 2 == f + 0x80_0000 * ap;
    assert v / 0x100 == 0x1_0000 * ap;
    assert v / 0x1_0000 == 0x100 * ap;
    assert v / 0x100_0000 == ap;
  }

  function SlotWrite(s: Slot, r: nat): MpuWrite
    requires r < MAX_REGIONS
  {
    SizeFieldBound(s.size);
    if s.enabled then MpuWrite(r, s.base, RasrFor(s.size, s.writable, s.unpriv)) else MpuWrite(r, 0, 0)
  }

  const DISABLE_WRITE: MpuWrite := MpuWrite(MPU_CTRL_ID, 0, MPU_CTRL_DISABLE)
  const ENABLE_WRITE: MpuWrite := MpuWrite(MPU_CTRL_ID, 0, MPU_CTRL_ENABLE)

  /** The register writes of slots `r..`. */
  function SlotWrites(m: RegionMap, r: nat): (ws: seq<MpuWrite>)
    requires r <= MAX_REGIONS
    ensures |ws| == MAX_REGIONS - r
    ensures forall k :: 0 <= k < |ws| ==> ws[k] == SlotWrite(m[r + k], r + k)
    decreases MAX_REGIONS - r
  {
    if r == MAX_REGIONS then [] else [SlotWrite(m[r], r)] + SlotWrites(m, r + 1)
  }

  function Program(m: RegionMap): (ws: seq<MpuWrite>)
    ensures |ws| == SEQ_LEN && ws[0] == DISABLE_WRITE && ws[SEQ_LEN - 1] == ENABLE_WRITE
    ensures forall p :: 1 <= p <= MAX_REGIONS ==> ws[p] == SlotWrite(m[p - 1], p - 1)
  {
    [DISABLE_WRITE] + SlotWrites(m, 0) + [ENABLE_WRITE]
  }

  /** Encode flat slot `i` as the write to hardware region `r`. */
  method EncodeSlot(regions: Regions, i: nat, r: nat) returns (w: MpuWrite)
    requires regions.Arrays() && i < TABLE_SLOTS && r < MAX_REGIONS
    ensures w == SlotWrite(regions.View()[i], r)
  {
    if regions.enabled[i] {
      SizeFieldBound(regions.size[i]);
      w := MpuWrite(r, regions.base[i], RasrFor(regions.size[i], regions.writable[i], regions.unpriv[i]));
    } else {
      w := MpuWrite(r, 0, 0);
    }
  }

  /** Compute the sequence for a switch to `part`. */
  method ProgramPartition(regions: Regions, part: u32) returns (out: seq<MpuWrite>)
    requires regions.Valid() && part < MAX_PARTITIONS
    ensures out == Program(Part(regions.View(), part))
  {
    ghost var ws := Program(Part(regions.View(), part));
    var w := seq(SEQ_LEN, _ => MpuWrite(0, 0, 0));
    w := w[0 := DISABLE_WRITE];
    var r := 0;
    while r < MAX_REGIONS
      invariant r <= MAX_REGIONS && |w| == SEQ_LEN
      invariant forall p :: 0 <= p <= r ==> w[p] == ws[p]
    {
      var write := EncodeSlot(regions, part * MAX_REGIONS + r, r);
      assert ws[r + 1] == write;
      w := w[r + 1 := write];
      r := r + 1;
    }
    out := w[MAX_REGIONS + 1 := ENABLE_WRITE];
  }

  // ---------------------------------------------------------------------------
  // Emission: one triple is three register stores, or one to MPU_CTRL
  // ---------------------------------------------------------------------------

  function Stores(w: MpuWrite): seq<Store> {
    if w.rnr == MPU_CTRL_ID then [StCtrl(w.rasr)] else [StRnr(w.rnr), StRbar(w.rbar), StRasr(w.rasr)]
  }

  function AllStores(ws: seq<MpuWrite>): seq<Store> {
    if ws == [] then [] else Stores(ws[0]) + AllStores(ws[1..])
  }

  /** A region base keeps RBAR's VALID bit clear, so RNR is never overridden. */
  lemma BaseIsPlainRbar(base: u32, size: u32)
    requires WellFormed(base, size)
    ensures base % 32 == 0 && base / 32 * 32 == base && (base / 16) % 2 == 0
  {
    Pow2Table();
    assert IsPow2(32);
    var c := PowersDivide(32, size);
    var q := Multiple(base, size);
    assert base == (q * c) * 32;
    RemainderUnique(base, 32, q * c, 0);
  }

  /** A write to hardware region `r` whose RBAR value does not override RNR. */
  predicate Plain(w: MpuWrite, r: nat) {
    w.rnr == r < MAX_REGIONS && (w.rbar / 16) % 2 == 0
  }

  lemma SlotWritePlain(s: Slot, r: nat)
    requires SlotWf(s) && r < MAX_REGIONS
    ensures Plain(SlotWrite(s, r), r)
  {
    if s.enabled {
      BaseIsPlainRbar(s.base, s.size);
    }
  }

  /** The three stores of a plain write set one register pair and nothing else. */
  lemma PlainStores(hw: Mpu, w: MpuWrite, r: nat)
    requires hw.Shape() && Plain(w, r)
    ensures ApplyAll(hw, Stores(w)) == hw.(rnr := r, rbar := hw.rbar[r := w.rbar], rasr := hw.rasr[r := w.rasr])
  {
    var hw1 := Apply(hw, StRnr(r));
    var hw2 := Apply(hw1, StRbar(w.rbar));
    var hw3 := Apply(hw2, StRasr(w.rasr));
    var sts := Stores(w);
    assert sts[1..] == [StRbar(w.rbar), StRasr(w.rasr)] && sts[1..][1..] == [StRasr(w.rasr)];
    assert sts[1..][1..][1..] == [];
    assert ApplyAll(hw2, sts[1..][1..]) == hw3;
    assert ApplyAll(hw1, sts[1..]) == hw3;
  }

  lemma {:induction false} AllStoresAppend(ws: seq<MpuWrite>, vs: seq<MpuWrite>)
    ensures AllStores(ws + vs) == AllStores(ws) + AllStores(vs)
    decreases |ws|
  {
    if ws == [] {
      assert ws + vs == vs;
    } else {
      assert (ws + vs)[1..] == ws[1..] + vs;
      AllStoresAppend(ws[1..], vs);
    }
  }

  /** Register pair `k` holds what slot `k` compiles to. */
  ghost predicate Holds(hw: Mpu, m: RegionMap, k: nat)
    requires hw.Shape() && k < MAX_REGIONS
  {
    hw.rbar[k] == SlotWrite(m[k], k).rbar && hw.rasr[k] == SlotWrite(m[k], k).rasr
  }

  /** Plain writes to regions `r..` set exactly those register pairs. */
  lemma {:induction false} WritesInstalled(hw: Mpu, ws: seq<MpuWrite>, r: nat)
    requires hw.Shape() && r + |ws| == MAX_REGIONS
    requires forall k :: 0 <= k < |ws| ==> Plain(ws[k], r + k)
    ensures var hw' := ApplyAll(hw, AllStores(ws));
      && hw'.ctrl == hw.ctrl
      && (forall k :: 0 <= k < r ==> hw'.rbar[k] == hw.rbar[k] && hw'.rasr[k] == hw.rasr[k])
      && (forall k :: r <= k < MAX_REGIONS ==> hw'.rbar[k] == ws[k - r].rbar && hw'.rasr[k] == ws[k - r].rasr)
    decreases |ws|
  {
    if ws != [] {
      assert Plain(ws[0], r + 0);
      PlainStores(hw, ws[0], r);
      ApplyAppend(hw, Stores(ws[0]), AllStores(ws[1..]));
      forall k | 0 <= k < |ws[1..]| ensures Plain(ws[1..][k], r + 1 + k) {
        assert Plain(ws[k + 1], r + (k + 1));
      }
      WritesInstalled(ApplyAll(hw, Stores(ws[0])), ws[1..], r + 1);
    }
  }

  lemma SlotsInstalled(hw: Mpu, m: RegionMap)
    requires hw.Shape() && MapInv(m)
    ensures var hw' := ApplyAll(hw, AllStores(SlotWrites(m, 0)));
      hw'.ctrl == hw.ctrl && forall k :: 0 <= k < MAX_REGIONS ==> Holds(hw', m, k)
  {
    var ws := SlotWrites(m, 0);
    forall k | 0 <= k < |ws| ensures Plain(ws[k], 0 + k) {
      assert ws[k] == SlotWrite(m[0 + k], 0 + k) && SlotWf(m[k]);
      SlotWritePlain(m[k], k);
    }
    WritesInstalled(hw, ws, 0);
    assert forall k :: 0 <= k < MAX_REGIONS ==> ws[k - 0] == ws[k] && ws[k] == SlotWrite(m[0 + k], 0 + k);
  }

  function ProgramStores(m: RegionMap): seq<Store> {
    [StCtrl(MPU_CTRL_DISABLE)] + AllStores(SlotWrites(m, 0)) + [StCtrl(MPU_CTRL_ENABLE)]
  }

  lemma AllStoresOne(w: MpuWrite)
    ensures AllStores([w]) == Stores(w)
  {
    assert [w][1..] == [];
    assert AllStores([w]) == Stores(w) + AllStores([w][1..]);
  }

  lemma ProgramStoresAre(m: RegionMap)
    ensures AllStores(Program(m)) == ProgramStores(m)
  {
    AllStoresAppend([DISABLE_WRITE] + SlotWrites(m, 0), [ENABLE_WRITE]);
    AllStoresAppend([DISABLE_WRITE], SlotWrites(m, 0));
    AllStoresOne(DISABLE_WRITE);
    AllStoresOne(ENABLE_WRITE);
  }

  // ---------------------------------------------------------------------------
  // What the installed registers mean
  // ---------------------------------------------------------------------------

  lemma AlignedBlock(addr: nat, base: nat, size: nat)
    requires size > 0 && base % size == 0
    ensures addr / size == base / size <==> base <= addr < base + size
  {
    var q := base / size;
    assert base == q * size;
    if addr / size == q {
      assert addr == q * size + addr % size;
    }
    if base <= addr < base + size {
      RemainderUnique(addr, size, q, addr - base);
    }
  }

  lemma ZeroDivided(d: nat)
    requires d > 0
    ensures 0 / d == 0
  {
  }

  lemma NoSubregion(rasr: u32, addr: u32)
    requires SubregionBits(rasr) == 0
    ensures !SubregionOff(rasr, addr)
  {
    var n := Extent(rasr);
    if n >= 256 {
      ZeroDivided(Pow2(Eighth(addr, n)));
    }
  }

  /** The compiled registers of a slot match exactly the slot's addresses. */
  lemma HitIsContains(s: Slot, r: nat, addr: u32)
    requires SlotWf(s) && r < MAX_REGIONS
    ensures Hit(SlotWrite(s, r).rbar, SlotWrite(s, r).rasr, addr) <==> Contains(s, addr)
  {
    if s.enabled {
      SizeFieldExact(s.size);
      RasrFields(s.size, s.writable, s.unpriv);
      BaseIsPlainRbar(s.base, s.size);
      AlignedBlock(addr, s.base, s.size);
      NoSubregion(SlotWrite(s, r).rasr, addr);
    }
  }

  /** What a slot was asked to grant: privileged code may always read and fetch and
      writes if the slot is writable; unprivileged code gets the same, read-only
      access, or nothing. */
  predicate SlotPermits(s: Slot, a: Attempt) {
    if a.privileged || s.unpriv == UNPRIV_SAME then a.kind == Write ==> s.writable
    else if s.unpriv == UNPRIV_RO then a.kind != Write
    else false
  }

  lemma CompiledPermits(s: Slot, r: nat, a: Attempt)
    requires s.enabled && SlotWf(s) && r < MAX_REGIONS
    ensures RegionPermits(SlotWrite(s, r).rasr, a) <==> SlotPermits(s, a)
  {
    SizeFieldBound(s.size);
    RasrFields(s.size, s.writable, s.unpriv);
  }

  ghost predicate MapPermits(m: RegionMap, a: Attempt) {
    exists r :: 0 <= r < MAX_REGIONS && Contains(m[r], a.addr) && SlotPermits(m[r], a)
  }

  /** The meaning of a partition's slots: the accesses they grant. */
  ghost function Permitted(m: RegionMap): iset<Attempt> {
    iset a: Attempt | MapPermits(m, a)
  }

  lemma InstalledRealizes(hw: Mpu, m: RegionMap)
    requires hw.Shape() && MapInv(m) && hw.ctrl == MPU_CTRL_ENABLE
    requires forall k :: 0 <= k < MAX_REGIONS ==> Holds(hw, m, k)
    ensures Allowed(hw) == Permitted(m)
  {
    forall a: Attempt ensures Allows(hw, a) <==> MapPermits(m, a) {
      forall k | 0 <= k < MAX_REGIONS
        ensures Hit(hw.rbar[k], hw.rasr[k], a.addr) <==> Contains(m[k], a.addr)
      {
        assert Holds(hw, m, k) && SlotWf(m[k]);
        HitIsContains(m[k], k, a.addr);
      }
      match Matching(hw, a.addr, MAX_REGIONS)
      case None =>
      case Some(n) =>
        assert Holds(hw, m, n) && SlotWf(m[n]) && Contains(m[n], a.addr);
        CompiledPermits(m[n], n, a);
        forall r | 0 <= r < MAX_REGIONS && Contains(m[r], a.addr) ensures r == n {
          CoversUnique(m, a.addr, r, n);
        }
    }
  }

  /** Compilation is correct: from every register file, however stale, emitting the
      program of a partition leaves a unit that enforces exactly its map. */
  lemma ProgramCorrect(hw: Mpu, m: RegionMap)
    requires hw.Shape() && MapInv(m)
    ensures var hw' := ApplyAll(hw, AllStores(Program(m)));
      hw'.Enabled() && Allowed(hw') == Permitted(m)
  {
    ProgramStoresAre(m);
    var body := AllStores(SlotWrites(m, 0));
    var off, on := [StCtrl(MPU_CTRL_DISABLE)], [StCtrl(MPU_CTRL_ENABLE)];
    ApplyAppend(hw, off + body, on);
    ApplyAppend(hw, off, body);
    var hw1 := ApplyAll(hw, off);
    SlotsInstalled(hw1, m);
    var hw2 := ApplyAll(hw1, body);
    var hw3 := ApplyAll(hw2, on);
    assert hw3 == hw2.(ctrl := MPU_CTRL_ENABLE);
    forall k | 0 <= k < MAX_REGIONS ensures Holds(hw3, m, k) {
      assert Holds(hw2, m, k);
    }
    InstalledRealizes(hw3, m);
  }
}
