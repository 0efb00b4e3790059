/** The per-partition region table and its builder (src/mpu_switch.rs). */
module RegionTable {
  import opened Words
  import opened Binary
  import opened MpuRegions

  const MAX_PARTITIONS: nat := 4
  const TABLE_SLOTS: nat := 32

  // The unprivileged-access axis beside `writable`, the privileged one.
  const UNPRIV_SAME: u32 := 0
  const UNPRIV_RO: u32 := 1
  const UNPRIV_NONE: u32 := 2
  const UNPRIV_MAX: u32 := 3

  datatype Slot = Slot(base: u32, size: u32, enabled: bool, writable: bool, unpriv: u32)

  const FREE: Slot := Slot(0, 0, false, false, UNPRIV_SAME)

  type RegionMap = m: seq<Slot> | |m| == MAX_REGIONS witness seq(MAX_REGIONS, _ => FREE)
  type Table = t: seq<Slot> | |t| == TABLE_SLOTS witness seq(TABLE_SLOTS, _ => FREE)

  /** Flat index of partition `p`'s slot `r`. */
  function SlotOf(p: nat, r: nat): (i: nat)
    requires p < MAX_PARTITIONS && r < MAX_REGIONS
    ensures i < TABLE_SLOTS
  {
    p * MAX_REGIONS + r
  }

  /** Partition `p`'s eight slots. */
  function Part(t: Table, p: nat): (m: RegionMap)
    requires p < MAX_PARTITIONS
    ensures forall r :: 0 <= r < MAX_REGIONS ==> m[r] == t[SlotOf(p, r)]
  {
    t[p * MAX_REGIONS..(p + 1) * MAX_REGIONS]
  }

  /** Writing one slot changes that slot of that partition and nothing else. */
  lemma PartUpdate(t: Table, p: nat, r: nat, s: Slot, p': nat)
    requires p < MAX_PARTITIONS && r < MAX_REGIONS && p' < MAX_PARTITIONS
    ensures Part(t[SlotOf(p, r) := s], p') == if p' == p then Part(t, p)[r := s] else Part(t, p')
  {
    var t' := t[SlotOf(p, r) := s];
    forall r' | 0 <= r' < MAX_REGIONS
      ensures Part(t', p')[r'] == if p' == p && r' == r then s else Part(t, p')[r']
    {
      assert SlotOf(p', r') == SlotOf(p, r) <==> p' == p && r' == r;
    }
  }

  predicate PermWf(writable: bool, unpriv: u32) {
    unpriv < UNPRIV_MAX && (unpriv == UNPRIV_RO ==> writable)
  }

  predicate Disjoint(b1: u32, s1: u32, b2: u32, s2: u32) {
    b1 + s1 <= b2 || b2 + s2 <= b1
  }

  /** For non-empty regions the comparison decides exactly whether an address is shared. */
  lemma DisjointIsNoSharedAddress(b1: u32, s1: u32, b2: u32, s2: u32)
    requires s1 > 0 && s2 > 0
    ensures Disjoint(b1, s1, b2, s2) <==> SharesNothing(b1, s1, b2, s2)
  {
    if !Disjoint(b1, s1, b2, s2) {
      var a := if b1 <= b2 then b2 else b1;
      assert Within(b1, s1, a) && Within(b2, s2, a);
    }
  }

  ghost predicate SlotWf(s: Slot) {
    s.enabled ==> WellFormed(s.base, s.size) && PermWf(s.writable, s.unpriv)
  }

  /** Every enabled slot is well-formed and no two of them share an address. */
  ghost predicate MapInv(m: RegionMap) {
    && (forall r :: 0 <= r < MAX_REGIONS ==> SlotWf(m[r]))
    && (forall r, q :: 0 <= r < q < MAX_REGIONS && m[r].enabled && m[q].enabled ==>
          Disjoint(m[r].base, m[r].size, m[q].base, m[q].size))
  }

  ghost predicate TableInv(t: Table) {
    forall p :: 0 <= p < MAX_PARTITIONS ==> MapInv(Part(t, p))
  }

  predicate Contains(s: Slot, addr: u32) {
    s.enabled && Within(s.base, s.size, addr)
  }

  ghost predicate Covers(m: RegionMap, addr: u32) {
    exists r :: 0 <= r < MAX_REGIONS && Contains(m[r], addr)
  }

  /** At most one slot of a map contains an address. */
  lemma CoversUnique(m: RegionMap, addr: u32, r: nat, q: nat)
    requires MapInv(m) && r < MAX_REGIONS && q < MAX_REGIONS
    requires Contains(m[r], addr) && Contains(m[q], addr)
    ensures r == q
  {
  }

  // ---------------------------------------------------------------------------
  // Region requests
  // ---------------------------------------------------------------------------

  datatype Request = Request(part: u32, base: u32, size: u32, writable: bool, unpriv: u32)

  function Granted(q: Request): Slot {
    Slot(q.base, q.size, true, q.writable, q.unpriv)
  }

  function FirstFree(m: seq<Slot>): (f: nat)
    ensures f <= |m|
    ensures f < |m| ==> !m[f].enabled
    ensures forall r :: 0 <= r < f ==> m[r].enabled
  {
    if m == [] || !m[0].enabled then 0 else 1 + FirstFree(m[1..])
  }

  ghost predicate MapAccepts(m: RegionMap, q: Request) {
    && (forall r :: 0 <= r < MAX_REGIONS && m[r].enabled ==> Disjoint(q.base, q.size, m[r].base, m[r].size))
    && FirstFree(m) < MAX_REGIONS
  }

  /** What the gates of the builder let through. */
  ghost predicate Accepts(t: Table, q: Request) {
    && q.part < MAX_PARTITIONS
    && PermWf(q.writable, q.unpriv)
    && WellFormed(q.base, q.size)
    && MapAccepts(Part(t, q.part), q)
  }

  ghost function TryAdd(t: Table, q: Request): Table {
    if Accepts(t, q) then t[SlotOf(q.part, FirstFree(Part(t, q.part))) := Granted(q)] else t
  }

  function EmptyTable(): Table {
    seq(TABLE_SLOTS, _ => FREE)
  }

  lemma EmptyInv()
    ensures TableInv(EmptyTable())
  {
  }

  /** The gates that look at the request alone. */
  method RequestWf(q: Request) returns (ok: bool)
    ensures ok <==>
      q.part < MAX_PARTITIONS && PermWf(q.writable, q.unpriv) && WellFormed(q.base, q.size)
  {
    if q.part >= MAX_PARTITIONS {
      return false;
    }
    if q.unpriv >= UNPRIV_MAX {
      return false;
    }
    if q.unpriv == UNPRIV_RO && !q.writable {
      return false;
    }
    if q.size > 0 {
      ClearLowestOne(q.size);
    }
    if !IsPowerOfTwo(q.size) {
      return false;
    }
    if q.size < MIN_REGION_SIZE {
      return false;
    }
    if q.base % q.size != 0 {
      return false;
    }
    if q.base + q.size > U32_MAX {
      return false;
    }
    ok := true;
  }

  lemma MapAddKeepsInv(m: RegionMap, q: Request)
    requires MapInv(m) && PermWf(q.writable, q.unpriv) && WellFormed(q.base, q.size) && MapAccepts(m, q)
    ensures MapInv(m[FirstFree(m) := Granted(q)])
  {
  }

  lemma TryAddKeepsInv(t: Table, q: Request)
    requires TableInv(t)
    ensures TableInv(TryAdd(t, q))
  {
    if Accepts(t, q) {
      var m := Part(t, q.part);
      MapAddKeepsInv(m, q);
      forall p | 0 <= p < MAX_PARTITIONS ensures MapInv(Part(TryAdd(t, q), p)) {
        PartUpdate(t, q.part, FirstFree(m), Granted(q), p);
      }
    }
  }

  lemma DisjointFromMap(m: RegionMap, q: Request)
    requires MapInv(m)
    ensures q.size > 0 ==> forall r :: 0 <= r < MAX_REGIONS && m[r].enabled ==>
      (Disjoint(q.base, q.size, m[r].base, m[r].size) <==> SharesNothing(q.base, q.size, m[r].base, m[r].size))
  {
    if q.size > 0 {
      forall r | 0 <= r < MAX_REGIONS && m[r].enabled
        ensures Disjoint(q.base, q.size, m[r].base, m[r].size) <==> SharesNothing(q.base, q.size, m[r].base, m[r].size)
      {
        assert SlotWf(m[r]);
        DisjointIsNoSharedAddress(q.base, q.size, m[r].base, m[r].size);
      }
    }
  }

  // ---------------------------------------------------------------------------
  // The table object: five flat columns
  // ---------------------------------------------------------------------------

  datatype Columns = Columns(
    base: seq<u32>, size: seq<u32>, enabled: seq<bool>, writable: seq<bool>, unpriv: seq<u32>)
  {
    predicate Shape() {
      && |base| == TABLE_SLOTS && |size| == TABLE_SLOTS && |enabled| == TABLE_SLOTS
      && |writable| == TABLE_SLOTS && |unpriv| == TABLE_SLOTS
    }

    function View(): (t: Table)
      requires Shape()
      ensures forall i :: 0 <= i < TABLE_SLOTS ==>
        t[i] == Slot(base[i], size[i], enabled[i], writable[i], unpriv[i])
    {
      seq(TABLE_SLOTS, i requires 0 <= i < TABLE_SLOTS =>
        Slot(base[i], size[i], enabled[i], writable[i], unpriv[i]))
    }

    function Update(i: nat, s: Slot): (c: Columns)
      requires Shape() && i < TABLE_SLOTS
      ensures c.Shape() && c.View() == View()[i := s]
    {
      Columns(base[i := s.base], size[i := s.size], enabled[i := s.enabled],
              writable[i := s.writable], unpriv[i := s.unpriv])
    }
  }

  class Regions {
    const base: array<u32>
    const size: array<u32>
    const enabled: array<bool>
    const writable: array<bool>
    const unpriv: array<u32>

    ghost function Cols(): Columns
      reads base, size, enabled, writable, unpriv
    {
      Columns(base[..], size[..], enabled[..], writable[..], unpriv[..])
    }

    ghost predicate Arrays()
      reads base, size, enabled, writable, unpriv
    {
      Cols().Shape() && base != size && base != unpriv && size != unpriv && enabled != writable
    }

    ghost function View(): Table
      requires Arrays()
      reads base, size, enabled, writable, unpriv
    {
      Cols().View()
    }

    ghost predicate Valid()
      reads base, size, enabled, writable, unpriv
    {
      Arrays() && TableInv(View())
    }

    constructor ()
      ensures Valid() && fresh(base) && fresh(size) && fresh(enabled) && fresh(writable) && fresh(unpriv)
      ensures View() == EmptyTable()
    {
      base := new u32[TABLE_SLOTS](_ => 0);
      size := new u32[TABLE_SLOTS](_ => 0);
      enabled := new bool[TABLE_SLOTS](_ => false);
      writable := new bool[TABLE_SLOTS](_ => false);
      unpriv := new u32[TABLE_SLOTS](_ => UNPRIV_SAME);
      new;
      EmptyInv();
      assert View() == EmptyTable();
    }

    method CoversAddr(part: u32, addr: u32) returns (b: bool)
      requires Arrays() && part < MAX_PARTITIONS
      ensures b <==> Covers(Part(View(), part), addr)
    {
      ghost var m := Part(View(), part);
      var r := 0;
      while r < MAX_REGIONS
        invariant r <= MAX_REGIONS
        invariant forall q :: 0 <= q < r ==> !Contains(m[q], addr)
      {
        var i := part * MAX_REGIONS + r;
        assert m[r] == View()[i];
        if enabled[i] && base[i] <= addr && addr - base[i] < size[i] {
          assert Contains(m[r], addr);
          return true;
        }
        r := r + 1;
      }
      b := false;
    }

    /** Gate 2: the request overlaps nothing already granted to its partition. */
    method DisjointFromGrants(q: Request) returns (ok: bool)
      requires Valid() && q.part < MAX_PARTITIONS && q.base + q.size <= U32_MAX
      ensures var m := Part(View(), q.part);
        ok <==> forall r :: 0 <= r < MAX_REGIONS && m[r].enabled ==>
          Disjoint(q.base, q.size, m[r].base, m[r].size)
    {
      ghost var m := Part(View(), q.part);
      assert MapInv(m);
      var r := 0;
      while r < MAX_REGIONS
        invariant r <= MAX_REGIONS
        invariant forall k :: 0 <= k < r && m[k].enabled ==> Disjoint(q.base, q.size, m[k].base, m[k].size)
      {
        var i := q.part * MAX_REGIONS + r;
        assert m[r] == View()[i] && SlotWf(m[r]);
        if enabled[i] {
          var end: u32, endOld: u32 := q.base + q.size, base[i] + size[i];
          if !(end <= base[i] || endOld <= q.base) {
            return false;
          }
        }
        r := r + 1;
      }
      ok := true;
    }

    /** Gate 3: the first free slot of the partition, if any. */
    method FindFree(part: u32) returns (f: nat)
      requires Arrays() && part < MAX_PARTITIONS
      ensures f == FirstFree(Part(View(), part))
    {
      ghost var m := Part(View(), part);
      f := 0;
      while f < MAX_REGIONS
        invariant f <= MAX_REGIONS
        invariant forall k :: 0 <= k < f ==> m[k].enabled
      {
        var i := part * MAX_REGIONS + f;
        assert m[f] == View()[i];
        if !enabled[i] {
          return;
        }
        f := f + 1;
      }
    }

    /** Fill slot `i` of every column. */
    method Write(i: nat, q: Request)
      requires Arrays() && i < TABLE_SLOTS
      modifies base, size, enabled, writable, unpriv
      ensures Arrays() && Cols() == old(Cols()).Update(i, Granted(q))
    {
      base[i] := q.base;
      size[i] := q.size;
      writable[i] := q.writable;
      unpriv[i] := q.unpriv;
      enabled[i] := true;
    }

    /** Add a region to the first free slot of its partition. */
    method TryAddRegionPerm(q: Request) returns (ok: bool)
      requires Valid()
      modifies base, size, enabled, writable, unpriv
      ensures Valid() && ok == Accepts(old(View()), q) && View() == TryAdd(old(View()), q)
    {
      ok := RequestWf(q);
      if ok {
        ok := DisjointFromGrants(q);
      }
      if !ok {
        return;
      }
      TryAddKeepsInv(View(), q);
      var f := FindFree(q.part);
      ok := f < MAX_REGIONS;
      if ok {
        Write(q.part * MAX_REGIONS + f, q);
      }
    }
  }
}

/** Every sequence of requests on a fresh table, against the list of what was
    granted. */
module RegionGrants {
  import opened Words
  import opened Binary
  import opened MpuRegions
  import opened RegionTable

  /** What has been granted to each partition, oldest first. */
  type Grants = g: seq<seq<Request>> | |g| == MAX_PARTITIONS witness [[], [], [], []]

  /** The rule a caller can read off, in numbers: one of four partitions; a power-of-two
      size of at least 32, an aligned base, an end below 4 GiB; unprivileged access the
      same, none, or read-only of a writable region; no address shared with anything
      granted to the partition; and fewer than eight grants so far. */
  ghost predicate Admits(g: Grants, q: Request) {
    && q.part < 4
    && IsPow2(q.size) && q.size >= 32 && q.base % q.size == 0 && q.base + q.size < 0x1_0000_0000
    && (q.unpriv == 0 || q.unpriv == 2 || (q.unpriv == 1 && q.writable))
    && (forall k :: 0 <= k < |g[q.part]| ==> SharesNothing(q.base, q.size, g[q.part][k].base, g[q.part][k].size))
    && |g[q.part]| < 8
  }

  ghost function Admit(g: Grants, q: Request): Grants {
    if Admits(g, q) then g[q.part := g[q.part] + [q]] else g
  }

  ghost function GrantsOf(qs: seq<Request>): Grants {
    if qs == [] then [[], [], [], []] else Admit(GrantsOf(qs[..|qs| - 1]), qs[|qs| - 1])
  }

  ghost function Build(qs: seq<Request>): Table {
    if qs == [] then EmptyTable() else TryAdd(Build(qs[..|qs| - 1]), qs[|qs| - 1])
  }

  /** The grants in the first slots, in order, and nothing after them. */
  ghost predicate Lists(m: RegionMap, g: seq<Request>) {
    && |g| <= MAX_REGIONS
    && forall r :: 0 <= r < MAX_REGIONS ==> m[r] == if r < |g| then Granted(g[r]) else FREE
  }

  ghost predicate Represents(t: Table, g: Grants) {
    forall p :: 0 <= p < MAX_PARTITIONS ==> Lists(Part(t, p), g[p])
  }

  lemma ListsFirstFree(m: RegionMap, g: seq<Request>)
    requires Lists(m, g)
    ensures FirstFree(m) == |g|
  {
    assert |g| < MAX_REGIONS ==> m[|g|] == FREE;
    assert forall r :: 0 <= r < |g| ==> m[r] == Granted(g[r]);
  }

  lemma AcceptsIffAdmits(t: Table, g: Grants, q: Request)
    requires TableInv(t) && Represents(t, g)
    ensures Accepts(t, q) <==> Admits(g, q)
  {
    if q.part < MAX_PARTITIONS {
      var m, h := Part(t, q.part), g[q.part];
      assert Lists(m, h);
      ListsFirstFree(m, h);
      assert MapInv(m);
      DisjointFromMap(m, q);
      assert forall k :: 0 <= k < |h| ==> m[k] == Granted(h[k]);
      assert forall r :: |h| <= r < MAX_REGIONS ==> !m[r].enabled;
    }
  }

  lemma RepresentsStep(t: Table, g: Grants, q: Request)
    requires TableInv(t) && Represents(t, g)
    ensures Represents(TryAdd(t, q), Admit(g, q))
  {
    AcceptsIffAdmits(t, g, q);
    if Accepts(t, q) {
      var m := Part(t, q.part);
      assert Lists(m, g[q.part]);
      ListsFirstFree(m, g[q.part]);
      forall p | 0 <= p < MAX_PARTITIONS ensures Lists(Part(TryAdd(t, q), p), Admit(g, q)[p]) {
        PartUpdate(t, q.part, FirstFree(m), Granted(q), p);
        assert Lists(Part(t, p), g[p]);
      }
    }
  }

  /** Builder soundness and completeness: after any requests the table satisfies
      its invariant and holds exactly the grants, and the next request is accepted
      exactly when the rule admits it. */
  lemma {:induction false} BuilderExact(qs: seq<Request>, q: Request)
    ensures TableInv(Build(qs)) && Represents(Build(qs), GrantsOf(qs))
    ensures Accepts(Build(qs), q) <==> Admits(GrantsOf(qs), q)
    decreases |qs|
  {
    if qs == [] {
      EmptyInv();
    } else {
      var n := |qs| - 1;
      BuilderExact(qs[..n], q);
      TryAddKeepsInv(Build(qs[..n]), qs[n]);
      RepresentsStep(Build(qs[..n]), GrantsOf(qs[..n]), qs[n]);
    }
    AcceptsIffAdmits(Build(qs), GrantsOf(qs), q);
  }

  /** An address is covered exactly when some grant of the partition contains it. */
  lemma CoverageIsGrants(qs: seq<Request>, p: nat, addr: u32)
    requires p < MAX_PARTITIONS
    ensures Covers(Part(Build(qs), p), addr) <==>
      exists k :: 0 <= k < |GrantsOf(qs)[p]| && Within(GrantsOf(qs)[p][k].base, GrantsOf(qs)[p][k].size, addr)
  {
    BuilderExact(qs, Request(0, 0, 0, false, 0));
    var m, g := Part(Build(qs), p), GrantsOf(qs)[p];
    assert Lists(m, g);
    if k :| 0 <= k < |g| && Within(g[k].base, g[k].size, addr) {
      assert m[k] == Granted(g[k]) && Contains(m[k], addr);
    }
  }

  /** One more request grows the coverage of its partition by exactly its range,
      and only if it is accepted. */
  lemma CoverageGrowsByRequest(qs: seq<Request>, q: Request, p: nat, addr: u32)
    requires p < MAX_PARTITIONS
    ensures Covers(Part(Build(qs + [q]), p), addr) <==>
      Covers(Part(Build(qs), p), addr)
      || (Admits(GrantsOf(qs), q) && q.part == p && Within(q.base, q.size, addr))
  {
    assert (qs + [q])[..|qs|] == qs;
    var g, g' := GrantsOf(qs)[p], GrantsOf(qs + [q])[p];
    CoverageIsGrants(qs, p, addr);
    CoverageIsGrants(qs + [q], p, addr);
    if Admits(GrantsOf(qs), q) && q.part == p {
      assert g' == g + [q] && g'[|g|] == q;
      assert forall k :: 0 <= k < |g| ==> g'[k] == g[k];
    } else {
      assert g' == g;
    }
  }

  /** The table object, fed the same requests, holds the same table. */
  method Perform(regions: Regions, qs: seq<Request>)
    requires regions.Valid() && regions.View() == EmptyTable()
    modifies regions.base, regions.size, regions.enabled, regions.writable, regions.unpriv
    ensures regions.Valid() && regions.View() == Build(qs)
  {
    var k := 0;
    while k < |qs|
      invariant k <= |qs| && regions.Valid() && regions.View() == Build(qs[..k])
    {
      assert qs[..k + 1][..k] == qs[..k];
      var _ := regions.TryAddRegionPerm(qs[k]);
      k := k + 1;
    }
    assert qs[..k] == qs;
  }
}
