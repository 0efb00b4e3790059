/** Memory domain partition management (src/mem_domain.rs). */
module MemDomains {
  import opened Words

  const MAX_PARTITIONS: nat := 16

  datatype Partition = Partition(start: u32, size: u32, attr: u32)

  /** A slot with size zero is free; a cleared slot is all zeros. */
  const FREE: Partition := Partition(0, 0, 0)

  predicate IsValid(p: Partition) {
    p.size > 0 && p.start + p.size <= U32_MAX
  }

  predicate Overlaps(a: Partition, b: Partition) {
    a.start + a.size > b.start && b.start + b.size > a.start
  }

  predicate Contains(p: Partition, addr: u32) {
    p.size > 0 && p.start <= addr < p.start + p.size
  }

  function ActiveCount(s: seq<Partition>): (n: nat)
    ensures n <= |s|
  {
    if s == [] then 0 else ActiveCount(s[..|s| - 1]) + if s[|s| - 1].size > 0 then 1 else 0
  }

  datatype Domain = Domain(parts: seq<Partition>, num: nat)
  {
    /** The source's invariant: active partitions are valid and do not overlap. */
    ghost predicate Inv() {
      && |parts| == MAX_PARTITIONS && num <= MAX_PARTITIONS
      && (forall i :: 0 <= i < |parts| && parts[i].size > 0 ==> IsValid(parts[i]))
      && (forall i, j :: 0 <= i < j < |parts| && parts[i].size > 0 && parts[j].size > 0 ==>
            !Overlaps(parts[i], parts[j]))
    }

    /** The counter is `k` below the number of active slots; free slots are cleared. */
    ghost predicate Short(k: nat) {
      && Inv() && num + k == ActiveCount(parts)
      && forall i :: 0 <= i < |parts| && parts[i].size == 0 ==> parts[i] == FREE
    }

    /** The counter tells the truth. */
    ghost predicate Good() {
      Short(0)
    }

    ghost function Active(): set<Partition> {
      set i | 0 <= i < |parts| && parts[i].size > 0 :: parts[i]
    }
  }

  function FirstFree(s: seq<Partition>): (f: nat)
    ensures f <= |s|
    ensures f < |s| ==> s[f].size == 0
    ensures forall i :: 0 <= i < f ==> s[i].size > 0
  {
    if s == [] || s[0].size == 0 then 0 else 1 + FirstFree(s[1..])
  }

  predicate Matches(p: Partition, start: u32, size: u32) {
    p.start == start && p.size == size
  }

  function FirstMatch(s: seq<Partition>, start: u32, size: u32): (f: nat)
    ensures f <= |s|
    ensures f < |s| ==> Matches(s[f], start, size)
    ensures forall i :: 0 <= i < f ==> !Matches(s[i], start, size)
  {
    if s == [] || Matches(s[0], start, size) then 0 else 1 + FirstMatch(s[1..], start, size)
  }

  predicate CanAdd(d: Domain, p: Partition) {
    IsValid(p) && forall i :: 0 <= i < |d.parts| && d.parts[i].size > 0 ==> !Overlaps(p, d.parts[i])
  }

  function Add(d: Domain, p: Partition): (Domain, Result<u32, i32>)
    requires |d.parts| == MAX_PARTITIONS
  {
    var f := FirstFree(d.parts);
    if !CanAdd(d, p) then (d, Err(EINVAL))
    else if f < MAX_PARTITIONS then (Domain(d.parts[f := p], d.num + 1), Ok(f))
    else (d, Err(ENOSPC))
  }

  function Remove(d: Domain, start: u32, size: u32): (Domain, Result<u32, i32>)
    requires |d.parts| == MAX_PARTITIONS && d.num > 0
  {
    var f := FirstMatch(d.parts, start, size);
    if f < MAX_PARTITIONS then (Domain(d.parts[f := FREE], d.num - 1), Ok(f))
    else (d, Err(ENOENT))
  }

  predicate LiesIn(p: Partition, x: int) {
    p.start <= x < p.start + p.size
  }

  /** Some address lies in both partitions. */
  ghost predicate ShareAddress(a: Partition, b: Partition) {
    exists x :: LiesIn(a, x) && LiesIn(b, x)
  }

  /** For non-empty partitions the comparison detects a shared address, exactly. */
  lemma OverlapsIsShared(a: Partition, b: Partition)
    requires a.size > 0 && b.size > 0
    ensures Overlaps(a, b) <==> ShareAddress(a, b)
  {
    if Overlaps(a, b) {
      var x := if a.start <= b.start then b.start else a.start;
      assert LiesIn(a, x) && LiesIn(b, x);
    }
  }

  /** Non-empty, ending below 4 GiB, and sharing no address with an active partition. */
  lemma CanAddExactly(d: Domain, p: Partition)
    ensures CanAdd(d, p) <==>
      && p.size > 0 && p.start + p.size < 0x1_0000_0000
      && forall x :: x in d.Active() ==> !ShareAddress(p, x)
  {
    if p.size > 0 {
      forall i | 0 <= i < |d.parts| && d.parts[i].size > 0
        ensures d.parts[i] in d.Active() && (Overlaps(p, d.parts[i]) <==> ShareAddress(p, d.parts[i]))
      {
        OverlapsIsShared(p, d.parts[i]);
      }
    }
  }

  // ---------------------------------------------------------------------------
  // Counting slots
  // ---------------------------------------------------------------------------

  /** Pigeonhole: all slots are active exactly when the count is the slot number. */
  lemma {:induction false} CountFull(s: seq<Partition>)
    ensures ActiveCount(s) == |s| <==> FirstFree(s) == |s|
    decreases |s|
  {
    if s != [] {
      var n := |s| - 1;
      CountFull(s[..n]);
      assert forall i :: 0 <= i < n ==> s[..n][i] == s[i];
      assert FirstFree(s) == |s| <==> FirstFree(s[..n]) == n && s[n].size > 0;
    }
  }

  lemma {:induction false} CountUpdate(s: seq<Partition>, f: nat, p: Partition)
    requires f < |s|
    ensures ActiveCount(s[f := p]) + (if s[f].size > 0 then 1 else 0)
         == ActiveCount(s) + (if p.size > 0 then 1 else 0)
    decreases |s|
  {
    var n := |s| - 1;
    if f < n {
      CountUpdate(s[..n], f, p);
      assert s[f := p][..n] == s[..n][f := p];
    } else {
      assert s[f := p][..n] == s[..n];
    }
  }

  // ---------------------------------------------------------------------------
  // Exact effect of each operation
  // ---------------------------------------------------------------------------

  lemma AddShort(d: Domain, p: Partition, k: nat)
    requires d.Short(k)
    ensures Add(d, p).0.Short(k)
    ensures Add(d, p).1 == Err(ENOSPC) <==> CanAdd(d, p) && d.num + k == MAX_PARTITIONS
  {
    CountFull(d.parts);
    var f := FirstFree(d.parts);
    if CanAdd(d, p) && f < MAX_PARTITIONS {
      CountUpdate(d.parts, f, p);
      var s := d.parts[f := p];
      assert forall i :: 0 <= i < |s| ==> s[i] == if i == f then p else d.parts[i];
    }
  }

  lemma AddActive(d: Domain, f: nat, p: Partition)
    requires f < |d.parts| && d.parts[f].size == 0 && CanAdd(d, p)
    ensures Domain(d.parts[f := p], d.num + 1).Active() == d.Active() + {p} && p !in d.Active()
  {
    var d' := Domain(d.parts[f := p], d.num + 1);
    assert d'.parts[f] == p;
    forall x | x in d.Active() ensures x in d'.Active() && x != p {
      var i :| 0 <= i < |d.parts| && d.parts[i].size > 0 && d.parts[i] == x;
      assert d'.parts[i] == x;
    }
    forall x | x in d'.Active() ensures x in d.Active() + {p} {
      var i :| 0 <= i < |d'.parts| && d'.parts[i].size > 0 && d'.parts[i] == x;
      if i != f {
        assert d.parts[i] == x;
      }
    }
  }

  /** Adding: refused exactly for an invalid or overlapping partition, and for lack
      of space exactly when sixteen are active; otherwise the active partitions gain
      exactly the new one. */
  lemma AddExact(d: Domain, p: Partition)
    requires d.Good()
    ensures var (d', r) := Add(d, p);
      && d'.Good()
      && (r == Err(-22) <==> p.size == 0 || p.start + p.size >= 0x1_0000_0000 || exists x :: x in d.Active() && ShareAddress(p, x))
      && (r == Err(-28) <==> CanAdd(d, p) && d.num == 16)
      && (r.Ok? ==> d'.Active() == d.Active() + {p} && p !in d.Active() && d'.num == d.num + 1)
      && (r.Err? ==> d' == d)
  {
    AddShort(d, p, 0);
    CanAddExactly(d, p);
    var f := FirstFree(d.parts);
    if CanAdd(d, p) && f < MAX_PARTITIONS {
      AddActive(d, f, p);
    }
  }

  lemma AddKeepsInv(d: Domain, p: Partition)
    requires d.Inv() && (d.Good() || d.num < MAX_PARTITIONS)
    ensures Add(d, p).0.Inv() && (d.Good() ==> Add(d, p).0.Good())
  {
    if d.Good() {
      AddExact(d, p);
    } else if Add(d, p).1.Ok? {
      var f := FirstFree(d.parts);
      var s := d.parts[f := p];
      assert forall i :: 0 <= i < |s| ==> s[i] == if i == f then p else d.parts[i];
    }
  }

  lemma MatchUnique(d: Domain, i: nat, j: nat, start: u32, size: u32)
    requires d.Inv() && i < |d.parts| && j < |d.parts| && i != j && size > 0 && Matches(d.parts[i], start, size)
    ensures !Matches(d.parts[j], start, size)
  {
  }

  lemma RemoveActive(d: Domain, start: u32, size: u32)
    requires d.Inv() && d.num > 0 && size > 0
    ensures Remove(d, start, size).0.Active() == set p | p in d.Active() && !Matches(p, start, size)
  {
    var f := FirstMatch(d.parts, start, size);
    var d' := Remove(d, start, size).0;
    forall x | x in d'.Active() ensures x in d.Active() && !Matches(x, start, size) {
      var i :| 0 <= i < |d'.parts| && d'.parts[i].size > 0 && d'.parts[i] == x;
      assert d.parts[i] == x;
      if f < MAX_PARTITIONS {
        MatchUnique(d, f, i, start, size);
      }
    }
    forall x | x in d.Active() && !Matches(x, start, size) ensures x in d'.Active() {
      var i :| 0 <= i < |d.parts| && d.parts[i].size > 0 && d.parts[i] == x;
      assert d'.parts[i] == x;
    }
  }

  /** Removing with a non-zero size: succeeds exactly when an active partition has
      that start and size, and the active partitions lose exactly that one. */
  lemma RemoveExact(d: Domain, start: u32, size: u32)
    requires d.Good() && d.num > 0 && size > 0
    ensures var (d', r) := Remove(d, start, size);
      && d'.Good()
      && (r.Ok? <==> exists p :: p in d.Active() && p.start == start && p.size == size)
      && (r.Err? ==> r == Err(-2) && d' == d)
      && d'.Active() == set p | p in d.Active() && !(p.start == start && p.size == size)
  {
    var f := FirstMatch(d.parts, start, size);
    RemoveActive(d, start, size);
    if f < MAX_PARTITIONS {
      CountUpdate(d.parts, f, FREE);
      assert d.parts[f] in d.Active();
      var s := d.parts[f := FREE];
      assert forall i :: 0 <= i < |s| ==> s[i] == if i == f then FREE else d.parts[i];
    }
  }

  /** The null request: removing (0, 0) from a domain with a free slot succeeds,
      clears nothing and lowers the counter. The counter stays true exactly when the
      request is not null or every slot is active. */
  lemma RemoveKeepsGood(d: Domain, start: u32, size: u32)
    requires d.Good() && d.num > 0
    ensures Remove(d, start, size).0.Good() <==> start > 0 || size > 0 || d.num == MAX_PARTITIONS
  {
    var f := FirstMatch(d.parts, start, size);
    CountFull(d.parts);
    if size > 0 {
      RemoveExact(d, start, size);
    } else if f < MAX_PARTITIONS {
      assert d.parts[f] == FREE;
      assert d.parts[f := FREE] == d.parts;
    } else {
      assert start == 0 ==> FirstFree(d.parts) == MAX_PARTITIONS;
    }
  }

  lemma {:induction false} EmptyCount(n: nat)
    ensures ActiveCount(seq(n, _ => FREE)) == 0
    decreases n
  {
    if n > 0 {
      EmptyCount(n - 1);
      assert seq(n, _ => FREE)[..n - 1] == seq(n - 1, _ => FREE);
    }
  }

  lemma EmptyGood()
    ensures Domain(seq(MAX_PARTITIONS, _ => FREE), 0).Good()
  {
    EmptyCount(MAX_PARTITIONS);
  }

  /** A concrete domain on which the null request falsifies the counter. */
  lemma NullRemovalCounterexample()
    ensures var d := Add(Domain(seq(MAX_PARTITIONS, _ => FREE), 0), Partition(0x1000, 0x100, 0)).0;
      && d.Good() && d.num == 1
      && Remove(d, 0, 0) == (d.(num := 0), Ok(1)) && !Remove(d, 0, 0).0.Good()
  {
    var e := Domain(seq(MAX_PARTITIONS, _ => FREE), 0);
    var p := Partition(0x1000, 0x100, 0);
    EmptyGood();
    AddExact(e, p);
    var d := Add(e, p).0;
    assert FirstFree(e.parts) == 0;
    assert d.parts[0] == p && d.parts[1] == FREE;
    assert FirstMatch(d.parts, 0, 0) == 1;
    assert d.parts[1 := FREE] == d.parts;
    RemoveKeepsGood(d, 0, 0);
  }

  /** Add then remove restores the domain exactly, slot and all. */
  lemma AddThenRemove(d: Domain, p: Partition)
    requires d.Good() && Add(d, p).1.Ok?
    ensures Remove(Add(d, p).0, p.start, p.size) == (d, Add(d, p).1)
  {
    var d', f := Add(d, p).0, FirstFree(d.parts);
    AddExact(d, p);
    assert Matches(d'.parts[f], p.start, p.size);
    forall i | 0 <= i < f ensures !Matches(d'.parts[i], p.start, p.size) {
      MatchUnique(d', f, i, p.start, p.size);
    }
    assert d.parts[f] == FREE;
    assert d'.parts[f := FREE] == d.parts;
  }

  // ---------------------------------------------------------------------------
  // Runs
  // ---------------------------------------------------------------------------

  datatype Event = EvAdd(p: Partition) | EvRemove(start: u32, size: u32)

  /** The caller removes only from a domain whose counter is positive. */
  predicate Legal(d: Domain, e: Event) {
    e.EvRemove? ==> d.num > 0
  }

  function Step(d: Domain, e: Event): Domain
    requires |d.parts| == MAX_PARTITIONS && Legal(d, e)
  {
    match e
    case EvAdd(p) => Add(d, p).0
    case EvRemove(start, size) => Remove(d, start, size).0
  }

  /** The state after the first `n` events, while they are legal. */
  ghost function At(es: seq<Event>, n: nat): (d: Option<Domain>)
    requires n <= |es|
    ensures d.Some? ==> |d.value.parts| == MAX_PARTITIONS
  {
    if n == 0 then Some(Domain(seq(MAX_PARTITIONS, _ => FREE), 0))
    else if At(es, n - 1).Some? && Legal(At(es, n - 1).value, es[n - 1])
    then Some(Step(At(es, n - 1).value, es[n - 1]))
    else None
  }

  /** A null removal in a domain with a free slot. */
  predicate NullRemoval(d: Domain, e: Event) {
    e == EvRemove(0, 0) && FirstFree(d.parts) < |d.parts|
  }

  /** The null removals among the first `n` events. */
  ghost function NullRemovals(es: seq<Event>, n: nat): nat
    requires n <= |es| && At(es, n).Some?
  {
    if n == 0 then 0
    else NullRemovals(es, n - 1) + if NullRemoval(At(es, n - 1).value, es[n - 1]) then 1 else 0
  }

  lemma RemoveShort(d: Domain, start: u32, size: u32, k: nat)
    requires d.Short(k) && d.num > 0
    ensures Remove(d, start, size).0.Short(if NullRemoval(d, EvRemove(start, size)) then k + 1 else k)
  {
    var f := FirstMatch(d.parts, start, size);
    if f < MAX_PARTITIONS {
      CountUpdate(d.parts, f, FREE);
      var s := d.parts[f := FREE];
      assert forall i :: 0 <= i < |s| ==> s[i] == if i == f then FREE else d.parts[i];
      assert size == 0 ==> d.parts[f] == FREE;
    }
  }

  /** Over every run the counter falls behind the number of active slots by exactly
      the number of null removals. */
  lemma {:induction false} CounterDrift(es: seq<Event>, n: nat)
    requires n <= |es| && At(es, n).Some?
    ensures At(es, n).value.Short(NullRemovals(es, n))
    decreases n
  {
    if n == 0 {
      EmptyGood();
    } else {
      CounterDrift(es, n - 1);
      var d, k := At(es, n - 1).value, NullRemovals(es, n - 1);
      match es[n - 1]
      case EvAdd(x) => AddShort(d, x, k);
      case EvRemove(start, size) => RemoveShort(d, start, size, k);
    }
  }

  /** In every reachable domain the counter is the number of active slots if and only
      if no null removal has been made; and then an addition with room left is never
      refused for lack of space. */
  lemma ReachableGood(es: seq<Event>, n: nat, p: Partition)
    requires n <= |es| && At(es, n).Some?
    ensures At(es, n).value.Good() <==> NullRemovals(es, n) == 0
    ensures Add(At(es, n).value, p).1 == Err(ENOSPC) <==>
      CanAdd(At(es, n).value, p) && At(es, n).value.num + NullRemovals(es, n) == MAX_PARTITIONS
  {
    CounterDrift(es, n);
    AddShort(At(es, n).value, p, NullRemovals(es, n));
  }

  // ---------------------------------------------------------------------------
  // The object
  // ---------------------------------------------------------------------------

  /** Slot `i`, and no other, contains the address. */
  ghost predicate SoleOwner(d: Domain, addr: u32, i: nat) {
    && i < |d.parts| && Contains(d.parts[i], addr)
    && forall j :: 0 <= j < |d.parts| && Contains(d.parts[j], addr) ==> j == i
  }

  lemma OwnerUnique(d: Domain, addr: u32, i: nat)
    requires d.Inv() && i < |d.parts| && Contains(d.parts[i], addr)
    ensures SoleOwner(d, addr, i)
  {
  }

  class MemDomain {
    const partitions: array<Partition>
    var numPartitions: nat

    ghost function View(): Domain
      reads this, partitions
    {
      Domain(partitions[..], numPartitions)
    }

    ghost predicate Valid()
      reads this, partitions
    {
      View().Inv()
    }

    constructor ()
      ensures Valid() && View().Good() && View() == Domain(seq(MAX_PARTITIONS, _ => FREE), 0) && fresh(partitions)
    {
      partitions := new Partition[MAX_PARTITIONS](_ => FREE);
      numPartitions := 0;
      new;
      EmptyGood();
      assert partitions[..] == seq(MAX_PARTITIONS, _ => FREE);
    }

    method CheckAddPartition(p: Partition) returns (ok: bool)
      requires Valid()
      ensures ok == CanAdd(View(), p)
    {
      if p.size == 0 {
        return false;
      }
      var end: u64 := p.start + p.size;
      if end > U32_MAX {
        return false;
      }
      var i := 0;
      while i < MAX_PARTITIONS
        invariant i <= MAX_PARTITIONS
        invariant forall k :: 0 <= k < i && partitions[k].size > 0 ==> !Overlaps(p, partitions[k])
      {
        if partitions[i].size > 0 {
          if Overlaps(p, partitions[i]) {
            return false;
          }
        }
        i := i + 1;
      }
      ok := true;
    }

    method AddPartition(p: Partition) returns (r: Result<u32, i32>)
      requires Valid() && (View().Good() || numPartitions < MAX_PARTITIONS)
      modifies this, partitions
      ensures Valid() && (View(), r) == Add(old(View()), p)
      ensures old(View().Good()) ==> View().Good()
    {
      ghost var d := View();
      AddKeepsInv(d, p);
      var ok := CheckAddPartition(p);
      if !ok {
        return Err(EINVAL);
      }
      var i := 0;
      while i < MAX_PARTITIONS
        invariant i <= MAX_PARTITIONS && View() == d
        invariant forall k :: 0 <= k < i ==> d.parts[k].size > 0
      {
        if partitions[i].size == 0 {
          assert FirstFree(d.parts) == i;
          partitions[i] := p;
          numPartitions := numPartitions + 1;
          assert View() == Add(d, p).0;
          return Ok(i);
        }
        i := i + 1;
      }
      assert FirstFree(d.parts) == MAX_PARTITIONS;
      r := Err(ENOSPC);
    }

    method RemovePartition(start: u32, size: u32) returns (r: Result<u32, i32>)
      requires Valid() && numPartitions > 0
      modifies this, partitions
      ensures Valid() && (View(), r) == Remove(old(View()), start, size)
    {
      var i := 0;
      while i < MAX_PARTITIONS
        invariant i <= MAX_PARTITIONS && View() == old(View())
        invariant forall k :: 0 <= k < i ==> !Matches(partitions[k], start, size)
      {
        if partitions[i].start == start && partitions[i].size == size {
          assert FirstMatch(old(View()).parts, start, size) == i;
          partitions[i] := FREE;
          numPartitions := numPartitions - 1;
          assert partitions[..] == old(View()).parts[i := FREE];
          return Ok(i);
        }
        i := i + 1;
      }
      assert FirstMatch(old(View()).parts, start, size) == MAX_PARTITIONS;
      r := Err(ENOENT);
    }

    /** True exactly when some active partition contains the address, and then it is
        the only one. */
    method ContainsAddr(addr: u32) returns (b: bool)
      requires Valid()
      ensures b <==> exists p :: p in View().Active() && p.start <= addr < p.start + p.size
      ensures b ==> exists i :: 0 <= i < MAX_PARTITIONS && SoleOwner(View(), addr, i)
    {
      var i := 0;
      while i < MAX_PARTITIONS
        invariant i <= MAX_PARTITIONS
        invariant forall k :: 0 <= k < i ==> !Contains(partitions[k], addr)
      {
        var p := partitions[i];
        if p.size > 0 {
          var end: u64 := p.start + p.size;
          if addr >= p.start && addr < end {
            assert View().parts[i] == p && p in View().Active();
            OwnerUnique(View(), addr, i);
            return true;
          }
        }
        i := i + 1;
      }
      b := false;
    }
  }
}
