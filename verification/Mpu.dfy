/** Bitwise AND on naturals, digit by digit, and powers of two. */
module Binary {
  function Pow2(k: nat): (p: nat)
    ensures p > 0
  {
    if k == 0 then 1 else 2 * Pow2(k - 1)
  }

  function And(x: nat, y: nat): (r: nat)
    ensures r <= x && r <= y
  {
    if x == 0 || y == 0 then 0
    else 2 * And(x / 2, y / 2) + (if x % 2 == 1 && y % 2 == 1 then 1 else 0)
  }

  ghost predicate IsPow2(n: nat) {
    exists k: nat :: n == Pow2(k)
  }

  lemma {:induction false} AndSelf(x: nat)
    ensures And(x, x) == x
  {
    if x > 0 {
      AndSelf(x / 2);
    }
  }

  lemma Pow2Odd(k: nat)
    ensures Pow2(k) % 2 == 1 ==> Pow2(k) == 1
  {
  }

  /** `n & (n - 1) == 0` with `n > 0` holds of the powers of two and of nothing else. */
  lemma {:induction false} ClearLowestOne(n: nat)
    requires n > 0
    ensures And(n, n - 1) == 0 <==> IsPow2(n)
  {
    if n == 1 {
      assert n == Pow2(0);
    } else if n % 2 == 1 {
      // both n and n - 1 keep n / 2 > 0 as their high digits
      assert (n - 1) / 2 == n / 2;
      AndSelf(n / 2);
      forall k: nat ensures n != Pow2(k) {
        Pow2Odd(k);
      }
    } else {
      assert (n - 1) / 2 == n / 2 - 1;
      ClearLowestOne(n / 2);
      if IsPow2(n / 2) {
        var k: nat :| n / 2 == Pow2(k);
        assert n == Pow2(k + 1);
      }
      if IsPow2(n) {
        var k: nat :| n == Pow2(k);
        assert n / 2 == Pow2(k - 1);
      }
    }
  }

  lemma OddMask(b: nat, p: nat)
    requires p > 0
    ensures And(b, 2 * p - 1) == 2 * And(b / 2, p - 1) + b % 2
  {
    assert (2 * p - 1) / 2 == p - 1;
  }

  lemma MulMonotone(x: int, y: int, d: nat)
    requires x <= y
    ensures x * d <= y * d
  {
  }

  lemma MulStep(x: int, y: int, d: nat)
    requires x < y
    ensures x * d + d <= y * d
  {
    MulMonotone(x + 1, y, d);
    assert (x + 1) * d == x * d + d;
  }

  lemma RemainderUnique(a: nat, d: nat, q: nat, r: nat)
    requires d > 0 && a == q * d + r && r < d
    ensures a / d == q && a % d == r
  {
    var q', r' := a / d, a % d;
    assert a == q' * d + r';
    if q < q' {
      MulStep(q, q', d);
      assert false;
    }
    if q' < q {
      MulStep(q', q, d);
      assert false;
    }
  }

  lemma HalfRemainder(b: nat, p: nat)
    requires p > 0
    ensures b % (2 * p) == 2 * ((b / 2) % p) + b % 2
  {
    var q, r := (b / 2) / p, (b / 2) % p;
    assert b == q * (2 * p) + (2 * r + b % 2);
    RemainderUnique(b, 2 * p, q, 2 * r + b % 2);
  }

  /** `b & (2^k - 1)` is the remainder of `b` by `2^k`. */
  lemma {:induction false} MaskIsRemainder(b: nat, k: nat)
    ensures And(b, Pow2(k) - 1) == b % Pow2(k)
    decreases k
  {
    if k > 0 {
      OddMask(b, Pow2(k - 1));
      MaskIsRemainder(b / 2, k - 1);
      HalfRemainder(b, Pow2(k - 1));
    }
  }

  lemma MulCancel(x: int, y: int, d: nat)
    requires x * d < y * d
    ensures x < y
  {
    if y <= x {
      MulMonotone(y, x, d);
    }
  }

  lemma {:induction false} Pow2Monotone(j: nat, k: nat)
    requires j <= k
    ensures Pow2(j) <= Pow2(k) && Pow2(k) % Pow2(j) == 0
    decreases k
  {
    if j < k {
      Pow2Monotone(j, k - 1);
      var q := Pow2(k - 1) / Pow2(j);
      assert Pow2(k) == (2 * q) * Pow2(j);
      RemainderUnique(Pow2(k), Pow2(j), 2 * q, 0);
    } else {
      RemainderUnique(Pow2(k), Pow2(j), 1, 0);
    }
  }
}

/** MPU region validation (src/mpu.rs). */
module MpuRegions {
  import opened Words
  import opened Binary

  const MIN_REGION_SIZE: u32 := 32
  const MAX_REGIONS: nat := 8

  datatype Region = Region(base: u32, size: u32, attr: u32)

  /** The addresses of a region. */
  predicate Within(base: u32, size: u32, addr: int) {
    base <= addr < base + size
  }

  /** No address lies in both ranges. */
  ghost predicate SharesNothing(b1: u32, s1: u32, b2: u32, s2: u32) {
    forall a :: !(Within(b1, s1, a) && Within(b2, s2, a))
  }

  predicate IsPowerOfTwo(n: u32) {
    n > 0 && And(n, n - 1) == 0
  }

  predicate ValidateRegion(base: u32, size: u32) {
    size != 0
    && And(size, size - 1) == 0
    && size >= MIN_REGION_SIZE
    && And(base, size - 1) == 0
    && base + size <= U32_MAX
  }

  /** What the hardware demands of a region: a power-of-two size of at least 32
      bytes, a base that is a multiple of it, and an end inside the address space. */
  ghost predicate WellFormed(base: u32, size: u32) {
    IsPow2(size) && size >= MIN_REGION_SIZE && base % size == 0 && base + size <= U32_MAX
  }

  /** The bitwise checks decide exactly that. */
  lemma ValidateIsWellFormed(base: u32, size: u32)
    ensures ValidateRegion(base, size) <==> WellFormed(base, size)
    ensures ValidateRegion(base, size) <==> IsPow2(size) && size >= 32 && base % size == 0 && base + size < 0x1_0000_0000
  {
    if size > 0 {
      ClearLowestOne(size);
      if IsPow2(size) {
        var k: nat :| size == Pow2(k);
        MaskIsRemainder(base, k);
      }
    }
  }

  predicate Overlap(r1: Region, r2: Region) {
    r1.base < r2.base + r2.size && r2.base < r1.base + r1.size
  }

  /** For non-empty regions the comparison detects a shared address, exactly. */
  lemma OverlapIsSharedAddress(r1: Region, r2: Region)
    requires r1.size > 0 && r2.size > 0
    ensures Overlap(r1, r2) <==> exists a :: Within(r1.base, r1.size, a) && Within(r2.base, r2.size, a)
  {
    if Overlap(r1, r2) {
      var a := if r1.base <= r2.base then r2.base else r1.base;
      assert Within(r1.base, r1.size, a) && Within(r2.base, r2.size, a);
    }
  }

  /** Aligned blocks of `p` bytes against aligned blocks of `c * p` bytes. */
  lemma BlockNesting(m: int, p: nat, n: int, c: nat)
    requires p > 0 && c > 0
    requires m * p < n * (c * p) + c * p && n * (c * p) < m * p + p
    ensures n * (c * p) <= m * p && m * p + p <= n * (c * p) + c * p
  {
    var lo, hi := n * c, n * c + c;
    assert lo * p == n * (c * p);
    assert hi * p == n * (c * p) + c * p;
    assert (m + 1) * p == m * p + p;
    MulCancel(m, hi, p);
    MulCancel(lo, m + 1, p);
    MulMonotone(lo, m, p);
    MulMonotone(m + 1, hi, p);
  }

  lemma Multiple(b: nat, d: nat) returns (q: nat)
    requires d > 0 && b % d == 0
    ensures b == q * d
  {
    q := b / d;
  }

  lemma PowersDivide(p: nat, q: nat) returns (c: nat)
    requires IsPow2(p) && IsPow2(q) && p <= q
    ensures c > 0 && q == c * p
  {
    var j: nat :| p == Pow2(j);
    var k: nat :| q == Pow2(k);
    if k < j {
      Pow2Monotone(k, j);
      c := 1;
    } else {
      Pow2Monotone(j, k);
      c := Multiple(q, p);
    }
  }

  lemma SmallerNests(small: Region, large: Region)
    requires WellFormed(small.base, small.size) && WellFormed(large.base, large.size)
    requires small.size <= large.size && Overlap(small, large)
    ensures large.base <= small.base && small.base + small.size <= large.base + large.size
  {
    var c := PowersDivide(small.size, large.size);
    var m := Multiple(small.base, small.size);
    var n := Multiple(large.base, large.size);
    BlockNesting(m, small.size, n, c);
  }

  /** Two valid regions are disjoint or one lies inside the other. */
  lemma DisjointOrNested(r1: Region, r2: Region)
    requires ValidateRegion(r1.base, r1.size) && ValidateRegion(r2.base, r2.size)
    ensures
      || (forall a :: !(Within(r1.base, r1.size, a) && Within(r2.base, r2.size, a)))
      || (forall a :: Within(r1.base, r1.size, a) ==> Within(r2.base, r2.size, a))
      || (forall a :: Within(r2.base, r2.size, a) ==> Within(r1.base, r1.size, a))
  {
    ValidateIsWellFormed(r1.base, r1.size);
    ValidateIsWellFormed(r2.base, r2.size);
    OverlapIsSharedAddress(r1, r2);
    if Overlap(r1, r2) {
      if r1.size <= r2.size {
        SmallerNests(r1, r2);
      } else {
        SmallerNests(r2, r1);
      }
    }
  }

  method RegionsOverlap(r1: Region, r2: Region) returns (b: bool)
    requires r1.base + r1.size <= U32_MAX && r2.base + r2.size <= U32_MAX
    ensures b == Overlap(r1, r2)
  {
    var end1: u32 := r1.base + r1.size;
    var end2: u32 := r2.base + r2.size;
    b := r1.base < end2 && r2.base < end1;
  }

  /** The set check accepts exactly the lists of well-formed regions no two of
      which share an address. */
  method ValidateRegionSet(regions: seq<Region>, count: u32) returns (ok: bool)
    requires count <= |regions|
    ensures ok <==>
      && (forall i :: 0 <= i < count ==> WellFormed(regions[i].base, regions[i].size))
      && (forall i, j, a :: 0 <= i < j < count ==>
            !(Within(regions[i].base, regions[i].size, a) && Within(regions[j].base, regions[j].size, a)))
  {
    var i := 0;
    while i < count
      invariant i <= count
      invariant forall k :: 0 <= k < i ==> WellFormed(regions[k].base, regions[k].size)
    {
      ValidateIsWellFormed(regions[i].base, regions[i].size);
      if !ValidateRegion(regions[i].base, regions[i].size) {
        return false;
      }
      i := i + 1;
    }
    var i2 := 0;
    while i2 < count
      invariant i2 <= count
      invariant forall k, j :: 0 <= k < i2 && 0 <= j < count && k != j ==> !Overlap(regions[k], regions[j])
    {
      var j := 0;
      while j < count
        invariant j <= count
        invariant forall l :: 0 <= l < j && l != i2 ==> !Overlap(regions[i2], regions[l])
      {
        if i2 != j {
          var ri, rj := regions[i2], regions[j];
          assert WellFormed(ri.base, ri.size) && WellFormed(rj.base, rj.size);
          OverlapIsSharedAddress(ri, rj);
          var b := RegionsOverlap(ri, rj);
          if b {
            return false;
          }
        }
        j := j + 1;
      }
      i2 := i2 + 1;
    }
    ok := true;
  }
}
