/** Fixed-width machine words as subset types of `int`: every arithmetic step
    that leaves the width is a proof obligation where it is written. */
module Words {
  const U32_MAX := 0xFFFF_FFFF
  const U64_MAX := 0xFFFF_FFFF_FFFF_FFFF

  type u32 = x: int | 0 <= x <= 0xFFFF_FFFF
  type u64 = x: int | 0 <= x <= 0xFFFF_FFFF_FFFF_FFFF
  type i32 = x: int | -0x8000_0000 <= x < 0x8000_0000

  datatype Option<+T> = None | Some(value: T)

  datatype Result<+T, +E> = Ok(value: T) | Err(error: E)

  /** Error codes (src/error.rs). */
  const OK: i32 := 0
  const EPERM: i32 := -1
  const ENOENT: i32 := -2
  const EAGAIN: i32 := -11
  const EINVAL: i32 := -22
  const ENOSPC: i32 := -28
  const ENOMSG: i32 := -35

  function Min(a: int, b: int): int { if a <= b then a else b }
}

/** A 32-bit mask read as the set of its one-bits. All reasoning about shifts,
    `|`, `&` and `!` stays inside this module; the rest of the project sees sets. */
module Bits {
  predicate Bit(m: bv32, i: nat)
    requires i < 32
  {
    (m >> i) & 1 == 1
  }

  ghost function Ones(m: bv32): set<nat> {
    set i: nat | i < 32 && Bit(m, i)
  }

  // --- single bits, with the shift amount as a bit vector --------------------

  ghost predicate At(m: bv32, j: bv6)
    requires j < 32
  {
    (m >> j) & 1 == 1
  }

  lemma OrAt(a: bv32, b: bv32, j: bv6)
    requires j < 32
    ensures At(a | b, j) <==> At(a, j) || At(b, j)
  {
  }

  lemma AndAt(a: bv32, b: bv32, j: bv6)
    requires j < 32
    ensures At(a & b, j) <==> At(a, j) && At(b, j)
  {
  }

  lemma NotAt(a: bv32, j: bv6)
    requires j < 32
    ensures At(!a, j) <==> !At(a, j)
  {
  }

  lemma OneAt(h: bv6, j: bv6)
    requires h < 32 && j < 32
    ensures At(1 << h, j) <==> h == j
  {
  }

  lemma ShrAt(m: bv32, n: bv6, j: bv6)
    requires n < 32 && j < 32
    ensures n + j < 32 ==> (At(m >> n, j) <==> At(m, n + j))
    ensures n + j >= 32 ==> !At(m >> n, j)
  {
  }

  lemma AllClear(m: bv32)
    requires forall j: bv6 | j < 32 :: !At(m, j)
    ensures m == 0
  {
    assert !At(m, 0) && !At(m, 1) && !At(m, 2) && !At(m, 3) && !At(m, 4) && !At(m, 5) && !At(m, 6) && !At(m, 7);
    assert !At(m, 8) && !At(m, 9) && !At(m, 10) && !At(m, 11) && !At(m, 12) && !At(m, 13) && !At(m, 14) && !At(m, 15);
    assert !At(m, 16) && !At(m, 17) && !At(m, 18) && !At(m, 19) && !At(m, 20) && !At(m, 21) && !At(m, 22) && !At(m, 23);
    assert !At(m, 24) && !At(m, 25) && !At(m, 26) && !At(m, 27) && !At(m, 28) && !At(m, 29) && !At(m, 30) && !At(m, 31);
  }

  // --- indices as naturals ----------------------------------------------------

  lemma IndexFaithful(i: nat)
    requires i < 32
    ensures (i as bv6) < 32 && ((i as bv6) as nat) == i
  {
  }

  lemma BitIsAt(m: bv32, i: nat)
    requires i < 32
    ensures (i as bv6) < 32 && (Bit(m, i) <==> At(m, i as bv6))
  {
    IndexFaithful(i);
  }

  lemma IndexRoundTrip(j: bv6)
    requires j < 32
    ensures (j as nat) < 32 && ((j as nat) as bv6) == j
  {
  }

  // --- masks as sets ------------------------------------------------------------

  lemma OnesOr(a: bv32, b: bv32)
    ensures Ones(a | b) == Ones(a) + Ones(b)
  {
    forall i: nat | i < 32 ensures Bit(a | b, i) <==> Bit(a, i) || Bit(b, i) {
      BitIsAt(a | b, i);
      BitIsAt(a, i);
      BitIsAt(b, i);
      OrAt(a, b, i as bv6);
    }
  }

  lemma OnesAnd(a: bv32, b: bv32)
    ensures Ones(a & b) == Ones(a) * Ones(b)
  {
    forall i: nat | i < 32 ensures Bit(a & b, i) <==> Bit(a, i) && Bit(b, i) {
      BitIsAt(a & b, i);
      BitIsAt(a, i);
      BitIsAt(b, i);
      AndAt(a, b, i as bv6);
    }
  }

  lemma OnesMinus(a: bv32, b: bv32)
    ensures Ones(a & !b) == Ones(a) - Ones(b)
  {
    forall i: nat | i < 32 ensures Bit(a & !b, i) <==> Bit(a, i) && !Bit(b, i) {
      BitIsAt(a & !b, i);
      BitIsAt(a, i);
      BitIsAt(b, i);
      AndAt(a, !b, i as bv6);
      NotAt(b, i as bv6);
    }
  }

  lemma OnesUnit(h: nat)
    requires h < 32
    ensures Ones(1 << h) == {h}
  {
    var unit: bv32 := 1 << h;
    forall i: nat | i < 32 ensures Bit(unit, i) <==> i == h {
      BitIsAt(unit, i);
      IndexFaithful(h);
      IndexFaithful(i);
      OneAt(h as bv6, i as bv6);
    }
  }

  /** `m | (1 << h)` inserts `h`. */
  lemma SetOne(m: bv32, h: nat)
    requires h < 32
    ensures Ones(m | (1 << h)) == Ones(m) + {h}
  {
    OnesOr(m, 1 << h);
    OnesUnit(h);
  }

  /** `m & !(1 << h)` removes `h`. */
  lemma ClearOne(m: bv32, h: nat)
    requires h < 32
    ensures Ones(m & !(1 << h)) == Ones(m) - {h}
  {
    OnesMinus(m, 1 << h);
    OnesUnit(h);
  }

  lemma NoOnes(m: bv32)
    ensures Ones(m) == {} <==> m == 0
  {
    if m == 0 {
      OnesMinus(m, m);
      assert m & !m == m;
    } else if Ones(m) == {} {
      forall j: bv6 | j < 32 ensures !At(m, j) {
        IndexRoundTrip(j);
        BitIsAt(m, j as nat);
        assert (j as nat) !in Ones(m);
      }
      AllClear(m);
    }
  }

  lemma TestUnit(m: bv32, u: bv32, i: nat)
    requires Ones(u) == {i}
    ensures m & u != 0 <==> i in Ones(m)
  {
    OnesAnd(m, u);
    NoOnes(m & u);
  }

  lemma ShrZeroAt(m: bv32, n: bv6, j: bv6)
    requires n <= j < 32 && m >> n == 0
    ensures !At(m, j)
  {
  }

  lemma ShrNonzeroAt(m: bv32, n: bv6) returns (j: bv6)
    requires n < 32 && m >> n != 0
    ensures n <= j < 32 && At(m, j)
  {
    var s := m >> n;
    if forall k: bv6 | k < 32 :: !At(s, k) {
      AllClear(s);
      assert false;
    }
    var k: bv6 :| k < 32 && At(s, k);
    ShrAt(m, n, k);
    j := n + k;
  }

  lemma AmountOrder(a: bv6, b: bv6)
    requires a < 32 && b < 32
    ensures a <= b <==> (a as nat) <= (b as nat)
  {
  }

  lemma IndexOrder(i: nat, j: nat)
    requires i < 32 && j < 32
    ensures i <= j <==> (i as bv6) <= (j as bv6)
  {
    IndexFaithful(i);
    IndexFaithful(j);
    AmountOrder(i as bv6, j as bv6);
  }

  lemma HighOnes(m: bv32, n: nat)
    requires n < 32
    ensures m >> (n as bv6) == 0 <==> forall i :: i in Ones(m) ==> i < n
  {
    IndexFaithful(n);
    if m >> (n as bv6) == 0 {
      forall i | i in Ones(m) ensures i < n {
        BitIsAt(m, i);
        IndexOrder(n, i);
        if n <= i {
          ShrZeroAt(m, n as bv6, i as bv6);
        }
      }
    } else {
      var j := ShrNonzeroAt(m, n as bv6);
      IndexRoundTrip(j);
      BitIsAt(m, j as nat);
      IndexOrder(n, j as nat);
      assert (j as nat) in Ones(m);
    }
  }

  // --- the operations the callers use -------------------------------------------

  /** `m | (1 << h)`. */
  method Insert(m: bv32, h: nat) returns (r: bv32)
    requires h < 32
    ensures Ones(r) == Ones(m) + {h}
  {
    SetOne(m, h);
    r := m | (1 << h);
  }

  /** `m & !(1 << h)`. */
  method Remove(m: bv32, h: nat) returns (r: bv32)
    requires h < 32
    ensures Ones(r) == Ones(m) - {h}
  {
    ClearOne(m, h);
    r := m & !(1 << h);
  }

  /** `m & (1 << h) != 0`. */
  method Test(m: bv32, h: nat) returns (b: bool)
    requires h < 32
    ensures b <==> h in Ones(m)
  {
    var u: bv32 := 1 << h;
    OnesUnit(h);
    TestUnit(m, u, h);
    b := m & u != 0;
  }

  /** `(m >> h) & 1 == 1`. */
  method Contains(m: bv32, h: nat) returns (b: bool)
    requires h < 32
    ensures b <==> h in Ones(m)
  {
    b := (m >> h) & 1 == 1;
  }

  /** `m >> n == 0`. */
  method NoneFrom(m: bv32, n: nat) returns (b: bool)
    requires n < 32
    ensures b <==> forall i :: i in Ones(m) ==> i < n
  {
    HighOnes(m, n);
    b := m >> (n as bv6) == 0;
  }
}

/** Induction over runs, without regard to what the steps do. */
module Runs {
  /** The state after the first `n` elements of `xs`. */
  ghost function Fold<S, X>(step: (S, X) -> S, s: S, xs: seq<X>, n: nat): S
    requires n <= |xs|
  {
    if n == 0 then s else step(Fold(step, s, xs, n - 1), xs[n - 1])
  }

  /** Equal steps make equal runs. */
  lemma {:induction false} FoldsAgree<S(!new), X(!new)>(f: (S, X) -> S, g: (S, X) -> S, s: S, xs: seq<X>, n: nat)
    requires n <= |xs| && forall s, x :: f(s, x) == g(s, x)
    ensures Fold(f, s, xs, n) == Fold(g, s, xs, n)
    decreases n
  {
    if n > 0 {
      FoldsAgree(f, g, s, xs, n - 1);
    }
  }

  /** What holds at `from` and is kept by each step holds at `n`. */
  lemma {:induction false} Carried(p: nat -> bool, from: nat, n: nat)
    requires from <= n && p(from) && forall m :: from <= m < n && p(m) ==> p(m + 1)
    ensures p(n)
    decreases n
  {
    if from < n {
      Carried(p, from, n - 1);
    }
  }
}
