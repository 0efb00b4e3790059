/** Inter-processor interrupt masks (src/ipi.rs). */
module Ipi {
  import opened Words
  import opened Bits

  const MAX_CPUS: nat := 16

  /** The mask names exactly the eligible CPUs, so it passes validation. */
  method ComputeIpiMask(current: nat, prio: i32, affinity: bv32, prios: seq<i32>, active: seq<bool>,
                        numCpus: nat, maxCpus: nat) returns (mask: bv32)
    requires numCpus <= maxCpus <= MAX_CPUS && current < numCpus
    requires |prios| == numCpus && |active| == numCpus
    ensures forall i: nat :: i in Ones(mask) <==> (i < numCpus && i != current && active[i] && i in Ones(affinity) && prios[i] > prio)
    ensures current !in Ones(mask) && forall i :: i in Ones(mask) ==> i < maxCpus
  {
    mask := 0;
    NoOnes(0);
    var idx := 0;
    while idx < numCpus
      invariant idx <= numCpus
      invariant forall i: nat :: i in Ones(mask) <==> i < idx && (i < numCpus && i != current && active[i] && i in Ones(affinity) && prios[i] > prio)
    {
      if idx != current {
        if active[idx] {
          var allowed := Test(affinity, idx);
          if allowed {
            if prios[idx] > prio {
              mask := Insert(mask, idx);
            }
          }
        }
      }
      idx := idx + 1;
    }
  }

  method ValidateIpiMask(mask: bv32, current: nat, maxCpus: nat) returns (ok: bool)
    requires current < maxCpus <= MAX_CPUS
    ensures ok <==> current !in Ones(mask) && forall i :: i in Ones(mask) ==> i < maxCpus
  {
    var currentSet := Test(mask, current);
    var bounded := NoneFrom(mask, maxCpus);
    ok := !currentSet && bounded;
  }

  /** Every computed mask is accepted. */
  method ComputeThenValidate(current: nat, prio: i32, affinity: bv32, prios: seq<i32>, active: seq<bool>,
                             numCpus: nat, maxCpus: nat) returns (mask: bv32, ok: bool)
    requires numCpus <= maxCpus <= MAX_CPUS && current < numCpus
    requires |prios| == numCpus && |active| == numCpus
    ensures ok && forall i: nat :: i in Ones(mask) <==> (i < numCpus && i != current && active[i] && i in Ones(affinity) && prios[i] > prio)
  {
    mask := ComputeIpiMask(current, prio, affinity, prios, active, numCpus, maxCpus);
    ok := ValidateIpiMask(mask, current, maxCpus);
  }
}
