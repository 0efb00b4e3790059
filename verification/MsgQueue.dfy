/** The message queue (src/msgq.rs): ring-buffer index arithmetic. The source keeps
    the indices and leaves the buffer to its caller, which copies a message to or
    from the slot a call returns; `store` is that buffer. */
module MsgQueues {
  import opened Words

  datatype Ring = Ring(msgSize: u32, maxMsgs: u32, readIdx: u32, writeIdx: u32, usedMsgs: u32)
  {
    predicate Inv() {
      && msgSize > 0 && maxMsgs > 0
      && readIdx < maxMsgs && writeIdx < maxMsgs && usedMsgs <= maxMsgs
      && writeIdx == if readIdx + usedMsgs < maxMsgs then readIdx + usedMsgs else readIdx + usedMsgs - maxMsgs
    }
  }

  function NextIdx(idx: u32, max: u32): u32
    requires idx < max
  {
    if idx + 1 < max then idx + 1 else 0
  }

  function PrevIdx(idx: u32, max: u32): u32
    requires idx < max
  {
    if idx == 0 then max - 1 else idx - 1
  }

  /** Slot of the `i`-th message counted from the front. */
  function SlotAt(r: Ring, i: u32): (slot: u32)
    requires r.Inv() && i < r.maxMsgs
    ensures slot < r.maxMsgs
  {
    var sum: u64 := r.readIdx + i;
    if sum < r.maxMsgs then sum else sum - r.maxMsgs
  }

  function Put(r: Ring): Ring
    requires r.Inv() && r.usedMsgs < r.maxMsgs
  {
    r.(writeIdx := NextIdx(r.writeIdx, r.maxMsgs), usedMsgs := r.usedMsgs + 1)
  }

  function PutFront(r: Ring): Ring
    requires r.Inv() && r.usedMsgs < r.maxMsgs
  {
    r.(readIdx := PrevIdx(r.readIdx, r.maxMsgs), usedMsgs := r.usedMsgs + 1)
  }

  function Get(r: Ring): Ring
    requires r.Inv() && r.usedMsgs > 0
  {
    r.(readIdx := NextIdx(r.readIdx, r.maxMsgs), usedMsgs := r.usedMsgs - 1)
  }

  function Purge(r: Ring): Ring {
    r.(readIdx := r.writeIdx, usedMsgs := 0)
  }

  // ---------------------------------------------------------------------------
  // The ring with its buffer
  // ---------------------------------------------------------------------------

  datatype Queue<T> = Queue(ring: Ring, store: seq<T>)
  {
    predicate Inv() {
      ring.Inv() && |store| == ring.maxMsgs
    }

    function Contents(): (q: seq<T>)
      requires Inv()
      ensures |q| == ring.usedMsgs
      ensures forall i :: 0 <= i < ring.usedMsgs ==> q[i] == store[SlotAt(ring, i)]
    {
      seq(ring.usedMsgs, i requires 0 <= i < ring.usedMsgs => store[SlotAt(ring, i)])
    }
  }

  datatype Op<T> = OpPut(m: T) | OpPutFront(m: T) | OpGet | OpPeekAt(i: u32) | OpPurge

  datatype Reply<T> = Accepted | HandedOver(m: T) | Message(m: T) | Purged(n: nat) | Failed(error: i32)

  function Step<T>(q: Queue<T>, op: Op<T>): (Queue<T>, Reply<T>)
    requires q.Inv()
  {
    var r := q.ring;
    match op
    case OpPut(m) =>
      if r.usedMsgs >= r.maxMsgs then (q, Failed(ENOMSG))
      else (Queue(Put(r), q.store[r.writeIdx := m]), Accepted)
    case OpPutFront(m) =>
      if r.usedMsgs >= r.maxMsgs then (q, Failed(ENOMSG))
      else (Queue(PutFront(r), q.store[PutFront(r).readIdx := m]), Accepted)
    case OpGet =>
      if r.usedMsgs == 0 then (q, Failed(ENOMSG))
      else (q.(ring := Get(r)), Message(q.store[r.readIdx]))
    case OpPeekAt(i) =>
      if i >= r.usedMsgs then (q, Failed(ENOMSG)) else (q, Message(q.store[SlotAt(r, i)]))
    case OpPurge => (q.(ring := Purge(r)), Purged(r.usedMsgs))
  }

  /** The reference: a double-ended queue that holds at most `cap` messages. */
  function DequeStep<T>(d: seq<T>, cap: nat, op: Op<T>): (seq<T>, Reply<T>) {
    match op
    case OpPut(m) => if |d| >= cap then (d, Failed(-35)) else (d + [m], Accepted)
    case OpPutFront(m) => if |d| >= cap then (d, Failed(-35)) else ([m] + d, Accepted)
    case OpGet => if d == [] then (d, Failed(-35)) else (d[1..], Message(d[0]))
    case OpPeekAt(i) => if i >= |d| then (d, Failed(-35)) else (d, Message(d[i]))
    case OpPurge => ([], Purged(|d|))
  }

  lemma PutRefines<T>(q: Queue<T>, m: T)
    requires q.Inv() && q.ring.usedMsgs < q.ring.maxMsgs
    ensures var q' := Step(q, OpPut(m)).0; q'.Inv() && q'.Contents() == q.Contents() + [m]
  {
    var q' := Step(q, OpPut(m)).0;
    forall i | 0 <= i < q.ring.usedMsgs ensures q'.Contents()[i] == q.Contents()[i] {
      assert SlotAt(q'.ring, i) == SlotAt(q.ring, i) != q.ring.writeIdx;
    }
    assert SlotAt(q'.ring, q.ring.usedMsgs) == q.ring.writeIdx;
  }

  lemma PutFrontKeeps(r: Ring)
    requires r.Inv() && r.usedMsgs < r.maxMsgs
    ensures PutFront(r).Inv() && SlotAt(PutFront(r), 0) == PutFront(r).readIdx
  {
  }

  lemma PutFrontSlots(r: Ring, i: nat)
    requires r.Inv() && i < r.usedMsgs < r.maxMsgs
    ensures PutFront(r).Inv() && SlotAt(PutFront(r), i + 1) == SlotAt(r, i) != PutFront(r).readIdx
  {
  }

  lemma PutFrontRefines<T>(q: Queue<T>, m: T)
    requires q.Inv() && q.ring.usedMsgs < q.ring.maxMsgs
    ensures var q' := Step(q, OpPutFront(m)).0; q'.Inv() && q'.Contents() == [m] + q.Contents()
  {
    var q' := Step(q, OpPutFront(m)).0;
    PutFrontKeeps(q.ring);
    forall i | 0 <= i < q.ring.usedMsgs ensures q'.Contents()[i + 1] == q.Contents()[i] {
      PutFrontSlots(q.ring, i);
    }
  }

  lemma GetRefines<T>(q: Queue<T>)
    requires q.Inv() && q.ring.usedMsgs > 0
    ensures var (q', r) := Step(q, OpGet);
      q'.Inv() && q'.Contents() == q.Contents()[1..] && r == Message(q.Contents()[0])
  {
    var q' := Step(q, OpGet).0;
    assert SlotAt(q.ring, 0) == q.ring.readIdx;
    forall i | 0 <= i < q'.ring.usedMsgs ensures q'.Contents()[i] == q.Contents()[i + 1] {
      assert SlotAt(q'.ring, i) == SlotAt(q.ring, i + 1);
    }
  }

  lemma StepRefines<T>(q: Queue<T>, op: Op<T>)
    requires q.Inv()
    ensures var (q', r) := Step(q, op);
      && q'.Inv() && q'.ring.maxMsgs == q.ring.maxMsgs && q'.ring.msgSize == q.ring.msgSize
      && (q'.Contents(), r) == DequeStep(q.Contents(), q.ring.maxMsgs, op)
  {
    match op
    case OpPut(m) => if q.ring.usedMsgs < q.ring.maxMsgs { PutRefines(q, m); }
    case OpPutFront(m) => if q.ring.usedMsgs < q.ring.maxMsgs { PutFrontRefines(q, m); }
    case OpGet => if q.ring.usedMsgs > 0 { GetRefines(q); }
    case OpPeekAt(i) =>
    case OpPurge =>
      assert Step(q, OpPurge).0.Contents() == [];
  }

  function Run<T>(q: Queue<T>, ops: seq<Op<T>>): (Queue<T>, seq<Reply<T>>)
    requires q.Inv()
    decreases |ops|
  {
    if ops == [] then (q, [])
    else
      StepRefines(q, ops[0]);
      var (q', r) := Step(q, ops[0]);
      var (q'', rs) := Run(q', ops[1..]);
      (q'', [r] + rs)
  }

  function DequeRun<T>(d: seq<T>, cap: nat, ops: seq<Op<T>>): (seq<T>, seq<Reply<T>>)
    decreases |ops|
  {
    if ops == [] then (d, [])
    else
      var (d', r) := DequeStep(d, cap, ops[0]);
      var (d'', rs) := DequeRun(d', cap, ops[1..]);
      (d'', [r] + rs)
  }

  /** For every capacity and every sequence of operations the ring answers as the
      bounded deque does, and holds what it holds. */
  lemma {:induction false} RingRefinesDeque<T>(q: Queue<T>, ops: seq<Op<T>>)
    requires q.Inv()
    ensures var (q', rs) := Run(q, ops);
      q'.Inv() && (q'.Contents(), rs) == DequeRun(q.Contents(), q.ring.maxMsgs, ops)
    decreases |ops|
  {
    if ops != [] {
      StepRefines(q, ops[0]);
      RingRefinesDeque(Step(q, ops[0]).0, ops[1..]);
    }
  }

  // ---------------------------------------------------------------------------
  // The scalar decision functions
  // ---------------------------------------------------------------------------

  datatype PutDecision = StoreMsg | WakeReader | PutPend | Full

  datatype GetDecision = ReadMsg | WakeWriter | GetPend | EmptyQueue

  datatype PutDecideResult = PutDecideResult(decision: PutDecision, newWriteIdx: u32, newUsed: u32)

  datatype GetDecideResult = GetDecideResult(decision: GetDecision, newReadIdx: u32, newUsed: u32)

  datatype PutFrontDecideResult = PutFrontDecideResult(ok: bool, newReadIdx: u32, newUsed: u32)

  datatype PeekAtDecideResult = PeekAtDecideResult(ok: bool, slotIdx: u32)

  function PutDecide(writeIdx: u32, used: u32, max: u32, hasWaiter: bool, noWait: bool): PutDecideResult
    requires writeIdx < max && used <= max
  {
    if used < max then
      if hasWaiter then PutDecideResult(WakeReader, writeIdx, used)
      else PutDecideResult(StoreMsg, if writeIdx + 1 < max then writeIdx + 1 else 0, used + 1)
    else PutDecideResult(if noWait then Full else PutPend, writeIdx, used)
  }

  function GetDecide(readIdx: u32, used: u32, max: u32, hasWaiter: bool, noWait: bool): GetDecideResult
    requires readIdx < max && used <= max
  {
    if used > 0 then
      GetDecideResult(if hasWaiter then WakeWriter else ReadMsg,
                      if readIdx + 1 < max then readIdx + 1 else 0, used - 1)
    else GetDecideResult(if noWait then EmptyQueue else GetPend, readIdx, 0)
  }

  function PutFrontDecide(readIdx: u32, used: u32, max: u32): PutFrontDecideResult
    requires readIdx < max && used <= max
  {
    if used < max then PutFrontDecideResult(true, if readIdx == 0 then max - 1 else readIdx - 1, used + 1)
    else PutFrontDecideResult(false, readIdx, used)
  }

  function PeekAtDecide(readIdx: u32, used: u32, max: u32, idx: u32): PeekAtDecideResult
    requires readIdx < max && used <= max
  {
    if idx >= used then PeekAtDecideResult(false, 0)
    else
      var sum: u64 := readIdx + idx;
      PeekAtDecideResult(true, if sum < max then sum else sum - max)
  }

  /** What a caller tells the scalar forms: is a reader or a writer blocked on the
      queue, and does the caller itself refuse to block. */
  datatype Flags = Flags(readerWaits: bool, writerWaits: bool, noWait: bool)

  /** A caller that keeps the indices itself and asks the scalar forms for each move.
      A message put while a reader waits goes to that reader, past the buffer. */
  function DecideStep<T>(q: Queue<T>, op: Op<T>, f: Flags): (Queue<T>, Reply<T>)
    requires q.Inv()
  {
    var r := q.ring;
    match op
    case OpPut(m) =>
      var p := PutDecide(r.writeIdx, r.usedMsgs, r.maxMsgs, f.readerWaits, f.noWait);
      var r' := r.(writeIdx := p.newWriteIdx, usedMsgs := p.newUsed);
      if p.decision == StoreMsg then (Queue(r', q.store[r.writeIdx := m]), Accepted)
      else if p.decision == WakeReader then (q.(ring := r'), HandedOver(m))
      else (q.(ring := r'), Failed(ENOMSG))
    case OpPutFront(m) =>
      var p := PutFrontDecide(r.readIdx, r.usedMsgs, r.maxMsgs);
      var r' := r.(readIdx := p.newReadIdx, usedMsgs := p.newUsed);
      if p.ok then (Queue(r', q.store[p.newReadIdx := m]), Accepted)
      else (q.(ring := r'), Failed(ENOMSG))
    case OpGet =>
      var g := GetDecide(r.readIdx, r.usedMsgs, r.maxMsgs, f.writerWaits, f.noWait);
      var r' := r.(readIdx := g.newReadIdx, usedMsgs := g.newUsed);
      if g.decision == ReadMsg || g.decision == WakeWriter then (q.(ring := r'), Message(q.store[r.readIdx]))
      else (q.(ring := r'), Failed(ENOMSG))
    case OpPeekAt(i) =>
      var k := PeekAtDecide(r.readIdx, r.usedMsgs, r.maxMsgs, i);
      (q, if k.ok then Message(q.store[k.slotIdx]) else Failed(ENOMSG))
    case OpPurge => (q.(ring := Purge(r)), Purged(r.usedMsgs))
  }

  /** What the decisions say besides the moves, by the contents of the queue: a put blocks
      the caller exactly when the queue is full and the caller may wait, and wakes a reader
      exactly when there is room and one waits; a get blocks the caller exactly when the
      queue is empty and the caller may wait, and wakes a writer exactly when there is a
      message and one waits. */
  lemma DecisionsExact<T>(q: Queue<T>, f: Flags)
    requires q.Inv()
    ensures var d, r, n := PutDecide(q.ring.writeIdx, q.ring.usedMsgs, q.ring.maxMsgs, f.readerWaits, f.noWait).decision,
        q.Contents(), q.ring.maxMsgs;
      && (d == PutPend <==> |r| == n && !f.noWait) && (d == Full <==> |r| == n && f.noWait)
      && (d == WakeReader <==> |r| < n && f.readerWaits) && (d == StoreMsg <==> |r| < n && !f.readerWaits)
    ensures var d, r := GetDecide(q.ring.readIdx, q.ring.usedMsgs, q.ring.maxMsgs, f.writerWaits, f.noWait).decision,
        q.Contents();
      && (d == GetPend <==> r == [] && !f.noWait) && (d == EmptyQueue <==> r == [] && f.noWait)
      && (d == WakeWriter <==> r != [] && f.writerWaits) && (d == ReadMsg <==> r != [] && !f.writerWaits)
  {
  }

  /** The bounded deque, with a put to a waiting reader handed over while there is room. */
  function HandingStep<T>(d: seq<T>, cap: nat, op: Op<T>, readerWaits: bool): (seq<T>, Reply<T>) {
    if op.OpPut? && readerWaits && |d| < cap then (d, HandedOver(op.m)) else DequeStep(d, cap, op)
  }

  /** The scalar forms make the moves of the methods, except that a put to a waiting
      reader moves nothing. */
  lemma DecideStepAgrees<T>(q: Queue<T>, op: Op<T>, f: Flags)
    requires q.Inv()
    ensures DecideStep(q, op, f) ==
      if op.OpPut? && f.readerWaits && q.ring.usedMsgs < q.ring.maxMsgs then (q, HandedOver(op.m)) else Step(q, op)
    ensures var (q', r) := DecideStep(q, op, f);
      && q'.Inv() && q'.ring.maxMsgs == q.ring.maxMsgs
      && (q'.Contents(), r) == HandingStep(q.Contents(), q.ring.maxMsgs, op, f.readerWaits)
  {
    StepRefines(q, op);
  }

  function DecideRun<T>(q: Queue<T>, ops: seq<Op<T>>, flags: seq<Flags>): (Queue<T>, seq<Reply<T>>)
    requires q.Inv() && |flags| == |ops|
    decreases |ops|
  {
    if ops == [] then (q, [])
    else
      DecideStepAgrees(q, ops[0], flags[0]);
      var (q', r) := DecideStep(q, ops[0], flags[0]);
      var (q'', rs) := DecideRun(q', ops[1..], flags[1..]);
      (q'', [r] + rs)
  }

  function HandingRun<T>(d: seq<T>, cap: nat, ops: seq<Op<T>>, flags: seq<Flags>): (seq<T>, seq<Reply<T>>)
    requires |flags| == |ops|
    decreases |ops|
  {
    if ops == [] then (d, [])
    else
      var (d', r) := HandingStep(d, cap, ops[0], flags[0].readerWaits);
      var (d'', rs) := HandingRun(d', cap, ops[1..], flags[1..]);
      (d'', [r] + rs)
  }

  /** Whatever the flags, the scalar forms drive the bounded deque with hand-over. */
  lemma {:induction false} DecisionsRefineDeque<T>(q: Queue<T>, ops: seq<Op<T>>, flags: seq<Flags>)
    requires q.Inv() && |flags| == |ops|
    ensures var (q', rs) := DecideRun(q, ops, flags);
      q'.Inv() && (q'.Contents(), rs) == HandingRun(q.Contents(), q.ring.maxMsgs, ops, flags)
    decreases |ops|
  {
    if ops != [] {
      DecideStepAgrees(q, ops[0], flags[0]);
      DecisionsRefineDeque(DecideStep(q, ops[0], flags[0]).0, ops[1..], flags[1..]);
    }
  }

  /** While no reader waits they drive the very ring the methods drive. */
  lemma {:induction false} DecisionsAreMethods<T>(q: Queue<T>, ops: seq<Op<T>>, flags: seq<Flags>)
    requires q.Inv() && |flags| == |ops|
    requires forall k :: 0 <= k < |flags| ==> !flags[k].readerWaits
    ensures DecideRun(q, ops, flags) == Run(q, ops)
    decreases |ops|
  {
    if ops != [] {
      DecideStepAgrees(q, ops[0], flags[0]);
      DecisionsAreMethods(Step(q, ops[0]).0, ops[1..], flags[1..]);
    }
  }

  // ---------------------------------------------------------------------------
  // Delivery order
  // ---------------------------------------------------------------------------

  /** The message operation `op` delivers when it is answered `r`. */
  function Delivered<T>(op: Op<T>, r: Reply<T>): seq<T> {
    if r.HandedOver? then [r.m] else if op.OpGet? && r.Message? then [r.m] else []
  }

  /** The message operation `op` sends when it is answered `r`. */
  function Sent<T>(op: Op<T>, r: Reply<T>): seq<T> {
    if op.OpPut? && (r.Accepted? || r.HandedOver?) then [op.m] else []
  }

  function AllDelivered<T>(ops: seq<Op<T>>, rs: seq<Reply<T>>): seq<T>
    requires |rs| == |ops|
  {
    if ops == [] then [] else Delivered(ops[0], rs[0]) + AllDelivered(ops[1..], rs[1..])
  }

  function AllSent<T>(ops: seq<Op<T>>, rs: seq<Reply<T>>): seq<T>
    requires |rs| == |ops|
  {
    if ops == [] then [] else Sent(ops[0], rs[0]) + AllSent(ops[1..], rs[1..])
  }

  /** Neither puts at the front nor purges. */
  predicate InOrder<T>(op: Op<T>) {
    op.OpPut? || op.OpGet? || op.OpPeekAt?
  }

  /** A reader that is handed a message finds the queue empty. */
  predicate WaitsOnEmpty<T>(d: seq<T>, cap: nat, op: Op<T>, f: Flags) {
    op.OpPut? && f.readerWaits && |d| < cap ==> d == []
  }

  ghost predicate OrderlyRun<T>(d: seq<T>, cap: nat, ops: seq<Op<T>>, flags: seq<Flags>)
    requires |flags| == |ops|
    decreases |ops|
  {
    ops == [] || (
      && InOrder(ops[0]) && WaitsOnEmpty(d, cap, ops[0], flags[0])
      && OrderlyRun(HandingStep(d, cap, ops[0], flags[0].readerWaits).0, cap, ops[1..], flags[1..]))
  }

  lemma StepDelivers<T>(d: seq<T>, cap: nat, op: Op<T>, f: Flags)
    requires InOrder(op) && WaitsOnEmpty(d, cap, op, f)
    ensures var (d', r) := HandingStep(d, cap, op, f.readerWaits); Delivered(op, r) + d' == d + Sent(op, r)
  {
  }

  lemma Chain<T>(x: seq<T>, xs: seq<T>, d: seq<T>, d': seq<T>, d'': seq<T>, y: seq<T>, ys: seq<T>)
    requires x + d' == d + y && xs + d'' == d' + ys
    ensures (x + xs) + d'' == d + (y + ys)
  {
    assert (x + xs) + d'' == x + (xs + d'');
    assert x + (d' + ys) == (x + d') + ys;
    assert (d + y) + ys == d + (y + ys);
  }

  lemma {:induction false} HandingDelivers<T>(d: seq<T>, cap: nat, ops: seq<Op<T>>, flags: seq<Flags>)
    requires |flags| == |ops| && OrderlyRun(d, cap, ops, flags)
    ensures var (d', rs) := HandingRun(d, cap, ops, flags);
      |rs| == |ops| && AllDelivered(ops, rs) + d' == d + AllSent(ops, rs)
    decreases |ops|
  {
    if ops != [] {
      var (d', r) := HandingStep(d, cap, ops[0], flags[0].readerWaits);
      StepDelivers(d, cap, ops[0], flags[0]);
      HandingDelivers(d', cap, ops[1..], flags[1..]);
      var (d'', rs) := HandingRun(d', cap, ops[1..], flags[1..]);
      assert ([r] + rs)[1..] == rs;
      Chain(Delivered(ops[0], r), AllDelivered(ops[1..], rs), d, d', d'', Sent(ops[0], r), AllSent(ops[1..], rs));
    }
  }

  /** First in, first out across the hand-over: over every run of puts, gets and peeks in
      which readers wait only on an empty queue, what was delivered followed by what the
      ring holds is what it held followed by what was sent. */
  lemma DeliveryInOrder<T>(q: Queue<T>, ops: seq<Op<T>>, flags: seq<Flags>)
    requires q.Inv() && |flags| == |ops| && OrderlyRun(q.Contents(), q.ring.maxMsgs, ops, flags)
    ensures var (q', rs) := DecideRun(q, ops, flags);
      && q'.Inv() && |rs| == |ops|
      && AllDelivered(ops, rs) + q'.Contents() == q.Contents() + AllSent(ops, rs)
  {
    DecisionsRefineDeque(q, ops, flags);
    HandingDelivers(q.Contents(), q.ring.maxMsgs, ops, flags);
  }

  lemma {:induction false} RotationUniform<T>(d: seq<T>, m: T, n: nat)
    requires n <= |d| && [m] + d == d + [m]
    ensures forall k :: 0 <= k < n ==> d[k] == m
    decreases n
  {
    if n > 0 {
      RotationUniform(d, m, n - 1);
      assert ([m] + d)[n - 1] == (d + [m])[n - 1];
    }
  }

  /** One hand-over keeps the order exactly when every message it passes is equal to it. */
  lemma {:induction false} HandOverKeepsOrder<T>(d: seq<T>, cap: nat, m: T)
    requires |d| < cap
    ensures var (d', r) := HandingStep(d, cap, OpPut(m), true);
      Delivered(OpPut(m), r) + d' == d + Sent(OpPut(m), r) <==> forall k :: 0 <= k < |d| ==> d[k] == m
  {
    if [m] + d == d + [m] {
      RotationUniform(d, m, |d|);
    }
  }

  /** A reader that waits while a different message is stored gets the later one first. */
  lemma OvertakenMessage<T>(q: Queue<T>, m1: T, m2: T, f1: Flags, f2: Flags)
    requires q.Inv() && q.Contents() == [] && q.ring.maxMsgs >= 2 && m1 != m2
    requires !f1.readerWaits && f2.readerWaits
    ensures var ops := [OpPut(m1), OpPut(m2)]; var (q', rs) := DecideRun(q, ops, [f1, f2]);
      && q'.Inv() && |rs| == 2
      && AllSent(ops, rs) == [m1, m2] && AllDelivered(ops, rs) == [m2] && q'.Contents() == [m1]
  {
    var ops, flags := [OpPut(m1), OpPut(m2)], [f1, f2];
    var cap := q.ring.maxMsgs;
    var none: seq<T> := [];
    DecisionsRefineDeque(q, ops, flags);
    assert none + [m1] == [m1];
    var tail, tailFlags := ops[1..], flags[1..];
    assert tail == [OpPut(m2)] && tailFlags == [f2] && tail[1..] == [] && tailFlags[1..] == [];
    assert HandingRun([m1], cap, tail[1..], tailFlags[1..]) == ([m1], []);
    assert HandingRun([m1], cap, tail, tailFlags).0 == [m1] && HandingRun([m1], cap, tail, tailFlags).1 == [HandedOver(m2)];
    var rs := HandingRun(none, cap, ops, flags).1;
    assert rs == [Accepted] + [HandedOver(m2)];
    assert rs[1..] == [HandedOver(m2)] && rs[1..][1..] == [];
    assert AllSent(tail, rs[1..]) == [m2] + AllSent(tail[1..], rs[1..][1..]);
    assert AllDelivered(tail, rs[1..]) == [m2] + AllDelivered(tail[1..], rs[1..][1..]);
  }

  // ---------------------------------------------------------------------------
  // Fill and drain
  // ---------------------------------------------------------------------------

  function Puts<T>(ms: seq<T>): seq<Op<T>> {
    if ms == [] then [] else [OpPut(ms[0])] + Puts(ms[1..])
  }

  function Gets<T>(n: nat): seq<Op<T>> {
    if n == 0 then [] else [OpGet] + Gets(n - 1)
  }

  function Messages<T>(ms: seq<T>): seq<Reply<T>> {
    if ms == [] then [] else [Message(ms[0])] + Messages(ms[1..])
  }

  function Accepts<T>(n: nat): seq<Reply<T>> {
    if n == 0 then [] else [Accepted] + Accepts(n - 1)
  }

  lemma {:induction false} DequeFill<T>(d: seq<T>, cap: nat, ms: seq<T>, ops: seq<Op<T>>)
    requires |d| + |ms| <= cap
    ensures DequeRun(d, cap, Puts(ms) + ops).0 == DequeRun(d + ms, cap, ops).0
    ensures DequeRun(d, cap, Puts(ms) + ops).1 == Accepts(|ms|) + DequeRun(d + ms, cap, ops).1
    decreases |ms|
  {
    if ms == [] {
      assert Puts(ms) + ops == ops && d + ms == d;
    } else {
      var all := Puts(ms) + ops;
      assert all[0] == OpPut(ms[0]) && all[1..] == Puts(ms[1..]) + ops;
      var d' := d + [ms[0]];
      assert d + ms == d' + ms[1..];
      assert DequeStep(d, cap, all[0]) == (d', Accepted);
      DequeFill(d', cap, ms[1..], ops);
      var rest := DequeRun(d' + ms[1..], cap, ops).1;
      assert [Accepted] + (Accepts(|ms| - 1) + rest) == Accepts(|ms|) + rest;
    }
  }

  lemma {:induction false} DequeDrain<T>(d: seq<T>, cap: nat)
    ensures DequeRun(d, cap, Gets(|d|)) == ([], Messages(d))
    decreases |d|
  {
    if d != [] {
      assert Gets<T>(|d|)[1..] == Gets(|d| - 1);
      DequeDrain(d[1..], cap);
    }
  }

  /** From an empty ring at any position: as many puts as fit and as many gets give
      the messages back in order and leave the ring empty, indices together. */
  lemma FillThenDrain<T>(q: Queue<T>, ms: seq<T>)
    requires q.Inv() && q.ring.usedMsgs == 0 && |ms| <= q.ring.maxMsgs
    ensures var (q', rs) := Run(q, Puts(ms) + Gets(|ms|));
      rs == Accepts(|ms|) + Messages(ms) && q'.ring.usedMsgs == 0 && q'.ring.readIdx == q'.ring.writeIdx
  {
    var ops := Puts(ms) + Gets(|ms|);
    RingRefinesDeque(q, ops);
    DequeFill([], q.ring.maxMsgs, ms, Gets(|ms|));
    assert [] + ms == ms;
    DequeDrain(ms, q.ring.maxMsgs);
    assert q.Contents() == [];
  }

  // ---------------------------------------------------------------------------
  // The object
  // ---------------------------------------------------------------------------

  class MsgQ<T> {
    const msgSize: u32
    const maxMsgs: u32
    var readIdx: u32
    var writeIdx: u32
    var usedMsgs: u32
    /** The caller's buffer. */
    ghost var store: seq<T>

    ghost function View(): Queue<T>
      reads this
    {
      Queue(Ring(msgSize, maxMsgs, readIdx, writeIdx, usedMsgs), store)
    }

    ghost predicate Valid()
      reads this
    {
      View().Inv()
    }

    constructor (msgSize: u32, maxMsgs: u32, ghost buffer: seq<T>)
      requires msgSize > 0 && maxMsgs > 0 && |buffer| == maxMsgs
      ensures Valid() && View() == Queue(Ring(msgSize, maxMsgs, 0, 0, 0), buffer)
    {
      this.msgSize := msgSize;
      this.maxMsgs := maxMsgs;
      readIdx := 0;
      writeIdx := 0;
      usedMsgs := 0;
      store := buffer;
    }

    /** Returns the slot the caller copies the message to. */
    method PutMsg(ghost m: T) returns (r: Result<u32, i32>)
      requires Valid()
      modifies this
      ensures Valid() && View() == Step(old(View()), OpPut(m)).0
      ensures r == if old(usedMsgs) < maxMsgs then Ok(old(writeIdx)) else Err(-35)
    {
      StepRefines(View(), OpPut(m));
      if usedMsgs >= maxMsgs {
        return Err(ENOMSG);
      }
      var slot := writeIdx;
      writeIdx := NextIdx(writeIdx, maxMsgs);
      usedMsgs := usedMsgs + 1;
      store := store[slot := m];
      r := Ok(slot);
    }

    method PutFrontMsg(ghost m: T) returns (r: Result<u32, i32>)
      requires Valid()
      modifies this
      ensures Valid() && View() == Step(old(View()), OpPutFront(m)).0
      ensures r == if old(usedMsgs) < maxMsgs then Ok(readIdx) else Err(-35)
    {
      StepRefines(View(), OpPutFront(m));
      if usedMsgs >= maxMsgs {
        return Err(ENOMSG);
      }
      readIdx := PrevIdx(readIdx, maxMsgs);
      usedMsgs := usedMsgs + 1;
      store := store[readIdx := m];
      r := Ok(readIdx);
    }

    /** Returns the slot the caller copies the message from: the front one. */
    method GetMsg() returns (r: Result<u32, i32>)
      requires Valid()
      modifies this
      ensures Valid() && View() == Step(old(View()), OpGet).0
      ensures if old(usedMsgs) == 0 then r == Err(-35)
        else r == Ok(old(readIdx)) && store[old(readIdx)] == old(View()).Contents()[0]
    {
      StepRefines(View(), OpGet);
      if usedMsgs == 0 {
        return Err(ENOMSG);
      }
      assert SlotAt(View().ring, 0) == readIdx;
      var slot := readIdx;
      readIdx := NextIdx(readIdx, maxMsgs);
      usedMsgs := usedMsgs - 1;
      r := Ok(slot);
    }

    method PeekAt(i: u32) returns (r: Result<u32, i32>)
      requires Valid()
      ensures if i >= usedMsgs then r == Err(-35)
        else r.Ok? && r.value < maxMsgs && store[r.value] == View().Contents()[i]
    {
      if i >= usedMsgs {
        return Err(ENOMSG);
      }
      var sum: u64 := readIdx + i;
      var max: u64 := maxMsgs;
      if sum < max {
        r := Ok(sum);
      } else {
        r := Ok(sum - max);
      }
      assert View().Contents()[i] == store[SlotAt(View().ring, i)];
    }

    method PurgeAll() returns (n: u32)
      requires Valid()
      modifies this
      ensures Valid() && View() == Step(old(View()), OpPurge).0 && View().Contents() == [] && n == old(usedMsgs)
      ensures usedMsgs == 0 && readIdx == writeIdx == old(writeIdx)
    {
      n := usedMsgs;
      usedMsgs := 0;
      readIdx := writeIdx;
    }
  }

  /** `init` refuses empty messages, empty queues and buffers over 4 GiB. */
  method InitMsgQ<T>(msgSize: u32, maxMsgs: u32, ghost buffer: seq<T>) returns (r: Result<MsgQ<T>, i32>)
    requires |buffer| == maxMsgs
    ensures if msgSize > 0 && maxMsgs > 0 && msgSize * maxMsgs <= U32_MAX
      then r.Ok? && fresh(r.value) && r.value.Valid() && r.value.View() == Queue(Ring(msgSize, maxMsgs, 0, 0, 0), buffer)
      else r == Err(-22)
  {
    if msgSize == 0 || maxMsgs == 0 {
      return Err(EINVAL);
    }
    if msgSize * maxMsgs > U32_MAX {
      return Err(EINVAL);
    }
    var q := new MsgQ<T>(msgSize, maxMsgs, buffer);
    r := Ok(q);
  }
}
