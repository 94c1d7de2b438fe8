/** Three bounded FIFO queues served round-robin. */
module Scheduler {
  import opened Types

  datatype WorkKind = ControlWork | PacketWork | ReconciliationWork

  datatype ScheduledItem = ScheduledItem(kind: WorkKind, value: string)

  datatype SchedulerState = SchedulerState(
    limits: CapacityLimits,
    control: seq<string>,
    packet: seq<string>,
    reconciliation: seq<string>,
    accepting: bool)

  function InitialScheduler(limits: CapacityLimits): SchedulerState {
    SchedulerState(limits, [], [], [], true)
  }

  function QueueOf(s: SchedulerState, kind: WorkKind): seq<string> {
    match kind
    case ControlWork => s.control
    case PacketWork => s.packet
    case ReconciliationWork => s.reconciliation
  }

  function CapacityOf(limits: CapacityLimits, kind: WorkKind): uint64 {
    match kind
    case ControlWork => limits.controlQueue
    case PacketWork => limits.packetQueue
    case ReconciliationWork => limits.reconciliationQueue
  }

  function WithQueue(s: SchedulerState, kind: WorkKind, queue: seq<string>): SchedulerState {
    match kind
    case ControlWork => s.(control := queue)
    case PacketWork => s.(packet := queue)
    case ReconciliationWork => s.(reconciliation := queue)
  }

  predicate Admits(s: SchedulerState, kind: WorkKind) {
    s.accepting && |QueueOf(s, kind)| < CapacityOf(s.limits, kind)
  }

  function Tagged(kind: WorkKind, queue: seq<string>): (items: seq<ScheduledItem>)
    ensures |items| == |queue|
    ensures forall i | 0 <= i < |queue| :: items[i] == ScheduledItem(kind, queue[i])
  {
    seq(|queue|, i requires 0 <= i < |queue| => ScheduledItem(kind, queue[i]))
  }

  function Front(queue: seq<string>): seq<string> {
    if queue == [] then [] else [queue[0]]
  }

  function Rest(queue: seq<string>): seq<string> {
    if queue == [] then [] else queue[1..]
  }

  // ----- Runs

  datatype SchedulerOp = Enqueue(kind: WorkKind, value: string) | TakeCycle | StopAdmission | ClassifyRemainder

  function SchedulerStep(s: SchedulerState, op: SchedulerOp): SchedulerState {
    match op
    case Enqueue(kind, value) =>
      if Admits(s, kind) then WithQueue(s, kind, QueueOf(s, kind) + [value]) else s
    case TakeCycle => s.(control := Rest(s.control), packet := Rest(s.packet), reconciliation := Rest(s.reconciliation))
    case StopAdmission => s.(accepting := false)
    case ClassifyRemainder => s.(control := [], packet := [], reconciliation := [])
  }

  /** The items an op hands out: a cycle one of each kind that has any, in fixed order; classification everything. */
  function Output(s: SchedulerState, op: SchedulerOp): seq<ScheduledItem> {
    match op
    case TakeCycle =>
      Tagged(ControlWork, Front(s.control)) + Tagged(PacketWork, Front(s.packet))
      + Tagged(ReconciliationWork, Front(s.reconciliation))
    case ClassifyRemainder =>
      Tagged(ControlWork, s.control) + Tagged(PacketWork, s.packet) + Tagged(ReconciliationWork, s.reconciliation)
    case _ => []
  }

  function SchedulerRun(s: SchedulerState, ops: seq<SchedulerOp>): SchedulerState
    decreases |ops|
  {
    if ops == [] then s else SchedulerRun(SchedulerStep(s, ops[0]), ops[1..])
  }

  /** The values of one kind among some items, in order. */
  function OfKind(items: seq<ScheduledItem>, kind: WorkKind): seq<string> {
    if items == [] then []
    else (if items[0].kind == kind then [items[0].value] else []) + OfKind(items[1..], kind)
  }

  /** Everything of one kind that a run hands out, in order. */
  function Served(s: SchedulerState, ops: seq<SchedulerOp>, kind: WorkKind): seq<string>
    decreases |ops|
  {
    if ops == [] then [] else OfKind(Output(s, ops[0]), kind) + Served(SchedulerStep(s, ops[0]), ops[1..], kind)
  }

  function AcceptedBy(s: SchedulerState, op: SchedulerOp, kind: WorkKind): seq<string> {
    if op.Enqueue? && op.kind == kind && Admits(s, kind) then [op.value] else []
  }

  /** Everything of one kind that a run accepts, in order. */
  function AcceptedIn(s: SchedulerState, ops: seq<SchedulerOp>, kind: WorkKind): seq<string>
    decreases |ops|
  {
    if ops == [] then [] else AcceptedBy(s, ops[0], kind) + AcceptedIn(SchedulerStep(s, ops[0]), ops[1..], kind)
  }

  lemma {:induction false} OfKindAppends(a: seq<ScheduledItem>, b: seq<ScheduledItem>, kind: WorkKind)
    ensures OfKind(a + b, kind) == OfKind(a, kind) + OfKind(b, kind)
    decreases |a|
  {
    if a == [] {
      assert a + b == b;
    } else {
      assert (a + b)[1..] == a[1..] + b;
      OfKindAppends(a[1..], b, kind);
    }
  }

  lemma {:induction false} OfKindTagged(tag: WorkKind, queue: seq<string>, kind: WorkKind)
    ensures OfKind(Tagged(tag, queue), kind) == if tag == kind then queue else []
    decreases |queue|
  {
    if queue != [] {
      assert Tagged(tag, queue)[1..] == Tagged(tag, queue[1..]);
      OfKindTagged(tag, queue[1..], kind);
    }
  }

  lemma OfKindTriple(a: seq<string>, b: seq<string>, c: seq<string>, kind: WorkKind)
    ensures OfKind(Tagged(ControlWork, a) + Tagged(PacketWork, b) + Tagged(ReconciliationWork, c), kind) ==
            match kind case ControlWork => a case PacketWork => b case ReconciliationWork => c
  {
    OfKindAppends(Tagged(ControlWork, a) + Tagged(PacketWork, b), Tagged(ReconciliationWork, c), kind);
    OfKindAppends(Tagged(ControlWork, a), Tagged(PacketWork, b), kind);
    OfKindTagged(ControlWork, a, kind);
    OfKindTagged(PacketWork, b, kind);
    OfKindTagged(ReconciliationWork, c, kind);
  }

  // What one op hands out of each kind.
  lemma OutputOfKind(s: SchedulerState, op: SchedulerOp, kind: WorkKind)
    ensures OfKind(Output(s, op), kind) ==
            match op
            case TakeCycle => Front(QueueOf(s, kind))
            case ClassifyRemainder => QueueOf(s, kind)
            case _ => []
  {
    if op == TakeCycle {
      OfKindTriple(Front(s.control), Front(s.packet), Front(s.reconciliation), kind);
    } else if op == ClassifyRemainder {
      OfKindTriple(s.control, s.packet, s.reconciliation, kind);
    }
  }

  lemma StepConserves(s: SchedulerState, op: SchedulerOp, kind: WorkKind)
    ensures QueueOf(s, kind) + AcceptedBy(s, op, kind) ==
            OfKind(Output(s, op), kind) + QueueOf(SchedulerStep(s, op), kind)
  {
    OutputOfKind(s, op, kind);
    var q := QueueOf(s, kind);
    if op == TakeCycle && q != [] {
      assert q == [q[0]] + q[1..];
    }
  }

  lemma ConservationComposes(q: seq<string>, acc: seq<string>, out: seq<string>, q': seq<string>,
                             more: seq<string>, served: seq<string>, end: seq<string>)
    requires q + acc == out + q' && q' + more == served + end
    ensures q + (acc + more) == (out + served) + end
  {
    assert q + (acc + more) == (q + acc) + more;
    assert (out + q') + more == out + (q' + more);
    assert out + (served + end) == (out + served) + end;
  }

  // Conservation: per kind, what was waiting plus what was accepted is what was handed out followed by what waits,
  // in the same order, so nothing is lost, duplicated or reordered.
  lemma {:induction false} Conservation(s: SchedulerState, ops: seq<SchedulerOp>, kind: WorkKind)
    ensures QueueOf(s, kind) + AcceptedIn(s, ops, kind) == Served(s, ops, kind) + QueueOf(SchedulerRun(s, ops), kind)
    decreases |ops|
  {
    if ops != [] {
      var op, s' := ops[0], SchedulerStep(s, ops[0]);
      StepConserves(s, op, kind);
      Conservation(s', ops[1..], kind);
      ConservationComposes(QueueOf(s, kind), AcceptedBy(s, op, kind), OfKind(Output(s, op), kind), QueueOf(s', kind),
        AcceptedIn(s', ops[1..], kind), Served(s', ops[1..], kind), QueueOf(SchedulerRun(s, ops), kind));
    }
  }

  function Cycles(ops: seq<SchedulerOp>): nat {
    if ops == [] then 0 else (if ops[0] == TakeCycle then 1 else 0) + Cycles(ops[1..])
  }

  predicate NeverClassifies(ops: seq<SchedulerOp>) {
    forall i | 0 <= i < |ops| :: ops[i] != ClassifyRemainder
  }

  lemma StepQueue(s: SchedulerState, op: SchedulerOp, kind: WorkKind)
    requires op != ClassifyRemainder
    ensures QueueOf(SchedulerStep(s, op), kind) ==
            if op == TakeCycle then Rest(QueueOf(s, kind)) else QueueOf(s, kind) + AcceptedBy(s, op, kind)
  {
  }

  lemma TakeOneMore(q: seq<string>, n: nat)
    requires n < |q|
    ensures [q[0]] + q[1..][..n] == q[..n + 1]
  {
  }

  lemma TakeFromLonger(q: seq<string>, more: seq<string>, n: nat)
    requires n <= |q|
    ensures (q + more)[..n] == q[..n]
  {
  }

  // No starvation: n cycles hand out exactly the first n items that were waiting, whatever is enqueued meanwhile and
  // in the other queues, so an item with k items ahead of it is served in exactly the (k+1)-th following cycle.
  lemma {:induction false} ServedInTurn(s: SchedulerState, ops: seq<SchedulerOp>, kind: WorkKind)
    requires NeverClassifies(ops) && Cycles(ops) <= |QueueOf(s, kind)|
    ensures Served(s, ops, kind) == QueueOf(s, kind)[..Cycles(ops)]
    decreases |ops|
  {
    if ops != [] {
      var op, q, n := ops[0], QueueOf(s, kind), Cycles(ops[1..]);
      assert op != ClassifyRemainder;
      OutputOfKind(s, op, kind);
      StepQueue(s, op, kind);
      ServedInTurn(SchedulerStep(s, op), ops[1..], kind);
      if op == TakeCycle {
        TakeOneMore(q, n);
      } else {
        TakeFromLonger(q, AcceptedBy(s, op, kind), n);
        assert OfKind(Output(s, op), kind) == [];
      }
    }
  }

  predicate WithinLimits(s: SchedulerState) {
    && |s.control| <= s.limits.controlQueue
    && |s.packet| <= s.limits.packetQueue
    && |s.reconciliation| <= s.limits.reconciliationQueue
  }

  // Every queue stays within its limit over every run.
  lemma {:induction false} QueuesStayBounded(s: SchedulerState, ops: seq<SchedulerOp>)
    requires WithinLimits(s)
    ensures WithinLimits(SchedulerRun(s, ops))
    decreases |ops|
  {
    if ops != [] {
      QueuesStayBounded(SchedulerStep(s, ops[0]), ops[1..]);
    }
  }

  function Pending(s: SchedulerState): nat {
    |s.control| + |s.packet| + |s.reconciliation|
  }

  function Longest(s: SchedulerState): nat {
    Max(|s.control|, Max(|s.packet|, |s.reconciliation|))
  }

  lemma {:induction false} StoppedQueue(s: SchedulerState, ops: seq<SchedulerOp>, kind: WorkKind)
    requires !s.accepting && NeverClassifies(ops)
    ensures |QueueOf(SchedulerRun(s, ops), kind)| == Max(0, |QueueOf(s, kind)| - Cycles(ops))
    decreases |ops|
  {
    if ops != [] {
      assert ops[0] != ClassifyRemainder;
      StoppedQueue(SchedulerStep(s, ops[0]), ops[1..], kind);
    }
  }

  // Once admission has stopped, the scheduler is empty after exactly as many cycles as its longest queue is long.
  lemma DrainsExactly(s: SchedulerState, ops: seq<SchedulerOp>)
    requires !s.accepting && NeverClassifies(ops)
    ensures Pending(SchedulerRun(s, ops)) == 0 <==> Cycles(ops) >= Longest(s)
  {
    StoppedQueue(s, ops, ControlWork);
    StoppedQueue(s, ops, PacketWork);
    StoppedQueue(s, ops, ReconciliationWork);
  }

  // ----- Order within an op, and who is admitted

  function Turn(kind: WorkKind): nat {
    match kind
    case ControlWork => 1
    case PacketWork => 2
    case ReconciliationWork => 3
  }

  // A cycle hands out at most one item of each kind, control before packets before reconciliation; classification hands
  // out all control items before all packets before all reconciliation items.
  lemma OutputInTurn(s: SchedulerState)
    ensures var items := Output(s, TakeCycle);
            forall i, j | 0 <= i < j < |items| :: Turn(items[i].kind) < Turn(items[j].kind)
    ensures var items := Output(s, ClassifyRemainder);
            forall i, j | 0 <= i < j < |items| :: Turn(items[i].kind) <= Turn(items[j].kind)
    ensures SchedulerStep(s, ClassifyRemainder) == s.(control := [], packet := [], reconciliation := [])
  {
  }

  /** The limit of each queue. */
  function QueueLimit(limits: CapacityLimits, kind: WorkKind): nat {
    match kind
    case ControlWork => limits.controlQueue
    case PacketWork => limits.packetQueue
    case ReconciliationWork => limits.reconciliationQueue
  }

  lemma {:induction false} AcceptingIffNotStopped(s: SchedulerState, ops: seq<SchedulerOp>)
    ensures SchedulerRun(s, ops).accepting <==> s.accepting && StopAdmission !in ops
    ensures SchedulerRun(s, ops).limits == s.limits
    decreases |ops|
  {
    if ops != [] {
      assert ops == [ops[0]] + ops[1..];
      AcceptingIffNotStopped(SchedulerStep(s, ops[0]), ops[1..]);
    }
  }

  // After any run a further item is accepted exactly if admission was not stopped and fewer items than the limit of its
  // queue have been accepted but not yet handed out.
  lemma AcceptedIffRoom(limits: CapacityLimits, ops: seq<SchedulerOp>, kind: WorkKind, value: string)
    ensures var s := InitialScheduler(limits);
            var waiting := |AcceptedIn(s, ops, kind)| - |Served(s, ops, kind)|;
            AcceptedBy(SchedulerRun(s, ops), Enqueue(kind, value), kind) ==
            if StopAdmission !in ops && waiting < QueueLimit(limits, kind) then [value] else []
  {
    var s := InitialScheduler(limits);
    Conservation(s, ops, kind);
    AcceptingIffNotStopped(s, ops);
    assert |QueueOf(s, kind) + AcceptedIn(s, ops, kind)| == |AcceptedIn(s, ops, kind)|;
  }

  lemma MoveOver(items: seq<ScheduledItem>, kind: WorkKind, queue: seq<string>)
    requires queue != []
    ensures (items + [ScheduledItem(kind, queue[0])]) + Tagged(kind, queue[1..]) == items + Tagged(kind, queue)
  {
    assert Tagged(kind, queue) == [ScheduledItem(kind, queue[0])] + Tagged(kind, queue[1..]);
  }

  // ----- The class

  class Scheduler {
    const limits: CapacityLimits
    var control: seq<string>
    var packet: seq<string>
    var reconciliation: seq<string>
    var accepting: bool

    function State(): SchedulerState
      reads this
    {
      SchedulerState(limits, control, packet, reconciliation, accepting)
    }

    constructor (limits: CapacityLimits)
      ensures State() == InitialScheduler(limits)
    {
      this.limits := limits;
      control, packet, reconciliation, accepting := [], [], [], true;
    }

    method EnqueueControl(value: string) returns (ok: bool)
      modifies `control
      ensures ok <==> Admits(old(State()), ControlWork)
      ensures State() == SchedulerStep(old(State()), Enqueue(ControlWork, value))
      ensures ok <==> accepting && |old(control)| < limits.controlQueue
      ensures control == if ok then old(control) + [value] else old(control)
    {
      if !accepting || |control| >= limits.controlQueue {
        return false;
      }
      control := control + [value];
      return true;
    }

    method EnqueuePacket(value: string) returns (ok: bool)
      modifies `packet
      ensures ok <==> Admits(old(State()), PacketWork)
      ensures State() == SchedulerStep(old(State()), Enqueue(PacketWork, value))
      ensures ok <==> accepting && |old(packet)| < limits.packetQueue
      ensures packet == if ok then old(packet) + [value] else old(packet)
    {
      if !accepting || |packet| >= limits.packetQueue {
        return false;
      }
      packet := packet + [value];
      return true;
    }

    method EnqueueReconciliation(value: string) returns (ok: bool)
      modifies `reconciliation
      ensures ok <==> Admits(old(State()), ReconciliationWork)
      ensures State() == SchedulerStep(old(State()), Enqueue(ReconciliationWork, value))
      ensures ok <==> accepting && |old(reconciliation)| < limits.reconciliationQueue
      ensures reconciliation == if ok then old(reconciliation) + [value] else old(reconciliation)
    {
      if !accepting || |reconciliation| >= limits.reconciliationQueue {
        return false;
      }
      reconciliation := reconciliation + [value];
      return true;
    }

    method TakeCycle() returns (result: seq<ScheduledItem>)
      modifies this
      ensures State() == SchedulerStep(old(State()), SchedulerOp.TakeCycle)
      ensures result == Output(old(State()), SchedulerOp.TakeCycle)
    {
      result := [];
      if control != [] {
        result := result + [ScheduledItem(ControlWork, control[0])];
        control := control[1..];
      }
      if packet != [] {
        result := result + [ScheduledItem(PacketWork, packet[0])];
        packet := packet[1..];
      }
      if reconciliation != [] {
        result := result + [ScheduledItem(ReconciliationWork, reconciliation[0])];
        reconciliation := reconciliation[1..];
      }
    }

    method StopAdmission()
      modifies `accepting
      ensures State() == SchedulerStep(old(State()), SchedulerOp.StopAdmission)
      ensures !accepting
    {
      accepting := false;
    }

    method ClassifyRemainder() returns (result: seq<ScheduledItem>)
      modifies this
      ensures State() == SchedulerStep(old(State()), SchedulerOp.ClassifyRemainder)
      ensures result == Output(old(State()), SchedulerOp.ClassifyRemainder)
      ensures control == [] && packet == [] && reconciliation == []
    {
      result := [];
      while control != []
        invariant packet == old(packet) && reconciliation == old(reconciliation) && accepting == old(accepting)
        invariant result + Tagged(ControlWork, control) == Tagged(ControlWork, old(control))
        decreases |control|
      {
        MoveOver(result, ControlWork, control);
        result := result + [ScheduledItem(ControlWork, control[0])];
        control := control[1..];
      }
      assert Tagged(ControlWork, control) == [];
      assert result == Tagged(ControlWork, old(control));
      ghost var controls := result;
      while packet != []
        invariant control == [] && reconciliation == old(reconciliation) && accepting == old(accepting)
        invariant result + Tagged(PacketWork, packet) == controls + Tagged(PacketWork, old(packet))
        decreases |packet|
      {
        MoveOver(result, PacketWork, packet);
        result := result + [ScheduledItem(PacketWork, packet[0])];
        packet := packet[1..];
      }
      assert Tagged(PacketWork, packet) == [];
      assert result == Tagged(ControlWork, old(control)) + Tagged(PacketWork, old(packet));
      ghost var packets := result;
      while reconciliation != []
        invariant control == [] && packet == [] && accepting == old(accepting)
        invariant result + Tagged(ReconciliationWork, reconciliation) ==
                  packets + Tagged(ReconciliationWork, old(reconciliation))
        decreases |reconciliation|
      {
        MoveOver(result, ReconciliationWork, reconciliation);
        result := result + [ScheduledItem(ReconciliationWork, reconciliation[0])];
        reconciliation := reconciliation[1..];
      }
      assert Tagged(ReconciliationWork, reconciliation) == [];
    }

    method PendingItems() returns (count: nat)
      ensures count == Pending(State())
      ensures count == 0 <==> control == [] && packet == [] && reconciliation == []
    {
      count := |control| + |packet| + |reconciliation|;
    }
  }
}
