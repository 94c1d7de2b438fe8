/** Reconciliation: bounded retries of the intended version against the adapter. */
module Reconciliation {
  import opened Types
  import Text
  import opened RuleServiceModel
  import RuleService
  import opened Dataplane

  datatype ReconciliationStatus = ReconciliationStatus(converged: bool, attempts: uint32, delayed: bool)

  const NOT_ATTEMPTED := ReconciliationStatus(false, 0, false)

  // ----- The result of one call

  /** The number of transient failures at the head of what is left of a script. */
  function Transients(script: seq<AdapterOutcome>): (n: nat)
    ensures n <= |script|
    ensures forall i | 0 <= i < n :: script[i] == TransientFailure
    ensures n < |script| ==> script[n] != TransientFailure
  {
    if script == [] || script[0] != TransientFailure then 0 else 1 + Transients(script[1..])
  }

  /** The attempt counter is 32 bits wide and is compared with `<=`, so the largest bound never ends the loop. */
  predicate Unbounded(maximum: uint32) {
    maximum == U32_MAX
  }

  /** A count kept in 32 bits. */
  function Wrapped(n: nat): uint32 {
    n % 0x1_0000_0000
  }

  function Incremented(n: uint32): uint32 {
    if n == U32_MAX then 0 else n + 1
  }

  lemma WrappedStep(n: nat)
    ensures Wrapped(n + 1) == Incremented(Wrapped(n))
    ensures n <= U32_MAX ==> Wrapped(n) == n
  {
  }

  /** The first non-transient outcome is reached within the attempts allowed. */
  predicate Decided(transients: nat, maximum: uint32) {
    Unbounded(maximum) || transients < maximum
  }

  predicate Live(service: ServiceState, maximum: uint32) {
    service.intended.Some? && maximum != 0
  }

  /** What a live call leaves behind: the transient failures at the head of the script decide how many attempts it
      makes, and the outcome after them, if the bound lets it be reached, decides the rest. */
  function Reconciled(service: ServiceState, adapter: DataplaneState, maximum: uint32)
    : (ServiceState, DataplaneState, ReconciliationStatus)
    requires WithinScript(adapter)
  {
    if !Live(service, maximum) then (service, adapter, NOT_ATTEMPTED)
    else
      var version := service.intended.value.version;
      var id := service.latestUpdateId;
      if IsApplied(adapter, id, version) then
        (MarkApplied(service, id, version), adapter, ReconciliationStatus(true, 1, false))
      else
        var n := Transients(adapter.outcomes[adapter.next..]);
        if !Decided(n, maximum) then
          (service, adapter.(next := adapter.next + maximum), ReconciliationStatus(false, maximum, false))
        else
          var (adapter', outcome) := Apply(adapter.(next := adapter.next + n), id, version);
          (if outcome == Success then MarkApplied(service, id, version) else service,
           adapter',
           ReconciliationStatus(outcome == Success, Wrapped(n + 1), outcome == DelayedSuccess))
  }

  /** The number of times a call asks the adapter. */
  function AttemptsMade(service: ServiceState, adapter: DataplaneState, maximum: uint32): nat
    requires WithinScript(adapter)
  {
    if !Live(service, maximum) then 0
    else if IsApplied(adapter, service.latestUpdateId, service.intended.value.version) then 1
    else
      var n := Transients(adapter.outcomes[adapter.next..]);
      if Decided(n, maximum) then n + 1 else maximum
  }

  lemma {:induction false} TransientsAtLeast(script: seq<AdapterOutcome>, n: nat)
    requires n <= |script| && forall i | 0 <= i < n :: script[i] == TransientFailure
    ensures Transients(script) >= n
    ensures Transients(script) == n + Transients(script[n..])
    decreases n
  {
    if n == 0 {
      assert script[0..] == script;
    } else {
      assert script[1..][n - 1..] == script[n..];
      TransientsAtLeast(script[1..], n - 1);
    }
  }

  /** The state of a call after `n` transient failures. */
  predicate Retrying(service: ServiceState, start: DataplaneState, maximum: uint32, n: nat) {
    && Live(service, maximum)
    && start.next + n <= |start.outcomes|
    && (forall i | 0 <= i < n :: start.outcomes[start.next..][i] == TransientFailure)
    && (n > 0 ==> !IsApplied(start, service.latestUpdateId, service.intended.value.version))
    && (!Unbounded(maximum) ==> n <= maximum)
  }

  lemma TransientsSettle(start: DataplaneState, n: nat)
    requires start.next + n <= |start.outcomes|
    requires forall i | 0 <= i < n :: start.outcomes[start.next..][i] == TransientFailure
    ensures var more := start.next + n < |start.outcomes| && start.outcomes[start.next + n] == TransientFailure;
            if more then forall i | 0 <= i < n + 1 :: start.outcomes[start.next..][i] == TransientFailure
            else Transients(start.outcomes[start.next..]) == n
  {
    var script := start.outcomes[start.next..];
    TransientsAtLeast(script, n);
    if n < |script| {
      assert script[n] == start.outcomes[start.next + n] == script[n..][0];
    }
  }

  // A transient outcome that the bound allows to be reached is one more failure to retry after.
  lemma AttemptRepeats(service: ServiceState, start: DataplaneState, maximum: uint32, n: nat)
    requires Retrying(service, start, maximum, n) && Decided(n, maximum)
    requires Apply(start.(next := start.next + n), service.latestUpdateId,
                   service.intended.value.version).1 == TransientFailure
    ensures Apply(start.(next := start.next + n), service.latestUpdateId, service.intended.value.version).0 ==
            start.(next := start.next + n + 1)
    ensures Retrying(service, start, maximum, n + 1)
  {
    TransientsSettle(start, n);
  }

  lemma OutcomeAfter(start: DataplaneState, n: nat, updateId: string, version: uint64)
    requires start.next + n <= |start.outcomes| && (n > 0 ==> !IsApplied(start, updateId, version))
    requires forall i | 0 <= i < n :: start.outcomes[start.next..][i] == TransientFailure
    requires Apply(start.(next := start.next + n), updateId, version).1 != TransientFailure
    ensures IsApplied(start, updateId, version) || Transients(start.outcomes[start.next..]) == n
  {
    TransientsSettle(start, n);
  }

  // Any other outcome after the transient failures settles the call.
  lemma AttemptSettles(service: ServiceState, start: DataplaneState, maximum: uint32, n: nat)
    requires Retrying(service, start, maximum, n) && Decided(n, maximum)
    requires Apply(start.(next := start.next + n), service.latestUpdateId,
                   service.intended.value.version).1 != TransientFailure
    ensures var version, id := service.intended.value.version, service.latestUpdateId;
            var (adapter', outcome) := Apply(start.(next := start.next + n), id, version);
            && AttemptsMade(service, start, maximum) == n + 1
            && Reconciled(service, start, maximum) ==
               (if outcome == Success then MarkApplied(service, id, version) else service,
                adapter',
                ReconciliationStatus(outcome == Success, Wrapped(n + 1), outcome == DelayedSuccess))
  {
    OutcomeAfter(start, n, service.latestUpdateId, service.intended.value.version);
    assert Wrapped(1) == 1;
  }

  lemma AttemptsExhausted(service: ServiceState, start: DataplaneState, maximum: uint32)
    requires Retrying(service, start, maximum, maximum) && !Unbounded(maximum)
    ensures Reconciled(service, start, maximum) ==
            (service, start.(next := start.next + maximum), ReconciliationStatus(false, maximum, false))
    ensures AttemptsMade(service, start, maximum) == maximum
  {
    TransientsAtLeast(start.outcomes[start.next..], maximum);
  }

  class ReconciliationController {
    const service: RuleService.RuleService
    const adapter: SimulatedDataplane
    const maximumAttempts: uint32

    constructor (service: RuleService.RuleService, adapter: SimulatedDataplane, maximumAttempts: uint32)
      ensures this.service == service && this.adapter == adapter && this.maximumAttempts == maximumAttempts
    {
      this.service, this.adapter, this.maximumAttempts := service, adapter, maximumAttempts;
    }

    /** The retry loop, with the number of times it asks the adapter. */
    method Retry(version: uint64) returns (status: ReconciliationStatus, ghost attempts: nat)
      requires WithinScript(adapter.State()) && Live(service.State(), maximumAttempts)
      requires version == service.intended.value.version
      modifies service, adapter
      ensures (service.State(), adapter.State(), status) ==
              Reconciled(old(service.State()), old(adapter.State()), maximumAttempts)
      ensures attempts == AttemptsMade(old(service.State()), old(adapter.State()), maximumAttempts)
      ensures status.attempts == Wrapped(attempts)
    {
      status, attempts := NOT_ATTEMPTED, 0;
      ghost var sv, start := service.State(), adapter.State();
      var attempt: uint32 := 1;
      while attempt <= maximumAttempts
        invariant service.State() == sv
        invariant Retrying(sv, start, maximumAttempts, attempts)
        invariant adapter.State() == start.(next := start.next + attempts)
        invariant status == ReconciliationStatus(false, Wrapped(attempts), false)
        invariant attempt == Wrapped(attempts + 1)
        decreases |start.outcomes| - attempts
      {
        WrappedStep(attempts);
        WrappedStep(attempts + 1);
        status := status.(attempts := Incremented(status.attempts));
        var outcome := adapter.ApplyRequest(service.latestUpdateId, version);
        assert (adapter.State(), outcome) == Apply(start.(next := start.next + attempts), sv.latestUpdateId, version);
        if outcome == TransientFailure {
          AttemptRepeats(sv, start, maximumAttempts, attempts);
        } else {
          AttemptSettles(sv, start, maximumAttempts, attempts);
        }
        attempts := attempts + 1;
        if outcome == Success {
          service.MarkApplied(service.latestUpdateId, version);
          status := status.(converged := true);
          return;
        }
        if outcome == DelayedSuccess {
          status := status.(delayed := true);
          return;
        }
        if outcome == PermanentFailure {
          return;
        }
        attempt := Incremented(attempt);
      }
      AttemptsExhausted(sv, start, maximumAttempts);
    }

    method Reconcile() returns (status: ReconciliationStatus, ghost attempts: nat)
      requires WithinScript(adapter.State())
      modifies service, adapter
      ensures WithinScript(adapter.State())
      ensures (service.State(), adapter.State(), status) ==
              Reconciled(old(service.State()), old(adapter.State()), maximumAttempts)
      ensures attempts == AttemptsMade(old(service.State()), old(adapter.State()), maximumAttempts)
      ensures status.attempts == Wrapped(attempts)
    {
      if service.intended.None? || maximumAttempts == 0 {
        return NOT_ATTEMPTED, 0;
      }
      CallProgresses(service.State(), adapter.State(), maximumAttempts);
      status, attempts := Retry(service.intended.value.version);
    }
  }

  // ----- When the bound bounds

  /** A live call whose request has not been applied yet, so that it must use the script. */
  predicate MustUseScript(service: ServiceState, adapter: DataplaneState, maximum: uint32) {
    && Live(service, maximum)
    && !IsApplied(adapter, service.latestUpdateId, service.intended.value.version)
  }

  // The maximum bounds the outcomes a call consumes unless it is 2^32 - 1: then a call consumes more of them exactly
  // if the script goes on with that many transient failures and is longer still.
  lemma ConsumesMoreThanMaximumIff(service: ServiceState, adapter: DataplaneState, maximum: uint32)
    requires WithinScript(adapter) && MustUseScript(service, adapter, maximum)
    ensures var rest := adapter.outcomes[adapter.next..];
            Reconciled(service, adapter, maximum).1.next - adapter.next > maximum <==>
            maximum == U32_MAX && Transients(rest) >= U32_MAX && |rest| > U32_MAX
  {
  }

  // The same for the number of attempts, for any call.
  lemma AttemptsExceedMaximumIff(service: ServiceState, adapter: DataplaneState, maximum: uint32)
    requires WithinScript(adapter)
    ensures AttemptsMade(service, adapter, maximum) > maximum <==>
            && MustUseScript(service, adapter, maximum)
            && maximum == U32_MAX && Transients(adapter.outcomes[adapter.next..]) >= U32_MAX
  {
  }

  // The attempts reported are the attempts made exactly if these fit 32 bits, in particular whenever the maximum is
  // below 2^32 - 1.
  lemma AttemptsReportedIff(service: ServiceState, adapter: DataplaneState, maximum: uint32)
    requires WithinScript(adapter)
    ensures Reconciled(service, adapter, maximum).2.attempts == AttemptsMade(service, adapter, maximum) <==>
            AttemptsMade(service, adapter, maximum) <= U32_MAX
    ensures AttemptsMade(service, adapter, maximum) > U32_MAX ==> maximum == U32_MAX
  {
  }

  function Failures(n: nat): (r: seq<AdapterOutcome>)
    ensures |r| == n && forall i | 0 <= i < n :: r[i] == TransientFailure
  {
    seq(n, i => TransientFailure)
  }

  // The failing script: after 2^32 transient failures a call allowed 2^32 - 1 attempts has used them all, converges at
  // the next attempt, and reports that it made one.
  lemma LargestMaximumDoesNotBound(service: ServiceState)
    requires service.intended.Some?
    ensures var adapter := InitialDataplane(Failures(U32_MAX + 1));
            var (_, adapter', status) := Reconciled(service, adapter, U32_MAX);
            && adapter'.next == U32_MAX + 1
            && AttemptsMade(service, adapter, U32_MAX) == U32_MAX + 2
            && status == ReconciliationStatus(true, 1, false)
  {
    var script := Failures(U32_MAX + 1);
    assert script[0..] == script;
    TransientsAtLeast(script, U32_MAX + 1);
  }

  // ----- The control plane as a whole

  datatype ControlState = ControlState(service: ServiceState, adapter: DataplaneState)

  datatype ControlOp =
    | Serve(op: ServiceOp)
    | Reconcile(maximum: uint32)
    | Complete(updateId: string, version: uint64)

  ghost function ControlStep(c: ControlState, op: ControlOp): (c': ControlState)
    requires WithinScript(c.adapter)
    ensures WithinScript(c'.adapter) && c'.adapter.outcomes == c.adapter.outcomes
  {
    match op
    case Serve(op) => c.(service := ServiceStep(c.service, op))
    case Reconcile(maximum) =>
      var (service, adapter, _) := Reconciled(c.service, c.adapter, maximum);
      ControlState(service, adapter)
    case Complete(updateId, version) =>
      c.(adapter := CompleteDelayed(c.adapter, updateId, version, c.service.latestUpdateId,
                                    IntendedVersion(c.service)).0)
  }

  ghost function ControlRun(c: ControlState, ops: seq<ControlOp>): (c': ControlState)
    requires WithinScript(c.adapter)
    ensures WithinScript(c'.adapter) && c'.adapter.outcomes == c.adapter.outcomes
    decreases |ops|
  {
    if ops == [] then c else ControlRun(ControlStep(c, ops[0]), ops[1..])
  }

  /** A call that had a ruleset to apply and an attempt to spend, and did not converge. */
  predicate FailedCall(c: ControlState, op: ControlOp)
    requires WithinScript(c.adapter)
  {
    op.Reconcile? && Live(c.service, op.maximum) && !Reconciled(c.service, c.adapter, op.maximum).2.converged
  }

  ghost function FailedCalls(c: ControlState, ops: seq<ControlOp>): nat
    requires WithinScript(c.adapter)
    decreases |ops|
  {
    if ops == [] then 0 else (if FailedCall(c, ops[0]) then 1 else 0) + FailedCalls(ControlStep(c, ops[0]), ops[1..])
  }

  // A live call converges or consumes at least one scripted outcome.
  lemma CallProgresses(service: ServiceState, adapter: DataplaneState, maximum: uint32)
    requires WithinScript(adapter) && Live(service, maximum)
    ensures var (service', adapter', status) := Reconciled(service, adapter, maximum);
            && WithinScript(adapter')
            && adapter.next <= adapter'.next
            && (status.converged || adapter.next < adapter'.next)
            && (status.converged ==>
                  && Convergence(service') == Converged
                  && IsApplied(adapter', service.latestUpdateId, service.intended.value.version))
            && (!status.converged ==> service' == service)
            && (status.delayed ==>
                  Text.AdapterKey(service.latestUpdateId, service.intended.value.version) in adapter'.delayed)
  {
  }

  // Reconciliation has a real termination measure: however updates, removals, acknowledgements and delayed
  // completions are interleaved, the calls that fail to converge number at most the outcomes left in the script.
  lemma {:induction false} FailedCallsBounded(c: ControlState, ops: seq<ControlOp>)
    requires WithinScript(c.adapter)
    ensures FailedCalls(c, ops) <= ControlRun(c, ops).adapter.next - c.adapter.next
    ensures FailedCalls(c, ops) <= |c.adapter.outcomes| - c.adapter.next
    decreases |ops|
  {
    if ops != [] {
      if ops[0].Reconcile? && Live(c.service, ops[0].maximum) {
        CallProgresses(c.service, c.adapter, ops[0].maximum);
      }
      FailedCallsBounded(ControlStep(c, ops[0]), ops[1..]);
    }
  }

  // With the script used up every live call converges at its first attempt.
  lemma ExhaustedScriptConverges(service: ServiceState, adapter: DataplaneState, maximum: uint32)
    requires WithinScript(adapter) && adapter.next == |adapter.outcomes| && Live(service, maximum)
    ensures Reconciled(service, adapter, maximum).2 == ReconciliationStatus(true, 1, false)
    ensures Convergence(Reconciled(service, adapter, maximum).0) == Converged
  {
  }

  // A delayed success, once completed, makes the next call converge at its first attempt without touching the script.
  lemma DelayedThenCompletedConverges(service: ServiceState, adapter: DataplaneState, maximum: uint32)
    requires WithinScript(adapter) && Live(service, maximum)
    requires Reconciled(service, adapter, maximum).2.delayed
    ensures var (service', adapter', _) := Reconciled(service, adapter, maximum);
            var version := service.intended.value.version;
            var (completed, done) :=
              CompleteDelayed(adapter', service.latestUpdateId, version, service'.latestUpdateId, version);
            && done
            && Reconciled(service', completed, maximum) ==
               (MarkApplied(service', service.latestUpdateId, version), completed, ReconciliationStatus(true, 1, false))
  {
    CallProgresses(service, adapter, maximum);
  }

  // ----- Convergence is never claimed for a request the dataplane does not have

  /** The op neither removes the intent nor acknowledges it from outside the controller. */
  predicate Controlled(op: ControlOp) {
    op.Serve? ==> op.op.UpdateOp?
  }

  predicate ConvergedIsApplied(c: ControlState) {
    Convergence(c.service) == Converged ==>
      c.service.intended.Some? && IsApplied(c.adapter, c.service.latestUpdateId, c.service.intended.value.version)
  }

  ghost predicate Honest(c: ControlState) {
    && c.service.active == c.service.intended
    && c.service.appliedVersion <= IntendedVersion(c.service)
    && ConvergedIsApplied(c)
  }

  lemma StepKeepsHonest(c: ControlState, op: ControlOp)
    requires WithinScript(c.adapter) && Honest(c) && Controlled(op)
    ensures Honest(ControlStep(c, op))
  {
    if op.Reconcile? && Live(c.service, op.maximum) {
      CallProgresses(c.service, c.adapter, op.maximum);
    }
  }

  lemma {:induction false} RunKeepsHonest(c: ControlState, ops: seq<ControlOp>)
    requires WithinScript(c.adapter) && Honest(c)
    requires forall i | 0 <= i < |ops| :: Controlled(ops[i])
    ensures Honest(ControlRun(c, ops))
    decreases |ops|
  {
    if ops != [] {
      StepKeepsHonest(c, ops[0]);
      RunKeepsHonest(ControlStep(c, ops[0]), ops[1..]);
    }
  }

  // Over every run of updates, reconciliations and delayed completions, CONVERGED means that the dataplane has applied
  // the very version that is intended, under the ID of the latest update.
  lemma ConvergedMeansApplied(limits: CapacityLimits, outcomes: seq<AdapterOutcome>, ops: seq<ControlOp>)
    requires forall i | 0 <= i < |ops| :: Controlled(ops[i])
    ensures ConvergedIsApplied(ControlRun(ControlState(InitialService(limits), InitialDataplane(outcomes)), ops))
  {
    RunKeepsHonest(ControlState(InitialService(limits), InitialDataplane(outcomes)), ops);
  }

  /** The op claims a version that the dataplane does not have: an accepted update back to the recorded version, or an
      outside acknowledgement that counts, for a request that is not applied. */
  ghost predicate Unfounded(c: ControlState, op: ControlOp) {
    match op
    case Serve(UpdateOp(updateId, candidate)) =>
      && UpdateAccepted(c.service, updateId, candidate)
      && candidate.version == c.service.appliedVersion
      && !IsApplied(c.adapter, updateId, candidate.version)
    case Serve(MarkOp(updateId, version)) =>
      Acknowledges(c.service, updateId, version) && !IsApplied(c.adapter, updateId, version)
    case _ => false
  }

  lemma StepConvergedIsApplied(c: ControlState, op: ControlOp)
    requires WithinScript(c.adapter) && ConvergedIsApplied(c)
    ensures ConvergedIsApplied(ControlStep(c, op)) <==> !Unfounded(c, op)
  {
    if op.Reconcile? && Live(c.service, op.maximum) {
      CallProgresses(c.service, c.adapter, op.maximum);
    }
  }

  /** In every state of the run CONVERGED means applied. */
  ghost predicate AlwaysApplied(c: ControlState, ops: seq<ControlOp>)
    requires WithinScript(c.adapter)
    decreases |ops|
  {
    ConvergedIsApplied(c) && (ops != [] ==> AlwaysApplied(ControlStep(c, ops[0]), ops[1..]))
  }

  ghost predicate NoneUnfounded(c: ControlState, ops: seq<ControlOp>)
    requires WithinScript(c.adapter)
    decreases |ops|
  {
    ops != [] ==> !Unfounded(c, ops[0]) && NoneUnfounded(ControlStep(c, ops[0]), ops[1..])
  }

  // Over every run, removals and outside acknowledgements included, CONVERGED means applied all along exactly if no op
  // claims a version that the dataplane does not have.
  lemma {:induction false} AlwaysAppliedIffNoneUnfounded(c: ControlState, ops: seq<ControlOp>)
    requires WithinScript(c.adapter) && ConvergedIsApplied(c)
    ensures AlwaysApplied(c, ops) <==> NoneUnfounded(c, ops)
    decreases |ops|
  {
    if ops != [] {
      StepConvergedIsApplied(c, ops[0]);
      if !Unfounded(c, ops[0]) {
        AlwaysAppliedIffNoneUnfounded(ControlStep(c, ops[0]), ops[1..]);
      }
    }
  }

  // ----- What one call makes of the script

  // A call retries transient failures only: all outcomes it uses but the last are transient failures. It converges
  // exactly if the last one is a success, or if the script ends before anything but transient failures came; it is
  // delayed exactly if the last one is a delayed success; and it gives up exactly on a permanent failure or when the
  // maximum is used up.
  lemma CallUsesScript(service: ServiceState, adapter: DataplaneState, maximum: uint32)
    requires WithinScript(adapter) && MustUseScript(service, adapter, maximum)
    ensures var (service', adapter', status) := Reconciled(service, adapter, maximum);
            var script := adapter.outcomes;
            var last := adapter'.next - 1;
            var used := last >= adapter.next;
            && adapter.next <= adapter'.next <= |script|
            && (forall i | adapter.next <= i < last :: script[i] == TransientFailure)
            && (status.converged <==>
                  || (used && script[last] == Success)
                  || (adapter'.next == |script| && (used ==> script[last] == TransientFailure)
                      && (maximum == 0xFFFF_FFFF || adapter'.next - adapter.next < maximum)))
            && (status.delayed <==> used && script[last] == DelayedSuccess)
            && (!status.converged && !status.delayed <==>
                  used && (script[last] == PermanentFailure
                           || (script[last] == TransientFailure && adapter'.next - adapter.next == maximum
                               && maximum != 0xFFFF_FFFF)))
            && (status.converged ==> service' == service.(appliedVersion := service.intended.value.version))
            && (!status.converged ==> service' == service)
  {
  }

  // A call without a ruleset to apply, or without an attempt to spend, does nothing.
  lemma IdleCall(service: ServiceState, adapter: DataplaneState, maximum: uint32)
    requires WithinScript(adapter)
    ensures service.intended.None? || maximum == 0 ==>
              Reconciled(service, adapter, maximum) == (service, adapter, ReconciliationStatus(false, 0, false))
  {
  }

  // ----- Stale work

  /** A completion of anything but the latest update and the intended version. */
  predicate Stale(c: ControlState, op: ControlOp) {
    op.Complete? && (op.updateId != c.service.latestUpdateId || op.version != IntendedVersion(c.service))
  }

  /** The run without its stale completions. */
  ghost function WithoutStale(c: ControlState, ops: seq<ControlOp>): seq<ControlOp>
    requires WithinScript(c.adapter)
    decreases |ops|
  {
    if ops == [] then []
    else
      var rest := WithoutStale(ControlStep(c, ops[0]), ops[1..]);
      if Stale(c, ops[0]) then rest else [ops[0]] + rest
  }

  // Stale completions change nothing: leaving them all out of a run leaves the same service and the same dataplane.
  lemma {:induction false} StaleCompletionsAreInert(c: ControlState, ops: seq<ControlOp>)
    requires WithinScript(c.adapter)
    ensures ControlRun(c, WithoutStale(c, ops)) == ControlRun(c, ops)
    decreases |ops|
  {
    if ops != [] {
      StaleCompletionsAreInert(ControlStep(c, ops[0]), ops[1..]);
    }
  }

  /** Whatever becomes applied on the way is at that moment the latest update and the intended version. */
  ghost predicate AppliesCurrentOnly(c: ControlState, ops: seq<ControlOp>)
    requires WithinScript(c.adapter)
    decreases |ops|
  {
    ops != [] ==>
      var c' := ControlStep(c, ops[0]);
      && (forall u, v | IsApplied(c'.adapter, u, v) && !IsApplied(c.adapter, u, v) ::
            u == c.service.latestUpdateId && v == IntendedVersion(c.service))
      && AppliesCurrentOnly(c', ops[1..])
  }

  lemma StepAppliesCurrent(c: ControlState, op: ControlOp, u: string, v: uint64)
    requires WithinScript(c.adapter)
    requires IsApplied(ControlStep(c, op).adapter, u, v) && !IsApplied(c.adapter, u, v)
    ensures u == c.service.latestUpdateId && v == IntendedVersion(c.service)
  {
    Text.AdapterKeyInjective(c.service.latestUpdateId, IntendedVersion(c.service), u, v);
  }

  // Stale work cannot replace the latest intended version: over every run of updates, removals, acknowledgements,
  // calls and completions the dataplane only ever takes on what is the latest update at that moment.
  lemma {:induction false} OnlyCurrentWorkIsApplied(c: ControlState, ops: seq<ControlOp>)
    requires WithinScript(c.adapter)
    ensures AppliesCurrentOnly(c, ops)
    decreases |ops|
  {
    if ops != [] {
      forall u, v | IsApplied(ControlStep(c, ops[0]).adapter, u, v) && !IsApplied(c.adapter, u, v)
        ensures u == c.service.latestUpdateId && v == IntendedVersion(c.service)
      {
        StepAppliesCurrent(c, ops[0], u, v);
      }
      OnlyCurrentWorkIsApplied(ControlStep(c, ops[0]), ops[1..]);
    }
  }
}
