/** The rule service as a state machine: versioned intent, acknowledgements and convergence. */
module RuleServiceModel {
  import opened Types
  import opened Rules
  import Validation
  import opened Runtime

  datatype ServiceState = ServiceState(
    limits: CapacityLimits,
    intended: Option<RuleSet>,
    active: Option<RuleSet>,
    appliedVersion: uint64,
    latestUpdateId: string,
    runtime: RuntimeState)

  function InitialService(limits: CapacityLimits): ServiceState {
    ServiceState(limits, None, None, 0, "", EMPTY_RUNTIME)
  }

  datatype UpdateResult =
    | Updated
    | UpdateIdRequired
    | VersionMustIncrease
    | InvalidRules(error: Validation.RuleError)

  ghost predicate UpdateAccepted(s: ServiceState, updateId: string, candidate: RuleSet) {
    && updateId != ""
    && (s.active.Some? ==> candidate.version > s.active.value.version)
    && Validation.Accepted(candidate, s.limits)
  }

  ghost function Update(s: ServiceState, updateId: string, candidate: RuleSet): ServiceState {
    if UpdateAccepted(s, updateId, candidate) then
      s.(runtime := UpdatedRuntime(s.runtime, candidate), intended := Some(candidate), active := Some(candidate),
         latestUpdateId := updateId)
    else s
  }

  predicate RemoveAccepted(s: ServiceState, updateId: string, version: uint64) {
    s.active.Some? && updateId != "" && version > s.active.value.version
  }

  function Remove(s: ServiceState, updateId: string, version: uint64): ServiceState {
    if RemoveAccepted(s, updateId, version) then s.(intended := None, active := None, latestUpdateId := updateId) else s
  }

  /** An acknowledgement counts only for the latest update and its version. */
  predicate Acknowledges(s: ServiceState, updateId: string, version: uint64) {
    s.intended.Some? && updateId == s.latestUpdateId && version == s.intended.value.version
  }

  function MarkApplied(s: ServiceState, updateId: string, version: uint64): ServiceState {
    if Acknowledges(s, updateId, version) then s.(appliedVersion := version) else s
  }

  function Convergence(s: ServiceState): ConvergenceStatus {
    if s.intended.None? && s.appliedVersion == 0 then Empty
    else if s.intended.Some? && s.intended.value.version == s.appliedVersion then Converged
    else Divergent
  }

  // ----- Runs

  datatype ServiceOp =
    | UpdateOp(updateId: string, candidate: RuleSet)
    | RemoveOp(updateId: string, version: uint64)
    | MarkOp(updateId: string, version: uint64)

  ghost function ServiceStep(s: ServiceState, op: ServiceOp): ServiceState {
    match op
    case UpdateOp(updateId, candidate) => Update(s, updateId, candidate)
    case RemoveOp(updateId, version) => Remove(s, updateId, version)
    case MarkOp(updateId, version) => MarkApplied(s, updateId, version)
  }

  ghost function After(limits: CapacityLimits, ops: seq<ServiceOp>): ServiceState {
    if ops == [] then InitialService(limits)
    else ServiceStep(After(limits, ops[..|ops| - 1]), ops[|ops| - 1])
  }

  /** The op at position `i` of a run is an accepted update. */
  ghost predicate UpdatedAt(limits: CapacityLimits, ops: seq<ServiceOp>, i: nat)
    requires i < |ops|
  {
    ops[i].UpdateOp? && UpdateAccepted(After(limits, ops[..i]), ops[i].updateId, ops[i].candidate)
  }

  /** The op at position `i` of a run changes the intent. */
  ghost predicate ChangesIntentAt(limits: CapacityLimits, ops: seq<ServiceOp>, i: nat)
    requires i < |ops|
  {
    || UpdatedAt(limits, ops, i)
    || (ops[i].RemoveOp? && RemoveAccepted(After(limits, ops[..i]), ops[i].updateId, ops[i].version))
  }

  ghost predicate LastChange(limits: CapacityLimits, ops: seq<ServiceOp>, i: nat)
    requires i < |ops|
  {
    forall j | i < j < |ops| :: !ChangesIntentAt(limits, ops, j)
  }

  /** The latest update and its version were marked applied after that update. */
  ghost predicate Acknowledged(limits: CapacityLimits, ops: seq<ServiceOp>) {
    var s := After(limits, ops);
    && s.intended.Some?
    && exists i :: 0 <= i < |ops| && LastChange(limits, ops, i)
                   && ops[i] == MarkOp(s.latestUpdateId, s.intended.value.version)
  }

  /** The latest change of intent was an update to the very version that was already recorded as applied. */
  ghost predicate Collided(limits: CapacityLimits, ops: seq<ServiceOp>) {
    exists i :: 0 <= i < |ops| && LastChange(limits, ops, i) && UpdatedAt(limits, ops, i)
                && ops[i].candidate.version == After(limits, ops[..i]).appliedVersion
  }

  lemma PrefixOfPrefix(ops: seq<ServiceOp>, n: nat, i: nat)
    requires i <= n <= |ops|
    ensures ops[..n][..i] == ops[..i]
  {
  }

  lemma IntentAtPrefix(limits: CapacityLimits, ops: seq<ServiceOp>, n: nat, i: nat)
    requires i < n <= |ops|
    ensures UpdatedAt(limits, ops[..n], i) == UpdatedAt(limits, ops, i)
    ensures ChangesIntentAt(limits, ops[..n], i) == ChangesIntentAt(limits, ops, i)
  {
    PrefixOfPrefix(ops, n, i);
  }

  // When the last op leaves the intent alone, every earlier position keeps its role.
  lemma PositionsAgree(limits: CapacityLimits, ops: seq<ServiceOp>, i: nat)
    requires i + 1 < |ops| && !ChangesIntentAt(limits, ops, |ops| - 1)
    ensures var before := ops[..|ops| - 1];
            && before[..i] == ops[..i]
            && before[i] == ops[i]
            && UpdatedAt(limits, before, i) == UpdatedAt(limits, ops, i)
            && LastChange(limits, before, i) == LastChange(limits, ops, i)
  {
    var n := |ops| - 1;
    var before := ops[..n];
    PrefixOfPrefix(ops, n, i);
    forall j | 0 <= j < n
      ensures ChangesIntentAt(limits, before, j) == ChangesIntentAt(limits, ops, j)
      ensures UpdatedAt(limits, before, j) == UpdatedAt(limits, ops, j)
    {
      IntentAtPrefix(limits, ops, n, j);
    }
    if LastChange(limits, before, i) {
      forall j | i < j < |ops|
        ensures !ChangesIntentAt(limits, ops, j)
      {
        if j < n {
          assert !ChangesIntentAt(limits, before, j);
        }
      }
    }
    if LastChange(limits, ops, i) {
      forall j | i < j < n
        ensures !ChangesIntentAt(limits, before, j)
      {
        assert !ChangesIntentAt(limits, ops, j);
      }
    }
  }

  predicate AcknowledgingOp(s: ServiceState, op: ServiceOp) {
    op.MarkOp? && Acknowledges(s, op.updateId, op.version)
  }

  lemma IntentUnchanged(limits: CapacityLimits, ops: seq<ServiceOp>)
    requires ops != [] && !ChangesIntentAt(limits, ops, |ops| - 1)
    ensures After(limits, ops).intended == After(limits, ops[..|ops| - 1]).intended
    ensures After(limits, ops).latestUpdateId == After(limits, ops[..|ops| - 1]).latestUpdateId
  {
  }

  lemma CollisionUnchanged(limits: CapacityLimits, ops: seq<ServiceOp>)
    requires ops != [] && !ChangesIntentAt(limits, ops, |ops| - 1)
    ensures Collided(limits, ops) <==> Collided(limits, ops[..|ops| - 1])
  {
    var n := |ops| - 1;
    var before := ops[..n];
    if Collided(limits, ops) {
      var i :| 0 <= i < |ops| && LastChange(limits, ops, i) && UpdatedAt(limits, ops, i)
               && ops[i].candidate.version == After(limits, ops[..i]).appliedVersion;
      assert i != n;
      PositionsAgree(limits, ops, i);
      assert LastChange(limits, before, i);
    }
    if Collided(limits, before) {
      var i :| 0 <= i < n && LastChange(limits, before, i) && UpdatedAt(limits, before, i)
               && before[i].candidate.version == After(limits, before[..i]).appliedVersion;
      PositionsAgree(limits, ops, i);
      assert LastChange(limits, ops, i);
    }
  }

  lemma AcknowledgementUnchanged(limits: CapacityLimits, ops: seq<ServiceOp>)
    requires ops != [] && !ChangesIntentAt(limits, ops, |ops| - 1)
    ensures var before := ops[..|ops| - 1];
            Acknowledged(limits, ops) <==>
              Acknowledged(limits, before) || AcknowledgingOp(After(limits, before), ops[|ops| - 1])
  {
    var n := |ops| - 1;
    var before := ops[..n];
    var s, t := After(limits, before), After(limits, ops);
    IntentUnchanged(limits, ops);
    if Acknowledged(limits, ops) {
      var i :| 0 <= i < |ops| && LastChange(limits, ops, i)
               && ops[i] == MarkOp(t.latestUpdateId, t.intended.value.version);
      if i < n {
        PositionsAgree(limits, ops, i);
        assert LastChange(limits, before, i);
      }
    }
    if Acknowledged(limits, before) {
      var i :| 0 <= i < n && LastChange(limits, before, i)
               && before[i] == MarkOp(s.latestUpdateId, s.intended.value.version);
      PositionsAgree(limits, ops, i);
      assert LastChange(limits, ops, i);
    }
    if AcknowledgingOp(s, ops[n]) {
      assert LastChange(limits, ops, n);
    }
  }

  // Convergence over every run, removals included: the service reports CONVERGED exactly when the intended ruleset
  // was acknowledged after its update, or its version happened to be the recorded one when it was accepted.
  lemma {:induction false} ConvergedIffAcknowledgedOrCollided(limits: CapacityLimits, ops: seq<ServiceOp>)
    ensures Convergence(After(limits, ops)) == Converged <==>
            After(limits, ops).intended.Some? && (Acknowledged(limits, ops) || Collided(limits, ops))
    decreases |ops|
  {
    if ops != [] {
      var n := |ops| - 1;
      var before := ops[..n];
      ConvergedIffAcknowledgedOrCollided(limits, before);
      if ChangesIntentAt(limits, ops, n) {
        NotAcknowledgedYet(limits, ops);
      } else {
        IntentUnchanged(limits, ops);
        CollisionUnchanged(limits, ops);
        AcknowledgementUnchanged(limits, ops);
      }
    }
  }

  lemma NotAcknowledgedYet(limits: CapacityLimits, ops: seq<ServiceOp>)
    requires ops != [] && ChangesIntentAt(limits, ops, |ops| - 1)
    ensures !Acknowledged(limits, ops)
    ensures Collided(limits, ops) <==>
            UpdatedAt(limits, ops, |ops| - 1)
            && ops[|ops| - 1].candidate.version == After(limits, ops[..|ops| - 1]).appliedVersion
  {
    var n := |ops| - 1;
    assert LastChange(limits, ops, n);
    forall i | 0 <= i < n
      ensures !LastChange(limits, ops, i)
    {
      assert i < n < |ops|;
    }
  }

  // ----- Runs without removal

  predicate RemoveFree(ops: seq<ServiceOp>) {
    forall i | 0 <= i < |ops| :: !ops[i].RemoveOp?
  }

  function IntendedVersion(s: ServiceState): uint64 {
    if s.intended.Some? then s.intended.value.version else 0
  }

  lemma {:induction false} RemoveFreeInvariant(limits: CapacityLimits, ops: seq<ServiceOp>)
    requires RemoveFree(ops)
    ensures var s := After(limits, ops);
            && s.limits == limits
            && s.active == s.intended
            && s.appliedVersion <= IntendedVersion(s)
            && (s.intended.Some? ==> Validation.Accepted(s.intended.value, limits))
    decreases |ops|
  {
    if ops != [] {
      RemoveFreeInvariant(limits, ops[..|ops| - 1]);
    }
  }

  lemma {:induction false} IntendedVersionGrows(limits: CapacityLimits, ops: seq<ServiceOp>, i: nat)
    requires RemoveFree(ops) && i <= |ops|
    ensures IntendedVersion(After(limits, ops[..i])) <= IntendedVersion(After(limits, ops))
    decreases |ops|
  {
    if i < |ops| {
      var before := ops[..|ops| - 1];
      RemoveFreeInvariant(limits, before);
      IntendedVersionGrows(limits, before, i);
      PrefixOfPrefix(ops, |ops| - 1, i);
    } else {
      assert ops[..i] == ops;
    }
  }

  // Without removals accepted versions strictly increase along the run.
  lemma AcceptedVersionsIncrease(limits: CapacityLimits, ops: seq<ServiceOp>, i: nat, j: nat)
    requires RemoveFree(ops) && i < j < |ops| && UpdatedAt(limits, ops, i) && UpdatedAt(limits, ops, j)
    ensures ops[i].candidate.version < ops[j].candidate.version
  {
    var before := ops[..j];
    RemoveFreeInvariant(limits, before);
    IntendedVersionGrows(limits, before, i + 1);
    PrefixOfPrefix(ops, j, i + 1);
    assert ops[..i + 1][..i] == ops[..i] && ops[..i + 1][i] == ops[i];
    assert IntendedVersion(After(limits, ops[..i + 1])) == ops[i].candidate.version;
  }

  // Without removals convergence means acknowledged: CONVERGED exactly when the latest update and version were
  // marked applied after that update.
  lemma ConvergedIffAcknowledged(limits: CapacityLimits, ops: seq<ServiceOp>)
    requires RemoveFree(ops)
    ensures Convergence(After(limits, ops)) == Converged <==> Acknowledged(limits, ops)
  {
    ConvergedIffAcknowledgedOrCollided(limits, ops);
    if Collided(limits, ops) {
      var i :| 0 <= i < |ops| && LastChange(limits, ops, i) && UpdatedAt(limits, ops, i)
               && ops[i].candidate.version == After(limits, ops[..i]).appliedVersion;
      RemoveFreeInvariant(limits, ops[..i]);
      assert false;
    }
  }

  lemma AfterAppended(limits: CapacityLimits, ops: seq<ServiceOp>, op: ServiceOp)
    ensures After(limits, ops + [op]) == ServiceStep(After(limits, ops), op)
  {
    assert (ops + [op])[..|ops|] == ops;
  }

  lemma UpdateMarkRemove(limits: CapacityLimits, rules: RuleSet) returns (ops: seq<ServiceOp>)
    requires Validation.Accepted(rules, limits) && rules.version < U64_MAX
    ensures var s := After(limits, ops);
            s.active.None? && s.limits == limits && s.appliedVersion == rules.version
  {
    var a := [UpdateOp("u1", rules)];
    var b := a + [MarkOp("u1", rules.version)];
    ops := b + [RemoveOp("u2", rules.version + 1)];
    assert a == [] + a;
    AfterAppended(limits, [], a[0]);
    AfterAppended(limits, a, MarkOp("u1", rules.version));
    AfterAppended(limits, b, RemoveOp("u2", rules.version + 1));
  }

  // With removals it does not: removing clears the version guard but keeps the recorded version, so an update back
  // to that version reports CONVERGED at once, whatever the ruleset.
  lemma RemovalForgetsAcknowledgement(limits: CapacityLimits, rules: RuleSet)
    requires Validation.Accepted(rules, limits) && rules.version < U64_MAX
    ensures exists ops :: Convergence(After(limits, ops)) == Converged && !Acknowledged(limits, ops)
  {
    var before := UpdateMarkRemove(limits, rules);
    var last := UpdateOp("u3", rules);
    var ops := before + [last];
    AfterAppended(limits, before, last);
    assert ops[..|before|] == before;
    assert UpdatedAt(limits, ops, |before|);
    NotAcknowledgedYet(limits, ops);
    assert Convergence(After(limits, ops)) == Converged;
  }

  // Whatever the runtime held before, an update leaves exactly the states and generations of the new ruleset.
  lemma UpdatedRuntimeOf(runtime: RuntimeState, rules: RuleSet)
    requires UniqueIds(rules.qers, QerKey) && UniqueIds(rules.urrs, UrrKey)
    ensures RuntimeOf(UpdatedRuntime(runtime, rules), rules)
  {
    forall q | q in rules.qers
      ensures UpdatedRuntime(runtime, rules).qerGenerations[q.id] == q.generation
    {
      RebuiltAt(rules.qers, QerKey, QerGeneration, q);
    }
    forall u | u in rules.urrs
      ensures UpdatedRuntime(runtime, rules).urrGenerations[u.id] == u.generation
    {
      RebuiltAt(rules.urrs, UrrKey, UrrGeneration, u);
    }
  }

  // ----- Removal over every run

  /** The intent and the active ruleset did not change between positions `j` and `i`. */
  ghost predicate Standing(limits: CapacityLimits, ops: seq<ServiceOp>, j: nat, i: nat)
    requires j < i <= |ops|
  {
    forall k | j < k <= i ::
      && After(limits, ops[..k]).intended == After(limits, ops[..j + 1]).intended
      && After(limits, ops[..k]).active == After(limits, ops[..j + 1]).active
  }

  /** The version was accepted by the update at position `j`, and nothing changed the intent since. */
  ghost predicate StandsSince(limits: CapacityLimits, ops: seq<ServiceOp>, j: nat, version: uint64) {
    j < |ops| && UpdatedAt(limits, ops, j) && ops[j].candidate.version == version && Standing(limits, ops, j, |ops|)
  }

  lemma StandsLonger(limits: CapacityLimits, ops: seq<ServiceOp>, j: nat, version: uint64)
    requires ops != [] && StandsSince(limits, ops[..|ops| - 1], j, version)
    requires After(limits, ops).intended == After(limits, ops[..|ops| - 1]).intended
    requires After(limits, ops).active == After(limits, ops[..|ops| - 1]).active
    ensures StandsSince(limits, ops, j, version)
  {
    var n := |ops| - 1;
    var before := ops[..n];
    IntentAtPrefix(limits, ops, n, j);
    forall k | j < k <= |ops|
      ensures After(limits, ops[..k]).intended == After(limits, ops[..j + 1]).intended
      ensures After(limits, ops[..k]).active == After(limits, ops[..j + 1]).active
    {
      PrefixOfPrefix(ops, n, j + 1);
      if k <= n {
        PrefixOfPrefix(ops, n, k);
        assert before[..k] == ops[..k];
      } else {
        assert ops[..k] == ops && before[..n] == before;
      }
    }
  }

  // Over every run the active ruleset is the intended one, it was accepted by an update that still stands, the latest
  // update ID is then not empty, and an accepted version is not zero.
  lemma {:induction false} IntentStands(limits: CapacityLimits, ops: seq<ServiceOp>)
    ensures var s := After(limits, ops);
            && s.active == s.intended
            && s.limits == limits
            && (s.intended.Some? ==>
                  && s.latestUpdateId != "" && s.intended.value.version > 0
                  && exists j :: StandsSince(limits, ops, j, s.intended.value.version))
    decreases |ops|
  {
    if ops != [] {
      var n := |ops| - 1;
      var before := ops[..n];
      IntentStands(limits, before);
      var s := After(limits, ops);
      if UpdatedAt(limits, ops, n) {
        assert ops[..n + 1] == ops;
        assert StandsSince(limits, ops, n, s.intended.value.version);
      } else if s.intended.Some? {
        var j :| StandsSince(limits, before, j, s.intended.value.version);
        StandsLonger(limits, ops, j, s.intended.value.version);
      }
    }
  }

  lemma StandingVersion(limits: CapacityLimits, ops: seq<ServiceOp>, j: nat, version: uint64)
    requires StandsSince(limits, ops, j, version)
    ensures After(limits, ops).active.Some? && After(limits, ops).active.value.version == version
  {
    assert ops[..|ops|] == ops;
    assert ops[..j + 1][..j] == ops[..j];
    assert After(limits, ops[..j + 1]).active == Some(ops[j].candidate);
  }

  // Over every run a removal clears the intent exactly if its update ID is not empty and its version exceeds that of
  // an accepted update that still stands; it then keeps everything else but the latest update ID. Any other removal
  // leaves the whole state as it is.
  lemma RemovalClearsIff(limits: CapacityLimits, ops: seq<ServiceOp>, updateId: string, version: uint64)
    ensures var s := After(limits, ops);
            var s' := After(limits, ops + [RemoveOp(updateId, version)]);
            var counts := updateId != "" && exists j, v :: StandsSince(limits, ops, j, v) && version > v;
            && (counts ==> s.intended.Some? && s' == s.(intended := None, active := None, latestUpdateId := updateId))
            && (!counts ==> s' == s)
  {
    AfterAppended(limits, ops, RemoveOp(updateId, version));
    IntentStands(limits, ops);
    forall j, v | StandsSince(limits, ops, j, v)
      ensures After(limits, ops).active.Some? && After(limits, ops).active.value.version == v
    {
      StandingVersion(limits, ops, j, v);
    }
  }

  // ----- The other two convergence states

  /** The op at position `i` acknowledges the latest update and its version. */
  ghost predicate EffectiveMarkAt(limits: CapacityLimits, ops: seq<ServiceOp>, i: nat)
    requires i < |ops|
  {
    var s := After(limits, ops[..i]);
    s.intended.Some? && ops[i] == MarkOp(s.latestUpdateId, s.intended.value.version)
  }

  ghost predicate EverMarked(limits: CapacityLimits, ops: seq<ServiceOp>) {
    exists i :: 0 <= i < |ops| && EffectiveMarkAt(limits, ops, i)
  }

  lemma EverMarkedExtends(limits: CapacityLimits, ops: seq<ServiceOp>)
    requires ops != []
    ensures EverMarked(limits, ops) <==>
            EverMarked(limits, ops[..|ops| - 1]) || EffectiveMarkAt(limits, ops, |ops| - 1)
  {
    var n := |ops| - 1;
    forall i | 0 <= i < n
      ensures EffectiveMarkAt(limits, ops[..n], i) <==> EffectiveMarkAt(limits, ops, i)
    {
      PrefixOfPrefix(ops, n, i);
    }
    if EverMarked(limits, ops[..n]) {
      var i :| 0 <= i < n && EffectiveMarkAt(limits, ops[..n], i);
      assert EffectiveMarkAt(limits, ops, i);
    }
  }

  lemma {:induction false} AppliedIffEverMarked(limits: CapacityLimits, ops: seq<ServiceOp>)
    ensures After(limits, ops).appliedVersion != 0 <==> EverMarked(limits, ops)
    decreases |ops|
  {
    if ops != [] {
      AppliedIffEverMarked(limits, ops[..|ops| - 1]);
      IntentStands(limits, ops[..|ops| - 1]);
      EverMarkedExtends(limits, ops);
    }
  }

  // Over every run EMPTY is reported exactly if nothing is intended and nothing was ever acknowledged, and DIVERGENT
  // exactly if something was acknowledged but nothing is intended, or what is intended was neither acknowledged since
  // its update nor updated to the recorded version.
  lemma EmptyAndDivergentIff(limits: CapacityLimits, ops: seq<ServiceOp>)
    ensures var s := After(limits, ops);
            && (Convergence(s) == Empty <==> s.intended.None? && !EverMarked(limits, ops))
            && (Convergence(s) == Divergent <==>
                  if s.intended.None? then EverMarked(limits, ops)
                  else !Acknowledged(limits, ops) && !Collided(limits, ops))
  {
    AppliedIffEverMarked(limits, ops);
    ConvergedIffAcknowledgedOrCollided(limits, ops);
  }
}
