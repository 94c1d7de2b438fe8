/** The simulated dataplane: a scripted adapter that is idempotent per request. */
module Dataplane {
  import opened Types
  import opened Text

  datatype DataplaneState = DataplaneState(
    outcomes: seq<AdapterOutcome>,
    next: nat,
    applied: set<string>,
    delayed: set<string>)

  function InitialDataplane(outcomes: seq<AdapterOutcome>): DataplaneState {
    DataplaneState(outcomes, 0, {}, {})
  }

  predicate WithinScript(d: DataplaneState) {
    d.next <= |d.outcomes|
  }

  function Apply(d: DataplaneState, updateId: string, version: uint64): (DataplaneState, AdapterOutcome) {
    var key := AdapterKey(updateId, version);
    if key in d.applied then (d, Success)
    else
      var outcome := if d.next < |d.outcomes| then d.outcomes[d.next] else Success;
      (d.(next := if d.next < |d.outcomes| then d.next + 1 else d.next,
          applied := if outcome == Success then d.applied + {key} else d.applied,
          delayed := if outcome == DelayedSuccess then d.delayed + {key} else d.delayed),
       outcome)
  }

  function CompleteDelayed(d: DataplaneState, updateId: string, version: uint64,
                           latestUpdateId: string, latestVersion: uint64): (DataplaneState, bool) {
    var key := AdapterKey(updateId, version);
    if key in d.applied then (d, true)
    else if updateId != latestUpdateId || version != latestVersion || key !in d.delayed then (d, false)
    else (d.(applied := d.applied + {key}, delayed := d.delayed - {key}), true)
  }

  // ----- Runs

  datatype DataplaneOp =
    | ApplyOp(updateId: string, version: uint64)
    | CompleteOp(updateId: string, version: uint64, latestUpdateId: string, latestVersion: uint64)

  function DataplaneStep(d: DataplaneState, op: DataplaneOp): DataplaneState {
    match op
    case ApplyOp(u, v) => Apply(d, u, v).0
    case CompleteOp(u, v, lu, lv) => CompleteDelayed(d, u, v, lu, lv).0
  }

  /** The op reports success. */
  predicate Succeeds(d: DataplaneState, op: DataplaneOp) {
    match op
    case ApplyOp(u, v) => Apply(d, u, v).1 == Success
    case CompleteOp(u, v, lu, lv) => CompleteDelayed(d, u, v, lu, lv).1
  }

  function DataplaneRun(d: DataplaneState, ops: seq<DataplaneOp>): DataplaneState
    decreases |ops|
  {
    if ops == [] then d else DataplaneRun(DataplaneStep(d, ops[0]), ops[1..])
  }

  /** Some op of the run reported success for exactly this request. */
  predicate SucceededFor(d: DataplaneState, ops: seq<DataplaneOp>, updateId: string, version: uint64)
    decreases |ops|
  {
    ops != [] &&
    (|| (ops[0].updateId == updateId && ops[0].version == version && Succeeds(d, ops[0]))
     || SucceededFor(DataplaneStep(d, ops[0]), ops[1..], updateId, version))
  }

  predicate IsApplied(d: DataplaneState, updateId: string, version: uint64) {
    AdapterKey(updateId, version) in d.applied
  }

  lemma StepApplies(d: DataplaneState, op: DataplaneOp, updateId: string, version: uint64)
    ensures IsApplied(DataplaneStep(d, op), updateId, version) <==>
            || IsApplied(d, updateId, version)
            || (op.updateId == updateId && op.version == version && Succeeds(d, op))
  {
    AdapterKeyInjective(op.updateId, op.version, updateId, version);
  }

  // The set of key strings is an exact record: a request is marked applied just when it was before or an operation
  // reported success for that very update ID and version, so no other pair can alias it.
  lemma {:induction false} AppliedIffSucceeded(
      d: DataplaneState, ops: seq<DataplaneOp>, updateId: string, version: uint64)
    ensures IsApplied(DataplaneRun(d, ops), updateId, version) <==>
            IsApplied(d, updateId, version) || SucceededFor(d, ops, updateId, version)
    decreases |ops|
  {
    if ops != [] {
      StepApplies(d, ops[0], updateId, version);
      AppliedIffSucceeded(DataplaneStep(d, ops[0]), ops[1..], updateId, version);
    }
  }

  // Idempotence: once a request succeeded, repeating it any number of times succeeds again and uses no outcome.
  lemma {:induction false} AppliedForever(d: DataplaneState, ops: seq<DataplaneOp>, updateId: string, version: uint64)
    requires IsApplied(d, updateId, version)
    ensures var d' := DataplaneRun(d, ops);
            && Apply(d', updateId, version) == (d', Success)
            && forall lu, lv :: CompleteDelayed(d', updateId, version, lu, lv) == (d', true)
    decreases |ops|
  {
    if ops != [] {
      StepApplies(d, ops[0], updateId, version);
      AppliedForever(DataplaneStep(d, ops[0]), ops[1..], updateId, version);
    }
  }

  // ----- Where success comes from

  predicate AnsweredAt(d: DataplaneState, ops: seq<DataplaneOp>, i: nat, updateId: string, version: uint64)
    requires i < |ops|
  {
    var before := DataplaneRun(d, ops[..i]);
    && ops[i] == ApplyOp(updateId, version)
    && (before.next >= |before.outcomes| || before.outcomes[before.next] == Success)
  }

  /** The request at position `i` is made when the script says that its success is delayed. */
  predicate DelayedAt(d: DataplaneState, ops: seq<DataplaneOp>, i: nat, updateId: string, version: uint64)
    requires i < |ops|
  {
    var before := DataplaneRun(d, ops[..i]);
    && ops[i] == ApplyOp(updateId, version)
    && before.next < |before.outcomes| && before.outcomes[before.next] == DelayedSuccess
  }

  ghost predicate WasDelayed(d: DataplaneState, ops: seq<DataplaneOp>, updateId: string, version: uint64) {
    exists j :: 0 <= j < |ops| && DelayedAt(d, ops, j, updateId, version)
  }

  /** The op at position `i` completes a request that was delayed before and is named as the latest one. */
  ghost predicate CompletedAt(d: DataplaneState, ops: seq<DataplaneOp>, i: nat, updateId: string, version: uint64)
    requires i < |ops|
  {
    ops[i] == CompleteOp(updateId, version, updateId, version) && WasDelayed(d, ops[..i], updateId, version)
  }

  ghost predicate BroughtAbout(d: DataplaneState, ops: seq<DataplaneOp>, updateId: string, version: uint64) {
    exists i :: 0 <= i < |ops|
                && (AnsweredAt(d, ops, i, updateId, version) || CompletedAt(d, ops, i, updateId, version))
  }

  lemma {:induction false} RunExtends(d: DataplaneState, ops: seq<DataplaneOp>, op: DataplaneOp)
    ensures DataplaneRun(d, ops + [op]) == DataplaneStep(DataplaneRun(d, ops), op)
    decreases |ops|
  {
    if ops == [] {
      assert (ops + [op])[1..] == [];
    } else {
      assert (ops + [op])[1..] == ops[1..] + [op];
      RunExtends(DataplaneStep(d, ops[0]), ops[1..], op);
    }
  }

  lemma PrefixKeepsPositions(d: DataplaneState, ops: seq<DataplaneOp>, op: DataplaneOp, u: string, v: uint64)
    ensures forall i | 0 <= i < |ops| :: AnsweredAt(d, ops + [op], i, u, v) == AnsweredAt(d, ops, i, u, v)
    ensures forall i | 0 <= i < |ops| :: DelayedAt(d, ops + [op], i, u, v) == DelayedAt(d, ops, i, u, v)
    ensures forall i | 0 <= i < |ops| :: CompletedAt(d, ops + [op], i, u, v) == CompletedAt(d, ops, i, u, v)
    ensures (ops + [op])[..|ops|] == ops
  {
    forall i | 0 <= i <= |ops|
      ensures (ops + [op])[..i] == ops[..i]
    {
    }
    assert ops[..|ops|] == ops;
  }

  lemma WasDelayedExtends(d: DataplaneState, ops: seq<DataplaneOp>, op: DataplaneOp, u: string, v: uint64)
    ensures WasDelayed(d, ops + [op], u, v) <==> WasDelayed(d, ops, u, v) || DelayedAt(d, ops + [op], |ops|, u, v)
  {
    PrefixKeepsPositions(d, ops, op, u, v);
    if WasDelayed(d, ops, u, v) {
      var j :| 0 <= j < |ops| && DelayedAt(d, ops, j, u, v);
      assert DelayedAt(d, ops + [op], j, u, v);
    }
  }

  lemma BroughtAboutExtends(d: DataplaneState, ops: seq<DataplaneOp>, op: DataplaneOp, u: string, v: uint64)
    ensures BroughtAbout(d, ops + [op], u, v) <==>
            || BroughtAbout(d, ops, u, v)
            || AnsweredAt(d, ops + [op], |ops|, u, v) || CompletedAt(d, ops + [op], |ops|, u, v)
  {
    PrefixKeepsPositions(d, ops, op, u, v);
    if BroughtAbout(d, ops, u, v) {
      var i :| 0 <= i < |ops| && (AnsweredAt(d, ops, i, u, v) || CompletedAt(d, ops, i, u, v));
      assert AnsweredAt(d, ops + [op], i, u, v) || CompletedAt(d, ops + [op], i, u, v);
    }
  }

  /** The adapter's two sets tell of one request what happened to it. */
  ghost predicate Tells(s: DataplaneState, delayed: bool, applied: bool, u: string, v: uint64) {
    && (IsApplied(s, u, v) <==> applied)
    && (AdapterKey(u, v) in s.delayed ==> delayed)
    && (delayed ==> AdapterKey(u, v) in s.delayed || IsApplied(s, u, v))
  }

  lemma StepTells(s: DataplaneState, op: DataplaneOp, delayed: bool, applied: bool, u: string, v: uint64)
    requires Tells(s, delayed, applied, u, v)
    ensures var answered := op == ApplyOp(u, v) && (s.next >= |s.outcomes| || s.outcomes[s.next] == Success);
            var postponed := op == ApplyOp(u, v) && s.next < |s.outcomes| && s.outcomes[s.next] == DelayedSuccess;
            var completed := op == CompleteOp(u, v, u, v) && delayed;
            Tells(DataplaneStep(s, op), delayed || postponed, applied || answered || completed, u, v)
  {
    AdapterKeyInjective(op.updateId, op.version, u, v);
  }

  lemma {:induction false} RunTells(outcomes: seq<AdapterOutcome>, ops: seq<DataplaneOp>, u: string, v: uint64)
    ensures var d := InitialDataplane(outcomes);
            Tells(DataplaneRun(d, ops), WasDelayed(d, ops, u, v), BroughtAbout(d, ops, u, v), u, v)
    decreases |ops|
  {
    if ops != [] {
      var d, before, op := InitialDataplane(outcomes), ops[..|ops| - 1], ops[|ops| - 1];
      assert ops == before + [op];
      RunTells(outcomes, before, u, v);
      RunExtends(d, before, op);
      WasDelayedExtends(d, before, op, u, v);
      BroughtAboutExtends(d, before, op, u, v);
      PrefixKeepsPositions(d, before, op, u, v);
      StepTells(DataplaneRun(d, before), op, WasDelayed(d, before, u, v), BroughtAbout(d, before, u, v), u, v);
    }
  }

  // Over every run a request is applied exactly if the adapter was asked for it when the script said success or was
  // spent, or if it was delayed and then completed while it was named as the latest request. No other answer, in
  // particular no failure, and no completion of a superseded request makes it applied.
  lemma AppliedIffBroughtAbout(outcomes: seq<AdapterOutcome>, ops: seq<DataplaneOp>, u: string, v: uint64)
    ensures var d := InitialDataplane(outcomes);
            IsApplied(DataplaneRun(d, ops), u, v) <==> BroughtAbout(d, ops, u, v)
  {
    RunTells(outcomes, ops, u, v);
  }

  // A completion reports success exactly if its request is applied already, or was delayed and is the latest one.
  lemma CompletionSucceedsIff(outcomes: seq<AdapterOutcome>, ops: seq<DataplaneOp>, u: string, v: uint64,
                              latestId: string, latestVersion: uint64)
    ensures var d := InitialDataplane(outcomes);
            CompleteDelayed(DataplaneRun(d, ops), u, v, latestId, latestVersion).1 <==>
            || BroughtAbout(d, ops, u, v)
            || (u == latestId && v == latestVersion && WasDelayed(d, ops, u, v))
  {
    RunTells(outcomes, ops, u, v);
  }

  // A request is answered with success if it is applied or the script is spent, and with the next outcome otherwise,
  // which is thereby used; nothing else uses the script.
  lemma StepUsesScript(d: DataplaneState, op: DataplaneOp)
    ensures DataplaneStep(d, op).outcomes == d.outcomes
    ensures var uses := op.ApplyOp? && !IsApplied(d, op.updateId, op.version) && d.next < |d.outcomes|;
            && DataplaneStep(d, op).next == (if uses then d.next + 1 else d.next)
            && (op.ApplyOp? ==>
                  Apply(d, op.updateId, op.version).1 == (if uses then d.outcomes[d.next] else Success))
  {
  }

  // ----- The class

  class SimulatedDataplane {
    const outcomes: seq<AdapterOutcome>
    var next: nat
    var applied: set<string>
    var delayed: set<string>

    function State(): DataplaneState
      reads this
    {
      DataplaneState(outcomes, next, applied, delayed)
    }

    constructor (outcomes: seq<AdapterOutcome>)
      ensures State() == InitialDataplane(outcomes)
    {
      this.outcomes := outcomes;
      next, applied, delayed := 0, {}, {};
    }

    method ApplyRequest(updateId: string, version: uint64) returns (outcome: AdapterOutcome)
      modifies this
      ensures (State(), outcome) == Apply(old(State()), updateId, version)
    {
      var identity := AdapterKey(updateId, version);
      if identity in applied {
        return Success;
      }
      outcome := Success;
      if next < |outcomes| {
        outcome := outcomes[next];
        next := next + 1;
      }
      if outcome == Success {
        applied := applied + {identity};
      }
      if outcome == DelayedSuccess {
        delayed := delayed + {identity};
      }
    }

    method CompleteDelayedRequest(updateId: string, version: uint64, latestUpdateId: string, latestVersion: uint64)
      returns (done: bool)
      modifies this
      ensures (State(), done) == CompleteDelayed(old(State()), updateId, version, latestUpdateId, latestVersion)
    {
      var identity := AdapterKey(updateId, version);
      if identity in applied {
        return true;
      }
      if updateId != latestUpdateId || version != latestVersion || identity !in delayed {
        return false;
      }
      applied := applied + {identity};
      delayed := delayed - {identity};
      return true;
    }
  }
}
