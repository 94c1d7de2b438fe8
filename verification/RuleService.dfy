/** The rule service as an object whose methods update its fields, refining the state machine. */
module RuleService {
  import opened Types
  import opened Rules
  import opened Decision
  import Validation
  import opened Runtime
  import opened RuleServiceModel
  import Model = RuleServiceModel

  class RuleService {
    const limits: CapacityLimits
    var intended: Option<RuleSet>
    var active: Option<RuleSet>
    var appliedVersion: uint64
    var latestUpdateId: string
    var runtime: RuntimeState

    function State(): ServiceState
      reads this
    {
      ServiceState(limits, intended, active, appliedVersion, latestUpdateId, runtime)
    }

    constructor (limits: CapacityLimits)
      ensures State() == InitialService(limits)
    {
      this.limits := limits;
      intended, active, appliedVersion, latestUpdateId := None, None, 0, "";
      runtime := EMPTY_RUNTIME;
    }

    /** The QER loop of `update`; reading an absent bucket inserts an empty one. */
    method MigrateQers(candidate: RuleSet)
      returns (qers: map<uint32, TokenBucketState>, generations: map<uint32, uint32>)
      requires UniqueIds(candidate.qers, QerKey)
      modifies `runtime
      ensures runtime == old(runtime).(qers := runtime.qers)
      ensures qers == Rebuilt(candidate.qers, QerKey, UpdatedBuckets(old(runtime)))
      ensures generations == Rebuilt(candidate.qers, QerKey, QerGeneration)
    {
      ghost var prior := runtime;
      qers, generations := map[], map[];
      for i := 0 to |candidate.qers|
        invariant runtime == prior.(qers := runtime.qers)
        invariant forall id | id in prior.qers :: id in runtime.qers && runtime.qers[id] == prior.qers[id]
        invariant forall id | id in runtime.qers && id !in prior.qers :: runtime.qers[id] == EMPTY_BUCKET
        invariant qers == Rebuilt(candidate.qers[..i], QerKey, UpdatedBuckets(prior))
        invariant generations == Rebuilt(candidate.qers[..i], QerKey, QerGeneration)
      {
        var qer := candidate.qers[i];
        if qer.id in runtime.qerGenerations && runtime.qerGenerations[qer.id] == qer.generation {
          if qer.id !in runtime.qers {
            runtime := runtime.(qers := runtime.qers[qer.id := EMPTY_BUCKET]);
          }
          qers := qers[qer.id := runtime.qers[qer.id]];
        } else {
          qers := qers[qer.id := EMPTY_BUCKET.(tokensBytes := qer.burstBytes)];
        }
        generations := generations[qer.id := qer.generation];
        RebuiltExtends(candidate.qers, QerKey, UpdatedBuckets(prior), i);
        RebuiltExtends(candidate.qers, QerKey, QerGeneration, i);
      }
      assert candidate.qers[..|candidate.qers|] == candidate.qers;
    }

    /** The URR loop of `update`. */
    method MigrateUrrs(candidate: RuleSet)
      returns (urrs: map<uint32, UsageCounterState>, generations: map<uint32, uint32>)
      requires UniqueIds(candidate.urrs, UrrKey)
      modifies `runtime
      ensures runtime == old(runtime).(urrs := runtime.urrs)
      ensures urrs == Rebuilt(candidate.urrs, UrrKey, UpdatedCounters(old(runtime)))
      ensures generations == Rebuilt(candidate.urrs, UrrKey, UrrGeneration)
    {
      ghost var prior := runtime;
      urrs, generations := map[], map[];
      for i := 0 to |candidate.urrs|
        invariant runtime == prior.(urrs := runtime.urrs)
        invariant forall id | id in prior.urrs :: id in runtime.urrs && runtime.urrs[id] == prior.urrs[id]
        invariant forall id | id in runtime.urrs && id !in prior.urrs :: runtime.urrs[id] == EMPTY_COUNTER
        invariant urrs == Rebuilt(candidate.urrs[..i], UrrKey, UpdatedCounters(prior))
        invariant generations == Rebuilt(candidate.urrs[..i], UrrKey, UrrGeneration)
      {
        var urr := candidate.urrs[i];
        if urr.id in runtime.urrGenerations && runtime.urrGenerations[urr.id] == urr.generation {
          if urr.id !in runtime.urrs {
            runtime := runtime.(urrs := runtime.urrs[urr.id := EMPTY_COUNTER]);
          }
          urrs := urrs[urr.id := runtime.urrs[urr.id]];
        } else {
          urrs := urrs[urr.id := EMPTY_COUNTER];
        }
        generations := generations[urr.id := urr.generation];
        RebuiltExtends(candidate.urrs, UrrKey, UpdatedCounters(prior), i);
        RebuiltExtends(candidate.urrs, UrrKey, UrrGeneration, i);
      }
      assert candidate.urrs[..|candidate.urrs|] == candidate.urrs;
    }

    /** The part of `update` after validation. */
    method Activate(updateId: string, candidate: RuleSet)
      requires UniqueIds(candidate.qers, QerKey) && UniqueIds(candidate.urrs, UrrKey)
      modifies this
      ensures State() == old(State()).(runtime := UpdatedRuntime(old(runtime), candidate),
                intended := Some(candidate), active := Some(candidate), latestUpdateId := updateId)
    {
      ghost var prior := runtime;
      var qers, qerGenerations := MigrateQers(candidate);
      RebuiltSame(candidate.urrs, UrrKey, UpdatedCounters(runtime), UpdatedCounters(prior));
      var urrs, urrGenerations := MigrateUrrs(candidate);
      runtime := RuntimeState(qers, urrs, qerGenerations, urrGenerations);
      intended := Some(candidate);
      active := Some(candidate);
      latestUpdateId := updateId;
    }

    method Update(updateId: string, candidate: RuleSet) returns (r: UpdateResult)
      modifies this
      ensures State() == Model.Update(old(State()), updateId, candidate)
      ensures r.Updated? <==>
              && updateId != ""
              && (old(active).Some? ==> candidate.version > old(active).value.version)
              && Validation.Accepted(candidate, limits)
      ensures r.Updated? ==> intended == Some(candidate) && active == Some(candidate) && latestUpdateId == updateId
      ensures appliedVersion == old(appliedVersion)
      ensures !r.Updated? ==> State() == old(State())
      ensures r.UpdateIdRequired? ==> updateId == ""
      ensures r.VersionMustIncrease? ==> old(active).Some? && candidate.version <= old(active).value.version
      ensures r.InvalidRules? ==> Validation.Defect(r.error, candidate, limits)
    {
      if updateId == "" {
        return UpdateIdRequired;
      }
      if active.Some? && candidate.version <= active.value.version {
        return VersionMustIncrease;
      }
      var valid := Validation.ValidateRuleSet(candidate, limits);
      if valid.Invalid? {
        return InvalidRules(valid.error);
      }
      Activate(updateId, candidate);
      return Updated;
    }

    method Remove(updateId: string, version: uint64) returns (ok: bool)
      modifies this
      ensures State() == Model.Remove(old(State()), updateId, version)
      ensures ok <==> old(active).Some? && updateId != "" && version > old(active).value.version
      ensures State() == if ok then old(State()).(intended := None, active := None, latestUpdateId := updateId)
                         else old(State())
    {
      if active.None? || updateId == "" || version <= active.value.version {
        return false;
      }
      intended := None;
      active := None;
      latestUpdateId := updateId;
      return true;
    }

    method MarkApplied(updateId: string, version: uint64)
      modifies `appliedVersion
      ensures State() == Model.MarkApplied(old(State()), updateId, version)
      ensures appliedVersion ==
              if intended.Some? && updateId == latestUpdateId && version == intended.value.version then version
              else old(appliedVersion)
    {
      if intended.Some? && updateId == latestUpdateId && version == intended.value.version {
        appliedVersion := version;
      }
    }
  }
}
