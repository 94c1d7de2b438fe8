/** Runtime state and its migration to a new ruleset, as the pipeline and the rule service each compute it. */
module Runtime {
  import opened Types
  import opened Rules
  import opened Decision

  datatype RuntimeState = RuntimeState(
    qers: map<uint32, TokenBucketState>,
    urrs: map<uint32, UsageCounterState>,
    qerGenerations: map<uint32, uint32>,
    urrGenerations: map<uint32, uint32>)

  const EMPTY_RUNTIME := RuntimeState(map[], map[], map[], map[])

  predicate KeysAgree(runtime: RuntimeState) {
    runtime.qers.Keys == runtime.qerGenerations.Keys && runtime.urrs.Keys == runtime.urrGenerations.Keys
  }

  function FreshBucket(qer: Qer): TokenBucketState {
    TokenBucketState(qer.burstBytes, 0, 0)
  }

  // ----- What each loop stores for one rule

  /** `operator[]` on a generation map: an absent key reads as zero. */
  function GenerationOrZero(generations: map<uint32, uint32>, id: uint32): uint32 {
    if id in generations then generations[id] else 0
  }

  function InstalledBucket(runtime: RuntimeState, qer: Qer): TokenBucketState {
    if GenerationOrZero(runtime.qerGenerations, qer.id) == qer.generation && qer.id in runtime.qers
    then runtime.qers[qer.id]
    else FreshBucket(qer)
  }

  function InstalledCounter(runtime: RuntimeState, urr: Urr): UsageCounterState {
    if GenerationOrZero(runtime.urrGenerations, urr.id) == urr.generation && urr.id in runtime.urrs
    then runtime.urrs[urr.id]
    else EMPTY_COUNTER
  }

  /** The rule service looks the generation up with `find`, but reads the state with `operator[]`. */
  function UpdatedBucket(runtime: RuntimeState, qer: Qer): TokenBucketState {
    if qer.id in runtime.qerGenerations && runtime.qerGenerations[qer.id] == qer.generation
    then if qer.id in runtime.qers then runtime.qers[qer.id] else EMPTY_BUCKET
    else FreshBucket(qer)
  }

  function UpdatedCounter(runtime: RuntimeState, urr: Urr): UsageCounterState {
    if urr.id in runtime.urrGenerations && runtime.urrGenerations[urr.id] == urr.generation
    then if urr.id in runtime.urrs then runtime.urrs[urr.id] else EMPTY_COUNTER
    else EMPTY_COUNTER
  }

  function InstalledBuckets(runtime: RuntimeState): Qer -> TokenBucketState {
    (qer: Qer) => InstalledBucket(runtime, qer)
  }

  function InstalledCounters(runtime: RuntimeState): Urr -> UsageCounterState {
    (urr: Urr) => InstalledCounter(runtime, urr)
  }

  function UpdatedBuckets(runtime: RuntimeState): Qer -> TokenBucketState {
    (qer: Qer) => UpdatedBucket(runtime, qer)
  }

  function UpdatedCounters(runtime: RuntimeState): Urr -> UsageCounterState {
    (urr: Urr) => UpdatedCounter(runtime, urr)
  }

  function QerGeneration(qer: Qer): uint32 { qer.generation }
  function UrrGeneration(urr: Urr): uint32 { urr.generation }

  // ----- The migrated maps

  /** One entry per rule, whatever the order of the rules. */
  function Rebuilt<T(==), S>(rules: seq<T>, key: T -> uint32, value: T -> S): map<uint32, S> {
    map id | id in Ids(rules, key) :: value(Find(rules, key, id).value)
  }

  function InstalledRuntime(runtime: RuntimeState, rules: RuleSet): RuntimeState {
    RuntimeState(
      Rebuilt(rules.qers, QerKey, InstalledBuckets(runtime)),
      Rebuilt(rules.urrs, UrrKey, InstalledCounters(runtime)),
      Rebuilt(rules.qers, QerKey, QerGeneration),
      Rebuilt(rules.urrs, UrrKey, UrrGeneration))
  }

  function UpdatedRuntime(runtime: RuntimeState, rules: RuleSet): RuntimeState {
    RuntimeState(
      Rebuilt(rules.qers, QerKey, UpdatedBuckets(runtime)),
      Rebuilt(rules.urrs, UrrKey, UpdatedCounters(runtime)),
      Rebuilt(rules.qers, QerKey, QerGeneration),
      Rebuilt(rules.urrs, UrrKey, UrrGeneration))
  }

  lemma RebuiltAt<T, S>(rules: seq<T>, key: T -> uint32, value: T -> S, x: T)
    requires UniqueIds(rules, key) && x in rules
    ensures key(x) in Rebuilt(rules, key, value) && Rebuilt(rules, key, value)[key(x)] == value(x)
  {
    FindUnique(rules, key, x);
    assert key(x) in Ids(rules, key);
  }

  // Writing entry by entry, as the loops do, builds the same map.
  lemma RebuiltExtends<T, S>(rules: seq<T>, key: T -> uint32, value: T -> S, i: nat)
    requires i < |rules| && UniqueIds(rules, key)
    ensures Rebuilt(rules[..i + 1], key, value) == Rebuilt(rules[..i], key, value)[key(rules[i]) := value(rules[i])]
  {
    var before, x := rules[..i], rules[i];
    assert rules[..i + 1] == before + [x];
    assert Ids(before + [x], key) == Ids(before, key) + {key(x)};
    assert key(x) !in Ids(before, key);
    forall id | id in Ids(before + [x], key)
      ensures Find(before + [x], key, id) == if id == key(x) then Some(x) else Find(before, key, id)
    {
      FindAppended(before, key, x, id);
    }
  }

  lemma RebuiltPermuted<T, S>(xs: seq<T>, ys: seq<T>, key: T -> uint32, value: T -> S)
    requires Permuted(xs, ys) && UniqueIds(xs, key)
    ensures Rebuilt(xs, key, value) == Rebuilt(ys, key, value)
  {
    PermutedUniqueIds(xs, ys, key);
    forall x
      ensures x in xs <==> x in ys
    {
      PermutedMembers(xs, ys, x);
    }
    assert Ids(xs, key) == Ids(ys, key);
    forall id | id in Ids(xs, key)
      ensures Find(xs, key, id) == Find(ys, key, id)
    {
      PermutedFind(xs, ys, key, id);
    }
  }

  lemma RebuiltSame<T, S>(rules: seq<T>, key: T -> uint32, value: T -> S, value': T -> S)
    requires forall x | x in rules :: value(x) == value'(x)
    ensures Rebuilt(rules, key, value) == Rebuilt(rules, key, value')
  {
  }

  // ----- The two migrations agree

  // Whenever state and generations are kept for the same rules, installing in the pipeline and updating the rule
  // service migrate the runtime to the same state.
  lemma MigrationsAgree(runtime: RuntimeState, rules: RuleSet)
    requires KeysAgree(runtime)
    ensures InstalledRuntime(runtime, rules) == UpdatedRuntime(runtime, rules)
  {
    RebuiltSame(rules.qers, QerKey, InstalledBuckets(runtime), UpdatedBuckets(runtime));
    RebuiltSame(rules.urrs, UrrKey, InstalledCounters(runtime), UpdatedCounters(runtime));
  }

  // Equal bucket keys are also necessary: otherwise some QER migrates differently.
  lemma BucketsAgreeIffKeysAgree(runtime: RuntimeState)
    ensures (forall qer :: InstalledBucket(runtime, qer) == UpdatedBucket(runtime, qer)) <==>
            runtime.qers.Keys == runtime.qerGenerations.Keys
  {
    if id :| id in runtime.qers.Keys && id !in runtime.qerGenerations.Keys {
      var burst := if runtime.qers[id].tokensBytes == 0 then 1 else 0;
      var qer := Qer(id, Open, 0, burst, 0);
      assert InstalledBucket(runtime, qer) != UpdatedBucket(runtime, qer);
    } else if id :| id in runtime.qerGenerations.Keys && id !in runtime.qers.Keys {
      var qer := Qer(id, Open, 0, 1, runtime.qerGenerations[id]);
      assert InstalledBucket(runtime, qer) != UpdatedBucket(runtime, qer);
    }
  }

  // For counters only a used counter without a generation makes a difference.
  lemma CountersAgreeIff(runtime: RuntimeState)
    ensures (forall urr :: InstalledCounter(runtime, urr) == UpdatedCounter(runtime, urr)) <==>
            forall id | id in runtime.urrs && id !in runtime.urrGenerations :: runtime.urrs[id] == EMPTY_COUNTER
  {
    if id :| id in runtime.urrs && id !in runtime.urrGenerations && runtime.urrs[id] != EMPTY_COUNTER {
      var urr := Urr(id, 0, 0);
      assert InstalledCounter(runtime, urr) != UpdatedCounter(runtime, urr);
    }
  }

  /** The runtime keeps exactly one state and one generation for each QER and URR of the ruleset. */
  ghost predicate RuntimeOf(runtime: RuntimeState, rules: RuleSet) {
    && KeysAgree(runtime)
    && runtime.qers.Keys == Ids(rules.qers, QerKey)
    && runtime.urrs.Keys == Ids(rules.urrs, UrrKey)
    && (forall q | q in rules.qers :: runtime.qerGenerations[q.id] == q.generation)
    && (forall u | u in rules.urrs :: runtime.urrGenerations[u.id] == u.generation)
  }

  lemma InstalledRuntimeOf(runtime: RuntimeState, rules: RuleSet)
    requires UniqueIds(rules.qers, QerKey) && UniqueIds(rules.urrs, UrrKey)
    ensures RuntimeOf(InstalledRuntime(runtime, rules), rules)
    ensures forall q | q in rules.qers :: InstalledRuntime(runtime, rules).qers[q.id] == InstalledBucket(runtime, q)
    ensures forall u | u in rules.urrs :: InstalledRuntime(runtime, rules).urrs[u.id] == InstalledCounter(runtime, u)
  {
    var migrated := InstalledRuntime(runtime, rules);
    forall q | q in rules.qers
      ensures q.id in migrated.qers && migrated.qers[q.id] == InstalledBucket(runtime, q)
      ensures q.id in migrated.qerGenerations && migrated.qerGenerations[q.id] == q.generation
    {
      RebuiltAt(rules.qers, QerKey, InstalledBuckets(runtime), q);
      RebuiltAt(rules.qers, QerKey, QerGeneration, q);
    }
    forall u | u in rules.urrs
      ensures u.id in migrated.urrs && migrated.urrs[u.id] == InstalledCounter(runtime, u)
      ensures u.id in migrated.urrGenerations && migrated.urrGenerations[u.id] == u.generation
    {
      RebuiltAt(rules.urrs, UrrKey, InstalledCounters(runtime), u);
      RebuiltAt(rules.urrs, UrrKey, UrrGeneration, u);
    }
  }

  // State whose generation is unchanged is carried over bit for bit; every other rule starts afresh.
  lemma MigrationCarries(runtime: RuntimeState, rules: RuleSet)
    requires KeysAgree(runtime) && UniqueIds(rules.qers, QerKey) && UniqueIds(rules.urrs, UrrKey)
    ensures var migrated := InstalledRuntime(runtime, rules);
            && migrated.qers.Keys == Ids(rules.qers, QerKey)
            && (forall q | q in rules.qers ::
                  migrated.qers[q.id] == if q.id in runtime.qers && runtime.qerGenerations[q.id] == q.generation
                                     then runtime.qers[q.id] else FreshBucket(q))
            && migrated.urrs.Keys == Ids(rules.urrs, UrrKey)
            && (forall u | u in rules.urrs ::
                  migrated.urrs[u.id] == if u.id in runtime.urrs && runtime.urrGenerations[u.id] == u.generation
                                     then runtime.urrs[u.id] else EMPTY_COUNTER)
  {
    InstalledRuntimeOf(runtime, rules);
  }

  lemma InstalledPermuted(runtime: RuntimeState, a: RuleSet, b: RuleSet)
    requires PermutedRules(a, b) && UniqueIds(a.qers, QerKey) && UniqueIds(a.urrs, UrrKey)
    ensures InstalledRuntime(runtime, a) == InstalledRuntime(runtime, b)
  {
    RebuiltPermuted(a.qers, b.qers, QerKey, InstalledBuckets(runtime));
    RebuiltPermuted(a.urrs, b.urrs, UrrKey, InstalledCounters(runtime));
    RebuiltPermuted(a.qers, b.qers, QerKey, QerGeneration);
    RebuiltPermuted(a.urrs, b.urrs, UrrKey, UrrGeneration);
  }
}
