/** Rule admission, rule interpretation and `Map::place` (src/crush/place.rs). */
module CrushRule {
  import opened Wrappers
  import opened CrushMap
  import opened Straw2
  import opened FirstN
  import opened Indep
  import opened CrushPlace

  const MAX_CERTIFIED_REPLICAS: nat := 64

  datatype PlacementError = PlacementError

  predicate HasBucketType(m: Map, t: int) {
    exists x :: x in m.buckets && m.buckets[x].bucketType == t
  }

  function TakeIndex(rule: Rule): (k: nat) {
    if rule.ruleType == RULE_TYPE_REPLICATED then 0 else 2
  }

  predicate CertifiedSteps(m: Map, rule: Rule) {
    if rule.ruleType == RULE_TYPE_REPLICATED then
      && |rule.steps| == 3
      && rule.steps[0].operation == RULE_TAKE
      && rule.steps[2] == RuleStep(RULE_EMIT, 0, 0)
      && (|| rule.steps[1] == RuleStep(RULE_CHOOSE_FIRST_N, 0, 0)
          || (&& rule.steps[1].operation == RULE_CHOOSELEAF_FIRST_N
              && rule.steps[1].argument1 == 0
              && 0 < rule.steps[1].argument2 < 0x1_0000
              && HasBucketType(m, rule.steps[1].argument2)))
    else
      && |rule.steps| == 5
      && rule.steps[0] == RuleStep(RULE_SET_CHOOSELEAF_TRIES, 5, 0)
      && rule.steps[1] == RuleStep(RULE_SET_CHOOSE_TRIES, 100, 0)
      && rule.steps[2].operation == RULE_TAKE
      && rule.steps[3] == RuleStep(RULE_CHOOSE_INDEP, 0, 0)
      && rule.steps[4] == RuleStep(RULE_EMIT, 0, 0)
  }

  /** `validate_certified_rule`: the shapes of rule and the tunables for which placement is offered. */
  predicate CertifiedRule(m: Map, rule: Rule) {
    && CertifiedSteps(m, rule)
    && rule.steps[TakeIndex(rule)].argument1 in m.buckets
    && rule.steps[TakeIndex(rule)].argument1 !in m.classShadowBuckets
    && m.chooseLocalTries == 0
    && m.chooseLocalFallbackTries == 0
    && m.chooseTotalTries == 50
    && m.chooseleafDescendOnce == 1
    && m.chooseleafVaryR == 1
    && ((m.strawCalcVersion == 0 && m.allowedBucketAlgorithms == 22)
        || (m.strawCalcVersion == 1 && m.allowedBucketAlgorithms == 54))
    && m.chooseleafStable == 1
    && m.msrDescents == 100
    && m.msrCollisionTries == 100
  }

  predicate Placeable(m: Map, ruleId: U32, replicas: nat) {
    && 0 < replicas <= MAX_CERTIFIED_REPLICAS
    && ruleId in m.rules
    && (m.rules[ruleId].ruleType == RULE_TYPE_REPLICATED || m.rules[ruleId].ruleType == RULE_TYPE_ERASURE)
    && CertifiedRule(m, m.rules[ruleId])
  }

  function Root(rule: Rule): (root: I32)
    requires |rule.steps| > TakeIndex(rule)
  {
    rule.steps[TakeIndex(rule)].argument1
  }

  function StepLeaf(m: Map, step: RuleStep, recurseTries: nat): (l: LeafMode) {
    if step.operation == RULE_CHOOSELEAF_FIRST_N then Leaf(recurseTries, m.chooseleafVaryR, m.chooseleafStable != 0)
    else NoLeaf
  }

  /** The parameters a certified replicated rule hands to first-n selection. */
  function RuleParams(m: Map, rule: Rule): (p: Params)
    requires |rule.steps| > 1
  {
    Params(rule.steps[1].argument2, m.chooseTotalTries + 1, m.chooseLocalTries, m.chooseLocalFallbackTries,
           StepLeaf(m, rule.steps[1], 1))
  }

  ghost predicate PlaceReady(e: Env, rule: Rule, replicas: nat) {
    GraphOk(e.crush) && WellShaped(e.crush) && CertifiedRule(e.crush, rule) && replicas <= MAX_CERTIFIED_REPLICAS
  }

  ghost function ReplicatedSelection(e: Env, rule: Rule, seed: U32, replicas: nat): (s: Selection)
    requires PlaceReady(e, rule, replicas) && rule.ruleType == RULE_TYPE_REPLICATED
  {
    hide GraphOk, HasBucketType;
    Selected(e, RuleParams(e.crush, rule), seed, Root(rule), NOTHING, 0, replicas, replicas)
  }

  /** The placement a certified rule defines. */
  ghost function Placed(e: Env, rule: Rule, seed: U32, replicas: nat): (osds: seq<I32>)
    requires PlaceReady(e, rule, replicas)
    ensures |osds| <= replicas
  {
    hide GraphOk, HasBucketType;
    if rule.ruleType == RULE_TYPE_REPLICATED then
      var s := ReplicatedSelection(e, rule, seed, replicas);
      if rule.steps[1].operation == RULE_CHOOSELEAF_FIRST_N then s.leaves else s.items
    else Passes(e, Query(seed, Root(rule), replicas, 0), replicas, 100)
  }

  /** Every replica lands on a different usable device below the rule's root. */
  lemma ReplicatedPlacement(e: Env, rule: Rule, seed: U32, replicas: nat)
    requires PlaceReady(e, rule, replicas) && rule.ruleType == RULE_TYPE_REPLICATED
    ensures var osds := Placed(e, rule, seed, replicas);
            && |osds| <= replicas && Distinct(osds)
            && (forall i :: 0 <= i < |osds| ==> Usable(e, osds[i]) && Below(e.crush, Root(rule), osds[i]))
    ensures GoodSelection(e, RuleParams(e.crush, rule), Root(rule), ReplicatedSelection(e, rule, seed, replicas))
  {
    hide GraphOk, HasBucketType, Below;
    SelectedIsGood(e, RuleParams(e.crush, rule), seed, Root(rule), replicas, replicas);
    var s := ReplicatedSelection(e, rule, seed, replicas);
    forall i | 0 <= i < |s.leaves| ensures Below(e.crush, Root(rule), s.leaves[i]) {
      LeafIsBelow(e, RuleParams(e.crush, rule), Root(rule), s, i);
    }
  }

  lemma LeafIsBelow(e: Env, p: Params, root: I32, s: Selection, i: nat)
    requires GoodSelection(e, p, root, s) && i < |s.leaves| && if p.leaf.Leaf? then p.target > 0 else p.target == 0
    ensures Below(e.crush, root, s.leaves[i])
  {
    hide Below;
    if p.leaf.Leaf? {
      BelowOn(e.crush, root, s.items[i], s.leaves[i]);
    }
  }

  /** A chooseleaf rule spreads its replicas over different buckets of the requested type. */
  lemma ChooseleafSpreads(e: Env, rule: Rule, seed: U32, replicas: nat) returns (hosts: seq<I32>)
    requires PlaceReady(e, rule, replicas) && rule.ruleType == RULE_TYPE_REPLICATED
    requires rule.steps[1].operation == RULE_CHOOSELEAF_FIRST_N
    ensures var osds := Placed(e, rule, seed, replicas);
            && |hosts| == |osds| && Distinct(hosts)
            && (forall i :: 0 <= i < |hosts| ==>
                  && hosts[i] in e.crush.buckets && e.crush.buckets[hosts[i]].bucketType == rule.steps[1].argument2
                  && Below(e.crush, Root(rule), hosts[i]) && Below(e.crush, hosts[i], osds[i]))
  {
    hide GraphOk, HasBucketType, Below;
    ReplicatedPlacement(e, rule, seed, replicas);
    hosts := ReplicatedSelection(e, rule, seed, replicas).items;
  }

  /** Raising the replica count appends; it never moves or reorders a replica. */
  lemma PlacementIsPrefix(e: Env, rule: Rule, seed: U32, few: nat, many: nat)
    requires few <= many && PlaceReady(e, rule, many) && rule.ruleType == RULE_TYPE_REPLICATED
    ensures Placed(e, rule, seed, few) <= Placed(e, rule, seed, many)
  {
    hide GraphOk, HasBucketType;
    MoreReplicasExtend(e, RuleParams(e.crush, rule), seed, Root(rule), few, many);
  }

  /** An erasure rule yields one slot per shard; the filled ones hold different usable devices. */
  lemma ErasurePlacement(e: Env, rule: Rule, seed: U32, replicas: nat)
    requires PlaceReady(e, rule, replicas) && rule.ruleType == RULE_TYPE_ERASURE
    ensures |Placed(e, rule, seed, replicas)| == replicas
    ensures GoodSlots(e, Root(rule), Placed(e, rule, seed, replicas))
  {
    hide GraphOk, HasBucketType, GoodSlots;
    PassesAreGood(e, Query(seed, Root(rule), replicas, 0), replicas, 100);
  }

  /** The choose step over the working set, which a certified rule has filled with its root alone. */
  method ChooseStep(walk: Placement, rule: Rule, k: nat, seed: U32, n: nat, working: array<I32>, workingSize: nat,
                    output: array<I32>, leaves: array<I32>, chooseTries: nat, recurseTries: nat)
    returns (outputSize: nat)
    requires walk.Valid() && PlaceReady(walk.e, rule, n) && n > 0
    requires k == TakeIndex(rule) + 1
    requires working.Length == output.Length == leaves.Length == n
    requires working != output && working != leaves && output != leaves
    requires workingSize == 1 && working[0] == Root(rule)
    requires rule.ruleType == RULE_TYPE_REPLICATED ==> chooseTries == 51 && recurseTries == 1
    requires rule.ruleType != RULE_TYPE_REPLICATED ==> chooseTries == 100
    modifies walk, output, leaves
    ensures walk.Valid() && outputSize <= n
    ensures output[..outputSize] == Placed(walk.e, rule, seed, n)
  {
    hide GraphOk, HasBucketType, WellShaped, Selected, Passes;
    var m := walk.e.crush;
    var step := rule.steps[k];
    outputSize := 0;
    for w := 0 to workingSize
      invariant walk.Valid() && outputSize <= n && working[0] == Root(rule)
      invariant w == 0 ==> outputSize == 0
      invariant w == 1 && rule.ruleType == RULE_TYPE_REPLICATED ==>
                  && output[..outputSize] == ReplicatedSelection(walk.e, rule, seed, n).items
                  && (step.operation == RULE_CHOOSELEAF_FIRST_N ==>
                        leaves[..outputSize] == ReplicatedSelection(walk.e, rule, seed, n).leaves)
      invariant w == 1 && rule.ruleType != RULE_TYPE_REPLICATED ==>
          output[..outputSize] == Placed(walk.e, rule, seed, n)
    {
      var number := if step.argument1 <= 0 then step.argument1 + n else step.argument1;
      if step.operation == RULE_CHOOSE_INDEP {
        var count := if number < n - outputSize then number else n - outputSize;
        walk.ChooseIndep(Query(seed, working[w], number, outputSize), output, count, chooseTries);
        assert output[..count] == output[0..count];
        outputSize := outputSize + count;
      } else {
        var p := Params(step.argument2, chooseTries, m.chooseLocalTries, m.chooseLocalFallbackTries,
                        StepLeaf(m, step, recurseTries));
        assert output[..0] == [] && leaves[..0] == [];
        var chosen := walk.ChooseFirstN(p, seed, working[w], output, outputSize, n - outputSize,
                                        if p.leaf.Leaf? then leaves else null, 0, number);
        outputSize := outputSize + chosen;
      }
    }
    if step.operation == RULE_CHOOSELEAF_FIRST_N {
      for i := 0 to outputSize
        invariant walk.Valid()
        invariant output[..i] == leaves[..i]
        invariant leaves[..outputSize] == ReplicatedSelection(walk.e, rule, seed, n).leaves
      {
        output[i] := leaves[i];
      }
    }
  }

  /** `rule`: interprets the steps one by one. */
  method InterpretRule(walk: Placement, rule: Rule, seed: U32, n: nat) returns (r: Result<seq<I32>, PlacementError>)
    requires walk.Valid() && PlaceReady(walk.e, rule, n) && n > 0
    modifies walk
    ensures r == Ok(Placed(walk.e, rule, seed, n))
  {
    hide GraphOk, HasBucketType, Placed;
    var m := walk.e.crush;
    var working, output, leaves := new I32[n](_ => ITEM_NONE), new I32[n](_ => ITEM_NONE), new I32[n](_ => ITEM_NONE);
    var workingSize: nat := 0;
    var result: seq<I32> := [];
    var chooseTries := m.chooseTotalTries + 1;
    var chooseleafTries := 0;
    var recurseTries := if m.chooseleafDescendOnce != 0 then 1 else chooseTries;
    var k := 0;
    while k < |rule.steps|
      invariant k <= |rule.steps| && walk.Valid()
      invariant working.Length == output.Length == leaves.Length == n
      invariant working != output && working != leaves && output != leaves
      invariant fresh(working) && fresh(output) && fresh(leaves)
      invariant recurseTries == 1 && (rule.ruleType == RULE_TYPE_REPLICATED ==> chooseTries == 51)
      invariant rule.ruleType != RULE_TYPE_REPLICATED && k > 1 ==> chooseTries == 100
      invariant k == TakeIndex(rule) + 1 ==> workingSize == 1 && working[0] == Root(rule)
      invariant k == TakeIndex(rule) + 2 ==> workingSize <= n && working[..workingSize] == Placed(walk.e, rule, seed, n)
      invariant result == if k <= TakeIndex(rule) + 2 then [] else Placed(walk.e, rule, seed, n)
    {
      var step := rule.steps[k];
      if step.operation == RULE_SET_CHOOSE_TRIES {
        if step.argument1 > 0 {
          chooseTries := step.argument1;
        }
      } else if step.operation == RULE_SET_CHOOSELEAF_TRIES {
        if step.argument1 > 0 {
          chooseleafTries := step.argument1;
        }
      } else if step.operation == RULE_TAKE {
        if ItemOk(m, step.argument1) {
          working[0] := step.argument1;
          workingSize := 1;
        }
      } else if step.operation == RULE_EMIT {
        var remaining := if workingSize < n - |result| then workingSize else n - |result|;
        result := result + working[..remaining];
        workingSize := 0;
      } else {
        workingSize := ChooseStep(walk, rule, k, seed, n, working, workingSize, output, leaves, chooseTries,
          recurseTries);
        working, output := output, working;
      }
      k := k + 1;
    }
    return Ok(result);
  }

  /** `validate_certified_rule`, check by check. */
  method ValidateCertifiedRule(m: Map, rule: Rule) returns (r: Result<(), PlacementError>)
    ensures r.Ok? <==> CertifiedRule(m, rule)
  {
    var takeIndex := 0;
    if rule.ruleType == RULE_TYPE_REPLICATED {
      if |rule.steps| != 3 || rule.steps[0].operation != RULE_TAKE || rule.steps[2] != RuleStep(RULE_EMIT, 0, 0) {
        return Err(PlacementError);
      }
      var choose := rule.steps[1];
      if choose != RuleStep(RULE_CHOOSE_FIRST_N, 0, 0) {
        if choose.operation != RULE_CHOOSELEAF_FIRST_N || choose.argument1 != 0 || choose.argument2 <= 0 {
          return Err(PlacementError);
        }
        if choose.argument2 > 0xffff || !HasBucketType(m, choose.argument2) {
          return Err(PlacementError);
        }
      }
    } else {
      if |rule.steps| != 5
         || rule.steps[0] != RuleStep(RULE_SET_CHOOSELEAF_TRIES, 5, 0)
         || rule.steps[1] != RuleStep(RULE_SET_CHOOSE_TRIES, 100, 0)
         || rule.steps[2].operation != RULE_TAKE
         || rule.steps[3] != RuleStep(RULE_CHOOSE_INDEP, 0, 0)
         || rule.steps[4] != RuleStep(RULE_EMIT, 0, 0)
      {
        return Err(PlacementError);
      }
      takeIndex := 2;
    }
    var root := rule.steps[takeIndex].argument1;
    if root !in m.buckets || root in m.classShadowBuckets {
      return Err(PlacementError);
    }
    if m.chooseLocalTries != 0 || m.chooseLocalFallbackTries != 0 || m.chooseTotalTries != 50
       || m.chooseleafDescendOnce != 1 || m.chooseleafVaryR != 1
       || (m.strawCalcVersion, m.allowedBucketAlgorithms) !in {(0, 22), (1, 54)}
       || m.chooseleafStable != 1 || m.msrDescents != 100 || m.msrCollisionTries != 100
    {
      return Err(PlacementError);
    }
    return Ok(());
  }

  /** `place_validated`: on an admitted graph, a placement exactly when the replica count and the
      rule are admitted, and then the one the rule defines. */
  method PlaceValidated(e: Env, ruleId: U32, seed: U32, replicas: nat) returns (r: Result<seq<I32>, PlacementError>)
    requires GraphOk(e.crush) && WellShaped(e.crush)
    ensures r.Ok? <==> Placeable(e.crush, ruleId, replicas)
    ensures r.Ok? ==> r.value == Placed(e, e.crush.rules[ruleId], seed, replicas)
  {
    hide GraphOk, Placed;
    if replicas == 0 || replicas > MAX_CERTIFIED_REPLICAS || ruleId !in e.crush.rules {
      return Err(PlacementError);
    }
    var rule := e.crush.rules[ruleId];
    if rule.ruleType != RULE_TYPE_REPLICATED && rule.ruleType != RULE_TYPE_ERASURE {
      return Err(PlacementError);
    }
    var certified := ValidateCertifiedRule(e.crush, rule);
    if certified.Err? {
      return Err(PlacementError);
    }
    var walk := new Placement(e);
    r := InterpretRule(walk, rule, seed, replicas);
  }

  /** `Map::place`: the same behind the graph check, for any map the decoder can build. */
  method Place(e: Env, ruleId: U32, seed: U32, replicas: nat) returns (r: Result<seq<I32>, PlacementError>)
    requires WellShaped(e.crush)
    ensures r.Ok? <==> GraphOk(e.crush) && Placeable(e.crush, ruleId, replicas)
    ensures r.Ok? ==> r.value == Placed(e, e.crush.rules[ruleId], seed, replicas)
  {
    var graph := ValidateGraph(e.crush);
    if graph.Err? {
      return Err(PlacementError);
    }
    r := PlaceValidated(e, ruleId, seed, replicas);
  }
}
