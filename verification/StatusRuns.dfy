/** Cluster and status over repeated passes. */
module StatusRuns {
  import opened Resources
  import opened Reconciler
  import opened Convergence
  import opened Status
  import opened StatusConditions

  /** The cluster and the conditions stored in the status. */
  datatype World = World(objects: Objects, conditions: seq<Condition>)

  /** What stays the same from pass to pass. */
  datatype Setup = Setup(inputs: Inputs, name: string, owner: Owner, id: string, validationMessage: string)

  ghost function ConditionsOfPass(setup: Setup, resources: seq<Resource>, s: PassState, existing: seq<Condition>, now: int):
    seq<Condition>
  {
    var state := DetermineReconciliationState(setup.inputs.scope.invalidConfig, s.descendants, resources);
    BuildConditions(setup.id, state, setup.validationMessage, s.descendants, resources, existing, now)
  }

  /** A failure-free pass with its status update, at a given time and with a given random secret. */
  ghost function NextWorld(w: World, setup: Setup, hmac: string, now: int): (next: World)
    requires WellTyped(w.objects)
    ensures WellTyped(next.objects)
  {
    var s := FailureFree(w.objects, setup.inputs, setup.name, setup.owner, hmac);
    World(s.objects,
          ConditionsOfPass(setup, ControllerResources(setup.inputs, setup.name, hmac), s, w.conditions, now))
  }

  ghost function WorldAfter(w: World, setup: Setup, hmacs: seq<string>, times: seq<int>, k: nat): (after: World)
    requires WellTyped(w.objects) && k <= |hmacs| == |times|
    ensures WellTyped(after.objects)
  {
    if k == 0 then w
    else NextWorld(WorldAfter(w, setup, hmacs, times, k - 1), setup, hmacs[k - 1], times[k - 1])
  }

  // ----- one pass

  /** Condition types are pairwise distinct, whatever fails and whatever the policy is called. */
  lemma ConditionTypesOfAPassAreDistinct(
    objects: Objects, setup: Setup, hmac: string, faults: seq<Faults>, existing: seq<Condition>, now: int)
    requires WellTyped(objects) && |faults| == 6 && IsPolicyID(setup.id, setup.name)
    ensures var resources := ControllerResources(setup.inputs, setup.name, hmac);
      var s := PassOver(objects, setup.inputs, setup.name, setup.owner, hmac, faults, 6);
      TypesAreDistinct(ConditionsOfPass(setup, resources, s, existing, now))
  {
    ControllerResourcesAreDistinct(setup.inputs, setup.name, hmac);
    var resources := ControllerResources(setup.inputs, setup.name, hmac);
    var s := Pass(objects, resources, setup.owner, faults, 6);
    var state := DetermineReconciliationState(setup.inputs.scope.invalidConfig, s.descendants, resources);
    ControllerResourceIDsAreDistinct(setup.inputs, setup.name, hmac);
    NotFoundConditionsAreEmpty(objects, resources, setup.owner, faults, existing, now);
    PassHasSummary(objects, resources, setup.owner, faults, 6);
    assert resources[..6] == resources;
    SummaryIDs(s, resources, Results(objects, resources, setup.owner, faults, 6), setup.owner, setup.id, setup.name);
    ConditionTypes(setup.id, state, setup.validationMessage, s.descendants, existing, now);
  }

  lemma SummaryIDs(s: PassState, resources: seq<Resource>, results: seq<StepResult>, owner: Owner, id: string, name: string)
    requires IsSummary(s.descendants, s.errors, resources, results, owner) && IDsAreDistinct(resources)
    requires IsPolicyID(id, name)
    ensures DescendantIDsAreDistinct(s.descendants)
    ensures forall d | d in s.descendants :: d.id != id
  {
    RecordedIDsAreDistinct(resources, results, owner);
    RecordedIDs(resources, results, owner);
    forall d | d in s.descendants ensures d.id != id {
      var i :| 0 <= i < |resources| && d.id == ResourceID(resources[i].key);
      PolicyIDIsNoResourceID(id, name, resources[i].key);
    }
  }

  // ----- repeated passes

  /** After the first failure-free pass the objects never change again, and every later pass is quiet. */
  lemma {:induction false} ObjectsSettle(w: World, setup: Setup, hmacs: seq<string>, times: seq<int>, k: nat)
    requires WellTyped(w.objects) && 1 <= k <= |hmacs| == |times|
    requires NothingForeignAtAll(w.objects, ControllerResources(setup.inputs, setup.name, hmacs[0]), setup.owner.uid)
    ensures WorldAfter(w, setup, hmacs, times, k).objects
         == FailureFree(w.objects, setup.inputs, setup.name, setup.owner, hmacs[0]).objects
  {
    if k > 1 {
      ObjectsSettle(w, setup, hmacs, times, k - 1);
      SecondPassWritesNothing(w.objects, setup.inputs, setup.name, setup.owner, hmacs[0], hmacs[k - 1]);
    } else {
      assert WorldAfter(w, setup, hmacs, times, 0) == w;
    }
  }

  ghost function QuietState(setup: Setup, hmac: string): PassState {
    PassState(map[], QuietDescendants(ControllerResources(setup.inputs, setup.name, hmac), setup.owner, 6), 0, 0)
  }

  /** The conditions of a quiet pass do not depend on the secret it generated. */
  lemma QuietConditions(setup: Setup, hmac: string, hmac': string, existing: seq<Condition>, now: int)
    ensures var a, b := ControllerResources(setup.inputs, setup.name, hmac),
                        ControllerResources(setup.inputs, setup.name, hmac');
      ConditionsOfPass(setup, a, QuietState(setup, hmac), existing, now)
      == ConditionsOfPass(setup, b, QuietState(setup, hmac'), existing, now)
  {
    var a, b := ControllerResources(setup.inputs, setup.name, hmac),
                ControllerResources(setup.inputs, setup.name, hmac');
    ShapeIgnoresHmac(setup.inputs, setup.name, hmac, hmac');
    QuietDescendantsByShape(a, b, setup.owner, 6);
    SameShapeSameConditions(setup, QuietState(setup, hmac), a, b, existing, now);
  }

  lemma SameShapeSameConditions(
    setup: Setup, s: PassState, a: seq<Resource>, b: seq<Resource>, existing: seq<Condition>, now: int)
    requires SameShape(a, b)
    ensures ConditionsOfPass(setup, a, s, existing, now) == ConditionsOfPass(setup, b, s, existing, now)
  {
    SameCounts(a, b);
    SameMissing(s.descendants, a, b, existing, now);
  }

  lemma {:induction false} SameCounts(a: seq<Resource>, b: seq<Resource>)
    requires SameShape(a, b)
    ensures CountDesired(a) == CountDesired(b)
  {
    if a != [] {
      SameCounts(a[..|a| - 1], b[..|b| - 1]);
    }
  }

  lemma {:induction false} SameMissing(
    descendants: seq<Descendant>, a: seq<Resource>, b: seq<Resource>, existing: seq<Condition>, now: int)
    requires SameShape(a, b)
    ensures MissingConditions(descendants, a, existing, now) == MissingConditions(descendants, b, existing, now)
  {
    if a != [] {
      SameMissing(descendants, a[..|a| - 1], b[..|b| - 1], existing, now);
    }
  }

  lemma LaterPassIsQuiet(w: World, setup: Setup, hmacs: seq<string>, times: seq<int>, k: nat)
    requires WellTyped(w.objects) && 2 <= k <= |hmacs| == |times|
    requires NothingForeignAtAll(w.objects, ControllerResources(setup.inputs, setup.name, hmacs[0]), setup.owner.uid)
    ensures WorldAfter(w, setup, hmacs, times, k).conditions
         == ConditionsOfPass(setup, ControllerResources(setup.inputs, setup.name, hmacs[k - 1]),
                             QuietState(setup, hmacs[k - 1]),
                             WorldAfter(w, setup, hmacs, times, k - 1).conditions, times[k - 1])
  {
    ObjectsSettle(w, setup, hmacs, times, k - 1);
    SecondPassWritesNothing(w.objects, setup.inputs, setup.name, setup.owner, hmacs[0], hmacs[k - 1]);
  }

  lemma QuietDescendantFacts(resources: seq<Resource>, owner: Owner, id: string, name: string)
    requires |resources| == 6 && IDsAreDistinct(resources) && IsPolicyID(id, name)
    ensures var descendants := QuietDescendants(resources, owner, 6);
      && DescendantIDsAreDistinct(descendants)
      && (forall d | d in descendants :: d.id != id)
      && (forall i | 0 <= i < |resources| && resources[i].desired.Some? :: IsReported(descendants, resources[i].key))
  {
    var results := QuietResults(resources);
    QuietIsRecorded(resources, owner, 6);
    assert resources[..6] == resources && results[..6] == results;
    RecordedCoversDesired(resources, results, owner);
    SummaryIDs(PassState(map[], RecordAll(resources, results, owner), CountFailed(results), 0),
               resources, results, owner, id, name);
  }

  /** The conditions of a quiet pass, built again on top of themselves, stay as they are. */
  lemma QuietConditionsAreStable(setup: Setup, hmac: string, existing: seq<Condition>, before: int, now: int)
    requires IsPolicyID(setup.id, setup.name)
    ensures var resources := ControllerResources(setup.inputs, setup.name, hmac);
      var conditions := ConditionsOfPass(setup, resources, QuietState(setup, hmac), existing, before);
      ConditionsOfPass(setup, resources, QuietState(setup, hmac), conditions, now) == conditions
  {
    var resources := ControllerResources(setup.inputs, setup.name, hmac);
    var descendants := QuietState(setup, hmac).descendants;
    ControllerResourceIDsAreDistinct(setup.inputs, setup.name, hmac);
    QuietDescendantFacts(resources, setup.owner, setup.id, setup.name);
    var state := DetermineReconciliationState(setup.inputs.scope.invalidConfig, descendants, resources);
    StableConditions(setup.id, state, setup.validationMessage, descendants, resources, existing, before, now);
  }

  lemma StableConditions(id: string, state: ReconciliationState, validationMessage: string, descendants: seq<Descendant>,
                         resources: seq<Resource>, existing: seq<Condition>, before: int, now: int)
    requires DescendantIDsAreDistinct(descendants) && forall d | d in descendants :: d.id != id
    requires forall i | 0 <= i < |resources| && resources[i].desired.Some? :: IsReported(descendants, resources[i].key)
    ensures var conditions := BuildConditions(id, state, validationMessage, descendants, resources, existing, before);
      BuildConditions(id, state, validationMessage, descendants, resources, conditions, now) == conditions
  {
    var conditions := BuildConditions(id, state, validationMessage, descendants, resources, existing, before);
    NothingMissing(descendants, resources, existing, before);
    NothingMissing(descendants, resources, conditions, now);
    ConditionsAreStable(id, state, validationMessage, descendants, existing, before, now);
  }

  function QuietResults(resources: seq<Resource>): (results: seq<StepResult>)
    ensures |results| == |resources|
    ensures forall i | 0 <= i < |resources| ::
      results[i] == StepResult(map[], if resources[i].desired.Some? then Unchanged else Silent, false, 0)
  {
    seq(|resources|, i requires 0 <= i < |resources| =>
      StepResult(map[], if resources[i].desired.Some? then Unchanged else Silent, false, 0))
  }

  lemma {:induction false} QuietIsRecorded(resources: seq<Resource>, owner: Owner, n: nat)
    requires n <= |resources|
    ensures QuietDescendants(resources, owner, n) == RecordAll(resources[..n], QuietResults(resources)[..n], owner)
  {
    if n > 0 {
      QuietIsRecorded(resources, owner, n - 1);
      assert resources[..n][..n - 1] == resources[..n - 1];
      assert QuietResults(resources)[..n][..n - 1] == QuietResults(resources)[..n - 1];
    }
  }

  /** The conditions of a later pass are those of the pass before it. */
  lemma QuietPassKeepsConditions(setup: Setup, hmac: string, hmac': string, existing: seq<Condition>, before: int, now: int)
    requires IsPolicyID(setup.id, setup.name)
    ensures var conditions := ConditionsOfPass(setup, ControllerResources(setup.inputs, setup.name, hmac'),
                                               QuietState(setup, hmac'), existing, before);
      ConditionsOfPass(setup, ControllerResources(setup.inputs, setup.name, hmac), QuietState(setup, hmac), conditions, now)
      == conditions
  {
    var conditions := ConditionsOfPass(setup, ControllerResources(setup.inputs, setup.name, hmac'),
                                       QuietState(setup, hmac'), existing, before);
    QuietConditions(setup, hmac, hmac', conditions, now);
    QuietConditionsAreStable(setup, hmac', existing, before, now);
  }

  lemma LaterConditions(w: World, setup: Setup, hmacs: seq<string>, times: seq<int>, k: nat)
    requires WellTyped(w.objects) && 2 < k <= |hmacs| == |times| && IsPolicyID(setup.id, setup.name)
    requires NothingForeignAtAll(w.objects, ControllerResources(setup.inputs, setup.name, hmacs[0]), setup.owner.uid)
    requires WorldAfter(w, setup, hmacs, times, k - 1).conditions == WorldAfter(w, setup, hmacs, times, 2).conditions
    ensures WorldAfter(w, setup, hmacs, times, k).conditions == WorldAfter(w, setup, hmacs, times, 2).conditions
  {
    LaterPassIsQuiet(w, setup, hmacs, times, 2);
    LaterPassIsQuiet(w, setup, hmacs, times, k);
    QuietPassKeepsConditions(setup, hmacs[k - 1], hmacs[1],
                             WorldAfter(w, setup, hmacs, times, 1).conditions, times[1], times[k - 1]);
  }

  lemma {:induction false} ConditionsSettle(w: World, setup: Setup, hmacs: seq<string>, times: seq<int>, k: nat)
    requires WellTyped(w.objects) && 2 <= k <= |hmacs| == |times| && IsPolicyID(setup.id, setup.name)
    requires NothingForeignAtAll(w.objects, ControllerResources(setup.inputs, setup.name, hmacs[0]), setup.owner.uid)
    ensures WorldAfter(w, setup, hmacs, times, k).conditions == WorldAfter(w, setup, hmacs, times, 2).conditions
  {
    if k > 2 {
      ConditionsSettle(w, setup, hmacs, times, k - 1);
      LaterConditions(w, setup, hmacs, times, k);
    }
  }

  lemma SameParts(a: World, b: World)
    requires a.objects == b.objects && a.conditions == b.conditions
    ensures a == b
  {}

  /** With unchanged inputs and no failures, cluster and conditions - transition times included - are
      from the third pass on what they were after the second. */
  lemma WorldIsStableFromTheSecondPass(w: World, setup: Setup, hmacs: seq<string>, times: seq<int>, k: nat)
    requires WellTyped(w.objects) && 2 <= k <= |hmacs| == |times| && IsPolicyID(setup.id, setup.name)
    requires NothingForeignAtAll(w.objects, ControllerResources(setup.inputs, setup.name, hmacs[0]), setup.owner.uid)
    ensures WorldAfter(w, setup, hmacs, times, k) == WorldAfter(w, setup, hmacs, times, 2)
  {
    ObjectsSettle(w, setup, hmacs, times, 2);
    ObjectsSettle(w, setup, hmacs, times, k);
    ConditionsSettle(w, setup, hmacs, times, k);
    SameParts(WorldAfter(w, setup, hmacs, times, k), WorldAfter(w, setup, hmacs, times, 2));
  }
}
