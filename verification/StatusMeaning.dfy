/** What the conditions of a pass say about it. */
module StatusMeaning {
  import opened Resources
  import opened Reconciler
  import opened Convergence
  import opened Status
  import opened StatusConditions
  import opened StatusRuns
  import opened Wrappers

  // ----- when a step fails

  /** The lookup fails, a foreign object is in the way, or a call that is needed fails: the owner
      reference or the creation, the patch of an object that differs, or a deletion. */
  lemma StepFailsIff(objects: Objects, res: Resource, owner: Owner, faults: Faults)
    requires WellTyped(objects) && IsResource(res)
    ensures var present := res.key in objects;
      var owned := present && objects[res.key].controller == Some(owner.uid);
      Step(objects, res, owner, faults).failed <==>
        || faults.get
        || (res.desired.Some? && present && !owned)
        || (res.desired.Some? && !present && (faults.setOwner || faults.write))
        || (res.desired.Some? && owned && faults.write
            && !(HasLabels(objects[res.key].labels, res.desired.value.labels)
                 && HasManagedFields(res.key.kind, objects[res.key], res.desired.value)))
        || (res.desired.None? && owned && faults.write)
  {
    if res.desired.Some? && res.key in objects {
      NothingToUpdateIff(res.key.kind, objects[res.key], res.desired.value);
    }
  }

  /** What the six steps of a pass result in. */
  ghost function ResultsOver(objects: Objects, setup: Setup, hmac: string, faults: seq<Faults>):
    (results: seq<StepResult>)
    requires WellTyped(objects) && |faults| == 6
    ensures |results| == 6
  {
    ControllerResourcesAreDistinct(setup.inputs, setup.name, hmac);
    Results(objects, ControllerResources(setup.inputs, setup.name, hmac), setup.owner, faults, 6)
  }

  // ----- the condition of the AuthPolicy

  ghost predicate Is(c: Condition, kind: string, status: ConditionStatus, reason: string) {
    c.kind == kind && c.status == status && c.reason == reason
  }

  lemma {:induction false} FailuresCounted(results: seq<StepResult>)
    ensures CountFailed(results) > 0 <==> exists i | 0 <= i < |results| :: results[i].failed
  {
    if results != [] {
      var n := |results| - 1;
      FailuresCounted(results[..n]);
      if i :| 0 <= i < |results| && results[i].failed {
        if i < n { assert results[..n][i] == results[i]; }
      }
      if i :| 0 <= i < n && results[..n][i].failed {
        assert results[i] == results[..n][i];
      }
    }
  }

  /** What the condition of the AuthPolicy says in a state. */
  ghost predicate TellsTheState(own: Condition, id: string, validationMessage: string, state: ReconciliationState) {
    match state
    case StateInvalid => Is(own, id, IsFalse, "InvalidConfiguration") && own.message == validationMessage
    case StateReady =>
      && Is(own, id, IsTrue, "ReconciliationSuccess")
      && own.message == "Descendants of AuthPolicy reconciled successfully."
    case StatePending =>
      && Is(own, id, IsUnknown, "ReconciliationPending")
      && own.message == "Descendants of AuthPolicy are not yet reconciled."
    case StateFailed =>
      && Is(own, id, IsFalse, "ReconciliationFailed")
      && own.message == "Descendants of AuthPolicy failed during reconciliation."
  }

  lemma PolicyConditionTells(
    id: string, state: ReconciliationState, validationMessage: string, existing: seq<Condition>, now: int)
    ensures TellsTheState(
      Preserved(existing, AuthPolicyCondition(id, state, validationMessage, now)), id, validationMessage, state)
  {
    PreservedSays(existing, AuthPolicyCondition(id, state, validationMessage, now));
    match state
    case StateInvalid =>
    case StateReady =>
    case StatePending =>
    case StateFailed =>
  }

  /** The state that validity and failures call for. */
  ghost function StateCalledFor(invalidConfig: bool, resources: seq<Resource>, results: seq<StepResult>):
    ReconciliationState
    requires |resources| == |results| == 6
  {
    if invalidConfig then StateInvalid
    else if !exists i | 0 <= i < 6 :: results[i].failed then StateReady
    else if exists i | 0 <= i < 6 :: resources[i].desired.None? && results[i].failed then StatePending
    else StateFailed
  }

  /** Which state a pass leads to, by what failed in it. */
  lemma StateByResults(
    invalidConfig: bool, resources: seq<Resource>, results: seq<StepResult>, s: PassState, owner: Owner)
    requires |resources| == |results| == 6 && IDsAreDistinct(resources)
    requires IsSummary(s.descendants, s.errors, resources, results, owner)
    ensures DetermineReconciliationState(invalidConfig, s.descendants, resources)
         == StateCalledFor(invalidConfig, resources, results)
  {
    SummaryCounts(s, resources, results, owner);
    FailuresCounted(results);
    UnwantedFailuresCounted(resources, results);
  }

  /** The first condition of a pass is that of the AuthPolicy: whether it is valid, and what failed. */
  lemma OwnConditionOfAPass(
    objects: Objects, setup: Setup, hmac: string, faults: seq<Faults>, existing: seq<Condition>, now: int)
    requires WellTyped(objects) && |faults| == 6
    ensures var resources := ControllerResources(setup.inputs, setup.name, hmac);
      var s := PassOver(objects, setup.inputs, setup.name, setup.owner, hmac, faults, 6);
      var results := ResultsOver(objects, setup, hmac, faults);
      var state := StateCalledFor(setup.inputs.scope.invalidConfig, resources, results);
      TellsTheState(ConditionsOfPass(setup, resources, s, existing, now)[0], setup.id, setup.validationMessage, state)
  {
    var resources := ControllerResources(setup.inputs, setup.name, hmac);
    ControllerResourcesAreDistinct(setup.inputs, setup.name, hmac);
    ControllerResourceIDsAreDistinct(setup.inputs, setup.name, hmac);
    PassHasSummary(objects, resources, setup.owner, faults, 6);
    assert resources[..6] == resources;
    var s := Pass(objects, resources, setup.owner, faults, 6);
    var results := Results(objects, resources, setup.owner, faults, 6);
    StateByResults(setup.inputs.scope.invalidConfig, resources, results, s, setup.owner);
    PolicyConditionTells(
      setup.id, DetermineReconciliationState(setup.inputs.scope.invalidConfig, s.descendants, resources),
      setup.validationMessage, existing, now);
  }

  // ----- the conditions of the resources

  /** The kind and the name of an object, as the messages give them. */
  function Described(key: Key, owner: Owner): string {
    (match key.kind
     case SecretKind => "Secret "
     case EnvoyFilterKind => "EnvoyFilter "
     case RequestAuthenticationKind => "RequestAuthentication "
     case AuthorizationPolicyKind => "AuthorizationPolicy ") + owner.namespace + "/" + key.name
  }

  /** What is told about a step, by what was found and which call failed. */
  ghost predicate MessageFits(objects: Objects, res: Resource, owner: Owner, faults: Faults, message: string)
    requires WellTyped(objects) && IsResource(res)
  {
    var present, what := res.key in objects, Described(res.key, owner);
    var owned := present && objects[res.key].controller == Some(owner.uid);
    if faults.get then message == "Unable to get " + what + "."
    else if res.desired.None? then owned && faults.write ==> message == "Failed to delete " + what
    else if !present then
      message ==
        if faults.setOwner then "Unable to set AuthPolicy ownerReference on " + what + "."
        else if faults.write then "Unable to create " + what
        else "Successfully created " + what + "."
    else if !owned then
      message == "Failed to reconcile " + what + ": cannot update " + owner.namespace + "/" + res.key.name
        + " as it is not owned by AuthPolicy"
    else if HasLabels(objects[res.key].labels, res.desired.value.labels)
         && HasManagedFields(res.key.kind, objects[res.key], res.desired.value) then
      message == "Successfully reconciled " + what + "."
    else message == if faults.write then "Unable to patch " + what else "Successfully updated " + what + "."
  }

  lemma MessageOfAStep(objects: Objects, res: Resource, owner: Owner, faults: Faults)
    requires WellTyped(objects) && IsResource(res)
    ensures MessageFits(objects, res, owner, faults, Message(Step(objects, res, owner, faults).report, res.key, owner))
  {
    if res.desired.Some? && res.key in objects {
      NothingToUpdateIff(res.key.kind, objects[res.key], res.desired.value);
    }
    DescribedIsFullName(res.key, owner);
  }

  lemma DescribedIsFullName(key: Key, owner: Owner)
    ensures Described(key, owner) == FullName(key, owner)
  {
    match key.kind
    case SecretKind => assert "Secret" + " " == "Secret ";
    case EnvoyFilterKind => assert "EnvoyFilter" + " " == "EnvoyFilter ";
    case RequestAuthenticationKind => assert "RequestAuthentication" + " " == "RequestAuthentication ";
    case AuthorizationPolicyKind => assert "AuthorizationPolicy" + " " == "AuthorizationPolicy ";
  }

  /** The type of the condition about an object. */
  function TypeOf(key: Key): string {
    (match key.kind
     case SecretKind => "Secret"
     case EnvoyFilterKind => "EnvoyFilter"
     case RequestAuthenticationKind => "RequestAuthentication"
     case AuthorizationPolicyKind => "AuthorizationPolicy") + "-" + key.name
  }

  lemma ReportedHasID(key: Key, report: Report, owner: Owner, d: Descendant)
    ensures d in Reported(key, report, owner) ==> d.id == ResourceID(key)
  {}

  lemma RecordedInit(resources: seq<Resource>, results: seq<StepResult>, owner: Owner, d: Descendant)
    requires |resources| == |results| > 0 && IDsAreDistinct(resources)
    ensures var n := |resources| - 1;
      && (d in RecordAll(resources, results, owner) <==>
            || d in RecordAll(resources[..n], results[..n], owner)
            || d in Reported(resources[n].key, results[n].report, owner))
      && (d.id == ResourceID(resources[n].key) ==> d !in RecordAll(resources[..n], results[..n], owner))
      && IDsAreDistinct(resources[..n])
  {
    var n := |resources| - 1;
    RecordedIDs(resources, results, owner);
    RecordedIDs(resources[..n], results[..n], owner);
    if d in RecordAll(resources[..n], results[..n], owner) {
      var j :| 0 <= j < n && d.id == ResourceID(resources[..n][j].key);
      assert resources[..n][j] == resources[j];
    }
  }

  lemma OtherID(resources: seq<Resource>, i: nat)
    requires IDsAreDistinct(resources) && i < |resources| - 1
    ensures ResourceID(resources[i].key) != ResourceID(resources[|resources| - 1].key)
    ensures resources[..|resources| - 1][i] == resources[i]
  {}

  lemma {:induction false} RecordedAreReported(
    resources: seq<Resource>, results: seq<StepResult>, owner: Owner, i: nat, key: Key, report: Report, d: Descendant)
    requires i < |resources| == |results| && IDsAreDistinct(resources)
    requires resources[i].key == key && results[i].report == report && d.id == ResourceID(key)
    ensures d in RecordAll(resources, results, owner) <==> d in Reported(key, report, owner)
  {
    var n := |resources| - 1;
    RecordedInit(resources, results, owner, d);
    if i < n {
      OtherID(resources, i);
      ReportedHasID(resources[n].key, results[n].report, owner, d);
      RecordedAreReported(resources[..n], results[..n], owner, i, key, report, d);
    }
  }

  lemma DescendantConditionSays(descendants: seq<Descendant>, existing: seq<Condition>, now: int, c: Condition)
    ensures c in DescendantConditions(descendants, existing, now) ==>
      exists d | d in descendants :: c.kind == d.id && IsLogicallyEqual(c, DescendantCondition(d, now))
  {
    var conditions := DescendantConditions(descendants, existing, now);
    if c in conditions {
      var i :| 0 <= i < |conditions| && conditions[i] == c;
      PreservedSays(existing, DescendantCondition(descendants[i], now));
      assert descendants[i] in descendants;
    }
  }

  lemma DescendantHasCondition(descendants: seq<Descendant>, existing: seq<Condition>, now: int, d: Descendant)
    requires d in descendants
    ensures exists c | c in DescendantConditions(descendants, existing, now) ::
      IsLogicallyEqual(c, DescendantCondition(d, now))
  {
    var conditions := DescendantConditions(descendants, existing, now);
    var i :| 0 <= i < |descendants| && descendants[i] == d;
    PreservedSays(existing, DescendantCondition(d, now));
    assert conditions[i] in conditions;
  }

  /** A resource that failed has a false condition; one that is desired and did not, a true one; one that
      is not desired and did not fail, none. */
  ghost predicate TellsTheResult(conditions: seq<Condition>, res: Resource, failed: bool, message: string) {
    if failed then
      exists c | c in conditions :: Is(c, TypeOf(res.key), IsFalse, "Error") && c.message == message
    else if res.desired.Some? then
      exists c | c in conditions :: Is(c, TypeOf(res.key), IsTrue, "Success") && c.message == message
    else forall c | c in conditions :: c.kind != TypeOf(res.key)
  }

  lemma ReportedConditionTells(
    descendants: seq<Descendant>, existing: seq<Condition>, now: int, res: Resource, result: StepResult, owner: Owner)
    requires ReportsProperly(res, result)
    requires forall d: Descendant | d.id == ResourceID(res.key) ::
      d in descendants <==> d in Reported(res.key, result.report, owner)
    ensures TellsTheResult(DescendantConditions(descendants, existing, now), res, result.failed,
                           Message(result.report, res.key, owner))
  {
    var conditions := DescendantConditions(descendants, existing, now);
    var reported := Reported(res.key, result.report, owner);
    if result.failed || res.desired.Some? {
      assert reported[0] in reported && reported[0].id == ResourceID(res.key);
      DescendantHasCondition(descendants, existing, now, reported[0]);
    } else {
      forall c | c in conditions ensures c.kind != TypeOf(res.key) {
        DescendantConditionSays(descendants, existing, now, c);
      }
    }
  }

  /** Whatever fails in a pass: status and reason of the condition of each of the six resources. */
  lemma ConditionsTellTheResults(
    objects: Objects, setup: Setup, hmac: string, faults: seq<Faults>, existing: seq<Condition>, now: int, i: nat)
    requires WellTyped(objects) && |faults| == 6 && IsPolicyID(setup.id, setup.name) && i < 6
    ensures var resources := ControllerResources(setup.inputs, setup.name, hmac);
      var s := PassOver(objects, setup.inputs, setup.name, setup.owner, hmac, faults, 6);
      var result := ResultsOver(objects, setup, hmac, faults)[i];
      TellsTheResult(ConditionsOfPass(setup, resources, s, existing, now), resources[i], result.failed,
                     Message(result.report, resources[i].key, setup.owner))
  {
    var resources := ControllerResources(setup.inputs, setup.name, hmac);
    ControllerResourcesAreDistinct(setup.inputs, setup.name, hmac);
    ControllerResourceIDsAreDistinct(setup.inputs, setup.name, hmac);
    var s := Pass(objects, resources, setup.owner, faults, 6);
    var results := Results(objects, resources, setup.owner, faults, 6);
    PassHasSummary(objects, resources, setup.owner, faults, 6);
    assert resources[..6] == resources;
    forall d: Descendant | d.id == ResourceID(resources[i].key)
      ensures d in s.descendants <==> d in Reported(resources[i].key, results[i].report, setup.owner)
    {
      RecordedAreReported(resources, results, setup.owner, i, resources[i].key, results[i].report, d);
    }
    ReportedConditionTells(s.descendants, existing, now, resources[i], results[i], setup.owner);
    NotFoundConditionsAreEmpty(objects, resources, setup.owner, faults, existing, now);
    OwnConditionIsAnother(setup, s, resources, existing, now, resources[i], results[i].failed,
                          Message(results[i].report, resources[i].key, setup.owner));
  }

  lemma OwnConditionIsAnother(
    setup: Setup, s: PassState, resources: seq<Resource>, existing: seq<Condition>, now: int,
    res: Resource, failed: bool, message: string)
    requires IsPolicyID(setup.id, setup.name) && MissingConditions(s.descendants, resources, existing, now) == []
    requires TellsTheResult(DescendantConditions(s.descendants, existing, now), res, failed, message)
    ensures TellsTheResult(ConditionsOfPass(setup, resources, s, existing, now), res, failed, message)
  {
    var state := DetermineReconciliationState(setup.inputs.scope.invalidConfig, s.descendants, resources);
    var own := Preserved(existing, AuthPolicyCondition(setup.id, state, setup.validationMessage, now));
    PreservedSays(existing, AuthPolicyCondition(setup.id, state, setup.validationMessage, now));
    PolicyIDIsNoResourceID(setup.id, setup.name, res.key);
    var rest := DescendantConditions(s.descendants, existing, now);
    assert ConditionsOfPass(setup, resources, s, existing, now) == [own] + rest;
    assert forall c :: c in [own] + rest <==> c == own || c in rest;
  }
}
