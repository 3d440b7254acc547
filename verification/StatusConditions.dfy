/** The conditions in the status of an AuthPolicy and how their transition times settle. */
module StatusConditions {
  import opened Resources
  import opened Reconciler
  import opened Status

  datatype ConditionStatus = IsTrue | IsFalse | IsUnknown

  datatype Condition = Condition(
    kind: string, status: ConditionStatus, reason: string, message: string, transition: int)

  predicate IsLogicallyEqual(a: Condition, b: Condition) {
    a.kind == b.kind && a.status == b.status && a.reason == b.reason && a.message == b.message
  }

  /** The condition with the transition time of the first existing one that says the same. */
  function Preserved(existing: seq<Condition>, condition: Condition): Condition {
    if existing == [] then condition
    else if IsLogicallyEqual(existing[0], condition) then condition.(transition := existing[0].transition)
    else Preserved(existing[1..], condition)
  }

  method PreserveTransitionTime(existing: seq<Condition>, fresh_: Condition) returns (condition: Condition)
    ensures condition == Preserved(existing, fresh_)
  {
    condition := fresh_;
    for i := 0 to |existing|
      invariant condition == fresh_
      invariant Preserved(existing, fresh_) == Preserved(existing[i..], fresh_)
    {
      if IsLogicallyEqual(existing[i], condition) {
        condition := condition.(transition := existing[i].transition);
        return;
      }
    }
  }

  // ----- the three builders

  function AuthPolicyCondition(
    id: string, state: ReconciliationState, validationMessage: string, now: int): Condition
  {
    match state
    case StateInvalid => Condition(id, IsFalse, "InvalidConfiguration", validationMessage, now)
    case StatePending =>
      Condition(id, IsUnknown, "ReconciliationPending", "Descendants of AuthPolicy are not yet reconciled.", now)
    case StateFailed =>
      Condition(id, IsFalse, "ReconciliationFailed", "Descendants of AuthPolicy failed during reconciliation.", now)
    case StateReady =>
      Condition(id, IsTrue, "ReconciliationSuccess", "Descendants of AuthPolicy reconciled successfully.", now)
  }

  function DescendantCondition(d: Descendant, now: int): Condition {
    if d.error.Some? then Condition(d.id, IsFalse, "Error", d.error.value, now)
    else if d.success.Some? then Condition(d.id, IsTrue, "Success", d.success.value, now)
    else Condition(d.id, IsUnknown, "Unknown", "No status message set", now)
  }

  function DescendantConditions(descendants: seq<Descendant>, existing: seq<Condition>, now: int):
    (conditions: seq<Condition>)
    ensures |conditions| == |descendants|
    ensures forall i | 0 <= i < |descendants| ::
      conditions[i] == Preserved(existing, DescendantCondition(descendants[i], now))
  {
    seq(|descendants|, i requires 0 <= i < |descendants| => Preserved(existing, DescendantCondition(descendants[i], now)))
  }

  method BuildDescendantConditions(descendants: seq<Descendant>, existing: seq<Condition>, now: int)
    returns (conditions: seq<Condition>)
    ensures conditions == DescendantConditions(descendants, existing, now)
  {
    conditions := [];
    for i := 0 to |descendants|
      invariant conditions == DescendantConditions(descendants, existing, now)[..i]
    {
      var condition := PreserveTransitionTime(existing, DescendantCondition(descendants[i], now));
      conditions := conditions + [condition];
    }
  }

  function MissingCondition(key: Key, now: int): Condition {
    Condition(ResourceID(key), IsFalse, "NotFound",
              "Expected resource " + key.name + " of kind " + KindName(key.kind) + " was not created", now)
  }

  predicate IsReported(descendants: seq<Descendant>, key: Key) {
    exists d | d in descendants :: d.id == ResourceID(key)
  }

  function MissingConditions(
    descendants: seq<Descendant>, resources: seq<Resource>, existing: seq<Condition>, now: int): seq<Condition>
  {
    if resources == [] then []
    else
      var last := resources[|resources| - 1];
      MissingConditions(descendants, resources[..|resources| - 1], existing, now)
      + (if last.desired.Some? && !IsReported(descendants, last.key)
         then [Preserved(existing, MissingCondition(last.key, now))] else [])
  }

  method BuildMissingResourceConditions(
    descendants: seq<Descendant>, resources: seq<Resource>, existing: seq<Condition>, now: int)
    returns (conditions: seq<Condition>)
    ensures conditions == MissingConditions(descendants, resources, existing, now)
  {
    var ids: set<string> := {};
    for i := 0 to |descendants|
      invariant ids == set d | d in descendants[..i] :: d.id
    {
      ids := ids + {descendants[i].id};
    }
    conditions := [];
    for i := 0 to |resources|
      invariant conditions == MissingConditions(descendants, resources[..i], existing, now)
    {
      assert resources[..i + 1][..i] == resources[..i];
      if resources[i].desired.Some? {
        if ResourceID(resources[i].key) !in ids {
          var condition := PreserveTransitionTime(existing, MissingCondition(resources[i].key, now));
          conditions := conditions + [condition];
        }
      }
    }
    assert resources[..|resources|] == resources;
  }

  function BuildConditions(
    id: string, state: ReconciliationState, validationMessage: string,
    descendants: seq<Descendant>, resources: seq<Resource>, existing: seq<Condition>, now: int): seq<Condition>
  {
    [Preserved(existing, AuthPolicyCondition(id, state, validationMessage, now))]
    + DescendantConditions(descendants, existing, now)
    + MissingConditions(descendants, resources, existing, now)
  }

  // ----- no condition about a missing resource

  lemma ReportedInEither(a: seq<Descendant>, b: seq<Descendant>, key: Key)
    ensures IsReported(a + b, key) <==> IsReported(a, key) || IsReported(b, key)
  {
    assert forall d :: d in a + b <==> d in a || d in b;
  }

  lemma ReportedAtLast(resources: seq<Resource>, results: seq<StepResult>, owner: Owner, key: Key)
    requires |resources| == |results| > 0 && IDsAreDistinct(resources)
    ensures var n := |resources| - 1;
      IsReported(RecordAll(resources, results, owner), key) <==>
        || IsReported(RecordAll(resources[..n], results[..n], owner), key)
        || IsReported(Reported(resources[n].key, results[n].report, owner), key)
  {
    var n := |resources| - 1;
    RecordedIDs(resources, results, owner);
    ReportedInEither(RecordAll(resources[..n], results[..n], owner),
                     Reported(resources[n].key, results[n].report, owner), key);
  }

  lemma DesiredIsReported(res: Resource, result: StepResult, owner: Owner)
    requires ReportsProperly(res, result) && res.desired.Some?
    ensures IsReported(Reported(res.key, result.report, owner), res.key)
  {
    var more := Reported(res.key, result.report, owner);
    assert more[0] in more;
  }

  lemma InitReportsProperly(resources: seq<Resource>, results: seq<StepResult>)
    requires |resources| == |results| > 0 && IDsAreDistinct(resources)
    requires forall i | 0 <= i < |resources| :: ReportsProperly(resources[i], results[i])
    ensures var n := |resources| - 1;
      && IDsAreDistinct(resources[..n])
      && forall i | 0 <= i < n :: ReportsProperly(resources[..n][i], results[..n][i])
  {}

  lemma {:induction false} RecordedCovers(resources: seq<Resource>, results: seq<StepResult>, owner: Owner, i: nat)
    requires i < |resources| == |results| && IDsAreDistinct(resources) && resources[i].desired.Some?
    requires forall j | 0 <= j < |resources| :: ReportsProperly(resources[j], results[j])
    ensures IsReported(RecordAll(resources, results, owner), resources[i].key)
  {
    var n := |resources| - 1;
    ReportedAtLast(resources, results, owner, resources[i].key);
    if i < n {
      InitReportsProperly(resources, results);
      RecordedCovers(resources[..n], results[..n], owner, i);
    } else {
      DesiredIsReported(resources[n], results[n], owner);
    }
  }

  lemma RecordedCoversDesired(resources: seq<Resource>, results: seq<StepResult>, owner: Owner)
    requires |resources| == |results| && IDsAreDistinct(resources)
    requires forall i | 0 <= i < |resources| :: ReportsProperly(resources[i], results[i])
    ensures forall i | 0 <= i < |resources| && resources[i].desired.Some? ::
      IsReported(RecordAll(resources, results, owner), resources[i].key)
  {
    forall i | 0 <= i < |resources| && resources[i].desired.Some?
      ensures IsReported(RecordAll(resources, results, owner), resources[i].key)
    {
      RecordedCovers(resources, results, owner, i);
    }
  }

  lemma {:induction false} NothingMissing(
    descendants: seq<Descendant>, resources: seq<Resource>, existing: seq<Condition>, now: int)
    requires forall i | 0 <= i < |resources| && resources[i].desired.Some? :: IsReported(descendants, resources[i].key)
    ensures MissingConditions(descendants, resources, existing, now) == []
  {
    if resources != [] {
      var init := resources[..|resources| - 1];
      assert forall i | 0 <= i < |init| :: init[i] == resources[i];
      NothingMissing(descendants, init, existing, now);
    }
  }

  /** Whatever fails in a pass, no desired resource is ever reported as not found. */
  lemma NotFoundConditionsAreEmpty(
    objects: Objects, resources: seq<Resource>, owner: Owner, faults: seq<Faults>, existing: seq<Condition>, now: int)
    requires WellTyped(objects) && AreResources(resources) && |resources| == |faults| && IDsAreDistinct(resources)
    ensures var s := Pass(objects, resources, owner, faults, |resources|);
      MissingConditions(s.descendants, resources, existing, now) == []
  {
    var s := Pass(objects, resources, owner, faults, |resources|);
    var results := Results(objects, resources, owner, faults, |resources|);
    PassHasSummary(objects, resources, owner, faults, |resources|);
    assert resources[..|resources|] == resources;
    SummaryReportsDesired(s, resources, results, owner);
    NothingMissing(s.descendants, resources, existing, now);
  }

  lemma SummaryReportsDesired(s: PassState, resources: seq<Resource>, results: seq<StepResult>, owner: Owner)
    requires IsSummary(s.descendants, s.errors, resources, results, owner) && IDsAreDistinct(resources)
    ensures forall i | 0 <= i < |resources| && resources[i].desired.Some? :: IsReported(s.descendants, resources[i].key)
  {
    RecordedCoversDesired(resources, results, owner);
  }

  // ----- condition types

  predicate TypesAreDistinct(conditions: seq<Condition>) {
    forall i, j | 0 <= i < j < |conditions| :: conditions[i].kind != conditions[j].kind
  }

  lemma {:induction false} PreservedSays(existing: seq<Condition>, condition: Condition)
    ensures IsLogicallyEqual(Preserved(existing, condition), condition)
  {
    if existing != [] && !IsLogicallyEqual(existing[0], condition) {
      PreservedSays(existing[1..], condition);
    }
  }

  /** The identifier of the AuthPolicy itself; its kind may be left empty by the client. */
  predicate IsPolicyID(id: string, name: string) {
    id == GetID("AuthPolicy", name) || id == GetID("", name)
  }

  lemma PolicyIDIsNoResourceID(id: string, name: string, key: Key)
    requires IsPolicyID(id, name)
    ensures id != ResourceID(key)
  {
    if id == GetID("", name) {
      assert id[0] == '-';
      assert ResourceID(key)[0] == KindName(key.kind)[0];
    } else {
      assert id[4] == 'P';
      assert ResourceID(key)[4] == KindName(key.kind)[4];
    }
  }

  predicate DescendantIDsAreDistinct(descendants: seq<Descendant>) {
    forall i, j | 0 <= i < j < |descendants| :: descendants[i].id != descendants[j].id
  }

  lemma DistinctWithOneMore(descendants: seq<Descendant>, more: seq<Descendant>, id: string)
    requires DescendantIDsAreDistinct(descendants) && forall d | d in descendants :: d.id != id
    requires more == [] || (|more| == 1 && more[0].id == id)
    ensures DescendantIDsAreDistinct(descendants + more)
  {}

  lemma {:induction false} RecordedIDsAreDistinct(resources: seq<Resource>, results: seq<StepResult>, owner: Owner)
    requires |resources| == |results| && IDsAreDistinct(resources)
    ensures DescendantIDsAreDistinct(RecordAll(resources, results, owner))
  {
    if resources != [] {
      var n := |resources| - 1;
      var before := RecordAll(resources[..n], results[..n], owner);
      RecordedIDsAreDistinct(resources[..n], results[..n], owner);
      RecordedIDs(resources[..n], results[..n], owner);
      RecordedIDs(resources, results, owner);
      forall d | d in before ensures d.id != ResourceID(resources[n].key) {
        var j :| 0 <= j < n && d.id == ResourceID(resources[..n][j].key);
        assert resources[..n][j] == resources[j];
      }
      DistinctWithOneMore(before, Reported(resources[n].key, results[n].report, owner), ResourceID(resources[n].key));
    }
  }

  lemma DescendantConditionTypes(descendants: seq<Descendant>, existing: seq<Condition>, now: int)
    ensures forall i | 0 <= i < |descendants| ::
      DescendantConditions(descendants, existing, now)[i].kind == descendants[i].id
  {
    forall i | 0 <= i < |descendants|
      ensures DescendantConditions(descendants, existing, now)[i].kind == descendants[i].id
    {
      PreservedSays(existing, DescendantCondition(descendants[i], now));
    }
  }

  lemma TypesOfCons(first: Condition, conditions: seq<Condition>, descendants: seq<Descendant>)
    requires |conditions| == |descendants| && forall i | 0 <= i < |descendants| :: conditions[i].kind == descendants[i].id
    requires DescendantIDsAreDistinct(descendants) && forall d | d in descendants :: d.id != first.kind
    ensures TypesAreDistinct([first] + conditions)
  {
    assert forall i | 0 <= i < |descendants| :: descendants[i] in descendants;
  }

  lemma NoResourcesNoneMissing(first: seq<Condition>, descendants: seq<Descendant>, existing: seq<Condition>, now: int)
    ensures first + MissingConditions(descendants, [], existing, now) == first
  {}

  lemma ConditionTypes(
    id: string, state: ReconciliationState, validationMessage: string,
    descendants: seq<Descendant>, existing: seq<Condition>, now: int)
    requires DescendantIDsAreDistinct(descendants)
    requires forall d | d in descendants :: d.id != id
    ensures TypesAreDistinct(BuildConditions(id, state, validationMessage, descendants, [], existing, now))
  {
    var first := Preserved(existing, AuthPolicyCondition(id, state, validationMessage, now));
    PreservedSays(existing, AuthPolicyCondition(id, state, validationMessage, now));
    DescendantConditionTypes(descendants, existing, now);
    TypesOfCons(first, DescendantConditions(descendants, existing, now), descendants);
    NoResourcesNoneMissing([first] + DescendantConditions(descendants, existing, now), descendants, existing, now);
  }

  // ----- conditions settle

  lemma {:induction false} PreservedFinds(existing: seq<Condition>, i: nat, condition: Condition)
    requires TypesAreDistinct(existing) && i < |existing| && IsLogicallyEqual(existing[i], condition)
    ensures Preserved(existing, condition) == existing[i]
  {
    if i > 0 {
      assert existing[0].kind != existing[i].kind;
      var rest := existing[1..];
      assert forall a, b | 0 <= a < b < |rest| :: rest[a] == existing[a + 1] && rest[b] == existing[b + 1];
      PreservedFinds(existing[1..], i - 1, condition);
    }
  }

  /** A condition that was built once is found again. */
  lemma RebuiltConditionIsFound(
    conditions: seq<Condition>, existing: seq<Condition>, i: nat, before: Condition, now: Condition)
    requires TypesAreDistinct(conditions) && i < |conditions| && conditions[i] == Preserved(existing, before)
    requires IsLogicallyEqual(before, now)
    ensures Preserved(conditions, now) == conditions[i]
  {
    PreservedSays(existing, before);
    PreservedFinds(conditions, i, now);
  }

  lemma DescendantConditionsAreStable(
    first: Condition, descendants: seq<Descendant>, existing: seq<Condition>, before: int, now: int)
    requires TypesAreDistinct([first] + DescendantConditions(descendants, existing, before))
    ensures DescendantConditions(descendants, [first] + DescendantConditions(descendants, existing, before), now)
         == DescendantConditions(descendants, existing, before)
  {
    var tail := DescendantConditions(descendants, existing, before);
    forall i | 0 <= i < |descendants|
      ensures Preserved([first] + tail, DescendantCondition(descendants[i], now)) == tail[i]
    {
      assert ([first] + tail)[i + 1] == tail[i];
      RebuiltConditionIsFound([first] + tail, existing, i + 1,
                              DescendantCondition(descendants[i], before), DescendantCondition(descendants[i], now));
    }
  }

  /** All conditions of a status in which nothing is missing. */
  function PresentConditions(
    id: string, state: ReconciliationState, validationMessage: string,
    descendants: seq<Descendant>, existing: seq<Condition>, now: int): seq<Condition>
  {
    [Preserved(existing, AuthPolicyCondition(id, state, validationMessage, now))]
    + DescendantConditions(descendants, existing, now)
  }

  lemma BuiltIsPresent(
    id: string, state: ReconciliationState, validationMessage: string,
    descendants: seq<Descendant>, existing: seq<Condition>, now: int)
    ensures BuildConditions(id, state, validationMessage, descendants, [], existing, now)
         == PresentConditions(id, state, validationMessage, descendants, existing, now)
  {
    NoResourcesNoneMissing(
      PresentConditions(id, state, validationMessage, descendants, existing, now), descendants, existing, now);
  }

  lemma PresentConditionsAreStable(
    id: string, state: ReconciliationState, validationMessage: string,
    descendants: seq<Descendant>, existing: seq<Condition>, before: int, now: int)
    requires TypesAreDistinct(PresentConditions(id, state, validationMessage, descendants, existing, before))
    ensures var conditions := PresentConditions(id, state, validationMessage, descendants, existing, before);
      PresentConditions(id, state, validationMessage, descendants, conditions, now) == conditions
  {
    var conditions := PresentConditions(id, state, validationMessage, descendants, existing, before);
    RebuiltConditionIsFound(conditions, existing, 0, AuthPolicyCondition(id, state, validationMessage, before),
                            AuthPolicyCondition(id, state, validationMessage, now));
    DescendantConditionsAreStable(conditions[0], descendants, existing, before, now);
  }

  /** Building the same conditions again on top of themselves keeps every transition time. */
  lemma ConditionsAreStable(
    id: string, state: ReconciliationState, validationMessage: string,
    descendants: seq<Descendant>, existing: seq<Condition>, before: int, now: int)
    requires DescendantIDsAreDistinct(descendants)
    requires forall d | d in descendants :: d.id != id
    ensures var conditions := BuildConditions(id, state, validationMessage, descendants, [], existing, before);
      BuildConditions(id, state, validationMessage, descendants, [], conditions, now) == conditions
  {
    ConditionTypes(id, state, validationMessage, descendants, existing, before);
    BuiltIsPresent(id, state, validationMessage, descendants, existing, before);
    PresentConditionsAreStable(id, state, validationMessage, descendants, existing, before, now);
    BuiltIsPresent(id, state, validationMessage, descendants,
                   PresentConditions(id, state, validationMessage, descendants, existing, before), now);
  }

  // ----- unchanged conditions

  /** Pairwise the same, up to the transition times. */
  predicate SayTheSame(a: seq<Condition>, b: seq<Condition>) {
    |a| == |b| && forall i | 0 <= i < |a| :: IsLogicallyEqual(a[i], b[i])
  }

  function AllPreserved(existing: seq<Condition>, conditions: seq<Condition>): (preserved: seq<Condition>)
    ensures |preserved| == |conditions|
    ensures forall i | 0 <= i < |conditions| :: preserved[i] == Preserved(existing, conditions[i])
  {
    seq(|conditions|, i requires 0 <= i < |conditions| => Preserved(existing, conditions[i]))
  }

  lemma AllPreservedConcat(existing: seq<Condition>, a: seq<Condition>, b: seq<Condition>)
    ensures AllPreserved(existing, a + b) == AllPreserved(existing, a) + AllPreserved(existing, b)
  {}

  lemma {:induction false} MissingConditionsArePreserved(
    descendants: seq<Descendant>, resources: seq<Resource>, existing: seq<Condition>, now: int)
    ensures MissingConditions(descendants, resources, existing, now)
         == AllPreserved(existing, MissingConditions(descendants, resources, [], now))
  {
    if resources != [] {
      var init, last := resources[..|resources| - 1], resources[|resources| - 1];
      MissingConditionsArePreserved(descendants, init, existing, now);
      var more := if last.desired.Some? && !IsReported(descendants, last.key)
                  then [MissingCondition(last.key, now)] else [];
      AllPreservedConcat(existing, MissingConditions(descendants, init, [], now), more);
    }
  }

  lemma DescendantConditionsArePreserved(descendants: seq<Descendant>, existing: seq<Condition>, now: int)
    ensures DescendantConditions(descendants, existing, now)
         == AllPreserved(existing, DescendantConditions(descendants, [], now))
  {}

  /** The existing conditions only lend their times. */
  lemma BuiltIsPreserved(
    id: string, state: ReconciliationState, validationMessage: string,
    descendants: seq<Descendant>, resources: seq<Resource>, existing: seq<Condition>, now: int)
    ensures BuildConditions(id, state, validationMessage, descendants, resources, existing, now)
         == AllPreserved(existing, BuildConditions(id, state, validationMessage, descendants, resources, [], now))
  {
    var own := [AuthPolicyCondition(id, state, validationMessage, now)];
    var reported := DescendantConditions(descendants, [], now);
    MissingConditionsArePreserved(descendants, resources, existing, now);
    DescendantConditionsArePreserved(descendants, existing, now);
    assert AllPreserved(existing, own) == [Preserved(existing, own[0])];
    AllPreservedConcat(existing, own + reported, MissingConditions(descendants, resources, [], now));
    AllPreservedConcat(existing, own, reported);
  }

  /** Conditions built on top of distinct existing ones are those again, times included, if and only if
      they say the same in the same order. */
  lemma ConditionsAreUnchangedIff(
    id: string, state: ReconciliationState, validationMessage: string,
    descendants: seq<Descendant>, resources: seq<Resource>, existing: seq<Condition>, now: int)
    requires TypesAreDistinct(existing)
    ensures BuildConditions(id, state, validationMessage, descendants, resources, existing, now) == existing
      <==> SayTheSame(existing, BuildConditions(id, state, validationMessage, descendants, resources, [], now))
  {
    var conditions := BuildConditions(id, state, validationMessage, descendants, resources, [], now);
    BuiltIsPreserved(id, state, validationMessage, descendants, resources, existing, now);
    forall i | 0 <= i < |conditions| && i < |existing|
      ensures Preserved(existing, conditions[i]) == existing[i] <==> IsLogicallyEqual(existing[i], conditions[i])
    {
      PreservedSays(existing, conditions[i]);
      if IsLogicallyEqual(existing[i], conditions[i]) {
        PreservedFinds(existing, i, conditions[i]);
      }
    }
  }
}
