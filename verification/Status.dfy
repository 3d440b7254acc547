/** The status of an AuthPolicy: its state, and its conditions with their transition times. */
module Status {
  import opened Resources
  import opened Reconciler
  import opened Wrappers

  // ----- the state of a reconciliation

  datatype ReconciliationState = StateInvalid | StatePending | StateFailed | StateReady

  function CountDesired(resources: seq<Resource>): nat {
    if resources == [] then 0
    else CountDesired(resources[..|resources| - 1]) + (if resources[|resources| - 1].desired.Some? then 1 else 0)
  }

  method CountNonNilResources(resources: seq<Resource>) returns (count: nat)
    ensures count == CountDesired(resources)
  {
    count := 0;
    for i := 0 to |resources|
      invariant count == CountDesired(resources[..i])
    {
      assert resources[..i + 1][..i] == resources[..i];
      if resources[i].desired.Some? {
        count := count + 1;
      }
    }
    assert resources[..|resources|] == resources;
  }

  function DetermineReconciliationState(
    invalidConfig: bool, descendants: seq<Descendant>, resources: seq<Resource>): ReconciliationState
  {
    if invalidConfig then StateInvalid
    else if |descendants| != CountDesired(resources) then StatePending
    else if |Errors(descendants)| > 0 then StateFailed
    else StateReady
  }

  // ----- descendants of a pass

  ghost predicate IDsAreDistinct(resources: seq<Resource>) {
    forall i, j | 0 <= i < j < |resources| :: ResourceID(resources[i].key) != ResourceID(resources[j].key)
  }

  lemma CancelPrefix(prefix: string, a: string, b: string)
    requires prefix + a == prefix + b
    ensures a == b
  {
    assert a == (prefix + a)[|prefix|..] && b == (prefix + b)[|prefix|..];
  }

  lemma KindsGiveDifferentIDs(a: Key, b: Key)
    requires a.kind != b.kind
    ensures ResourceID(a) != ResourceID(b)
  {
    assert ResourceID(a)[0] == KindName(a.kind)[0];
    assert ResourceID(b)[0] == KindName(b.kind)[0];
  }

  lemma NamesGiveDifferentIDs(a: Key, b: Key)
    requires a.kind == b.kind && a.name != b.name
    ensures ResourceID(a) != ResourceID(b)
  {
    if ResourceID(a) == ResourceID(b) {
      CancelPrefix(KindName(a.kind) + "-", a.name, b.name);
    }
  }

  /** The six resources report under six different identifiers, for any policy name. */
  lemma ControllerResourceIDsAreDistinct(inputs: Inputs, name: string, hmac: string)
    ensures IDsAreDistinct(ControllerResources(inputs, name, hmac))
  {
    var resources := ControllerResources(inputs, name, hmac);
    ControllerResourcesAreDistinct(inputs, name, hmac);
    forall i, j | 0 <= i < j < |resources|
      ensures ResourceID(resources[i].key) != ResourceID(resources[j].key)
    {
      if resources[i].key.kind != resources[j].key.kind {
        KindsGiveDifferentIDs(resources[i].key, resources[j].key);
      } else {
        NamesGiveDifferentIDs(resources[i].key, resources[j].key);
      }
    }
  }

  lemma {:induction false} ReplacedAppends(descendants: seq<Descendant>, d: Descendant)
    requires forall e | e in descendants :: e.id != d.id
    ensures Replaced(descendants, d) == descendants + [d]
  {
    if descendants != [] {
      assert descendants[0] in descendants;
      ReplacedAppends(descendants[1..], d);
      assert descendants == [descendants[0]] + descendants[1..];
    }
  }

  // ----- reports, step by step

  /** What every step guarantees: it reports an error exactly if it fails, and something exactly if
      it fails or the resource is desired. */
  predicate ReportsProperly(res: Resource, result: StepResult) {
    && (result.report.IsError() <==> result.failed)
    && (result.report.Silent? <==> res.desired.None? && !result.failed)
  }

  lemma StepReports(objects: Objects, res: Resource, owner: Owner, faults: Faults)
    requires WellTyped(objects) && IsResource(res)
    ensures ReportsProperly(res, Step(objects, res, owner, faults))
  {}

  /** The results of the first `n` steps of a pass. */
  ghost function Results(objects: Objects, resources: seq<Resource>, owner: Owner, faults: seq<Faults>, n: nat):
    (results: seq<StepResult>)
    requires WellTyped(objects) && AreResources(resources) && n <= |resources| == |faults|
    ensures |results| == n
  {
    if n == 0 then []
    else
      Results(objects, resources, owner, faults, n - 1)
      + [Step(Pass(objects, resources, owner, faults, n - 1).objects, resources[n - 1], owner, faults[n - 1])]
  }

  function RecordAll(resources: seq<Resource>, results: seq<StepResult>, owner: Owner): seq<Descendant>
    requires |resources| == |results|
  {
    if resources == [] then []
    else
      var n := |resources| - 1;
      Recorded(RecordAll(resources[..n], results[..n], owner), resources[n].key, results[n].report, owner)
  }

  function CountFailed(results: seq<StepResult>): nat {
    if results == [] then 0
    else CountFailed(results[..|results| - 1]) + (if results[|results| - 1].failed then 1 else 0)
  }

  lemma PassUnfolds(objects: Objects, resources: seq<Resource>, owner: Owner, faults: seq<Faults>, n: nat)
    requires WellTyped(objects) && AreResources(resources) && 0 < n <= |resources| == |faults|
    ensures var before, after := Pass(objects, resources, owner, faults, n - 1), Pass(objects, resources, owner, faults, n);
      var results := Results(objects, resources, owner, faults, n);
      && results[..n - 1] == Results(objects, resources, owner, faults, n - 1)
      && after.descendants == Recorded(before.descendants, resources[n - 1].key, results[n - 1].report, owner)
      && after.errors == before.errors + (if results[n - 1].failed then 1 else 0)
      && ReportsProperly(resources[n - 1], results[n - 1])
  {
    StepReports(Pass(objects, resources, owner, faults, n - 1).objects, resources[n - 1], owner, faults[n - 1]);
  }

  /** Descendants, number of errors and results belong together. */
  ghost predicate IsSummary(
    descendants: seq<Descendant>, errors: nat, resources: seq<Resource>, results: seq<StepResult>, owner: Owner)
  {
    && |resources| == |results|
    && descendants == RecordAll(resources, results, owner)
    && errors == CountFailed(results)
    && forall i | 0 <= i < |resources| :: ReportsProperly(resources[i], results[i])
  }

  lemma SummarySnoc(descendants: seq<Descendant>, errors: nat, resources: seq<Resource>, results: seq<StepResult>,
                    owner: Owner, res: Resource, result: StepResult)
    requires IsSummary(descendants, errors, resources, results, owner) && ReportsProperly(res, result)
    ensures IsSummary(Recorded(descendants, res.key, result.report, owner),
                      errors + (if result.failed then 1 else 0),
                      resources + [res], results + [result], owner)
  {
    assert (resources + [res])[..|resources|] == resources;
    assert (results + [result])[..|results|] == results;
  }

  lemma SummaryExtends(before: PassState, after: PassState, resources: seq<Resource>, n: nat,
                       init: seq<StepResult>, results: seq<StepResult>, owner: Owner)
    requires 0 < n <= |resources| && |results| == n && results[..n - 1] == init
    requires IsSummary(before.descendants, before.errors, resources[..n - 1], init, owner)
    requires after.descendants == Recorded(before.descendants, resources[n - 1].key, results[n - 1].report, owner)
    requires after.errors == before.errors + (if results[n - 1].failed then 1 else 0)
    requires ReportsProperly(resources[n - 1], results[n - 1])
    ensures IsSummary(after.descendants, after.errors, resources[..n], results, owner)
  {
    TakeSnoc(resources, n);
    TakeSnoc(results, n);
    SummarySnoc(before.descendants, before.errors, resources[..n - 1], init, owner, resources[n - 1], results[n - 1]);
  }

  lemma TakeSnoc<T>(s: seq<T>, n: nat)
    requires 0 < n <= |s|
    ensures s[..n] == s[..n - 1] + [s[n - 1]]
    ensures n == |s| ==> s == s[..n - 1] + [s[n - 1]]
  {}

  lemma {:induction false} PassHasSummary(
    objects: Objects, resources: seq<Resource>, owner: Owner, faults: seq<Faults>, n: nat)
    requires WellTyped(objects) && AreResources(resources) && n <= |resources| == |faults|
    ensures var s := Pass(objects, resources, owner, faults, n);
      IsSummary(s.descendants, s.errors, resources[..n], Results(objects, resources, owner, faults, n), owner)
  {
    if n > 0 {
      PassHasSummary(objects, resources, owner, faults, n - 1);
      PassUnfolds(objects, resources, owner, faults, n);
      SummaryExtends(Pass(objects, resources, owner, faults, n - 1), Pass(objects, resources, owner, faults, n),
                     resources, n, Results(objects, resources, owner, faults, n - 1),
                     Results(objects, resources, owner, faults, n), owner);
    }
  }

  // ----- counting reports

  function Reported(key: Key, report: Report, owner: Owner): seq<Descendant> {
    match DescendantOf(key, report, owner)
    case Some(d) => [d]
    case None => []
  }

  lemma RecordedAppends(descendants: seq<Descendant>, key: Key, report: Report, owner: Owner)
    requires forall d | d in descendants :: d.id != ResourceID(key)
    ensures Recorded(descendants, key, report, owner) == descendants + Reported(key, report, owner)
  {
    match DescendantOf(key, report, owner)
    case Some(d) => ReplacedAppends(descendants, d);
    case None =>
  }

  lemma {:induction false} RecordedIDs(resources: seq<Resource>, results: seq<StepResult>, owner: Owner)
    requires |resources| == |results| && IDsAreDistinct(resources)
    ensures forall d | d in RecordAll(resources, results, owner) ::
      exists i | 0 <= i < |resources| :: d.id == ResourceID(resources[i].key)
    ensures resources != [] ==>
      var n := |resources| - 1;
      RecordAll(resources, results, owner)
        == RecordAll(resources[..n], results[..n], owner) + Reported(resources[n].key, results[n].report, owner)
  {
    if resources != [] {
      var n := |resources| - 1;
      var before := RecordAll(resources[..n], results[..n], owner);
      RecordedIDs(resources[..n], results[..n], owner);
      forall d | d in before ensures d.id != ResourceID(resources[n].key) {
        var i :| 0 <= i < n && d.id == ResourceID(resources[..n][i].key);
        assert resources[..n][i] == resources[i];
      }
      RecordedAppends(before, resources[n].key, results[n].report, owner);
    }
  }

  function CountUnwantedFailures(resources: seq<Resource>, results: seq<StepResult>): nat
    requires |resources| == |results|
  {
    if resources == [] then 0
    else
      var n := |resources| - 1;
      CountUnwantedFailures(resources[..n], results[..n])
      + (if resources[n].desired.None? && results[n].failed then 1 else 0)
  }

  lemma ErrorsSnoc(descendants: seq<Descendant>, more: seq<Descendant>)
    requires |more| <= 1
    ensures |Errors(descendants + more)| == |Errors(descendants)| + (if more != [] && more[0].error.Some? then 1 else 0)
  {
    if more != [] {
      assert (descendants + more)[..|descendants|] == descendants;
    } else {
      assert descendants + more == descendants;
    }
  }

  lemma {:induction false} RecordedCount(resources: seq<Resource>, results: seq<StepResult>, owner: Owner)
    requires |resources| == |results| && IDsAreDistinct(resources)
    requires forall i | 0 <= i < |resources| :: ReportsProperly(resources[i], results[i])
    ensures |RecordAll(resources, results, owner)| == CountDesired(resources) + CountUnwantedFailures(resources, results)
    ensures |Errors(RecordAll(resources, results, owner))| == CountFailed(results)
    ensures CountUnwantedFailures(resources, results) <= CountFailed(results)
  {
    if resources != [] {
      var n := |resources| - 1;
      RecordedCount(resources[..n], results[..n], owner);
      RecordedIDs(resources, results, owner);
      assert ReportsProperly(resources[n], results[n]);
      ErrorsSnoc(RecordAll(resources[..n], results[..n], owner), Reported(resources[n].key, results[n].report, owner));
    }
  }

  lemma {:induction false} UnwantedFailuresCounted(resources: seq<Resource>, results: seq<StepResult>)
    requires |resources| == |results|
    ensures CountUnwantedFailures(resources, results) > 0 <==>
      exists i | 0 <= i < |resources| :: resources[i].desired.None? && results[i].failed
  {
    if resources != [] {
      var n := |resources| - 1;
      UnwantedFailuresCounted(resources[..n], results[..n]);
      if i :| 0 <= i < |resources| && resources[i].desired.None? && results[i].failed {
        if i < n { assert resources[..n][i] == resources[i] && results[..n][i] == results[i]; }
      }
      if i :| 0 <= i < n && resources[..n][i].desired.None? && results[..n][i].failed {
        assert resources[i] == resources[..n][i] && results[i] == results[..n][i];
      }
    }
  }

  // ----- the status of a pass

  /** Every desired resource yields one descendant, and every resource that is not desired yields one
      exactly if it fails; the errors among the descendants are the failures of the pass. */
  lemma DescendantsOfAPass(objects: Objects, resources: seq<Resource>, owner: Owner, faults: seq<Faults>)
    requires WellTyped(objects) && AreResources(resources) && |resources| == |faults| && IDsAreDistinct(resources)
    ensures var s := Pass(objects, resources, owner, faults, |resources|);
      var results := Results(objects, resources, owner, faults, |resources|);
      && |s.descendants| == CountDesired(resources) + CountUnwantedFailures(resources, results)
      && |Errors(s.descendants)| == s.errors
      && CountUnwantedFailures(resources, results) <= s.errors
  {
    PassHasSummary(objects, resources, owner, faults, |resources|);
    assert resources[..|resources|] == resources;
    SummaryCounts(Pass(objects, resources, owner, faults, |resources|), resources,
                  Results(objects, resources, owner, faults, |resources|), owner);
  }

  lemma SummaryCounts(s: PassState, resources: seq<Resource>, results: seq<StepResult>, owner: Owner)
    requires IsSummary(s.descendants, s.errors, resources, results, owner) && IDsAreDistinct(resources)
    ensures |s.descendants| == CountDesired(resources) + CountUnwantedFailures(resources, results)
    ensures |Errors(s.descendants)| == s.errors
    ensures CountUnwantedFailures(resources, results) <= s.errors
  {
    RecordedCount(resources, results, owner);
  }

  /** Some resource that should not be there could not be looked up or deleted. */
  ghost predicate SomeUnwantedFailure(objects: Objects, resources: seq<Resource>, owner: Owner, faults: seq<Faults>)
    requires WellTyped(objects) && AreResources(resources) && |resources| == |faults|
  {
    exists i | 0 <= i < |resources| ::
      resources[i].desired.None? && Results(objects, resources, owner, faults, |resources|)[i].failed
  }

  /** For any failure pattern: ready exactly if the configuration is valid and the pass returns no
      error, pending exactly if it is valid and an undesired resource failed. */
  lemma StatusAgreesWithThePass(
    invalidConfig: bool, objects: Objects, resources: seq<Resource>, owner: Owner, faults: seq<Faults>)
    requires WellTyped(objects) && AreResources(resources) && |resources| == |faults| && IDsAreDistinct(resources)
    ensures var s := Pass(objects, resources, owner, faults, |resources|);
      var state := DetermineReconciliationState(invalidConfig, s.descendants, resources);
      && (state == StateInvalid <==> invalidConfig)
      && (state == StateReady <==> !invalidConfig && s.errors == 0)
      && (state == StatePending <==> !invalidConfig && SomeUnwantedFailure(objects, resources, owner, faults))
      && (state == StateFailed <==>
          !invalidConfig && s.errors > 0 && !SomeUnwantedFailure(objects, resources, owner, faults))
  {
    var results := Results(objects, resources, owner, faults, |resources|);
    DescendantsOfAPass(objects, resources, owner, faults);
    UnwantedFailuresCounted(resources, results);
  }
}
