/** One reconciliation of an AuthPolicy: validate, reconcile the six resources, report. */
module Controller {
  import opened Policy
  import opened PathValidation
  import opened Resources
  import opened Reconciler
  import opened Convergence
  import opened Status
  import opened StatusConditions
  import opened StatusRuns

  datatype Phase = PhasePending | PhaseReady | PhaseFailed | PhaseInvalid

  function DeterminePhase(state: ReconciliationState): Phase {
    match state
    case StateInvalid => PhaseInvalid
    case StatePending => PhasePending
    case StateFailed => PhaseFailed
    case StateReady => PhaseReady
  }

  predicate DetermineReadiness(state: ReconciliationState) {
    state.StateReady?
  }

  function StatusMessage(state: ReconciliationState, validationMessage: string): string {
    match state
    case StateInvalid => validationMessage
    case StatePending => "AuthPolicy pending due to missing Descendants."
    case StateFailed => "AuthPolicy failed."
    case StateReady => "AuthPolicy ready."
  }

  datatype StatusValue = StatusValue(
    observedGeneration: int, phase: Phase, ready: bool, message: string, conditions: seq<StatusConditions.Condition>)

  /** What a pass compares its result with: the stored status after it has been made pending. */
  function Initialized(stored: StatusValue, generation: int): StatusValue {
    stored.(observedGeneration := generation, phase := PhasePending, ready := false)
  }

  /** The status of the AuthPolicy that a pass works on: read from the API server, made pending,
      overwritten with the result of the pass, and written back if it then looks different. */
  class AuthPolicyStatus {
    var observedGeneration: int
    var phase: Phase
    var ready: bool
    var message: string
    var conditions: seq<StatusConditions.Condition>

    constructor ()
      ensures Value() == StatusValue(0, PhasePending, false, "", [])
    {
      observedGeneration, phase, ready, message, conditions := 0, PhasePending, false, "", [];
    }

    function Value(): StatusValue
      reads this
    {
      StatusValue(observedGeneration, phase, ready, message, conditions)
    }

    method Initialize(generation: int)
      modifies this
      ensures Value() == Initialized(old(Value()), generation)
    {
      observedGeneration, phase, ready := generation, PhasePending, false;
    }

    method Update(original: StatusValue, generation: int, id: string, invalidConfig: bool, validationMessage: string,
                  descendants: seq<Descendant>, resources: seq<Resource>, now: int) returns (written: bool)
      modifies this
      ensures var state := DetermineReconciliationState(invalidConfig, descendants, resources);
        Value() == StatusValue(
          generation, DeterminePhase(state), DetermineReadiness(state), StatusMessage(state, validationMessage),
          BuildConditions(id, state, validationMessage, descendants, resources, original.conditions, now))
      ensures written <==> Value() != original
    {
      var state := DetermineReconciliationState(invalidConfig, descendants, resources);
      observedGeneration := generation;
      phase := DeterminePhase(state);
      ready := DetermineReadiness(state);
      message := StatusMessage(state, validationMessage);
      var existing := original.conditions;
      var own := PreserveTransitionTime(existing, AuthPolicyCondition(id, state, validationMessage, now));
      var reported := BuildDescendantConditions(descendants, existing, now);
      var missing := BuildMissingResourceConditions(descendants, resources, existing, now);
      conditions := [own] + reported + missing;
      written := Value() != original;
    }
  }

  // ----- what a pass leads to

  ghost predicate SomeUnwantedResourceFailed(
    objects: Objects, inputs: Inputs, name: string, owner: Owner, hmac: string, faults: seq<Faults>)
    requires WellTyped(objects) && |faults| == 6
  {
    ControllerResourcesAreDistinct(inputs, name, hmac);
    SomeUnwantedFailure(objects, ControllerResources(inputs, name, hmac), owner, faults)
  }

  ghost function StateAfter(
    objects: Objects, inputs: Inputs, name: string, owner: Owner, hmac: string, faults: seq<Faults>): ReconciliationState
    requires WellTyped(objects) && |faults| == 6
  {
    DetermineReconciliationState(
      inputs.scope.invalidConfig, PassOver(objects, inputs, name, owner, hmac, faults, 6).descendants,
      ControllerResources(inputs, name, hmac))
  }

  lemma StateAfterPass(
    objects: Objects, inputs: Inputs, name: string, owner: Owner, hmac: string, faults: seq<Faults>)
    requires WellTyped(objects) && |faults| == 6
    ensures var state := StateAfter(objects, inputs, name, owner, hmac, faults);
      && (state == StateInvalid <==> inputs.scope.invalidConfig)
      && (state == StateReady <==>
          !inputs.scope.invalidConfig && PassOver(objects, inputs, name, owner, hmac, faults, 6).errors == 0)
      && (state == StatePending <==>
          !inputs.scope.invalidConfig && SomeUnwantedResourceFailed(objects, inputs, name, owner, hmac, faults))
      && (state == StateFailed <==>
          && !inputs.scope.invalidConfig && PassOver(objects, inputs, name, owner, hmac, faults, 6).errors > 0
          && !SomeUnwantedResourceFailed(objects, inputs, name, owner, hmac, faults))
  {
    ControllerResourcesAreDistinct(inputs, name, hmac);
    ControllerResourceIDsAreDistinct(inputs, name, hmac);
    StatusAgreesWithThePass(inputs.scope.invalidConfig, objects, ControllerResources(inputs, name, hmac), owner, faults);
  }

  /** A pending state is due to a failure. */
  lemma PendingAfterAFailure(
    objects: Objects, inputs: Inputs, name: string, owner: Owner, hmac: string, faults: seq<Faults>)
    requires WellTyped(objects) && |faults| == 6
    requires StateAfter(objects, inputs, name, owner, hmac, faults) == StatePending
    ensures PassOver(objects, inputs, name, owner, hmac, faults, 6).errors > 0
  {
    ControllerResourcesAreDistinct(inputs, name, hmac);
    ControllerResourceIDsAreDistinct(inputs, name, hmac);
    DescendantsOfAPass(objects, ControllerResources(inputs, name, hmac), owner, faults);
  }

  /** Phase, readiness and message of a pass. */
  lemma PhaseAfterPass(
    objects: Objects, inputs: Inputs, name: string, owner: Owner, hmac: string, faults: seq<Faults>,
    validationMessage: string)
    requires WellTyped(objects) && |faults| == 6
    ensures var state := StateAfter(objects, inputs, name, owner, hmac, faults);
      var phase, message := DeterminePhase(state), StatusMessage(state, validationMessage);
      var valid := !inputs.scope.invalidConfig;
      var failed := PassOver(objects, inputs, name, owner, hmac, faults, 6).errors > 0;
      var unwanted := SomeUnwantedResourceFailed(objects, inputs, name, owner, hmac, faults);
      && (DetermineReadiness(state) <==> valid && !failed)
      && (phase == PhaseInvalid <==> !valid)
      && (phase == PhasePending <==> valid && unwanted)
      && (phase == PhaseReady <==> valid && !failed)
      && (phase == PhaseFailed <==> valid && failed && !unwanted)
      && (phase == PhaseReady ==> message == "AuthPolicy ready.")
      && (phase == PhaseFailed ==> message == "AuthPolicy failed.")
      && (phase == PhasePending ==> message == "AuthPolicy pending due to missing Descendants.")
      && (phase == PhaseInvalid ==> message == validationMessage)
      && (phase == PhasePending ==> failed)
  {
    StateAfterPass(objects, inputs, name, owner, hmac, faults);
    if StateAfter(objects, inputs, name, owner, hmac, faults) == StatePending {
      PendingAfterAFailure(objects, inputs, name, owner, hmac, faults);
    }
  }

  /** The pass over the six resources and the status update behind it. */
  method ReconcileAndReport(
    cluster: Cluster, status: AuthPolicyStatus, generation: int, inputs: Inputs, validationMessage: string,
    name: string, id: string, owner: Owner, hmac: string, faults: seq<Faults>, now: int)
    returns (failed: bool, written: bool)
    requires WellTyped(cluster.objects) && |faults| == 6
    modifies cluster, status
    ensures var s := PassOver(old(cluster.objects), inputs, name, owner, hmac, faults, 6);
      && cluster.objects == s.objects
      && (failed <==> s.errors > 0)
      && status.conditions == ConditionsOfPass(Setup(inputs, name, owner, id, validationMessage),
                                               ControllerResources(inputs, name, hmac), s, old(status.conditions), now)
    ensures var state := StateAfter(old(cluster.objects), inputs, name, owner, hmac, faults);
      && status.phase == DeterminePhase(state) && status.ready == DetermineReadiness(state)
      && status.message == StatusMessage(state, validationMessage)
    ensures status.observedGeneration == generation
    ensures written <==> status.Value() != Initialized(old(status.Value()), generation)
  {
    status.Initialize(generation);
    var original := status.Value();
    var resources := ControllerResources(inputs, name, hmac);
    ControllerResourcesAreDistinct(inputs, name, hmac);
    var log := new DescendantLog();
    var errors := DoReconcile(cluster, log, resources, owner, faults);
    written := status.Update(original, generation, id, inputs.scope.invalidConfig, validationMessage,
                             log.descendants, resources, now);
    failed := errors > 0;
  }

  /** The inputs of a pass over an AuthPolicy whose paths have been validated. */
  ghost function ValidatedInputs(resolved: Inputs): Inputs {
    resolved.(scope := resolved.scope.(invalidConfig := !AllPathsValid(resolved.scope.spec)))
  }

  /** The message is about the first invalid path. */
  ghost predicate TellsFirstInvalidPath(message: string, spec: AuthPolicySpec, describe: PathError -> string) {
    exists i | 0 <= i < |PolicyPaths(spec)| ::
      && PathVerdict(PolicyPaths(spec)[i]).Some? && message == describe(PathVerdict(PolicyPaths(spec)[i]).value)
      && forall j | 0 <= j < i :: IsValidPath(PolicyPaths(spec)[j])
  }

  /** `Reconcile` of a resolved AuthPolicy. Whatever fails: the status is ready exactly if all paths
      are valid and no error is returned, invalid exactly if some path is not, pending exactly if all
      paths are valid and a resource that is not desired failed, and failed exactly if all paths are
      valid and only others failed; the message says so; and no two conditions have the same type.
      Because it is compared with a status that was made pending first, the result is written even if it
      is what is stored, unless it is pending with the stored message and conditions; in particular by
      every pass without a failure. */
  method Reconcile(
    cluster: Cluster, status: AuthPolicyStatus, generation: int, resolved: Inputs, name: string, id: string,
    owner: Owner, hmac: string, faults: seq<Faults>, describe: PathError -> string, now: int)
    returns (failed: bool, written: bool)
    requires WellTyped(cluster.objects) && |faults| == 6 && IsPolicyID(id, name)
    modifies cluster, status
    ensures var s := PassOver(old(cluster.objects), ValidatedInputs(resolved), name, owner, hmac, faults, 6);
      cluster.objects == s.objects && (failed <==> s.errors > 0)
    ensures status.ready <==> AllPathsValid(resolved.scope.spec) && !failed
    ensures status.phase == PhaseInvalid <==> !AllPathsValid(resolved.scope.spec)
    ensures status.phase == PhasePending <==>
      AllPathsValid(resolved.scope.spec)
      && SomeUnwantedResourceFailed(old(cluster.objects), ValidatedInputs(resolved), name, owner, hmac, faults)
    ensures status.phase == PhaseReady <==> AllPathsValid(resolved.scope.spec) && !failed
    ensures status.phase == PhaseFailed <==>
      && AllPathsValid(resolved.scope.spec) && failed
      && !SomeUnwantedResourceFailed(old(cluster.objects), ValidatedInputs(resolved), name, owner, hmac, faults)
    ensures status.phase == PhaseReady ==> status.message == "AuthPolicy ready."
    ensures status.phase == PhaseFailed ==> status.message == "AuthPolicy failed."
    ensures status.phase == PhasePending ==> status.message == "AuthPolicy pending due to missing Descendants."
    ensures status.phase == PhaseInvalid ==> TellsFirstInvalidPath(status.message, resolved.scope.spec, describe)
    ensures status.observedGeneration == generation
    ensures TypesAreDistinct(status.conditions)
    ensures !written <==>
      && status.phase == PhasePending
      && status.message == old(status.message) && status.conditions == old(status.conditions)
    ensures !failed ==> written
  {
    var scope, error := ValidateAuthPolicy(resolved.scope);
    var message := if error.Some? then describe(error.value) else "";
    var inputs := resolved.(scope := scope);
    PhaseAfterPass(cluster.objects, inputs, name, owner, hmac, faults, message);
    ConditionTypesOfAPassAreDistinct(
      cluster.objects, Setup(inputs, name, owner, id, message), hmac, faults, status.conditions, now);
    failed, written :=
      ReconcileAndReport(cluster, status, generation, inputs, message, name, id, owner, hmac, faults, now);
  }
}
