/** What the policies in the cluster decide after, and in the middle of, a pass. */
module ClusterMeaning {
  import opened Istio
  import opened Policy
  import opened Generators
  import opened PolicyCompiler
  import opened CompilerLimits
  import opened Resources
  import opened Reconciler
  import opened ReconcilerSafety
  import opened Convergence
  import opened Wrappers
  import Names

  /** The policy at a key if the AuthPolicy controls it. */
  function OwnPolicy(objects: Objects, key: Key, uid: string): seq<AuthorizationPolicy> {
    if key in objects && IsControlledBy(objects[key], uid) && objects[key].payload.AuthorizationPolicySpec? then
      var payload := objects[key].payload;
      [AuthorizationPolicy(key.name, payload.action, payload.matchLabels, payload.rules)]
    else []
  }

  /** The AuthorizationPolicies that an AuthPolicy has in the cluster. */
  function OwnPolicies(objects: Objects, name: string, uid: string): seq<AuthorizationPolicy> {
    OwnPolicy(objects, DenyKey(name), uid) + OwnPolicy(objects, IgnoreKey(name), uid)
    + OwnPolicy(objects, RequireKey(name), uid)
  }

  /** A settled policy resource is in the cluster as it was compiled. */
  lemma SettledPolicy(objects: Objects, key: Key, policy: Option<AuthorizationPolicy>, uid: string)
    requires WellTyped(objects) && key.kind == AuthorizationPolicyKind
    requires policy.Some? ==> policy.value.name == key.name && ActionOfName(key.name) == Some(policy.value.action)
    requires IsSettled(objects, Resource(key, PolicyObject(policy)), uid)
    requires ActionsFollowNames(objects, {uid})
    ensures OwnPolicy(objects, key, uid) == Installed(policy)
  {
    if policy.Some? {
      assert objects[key].payload.action == policy.value.action;
    }
  }

  /** After a failure-free pass over a valid, supported policy, the AuthPolicy's policies in the
      cluster accept a request if and only if the AuthPolicy permits it. */
  lemma ReconciledClusterMeansThePolicy(
    objects: Objects, inputs: Inputs, name: string, owner: Owner, hmac: string, r: Request)
    requires WellTyped(objects) && ActionsFollowNames(objects, {owner.uid})
    requires NothingForeignAtAll(objects, ControllerResources(inputs, name, hmac), owner.uid)
    requires inputs.scope.spec.enabled && !inputs.scope.invalidConfig && IsSupported(inputs.scope.spec)
    ensures Accepts(OwnPolicies(FailureFree(objects, inputs, name, owner, hmac).objects, name, owner.uid), r)
      <==> r.path != "" && Permits(inputs.scope, r)
  {
    ReconciledClusterHoldsTheCompiledPolicies(objects, inputs, name, owner, hmac);
    CompiledPoliciesMeanThePolicy(inputs.scope, name, r);
  }

  lemma ReconciledClusterHoldsTheCompiledPolicies(
    objects: Objects, inputs: Inputs, name: string, owner: Owner, hmac: string)
    requires WellTyped(objects) && ActionsFollowNames(objects, {owner.uid})
    requires NothingForeignAtAll(objects, ControllerResources(inputs, name, hmac), owner.uid)
    ensures OwnPolicies(FailureFree(objects, inputs, name, owner, hmac).objects, name, owner.uid)
         == Compiled(inputs.scope, name)
  {
    var resources := ControllerResources(inputs, name, hmac);
    var after := FailureFree(objects, inputs, name, owner, hmac).objects;
    ControllerResourcesAreDistinct(inputs, name, hmac);
    ControllerResourcesFollowNames(inputs, name, hmac);
    PassSettles(objects, resources, owner, 6);
    PassKeepsActions(objects, resources, owner, NoFaults(6), 6, {owner.uid});
    DenyNamesDeny(name);
    IgnoreNamesAllow(name);
    RequireNamesAllow(name);
    assert IsSettled(after, resources[3], owner.uid);
    assert IsSettled(after, resources[4], owner.uid);
    assert IsSettled(after, resources[5], owner.uid);
    SettledPolicy(after, DenyKey(name), DesiredDeny(inputs.scope, Names.DenyPolicy(name)), owner.uid);
    SettledPolicy(after, IgnoreKey(name), DesiredIgnore(inputs.scope, Names.IgnorePolicy(name)), owner.uid);
    SettledPolicy(after, RequireKey(name), DesiredRequire(inputs.scope, Names.RequirePolicy(name)), owner.uid);
  }

  // ----- an invalid policy in a failing cluster

  /** The deny-everything policy is in the cluster. */
  ghost predicate DeniesEverything(objects: Objects, name: string, uid: string) {
    var key := DenyKey(name);
    && key in objects && IsControlledBy(objects[key], uid)
    && objects[key].payload.AuthorizationPolicySpec?
    && objects[key].payload.action == DENY
    && objects[key].payload.rules == [Rule([ALL_PATHS], [])]
  }

  lemma DenyingClusterRejects(objects: Objects, name: string, uid: string, r: Request)
    requires DeniesEverything(objects, name, uid) && r.path != ""
    ensures !Accepts(OwnPolicies(objects, name, uid), r)
  {
    var policies := OwnPolicies(objects, name, uid);
    DenyAllMatches(policies[0].rules, r);
    assert policies[0] in policies;
  }

  lemma DenyStepDenies(objects: Objects, inputs: Inputs, name: string, owner: Owner, faults: Faults)
    requires WellTyped(objects) && ActionsFollowNames(objects, {owner.uid})
    requires inputs.scope.spec.enabled && inputs.scope.invalidConfig
    requires var res := Resource(DenyKey(name), PolicyObject(DesiredDeny(inputs.scope, Names.DenyPolicy(name))));
      !Step(objects, res, owner, faults).failed
    ensures var res := Resource(DenyKey(name), PolicyObject(DesiredDeny(inputs.scope, Names.DenyPolicy(name))));
      DeniesEverything(Step(objects, res, owner, faults).objects, name, owner.uid)
  {
    DenyNamesDeny(name);
    var key := DenyKey(name);
    if key in objects && IsControlledBy(objects[key], owner.uid) {
      assert objects[key].payload.action == DENY;
    }
  }

  lemma LaterStepsKeepDenying(objects: Objects, res: Resource, owner: Owner, faults: Faults, name: string)
    requires WellTyped(objects) && IsResource(res) && res.key != DenyKey(name)
    requires DeniesEverything(objects, name, owner.uid)
    ensures DeniesEverything(Step(objects, res, owner, faults).objects, name, owner.uid)
  {
    StepLeavesOtherKeys(objects, res, owner, faults, DenyKey(name));
  }

  /** The deny step of a pass succeeds, whatever happened before it. */
  ghost predicate DenyStepSucceeds(
    objects: Objects, inputs: Inputs, name: string, owner: Owner, hmac: string, faults: seq<Faults>)
    requires WellTyped(objects) && |faults| == 6
  {
    ControllerResourcesAreDistinct(inputs, name, hmac);
    var before := PassOver(objects, inputs, name, owner, hmac, faults, 3).objects;
    !Step(before, ControllerResources(inputs, name, hmac)[3], owner, faults[3]).failed
  }

  /** In a pass over an enabled, invalid policy: once the deny step has succeeded, every later state of
      the pass rejects every request, whatever fails before and after it. */
  lemma InvalidPolicyIsLockedAfterDenyStep(
    objects: Objects, inputs: Inputs, name: string, owner: Owner, hmac: string, faults: seq<Faults>, n: nat, r: Request)
    requires WellTyped(objects) && ActionsFollowNames(objects, {owner.uid})
    requires inputs.scope.spec.enabled && inputs.scope.invalidConfig
    requires |faults| == 6 && 4 <= n <= 6 && r.path != ""
    requires DenyStepSucceeds(objects, inputs, name, owner, hmac, faults)
    ensures !Accepts(OwnPolicies(PassOver(objects, inputs, name, owner, hmac, faults, n).objects, name, owner.uid), r)
  {
    LockedState(objects, inputs, name, owner, hmac, faults, n);
    DenyingClusterRejects(PassOver(objects, inputs, name, owner, hmac, faults, n).objects, name, owner.uid, r);
  }

  lemma {:induction false} LockedState(
    objects: Objects, inputs: Inputs, name: string, owner: Owner, hmac: string, faults: seq<Faults>, n: nat)
    requires WellTyped(objects) && ActionsFollowNames(objects, {owner.uid})
    requires inputs.scope.spec.enabled && inputs.scope.invalidConfig
    requires |faults| == 6 && 4 <= n <= 6
    requires DenyStepSucceeds(objects, inputs, name, owner, hmac, faults)
    ensures DeniesEverything(PassOver(objects, inputs, name, owner, hmac, faults, n).objects, name, owner.uid)
  {
    var resources := ControllerResources(inputs, name, hmac);
    ControllerResourcesAreDistinct(inputs, name, hmac);
    var before := PassOver(objects, inputs, name, owner, hmac, faults, n - 1).objects;
    if n == 4 {
      ControllerResourcesFollowNames(inputs, name, hmac);
      PassKeepsActions(objects, resources, owner, faults, 3, {owner.uid});
      DenyStepDenies(before, inputs, name, owner, faults[3]);
    } else {
      LockedState(objects, inputs, name, owner, hmac, faults, n - 1);
      Names.PolicyNamesNeverCollide(name, name);
      LaterStepsKeepDenying(before, resources[n - 1], owner, faults[n - 1], name);
    }
  }
}
