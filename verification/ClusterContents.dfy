/** What is in the cluster after a failure-free pass, object by object and field by field. */
module ClusterContents {
  import opened Istio
  import opened Policy
  import opened Generators
  import opened Resources
  import opened Reconciler
  import opened ReconcilerSafety
  import opened Convergence
  import opened Wrappers
  import Names

  /** The object is there and belongs to the AuthPolicy, with the standard labels. */
  predicate IsThere(objects: Objects, key: Key, uid: string) {
    && key in objects && objects[key].controller == Some(uid)
    && var labels := objects[key].labels;
      && "app.kubernetes.io/managed-by" in labels && labels["app.kubernetes.io/managed-by"] == "ztoperator"
      && "ztoperator.kartverket.no/controller" in labels
      && labels["ztoperator.kartverket.no/controller"] == "authpolicy"
      && "type" in labels && labels["type"] == "ztoperator.kartverket.no"
  }

  predicate IsNotOwned(objects: Objects, key: Key, uid: string) {
    key in objects ==> objects[key].controller != Some(uid)
  }

  predicate IsActive(inputs: Inputs) {
    inputs.scope.spec.enabled && !inputs.scope.invalidConfig
  }

  /** The `i`th of the six resources after a pass. */
  lemma ResourceIsSettled(objects: Objects, inputs: Inputs, name: string, owner: Owner, hmac: string, i: nat)
    requires WellTyped(objects) && i < 6
    requires NothingForeignAtAll(objects, ControllerResources(inputs, name, hmac), owner.uid)
    ensures IsResource(ControllerResources(inputs, name, hmac)[i])
    ensures IsSettled(FailureFree(objects, inputs, name, owner, hmac).objects,
                      ControllerResources(inputs, name, hmac)[i], owner.uid)
  {
    ControllerResourcesAreDistinct(inputs, name, hmac);
    PassSettles(objects, ControllerResources(inputs, name, hmac), owner, 6);
  }

  lemma StandardLabels(labels: Labels)
    requires HasLabels(labels, STANDARD_LABELS)
    ensures "app.kubernetes.io/managed-by" in labels && labels["app.kubernetes.io/managed-by"] == "ztoperator"
    ensures "ztoperator.kartverket.no/controller" in labels
      && labels["ztoperator.kartverket.no/controller"] == "authpolicy"
    ensures "type" in labels && labels["type"] == "ztoperator.kartverket.no"
  {
    assert "type" in STANDARD_LABELS && "app.kubernetes.io/managed-by" in STANDARD_LABELS;
    assert "ztoperator.kartverket.no/controller" in STANDARD_LABELS;
  }

  /** The Secret is there exactly with auto-login, and holds the client's token secret. */
  lemma SecretAfterAPass(objects: Objects, inputs: Inputs, name: string, owner: Owner, hmac: string)
    requires WellTyped(objects)
    requires NothingForeignAtAll(objects, ControllerResources(inputs, name, hmac), owner.uid)
    ensures var after := FailureFree(objects, inputs, name, owner, hmac).objects;
      var key := Key(SecretKind, name + "-envoy-secret");
      if IsActive(inputs) && inputs.autoLogin.Some? then
        && IsThere(after, key, owner.uid)
        && after[key].payload.SecretData? && "token-secret.yaml" in after[key].payload.data
        && after[key].payload.data["token-secret.yaml"] == inputs.autoLogin.value.tokenSecret
      else IsNotOwned(after, key, owner.uid)
  {
    ResourceIsSettled(objects, inputs, name, owner, hmac, 0);
    var after := FailureFree(objects, inputs, name, owner, hmac).objects;
    if IsActive(inputs) && inputs.autoLogin.Some? {
      StandardLabels(after[Key(SecretKind, name + "-envoy-secret")].labels);
    }
  }

  /** The EnvoyFilter is there exactly with auto-login, for the workloads of the policy, with the
      patches that were made for it. */
  lemma EnvoyFilterAfterAPass(objects: Objects, inputs: Inputs, name: string, owner: Owner, hmac: string)
    requires WellTyped(objects)
    requires NothingForeignAtAll(objects, ControllerResources(inputs, name, hmac), owner.uid)
    ensures var after := FailureFree(objects, inputs, name, owner, hmac).objects;
      var key := Key(EnvoyFilterKind, name + "-login");
      if IsActive(inputs) && inputs.autoLogin.Some? then
        && IsThere(after, key, owner.uid)
        && after[key].payload == EnvoyFilterSpec(inputs.scope.spec.matchLabels, inputs.autoLogin.value.configPatches)
      else IsNotOwned(after, key, owner.uid)
  {
    ResourceIsSettled(objects, inputs, name, owner, hmac, 1);
    var after := FailureFree(objects, inputs, name, owner, hmac).objects;
    if IsActive(inputs) && inputs.autoLogin.Some? {
      StandardLabels(after[Key(EnvoyFilterKind, name + "-login")].labels);
    }
  }

  /** The RequestAuthentication is there exactly for an enabled, valid policy, for its workloads. */
  lemma RequestAuthenticationAfterAPass(objects: Objects, inputs: Inputs, name: string, owner: Owner, hmac: string)
    requires WellTyped(objects)
    requires NothingForeignAtAll(objects, ControllerResources(inputs, name, hmac), owner.uid)
    ensures var after := FailureFree(objects, inputs, name, owner, hmac).objects;
      var key := Key(RequestAuthenticationKind, name);
      if IsActive(inputs) then
        && IsThere(after, key, owner.uid)
        && after[key].payload == RequestAuthenticationSpec(inputs.scope.spec.matchLabels, inputs.jwtRules)
      else IsNotOwned(after, key, owner.uid)
  {
    ResourceIsSettled(objects, inputs, name, owner, hmac, 2);
    var after := FailureFree(objects, inputs, name, owner, hmac).objects;
    if IsActive(inputs) {
      StandardLabels(after[Key(RequestAuthenticationKind, name)].labels);
    }
  }

  predicate HasAuthRules(spec: AuthPolicySpec) {
    spec.authRules.Some? && spec.authRules.value != []
  }

  predicate HasIgnoreRules(spec: AuthPolicySpec) {
    spec.ignoreAuthRules.Some? && spec.ignoreAuthRules.value != []
  }

  /** A policy object is there exactly if it is wanted, with the action, for the workloads given. */
  ghost predicate IsPolicyIf(
    objects: Objects, key: Key, uid: string, wanted: bool, action: Action, matchLabels: Labels)
  {
    if wanted then
      && IsThere(objects, key, uid)
      && objects[key].payload.AuthorizationPolicySpec?
      && objects[key].payload.action == action && objects[key].payload.matchLabels == matchLabels
    else IsNotOwned(objects, key, uid)
  }

  lemma SettledPolicyObject(objects: Objects, key: Key, policy: Option<AuthorizationPolicy>, owner: Owner)
    requires WellTyped(objects) && key.kind == AuthorizationPolicyKind && ActionsFollowNames(objects, {owner.uid})
    requires IsSettled(objects, Resource(key, PolicyObject(policy)), owner.uid)
    requires policy.Some? ==> ActionOfName(key.name) == Some(policy.value.action)
    ensures policy.Some? ==>
      IsPolicyIf(objects, key, owner.uid, true, policy.value.action, policy.value.matchLabels)
    ensures policy.None? ==> IsNotOwned(objects, key, owner.uid)
  {
    if policy.Some? {
      StandardLabels(objects[key].labels);
      assert objects[key].controller.value in {owner.uid};
    }
  }

  /** Each of the three policies is there exactly when it is called for - the deny policy also to lock an
      invalid AuthPolicy - with its action, and only for the workloads of the AuthPolicy. */
  lemma PoliciesAfterAPass(objects: Objects, inputs: Inputs, name: string, owner: Owner, hmac: string)
    requires WellTyped(objects) && ActionsFollowNames(objects, {owner.uid})
    requires NothingForeignAtAll(objects, ControllerResources(inputs, name, hmac), owner.uid)
    ensures var after := FailureFree(objects, inputs, name, owner, hmac).objects;
      var spec, uid := inputs.scope.spec, owner.uid;
      && IsPolicyIf(after, Key(AuthorizationPolicyKind, name + "-deny-auth-rules"), uid,
                    spec.enabled && (inputs.scope.invalidConfig || HasAuthRules(spec)), DENY, spec.matchLabels)
      && IsPolicyIf(after, Key(AuthorizationPolicyKind, name + "-ignore-auth"), uid,
                    IsActive(inputs) && HasIgnoreRules(spec), ALLOW, spec.matchLabels)
      && IsPolicyIf(after, Key(AuthorizationPolicyKind, name + "-require-auth"), uid,
                    IsActive(inputs), ALLOW, spec.matchLabels)
  {
    var after := FailureFree(objects, inputs, name, owner, hmac).objects;
    var resources := ControllerResources(inputs, name, hmac);
    ControllerResourcesAreDistinct(inputs, name, hmac);
    ControllerResourcesFollowNames(inputs, name, hmac);
    PassKeepsActions(objects, resources, owner, NoFaults(6), 6, {owner.uid});
    ResourceIsSettled(objects, inputs, name, owner, hmac, 3);
    ResourceIsSettled(objects, inputs, name, owner, hmac, 4);
    ResourceIsSettled(objects, inputs, name, owner, hmac, 5);
    DenyNamesDeny(name);
    IgnoreNamesAllow(name);
    RequireNamesAllow(name);
    SettledPolicyObject(after, DenyKey(name), DesiredDeny(inputs.scope, Names.DenyPolicy(name)), owner);
    SettledPolicyObject(after, IgnoreKey(name), DesiredIgnore(inputs.scope, Names.IgnorePolicy(name)), owner);
    SettledPolicyObject(after, RequireKey(name), DesiredRequire(inputs.scope, Names.RequirePolicy(name)), owner);
  }
}
