/** The resources the operator manages: when they differ from what is desired, what an update
    writes, and which six of them an AuthPolicy asks for. */
module Resources {
  import opened Istio
  import opened Policy
  import opened Generators
  import opened Wrappers
  import Names

  datatype Kind = SecretKind | EnvoyFilterKind | RequestAuthenticationKind | AuthorizationPolicyKind

  function KindName(kind: Kind): string {
    match kind
    case SecretKind => "Secret"
    case EnvoyFilterKind => "EnvoyFilter"
    case RequestAuthenticationKind => "RequestAuthentication"
    case AuthorizationPolicyKind => "AuthorizationPolicy"
  }

  datatype Key = Key(kind: Kind, name: string)

  type Labels = map<string, string>

  datatype Payload =
    | SecretData(data: map<string, string>)
    | EnvoyFilterSpec(workloadSelector: Labels, configPatches: seq<string>)
    | RequestAuthenticationSpec(selector: Labels, jwtRules: seq<string>)
    | AuthorizationPolicySpec(action: Action, matchLabels: Labels, rules: seq<Rule>)

  /** An object in the cluster. `rest` stands for everything the operator never writes after creation. */
  datatype Object = Object(controller: Option<string>, labels: Labels, payload: Payload, rest: string)

  predicate HasKind(o: Object, kind: Kind) {
    match kind
    case SecretKind => o.payload.SecretData?
    case EnvoyFilterKind => o.payload.EnvoyFilterSpec?
    case RequestAuthenticationKind => o.payload.RequestAuthenticationSpec?
    case AuthorizationPolicyKind => o.payload.AuthorizationPolicySpec?
  }

  type Objects = map<Key, Object>

  ghost predicate WellTyped(objects: Objects) {
    forall key | key in objects :: HasKind(objects[key], key.kind)
  }

  const TOKEN_SECRET_FILE := "token-secret.yaml"
  const HMAC_SECRET_FILE := "hmac-secret.yaml"

  // ----- comparing and updating

  predicate LabelsDiffer(current: Labels, desired: Labels) {
    exists key | key in desired :: key !in current || current[key] != desired[key]
  }

  /** Stops at the first desired label that is missing or different. */
  method LabelsNeedUpdate(current: Labels, desired: Labels) returns (differ: bool)
    ensures differ <==> LabelsDiffer(current, desired)
  {
    var remaining := desired.Keys;
    while remaining != {}
      invariant remaining <= desired.Keys
      invariant forall key | key in desired && key !in remaining :: key in current && current[key] == desired[key]
    {
      var key :| key in remaining;
      if key !in current || current[key] != desired[key] {
        return true;
      }
      remaining := remaining - {key};
    }
    return false;
  }

  predicate PayloadDiffers(kind: Kind, current: Object, desired: Object)
    requires HasKind(current, kind) && HasKind(desired, kind)
  {
    match kind
    case SecretKind =>
      var have, want := current.payload.data, desired.payload.data;
      TOKEN_SECRET_FILE !in want || TOKEN_SECRET_FILE !in have || have[TOKEN_SECRET_FILE] != want[TOKEN_SECRET_FILE]
    case EnvoyFilterKind =>
      || current.payload.workloadSelector != desired.payload.workloadSelector
      || current.payload.configPatches != desired.payload.configPatches
    case RequestAuthenticationKind =>
      || current.payload.selector != desired.payload.selector
      || current.payload.jwtRules != desired.payload.jwtRules
    case AuthorizationPolicyKind =>
      || current.payload.matchLabels != desired.payload.matchLabels
      || current.payload.rules != desired.payload.rules
  }

  predicate ShouldUpdate(kind: Kind, current: Object, desired: Object)
    requires HasKind(current, kind) && HasKind(desired, kind)
  {
    PayloadDiffers(kind, current, desired) || LabelsDiffer(current.labels, desired.labels)
  }

  /** An update writes the labels and the managed fields; the action of an AuthorizationPolicy is
      not one of them. */
  function UpdateFields(kind: Kind, current: Object, desired: Object): (updated: Object)
    requires HasKind(current, kind) && HasKind(desired, kind)
    ensures HasKind(updated, kind)
    ensures updated.controller == current.controller && updated.rest == current.rest
  {
    var payload := match kind
      case SecretKind => SecretData(desired.payload.data)
      case EnvoyFilterKind => EnvoyFilterSpec(desired.payload.workloadSelector, desired.payload.configPatches)
      case RequestAuthenticationKind => RequestAuthenticationSpec(desired.payload.selector, desired.payload.jwtRules)
      case AuthorizationPolicyKind =>
        AuthorizationPolicySpec(current.payload.action, desired.payload.matchLabels, desired.payload.rules);
    current.(payload := payload, labels := desired.labels)
  }

  predicate CarriesToken(kind: Kind, desired: Object) {
    kind == SecretKind ==> desired.payload.SecretData? && TOKEN_SECRET_FILE in desired.payload.data
  }

  /** After an update nothing is left to update. */
  lemma UpdateSettles(kind: Kind, current: Object, desired: Object)
    requires HasKind(current, kind) && HasKind(desired, kind) && CarriesToken(kind, desired)
    ensures !ShouldUpdate(kind, UpdateFields(kind, current, desired), desired)
    ensures !ShouldUpdate(kind, desired, desired)
  {}

  // ----- the desired resources of an AuthPolicy

  /** A resource to be reconciled: what it should be, or that it should not be there. */
  datatype Resource = Resource(key: Key, desired: Option<Object>)

  ghost predicate IsResource(res: Resource) {
    res.desired.Some? ==>
      && HasKind(res.desired.value, res.key.kind)
      && CarriesToken(res.key.kind, res.desired.value)
      && res.desired.value.controller == None
  }

  const STANDARD_LABELS: Labels := map[
    "app.kubernetes.io/managed-by" := "ztoperator",
    "ztoperator.kartverket.no/controller" := "authpolicy",
    "type" := "ztoperator.kartverket.no"]

  /** What the generators of the remaining resources are given: the token secret and the filter
      patches if auto-login is enabled, and the JWT rules. */
  datatype AutoLogin = AutoLogin(tokenSecret: string, configPatches: seq<string>)

  datatype Inputs = Inputs(scope: Scope, autoLogin: Option<AutoLogin>, jwtRules: seq<string>)

  function NewObject(payload: Payload): Object {
    Object(None, STANDARD_LABELS, payload, "")
  }

  predicate AutoLoginIsActive(inputs: Inputs) {
    inputs.scope.spec.enabled && !inputs.scope.invalidConfig && inputs.autoLogin.Some?
  }

  /** The HMAC secret is freshly generated whenever the Secret is desired. */
  function DesiredSecret(inputs: Inputs, hmac: string): Option<Object> {
    if !AutoLoginIsActive(inputs) then None
    else Some(NewObject(SecretData(map[HMAC_SECRET_FILE := hmac, TOKEN_SECRET_FILE := inputs.autoLogin.value.tokenSecret])))
  }

  function DesiredEnvoyFilter(inputs: Inputs): Option<Object> {
    if !AutoLoginIsActive(inputs) then None
    else Some(NewObject(EnvoyFilterSpec(inputs.scope.spec.matchLabels, inputs.autoLogin.value.configPatches)))
  }

  function DesiredRequestAuthentication(inputs: Inputs): Option<Object> {
    if !inputs.scope.spec.enabled || inputs.scope.invalidConfig then None
    else Some(NewObject(RequestAuthenticationSpec(inputs.scope.spec.matchLabels, inputs.jwtRules)))
  }

  function PolicyObject(policy: Option<AuthorizationPolicy>): Option<Object> {
    if policy.None? then None
    else Some(NewObject(AuthorizationPolicySpec(policy.value.action, policy.value.matchLabels, policy.value.rules)))
  }

  function DenyKey(name: string): Key { Key(AuthorizationPolicyKind, Names.DenyPolicy(name)) }
  function IgnoreKey(name: string): Key { Key(AuthorizationPolicyKind, Names.IgnorePolicy(name)) }
  function RequireKey(name: string): Key { Key(AuthorizationPolicyKind, Names.RequirePolicy(name)) }

  /** The six resources in the order they are reconciled in. */
  function ControllerResources(inputs: Inputs, name: string, hmac: string): (resources: seq<Resource>)
    ensures |resources| == 6
  {
    [Resource(Key(SecretKind, Names.EnvoySecret(name)), DesiredSecret(inputs, hmac)),
     Resource(Key(EnvoyFilterKind, Names.EnvoyFilter(name)), DesiredEnvoyFilter(inputs)),
     Resource(Key(RequestAuthenticationKind, name), DesiredRequestAuthentication(inputs)),
     Resource(DenyKey(name), PolicyObject(DesiredDeny(inputs.scope, Names.DenyPolicy(name)))),
     Resource(IgnoreKey(name), PolicyObject(DesiredIgnore(inputs.scope, Names.IgnorePolicy(name)))),
     Resource(RequireKey(name), PolicyObject(DesiredRequire(inputs.scope, Names.RequirePolicy(name))))]
  }

  ghost predicate AreDistinct(resources: seq<Resource>) {
    forall i, j | 0 <= i < j < |resources| :: resources[i].key != resources[j].key
  }

  /** The six resources have six different keys, for any policy name. */
  lemma ControllerResourcesAreDistinct(inputs: Inputs, name: string, hmac: string)
    ensures AreDistinct(ControllerResources(inputs, name, hmac))
    ensures forall i | 0 <= i < 6 :: IsResource(ControllerResources(inputs, name, hmac)[i])
  {
    Names.PolicyNamesNeverCollide(name, name);
  }
}
