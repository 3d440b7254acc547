/** The AuthPolicy resource, the resolved scope of one reconciliation, and what a policy means
    for a request. */
module Policy {
  import opened PathLanguage
  import opened PathValidation
  import opened Wrappers

  datatype Condition = Condition(claim: string, values: seq<string>)

  datatype RequestMatcher = RequestMatcher(paths: seq<string>, methods: seq<string>)

  datatype RequestAuthRule = RequestAuthRule(
    matcher: RequestMatcher, when: Option<seq<Condition>>, denyRedirect: Option<bool>)

  datatype AuthPolicySpec = AuthPolicySpec(
    enabled: bool,
    acceptedResources: Option<seq<string>>,
    baselineAuth: Option<seq<Condition>>,
    authRules: Option<seq<RequestAuthRule>>,
    ignoreAuthRules: Option<seq<RequestMatcher>>,
    matchLabels: map<string, string>)

  /** The policy together with what was resolved for it: audiences, issuer and path validation. */
  datatype Scope = Scope(spec: AuthPolicySpec, audiences: seq<string>, issuer: string, invalidConfig: bool)

  const ACCEPTED_HTTP_METHODS := ["GET", "POST", "PUT", "PATCH", "DELETE", "HEAD", "OPTIONS", "TRACE", "CONNECT"]

  // ----- accessors

  function AuthRules(spec: AuthPolicySpec): seq<RequestAuthRule> {
    spec.authRules.GetOr([])
  }

  function IgnoreAuthRequestMatchers(spec: AuthPolicySpec): seq<RequestMatcher> {
    spec.ignoreAuthRules.GetOr([])
  }

  function RequestMatchers(rules: seq<RequestAuthRule>): (matchers: seq<RequestMatcher>)
    ensures |matchers| == |rules|
    ensures forall i | 0 <= i < |rules| :: matchers[i] == rules[i].matcher
  {
    seq(|rules|, i requires 0 <= i < |rules| => rules[i].matcher)
  }

  method GetRequestMatchers(rules: Option<seq<RequestAuthRule>>) returns (matchers: seq<RequestMatcher>)
    ensures matchers == RequestMatchers(rules.GetOr([]))
  {
    matchers := [];
    if rules.Some? {
      for i := 0 to |rules.value|
        invariant matchers == RequestMatchers(rules.value[..i])
      {
        matchers := matchers + [rules.value[i].matcher];
      }
      assert rules.value[..|rules.value|] == rules.value;
    }
  }

  ghost predicate MentionsPath(spec: AuthPolicySpec, path: string) {
    || (exists rule | rule in AuthRules(spec) :: path in rule.matcher.paths)
    || (exists matcher | matcher in IgnoreAuthRequestMatchers(spec) :: path in matcher.paths)
  }

  function MatcherPaths(matchers: seq<RequestMatcher>): seq<string> {
    if matchers == [] then [] else MatcherPaths(matchers[..|matchers| - 1]) + matchers[|matchers| - 1].paths
  }

  /** All paths of the policy in the order they are validated in: those of the auth rules first. */
  function PolicyPaths(spec: AuthPolicySpec): seq<string> {
    MatcherPaths(RequestMatchers(AuthRules(spec))) + MatcherPaths(IgnoreAuthRequestMatchers(spec))
  }

  lemma {:induction false} MatcherPathsAre(matchers: seq<RequestMatcher>)
    ensures forall path :: path in MatcherPaths(matchers) <==>
      exists i | 0 <= i < |matchers| :: path in matchers[i].paths
  {
    if matchers != [] {
      MatcherPathsAre(matchers[..|matchers| - 1]);
    }
  }

  lemma PolicyPathsAreMentioned(spec: AuthPolicySpec)
    ensures forall path :: path in PolicyPaths(spec) <==> MentionsPath(spec, path)
  {
    MatcherPathsAre(RequestMatchers(AuthRules(spec)));
    MatcherPathsAre(IgnoreAuthRequestMatchers(spec));
  }

  method GetPaths(spec: AuthPolicySpec) returns (paths: seq<string>)
    ensures paths == PolicyPaths(spec)
    ensures forall path :: path in paths <==> MentionsPath(spec, path)
  {
    paths := [];
    var authRules := AuthRules(spec);
    ghost var required := RequestMatchers(authRules);
    for i := 0 to |authRules|
      invariant paths == MatcherPaths(required[..i])
    {
      assert required[..i + 1][..i] == required[..i];
      paths := paths + authRules[i].matcher.paths;
    }
    assert required[..|authRules|] == required;
    var ignoreRules := IgnoreAuthRequestMatchers(spec);
    for i := 0 to |ignoreRules|
      invariant paths == MatcherPaths(required) + MatcherPaths(ignoreRules[..i])
    {
      assert ignoreRules[..i + 1][..i] == ignoreRules[..i];
      paths := paths + ignoreRules[i].paths;
    }
    assert ignoreRules[..|ignoreRules|] == ignoreRules;
    PolicyPathsAreMentioned(spec);
  }

  /** The configuration is invalid exactly when some path of the policy is, and the message is about
      the first such path. */
  method ValidateAuthPolicy(scope: Scope) returns (validated: Scope, message: Option<PathError>)
    ensures validated == scope.(invalidConfig := !AllPathsValid(scope.spec))
    ensures message.Some? <==> validated.invalidConfig
    ensures message.Some? ==> exists i | 0 <= i < |PolicyPaths(scope.spec)| ::
      && PathVerdict(PolicyPaths(scope.spec)[i]) == message
      && forall j | 0 <= j < i :: IsValidPath(PolicyPaths(scope.spec)[j])
  {
    var paths := GetPaths(scope.spec);
    message := ValidatePaths(paths);
    validated := scope.(invalidConfig := message.Some?);
  }

  ghost predicate AllPathsValid(spec: AuthPolicySpec) {
    forall path | MentionsPath(spec, path) :: IsValidPath(path)
  }

  function AcceptedResources(scope: Scope): seq<string> {
    scope.audiences + scope.spec.acceptedResources.GetOr([])
  }

  // ----- requests

  /** The verified claims of a token: whether the attribute named by the key has the value. */
  type Claims = (string, string) -> bool

  /** A request as the policies see it: the path without its query, the method, and the claims of
      its token if it carries one. */
  datatype Request = Request(path: string, method_: string, claims: Option<Claims>)

  function ClaimKey(claim: string): string {
    "request.auth.claims[" + claim + "]"
  }

  // ----- the meaning of a policy

  ghost predicate MatcherMatches(matcher: RequestMatcher, r: Request) {
    && (exists path | path in matcher.paths :: InLanguage(path, r.path))
    && (matcher.methods == [] || r.method_ in matcher.methods)
  }

  ghost predicate ConditionHolds(condition: Condition, r: Request) {
    r.claims.Some? && exists value | value in condition.values ::
      r.claims.value("request.auth.claims[" + condition.claim + "]", value)
  }

  /** Issuer, audience if any is accepted, and the baseline claims. */
  function BaseConditions(scope: Scope): seq<Condition> {
    [Condition("iss", [scope.issuer])]
    + (if AcceptedResources(scope) != [] then [Condition("aud", AcceptedResources(scope))] else [])
    + scope.spec.baselineAuth.GetOr([])
  }

  ghost predicate AllHold(conditions: seq<Condition>, r: Request) {
    forall condition | condition in conditions :: ConditionHolds(condition, r)
  }

  function WhenConditions(rule: RequestAuthRule): seq<Condition> {
    rule.when.GetOr([])
  }

  ghost predicate SomeAuthRuleMatches(spec: AuthPolicySpec, r: Request) {
    exists rule | rule in AuthRules(spec) :: MatcherMatches(rule.matcher, r)
  }

  ghost predicate SomeIgnoreRuleMatches(spec: AuthPolicySpec, r: Request) {
    exists matcher | matcher in IgnoreAuthRequestMatchers(spec) :: MatcherMatches(matcher, r)
  }

  ghost predicate MatchingAuthRulesHold(spec: AuthPolicySpec, r: Request) {
    forall rule | rule in AuthRules(spec) && MatcherMatches(rule.matcher, r) :: AllHold(WhenConditions(rule), r)
  }

  /** Auth rules take precedence over ignore rules; everything else needs the base conditions. */
  ghost predicate Permits(scope: Scope, r: Request) {
    if SomeAuthRuleMatches(scope.spec, r) then
      AllHold(BaseConditions(scope), r) && MatchingAuthRulesHold(scope.spec, r)
    else
      SomeIgnoreRuleMatches(scope.spec, r) || AllHold(BaseConditions(scope), r)
  }

  // ----- what the compilers rely on

  predicate MethodsAreAccepted(matcher: RequestMatcher) {
    forall m | m in matcher.methods :: m in ACCEPTED_HTTP_METHODS
  }

  /** The schema of the resource lists the methods that a matcher may name. */
  predicate AllMethodsAccepted(spec: AuthPolicySpec) {
    && (forall rule | rule in AuthRules(spec) :: MethodsAreAccepted(rule.matcher))
    && (forall matcher | matcher in IgnoreAuthRequestMatchers(spec) :: MethodsAreAccepted(matcher))
  }

  predicate ConditionsAreComplete(conditions: seq<Condition>) {
    forall condition | condition in conditions :: condition.values != []
  }

  /** Every matcher names a path, and every condition of the policy a value. The schema does not ask
      for either. */
  predicate IsComplete(spec: AuthPolicySpec) {
    && (forall rule | rule in AuthRules(spec) ::
          rule.matcher.paths != [] && ConditionsAreComplete(WhenConditions(rule)))
    && (forall matcher | matcher in IgnoreAuthRequestMatchers(spec) :: matcher.paths != [])
    && ConditionsAreComplete(spec.baselineAuth.GetOr([]))
  }
}
