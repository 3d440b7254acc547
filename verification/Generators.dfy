/** The three generators that compile an AuthPolicy to AuthorizationPolicies. */
module Generators {
  import opened IstioPaths
  import opened Istio
  import opened Policy
  import opened Wrappers

  // ----- conditions: the allow form and its dual for deny policies

  function AllowCondition(condition: Condition): IstioCondition {
    IstioCondition(ClaimKey(condition.claim), condition.values, [])
  }

  function DenyCondition(condition: Condition): IstioCondition {
    IstioCondition(ClaimKey(condition.claim), [], condition.values)
  }

  function AllowConditions(conditions: seq<Condition>): (result: seq<IstioCondition>)
    ensures |result| == |conditions|
    ensures forall i | 0 <= i < |conditions| :: result[i] == AllowCondition(conditions[i])
  {
    seq(|conditions|, i requires 0 <= i < |conditions| => AllowCondition(conditions[i]))
  }

  function DenyConditions(conditions: seq<Condition>): (result: seq<IstioCondition>)
    ensures |result| == |conditions|
    ensures forall i | 0 <= i < |conditions| :: result[i] == DenyCondition(conditions[i])
  {
    seq(|conditions|, i requires 0 <= i < |conditions| => DenyCondition(conditions[i]))
  }

  method MakeConditions(conditions: seq<Condition>, deny: bool) returns (result: seq<IstioCondition>)
    ensures |result| == |conditions|
    ensures forall i | 0 <= i < |conditions| ::
      result[i] == if deny then DenyCondition(conditions[i]) else AllowCondition(conditions[i])
  {
    result := [];
    for i := 0 to |conditions|
      invariant |result| == i
      invariant forall j | 0 <= j < i ::
        result[j] == if deny then DenyCondition(conditions[j]) else AllowCondition(conditions[j])
    {
      result := result + [if deny then DenyCondition(conditions[i]) else AllowCondition(conditions[i])];
    }
  }

  const ALL_PATHS := Operation(["*"], [], [], [])

  function MatcherOperation(matcher: RequestMatcher): Operation {
    Operation(TransformPaths(matcher.paths), [], matcher.methods, [])
  }

  // ----- deny

  /** One rule per negated condition of an auth rule. */
  function DenyRulesFor(rule: RequestAuthRule, conditions: seq<IstioCondition>): (rules: seq<Rule>)
    ensures |rules| == |conditions|
    ensures forall i | 0 <= i < |conditions| :: rules[i] == Rule([MatcherOperation(rule.matcher)], [conditions[i]])
  {
    seq(|conditions|, i requires 0 <= i < |conditions| => Rule([MatcherOperation(rule.matcher)], [conditions[i]]))
  }

  function DenyRules(base: seq<IstioCondition>, rules: seq<RequestAuthRule>): seq<Rule> {
    if rules == [] then []
    else
      var last := rules[|rules| - 1];
      DenyRules(base, rules[..|rules| - 1]) + DenyRulesFor(last, base + DenyConditions(WhenConditions(last)))
  }

  /** The inner loop of an auth rule: the base conditions and those of its `when` clause. */
  method WithDenyConditions(base: seq<IstioCondition>, when: Option<seq<Condition>>) returns (result: seq<IstioCondition>)
    ensures result == base + DenyConditions(when.GetOr([]))
  {
    result := base;
    if when.Some? {
      for j := 0 to |when.value|
        invariant result == base + DenyConditions(when.value)[..j]
      {
        result := result + [DenyCondition(when.value[j])];
      }
    }
  }

  method GetDesiredDeny(scope: Scope, name: string) returns (policy: Option<AuthorizationPolicy>)
    ensures policy == DesiredDeny(scope, name)
  {
    if !scope.spec.enabled {
      return None;
    }
    if scope.invalidConfig {
      return Some(AuthorizationPolicy(name, DENY, scope.spec.matchLabels, [Rule([ALL_PATHS], [])]));
    }
    if scope.spec.authRules.None? || |scope.spec.authRules.value| == 0 {
      return None;
    }
    var authRules := scope.spec.authRules.value;
    var base := MakeConditions(BaseConditions(scope), true);
    assert base == DenyConditions(BaseConditions(scope));
    var denyRules: seq<Rule> := [];
    for i := 0 to |authRules|
      invariant denyRules == DenyRules(base, authRules[..i])
    {
      var rule := authRules[i];
      var conditions := WithDenyConditions(base, rule.when);
      ghost var before := denyRules;
      for j := 0 to |conditions|
        invariant denyRules == before + DenyRulesFor(rule, conditions)[..j]
      {
        var paths := TransformPathsForIstio(rule.matcher.paths);
        denyRules := denyRules + [Rule([Operation(paths, [], rule.matcher.methods, [])], [conditions[j]])];
      }
      assert authRules[..i + 1][..i] == authRules[..i];
    }
    assert authRules[..|authRules|] == authRules;
    policy := Some(AuthorizationPolicy(name, DENY, scope.spec.matchLabels, denyRules));
  }

  function DesiredDeny(scope: Scope, name: string): Option<AuthorizationPolicy> {
    if !scope.spec.enabled then None
    else if scope.invalidConfig then
      Some(AuthorizationPolicy(name, DENY, scope.spec.matchLabels, [Rule([ALL_PATHS], [])]))
    else if AuthRules(scope.spec) == [] then None
    else Some(AuthorizationPolicy(name, DENY, scope.spec.matchLabels,
                                  DenyRules(DenyConditions(BaseConditions(scope)), AuthRules(scope.spec))))
  }

  // ----- ignore

  function MatcherOperations(matchers: seq<RequestMatcher>): (ops: seq<Operation>)
    ensures |ops| == |matchers|
    ensures forall i | 0 <= i < |matchers| :: ops[i] == MatcherOperation(matchers[i])
  {
    seq(|matchers|, i requires 0 <= i < |matchers| => MatcherOperation(matchers[i]))
  }

  method GetDesiredIgnore(scope: Scope, name: string) returns (policy: Option<AuthorizationPolicy>)
    ensures policy == DesiredIgnore(scope, name)
  {
    if !scope.spec.enabled {
      return None;
    }
    if scope.invalidConfig {
      return None;
    }
    var matchers := IgnoreAuthRequestMatchers(scope.spec);
    if |matchers| == 0 {
      return None;
    }
    var ruleToList: seq<Operation> := [];
    for i := 0 to |matchers|
      invariant ruleToList == MatcherOperations(matchers)[..i]
    {
      var paths := TransformPathsForIstio(matchers[i].paths);
      ruleToList := ruleToList + [Operation(paths, [], matchers[i].methods, [])];
    }
    assert ruleToList == MatcherOperations(matchers);
    policy := Some(AuthorizationPolicy(name, ALLOW, scope.spec.matchLabels, [Rule(ruleToList, [])]));
  }

  function DesiredIgnore(scope: Scope, name: string): Option<AuthorizationPolicy> {
    if !scope.spec.enabled || scope.invalidConfig || IgnoreAuthRequestMatchers(scope.spec) == [] then None
    else Some(AuthorizationPolicy(name, ALLOW, scope.spec.matchLabels,
                                  [Rule(MatcherOperations(IgnoreAuthRequestMatchers(scope.spec)), [])]))
  }

  // ----- require

  function SpecifiedPathsRule(base: seq<IstioCondition>, rule: RequestAuthRule): Rule {
    Rule([MatcherOperation(rule.matcher)], base + AllowConditions(WhenConditions(rule)))
  }

  function SpecifiedPathsRules(base: seq<IstioCondition>, rules: seq<RequestAuthRule>): (result: seq<Rule>)
    ensures |result| == |rules|
    ensures forall i | 0 <= i < |rules| :: result[i] == SpecifiedPathsRule(base, rules[i])
  {
    seq(|rules|, i requires 0 <= i < |rules| => SpecifiedPathsRule(base, rules[i]))
  }

  method WithAllowConditions(base: seq<IstioCondition>, when: Option<seq<Condition>>) returns (result: seq<IstioCondition>)
    ensures result == base + AllowConditions(when.GetOr([]))
  {
    result := base;
    if when.Some? {
      for j := 0 to |when.value|
        invariant result == base + AllowConditions(when.value)[..j]
      {
        result := result + [AllowCondition(when.value[j])];
      }
    }
  }

  method ConstructSpecifiedPathsAllowRules(scope: Scope, base: seq<IstioCondition>) returns (rules: seq<Rule>)
    ensures rules == SpecifiedPathsRules(base, AuthRules(scope.spec))
  {
    rules := [];
    if scope.spec.authRules.Some? {
      var authRules := scope.spec.authRules.value;
      for i := 0 to |authRules|
        invariant rules == SpecifiedPathsRules(base, authRules)[..i]
      {
        var conditions := WithAllowConditions(base, authRules[i].when);
        var paths := TransformPathsForIstio(authRules[i].matcher.paths);
        rules := rules + [Rule([Operation(paths, [], authRules[i].matcher.methods, [])], conditions)];
      }
    }
  }

  function CoveredMethods(matcher: RequestMatcher): seq<string> {
    if matcher.methods == [] then ACCEPTED_HTTP_METHODS else matcher.methods
  }

  /** The requests on a matcher's paths with a method that the matcher does not cover. */
  function OtherMethodsOperation(matcher: RequestMatcher): Operation {
    Operation(TransformPaths(matcher.paths), [], [], CoveredMethods(matcher))
  }

  function OtherMethodsOperations(matchers: seq<RequestMatcher>): (ops: seq<Operation>)
    ensures |ops| == |matchers|
    ensures forall i | 0 <= i < |matchers| :: ops[i] == OtherMethodsOperation(matchers[i])
  {
    seq(|matchers|, i requires 0 <= i < |matchers| => OtherMethodsOperation(matchers[i]))
  }

  function MentionedPaths(matchers: seq<RequestMatcher>): seq<string> {
    if matchers == [] then []
    else MentionedPaths(matchers[..|matchers| - 1]) + TransformPaths(matchers[|matchers| - 1].paths)
  }

  function UnspecifiedPathsRule(base: seq<IstioCondition>, matchers: seq<RequestMatcher>): Rule {
    Rule(OtherMethodsOperations(matchers) + [Operation(["*"], MentionedPaths(matchers), [], [])], base)
  }

  function AllMatchers(spec: AuthPolicySpec): seq<RequestMatcher> {
    RequestMatchers(AuthRules(spec)) + IgnoreAuthRequestMatchers(spec)
  }

  method CollectMentionedPaths(matchers: seq<RequestMatcher>) returns (mentionedPaths: seq<string>)
    ensures mentionedPaths == MentionedPaths(matchers)
  {
    mentionedPaths := [];
    for i := 0 to |matchers|
      invariant mentionedPaths == MentionedPaths(matchers[..i])
    {
      var paths := TransformPathsForIstio(matchers[i].paths);
      mentionedPaths := mentionedPaths + paths;
      assert matchers[..i + 1][..i] == matchers[..i];
    }
    assert matchers[..|matchers|] == matchers;
  }

  method ConstructUnspecifiedPathsAllowRule(scope: Scope, base: seq<IstioCondition>) returns (rule: Rule)
    ensures rule == UnspecifiedPathsRule(base, AllMatchers(scope.spec))
  {
    var required := GetRequestMatchers(scope.spec.authRules);
    var matchers := required + IgnoreAuthRequestMatchers(scope.spec);
    var to: seq<Operation> := [];
    for i := 0 to |matchers|
      invariant to == OtherMethodsOperations(matchers)[..i]
    {
      var methods := matchers[i].methods;
      if |matchers[i].methods| == 0 {
        methods := ACCEPTED_HTTP_METHODS;
      }
      var paths := TransformPathsForIstio(matchers[i].paths);
      to := to + [Operation(paths, [], [], methods)];
    }
    var mentionedPaths := CollectMentionedPaths(matchers);
    to := to + [Operation(["*"], mentionedPaths, [], [])];
    rule := Rule(to, base);
  }

  method GetDesiredRequire(scope: Scope, name: string) returns (policy: Option<AuthorizationPolicy>)
    ensures policy == DesiredRequire(scope, name)
  {
    if !scope.spec.enabled {
      return None;
    }
    if scope.invalidConfig {
      return None;
    }
    var base := MakeConditions(BaseConditions(scope), false);
    assert base == AllowConditions(BaseConditions(scope));
    var hasAuthRules := scope.spec.authRules.Some? && |scope.spec.authRules.value| > 0;
    var hasIgnoreAuthRules := scope.spec.ignoreAuthRules.Some? && |scope.spec.ignoreAuthRules.value| > 0;
    if !hasAuthRules && !hasIgnoreAuthRules {
      return Some(AuthorizationPolicy(name, ALLOW, scope.spec.matchLabels, [Rule([ALL_PATHS], base)]));
    }
    var specified := ConstructSpecifiedPathsAllowRules(scope, base);
    var unspecified := ConstructUnspecifiedPathsAllowRule(scope, base);
    policy := Some(AuthorizationPolicy(name, ALLOW, scope.spec.matchLabels, [unspecified] + specified));
  }

  function RequireRules(scope: Scope): seq<Rule> {
    var base := AllowConditions(BaseConditions(scope));
    if AllMatchers(scope.spec) == [] then [Rule([ALL_PATHS], base)]
    else [UnspecifiedPathsRule(base, AllMatchers(scope.spec))] + SpecifiedPathsRules(base, AuthRules(scope.spec))
  }

  function DesiredRequire(scope: Scope, name: string): Option<AuthorizationPolicy> {
    if !scope.spec.enabled || scope.invalidConfig then None
    else Some(AuthorizationPolicy(name, ALLOW, scope.spec.matchLabels, RequireRules(scope)))
  }
}
