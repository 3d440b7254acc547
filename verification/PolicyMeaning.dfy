/** What the compiled policies accept, over the fields of the AuthPolicy alone. */
module PolicyMeaning {
  import opened PathLanguage
  import opened Istio
  import opened Policy
  import opened Generators
  import opened PolicyCompiler
  import opened CompilerLimits
  import opened Wrappers
  import Names

  /** Some accepted audience: one resolved for the policy or one of its accepted resources. */
  ghost predicate HasAudience(scope: Scope, claims: Claims) {
    || (exists audience | audience in scope.audiences :: claims("request.auth.claims[aud]", audience))
    || (scope.spec.acceptedResources.Some?
        && exists resource | resource in scope.spec.acceptedResources.value ::
             claims("request.auth.claims[aud]", resource))
  }

  predicate NamesNoAudience(scope: Scope) {
    scope.audiences == [] && (scope.spec.acceptedResources.None? || scope.spec.acceptedResources.value == [])
  }

  ghost predicate HasClaim(condition: Condition, claims: Claims) {
    exists value | value in condition.values :: claims("request.auth.claims[" + condition.claim + "]", value)
  }

  /** A token of the issuer, for an accepted audience unless none is named, with every baseline claim.
      A baseline claim that lists no value may be left aside. */
  ghost predicate TokenIsGood(scope: Scope, token: Option<Claims>, lenient: bool) {
    && token.Some?
    && token.value("request.auth.claims[iss]", scope.issuer)
    && (NamesNoAudience(scope) || HasAudience(scope, token.value))
    && (scope.spec.baselineAuth.Some? ==>
          forall condition | condition in scope.spec.baselineAuth.value ::
            (lenient && condition.values == []) || HasClaim(condition, token.value))
  }

  /** Whether a request is on one of the paths, or on any path if none is listed and that is to count. */
  ghost predicate IsOn(matcher: RequestMatcher, r: Request, pathlessCounts: bool) {
    && ((exists path | path in matcher.paths :: InLanguage(path, r.path)) || (pathlessCounts && matcher.paths == []))
    && (matcher.methods == [] || r.method_ in matcher.methods)
  }

  /** The auth rules that apply to a request. */
  ghost predicate RuleIsOn(spec: AuthPolicySpec, rule: RequestAuthRule, r: Request, pathlessCounts: bool) {
    spec.authRules.Some? && rule in spec.authRules.value && IsOn(rule.matcher, r, pathlessCounts)
  }

  ghost predicate IsIgnored(spec: AuthPolicySpec, r: Request, pathlessCounts: bool) {
    && spec.ignoreAuthRules.Some?
    && exists matcher | matcher in spec.ignoreAuthRules.value :: IsOn(matcher, r, pathlessCounts)
  }

  ghost predicate WhenIsMet(rule: RequestAuthRule, r: Request) {
    rule.when.Some? ==>
      forall condition | condition in rule.when.value :: r.claims.Some? && HasClaim(condition, r.claims.value)
  }

  predicate SomeMatcherNamesNoPath(spec: AuthPolicySpec) {
    || (spec.authRules.Some? && exists rule | rule in spec.authRules.value :: rule.matcher.paths == [])
    || (spec.ignoreAuthRules.Some? && exists matcher | matcher in spec.ignoreAuthRules.value :: matcher.paths == [])
  }

  // ----- the base conditions

  lemma IssuerAndAudience(scope: Scope, r: Request)
    requires r.claims.Some?
    ensures ConditionHolds(Condition("iss", [scope.issuer]), r) <==>
      r.claims.value("request.auth.claims[iss]", scope.issuer)
    ensures ConditionHolds(Condition("aud", AcceptedResources(scope)), r) <==> HasAudience(scope, r.claims.value)
    ensures AcceptedResources(scope) == [] <==> NamesNoAudience(scope)
  {
    assert "request.auth.claims[" + "iss" + "]" == "request.auth.claims[iss]";
    assert "request.auth.claims[" + "aud" + "]" == "request.auth.claims[aud]";
    assert [scope.issuer][0] in [scope.issuer];
  }

  lemma BaseConditionsMean(scope: Scope, r: Request)
    ensures AllHold(BaseConditions(scope), r) <==> TokenIsGood(scope, r.claims, false)
    ensures NoneFails(BaseConditions(scope), r) <==> TokenIsGood(scope, r.claims, true)
  {
    var base, issuer, audience :=
      BaseConditions(scope), Condition("iss", [scope.issuer]), Condition("aud", AcceptedResources(scope));
    var baseline := scope.spec.baselineAuth.GetOr([]);
    assert forall condition :: condition in base <==>
      condition == issuer || (AcceptedResources(scope) != [] && condition == audience) || condition in baseline by {
      assert base[0] == issuer;
    }
    if r.claims.Some? {
      IssuerAndAudience(scope, r);
    } else {
      assert !ConditionHolds(issuer, r);
    }
  }

  // ----- the rules

  lemma SelectionMeans(spec: AuthPolicySpec, r: Request)
    ensures SomeRuleSelects(spec, r) <==> exists rule :: RuleIsOn(spec, rule, r, true)
    ensures SomeIgnoreRuleSelects(spec, r) <==> IsIgnored(spec, r, true)
    ensures SelectingRulesHold(spec, r) <==> forall rule | RuleIsOn(spec, rule, r, true) :: WhenIsMet(rule, r)
  {
    assert forall matcher: RequestMatcher :: Selects(matcher, r) <==> IsOn(matcher, r, true);
    assert forall rule: RequestAuthRule :: AllHold(WhenConditions(rule), r) <==> WhenIsMet(rule, r);
    if rule :| rule in AuthRules(spec) && Selects(rule.matcher, r) {
      assert RuleIsOn(spec, rule, r, true);
    }
    if rule :| RuleIsOn(spec, rule, r, true) {
      assert rule in AuthRules(spec);
    }
  }

  lemma MatchingMeans(spec: AuthPolicySpec, r: Request)
    ensures SomeAuthRuleMatches(spec, r) <==> exists rule :: RuleIsOn(spec, rule, r, false)
    ensures SomeIgnoreRuleMatches(spec, r) <==> IsIgnored(spec, r, false)
    ensures MatchingAuthRulesHold(spec, r) <==> forall rule | RuleIsOn(spec, rule, r, false) :: WhenIsMet(rule, r)
  {
    assert forall matcher: RequestMatcher :: MatcherMatches(matcher, r) <==> IsOn(matcher, r, false);
    assert forall rule: RequestAuthRule :: AllHold(WhenConditions(rule), r) <==> WhenIsMet(rule, r);
    if rule :| rule in AuthRules(spec) && MatcherMatches(rule.matcher, r) {
      assert RuleIsOn(spec, rule, r, false);
    }
    if rule :| RuleIsOn(spec, rule, r, false) {
      assert rule in AuthRules(spec);
    }
  }

  // ----- what is permitted and what is accepted

  /** What an AuthPolicy permits. */
  lemma PermitsMeans(scope: Scope, r: Request)
    ensures Permits(scope, r) <==>
      if exists rule :: RuleIsOn(scope.spec, rule, r, false) then
        && TokenIsGood(scope, r.claims, false)
        && forall rule | RuleIsOn(scope.spec, rule, r, false) :: WhenIsMet(rule, r)
      else IsIgnored(scope.spec, r, false) || TokenIsGood(scope, r.claims, false)
  {
    BaseConditionsMean(scope, r);
    MatchingMeans(scope.spec, r);
  }

  lemma PathlessMatchers(spec: AuthPolicySpec)
    ensures SomeMatcherIsPathless(spec) <==> SomeMatcherNamesNoPath(spec)
  {
    var matchers, rules := AllMatchers(spec), AuthRules(spec);
    assert matchers == RequestMatchers(rules) + IgnoreAuthRequestMatchers(spec);
    if rule :| rule in rules && rule.matcher.paths == [] {
      var i :| 0 <= i < |rules| && rules[i] == rule;
      assert RequestMatchers(rules)[i] in matchers;
    }
    if matcher :| matcher in RequestMatchers(rules) && matcher.paths == [] {
      var i :| 0 <= i < |rules| && RequestMatchers(rules)[i] == matcher;
      assert rules[i] in rules;
    }
  }

  /** For every scope and request: what the compiled policies accept. Without an enabled policy nothing
      is restricted, with an invalid one every request is rejected; otherwise auth rules come first,
      then ignore rules, and everything else needs a good token. */
  lemma CompiledPoliciesAccept(scope: Scope, name: string, r: Request)
    requires scope.spec.enabled && !scope.invalidConfig ==> IsCompilable(scope.spec)
    ensures Accepts(Compiled(scope, name), r) <==>
      if !scope.spec.enabled then true
      else if scope.invalidConfig then r.path == ""
      else if exists rule :: RuleIsOn(scope.spec, rule, r, true) then
        && TokenIsGood(scope, r.claims, false)
        && forall rule | RuleIsOn(scope.spec, rule, r, true) :: WhenIsMet(rule, r)
      else
        || IsIgnored(scope.spec, r, true)
        || (TokenIsGood(scope, r.claims, true) && (r.path != "" || SomeMatcherNamesNoPath(scope.spec)))
  {
    if !scope.spec.enabled {
      assert Compiled(scope, name) == [];
    } else if scope.invalidConfig {
      InvalidPolicyAccepts(scope, name, r);
    } else {
      CompiledPoliciesAdmit(scope, name, r);
      BaseConditionsMean(scope, r);
      SelectionMeans(scope.spec, r);
      PathlessMatchers(scope.spec);
    }
  }

  lemma InvalidPolicyAccepts(scope: Scope, name: string, r: Request)
    requires scope.spec.enabled && scope.invalidConfig
    ensures Accepts(Compiled(scope, name), r) <==> r.path == ""
  {
    if r.path == "" {
      var deny := DesiredDeny(scope, Names.DenyPolicy(name)).value;
      assert Compiled(scope, name) == [deny] && deny.rules == [Rule([ALL_PATHS], [])];
      PresenceOfPath(r.path);
      assert forall op | op in [ALL_PATHS] :: !OperationMatches(op, r);
    } else {
      InvalidPolicyRejectsEverything(scope, name, r);
    }
  }

  /** Without rules: a token of the issuer, for an accepted audience, with the baseline claims. */
  lemma PolicyWithoutRulesAccepts(scope: Scope, name: string, r: Request)
    requires scope.spec.enabled && !scope.invalidConfig
    requires scope.spec.authRules.None? && scope.spec.ignoreAuthRules.None?
    ensures Accepts(Compiled(scope, name), r) <==> r.path != "" && TokenIsGood(scope, r.claims, true)
  {
    assert forall path :: !MentionsPath(scope.spec, path);
    CompiledPoliciesAccept(scope, name, r);
  }
}
