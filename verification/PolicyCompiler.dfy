/** The compiled AuthorizationPolicies mean what the AuthPolicy means. */
module PolicyCompiler {
  import opened GoStrings
  import opened PathLanguage
  import opened PathValidation
  import opened IstioPaths
  import opened Istio
  import opened Policy
  import opened Generators
  import opened Wrappers
  import Names

  function Installed(policy: Option<AuthorizationPolicy>): seq<AuthorizationPolicy> {
    if policy.Some? then [policy.value] else []
  }

  /** The policies compiled from an AuthPolicy with the given name. */
  function Compiled(scope: Scope, name: string): seq<AuthorizationPolicy> {
    Installed(DesiredDeny(scope, Names.DenyPolicy(name)))
    + Installed(DesiredIgnore(scope, Names.IgnorePolicy(name)))
    + Installed(DesiredRequire(scope, Names.RequirePolicy(name)))
  }

  ghost predicate PathsAreValid(matcher: RequestMatcher) {
    forall path | path in matcher.paths :: IsValidPath(path)
  }

  /** Validated paths that are rewritten to Istio's syntax. */
  ghost predicate PathsAreSupported(matcher: RequestMatcher) {
    forall path | path in matcher.paths :: IsValidPath(path) && !SlashAfterEmbeddedAny(path)
  }

  ghost predicate MatcherIsSupported(matcher: RequestMatcher) {
    PathsAreSupported(matcher) && MethodsAreAccepted(matcher)
  }

  ghost predicate PathsAreIstioPaths(spec: AuthPolicySpec) {
    forall path | MentionsPath(spec, path) :: !SlashAfterEmbeddedAny(path)
  }

  /** What the compiler may rely on: validated paths without slashes after `prefix{**}`, and known
      methods. Lists of paths and of condition values may be empty. */
  ghost predicate IsCompilable(spec: AuthPolicySpec) {
    AllPathsValid(spec) && PathsAreIstioPaths(spec) && AllMethodsAccepted(spec)
  }

  /** A compilable policy in which, besides, every matcher names a path and every condition a value. */
  ghost predicate IsSupported(spec: AuthPolicySpec) {
    IsCompilable(spec) && IsComplete(spec)
  }

  ghost predicate SomePathCovers(paths: seq<string>, p: string) {
    exists path | path in paths :: InLanguage(path, p)
  }

  // ----- what the compiled policies admit

  /** A compiled matcher: an empty list of paths is no constraint. */
  ghost predicate Selects(matcher: RequestMatcher, r: Request) {
    && (matcher.paths == [] || SomePathCovers(matcher.paths, r.path))
    && (matcher.methods == [] || r.method_ in matcher.methods)
  }

  ghost predicate SomeRuleSelects(spec: AuthPolicySpec, r: Request) {
    exists rule | rule in AuthRules(spec) :: Selects(rule.matcher, r)
  }

  ghost predicate SelectingRulesHold(spec: AuthPolicySpec, r: Request) {
    forall rule | rule in AuthRules(spec) && Selects(rule.matcher, r) :: AllHold(WhenConditions(rule), r)
  }

  ghost predicate SomeIgnoreRuleSelects(spec: AuthPolicySpec, r: Request) {
    exists matcher | matcher in IgnoreAuthRequestMatchers(spec) :: Selects(matcher, r)
  }

  /** Compiled allow conditions: an empty list of values is no constraint. */
  ghost predicate NoneFails(conditions: seq<Condition>, r: Request) {
    forall condition | condition in conditions :: condition.values == [] || ConditionHolds(condition, r)
  }

  ghost predicate SomeMatcherIsPathless(spec: AuthPolicySpec) {
    exists matcher | matcher in AllMatchers(spec) :: matcher.paths == []
  }

  /** What the three policies accept, with empty lists read as Istio reads them. */
  ghost predicate Admits(scope: Scope, r: Request) {
    if SomeRuleSelects(scope.spec, r) then
      AllHold(BaseConditions(scope), r) && SelectingRulesHold(scope.spec, r)
    else
      || SomeIgnoreRuleSelects(scope.spec, r)
      || (NoneFails(BaseConditions(scope), r) && (r.path != "" || SomeMatcherIsPathless(scope.spec)))
  }

  // ----- operations

  lemma PathsCompile(paths: seq<string>, p: string)
    requires forall path | path in paths :: IsValidPath(path) && !SlashAfterEmbeddedAny(path)
    ensures SomePathMatches(TransformPaths(paths), p) <==> SomePathCovers(paths, p)
  {
    var patterns := TransformPaths(paths);
    if SomePathMatches(patterns, p) {
      var pattern :| pattern in patterns && IstioPathMatches(pattern, p);
      var i :| 0 <= i < |patterns| && patterns[i] == pattern;
      RewritePreservesLanguage(paths[i], p);
      assert paths[i] in paths;
    }
    if SomePathCovers(paths, p) {
      var path :| path in paths && InLanguage(path, p);
      var i :| 0 <= i < |paths| && paths[i] == path;
      RewritePreservesLanguage(path, p);
      assert patterns[i] in patterns;
    }
  }

  lemma MethodIsExact(m: string, value: string)
    requires m in ACCEPTED_HTTP_METHODS
    ensures StringMatches(m, value) <==> value == m
  {
    LastCharacter(m, '*');
  }

  lemma MethodsCompile(methods: seq<string>, value: string)
    requires forall m | m in methods :: m in ACCEPTED_HTTP_METHODS
    ensures SomeStringMatches(methods, value) <==> value in methods
  {
    forall m | m in methods ensures StringMatches(m, value) <==> value == m {
      MethodIsExact(m, value);
    }
  }

  lemma MatcherCompiles(matcher: RequestMatcher, r: Request)
    requires MatcherIsSupported(matcher)
    ensures OperationMatches(MatcherOperation(matcher), r) <==> Selects(matcher, r)
  {
    PathsCompile(matcher.paths, r.path);
    MethodsCompile(matcher.methods, r.method_);
  }

  lemma OtherMethodsCompile(matcher: RequestMatcher, r: Request)
    requires MatcherIsSupported(matcher)
    ensures OperationMatches(OtherMethodsOperation(matcher), r) <==>
      (matcher.paths == [] || SomePathCovers(matcher.paths, r.path)) && r.method_ !in CoveredMethods(matcher)
  {
    PathsCompile(matcher.paths, r.path);
    MethodsCompile(CoveredMethods(matcher), r.method_);
  }

  lemma PresenceOfPath(p: string)
    ensures SomePathMatches(["*"], p) <==> p != ""
  {
    assert "*" in ["*"];
    assert !ContainsPathTemplate("*");
  }

  lemma {:induction false} MentionedPathsCompile(matchers: seq<RequestMatcher>, p: string)
    requires forall matcher | matcher in matchers :: PathsAreSupported(matcher)
    ensures SomePathMatches(MentionedPaths(matchers), p) <==>
      exists matcher | matcher in matchers :: SomePathCovers(matcher.paths, p)
  {
    if matchers != [] {
      var n := |matchers| - 1;
      var init, last := matchers[..n], matchers[n];
      assert matchers == init + [last];
      assert last in matchers;
      MentionedPathsCompile(init, p);
      PathsCompile(last.paths, p);
      assert forall matcher | matcher in matchers :: matcher in init || matcher == last;
      assert forall pattern | pattern in MentionedPaths(matchers) ::
        pattern in MentionedPaths(init) || pattern in TransformPaths(last.paths);
    }
  }

  /** The complement rule reaches every request that no matcher selects, if it has a path or some
      matcher does without. */
  lemma UnspecifiedCoversTheRest(matchers: seq<RequestMatcher>, r: Request)
    requires forall matcher | matcher in matchers :: MatcherIsSupported(matcher)
    requires r.path != "" || exists matcher | matcher in matchers :: matcher.paths == []
    requires forall matcher | matcher in matchers :: !Selects(matcher, r)
    ensures SomeOperationMatches(UnspecifiedPathsRule([], matchers).to, r)
  {
    var ops := UnspecifiedPathsRule([], matchers).to;
    if matcher :| matcher in matchers && (matcher.paths == [] || SomePathCovers(matcher.paths, r.path)) {
      var i :| 0 <= i < |matchers| && matchers[i] == matcher;
      OtherMethodsCompile(matcher, r);
      assert ops[i] == OtherMethodsOperation(matcher);
    } else {
      MentionedPathsCompile(matchers, r.path);
      PresenceOfPath(r.path);
      var op := Operation(["*"], MentionedPaths(matchers), [], []);
      assert OperationMatches(op, r);
      assert ops[|matchers|] == op;
    }
  }

  lemma NothingCoversTheEmptyPath(matcher: RequestMatcher)
    requires PathsAreSupported(matcher)
    ensures !SomePathCovers(matcher.paths, "")
  {
    if path :| path in matcher.paths && InLanguage(path, "") {
      ValidPathsMatchSlashOnly(path, "");
    }
  }

  lemma UnspecifiedNeedsAPath(matchers: seq<RequestMatcher>, r: Request)
    requires forall matcher | matcher in matchers :: MatcherIsSupported(matcher)
    requires r.path == "" && SomeOperationMatches(UnspecifiedPathsRule([], matchers).to, r)
    ensures exists matcher | matcher in matchers :: matcher.paths == []
  {
    var ops := UnspecifiedPathsRule([], matchers).to;
    var op :| op in ops && OperationMatches(op, r);
    var i :| 0 <= i < |ops| && ops[i] == op;
    PresenceOfPath(r.path);
    assert i < |matchers| && matchers[i] in matchers;
    OtherMethodsCompile(matchers[i], r);
    NothingCoversTheEmptyPath(matchers[i]);
  }

  // ----- conditions

  lemma ConditionCompiles(condition: Condition, r: Request)
    ensures ConditionMatches(AllowCondition(condition), r) <==> condition.values == [] || ConditionHolds(condition, r)
    ensures ConditionMatches(DenyCondition(condition), r) <==> !ConditionHolds(condition, r)
  {}

  lemma AllowConditionsCompile(conditions: seq<Condition>, r: Request)
    ensures AllConditionsMatch(AllowConditions(conditions), r) <==> NoneFails(conditions, r)
  {
    var compiled := AllowConditions(conditions);
    forall i | 0 <= i < |conditions|
      ensures ConditionMatches(compiled[i], r) <==> conditions[i].values == [] || ConditionHolds(conditions[i], r)
    {
      ConditionCompiles(conditions[i], r);
    }
    assert forall i | 0 <= i < |conditions| :: compiled[i] in compiled;
    assert forall i | 0 <= i < |conditions| :: conditions[i] in conditions;
  }

  lemma SomeDenyConditionCompiles(conditions: seq<Condition>, r: Request)
    ensures (exists c | c in DenyConditions(conditions) :: ConditionMatches(c, r)) <==> !AllHold(conditions, r)
  {
    var compiled := DenyConditions(conditions);
    forall i | 0 <= i < |conditions|
      ensures ConditionMatches(compiled[i], r) <==> !ConditionHolds(conditions[i], r)
    {
      ConditionCompiles(conditions[i], r);
    }
    assert forall i | 0 <= i < |conditions| :: compiled[i] in compiled;
    assert forall i | 0 <= i < |conditions| :: conditions[i] in conditions;
  }

  // ----- the deny policy

  ghost predicate RuleViolated(base: seq<Condition>, rule: RequestAuthRule, r: Request) {
    Selects(rule.matcher, r) && !(AllHold(base, r) && AllHold(WhenConditions(rule), r))
  }

  lemma DenyRulesForCompile(base: seq<Condition>, rule: RequestAuthRule, r: Request)
    requires MatcherIsSupported(rule.matcher)
    ensures SomeRuleMatches(DenyRulesFor(rule, DenyConditions(base) + DenyConditions(WhenConditions(rule))), r)
      <==> RuleViolated(base, rule, r)
  {
    var conditions := DenyConditions(base) + DenyConditions(WhenConditions(rule));
    var rules := DenyRulesFor(rule, conditions);
    var op := MatcherOperation(rule.matcher);
    MatcherCompiles(rule.matcher, r);
    SomeDenyConditionCompiles(base, r);
    SomeDenyConditionCompiles(WhenConditions(rule), r);
    forall i | 0 <= i < |rules|
      ensures RuleMatches(rules[i], r) <==> Selects(rule.matcher, r) && ConditionMatches(conditions[i], r)
    {
      assert op in [op] && conditions[i] in [conditions[i]];
    }
    if RuleViolated(base, rule, r) {
      var c :| c in conditions && ConditionMatches(c, r);
      var i :| 0 <= i < |conditions| && conditions[i] == c;
      assert rules[i] in rules;
    }
  }

  lemma {:induction false} DenyRulesCompile(base: seq<Condition>, rules: seq<RequestAuthRule>, r: Request)
    requires forall rule | rule in rules :: MatcherIsSupported(rule.matcher)
    ensures SomeRuleMatches(DenyRules(DenyConditions(base), rules), r) <==>
      exists rule | rule in rules :: RuleViolated(base, rule, r)
  {
    if rules != [] {
      var init, last := rules[..|rules| - 1], rules[|rules| - 1];
      assert rules == init + [last];
      DenyRulesCompile(base, init, r);
      DenyRulesForCompile(base, last, r);
      assert last in rules;
      assert forall rule | rule in rules :: rule in init || rule == last;
      var a := DenyRules(DenyConditions(base), init);
      var b := DenyRulesFor(last, DenyConditions(base) + DenyConditions(WhenConditions(last)));
      assert DenyRules(DenyConditions(base), rules) == a + b;
      assert SomeRuleMatches(a + b, r) <==> SomeRuleMatches(a, r) || SomeRuleMatches(b, r) by {
        assert forall rule :: rule in a + b <==> rule in a || rule in b;
      }
    }
  }

  // ----- the allow policies

  lemma SupportedMatchers(spec: AuthPolicySpec)
    requires IsCompilable(spec)
    ensures forall rule | rule in AuthRules(spec) :: MatcherIsSupported(rule.matcher)
    ensures forall matcher | matcher in IgnoreAuthRequestMatchers(spec) :: MatcherIsSupported(matcher)
    ensures forall matcher | matcher in AllMatchers(spec) :: MatcherIsSupported(matcher)
  {
    forall rule | rule in AuthRules(spec) ensures PathsAreSupported(rule.matcher) {
      assert forall path | path in rule.matcher.paths :: MentionsPath(spec, path);
    }
    forall matcher | matcher in IgnoreAuthRequestMatchers(spec) ensures PathsAreSupported(matcher) {
      assert forall path | path in matcher.paths :: MentionsPath(spec, path);
    }
  }

  lemma AllMatchersSelect(spec: AuthPolicySpec, r: Request)
    ensures (exists matcher | matcher in AllMatchers(spec) :: Selects(matcher, r))
      <==> SomeRuleSelects(spec, r) || SomeIgnoreRuleSelects(spec, r)
  {
    var matchers := AllMatchers(spec);
    var required := RequestMatchers(AuthRules(spec));
    if rule :| rule in AuthRules(spec) && Selects(rule.matcher, r) {
      var i :| 0 <= i < |AuthRules(spec)| && AuthRules(spec)[i] == rule;
      assert required[i] in matchers;
    }
    if matcher :| matcher in matchers && Selects(matcher, r) {
      if matcher in required {
        var i :| 0 <= i < |required| && required[i] == matcher;
        assert AuthRules(spec)[i] in AuthRules(spec);
      }
    }
  }

  lemma MatcherOperationsCompile(matchers: seq<RequestMatcher>, r: Request)
    requires forall matcher | matcher in matchers :: MatcherIsSupported(matcher)
    ensures SomeOperationMatches(MatcherOperations(matchers), r) <==>
      exists matcher | matcher in matchers :: Selects(matcher, r)
  {
    var ops := MatcherOperations(matchers);
    forall i | 0 <= i < |matchers|
      ensures OperationMatches(ops[i], r) <==> Selects(matchers[i], r)
    {
      assert matchers[i] in matchers;
      MatcherCompiles(matchers[i], r);
    }
    assert forall i | 0 <= i < |matchers| :: ops[i] in ops && matchers[i] in matchers;
  }

  /** The specified-paths rules, whatever conditions they carry. */
  ghost predicate AreRulesFor(rules: seq<Rule>, authRules: seq<RequestAuthRule>) {
    && |rules| == |authRules|
    && forall i | 0 <= i < |rules| :: rules[i].to == [MatcherOperation(authRules[i].matcher)]
  }

  lemma SpecifiedRulesNeedAMatch(rules: seq<Rule>, spec: AuthPolicySpec, r: Request)
    requires IsCompilable(spec) && AreRulesFor(rules, AuthRules(spec))
    requires SomeRuleMatches(rules, r)
    ensures SomeRuleSelects(spec, r)
  {
    SupportedMatchers(spec);
    var rule :| rule in rules && RuleMatches(rule, r);
    var i :| 0 <= i < |rules| && rules[i] == rule;
    assert AuthRules(spec)[i] in AuthRules(spec);
    MatcherCompiles(AuthRules(spec)[i].matcher, r);
  }

  lemma SpecifiedRuleAllows(scope: Scope, r: Request)
    requires IsCompilable(scope.spec)
    requires SomeRuleSelects(scope.spec, r)
    requires AllHold(BaseConditions(scope), r) && SelectingRulesHold(scope.spec, r)
    ensures SomeRuleMatches(SpecifiedPathsRules(AllowConditions(BaseConditions(scope)), AuthRules(scope.spec)), r)
  {
    SupportedMatchers(scope.spec);
    var rule :| rule in AuthRules(scope.spec) && Selects(rule.matcher, r);
    var i :| 0 <= i < |AuthRules(scope.spec)| && AuthRules(scope.spec)[i] == rule;
    MatcherCompiles(rule.matcher, r);
    AllowConditionsCompile(BaseConditions(scope), r);
    AllowConditionsCompile(WhenConditions(rule), r);
    var base := AllowConditions(BaseConditions(scope));
    var compiled := SpecifiedPathsRules(base, AuthRules(scope.spec))[i];
    assert MatcherOperation(rule.matcher) in compiled.to;
    assert RuleMatches(compiled, r);
  }

  /** The rule for everything that is not specified. */
  function ComplementRule(scope: Scope): Rule {
    UnspecifiedPathsRule(AllowConditions(BaseConditions(scope)), AllMatchers(scope.spec))
  }

  /** For what no matcher selects, the complement rule asks for the base conditions. */
  lemma ComplementRuleAllows(scope: Scope, r: Request)
    requires IsCompilable(scope.spec)
    requires r.path != "" || SomeMatcherIsPathless(scope.spec)
    requires !SomeRuleSelects(scope.spec, r) && !SomeIgnoreRuleSelects(scope.spec, r)
    ensures RuleMatches(ComplementRule(scope), r) <==> NoneFails(BaseConditions(scope), r)
  {
    SupportedMatchers(scope.spec);
    AllMatchersSelect(scope.spec, r);
    UnspecifiedCoversTheRest(AllMatchers(scope.spec), r);
    AllowConditionsCompile(BaseConditions(scope), r);
  }

  lemma ComplementRuleNeeds(scope: Scope, r: Request)
    requires IsCompilable(scope.spec)
    requires RuleMatches(ComplementRule(scope), r)
    ensures NoneFails(BaseConditions(scope), r) && (r.path != "" || SomeMatcherIsPathless(scope.spec))
  {
    SupportedMatchers(scope.spec);
    AllowConditionsCompile(BaseConditions(scope), r);
    if r.path == "" {
      UnspecifiedNeedsAPath(AllMatchers(scope.spec), r);
    }
  }

  // ----- the three policies together

  function AssembledRequireRules(scope: Scope, specified: seq<Rule>): seq<Rule> {
    var base := AllowConditions(BaseConditions(scope));
    if AllMatchers(scope.spec) == [] then [Rule([ALL_PATHS], base)]
    else [ComplementRule(scope)] + specified
  }

  function AssembledRequire(scope: Scope, name: string, specified: seq<Rule>): AuthorizationPolicy {
    AuthorizationPolicy(Names.RequirePolicy(name), ALLOW, scope.spec.matchLabels, AssembledRequireRules(scope, specified))
  }

  /** The installed policies, with freely chosen rules in place of the specified-paths rules. */
  function Assembled(scope: Scope, name: string, specified: seq<Rule>): seq<AuthorizationPolicy> {
    Installed(DesiredDeny(scope, Names.DenyPolicy(name)))
    + Installed(DesiredIgnore(scope, Names.IgnorePolicy(name)))
    + [AssembledRequire(scope, name, specified)]
  }

  lemma EitherApplies(a: seq<AuthorizationPolicy>, b: seq<AuthorizationPolicy>, action: Action, r: Request)
    ensures Applies(a + b, action, r) <==> Applies(a, action, r) || Applies(b, action, r)
  {
    assert forall policy :: policy in a + b <==> policy in a || policy in b;
  }

  lemma InstalledApplies(policy: Option<AuthorizationPolicy>, action: Action, r: Request)
    ensures Applies(Installed(policy), action, r) <==>
      policy.Some? && policy.value.action == action && SomeRuleMatches(policy.value.rules, r)
  {
    if policy.Some? {
      assert policy.value in Installed(policy);
    }
  }

  /** Which of the three policies apply. */
  lemma AssembledApplies(scope: Scope, name: string, specified: seq<Rule>, action: Action, r: Request)
    ensures var deny, ignore := DesiredDeny(scope, Names.DenyPolicy(name)), DesiredIgnore(scope, Names.IgnorePolicy(name));
      Applies(Assembled(scope, name, specified), action, r) <==>
        || (deny.Some? && deny.value.action == action && SomeRuleMatches(deny.value.rules, r))
        || (ignore.Some? && ignore.value.action == action && SomeRuleMatches(ignore.value.rules, r))
        || (action == ALLOW && SomeRuleMatches(AssembledRequireRules(scope, specified), r))
  {
    var deny, ignore := DesiredDeny(scope, Names.DenyPolicy(name)), DesiredIgnore(scope, Names.IgnorePolicy(name));
    var require_ := Some(AssembledRequire(scope, name, specified));
    EitherApplies(Installed(deny) + Installed(ignore), Installed(require_), action, r);
    EitherApplies(Installed(deny), Installed(ignore), action, r);
    InstalledApplies(deny, action, r);
    InstalledApplies(ignore, action, r);
    InstalledApplies(require_, action, r);
  }

  lemma DenialOfAssembled(scope: Scope, name: string, specified: seq<Rule>, r: Request)
    requires scope.spec.enabled && !scope.invalidConfig && IsCompilable(scope.spec)
    ensures Applies(Assembled(scope, name, specified), DENY, r) <==>
      exists rule | rule in AuthRules(scope.spec) :: RuleViolated(BaseConditions(scope), rule, r)
  {
    SupportedMatchers(scope.spec);
    DenyRulesCompile(BaseConditions(scope), AuthRules(scope.spec), r);
    AssembledApplies(scope, name, specified, DENY, r);
  }

  lemma AllowanceOfAssembled(scope: Scope, name: string, specified: seq<Rule>, r: Request)
    requires scope.spec.enabled && !scope.invalidConfig && IsCompilable(scope.spec)
    ensures Applies(Assembled(scope, name, specified), ALLOW, r) <==>
      if AllMatchers(scope.spec) == [] then r.path != "" && NoneFails(BaseConditions(scope), r)
      else
        || SomeIgnoreRuleSelects(scope.spec, r)
        || RuleMatches(ComplementRule(scope), r)
        || SomeRuleMatches(specified, r)
  {
    AssembledApplies(scope, name, specified, ALLOW, r);
    IgnorePolicyMatches(scope, name, r);
    if AllMatchers(scope.spec) == [] {
      BaseRuleMatches(scope, r);
    } else {
      FirstRuleOrRest(ComplementRule(scope), specified, r);
    }
  }

  lemma IgnorePolicyMatches(scope: Scope, name: string, r: Request)
    requires scope.spec.enabled && !scope.invalidConfig && IsCompilable(scope.spec)
    ensures var ignore := DesiredIgnore(scope, Names.IgnorePolicy(name));
      ignore.Some? && SomeRuleMatches(ignore.value.rules, r) <==> SomeIgnoreRuleSelects(scope.spec, r)
  {
    var matchers := IgnoreAuthRequestMatchers(scope.spec);
    SupportedMatchers(scope.spec);
    MatcherOperationsCompile(matchers, r);
    if matchers != [] {
      var rule := Rule(MatcherOperations(matchers), []);
      var ignore := DesiredIgnore(scope, Names.IgnorePolicy(name)).value;
      assert ignore.rules == [rule] && rule in ignore.rules;
    }
  }

  /** Without any matchers the one rule admits what satisfies the base conditions. */
  lemma BaseRuleMatches(scope: Scope, r: Request)
    ensures SomeRuleMatches([Rule([ALL_PATHS], AllowConditions(BaseConditions(scope)))], r) <==>
      r.path != "" && NoneFails(BaseConditions(scope), r)
  {
    var rule := Rule([ALL_PATHS], AllowConditions(BaseConditions(scope)));
    PresenceOfPath(r.path);
    AllowConditionsCompile(BaseConditions(scope), r);
    assert ALL_PATHS in [ALL_PATHS] && rule in [rule];
  }

  lemma FirstRuleOrRest(rule: Rule, rules: seq<Rule>, r: Request)
    ensures SomeRuleMatches([rule] + rules, r) <==> RuleMatches(rule, r) || SomeRuleMatches(rules, r)
  {
    assert forall other :: other in [rule] + rules <==> other == rule || other in rules;
  }

  lemma NoViolation(scope: Scope, r: Request)
    ensures !(exists rule | rule in AuthRules(scope.spec) :: RuleViolated(BaseConditions(scope), rule, r)) <==>
      (SomeRuleSelects(scope.spec, r) ==> AllHold(BaseConditions(scope), r) && SelectingRulesHold(scope.spec, r))
  {}

  lemma HasAllowPolicy(scope: Scope, name: string, specified: seq<Rule>)
    ensures !(forall policy | policy in Assembled(scope, name, specified) :: policy.action != ALLOW)
  {
    var policies := Assembled(scope, name, specified);
    assert policies[|policies| - 1] in policies;
  }

  /** Whatever the conditions of the specified-paths rules are, the installed policies accept only
      what they should: the deny policy enforces the auth rules on its own. */
  lemma SpecifiedConditionsNeverWidenAccess(scope: Scope, name: string, specified: seq<Rule>, r: Request)
    requires scope.spec.enabled && !scope.invalidConfig && IsCompilable(scope.spec)
    requires AreRulesFor(specified, AuthRules(scope.spec))
    ensures Accepts(Assembled(scope, name, specified), r) ==> Admits(scope, r)
  {
    DenialOfAssembled(scope, name, specified, r);
    AllowanceOfAssembled(scope, name, specified, r);
    NoViolation(scope, r);
    if Accepts(Assembled(scope, name, specified), r) {
      HasAllowPolicy(scope, name, specified);
      if SomeRuleMatches(specified, r) {
        SpecifiedRulesNeedAMatch(specified, scope.spec, r);
      }
      if AllMatchers(scope.spec) != [] && RuleMatches(ComplementRule(scope), r) {
        ComplementRuleNeeds(scope, r);
      }
    }
  }

  /** For every validated policy, whatever lists are empty: what the compiled policies accept. */
  lemma CompiledPoliciesAdmit(scope: Scope, name: string, r: Request)
    requires scope.spec.enabled && !scope.invalidConfig && IsCompilable(scope.spec)
    ensures Accepts(Compiled(scope, name), r) <==> Admits(scope, r)
  {
    var specified := SpecifiedPathsRules(AllowConditions(BaseConditions(scope)), AuthRules(scope.spec));
    assert Compiled(scope, name) == Assembled(scope, name, specified);
    SpecifiedConditionsNeverWidenAccess(scope, name, specified, r);
    if Admits(scope, r) {
      DenialOfAssembled(scope, name, specified, r);
      AllowanceOfAssembled(scope, name, specified, r);
      NoViolation(scope, r);
      if SomeRuleSelects(scope.spec, r) {
        SpecifiedRuleAllows(scope, r);
        assert AllMatchers(scope.spec) != [];
      } else if !SomeIgnoreRuleSelects(scope.spec, r) {
        ComplementRuleAllows(scope, r);
      }
    }
  }

  /** With nothing left empty, that is what the AuthPolicy permits. */
  lemma CompletePoliciesAdmitThePermitted(scope: Scope, r: Request)
    requires IsSupported(scope.spec)
    ensures Admits(scope, r) <==> r.path != "" && Permits(scope, r)
  {
    SupportedMatchers(scope.spec);
    assert forall matcher | matcher in AllMatchers(scope.spec) :: matcher.paths != [];
    assert forall condition | condition in BaseConditions(scope) :: condition.values != [];
    if r.path == "" {
      forall matcher | matcher in AllMatchers(scope.spec) ensures !Selects(matcher, r) {
        NothingCoversTheEmptyPath(matcher);
      }
      AllMatchersSelect(scope.spec, r);
    }
  }

  /** Main theorem: the compiled policies accept a request if and only if the AuthPolicy permits it
      (and the request has a path at all). */
  lemma CompiledPoliciesMeanThePolicy(scope: Scope, name: string, r: Request)
    requires scope.spec.enabled && !scope.invalidConfig && IsSupported(scope.spec)
    ensures Accepts(Compiled(scope, name), r) <==> r.path != "" && Permits(scope, r)
  {
    CompiledPoliciesAdmit(scope, name, r);
    CompletePoliciesAdmitThePermitted(scope, r);
  }
}
