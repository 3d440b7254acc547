/** Where the compiled policies stop meaning what the AuthPolicy says, exactly. */
module CompilerLimits {
  import opened PathLanguage
  import opened PathValidation
  import opened IstioPaths
  import opened Istio
  import opened Policy
  import opened Generators
  import opened PolicyCompiler
  import opened Wrappers
  import Names

  // ----- empty lists

  /** A compiled matcher selects exactly the matcher's requests if and only if the matcher names a
      path: Istio reads an empty path list as every path. */
  lemma MatcherIsExactIffItNamesAPath(matcher: RequestMatcher)
    requires PathsAreSupported(matcher) && MethodsAreAccepted(matcher)
    ensures (forall r: Request :: OperationMatches(MatcherOperation(matcher), r) <==> MatcherMatches(matcher, r))
      <==> matcher.paths != []
  {
    if matcher.paths == [] {
      var r := Request("/", if matcher.methods == [] then "GET" else matcher.methods[0], None);
      MethodsCompile(matcher.methods, r.method_);
      assert OperationMatches(MatcherOperation(matcher), r) && !MatcherMatches(matcher, r);
    } else {
      forall r: Request
        ensures OperationMatches(MatcherOperation(matcher), r) <==> MatcherMatches(matcher, r)
      {
        MatcherCompiles(matcher, r);
      }
    }
  }

  /** The allow form of a condition says what the condition says if and only if the condition lists a
      value; the deny form always says the opposite. */
  lemma ConditionIsExactIffItNamesAValue(condition: Condition)
    ensures (forall r: Request :: ConditionMatches(AllowCondition(condition), r) <==> ConditionHolds(condition, r))
      <==> condition.values != []
    ensures (forall r: Request :: ConditionMatches(DenyCondition(condition), r) <==> !ConditionHolds(condition, r))
  {
    if condition.values == [] {
      var r := Request("/", "GET", None);
      assert ConditionMatches(AllowCondition(condition), r) && !ConditionHolds(condition, r);
    } else {
      forall r: Request
        ensures ConditionMatches(AllowCondition(condition), r) <==> ConditionHolds(condition, r)
      {
        ConditionCompiles(condition, r);
      }
    }
  }

  // ----- what a token must satisfy for another condition to follow

  /** Whoever satisfies the assumed conditions satisfies the goals: either nobody satisfies the
      assumed ones, or each goal has a condition on the same claim with no other values. */
  predicate Entails(assumed: seq<Condition>, goals: seq<Condition>) {
    || !ConditionsAreComplete(assumed)
    || forall goal | goal in goals ::
         exists condition | condition in assumed ::
           condition.claim == goal.claim && forall value | value in condition.values :: value in goal.values
  }

  ghost predicate EveryTokenFollows(assumed: seq<Condition>, goals: seq<Condition>, p: string, m: string) {
    forall claims: Option<Claims> ::
      AllHold(assumed, Request(p, m, claims)) ==> AllHold(goals, Request(p, m, claims))
  }

  lemma ClaimKeysDiffer(a: string, b: string)
    requires ClaimKey(a) == ClaimKey(b)
    ensures a == b
  {
    var n := |"request.auth.claims["|;
    assert ClaimKey(a)[n..|ClaimKey(a)| - 1] == a && ClaimKey(b)[n..|ClaimKey(b)| - 1] == b;
  }

  /** A token that satisfies all the assumed conditions but not the goal. */
  lemma TokenWithout(assumed: seq<Condition>, goal: Condition, p: string, m: string) returns (r: Request)
    requires ConditionsAreComplete(assumed)
    requires forall condition | condition in assumed && condition.claim == goal.claim ::
      exists value | value in condition.values :: value !in goal.values
    ensures r == Request(p, m, r.claims) && AllHold(assumed, r) && !ConditionHolds(goal, r)
  {
    r := Request(p, m, Some((key, value) => !(key == ClaimKey(goal.claim) && value in goal.values)));
    forall condition | condition in assumed ensures ConditionHolds(condition, r) {
      if condition.claim == goal.claim {
        var value :| value in condition.values && value !in goal.values;
        assert r.claims.value(ClaimKey(condition.claim), value);
      } else {
        assert condition.values[0] in condition.values;
        if ClaimKey(condition.claim) == ClaimKey(goal.claim) {
          ClaimKeysDiffer(condition.claim, goal.claim);
        }
        assert r.claims.value(ClaimKey(condition.claim), condition.values[0]);
      }
    }
  }

  lemma EntailsIffEveryTokenFollows(assumed: seq<Condition>, goals: seq<Condition>, p: string, m: string)
    ensures EveryTokenFollows(assumed, goals, p, m) <==> Entails(assumed, goals)
  {
    if !Entails(assumed, goals) {
      var goal :| goal in goals && !exists condition | condition in assumed ::
        condition.claim == goal.claim && forall value | value in condition.values :: value in goal.values;
      var r := TokenWithout(assumed, goal, p, m);
      assert !AllHold(goals, Request(p, m, r.claims));
    } else {
      forall claims: Option<Claims> | AllHold(assumed, Request(p, m, claims))
        ensures AllHold(goals, Request(p, m, claims))
      {
        EntailedConditionsHold(assumed, goals, Request(p, m, claims));
      }
    }
  }

  lemma EntailedConditionsHold(assumed: seq<Condition>, goals: seq<Condition>, r: Request)
    requires Entails(assumed, goals) && AllHold(assumed, r)
    ensures AllHold(goals, r)
  {
    forall goal | goal in goals ensures ConditionHolds(goal, r) {
      var condition :| condition in assumed && condition.claim == goal.claim
                       && forall value | value in condition.values :: value in goal.values;
      assert ConditionHolds(condition, r);
      var value :| value in condition.values && r.claims.value(ClaimKey(condition.claim), value);
      assert value in goal.values;
    }
  }

  // ----- what selects a request although it names no path

  predicate IsPathlessFor(matcher: RequestMatcher, m: string) {
    matcher.paths == [] && (matcher.methods == [] || m in matcher.methods)
  }

  predicate SomePathlessRule(spec: AuthPolicySpec, m: string) {
    exists rule | rule in AuthRules(spec) :: IsPathlessFor(rule.matcher, m)
  }

  predicate SomePathlessIgnoreRule(spec: AuthPolicySpec, m: string) {
    exists matcher | matcher in IgnoreAuthRequestMatchers(spec) :: IsPathlessFor(matcher, m)
  }

  lemma SelectionIsMatchOrPathless(spec: AuthPolicySpec, r: Request)
    ensures SomeRuleSelects(spec, r) <==> SomeAuthRuleMatches(spec, r) || SomePathlessRule(spec, r.method_)
    ensures SomeIgnoreRuleSelects(spec, r) <==>
      SomeIgnoreRuleMatches(spec, r) || SomePathlessIgnoreRule(spec, r.method_)
  {
    assert forall matcher: RequestMatcher ::
      Selects(matcher, r) <==> MatcherMatches(matcher, r) || IsPathlessFor(matcher, r.method_);
  }

  /** The `when` conditions of the rules that match a path and method. */
  ghost function MatchingWhens(rules: seq<RequestAuthRule>, p: string, m: string): seq<Condition> {
    if rules == [] then []
    else
      (if MatcherMatches(rules[0].matcher, Request(p, m, None)) then WhenConditions(rules[0]) else [])
      + MatchingWhens(rules[1..], p, m)
  }

  /** The `when` conditions of the rules without paths that accept a method. */
  function PathlessWhens(rules: seq<RequestAuthRule>, m: string): seq<Condition> {
    if rules == [] then []
    else (if IsPathlessFor(rules[0].matcher, m) then WhenConditions(rules[0]) else []) + PathlessWhens(rules[1..], m)
  }

  lemma AllHoldConcat(a: seq<Condition>, b: seq<Condition>, r: Request)
    ensures AllHold(a + b, r) <==> AllHold(a, r) && AllHold(b, r)
  {
    assert forall condition :: condition in a + b <==> condition in a || condition in b;
  }

  lemma {:induction false} MatchingWhensHold(rules: seq<RequestAuthRule>, r: Request)
    ensures AllHold(MatchingWhens(rules, r.path, r.method_), r) <==>
      forall rule | rule in rules && MatcherMatches(rule.matcher, r) :: AllHold(WhenConditions(rule), r)
  {
    if rules != [] {
      MatchingWhensHold(rules[1..], r);
      assert rules == [rules[0]] + rules[1..];
      assert MatcherMatches(rules[0].matcher, Request(r.path, r.method_, None)) <==> MatcherMatches(rules[0].matcher, r);
      var first := if MatcherMatches(rules[0].matcher, r) then WhenConditions(rules[0]) else [];
      AllHoldConcat(first, MatchingWhens(rules[1..], r.path, r.method_), r);
    }
  }

  lemma {:induction false} PathlessWhensHold(rules: seq<RequestAuthRule>, r: Request)
    ensures AllHold(PathlessWhens(rules, r.method_), r) <==>
      forall rule | rule in rules && IsPathlessFor(rule.matcher, r.method_) :: AllHold(WhenConditions(rule), r)
  {
    if rules != [] {
      PathlessWhensHold(rules[1..], r);
      assert rules == [rules[0]] + rules[1..];
      var first := if IsPathlessFor(rules[0].matcher, r.method_) then WhenConditions(rules[0]) else [];
      AllHoldConcat(first, PathlessWhens(rules[1..], r.method_), r);
    }
  }

  /** Admission and permission, side by side. */
  lemma AdmitsByCases(scope: Scope, r: Request)
    requires r.path != ""
    ensures
      var spec, base := scope.spec, AllHold(BaseConditions(scope), r);
      var whens := AllHold(MatchingWhens(AuthRules(spec), r.path, r.method_), r);
      var pathless := AllHold(PathlessWhens(AuthRules(spec), r.method_), r);
      && (Admits(scope, r) <==>
            if SomeAuthRuleMatches(spec, r) || SomePathlessRule(spec, r.method_) then base && whens && pathless
            else
              || SomeIgnoreRuleMatches(spec, r) || SomePathlessIgnoreRule(spec, r.method_)
              || NoneFails(BaseConditions(scope), r))
      && (Permits(scope, r) <==>
            if SomeAuthRuleMatches(spec, r) then base && whens else SomeIgnoreRuleMatches(spec, r) || base)
  {
    SelectionIsMatchOrPathless(scope.spec, r);
    MatchingWhensHold(AuthRules(scope.spec), r);
    PathlessWhensHold(AuthRules(scope.spec), r);
    SelectingRulesHoldByCases(AuthRules(scope.spec), r);
  }

  lemma SelectingRulesHoldByCases(rules: seq<RequestAuthRule>, r: Request)
    ensures (forall rule | rule in rules && Selects(rule.matcher, r) :: AllHold(WhenConditions(rule), r)) <==>
      && (forall rule | rule in rules && MatcherMatches(rule.matcher, r) :: AllHold(WhenConditions(rule), r))
      && (forall rule | rule in rules && IsPathlessFor(rule.matcher, r.method_) :: AllHold(WhenConditions(rule), r))
  {
    assert forall matcher: RequestMatcher ::
      Selects(matcher, r) <==> MatcherMatches(matcher, r) || IsPathlessFor(matcher, r.method_);
  }

  // ----- exactly when the compiled policies decide as the AuthPolicy does

  /** On a path and method, for every token. A condition on the policy alone: which of its rules match,
      which of them lack a path, and how their conditions relate. */
  ghost predicate IsExactAt(scope: Scope, p: string, m: string) {
    var spec, base, r := scope.spec, BaseConditions(scope), Request(p, m, None);
    var pathless := PathlessWhens(AuthRules(spec), m);
    if SomeAuthRuleMatches(spec, r) then Entails(base + MatchingWhens(AuthRules(spec), p, m), pathless)
    else if SomePathlessRule(spec, m) then !SomeIgnoreRuleMatches(spec, r) && Entails(base, pathless)
    else SomeIgnoreRuleMatches(spec, r) || (!SomePathlessIgnoreRule(spec, m) && ConditionsAreComplete(base))
  }

  ghost predicate SameAt(scope: Scope, p: string, m: string, claims: Option<Claims>) {
    Admits(scope, Request(p, m, claims)) <==> Permits(scope, Request(p, m, claims))
  }

  ghost predicate AdmitsThePermitted(scope: Scope, p: string, m: string) {
    forall claims: Option<Claims> :: SameAt(scope, p, m, claims)
  }

  /** Without a token not even the issuer condition holds. */
  lemma BaseNeedsAToken(scope: Scope, p: string, m: string)
    ensures !AllHold(BaseConditions(scope), Request(p, m, None))
    ensures !NoneFails(BaseConditions(scope), Request(p, m, None))
  {
    assert BaseConditions(scope)[0] in BaseConditions(scope);
    assert !ConditionHolds(BaseConditions(scope)[0], Request(p, m, None));
  }

  /** A token with every value of every claim. */
  function FullToken(): Option<Claims> {
    Some((key, value) => true)
  }

  lemma FullTokenPasses(conditions: seq<Condition>, p: string, m: string)
    ensures NoneFails(conditions, Request(p, m, FullToken()))
    ensures AllHold(conditions, Request(p, m, FullToken())) <==> ConditionsAreComplete(conditions)
  {
    forall condition | condition in conditions
      ensures ConditionHolds(condition, Request(p, m, FullToken())) <==> condition.values != []
    {
      if condition.values != [] { assert condition.values[0] in condition.values; }
    }
  }

  lemma ExactWhereARuleMatches(scope: Scope, p: string, m: string)
    requires p != "" && SomeAuthRuleMatches(scope.spec, Request(p, m, None))
    ensures AdmitsThePermitted(scope, p, m) <==> IsExactAt(scope, p, m)
  {
    var rules, base := AuthRules(scope.spec), BaseConditions(scope);
    var assumed, pathless := base + MatchingWhens(rules, p, m), PathlessWhens(rules, m);
    EntailsIffEveryTokenFollows(assumed, pathless, p, m);
    forall claims: Option<Claims>
      ensures SameAt(scope, p, m, claims) <==>
        (AllHold(assumed, Request(p, m, claims)) ==> AllHold(pathless, Request(p, m, claims)))
    {
      var r := Request(p, m, claims);
      AdmitsByCases(scope, r);
      AllHoldConcat(base, MatchingWhens(rules, p, m), r);
      assert SomeAuthRuleMatches(scope.spec, r);
    }
  }

  lemma ExactWhereOnlyPathlessRulesSelect(scope: Scope, p: string, m: string)
    requires p != "" && !SomeAuthRuleMatches(scope.spec, Request(p, m, None)) && SomePathlessRule(scope.spec, m)
    ensures AdmitsThePermitted(scope, p, m) <==> IsExactAt(scope, p, m)
  {
    var rules, base := AuthRules(scope.spec), BaseConditions(scope);
    var pathless, ignored := PathlessWhens(rules, m), SomeIgnoreRuleMatches(scope.spec, Request(p, m, None));
    EntailsIffEveryTokenFollows(base, pathless, p, m);
    forall claims: Option<Claims>
      ensures SameAt(scope, p, m, claims) <==>
        ((AllHold(base, Request(p, m, claims)) && AllHold(pathless, Request(p, m, claims)))
          <==> (ignored || AllHold(base, Request(p, m, claims))))
    {
      var r := Request(p, m, claims);
      AdmitsByCases(scope, r);
      assert MatchingWhensAreNone(rules, p, m) by { NothingMatchesNoWhens(rules, p, m); }
      assert !SomeAuthRuleMatches(scope.spec, r) && (SomeIgnoreRuleMatches(scope.spec, r) <==> ignored);
    }
    BaseNeedsAToken(scope, p, m);
    if ignored {
      assert !SameAt(scope, p, m, None);
    }
  }

  ghost predicate MatchingWhensAreNone(rules: seq<RequestAuthRule>, p: string, m: string) {
    MatchingWhens(rules, p, m) == []
  }

  lemma {:induction false} NothingMatchesNoWhens(rules: seq<RequestAuthRule>, p: string, m: string)
    requires forall rule | rule in rules :: !MatcherMatches(rule.matcher, Request(p, m, None))
    ensures MatchingWhensAreNone(rules, p, m)
  {
    if rules != [] {
      assert rules[0] in rules;
      NothingMatchesNoWhens(rules[1..], p, m);
    }
  }

  lemma ExactWhereNoRuleSelects(scope: Scope, p: string, m: string)
    requires p != "" && !SomeAuthRuleMatches(scope.spec, Request(p, m, None)) && !SomePathlessRule(scope.spec, m)
    ensures AdmitsThePermitted(scope, p, m) <==> IsExactAt(scope, p, m)
  {
    var base := BaseConditions(scope);
    var ignored := SomeIgnoreRuleMatches(scope.spec, Request(p, m, None));
    var opens := SomePathlessIgnoreRule(scope.spec, m);
    forall claims: Option<Claims>
      ensures SameAt(scope, p, m, claims) <==>
        ((ignored || opens || NoneFails(base, Request(p, m, claims)))
          <==> (ignored || AllHold(base, Request(p, m, claims))))
    {
      var r := Request(p, m, claims);
      AdmitsByCases(scope, r);
      assert !SomeAuthRuleMatches(scope.spec, r) && (SomeIgnoreRuleMatches(scope.spec, r) <==> ignored);
    }
    BaseNeedsAToken(scope, p, m);
    FullTokenPasses(base, p, m);
    if !ignored && opens {
      assert !SameAt(scope, p, m, None);
    }
    if !ignored && !opens && !ConditionsAreComplete(base) {
      assert !SameAt(scope, p, m, FullToken());
    }
    if ConditionsAreComplete(base) {
      assert forall r: Request :: NoneFails(base, r) <==> AllHold(base, r);
    }
  }

  lemma AdmitsThePermittedIffExact(scope: Scope, p: string, m: string)
    requires p != ""
    ensures AdmitsThePermitted(scope, p, m) <==> IsExactAt(scope, p, m)
  {
    if SomeAuthRuleMatches(scope.spec, Request(p, m, None)) {
      ExactWhereARuleMatches(scope, p, m);
    } else if SomePathlessRule(scope.spec, m) {
      ExactWhereOnlyPathlessRulesSelect(scope, p, m);
    } else {
      ExactWhereNoRuleSelects(scope, p, m);
    }
  }

  /** For every validated policy, path and method: the compiled policies decide as the AuthPolicy
      does, whatever the token, if and only if the rules of the policy are exact there. */
  lemma PoliciesDecideExactlyIff(scope: Scope, name: string, p: string, m: string)
    requires scope.spec.enabled && !scope.invalidConfig && IsCompilable(scope.spec) && p != ""
    ensures (forall claims: Option<Claims> ::
        Accepts(Compiled(scope, name), Request(p, m, claims)) <==> Permits(scope, Request(p, m, claims)))
      <==> IsExactAt(scope, p, m)
  {
    forall claims: Option<Claims>
      ensures (Accepts(Compiled(scope, name), Request(p, m, claims)) <==> Permits(scope, Request(p, m, claims)))
        <==> SameAt(scope, p, m, claims)
    {
      CompiledPoliciesAdmit(scope, name, Request(p, m, claims));
    }
    AdmitsThePermittedIffExact(scope, p, m);
  }

  // ----- one kind of empty list at a time

  predicate AuthRulesNamePaths(spec: AuthPolicySpec) {
    forall rule | rule in AuthRules(spec) :: rule.matcher.paths != []
  }

  predicate IgnoreRulesNamePaths(spec: AuthPolicySpec) {
    forall matcher | matcher in IgnoreAuthRequestMatchers(spec) :: matcher.paths != []
  }

  predicate BaselineNamesValues(spec: AuthPolicySpec) {
    ConditionsAreComplete(spec.baselineAuth.GetOr([]))
  }

  lemma RulesWithPathsSelectAsTheyMatch(spec: AuthPolicySpec, r: Request)
    requires AuthRulesNamePaths(spec)
    ensures SomeRuleSelects(spec, r) <==> SomeAuthRuleMatches(spec, r)
    ensures SelectingRulesHold(spec, r) <==> MatchingAuthRulesHold(spec, r)
  {
    assert forall rule | rule in AuthRules(spec) :: Selects(rule.matcher, r) <==> MatcherMatches(rule.matcher, r);
  }

  lemma CompleteConditionsHold(scope: Scope, r: Request)
    requires BaselineNamesValues(scope.spec)
    ensures NoneFails(BaseConditions(scope), r) <==> AllHold(BaseConditions(scope), r)
  {
    assert forall condition | condition in BaseConditions(scope) :: condition.values != [];
  }

  /** An ignore rule without paths opens every path that no auth rule matches. */
  lemma PathlessIgnoreRulesOpen(scope: Scope, name: string, r: Request)
    requires scope.spec.enabled && !scope.invalidConfig && IsCompilable(scope.spec) && r.path != ""
    requires AuthRulesNamePaths(scope.spec) && BaselineNamesValues(scope.spec)
    ensures Accepts(Compiled(scope, name), r) <==>
      Permits(scope, r) || (!SomeAuthRuleMatches(scope.spec, r) && SomePathlessIgnoreRule(scope.spec, r.method_))
  {
    CompiledPoliciesAdmit(scope, name, r);
    SelectionIsMatchOrPathless(scope.spec, r);
    RulesWithPathsSelectAsTheyMatch(scope.spec, r);
    CompleteConditionsHold(scope, r);
  }

  /** An auth rule without paths demands its conditions on every path, and takes back what is ignored. */
  lemma PathlessAuthRulesDemand(scope: Scope, name: string, r: Request)
    requires scope.spec.enabled && !scope.invalidConfig && IsCompilable(scope.spec) && r.path != ""
    requires SomePathlessRule(scope.spec, r.method_)
    ensures Accepts(Compiled(scope, name), r) <==>
      && AllHold(BaseConditions(scope), r)
      && MatchingAuthRulesHold(scope.spec, r)
      && AllHold(PathlessWhens(AuthRules(scope.spec), r.method_), r)
  {
    CompiledPoliciesAdmit(scope, name, r);
    AdmitsByCases(scope, r);
    MatchingWhensHold(AuthRules(scope.spec), r);
  }

  /** A baseline claim without values is no constraint on the paths that no rule mentions. */
  lemma ValuelessBaselineClaimsDemandNothing(scope: Scope, name: string, r: Request)
    requires scope.spec.enabled && !scope.invalidConfig && IsCompilable(scope.spec) && r.path != ""
    requires AuthRulesNamePaths(scope.spec) && IgnoreRulesNamePaths(scope.spec)
    ensures Accepts(Compiled(scope, name), r) <==>
      Permits(scope, r) || (!SomeAuthRuleMatches(scope.spec, r) && NoneFails(BaseConditions(scope), r))
  {
    CompiledPoliciesAdmit(scope, name, r);
    RulesWithPathsSelectAsTheyMatch(scope.spec, r);
    IgnoreRulesWithPathsSelectAsTheyMatch(scope.spec, r);
  }

  lemma IgnoreRulesWithPathsSelectAsTheyMatch(spec: AuthPolicySpec, r: Request)
    requires IgnoreRulesNamePaths(spec)
    ensures SomeIgnoreRuleSelects(spec, r) <==> SomeIgnoreRuleMatches(spec, r)
  {
    assert forall matcher | matcher in IgnoreAuthRequestMatchers(spec) ::
      Selects(matcher, r) <==> MatcherMatches(matcher, r);
  }

  predicate HasSlash(p: string) {
    p != "" && p[0] == '/'
  }

  ghost predicate IsCoveredByRules(spec: AuthPolicySpec, p: string, m: string) {
    SomeAuthRuleMatches(spec, Request(p, m, None)) || SomeIgnoreRuleMatches(spec, Request(p, m, None))
  }

  /** Whatever path a rule without paths opens, another rule covers. */
  ghost predicate OpensOnlyCoveredPaths(spec: AuthPolicySpec) {
    forall p, m | HasSlash(p) && SomePathlessIgnoreRule(spec, m) :: IsCoveredByRules(spec, p, m)
  }

  ghost predicate DecidesRightly(scope: Scope, name: string, r: Request) {
    Accepts(Compiled(scope, name), r) <==> Permits(scope, r)
  }

  lemma UncoveredPathIsOpened(scope: Scope, name: string, p: string, m: string)
    requires scope.spec.enabled && !scope.invalidConfig && IsCompilable(scope.spec) && p != ""
    requires AuthRulesNamePaths(scope.spec) && BaselineNamesValues(scope.spec)
    requires SomePathlessIgnoreRule(scope.spec, m) && !IsCoveredByRules(scope.spec, p, m)
    ensures Accepts(Compiled(scope, name), Request(p, m, None)) && !Permits(scope, Request(p, m, None))
  {
    PathlessIgnoreRulesOpen(scope, name, Request(p, m, None));
    BaseNeedsAToken(scope, p, m);
  }

  lemma CoveredPathIsDecided(scope: Scope, name: string, r: Request)
    requires scope.spec.enabled && !scope.invalidConfig && IsCompilable(scope.spec) && r.path != ""
    requires AuthRulesNamePaths(scope.spec) && BaselineNamesValues(scope.spec)
    requires SomePathlessIgnoreRule(scope.spec, r.method_) ==> IsCoveredByRules(scope.spec, r.path, r.method_)
    ensures DecidesRightly(scope, name, r)
  {
    PathlessIgnoreRulesOpen(scope, name, r);
    MatchesWithoutToken(scope.spec, r);
  }

  lemma MatchesWithoutToken(spec: AuthPolicySpec, r: Request)
    ensures SomeAuthRuleMatches(spec, Request(r.path, r.method_, None)) <==> SomeAuthRuleMatches(spec, r)
    ensures SomeIgnoreRuleMatches(spec, Request(r.path, r.method_, None)) <==> SomeIgnoreRuleMatches(spec, r)
  {
    assert forall matcher: RequestMatcher ::
      MatcherMatches(matcher, Request(r.path, r.method_, None)) <==> MatcherMatches(matcher, r);
  }

  /** A policy whose ignore rules may lack paths is compiled exactly, on all request paths, if and only
      if those rules open nothing that another rule does not already cover. */
  lemma PathlessIgnoreRulesAreHarmlessIff(scope: Scope, name: string)
    requires scope.spec.enabled && !scope.invalidConfig && IsCompilable(scope.spec)
    requires AuthRulesNamePaths(scope.spec) && BaselineNamesValues(scope.spec)
    ensures (forall r: Request | HasSlash(r.path) :: DecidesRightly(scope, name, r))
      <==> OpensOnlyCoveredPaths(scope.spec)
  {
    if OpensOnlyCoveredPaths(scope.spec) {
      forall r: Request | HasSlash(r.path) ensures DecidesRightly(scope, name, r) {
        CoveredPathIsDecided(scope, name, r);
      }
    } else {
      var p, m :| HasSlash(p) && SomePathlessIgnoreRule(scope.spec, m) && !IsCoveredByRules(scope.spec, p, m);
      UncoveredPathIsOpened(scope, name, p, m);
      assert !DecidesRightly(scope, name, Request(p, m, None));
    }
  }

  // ----- policies that are not compiled exactly

  function BareSpec(): AuthPolicySpec {
    AuthPolicySpec(true, None, None, None, None, map[])
  }

  /** One ignore rule, without paths. */
  function OpeningSpec(): AuthPolicySpec {
    BareSpec().(ignoreAuthRules := Some([RequestMatcher([], [])]))
  }

  lemma IsCompilableByPaths(spec: AuthPolicySpec, paths: set<string>)
    requires forall path | MentionsPath(spec, path) :: path in paths
    requires forall path | path in paths :: IsValidPath(path) && !SlashAfterEmbeddedAny(path)
    requires AllMethodsAccepted(spec)
    ensures IsCompilable(spec)
  {}

  lemma OnlyPathlessIgnoreRule(spec: AuthPolicySpec, p: string, m: string)
    requires AuthRules(spec) == [] && IgnoreAuthRequestMatchers(spec) == [RequestMatcher([], [])]
    ensures IsCompilable(spec) && SomePathlessIgnoreRule(spec, m) && !IsCoveredByRules(spec, p, m)
  {
    assert IgnoreAuthRequestMatchers(spec)[0] in IgnoreAuthRequestMatchers(spec);
    IsCompilableByPaths(spec, {});
  }

  lemma OpeningSpecRules()
    ensures AuthRules(OpeningSpec()) == [] && IgnoreAuthRequestMatchers(OpeningSpec()) == [RequestMatcher([], [])]
  {}

  /** An ignore rule without paths opens `/admin` without a token. */
  lemma PathlessIgnoreRuleOpensAdmin(name: string)
    ensures var scope, r := Scope(OpeningSpec(), [], "issuer", false), Request("/admin", "GET", None);
      Accepts(Compiled(scope, name), r) && !Permits(scope, r)
  {
    OpeningSpecRules();
    OnlyPathlessIgnoreRule(OpeningSpec(), "/admin", "GET");
    UncoveredPathIsOpened(Scope(OpeningSpec(), [], "issuer", false), name, "/admin", "GET");
  }

  lemma BareSpecIsCompilable(baseline: Option<seq<Condition>>)
    ensures IsCompilable(BareSpec().(baselineAuth := baseline))
  {
    IsCompilableByPaths(BareSpec().(baselineAuth := baseline), {});
  }

  lemma IssuerTokenPasses(r: Request)
    requires r.claims.Some? && r.claims.value(ClaimKey("iss"), "issuer")
    ensures var scope := Scope(BareSpec().(baselineAuth := Some([Condition("role", [])])), [], "issuer", false);
      NoneFails(BaseConditions(scope), r) && !AllHold(BaseConditions(scope), r)
  {
    var scope := Scope(BareSpec().(baselineAuth := Some([Condition("role", [])])), [], "issuer", false);
    assert BaseConditions(scope) == [Condition("iss", ["issuer"]), Condition("role", [])];
    assert ConditionHolds(Condition("iss", ["issuer"]), r) by { assert "issuer" in ["issuer"]; }
    assert BaseConditions(scope)[1] in BaseConditions(scope) && !ConditionHolds(Condition("role", []), r);
  }

  /** A baseline claim without values lets any token of the issuer through to `/admin`. */
  lemma ValuelessBaselineClaimOpensAdmin(name: string)
    ensures var scope := Scope(BareSpec().(baselineAuth := Some([Condition("role", [])])), [], "issuer", false);
      var r := Request("/admin", "GET", Some((key, value) => key == ClaimKey("iss") && value == "issuer"));
      Accepts(Compiled(scope, name), r) && !Permits(scope, r)
  {
    var scope := Scope(BareSpec().(baselineAuth := Some([Condition("role", [])])), [], "issuer", false);
    var r := Request("/admin", "GET", Some((key, value) => key == ClaimKey("iss") && value == "issuer"));
    BareSpecIsCompilable(Some([Condition("role", [])]));
    IssuerTokenPasses(r);
    ValuelessBaselineClaimsDemandNothing(scope, name, r);
  }

  /** A rule without paths next to an ignored path. */
  function ClosingSpec(): AuthPolicySpec {
    BareSpec().(
      authRules := Some([RequestAuthRule(RequestMatcher([], []), None, None)]),
      ignoreAuthRules := Some([RequestMatcher(["/public"], [])]))
  }

  lemma ClosingSpecMentions(path: string)
    ensures MentionsPath(ClosingSpec(), path) <==> path == "/public"
    ensures forall rule | rule in AuthRules(ClosingSpec()) :: rule.matcher.paths == []
    ensures RequestMatcher(["/public"], []) in IgnoreAuthRequestMatchers(ClosingSpec())
    ensures AllMethodsAccepted(ClosingSpec()) && SomePathlessRule(ClosingSpec(), "GET")
  {
    var rules, matchers := AuthRules(ClosingSpec()), IgnoreAuthRequestMatchers(ClosingSpec());
    assert rules == [RequestAuthRule(RequestMatcher([], []), None, None)] && rules[0] in rules;
    assert matchers == [RequestMatcher(["/public"], [])] && matchers[0] in matchers;
  }

  lemma ClosingSpecIsCompilable()
    ensures IsCompilable(ClosingSpec())
  {
    PublicPath();
    forall path | MentionsPath(ClosingSpec(), path) ensures path in {"/public"} {
      ClosingSpecMentions(path);
    }
    ClosingSpecMentions("");
    IsCompilableByPaths(ClosingSpec(), {"/public"});
  }

  lemma RejectedWithoutToken(scope: Scope, name: string, p: string, m: string)
    requires scope.spec.enabled && !scope.invalidConfig && IsCompilable(scope.spec) && p != ""
    requires SomePathlessRule(scope.spec, m)
    ensures !Accepts(Compiled(scope, name), Request(p, m, None))
  {
    PathlessAuthRulesDemand(scope, name, Request(p, m, None));
    BaseNeedsAToken(scope, p, m);
  }

  lemma IgnoredPathIsPermitted(scope: Scope, path: string, r: Request)
    requires RequestMatcher([path], []) in IgnoreAuthRequestMatchers(scope.spec) && InLanguage(path, r.path)
    requires forall rule | rule in AuthRules(scope.spec) :: rule.matcher.paths == []
    ensures Permits(scope, r)
  {
    var matcher := RequestMatcher([path], []);
    assert path in matcher.paths;
    assert MatcherMatches(matcher, r);
  }

  /** An auth rule without paths closes what the policy ignores. */
  lemma PathlessAuthRuleClosesIgnoredPath(name: string)
    ensures var scope, r := Scope(ClosingSpec(), [], "issuer", false), Request("/public", "GET", None);
      Permits(scope, r) && !Accepts(Compiled(scope, name), r)
  {
    var scope := Scope(ClosingSpec(), [], "issuer", false);
    ClosingSpecIsCompilable();
    ClosingSpecMentions("/public");
    RejectedWithoutToken(scope, name, "/public", "GET");
    PublicPath();
    IgnoredPathIsPermitted(scope, "/public", Request("/public", "GET", None));
  }

  lemma PublicPath()
    ensures IsValidPath("/public") && !SlashAfterEmbeddedAny("/public") && InLanguage("/public", "/public")
  {
    PlainAccepted("/public");
    PlainPatternLanguage("/public", "/public");
    PlainTextEnd("/public", "");
    assert "/public" + "" == "/public";
  }

  // ----- invalid policies

  /** An invalid policy is compiled to policies that reject every request. */
  lemma InvalidPolicyRejectsEverything(scope: Scope, name: string, r: Request)
    requires scope.spec.enabled && scope.invalidConfig && r.path != ""
    ensures !Accepts(Compiled(scope, name), r)
  {
    var deny := DesiredDeny(scope, Names.DenyPolicy(name)).value;
    assert Compiled(scope, name) == [deny];
    assert deny in Compiled(scope, name);
    DenyAllMatches(deny.rules, r);
  }

  lemma DenyAllMatches(rules: seq<Rule>, r: Request)
    requires rules == [Rule([ALL_PATHS], [])] && r.path != ""
    ensures SomeRuleMatches(rules, r)
  {
    PresenceOfPath(r.path);
    assert OperationMatches(ALL_PATHS, r) && ALL_PATHS in rules[0].to;
    assert RuleMatches(rules[0], r) && rules[0] in rules;
  }

  // ----- path syntax

  ghost predicate RuleUsesIstioPaths(rule: Rule) {
    forall op | op in rule.to :: forall path | path in op.paths + op.notPaths :: IsIstioPath(path)
  }

  lemma {:induction false} MentionedPathsAre(matchers: seq<RequestMatcher>, pattern: string)
    ensures pattern in MentionedPaths(matchers) <==>
      exists matcher | matcher in matchers :: pattern in TransformPaths(matcher.paths)
  {
    if matchers != [] {
      var init, last := matchers[..|matchers| - 1], matchers[|matchers| - 1];
      assert matchers == init + [last];
      MentionedPathsAre(init, pattern);
    }
  }

  lemma MatcherPathsAreMentioned(spec: AuthPolicySpec, matcher: RequestMatcher)
    requires matcher in AllMatchers(spec)
    ensures forall path | path in matcher.paths :: MentionsPath(spec, path)
  {
    if matcher in RequestMatchers(AuthRules(spec)) {
      var i :| 0 <= i < |AuthRules(spec)| && RequestMatchers(AuthRules(spec))[i] == matcher;
      assert AuthRules(spec)[i] in AuthRules(spec);
    }
  }

  lemma MentionedByMatcher(spec: AuthPolicySpec, path: string) returns (matcher: RequestMatcher)
    requires MentionsPath(spec, path)
    ensures matcher in AllMatchers(spec) && path in matcher.paths
  {
    if rule :| rule in AuthRules(spec) && path in rule.matcher.paths {
      var i :| 0 <= i < |AuthRules(spec)| && AuthRules(spec)[i] == rule;
      matcher := RequestMatchers(AuthRules(spec))[i];
    } else {
      matcher :| matcher in IgnoreAuthRequestMatchers(spec) && path in matcher.paths;
    }
  }

  /** The complement rule is written in Istio's path syntax if and only if no path of the policy
      has slashes after a `prefix{**}` segment. */
  lemma ComplementRuleSyntax(spec: AuthPolicySpec, base: seq<IstioCondition>)
    requires AllPathsValid(spec)
    ensures RuleUsesIstioPaths(UnspecifiedPathsRule(base, AllMatchers(spec))) <==> PathsAreIstioPaths(spec)
  {
    var matchers := AllMatchers(spec);
    var rule := UnspecifiedPathsRule(base, matchers);
    if RuleUsesIstioPaths(rule) {
      forall path | MentionsPath(spec, path) ensures !SlashAfterEmbeddedAny(path) {
        var matcher := MentionedByMatcher(spec, path);
        var i :| 0 <= i < |matcher.paths| && matcher.paths[i] == path;
        var pattern := TransformPaths(matcher.paths)[i];
        MentionedPathsAre(matchers, pattern);
        var op := Operation(["*"], MentionedPaths(matchers), [], []);
        assert rule.to[|matchers|] == op;
        assert pattern in op.paths + op.notPaths;
        RewriteIsIstioSyntax(path);
      }
    }
    if PathsAreIstioPaths(spec) {
      forall matcher, pattern | matcher in matchers && pattern in TransformPaths(matcher.paths)
        ensures IsIstioPath(pattern)
      {
        var i :| 0 <= i < |matcher.paths| && TransformPaths(matcher.paths)[i] == pattern;
        MatcherPathsAreMentioned(spec, matcher);
        assert matcher.paths[i] in matcher.paths;
        RewriteIsIstioSyntax(matcher.paths[i]);
      }
      forall op, pattern | op in rule.to && pattern in op.paths + op.notPaths ensures IsIstioPath(pattern) {
        var i :| 0 <= i < |rule.to| && rule.to[i] == op;
        assert !ContainsPathTemplate("*");
        MentionedPathsAre(matchers, pattern);
        if i < |matchers| {
          assert matchers[i] in matchers;
        }
      }
    }
  }
}
