/** The allow rules as they come out of a loop that appends to a shared base slice, and what the
    sharing does to the decisions of the compiled policies. */
module SharedConditions {
  import opened PathLanguage
  import opened PathGrammar
  import opened PathValidation
  import opened IstioPaths
  import opened Istio
  import opened Policy
  import opened Generators
  import opened PolicyCompiler
  import opened SliceSharing
  import opened Wrappers

  function WhenLists(rules: seq<RequestAuthRule>): (whens: seq<seq<IstioCondition>>)
    ensures |whens| == |rules|
    ensures forall i | 0 <= i < |rules| :: whens[i] == AllowConditions(WhenConditions(rules[i]))
  {
    seq(|rules|, i requires 0 <= i < |rules| => AllowConditions(WhenConditions(rules[i])))
  }

  /** The specified-paths rules when the base conditions have room for `room` more in their array. */
  function SharedRules(scope: Scope, room: nat): (rules: seq<Rule>)
    ensures |rules| == |AuthRules(scope.spec)|
  {
    var authRules := AuthRules(scope.spec);
    seq(|authRules|, i requires 0 <= i < |authRules| =>
      Rule([MatcherOperation(authRules[i].matcher)],
           AllowConditions(BaseConditions(scope)) + FinalTail(WhenLists(authRules), i, room)))
  }

  /** Builds the rules from a base slice of any capacity, in one loop, and reads them afterwards. */
  method SpecifiedPathsAllowRules(scope: Scope, base: Slice<IstioCondition>) returns (rules: seq<Rule>)
    requires IsSlice(base) && Items(base) == AllowConditions(BaseConditions(scope))
    modifies base.buffer
    ensures rules == SharedRules(scope, base.buffer.Length - base.len)
  {
    var authRules := AuthRules(scope.spec);
    var lists := KeptLists(base, WhenLists(authRules));
    rules := [];
    for i := 0 to |authRules|
      invariant rules == SharedRules(scope, base.buffer.Length - base.len)[..i]
    {
      rules := rules + [Rule([MatcherOperation(authRules[i].matcher)], lists[i].buffer[..lists[i].len])];
    }
  }

  // ----- what the policies with these rules accept

  function WhenConditionLists(rules: seq<RequestAuthRule>): (lists: seq<seq<Condition>>)
    ensures |lists| == |rules|
    ensures forall i | 0 <= i < |rules| :: lists[i] == WhenConditions(rules[i])
  {
    seq(|rules|, i requires 0 <= i < |rules| => WhenConditions(rules[i]))
  }

  /** The conditions that a rule has behind the base conditions when the loop is over. */
  function SharedWhens(rules: seq<RequestAuthRule>, i: nat, room: nat): seq<Condition>
    requires i < |rules|
  {
    FinalTail(WhenConditionLists(rules), i, room)
  }

  lemma {:induction false} LastWrittenCompiles(lists: seq<seq<Condition>>, whens: seq<seq<IstioCondition>>, t: nat)
    requires |lists| == |whens| && forall i | 0 <= i < |lists| :: whens[i] == AllowConditions(lists[i])
    requires Wrote(lists, t)
    ensures Wrote(whens, t) && LastWritten(whens, t) == AllowCondition(LastWritten(lists, t))
  {
    var n := |lists| - 1;
    var i :| 0 <= i < |lists| && t < |lists[i]|;
    assert t < |whens[i]|;
    if t >= |lists[n]| {
      assert lists[..n][i] == lists[i];
      LastWrittenCompiles(lists[..n], whens[..n], t);
    }
  }

  lemma SharedWhensCompile(rules: seq<RequestAuthRule>, i: nat, room: nat)
    requires i < |rules|
    ensures FinalTail(WhenLists(rules), i, room) == AllowConditions(SharedWhens(rules, i, room))
  {
    var lists := WhenConditionLists(rules);
    if |lists[i]| <= room {
      forall t: nat | t < |lists[i]|
        ensures FinalTail(WhenLists(rules), i, room)[t] == AllowCondition(SharedWhens(rules, i, room)[t])
      {
        LastWrittenCompiles(lists, WhenLists(rules), t);
      }
    }
  }

  lemma AllConditionsMatchConcat(a: seq<IstioCondition>, b: seq<IstioCondition>, r: Request)
    ensures AllConditionsMatch(a + b, r) <==> AllConditionsMatch(a, r) && AllConditionsMatch(b, r)
  {
    assert forall condition :: condition in a + b <==> condition in a || condition in b;
  }

  lemma SharedRuleMatches(scope: Scope, i: nat, room: nat, r: Request)
    requires IsCompilable(scope.spec) && i < |AuthRules(scope.spec)|
    ensures RuleMatches(SharedRules(scope, room)[i], r) <==>
      && Selects(AuthRules(scope.spec)[i].matcher, r)
      && NoneFails(BaseConditions(scope), r)
      && NoneFails(SharedWhens(AuthRules(scope.spec), i, room), r)
  {
    var rule, whens := AuthRules(scope.spec)[i], SharedWhens(AuthRules(scope.spec), i, room);
    SupportedMatchers(scope.spec);
    MatcherCompiles(rule.matcher, r);
    SharedWhensCompile(AuthRules(scope.spec), i, room);
    AllConditionsMatchConcat(AllowConditions(BaseConditions(scope)), AllowConditions(whens), r);
    AllowConditionsCompile(BaseConditions(scope), r);
    AllowConditionsCompile(whens, r);
    assert MatcherOperation(rule.matcher) in [MatcherOperation(rule.matcher)];
  }

  /** Some rule that selects the request still lets it through with the conditions it ends up with. */
  ghost predicate SomeSharedRuleAdmits(rules: seq<RequestAuthRule>, room: nat, r: Request) {
    exists i: nat | i < |rules| :: Selects(rules[i].matcher, r) && NoneFails(SharedWhens(rules, i, room), r)
  }

  lemma SomeSharedRuleMatches(scope: Scope, room: nat, r: Request)
    requires IsCompilable(scope.spec)
    ensures SomeRuleMatches(SharedRules(scope, room), r) <==>
      NoneFails(BaseConditions(scope), r) && SomeSharedRuleAdmits(AuthRules(scope.spec), room, r)
  {
    var rules := SharedRules(scope, room);
    forall i | 0 <= i < |rules|
      ensures RuleMatches(rules[i], r) <==>
        && NoneFails(BaseConditions(scope), r)
        && Selects(AuthRules(scope.spec)[i].matcher, r)
        && NoneFails(SharedWhens(AuthRules(scope.spec), i, room), r)
    {
      SharedRuleMatches(scope, i, room, r);
    }
    assert forall i | 0 <= i < |rules| :: rules[i] in rules;
  }

  /** Whether a matcher covers a method; without methods, it covers these nine. */
  predicate CoversMethod(matcher: RequestMatcher, m: string) {
    || m in matcher.methods
    || (matcher.methods == []
        && (m == "GET" || m == "POST" || m == "PUT" || m == "PATCH" || m == "DELETE" || m == "HEAD" || m == "OPTIONS"
            || m == "TRACE" || m == "CONNECT"))
  }

  lemma CoveredMethodsAre(matcher: RequestMatcher, m: string)
    ensures m in CoveredMethods(matcher) <==> CoversMethod(matcher, m)
  {
    if matcher.methods == [] {
      var all := ACCEPTED_HTTP_METHODS;
      assert all[0] == "GET" && all[1] == "POST" && all[2] == "PUT" && all[3] == "PATCH" && all[4] == "DELETE";
      assert all[5] == "HEAD" && all[6] == "OPTIONS" && all[7] == "TRACE" && all[8] == "CONNECT";
    }
  }

  /** What the complement rule reaches: a matcher's paths with a method that the matcher does not cover,
      and every path that no matcher covers. */
  ghost predicate ComplementReaches(spec: AuthPolicySpec, p: string, m: string) {
    || (exists matcher | matcher in AllMatchers(spec) ::
          (matcher.paths == [] || SomePathCovers(matcher.paths, p)) && !CoversMethod(matcher, m))
    || (p != "" && forall matcher | matcher in AllMatchers(spec) :: !SomePathCovers(matcher.paths, p))
  }

  lemma OtherMethodsOperationsCompile(matchers: seq<RequestMatcher>, r: Request)
    requires forall matcher | matcher in matchers :: MatcherIsSupported(matcher)
    ensures SomeOperationMatches(OtherMethodsOperations(matchers), r) <==>
      exists matcher | matcher in matchers ::
        (matcher.paths == [] || SomePathCovers(matcher.paths, r.path)) && !CoversMethod(matcher, r.method_)
  {
    var ops := OtherMethodsOperations(matchers);
    forall i | 0 <= i < |matchers|
      ensures OperationMatches(ops[i], r) <==>
        (matchers[i].paths == [] || SomePathCovers(matchers[i].paths, r.path))
        && !CoversMethod(matchers[i], r.method_)
    {
      assert matchers[i] in matchers;
      CoveredMethodsAre(matchers[i], r.method_);
      OtherMethodsCompile(matchers[i], r);
    }
    assert forall i | 0 <= i < |matchers| :: ops[i] in ops && matchers[i] in matchers;
  }

  lemma OtherPathsOperationCompiles(matchers: seq<RequestMatcher>, r: Request)
    requires forall matcher | matcher in matchers :: MatcherIsSupported(matcher)
    ensures OperationMatches(Operation(["*"], MentionedPaths(matchers), [], []), r) <==>
      r.path != "" && forall matcher | matcher in matchers :: !SomePathCovers(matcher.paths, r.path)
  {
    MentionedPathsCompile(matchers, r.path);
    PresenceOfPath(r.path);
  }

  lemma SomeOperationConcat(ops: seq<Operation>, op: Operation, r: Request)
    ensures SomeOperationMatches(ops + [op], r) <==> SomeOperationMatches(ops, r) || OperationMatches(op, r)
  {
    assert forall other :: other in ops + [op] <==> other in ops || other == op;
  }

  lemma ComplementRuleMatches(scope: Scope, r: Request)
    requires IsCompilable(scope.spec)
    ensures RuleMatches(ComplementRule(scope), r) <==>
      NoneFails(BaseConditions(scope), r) && ComplementReaches(scope.spec, r.path, r.method_)
  {
    var matchers := AllMatchers(scope.spec);
    SupportedMatchers(scope.spec);
    OtherMethodsOperationsCompile(matchers, r);
    OtherPathsOperationCompiles(matchers, r);
    SomeOperationConcat(OtherMethodsOperations(matchers), Operation(["*"], MentionedPaths(matchers), [], []), r);
    AllowConditionsCompile(BaseConditions(scope), r);
  }

  /** For every validated policy and every capacity: what the policies with these rules accept. The
      overwritten conditions can take something away only where an auth rule selects the request, no
      ignore rule and not the complement rule accept it, and no selecting rule lets it through. */
  lemma SharedPoliciesAdmit(scope: Scope, name: string, room: nat, r: Request)
    requires scope.spec.enabled && !scope.invalidConfig && IsCompilable(scope.spec)
    ensures Accepts(Assembled(scope, name, SharedRules(scope, room)), r) <==>
      && Admits(scope, r)
      && (SomeRuleSelects(scope.spec, r) ==>
            || SomeIgnoreRuleSelects(scope.spec, r)
            || ComplementReaches(scope.spec, r.path, r.method_)
            || SomeSharedRuleAdmits(AuthRules(scope.spec), room, r))
  {
    var specified := SharedRules(scope, room);
    SpecifiedConditionsNeverWidenAccess(scope, name, specified, r);
    DenialOfAssembled(scope, name, specified, r);
    AllowanceOfAssembled(scope, name, specified, r);
    NoViolation(scope, r);
    HasAllowPolicy(scope, name, specified);
    SomeSharedRuleMatches(scope, room, r);
    ComplementRuleMatches(scope, r);
    if Admits(scope, r) && !SomeRuleSelects(scope.spec, r) && !SomeIgnoreRuleSelects(scope.spec, r) {
      ComplementRuleAllows(scope, r);
    }
    if SomeRuleSelects(scope.spec, r) {
      assert AllMatchers(scope.spec) != [];
    }
  }

  /** Whatever the capacity of the base slice, the policies accept only what the AuthPolicy permits;
      without spare capacity they accept exactly that. */
  lemma SharingNeverWidensAccess(scope: Scope, name: string, room: nat, r: Request)
    requires scope.spec.enabled && !scope.invalidConfig && IsSupported(scope.spec)
    ensures Accepts(Assembled(scope, name, SharedRules(scope, room)), r) ==> r.path != "" && Permits(scope, r)
    ensures room == 0 ==>
      (Accepts(Assembled(scope, name, SharedRules(scope, room)), r) <==> r.path != "" && Permits(scope, r))
  {
    SpecifiedConditionsNeverWidenAccess(scope, name, SharedRules(scope, room), r);
    CompletePoliciesAdmitThePermitted(scope, r);
    if room == 0 {
      NoSpareCapacityNoSharing(WhenConditionLists(AuthRules(scope.spec)));
      ListsKeepTheirOwnIffLastWritersAgree(WhenConditionLists(AuthRules(scope.spec)), room);
      UnsharedListsAreExact(scope, name, room, r);
    }
  }

  // ----- when overwriting does no harm at all

  /** Whoever satisfies the one condition satisfies the other. */
  predicate IsAtLeastAsLoose(a: Condition, b: Condition) {
    a.claim == b.claim && forall value | value in b.values :: value in a.values
  }

  /** Whatever is overwritten is overwritten, in the end, with a condition at least as loose. */
  predicate LastWritersLoosen(whens: seq<seq<Condition>>, room: nat) {
    forall i, j | 0 <= i < j < |whens| && |whens[i]| <= room ::
      forall t | 0 <= t < |whens[i]| && IsLastWriter(whens, j, t) :: IsAtLeastAsLoose(whens[j][t], whens[i][t])
  }

  lemma LoosenedWhensHold(rules: seq<RequestAuthRule>, i: nat, room: nat, r: Request)
    requires i < |rules| && LastWritersLoosen(WhenConditionLists(rules), room)
    requires AllHold(WhenConditions(rules[i]), r)
    ensures NoneFails(SharedWhens(rules, i, room), r)
  {
    var lists := WhenConditionLists(rules);
    forall t: nat | t < |lists[i]| ensures ConditionHolds(SharedWhens(rules, i, room)[t], r) {
      assert lists[i][t] in lists[i];
      assert ConditionHolds(lists[i][t], r);
      var k := LastWrittenByLastWriter(lists, i, t);
      assert |lists[i]| <= room ==> IsAtLeastAsLoose(lists[k][t], lists[i][t]);
    }
  }

  /** If whatever is overwritten is overwritten with a condition at least as loose, the policies accept
      exactly what is permitted, on every request. */
  lemma LoosenedListsAreExact(scope: Scope, name: string, room: nat, r: Request)
    requires scope.spec.enabled && !scope.invalidConfig && IsSupported(scope.spec)
    requires LastWritersLoosen(WhenConditionLists(AuthRules(scope.spec)), room)
    ensures Accepts(Assembled(scope, name, SharedRules(scope, room)), r) <==> r.path != "" && Permits(scope, r)
  {
    var rules := AuthRules(scope.spec);
    SharedPoliciesAdmit(scope, name, room, r);
    CompletePoliciesAdmitThePermitted(scope, r);
    if Admits(scope, r) && SomeRuleSelects(scope.spec, r) {
      var rule :| rule in rules && Selects(rule.matcher, r);
      var i: nat :| i < |rules| && rules[i] == rule;
      LoosenedWhensHold(rules, i, room, r);
    }
  }

  /** In particular if it is overwritten with the same condition. */
  lemma UnsharedListsAreExact(scope: Scope, name: string, room: nat, r: Request)
    requires scope.spec.enabled && !scope.invalidConfig && IsSupported(scope.spec)
    requires LastWritersAgree(WhenConditionLists(AuthRules(scope.spec)), room)
    ensures Accepts(Assembled(scope, name, SharedRules(scope, room)), r) <==> r.path != "" && Permits(scope, r)
  {
    LoosenedListsAreExact(scope, name, room, r);
  }

  // ----- a policy whose rules overwrite each other's conditions

  const BASELINE := [
    Condition("acr", ["high"]), Condition("amr", ["otp"]), Condition("azp", ["app"]), Condition("scope", ["read"])]

  /** With the issuer there are five base conditions, for which Go allocates room for six. The second
      rule admits the given roles. */
  function TwoRulePolicy(roles: seq<string>): AuthPolicySpec {
    AuthPolicySpec(true, None, Some(BASELINE),
      Some([RequestAuthRule(RequestMatcher(["/a"], []), Some([Condition("role", ["one"])]), None),
            RequestAuthRule(RequestMatcher(["/b"], []), Some([Condition("role", roles)]), None)]),
      None, map[])
  }

  lemma ShortPath(c: char, p: string)
    requires IsPchar(c)
    ensures IsValidPath(['/', c]) && (InLanguage(['/', c], p) <==> p == ['/', c])
  {
    assert IsPlainText(['/', c]);
    PlainAccepted(['/', c]);
    PlainPatternLanguage(['/', c], p);
  }

  lemma TwoRulePathsAreSupported(roles: seq<string>, path: string)
    requires MentionsPath(TwoRulePolicy(roles), path)
    ensures path == "/a" || path == "/b"
    ensures IsValidPath(path) && !SlashAfterEmbeddedAny(path)
  {
    ShortPath('a', "");
    ShortPath('b', "");
    assert "/a" == ['/', 'a'] && "/b" == ['/', 'b'];
  }

  lemma TwoRulePolicyIsSupported(roles: seq<string>)
    requires roles != []
    ensures IsSupported(TwoRulePolicy(roles))
  {
    forall path | MentionsPath(TwoRulePolicy(roles), path)
      ensures IsValidPath(path) && !SlashAfterEmbeddedAny(path)
    {
      TwoRulePathsAreSupported(roles, path);
    }
  }

  lemma TwoRuleLists(roles: seq<string>)
    ensures WhenConditionLists(AuthRules(TwoRulePolicy(roles)))
         == [[Condition("role", ["one"])], [Condition("role", roles)]]
  {}

  lemma LooserLists(lists: seq<seq<Condition>>)
    requires lists == [[Condition("role", ["one"])], [Condition("role", ["one", "two"])]]
    ensures LastWritersLoosen(lists, 1) && !LastWritersAgree(lists, 1)
  {
    var one, either := ["one"], ["one", "two"];
    assert |one| != |either| && either[0] == "one";
    assert IsLastWriter(lists, 1, 0) && lists[1][0] != lists[0][0];
  }

  /** With one spare position, the first rule of the policy ends up admitting the second rule's roles,
      and still every request is decided rightly: agreement of the last writers is not necessary. */
  lemma LooserLastWriterDoesNoHarm(name: string, r: Request)
    ensures var scope := Scope(TwoRulePolicy(["one", "two"]), [], "issuer", false);
      && !LastWritersAgree(WhenConditionLists(AuthRules(scope.spec)), 1)
      && (Accepts(Assembled(scope, name, SharedRules(scope, 1)), r) <==> r.path != "" && Permits(scope, r))
  {
    TwoRulePolicyIsSupported(["one", "two"]);
    TwoRuleLists(["one", "two"]);
    LooserLists(WhenConditionLists(AuthRules(TwoRulePolicy(["one", "two"]))));
    LoosenedListsAreExact(Scope(TwoRulePolicy(["one", "two"]), [], "issuer", false), name, 1, r);
  }

  /** With one spare position, the first rule of the policy ends up with the second rule's
      condition, and a permitted request is rejected. */
  lemma SpareCapacityCanRejectAPermittedRequest(name: string) returns (scope: Scope, r: Request)
    ensures scope.spec.enabled && !scope.invalidConfig && IsSupported(scope.spec)
    ensures Permits(scope, r)
    ensures !Accepts(Assembled(scope, name, SharedRules(scope, 1)), r)
  {
    scope := Scope(TwoRulePolicy(["two"]), [], "issuer", false);
    r := Request("/a", "GET", Some((key, value) => value != "two"));
    TwoRulePolicyIsSupported(["two"]);
    assert "/a" == ['/', 'a'] && "/b" == ['/', 'b'];
    ShortPath('a', r.path);
    ShortPath('b', r.path);
    TwoRuleRequestIsPermitted(scope, r);
    TwoRuleRequestIsRejected(scope, name, r);
  }

  lemma SingleValuesHold(conditions: seq<Condition>, r: Request)
    requires r.claims.Some? && forall key, value :: r.claims.value(key, value) <==> value != "two"
    requires forall condition | condition in conditions :: |condition.values| == 1 && condition.values[0] != "two"
    ensures AllHold(conditions, r)
  {
    forall condition | condition in conditions ensures ConditionHolds(condition, r) {
      assert condition.values[0] in condition.values;
      assert r.claims.value(ClaimKey(condition.claim), condition.values[0]);
    }
  }

  lemma TwoRuleBaseHolds(scope: Scope, r: Request)
    requires scope == Scope(TwoRulePolicy(["two"]), [], "issuer", false) && r.claims.Some?
    requires forall key, value :: r.claims.value(key, value) <==> value != "two"
    ensures AllHold(BaseConditions(scope), r)
  {
    SingleValuesHold(BaseConditions(scope), r);
  }

  lemma OnlyTheFirstRuleMatches(rule: RequestAuthRule, r: Request)
    requires rule in AuthRules(TwoRulePolicy(["two"])) && MatcherMatches(rule.matcher, r)
    requires !InLanguage("/b", r.path)
    ensures WhenConditions(rule) == [Condition("role", ["one"])]
  {
    if rule.matcher.paths == ["/b"] {
      assert false;
    }
  }

  lemma TwoRuleRequestIsPermitted(scope: Scope, r: Request)
    requires scope == Scope(TwoRulePolicy(["two"]), [], "issuer", false)
    requires r == Request("/a", "GET", r.claims) && r.claims.Some?
    requires forall key, value :: r.claims.value(key, value) <==> value != "two"
    requires InLanguage("/a", r.path) && !InLanguage("/b", r.path)
    ensures Permits(scope, r)
  {
    var rule := AuthRules(scope.spec)[0];
    assert "/a" in rule.matcher.paths;
    assert SomeAuthRuleMatches(scope.spec, r);
    TwoRuleBaseHolds(scope, r);
    SingleValuesHold([Condition("role", ["one"])], r);
    forall rule | rule in AuthRules(scope.spec) && MatcherMatches(rule.matcher, r)
      ensures AllHold(WhenConditions(rule), r)
    {
      OnlyTheFirstRuleMatches(rule, r);
    }
  }

  lemma TwoRulesNeedTheSecondCondition(r: Request)
    requires !ConditionHolds(Condition("role", ["two"]), r)
    ensures !SomeSharedRuleAdmits(AuthRules(TwoRulePolicy(["two"])), 1, r)
  {
    var rules, two := AuthRules(TwoRulePolicy(["two"])), Condition("role", ["two"]);
    var lists := WhenConditionLists(rules);
    TwoRuleLists(["two"]);
    assert 0 < |lists[1]|;
    assert LastWritten(lists, 0) == two;
    forall i: nat | i < |rules| ensures !NoneFails(SharedWhens(rules, i, 1), r) {
      assert SharedWhens(rules, i, 1) == [two] && two in [two];
    }
  }

  lemma TwoRuleMatchers()
    ensures AllMatchers(TwoRulePolicy(["two"])) == [RequestMatcher(["/a"], []), RequestMatcher(["/b"], [])]
  {}

  lemma TwoRuleRequestIsSelected(spec: AuthPolicySpec, r: Request)
    requires spec == TwoRulePolicy(["two"])
    requires r == Request("/a", "GET", r.claims) && InLanguage("/a", r.path)
    ensures SomeRuleSelects(spec, r) && !SomeIgnoreRuleSelects(spec, r)
    ensures !ComplementReaches(spec, r.path, r.method_)
  {
    TwoRuleMatchers();
    var first := AuthRules(spec)[0];
    assert ACCEPTED_HTTP_METHODS[0] == "GET";
    assert "/a" in first.matcher.paths && AllMatchers(spec)[0] == first.matcher;
    assert SomePathCovers(first.matcher.paths, r.path);
    assert first in AuthRules(spec) && Selects(first.matcher, r);
  }

  lemma TwoRuleRequestIsRejected(scope: Scope, name: string, r: Request)
    requires scope == Scope(TwoRulePolicy(["two"]), [], "issuer", false) && IsSupported(scope.spec)
    requires r == Request("/a", "GET", r.claims) && InLanguage("/a", r.path)
    requires !ConditionHolds(Condition("role", ["two"]), r)
    ensures !Accepts(Assembled(scope, name, SharedRules(scope, 1)), r)
  {
    TwoRuleRequestIsSelected(scope.spec, r);
    TwoRulesNeedTheSecondCondition(r);
    SharedPoliciesAdmit(scope, name, 1, r);
  }
}
