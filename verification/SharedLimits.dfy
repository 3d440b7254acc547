/** Exactly when rules that share a base slice still decide as the AuthPolicy does. */
module SharedLimits {
  import opened Istio
  import opened Policy
  import opened PolicyCompiler
  import opened CompilerLimits
  import opened SharedConditions
  import opened Wrappers

  // ----- what a token must satisfy to pass one of several lists

  /** One condition out of each list, each with a value: what a token has to fail to pass none of the
      lists. */
  predicate IsPick(picked: seq<Condition>, lists: seq<seq<Condition>>) {
    && |picked| == |lists|
    && forall i | 0 <= i < |lists| :: picked[i] in lists[i] && picked[i].values != []
  }

  predicate IsValueOf(picked: seq<Condition>, claim: string, value: string) {
    exists condition | condition in picked :: condition.claim == claim && value in condition.values
  }

  /** Whoever satisfies the condition satisfies one of the picked ones. */
  predicate LeavesNoOther(condition: Condition, picked: seq<Condition>) {
    forall value | value in condition.values :: IsValueOf(picked, condition.claim, value)
  }

  /** Whoever satisfies the assumed conditions passes one of the lists: either nobody satisfies them,
      or, whatever is picked, some assumed condition has all its values among the picked ones. */
  ghost predicate EntailsSome(assumed: seq<Condition>, lists: seq<seq<Condition>>) {
    || !ConditionsAreComplete(assumed)
    || forall picked | IsPick(picked, lists) ::
         exists condition | condition in assumed :: LeavesNoOther(condition, picked)
  }

  ghost predicate SomePasses(lists: seq<seq<Condition>>, r: Request) {
    exists list | list in lists :: NoneFails(list, r)
  }

  ghost predicate EveryTokenPasses(assumed: seq<Condition>, lists: seq<seq<Condition>>, p: string, m: string) {
    forall claims: Option<Claims> ::
      AllHold(assumed, Request(p, m, claims)) ==> SomePasses(lists, Request(p, m, claims))
  }

  /** Out of lists that all fail, a pick that the request fails. */
  lemma {:induction false} FailingPick(lists: seq<seq<Condition>>, r: Request) returns (picked: seq<Condition>)
    requires !SomePasses(lists, r)
    ensures IsPick(picked, lists) && forall condition | condition in picked :: !ConditionHolds(condition, r)
  {
    if lists == [] {
      picked := [];
    } else {
      assert lists[0] in lists;
      var first :| first in lists[0] && first.values != [] && !ConditionHolds(first, r);
      var rest := FailingPick(lists[1..], r);
      picked := [first] + rest;
    }
  }

  /** Whoever satisfies a condition that leaves no other satisfies a picked one. */
  lemma SomePickedHolds(condition: Condition, picked: seq<Condition>, r: Request)
    requires LeavesNoOther(condition, picked) && ConditionHolds(condition, r)
    ensures exists other | other in picked :: ConditionHolds(other, r)
  {
    var value :| value in condition.values && r.claims.value(ClaimKey(condition.claim), value);
    assert IsValueOf(picked, condition.claim, value);
  }

  /** A token that satisfies the assumed conditions and none of the picked ones. */
  lemma TokenBesides(assumed: seq<Condition>, picked: seq<Condition>, p: string, m: string) returns (r: Request)
    requires ConditionsAreComplete(assumed)
    requires forall condition | condition in assumed :: !LeavesNoOther(condition, picked)
    ensures r == Request(p, m, r.claims) && AllHold(assumed, r)
    ensures forall condition | condition in picked :: !ConditionHolds(condition, r)
  {
    r := Request(p, m, Some((key, value) =>
      forall condition | condition in picked :: key == ClaimKey(condition.claim) ==> value !in condition.values));
    forall condition | condition in assumed ensures ConditionHolds(condition, r) {
      var value :| value in condition.values && !IsValueOf(picked, condition.claim, value);
      forall other | other in picked && ClaimKey(condition.claim) == ClaimKey(other.claim)
        ensures value !in other.values
      {
        ClaimKeysDiffer(condition.claim, other.claim);
      }
      assert r.claims.value(ClaimKey(condition.claim), value);
    }
  }

  lemma PickFailsItsLists(picked: seq<Condition>, lists: seq<seq<Condition>>, r: Request)
    requires IsPick(picked, lists) && forall condition | condition in picked :: !ConditionHolds(condition, r)
    ensures !SomePasses(lists, r)
  {
    forall list | list in lists ensures !NoneFails(list, r) {
      var i :| 0 <= i < |lists| && lists[i] == list;
      assert picked[i] in picked;
    }
  }

  lemma EntailsSomeIffEveryTokenPasses(assumed: seq<Condition>, lists: seq<seq<Condition>>, p: string, m: string)
    ensures EveryTokenPasses(assumed, lists, p, m) <==> EntailsSome(assumed, lists)
  {
    if !EntailsSome(assumed, lists) {
      var picked :| IsPick(picked, lists)
                    && forall condition | condition in assumed :: !LeavesNoOther(condition, picked);
      var r := TokenBesides(assumed, picked, p, m);
      PickFailsItsLists(picked, lists, r);
      assert !SomePasses(lists, Request(p, m, r.claims));
    } else {
      forall claims: Option<Claims> | AllHold(assumed, Request(p, m, claims))
        ensures SomePasses(lists, Request(p, m, claims))
      {
        SomeListPasses(assumed, lists, Request(p, m, claims));
      }
    }
  }

  lemma NoListPasses(assumed: seq<Condition>, lists: seq<seq<Condition>>, r: Request)
    requires AllHold(assumed, r) && !SomePasses(lists, r)
    ensures !EntailsSome(assumed, lists)
  {
    assert forall condition | condition in assumed :: ConditionHolds(condition, r);
    var picked := FailingPick(lists, r);
    forall condition | condition in assumed ensures !LeavesNoOther(condition, picked) {
      if LeavesNoOther(condition, picked) {
        SomePickedHolds(condition, picked, r);
      }
    }
  }

  lemma SomeListPasses(assumed: seq<Condition>, lists: seq<seq<Condition>>, r: Request)
    requires EntailsSome(assumed, lists) && AllHold(assumed, r)
    ensures SomePasses(lists, r)
  {
    if !SomePasses(lists, r) {
      NoListPasses(assumed, lists, r);
    }
  }

  // ----- the lists of the rules that select a request

  /** The conditions that the selecting rules end up with, rule by rule. */
  ghost function SelectingWhens(rules: seq<RequestAuthRule>, n: nat, room: nat, p: string, m: string):
    seq<seq<Condition>>
    requires n <= |rules|
  {
    if n == 0 then []
    else
      SelectingWhens(rules, n - 1, room, p, m)
      + (if Selects(rules[n - 1].matcher, Request(p, m, None)) then [SharedWhens(rules, n - 1, room)] else [])
  }

  lemma {:induction false} SelectingWhensPass(rules: seq<RequestAuthRule>, n: nat, room: nat, r: Request)
    requires n <= |rules|
    ensures SomePasses(SelectingWhens(rules, n, room, r.path, r.method_), r) <==>
      exists i: nat | i < n :: Selects(rules[i].matcher, r) && NoneFails(SharedWhens(rules, i, room), r)
  {
    if n > 0 {
      SelectingWhensPass(rules, n - 1, room, r);
      var init := SelectingWhens(rules, n - 1, room, r.path, r.method_);
      assert Selects(rules[n - 1].matcher, Request(r.path, r.method_, None)) <==> Selects(rules[n - 1].matcher, r);
      var last := if Selects(rules[n - 1].matcher, r) then [SharedWhens(rules, n - 1, room)] else [];
      assert SelectingWhens(rules, n, room, r.path, r.method_) == init + last;
      assert forall list :: list in init + last <==> list in init || list in last;
    }
  }

  // ----- exactly when the policies with shared lists decide as the AuthPolicy does

  /** An ignore rule or the complement rule accepts the request besides the auth rules. */
  ghost predicate AcceptedBesides(spec: AuthPolicySpec, p: string, m: string) {
    || SomeIgnoreRuleMatches(spec, Request(p, m, None))
    || SomePathlessIgnoreRule(spec, m)
    || ComplementReaches(spec, p, m)
  }

  /** On a path and method, for every token: the policy is compiled exactly there, and where an auth
      rule selects and nothing else accepts, whoever satisfies the matching rules passes one of the
      selecting rules with the conditions it ends up with. */
  ghost predicate IsSharedExactAt(scope: Scope, room: nat, p: string, m: string) {
    var spec, rules := scope.spec, AuthRules(scope.spec);
    && IsExactAt(scope, p, m)
    && (SomeAuthRuleMatches(spec, Request(p, m, None)) || SomePathlessRule(spec, m) ==>
          || AcceptedBesides(spec, p, m)
          || EntailsSome(BaseConditions(scope) + MatchingWhens(rules, p, m),
                         SelectingWhens(rules, |rules|, room, p, m)))
  }

  ghost predicate SharedDecidesRightly(scope: Scope, name: string, room: nat, r: Request) {
    Accepts(Assembled(scope, name, SharedRules(scope, room)), r) <==> Permits(scope, r)
  }

  /** Whether the shared lists let through what the policies admit. */
  ghost predicate SharingLetsThrough(scope: Scope, room: nat, r: Request) {
    var rules := AuthRules(scope.spec);
    SomeRuleSelects(scope.spec, r) ==>
      || AcceptedBesides(scope.spec, r.path, r.method_)
      || SomePasses(SelectingWhens(rules, |rules|, room, r.path, r.method_), r)
  }

  lemma SharedPoliciesAdmitWhatPasses(scope: Scope, name: string, room: nat, r: Request)
    requires scope.spec.enabled && !scope.invalidConfig && IsCompilable(scope.spec)
    ensures Accepts(Assembled(scope, name, SharedRules(scope, room)), r) <==>
      Admits(scope, r) && SharingLetsThrough(scope, room, r)
  {
    SharedPoliciesAdmit(scope, name, room, r);
    SelectionIsMatchOrPathless(scope.spec, r);
    MatchesWithoutToken(scope.spec, r);
    SelectingWhensPass(AuthRules(scope.spec), |AuthRules(scope.spec)|, room, r);
  }

  /** What is permitted where the policy is compiled exactly and an auth rule selects. */
  lemma PermittedWhereSelected(scope: Scope, r: Request)
    requires r.path != "" && SomeRuleSelects(scope.spec, r)
    requires Admits(scope, r) <==> Permits(scope, r)
    ensures Permits(scope, r) ==>
      AllHold(BaseConditions(scope) + MatchingWhens(AuthRules(scope.spec), r.path, r.method_), r)
  {
    AdmitsByCases(scope, r);
    SelectionIsMatchOrPathless(scope.spec, r);
    AllHoldConcat(BaseConditions(scope), MatchingWhens(AuthRules(scope.spec), r.path, r.method_), r);
  }

  /** Where the policy is compiled exactly, whoever satisfies the matching rules is permitted. */
  lemma MatchingRulesPermit(scope: Scope, r: Request)
    requires r.path != "" && SomeRuleSelects(scope.spec, r)
    requires AllHold(BaseConditions(scope) + MatchingWhens(AuthRules(scope.spec), r.path, r.method_), r)
    ensures Permits(scope, r)
  {
    AdmitsByCases(scope, r);
    AllHoldConcat(BaseConditions(scope), MatchingWhens(AuthRules(scope.spec), r.path, r.method_), r);
  }

  /** Where an auth rule selects, what is admitted is permitted. */
  lemma AdmittedWhereSelected(scope: Scope, r: Request)
    requires r.path != "" && SomeRuleSelects(scope.spec, r) && Admits(scope, r)
    ensures Permits(scope, r)
  {
    AdmitsByCases(scope, r);
  }

  ghost predicate SharedDecidesRightlyAt(scope: Scope, name: string, room: nat, p: string, m: string) {
    forall claims: Option<Claims> :: SharedDecidesRightly(scope, name, room, Request(p, m, claims))
  }

  /** Where the policies with shared lists are exact, so are the policies with lists of their own. */
  lemma SharingRepairsNothing(scope: Scope, name: string, room: nat, r: Request)
    requires scope.spec.enabled && !scope.invalidConfig && IsCompilable(scope.spec) && r.path != ""
    requires SharedDecidesRightly(scope, name, room, r)
    ensures Admits(scope, r) <==> Permits(scope, r)
  {
    SharedPoliciesAdmitWhatPasses(scope, name, room, r);
    if Admits(scope, r) && SomeRuleSelects(scope.spec, r) {
      AdmittedWhereSelected(scope, r);
    }
  }

  lemma ExactWhereSharedIsNeeded(scope: Scope, name: string, room: nat, p: string, m: string)
    requires scope.spec.enabled && !scope.invalidConfig && IsCompilable(scope.spec) && p != ""
    requires SomeRuleSelects(scope.spec, Request(p, m, None)) && !AcceptedBesides(scope.spec, p, m)
    requires SharedDecidesRightlyAt(scope, name, room, p, m)
    ensures var rules := AuthRules(scope.spec);
      EveryTokenPasses(BaseConditions(scope) + MatchingWhens(rules, p, m),
                       SelectingWhens(rules, |rules|, room, p, m), p, m)
  {
    var rules := AuthRules(scope.spec);
    forall claims: Option<Claims> | AllHold(BaseConditions(scope) + MatchingWhens(rules, p, m), Request(p, m, claims))
      ensures SomePasses(SelectingWhens(rules, |rules|, room, p, m), Request(p, m, claims))
    {
      var r := Request(p, m, claims);
      SelectionIgnoresTheToken(scope.spec, r);
      MatchingRulesPermit(scope, r);
      assert SharedDecidesRightly(scope, name, room, r);
      SharedPoliciesAdmitWhatPasses(scope, name, room, r);
    }
  }

  lemma SelectionIgnoresTheToken(spec: AuthPolicySpec, r: Request)
    ensures SomeRuleSelects(spec, r) <==> SomeRuleSelects(spec, Request(r.path, r.method_, None))
  {
    assert forall matcher: RequestMatcher ::
      Selects(matcher, r) <==> Selects(matcher, Request(r.path, r.method_, None));
  }

  lemma SharedIsExactWhere(scope: Scope, name: string, room: nat, r: Request)
    requires scope.spec.enabled && !scope.invalidConfig && IsCompilable(scope.spec) && r.path != ""
    requires Admits(scope, r) <==> Permits(scope, r)
    requires SomeRuleSelects(scope.spec, r) ==>
      || AcceptedBesides(scope.spec, r.path, r.method_)
      || EntailsSome(BaseConditions(scope) + MatchingWhens(AuthRules(scope.spec), r.path, r.method_),
                     SelectingWhens(AuthRules(scope.spec), |AuthRules(scope.spec)|, room, r.path, r.method_))
    ensures SharedDecidesRightly(scope, name, room, r)
  {
    var rules := AuthRules(scope.spec);
    SharedPoliciesAdmitWhatPasses(scope, name, room, r);
    if Permits(scope, r) && SomeRuleSelects(scope.spec, r) && !AcceptedBesides(scope.spec, r.path, r.method_) {
      PermittedWhereSelected(scope, r);
      SomeListPasses(BaseConditions(scope) + MatchingWhens(rules, r.path, r.method_),
                     SelectingWhens(rules, |rules|, room, r.path, r.method_), r);
    }
  }

  /** For every validated policy, path, method and capacity: the policies that the sharing loop leaves
      decide as the AuthPolicy does, whatever the token, if and only if the rules are exact there. */
  lemma SharedPoliciesDecideExactlyIff(scope: Scope, name: string, room: nat, p: string, m: string)
    requires scope.spec.enabled && !scope.invalidConfig && IsCompilable(scope.spec) && p != ""
    ensures SharedDecidesRightlyAt(scope, name, room, p, m) <==> IsSharedExactAt(scope, room, p, m)
  {
    var rules := AuthRules(scope.spec);
    var assumed := BaseConditions(scope) + MatchingWhens(rules, p, m);
    var lists := SelectingWhens(rules, |rules|, room, p, m);
    SelectionIsMatchOrPathless(scope.spec, Request(p, m, None));
    AdmitsThePermittedIffExact(scope, p, m);
    if SharedDecidesRightlyAt(scope, name, room, p, m) {
      forall claims: Option<Claims> ensures SameAt(scope, p, m, claims) {
        assert SharedDecidesRightly(scope, name, room, Request(p, m, claims));
        SharingRepairsNothing(scope, name, room, Request(p, m, claims));
      }
      if SomeRuleSelects(scope.spec, Request(p, m, None)) && !AcceptedBesides(scope.spec, p, m) {
        ExactWhereSharedIsNeeded(scope, name, room, p, m);
        EntailsSomeIffEveryTokenPasses(assumed, lists, p, m);
      }
    }
    if IsSharedExactAt(scope, room, p, m) {
      forall claims: Option<Claims> ensures SharedDecidesRightly(scope, name, room, Request(p, m, claims)) {
        assert SameAt(scope, p, m, claims);
        SelectionIgnoresTheToken(scope.spec, Request(p, m, claims));
        SharedIsExactWhere(scope, name, room, Request(p, m, claims));
      }
    }
  }
}
