/** Istio AuthorizationPolicies and how they decide about a request. */
module Istio {
  import opened GoStrings
  import opened IstioPaths
  import opened Policy

  datatype IstioCondition = IstioCondition(key: string, values: seq<string>, notValues: seq<string>)

  datatype Operation = Operation(
    paths: seq<string>, notPaths: seq<string>, methods: seq<string>, notMethods: seq<string>)

  datatype Rule = Rule(to: seq<Operation>, when: seq<IstioCondition>)

  datatype Action = ALLOW | DENY

  datatype AuthorizationPolicy = AuthorizationPolicy(
    name: string, action: Action, matchLabels: map<string, string>, rules: seq<Rule>)

  /** Presence, suffix, prefix and exact match. */
  predicate StringMatches(pattern: string, value: string) {
    if pattern == "*" then value != ""
    else if HasPrefix(pattern, "*") then HasSuffix(value, pattern[1..])
    else if HasSuffix(pattern, "*") then HasPrefix(value, TrimSuffix(pattern, "*"))
    else value == pattern
  }

  ghost predicate SomePathMatches(patterns: seq<string>, path: string) {
    exists pattern | pattern in patterns :: IstioPathMatches(pattern, path)
  }

  predicate SomeStringMatches(patterns: seq<string>, value: string) {
    exists pattern | pattern in patterns :: StringMatches(pattern, value)
  }

  /** An empty list is no constraint. */
  ghost predicate OperationMatches(op: Operation, r: Request) {
    && (op.paths == [] || SomePathMatches(op.paths, r.path))
    && !SomePathMatches(op.notPaths, r.path)
    && (op.methods == [] || SomeStringMatches(op.methods, r.method_))
    && !SomeStringMatches(op.notMethods, r.method_)
  }

  predicate ClaimIsOneOf(key: string, values: seq<string>, r: Request) {
    r.claims.Some? && exists value | value in values :: r.claims.value(key, value)
  }

  /** A negated condition also holds when the claim is missing. */
  predicate ConditionMatches(condition: IstioCondition, r: Request) {
    && (condition.values == [] || ClaimIsOneOf(condition.key, condition.values, r))
    && (condition.notValues == [] || !ClaimIsOneOf(condition.key, condition.notValues, r))
  }

  ghost predicate SomeOperationMatches(ops: seq<Operation>, r: Request) {
    exists op | op in ops :: OperationMatches(op, r)
  }

  predicate AllConditionsMatch(conditions: seq<IstioCondition>, r: Request) {
    forall condition | condition in conditions :: ConditionMatches(condition, r)
  }

  ghost predicate RuleMatches(rule: Rule, r: Request) {
    && (rule.to == [] || SomeOperationMatches(rule.to, r))
    && AllConditionsMatch(rule.when, r)
  }

  ghost predicate SomeRuleMatches(rules: seq<Rule>, r: Request) {
    exists rule | rule in rules :: RuleMatches(rule, r)
  }

  ghost predicate Applies(policies: seq<AuthorizationPolicy>, action: Action, r: Request) {
    exists policy | policy in policies :: policy.action == action && SomeRuleMatches(policy.rules, r)
  }

  /** Deny policies come first; with no allow policy at all, what is not denied is allowed. */
  ghost predicate Accepts(policies: seq<AuthorizationPolicy>, r: Request) {
    && !Applies(policies, DENY, r)
    && ((forall policy | policy in policies :: policy.action != ALLOW) || Applies(policies, ALLOW, r))
  }
}
