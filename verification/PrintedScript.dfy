/** The login decision by the rule tables that the script reads from the printed text, and its
    agreement with the compiled policies. */
module PrintedScript {
  import opened Istio
  import opened Policy
  import opened PolicyCompiler
  import opened CompilerLimits
  import opened LuaDecision
  import opened LuaText
  import opened LuaTables
  import opened Wrappers

  function PrintedTable(matchers: seq<RequestMatcher>): string {
    PrintTable(Entries(matchers))
  }

  /** The table at the head of a text, if there is one. */
  function TableIn(text: string): Option<seq<LuaRule>> {
    match ReadTable(text)
    case None => None
    case Some((rules, rest)) => Some(rules)
  }

  /** `should_bypass` by the tables at the head of two texts. */
  predicate TextsBypass(ignoreText: string, requireText: string, p: string, m: string) {
    var ignoreRules, requireRules := TableIn(ignoreText), TableIn(requireText);
    ignoreRules.Some? && requireRules.Some? && Bypasses(ignoreRules.value, requireRules.value, p, m)
  }

  /** `should_deny_redirect` by the table at the head of a text. */
  predicate TextDeniesRedirect(text: string, p: string, m: string) {
    TableIn(text).Some? && p != "" && m != "" && TableMatches(TableIn(text).value, p, m)
  }

  predicate LoginPathsAreSafe(config: AutoLoginConfig) {
    forall path | path in AutoLoginPaths(config) :: IsLuaSafe(path)
  }

  lemma ValidMatchersReadBack(matchers: seq<RequestMatcher>, rest: string)
    requires forall matcher | matcher in matchers :: PathsAreValid(matcher) && MethodsAreAccepted(matcher)
    ensures TableIn(PrintedTable(matchers) + rest) == Some(LuaTable(matchers))
  {
    forall matcher | matcher in matchers ensures MatcherIsPrintable(matcher) {
      ValidatedMatchersArePrintable(matcher);
    }
    PrintedTableReadsBack(matchers, rest);
  }

  lemma PrintedTablesBypass(spec: AuthPolicySpec, config: AutoLoginConfig, r: Request, rest: string, rest': string)
    requires AllPathsValid(spec) && AllMethodsAccepted(spec) && LoginPathsAreSafe(config)
    ensures TextsBypass(PrintedTable(IgnoreAuthRequestMatchers(spec)) + rest,
                        PrintedTable(RequireAuthMatchers(spec, config)) + rest', r.path, r.method_)
      <==> ScriptBypasses(spec, config, r)
  {
    forall matcher | matcher in IgnoreAuthRequestMatchers(spec) ensures PathsAreValid(matcher) {
      assert forall path | path in matcher.paths :: MentionsPath(spec, path);
    }
    ValidMatchersReadBack(IgnoreAuthRequestMatchers(spec), rest);
    RequireTableReadsBackIff(spec, config, rest');
  }

  /** For every validated policy and request, with login paths that survive printing: by the printed
      tables login is bypassed exactly if the compiled policies accept the request without a token
      outside the login flow, if and only if no rule without paths makes the difference. */
  lemma PrintedScriptAgreesIff(
    scope: Scope, name: string, config: AutoLoginConfig, r: Request, rest: string, rest': string)
    requires scope.spec.enabled && !scope.invalidConfig && IsCompilable(scope.spec) && LoginPathsAreSafe(config)
    requires r.claims == None && r.path != "" && r.method_ != ""
    ensures (TextsBypass(PrintedTable(IgnoreAuthRequestMatchers(scope.spec)) + rest,
                         PrintedTable(RequireAuthMatchers(scope.spec, config)) + rest', r.path, r.method_)
        <==> Accepts(Compiled(scope, name), r) && !IsAutoLoginPath(config, r.path))
      <==> BackEndsAgreeAt(scope.spec, config, r)
  {
    PrintedTablesBypass(scope.spec, config, r, rest, rest');
    BackEndsAgreeIff(scope, name, config, r);
  }

  /** In particular if every matcher names a path. */
  lemma PrintedScriptAgrees(
    scope: Scope, name: string, config: AutoLoginConfig, r: Request, rest: string, rest': string)
    requires scope.spec.enabled && !scope.invalidConfig && IsCompilable(scope.spec) && LoginPathsAreSafe(config)
    requires AuthRulesNamePaths(scope.spec) && IgnoreRulesNamePaths(scope.spec)
    requires r.claims == None && r.path != "" && r.method_ != ""
    ensures TextsBypass(PrintedTable(IgnoreAuthRequestMatchers(scope.spec)) + rest,
                        PrintedTable(RequireAuthMatchers(scope.spec, config)) + rest', r.path, r.method_)
      <==> Accepts(Compiled(scope, name), r) && !IsAutoLoginPath(config, r.path)
  {
    PrintedTablesBypass(scope.spec, config, r, rest, rest');
    BackEndsAgree(scope, name, config, r);
  }

  lemma DenyingMatchersAreValid(spec: AuthPolicySpec)
    requires AllPathsValid(spec) && AllMethodsAccepted(spec)
    ensures forall matcher | matcher in RedirectDeniers(AuthRules(spec)) ::
      PathsAreValid(matcher) && MethodsAreAccepted(matcher)
  {
    RedirectDeniersAre(AuthRules(spec));
    forall matcher | matcher in RedirectDeniers(AuthRules(spec)) ensures PathsAreValid(matcher) {
      assert forall path | path in matcher.paths :: MentionsPath(spec, path);
    }
  }

  /** By the printed table a redirect is denied exactly for what a denying auth rule matches. */
  lemma PrintedScriptDeniesRedirect(spec: AuthPolicySpec, r: Request, rest: string)
    requires AllPathsValid(spec) && AllMethodsAccepted(spec)
    ensures TextDeniesRedirect(PrintedTable(RedirectDeniers(AuthRules(spec))) + rest, r.path, r.method_) <==>
      && r.path != "" && r.method_ != "" && spec.authRules.Some?
      && exists rule | rule in spec.authRules.value ::
           rule.denyRedirect == Some(true) && MatcherMatches(rule.matcher, r)
  {
    var matchers := RedirectDeniers(AuthRules(spec));
    DenyingMatchersAreValid(spec);
    ValidMatchersReadBack(matchers, rest);
    TableOfValidMatchers(matchers, r);
    RedirectDeniersAre(AuthRules(spec));
  }
}
