/** The login decision of the generated Lua filter, and its agreement with the compiled policies. */
module LuaDecision {
  import opened PathLanguage
  import opened PathGrammar
  import opened PathValidation
  import opened IstioPaths
  import opened LuaPattern
  import opened LuaMatcher
  import opened Istio
  import opened Policy
  import opened PolicyCompiler
  import opened CompilerLimits
  import opened Wrappers

  /** The paths of the OAuth flow, with their defaults filled in. */
  datatype AutoLoginConfig = AutoLoginConfig(redirectPath: string, logoutPath: string, loginPath: Option<string>)

  // ----- the request matchers of the script

  function AutoLoginPaths(config: AutoLoginConfig): seq<string> {
    [config.redirectPath, config.logoutPath]
    + (if config.loginPath.Some? then [config.loginPath.value] else [])
  }

  function RequireAuthMatchers(spec: AuthPolicySpec, config: AutoLoginConfig): seq<RequestMatcher> {
    RequestMatchers(AuthRules(spec)) + [RequestMatcher(AutoLoginPaths(config), [])]
  }

  predicate DeniesRedirect(rule: RequestAuthRule) {
    rule.denyRedirect.Some? && rule.denyRedirect.value
  }

  /** The matchers of the rules that deny redirects, in order. */
  function RedirectDeniers(rules: seq<RequestAuthRule>): seq<RequestMatcher> {
    if rules == [] then []
    else
      var last := rules[|rules| - 1];
      RedirectDeniers(rules[..|rules| - 1]) + (if DeniesRedirect(last) then [last.matcher] else [])
  }

  lemma {:induction false} RedirectDeniersAre(rules: seq<RequestAuthRule>)
    ensures forall matcher :: matcher in RedirectDeniers(rules) <==>
      exists rule | rule in rules :: DeniesRedirect(rule) && rule.matcher == matcher
  {
    if rules != [] {
      var init := rules[..|rules| - 1];
      RedirectDeniersAre(init);
      assert rules == init + [rules[|rules| - 1]];
    }
  }

  method DenyRedirectMatchers(rules: seq<RequestAuthRule>) returns (matchers: seq<RequestMatcher>)
    ensures matchers == RedirectDeniers(rules)
    ensures forall matcher :: matcher in matchers <==>
      exists rule | rule in rules :: rule.denyRedirect == Some(true) && rule.matcher == matcher
  {
    matchers := [];
    for i := 0 to |rules|
      invariant matchers == RedirectDeniers(rules[..i])
    {
      assert rules[..i + 1][..i] == rules[..i];
      if rules[i].denyRedirect.Some? && rules[i].denyRedirect.value {
        matchers := matchers + [rules[i].matcher];
      }
    }
    assert rules[..|rules|] == rules;
    RedirectDeniersAre(rules);
  }

  // ----- the rule tables of the script

  datatype LuaRule = LuaRule(regex: string, methods: set<string>)

  function LuaRuleOf(matcher: RequestMatcher, path: string): LuaRule {
    LuaRule(ConvertRequestMatcherPathToLuaPattern(path), set m | m in matcher.methods)
  }

  function LuaRulesOf(matcher: RequestMatcher): (rules: seq<LuaRule>)
    ensures |rules| == |matcher.paths|
    ensures forall i | 0 <= i < |rules| :: rules[i] == LuaRuleOf(matcher, matcher.paths[i])
  {
    seq(|matcher.paths|, i requires 0 <= i < |matcher.paths| => LuaRuleOf(matcher, matcher.paths[i]))
  }

  /** One table entry per path of each matcher, in order. */
  function LuaTable(matchers: seq<RequestMatcher>): seq<LuaRule> {
    if matchers == [] then [] else LuaRulesOf(matchers[0]) + LuaTable(matchers[1..])
  }

  predicate RuleApplies(rule: LuaRule, p: string, m: string) {
    StringMatch(p, rule.regex) && (rule.methods == {} || m in rule.methods)
  }

  predicate TableMatches(rules: seq<LuaRule>, p: string, m: string) {
    exists rule | rule in rules :: RuleApplies(rule, p, m)
  }

  /** `match` of the script. */
  method Match(rules: seq<LuaRule>, p: string, m: string) returns (matched: bool)
    ensures matched <==> TableMatches(rules, p, m)
  {
    for i := 0 to |rules|
      invariant forall j | 0 <= j < i :: !RuleApplies(rules[j], p, m)
    {
      if StringMatch(p, rules[i].regex) {
        if rules[i].methods == {} || m in rules[i].methods {
          assert RuleApplies(rules[i], p, m) && rules[i] in rules;
          return true;
        }
      }
    }
    return false;
  }

  /** `should_bypass` of the script. */
  method ShouldBypass(ignoreRules: seq<LuaRule>, requireRules: seq<LuaRule>, p: string, m: string) returns (bypass: bool)
    ensures bypass <==> Bypasses(ignoreRules, requireRules, p, m)
  {
    bypass := false;
    if p != "" && m != "" {
      var ignored := Match(ignoreRules, p, m);
      if ignored {
        var required := Match(requireRules, p, m);
        if !required {
          bypass := true;
        }
      }
    }
  }

  predicate Bypasses(ignoreRules: seq<LuaRule>, requireRules: seq<LuaRule>, p: string, m: string) {
    p != "" && m != "" && TableMatches(ignoreRules, p, m) && !TableMatches(requireRules, p, m)
  }

  /** `should_deny_redirect` of the script. */
  method ShouldDenyRedirect(denyRedirectRules: seq<LuaRule>, p: string, m: string) returns (denyRedirect: bool)
    ensures denyRedirect <==> p != "" && m != "" && TableMatches(denyRedirectRules, p, m)
  {
    denyRedirect := false;
    if p != "" && m != "" {
      var matched := Match(denyRedirectRules, p, m);
      if matched {
        denyRedirect := true;
      }
    }
  }

  /** The path of a request target up to its query. */
  function PathWithoutQuery(raw: string): (p: string)
    ensures '?' !in p && p <= raw
    ensures p == raw || raw[|p|] == '?'
  {
    if raw == "" || raw[0] == '?' then "" else [raw[0]] + PathWithoutQuery(raw[1..])
  }

  // ----- the tables and the matchers they were made from

  ghost predicate SomePatternMatches(paths: seq<string>, p: string) {
    exists path | path in paths :: StringMatch(p, ConvertRequestMatcherPathToLuaPattern(path))
  }

  lemma LuaRulesOfMatch(matcher: RequestMatcher, p: string, m: string)
    ensures TableMatches(LuaRulesOf(matcher), p, m) <==>
      SomePatternMatches(matcher.paths, p) && (matcher.methods == [] || m in matcher.methods)
  {
    var rules := LuaRulesOf(matcher);
    var methods := set method_ | method_ in matcher.methods;
    assert methods == {} <==> matcher.methods == [] by {
      if matcher.methods != [] { assert matcher.methods[0] in methods; }
    }
    if path :| path in matcher.paths && StringMatch(p, ConvertRequestMatcherPathToLuaPattern(path)) {
      var i :| 0 <= i < |matcher.paths| && matcher.paths[i] == path;
      assert rules[i] in rules;
    }
    if rule :| rule in rules && RuleApplies(rule, p, m) {
      var i :| 0 <= i < |rules| && rules[i] == rule;
      assert matcher.paths[i] in matcher.paths;
    }
  }

  /** A table matches exactly when one of its matchers has a matching path and accepts the method. */
  lemma {:induction false} TableMatchesSomeMatcher(matchers: seq<RequestMatcher>, p: string, m: string)
    ensures TableMatches(LuaTable(matchers), p, m) <==>
      exists matcher | matcher in matchers ::
        SomePatternMatches(matcher.paths, p) && (matcher.methods == [] || m in matcher.methods)
  {
    if matchers != [] {
      TableMatchesSomeMatcher(matchers[1..], p, m);
      LuaRulesOfMatch(matchers[0], p, m);
      assert matchers == [matchers[0]] + matchers[1..];
      var a, b := LuaRulesOf(matchers[0]), LuaTable(matchers[1..]);
      assert forall rule :: rule in a + b <==> rule in a || rule in b;
      assert TableMatches(a + b, p, m) <==> TableMatches(a, p, m) || TableMatches(b, p, m);
    }
  }

  lemma PatternsOfValidPaths(matcher: RequestMatcher, p: string)
    requires PathsAreValid(matcher)
    ensures SomePatternMatches(matcher.paths, p) <==> SomePathCovers(matcher.paths, p)
  {
    forall path | path in matcher.paths
      ensures StringMatch(p, ConvertRequestMatcherPathToLuaPattern(path)) <==> InLanguage(path, p)
    {
      GeneratedPatternDenotesThePath(path, p);
    }
  }

  lemma TableOfValidMatchers(matchers: seq<RequestMatcher>, r: Request)
    requires forall matcher | matcher in matchers :: PathsAreValid(matcher)
    ensures TableMatches(LuaTable(matchers), r.path, r.method_) <==>
      exists matcher | matcher in matchers :: MatcherMatches(matcher, r)
  {
    TableMatchesSomeMatcher(matchers, r.path, r.method_);
    forall matcher | matcher in matchers
      ensures SomePatternMatches(matcher.paths, r.path) <==> SomePathCovers(matcher.paths, r.path)
    {
      PatternsOfValidPaths(matcher, r.path);
    }
  }

  /** The path of the callback, of the logout or of the login if one is configured. */
  predicate IsAutoLoginPath(config: AutoLoginConfig, p: string) {
    || StringMatch(p, ConvertRequestMatcherPathToLuaPattern(config.redirectPath))
    || StringMatch(p, ConvertRequestMatcherPathToLuaPattern(config.logoutPath))
    || (config.loginPath.Some? && StringMatch(p, ConvertRequestMatcherPathToLuaPattern(config.loginPath.value)))
  }

  lemma AutoLoginPathsMatch(config: AutoLoginConfig, p: string)
    ensures SomePatternMatches(AutoLoginPaths(config), p) <==> IsAutoLoginPath(config, p)
  {
    var paths := AutoLoginPaths(config);
    assert paths[0] == config.redirectPath && paths[1] == config.logoutPath;
    if config.loginPath.Some? {
      assert paths[2] == config.loginPath.value;
    }
    assert forall path | path in paths ::
      path == config.redirectPath || path == config.logoutPath || config.loginPath == Some(path);
  }

  lemma {:induction false} TableConcat(a: seq<RequestMatcher>, b: seq<RequestMatcher>)
    ensures LuaTable(a + b) == LuaTable(a) + LuaTable(b)
  {
    if a == [] {
      assert a + b == b;
    } else {
      assert (a + b)[1..] == a[1..] + b;
      TableConcat(a[1..], b);
    }
  }

  lemma RequireTable(spec: AuthPolicySpec, config: AutoLoginConfig, r: Request)
    requires AllPathsValid(spec)
    ensures TableMatches(LuaTable(RequireAuthMatchers(spec, config)), r.path, r.method_) <==>
      SomeAuthRuleMatches(spec, r) || IsAutoLoginPath(config, r.path)
  {
    var required := RequestMatchers(AuthRules(spec));
    var auto := RequestMatcher(AutoLoginPaths(config), []);
    forall i | 0 <= i < |required| ensures PathsAreValid(required[i]) {
      assert AuthRules(spec)[i] in AuthRules(spec);
      assert forall path | path in required[i].paths :: MentionsPath(spec, path);
    }
    TableOfValidMatchers(required, r);
    TableMatchesSomeMatcher([auto], r.path, r.method_);
    AutoLoginPathsMatch(config, r.path);
    assert auto in [auto];
    TableConcat(required, [auto]);
    var a, b := LuaTable(required), LuaTable([auto]);
    assert forall rule :: rule in a + b <==> rule in a || rule in b;
    if matcher :| matcher in required && MatcherMatches(matcher, r) {
      var i :| 0 <= i < |required| && required[i] == matcher;
      assert AuthRules(spec)[i] in AuthRules(spec);
    }
    if rule :| rule in AuthRules(spec) && MatcherMatches(rule.matcher, r) {
      var i :| 0 <= i < |AuthRules(spec)| && AuthRules(spec)[i] == rule;
      assert required[i] in required;
    }
  }

  lemma IgnoreTable(spec: AuthPolicySpec, r: Request)
    requires AllPathsValid(spec)
    ensures TableMatches(LuaTable(IgnoreAuthRequestMatchers(spec)), r.path, r.method_) <==>
      SomeIgnoreRuleMatches(spec, r)
  {
    forall matcher | matcher in IgnoreAuthRequestMatchers(spec) ensures PathsAreValid(matcher) {
      assert forall path | path in matcher.paths :: MentionsPath(spec, path);
    }
    TableOfValidMatchers(IgnoreAuthRequestMatchers(spec), r);
  }

  // ----- the two back ends

  ghost predicate ScriptBypasses(spec: AuthPolicySpec, config: AutoLoginConfig, r: Request) {
    Bypasses(LuaTable(IgnoreAuthRequestMatchers(spec)), LuaTable(RequireAuthMatchers(spec, config)), r.path, r.method_)
  }

  lemma ScriptBypassMeaning(spec: AuthPolicySpec, config: AutoLoginConfig, r: Request)
    requires AllPathsValid(spec)
    ensures ScriptBypasses(spec, config, r) <==>
      && r.path != "" && r.method_ != ""
      && SomeIgnoreRuleMatches(spec, r) && !SomeAuthRuleMatches(spec, r) && !IsAutoLoginPath(config, r.path)
  {
    IgnoreTable(spec, r);
    RequireTable(spec, config, r);
  }

  /** For every validated policy, configuration and request: login is bypassed exactly for what an ignore
      rule matches and neither an auth rule nor one of the three login paths. */
  lemma ScriptBypassesExactly(spec: AuthPolicySpec, config: AutoLoginConfig, r: Request)
    requires AllPathsValid(spec)
    ensures ScriptBypasses(spec, config, r) <==>
      && r.path != "" && r.method_ != ""
      && (spec.ignoreAuthRules.Some? && exists matcher | matcher in spec.ignoreAuthRules.value ::
            MatcherMatches(matcher, r))
      && !(spec.authRules.Some? && exists rule | rule in spec.authRules.value :: MatcherMatches(rule.matcher, r))
      && !StringMatch(r.path, ConvertRequestMatcherPathToLuaPattern(config.redirectPath))
      && !StringMatch(r.path, ConvertRequestMatcherPathToLuaPattern(config.logoutPath))
      && (config.loginPath.Some? ==>
            !StringMatch(r.path, ConvertRequestMatcherPathToLuaPattern(config.loginPath.value)))
  {
    ScriptBypassMeaning(spec, config, r);
  }

  /** With valid login paths, in terms of the languages of all the paths. */
  lemma ScriptBypassesByLanguage(spec: AuthPolicySpec, config: AutoLoginConfig, r: Request)
    requires AllPathsValid(spec)
    requires IsValidPath(config.redirectPath) && IsValidPath(config.logoutPath)
    requires config.loginPath.Some? ==> IsValidPath(config.loginPath.value)
    ensures ScriptBypasses(spec, config, r) <==>
      && r.path != "" && r.method_ != ""
      && (spec.ignoreAuthRules.Some? && exists matcher | matcher in spec.ignoreAuthRules.value ::
            MatcherMatches(matcher, r))
      && !(spec.authRules.Some? && exists rule | rule in spec.authRules.value :: MatcherMatches(rule.matcher, r))
      && !InLanguage(config.redirectPath, r.path)
      && !InLanguage(config.logoutPath, r.path)
      && (config.loginPath.Some? ==> !InLanguage(config.loginPath.value, r.path))
  {
    ScriptBypassesExactly(spec, config, r);
    GeneratedPatternDenotesThePath(config.redirectPath, r.path);
    GeneratedPatternDenotesThePath(config.logoutPath, r.path);
    if config.loginPath.Some? {
      GeneratedPatternDenotesThePath(config.loginPath.value, r.path);
    }
  }

  /** Without a token, only what an ignore rule selects and no auth rule does is accepted. */
  lemma AcceptedWithoutToken(scope: Scope, name: string, r: Request)
    requires scope.spec.enabled && !scope.invalidConfig && IsCompilable(scope.spec) && r.claims == None
    ensures Accepts(Compiled(scope, name), r) <==>
      && (SomeIgnoreRuleMatches(scope.spec, r) || SomePathlessIgnoreRule(scope.spec, r.method_))
      && !SomeAuthRuleMatches(scope.spec, r) && !SomePathlessRule(scope.spec, r.method_)
  {
    CompiledPoliciesAdmit(scope, name, r);
    SelectionIsMatchOrPathless(scope.spec, r);
    BaseNeedsAToken(scope, r.path, r.method_);
  }

  /** Where both back ends decide alike. A rule without paths is no entry of the script's tables, but
      applies to every path of the compiled policies. */
  ghost predicate BackEndsAgreeAt(spec: AuthPolicySpec, config: AutoLoginConfig, r: Request) {
    || IsAutoLoginPath(config, r.path)
    || SomeAuthRuleMatches(spec, r)
    || (if SomeIgnoreRuleMatches(spec, r) then !SomePathlessRule(spec, r.method_)
        else SomePathlessIgnoreRule(spec, r.method_) ==> SomePathlessRule(spec, r.method_))
  }

  /** For every validated policy and request: login is bypassed exactly if the compiled policies accept
      the request without a token outside the login flow, if and only if no rule without paths makes
      the difference. */
  lemma BackEndsAgreeIff(scope: Scope, name: string, config: AutoLoginConfig, r: Request)
    requires scope.spec.enabled && !scope.invalidConfig && IsCompilable(scope.spec)
    requires r.claims == None && r.path != "" && r.method_ != ""
    ensures (ScriptBypasses(scope.spec, config, r) <==>
        Accepts(Compiled(scope, name), r) && !IsAutoLoginPath(config, r.path))
      <==> BackEndsAgreeAt(scope.spec, config, r)
  {
    ScriptBypassMeaning(scope.spec, config, r);
    AcceptedWithoutToken(scope, name, r);
  }

  /** If every matcher names a path, login is bypassed for exactly those requests that the compiled
      policies accept without a token and that are not part of the login flow itself. */
  lemma BackEndsAgree(scope: Scope, name: string, config: AutoLoginConfig, r: Request)
    requires scope.spec.enabled && !scope.invalidConfig && IsCompilable(scope.spec)
    requires AuthRulesNamePaths(scope.spec) && IgnoreRulesNamePaths(scope.spec)
    requires r.claims == None && r.path != "" && r.method_ != ""
    ensures ScriptBypasses(scope.spec, config, r) <==>
      Accepts(Compiled(scope, name), r) && !IsAutoLoginPath(config, r.path)
  {
    ScriptBypassMeaning(scope.spec, config, r);
    AcceptedWithoutToken(scope, name, r);
  }

  const DEFAULT_CONFIG := AutoLoginConfig("/oauth2/callback", "/logout", None)

  lemma OtherLiteralPath(path: string, p: string)
    requires WellFormed(Plain(path)) && p != path
    ensures !StringMatch(p, ConvertRequestMatcherPathToLuaPattern(path))
  {
    PlainAccepted(path);
    GeneratedPatternDenotesThePath(path, p);
    PlainPatternLanguage(path, p);
  }

  lemma LiteralLoginPaths(config: AutoLoginConfig, p: string)
    requires WellFormed(Plain(config.redirectPath)) && WellFormed(Plain(config.logoutPath)) && config.loginPath.None?
    requires p != config.redirectPath && p != config.logoutPath
    ensures !IsAutoLoginPath(config, p)
  {
    OtherLiteralPath(config.redirectPath, p);
    OtherLiteralPath(config.logoutPath, p);
  }

  lemma DefaultLoginPathsAreLiteral()
    ensures WellFormed(Plain(DEFAULT_CONFIG.redirectPath)) && WellFormed(Plain(DEFAULT_CONFIG.logoutPath))
  {}

  lemma AdminIsNoDefaultLoginPath()
    ensures !IsAutoLoginPath(DEFAULT_CONFIG, "/admin")
  {
    DefaultLoginPathsAreLiteral();
    assert "/admin"[1] == 'a' && DEFAULT_CONFIG.redirectPath[1] == 'o' && DEFAULT_CONFIG.logoutPath[1] == 'l';
    LiteralLoginPaths(DEFAULT_CONFIG, "/admin");
  }

  /** An ignore rule without paths: `/admin` is accepted without a token, but the script sends it to
      the login. */
  lemma BackEndsDisagreeOnAdmin(name: string)
    ensures var scope, r := Scope(OpeningSpec(), [], "issuer", false), Request("/admin", "GET", None);
      Accepts(Compiled(scope, name), r) && !IsAutoLoginPath(DEFAULT_CONFIG, r.path)
      && !ScriptBypasses(scope.spec, DEFAULT_CONFIG, r)
  {
    var scope, r := Scope(OpeningSpec(), [], "issuer", false), Request("/admin", "GET", None);
    PathlessIgnoreRuleOpensAdmin(name);
    AdminIsNoDefaultLoginPath();
    OpeningSpecRules();
    OnlyPathlessIgnoreRule(scope.spec, r.path, r.method_);
    ScriptBypassMeaning(scope.spec, DEFAULT_CONFIG, r);
  }

  /** The decisions of `envoy_on_request` on a raw request target. */
  method EnvoyOnRequest(spec: AuthPolicySpec, config: AutoLoginConfig, rawPath: string, m: string)
    returns (bypass: bool, denyRedirect: bool)
    requires AllPathsValid(spec)
    ensures var r := Request(PathWithoutQuery(rawPath), m, None);
      && (bypass <==>
          && r.path != "" && m != ""
          && SomeIgnoreRuleMatches(spec, r) && !SomeAuthRuleMatches(spec, r)
          && !StringMatch(r.path, ConvertRequestMatcherPathToLuaPattern(config.redirectPath))
          && !StringMatch(r.path, ConvertRequestMatcherPathToLuaPattern(config.logoutPath))
          && (config.loginPath.Some? ==>
                !StringMatch(r.path, ConvertRequestMatcherPathToLuaPattern(config.loginPath.value))))
      && (denyRedirect <==>
          && r.path != "" && m != "" && spec.authRules.Some?
          && exists rule | rule in spec.authRules.value ::
               rule.denyRedirect == Some(true) && MatcherMatches(rule.matcher, r))
  {
    var p := PathWithoutQuery(rawPath);
    ghost var r := Request(p, m, None);
    var denyMatchers := DenyRedirectMatchers(AuthRules(spec));
    bypass := ShouldBypass(LuaTable(IgnoreAuthRequestMatchers(spec)), LuaTable(RequireAuthMatchers(spec, config)), p, m);
    ScriptBypassMeaning(spec, config, r);
    denyRedirect := ShouldDenyRedirect(LuaTable(denyMatchers), p, m);
    forall matcher | matcher in denyMatchers ensures PathsAreValid(matcher) {
      assert forall path | path in matcher.paths :: MentionsPath(spec, path);
    }
    TableOfValidMatchers(denyMatchers, r);
  }
}
