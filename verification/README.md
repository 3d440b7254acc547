# Ztoperator, modelled and proved in Dafny

Ztoperator turns an `AuthPolicy` resource into Istio resources. It compiles the policy to three
AuthorizationPolicies (a DENY policy, an ALLOW policy for ignored paths, an ALLOW policy for everything else) and,
independently, to a Lua filter that decides about login redirects. This project models both compilers, the path
language they share, the printers of the Lua script, the redirect rewriter, and the loop that reconciles the six
resources and reports a status. `dafny verify dfyconfig.toml` checks the whole project.

## What is proved

- **The compiled policies mean the policy.** For every scope and request, what the three policies accept, over the
  fields of resource and token alone (`PolicyMeaning.CompiledPoliciesAccept`); if no list is left empty, that is what
  the AuthPolicy permits (`PolicyCompiler.CompiledPoliciesMeanThePolicy`, `PolicyMeaning.PermitsMeans`), and for any
  policy, path and method it is so for every token if and only if a condition on the rules holds
  (`CompilerLimits.PoliciesDecideExactlyIff`). After a pass without failures the cluster holds exactly these policies
  (`ClusterMeaning.ReconciledClusterMeansThePolicy`), for the workloads of the AuthPolicy only (`ClusterContents`).
- **The two back ends agree.** Login is bypassed for exactly the requests that the policies accept without a token
  and that are not part of the login flow, if every rule names a path (`LuaDecision.BackEndsAgree`); for any validated
  policy, if and only if no rule without paths makes the difference (`LuaDecision.BackEndsAgreeIff`). Both hold for the
  tables that are read from the printed text, if the login paths survive printing (`PrintedScript`).
- **One path language.** The stateful validator accepts exactly a declarative grammar; the Istio rewrite and the
  generated Lua pattern, run by a backtracking matcher, both denote the language of the path; Istio's side is read
  segment by segment and the Lua side character by character.
- **The printed script reads back.** Strings, rule tables and login parameters are parsed back to what was printed, rule
  tables exactly if no path has a quote, backslash, line break or NUL byte. Under every table iteration order a
  redirect carries what the script reads from the old query, overridden; to an independent reader that is the old
  query, overridden, exactly if what is not overridden consists of well-formed fields of their own.
- **Reconciliation.** Over every run with arbitrary failures (a failing write may or may not have taken effect)
  foreign objects stay untouched and policy actions follow policy names; a failure-free pass converges, whatever
  failed before it, field by field, and the next one writes none of the six objects; status and conditions say what
  failed (`StatusMeaning`), and each condition dates from the first pass of its current streak
  (`StatusHistory.ConditionsDateFromTheirStreak`).

## How the code is modelled

A `char` is one byte of a Go string. A request is its path without the query, its method, and the verified claims
of its token if it has one; whether a claim has a value is an arbitrary predicate. Paths mean what `PathLanguage`
says: a literal path only itself, a final `*` any rest, `{*}` a non-empty text without slashes, `{**}` any text.
Istio's decision (`Istio.Accepts`): deny policies first, then at least one allow rule; a rule matches if any
operation and all conditions match; an empty list is no constraint; a negated condition also holds for a missing
claim. An Istio path template is matched segment by segment (`PathTemplates.TemplateMatches`).

Code that changes things step by step is a method or a class (`TemplateState`, `DescendantLog`, `CurrentObject`,
`Cluster`, `ResponseHeaders`, `AuthPolicyStatus`, slices over shared arrays) proved against a specification
function; the laws are lemmas about these functions. API calls are map updates that may fail, with or without
effect, in any pattern. HMAC bytes, clocks, the wording of validation errors and the order in which tables and maps
are traversed are arbitrary.

What the compilers rely on: every path is valid (the validator), every method is a known one (the enumeration in the
resource schema), and no path ends in slashes behind a `prefix{**}` segment (the documentation of the resource,
`api/v1alpha1/authpolicy_types.go:292`). That every matcher names a path and every condition a value is a further
assumption, made only where it is stated: neither the schema nor the validator asks for it.

## Where code and documentation part

- `api/v1alpha1/authpolicy_types.go:292` says a path must not end with `/`; nothing enforces it. It matters exactly
  for `prefix{**}/`: it validates, is not rewritten, is not Istio syntax, and loses requests
  (`IstioPaths.RewriteIsIstioSyntax`, `IstioPaths.RewritePreservesLanguageIffNoSlashFollows`).
- Empty lists are allowed by the schema, and Istio's decision reads them as no constraint. An ignore rule without paths
  opens every path that no auth rule matches, `/admin` included; an auth rule without paths demands its conditions
  everywhere and closes ignored paths; a baseline claim without values lets any token of the issuer through
  (`CompilerLimits.PathlessIgnoreRuleOpensAdmin`, `CompilerLimits.PathlessAuthRuleClosesIgnoredPath`,
  `CompilerLimits.ValuelessBaselineClaimOpensAdmin`). A `when` condition without values does no harm. In the Lua tables
  a rule without paths has no entry, so the back ends can disagree (`LuaDecision.BackEndsDisagreeOnAdmin`).
- The ALLOW loop keeps slices that were appended to one shared base slice. With spare capacity a rule can end up
  with the conditions of a later one. This never widens access, but it can reject a permitted request
  (`SharedConditions.SpareCapacityCanRejectAPermittedRequest`). For any policy, path, method and capacity the policies
  still decide rightly, for every token, if and only if the policy is exact there and, where an auth rule selects and
  neither an ignore rule nor the complement rule accepts, whatever final condition is picked from each selecting rule,
  some condition of the matching rules has all its values among the picked ones
  (`SharedLimits.SharedPoliciesDecideExactlyIff`). The DENY loop consumes each list before the next append and is safe
  for every capacity.
- Login parameters are said to be merged into the redirect. They are dropped when the location has no query, when a
  value is empty, and always when the identity provider has no end-session endpoint: `""` is a prefix of every
  location, so the logout block rewrites the original location last. A location that starts with `?` makes the
  script fail.
- The script reads a query by its own pattern, which stops a value at `=` and `?` and skips fields without a value:
  `s=a==` arrives as `s=a` (`RedirectRewrite.LoginRewriteTruncatesPaddedValue`). It loses nothing exactly if the fields
  are distinct, well-formed pairs (`StandardQuery.ReadingsAgreeIffWellFormed`).
- The table printer escapes methods but not patterns. Valid paths are safe; the redirect, logout and login paths of
  auto-login are printed the same way without having been validated, and the table then reads back if and only if
  they have no quote, backslash, line break or NUL byte (`LuaTables.RequireTableReadsBackIff`); `/a"b` breaks it.
- "Pending due to missing descendants" is reported exactly when a resource that should *not* be there failed to be
  looked up or deleted (`Status.StatusAgreesWithThePass`); the condition "was not created" is never produced
  (`StatusConditions.NotFoundConditionsAreEmpty`).
- A comment says that the status is updated if it changed (`internal/statusmanager/status_manager.go:27`). It is
  compared with a copy taken after `InitializeStatus` made it pending, so every pass writes it, also a pass that changes
  nothing, unless it is pending with the message and the conditions that are stored (`Controller.Reconcile`).
- Updates of an AuthorizationPolicy neither compare nor set its action. It stays right because the derived names
  never collide (`ReconcilerSafety.OperatorRunKeepsActions`, `Names.PolicyNamesNeverCollide`).

## Model

| member | source | states |
|---|---|---|
| PathValidation.HasRawAsteriskOutsideCurlyBrackets | pkg/validation/path_classifier.go:39-54 | the flag loop finds a `*` exactly if some `*` has no open bracket as the last bracket before it |
| PathValidation.ValidatePlainPathLiterals | pkg/validation/path_validation.go:56-66 | reports the first non-empty segment that is not a literal |
| PathValidation.TemplateState.ValidateTemplatePathSegment | pkg/validation/path_validation.go:87-132 | one segment: the new state of both flags, or the error and unchanged flags |
| PathValidation.ValidateTemplatePath | pkg/validation/path_validation.go:73-85 | the mutable state threaded through all segments computes the scan of the whole path |
| PathValidation.ValidatePath | pkg/validation/path_validation.go:33-54 | classification, then the scan of its kind, with the error each branch returns |
| PathValidation.ValidatePaths | pkg/validation/path_validation.go:24-31 | no error exactly if every path is valid; otherwise the error of the first invalid path |
| PathValidation.ValidatorAcceptsExactlyTheGrammar | pkg/validation/path_validation.go:33-140 | a path is accepted if and only if it is plain literals, literals and a final `*`, or template segments with `{**}` as last operator and `prefix{**}` only last and alone |
| PathValidation.PlainPathCharacters | pkg/validation/path_validation.go:18-22 | a path without operators is accepted if and only if it consists of slashes and the characters listed one by one |
| PathValidation.TemplateSegments | pkg/validation/path_validation.go:134-140 | trimming and splitting recovers exactly the segments of a template, whatever slashes surround it |
| PathLanguage.MatchesIffDecomposes | api/v1alpha1/authpolicy_types.go:290-303 | a text is in the language of a path exactly if it can be cut into one piece per token of the path, each standing for its token |
| PathTemplates.TemplateMatchesTheLanguage | pkg/validation/path_transformation.go:28-32 | a template of standalone operators, matched segment by segment, denotes the language of the path read character by character |
| IstioPaths.TransformPathsForIstio | pkg/validation/path_transformation.go:12-18 | fills the result index by index with the rewrite of each path |
| IstioPaths.TransformChangesOnlyEmbeddedAny | pkg/validation/path_transformation.go:20-42 | among valid paths the rewrite changes exactly those that end in `prefix{**}` |
| IstioPaths.TransformIsIdempotent | pkg/validation/path_transformation.go:20-42 | rewriting twice is rewriting once, for every text |
| IstioPaths.OtherOperatorsBranchIsUnreachable | pkg/validation/path_transformation.go:34-38 | no valid path reaches the branch for other operators |
| IstioPaths.RewriteIsIstioSyntax | pkg/validation/path_transformation.go:20-42 | the rewritten path is Istio syntax if and only if no slashes follow a `prefix{**}` segment |
| IstioPaths.SlashAfterEmbeddedAnyIsPossible | pkg/validation/path_transformation.go:22-24 | `/a{**}/` is a valid path that is not rewritten to Istio syntax |
| IstioPaths.RewritePreservesLanguage | pkg/validation/path_transformation.go:5-42 | Istio matches on the rewritten path exactly the language of the path |
| IstioPaths.RewritePreservesLanguageIffNoSlashFollows | pkg/validation/path_transformation.go:20-42 | a valid path keeps its whole language if and only if no slashes follow a `prefix{**}` segment |
| LuaPattern.NoWildcardReachesEscaping | pkg/luascript/matcher_path_converter.go:48-51 | the panic is unreachable for every string, valid or not |
| LuaPattern.PipelineIsOnePass | pkg/luascript/matcher_path_converter.go:24-44 | on every valid path the placeholder pipeline equals a one-pass translation of its tokens: placeholders do not collide, neighbouring stars do not merge |
| LuaMatcher.GeneratedPatternInFragment | pkg/luascript/matcher_path_converter.go:20-66 | the pattern of a text, valid path or not, is a Lua pattern of constructs that the matcher gives their Lua meaning if and only if the text has no NUL byte |
| LuaMatcher.GeneratedPatternDenotesThePath | pkg/luascript/matcher_path_converter.go:20-66 | the backtracking matcher succeeds on the generated pattern exactly for the language of the path |
| Policy.GetRequestMatchers | api/v1alpha1/authpolicy_types.go:430-438 | the matchers of the auth rules, in order; none for an absent list |
| Policy.GetPaths | api/v1alpha1/authpolicy_types.go:440-453 | the paths of the auth rules followed by those of the ignore rules, in order; together exactly the paths that some rule mentions |
| Policy.ValidateAuthPolicy | internal/controller/authpolicy_controller.go:259-278 | the configuration is marked invalid exactly if some path is invalid, and the error is that of the first such path |
| Generators.MakeConditions | pkg/resourcegenerators/authorizationpolicy/common.go:14-88 | the loop turns each condition into its allow form, or into the negated form for deny policies, in order |
| Generators.WithDenyConditions | pkg/resourcegenerators/authorizationpolicy/deny/authorization_policy.go:49-61 | base conditions followed by the negated conditions of the `when` clause |
| Generators.GetDesiredDeny | pkg/resourcegenerators/authorizationpolicy/deny/authorization_policy.go:15-79 | the early returns and nested loops build the deny policy whose meaning DenyRulesCompile gives |
| Generators.GetDesiredIgnore | pkg/resourcegenerators/authorizationpolicy/ignore/authorization_policy.go:12-51 | one rule with one operation per ignore matcher and no conditions, or no policy |
| Generators.WithAllowConditions | pkg/resourcegenerators/authorizationpolicy/require/authorization_policy.go:89-102 | base conditions followed by the conditions of the `when` clause |
| Generators.ConstructSpecifiedPathsAllowRules | pkg/resourcegenerators/authorizationpolicy/require/authorization_policy.go:83-116 | one allow rule per auth rule with its rewritten paths, methods and its own conditions |
| Generators.ConstructUnspecifiedPathsAllowRule | pkg/resourcegenerators/authorizationpolicy/require/authorization_policy.go:122-166 | the complement rule that UnspecifiedCoversTheRest shows to be complete |
| Generators.GetDesiredRequire | pkg/resourcegenerators/authorizationpolicy/require/authorization_policy.go:16-60 | the allow policy: complement rule first, then the specified rules; one rule for all paths without matchers |
| PolicyCompiler.MatcherCompiles | pkg/resourcegenerators/authorizationpolicy/ignore/authorization_policy.go:31-40 | the operation of a matcher selects exactly the requests on its paths, or on every path if it has none, with its methods |
| PolicyCompiler.DenyRulesCompile | pkg/resourcegenerators/authorizationpolicy/deny/authorization_policy.go:43-79 | the deny rules match exactly the requests that some selecting auth rule does not permit, whatever lists are empty |
| PolicyCompiler.UnspecifiedCoversTheRest | pkg/resourcegenerators/authorizationpolicy/require/authorization_policy.go:122-166 | the complement rule reaches every request that no matcher selects, by path or by method, if it has a path or a matcher has none |
| PolicyCompiler.SpecifiedConditionsNeverWidenAccess | pkg/resourcegenerators/authorizationpolicy/require/authorization_policy.go:83-116 | whatever conditions the specified rules carry, nothing more is accepted than with their own |
| PolicyCompiler.CompiledPoliciesAdmit | pkg/resourcegenerators/authorizationpolicy/require/authorization_policy.go:16-166 | for every validated policy and request, empty lists included: what the three policies accept |
| PolicyCompiler.CompiledPoliciesMeanThePolicy | pkg/resourcegenerators/authorizationpolicy/require/authorization_policy.go:16-166 | main theorem: if no list is empty, the three policies accept a request exactly if it has a path and the AuthPolicy permits it |
| PolicyMeaning.BaseConditionsMean | pkg/resourcegenerators/authorizationpolicy/common.go:37-100 | the base conditions hold exactly for a token with the issuer under `request.auth.claims[iss]`, an audience or accepted resource under `request.auth.claims[aud]` unless none is named, and every baseline claim |
| PolicyMeaning.PermitsMeans | api/v1alpha1/authpolicy_types.go:54-89 | what an AuthPolicy permits, over the fields of the resource alone |
| PolicyMeaning.CompiledPoliciesAccept | pkg/resourcegenerators/authorizationpolicy/require/authorization_policy.go:16-166 | for every scope, enabled or not, valid or not, and every request: what the compiled policies accept, over the fields of scope, resource and token alone |
| PolicyMeaning.PolicyWithoutRulesAccepts | pkg/resourcegenerators/authorizationpolicy/common.go:74-100 | in particular without rules: exactly the requests with a good token |
| CompilerLimits.MatcherIsExactIffItNamesAPath | api/v1alpha1/authpolicy_types.go:290-297 | a compiled matcher is exact if and only if it names a path |
| CompilerLimits.ConditionIsExactIffItNamesAValue | pkg/resourcegenerators/authorizationpolicy/common.go:38-88 | the allow form is exact if and only if the condition lists a value; the deny form always is |
| CompilerLimits.EntailsIffEveryTokenFollows | pkg/resourcegenerators/authorizationpolicy/common.go:38-88 | one list of claim conditions implies another for every token if and only if a syntactic comparison of claims and values says so |
| CompilerLimits.PoliciesDecideExactlyIff | pkg/resourcegenerators/authorizationpolicy/require/authorization_policy.go:16-166 | for every validated policy, path and method: the policies decide as the AuthPolicy for every token if and only if the rules are exact there |
| CompilerLimits.PathlessIgnoreRulesOpen | pkg/resourcegenerators/authorizationpolicy/ignore/authorization_policy.go:29-50 | an ignore rule without paths accepts, besides what is permitted, its methods on every path that no auth rule matches |
| CompilerLimits.PathlessAuthRulesDemand | pkg/resourcegenerators/authorizationpolicy/deny/authorization_policy.go:43-79 | where an auth rule without paths applies, the base conditions and those of all matching and all such rules are demanded |
| CompilerLimits.ValuelessBaselineClaimsDemandNothing | pkg/resourcegenerators/authorizationpolicy/common.go:38-88 | a baseline claim without values is no constraint where no auth rule matches |
| CompilerLimits.PathlessIgnoreRulesAreHarmlessIff | pkg/resourcegenerators/authorizationpolicy/ignore/authorization_policy.go:29-50 | ignore rules without paths leave the policy exact on all request paths if and only if other rules cover what they open |
| CompilerLimits.PathlessIgnoreRuleOpensAdmin | api/v1alpha1/authpolicy_types.go:290-297 | a policy that opens `/admin` without a token, although it is not permitted |
| CompilerLimits.PathlessAuthRuleClosesIgnoredPath | api/v1alpha1/authpolicy_types.go:290-297 | a policy that ignores `/public` and rejects it |
| CompilerLimits.ValuelessBaselineClaimOpensAdmin | api/v1alpha1/authpolicy_types.go:328-341 | a policy that lets a token without the demanded claim through to `/admin` |
| CompilerLimits.InvalidPolicyRejectsEverything | pkg/resourcegenerators/authorizationpolicy/deny/authorization_policy.go:21-35 | the policies compiled from an invalid AuthPolicy reject every request with a path |
| CompilerLimits.ComplementRuleSyntax | pkg/resourcegenerators/authorizationpolicy/require/authorization_policy.go:122-166 | the complement rule is Istio syntax if and only if no path of the policy has slashes after `prefix{**}` |
| LuaDecision.DenyRedirectMatchers | pkg/luascript/lua_script_generator.go:99-109 | the matchers of the rules that deny redirects, each once per rule and in order |
| LuaDecision.Match | pkg/luascript/ztoperator.lua:10-20 | true exactly if some rule's pattern matches and its method set is empty or has the method |
| LuaDecision.ShouldBypass | pkg/luascript/ztoperator.lua:23-32 | path and method present, ignored, and not required |
| LuaDecision.ShouldDenyRedirect | pkg/luascript/ztoperator.lua:35-44 | path and method present and matched by the deny-redirect table |
| LuaDecision.EnvoyOnRequest | pkg/luascript/ztoperator.lua:50-62 | both header values in terms of the AuthPolicy's rules, for the target up to its query |
| LuaDecision.ScriptBypassesExactly | pkg/luascript/lua_script_generator.go:92-126 | login is bypassed exactly for what an ignore rule matches, no auth rule matches, and the pattern of neither the redirect, the logout nor the configured login path matches |
| LuaDecision.ScriptBypassesByLanguage | pkg/luascript/lua_script_generator.go:92-126 | the same over the languages of the three paths, if they are valid |
| LuaDecision.TableMatchesSomeMatcher | pkg/luascript/request_matcher_converter.go:15-45 | the flattened table matches exactly if some matcher has a matching pattern and accepts the method |
| LuaDecision.BackEndsAgree | pkg/luascript/ztoperator.lua:10-32 | if every matcher names a path, the script bypasses login exactly for the requests that the policies accept without token and that are not login-flow paths |
| LuaDecision.BackEndsAgreeIff | pkg/luascript/lua_script_generator.go:92-126 | for every validated policy and request the back ends agree if and only if no rule without paths makes the difference |
| LuaDecision.BackEndsDisagreeOnAdmin | pkg/luascript/lua_script_generator.go:92-97 | with the default login paths, a policy for which `/admin` is accepted without token but sent to the login |
| LuaText.EscapedStringReadsBack | pkg/luascript/lua_string_escape.go:19-31 | lexing the escaped string and a quote gives the string without NUL bytes and leaves the rest |
| LuaText.EscapedStringHasNoControls | pkg/luascript/lua_string_escape.go:10-18 | an escaped string contains no line break, tab, feed or NUL byte |
| LuaText.RawStringReadsBackIffSafe | pkg/luascript/request_matcher_converter.go:26-28 | an unescaped text reads back if and only if it has no quote, backslash, line break or NUL byte |
| LuaText.LexedAsItselfIsSafe | pkg/luascript/request_matcher_converter.go:26-28 | a text that is lexed as itself, wherever the lexer then stops, is such a text |
| LuaText.PatternIsSafeIffPathIs | pkg/luascript/matcher_path_converter.go:20-66 | for every text: its pattern has a quote, backslash, line break or NUL byte if and only if the text has |
| LuaText.ValidPathPatternIsSafe | pkg/luascript/matcher_path_converter.go:20-22 | the pattern of a valid path is such a text |
| LuaTables.WriteMethods | pkg/luascript/request_matcher_converter.go:30-39 | writes the methods separated by commas, none for an empty list |
| LuaTables.WriteEntries | pkg/luascript/request_matcher_converter.go:20-41 | extends the entries printed so far by those of one matcher, with a separator unless it is the first |
| LuaTables.ConvertRequestMatchersToLuaTableString | pkg/luascript/request_matcher_converter.go:15-45 | the nested loops with their `first` flag print the table of all entries |
| LuaTables.PrintedTableReadsBack | pkg/luascript/request_matcher_converter.go:15-45 | parsing the printed table gives one rule per path in order, each with the method set of its matcher |
| LuaTables.ValidatedMatchersArePrintable | pkg/luascript/request_matcher_converter.go:26-38 | matchers with valid paths and accepted methods print a table that reads back |
| LuaTables.TableReadsBackIffPathsAreSafe | pkg/luascript/request_matcher_converter.go:15-45 | for any paths: the printed table reads back if and only if no path has a quote, backslash, line break or NUL byte |
| LuaTables.RequireTableReadsBackIff | pkg/luascript/lua_script_generator.go:111-126 | for a validated policy this hangs on the unvalidated paths of auto-login alone |
| LuaTables.QuotedRedirectPathBreaksTheTable | pkg/luascript/lua_script_generator.go:117-125 | the redirect path `/a"b` breaks the table of every policy |
| LuaTables.NulInRedirectPathBreaksTheTable | pkg/luascript/lua_string_escape.go:18-18 | so does a redirect path with a NUL byte, which is never valid in a string literal |
| PrintedScript.PrintedScriptAgreesIff | pkg/luascript/lua_script_generator.go:48-88 | by the tables read from the printed text, for every validated policy and request and login paths without quotes, backslashes, line breaks and NUL bytes: the back ends agree if and only if no rule without paths makes the difference |
| PrintedScript.PrintedScriptAgrees | pkg/luascript/ztoperator.lua:1-32 | in particular if every matcher names a path: by the printed tables login is bypassed exactly for what the policies accept without token outside the login flow |
| PrintedScript.PrintedScriptDeniesRedirect | pkg/luascript/ztoperator.lua:3-44 | by the printed table a redirect is denied exactly for what a denying auth rule matches |
| LuaLoginParams.SortedKeys | pkg/luascript/login_param_converter.go:32-36 | collects and sorts the keys of a map, whatever order it is traversed in |
| LuaLoginParams.ConvertLoginParamsToLuaParams | pkg/luascript/login_param_converter.go:26-51 | prints the encoded parameters in the order of their sorted keys |
| LuaLoginParams.SortedListIsUnique | pkg/luascript/login_param_converter.go:36-36 | a set of keys has one sorted list |
| LuaLoginParams.LessIsLexicographic | pkg/luascript/login_param_converter.go:36-36 | a proper prefix comes first, otherwise the first different byte decides |
| LuaLoginParams.PrintedLoginParamsAreDeterministic | pkg/luascript/login_param_converter.go:16-18 | any two sorted orders print the same text |
| LuaLoginParams.PrintedLoginParamsReadBack | pkg/luascript/login_param_converter.go:26-59 | the printed table reads back as each key with its encoded value |
| LuaLoginParams.EscapedValueIsFieldText | pkg/luascript/login_param_converter.go:53-59 | an encoded value contains no delimiter of query fields and no NUL, and is empty only if the value was |
| LuaLoginParams.EscapedValueReadsBack | pkg/luascript/lua_script_generator.go:59-68 | percent-decoding, stated independently, gives back every escaped string of bytes |
| QueryString.WrittenQueryReadsBack | pkg/luascript/ztoperator.lua:74-86 | in whatever order parameters are written, exactly those with a value are read back |
| StandardQuery.ReadingsAgreeIffWellFormed | pkg/luascript/ztoperator.lua:72-76 | the script reads a query as an independent reader does (fields between `&`, split at the first `=`) if and only if the fields are distinct, well-formed pairs |
| StandardQuery.ReadsTheSameIffFieldsOfTheirOwn | pkg/luascript/ztoperator.lua:72-82 | the same with some keys removed or overridden, for every query and every such keys: if and only if the other fields are well-formed and alone with their key, and no removed or overridden field hides a pair of another key, or else it repeats the field that the key has |
| StandardQuery.WrittenQueryValues | pkg/luascript/ztoperator.lua:80-86 | in whatever order parameters are written, an independent reader finds exactly them |
| StandardQuery.PaddedValueIsTruncated | pkg/luascript/ztoperator.lua:74-76 | `s=a==` is read as `s=a` |
| RedirectRewrite.CollectParams | pkg/luascript/ztoperator.lua:73-76 | the loop over the pairs fills a table in which later pairs win |
| RedirectRewrite.Override | pkg/luascript/ztoperator.lua:77-79 | the table overridden by the login parameters, whatever order they are traversed in |
| RedirectRewrite.Assemble | pkg/luascript/ztoperator.lua:80-86 | the base and the parameters in some order, without a question mark if there are none |
| RedirectRewrite.RewriteLogin | pkg/luascript/ztoperator.lua:70-87 | a location with the old base that spells the merged parameters |
| RedirectRewrite.RewriteLogout | pkg/luascript/ztoperator.lua:90-110 | a location with the old base that spells the parameters with the configured post-logout URI or without any |
| RedirectRewrite.EnvoyOnResponse | pkg/luascript/ztoperator.lua:64-114 | the location a redirect ends up with, over the two endpoints and the login parameters; when the script fails; everything else stays |
| RedirectRewrite.LoginRewriteMergesParams | pkg/luascript/ztoperator.lua:69-87 | the base stays; the script reads its rewritten query back as what it read from the old one, overridden by the login parameters, if and only if there was a query |
| RedirectRewrite.LoginRewriteKeepsReadingIff | pkg/luascript/ztoperator.lua:69-87 | to an independent reader the new query is the old one overridden by the login parameters if and only if what is not overridden consists of well-formed fields of their own; in particular if the query is all distinct, well-formed pairs |
| RedirectRewrite.LoginRewriteTruncatesPaddedValue | pkg/luascript/ztoperator.lua:74-76 | a location whose value arrives truncated |
| RedirectRewrite.LoginRewriteIsStable | pkg/luascript/ztoperator.lua:69-87 | rewriting again leaves base and parameters unchanged, whatever orders are used |
| RedirectRewrite.EmptyLoginValuesAreLost | pkg/luascript/ztoperator.lua:73-84 | the merged parameters all read back if and only if no login value is empty |
| RedirectRewrite.LoginParamArrivesIffNotEndSession | pkg/luascript/ztoperator.lua:69-110 | a login parameter of its own reaches the location if and only if the location is not under the end-session endpoint |
| RedirectRewrite.LogoutRewriteSetsUri | pkg/luascript/ztoperator.lua:90-110 | a logout redirect carries exactly the configured URI, or none, and the other parameters that the script read |
| RedirectRewrite.LogoutRewriteKeepsReadingIff | pkg/luascript/ztoperator.lua:90-110 | the same for a logout redirect and the post-logout URI |
| RedirectConfig.ConfiguredLoginParamsArrive | pkg/luascript/lua_script_generator.go:59-88 | a redirect to the authorization URI that is not under the end-session URI of the settings: the encoded login parameters arrive if and only if none is empty, and each that has a value can be decoded to it |
| RedirectConfig.ConfiguredLogoutUriArrives | pkg/luascript/lua_script_generator.go:61-87 | a redirect to the end-session URI of the settings, or any if there is none: the configured post-logout URI arrives and can be decoded, or none if none is configured |
| RedirectConfig.OtherRedirectsStay | pkg/luascript/ztoperator.lua:69-90 | a redirect under neither URI, or to the authorization URI without login parameters, stays as it is |
| RedirectConfig.LoginParamsNeedAnEndSessionEndpoint | pkg/luascript/lua_script_generator.go:70-76 | without an end-session endpoint a login parameter is in the location only if it was there before |
| SliceSharing.Append | pkg/resourcegenerators/authorizationpolicy/require/authorization_policy.go:93-100 | Go's append: the new contents, and whether the shared array was written or left |
| SliceSharing.ConsumedLists | pkg/resourcegenerators/authorizationpolicy/deny/authorization_policy.go:47-76 | the deny loop reads exactly each rule's own conditions, for every capacity of the base slice |
| SliceSharing.AppendAll | pkg/resourcegenerators/authorizationpolicy/require/authorization_policy.go:90-102 | one iteration: the list's contents and what it leaves in the spare capacity of the base |
| SliceSharing.KeptLists | pkg/resourcegenerators/authorizationpolicy/require/authorization_policy.go:89-113 | what each kept list of the allow loop holds when the loop is over |
| SliceSharing.NoSpareCapacityNoSharing | pkg/resourcegenerators/authorizationpolicy/require/authorization_policy.go:89-113 | without spare capacity every rule keeps its own conditions |
| SliceSharing.ListsKeepTheirOwnIffLastWritersAgree | pkg/resourcegenerators/authorizationpolicy/require/authorization_policy.go:89-113 | for any lists and capacity, every list keeps its own elements if and only if the last list written to each shared position agrees with it |
| SliceSharing.LastToShareKeepsItsOwn | pkg/resourcegenerators/authorizationpolicy/require/authorization_policy.go:89-113 | in particular if no list that fits into the spare capacity is followed by a non-empty one |
| SharedConditions.SpecifiedPathsAllowRules | pkg/resourcegenerators/authorizationpolicy/require/authorization_policy.go:83-116 | the rules as the loop over shared slices leaves them, for every capacity |
| SharedConditions.SharingNeverWidensAccess | pkg/resourcegenerators/authorizationpolicy/require/authorization_policy.go:83-116 | whatever the capacity, the policies with these rules accept only what the AuthPolicy permits |
| SharedConditions.SharedPoliciesAdmit | pkg/resourcegenerators/authorizationpolicy/require/authorization_policy.go:16-116 | for every validated policy, request and capacity: what the policies with these rules accept; only where an auth rule selects, nothing else accepts, and no selecting rule lets the request through with the conditions it ends up with is something taken away |
| SharedConditions.LoosenedListsAreExact | pkg/resourcegenerators/authorizationpolicy/require/authorization_policy.go:83-116 | if whatever is overwritten is overwritten with a condition at least as loose, the policies accept exactly what is permitted |
| SharedConditions.UnsharedListsAreExact | pkg/resourcegenerators/authorizationpolicy/require/authorization_policy.go:83-116 | in particular if it is overwritten with the same condition |
| SharedConditions.LooserLastWriterDoesNoHarm | pkg/resourcegenerators/authorizationpolicy/require/authorization_policy.go:90-100 | a policy whose first rule ends up with another, looser condition and which still decides every request rightly |
| SharedLimits.EntailsSomeIffEveryTokenPasses | pkg/resourcegenerators/authorizationpolicy/require/authorization_policy.go:83-116 | every token that satisfies the assumed conditions passes one of several lists if and only if, whatever is picked from the lists, some assumed condition has all its values among the picked ones |
| SharedLimits.SharedPoliciesDecideExactlyIff | pkg/resourcegenerators/authorizationpolicy/require/authorization_policy.go:16-116 | for every validated policy, path, method and capacity: the policies of the sharing loop decide as the AuthPolicy for every token if and only if a condition on its rules and their final conditions holds |
| SharedConditions.SpareCapacityCanRejectAPermittedRequest | pkg/resourcegenerators/authorizationpolicy/require/authorization_policy.go:90-100 | a policy of two rules over five base conditions, and a permitted request that is rejected with one spare position |
| Names.PolicyNamesNeverCollide | internal/names/names.go:3-7 | the names of two different policy kinds differ for any two base names |
| Resources.LabelsNeedUpdate | internal/reconciler/resources.go:256-265 | true exactly if a desired label is missing or different |
| Resources.UpdateSettles | internal/reconciler/resources.go:61-248 | after an update nothing is left to update, for each of the four kinds |
| Resources.ControllerResourcesAreDistinct | internal/reconciler/resources.go:26-35 | the six resources have six different keys for every policy name |
| Reconciler.CurrentObject.Update | internal/reconciler/resources.go:244-248 | overwrites labels and managed fields in place and nothing else, in particular not the action |
| Reconciler.DescendantLog.ReplaceDescendant | internal/state/scope.go:69-95 | overwrites the first descendant with the identifier, or appends one |
| Reconciler.DescendantLog.GetErrors | internal/state/scope.go:57-67 | the error messages of the descendants in order |
| Reconciler.ReconcileOnCreate | pkg/reconciliation/reconciler.go:211-257 | cluster, report and error of a creation whose owner reference or call may fail |
| Reconciler.ReconcileOnUpdate | pkg/reconciliation/reconciler.go:259-294 | cluster, report and error of a patch with the managed fields |
| Reconciler.ReconcileOnDelete | pkg/reconciliation/reconciler.go:296-331 | cluster, report and error of a deletion; a success reports nothing |
| Reconciler.ReconcileControllerResource | pkg/reconciliation/reconciler.go:75-331 | cluster, descendants, error and number of writes after one resource, under every failure |
| Reconciler.DoReconcile | internal/controller/authpolicy_controller.go:145-200 | the pass goes on after failures and returns an error exactly if some resource failed |
| ReconcilerSafety.PassTouchesOnlyOwn | pkg/reconciliation/reconciler.go:177-209 | a pass changes, deletes and adds only objects the AuthPolicy controls, whatever fails |
| ReconcilerSafety.RunTouchesOnlyOwn | pkg/reconciliation/reconciler.go:108-146 | the same over every run of passes with arbitrary wishes and failures |
| ReconcilerSafety.DenyNamesDeny | internal/names/names.go:5-5 | for every base name, the derived deny name is one that stands for DENY |
| ReconcilerSafety.IgnoreNamesAllow | internal/names/names.go:6-6 | for every base name, the derived ignore name is one that stands for ALLOW, and not for DENY |
| ReconcilerSafety.RequireNamesAllow | internal/names/names.go:7-7 | for every base name, the derived require name is one that stands for ALLOW, and not for DENY |
| ReconcilerSafety.OperatorRunKeepsActions | internal/reconciler/resources.go:238-248 | over every run for any number of AuthPolicies, every controlled policy object keeps the action of its name |
| Status.CountNonNilResources | pkg/reconciliation/reconciler.go:61-69 | counts the desired resources |
| Status.ControllerResourceIDsAreDistinct | internal/state/scope.go:97-99 | the six resources report under six different identifiers |
| Status.DescendantsOfAPass | pkg/reconciliation/reconciler.go:75-331 | descendants are the desired resources and the failed undesired ones, and their errors are the failures of the pass |
| Status.StatusAgreesWithThePass | internal/statusmanager/status_manager.go:75-89 | for any failure pattern, which of the four states is reported, in terms of validity and failures |
| Convergence.PassSettles | pkg/reconciliation/reconciler.go:75-331 | a failure-free pass brings every desired object to its labels and managed fields, kind by kind, removes the others, and reports no error |
| Convergence.NothingToUpdateIff | internal/reconciler/resources.go:61-265 | the comparison finds nothing to update exactly if every desired label and, kind by kind, every managed field is there |
| Convergence.FreshHmacIsTheSameWish | internal/reconciler/resources.go:61-66 | the comparison cannot tell wishes apart that differ in the fresh HMAC secret |
| Convergence.SecondPassWritesNothing | pkg/resourcegenerators/secret/auto_login_secret.go:27-51 | a second pass with another HMAC secret makes no write call and leaves the cluster, stored secret included, as it is |
| Convergence.NextFailureFreePassSettles | pkg/reconciliation/reconciler.go:75-331 | after any run of passes with arbitrary wishes and failures, nothing foreign has come up at the desired keys, and the next failure-free pass settles every resource without an error |
| ClusterMeaning.ReconciledClusterMeansThePolicy | internal/reconciler/resources.go:154-248 | after a failure-free pass the policies in the cluster accept exactly what the AuthPolicy permits |
| ClusterMeaning.InvalidPolicyIsLockedAfterDenyStep | internal/reconciler/resources.go:26-35 | once the deny step of an invalid policy has succeeded, every later state of the pass rejects every request, whatever fails |
| ClusterContents.SecretAfterAPass | pkg/resourcegenerators/secret/auto_login_secret.go:14-54 | after a failure-free pass the Secret is there exactly with auto-login, with the token secret and the standard labels |
| ClusterContents.EnvoyFilterAfterAPass | internal/reconciler/resources.go:71-112 | the EnvoyFilter is there exactly with auto-login, with the workload selector of the policy and its patches |
| ClusterContents.RequestAuthenticationAfterAPass | internal/reconciler/resources.go:114-148 | the RequestAuthentication is there exactly for an enabled, valid policy, with its selector and rules |
| ClusterContents.PoliciesAfterAPass | pkg/resourcegenerators/authorizationpolicy/common.go:102-143 | each of the three policies is there exactly when it is called for, with its action, and selects exactly the workloads of the AuthPolicy |
| StatusConditions.PreserveTransitionTime | internal/statusmanager/condition_builder.go:72-78 | takes the time of the first existing condition that says the same |
| StatusConditions.BuildDescendantConditions | internal/statusmanager/condition_builder.go:84-123 | one condition per descendant, in order, with preserved times |
| StatusConditions.BuildMissingResourceConditions | internal/statusmanager/condition_builder.go:126-169 | one condition per desired resource without a descendant |
| StatusConditions.NotFoundConditionsAreEmpty | internal/statusmanager/condition_builder.go:126-169 | whatever fails in a pass, there is no such resource |
| StatusConditions.ConditionsAreStable | internal/statusmanager/condition_builder.go:16-123 | building the same conditions on top of themselves keeps every transition time |
| StatusConditions.ConditionsAreUnchangedIff | internal/statusmanager/condition_builder.go:16-176 | rebuilt conditions are the existing ones, times included, if and only if they say the same in the same order |
| StatusMeaning.StepFailsIff | pkg/reconciliation/reconciler.go:75-331 | a resource fails exactly if its lookup fails, a foreign object is in the way, or a call that is needed fails |
| StatusMeaning.OwnConditionOfAPass | internal/statusmanager/condition_builder.go:36-82 | status and reason of the condition of the AuthPolicy, in terms of validity and of which resources failed |
| StatusMeaning.ConditionsTellTheResults | internal/statusmanager/condition_builder.go:84-123 | each resource that failed has a false condition, each desired one that did not a true one, any other none, whatever fails in the pass; with the message of the step |
| StatusMeaning.MessageOfAStep | pkg/reconciliation/reconciler.go:90-331 | the text of that message, by what was found and which call failed |
| StatusRuns.ConditionTypesOfAPassAreDistinct | internal/statusmanager/condition_builder.go:16-34 | condition types are pairwise distinct for every policy name and failure pattern |
| StatusRuns.ObjectsSettle | internal/controller/authpolicy_controller.go:145-200 | after the first failure-free pass the objects never change again |
| StatusRuns.WorldIsStableFromTheSecondPass | internal/statusmanager/condition_builder.go:16-176 | with unchanged inputs, cluster and conditions, times included, are from the third pass on what they were after the second |
| StatusHistory.StreakIsUninterrupted | internal/statusmanager/condition_builder.go:72-78 | a streak reaches back over the passes after which the stored conditions say the same, and no further |
| StatusHistory.ConditionsDateFromTheirStreak | internal/statusmanager/condition_builder.go:16-176 | over every run of passes with arbitrary wishes and failures, those of storing the status included, each stored condition carries the time of the first pass of its current streak |
| Controller.AuthPolicyStatus.Initialize | api/v1alpha1/authpolicy_types.go:396-403 | the read status is made pending and not ready, for the current generation |
| Controller.AuthPolicyStatus.Update | internal/statusmanager/status_manager.go:27-73 | generation, phase, readiness, message and conditions that the status is overwritten with, and that it is written exactly if it then differs from the original |
| Controller.StateAfterPass | internal/statusmanager/status_manager.go:75-89 | which of the four states a pass over the six resources leads to, under every failure |
| Controller.PendingAfterAFailure | internal/statusmanager/status_manager.go:75-89 | a pass that ends pending returned an error |
| Controller.PhaseAfterPass | internal/statusmanager/status_manager.go:91-127 | phase, readiness and message text of a pass, in terms of validity and failures |
| Controller.ReconcileAndReport | internal/controller/authpolicy_controller.go:102-142 | cluster, returned error and status of the pass over the six resources, and whether the status is written |
| Controller.Reconcile | internal/controller/authpolicy_controller.go:122-142 | validate, reconcile, report: which of the four phases and which message is reported, and readiness, in terms of path validity and failures; condition types distinct; not written exactly if pending with the stored message and conditions, so always after a pass without a failure |

## Left out

- LuaMatcher.GeneratedPatternDenotesThePath: captures, letter classes such as `%a` and byte ranges of Lua patterns
  are not modelled; generated patterns contain none of them.
- LuaLoginParams.EscapedValueIsFieldText: `url.QueryEscape` is modelled byte by byte; only its delimiters matter here.
- LuaLoginParams.SortedKeys: `sort.Strings` is an insertion into a sorted list.
- RedirectRewrite.LoginRewriteKeepsReadingIff: login keys that contain delimiters of a query are not covered; fields
  are compared undecoded.
- CompilerLimits.EntailsIffEveryTokenFollows: claim values are compared as they are; that Istio reads `*` in a claim
  value as a wildcard is not modelled.
- SharedLimits.EntailsSomeIffEveryTokenPasses: the same.
- ReconcilerSafety.RunTouchesOnlyOwn: other clients that write between the operator's lookup and its write are not
  part of the run.
- Convergence.SecondPassWritesNothing: an HMAC generator or YAML marshaller that fails (the Secret is then not
  desired at all) is not modelled.
- Resources.UpdateSettles: specs are compared as values; that the API server returns what was written is assumed.
- Istio's own character set for template segments, and the rejection by its webhook of malformed templates and of
  conditions that list neither values nor excluded values.
- Payloads of EnvoyFilter and RequestAuthentication are opaque lists; OAuth2 patches and YAML are not built.
- The Kubernetes client, scheme, events, logging, metrics, webhook server and leader election.
- The patch of missing standard labels, whose answer replaces the copy that the status is compared with.
- Discovery document, OAuth credentials, audiences and pod annotations: their resolved values are inputs.
- The failure path of resolving an AuthPolicy and its status.
- JWT signature checking, Envoy's path normalization and percent-decoding: a request comes with its verified claims.
- Substituting the printed values into the Lua script template, and the defaults of the auto-login paths.
- Requeue intervals, deep copies, manifests and scripts: easy or generated.
