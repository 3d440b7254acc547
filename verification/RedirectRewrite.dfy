/** The response side of the Lua filter: rewriting the location of login and logout redirects. */
module RedirectRewrite {
  import opened GoStrings
  import opened QueryString
  import opened StandardQuery

  const POST_LOGOUT_PARAM := "post_logout_redirect_uri"

  /** The values printed into the script. An absent end-session endpoint or logout URI is "". */
  datatype ScriptConfig = ScriptConfig(
    authorizeEndpoint: string, loginParams: Params, endSessionEndpoint: string, postLogoutRedirectUri: string)

  // ----- what the rewritten parameters should be

  function LoginQuery(query: string, loginParams: Params): Params {
    if query == "" then map[] else QueryParams(query) + loginParams
  }

  function LogoutQuery(query: string, postLogoutRedirectUri: string): Params {
    if query == "" then map[]
    else if postLogoutRedirectUri == "" then QueryParams(query) - {POST_LOGOUT_PARAM}
    else QueryParams(query)[POST_LOGOUT_PARAM := postLogoutRedirectUri]
  }

  /** A location with the given base whose query lists the parameters in some order. */
  ghost predicate Spells(url: string, base: string, params: Params) {
    exists order ::
      && IsOrderOf(order, params.Keys)
      && (assert forall k | k in order :: k in params;
          url == base + (if WriteQuery(order, params) == "" then "" else "?" + WriteQuery(order, params)))
  }

  // ----- the loops of the script

  /** Fills a table with the pairs of the query, left to right. */
  method CollectParams(query: string) returns (params: Params)
    ensures params == QueryParams(query)
  {
    var pairs := Pairs(query);
    params := map[];
    for i := 0 to |pairs|
      invariant params == ToParams(pairs[..i])
    {
      assert pairs[..i + 1][..i] == pairs[..i];
      params := params[pairs[i].0 := pairs[i].1];
    }
    assert pairs[..|pairs|] == pairs;
  }

  /** Writes the login parameters into the table, in any order. */
  method Override(params: Params, loginParams: Params) returns (merged: Params)
    ensures merged == params + loginParams
  {
    merged := params;
    var remaining := loginParams.Keys;
    while remaining != {}
      invariant remaining <= loginParams.Keys
      invariant merged == params + map k | k in loginParams && k !in remaining :: loginParams[k]
    {
      var k :| k in remaining;
      merged := merged[k := loginParams[k]];
      remaining := remaining - {k};
    }
    assert (map k | k in loginParams && k !in remaining :: loginParams[k]) == loginParams;
  }

  /** Lists the parameters in any order and assembles the new location. */
  method Assemble(base: string, params: Params) returns (url: string)
    ensures Spells(url, base, params)
  {
    var filtered: seq<string> := [];
    ghost var order: seq<string> := [];
    var remaining := params.Keys;
    while remaining != {}
      invariant remaining <= params.Keys
      invariant IsOrderOf(order, params.Keys - remaining)
      invariant forall k | k in order :: k in params
      invariant filtered == Assignments(order, params)
    {
      var k :| k in remaining;
      filtered := filtered + [k + "=" + params[k]];
      assert k !in order;
      order := order + [k];
      remaining := remaining - {k};
    }
    assert params.Keys - remaining == params.Keys;
    var query := Join(filtered, "&");
    assert query == WriteQuery(order, params);
    url := base + (if query != "" then "?" + query else "");
  }

  method RewriteLogin(loc: string, loginParams: Params) returns (url: string)
    ensures Spells(url, Base(loc), LoginQuery(Query(loc), loginParams))
  {
    var params: Params := map[];
    if Query(loc) != "" {
      params := CollectParams(Query(loc));
      params := Override(params, loginParams);
    }
    url := Assemble(Base(loc), params);
  }

  method RewriteLogout(loc: string, postLogoutRedirectUri: string) returns (url: string)
    ensures Spells(url, Base(loc), LogoutQuery(Query(loc), postLogoutRedirectUri))
  {
    var params: Params := map[];
    if Query(loc) != "" {
      params := CollectParams(Query(loc));
      if postLogoutRedirectUri == "" {
        params := params - {POST_LOGOUT_PARAM};
      } else {
        params := params[POST_LOGOUT_PARAM := postLogoutRedirectUri];
      }
    }
    url := Assemble(Base(loc), params);
  }

  /** The headers of a response. */
  class ResponseHeaders {
    var fields: map<string, string>

    constructor (initial: map<string, string>)
      ensures fields == initial
    {
      fields := initial;
    }

    function Get(key: string): string
      reads this
    {
      if key in fields then fields[key] else ""
    }

    method Replace(key: string, value: string)
      modifies this
      ensures fields == old(fields)[key := value]
    {
      fields := fields[key := value];
    }
  }

  /** The location that a redirect ends up with, one of the possible spellings: logout redirects first,
      then redirects to the authorization endpoint if there are login parameters. */
  ghost predicate RedirectsTo(config: ScriptConfig, loc: string, url: string) {
    if HasPrefix(loc, config.endSessionEndpoint) then
      Spells(url, Base(loc), LogoutQuery(Query(loc), config.postLogoutRedirectUri))
    else if HasPrefix(loc, config.authorizeEndpoint) && config.loginParams != map[] then
      Spells(url, Base(loc), LoginQuery(Query(loc), config.loginParams))
    else url == loc
  }

  /** The location that a response redirects to, if it does. */
  function RedirectLocation(fields: map<string, string>): string {
    if ":status" in fields && fields[":status"] == "302" && "location" in fields then fields["location"] else ""
  }

  /** The script needs a base, where it rewrites at all. */
  predicate NeedsBase(config: ScriptConfig, loc: string) {
    || HasPrefix(loc, config.endSessionEndpoint)
    || (HasPrefix(loc, config.authorizeEndpoint) && config.loginParams != map[])
  }

  /** `envoy_on_response`. Both blocks read the original location; the second one has the last word.
      A location that starts with `?` makes the script fail where it needs the base. Nothing but the
      location of a redirect ever changes. */
  method EnvoyOnResponse(config: ScriptConfig, headers: ResponseHeaders) returns (completed: bool)
    modifies headers
    ensures var loc := RedirectLocation(old(headers.fields));
      && (completed <==> loc == "" || !NeedsBase(config, loc) || loc[0] != '?')
      && (loc == "" ==> headers.fields == old(headers.fields))
      && (completed && loc != "" ==>
            exists url :: RedirectsTo(config, loc, url) && headers.fields == old(headers.fields)["location" := url])
  {
    completed := true;
    ghost var before := headers.fields;
    if headers.Get(":status") == "302" {
      var loc := headers.Get("location");
      if loc != "" {
        ghost var last := loc;
        assert before["location" := loc] == before;
        if HasPrefix(loc, config.authorizeEndpoint) && config.loginParams != map[] {
          if Base(loc) == "" {
            return false;
          }
          var url := RewriteLogin(loc, config.loginParams);
          headers.Replace("location", url);
          last := url;
        }
        if HasPrefix(loc, config.endSessionEndpoint) {
          if Base(loc) == "" {
            return false;
          }
          var url := RewriteLogout(loc, config.postLogoutRedirectUri);
          headers.Replace("location", url);
          last := url;
        }
        assert headers.fields == before["location" := last];
        assert RedirectsTo(config, loc, last);
      }
    }
  }

  // ----- reading a rewritten location

  lemma SpelledUrl(url: string, base: string, params: Params)
    requires Spells(url, base, params) && '?' !in base
    requires forall k | k in params :: IsField(k) && IsFieldText(params[k])
    ensures Base(url) == base
    ensures QueryParams(Query(url)) == WithValue(params)
    ensures Query(url) == "" <==> params == map[]
  {
    var order :| IsOrderOf(order, params.Keys)
      && (assert forall k | k in order :: k in params;
          url == base + (if WriteQuery(order, params) == "" then "" else "?" + WriteQuery(order, params)));
    var query := WriteQuery(order, params);
    WrittenQueryReadsBack(order, params);
    WrittenQueryIsEmpty(order, params);
    BaseAndQuery(base, query);
    if query == "" {
      assert url == base;
    } else {
      assert url == base + "?" + query;
    }
  }

  lemma WithValueOfFields(params: Params)
    ensures WithValue(params) == params <==> forall k | k in params :: params[k] != ""
  {
    if WithValue(params) == params {
      forall k | k in params ensures params[k] != "" {
        assert k in WithValue(params);
      }
    }
  }

  lemma MergedAreFields(query: string, loginParams: Params)
    requires forall k | k in loginParams :: IsField(k) && IsFieldText(loginParams[k])
    ensures var merged := QueryParams(query) + loginParams;
      forall k | k in merged :: IsField(k) && IsFieldText(merged[k])
  {
    QueryParamsAreFields(query);
  }

  /** How a location with login parameters reads back. */
  lemma LoginRewriteReadsBack(loc: string, loginParams: Params, url: string)
    requires forall k | k in loginParams :: IsField(k) && IsFieldText(loginParams[k])
    requires Query(loc) != ""
    requires Spells(url, Base(loc), LoginQuery(Query(loc), loginParams))
    ensures Base(url) == Base(loc)
    ensures QueryParams(Query(url)) == WithValue(QueryParams(Query(loc)) + loginParams)
    ensures loginParams != map[] ==> Query(url) != ""
  {
    var merged := QueryParams(Query(loc)) + loginParams;
    MergedAreFields(Query(loc), loginParams);
    BaseHasNoQuestionMark(loc);
    SpelledUrl(url, Base(loc), merged);
    if k :| k in loginParams {
      assert k in merged;
    }
  }

  lemma LoginRewriteWithoutQuery(loc: string, loginParams: Params, url: string)
    requires Query(loc) == ""
    requires Spells(url, Base(loc), LoginQuery(Query(loc), loginParams))
    ensures url == Base(loc) && Query(url) == ""
  {
    var params := LoginQuery(Query(loc), loginParams);
    var order :| IsOrderOf(order, params.Keys)
      && (assert forall k | k in order :: k in params;
          url == Base(loc) + (if WriteQuery(order, params) == "" then "" else "?" + WriteQuery(order, params)));
    WrittenQueryIsEmpty(order, params);
    BaseHasNoQuestionMark(loc);
    BaseAndQuery(Base(loc), "");
  }

  /** A login redirect keeps its base, and its query reads back as the old parameters overridden by
      the login parameters, in whatever order the tables are traversed - unless the query is empty:
      then the login parameters are dropped. */
  lemma LoginRewriteMergesParams(loc: string, loginParams: Params, url: string)
    requires AllFields(loginParams) && loginParams != map[]
    requires Spells(url, Base(loc), LoginQuery(Query(loc), loginParams))
    ensures Base(url) == Base(loc)
    ensures QueryParams(Query(url)) == QueryParams(Query(loc)) + loginParams <==> Query(loc) != ""
  {
    if Query(loc) == "" {
      LoginRewriteWithoutQuery(loc, loginParams, url);
      BaseHasNoQuestionMark(loc);
      BaseAndQuery(Base(loc), "");
      var k :| k in loginParams;
      assert k in QueryParams("") + loginParams && k !in QueryParams("");
    } else {
      LoginRewriteReadsBack(loc, loginParams, url);
      QueryParamsAreFields(Query(loc));
      WithValueOfFields(QueryParams(Query(loc)) + loginParams);
    }
  }

  /** Rewriting a rewritten login redirect again leaves its base and its parameters unchanged. */
  lemma LoginRewriteIsStable(loc: string, loginParams: Params, once: string, twice: string)
    requires AllFields(loginParams) && loginParams != map[] && Query(loc) != ""
    requires Spells(once, Base(loc), LoginQuery(Query(loc), loginParams))
    requires Spells(twice, Base(once), LoginQuery(Query(once), loginParams))
    ensures Base(twice) == Base(once) == Base(loc)
    ensures QueryParams(Query(twice)) == QueryParams(Query(once))
  {
    LoginRewriteReadsBack(loc, loginParams, once);
    LoginRewriteMergesParams(loc, loginParams, once);
    LoginRewriteMergesParams(once, loginParams, twice);
    OverrideTwice(QueryParams(Query(loc)), loginParams);
  }

  lemma OverrideTwice(params: Params, loginParams: Params)
    ensures params + loginParams + loginParams == params + loginParams
  {}

  /** An empty login value is lost: the query reads back as the merged parameters if and only if
      every login parameter has a value. */
  lemma EmptyLoginValuesAreLost(loc: string, loginParams: Params, url: string)
    requires forall k | k in loginParams :: IsField(k) && IsFieldText(loginParams[k])
    requires Query(loc) != ""
    requires Spells(url, Base(loc), LoginQuery(Query(loc), loginParams))
    ensures QueryParams(Query(url)) == QueryParams(Query(loc)) + loginParams <==>
      forall k | k in loginParams :: loginParams[k] != ""
  {
    LoginRewriteReadsBack(loc, loginParams, url);
    QueryParamsAreFields(Query(loc));
    MergedHasValuesIff(QueryParams(Query(loc)), loginParams);
  }

  lemma MergedHasValuesIff(params: Params, loginParams: Params)
    requires AllFields(params)
    ensures WithValue(params + loginParams) == params + loginParams <==> forall k | k in loginParams :: loginParams[k] != ""
  {
    var merged := params + loginParams;
    WithValueOfFields(merged);
    assert forall k | k in loginParams :: k in merged && merged[k] == loginParams[k];
    assert forall k | k in merged && k !in loginParams :: merged[k] == params[k];
  }

  // ----- the two blocks together

  lemma PostLogoutParamIsField()
    ensures IsField(POST_LOGOUT_PARAM)
  {}

  lemma LogoutQueryHasFields(query: string, uri: string)
    requires uri == "" || IsField(uri)
    ensures AllFields(LogoutQuery(query, uri))
  {
    QueryParamsAreFields(query);
    PostLogoutParamIsField();
  }

  lemma LogoutRewriteReadsBack(loc: string, uri: string, url: string)
    requires uri == "" || IsField(uri)
    requires Spells(url, Base(loc), LogoutQuery(Query(loc), uri))
    ensures Base(url) == Base(loc) && QueryParams(Query(url)) == LogoutQuery(Query(loc), uri)
  {
    BaseHasNoQuestionMark(loc);
    LogoutQueryHasFields(Query(loc), uri);
    SpelledUrl(url, Base(loc), LogoutQuery(Query(loc), uri));
    WithValueOfFields(LogoutQuery(Query(loc), uri));
  }

  /** A login parameter that the identity provider's redirect did not carry arrives in the location if
      and only if the location is not also under the end-session endpoint. */
  lemma LoginParamArrivesIffNotEndSession(config: ScriptConfig, loc: string, url: string, k: string)
    requires HasPrefix(loc, config.authorizeEndpoint) && Query(loc) != "" && AllFields(config.loginParams)
    requires config.postLogoutRedirectUri == "" || IsField(config.postLogoutRedirectUri)
    requires RedirectsTo(config, loc, url)
    requires k in config.loginParams && k != POST_LOGOUT_PARAM && k !in QueryParams(Query(loc))
    ensures k in QueryParams(Query(url)) <==> !HasPrefix(loc, config.endSessionEndpoint)
  {
    if HasPrefix(loc, config.endSessionEndpoint) {
      LogoutRewriteReadsBack(loc, config.postLogoutRedirectUri, url);
    } else {
      LoginRewriteMergesParams(loc, config.loginParams, url);
    }
  }

  /** A logout redirect carries exactly the configured post-logout URI, or none. */
  lemma LogoutRewriteSetsUri(config: ScriptConfig, loc: string, url: string)
    requires HasPrefix(loc, config.endSessionEndpoint) && Query(loc) != ""
    requires config.postLogoutRedirectUri == "" || IsField(config.postLogoutRedirectUri)
    requires RedirectsTo(config, loc, url)
    ensures Base(url) == Base(loc)
    ensures var params := QueryParams(Query(url));
      && (POST_LOGOUT_PARAM in params <==> config.postLogoutRedirectUri != "")
      && (POST_LOGOUT_PARAM in params ==> params[POST_LOGOUT_PARAM] == config.postLogoutRedirectUri)
      && params - {POST_LOGOUT_PARAM} == QueryParams(Query(loc)) - {POST_LOGOUT_PARAM}
  {
    LogoutRewriteReadsBack(loc, config.postLogoutRedirectUri, url);
  }

  // ----- what an independent reader makes of a rewritten location

  lemma SpelledUrlValues(url: string, base: string, params: Params)
    requires Spells(url, base, params) && '?' !in base
    requires forall k | k in params :: IsField(k) && IsFieldText(params[k])
    ensures QueryValues(Query(url)) == Singles(params)
  {
    var order :| IsOrderOf(order, params.Keys)
      && (assert forall k | k in order :: k in params;
          url == base + (if WriteQuery(order, params) == "" then "" else "?" + WriteQuery(order, params)));
    var query := WriteQuery(order, params);
    WrittenQueryValues(order, params);
    BaseAndQuery(base, query);
    if query == "" {
      assert url == base;
    } else {
      assert url == base + "?" + query;
    }
  }

  lemma OverriddenReading(query: string, removed: set<string>, over: Params)
    ensures IsWellFormed(query) ==> ReadsTheSame(query, removed, over)
    ensures ReadsTheSame(query, removed, over) <==> HasFieldsOfTheirOwn(query, removed + over.Keys)
  {
    ReadsTheSameIffFieldsOfTheirOwn(query, removed, over);
    if IsWellFormed(query) {
      WellFormedReadsTheSame(query);
      SinglesOverride(QueryParams(query), removed, over);
    }
  }

  lemma SinglesOverride(params: Params, removed: set<string>, over: Params)
    ensures Singles((params - removed) + over) == (Singles(params) - removed) + Singles(over)
  {}

  lemma LoginRewriteValues(loc: string, loginParams: Params, url: string)
    requires forall k | k in loginParams :: IsField(k) && IsFieldText(loginParams[k])
    requires Query(loc) != ""
    requires Spells(url, Base(loc), LoginQuery(Query(loc), loginParams))
    ensures QueryValues(Query(url)) == Singles(QueryParams(Query(loc)) + loginParams)
  {
    MergedAreFields(Query(loc), loginParams);
    BaseHasNoQuestionMark(loc);
    SpelledUrlValues(url, Base(loc), QueryParams(Query(loc)) + loginParams);
  }

  /** What overriding alone leaves of a query. */
  lemma NothingRemoved(query: string, over: Params)
    ensures ReadsTheSame(query, {}, over) <==>
      Singles(QueryParams(query) + over) == QueryValues(query) + Singles(over)
  {
    assert QueryParams(query) - {} == QueryParams(query) && QueryValues(query) - {} == QueryValues(query);
  }

  /** To an independent reader the query of a login redirect is the old query overridden by the login
      parameters if and only if what is not overridden consists of well-formed fields of their own; so
      in particular if the whole query consists of distinct, well-formed pairs. */
  lemma LoginRewriteKeepsReadingIff(loc: string, loginParams: Params, url: string)
    requires forall k | k in loginParams :: IsField(k) && IsFieldText(loginParams[k])
    requires Query(loc) != ""
    requires Spells(url, Base(loc), LoginQuery(Query(loc), loginParams))
    ensures QueryValues(Query(url)) == QueryValues(Query(loc)) + Singles(loginParams)
      <==> HasFieldsOfTheirOwn(Query(loc), loginParams.Keys)
    ensures IsWellFormed(Query(loc)) ==> QueryValues(Query(url)) == QueryValues(Query(loc)) + Singles(loginParams)
  {
    LoginRewriteValues(loc, loginParams, url);
    NothingRemoved(Query(loc), loginParams);
    OverriddenReading(Query(loc), {}, loginParams);
    assert {} + loginParams.Keys == loginParams.Keys;
  }

  lemma KeptValue(params: Params, over: Params, k: string)
    requires k in params && k !in over
    ensures k in Singles(params + over) && Singles(params + over)[k] == [params[k]]
  {}

  /** A value that contains `=` arrives truncated. */
  lemma LoginRewriteTruncatesPaddedValue(loc: string, loginParams: Params, url: string)
    requires forall k | k in loginParams :: IsField(k) && IsFieldText(loginParams[k])
    requires Query(loc) == PADDED_QUERY && "s" !in loginParams
    requires Spells(url, Base(loc), LoginQuery(Query(loc), loginParams))
    ensures QueryValues(Query(loc)) == map["s" := ["a=="]]
    ensures "s" in QueryValues(Query(url)) && QueryValues(Query(url))["s"] == ["a"]
  {
    PaddedValueIsTruncated();
    LoginRewriteValues(loc, loginParams, url);
    KeptValue(QueryParams(Query(loc)), loginParams, "s");
  }

  /** The post-logout URI as the only overridden parameter. */
  function LogoutOverride(uri: string): Params {
    if uri == "" then map[] else map[POST_LOGOUT_PARAM := uri]
  }

  lemma LogoutQueryIsOverride(query: string, uri: string)
    requires query != ""
    ensures LogoutQuery(query, uri) == (QueryParams(query) - {POST_LOGOUT_PARAM}) + LogoutOverride(uri)
  {}

  /** The same for a logout redirect and the post-logout URI. */
  lemma LogoutRewriteKeepsReadingIff(loc: string, uri: string, url: string)
    requires uri == "" || IsField(uri)
    requires Query(loc) != ""
    requires Spells(url, Base(loc), LogoutQuery(Query(loc), uri))
    ensures
      QueryValues(Query(url)) == (QueryValues(Query(loc)) - {POST_LOGOUT_PARAM}) + Singles(LogoutOverride(uri))
      <==> HasFieldsOfTheirOwn(Query(loc), {POST_LOGOUT_PARAM})
    ensures IsWellFormed(Query(loc)) ==>
      QueryValues(Query(url)) == (QueryValues(Query(loc)) - {POST_LOGOUT_PARAM}) + Singles(LogoutOverride(uri))
  {
    LogoutRewriteValues(loc, uri, url);
    OverriddenReading(Query(loc), {POST_LOGOUT_PARAM}, LogoutOverride(uri));
    assert {POST_LOGOUT_PARAM} + LogoutOverride(uri).Keys == {POST_LOGOUT_PARAM};
  }

  lemma LogoutRewriteValues(loc: string, uri: string, url: string)
    requires uri == "" || IsField(uri)
    requires Query(loc) != ""
    requires Spells(url, Base(loc), LogoutQuery(Query(loc), uri))
    ensures QueryValues(Query(url)) ==
      Singles((QueryParams(Query(loc)) - {POST_LOGOUT_PARAM}) + LogoutOverride(uri))
  {
    LogoutQueryHasFields(Query(loc), uri);
    BaseHasNoQuestionMark(loc);
    SpelledUrlValues(url, Base(loc), LogoutQuery(Query(loc), uri));
    LogoutQueryIsOverride(Query(loc), uri);
  }
}
