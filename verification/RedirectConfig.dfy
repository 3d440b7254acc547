/** The response side of the generated script with the values the generator prints into it. */
module RedirectConfig {
  import opened GoStrings
  import opened LuaLoginParams
  import opened LuaText
  import opened QueryString
  import opened RedirectRewrite
  import opened Wrappers

  /** What an AuthPolicy and its identity provider contribute to the redirects. */
  datatype RedirectSettings = RedirectSettings(
    authorizationUri: string, loginParams: Params, endSessionUri: Option<string>, postLogoutRedirectUri: Option<string>)

  /** The values of the script's variables. A missing URI is "". */
  function GeneratedConfig(settings: RedirectSettings): ScriptConfig {
    ScriptConfig(
      settings.authorizationUri,
      EncodeLoginParams(settings.loginParams),
      settings.endSessionUri.GetOr(""),
      if settings.postLogoutRedirectUri.Some? then QueryEscape(settings.postLogoutRedirectUri.value) else "")
  }

  predicate KeysAreFields(params: Params) {
    forall k | k in params :: IsField(k) && NUL !in k
  }

  lemma EncodedLoginParamsAreFields(raw: Params)
    requires KeysAreFields(raw)
    ensures forall k | k in raw :: IsField(k) && IsFieldText(EncodeLoginParams(raw)[k])
    ensures forall k | k in raw :: EncodeLoginParams(raw)[k] == "" <==> raw[k] == ""
  {
    forall k | k in raw
      ensures IsFieldText(EncodeLoginParams(raw)[k]) && (EncodeLoginParams(raw)[k] == "" <==> raw[k] == "")
    {
      EscapedValueIsFieldText(raw[k]);
    }
  }

  /** The table that the script reads from the printed login parameters. */
  predicate ReadsAs(settings: RedirectSettings, keys: seq<string>, rest: string, table: Params)
    requires forall k | k in keys :: k in settings.loginParams
  {
    ReadParamTable(PrintParams(keys, EncodeLoginParams(settings.loginParams)) + rest) == Some((table, rest))
  }

  /** From the AuthPolicy through the printed table to the location: a redirect to the authorization
      endpoint, with a query, that is not under the configured end-session endpoint carries its old
      parameters overridden by the encoded login parameters if and only if every login parameter of the
      AuthPolicy has a value. */
  lemma ConfiguredLoginParamsArrive(
    settings: RedirectSettings, keys: seq<string>, rest: string, table: Params, loc: string, url: string)
    requires KeysAreFields(settings.loginParams) && IsSortedListOf(keys, settings.loginParams.Keys)
    requires ReadsAs(settings, keys, rest, table)
    requires HasPrefix(loc, settings.authorizationUri) && settings.loginParams != map[]
    requires settings.endSessionUri.Some? && !HasPrefix(loc, settings.endSessionUri.value)
    requires RedirectsTo(GeneratedConfig(settings).(loginParams := table), loc, url)
    requires Query(loc) != ""
    ensures Base(url) == Base(loc)
    ensures QueryParams(Query(url)) == QueryParams(Query(loc)) + EncodeLoginParams(settings.loginParams)
      <==> forall k | k in settings.loginParams :: settings.loginParams[k] != ""
    ensures forall k | k in settings.loginParams && settings.loginParams[k] != "" ::
      ArrivesAs(url, k, settings.loginParams[k])
  {
    PrintedLoginParamsReadBack(keys, settings.loginParams, rest);
    EncodedLoginParamsAreFields(settings.loginParams);
    EncodedIsEmptyIff(settings.loginParams);
    LoginRewriteReadsBack(loc, table, url);
    EmptyLoginValuesAreLost(loc, table, url);
    forall k | k in settings.loginParams && settings.loginParams[k] != ""
      ensures ArrivesAs(url, k, settings.loginParams[k])
    {
      MergedValue(QueryParams(Query(loc)), table, k);
      if IsByteString(settings.loginParams[k]) {
        EscapedValueReadsBack(settings.loginParams[k]);
      }
    }
  }

  /** A location carries a parameter from which the value can be unescaped. */
  predicate ArrivesAs(url: string, k: string, value: string) {
    var params := QueryParams(Query(url));
    k in params && (IsByteString(value) ==> QueryUnescape(params[k]) == Some(value))
  }

  lemma EncodedIsEmptyIff(raw: Params)
    ensures EncodeLoginParams(raw) == map[] <==> raw == map[]
  {
    assert EncodeLoginParams(raw) == map[] <==> EncodeLoginParams(raw).Keys == {};
    assert raw == map[] <==> raw.Keys == {};
  }

  lemma MergedValue(params: Params, over: Params, k: string)
    requires k in over && over[k] != ""
    ensures k in WithValue(params + over) && WithValue(params + over)[k] == over[k]
  {}

  /** The post-logout URI of the AuthPolicy is always printed as a field of a query, if at all. */
  lemma ConfiguredUriIsField(settings: RedirectSettings)
    ensures var uri := GeneratedConfig(settings).postLogoutRedirectUri;
      && (uri == "" || IsField(uri))
      && (uri != "" <==> settings.postLogoutRedirectUri.Some? && settings.postLogoutRedirectUri.value != "")
  {
    if settings.postLogoutRedirectUri.Some? {
      EscapedValueIsFieldText(settings.postLogoutRedirectUri.value);
    }
  }

  /** Whatever URI the AuthPolicy configures: a redirect to the configured end-session endpoint, or any
      redirect if none is configured, carries exactly that URI, encoded, or none, and otherwise what it
      carried before. */
  lemma ConfiguredLogoutUriArrives(settings: RedirectSettings, loc: string, url: string)
    requires settings.endSessionUri.Some? ==> HasPrefix(loc, settings.endSessionUri.value)
    requires RedirectsTo(GeneratedConfig(settings), loc, url)
    requires Query(loc) != ""
    ensures Base(url) == Base(loc)
    ensures var params := QueryParams(Query(url));
      && ("post_logout_redirect_uri" in params <==>
          settings.postLogoutRedirectUri.Some? && settings.postLogoutRedirectUri.value != "")
      && ("post_logout_redirect_uri" in params ==>
          params["post_logout_redirect_uri"] == QueryEscape(settings.postLogoutRedirectUri.value))
      && params - {"post_logout_redirect_uri"} == QueryParams(Query(loc)) - {"post_logout_redirect_uri"}
    ensures settings.postLogoutRedirectUri.Some? && settings.postLogoutRedirectUri.value != "" ==>
      ArrivesAs(url, "post_logout_redirect_uri", settings.postLogoutRedirectUri.value)
  {
    assert HasPrefix(loc, "");
    ConfiguredUriIsField(settings);
    LogoutRewriteSetsUri(GeneratedConfig(settings), loc, url);
    if settings.postLogoutRedirectUri.Some? && IsByteString(settings.postLogoutRedirectUri.value) {
      EscapedValueReadsBack(settings.postLogoutRedirectUri.value);
    }
  }

  /** A redirect under neither endpoint, or under the authorization endpoint without login parameters,
      stays as it is. */
  lemma OtherRedirectsStay(
    settings: RedirectSettings, keys: seq<string>, rest: string, table: Params, loc: string, url: string)
    requires KeysAreFields(settings.loginParams) && IsSortedListOf(keys, settings.loginParams.Keys)
    requires ReadsAs(settings, keys, rest, table)
    requires !HasPrefix(loc, settings.authorizationUri) || settings.loginParams == map[]
    requires settings.endSessionUri.Some? && !HasPrefix(loc, settings.endSessionUri.value)
    requires RedirectsTo(GeneratedConfig(settings).(loginParams := table), loc, url)
    ensures url == loc
  {
    PrintedLoginParamsReadBack(keys, settings.loginParams, rest);
    EncodedIsEmptyIff(settings.loginParams);
  }

  /** Behind an identity provider without an end-session endpoint, a configured login parameter reaches
      the location only if the redirect carried the parameter anyway. */
  lemma LoginParamsNeedAnEndSessionEndpoint(settings: RedirectSettings, loc: string, url: string, k: string)
    requires settings.endSessionUri.None?
    requires KeysAreFields(settings.loginParams) && k in settings.loginParams && k != "post_logout_redirect_uri"
    requires HasPrefix(loc, settings.authorizationUri) && Query(loc) != ""
    requires RedirectsTo(GeneratedConfig(settings), loc, url)
    ensures k in QueryParams(Query(url)) <==> k in QueryParams(Query(loc))
  {
    var config := GeneratedConfig(settings);
    ConfiguredUriIsField(settings);
    LogoutRewriteReadsBack(loc, config.postLogoutRedirectUri, url);
  }
}
