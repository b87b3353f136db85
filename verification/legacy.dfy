/** The earlier single-file engine of logic.ts: the same parser and matcher
    in the `allow` dialect, with the cache and the fresh set as module
    state. It compares header names in exact case, stores an empty rule
    list for a page without an Outbound-Rules header, and does not decide a
    request of a tab it has no rules for. */
module Legacy {
  import opened Text
  import opened Results
  import opened Patterns
  import opened Parser
  import opened RuleSet
  import opened Browser
  import opened Engine

  /** The module state: the rules of each tab and the fresh request ids. */
  datatype LegacyState = LegacyState(cache: Cache, freshIds: set<RequestId>)

  /** The module state when the script loads. */
  const Loaded := LegacyState(map[], {})

  /** `onHeadersReceived(details)`: the first response to a fresh request
      installs `parse(outboundRules || "")` for its tab, an absent header
      giving no rules at all; a rule without `:` throws after the request
      stopped being fresh, and the cache is then unchanged. */
  function OnHeadersReceived(s: LegacyState, d: ResponseDetails, getHost: HostOf): (r: Reply<LegacyState>)
    ensures r.response.None?
    ensures d.responseHeaders.None? || d.requestId !in s.freshIds ==> r == Reply(s, None, None)
    ensures d.responseHeaders.Some? && d.requestId in s.freshIds ==>
      && r.state.freshIds == s.freshIds - {d.requestId}
      && var header := FindHeader(d.responseHeaders.value, ExactRulesName, Exact).GetOr("");
         var install := Install(s.cache, d.tabId, d.url, AllowKeyword, header, getHost);
         && (install.Success? ==> r.state.cache == install.value && r.thrown.None?)
         && (install.Failure? ==> r.state.cache == s.cache && r.thrown == Some(install.error))
  {
    match d.responseHeaders
    case None => Reply(s, None, None)
    case Some(headers) =>
      if d.requestId !in s.freshIds then Reply(s, None, None)
      else
        var freshIds := s.freshIds - {d.requestId};
        var header := FindHeader(headers, ExactRulesName, Exact).GetOr("");
        match Install(s.cache, d.tabId, d.url, AllowKeyword, header, getHost)
        case Failure(e) => Reply(LegacyState(s.cache, freshIds), None, Some(e))
        case Success(cache) => Reply(LegacyState(cache, freshIds), None, None)
  }

  /** `onBeforeSendHeaders(details)`. Without request headers nothing
      happens; a request with no origin header, or from its own URL, is
      marked fresh; a tab without rules gets no verdict; otherwise the first
      matching rule decides and no match lets the request through. */
  function OnBeforeSendHeaders(s: LegacyState, d: RequestDetails, getHost: HostOf): (r: Reply<LegacyState>)
    ensures r.thrown.None? && r.state.cache == s.cache
    ensures d.requestHeaders.None? ==> r == Reply(s, None, None)
    ensures d.requestHeaders.Some? ==>
      var origin := FindHeader(d.requestHeaders.value, ExactOriginNames, Exact);
      && (origin.None? || origin.value == d.url ==> r.response.None? && r.state.freshIds == s.freshIds + {d.requestId})
      && (origin.Some? && origin.value != d.url ==> r.state == s)
      && (origin.Some? && origin.value != d.url && d.tabId !in s.cache ==> r.response.None?)
      && (origin.Some? && origin.value != d.url && d.tabId in s.cache ==>
            var rules := s.cache[d.tabId];
            && r.response.Some?
            && (r.response.value.cancel <==> FirstMatchDenies(rules, d.url, getHost)))
  {
    match d.requestHeaders
    case None => Reply(s, None, None)
    case Some(headers) =>
      var origin := FindHeader(headers, ExactOriginNames, Exact);
      if origin.None? || origin.value == d.url then
        Reply(LegacyState(s.cache, s.freshIds + {d.requestId}), None, None)
      else
        match FindRule(s.cache, d.tabId, d.url, getHost)
        case NoRules => Reply(s, None, None)
        case NoMatch => Reply(s, Some(BlockingResponse(false)), None)
        case Found(rule) => Reply(s, Some(BlockingResponse(!rule.accept)), None)
  }

  /** The first rule matching `url` exists and does not allow it. */
  ghost predicate FirstMatchDenies(rules: seq<Rule>, url: string, getHost: HostOf) {
    exists k :: 0 <= k < |rules| && !rules[k].accept && RuleMatches(rules[k], url, getHost)
              && (forall j :: 0 <= j < k ==> !RuleMatches(rules[j], url, getHost))
  }

  /** Fail-open: with rules in place, a request no rule matches goes
      through, where the canonical engine would deny it. */
  lemma FailOpen(s: LegacyState, d: RequestDetails, getHost: HostOf)
    requires d.requestHeaders.Some? && d.tabId in s.cache
    requires var origin := FindHeader(d.requestHeaders.value, ExactOriginNames, Exact);
      origin.Some? && origin.value != d.url
    requires forall j :: 0 <= j < |s.cache[d.tabId]| ==> !RuleMatches(s.cache[d.tabId][j], d.url, getHost)
    ensures OnBeforeSendHeaders(s, d, getHost).response == Some(BlockingResponse(false))
    ensures !ShouldAccept(Backend(s.cache), d.tabId, d.url, getHost)
  {
  }

  /** A fresh response without an Outbound-Rules header stores an empty
      rule list for its tab, and every later request of the tab with an
      origin elsewhere is let through. */
  lemma AbsentHeaderStoresEmpty(s: LegacyState, d: ResponseDetails, getHost: HostOf, req: RequestDetails)
    requires d.requestId in s.freshIds && d.responseHeaders.Some?
    requires forall j :: 0 <= j < |d.responseHeaders.value| ==> d.responseHeaders.value[j].name != "Outbound-Rules"
    requires req.tabId == d.tabId && req.requestHeaders.Some?
    requires var origin := FindHeader(req.requestHeaders.value, ExactOriginNames, Exact);
      origin.Some? && origin.value != req.url
    ensures var r := OnHeadersReceived(s, d, getHost);
      && r.thrown.None?
      && r.state.cache == s.cache[d.tabId := []]
      && OnBeforeSendHeaders(r.state, req, getHost).response == Some(BlockingResponse(false))
  {
    assert FindHeader(d.responseHeaders.value, ExactRulesName, Exact).None?;
    ParseBlank(AllowKeyword, "");
    var cache := s.cache[d.tabId := []];
    assert Install(s.cache, d.tabId, d.url, AllowKeyword, "", getHost) == Success(cache);
    FailOpen(LegacyState(cache, s.freshIds - {d.requestId}), req, getHost);
  }

  /** The `allow` dialect: a rule accepts exactly when its trimmed action is
      `allow` in any letter case; `accept` denies here. */
  lemma AllowDialect(action: string, targets: string)
    requires ':' !in action && ':' !in targets
    ensures var r := ParseOne(AllowKeyword, action + ":" + targets);
      r.Success? && (r.value.accept <==> Lower(Trim(action)) == "allow")
  {
    ParseOneOf(AllowKeyword, action, targets);
  }
}
