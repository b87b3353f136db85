/** The combined `OutboundRulesPlugin` of src/logic.ts: the canonical
    engine (same parser, matcher and verdict, keyword `accept`) with the
    event handlers built in. Origin headers are matched in exact case, the
    rules header case-insensitively, and a fresh response without a rules
    header keeps the tab's previous rules. */
module Plugin {
  import opened Text
  import opened Results
  import opened Patterns
  import opened Parser
  import opened Browser
  import opened Engine

  /** The plugin's state: the fresh request ids and the rule cache. */
  datatype PluginState = PluginState(freshIds: set<RequestId>, backend: Backend)

  /** `getOrigin(details)`, with `getOriginHeader` comparing names exactly. */
  function GetOrigin(d: RequestDetails): (origin: Option<string>)
    ensures d.originUrl.Some? ==> origin == d.originUrl
    ensures d.originUrl.None? && d.requestHeaders.None? ==> origin.None?
    ensures d.originUrl.None? && d.requestHeaders.Some? ==> origin == FindHeader(d.requestHeaders.value, ExactOriginNames, Exact)
    ensures d.originUrl.None? && d.requestHeaders.Some? ==>
      var headers := d.requestHeaders.value;
      && ((forall j :: 0 <= j < |headers| ==> headers[j].name !in ExactOriginNames) ==> origin.None?)
      && (forall k :: (0 <= k < |headers| && headers[k].name in ExactOriginNames
                       && forall j :: 0 <= j < k ==> headers[j].name !in ExactOriginNames) ==> origin == headers[k].value)
  {
    OriginOf(d, ExactOriginNames, Exact)
  }

  /** `onHeadersReceived(details)`. A response that is not the first one to
      a fresh request changes nothing; otherwise the request stops being
      fresh and, when the response has a rules header, the tab's rules are
      replaced (a rule without `:` throws and keeps the old ones). */
  function OnHeadersReceived(s: PluginState, d: ResponseDetails, getHost: HostOf): (r: Reply<PluginState>)
    ensures r.response.None?
    ensures d.responseHeaders.None? || d.requestId !in s.freshIds ==> r == Reply(s, None, None)
    ensures d.responseHeaders.Some? && d.requestId in s.freshIds ==>
      && r.state.freshIds == s.freshIds - {d.requestId}
      && var header := FindHeader(d.responseHeaders.value, FoldedRulesName, Folded);
         && (header.None? ==> r.state.backend == s.backend && r.thrown.None?)
         && (header.Some? ==> var init := InitRequest(s.backend, d.tabId, d.url, header, getHost);
              && (init.Success? ==> r.state.backend == init.value && r.thrown.None?)
              && (init.Failure? ==> r.state.backend == s.backend && r.thrown == Some(init.error)))
  {
    match d.responseHeaders
    case None => Reply(s, None, None)
    case Some(headers) =>
      if d.requestId !in s.freshIds then Reply(s, None, None)
      else
        var freshIds := s.freshIds - {d.requestId};
        match FindHeader(headers, FoldedRulesName, Folded)
        case None => Reply(PluginState(freshIds, s.backend), None, None)
        case Some(header) =>
          match InitRequest(s.backend, d.tabId, d.url, Some(header), getHost)
          case Failure(e) => Reply(PluginState(freshIds, s.backend), None, Some(e))
          case Success(b) => Reply(PluginState(freshIds, b), None, None)
  }

  /** `onBeforeSendHeaders(details)`: a page load is marked fresh with no
      verdict; any other request is cancelled exactly when `shouldAccept`
      refuses it. */
  function OnBeforeSendHeaders(s: PluginState, d: RequestDetails, getHost: HostOf): (r: Reply<PluginState>)
    ensures r.thrown.None? && r.state.backend == s.backend
    ensures var origin := GetOrigin(d);
      && (origin.None? || origin.value == d.url ==> r.response.None? && r.state.freshIds == s.freshIds + {d.requestId})
      && (origin.Some? && origin.value != d.url ==>
            r.state == s && r.response == Some(BlockingResponse(!ShouldAccept(s.backend, d.tabId, d.url, getHost))))
  {
    var origin := GetOrigin(d);
    if origin.None? || origin.value == d.url then
      Reply(PluginState(s.freshIds + {d.requestId}, s.backend), None, None)
    else
      Reply(s, Some(BlockingResponse(!ShouldAccept(s.backend, d.tabId, d.url, getHost))), None)
  }

  /** A fresh response without an Outbound-Rules header leaves the tab's
      previous rules, and so its verdicts, in place. */
  lemma AbsentHeaderKeepsRules(s: PluginState, d: ResponseDetails, getHost: HostOf, url: string)
    requires d.requestId in s.freshIds && d.responseHeaders.Some?
    requires forall j :: 0 <= j < |d.responseHeaders.value| ==> Lower(d.responseHeaders.value[j].name) != "outbound-rules"
    ensures var r := OnHeadersReceived(s, d, getHost);
      && r.thrown.None?
      && r.state.backend == s.backend
      && ShouldAccept(r.state.backend, d.tabId, url, getHost) == ShouldAccept(s.backend, d.tabId, url, getHost)
      && d.requestId !in r.state.freshIds
  {
  }

  /** A binary rules header counts as no header: the tab keeps its
      previous rules. */
  lemma BinaryRulesHeaderKeepsRules(s: PluginState, d: ResponseDetails, getHost: HostOf, name: string, rest: seq<Header>)
    requires d.requestId in s.freshIds
    requires Lower(name) == "outbound-rules"
    requires d.responseHeaders == Some([Header(name, None)] + rest)
    ensures var r := OnHeadersReceived(s, d, getHost);
      r.thrown.None? && r.state.backend == s.backend && d.requestId !in r.state.freshIds
  {
    FirstHeaderWins([], Header(name, None), rest, FoldedRulesName, Folded);
  }

  /** Origin headers are matched in exact case: a request whose only origin
      information is a lower-case `origin` header counts as a page load. */
  lemma LowerCaseOriginIgnored(s: PluginState, d: RequestDetails, getHost: HostOf, value: Option<string>)
    requires d.originUrl.None?
    requires d.requestHeaders == Some([Header("origin", value)])
    ensures var r := OnBeforeSendHeaders(s, d, getHost);
      r.response.None? && d.requestId in r.state.freshIds
  {
    assert "origin" != "Origin";
  }
}
