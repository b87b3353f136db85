/** The canonical event state machine `OutboundRulesPlugin` of
    webextension-wrapper.ts. It keeps the set of "fresh" requests (page
    loads, whose response may install rules) and delegates rule storage and
    verdicts to a backend; it compares header names case-insensitively. */
module Wrapper {
  import opened Text
  import opened Results
  import opened Patterns
  import opened Parser
  import opened Browser
  import opened Engine

  /** The ids of the requests marked fresh and not yet answered. */
  type FreshSet = set<RequestId>

  /** The backend call a handler makes: `initRequest(tabId, url, header)`,
      the header possibly `undefined`. */
  datatype InitCall = InitCall(tabId: TabId, url: string, outboundRules: Option<string>)

  /** `getOriginHeader(headers)`: the value of the first Origin, Referer or
      Referrer header, in any letter case; `undefined` when there is none or
      it is a binary header. */
  function GetOriginHeader(headers: seq<Header>): (v: Option<string>)
    ensures (forall j :: 0 <= j < |headers| ==> Lower(headers[j].name) !in FoldedOriginNames) ==> v.None?
    ensures forall k :: (0 <= k < |headers| && Lower(headers[k].name) in FoldedOriginNames
                         && forall j :: 0 <= j < k ==> Lower(headers[j].name) !in FoldedOriginNames) ==> v == headers[k].value
    ensures v.Some? ==> exists k :: 0 <= k < |headers| && headers[k].value == v
                                 && Lower(headers[k].name) in FoldedOriginNames
                                 && (forall j :: 0 <= j < k ==> Lower(headers[j].name) !in FoldedOriginNames)
  {
    FindHeader(headers, FoldedOriginNames, Folded)
  }

  /** `getOrigin(details)`. */
  function GetOrigin(d: RequestDetails): (origin: Option<string>)
    ensures d.originUrl.Some? ==> origin == d.originUrl
    ensures d.originUrl.None? && d.requestHeaders.None? ==> origin.None?
    ensures d.originUrl.None? && d.requestHeaders.Some? ==> origin == GetOriginHeader(d.requestHeaders.value)
  {
    OriginOf(d, FoldedOriginNames, Folded)
  }

  /** `getOutboundHeader(headers)`: the value of the first Outbound-Rules
      header, in any letter case; `undefined` when there is none or it is a
      binary header. */
  function GetOutboundHeader(headers: seq<Header>): (v: Option<string>)
    ensures (forall j :: 0 <= j < |headers| ==> Lower(headers[j].name) != "outbound-rules") ==> v.None?
    ensures forall k :: (0 <= k < |headers| && Lower(headers[k].name) == "outbound-rules"
                         && forall j :: 0 <= j < k ==> Lower(headers[j].name) != "outbound-rules") ==> v == headers[k].value
    ensures v.Some? ==> exists k :: 0 <= k < |headers| && headers[k].value == v
                                 && Lower(headers[k].name) == "outbound-rules"
                                 && (forall j :: 0 <= j < k ==> Lower(headers[j].name) != "outbound-rules")
  {
    FindHeader(headers, FoldedRulesName, Folded)
  }

  /** `onHeadersReceived(details)`: the new fresh set and the backend call
      made, if any. Only the first response to a fresh request is used, and
      its header is forwarded even when absent. */
  function OnHeadersReceived(freshIds: FreshSet, d: ResponseDetails): (r: (FreshSet, Option<InitCall>))
    ensures d.responseHeaders.None? || d.requestId !in freshIds ==> r == (freshIds, None)
    ensures d.responseHeaders.Some? && d.requestId in freshIds ==>
      && r.0 == freshIds - {d.requestId}
      && r.1 == Some(InitCall(d.tabId, d.url, GetOutboundHeader(d.responseHeaders.value)))
  {
    match d.responseHeaders
    case None => (freshIds, None)
    case Some(headers) =>
      if d.requestId !in freshIds then (freshIds, None)
      else (freshIds - {d.requestId}, Some(InitCall(d.tabId, d.url, GetOutboundHeader(headers))))
  }

  /** `onBeforeSendHeaders(details)`, given the backend's `shouldAccept`: a
      request without an origin, or coming from its own URL, is a page load
      and is marked fresh with no verdict; any other is cancelled exactly
      when the backend does not accept it. */
  function OnBeforeSendHeaders(freshIds: FreshSet, d: RequestDetails, shouldAccept: (TabId, string, string) -> bool): (r: (FreshSet, Option<BlockingResponse>))
    ensures var origin := GetOrigin(d);
      && (origin.None? || origin.value == d.url ==> r == (freshIds + {d.requestId}, None))
      && (origin.Some? && origin.value != d.url ==>
            r == (freshIds, Some(BlockingResponse(!shouldAccept(d.tabId, d.url, origin.value)))))
  {
    var origin := GetOrigin(d);
    if origin.None? || origin.value == d.url then (freshIds + {d.requestId}, None)
    else (freshIds, Some(BlockingResponse(!shouldAccept(d.tabId, d.url, origin.value))))
  }

  /** A fresh request is consumed by its first response: delivering the
      same response again makes no further backend call. */
  lemma ResponseConsumedOnce(freshIds: FreshSet, d: ResponseDetails)
    ensures OnHeadersReceived(OnHeadersReceived(freshIds, d).0, d).1.None?
    ensures OnHeadersReceived(OnHeadersReceived(freshIds, d).0, d).0 == OnHeadersReceived(freshIds, d).0
  {
  }

  /** Only a response to a request marked fresh, and not yet answered,
      leads to `initRequest`. */
  lemma OnlyFreshResponsesInstall(freshIds: FreshSet, d: ResponseDetails)
    requires OnHeadersReceived(freshIds, d).1.Some?
    ensures d.requestId in freshIds && d.requestId !in OnHeadersReceived(freshIds, d).0
    ensures d.responseHeaders.Some?
  {
  }

  /** A page load followed by its own response: the request is marked fresh,
      then its response is consumed and installs its rules header. */
  lemma PageLoadThenResponse(freshIds: FreshSet, req: RequestDetails, resp: ResponseDetails, shouldAccept: (TabId, string, string) -> bool)
    requires req.originUrl == Some(req.url)
    requires resp.requestId == req.requestId && resp.responseHeaders.Some?
    ensures var (fresh1, verdict) := OnBeforeSendHeaders(freshIds, req, shouldAccept);
      && verdict.None?
      && OnHeadersReceived(fresh1, resp) == (fresh1 - {req.requestId},
           Some(InitCall(resp.tabId, resp.url, GetOutboundHeader(resp.responseHeaders.value))))
  {
  }

  // ----- the wrapper wired to `PluginBackend` -----

  /** The whole extension: the wrapper's fresh set and its backend. */
  datatype Extension = Extension(freshIds: FreshSet, backend: Backend)

  /** The extension right after start-up. */
  const Start := Extension({}, EmptyBackend)

  /** A response event: the wrapper's handler, then the backend call it
      makes. A throwing `initRequest` leaves the backend as it was, but the
      request is no longer fresh. */
  function Respond(ext: Extension, d: ResponseDetails, getHost: HostOf): (r: Reply<Extension>)
    ensures r.response.None?
    ensures r.state.freshIds == OnHeadersReceived(ext.freshIds, d).0
    ensures OnHeadersReceived(ext.freshIds, d).1.None? ==> r.state.backend == ext.backend && r.thrown.None?
    ensures var call := OnHeadersReceived(ext.freshIds, d).1;
      call.Some? ==> var init := InitRequest(ext.backend, call.value.tabId, call.value.url, call.value.outboundRules, getHost);
        && (init.Success? ==> r.state.backend == init.value && r.thrown.None?)
        && (init.Failure? ==> r.state.backend == ext.backend && r.thrown == Some(init.error))
  {
    var (freshIds, call) := OnHeadersReceived(ext.freshIds, d);
    match call
    case None => Reply(Extension(freshIds, ext.backend), None, None)
    case Some(InitCall(tab, url, rules)) =>
      match InitRequest(ext.backend, tab, url, rules, getHost)
      case Failure(e) => Reply(Extension(freshIds, ext.backend), None, Some(e))
      case Success(b) => Reply(Extension(freshIds, b), None, None)
  }

  /** A request event: the wrapper's handler asking the backend. */
  function Request(ext: Extension, d: RequestDetails, getHost: HostOf): (r: Reply<Extension>)
    ensures r.state.backend == ext.backend && r.thrown.None?
    ensures r.response.Some? ==> r.response.value.cancel == !ShouldAccept(ext.backend, d.tabId, d.url, getHost)
    ensures r.response.None? <==> GetOrigin(d).None? || GetOrigin(d).value == d.url
    ensures r.state.freshIds == if GetOrigin(d).None? || GetOrigin(d).value == d.url then ext.freshIds + {d.requestId} else ext.freshIds
  {
    var (freshIds, verdict) := OnBeforeSendHeaders(ext.freshIds, d, (tab, url, origin) => ShouldAccept(ext.backend, tab, url, getHost));
    Reply(Extension(freshIds, ext.backend), verdict, None)
  }

  /** A fresh response without an Outbound-Rules header makes the backend
      throw: the request is consumed and the tab's rules stay as they were. */
  lemma MissingHeaderThrows(ext: Extension, d: ResponseDetails, getHost: HostOf)
    requires d.requestId in ext.freshIds && d.responseHeaders.Some?
    requires forall j :: 0 <= j < |d.responseHeaders.value| ==> Lower(d.responseHeaders.value[j].name) != "outbound-rules"
    ensures var r := Respond(ext, d, getHost);
      r.thrown == Some(UndefinedRules) && r.state.backend == ext.backend && d.requestId !in r.state.freshIds
  {
  }

  /** A binary rules header counts as no header: a fresh response whose
      first Outbound-Rules header is binary makes the backend throw. */
  lemma BinaryRulesHeaderThrows(ext: Extension, d: ResponseDetails, getHost: HostOf, name: string, rest: seq<Header>)
    requires d.requestId in ext.freshIds
    requires Lower(name) == "outbound-rules"
    requires d.responseHeaders == Some([Header(name, None)] + rest)
    ensures var r := Respond(ext, d, getHost);
      r.thrown == Some(UndefinedRules) && r.state.backend == ext.backend && d.requestId !in r.state.freshIds
  {
    FirstHeaderWins([], Header(name, None), rest, FoldedRulesName, Folded);
  }

  /** A binary origin header hides every origin header after it, so the
      request counts as a page load and is marked fresh. */
  lemma BinaryOriginIsPageLoad(ext: Extension, d: RequestDetails, getHost: HostOf, name: string, rest: seq<Header>)
    requires d.originUrl.None?
    requires Lower(name) in FoldedOriginNames
    requires d.requestHeaders == Some([Header(name, None)] + rest)
    ensures var r := Request(ext, d, getHost);
      r.response.None? && d.requestId in r.state.freshIds
  {
    FirstHeaderWins([], Header(name, None), rest, FoldedOriginNames, Folded);
  }

  /** A tab whose page never sent rules accepts every request. */
  lemma UnruledTabAccepts(ext: Extension, d: RequestDetails, getHost: HostOf)
    requires d.tabId !in ext.backend.cache
    ensures var r := Request(ext, d, getHost);
      r.response.None? || r.response == Some(BlockingResponse(false))
  {
  }
}
