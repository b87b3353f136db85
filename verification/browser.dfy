/** The parts of the WebExtension `webRequest` API the engine sees: request
    and response details, their headers, the blocking response, and the
    first-match header lookups every revision performs. */
module Browser {
  import opened Text
  import opened Results

  /** A browser tab id. */
  type TabId = int

  /** A request id; the browser hands them out as strings. */
  type RequestId = string

  /** One HTTP header as the browser reports it. A header whose value is
      not valid text carries only `binaryValue`, and its `value` is
      `undefined`. */
  datatype Header = Header(name: string, value: Option<string>)

  /** What `onBeforeSendHeaders` receives. `originUrl` is only set by
      Firefox; `requestHeaders` is absent unless asked for. */
  datatype RequestDetails = RequestDetails(
    requestId: RequestId,
    tabId: TabId,
    url: string,
    originUrl: Option<string>,
    requestHeaders: Option<seq<Header>>)

  /** What `onHeadersReceived` receives. */
  datatype ResponseDetails = ResponseDetails(
    requestId: RequestId,
    tabId: TabId,
    url: string,
    responseHeaders: Option<seq<Header>>)

  /** The `{cancel: ...}` object a blocking listener returns. */
  datatype BlockingResponse = BlockingResponse(cancel: bool)

  /** What an event handler leaves behind: the new state, the value it
      returned (no value for `return;` and for handlers that never return
      one), and the error it threw, if any. State changes made before a
      throw persist. */
  datatype Reply<S> = Reply(state: S, response: Option<BlockingResponse>, thrown: Option<Fault>)

  /** How a revision compares header names: as written (`switch
      (header.name)`) or lower-cased first (`header.name.toLowerCase()`). */
  datatype NameMatch = Exact | Folded

  /** The header name as compared. */
  function Key(h: Header, how: NameMatch): string {
    match how
    case Exact => h.name
    case Folded => Lower(h.name)
  }

  /** The position of the first header whose compared name is one of
      `names`; `|headers|` when there is none. */
  function FirstHeader(headers: seq<Header>, names: set<string>, how: NameMatch): (k: nat)
    ensures k <= |headers|
    ensures k < |headers| ==> Key(headers[k], how) in names
    ensures forall j :: 0 <= j < k ==> Key(headers[j], how) !in names
  {
    if headers == [] then 0
    else if Key(headers[0], how) in names then 0
    else 1 + FirstHeader(headers[1..], names, how)
  }

  /** The `for (let header of headers) switch (...) case ...: return
      header.value` loop: the value of the first header with one of the
      names, `undefined` when none has one or when that first header is a
      binary one. */
  function FindHeader(headers: seq<Header>, names: set<string>, how: NameMatch): (v: Option<string>)
    ensures (forall j :: 0 <= j < |headers| ==> Key(headers[j], how) !in names) ==> v.None?
    ensures forall k :: (0 <= k < |headers| && Key(headers[k], how) in names
                         && forall j :: 0 <= j < k ==> Key(headers[j], how) !in names) ==> v == headers[k].value
    ensures v.Some? ==> exists k :: 0 <= k < |headers| && headers[k].value == v
                                 && Key(headers[k], how) in names
                                 && (forall j :: 0 <= j < k ==> Key(headers[j], how) !in names)
  {
    var k := FirstHeader(headers, names, how);
    if k == |headers| then None else headers[k].value
  }

  /** The first header with a wanted name shadows every later one. */
  lemma FirstHeaderWins(before: seq<Header>, h: Header, after: seq<Header>, names: set<string>, how: NameMatch)
    requires forall j :: 0 <= j < |before| ==> Key(before[j], how) !in names
    requires Key(h, how) in names
    ensures FindHeader(before + [h] + after, names, how) == h.value
  {
    var hs := before + [h] + after;
    var k := FirstHeader(hs, names, how);
    assert hs[|before|] == h;
    assert forall j :: 0 <= j < |before| ==> hs[j] == before[j];
    assert k == |before|;
  }

  /** `getOrigin(details)`: `originUrl` when the browser gives one, else the
      first origin header of the request, `undefined` when the request
      headers are missing. */
  function OriginOf(d: RequestDetails, names: set<string>, how: NameMatch): (origin: Option<string>)
    ensures d.originUrl.Some? ==> origin == d.originUrl
    ensures d.originUrl.None? && d.requestHeaders.None? ==> origin.None?
    ensures d.originUrl.None? && d.requestHeaders.Some? ==> origin == FindHeader(d.requestHeaders.value, names, how)
  {
    match d.originUrl
    case Some(u) => Some(u)
    case None =>
      match d.requestHeaders
      case None => None
      case Some(headers) => FindHeader(headers, names, how)
  }

  /** The origin header names, lower-cased (webextension-wrapper.ts). */
  const FoldedOriginNames: set<string> := {"origin", "referer", "referrer"}

  /** The origin header names, exact case (src/logic.ts, logic.ts). */
  const ExactOriginNames: set<string> := {"Origin", "Referer", "Referrer"}

  /** The name of the rules header, lower-cased. */
  const FoldedRulesName: set<string> := {"outbound-rules"}

  /** The name of the rules header, exact case (logic.ts, background.js). */
  const ExactRulesName: set<string> := {"Outbound-Rules"}
}
