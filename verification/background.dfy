/** The earliest revision, background.js: rules carry their action as a
    string and only the exact action `Deny` cancels. Hosts are compared as
    the browser reports them (no lower-casing), `SELF` stands for the host
    of the request's own origin at decision time, and a dotted target calls
    `matchHostDot`, which that revision never defines. */
module Background {
  import opened Text
  import opened Results
  import opened Patterns
  import opened Parser
  import opened RuleSet
  import opened Browser

  /** The only action that cancels. */
  const DenyAction := "Deny"

  /** The origin header names of this revision, exact case (no `Referrer`). */
  const OriginNames: set<string> := {"Origin", "Referer"}

  /** One parsed rule: its trimmed action as written, its target tokens and
      its rule text. */
  datatype ActionRule = ActionRule(action: string, from: seq<string>, text: string)

  /** The `sub.apply(null, subrule.split(':'))` step of `parse`: the action
      is only trimmed, not lower-cased; a piece without `:` throws. */
  function ParseActionOne(ruleText: string): (r: Result<ActionRule, Fault>)
    ensures r.Success? <==> HasColon(ruleText)
    ensures r.Failure? ==> r.error == MissingTargets(ruleText)
    ensures r.Success? ==> r.value == ActionRule(Trim(ActionField(ruleText)), Words(TargetField(ruleText)), ruleText)
  {
    match SplitRule(ruleText)
    case Failure(e) => Failure(e)
    case Success((action, from)) => Success(ActionRule(Trim(action), from, ruleText))
  }

  /** `parse(outheader)` of background.js. */
  function ParseActions(header: string): (r: Result<seq<ActionRule>, Fault>)
    ensures var texts := RuleTexts(header);
      && (r.Success? <==> forall i :: 0 <= i < |texts| ==> HasColon(texts[i]))
      && (r.Success? ==> |r.value| == |texts| && forall i :: 0 <= i < |texts| ==> r.value[i].text == texts[i])
      && (r.Success? ==> forall i :: 0 <= i < |texts| ==> ParseActionOne(texts[i]) == Success(r.value[i]))
      && (r.Failure? ==> exists i :: 0 <= i < |texts| && !HasColon(texts[i]) && r.error == MissingTargets(texts[i])
                                   && forall j :: 0 <= j < i ==> HasColon(texts[j]))
  {
    MapAll(ParseActionOne, RuleTexts(header))
  }

  /** This parser and the later keyword parsers cut a header the same way:
      they fail together, and rule by rule they agree on the targets and
      the text, the later verdict being the lower-cased action compared
      with the keyword. */
  lemma ParseActionsAgree(keyword: string, header: string)
    ensures ParseActions(header).Success? <==> Parse(keyword, header).Success?
    ensures ParseActions(header).Failure? ==> ParseActions(header).error == Parse(keyword, header).error
    ensures ParseActions(header).Success? ==>
      var xs, ys := ParseActions(header).value, Parse(keyword, header).value;
      && |xs| == |ys|
      && forall i :: 0 <= i < |xs| ==>
           xs[i].from == ys[i].from && xs[i].text == ys[i].text && (ys[i].accept <==> Lower(xs[i].action) == keyword)
  {
    TextsAgree(keyword, RuleTexts(header));
  }

  /** The agreement, over the rule texts of a header. */
  lemma TextsAgree(keyword: string, texts: seq<string>)
    ensures var a, b := MapAll(ParseActionOne, texts), ParseAll(keyword, texts);
      && (a.Success? <==> b.Success?)
      && (a.Failure? ==> a.error == b.error)
      && (a.Success? ==>
            && |a.value| == |b.value|
            && forall i :: 0 <= i < |a.value| ==>
                 a.value[i].from == b.value[i].from && a.value[i].text == b.value[i].text
                 && (b.value[i].accept <==> Lower(a.value[i].action) == keyword))
  {
    var a := MapAll(ParseActionOne, texts);
    if a.Success? {
      forall i | 0 <= i < |texts|
        ensures a.value[i].from == ParseAll(keyword, texts).value[i].from
        ensures a.value[i].text == ParseAll(keyword, texts).value[i].text
        ensures ParseAll(keyword, texts).value[i].accept <==> Lower(a.value[i].action) == keyword
      {
        RuleAgrees(keyword, texts, a.value, i);
      }
    } else {
      var k :| 0 <= k < |texts| && ParseActionOne(texts[k]) == Failure(a.error)
               && (forall j :: 0 <= j < k ==> ParseActionOne(texts[j]).Success?);
      FirstFailureIs(keyword, texts, k);
    }
  }

  /** Rule `i` of both parsers, when the rule texts all parse. */
  lemma RuleAgrees(keyword: string, texts: seq<string>, xs: seq<ActionRule>, i: nat)
    requires MapAll(ParseActionOne, texts) == Success(xs) && i < |texts|
    ensures ParseAll(keyword, texts).Success?
    ensures var ys := ParseAll(keyword, texts).value;
      xs[i].from == ys[i].from && xs[i].text == ys[i].text && (ys[i].accept <==> Lower(xs[i].action) == keyword)
  {
    assert ParseActionOne(texts[i]) == Success(xs[i]);
    ParseAllAt(keyword, texts, i);
  }

  /** `parse` fails with the error of the first rule text without a colon. */
  lemma FirstFailureIs(keyword: string, texts: seq<string>, k: nat)
    requires k < |texts| && !HasColon(texts[k])
    requires forall j :: 0 <= j < k ==> HasColon(texts[j])
    ensures ParseAll(keyword, texts) == Failure(MissingTargets(texts[k]))
  {
    var r := ParseAll(keyword, texts);
    ParseAllFailure(keyword, texts);
    var i :| 0 <= i < |texts| && r.error == MissingTargets(texts[i]) && !HasColon(texts[i])
             && (forall j :: 0 <= j < i ==> HasColon(texts[j]));
    assert i == k by {
      assert !(i < k) && !(k < i);
    }
  }

  /** `matchSubdomain(teststr, host)`, `host` being a dotted domain: the
      test string is the domain without its dot, or ends with the dotted
      domain. The `console.assert` on the dot only logs. */
  function MatchSubdomain(teststr: string, host: string): (r: bool)
    ensures r <==> (|host| >= 1 && host[1..] == teststr) || EndsWith(teststr, host)
  {
    if |host| == |teststr| + 1 then host[1..] == teststr
    else EndsWith(teststr, host)
  }

  /** `matchSubdomain` is the canonical `matchDot` with the arguments
      swapped, applied to the lower-cased host. */
  lemma MatchSubdomainIsMatchDot(pattern: string, url: string, getHost: HostOf)
    ensures MatchDot(pattern, url, getHost) == MatchSubdomain(Lower(getHost(url)), pattern)
  {
  }

  /** Sub-domain boundary: with a dotted domain, `matchSubdomain` accepts
      exactly the domain itself and the hosts ending in a dot followed by
      the domain. */
  lemma MatchSubdomainIff(teststr: string, host: string)
    requires StartsWith(host, ".")
    ensures var domain := host[1..];
      MatchSubdomain(teststr, host) <==>
        teststr == domain || (|domain| < |teststr| && EndsWith(teststr, domain) && teststr[|teststr| - |domain| - 1] == '.')
  {
    var domain := host[1..];
    if |domain| < |teststr| && EndsWith(teststr, domain) && teststr[|teststr| - |domain| - 1] == '.' {
      assert teststr[|teststr| - |host|..] == [teststr[|teststr| - |host|]] + teststr[|teststr| - |domain|..];
    }
    if MatchSubdomain(teststr, host) && teststr != domain {
      assert teststr[|teststr| - |domain|..] == teststr[|teststr| - |host|..][1..];
    }
  }

  /** `matchHost(teststr, host)`: `ALL` matches everything, a dotted target
      throws because `matchHostDot` is not defined, any other target is
      compared with the host as written, letter case included. */
  function MatchHost(teststr: string, host: string): (r: Result<bool, Fault>)
    ensures r.Failure? <==> host != "ALL" && StartsWith(host, ".")
    ensures r.Failure? ==> r.error == UndefinedMatchHostDot(host)
    ensures r.Success? ==> (r.value <==> host == "ALL" || teststr == host)
  {
    if host == "ALL" then Success(true)
    else if StartsWith(host, ".") then Failure(UndefinedMatchHostDot(host))
    else Success(teststr == host)
  }

  /** The test of one target: `SELF` becomes the origin's host, then
      `matchHost(targetDomain, host)`. */
  function TargetTest(targetDomain: string, originDomain: string): string -> Result<bool, Fault> {
    token => MatchHost(targetDomain, ResolveSelf(token, originDomain))
  }

  /** The inner loop over `rule.from`: whether some target matches, the first
      throwing target reached first ending the handler. */
  function RuleHit(rule: ActionRule, targetDomain: string, originDomain: string): (r: Result<bool, Fault>)
    ensures r == Success(false) <==>
      forall j :: 0 <= j < |rule.from| ==> TargetTest(targetDomain, originDomain)(rule.from[j]) == Success(false)
    ensures r == Success(true) <==>
      exists k :: 0 <= k < |rule.from| && TargetTest(targetDomain, originDomain)(rule.from[k]) == Success(true)
                && (forall j :: 0 <= j < k ==> TargetTest(targetDomain, originDomain)(rule.from[j]) == Success(false))
    ensures r.Failure? ==>
      exists k :: 0 <= k < |rule.from| && TargetTest(targetDomain, originDomain)(rule.from[k]) == Failure(r.error)
                && (forall j :: 0 <= j < k ==> TargetTest(targetDomain, originDomain)(rule.from[j]) == Success(false))
  {
    match FindFirst(TargetTest(targetDomain, originDomain), rule.from)
    case Failure(e) => Failure(e)
    case Success(hit) => Success(hit.Some?)
  }

  /** The test of one rule: its inner loop. */
  function RuleTest(targetDomain: string, originDomain: string): ActionRule -> Result<bool, Fault> {
    rule => RuleHit(rule, targetDomain, originDomain)
  }

  /** The labelled outer loop: the first rule with a matching target, `None`
      when no rule matches, or the exception of `matchHostDot`. */
  function Decide(rules: seq<ActionRule>, targetDomain: string, originDomain: string): (r: Result<Option<ActionRule>, Fault>)
    ensures var test := RuleTest(targetDomain, originDomain);
      && (r == Success(None) <==> forall j :: 0 <= j < |rules| ==> test(rules[j]) == Success(false))
      && (r.Success? && r.value.Some? ==>
            exists k :: 0 <= k < |rules| && rules[k] == r.value.value && test(rules[k]) == Success(true)
                      && (forall j :: 0 <= j < k ==> test(rules[j]) == Success(false)))
      && (r.Failure? ==>
            exists k :: 0 <= k < |rules| && test(rules[k]) == Failure(r.error)
                      && (forall j :: 0 <= j < k ==> test(rules[j]) == Success(false)))
  {
    match FindFirst(RuleTest(targetDomain, originDomain), rules)
    case Failure(e) => Failure(e)
    case Success(None) => Success(None)
    case Success(Some(k)) => Success(Some(rules[k]))
  }

  /** `cancel = rule.action === "Deny"` for the deciding rule; `!!undefined`
      when none decides. */
  function Cancels(decision: Option<ActionRule>): (cancel: bool)
    ensures cancel ==> decision.Some?
  {
    decision.Some? && decision.value.action == DenyAction
  }

  /** The script state: the parsed rules of each tab and the fresh request
      ids. */
  datatype BgState = BgState(cache: map<TabId, seq<ActionRule>>, freshIds: set<RequestId>)

  /** `onHeadersReceived(details)`: like logic.ts, but the rules are stored
      as parsed, with their targets unresolved. */
  function OnHeadersReceived(s: BgState, d: ResponseDetails): (r: Reply<BgState>)
    ensures r.response.None?
    ensures d.responseHeaders.None? || d.requestId !in s.freshIds ==> r == Reply(s, None, None)
    ensures d.responseHeaders.Some? && d.requestId in s.freshIds ==>
      && r.state.freshIds == s.freshIds - {d.requestId}
      && var parsed := ParseActions(FindHeader(d.responseHeaders.value, ExactRulesName, Exact).GetOr(""));
         && (parsed.Success? ==> r.state.cache == s.cache[d.tabId := parsed.value] && r.thrown.None?)
         && (parsed.Failure? ==> r.state.cache == s.cache && r.thrown == Some(parsed.error))
  {
    match d.responseHeaders
    case None => Reply(s, None, None)
    case Some(headers) =>
      if d.requestId !in s.freshIds then Reply(s, None, None)
      else
        var freshIds := s.freshIds - {d.requestId};
        match ParseActions(FindHeader(headers, ExactRulesName, Exact).GetOr(""))
        case Failure(e) => Reply(BgState(s.cache, freshIds), None, Some(e))
        case Success(rules) => Reply(BgState(s.cache[d.tabId := rules], freshIds), None, None)
  }

  /** `onBeforeSendHeaders(details)`: the hosts of the request and of its
      origin are taken as the browser reports them, and the first rule with
      a matching target decides. */
  function OnBeforeSendHeaders(s: BgState, d: RequestDetails, getHost: HostOf): (r: Reply<BgState>)
    ensures r.state.cache == s.cache
    ensures d.requestHeaders.None? ==> r == Reply(s, None, None)
    ensures d.requestHeaders.Some? ==>
      var origin := FindHeader(d.requestHeaders.value, OriginNames, Exact);
      && (origin.None? || origin.value == d.url ==>
            r == Reply(BgState(s.cache, s.freshIds + {d.requestId}), None, None))
      && (origin.Some? && origin.value != d.url ==> r.state == s)
      && (origin.Some? && origin.value != d.url && d.tabId !in s.cache ==> r.response.None? && r.thrown.None?)
      && (origin.Some? && origin.value != d.url && d.tabId in s.cache ==>
            var decision := Decide(s.cache[d.tabId], getHost(d.url), getHost(origin.value));
            && (decision.Failure? ==> r.response.None? && r.thrown == Some(decision.error))
            && (decision.Success? ==> r.thrown.None? && r.response == Some(BlockingResponse(Cancels(decision.value)))))
  {
    match d.requestHeaders
    case None => Reply(s, None, None)
    case Some(headers) =>
      var origin := FindHeader(headers, OriginNames, Exact);
      if origin.None? || origin.value == d.url then
        Reply(BgState(s.cache, s.freshIds + {d.requestId}), None, None)
      else if d.tabId !in s.cache then Reply(s, None, None)
      else
        match Decide(s.cache[d.tabId], getHost(d.url), getHost(origin.value))
        case Failure(e) => Reply(s, None, Some(e))
        case Success(decision) => Reply(s, Some(BlockingResponse(Cancels(decision))), None)
  }

  /** `SELF` is resolved when a request is decided, against the host of that
      request's origin: a `SELF`-only rule matches exactly the requests
      whose host equals their origin's host. */
  lemma SelfResolvedAtDecision(rule: ActionRule, targetDomain: string, originDomain: string)
    requires rule.from == [SelfToken]
    requires originDomain != "ALL" && !StartsWith(originDomain, ".")
    ensures Decide([rule], targetDomain, originDomain) == Success(if targetDomain == originDomain then Some(rule) else None)
  {
    assert TargetTest(targetDomain, originDomain)(rule.from[0]) == Success(targetDomain == originDomain);
  }

  /** Hosts are compared as written: a plain host target that differs from
      the request's host only in letter case does not match it here, while
      the canonical matcher, which lower-cases both sides, matches it. */
  lemma HostsCaseSensitive(teststr: string, host: string, url: string, getHost: HostOf)
    requires host != "ALL" && !StartsWith(host, ".") && '/' !in host
    requires teststr != host && Lower(teststr) == Lower(host)
    requires getHost(url) == teststr
    ensures MatchHost(teststr, host) == Success(false)
    ensures TokenMatches(host, url, getHost)
  {
  }

  /** Only the exact action `Deny` cancels: a matching rule spelt `deny` or
      `DENY` lets the request through, and so does no match at all. */
  lemma OnlyExactDenyCancels(rule: ActionRule)
    ensures Cancels(Some(rule)) <==> rule.action == "Deny"
    ensures !Cancels(Some(ActionRule("deny", rule.from, rule.text)))
    ensures !Cancels(None)
  {
  }

  /** The dotted example of the source comment, `matchHost("ravelin.com",
      ".ravelin.com")`, throws instead of matching; `matchSubdomain`, which
      is never called, would have accepted it. */
  lemma DottedTargetThrows()
    ensures MatchHost("ravelin.com", ".ravelin.com") == Failure(UndefinedMatchHostDot(".ravelin.com"))
    ensures MatchSubdomain("ravelin.com", ".ravelin.com")
  {
    assert ".ravelin.com"[1..] == "ravelin.com";
  }
}
