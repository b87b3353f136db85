/** The per-tab rule store and the verdict: `PluginBackend` with its
    `findRule`, `initRequest` and `shouldAccept`. The first rule, in
    declaration order, whose matcher accepts a URL decides. */
module Engine {
  import opened Text
  import opened Results
  import opened Patterns
  import opened Parser
  import opened RuleSet
  import opened Browser

  /** The cache: the built rules of each tab that has received some. */
  type Cache = map<TabId, seq<Rule>>

  /** What `findRule` returns: `undefined` when the tab has no rules, `null`
      when none of them matches, else the matching rule. */
  datatype Lookup = NoRules | NoMatch | Found(rule: Rule)

  /** The position of the first rule matching `url`; `|rules|` when none
      does. */
  function FirstMatch(rules: seq<Rule>, url: string, getHost: HostOf): (k: nat)
    ensures k <= |rules|
    ensures k < |rules| ==> RuleMatches(rules[k], url, getHost)
    ensures forall j :: 0 <= j < k ==> !RuleMatches(rules[j], url, getHost)
  {
    if rules == [] then 0
    else if RuleMatches(rules[0], url, getHost) then 0
    else 1 + FirstMatch(rules[1..], url, getHost)
  }

  /** `findRule(tabId, url)`: `outbound.find(rule => rule.matcher(url)) || null`. */
  function FindRule(cache: Cache, tab: TabId, url: string, getHost: HostOf): (l: Lookup)
    ensures l.NoRules? <==> tab !in cache
    ensures l.NoMatch? <==> tab in cache && forall j :: 0 <= j < |cache[tab]| ==> !RuleMatches(cache[tab][j], url, getHost)
    ensures l.Found? ==> exists k :: 0 <= k < |cache[tab]| && l.rule == cache[tab][k]
                                   && RuleMatches(cache[tab][k], url, getHost)
                                   && (forall j :: 0 <= j < k ==> !RuleMatches(cache[tab][j], url, getHost))
  {
    if tab !in cache then NoRules
    else
      var rules := cache[tab];
      var k := FirstMatch(rules, url, getHost);
      if k == |rules| then NoMatch else Found(rules[k])
  }

  /** `parse(header)` followed by `ruleMatchers(rules, originHost)` with the
      lower-cased host of the page URL, stored as the tab's rules. A parse
      error leaves the cache as it was. */
  function Install(cache: Cache, tab: TabId, url: string, keyword: string, header: string, getHost: HostOf): (r: Result<Cache, Fault>)
    ensures r.Success? <==> Parse(keyword, header).Success?
    ensures r.Failure? ==> r.error == Parse(keyword, header).error
    ensures r.Success? ==> r.value.Keys == cache.Keys + {tab}
    ensures r.Success? ==> forall t :: t in cache && t != tab ==> r.value[t] == cache[t]
    ensures r.Success? ==> r.value[tab] == RuleMatchers(Parse(keyword, header).value, Lower(getHost(url)))
  {
    var originHost := Lower(getHost(url));
    match Parse(keyword, header)
    case Failure(e) => Failure(e)
    case Success(parsed) => Success(cache[tab := RuleMatchers(parsed, originHost)])
  }

  /** The state of a `PluginBackend`. */
  datatype Backend = Backend(cache: Cache)

  /** A backend with no rules for any tab. */
  const EmptyBackend := Backend(map[])

  /** `initRequest(tabId, url, outboundRules)`. The header value may be
      `undefined` (the wrapper forwards it unchecked), and `parse` then
      throws; so does a rule without `:`. Only the tab's own entry changes. */
  function InitRequest(b: Backend, tab: TabId, url: string, outboundRules: Option<string>, getHost: HostOf): (r: Result<Backend, Fault>)
    ensures outboundRules.None? ==> r == Failure(UndefinedRules)
    ensures outboundRules.Some? ==> (r.Success? <==> Parse(AcceptKeyword, outboundRules.value).Success?)
    ensures r.Success? ==> tab in r.value.cache
    ensures r.Success? ==> forall t :: t != tab ==> (t in r.value.cache <==> t in b.cache)
    ensures r.Success? ==> forall t :: t in b.cache && t != tab ==> r.value.cache[t] == b.cache[t]
  {
    match outboundRules
    case None => Failure(UndefinedRules)
    case Some(header) =>
      match Install(b.cache, tab, url, AcceptKeyword, header, getHost)
      case Failure(e) => Failure(e)
      case Success(cache) => Success(Backend(cache))
  }

  /** `shouldAccept(tabId, url, origin)`: a tab without rules accepts
      everything; otherwise the first matching rule decides, and no match
      denies. The origin is only logged and so is not a parameter. */
  function ShouldAccept(b: Backend, tab: TabId, url: string, getHost: HostOf): (accept: bool)
    ensures tab !in b.cache ==> accept
    ensures tab in b.cache ==>
      (accept <==> exists k :: 0 <= k < |b.cache[tab]| && b.cache[tab][k].accept
                              && RuleMatches(b.cache[tab][k], url, getHost)
                              && (forall j :: 0 <= j < k ==> !RuleMatches(b.cache[tab][j], url, getHost)))
  {
    match FindRule(b.cache, tab, url, getHost)
    case NoRules => true
    case NoMatch => false
    case Found(rule) => rule.accept
  }

  /** With rules in place, a URL no rule matches is denied, the empty rule
      list included. */
  lemma NoMatchDenies(b: Backend, tab: TabId, url: string, getHost: HostOf)
    requires tab in b.cache
    requires forall j :: 0 <= j < |b.cache[tab]| ==> !RuleMatches(b.cache[tab][j], url, getHost)
    ensures !ShouldAccept(b, tab, url, getHost)
  {
  }

  /** The first matching rule wins over every later one. */
  lemma FirstRuleDecides(b: Backend, tab: TabId, url: string, getHost: HostOf, k: nat)
    requires tab in b.cache && k < |b.cache[tab]|
    requires RuleMatches(b.cache[tab][k], url, getHost)
    requires forall j :: 0 <= j < k ==> !RuleMatches(b.cache[tab][j], url, getHost)
    ensures ShouldAccept(b, tab, url, getHost) == b.cache[tab][k].accept
  {
    var rules := b.cache[tab];
    var m := FirstMatch(rules, url, getHost);
    assert m == k by {
      assert m <= k;
      assert m >= k;
    }
  }

  /** Installing rules for one tab leaves every other tab's verdicts as
      they were. */
  lemma InitOnlyAffectsItsTab(b: Backend, tab: TabId, url: string, header: string, getHost: HostOf, other: TabId, target: string)
    requires other != tab
    requires InitRequest(b, tab, url, Some(header), getHost).Success?
    ensures ShouldAccept(InitRequest(b, tab, url, Some(header), getHost).value, other, target, getHost)
         == ShouldAccept(b, other, target, getHost)
  {
    var b' := InitRequest(b, tab, url, Some(header), getHost).value;
    if other in b.cache {
      assert b'.cache[other] == b.cache[other];
    }
  }

  /** After a successful `initRequest`, the tab's verdict for a URL is that
      of the first parsed rule with a target matching it, `SELF` read as
      the page's own lower-cased host; no such rule denies. */
  lemma DecisionAfterInit(b: Backend, tab: TabId, url: string, header: string, getHost: HostOf, target: string)
    requires Parse(AcceptKeyword, header).Success?
    ensures var r := InitRequest(b, tab, url, Some(header), getHost);
      && r.Success?
      && (ShouldAccept(r.value, tab, target, getHost)
          <==> FirstTargetsMatchAccepts(Parse(AcceptKeyword, header).value, Lower(getHost(url)), target, getHost))
  {
    var parsed := Parse(AcceptKeyword, header).value;
    var b' := InitRequest(b, tab, url, Some(header), getHost).value;
    assert b'.cache[tab] == RuleMatchers(parsed, Lower(getHost(url)));
    VerdictOfBuiltRules(b', tab, parsed, Lower(getHost(url)), target, getHost);
  }

  /** The verdict over rules built by `ruleMatchers`, stated on the parsed
      rules. */
  lemma VerdictOfBuiltRules(b: Backend, tab: TabId, parsed: seq<ParsedRule>, originHost: string, target: string, getHost: HostOf)
    requires tab in b.cache && b.cache[tab] == RuleMatchers(parsed, originHost)
    ensures ShouldAccept(b, tab, target, getHost) <==> FirstTargetsMatchAccepts(parsed, originHost, target, getHost)
  {
    var rules := RuleMatchers(parsed, originHost);
    forall k | 0 <= k < |parsed|
      ensures RuleMatches(rules[k], target, getHost) == TargetsMatch(parsed[k], originHost, target, getHost)
      ensures rules[k].accept == parsed[k].accept
    {
      RuleMatchesIff(parsed[k], originHost, target, getHost);
    }
  }

  /** Some parsed rule whose targets match, with no earlier one matching,
      accepts. */
  ghost predicate FirstTargetsMatchAccepts(parsed: seq<ParsedRule>, originHost: string, url: string, getHost: HostOf) {
    exists k :: 0 <= k < |parsed| && parsed[k].accept
              && TargetsMatch(parsed[k], originHost, url, getHost)
              && (forall j :: 0 <= j < k ==> !TargetsMatch(parsed[j], originHost, url, getHost))
  }

  /** Some target of a parsed rule, `SELF` read as `originHost`, matches. */
  ghost predicate TargetsMatch(parsed: ParsedRule, originHost: string, url: string, getHost: HostOf) {
    exists i :: 0 <= i < |parsed.from| && TokenMatches(ResolveSelf(parsed.from[i], originHost), url, getHost)
  }
}
