/** The rule-set builder `ruleMatchers`: every parsed rule gets the compiled
    patterns of its targets, `SELF` standing for the host of the page that
    declared the rules, and a rule matches a URL when any of its targets
    does. */
module RuleSet {
  import opened Text
  import opened Patterns
  import opened Parser

  /** The target token that stands for the declaring page's own host. */
  const SelfToken := "SELF"

  /** A parsed rule together with its compiled targets, in target order.
      `from` keeps the tokens as written, `SELF` included. */
  datatype Rule = Rule(accept: bool, from: seq<string>, text: string, matchers: seq<Pattern>)

  /** `x === "SELF" ? originHost : x`. */
  function ResolveSelf(token: string, originHost: string): (resolved: string)
    ensures token == SelfToken ==> resolved == originHost
    ensures token != SelfToken ==> resolved == token
  {
    if token == SelfToken then originHost else token
  }

  /** One rule of `ruleMatchers`: the parsed fields are kept and each target
      is compiled after `SELF` substitution. */
  function Attach(parsed: ParsedRule, originHost: string): (rule: Rule)
    ensures rule.accept == parsed.accept && rule.from == parsed.from && rule.text == parsed.text
    ensures |rule.matchers| == |parsed.from|
  {
    Rule(parsed.accept, parsed.from, parsed.text,
         seq(|parsed.from|, i requires 0 <= i < |parsed.from| => Compile(ResolveSelf(parsed.from[i], originHost))))
  }

  /** `ruleMatchers(rules, originHost)`: every rule, in order. */
  function RuleMatchers(parsed: seq<ParsedRule>, originHost: string): (rules: seq<Rule>)
    ensures |rules| == |parsed|
    ensures forall i :: 0 <= i < |parsed| ==> rules[i] == Attach(parsed[i], originHost)
  {
    seq(|parsed|, i requires 0 <= i < |parsed| => Attach(parsed[i], originHost))
  }

  /** `matchers.some(match => match(url))`. */
  function AnyMatches(ps: seq<Pattern>, url: string, getHost: HostOf): (b: bool)
    ensures b <==> exists i :: 0 <= i < |ps| && Matches(ps[i], url, getHost)
  {
    if ps == [] then false
    else if Matches(ps[0], url, getHost) then true
    else
      assert forall i :: 1 <= i < |ps| ==> ps[i] == ps[1..][i - 1];
      AnyMatches(ps[1..], url, getHost)
  }

  /** `rule.matcher(url)`. */
  predicate RuleMatches(rule: Rule, url: string, getHost: HostOf) {
    AnyMatches(rule.matchers, url, getHost)
  }

  /** A built rule matches a URL exactly when one of its targets, `SELF`
      read as the origin host and every other token as written, matches it. */
  lemma RuleMatchesIff(parsed: ParsedRule, originHost: string, url: string, getHost: HostOf)
    ensures RuleMatches(Attach(parsed, originHost), url, getHost)
        <==> exists i :: 0 <= i < |parsed.from| && TokenMatches(ResolveSelf(parsed.from[i], originHost), url, getHost)
  {
    var ms := Attach(parsed, originHost).matchers;
    assert forall i :: 0 <= i < |parsed.from| ==> ms[i] == Compile(ResolveSelf(parsed.from[i], originHost));
  }

  /** Only the token `SELF` is substituted: a rule whose targets are all
      other tokens matches exactly as its tokens do, whatever the origin. */
  lemma OriginIrrelevantWithoutSelf(parsed: ParsedRule, origin1: string, origin2: string, url: string, getHost: HostOf)
    requires SelfToken !in parsed.from
    ensures RuleMatches(Attach(parsed, origin1), url, getHost) == RuleMatches(Attach(parsed, origin2), url, getHost)
  {
    RuleMatchesIff(parsed, origin1, url, getHost);
    RuleMatchesIff(parsed, origin2, url, getHost);
    assert forall i :: 0 <= i < |parsed.from| ==>
      ResolveSelf(parsed.from[i], origin1) == parsed.from[i] == ResolveSelf(parsed.from[i], origin2);
  }

  /** A rule listing `SELF` matches every URL on the declaring page's own
      host: the origin host is the lower-cased host of the page URL, which
      is an ordinary host name (no leading dot, no `/`). */
  lemma SelfMatchesOwnHost(parsed: ParsedRule, pageUrl: string, url: string, getHost: HostOf)
    requires SelfToken in parsed.from
    requires !StartsWith(Lower(getHost(pageUrl)), ".") && '/' !in Lower(getHost(pageUrl))
    requires Lower(getHost(url)) == Lower(getHost(pageUrl))
    ensures RuleMatches(Attach(parsed, Lower(getHost(pageUrl))), url, getHost)
  {
    var originHost := Lower(getHost(pageUrl));
    var i :| 0 <= i < |parsed.from| && parsed.from[i] == SelfToken;
    LowerIdempotent(getHost(pageUrl));
    assert originHost != "ALL" by {
      assert originHost == [] || !IsUpper(originHost[0]);
    }
    HostMatchIff(originHost, url, getHost);
    RuleMatchesIff(parsed, originHost, url, getHost);
  }
}
