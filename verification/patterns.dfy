/** The pattern compiler: `matcher` and `matchDot` of the engine. A target
    token becomes one of four kinds of pattern, evaluated against a URL. */
module Patterns {
  import opened Text

  /** The host name of a URL as the browser parses it (`getHost`, the
      `hostname` of a DOM anchor). Left abstract: the model is a parameter. */
  type HostOf = string -> string

  /** A compiled target token. `pattern` is the lower-cased token; for a
      suffix pattern it keeps its leading dot. */
  datatype Pattern =
    | MatchAll
    | SuffixDomain(pattern: string)
    | ExactHost(pattern: string)
    | ExactUrl(pattern: string)

  /** `matchDot(pattern, url)`: the lower-cased host is the dotted pattern
      without its dot, or ends with the dotted pattern. */
  function MatchDot(pattern: string, url: string, getHost: HostOf): (r: bool)
    ensures r <==> (|pattern| >= 1 && pattern[1..] == Lower(getHost(url))) || EndsWith(Lower(getHost(url)), pattern)
  {
    var host := Lower(getHost(url));
    if |pattern| == |host| + 1 then pattern[1..] == host
    else EndsWith(host, pattern)
  }

  /** `matcher(token)`: `ALL` (checked before lower-casing) matches
      everything; otherwise the lower-cased token is a suffix pattern when it
      starts with a dot, a host when it has no `/`, and a whole URL else. */
  function Compile(token: string): (p: Pattern)
    ensures p.MatchAll? <==> token == "ALL"
    ensures !p.MatchAll? ==> p.pattern == Lower(token)
  {
    if token == "ALL" then MatchAll
    else
      var pattern := Lower(token);
      if StartsWith(pattern, ".") then SuffixDomain(pattern)
      else if IndexOf(pattern, '/') == |pattern| then ExactHost(pattern)
      else ExactUrl(pattern)
  }

  /** Applying a compiled pattern to a candidate URL. */
  function Matches(p: Pattern, url: string, getHost: HostOf): (r: bool)
    ensures p.MatchAll? ==> r
    ensures p.SuffixDomain? ==>
      (r <==> (|p.pattern| >= 1 && p.pattern[1..] == Lower(getHost(url))) || EndsWith(Lower(getHost(url)), p.pattern))
    ensures p.ExactHost? ==> (r <==> Lower(getHost(url)) == p.pattern)
    ensures p.ExactUrl? ==> (r <==> Lower(url) == p.pattern)
  {
    match p
    case MatchAll => true
    case SuffixDomain(pattern) => MatchDot(pattern, url, getHost)
    case ExactHost(pattern) => Lower(getHost(url)) == pattern
    case ExactUrl(pattern) => Lower(url) == pattern
  }

  /** `matcher(token)(url)`. */
  predicate TokenMatches(token: string, url: string, getHost: HostOf) {
    Matches(Compile(token), url, getHost)
  }

  /** The identity host extraction, used to exhibit a URL a pattern rejects. */
  function WholeUrl(url: string): string {
    url
  }

  /** `ALL` matches every URL, the empty one included, whatever its host. */
  lemma AllMatchesEverything(url: string, getHost: HostOf)
    ensures Compile("ALL") == MatchAll
    ensures TokenMatches("ALL", url, getHost)
  {
  }

  /** Only the exact literal `ALL` matches everything: any other token, `all`
      included, rejects the URL made of the token followed by `x` when the
      host is the whole URL. */
  lemma OnlyAllMatchesEverything(token: string)
    requires token != "ALL"
    ensures !TokenMatches(token, token + "x", WholeUrl)
  {
    var p := Lower(token);
    var host := Lower(token + "x");
    assert host == p + "x" by {
      assert forall i :: 0 <= i < |host| ==> host[i] == (p + "x")[i];
    }
    if StartsWith(p, ".") && EndsWith(host, p) {
      assert (p + "x")[1..] == p;
      NotOwnShift(p);
    }
  }

  /** A string starting with a dot is never its own shift by one `x`. */
  lemma {:induction false} NotOwnShift(p: string)
    requires |p| >= 1 && p[0] == '.'
    ensures (p + "x")[1..] != p
    decreases |p|
  {
    if |p| > 1 && (p + "x")[1..] == p {
      assert p[1] == '.';
      assert (p[1..] + "x")[1..] == (p + "x")[2..] == p[1..];
      NotOwnShift(p[1..]);
    }
  }

  /** The lower-case literal `all` is an ordinary host pattern. */
  lemma LowerAllIsHostPattern()
    ensures Compile("all") == ExactHost("all")
  {
  }

  /** A dotted token matches exactly when the lower-cased host is the token
      without its dot, or ends with the token, dot included. */
  lemma SuffixMatchIff(token: string, url: string, getHost: HostOf)
    requires StartsWith(Lower(token), ".")
    ensures Compile(token) == SuffixDomain(Lower(token))
    ensures var host := Lower(getHost(url)); var p := Lower(token);
      TokenMatches(token, url, getHost) <==> host == p[1..] || EndsWith(host, p)
  {
    assert Lower(token)[0] == '.';
    assert token != "ALL" by {
      assert LowerChar(token[0]) == '.';
    }
  }

  /** Sub-domain boundary: a dotted token only matches its domain itself or
      a host that has a dot right before the domain, so `xfoo.bar` never
      matches `.foo.bar`. */
  lemma SuffixMatchesWholeLabels(token: string, url: string, getHost: HostOf)
    requires StartsWith(Lower(token), ".")
    requires TokenMatches(token, url, getHost)
    ensures var host := Lower(getHost(url)); var domain := Lower(token)[1..];
      host == domain
      || (|domain| < |host| && host[|host| - |domain| - 1] == '.' && EndsWith(host, domain))
  {
    SuffixMatchIff(token, url, getHost);
    DotBoundary(Lower(getHost(url)), Lower(token));
  }

  /** A host that is a dotted suffix's domain or ends with the suffix has a
      dot right before the domain. */
  lemma DotBoundary(host: string, p: string)
    requires StartsWith(p, ".")
    requires host == p[1..] || EndsWith(host, p)
    ensures var domain := p[1..];
      host == domain
      || (|domain| < |host| && host[|host| - |domain| - 1] == '.' && EndsWith(host, domain))
  {
    var domain := p[1..];
    if host != domain {
      assert host[|host| - |p|..] == p;
      assert host[|host| - |domain| - 1] == host[|host| - |p|..][0];
      assert host[|host| - |domain|..] == host[|host| - |p|..][1..];
    }
  }

  /** Conversely the domain itself and every host `x + token` (any sub-domain,
      however deep) match a dotted token. */
  lemma SuffixMatchesSubdomains(token: string, url: string, getHost: HostOf, x: string)
    requires StartsWith(Lower(token), ".")
    requires Lower(getHost(url)) == Lower(token)[1..] || Lower(getHost(url)) == x + Lower(token)
    ensures TokenMatches(token, url, getHost)
  {
    var host := Lower(getHost(url));
    var p := Lower(token);
    if host == x + p {
      assert host[|host| - |p|..] == p;
    }
  }

  /** A token with no dot in front and no `/` matches exactly the URLs whose
      lower-cased host equals the lower-cased token: no sub-domains. */
  lemma HostMatchIff(token: string, url: string, getHost: HostOf)
    requires token != "ALL"
    requires !StartsWith(Lower(token), ".")
    requires '/' !in Lower(token)
    ensures Compile(token) == ExactHost(Lower(token))
    ensures TokenMatches(token, url, getHost) <==> Lower(getHost(url)) == Lower(token)
  {
    var p := Lower(token);
    assert IndexOf(p, '/') == |p|;
  }

  /** A token with a `/` (and no dot in front) matches exactly the URL equal
      to it, both lower-cased. */
  lemma UrlMatchIff(token: string, url: string, getHost: HostOf)
    requires !StartsWith(Lower(token), ".")
    requires '/' in Lower(token)
    ensures Compile(token) == ExactUrl(Lower(token))
    ensures TokenMatches(token, url, getHost) <==> Lower(url) == Lower(token)
  {
    var p := Lower(token);
    assert token != "ALL" by {
      assert Lower("ALL") == "all";
    }
    var i :| 0 <= i < |p| && p[i] == '/';
    assert IndexOf(p, '/') <= i;
  }

  /** An unsubstituted `SELF` is an ordinary host pattern for the host `self`. */
  lemma SelfUnresolvedIsHostSelf(url: string, getHost: HostOf)
    ensures Compile("SELF") == ExactHost("self")
    ensures TokenMatches("SELF", url, getHost) <==> Lower(getHost(url)) == "self"
  {
    var l := Lower("SELF");
    assert l == "self" by {
      assert l[0] == 's' && l[1] == 'e' && l[2] == 'l' && l[3] == 'f';
    }
    assert l[..1] != "." && '/' !in l;
    HostMatchIff("SELF", url, getHost);
  }
}
