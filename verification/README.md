# Outbound-Rules policy engine, modelled in Dafny

Outbound-Rules is a browser extension that enforces a page's own outbound
policy. A page's response carries an `Outbound-Rules` header such as
`Accept: SELF example.com, Deny: evil.com`. The extension stores the parsed
rules for the page's tab. Every later request from that tab, one whose origin
is not its own URL, is then allowed or cancelled. The first rule, in
declaration order, with a target matching the request's URL decides.

This project models that engine and proves properties of it:

- **Parser** (`parse`, `parseOne`, `parseOneAux`): cuts a header at commas,
  trims each piece and drops the empty ones. Each piece is cut at colons into
  an action and a white-space separated target list.
- **Patterns** (`matcher`, `matchDot`): a target is one of four patterns.
  `ALL` matches everything. A dotted suffix matches a domain and its
  sub-domains. A bare host matches by exact host. A token with a `/` matches
  the exact URL.
- **RuleSet** (`ruleMatchers`): attaches compiled patterns to parsed rules.
  `SELF` is read as the page's own lower-cased host.
- **Engine** (`PluginBackend`): the per-tab cache, with `findRule`,
  `initRequest` and `shouldAccept`. A tab without rules accepts everything. A
  tab with rules denies a URL no rule matches.
- **Browser** and **Wrapper** (webextension-wrapper.ts): the event state
  machine. It tracks "fresh" requests (page loads) and lets only the first
  response to one install rules. Header names are compared case-insensitively.
  Wiring it to the backend (`Respond`, `Request`) gives the whole extension.
- **Plugin** (src/logic.ts): the combined class. It matches origin headers in
  exact case, and a fresh response without a rules header keeps the tab's old
  rules.
- **Legacy** (logic.ts): the earlier `allow` dialect. It is fail-open: with
  rules in place, a request nothing matches goes through.
- **Background** (background.js): the earliest revision. Actions are kept as
  strings and only an exact `Deny` cancels. Hosts are compared as written, and
  `SELF` is resolved against the request's origin. A dotted target calls a
  function that revision never defines.
- **Scenarios**: the repository's tests and doc-comment examples, each stated
  for any hosts and words of the same shape.

Modelling choices:

- **Exceptions.** An operation that may throw returns a `Result` carrying a
  `Fault`. A handler returns a `Reply` holding its new state, the
  `{cancel}` object it returned (if any) and the error it threw (if any).
  State changes made before a throw persist, as in JavaScript.
- **Host extraction.** `getHost` reads the `hostname` of a DOM anchor. It is
  a function parameter of type `HostOf`.
- **Lower-casing.** `toLowerCase` is ASCII lower-casing.
- **White space.** `trim` and `\s` use the ECMAScript WhiteSpace and
  LineTerminator characters.
- **Missing colon.** A rule piece without `:` leaves `parseOneAux`'s target
  argument `undefined`, and calling `.split` on it throws
  (src/main/logic.ts:73,78). The model returns `MissingTargets`.
- **Binary headers.** A header's `value` is optional, as in the WebExtension
  API, where a binary header carries only `binaryValue`. Every header lookup
  returns the value of the first header with a wanted name, so a binary first
  match reads as `undefined` and hides later headers of the same name.

## Model

| member | source | states |
|---|---|---|
| Results.MapAll | src/main/logic.ts:84 | `.map(parseOne)` with a throwing step: it succeeds exactly when every element does, keeping the results in order; otherwise it raises the error of the first failing element |
| Results.MapAllAppend | src/main/logic.ts:84 | mapping over a concatenation is mapping over each part in turn, the first failure winning |
| Results.FindFirst | background.js:126-137 | a breaking loop whose test may throw: the first accepted position with every earlier test false, `None` exactly when all tests are false, or the first exception |
| Text.Lower | src/main/logic.ts:45 | lower-casing keeps the length and lower-cases each character |
| Text.LowerIdempotent | src/main/logic.ts:45 | lower-casing an already lower-cased pattern changes nothing |
| Text.IndexOf | src/main/logic.ts:51 | `indexOf`: the first position holding the character, or the length when there is none |
| Text.Trim | src/main/logic.ts:67 | the trimmed string is no longer than the input and neither starts nor ends with white space |
| Text.TrimKeepsInterior | src/main/logic.ts:67 | trimming drops white space at both ends and nothing else |
| Text.TrimPadding | src/main/logic.ts:67 | trimming undoes white-space padding of a string with no white space at its ends |
| Text.TrimOfTrimmed | src/main/logic.ts:67 | trimming is idempotent on strings with no white space at their ends |
| Text.Split | src/main/logic.ts:84 | `split` gives at least one piece and no piece holds the separator |
| Text.JoinSplit | src/main/logic.ts:84 | joining the pieces of a split with its separator gives the original string back |
| Text.SplitJoin | src/main/logic.ts:84 | splitting a join of separator-free pieces gives the pieces back |
| Text.ConcatSplit | src/main/logic.ts:84 | splitting loses the separator characters and nothing else |
| Text.SplitAppend | src/main/logic.ts:84 | splitting distributes over a separator character |
| Text.DropEmpty | src/main/logic.ts:84 | `filter(Boolean)` keeps only non-empty pieces and loses no characters |
| Text.DropEmptyMembers | src/main/logic.ts:84 | exactly the non-empty pieces survive `filter(Boolean)` |
| Text.DropEmptyAppend | src/main/logic.ts:84 | `filter(Boolean)` distributes over concatenation |
| Text.Words | src/main/logic.ts:73 | the target list holds non-empty, white-space-free words whose concatenation is the input without its white space |
| Text.WordsAppend | src/main/logic.ts:73 | every white-space character, whichever it is, is a word boundary: the words of `a c b` are the words of `a` followed by those of `b` |
| Text.WordsUnspaced | src/main/logic.ts:73 | a string without white space is one word, or no word when empty; with WordsAppend this fixes the words of every string |
| Text.WordsOfJoin | src/main/logic.ts:73 | the words of space-joined white-space-free pieces are the non-empty pieces, in order |
| Parser.SplitRule | src/main/logic.ts:78 | `ruletext.split(':')` applied to `parseOneAux`: it succeeds exactly when the text has a colon, giving the text before the first colon and the words between the first and second colon; without a colon it raises `MissingTargets` |
| Parser.ParseOne | src/main/logic.ts:69-81 | a rule text with a colon gives a rule keeping the text, accepting exactly when the trimmed, lower-cased action is `accept`, with the words of the target field; without a colon it throws |
| Parser.ParseOneOf | src/main/logic.ts:77-81 | `parseOne(action + ":" + targets)` for colon-free parts is the rule of that action's verdict and those targets' words |
| Parser.TargetsStopAtSecondColon | src/main/logic.ts:78 | only the first two colon components are used: everything from a second colon on is ignored |
| Parser.RuleTexts | src/main/logic.ts:84 | every rule text of a header is non-empty, comma-free, and neither starts nor ends with white space |
| Parser.RuleTextsOfJoin | src/main/logic.ts:84 | the rule texts of comma-joined pieces are the trimmed non-empty pieces, in order |
| Parser.ParseAll | src/main/logic.ts:84 | `texts.map(parseOne)` succeeds exactly when every text has a colon, one rule per text in order, each carrying its text |
| Parser.ParseAllAt | src/main/logic.ts:84 | each parsed rule is `parseOne` of the rule text at the same position |
| Parser.ParseAllFailure | src/main/logic.ts:84 | a failing parse reports the first rule text without a colon |
| Parser.Parse | src/main/logic.ts:83-85 | `parse` succeeds exactly when every rule text has a colon, one rule per rule text, in order, each with its trimmed text |
| Parser.ParseAppend | src/main/logic.ts:83-85 | the rules of `a,b` are the rules of `a` followed by those of `b` |
| Parser.ParseBlank | src/main/logic.ts:83-85 | a header of only white space and commas, the empty one included, declares no rules |
| Patterns.MatchDot | src/main/logic.ts:25-33 | a dotted pattern matches exactly when the lower-cased host is the pattern without its dot or ends with the whole dotted pattern; SuffixMatchesWholeLabels and SuffixMatchesSubdomains give the label-boundary reading |
| Patterns.Compile | src/main/logic.ts:40-58 | the token is `MatchAll` exactly when it is the literal `ALL`, and every other pattern holds the lower-cased token |
| Patterns.Matches | src/main/logic.ts:40-58 | the closure `matcher` returns: `ALL` accepts every URL, a dotted pattern is a domain-or-sub-domain test on the lower-cased host, a host pattern compares the lower-cased host, a URL pattern the lower-cased URL; SuffixMatchIff, HostMatchIff and UrlMatchIff state these for tokens |
| Patterns.AllMatchesEverything | src/main/logic.ts:41-43 | `ALL` matches every URL, the empty one included |
| Patterns.OnlyAllMatchesEverything | src/main/logic.ts:41-45 | every token other than `ALL`, including `all`, rejects some URL |
| Patterns.LowerAllIsHostPattern | src/main/logic.ts:41-54 | the lower-case `all` is an ordinary host pattern |
| Patterns.SuffixMatchIff | src/main/logic.ts:25-33 | a dotted token matches exactly when the lower-cased host is the token without its dot, or ends with the dotted token |
| Patterns.SuffixMatchesWholeLabels | src/main/logic.ts:25-33 | a dotted token only matches its domain itself or hosts with a dot right before the domain, so `xfoo.bar` never matches `.foo.bar` |
| Patterns.SuffixMatchesSubdomains | src/main/logic.ts:47-49 | a dotted token matches its domain and every sub-domain, however deep |
| Patterns.HostMatchIff | src/main/logic.ts:51-54 | a token without a leading dot or `/` matches exactly the URLs whose lower-cased host equals the lower-cased token, so no sub-domains |
| Patterns.UrlMatchIff | src/main/logic.ts:56-57 | a token with `/` matches exactly the URL equal to it, both lower-cased |
| Patterns.SelfUnresolvedIsHostSelf | src/main/logic.ts:45-54 | an unsubstituted `SELF` is the host pattern `self` |
| RuleSet.ResolveSelf | src/main/logic.ts:91 | the token `SELF`, exactly as written, becomes the page's origin host and every other token is kept; SelfMatchesOwnHost and OriginIrrelevantWithoutSelf state what that means for matching |
| RuleSet.Attach | src/main/logic.ts:89-96 | a built rule keeps the parsed verdict, targets and text and has one compiled pattern per target |
| RuleSet.RuleMatchers | src/main/logic.ts:88-97 | every parsed rule is built, in order |
| RuleSet.AnyMatches | src/main/logic.ts:95 | `matchers.some(...)`: true exactly when some pattern matches |
| RuleSet.RuleMatchesIff | src/main/logic.ts:91-95 | a built rule matches exactly when some target, with `SELF` read as the origin host, matches |
| RuleSet.OriginIrrelevantWithoutSelf | src/main/logic.ts:91 | only the token `SELF` is substituted, so a rule without it matches the same URLs whatever the origin |
| RuleSet.SelfMatchesOwnHost | src/main/logic.ts:91 | a rule listing `SELF` matches every URL on the declaring page's own host |
| Engine.FirstMatch | src/main/logic.ts:140 | `find`: the first matching rule's position, every earlier rule not matching |
| Engine.FindRule | src/main/logic.ts:130-141 | `undefined` exactly when the tab has no rules; `null` exactly when none matches; otherwise the first matching rule |
| Engine.Install | src/main/logic.ts:143-151 | the tab gets the parsed rules built with the page's lower-cased host, other tabs are untouched, and a parse error leaves the cache as it was |
| Engine.InitRequest | src/main/logic.ts:143-151 | an absent header throws `UndefinedRules`; a present one succeeds exactly when it parses, the tab then has rules and no other tab's entry changes |
| Engine.ShouldAccept | src/main/logic.ts:154-172 | a tab without rules accepts; otherwise a URL is accepted exactly when the first rule matching it accepts |
| Engine.NoMatchDenies | src/main/logic.ts:162-163 | with rules in place, a URL no rule matches is denied |
| Engine.FirstRuleDecides | src/main/logic.ts:140 | the first matching rule decides over every later one |
| Engine.InitOnlyAffectsItsTab | src/main/logic.ts:150 | installing rules for one tab leaves every other tab's verdicts unchanged |
| Engine.DecisionAfterInit | src/main/logic.ts:143-172 | after `initRequest`, the tab's verdict is that of the first parsed rule with a target matching, `SELF` read as the page's own host |
| Engine.VerdictOfBuiltRules | src/main/logic.ts:88-97 | the verdict over rules built by `ruleMatchers`, stated on the parsed rules |
| Browser.FirstHeader | src/main/webextension-wrapper.ts:17-24 | the position of the first header with a wanted name, every earlier one not having one |
| Browser.FindHeader | src/main/webextension-wrapper.ts:16-25 | the value of the first header with a wanted name; `undefined` when no header has one of the names or when that first one is binary |
| Browser.FirstHeaderWins | src/main/webextension-wrapper.ts:16-25 | the first header with a wanted name shadows every later one |
| Browser.OriginOf | src/main/webextension-wrapper.ts:27-40 | `originUrl` when given; else the first origin header; `undefined` without request headers |
| Wrapper.GetOriginHeader | src/main/webextension-wrapper.ts:16-25 | the value of the first Origin, Referer or Referrer header in any letter case; `undefined` when there is none or it is binary |
| Wrapper.GetOrigin | src/main/webextension-wrapper.ts:27-40 | the origin is `originUrl` when given, else the origin header, and `undefined` without request headers |
| Wrapper.GetOutboundHeader | src/main/webextension-wrapper.ts:42-49 | the value of the first Outbound-Rules header in any letter case; `undefined` when there is none or it is binary |
| Wrapper.OnHeadersReceived | src/main/webextension-wrapper.ts:79-104 | only a response with headers to a fresh request acts: the request stops being fresh and `initRequest` gets the rules header, even when it is absent |
| Wrapper.OnBeforeSendHeaders | src/main/webextension-wrapper.ts:108-125 | a request without an origin, or from its own URL, is marked fresh with no verdict; any other is cancelled exactly when the backend refuses it |
| Wrapper.ResponseConsumedOnce | src/main/webextension-wrapper.ts:91-96 | a fresh request is consumed by its first response, and a repeated response makes no backend call |
| Wrapper.OnlyFreshResponsesInstall | src/main/webextension-wrapper.ts:91-103 | `initRequest` is only called for a fresh request's response that has headers |
| Wrapper.PageLoadThenResponse | src/main/webextension-wrapper.ts:108-118 | a page load is marked fresh, and its response then installs its rules header |
| Wrapper.Respond | src/main/webextension-wrapper.ts:79-104 | the wrapper wired to the backend: a throwing `initRequest` keeps the old rules, but the request is no longer fresh |
| Wrapper.Request | src/main/webextension-wrapper.ts:108-125 | the wrapper wired to the backend: a page load is marked fresh and gets no verdict, exactly then; any other request leaves the fresh set alone and is cancelled exactly when `shouldAccept` refuses |
| Wrapper.MissingHeaderThrows | src/main/webextension-wrapper.ts:98-103 | a fresh response without a rules header makes the backend throw, and the tab keeps its rules |
| Wrapper.BinaryRulesHeaderThrows | src/main/webextension-wrapper.ts:96-103 | a fresh response whose first rules header is binary passes `undefined` to the backend, which throws; the tab keeps its rules |
| Wrapper.BinaryOriginIsPageLoad | src/main/webextension-wrapper.ts:16-25 | a binary first origin header hides later origin headers, so the request is marked fresh with no verdict |
| Wrapper.UnruledTabAccepts | src/main/logic.ts:157-160 | a tab that never received rules has no request cancelled |
| Plugin.GetOrigin | src/logic.ts:95-128 | the origin is `originUrl` when given, absent without request headers, and otherwise the value of the first header named Origin, Referer or Referrer in exact case, absent when there is none or it is binary |
| Plugin.OnHeadersReceived | src/logic.ts:209-233 | a fresh response stops being fresh; without a rules header the tab's rules stay; with one they are replaced, or kept when parsing throws |
| Plugin.OnBeforeSendHeaders | src/logic.ts:237-249 | page loads are marked fresh with no verdict; other requests are cancelled exactly when `shouldAccept` refuses |
| Plugin.AbsentHeaderKeepsRules | src/logic.ts:223-226 | a fresh response without a rules header leaves the tab's rules and verdicts in place |
| Plugin.BinaryRulesHeaderKeepsRules | src/logic.ts:224-228 | a fresh response whose first rules header is binary reads as one without a rules header: the tab keeps its rules |
| Plugin.LowerCaseOriginIgnored | src/logic.ts:97-101 | a lower-case `origin` header is not an origin, so the request counts as a page load |
| Legacy.OnHeadersReceived | logic.ts:110-144 | a fresh response installs `parse(outboundRules \|\| "")` in the `allow` dialect, a parse error keeping the cache |
| Legacy.OnBeforeSendHeaders | logic.ts:146-199 | page loads are marked fresh; a tab without rules gets no verdict; otherwise cancel exactly when the first matching rule denies |
| Legacy.FailOpen | logic.ts:185-198 | with rules in place, a request no rule matches goes through, where the later engine denies it |
| Legacy.AbsentHeaderStoresEmpty | logic.ts:133 | a fresh response without a rules header stores an empty rule list, and later requests of the tab go through |
| Legacy.AllowDialect | logic.ts:73-79 | a rule accepts exactly when its trimmed, lower-cased action is `allow` |
| Background.ParseActionOne | background.js:49-58 | a rule text with a colon keeps its trimmed action as written, its target words and its text; without a colon it throws |
| Background.ParseActions | background.js:47-60 | the parse succeeds exactly when every rule text has a colon, giving one rule per text in order, each being `ParseActionOne` of its text (trimmed action as written, its targets, its text); otherwise it raises `MissingTargets` of the first text without a colon |
| Background.ParseActionsAgree | background.js:47-60 | this parser and the keyword parser fail together and agree rule by rule on targets and text, the verdict being the lower-cased action compared with the keyword |
| Background.MatchSubdomain | background.js:9-17 | the test string matches the dotted domain exactly when it is the domain without its dot or ends with the whole dotted domain; MatchSubdomainIff gives the label-boundary reading |
| Background.MatchSubdomainIsMatchDot | background.js:9-17 | `matchSubdomain` is `matchDot` with its arguments swapped |
| Background.MatchSubdomainIff | background.js:9-17 | with a dotted domain, `matchSubdomain` accepts exactly the domain and hosts ending in a dot followed by the domain |
| Background.MatchHost | background.js:23-31 | `ALL` matches; a dotted target throws because `matchHostDot` is undefined; any other target must equal the host as written |
| Background.RuleHit | background.js:128-136 | the inner loop: some target matches with none before it, none matches, or the first throwing target ends the handler |
| Background.Decide | background.js:126-137 | the labelled loop: the first rule with a matching target, none, or the first exception |
| Background.Cancels | background.js:133-139 | a request is cancelled only when some rule decided, and then exactly when its action is `Deny` as written; OnlyExactDenyCancels is the partner |
| Background.OnHeadersReceived | background.js:62-86 | a fresh response installs the parsed rules header, or the empty rule list without one; a parse error keeps the cache |
| Background.OnBeforeSendHeaders | background.js:88-145 | page loads are marked fresh; a tab without rules gets no verdict; otherwise the verdict is `cancel` of the first deciding rule, or the exception of an undefined call |
| Background.SelfResolvedAtDecision | background.js:129-131 | `SELF` is the host of the request's own origin, so a `SELF` rule matches exactly when the request's host equals its origin's |
| Background.HostsCaseSensitive | background.js:22-30 | for every plain host target differing from the request's host only in letter case, this revision does not match while the canonical matcher (src/main/logic.ts:45,52-54) does |
| Background.OnlyExactDenyCancels | background.js:133 | only the exact action `Deny` cancels, and no match does not cancel |
| Background.DottedTargetThrows | background.js:21-28 | the commented example `matchHost("ravelin.com", ".ravelin.com")` throws instead of returning true |
| Scenarios.ParseAcceptOne | src/main/__tests__/parse-test.ts:5-18 | `parseOne("Accept: ALL")` accepts, has the one target and keeps its text, for any visible target |
| Scenarios.ParseDenyThree | src/main/__tests__/parse-test.ts:21-31 | `parseOne("Deny: SELF x foo.bar")` denies with the three targets in order, for any three plain targets |
| Scenarios.DocExample | logic.ts:87-108 | the doc-comment header parses to a denying rule, an accepting rule with three targets and a denying rule, with their trimmed texts |
| Scenarios.DocExampleWords | src/main/__tests__/parse-test.ts:33-54 | the words of the composite parse test meet the conditions of the doc example, in both dialects |
| Scenarios.ParsePluginHeader | src/main/__tests__/plugin-test.ts:9 | `parse("Accept: SELF example.com, Deny: evil.com")` gives the accepting and the denying rule |
| Scenarios.PluginVerdict | src/main/__tests__/plugin-test.ts:5-32 | after the test's `initRequest`, tab 1 accepts a URL exactly when its host is the page's own or the accepted one |
| Scenarios.PluginTest | src/main/__tests__/plugin-test.ts:5-32 | the test's expectations: own host and accepted host accepted, denied and unlisted hosts denied, an uninitialised tab accepting |
| Scenarios.PluginTestHosts | src/main/__tests__/plugin-test.ts:9-29 | the test's hosts meet the conditions of `PluginTest` |
| Scenarios.WrapperTest | src/main/__tests__/wrapper-test.ts:6-50 | a page load from its own URL is marked fresh, and its response with a lower-case `outbound-rules` header calls `initRequest(1, url, value)` |

## Left out

- The DOM host extraction `getHost`: a parameter of type `HostOf`. Ports and the URL parser are not modelled.
- `toLowerCase` beyond ASCII: Unicode case mapping is not modelled, and other characters are kept as they are.
- Listener registration (`register`, `addListener`) and the browser's event loop: the handlers are modelled as state transitions, one event at a time. Races between events are not modelled.
- Console logging and the `debug` branches: they have no effect on state or verdicts.
- The effect of `{cancel: true}` in the browser: the model stops at the returned object.
- `isAbsolute` in src/main/logic.ts: it is never called.
- The fresh set is a JavaScript object queried with `in`. Names inherited from `Object.prototype` (such as `toString`) would count as fresh. The model uses a plain set.
- Engine.ShouldAccept: the `origin` argument is only logged, so it is not a parameter.
- The tests of src/tests/plugin-test.ts call a method `shouldCancel` that no revision defines, so they are not stated.
- The integration tests under src/integration-tests need a browser and a server, so they are left out.
- The entry points src/chrome-background.ts and src/main/background.ts only construct and register the plugin, so they are left out.
- The test scenarios are stated for any hosts and words of the same shape, not for the literal strings. PluginTestHosts, PluginTestHeader and DocExampleWords connect the literals to those shapes. The equality between the literal doc-comment header and `DocHeader` of its words is not stated.
- Background.MatchHost: `matchHostDot` does not exist in background.js, so a dotted target is modelled as the exception `UndefinedMatchHostDot`.
