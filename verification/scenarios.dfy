/** Worked examples from the repository's own test suites and doc comments,
    stated over the model. The host extraction is left abstract: each
    example names the hosts it needs as hypotheses on `getHost`. */
module Scenarios {
  import opened Text
  import opened Results
  import opened Patterns
  import opened Parser
  import opened RuleSet
  import opened Browser
  import opened Engine
  import Wrapper

  // ----- general facts the examples are instances of -----

  /** A string without upper-case letters is its own lower-casing. */
  lemma LowerOfLowerCase(s: string)
    requires forall i :: 0 <= i < |s| ==> !IsUpper(s[i])
    ensures Lower(s) == s
  {
  }

  /** The words of two space-prefixed words. */
  lemma WordsOfSpaced(a: string, b: string)
    requires a != [] && b != [] && NoSeparator(a, Space) && NoSeparator(b, Space)
    ensures Words([' '] + a + [' '] + b) == [a, b]
  {
    assert ["", a, b][1..] == [a, b];
    assert [a, b][1..] == [b];
    assert Join([a, b], ' ') == a + [' '] + b;
    assert [' '] + a + [' '] + b == "" + [' '] + (a + [' '] + b);
    WordsOfJoin(["", a, b], ' ');
    assert DropEmpty([b]) == [b] + DropEmpty([]);
    assert DropEmpty([a, b]) == [a] + DropEmpty([b]);
  }

  /** The words of one space-prefixed word. */
  lemma WordsOfSpacedOne(a: string)
    requires a != [] && NoSeparator(a, Space)
    ensures Words([' '] + a) == [a]
  {
    assert ["", a][1..] == [a];
    assert [' '] + a == "" + [' '] + a;
    WordsOfJoin(["", a], ' ');
    assert DropEmpty([a]) == [a] + DropEmpty([]);
  }

  /** A header holding two rule texts, the second after a comma and some
      white space. */
  lemma RuleTextsOfPair(a: string, pad: string, b: string)
    requires IsRuleText(a) && IsRuleText(b) && AllSpace(pad)
    ensures RuleTexts(a + "," + pad + b) == [a, b]
  {
    var pieces := [a, pad + b];
    assert pieces[1..] == [pad + b];
    assert Join(pieces, ',') == a + "," + pad + b;
    RuleTextsOfJoin(pieces);
    TrimOfTrimmed(a);
    TrimPadding(pad, b, "");
    assert pad + b + "" == pad + b;
    assert TrimEach(pieces) == [Trim(a)] + TrimEach(pieces[1..]);
    assert TrimEach(pieces[1..]) == [Trim(pad + b)] + TrimEach([]);
    assert DropEmpty([b]) == [b] + DropEmpty([]);
    assert DropEmpty([a, b]) == [a] + DropEmpty([b]);
  }

  /** Mapping over two elements that both succeed. */
  lemma MapAllPair<X, T, E>(f: X -> Result<T, E>, a: X, b: X)
    requires f(a).Success? && f(b).Success?
    ensures MapAll(f, [a, b]) == Success([f(a).value, f(b).value])
  {
    var r := MapAll(f, [a, b]);
    assert [a, b][0] == a && [a, b][1] == b;
    assert r.value == [f(a).value, f(b).value];
  }

  /** Parsing two rule texts gives `parseOne` of each, in order. */
  lemma ParseAllOfPair(keyword: string, a: string, b: string, ra: ParsedRule, rb: ParsedRule)
    requires ParseOne(keyword, a) == Success(ra) && ParseOne(keyword, b) == Success(rb)
    ensures ParseAll(keyword, [a, b]) == Success([ra, rb])
  {
    MapAllPair(t => ParseOne(keyword, t), a, b);
  }

  /** A header of two rule texts parses to `parseOne` of each, in order. */
  lemma ParseOfPair(keyword: string, a: string, pad: string, b: string, ra: ParsedRule, rb: ParsedRule)
    requires IsRuleText(a) && IsRuleText(b) && AllSpace(pad)
    requires ParseOne(keyword, a) == Success(ra) && ParseOne(keyword, b) == Success(rb)
    ensures Parse(keyword, a + "," + pad + b) == Success([ra, rb])
  {
    RuleTextsOfPair(a, pad, b);
    ParseAllOfPair(keyword, a, b, ra, rb);
  }

  /** The words of one word. */
  lemma WordsOfWord(w: string)
    requires w != [] && NoSeparator(w, Space)
    ensures Words(w) == [w]
  {
    WordsOfJoin([w], ' ');
    assert DropEmpty([w]) == [w] + DropEmpty([]);
  }

  /** The words of three words after two spaces, one space between each. */
  lemma WordsOfThree(x: string, y: string, z: string)
    requires PlainWord(x) && PlainWord(y) && PlainWord(z)
    ensures Words("  " + x + " " + y + " " + z) == [x, y, z]
  {
    PlainWordFacts(x);
    PlainWordFacts(y);
    PlainWordFacts(z);
    var pieces := ["", "", x, y, z];
    assert pieces[1..] == ["", x, y, z];
    assert pieces[1..][1..] == [x, y, z];
    assert pieces[1..][1..][1..] == [y, z];
    assert pieces[1..][1..][1..][1..] == [z];
    assert Join([y, z], ' ') == y + " " + z;
    assert Join([x, y, z], ' ') == x + " " + (y + " " + z);
    assert Join(pieces, ' ') == "  " + x + " " + y + " " + z;
    WordsOfJoin(pieces, ' ');
    assert DropEmpty([z]) == [z] + DropEmpty([]);
    assert DropEmpty([y, z]) == [y] + DropEmpty([z]);
    assert DropEmpty([x, y, z]) == [x] + DropEmpty([y, z]);
  }

  /** The words of three words, each after one space. */
  lemma WordsOfSpacedThree(x: string, y: string, z: string)
    requires PlainWord(x) && PlainWord(y) && PlainWord(z)
    ensures Words(" " + x + " " + y + " " + z) == [x, y, z]
  {
    PlainWordFacts(x);
    PlainWordFacts(y);
    PlainWordFacts(z);
    var pieces := ["", x, y, z];
    assert pieces[1..] == [x, y, z];
    assert pieces[1..][1..] == [y, z];
    assert pieces[1..][1..][1..] == [z];
    assert Join([y, z], ' ') == y + " " + z;
    assert Join([x, y, z], ' ') == x + " " + (y + " " + z);
    assert Join(pieces, ' ') == " " + x + " " + y + " " + z;
    WordsOfJoin(pieces, ' ');
    assert DropEmpty([z]) == [z] + DropEmpty([]);
    assert DropEmpty([y, z]) == [y] + DropEmpty([z]);
    assert DropEmpty([x, y, z]) == [x] + DropEmpty([y, z]);
  }

  /** Joining three pieces. */
  lemma JoinThree(p: string, q: string, r: string, c: char)
    ensures Join([p, q, r], c) == p + [c] + q + [c] + r
  {
    assert [p, q, r][1..] == [q, r];
    assert [q, r][1..] == [r];
    assert Join([q, r], c) == q + [c] + r;
  }

  /** Trimming three pieces, each white space around a rule text, and
      dropping the empty ones gives the three rule texts. */
  lemma TrimThree(a: string, pad1: string, pad2: string, b: string, c: string)
    requires IsRuleText(a) && IsRuleText(b) && IsRuleText(c) && AllSpace(pad1) && AllSpace(pad2)
    ensures DropEmpty(TrimEach([a + pad1, pad2 + b, c])) == [a, b, c]
  {
    var pieces := [a + pad1, pad2 + b, c];
    TrimPadding("", a, pad1);
    TrimPadding(pad2, b, "");
    TrimOfTrimmed(c);
    assert "" + a + pad1 == a + pad1;
    assert pad2 + b + "" == pad2 + b;
    assert pieces[1..] == [pad2 + b, c];
    assert pieces[1..][1..] == [c];
    assert TrimEach([c]) == [Trim(c)] + TrimEach([]);
    assert TrimEach(pieces[1..]) == [Trim(pad2 + b)] + TrimEach([c]);
    assert TrimEach(pieces) == [a, b, c];
    assert DropEmpty([c]) == [c] + DropEmpty([]);
    assert DropEmpty([b, c]) == [b] + DropEmpty([c]);
    assert DropEmpty([a, b, c]) == [a] + DropEmpty([b, c]);
  }

  /** A header holding three rule texts, the first followed and the second
      preceded by some white space. */
  lemma RuleTextsOfTriple(a: string, pad1: string, pad2: string, b: string, c: string)
    requires IsRuleText(a) && IsRuleText(b) && IsRuleText(c) && AllSpace(pad1) && AllSpace(pad2)
    ensures RuleTexts(a + pad1 + "," + pad2 + b + "," + c) == [a, b, c]
  {
    var pieces := [a + pad1, pad2 + b, c];
    CommaFree(a, pad1);
    CommaFree(pad2, b);
    JoinThree(a + pad1, pad2 + b, c, ',');
    assert (a + pad1) + [','] + (pad2 + b) + [','] + c == a + pad1 + "," + pad2 + b + "," + c;
    RuleTextsOfJoin(pieces);
    TrimThree(a, pad1, pad2, b, c);
  }

  /** White space and a rule text, in either order, are comma-free. */
  lemma CommaFree(x: string, y: string)
    requires (IsRuleText(x) && AllSpace(y)) || (AllSpace(x) && IsRuleText(y))
    ensures NoSeparator(x + y, Char(','))
  {
    assert forall j :: |x| <= j < |x + y| ==> (x + y)[j] == y[j - |x|];
  }

  /** Mapping over three elements that all succeed. */
  lemma MapAllTriple<X, T, E>(f: X -> Result<T, E>, a: X, b: X, c: X)
    requires f(a).Success? && f(b).Success? && f(c).Success?
    ensures MapAll(f, [a, b, c]) == Success([f(a).value, f(b).value, f(c).value])
  {
    var r := MapAll(f, [a, b, c]);
    assert [a, b, c][0] == a && [a, b, c][1] == b && [a, b, c][2] == c;
    assert r.value == [f(a).value, f(b).value, f(c).value];
  }

  /** A header of three rule texts parses to `parseOne` of each, in order. */
  lemma ParseOfTriple(keyword: string, a: string, pad1: string, pad2: string, b: string, c: string,
                      ra: ParsedRule, rb: ParsedRule, rc: ParsedRule)
    requires IsRuleText(a) && IsRuleText(b) && IsRuleText(c) && AllSpace(pad1) && AllSpace(pad2)
    requires ParseOne(keyword, a) == Success(ra) && ParseOne(keyword, b) == Success(rb) && ParseOne(keyword, c) == Success(rc)
    ensures Parse(keyword, a + pad1 + "," + pad2 + b + "," + c) == Success([ra, rb, rc])
  {
    RuleTextsOfTriple(a, pad1, pad2, b, c);
    MapAllTriple(t => ParseOne(keyword, t), a, b, c);
  }

  /** Two runs of white space the examples use. */
  lemma Spaces()
    ensures AllSpace("   ") && AllSpace(" ")
  {
  }

  /** A token without a leading dot, without `/` and without upper-case
      letters matches the URLs whose lower-cased host is the token. */
  lemma PlainHostMatches(token: string, url: string, getHost: HostOf)
    requires token != [] && forall i :: 0 <= i < |token| ==> IsVisible(token[i]) && !IsUpper(token[i]) && token[i] != '/'
    requires token[0] != '.'
    ensures TokenMatches(token, url, getHost) <==> Lower(getHost(url)) == token
  {
    LowerOfLowerCase(token);
    assert token != "ALL" by {
      assert !IsUpper(token[0]);
    }
    HostMatchIff(token, url, getHost);
  }

  /** `parseOne` of `action:targets`, the action's verdict and the target
      words being known. */
  lemma ParseOneKnown(keyword: string, action: string, targets: string, accept: bool, words: seq<string>)
    requires ':' !in action && ':' !in targets
    requires (Lower(Trim(action)) == keyword) == accept
    requires Words(targets) == words
    ensures ParseOne(keyword, action + ":" + targets) == Success(ParsedRule(accept, words, action + ":" + targets))
  {
    ParseOneOf(keyword, action, targets);
  }

  /** A target token or action word as the examples write them: non-empty
      visible ASCII without `,` or `:`. */
  ghost predicate PlainWord(w: string) {
    w != [] && forall i :: 0 <= i < |w| ==> IsVisible(w[i]) && w[i] != ',' && w[i] != ':'
  }

  lemma PlainWordFacts(w: string)
    requires PlainWord(w)
    ensures NoSeparator(w, Space) && NoSeparator(w, Char(',')) && ':' !in w
    ensures !IsSpace(w[0]) && !IsSpace(w[|w| - 1])
  {
    VisibleIsNotSpace(w);
  }

  /** A host name as the tests write them: a plain word without a leading
      dot, without `/` and without upper-case letters. */
  ghost predicate PlainHost(h: string) {
    PlainWord(h) && h[0] != '.' && forall i :: 0 <= i < |h| ==> !IsUpper(h[i]) && h[i] != '/'
  }

  /** Gluing two comma-free strings gives a comma-free string. */
  lemma CommaFreeAppend(x: string, y: string)
    requires NoSeparator(x, Char(',')) && NoSeparator(y, Char(','))
    ensures NoSeparator(x + y, Char(','))
  {
    assert forall j :: |x| <= j < |x + y| ==> (x + y)[j] == y[j - |x|];
  }

  /** What a plain host brings to a rule text. */
  lemma PlainHostFacts(h: string)
    requires PlainHost(h)
    ensures NoSeparator(h, Space) && NoSeparator(h, Char(',')) && ':' !in h
    ensures !IsSpace(h[|h| - 1]) && h != "SELF" && h != "ALL" && Lower(h) == h
  {
    PlainWordFacts(h);
    LowerOfLowerCase(h);
    assert !IsUpper(h[0]);
  }

  /** The action `Accept` is the accepting keyword. */
  lemma AcceptVerdict(action: string)
    requires action == "Accept"
    ensures Lower(Trim(action)) == AcceptKeyword
  {
    TrimOfTrimmed(action);
    var l := Lower(action);
    assert l[0] == 'a' && l[1] == 'c' && l[2] == 'c' && l[3] == 'e' && l[4] == 'p' && l[5] == 't';
  }

  /** The action `Deny`, trimmed and lower-cased. */
  lemma DenyLowered()
    ensures Lower(Trim("Deny")) == "deny"
  {
    TrimOfTrimmed("Deny");
    var l := Lower("Deny");
    assert l[0] == 'd' && l[1] == 'e' && l[2] == 'n' && l[3] == 'y';
  }

  /** `Deny:` followed by one target, no space between. */
  lemma ParseDenyTight(keyword: string, w: string)
    requires keyword != "deny" && PlainWord(w)
    ensures ParseOne(keyword, "Deny:" + w) == Success(ParsedRule(false, [w], "Deny:" + w))
  {
    PlainWordFacts(w);
    DenyLowered();
    WordsOfWord(w);
    assert "Deny:" + w == "Deny" + ":" + w;
    ParseOneKnown(keyword, "Deny", w, false, [w]);
  }

  /** `Deny: ` followed by one target. */
  lemma ParseDenySpaced(keyword: string, w: string)
    requires keyword != "deny" && PlainWord(w)
    ensures ParseOne(keyword, "Deny: " + w) == Success(ParsedRule(false, [w], "Deny: " + w))
  {
    PlainWordFacts(w);
    DenyLowered();
    WordsOfSpacedOne(w);
    assert "Deny: " + w == "Deny" + ":" + ([' '] + w);
    ParseOneKnown(keyword, "Deny", [' '] + w, false, [w]);
  }

  // ----- src/main/__tests__/parse-test.ts -----

  /** `parseOne("Accept: ALL")`, for any visible target in place of `ALL`:
      the rule accepts, is from that one target, and keeps its text. */
  lemma ParseAcceptOne(target: string)
    requires target != [] && ':' !in target
    requires forall i :: 0 <= i < |target| ==> IsVisible(target[i])
    ensures ParseOne(AcceptKeyword, "Accept: " + target) == Success(ParsedRule(true, [target], "Accept: " + target))
  {
    AcceptVerdict("Accept");
    VisibleIsNotSpace(target);
    WordsOfSpacedOne(target);
    assert "Accept: " + target == "Accept" + ":" + ([' '] + target);
    ParseOneKnown(AcceptKeyword, "Accept", [' '] + target, true, [target]);
  }

  /** `parseOne("Deny: SELF x foo.bar")`, for any three plain targets: the
      rule denies and keeps its targets in order. */
  lemma ParseDenyThree(keyword: string, x: string, y: string, z: string)
    requires keyword != "deny" && PlainWord(x) && PlainWord(y) && PlainWord(z)
    ensures var t := "Deny: " + x + " " + y + " " + z;
      ParseOne(keyword, t) == Success(ParsedRule(false, [x, y, z], t))
  {
    PlainWordFacts(x);
    PlainWordFacts(y);
    PlainWordFacts(z);
    DenyLowered();
    WordsOfSpacedThree(x, y, z);
    var targets := " " + x + " " + y + " " + z;
    assert "Deny: " + x + " " + y + " " + z == "Deny" + ":" + targets;
    assert ':' !in targets;
    ParseOneKnown(keyword, "Deny", targets, false, [x, y, z]);
  }

  // ----- the `parse` doc comment of logic.ts and the composite parse test -----

  /** The header of the `parse` doc comment and of the composite parse test,
      `Deny: SELF   , Allow    :  Foo Bar bas.sadf.sadf.f,Deny:ALL`, with its
      middle action and its five targets as parameters. */
  function DocHeader(act: string, t1: string, x: string, y: string, z: string, t5: string): string {
    "Deny: " + t1 + "   , " + act + "    :  " + x + " " + y + " " + z + ",Deny:" + t5
  }

  /** Its three rules, in order. */
  function DocRules(act: string, t1: string, x: string, y: string, z: string, t5: string): seq<ParsedRule> {
    [ParsedRule(false, [t1], "Deny: " + t1),
     ParsedRule(true, [x, y, z], act + "    :  " + x + " " + y + " " + z),
     ParsedRule(false, [t5], "Deny:" + t5)]
  }

  /** The three rule texts of the example are rule texts. */
  lemma DocRuleTexts(act: string, t1: string, x: string, y: string, z: string, t5: string)
    requires PlainWord(act) && PlainWord(t1) && PlainWord(x) && PlainWord(y) && PlainWord(z) && PlainWord(t5)
    ensures IsRuleText("Deny: " + t1)
    ensures IsRuleText(act + "    :  " + x + " " + y + " " + z)
    ensures IsRuleText("Deny:" + t5)
  {
    PlainWordFacts(act);
    PlainWordFacts(t1);
    PlainWordFacts(x);
    PlainWordFacts(y);
    PlainWordFacts(z);
    PlainWordFacts(t5);
    CommaFreeAppend("Deny: ", t1);
    CommaFreeAppend("Deny:", t5);
    CommaFreeAppend(act, "    :  ");
    CommaFreeAppend(act + "    :  ", x);
    CommaFreeAppend(act + "    :  " + x, " ");
    CommaFreeAppend(act + "    :  " + x + " ", y);
    CommaFreeAppend(act + "    :  " + x + " " + y, " ");
    CommaFreeAppend(act + "    :  " + x + " " + y + " ", z);
    var a, b, c := "Deny: " + t1, act + "    :  " + x + " " + y + " " + z, "Deny:" + t5;
    assert a[0] == 'D' && a[|a| - 1] == t1[|t1| - 1];
    assert b[0] == act[0] && b[|b| - 1] == z[|z| - 1];
    assert c[0] == 'D' && c[|c| - 1] == t5[|t5| - 1];
  }

  /** The middle rule of the example: an action with four spaces before its
      colon, then three targets. */
  lemma ParseMiddleRule(keyword: string, act: string, x: string, y: string, z: string)
    requires PlainWord(act) && Lower(act) == keyword
    requires PlainWord(x) && PlainWord(y) && PlainWord(z)
    ensures var t := act + "    :  " + x + " " + y + " " + z;
      ParseOne(keyword, t) == Success(ParsedRule(true, [x, y, z], t))
  {
    PlainWordFacts(act);
    PlainWordFacts(x);
    PlainWordFacts(y);
    PlainWordFacts(z);
    TrimPadding("", act, "    ");
    assert "" + act + "    " == act + "    ";
    WordsOfThree(x, y, z);
    var targets := "  " + x + " " + y + " " + z;
    assert act + "    :  " + x + " " + y + " " + z == (act + "    ") + ":" + targets;
    assert ':' !in targets;
    ParseOneKnown(keyword, act + "    ", targets, true, [x, y, z]);
  }

  /** The example header, cut at its commas, parses to its three rules. */
  lemma ParseDocRules(keyword: string, act: string, t1: string, x: string, y: string, z: string, t5: string)
    requires keyword != "deny" && Lower(act) == keyword
    requires PlainWord(act) && PlainWord(t1) && PlainWord(x) && PlainWord(y) && PlainWord(z) && PlainWord(t5)
    ensures Parse(keyword, ("Deny: " + t1) + "   " + "," + " " + (act + "    :  " + x + " " + y + " " + z) + "," + ("Deny:" + t5))
         == Success(DocRules(act, t1, x, y, z, t5))
  {
    var rs := DocRules(act, t1, x, y, z, t5);
    DocRuleTexts(act, t1, x, y, z, t5);
    ParseDenySpaced(keyword, t1);
    ParseMiddleRule(keyword, act, x, y, z);
    ParseDenyTight(keyword, t5);
    Spaces();
    ParseOfTriple(keyword, "Deny: " + t1, "   ", " ", act + "    :  " + x + " " + y + " " + z, "Deny:" + t5, rs[0], rs[1], rs[2]);
  }

  /** The doc-comment example: whatever the targets, the header parses to a
      denying rule for the first target, an accepting rule for the next
      three (its action being the dialect's keyword in any letter case) and
      a denying rule for the last, each with its trimmed text. */
  lemma DocExample(keyword: string, act: string, t1: string, x: string, y: string, z: string, t5: string)
    requires keyword != "deny" && Lower(act) == keyword
    requires PlainWord(act) && PlainWord(t1) && PlainWord(x) && PlainWord(y) && PlainWord(z) && PlainWord(t5)
    ensures Parse(keyword, DocHeader(act, t1, x, y, z, t5)) == Success(DocRules(act, t1, x, y, z, t5))
  {
    assert DocHeader(act, t1, x, y, z, t5)
        == ("Deny: " + t1) + "   " + "," + " " + (act + "    :  " + x + " " + y + " " + z) + "," + ("Deny:" + t5);
    ParseDocRules(keyword, act, t1, x, y, z, t5);
  }

  /** The doc comment's own words meet the conditions of `DocExample`. */
  lemma DocExampleWords()
    ensures PlainWord("SELF") && PlainWord("Foo") && PlainWord("Bar") && PlainWord("bas.sadf.sadf.f") && PlainWord("ALL")
    ensures PlainWord("Allow") && Lower("Allow") == AllowKeyword
    ensures PlainWord("Accept") && Lower("Accept") == AcceptKeyword
  {
    var l := Lower("Allow");
    assert l[0] == 'a' && l[1] == 'l' && l[2] == 'l' && l[3] == 'o' && l[4] == 'w';
    var m := Lower("Accept");
    assert m[0] == 'a' && m[1] == 'c' && m[2] == 'c' && m[3] == 'e' && m[4] == 'p' && m[5] == 't';
  }

  // ----- src/main/__tests__/plugin-test.ts -----

  /** The header of the plugin test, `Accept: SELF example.com, Deny:
      evil.com`, with its two hosts as parameters. */
  function PluginHeader(ok: string, evil: string): string {
    "Accept: SELF " + ok + ", Deny: " + evil
  }

  /** Its first rule: accept the page's own host and `ok`. */
  function AcceptRule(ok: string): ParsedRule {
    ParsedRule(true, ["SELF", ok], "Accept: SELF " + ok)
  }

  /** Its second rule: deny `evil`. */
  function DenyRule(evil: string): ParsedRule {
    ParsedRule(false, [evil], "Deny: " + evil)
  }

  lemma ParseAcceptRule(ok: string)
    requires PlainHost(ok)
    ensures ParseOne(AcceptKeyword, "Accept: SELF " + ok) == Success(AcceptRule(ok))
  {
    PlainHostFacts(ok);
    VisibleIsNotSpace("SELF");
    WordsOfSpaced("SELF", ok);
    var targets := [' '] + "SELF" + [' '] + ok;
    assert "Accept: SELF " + ok == "Accept" + ":" + targets;
    AcceptVerdict("Accept");
    assert ':' !in targets;
    ParseOneKnown(AcceptKeyword, "Accept", targets, true, ["SELF", ok]);
  }

  lemma ParseDenyRule(evil: string)
    requires PlainHost(evil)
    ensures ParseOne(AcceptKeyword, "Deny: " + evil) == Success(DenyRule(evil))
  {
    ParseDenySpaced(AcceptKeyword, evil);
  }

  lemma AcceptRuleIsRuleText(ok: string)
    requires PlainHost(ok)
    ensures IsRuleText("Accept: SELF " + ok)
  {
    PlainHostFacts(ok);
    CommaFreeAppend("Accept: SELF ", ok);
    var a := "Accept: SELF " + ok;
    assert a[0] == 'A' && a[|a| - 1] == ok[|ok| - 1];
  }

  lemma DenyRuleIsRuleText(evil: string)
    requires PlainHost(evil)
    ensures IsRuleText("Deny: " + evil)
  {
    PlainHostFacts(evil);
    CommaFreeAppend("Deny: ", evil);
    var b := "Deny: " + evil;
    assert b[0] == 'D' && b[|b| - 1] == evil[|evil| - 1];
  }

  /** `parse("Accept: SELF ok, Deny: evil")`: an accepting rule for `SELF`
      and `ok`, then a denying rule for `evil`. */
  lemma ParsePluginHeader(ok: string, evil: string)
    requires PlainHost(ok) && PlainHost(evil)
    ensures Parse(AcceptKeyword, PluginHeader(ok, evil)) == Success([AcceptRule(ok), DenyRule(evil)])
  {
    var a, b := "Accept: SELF " + ok, "Deny: " + evil;
    assert PluginHeader(ok, evil) == a + "," + " " + b;
    ParsePluginRules(ok, evil);
  }

  /** The two rule texts of the plugin test, joined by `, `, parse to the
      two rules. */
  lemma ParsePluginRules(ok: string, evil: string)
    requires PlainHost(ok) && PlainHost(evil)
    ensures Parse(AcceptKeyword, ("Accept: SELF " + ok) + "," + " " + ("Deny: " + evil)) == Success([AcceptRule(ok), DenyRule(evil)])
  {
    ParseAcceptRule(ok);
    ParseDenyRule(evil);
    AcceptRuleIsRuleText(ok);
    DenyRuleIsRuleText(evil);
    Spaces();
    ParseOfPair(AcceptKeyword, "Accept: SELF " + ok, " ", "Deny: " + evil, AcceptRule(ok), DenyRule(evil));
  }

  /** `initRequest(1, page, header)` on a fresh backend: the verdicts of
      tab 1 are those of the two parsed rules, `SELF` read as the page's
      host. */
  lemma PluginInit(page: string, own: string, ok: string, evil: string, getHost: HostOf)
    requires PlainHost(own) && PlainHost(ok) && PlainHost(evil)
    requires getHost(page) == own
    ensures var r := InitRequest(EmptyBackend, 1, page, Some(PluginHeader(ok, evil)), getHost);
      && r.Success?
      && forall target :: ShouldAccept(r.value, 1, target, getHost)
                        <==> FirstTargetsMatchAccepts([AcceptRule(ok), DenyRule(evil)], own, target, getHost)
  {
    ParsePluginHeader(ok, evil);
    LowerOfLowerCase(own);
    forall target
      ensures ShouldAccept(InitRequest(EmptyBackend, 1, page, Some(PluginHeader(ok, evil)), getHost).value, 1, target, getHost)
              <==> FirstTargetsMatchAccepts([AcceptRule(ok), DenyRule(evil)], own, target, getHost)
    {
      DecisionAfterInit(EmptyBackend, 1, page, PluginHeader(ok, evil), getHost, target);
    }
  }

  /** The accepting rule matches a URL exactly when its host is the page's
      own or `ok`; the denying one when it is `evil`. */
  lemma PluginRuleTargets(own: string, ok: string, evil: string, url: string, getHost: HostOf)
    requires PlainHost(own) && PlainHost(ok) && PlainHost(evil)
    ensures TargetsMatch(AcceptRule(ok), own, url, getHost) <==> Lower(getHost(url)) == own || Lower(getHost(url)) == ok
    ensures TargetsMatch(DenyRule(evil), own, url, getHost) <==> Lower(getHost(url)) == evil
  {
    PlainHostFacts(ok);
    PlainHostFacts(evil);
    PlainHostMatches(own, url, getHost);
    PlainHostMatches(ok, url, getHost);
    PlainHostMatches(evil, url, getHost);
    assert AcceptRule(ok).from[0] == "SELF" && AcceptRule(ok).from[1] == ok;
    assert DenyRule(evil).from[0] == evil;
  }

  /** Of two parsed rules, the first whose targets match decides. */
  lemma FirstOfTwoAccepts(ra: ParsedRule, rb: ParsedRule, originHost: string, url: string, getHost: HostOf)
    ensures FirstTargetsMatchAccepts([ra, rb], originHost, url, getHost)
        <==> ((ra.accept && TargetsMatch(ra, originHost, url, getHost))
              || (!TargetsMatch(ra, originHost, url, getHost) && rb.accept && TargetsMatch(rb, originHost, url, getHost)))
  {
    var p := [ra, rb];
    assert p[0] == ra && p[1] == rb;
    if ra.accept && TargetsMatch(ra, originHost, url, getHost) {
      assert FirstTargetsMatchAccepts(p, originHost, url, getHost) by {
        assert p[0].accept && TargetsMatch(p[0], originHost, url, getHost);
      }
    } else if !TargetsMatch(ra, originHost, url, getHost) && rb.accept && TargetsMatch(rb, originHost, url, getHost) {
      assert FirstTargetsMatchAccepts(p, originHost, url, getHost) by {
        assert p[1].accept && TargetsMatch(p[1], originHost, url, getHost) && !TargetsMatch(p[0], originHost, url, getHost);
      }
    }
  }

  /** After the plugin test's page load, tab 1 accepts a URL exactly when
      its lower-cased host is the page's own host or the accepted one:
      the denying rule and the default denial agree. */
  lemma PluginVerdict(page: string, own: string, ok: string, evil: string, url: string, getHost: HostOf)
    requires PlainHost(own) && PlainHost(ok) && PlainHost(evil)
    requires getHost(page) == own
    ensures var r := InitRequest(EmptyBackend, 1, page, Some(PluginHeader(ok, evil)), getHost);
      && r.Success?
      && (ShouldAccept(r.value, 1, url, getHost) <==> Lower(getHost(url)) == own || Lower(getHost(url)) == ok)
  {
    PluginInit(page, own, ok, evil, getHost);
    PluginRuleTargets(own, ok, evil, url, getHost);
    FirstOfTwoAccepts(AcceptRule(ok), DenyRule(evil), own, url, getHost);
  }

  /** The expectations of the plugin test, for any hosts in place of
      `foo.bar`, `example.com`, `evil.com` and `unknown.net`: requests to
      the page's own host and to the accepted host are accepted, those to
      the denied host and to an unlisted host are denied, and a tab without
      rules accepts everything. */
  lemma PluginTest(page: string, own: string, ok: string, evil: string, unknown: string,
                   toOwn: string, toOk: string, toEvil: string, toUnknown: string, anywhere: string, getHost: HostOf)
    requires PlainHost(own) && PlainHost(ok) && PlainHost(evil) && PlainHost(unknown)
    requires evil != own && evil != ok && unknown != own && unknown != ok
    requires getHost(page) == own && getHost(toOwn) == own && getHost(toOk) == ok
    requires getHost(toEvil) == evil && getHost(toUnknown) == unknown
    ensures var r := InitRequest(EmptyBackend, 1, page, Some(PluginHeader(ok, evil)), getHost);
      && r.Success?
      && ShouldAccept(r.value, 1, toOwn, getHost)
      && ShouldAccept(r.value, 1, toOk, getHost)
      && !ShouldAccept(r.value, 1, toEvil, getHost)
      && !ShouldAccept(r.value, 1, toUnknown, getHost)
      && ShouldAccept(r.value, 2, anywhere, getHost)
  {
    PlainHostFacts(own);
    PlainHostFacts(ok);
    PlainHostFacts(evil);
    PlainHostFacts(unknown);
    PluginVerdict(page, own, ok, evil, toOwn, getHost);
    PluginVerdict(page, own, ok, evil, toOk, getHost);
    PluginVerdict(page, own, ok, evil, toEvil, getHost);
    PluginVerdict(page, own, ok, evil, toUnknown, getHost);
    assert 2 !in InitRequest(EmptyBackend, 1, page, Some(PluginHeader(ok, evil)), getHost).value.cache;
  }

  /** The test's own hosts are plain and distinct. */
  lemma PluginTestHosts()
    ensures PlainHost("foo.bar") && PlainHost("example.com") && PlainHost("evil.com") && PlainHost("unknown.net")
    ensures "evil.com" != "foo.bar" && "evil.com" != "example.com"
    ensures "unknown.net" != "foo.bar" && "unknown.net" != "example.com"
  {
    PlainTestHost("foo.bar");
    PlainTestHost("example.com");
    PlainTestHost("evil.com");
    PlainTestHost("unknown.net");
    assert "unknown.net"[0] != "example.com"[0];
  }

  /** The test's header is `PluginHeader` of its two hosts. */
  lemma PluginTestHeader()
    ensures PluginHeader("example.com", "evil.com") == "Accept: SELF example.com, Deny: evil.com"
  {
  }

  /** A lower-case dotted name is a plain host. */
  lemma PlainTestHost(h: string)
    requires h != [] && h[0] != '.'
    requires forall i :: 0 <= i < |h| ==> 'a' <= h[i] <= 'z' || h[i] == '.'
    ensures PlainHost(h)
  {
  }

  // ----- src/main/__tests__/wrapper-test.ts -----

  /** The wrapper test: a page load whose origin is its own URL is marked
      fresh with no verdict, and its response with a lower-case
      `outbound-rules` header calls `initRequest(1, url, value)`. */
  lemma WrapperTest(id: RequestId, url: string, value: string, shouldAccept: (TabId, string, string) -> bool)
    ensures var req := RequestDetails(id, 1, url, Some(url), None);
      var resp := ResponseDetails(id, 1, url, Some([Header("outbound-rules", Some(value))]));
      var (freshIds, verdict) := Wrapper.OnBeforeSendHeaders({}, req, shouldAccept);
      && verdict.None?
      && freshIds == {id}
      && Wrapper.OnHeadersReceived(freshIds, resp) == ({}, Some(Wrapper.InitCall(1, url, Some(value))))
  {
    var name := "outbound-rules";
    LowerOfLowerCase(name);
    assert Lower(name) in FoldedRulesName;
    assert Wrapper.GetOutboundHeader([Header(name, Some(value))]) == Some(value);
  }
}
