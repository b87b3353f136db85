/** The rule parser: `parse`, `parseOne` and `parseOneAux`. A header value is
    cut at commas into rule texts; each rule text is cut at colons into an
    action keyword and a white-space separated target list. */
module Parser {
  import opened Text
  import opened Results

  /** The accept keyword of the current header dialect. */
  const AcceptKeyword := "accept"
  /** The accept keyword of the earlier `allow` dialect. */
  const AllowKeyword := "allow"

  /** One parsed rule: its verdict, its raw target tokens in order, and the
      rule text it came from. */
  datatype ParsedRule = ParsedRule(accept: bool, from: seq<string>, text: string)

  /** Whether a rule text has a `:`, so that it splits into an action and targets. */
  predicate HasColon(ruleText: string) {
    IndexOf(ruleText, ':') < |ruleText|
  }

  /** What precedes the first `:` of a rule text: the action keyword. */
  function ActionField(ruleText: string): string {
    ruleText[..IndexOf(ruleText, ':')]
  }

  /** What lies between the first and the second `:` of a rule text. */
  function TargetField(ruleText: string): string
    requires HasColon(ruleText)
  {
    var i := IndexOf(ruleText, ':');
    var rest := ruleText[i + 1..];
    rest[..IndexOf(rest, ':')]
  }

  /** `parseOneAux.apply(null, ruleText.split(':'))` without the keyword
      test: the raw action and the target words. Only the first two
      `:`-components are used; with no `:` the target list is `undefined` and
      splitting it throws. */
  function SplitRule(ruleText: string): (r: Result<(string, seq<string>), Fault>)
    ensures r.Success? <==> HasColon(ruleText)
    ensures r.Failure? ==> r.error == MissingTargets(ruleText)
    ensures r.Success? ==> r.value.0 == ActionField(ruleText)
    ensures r.Success? ==> r.value.1 == Words(TargetField(ruleText))
  {
    var parts := Split(ruleText, Char(':'));
    SplitAtFirst(ruleText, ':');
    var i := IndexOf(ruleText, ':');
    if i < |ruleText| then
      SplitAtFirst(ruleText[i + 1..], ':');
      assert ':' in ruleText;
      Success((parts[0], Words(parts[1])))
    else
      assert ':' !in ruleText;
      Failure(MissingTargets(ruleText))
  }

  /** `parseOne(ruleText)` in the dialect whose accept keyword is `keyword`:
      the rule accepts exactly when its trimmed, lower-cased action equals
      the keyword, so typos and unknown actions deny. */
  function ParseOne(keyword: string, ruleText: string): (r: Result<ParsedRule, Fault>)
    ensures r.Success? <==> HasColon(ruleText)
    ensures r.Failure? ==> r.error == MissingTargets(ruleText)
    ensures r.Success? ==> r.value.text == ruleText
    ensures r.Success? ==> (r.value.accept <==> Lower(Trim(ActionField(ruleText))) == keyword)
    ensures r.Success? ==> r.value.from == Words(TargetField(ruleText))
  {
    match SplitRule(ruleText)
    case Failure(e) => Failure(e)
    case Success((action, from)) =>
      Success(ParsedRule(Lower(Trim(action)) == keyword, from, ruleText))
  }

  /** `parseOne` of `action:targets`, both colon-free. */
  lemma ParseOneOf(keyword: string, action: string, targets: string)
    requires ':' !in action && ':' !in targets
    ensures ParseOne(keyword, action + ":" + targets)
         == Success(ParsedRule(Lower(Trim(action)) == keyword, Words(targets), action + ":" + targets))
  {
    FieldsOfRule(action, targets);
  }

  /** The position of the first `:` when it follows a colon-free action. */
  lemma {:induction false} FirstColonAfter(action: string, rest: string)
    requires ':' !in action
    ensures IndexOf(action + ":" + rest, ':') == |action|
  {
    var s := action + ":" + rest;
    var i := IndexOf(s, ':');
    assert s[|action|] == ':';
    assert forall j :: 0 <= j < |action| ==> s[j] == action[j];
  }

  /** The fields of `action:targets`, both colon-free. */
  lemma {:induction false} FieldsOfRule(action: string, targets: string)
    requires ':' !in action && ':' !in targets
    ensures HasColon(action + ":" + targets)
    ensures ActionField(action + ":" + targets) == action
    ensures TargetField(action + ":" + targets) == targets
  {
    var s := action + ":" + targets;
    FirstColonAfter(action, targets);
    assert s[..|action|] == action;
    assert s[|action| + 1..] == targets;
    assert IndexOf(targets, ':') == |targets|;
  }

  /** Only the first two `:`-components count: in `action:targets:tail`
      everything from the second colon on is ignored, so a target such as
      `https://host/` is cut down to `https`. */
  lemma {:induction false} TargetsStopAtSecondColon(keyword: string, action: string, targets: string, tail: string)
    requires ':' !in action && ':' !in targets
    ensures var r := ParseOne(keyword, action + ":" + targets + ":" + tail);
      r.Success? && r.value.from == Words(targets)
  {
    var s := action + ":" + targets + ":" + tail;
    assert s == action + ":" + (targets + ":" + tail);
    FirstColonAfter(action, targets + ":" + tail);
    assert s[|action| + 1..] == targets + ":" + tail;
    FirstColonAfter(targets, tail);
    assert (targets + ":" + tail)[..|targets|] == targets;
  }

  /** A rule text as `parse` keeps it: non-empty, comma-free, and neither
      starting nor ending with white space. */
  ghost predicate IsRuleText(t: string) {
    t != [] && NoSeparator(t, Char(',')) && !IsSpace(t[0]) && !IsSpace(t[|t| - 1])
  }

  /** `outheader.split(',').map(trim).filter(Boolean)`: the rule texts of a
      header, in order. */
  function RuleTexts(header: string): (r: seq<string>)
    ensures forall i :: 0 <= i < |r| ==> IsRuleText(r[i])
  {
    var pieces := Split(header, Char(','));
    var texts := TrimEach(pieces);
    forall i | 0 <= i < |texts|
      ensures texts[i] != [] ==> IsRuleText(texts[i])
    {
      TrimmedPiece(pieces, i);
    }
    DropEmptyKeeps(texts, t => t != [] ==> IsRuleText(t));
    DropEmpty(texts)
  }

  /** A trimmed comma-piece is comma-free and has no white space at its ends. */
  lemma TrimmedPiece(pieces: seq<string>, i: nat)
    requires i < |pieces| && NoSeparator(pieces[i], Char(','))
    ensures var t := TrimEach(pieces)[i]; t != [] ==> IsRuleText(t)
  {
    TrimEachAt(pieces, i);
    TrimKeepsInterior(pieces[i]);
    var t := Trim(pieces[i]);
    forall j | 0 <= j < |t|
      ensures t[j] != ','
    {
      assert t[j] in pieces[i];
    }
  }

  /** `texts.map(parseOne)`: every rule text parsed in order; the first text
      without a colon throws. */
  function ParseAll(keyword: string, texts: seq<string>): (r: Result<seq<ParsedRule>, Fault>)
    ensures r.Success? <==> forall i :: 0 <= i < |texts| ==> HasColon(texts[i])
    ensures r.Success? ==> |r.value| == |texts|
    ensures r.Success? ==> forall i :: 0 <= i < |texts| ==> r.value[i].text == texts[i]
  {
    MapAll(t => ParseOne(keyword, t), texts)
  }

  /** Each rule of `parse` is `parseOne` of its rule text. */
  lemma ParseAllAt(keyword: string, texts: seq<string>, i: nat)
    requires ParseAll(keyword, texts).Success? && i < |texts|
    ensures ParseOne(keyword, texts[i]) == Success(ParseAll(keyword, texts).value[i])
  {
  }

  /** The error of `parse` is that of its first rule text without a colon. */
  lemma ParseAllFailure(keyword: string, texts: seq<string>)
    requires ParseAll(keyword, texts).Failure?
    ensures exists i :: 0 <= i < |texts| && ParseAll(keyword, texts).error == MissingTargets(texts[i]) && !HasColon(texts[i])
                      && (forall j :: 0 <= j < i ==> HasColon(texts[j]))
  {
  }

  /** `parse(outheader)`: one rule per non-empty comma-separated piece, in
      order, each carrying its trimmed text; it throws when a piece has no
      colon. */
  function Parse(keyword: string, header: string): (r: Result<seq<ParsedRule>, Fault>)
    ensures var texts := RuleTexts(header);
      && (r.Success? <==> forall i :: 0 <= i < |texts| ==> HasColon(texts[i]))
      && (r.Success? ==> |r.value| == |texts| && forall i :: 0 <= i < |texts| ==> r.value[i].text == texts[i])
  {
    ParseAll(keyword, RuleTexts(header))
  }

  /** Parsing is compositional over a comma: the rules of `a,b` are the rules
      of `a` followed by the rules of `b`, in declaration order. */
  lemma ParseAppend(keyword: string, a: string, b: string)
    ensures Parse(keyword, a + "," + b) == Then(Parse(keyword, a), Parse(keyword, b))
  {
    SplitAppend(a, ',', b, Char(','));
    var pa := Split(a, Char(','));
    var pb := Split(b, Char(','));
    TrimEachAppend(pa, pb);
    DropEmptyAppend(TrimEach(pa), TrimEach(pb));
    MapAllAppend(t => ParseOne(keyword, t), RuleTexts(a), RuleTexts(b));
  }

  /** A header made only of white space and commas, the empty header
      included, declares no rules. */
  lemma ParseBlank(keyword: string, header: string)
    requires forall i :: 0 <= i < |header| ==> IsSpace(header[i]) || header[i] == ','
    ensures Parse(keyword, header) == Success([])
  {
    var pieces := Split(header, Char(','));
    BlankPieces(header);
    var texts := TrimEach(pieces);
    forall i | 0 <= i < |texts|
      ensures texts[i] == []
    {
      TrimEachAt(pieces, i);
      TrimPadding(pieces[i], [], []);
      assert pieces[i] + [] + [] == pieces[i];
    }
    EmptyPiecesDrop(texts);
  }

  /** The comma-pieces of a string made of white space and commas are all
      white space. */
  lemma {:induction false} BlankPieces(header: string)
    requires forall i :: 0 <= i < |header| ==> IsSpace(header[i]) || header[i] == ','
    ensures forall i :: 0 <= i < |Split(header, Char(','))| ==> AllSpace(Split(header, Char(','))[i])
    decreases |header|
  {
    if header != [] {
      BlankPieces(header[1..]);
      var rest := Split(header[1..], Char(','));
      if header[0] != ',' {
        var first := [header[0]] + rest[0];
        assert AllSpace(first) by {
          assert forall j :: 1 <= j < |first| ==> first[j] == rest[0][j - 1];
        }
        assert Split(header, Char(',')) == [first] + rest[1..];
      }
    }
  }

  lemma {:induction false} EmptyPiecesDrop(pieces: seq<string>)
    requires forall i :: 0 <= i < |pieces| ==> pieces[i] == []
    ensures DropEmpty(pieces) == []
    decreases |pieces|
  {
    if pieces != [] {
      EmptyPiecesDrop(pieces[1..]);
    }
  }

  /** The rule texts of comma-joined pieces are the pieces trimmed, empty
      ones dropped, in order. */
  lemma RuleTextsOfJoin(pieces: seq<string>)
    requires |pieces| >= 1
    requires forall i :: 0 <= i < |pieces| ==> NoSeparator(pieces[i], Char(','))
    ensures RuleTexts(Join(pieces, ',')) == DropEmpty(TrimEach(pieces))
  {
    SplitJoin(pieces, ',', Char(','));
  }
}

