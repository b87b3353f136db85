/** The JavaScript string operations the engine is built from: white space,
    ASCII lower-casing, `trim`, `split` on one character or on `\s`,
    `filter(Boolean)`, `startsWith`, `endsWith` and `indexOf`. */
module Text {

  /** The characters ECMAScript counts as WhiteSpace or LineTerminator: the
      class `\s` matches and the characters `String.prototype.trim` strips. */
  predicate IsSpace(c: char) {
    || '\t' <= c <= '\r'
    || c == ' ' || c == '\U{A0}' || c == '\U{1680}'
    || '\U{2000}' <= c <= '\U{200A}'
    || c == '\U{2028}' || c == '\U{2029}' || c == '\U{202F}' || c == '\U{205F}'
    || c == '\U{3000}' || c == '\U{FEFF}'
  }

  ghost predicate AllSpace(s: string) {
    forall i :: 0 <= i < |s| ==> IsSpace(s[i])
  }

  predicate IsUpper(c: char) {
    'A' <= c <= 'Z'
  }

  /** Lower-casing of one character, restricted to the ASCII letters. */
  function LowerChar(c: char): (r: char)
    ensures !IsUpper(r)
    ensures IsUpper(c) ==> r as int == c as int + 32
    ensures !IsUpper(c) ==> r == c
  {
    if IsUpper(c) then (c as int + 32) as char else c
  }

  /** `s.toLowerCase()` on ASCII letters; every other character is kept. */
  function Lower(s: string): (r: string)
    ensures |r| == |s|
    ensures forall i :: 0 <= i < |s| ==> r[i] == LowerChar(s[i])
  {
    seq(|s|, i requires 0 <= i < |s| => LowerChar(s[i]))
  }

  /** Lower-casing twice is lower-casing once. */
  lemma LowerIdempotent(s: string)
    ensures Lower(Lower(s)) == Lower(s)
  {
    assert forall i :: 0 <= i < |s| ==> LowerChar(LowerChar(s[i])) == LowerChar(s[i]);
  }

  predicate StartsWith(s: string, prefix: string) {
    |prefix| <= |s| && s[..|prefix|] == prefix
  }

  predicate EndsWith(s: string, suffix: string) {
    |suffix| <= |s| && s[|s| - |suffix|..] == suffix
  }

  /** `s.indexOf(c)`, with "not found" reported as `|s|`. */
  function IndexOf(s: string, c: char): (i: nat)
    ensures i <= |s|
    ensures i < |s| ==> s[i] == c
    ensures forall j :: 0 <= j < i ==> s[j] != c
  {
    if s == [] then 0
    else if s[0] == c then 0
    else 1 + IndexOf(s[1..], c)
  }

  /** `s.trimStart()`: drops the leading white space. */
  function TrimStart(s: string): (r: string)
    ensures |r| <= |s|
    ensures r != [] ==> !IsSpace(r[0])
    decreases |s|
  {
    if s != [] && IsSpace(s[0]) then TrimStart(s[1..]) else s
  }

  /** What `trimStart` keeps is a suffix, and what it drops is white space. */
  lemma {:induction false} TrimStartShape(s: string)
    ensures var r := TrimStart(s); r == s[|s| - |r|..] && AllSpace(s[..|s| - |r|])
    decreases |s|
  {
    if s != [] && IsSpace(s[0]) {
      TrimStartShape(s[1..]);
      var r := TrimStart(s);
      assert s[1..][|s| - 1 - |r|..] == s[|s| - |r|..];
      assert forall i :: 1 <= i < |s| - |r| ==> s[i] == s[1..][..|s| - 1 - |r|][i - 1];
    }
  }

  /** `s.trimEnd()`: drops the trailing white space. */
  function TrimEnd(s: string): (r: string)
    ensures |r| <= |s|
    ensures r != [] ==> !IsSpace(r[|r| - 1])
    decreases |s|
  {
    if s != [] && IsSpace(s[|s| - 1]) then TrimEnd(s[..|s| - 1]) else s
  }

  /** What `trimEnd` keeps is a prefix, and what it drops is white space. */
  lemma {:induction false} TrimEndShape(s: string)
    ensures var r := TrimEnd(s); r == s[..|r|] && AllSpace(s[|r|..])
    decreases |s|
  {
    if s != [] && IsSpace(s[|s| - 1]) {
      var n := |s| - 1;
      TrimEndShape(s[..n]);
      var r := TrimEnd(s);
      assert s[..n][..|r|] == s[..|r|];
      assert forall i :: |r| <= i < n ==> s[i] == s[..n][|r|..][i - |r|];
    }
  }

  /** `s` is `r` with nothing but white space added at its two ends. */
  ghost predicate Padded(s: string, r: string) {
    exists k :: 0 <= k <= |s| - |r| && s[k..][..|r|] == r && AllSpace(s[..k]) && AllSpace(s[k..][|r|..])
  }

  /** `s.trim()`: what is left neither starts nor ends with white space
      (TrimKeepsInterior: it is the interior of `s`, kept verbatim). */
  function Trim(s: string): (r: string)
    ensures |r| <= |s|
    ensures r != [] ==> !IsSpace(r[0]) && !IsSpace(r[|r| - 1])
  {
    TrimEndShape(TrimStart(s));
    TrimEnd(TrimStart(s))
  }

  /** Trimming drops white space at both ends of `s` and nothing else. */
  lemma TrimKeepsInterior(s: string)
    ensures Padded(s, Trim(s))
    ensures forall i :: 0 <= i < |Trim(s)| ==> Trim(s)[i] in s
  {
    var t := TrimStart(s);
    var r := TrimEnd(t);
    TrimStartShape(s);
    TrimEndShape(t);
    var k := |s| - |t|;
    assert s[k..] == t;
    assert s[k..][..|r|] == r;
    assert s[k..][|r|..] == t[|r|..];
    assert forall i :: 0 <= i < |r| ==> r[i] == s[k + i];
  }

  /** A string with no white space at either end is its own trim. */
  lemma TrimOfTrimmed(s: string)
    requires s != [] ==> !IsSpace(s[0]) && !IsSpace(s[|s| - 1])
    ensures Trim(s) == s
  {
  }

  /** Trimming undoes padding: white space added at both ends of a string
      that has none at its ends is removed again, and nothing more. */
  lemma {:induction false} TrimPadding(before: string, s: string, after: string)
    requires AllSpace(before) && AllSpace(after)
    requires s != [] ==> !IsSpace(s[0]) && !IsSpace(s[|s| - 1])
    ensures Trim(before + s + after) == s
  {
    if s == [] {
      assert before + s + after == (before + after) + [];
      assert AllSpace(before + after);
      TrimStartPadding(before + after, []);
    } else {
      assert before + s + after == before + (s + after);
      TrimStartPadding(before, s + after);
      TrimEndPadding(s, after);
    }
  }

  lemma {:induction false} TrimStartPadding(before: string, s: string)
    requires AllSpace(before)
    requires s != [] ==> !IsSpace(s[0])
    ensures TrimStart(before + s) == s
    decreases |before|
  {
    if before != [] {
      assert (before + s)[1..] == before[1..] + s;
      TrimStartPadding(before[1..], s);
    } else {
      assert before + s == s;
    }
  }

  lemma {:induction false} TrimEndPadding(s: string, after: string)
    requires AllSpace(after)
    requires s != [] ==> !IsSpace(s[|s| - 1])
    ensures TrimEnd(s + after) == s
    decreases |after|
  {
    if after != [] {
      var n := |after| - 1;
      assert (s + after)[..|s + after| - 1] == s + after[..n];
      TrimEndPadding(s, after[..n]);
    } else {
      assert s + after == s;
    }
  }

  /** What `String.prototype.split` splits on: one fixed character, or the
      regular expression `\s` (any single white-space character). */
  datatype Separator = Char(c: char) | Space

  predicate IsSeparator(sep: Separator, c: char) {
    match sep
    case Char(d) => c == d
    case Space => IsSpace(c)
  }

  ghost predicate NoSeparator(s: string, sep: Separator) {
    forall j :: 0 <= j < |s| ==> !IsSeparator(sep, s[j])
  }

  /** A visible ASCII character, from `!` to `~`. */
  predicate IsVisible(c: char) {
    '!' <= c <= '~'
  }

  /** A string of visible ASCII characters holds no white space. */
  lemma VisibleIsNotSpace(s: string)
    requires forall i :: 0 <= i < |s| ==> IsVisible(s[i])
    ensures NoSeparator(s, Space)
  {
    forall i | 0 <= i < |s|
      ensures !IsSpace(s[i])
    {
      assert IsVisible(s[i]);
    }
  }

  /** `s.split(sep)`: the pieces between separator characters, in order,
      empty pieces included; there is always at least one piece. */
  function Split(s: string, sep: Separator): (r: seq<string>)
    ensures |r| >= 1
    ensures forall i :: 0 <= i < |r| ==> NoSeparator(r[i], sep)
    decreases |s|
  {
    if s == [] then [""]
    else
      Prepend(s[0], sep, Split(s[1..], sep))
  }

  /** A string without separators is one piece. */
  lemma {:induction false} SplitNoSeparator(s: string, sep: Separator)
    requires NoSeparator(s, sep)
    ensures Split(s, sep) == [s]
    decreases |s|
  {
    if s != [] {
      SplitNoSeparator(s[1..], sep);
      assert [s[0]] + s[1..] == s;
    }
  }

  /** Splitting distributes over a separator: the pieces of `a + [c] + b`
      are the pieces of `a` followed by the pieces of `b`. */
  lemma {:induction false} SplitAppend(a: string, c: char, b: string, sep: Separator)
    requires IsSeparator(sep, c)
    ensures Split(a + [c] + b, sep) == Split(a, sep) + Split(b, sep)
    decreases |a|
  {
    var s := a + [c] + b;
    if a == [] {
      assert s[1..] == b;
    } else {
      assert s[0] == a[0] && s[1..] == a[1..] + [c] + b;
      SplitAppend(a[1..], c, b, sep);
      PrependAppend(a[0], sep, Split(a[1..], sep), Split(b, sep));
    }
  }

  /** The pieces of a string whose first character is `ch` and whose other
      characters split into `rest`. */
  function Prepend(ch: char, sep: Separator, rest: seq<string>): seq<string>
    requires |rest| >= 1
  {
    if IsSeparator(sep, ch) then [""] + rest else [[ch] + rest[0]] + rest[1..]
  }

  /** Prepending a character only touches the first pieces. */
  lemma PrependAppend(ch: char, sep: Separator, ra: seq<string>, rb: seq<string>)
    requires |ra| >= 1
    ensures Prepend(ch, sep, ra + rb) == Prepend(ch, sep, ra) + rb
  {
    if !IsSeparator(sep, ch) {
      assert (ra + rb)[0] == ra[0] && (ra + rb)[1..] == ra[1..] + rb;
    }
  }

  /** The pieces of `s` are what precedes the first separator character `c`,
      then the pieces of what follows it. */
  lemma SplitAtFirst(s: string, c: char)
    ensures var i := IndexOf(s, c);
      Split(s, Char(c)) == [s[..i]] + (if i < |s| then Split(s[i + 1..], Char(c)) else [])
  {
    var i := IndexOf(s, c);
    SplitNoSeparator(s[..i], Char(c));
    if i < |s| {
      assert s == s[..i] + [c] + s[i + 1..];
      SplitAppend(s[..i], c, s[i + 1..], Char(c));
    } else {
      assert s[..i] == s;
    }
  }

  /** `pieces.join(c)`. */
  function Join(pieces: seq<string>, c: char): string
    requires |pieces| >= 1
  {
    if |pieces| == 1 then pieces[0] else pieces[0] + [c] + Join(pieces[1..], c)
  }

  /** Joining the pieces back with the separator gives the original string. */
  lemma {:induction false} JoinSplit(s: string, c: char)
    ensures Join(Split(s, Char(c)), c) == s
    decreases |s|
  {
    if s != [] {
      var rest := Split(s[1..], Char(c));
      JoinSplit(s[1..], c);
      if s[0] != c {
        JoinGlued([s[0]], rest, c);
      } else {
        assert ([""] + rest)[1..] == rest;
      }
      assert [s[0]] + s[1..] == s;
    }
  }

  /** Gluing a prefix onto the first piece glues it onto the join. */
  lemma JoinGlued(x: string, pieces: seq<string>, c: char)
    requires |pieces| >= 1
    ensures Join([x + pieces[0]] + pieces[1..], c) == x + Join(pieces, c)
  {
    var glued := [x + pieces[0]] + pieces[1..];
    if |pieces| > 1 {
      assert glued[1..] == pieces[1..];
    }
  }

  /** Splitting a join of separator-free pieces gives the pieces back. */
  lemma {:induction false} SplitJoin(pieces: seq<string>, c: char, sep: Separator)
    requires |pieces| >= 1
    requires IsSeparator(sep, c)
    requires forall i :: 0 <= i < |pieces| ==> NoSeparator(pieces[i], sep)
    ensures Split(Join(pieces, c), sep) == pieces
    decreases |pieces|
  {
    SplitNoSeparator(pieces[0], sep);
    if |pieces| > 1 {
      SplitJoin(pieces[1..], c, sep);
      SplitAppend(pieces[0], c, Join(pieces[1..], c), sep);
      assert [pieces[0]] + pieces[1..] == pieces;
    }
  }

  /** All the pieces one after the other (`pieces.join("")`). */
  function Concat(pieces: seq<string>): string {
    if pieces == [] then [] else pieces[0] + Concat(pieces[1..])
  }

  lemma {:induction false} ConcatAppend(a: seq<string>, b: seq<string>)
    ensures Concat(a + b) == Concat(a) + Concat(b)
    decreases |a|
  {
    if a != [] {
      assert (a + b)[1..] == a[1..] + b;
      ConcatAppend(a[1..], b);
      calc {
        Concat(a + b);
        a[0] + Concat(a[1..] + b);
        a[0] + (Concat(a[1..]) + Concat(b));
        Concat(a) + Concat(b);
      }
    } else {
      assert a + b == b;
    }
  }

  /** `s` with every separator character removed. */
  function Strip(s: string, sep: Separator): (r: string)
    ensures NoSeparator(r, sep)
  {
    if s == [] then []
    else if IsSeparator(sep, s[0]) then Strip(s[1..], sep)
    else [s[0]] + Strip(s[1..], sep)
  }

  /** Splitting loses the separators and nothing else. */
  lemma {:induction false} ConcatSplit(s: string, sep: Separator)
    ensures Concat(Split(s, sep)) == Strip(s, sep)
    decreases |s|
  {
    if s != [] {
      var rest := Split(s[1..], sep);
      ConcatSplit(s[1..], sep);
      assert Concat(rest) == rest[0] + Concat(rest[1..]);
      if IsSeparator(sep, s[0]) {
        assert ([""] + rest)[1..] == rest;
      } else {
        var pieces := [[s[0]] + rest[0]] + rest[1..];
        assert pieces[1..] == rest[1..];
      }
    }
  }

  /** `pieces.filter(Boolean)`: the non-empty pieces, in order. */
  function DropEmpty(pieces: seq<string>): (r: seq<string>)
    ensures forall i :: 0 <= i < |r| ==> r[i] != []
    ensures Concat(r) == Concat(pieces)
  {
    if pieces == [] then []
    else if pieces[0] == [] then DropEmpty(pieces[1..])
    else
      var r := [pieces[0]] + DropEmpty(pieces[1..]);
      assert r[1..] == DropEmpty(pieces[1..]);
      r
  }

  /** Exactly the non-empty pieces survive. */
  lemma {:induction false} DropEmptyMembers(pieces: seq<string>)
    ensures forall x :: x in DropEmpty(pieces) <==> x in pieces && x != []
    decreases |pieces|
  {
    if pieces != [] {
      DropEmptyMembers(pieces[1..]);
      assert forall x :: x in pieces <==> x == pieces[0] || x in pieces[1..];
    }
  }

  /** Whatever holds of every piece holds of every surviving piece. */
  lemma {:induction false} DropEmptyKeeps(pieces: seq<string>, P: string -> bool)
    requires forall i :: 0 <= i < |pieces| ==> P(pieces[i])
    ensures forall i :: 0 <= i < |DropEmpty(pieces)| ==> P(DropEmpty(pieces)[i])
    decreases |pieces|
  {
    if pieces != [] {
      DropEmptyKeeps(pieces[1..], P);
    }
  }

  /** Dropping empty pieces distributes over concatenation. */
  lemma {:induction false} DropEmptyAppend(a: seq<string>, b: seq<string>)
    ensures DropEmpty(a + b) == DropEmpty(a) + DropEmpty(b)
    decreases |a|
  {
    if a == [] {
      assert a + b == b;
    } else {
      var ab := a + b;
      assert ab[0] == a[0] && ab[1..] == a[1..] + b;
      DropEmptyAppend(a[1..], b);
      if a[0] != [] {
        assert DropEmpty(ab) == [a[0]] + DropEmpty(ab[1..]);
        assert DropEmpty(a) == [a[0]] + DropEmpty(a[1..]);
      }
    }
  }

  /** `pieces.map(trim)`. */
  function TrimEach(pieces: seq<string>): (r: seq<string>)
    ensures |r| == |pieces|
  {
    if pieces == [] then [] else [Trim(pieces[0])] + TrimEach(pieces[1..])
  }

  lemma {:induction false} TrimEachAt(pieces: seq<string>, i: nat)
    requires i < |pieces|
    ensures TrimEach(pieces)[i] == Trim(pieces[i])
    decreases i
  {
    if i > 0 {
      TrimEachAt(pieces[1..], i - 1);
    }
  }

  lemma {:induction false} TrimEachAppend(a: seq<string>, b: seq<string>)
    ensures TrimEach(a + b) == TrimEach(a) + TrimEach(b)
    decreases |a|
  {
    if a != [] {
      assert (a + b)[1..] == a[1..] + b;
      assert (a + b)[0] == a[0];
      TrimEachAppend(a[1..], b);
      calc {
        TrimEach(a + b);
        [Trim(a[0])] + TrimEach(a[1..] + b);
        [Trim(a[0])] + (TrimEach(a[1..]) + TrimEach(b));
        ([Trim(a[0])] + TrimEach(a[1..])) + TrimEach(b);
      }
    } else {
      assert a + b == b;
    }
  }

  /** Trimming pieces that hold no white space changes nothing. */
  lemma {:induction false} TrimEachUnspaced(pieces: seq<string>)
    requires forall i :: 0 <= i < |pieces| ==> NoSeparator(pieces[i], Space)
    ensures TrimEach(pieces) == pieces
    decreases |pieces|
  {
    if pieces != [] {
      TrimOfTrimmed(pieces[0]);
      TrimEachUnspaced(pieces[1..]);
    }
  }

  /** `s.split(/\s/).map(trim).filter(Boolean)`: the white-space separated
      words of `s`. Each is non-empty and free of white space, and together,
      in order, they spell `s` with its white space removed. */
  function Words(s: string): (r: seq<string>)
    ensures forall i :: 0 <= i < |r| ==> r[i] != [] && NoSeparator(r[i], Space)
    ensures Concat(r) == Strip(s, Space)
  {
    var pieces := Split(s, Space);
    TrimEachUnspaced(pieces);
    ConcatSplit(s, Space);
    var r := DropEmpty(TrimEach(pieces));
    assert r == DropEmpty(pieces);
    DropEmptyMembers(pieces);
    forall i | 0 <= i < |r|
      ensures NoSeparator(r[i], Space)
    {
      assert r[i] in pieces;
      var j :| 0 <= j < |pieces| && pieces[j] == r[i];
    }
    r
  }

  /** Every white-space character is a word boundary: the words around it
      are the words of each side, whichever white-space character it is. */
  lemma WordsAppend(a: string, c: char, b: string)
    requires IsSpace(c)
    ensures Words(a + [c] + b) == Words(a) + Words(b)
  {
    SplitAppend(a, c, b, Space);
    TrimEachAppend(Split(a, Space), Split(b, Space));
    DropEmptyAppend(TrimEach(Split(a, Space)), TrimEach(Split(b, Space)));
  }

  /** A string without white space is one word, or none when it is empty. */
  lemma WordsUnspaced(s: string)
    requires NoSeparator(s, Space)
    ensures Words(s) == if s == [] then [] else [s]
  {
    SplitNoSeparator(s, Space);
    TrimEachUnspaced([s]);
  }

  /** The words of white-space separated pieces are the non-empty pieces. */
  lemma WordsOfJoin(pieces: seq<string>, c: char)
    requires |pieces| >= 1
    requires IsSpace(c)
    requires forall i :: 0 <= i < |pieces| ==> NoSeparator(pieces[i], Space)
    ensures Words(Join(pieces, c)) == DropEmpty(pieces)
  {
    SplitJoin(pieces, c, Space);
    TrimEachUnspaced(pieces);
  }
}
