/** The whole input: separators, surrounding white space, and the language theorem for ValidateReadOnly. */
module Language {
  import opened GoStrings
  import opened Lexer
  import opened Guard
  import opened Grammar
  import opened Acceptance

  // ---- what the automaton does on white space and comments ----

  lemma {:induction false} SpacesHollow(s: string)
    requires Spaces(s)
    ensures forall i :: 0 <= i < |s| ==> !Solid(s[i])
  {
    if s != "" {
      var n := LeadingSpace(s);
      SpacesHollow(s[n..]);
      forall i | 0 <= i < |s| ensures !Solid(s[i]) {
        if i >= n {
          assert s[i] == s[n..][i - n];
        }
      }
    }
  }

  lemma NoSemicolon(st: State, s: string)
    requires ';' !in s
    ensures NoSeparator(st, s)
  {
  }

  lemma {:induction false} HollowStaysNormal(s: string, i: nat)
    requires i <= |s| && forall j :: 0 <= j < i ==> !Solid(s[j])
    ensures At(Normal, s, i) == Normal
  {
    if i > 0 {
      HollowStaysNormal(s, i - 1);
    }
  }

  /** White space is read in the normal state and separates nothing. */
  lemma SpacesNeutral(s: string)
    requires Spaces(s)
    ensures forall st :: NoSeparator(st, s)
    ensures After(Normal, s) == Normal
  {
    SpacesHollow(s);
    HollowStaysNormal(s, |s|);
    forall st ensures NoSeparator(st, s) {
      NoSemicolon(st, s);
    }
  }

  /** A byte that the automaton reads in the normal state without leaving it. */
  predicate Plain(b: char) {
    b != '\'' && b != '"' && b != '-' && b != '/' && b != ';'
  }

  lemma {:induction false} PlainNeutral(s: string, i: nat)
    requires i <= |s| && forall j :: 0 <= j < |s| ==> Plain(s[j])
    ensures NoSeparator(Normal, s) && At(Normal, s, i) == Normal
  {
    if i > 0 {
      PlainNeutral(s, i - 1);
    }
  }

  lemma {:induction false} StaysInLine(s: string, i: nat)
    requires i <= |s| && '\n' !in s
    ensures At(Line, s, i) == Line
  {
    if i > 0 {
      StaysInLine(s, i - 1);
    }
  }

  lemma {:induction false} StaysInBlock(s: string, i: nat)
    requires i <= |s| && NoCloser(s, 0, |s|)
    ensures At(Block, s, i) == if i > 0 && s[i - 1] == '*' then Star else Block
  {
    if i > 0 {
      StaysInBlock(s, i - 1);
      assert i > 1 ==> !ClosesBlock(s, i - 2);
    }
  }

  lemma NeutralConcat(a: string, b: string)
    requires NoSeparator(Normal, a) && After(Normal, a) == Normal
    requires NoSeparator(Normal, b) && After(Normal, b) == Normal
    ensures NoSeparator(Normal, a + b) && After(Normal, a + b) == Normal
  {
    AfterConcat(Normal, a, b);
    NoSeparatorConcat(Normal, a, b);
  }

  lemma LineCommentNeutral(body: string)
    requires '\n' !in body
    ensures var s := "--" + body + "\n"; NoSeparator(Normal, s) && After(Normal, s) == Normal
  {
    var open := "--" + body;
    assert At(Normal, "--", 1) == Dash;
    assert After(Normal, "--") == Line;
    AfterConcat(Normal, "--", body);
    StaysInLine(body, |body|);
    AfterConcat(Normal, open, "\n");
    assert At(Line, "\n", 0) == Line;
    forall k: nat | k < |body| ensures !SeparatorAt(Line, body, k) {
      StaysInLine(body, k);
    }
    NoSeparatorConcat(Normal, "--", body);
    NoSeparatorConcat(Normal, open, "\n");
  }

  lemma BlockCommentNeutral(body: string)
    requires NoCloser(body, 0, |body|)
    ensures var s := "/*" + body + "*/"; NoSeparator(Normal, s) && After(Normal, s) == Normal
  {
    var open := "/*" + body;
    assert At(Normal, "/*", 1) == Slash;
    assert After(Normal, "/*") == Block;
    AfterConcat(Normal, "/*", body);
    StaysInBlock(body, |body|);
    AfterConcat(Normal, open, "*/");
    assert At(After(Normal, open), "*/", 1) == Star;
    forall k: nat | k < |body| ensures !SeparatorAt(Block, body, k) {
      StaysInBlock(body, k);
    }
    NoSeparatorConcat(Normal, "/*", body);
    NoSeparatorConcat(Normal, open, "*/");
  }

  lemma TokenNeutral(t: Token)
    requires t.Valid() && t.IsTrivia()
    ensures NoSeparator(Normal, t.Text()) && After(Normal, t.Text()) == Normal
  {
    match t
    case White(b) =>
      NoSemicolon(Normal, [b]);
      assert At(Normal, [b], 0) == Normal;
    case LineComment(body) => LineCommentNeutral(body);
    case BlockComment(body) => BlockCommentNeutral(body);
  }

  /** Complete trivia hold no separator and leave the automaton in the normal state. */
  lemma {:induction false} TriviaNeutral(tokens: seq<Token>)
    requires Trivia(tokens)
    ensures NoSeparator(Normal, Print(tokens)) && After(Normal, Print(tokens)) == Normal
  {
    if tokens != [] {
      TokenNeutral(tokens[0]);
      TriviaNeutral(tokens[1..]);
      NeutralConcat(tokens[0].Text(), Print(tokens[1..]));
    }
  }

  /** More text after a text with a separator leaves its first one the first. */
  lemma FirstSeparatorStays(s: string, more: string)
    requires FirstSeparator(s) >= 0
    ensures FirstSeparator(s + more) == FirstSeparator(s)
  {
    var k := FirstSeparator(s);
    FirstSeparatorIsLeast(s);
    assert (s + more)[..k] == s[..k];
    AtFront(Normal, s, more, k);
    FirstSeparatorUnique(s + more, k);
  }

  /** Text without a ';' after s adds no separator. */
  lemma TrailSeparator(s: string, trail: string)
    requires ';' !in trail
    ensures FirstSeparator(s + trail) == FirstSeparator(s)
  {
    var k := FirstSeparator(s);
    FirstSeparatorIsLeast(s);
    if k < 0 {
      NoSeparatorConcat(Normal, s, trail);
      NoSemicolon(After(Normal, s), trail);
      NoFirstSeparator(s + trail);
    } else {
      FirstSeparatorStays(s, trail);
    }
  }

  lemma SeparatorHere(s: string, tail: string)
    requires NoSeparator(Normal, s) && Outside(After(Normal, s)) && tail != "" && tail[0] == ';'
    ensures FirstSeparator(s + tail) == |s|
  {
    assert (s + tail)[..|s|] == s;
    AtFront(Normal, s, tail, |s|);
    FirstSeparatorUnique(s + tail, |s|);
  }

  // ---- trimming and the statement checker ----

  lemma LeadingSpaceSolid(s: string, x: string)
    requires x != "" && Solid(x[0])
    ensures LeadingSpace(s + x) == LeadingSpace(s)
  {
    var y := s + x;
    assert y[|s|] == x[0];
    assert |s| > 0 ==> y[0] == s[0];
    assert |s| > 1 ==> y[1] == s[1];
    assert |s| > 2 ==> y[2] == s[2];
  }

  lemma {:induction false} SolidFront(s: string, x: string)
    requires x != "" && Solid(x[0])
    ensures TrimLeft(s + x) == TrimLeft(s) + x
  {
    LeadingSpaceSolid(s, x);
    var n := LeadingSpace(s);
    if n > 0 {
      assert (s + x)[n..] == s[n..] + x;
      SolidFront(s[n..], x);
    }
  }

  lemma SolidWord(p: Phrase)
    requires p.Valid()
    ensures p.Text() != "" && Solid(p.Text()[|p.Text()| - 1])
  {
  }

  /** A statement stays what it is with white space after it, and without. */
  lemma TrailingSpaces(s: string, trail: string)
    requires Spaces(trail)
    ensures ReadOnlyStatement(s) <==> ReadOnlyStatement(s + trail)
  {
    SpacesHollow(trail);
    if ReadOnlyStatement(s) {
      var p, rest :| StartsWith(s, p, rest) && SpellsReadOnly(p.word);
      Regroup(p.Text(), rest, trail);
      assert StartsWith(s + trail, p, rest + trail);
    }
    if ReadOnlyStatement(s + trail) {
      var p, rest :| StartsWith(s + trail, p, rest) && SpellsReadOnly(p.word);
      TrimmedPhrase(s, trail, p, rest);
    }
  }

  lemma SharedFront(a: string, b: string, c: string, d: string)
    requires a + b == c + d && |a| <= |c|
    ensures c == a + c[|a|..] && b == c[|a|..] + d
  {
    assert a == (a + b)[..|a|] == (c + d)[..|a|] == c[..|a|];
    assert b == (a + b)[|a|..] == (c + d)[|a|..];
  }

  /** White space at the end never belongs to the phrase. */
  lemma TrimmedPhrase(s: string, trail: string, p: Phrase, rest: string)
    requires Spaces(trail) && StartsWith(s + trail, p, rest)
    ensures exists r :: StartsWith(s, p, r)
  {
    var text := p.Text();
    SolidWord(p);
    SpacesHollow(trail);
    forall i | |s| <= i < |s + trail| ensures !Solid((s + trail)[i]) {
    }
    assert Solid((text + rest)[|text| - 1]);
    assert |text| <= |s|;
    var r := s[|text|..];
    SharedFront(text, rest, s, trail);
    assert StartsWith(s, p, r);
  }

  lemma TrimRightCheck(s: string)
    ensures Check(TrimRight(s), 0) == Accept <==> Check(s, 0) == Accept
  {
    var trail := TrimRightSplits(s);
    TrailingSpaces(TrimRight(s), trail);
    AcceptsReadOnly(TrimRight(s));
    AcceptsReadOnly(s);
  }

  /** The part of s in front of the first separator that the automaton meets from state st, and the part behind. */
  function InFront(st: State, s: string): string {
    if Separator(st, s, 0) < 0 then s else s[..Separator(st, s, 0)]
  }

  function InBack(st: State, s: string): string {
    if Separator(st, s, 0) < 0 then "" else s[Separator(st, s, 0) + 1..]
  }

  /** What comes before the first separator of a text, and what comes behind it. */
  function Before(y: string): string {
    InFront(Normal, y)
  }

  function Behind(y: string): string {
    InBack(Normal, y)
  }

  /** The guard on text that does not start with white space, without trimming the end. */
  predicate Passes(y: string) {
    Check(Before(y), 0) == Accept && |StripTrivia(TrimRight(Behind(y)))| == 0
  }

  lemma SeparatorFound(st: State, s: string, k: nat)
    requires Separator(st, s, 0) == k
    ensures InFront(st, s) == s[..k] && InBack(st, s) == s[k + 1..]
  {
  }

  lemma FoundBehind(p: string, s: string, k: nat)
    requires NoSeparator(Normal, p) && Separator(After(Normal, p), s, 0) == k
    ensures FirstSeparator(p + s) == |p| + k
  {
    LeastSeparator(After(Normal, p), s);
    AtBack(Normal, p, s, k);
    assert (p + s)[..|p| + k] == p + s[..k];
    NoSeparatorConcat(Normal, p, s[..k]);
    FirstSeparatorUnique(p + s, |p| + k);
  }

  lemma NoneBehind(p: string, s: string)
    requires NoSeparator(Normal, p) && Separator(After(Normal, p), s, 0) < 0
    ensures FirstSeparator(p + s) == -1
  {
    LeastSeparator(After(Normal, p), s);
    NoSeparatorConcat(Normal, p, s);
    NoFirstSeparator(p + s);
  }

  lemma SplitBehind(p: string, s: string)
    requires NoSeparator(Normal, p)
    ensures Before(p + s) == p + InFront(After(Normal, p), s) && Behind(p + s) == InBack(After(Normal, p), s)
  {
    var k := Separator(After(Normal, p), s, 0);
    if k < 0 {
      NoneBehind(p, s);
    } else {
      FoundBehind(p, s, k);
      SplitAt(p, s, k);
      SeparatorFound(After(Normal, p), s, k);
      SeparatorFound(Normal, p + s, |p| + k);
    }
  }

  /** A neutral prefix goes before the separator. */
  lemma ShiftSplit(p: string, s: string)
    requires NoSeparator(Normal, p) && After(Normal, p) == Normal
    ensures Before(p + s) == p + Before(s) && Behind(p + s) == Behind(s)
  {
    SplitBehind(p, s);
  }

  lemma LeadingSpaceOfFront(y: string, k: nat)
    requires LeadingSpace(y) == 0 && k <= |y|
    ensures LeadingSpace(y[..k]) == 0
  {
  }

  lemma EmptyRejected()
    ensures Check("", 0) != Accept
  {
    assert StripTrivia("") == "";
  }

  lemma ExtractPasses(sql: string)
    ensures Validate(sql) == Accept <==> Extract(sql).Statement? && Check(Extract(sql).text, 0) == Accept
  {
  }

  lemma TrimmedPasses(y: string)
    requires LeadingSpace(y) == 0
    ensures var t, k := TrimRight(y), FirstSeparator(y);
      && FirstSeparator(t) == k
      && (k >= 0 ==> t[..k] == y[..k] && TrimSpace(t[..k]) == TrimRight(y[..k]) && t[k + 1..] == TrimRight(y[k + 1..]))
  {
    var t, k := TrimRight(y), FirstSeparator(y);
    var trail := TrimRightSplits(y);
    SpacesHollow(trail);
    TrailSeparator(t, trail);
    if k >= 0 {
      FirstSeparatorIsLeast(y);
      var front := y[..k + 1];
      Cut(y, k + 1);
      TrimRightKeeps(front, y[k + 1..]);
      assert t[..k] == front[..k] == y[..k];
      LeadingSpaceOfFront(y, k);
    }
  }

  lemma ExtractOpen(sql: string)
    requires FirstSeparator(TrimLeft(sql)) < 0
    ensures var u := TrimSpace(sql); Extract(sql) == if u == "" then Refused(EmptyStatement) else Statement(u)
  {
    TrimLeftStops(sql);
    TrimmedPasses(TrimLeft(sql));
  }

  lemma ExtractClosed(sql: string, z: string, k: nat)
    requires z == TrimLeft(sql) && FirstSeparator(z) == k && |StripTrivia(TrimRight(z[k + 1..]))| == 0
    ensures var u := TrimRight(z[..k]); Extract(sql) == if u == "" then Refused(EmptyStatement) else Statement(u)
  {
    TrimLeftStops(sql);
    TrimmedPasses(z);
  }

  lemma ValidatePasses(sql: string)
    ensures Validate(sql) == Accept <==> Passes(TrimLeft(sql))
  {
    var y := TrimLeft(sql);
    ExtractPasses(sql);
    if FirstSeparator(y) < 0 {
      PassesOpen(sql);
    } else {
      PassesClosed(sql, FirstSeparator(y));
    }
  }

  lemma PassesOpen(sql: string)
    requires FirstSeparator(TrimLeft(sql)) < 0
    ensures Extract(sql).Statement? && Check(Extract(sql).text, 0) == Accept <==> Passes(TrimLeft(sql))
  {
    ExtractOpen(sql);
    EmptyRejected();
    TrimRightCheck(TrimLeft(sql));
    NothingBehindOpen(TrimLeft(sql));
  }

  lemma NothingBehindOpen(y: string)
    requires FirstSeparator(y) < 0
    ensures Passes(y) <==> Check(y, 0) == Accept
  {
    assert StripTrivia("") == "";
  }

  lemma PassesClosed(sql: string, k: nat)
    requires FirstSeparator(TrimLeft(sql)) == k
    ensures Extract(sql).Statement? && Check(Extract(sql).text, 0) == Accept <==> Passes(TrimLeft(sql))
  {
    var y := TrimLeft(sql);
    TrimLeftStops(sql);
    TrimmedPasses(y);
    EmptyRejected();
    TrimRightCheck(y[..k]);
    SeparatorFound(Normal, y, k);
  }

  // ---- the language ----

  /** Commentary is what stripping trivia consumes. */
  lemma CommentaryExact(c: string)
    ensures Commentary(c) <==> |StripTrivia(c)| == 0
  {
    if Commentary(c) {
      StripCommentary(c);
    }
    if |StripTrivia(c)| == 0 {
      var tokens, open := ParseTrivia(c);
      var r := StripTrivia(c);
      assert r == "" && Print(tokens) + open + r == Print(tokens) + open;
      assert IsCommentary(c, tokens, open);
    }
  }

  /** What stripping leaves, it leaves with white space after it too. */
  lemma StripWithTrail(d: string, trail: string)
    requires Spaces(trail) && |StripTrivia(d)| > 0
    ensures StripTrivia(d + trail) == StripTrivia(d) + trail
  {
    var tokens, open := ParseTrivia(d);
    var r := StripTrivia(d);
    StripTriviaMaximal(d);
    SpacesHollow(trail);
    Regroup(Print(tokens), open, r);
    assert "" + r == r;
    Regroup(Print(tokens), r, trail);
    StripTokens(tokens, r + trail);
    assert !StartsTrivia(r + trail);
    StripTriviaStops(r + trail);
  }

  /** Commentary stays commentary when the white space at its end goes. */
  lemma CommentaryTrims(c: string)
    requires Commentary(c)
    ensures |StripTrivia(TrimRight(c))| == 0
  {
    CommentaryExact(c);
    var d := TrimRight(c);
    var trail := TrimRightSplits(c);
    if |StripTrivia(d)| > 0 {
      StripWithTrail(d, trail);
    }
  }

  /** An ending is what trimming and then stripping consumes. */
  lemma EndingExact(text: string)
    ensures Ending(text) <==> |StripTrivia(TrimRight(text))| == 0
  {
    CommentaryExact(TrimRight(text));
    var rest := TrimRightSplits(text);
    forall c, trail | Commentary(c) && Spaces(trail) && text == c + trail
      ensures |StripTrivia(TrimRight(text))| == 0
    {
      TrimRightAbsorbs(c, trail);
      CommentaryTrims(c);
    }
  }

  lemma ClosesBody(y: string, k: nat)
    requires FirstSeparator(y) == k && |StripTrivia(TrimRight(y[k + 1..]))| == 0
    ensures Closing(After(Normal, y[..k]), y[k..]) && NoSeparator(Normal, y[..k])
  {
    FirstSeparatorIsLeast(y);
    AtPrefix(Normal, y, k, k);
    EndingExact(y[k + 1..]);
    assert y[k..][1..] == y[k + 1..];
  }

  lemma BodyOf(y: string) returns (stmt: string, tail: string)
    requires Passes(y)
    ensures IsBody(y, stmt, tail)
  {
    stmt := Before(y);
    AcceptsReadOnly(stmt);
    tail := SplitBody(y);
  }

  lemma SplitBody(y: string) returns (tail: string)
    requires |StripTrivia(TrimRight(Behind(y)))| == 0
    ensures y == Before(y) + tail && NoSeparator(Normal, Before(y))
    ensures tail == "" || Closing(After(Normal, Before(y)), tail)
  {
    var k := FirstSeparator(y);
    if k < 0 {
      FirstSeparatorIsLeast(y);
      tail := "";
    } else {
      tail := y[k..];
      ClosesBody(y, k);
      Cut(y, k);
    }
  }

  lemma BodyPasses(y: string, stmt: string, tail: string)
    requires IsBody(y, stmt, tail)
    ensures Passes(y)
  {
    AcceptsReadOnly(stmt);
    JoinBody(y, stmt, tail);
  }

  lemma JoinBody(y: string, stmt: string, tail: string)
    requires y == stmt + tail && NoSeparator(Normal, stmt)
    requires tail == "" || Closing(After(Normal, stmt), tail)
    ensures Before(y) == stmt && |StripTrivia(TrimRight(Behind(y)))| == 0
  {
    if tail == "" {
      assert y == stmt;
      NoFirstSeparator(y);
      assert StripTrivia("") == "";
    } else {
      SeparatorHere(stmt, tail);
      EndingExact(tail[1..]);
      assert y[..|stmt|] == stmt && y[|stmt| + 1..] == tail[1..];
      SeparatorFound(Normal, y, |stmt|);
    }
  }

  // ---- white space and comments in front ----

  function DropWhite(s: string): string {
    if s != "" && IsWhite(s[0]) then DropWhite(s[1..]) else s
  }

  /** No white space wider than one byte comes before the first byte that is not white. */
  predicate AsciiLead(s: string) {
    LeadingSpace(DropWhite(s)) == 0
  }

  lemma {:induction false} DropWhiteSplits(s: string) returns (tokens: seq<Token>)
    ensures Trivia(tokens) && (forall t <- tokens :: t.White?) && s == Print(tokens) + DropWhite(s)
    ensures DropWhite(s) == "" || !IsWhite(DropWhite(s)[0])
    ensures AsciiLead(s) ==> TrimLeft(s) == DropWhite(s)
  {
    if s != "" && IsWhite(s[0]) {
      var more := DropWhiteSplits(s[1..]);
      tokens := [White(s[0])] + more;
      assert tokens[1..] == more;
      Cut(s, 1);
      Regroup([s[0]], Print(more), DropWhite(s));
    } else {
      tokens := [];
    }
  }

  lemma CheckPastTrivia(tokens: seq<Token>, s: string)
    requires Trivia(tokens)
    ensures Check(Print(tokens) + s, 0) == Check(s, 0)
  {
    StripTokens(tokens, s);
  }

  lemma PassesPastTrivia(tokens: seq<Token>, s: string)
    requires Trivia(tokens)
    ensures Passes(Print(tokens) + s) <==> Passes(s)
  {
    TriviaNeutral(tokens);
    ShiftSplit(Print(tokens), s);
    CheckPastTrivia(tokens, Before(s));
  }

  /** A byte that is neither trivia nor a word byte makes the statement type unknown. */
  lemma ForeignByteRejected(s: string)
    requires s != "" && !StartsTrivia(s) && !StartsWord(s)
    ensures Check(s, 0) == Reject(UnknownStatement)
  {
    StripTriviaStops(s);
    assert WordLength(s) == 0;
    assert s[..0] == "";
  }

  lemma WideSpaceRejected(d: string)
    requires d != "" && !IsWhite(d[0]) && LeadingSpace(d) > 0
    ensures !Passes(d)
  {
    var k := FirstSeparator(d);
    FirstSeparatorIsLeast(d);
    ForeignByteRejected(if k < 0 then d else d[..k]);
  }

  lemma PassesUntrimmed(s: string)
    ensures Passes(s) <==> Passes(TrimLeft(s)) && AsciiLead(s)
  {
    var tokens := DropWhiteSplits(s);
    PassesPastTrivia(tokens, DropWhite(s));
    if !AsciiLead(s) {
      WideSpaceRejected(DropWhite(s));
    }
  }

  /** ValidateReadOnly accepts exactly the language of the grammar. */
  lemma GuardAcceptsLanguage(sql: string)
    ensures Validate(sql) == Accept <==> InLanguage(sql)
  {
    ValidatePasses(sql);
    var y := TrimLeft(sql);
    if Passes(y) {
      var stmt, tail := BodyOf(y);
      var lead := TrimLeftSplits(sql);
    }
    forall lead, body, stmt, tail | sql == lead + body && Spaces(lead) && IsBody(body, stmt, tail)
      ensures Passes(y)
    {
      BodyPasses(body, stmt, tail);
      TrimLeftAbsorbs(lead, body);
      PassesUntrimmed(body);
    }
  }
}
