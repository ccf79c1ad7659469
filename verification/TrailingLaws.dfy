/** What may be added behind a text without a ';': white space always, comments unless EXPLAIN options are left open. */
module TrailingLaws {
  import opened GoStrings
  import opened Lexer
  import opened Guard
  import opened Grammar
  import opened Acceptance
  import opened Language
  import opened GuardLaws
  import opened ExplainLaws
  import opened ExplainOptions

  // ---- white space ----

  /** A byte that goes on with no white-space rune. */
  predicate Fresh(t: string) {
    t != "" ==> !('\U{80}' <= t[0] <= '\U{BF}')
  }

  lemma LeadingStays(y: string, t: string)
    requires y != "" && LeadingSpace(y) == 0 && Fresh(t)
    ensures LeadingSpace(y + t) == 0
  {
  }

  lemma TrimLeftBehind(s: string, t: string)
    requires Fresh(t) && TrimLeft(s) != ""
    ensures TrimLeft(s + t) == TrimLeft(s) + t
  {
    var y := TrimLeft(s);
    var lead := TrimLeftSplits(s);
    TrimLeftStops(s);
    Regroup(lead, y, t);
    TrimLeftAbsorbs(lead, y + t);
    LeadingStays(y, t);
  }

  lemma OnlySpaces(s: string)
    requires TrimLeft(s) == ""
    ensures Spaces(s)
  {
    var lead := TrimLeftSplits(s);
    assert lead + "" == lead;
  }

  lemma TrimSpaceBehind(s: string, t: string)
    requires Spaces(t)
    ensures TrimSpace(s + t) == TrimSpace(s)
  {
    if TrimLeft(s) == "" {
      OnlySpaces(s);
      SpacesConcat(s, t);
      SpacesExact(s);
      SpacesExact(s + t);
    } else {
      SpacesFresh(t);
      TrimLeftBehind(s, t);
      TrimRightAbsorbs(TrimLeft(s), t);
    }
  }

  lemma SpacesFresh(t: string)
    requires Spaces(t)
    ensures Fresh(t)
  {
  }

  /** White space behind a text never changes the verdict, nor the reason of a refusal. */
  lemma WhiteSpaceSuffix(s: string, t: string)
    requires Spaces(t)
    ensures Validate(s + t) == Validate(s)
  {
    TrimSpaceBehind(s, t);
    assert Extract(s + t) == Extract(s);
  }

  // ---- options that the end of the text leaves open ----

  function GroupEndOf(s: string): (e: int)
    ensures e <= |s|
  {
    if s != "" && s[0] == '(' then GroupEnd(Nesting(0, false), s, 0) else -1
  }

  function CodeTokenEnd(s: string): (k: nat)
    ensures k <= |s|
  {
    TokenEnd(s, GroupEndOf(s))
  }

  /** Behind complete options and trivia, the end of the text cuts off a group or a comment. */
  predicate EndsOpen(s: string)
    decreases |s|
  {
    s != "" && if CodeTokenEnd(s) > 0 then EndsOpen(s[CodeTokenEnd(s)..]) else StartsTrivia(s) || s[0] == '('
  }

  predicate LeftOpen(stmt: string) {
    Keyword(stmt).0 == "EXPLAIN" && EndsOpen(Keyword(stmt).1)
  }

  lemma CodeGroupEnd(s: string)
    ensures GroupEndOf(s) == -1 || GroupEndOf(s) > 0
    ensures forall k :: 0 < k <= |s| ==> (IsGroup(s[..k]) <==> GroupEndOf(s) == k)
    ensures GroupEndOf(s) == -1 && s != "" && s[0] == '(' ==> forall k :: 0 < k <= |s| ==> Nest(s[..k]).depth != 0
  {
    if s != "" && s[0] == '(' {
      GroupEndExact(s);
    }
  }

  lemma CodeTokenFront(u: string, c: string)
    requires CodeTokenEnd(u) > 0 && !StartsWord(c)
    ensures CodeTokenEnd(u + c) == CodeTokenEnd(u)
  {
    var k := CodeTokenEnd(u);
    assert u != "";
    if IsWhite(u[0]) {
    } else if OpensLine(u) {
      LineFront(u, c);
    } else if OpensBlock(u) {
      BlockFront(u, c);
    } else if u[0] == '(' {
      CodeGroupEnd(u);
      CodeGroupEnd(u + c);
      assert (u + c)[..k] == u[..k];
    } else {
      WordFront(u, c);
      assert (u + c)[..k] == u[..k];
    }
  }

  lemma CodeTokenTaken(s: string)
    requires CodeTokenEnd(s) > 0
    ensures StripOptions(s) == StripOptions(s[CodeTokenEnd(s)..])
  {
    if StartsTrivia(s) {
      TriviaTaken(s, GroupEndOf(s));
    } else {
      StripTriviaStops(s);
    }
  }

  /** The option loop takes the first token of u, with more text behind u and without. */
  lemma TokenStep(u: string, c: string)
    requires CodeTokenEnd(u) > 0 && !StartsWord(c)
    ensures StripOptions(u) == StripOptions(u[CodeTokenEnd(u)..])
    ensures StripOptions(u + c) == StripOptions(u[CodeTokenEnd(u)..] + c)
  {
    var k := CodeTokenEnd(u);
    CodeTokenFront(u, c);
    CodeTokenTaken(u);
    CodeTokenTaken(u + c);
    DropFront(u, c, k);
  }

  lemma DropFront(a: string, b: string, k: nat)
    requires k <= |a|
    ensures (a + b)[k..] == a[k..] + b
  {
  }

  /** The word behind the options, in upper case. */
  function OptionKeyword(s: string): string {
    Keyword(StripOptions(s)).0
  }

  // ---- comments behind a text with nothing left open ----

  lemma PrintStart(tokens: seq<Token>)
    requires Trivia(tokens)
    ensures !StartsWord(Print(tokens)) && Fresh(Print(tokens)) && StripTrivia(Print(tokens)) == ""
  {
    StripTokens(tokens, "");
    assert Print(tokens) + "" == Print(tokens);
  }

  /** A byte that starts neither trivia nor a word stays in front, or a '-' makes a comment of all that follows. */
  lemma ForeignKept(u: string, tokens: seq<Token>)
    requires Trivia(tokens) && u != "" && !StartsTrivia(u) && !StartsWord(u)
    ensures var x := u + Print(tokens); StripTrivia(x) == x || StripTrivia(x) == ""
  {
    var x := u + Print(tokens);
    if StartsTrivia(x) {
      assert |u| == 1 && Print(tokens) != "";
      var t := tokens[0];
      assert t.LineComment? && u == "-";
      var longer := [LineComment("-" + t.body)] + tokens[1..];
      assert longer[1..] == tokens[1..];
      assert u + t.Text() == longer[0].Text();
      Regroup(u, t.Text(), Print(tokens[1..]));
      PrintStart(longer);
    } else {
      StripTriviaStops(x);
    }
  }

  lemma NoKeyword(x: string)
    requires StripTrivia(x) == "" || !StartsWord(StripTrivia(x))
    ensures Keyword(x).0 == ""
  {
  }

  /** Trivia behind options that are not left open keep the word behind the options, or that there is none. */
  lemma {:induction false} OptionWordKept(more: string, tokens: seq<Token>)
    requires Trivia(tokens) && !EndsOpen(more)
    ensures OptionKeyword(more + Print(tokens)) == OptionKeyword(more)
    decreases |more|
  {
    PrintStart(tokens);
    if more == "" {
      assert more + Print(tokens) == Print(tokens);
      NothingLeft(Print(tokens));
      NothingLeft("");
    } else if CodeTokenEnd(more) > 0 {
      TokenStep(more, Print(tokens));
      OptionWordKept(more[CodeTokenEnd(more)..], tokens);
    } else {
      LastKept(more, tokens);
    }
  }

  lemma NothingLeft(s: string)
    requires StripTrivia(s) == ""
    ensures StripOptions(s) == "" && OptionKeyword(s) == ""
  {
  }

  lemma LastKept(more: string, tokens: seq<Token>)
    requires Trivia(tokens) && more != "" && CodeTokenEnd(more) == 0 && !StartsTrivia(more) && more[0] != '('
    ensures OptionKeyword(more + Print(tokens)) == OptionKeyword(more)
  {
    var x := more + Print(tokens);
    PrintStart(tokens);
    if StartsWord(more) {
      LastWordKept(more, Print(tokens));
    } else {
      ForeignKept(more, tokens);
      StripTriviaStops(more);
      NoKeyword(x);
      NoKeyword(more);
      assert StripOptions(more) == more && StripOptions(x) == StripTrivia(x);
    }
  }

  lemma LastWordKept(more: string, c: string)
    requires StartsWord(more) && CodeTokenEnd(more) == 0 && !StartsWord(c)
    ensures StripOptions(more) == more && StripOptions(more + c) == more + c
    ensures Keyword(more + c).0 == Keyword(more).0
  {
    WordFront(more, c);
    var n := WordLength(more);
    assert (more + c)[..n] == more[..n];
    StripTriviaStops(more);
    StripTriviaStops(more + c);
  }

  lemma OpenCommentInside(c: string)
    requires OpenComment(c)
    ensures !Outside(After(Normal, c))
  {
    var opening, body := c[..2], c[2..];
    Cut(c, 2);
    AfterConcat(Normal, opening, body);
    assert At(Normal, opening, 1) == Step(Normal, c[0]);
    if OpensLine(c) && '\n' !in c {
      StaysInLine(body, |body|);
    } else {
      forall k: nat | k < |body| ensures !ClosesBlock(body, k) {
        assert !ClosesBlock(c, k + 2);
      }
      StaysInBlock(body, |body|);
    }
  }

  /** The first word of a complete text stays with trivia behind it. */
  lemma KeywordKept(y: string, tokens: seq<Token>)
    requires Trivia(tokens) && Outside(After(Normal, y))
    ensures var c := Print(tokens);
      && Keyword(y + c).0 == Keyword(y).0
      && (Keyword(y).0 != "" ==> Keyword(y + c).1 == Keyword(y).1 + c)
  {
    var c := Print(tokens);
    PrintStart(tokens);
    if Keyword(y).0 != "" {
      var lead, word, more := ScanKeyword(y);
      RegroupFour(Print(lead), word, more, c);
      Regroup(word, more, c);
      Regroup(Print(lead), word, more);
      KeywordAfter(lead, word, more + c);
    } else {
      NoKeywordKept(y, tokens);
    }
  }

  lemma OnlyTrivia(y: string) returns (lead: seq<Token>)
    requires Outside(After(Normal, y)) && StripTrivia(y) == ""
    ensures Trivia(lead) && y == Print(lead)
  {
    var open;
    lead, open := ParseTrivia(y);
    assert Print(lead) + open + "" == Print(lead) + open;
    if open != "" {
      OpenCommentInside(open);
      TriviaNeutral(lead);
      AfterConcat(Normal, Print(lead), open);
    }
  }

  lemma NoKeywordKept(y: string, tokens: seq<Token>)
    requires Trivia(tokens) && Outside(After(Normal, y)) && Keyword(y).0 == ""
    ensures Keyword(y + Print(tokens)).0 == ""
  {
    var t := StripTrivia(y);
    if t == "" {
      var lead := OnlyTrivia(y);
      PrintConcat(lead, tokens);
      PrintStart(lead + tokens);
    } else {
      StripTriviaMaximal(y);
      ForeignKept(t, tokens);
      StripKept(y, tokens);
    }
    NoKeyword(y + Print(tokens));
  }

  lemma StripKept(y: string, tokens: seq<Token>)
    requires StripTrivia(y) != ""
    ensures StripTrivia(y + Print(tokens)) == StripTrivia(StripTrivia(y) + Print(tokens))
  {
    var t := StripTrivia(y);
    var lead, open := ParseTrivia(y);
    assert Print(lead) + "" == Print(lead);
    Regroup(Print(lead), t, Print(tokens));
    StripTokens(lead, t + Print(tokens));
  }

  lemma CheckKept(y: string, tokens: seq<Token>)
    requires Trivia(tokens) && Outside(After(Normal, y)) && !LeftOpen(y)
    ensures Check(y + Print(tokens), 0) == Check(y, 0)
  {
    KeywordKept(y, tokens);
    if Keyword(y).0 == "EXPLAIN" {
      OptionWordKept(Keyword(y).1, tokens);
    }
  }

  // ---- comments behind options that are left open ----

  /** A comment that closes what the end of the text left open, and puts a word behind it. */
  lemma {:induction false} Reopen(more: string) returns (t: Token)
    requires EndsOpen(more)
    ensures t.Valid() && t.IsTrivia() && StripOptions(more) == "" && OptionKeyword(more + t.Text()) == "SELECT"
    decreases |more|
  {
    if CodeTokenEnd(more) > 0 {
      t := Reopen(more[CodeTokenEnd(more)..]);
      TriviaStart(t);
      TokenStep(more, t.Text());
    } else if more[0] == '(' {
      t := CloseGroup(more);
    } else {
      OpenTrivia(more, GroupEndOf(more));
      StripOpenComment(more);
      NothingLeft(more);
      t := CloseComment(more);
    }
  }

  lemma TriviaStart(t: Token)
    requires t.Valid() && t.IsTrivia()
    ensures !StartsWord(t.Text())
  {
  }

  /** The word that is put there, with what closes its comment. */
  lemma SelectBehind(x: string, tail: string)
    requires !StartsWord(tail) && StripOptions(x) == StripOptions("SELECT" + tail)
    ensures OptionKeyword(x) == "SELECT"
  {
    var s := "SELECT" + tail;
    SelectIsFirst(tail);
    WordLengthUnique("SELECT", tail);
    StripTriviaStops(s);
    assert s[..6] == "SELECT" && ToUpper("SELECT") == "SELECT";
  }

  lemma CloseComment(u: string) returns (t: Token)
    requires OpenComment(u)
    ensures t.Valid() && t.IsTrivia() && OptionKeyword(u + t.Text()) == "SELECT"
  {
    if OpensLine(u) && '\n' !in u {
      t := CloseLine(u);
    } else {
      t := CloseBlock(u);
    }
  }

  lemma CloseLine(u: string) returns (t: Token)
    requires OpensLine(u) && '\n' !in u
    ensures t.Valid() && t.IsTrivia() && OptionKeyword(u + t.Text()) == "SELECT"
  {
    t := BlockComment("\nSELECT");
    var body, s := u[2..] + "/*", "SELECT" + "*/";
    assert t.Text() == "/*" + "\n" + s;
    assert u + "/*" == "--" + body;
    RegroupFour(u, "/*", "\n", s);
    Regroup("/*", "\n", s);
    StripLineComment(body, s);
    SelectBehind(u + t.Text(), "*/");
  }

  lemma CloseBlock(u: string) returns (t: Token)
    requires OpensBlock(u) && NoCloser(u, 2, |u|)
    ensures t.Valid() && t.IsTrivia() && OptionKeyword(u + t.Text()) == "SELECT"
  {
    t := LineComment("*/SELECT");
    var body, s := u[2..] + "--", "SELECT" + "\n";
    forall k: nat | k < |body| ensures !ClosesBlock(body, k) {
      assert !ClosesBlock(u, k + 2);
    }
    assert t.Text() == "--" + "*/" + s;
    assert u + "--" == "/*" + body;
    RegroupFour(u, "--", "*/", s);
    Regroup("--", "*/", s);
    StripBlockComment(body, s);
    SelectBehind(u + t.Text(), "\n");
  }

  function Closers(n: nat): (r: string)
    ensures |r| == n && forall i :: 0 <= i < n ==> r[i] == ')'
  {
    seq(n, _ => ')')
  }

  lemma {:induction false} CloseAll(s: string)
    requires Unclosed(s) && !Nest(s).quoted
    ensures IsGroup(s + Closers(Nest(s).depth))
    decreases Nest(s).depth
  {
    var d := Nest(s).depth;
    assert s[..|s|] == s;
    UnclosedNext(s, ')');
    if d == 1 {
      assert Closers(d) == [')'];
    } else {
      CloseAll(s + [')']);
      assert s + Closers(d) == s + [')'] + Closers(d - 1);
    }
  }

  lemma {:induction false} NeverClosed(u: string, k: nat)
    requires u != "" && u[0] == '(' && GroupEndOf(u) == -1 && 0 < k <= |u|
    ensures Nest(u[..k]).depth > 0
  {
    CodeGroupEnd(u);
    if k == 1 {
      assert u[..1][..0] == "";
    } else {
      NeverClosed(u, k - 1);
      assert u[..k][..k - 1] == u[..k - 1];
    }
  }

  /** What closes a literal and every parenthesis that u leaves open. */
  lemma CloseParens(u: string) returns (f: string)
    requires Unclosed(u)
    ensures IsGroup(u + f) && '*' !in f
  {
    var s := u;
    if Nest(u).quoted {
      UnclosedNext(u, '\'');
      assert u[..|u|] == u;
      s := u + ['\''];
    }
    CloseAll(s);
    f := s[|u|..] + Closers(Nest(s).depth);
    assert u + f == s + Closers(Nest(s).depth);
  }

  lemma CloseGroup(u: string) returns (t: Token)
    requires u != "" && u[0] == '(' && GroupEndOf(u) == -1
    ensures t.Valid() && t.IsTrivia() && StripOptions(u) == "" && OptionKeyword(u + t.Text()) == "SELECT"
  {
    forall k | 0 < k <= |u| ensures Nest(u[..k]).depth > 0 {
      NeverClosed(u, k);
    }
    UnclosedCalm(u, "/*");
    var f := CloseParens(u + "/*");
    t := CloseWith(u, f);
    StripTriviaStops(u);
    NothingLeft("");
  }

  lemma CloseWith(u: string, f: string) returns (t: Token)
    requires IsGroup(u + "/*" + f) && '*' !in f
    ensures t.Valid() && t.IsTrivia() && OptionKeyword(u + t.Text()) == "SELECT"
  {
    var s := "SELECT" + "*/";
    t := BlockComment(f + "SELECT");
    Regroup(f, "SELECT", "*/");
    Regroup("/*", f, s);
    RegroupFour(u, "/*", f, s);
    assert t.Text() == "/*" + f + s;
    StripGroup(u + "/*" + f, s);
    SelectBehind(u + t.Text(), "*/");
  }

  // ---- the law for the whole text ----

  /** Trivia behind s do not change whether it is accepted. */
  predicate SuffixNeutral(s: string, tokens: seq<Token>) {
    Validate(s + Print(tokens)) == Accept <==> Validate(s) == Accept
  }

  lemma CompletePasses(s: string)
    requires NoSeparator(Normal, s)
    ensures Validate(s) == Accept <==> Check(TrimLeft(s), 0) == Accept
  {
    ValidatePasses(s);
    SeparatorAfterTrim(s);
    NoFirstSeparator(TrimLeft(s));
    assert StripTrivia("") == "";
  }

  lemma TriviaRejected(tokens: seq<Token>)
    requires Trivia(tokens)
    ensures Validate(Print(tokens)) != Accept
  {
    var c := Print(tokens);
    assert c + "" == c;
    if exists t <- tokens :: !t.White? {
      DropWhitePast(tokens, "");
    } else {
      DropWhites(tokens, "");
    }
    ValidatePasses(c);
    PassesUntrimmed(c);
    PassesPastTrivia(tokens, "");
    EmptyRejected();
  }

  lemma CompleteWith(s: string, tokens: seq<Token>)
    requires NoSeparator(Normal, s) && Outside(After(Normal, s)) && Trivia(tokens) && TrimLeft(s) != ""
    ensures Validate(s + Print(tokens)) == Accept <==> Check(TrimLeft(s) + Print(tokens), 0) == Accept
  {
    PrintStart(tokens);
    TriviaFromOutside(After(Normal, s), tokens);
    NoSeparatorConcat(Normal, s, Print(tokens));
    CompletePasses(s + Print(tokens));
    TrimLeftBehind(s, Print(tokens));
  }

  lemma KeptBehind(s: string, tokens: seq<Token>)
    requires NoSeparator(Normal, s) && Outside(After(Normal, s)) && Trivia(tokens) && !LeftOpen(TrimLeft(s))
    ensures SuffixNeutral(s, tokens)
  {
    CompletePasses(s);
    if TrimLeft(s) == "" {
      EmptyRejected();
      OnlySpaces(s);
      WhiteSpacePrefix(s, Print(tokens));
      TriviaRejected(tokens);
    } else {
      SeparatorAfterTrim(s);
      CheckKept(TrimLeft(s), tokens);
      CompleteWith(s, tokens);
    }
  }

  /** A comment turns a refusal into an acceptance. */
  lemma OpenBehind(s: string) returns (t: Token)
    requires NoSeparator(Normal, s) && Outside(After(Normal, s)) && LeftOpen(TrimLeft(s))
    ensures Trivia([t]) && Validate(s) != Accept && Validate(s + Print([t])) == Accept
  {
    var y := TrimLeft(s);
    t := Reopen(Keyword(y).1);
    assert Print([t]) == t.Text() + Print([]) == t.Text();
    EmptyRejected();
    SeparatorAfterTrim(s);
    CompletePasses(s);
    CompleteWith(s, [t]);
    KeywordKept(y, [t]);
    JudgeAccepts("SELECT");
  }

  /** Comments behind a text that has no separator and ends outside quotes and comments never change whether it is
      accepted, exactly when it leaves no EXPLAIN options open. */
  lemma CommentSuffix(s: string)
    requires NoSeparator(Normal, s) && Outside(After(Normal, s))
    ensures (forall tokens :: Trivia(tokens) ==> SuffixNeutral(s, tokens)) <==> !LeftOpen(TrimLeft(s))
  {
    if LeftOpen(TrimLeft(s)) {
      var t := OpenBehind(s);
      assert !SuffixNeutral(s, [t]);
    } else {
      forall tokens | Trivia(tokens) ensures SuffixNeutral(s, tokens) {
        KeptBehind(s, tokens);
      }
    }
  }

  lemma OpenGroupLeaves()
    ensures StripOptions(" " + "(") == ""
  {
    CodeGroupEnd("(");
    OnlyOpen();
    StripWhite(' ', "(");
    StripTriviaStops("(");
    NothingLeft("");
  }

  lemma ExplainEmpty(options: string)
    requires !StartsWord(options) && StripOptions(options) == "" && NoSeparator(Normal, "EXPLAIN" + options)
    ensures Validate("EXPLAIN" + options) != Accept
  {
    ExplainIsWord();
    KeywordFirst("EXPLAIN", options);
    NothingLeft("");
    TrimFromWord("EXPLAIN", options);
    CompletePasses("EXPLAIN" + options);
  }

  lemma CommentPrints()
    ensures var t := BlockComment(")SELECT"); Trivia([t]) && Print([t]) == "/*)SELECT*/"
    ensures "EXPLAIN (" + "/*)SELECT*/" == "EXPLAIN (/*)" + ("SELECT" + "*/")
  {
    var t := BlockComment(")SELECT");
    assert Print([t]) == t.Text() + Print([]) == "/*)SELECT*/";
  }

  lemma OpenText()
    ensures "EXPLAIN" + (" " + "(") == "EXPLAIN ("
    ensures NoSeparator(Normal, "EXPLAIN (") && After(Normal, "EXPLAIN (") == Normal
  {
    PlainNeutral("EXPLAIN (", 9);
  }

  lemma OpenTextClosed()
    ensures Validate("EXPLAIN (" + "/*)SELECT*/") == Accept
  {
    SelectIsFirst("*/");
    OpenerAccepts("SELECT", "*/");
    CommentPrints();
  }

  /** The condition is needed: a comment closes the group of a text that is refused without it. */
  lemma CommentClosesGroup()
    ensures var s, t := "EXPLAIN (", BlockComment(")SELECT");
      && NoSeparator(Normal, s) && Outside(After(Normal, s)) && Trivia([t]) && Print([t]) == "/*)SELECT*/"
      && Validate(s) != Accept && Validate(s + Print([t])) == Accept
  {
    OpenText();
    OpenGroupLeaves();
    ExplainEmpty(" " + "(");
    OpenTextClosed();
    CommentPrints();
  }
}
