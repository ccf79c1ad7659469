/**
 The language the guard accepts, written as a grammar: syntax trees with a printer, instead of a scanner.
 A text is in the language when some well-formed tree prints to it.
 */
module Grammar {
  import opened GoStrings
  import opened Lexer
  import opened Guard

  // ---- words, in any letter case ----

  /** w spells the upper-case word k: each byte is the same letter, or the small one, 32 codes above. */
  predicate Spells(w: string, k: string) {
    |w| == |k| && forall i :: 0 <= i < |w| ==> w[i] == k[i] || w[i] as int == k[i] as int + 32
  }

  lemma SpellsUpper(w: string, k: string)
    requires forall i :: 0 <= i < |k| ==> 'A' <= k[i] <= 'Z'
    ensures Spells(w, k) <==> ToUpper(w) == k
  {
    if ToUpper(w) == k {
      assert forall i :: 0 <= i < |w| ==> ToUpper(w)[i] == k[i];
    }
  }

  /** The guard recognises EXPLAIN, its options and the read-only keywords by these spellings. */
  predicate SpellsExplain(w: string): (b: bool)
    ensures b <==> ToUpper(w) == "EXPLAIN"
  {
    SpellsUpper(w, "EXPLAIN");
    Spells(w, "EXPLAIN")
  }

  predicate SpellsOption(w: string): (b: bool)
    ensures b <==> IsOptionWord(w)
  {
    SpellsUpper(w, "ANALYZE");
    SpellsUpper(w, "VERBOSE");
    Spells(w, "ANALYZE") || Spells(w, "VERBOSE")
  }

  predicate SpellsReadOnly(w: string): (b: bool)
    ensures b <==> ToUpper(w) in READ_ONLY_KEYWORDS
  {
    SpellsUpper(w, "SELECT");
    SpellsUpper(w, "WITH");
    SpellsUpper(w, "VALUES");
    SpellsUpper(w, "TABLE");
    SpellsUpper(w, "SHOW");
    SpellsUpper(w, "DESCRIBE");
    SpellsUpper(w, "DESC");
    || Spells(w, "SELECT") || Spells(w, "WITH") || Spells(w, "VALUES") || Spells(w, "TABLE")
    || Spells(w, "SHOW") || Spells(w, "DESCRIBE") || Spells(w, "DESC")
  }

  // ---- syntax trees ----

  datatype Token =
    | White(b: char)
    | LineComment(body: string)
    | BlockComment(body: string)
    | Group(text: string)
    | OptionWord(text: string)
  {
    function Text(): string {
      match this
      case White(b) => [b]
      case LineComment(body) => "--" + body + "\n"
      case BlockComment(body) => "/*" + body + "*/"
      case Group(text) => text
      case OptionWord(text) => text
    }

    predicate IsTrivia() {
      White? || LineComment? || BlockComment?
    }

    ghost predicate Valid() {
      match this
      case White(b) => IsWhite(b)
      case LineComment(body) => '\n' !in body
      case BlockComment(body) => NoCloser(body, 0, |body|)
      case Group(text) => IsGroup(text)
      case OptionWord(text) => IsWord(text) && SpellsOption(text)
    }
  }

  function Print(tokens: seq<Token>): string {
    if tokens == [] then "" else tokens[0].Text() + Print(tokens[1..])
  }

  ghost predicate Options(tokens: seq<Token>) {
    forall i :: 0 <= i < |tokens| ==> tokens[i].Valid()
  }

  ghost predicate Trivia(tokens: seq<Token>) {
    forall i :: 0 <= i < |tokens| ==> tokens[i].Valid() && tokens[i].IsTrivia()
  }

  /** A comment that the end of the text cuts off. */
  ghost predicate OpenComment(c: string) {
    || (OpensLine(c) && '\n' !in c)
    || (OpensBlock(c) && NoCloser(c, 2, |c|))
  }

  /** White space and comments only; the last comment may be cut off. */
  ghost predicate Commentary(c: string) {
    exists tokens, open :: IsCommentary(c, tokens, open)
  }

  ghost predicate IsCommentary(c: string, tokens: seq<Token>, open: string) {
    Trivia(tokens) && (open == "" || OpenComment(open)) && c == Print(tokens) + open
  }

  /** Every option word among the tokens ends where the text printed after it says so. */
  ghost predicate Separated(tokens: seq<Token>, rest: string) {
    tokens == [] ||
    (Separated(tokens[1..], rest) && (tokens[0].OptionWord? ==> !StartsWord(Print(tokens[1..]) + rest)))
  }

  /** The start of a statement, up to and including the word that decides it. */
  datatype Phrase =
    | Query(lead: seq<Token>, word: string)
    | Explain(lead: seq<Token>, keyword: string, options: seq<Token>, word: string)
  {
    function Text(): string {
      match this
      case Query(lead, word) => Print(lead) + word
      case Explain(lead, keyword, options, word) => Print(lead) + keyword + Print(options) + word
    }

    /** Query stands for every statement that is no EXPLAIN, allowed or not. */
    ghost predicate Valid() {
      && Trivia(lead) && IsWord(word)
      && (Query? ==> !SpellsExplain(word))
      && (Explain? ==>
            && IsWord(keyword) && SpellsExplain(keyword) && !SpellsOption(word)
            && Options(options) && Separated(options, word) && !StartsWord(Print(options) + word))
    }
  }

  /** stmt starts with the phrase p, whose deciding word ends where p does. */
  ghost predicate StartsWith(stmt: string, p: Phrase, rest: string) {
    p.Valid() && !StartsWord(rest) && stmt == p.Text() + rest
  }

  ghost predicate ReadOnlyStatement(stmt: string) {
    exists p, rest :: StartsWith(stmt, p, rest) && SpellsReadOnly(p.word)
  }

  /** One top-level ';' and then nothing but commentary and white space. */
  ghost predicate Closing(st: State, tail: string) {
    tail != "" && tail[0] == ';' && Outside(st) && Ending(tail[1..])
  }

  /** Nothing but commentary and then white space of any kind. */
  ghost predicate Ending(text: string) {
    exists c, trail :: Commentary(c) && Spaces(trail) && text == c + trail
  }

  /** A single statement and what may close it. */
  ghost predicate IsBody(body: string, stmt: string, tail: string) {
    && body == stmt + tail
    && ReadOnlyStatement(stmt) && NoSeparator(Normal, stmt)
    && (tail == "" || Closing(After(Normal, stmt), tail))
  }

  ghost predicate InLanguage(sql: string) {
    exists lead, body, stmt, tail :: sql == lead + body && Spaces(lead) && IsBody(body, stmt, tail)
  }

  // ---- printing, then scanning ----

  lemma {:induction false} PrintConcat(a: seq<Token>, b: seq<Token>)
    ensures Print(a + b) == Print(a) + Print(b)
  {
    if a == [] {
      assert a + b == b;
    } else {
      assert (a + b)[1..] == a[1..] + b;
      PrintConcat(a[1..], b);
    }
  }

  lemma StripWhite(b: char, s: string)
    requires IsWhite(b)
    ensures StripTrivia([b] + s) == StripTrivia(s)
  {
    assert ([b] + s)[1..] == s;
  }

  lemma StripLineComment(body: string, s: string)
    requires '\n' !in body
    ensures StripTrivia("--" + body + "\n" + s) == StripTrivia(s)
  {
    var c, x := "--" + body, "--" + body + "\n" + s;
    assert x[0..|c|] == c;
    LineEndUnique(x, 0, |c|);
    StripTriviaLine(x);
    assert x[|c|..] == ['\n'] + s;
    StripWhite('\n', s);
  }

  lemma StripBlockComment(body: string, s: string)
    requires NoCloser(body, 0, |body|)
    ensures StripTrivia("/*" + body + "*/" + s) == StripTrivia(s)
  {
    var x := "/*" + body + "*/" + s;
    var e := 4 + |body|;
    forall k: nat | 2 <= k < e - 2 ensures !ClosesBlock(x, k) {
      assert !ClosesBlock(body, k - 2);
    }
    BlockEndUnique(x, 2, e);
    StripTriviaBlock(x);
    assert x[e..] == s;
  }

  lemma StripToken(t: Token, s: string)
    requires t.Valid() && t.IsTrivia()
    ensures StripTrivia(t.Text() + s) == StripTrivia(s)
  {
    match t
    case White(b) => StripWhite(b, s);
    case LineComment(body) => StripLineComment(body, s);
    case BlockComment(body) => StripBlockComment(body, s);
  }

  lemma {:induction false} StripTokens(tokens: seq<Token>, s: string)
    requires Trivia(tokens)
    ensures StripTrivia(Print(tokens) + s) == StripTrivia(s)
  {
    if tokens == [] {
      assert "" + s == s;
    } else {
      StripToken(tokens[0], Print(tokens[1..]) + s);
      Regroup(tokens[0].Text(), Print(tokens[1..]), s);
      StripTokens(tokens[1..], s);
    }
  }

  lemma StripOpenComment(c: string)
    requires OpenComment(c)
    ensures StripTrivia(c) == ""
  {
    if OpensLine(c) && '\n' !in c {
      assert c[0..|c|] == c;
      LineEndUnique(c, 0, |c|);
      StripTriviaLine(c);
    } else {
      BlockEndUnique(c, 2, |c|);
      StripTriviaBlock(c);
    }
  }

  lemma StripCommentary(c: string)
    requires Commentary(c)
    ensures StripTrivia(c) == ""
  {
    var tokens, open :| IsCommentary(c, tokens, open);
    StripTokens(tokens, open);
    if open != "" {
      StripOpenComment(open);
    }
  }

  // ---- scanning, then printing ----

  /** The comment that s opens with: complete, or cut off by the end. */
  lemma ScanLineComment(s: string) returns (t: Token)
    requires OpensLine(s)
    ensures t.LineComment? && t.Valid()
    ensures if '\n' in s then t.Text() <= s else OpenComment(s) && StripTrivia(s) == ""
  {
    var e := LineEnd(s, 0);
    LineEndExact(s, 0);
    assert forall b :: b in s[2..e] ==> b in s[0..e];
    t := LineComment(s[2..e]);
    if e < |s| {
      assert t.Text() == s[..e + 1];
    } else {
      assert s[0..e] == s;
      StripOpenComment(s);
    }
  }

  lemma ScanBlockComment(s: string) returns (t: Token)
    requires OpensBlock(s)
    ensures t.BlockComment? && t.Valid()
    ensures (t.Text() <= s) || (OpenComment(s) && StripTrivia(s) == "")
  {
    var e := BlockEnd(s, 2);
    BlockEndExact(s, 2);
    if NoCloser(s, 2, |s|) {
      StripOpenComment(s);
      t := BlockComment("");
    } else {
      t := BlockComment(s[2..e - 2]);
      assert t.Text() == s[..e];
      forall k: nat | 0 <= k < |t.body| ensures !ClosesBlock(t.body, k) {
        assert !ClosesBlock(s, k + 2);
      }
    }
  }

  /** Whatever the scanner strips prints from trivia tokens, up to a comment cut off by the end. */
  lemma {:induction false} ParseTrivia(s: string) returns (tokens: seq<Token>, open: string)
    ensures Trivia(tokens) && s == Print(tokens) + open + StripTrivia(s)
    ensures open != "" ==> OpenComment(open) && StripTrivia(s) == ""
    decreases |s|, 1
  {
    tokens, open := [], "";
    if !StartsTrivia(s) {
      StripTriviaStops(s);
    } else if IsWhite(s[0]) {
      tokens, open := ParseTriviaPast(s, White(s[0]));
    } else {
      var t;
      if OpensLine(s) {
        t := ScanLineComment(s);
      } else {
        t := ScanBlockComment(s);
      }
      if t.Text() <= s {
        tokens, open := ParseTriviaPast(s, t);
      } else {
        open := s;
      }
    }
  }

  lemma {:induction false} ParseTriviaPast(s: string, t: Token) returns (tokens: seq<Token>, open: string)
    requires t.Valid() && t.IsTrivia() && t.Text() <= s
    ensures Trivia(tokens) && s == Print(tokens) + open + StripTrivia(s)
    ensures open != "" ==> OpenComment(open) && StripTrivia(s) == ""
    decreases |s|, 0
  {
    var text := t.Text();
    var more := s[|text|..];
    StripToken(t, more);
    Cut(s, |text|);
    assert s[..|text|] == text;
    tokens, open := ParseTrivia(more);
    var p, r := Print(tokens), StripTrivia(more);
    assert ([t] + tokens)[1..] == tokens;
    Regroup(p, open, r);
    Regroup(text, p, open + r);
    Regroup(text + p, open, r);
    tokens := [t] + tokens;
  }

  // ---- EXPLAIN options ----

  lemma StripGroup(g: string, s: string)
    requires IsGroup(g)
    ensures StripOptions(g + s) == StripOptions(s)
  {
    var x := g + s;
    assert x[..|g|] == g;
    GroupEndExact(x);
    assert x[|g|..] == s;
    StripTriviaStops(x);
  }

  lemma StripOptionWord(w: string, s: string)
    requires IsWord(w) && IsOptionWord(w) && !StartsWord(s)
    ensures StripOptions(w + s) == StripOptions(s)
  {
    WordLengthUnique(w, s);
    assert (w + s)[..|w|] == w && (w + s)[|w|..] == s;
    StripTriviaStops(w + s);
  }

  /** Printed options are stripped, whatever follows them. */
  lemma {:induction false} StripOptionTokens(tokens: seq<Token>, s: string)
    requires Options(tokens) && Separated(tokens, s)
    ensures StripOptions(Print(tokens) + s) == StripOptions(s)
  {
    if tokens == [] {
      assert "" + s == s;
    } else {
      var t, more := tokens[0], Print(tokens[1..]) + s;
      assert Print(tokens) + s == t.Text() + more;
      StripOptionTokens(tokens[1..], s);
      match t
      case Group(g) => StripGroup(g, more);
      case OptionWord(w) => StripOptionWord(w, more);
      case _ => StripToken(t, more);
    }
  }

  lemma {:induction false} SeparatedPast(lead: seq<Token>, t: Token, more: seq<Token>, rest: string)
    requires Trivia(lead) && Separated(more, rest)
    requires t.OptionWord? ==> !StartsWord(Print(more) + rest)
    ensures Separated(lead + [t] + more, rest)
  {
    if lead == [] {
      assert (lead + [t] + more)[1..] == more;
    } else {
      assert (lead + [t] + more)[1..] == lead[1..] + [t] + more;
      SeparatedPast(lead[1..], t, more, rest);
    }
  }

  lemma {:induction false} SeparatedTrivia(lead: seq<Token>, rest: string)
    requires Trivia(lead)
    ensures Separated(lead, rest)
  {
    if lead != [] {
      SeparatedTrivia(lead[1..], rest);
    }
  }

  /** One step of the option loop: the text it is at prints from trivia and then one option. */
  lemma ScanOption(s: string) returns (lead: seq<Token>, tok: Token, more: string)
    requires StartsWord(StripOptions(s)) && StripOptions(s) != StripTrivia(s)
    ensures Trivia(lead) && tok.Valid() && (tok.OptionWord? ==> !StartsWord(more)) && |more| < |s|
    ensures s == Print(lead) + (tok.Text() + more) && StripOptions(s) == StripOptions(more)
  {
    var t := StripTrivia(s);
    var open;
    lead, open := ParseTrivia(s);
    StripTriviaMaximal(s);
    assert StripOptions(s) == StripOptions(t);
    tok, more := ScanOptionHere(t);
    assert "" + t == t;
    Regroup(Print(lead), open, t);
  }

  lemma ScanOptionHere(t: string) returns (tok: Token, more: string)
    requires StartsWord(StripOptions(t)) && StripTrivia(t) == t && StripOptions(t) != t
    ensures tok.Valid() && (tok.OptionWord? ==> !StartsWord(more))
    ensures t == tok.Text() + more && |more| < |t| && StripOptions(t) == StripOptions(more)
  {
    assert StripOptions("") == "";
    assert t != "";
    if t[0] == '(' {
      more := SkipGroup(t);
      var g := ScanGroup(t);
      tok := Group(g);
    } else {
      var n := WordLength(t);
      more := t[n..];
      tok := OptionWord(t[..n]);
      Cut(t, n);
    }
  }

  lemma ScanGroup(t: string) returns (g: string)
    requires t != "" && t[0] == '(' && StartsWord(StripOptions(SkipGroup(t)))
    ensures IsGroup(g) && t == g + SkipGroup(t)
  {
    var e := GroupEnd(Nesting(0, false), t, 0);
    NothingBehind();
    assert e >= 0;
    g := t[..e];
    GroupFound(t, e);
    Cut(t, e);
  }

  lemma NothingBehind()
    ensures !StartsWord(StripOptions(""))
  {
  }

  lemma GroupFound(t: string, e: nat)
    requires t != "" && t[0] == '(' && 0 < e <= |t| && GroupEnd(Nesting(0, false), t, 0) == e
    ensures IsGroup(t[..e])
  {
    GroupEndExact(t);
  }

  /** If a word is left, what was stripped before it prints from option tokens. */
  lemma {:induction false} ParseOptions(s: string) returns (tokens: seq<Token>)
    requires StartsWord(StripOptions(s))
    ensures Options(tokens) && Separated(tokens, StripOptions(s)) && s == Print(tokens) + StripOptions(s)
    decreases |s|
  {
    var r := StripOptions(s);
    if r == StripTrivia(s) {
      tokens := ParseTriviaOptions(s);
    } else {
      var lead, tok, more := ScanOption(s);
      var tail := ParseOptions(more);
      tokens := lead + [tok] + tail;
      JoinOptions(lead, tok, tail, r);
    }
  }

  lemma ParseTriviaOptions(s: string) returns (tokens: seq<Token>)
    requires StripTrivia(s) != ""
    ensures Options(tokens) && Separated(tokens, StripTrivia(s)) && s == Print(tokens) + StripTrivia(s)
  {
    var r, open := StripTrivia(s), "";
    tokens, open := ParseTrivia(s);
    SeparatedTrivia(tokens, r);
    Regroup(Print(tokens), open, r);
    assert "" + r == r;
  }

  lemma PrintAround(a: seq<Token>, t: Token, b: seq<Token>)
    ensures Print(a + [t] + b) == Print(a) + t.Text() + Print(b)
  {
    PrintConcat(a, [t]);
    PrintConcat(a + [t], b);
    assert Print([t]) == t.Text() + "";
  }

  lemma JoinOptions(lead: seq<Token>, tok: Token, tail: seq<Token>, r: string)
    requires Trivia(lead) && tok.Valid() && Options(tail) && Separated(tail, r)
    requires tok.OptionWord? ==> !StartsWord(Print(tail) + r)
    ensures Options(lead + [tok] + tail) && Separated(lead + [tok] + tail, r)
    ensures Print(lead) + (tok.Text() + (Print(tail) + r)) == Print(lead + [tok] + tail) + r
  {
    SeparatedPast(lead, tok, tail, r);
    PrintAround(lead, tok, tail);
    RegroupFour(Print(lead), tok.Text(), Print(tail), r);
  }
}
