/**
 The options of EXPLAIN as the scan for separators reads them: a parenthesis counts only outside quotes and comments.
 The code skips option groups by another rule, so the word that it takes for the first one behind the options need
 not be the first one that the scan for separators reads there. These laws say exactly when it is.
 */
module ExplainOptions {
  import opened GoStrings
  import opened Lexer
  import opened Guard
  import opened Grammar
  import opened Acceptance
  import opened Language
  import opened ExplainLaws

  // ---- groups ----

  /** Depth of parentheses outside quotes and comments, and the state of the automaton. */
  datatype Reading = Reading(depth: int, state: State)

  function ReadStep(r: Reading, b: char): Reading {
    var turn := if !Outside(r.state) then 0 else if b == '(' then 1 else if b == ')' then -1 else 0;
    Reading(r.depth + turn, Step(r.state, b))
  }

  function Read(s: string): Reading {
    if s == "" then Reading(0, Normal) else ReadStep(Read(s[..|s| - 1]), s[|s| - 1])
  }

  lemma {:induction false} ReadState(s: string)
    ensures Read(s).state == After(Normal, s)
  {
    if s != "" {
      var n := |s| - 1;
      ReadState(s[..n]);
      AtPrefix(Normal, s, n, n);
    }
  }

  lemma ReadNext(s: string, b: char)
    ensures Read(s + [b]) == ReadStep(Read(s), b)
  {
    assert (s + [b])[..|s|] == s;
  }

  /** A group for the scan for separators: it closes at its last byte and not before. */
  ghost predicate IsReadGroup(g: string) {
    && g != "" && g[0] == '('
    && Read(g).depth == 0
    && forall k :: 0 < k < |g| ==> Read(g[..k]).depth != 0
  }

  /** One pass over s from position i; the result is the end of the group, or -1 if it does not close. */
  function ReadEnd(r: Reading, s: string, i: nat): (e: int)
    requires i <= |s|
    ensures e == -1 || i < e <= |s|
    decreases |s| - i
  {
    if i == |s| then -1
    else
      var m := ReadStep(r, s[i]);
      if s[i] == ')' && Outside(r.state) && m.depth == 0 then i + 1 else ReadEnd(m, s, i + 1)
  }

  lemma {:induction false} ReadEndIsLeast(s: string, i: nat)
    requires 0 < i <= |s| && s[0] == '('
    requires forall k :: 0 < k <= i ==> Read(s[..k]).depth > 0
    ensures var e := ReadEnd(Read(s[..i]), s, i);
      if e < 0 then forall k :: 0 < k <= |s| ==> Read(s[..k]).depth != 0 else IsReadGroup(s[..e])
    decreases |s| - i
  {
    if i < |s| {
      assert s[..i + 1][..i] == s[..i];
      if Read(s[..i + 1]).depth != 0 {
        ReadEndIsLeast(s, i + 1);
      } else {
        var g := s[..i + 1];
        forall k | 0 < k < |g| ensures Read(g[..k]).depth != 0 {
          assert g[..k] == s[..k];
        }
      }
    }
  }

  /** The end of the group that s starts with, -1 if it starts with none that closes. */
  function ReadGroupEnd(s: string): (e: int)
    ensures e <= |s|
  {
    if s != "" && s[0] == '(' then ReadEnd(Reading(0, Normal), s, 0) else -1
  }

  /** The group is the only prefix of that kind; -1 means that there is none. */
  lemma ReadGroupEndExact(s: string)
    ensures forall k :: 0 < k <= |s| ==> (IsReadGroup(s[..k]) <==> ReadGroupEnd(s) == k)
    ensures ReadGroupEnd(s) != 0 && ReadGroupEnd(s) >= -1
  {
    if s != "" && s[0] == '(' {
      assert s[..1][..0] == "";
      assert Read(s[..1]) == Reading(1, Normal);
      ReadEndIsLeast(s, 1);
      assert ReadGroupEnd(s) == ReadEnd(Read(s[..1]), s, 1);
      assert forall j, k :: 0 < j < k <= |s| ==> s[..k][..j] == s[..j];
    }
  }

  // ---- the option loop ----

  /** What the scan for separators finds behind the options: the loop of the code, but for the end of a group. */
  function ReadOptions(s: string): (r: string)
    ensures |r| <= |s|
    decreases |s|
  {
    var t := StripTrivia(s);
    if t != "" && t[0] == '(' then
      if ReadGroupEnd(t) <= 0 then "" else ReadOptions(t[ReadGroupEnd(t)..])
    else if IsOptionWord(t[..WordLength(t)]) then ReadOptions(t[WordLength(t)..])
    else t
  }

  /** The end of the option or trivia token that s starts with, 0 if it starts with none that is complete.
      Where groups end is given. */
  function TokenEnd(s: string, groupEnd: int): (k: nat)
    requires groupEnd <= |s|
    ensures k <= |s|
  {
    if s == "" then 0
    else if IsWhite(s[0]) then 1
    else if OpensLine(s) then if LineEnd(s, 0) < |s| then LineEnd(s, 0) + 1 else 0
    else if OpensBlock(s) then if NoCloser(s, 2, |s|) then 0 else BlockEnd(s, 2)
    else if s[0] == '(' then if groupEnd < 0 then 0 else groupEnd
    else if IsOptionWord(s[..WordLength(s)]) then WordLength(s)
    else 0
  }

  function ReadTokenEnd(s: string): (k: nat)
    ensures k <= |s|
  {
    TokenEnd(s, ReadGroupEnd(s))
  }

  /** Nothing but complete options and trivia, one token after the other. */
  predicate OptionRun(s: string)
    decreases |s|
  {
    s == "" || (ReadTokenEnd(s) > 0 && OptionRun(s[ReadTokenEnd(s)..]))
  }

  /** Comments end where they end in front of more text, or are not complete. */
  lemma LineFront(p: string, w: string)
    requires OpensLine(p)
    ensures LineEnd(p, 0) < |p| ==> LineEnd(p + w, 0) == LineEnd(p, 0)
    ensures LineEnd(p, 0) == |p| ==> LineEnd(p + w, 0) >= |p|
  {
    var e := LineEnd(p, 0);
    LineEndExact(p, 0);
    LineEndExact(p + w, 0);
    if e < |p| {
      assert (p + w)[0..e] == p[0..e];
      LineEndUnique(p + w, 0, e);
    }
  }

  lemma BlockFront(p: string, w: string)
    requires OpensBlock(p)
    ensures !NoCloser(p, 2, |p|) ==> BlockEnd(p + w, 2) == BlockEnd(p, 2) && !NoCloser(p + w, 2, |p + w|)
    ensures NoCloser(p, 2, |p|) && !NoCloser(p + w, 2, |p + w|) ==> BlockEnd(p + w, 2) > |p|
  {
    var e, f := BlockEnd(p, 2), BlockEnd(p + w, 2);
    BlockEndExact(p, 2);
    BlockEndExact(p + w, 2);
    if !NoCloser(p, 2, |p|) {
      forall k: nat | 2 <= k < e - 2 ensures !ClosesBlock(p + w, k) {
        assert !ClosesBlock(p, k);
      }
      assert ClosesBlock(p + w, e - 2);
      BlockEndUnique(p + w, 2, e);
    } else if !NoCloser(p + w, 2, |p + w|) && f <= |p| {
      assert ClosesBlock(p, f - 2);
    }
  }

  lemma GroupFront(p: string, w: string)
    requires p != ""
    ensures ReadGroupEnd(p) > 0 ==> ReadGroupEnd(p + w) == ReadGroupEnd(p)
    ensures ReadGroupEnd(p) < 0 && ReadGroupEnd(p + w) > 0 ==> ReadGroupEnd(p + w) > |p|
  {
    ReadGroupEndExact(p);
    ReadGroupEndExact(p + w);
    var e, f := ReadGroupEnd(p), ReadGroupEnd(p + w);
    if e > 0 {
      assert (p + w)[..e] == p[..e];
    }
    if 0 < f <= |p| {
      assert (p + w)[..f] == p[..f];
    }
  }

  /** No word goes on behind p. */
  predicate WordsEnd(p: string) {
    p == "" || !IsWordByte(p[|p| - 1])
  }

  lemma WordFront(p: string, w: string)
    requires WordsEnd(p) || !StartsWord(w)
    ensures p != "" ==> WordLength(p + w) == WordLength(p)
  {
    if p != "" {
      var n := WordLength(p);
      Cut(p, n);
      Regroup(p[..n], p[n..], w);
      assert n < |p| ==> (p[n..] + w)[0] == p[n];
      WordLengthUnique(p[..n], p[n..] + w);
    }
  }

  /** The first token of p is the first token of p with a word behind it, unless that goes beyond p. */
  lemma TokenFront(p: string, w: string)
    requires p != "" && WordsEnd(p) && StartsWord(w)
    ensures ReadTokenEnd(p) > 0 ==> ReadTokenEnd(p + w) == ReadTokenEnd(p)
    ensures ReadTokenEnd(p) == 0 ==> ReadTokenEnd(p + w) == 0 || ReadTokenEnd(p + w) > |p|
  {
    var x := p + w;
    assert OpensLine(x) == OpensLine(p) && OpensBlock(x) == OpensBlock(p);
    if IsWhite(p[0]) {
    } else if OpensLine(p) {
      LineFront(p, w);
    } else if OpensBlock(p) {
      BlockFront(p, w);
    } else if p[0] == '(' {
      ReadGroupEndExact(p);
      ReadGroupEndExact(x);
      GroupFront(p, w);
    } else {
      WordFront(p, w);
      assert x[..WordLength(p)] == p[..WordLength(p)];
    }
  }

  /** Stripping trivia takes one token after the other. */
  lemma TriviaTaken(s: string, groupEnd: int)
    requires groupEnd <= |s| && TokenEnd(s, groupEnd) > 0 && StartsTrivia(s)
    ensures StripTrivia(s) == StripTrivia(s[TokenEnd(s, groupEnd)..])
  {
    var k := TokenEnd(s, groupEnd);
    if OpensLine(s) {
      StripTriviaLine(s);
      LineEndExact(s, 0);
      assert s[k - 1..][1..] == s[k..];
    } else if OpensBlock(s) {
      StripTriviaBlock(s);
    }
  }

  lemma SameTrivia(s: string, t: string)
    requires StripTrivia(s) == StripTrivia(t)
    ensures ReadOptions(s) == ReadOptions(t)
  {
  }

  /** The loop takes one token after the other. */
  lemma TokenTaken(s: string)
    requires ReadTokenEnd(s) > 0
    ensures ReadOptions(s) == ReadOptions(s[ReadTokenEnd(s)..])
  {
    var k := ReadTokenEnd(s);
    if StartsTrivia(s) {
      TriviaTaken(s, ReadGroupEnd(s));
      SameTrivia(s, s[k..]);
    } else {
      StripTriviaStops(s);
    }
  }

  /** At a text with no token in front the loop stops, or an open group or comment leaves it nothing. */
  lemma NoTokenTaken(s: string)
    requires ReadTokenEnd(s) == 0
    ensures ReadOptions(s) == s || ReadOptions(s) == ""
  {
    if StartsTrivia(s) {
      OpenTrivia(s, ReadGroupEnd(s));
      StripOpenComment(s);
    } else {
      StripTriviaStops(s);
      ReadGroupEndExact(s);
    }
  }

  lemma OpenTrivia(s: string, groupEnd: int)
    requires groupEnd <= |s| && TokenEnd(s, groupEnd) == 0 && StartsTrivia(s)
    ensures OpenComment(s)
  {
    if OpensLine(s) {
      LineEndExact(s, 0);
      assert s[0..|s|] == s;
    }
  }

  /** The scan for separators finds behind p just what follows it exactly when p is a run of options for that scan. */
  lemma {:induction false} ReadOptionsExact(p: string, w: string)
    requires WordsEnd(p) && StartsWord(w) && !IsOptionWord(w[..WordLength(w)])
    ensures ReadOptions(p + w) == w <==> OptionRun(p)
    decreases |p|
  {
    var x := p + w;
    if p == "" {
      assert x == w;
      StripTriviaStops(w);
    } else {
      TokenFront(p, w);
      var k := ReadTokenEnd(x);
      if k == 0 {
        NoTokenTaken(x);
      } else {
        TokenTaken(x);
        if k <= |p| {
          assert x[k..] == p[k..] + w;
          ReadOptionsExact(p[k..], w);
        }
      }
    }
  }

  // ---- the deciding word ----

  lemma GroupWordsEnd(g: string)
    requires IsGroup(g)
    ensures WordsEnd(g)
  {
    var n := |g| - 1;
    if n > 0 {
      assert Nest(g[..n]).depth != 0;
    }
  }

  /** In front of a word, options do not end with one. */
  lemma {:induction false} OptionsWordsEnd(options: seq<Token>, word: string)
    requires Options(options) && Separated(options, word) && IsWord(word)
    ensures WordsEnd(Print(options))
  {
    if options != [] {
      var t, more := options[0], Print(options[1..]);
      OptionsWordsEnd(options[1..], word);
      if |options| == 1 {
        assert more == "" && "" + word == word;
        if t.Group? {
          GroupWordsEnd(t.text);
        }
        assert Print(options) == t.Text();
      } else {
        assert more == options[1].Text() + Print(options[1..][1..]);
      }
    }
  }

  /** The word that decides behind an EXPLAIN is the first one that the scan for separators reads behind the options
      exactly when the options are a run of options for that scan. */
  lemma DecidingWordFirst(stmt: string, p: Phrase, rest: string)
    requires StartsWith(stmt, p, rest) && p.Explain?
    ensures stmt == Print(p.lead) + (p.keyword + (Print(p.options) + (p.word + rest)))
    ensures ReadOptions(Print(p.options) + (p.word + rest)) == p.word + rest <==> OptionRun(Print(p.options))
  {
    var w := p.word + rest;
    OptionsWordsEnd(p.options, p.word);
    WordLengthUnique(p.word, rest);
    assert w[..|p.word|] == p.word;
    ReadOptionsExact(Print(p.options), w);
    RegroupFour(Print(p.lead), p.keyword, Print(p.options), w);
    Regroup(Print(p.lead) + p.keyword + Print(p.options), p.word, rest);
  }

  /** The verdict on a statement whose options are read as the scan for separators reads them. */
  function ReadCheck(stmt: string): Verdict {
    var (kw, more) := Keyword(stmt);
    if kw == "EXPLAIN" then Judge(Keyword(ReadOptions(more)).0) else Judge(kw)
  }

  /** The options of a phrase, if it has any, are read alike by the code and by the scan for separators. */
  ghost predicate RunsOut(p: Phrase) {
    p.Explain? ==> OptionRun(Print(p.options))
  }

  /** Where the options are such a run, both ways of reading them give the same verdict. */
  lemma SameVerdict(stmt: string, p: Phrase, rest: string)
    requires StartsWith(stmt, p, rest) && RunsOut(p)
    ensures ReadCheck(stmt) == Check(stmt, 0) == Judge(ToUpper(p.word))
  {
    StatementVerdict(stmt, p, rest);
    if p.Query? {
      Regroup(Print(p.lead), p.word, rest);
      KeywordAfter(p.lead, p.word, rest);
    } else {
      var w := p.word + rest;
      DecidingWordFirst(stmt, p, rest);
      SeparatedBefore(p.options, p.word, rest);
      Regroup(Print(p.options), p.word, rest);
      StartsWordOfFront(Print(p.options) + p.word, rest);
      KeywordAfter(p.lead, p.keyword, Print(p.options) + w);
      KeywordFirst(p.word, rest);
    }
  }

  lemma WordReadOutside(stmt: string, p: Phrase, rest: string)
    requires StartsWith(stmt, p, rest) && RunsOut(p)
    ensures WordOutside(stmt, |FrontOf(p)|, |FrontOf(p) + p.word|)
  {
    DecidingWordRead(stmt, p, rest);
    if p.Explain? {
      RunEndsNormal(Print(p.options));
      FrontNeutral(Head(p.lead, p.keyword, p.options));
      AfterConcat(Normal, Print(p.lead) + p.keyword, Print(p.options));
    }
  }

  /** An accepted text holds a statement whose deciding word is allow-listed. Where its options are such a run, that is
      the first word that the scan for separators reads behind them, and it reads it outside quotes and comments. */
  lemma AcceptedReads(sql: string)
    requires Validate(sql) == Accept
    ensures Extract(sql).Statement? && exists p, rest :: StartsWith(Extract(sql).text, p, rest)
    ensures forall p, rest :: StartsWith(Extract(sql).text, p, rest) ==>
              && SpellsReadOnly(p.word)
              && (RunsOut(p) ==> ReadCheck(Extract(sql).text) == Accept
                                 && WordOutside(Extract(sql).text, |FrontOf(p)|, |FrontOf(p) + p.word|))
  {
    var stmt := Extract(sql).text;
    var q, more := FindPhrase(stmt);
    forall p, rest | StartsWith(stmt, p, rest)
      ensures SpellsReadOnly(p.word)
      ensures RunsOut(p) ==> ReadCheck(stmt) == Accept && WordOutside(stmt, |FrontOf(p)|, |FrontOf(p) + p.word|)
    {
      StatementVerdict(stmt, p, rest);
      JudgeAccepts(ToUpper(p.word));
      if RunsOut(p) {
        SameVerdict(stmt, p, rest);
        WordReadOutside(stmt, p, rest);
      }
    }
  }

  // ---- what a run leaves behind ----

  lemma TokenLeavesNormal(s: string)
    requires ReadTokenEnd(s) > 0
    ensures After(Normal, s[..ReadTokenEnd(s)]) == Normal
  {
    var k := ReadTokenEnd(s);
    var front := s[..k];
    if IsWhite(s[0]) {
      TokenNeutral(White(s[0]));
      assert front == [s[0]];
    } else if OpensLine(s) {
      LineEndExact(s, 0);
      assert s[k - 1] in s;
      var t := ScanLineComment(s);
      SameLine(s, t);
      TokenNeutral(t);
    } else if OpensBlock(s) {
      BlockEndExact(s, 2);
      var t := BlockComment(s[2..k - 2]);
      forall j: nat | 0 <= j < |t.body| ensures !ClosesBlock(t.body, j) {
        assert !ClosesBlock(s, j + 2);
      }
      assert t.Text() == front;
      TokenNeutral(t);
    } else if s[0] == '(' {
      ReadGroupEndExact(s);
      GroupLeavesNormal(front);
    } else {
      PlainNeutral(front, k);
    }
  }

  lemma SameLine(s: string, t: Token)
    requires OpensLine(s) && LineEnd(s, 0) < |s| && t.LineComment? && t.Valid() && t.Text() <= s
    ensures t.Text() == s[..LineEnd(s, 0) + 1]
  {
    var e := |t.Text()| - 1;
    assert forall i :: 0 <= i < |t.Text()| ==> s[i] == t.Text()[i];
    assert s[0..e] == "--" + t.body;
    LineEndUnique(s, 0, e);
  }

  lemma GroupLeavesNormal(g: string)
    requires IsReadGroup(g)
    ensures After(Normal, g) == Normal
  {
    var n := |g| - 1;
    assert g[..0] == "";
    if n > 0 {
      assert Read(g[..n]).depth != 0;
    }
    ReadState(g);
  }

  /** A run of options leaves the scan for separators outside quotes and comments. */
  lemma {:induction false} RunEndsNormal(p: string)
    requires OptionRun(p)
    ensures After(Normal, p) == Normal
    decreases |p|
  {
    if p != "" {
      var k := ReadTokenEnd(p);
      TokenLeavesNormal(p);
      RunEndsNormal(p[k..]);
      AfterConcat(Normal, p[..k], p[k..]);
      Cut(p, k);
    }
  }

  // ---- groups that both scans read alike ----

  /** No parenthesis or single quote of g is read inside a comment or double quotes. */
  predicate Alike(g: string) {
    forall i :: 0 <= i < |g| ==> BytesAlike(g, i)
  }

  predicate BytesAlike(g: string, i: nat)
    requires i < |g|
  {
    g[i] in {'(', ')', '\''} ==> Outside(At(Normal, g, i)) || At(Normal, g, i) == Single
  }

  lemma {:induction false} NestAlike(g: string, k: nat)
    requires Alike(g) && k <= |g|
    ensures Read(g[..k]) == Reading(Nest(g[..k]).depth, At(Normal, g, k))
    ensures Nest(g[..k]).quoted <==> At(Normal, g, k) == Single
  {
    if k == 0 {
      assert g[..0] == "";
    } else {
      NestAlike(g, k - 1);
      assert BytesAlike(g, k - 1);
      assert g[..k][..k - 1] == g[..k - 1];
    }
  }

  lemma GroupAlike(g: string)
    requires Alike(g)
    ensures IsGroup(g) <==> IsReadGroup(g)
  {
    forall k: nat | k <= |g| ensures Nest(g[..k]).depth == Read(g[..k]).depth {
      NestAlike(g, k);
    }
    assert g[..|g|] == g;
  }

  lemma LineFits(body: string, more: string)
    requires '\n' !in body
    ensures ReadTokenEnd("--" + body + "\n" + more) == 3 + |body|
  {
    var x := "--" + body + "\n" + more;
    assert x[0..2 + |body|] == "--" + body;
    LineEndUnique(x, 0, 2 + |body|);
  }

  lemma BlockFits(body: string, more: string)
    requires NoCloser(body, 0, |body|)
    ensures ReadTokenEnd("/*" + body + "*/" + more) == 4 + |body|
  {
    var x := "/*" + body + "*/" + more;
    forall k: nat | 2 <= k < 2 + |body| ensures !ClosesBlock(x, k) {
      assert !ClosesBlock(body, k - 2);
    }
    assert ClosesBlock(x, 2 + |body|);
    BlockEndUnique(x, 2, 4 + |body|);
  }

  lemma GroupFits(g: string, more: string)
    requires IsReadGroup(g)
    ensures ReadTokenEnd(g + more) == |g|
  {
    var x := g + more;
    assert x[..|g|] == g && x[0] == '(';
    ReadGroupEndExact(x);
  }

  lemma OptionWordFits(w: string, more: string)
    requires IsWord(w) && IsOptionWord(w) && !StartsWord(more)
    ensures ReadTokenEnd(w + more) == |w|
  {
    WordLengthUnique(w, more);
    assert (w + more)[..|w|] == w && (w + more)[0] == w[0];
  }

  lemma TokenFits(t: Token, more: string)
    requires t.Valid() && (t.Group? ==> Alike(t.text)) && (t.OptionWord? ==> !StartsWord(more))
    ensures ReadTokenEnd(t.Text() + more) == |t.Text()|
  {
    match t
    case White(b) =>
    case LineComment(body) => LineFits(body, more);
    case BlockComment(body) => BlockFits(body, more);
    case Group(g) =>
      GroupAlike(g);
      GroupFits(g, more);
    case OptionWord(w) => OptionWordFits(w, more);
  }

  /** Options whose groups both scans read alike are such a run. */
  lemma {:induction false} AlikeIsRun(options: seq<Token>, word: string)
    requires Options(options) && Separated(options, word) && IsWord(word)
    requires forall t <- options :: t.Group? ==> Alike(t.text)
    ensures OptionRun(Print(options))
  {
    if options != [] {
      var t, more := options[0], Print(options[1..]);
      assert t in options && forall u <- options[1..] :: u in options;
      AlikeIsRun(options[1..], word);
      assert !StartsWord(more + word) ==> !StartsWord(more);
      TokenFits(t, more);
      assert (t.Text() + more)[|t.Text()|..] == more;
    }
  }

  // ---- a neutral group that hides a write ----

  /** A group that has not closed yet, for the code and for the scan for separators. */
  ghost predicate Unclosed(s: string) {
    s != "" && s[0] == '(' && forall k :: 0 < k <= |s| ==> Nest(s[..k]).depth > 0
  }

  ghost predicate ReadUnclosed(s: string) {
    s != "" && s[0] == '(' && forall k :: 0 < k <= |s| ==> Read(s[..k]).depth > 0
  }

  lemma UnclosedNext(s: string, b: char)
    requires Unclosed(s)
    ensures Nest(s + [b]) == NestStep(Nest(s), b)
    ensures if Nest(s + [b]).depth > 0 then Unclosed(s + [b]) else IsGroup(s + [b])
  {
    var x := s + [b];
    NestNext(s, b);
    assert forall k :: 0 < k <= |s| ==> x[..k] == s[..k];
    assert x[..|x|] == x && s[..|s|] == s;
  }

  lemma ReadUnclosedNext(s: string, b: char)
    requires ReadUnclosed(s)
    ensures Read(s + [b]) == ReadStep(Read(s), b)
    ensures if Read(s + [b]).depth > 0 then ReadUnclosed(s + [b]) else IsReadGroup(s + [b])
  {
    var x := s + [b];
    ReadNext(s, b);
    assert forall k :: 0 < k <= |s| ==> x[..k] == s[..k];
    assert x[..|x|] == x && s[..|s|] == s;
  }

  /** Nothing that the code looks at within a group. */
  predicate Calm(f: string) {
    '(' !in f && ')' !in f && '\'' !in f
  }

  lemma {:induction false} UnclosedCalm(s: string, f: string)
    requires Unclosed(s) && Calm(f)
    ensures Unclosed(s + f) && Nest(s + f) == Nest(s)
  {
    if f == "" {
      assert s + f == s;
    } else {
      var n := |f| - 1;
      UnclosedCalm(s, f[..n]);
      UnclosedNext(s + f[..n], f[n]);
      assert s + f == s + f[..n] + [f[n]];
    }
  }

  /** Read from state st, every parenthesis of f is inside quotes or a comment. */
  predicate Quiet(st: State, f: string) {
    forall i :: 0 <= i < |f| && (f[i] == '(' || f[i] == ')') ==> !Outside(At(st, f, i))
  }

  lemma {:induction false} ReadUnclosedQuiet(s: string, f: string)
    requires ReadUnclosed(s) && Quiet(Read(s).state, f)
    ensures ReadUnclosed(s + f) && Read(s + f) == Reading(Read(s).depth, After(Read(s).state, f))
  {
    var st := Read(s).state;
    if f == "" {
      assert s + f == s;
    } else {
      var n := |f| - 1;
      forall i | 0 <= i <= n ensures At(st, f[..n], i) == At(st, f, i) {
        AtPrefix(st, f, n, i);
      }
      ReadUnclosedQuiet(s, f[..n]);
      ReadUnclosedNext(s + f[..n], f[n]);
      assert s + f == s + f[..n] + [f[n]];
    }
  }

  lemma OnlyOpen()
    ensures Unclosed("(") && Nest("(") == Nesting(1, false)
    ensures ReadUnclosed("(") && Read("(") == Reading(1, Normal)
  {
    NestNext("", '(');
    ReadNext("", '(');
    assert "" + ['('] == "(" && "("[..1] == "(";
  }

  /** The code skips this group to its end; for the scan for separators the first part of it is a group, and what
      follows is outside. */
  const READ := "(TYPE LOGICAL /*(*/)"
  const SKIPPED := READ + " INSERT INTO t (a /*)*/)"

  lemma SkippedFills()
    ensures Calm("TYPE LOGICAL /*") && Calm("*/") && Calm(" INSERT INTO t ") && Calm("a /*")
  {
  }

  lemma ReadShape()
    ensures READ == "(" + "TYPE LOGICAL /*" + ['('] + "*/" + [')']
  {
  }

  lemma RestShape()
    ensures " INSERT INTO t (a /*)*/)" == " INSERT INTO t " + ['('] + "a /*" + [')'] + "*/" + [')']
  {
  }

  lemma SkippedIsGroup()
    ensures IsGroup(SKIPPED)
  {
    SkippedFills();
    ReadShape();
    RestShape();
    FourParens("TYPE LOGICAL /*", "*/", " INSERT INTO t ", "a /*");
  }

  lemma FourParens(f1: string, f2: string, f3: string, f4: string)
    requires Calm(f1) && Calm(f2) && Calm(f3) && Calm(f4)
    ensures IsGroup("(" + f1 + ['('] + f2 + [')'] + (f3 + ['('] + f4 + [')'] + f2 + [')']))
  {
    FourJoined("(" + f1 + ['('] + f2 + [')'], f2, f3, f4);
    OnlyOpen();
    UnclosedCalm("(", f1);
    UnclosedFill("(" + f1, '(', f2);
    UnclosedFill("(" + f1 + ['('] + f2, ')', f3);
    UnclosedFill("(" + f1 + ['('] + f2 + [')'] + f3, '(', f4);
    UnclosedFill("(" + f1 + ['('] + f2 + [')'] + f3 + ['('] + f4, ')', f2);
    UnclosedNext("(" + f1 + ['('] + f2 + [')'] + f3 + ['('] + f4 + [')'] + f2, ')');
  }

  lemma FourJoined(x: string, f2: string, f3: string, f4: string)
    ensures x + (f3 + ['('] + f4 + [')'] + f2 + [')']) == x + f3 + ['('] + f4 + [')'] + f2 + [')']
  {
  }

  lemma UnclosedFill(s: string, b: char, f: string)
    requires Unclosed(s) && NestStep(Nest(s), b).depth > 0 && Calm(f)
    ensures Unclosed(s + [b] + f) && Nest(s + [b] + f) == NestStep(Nest(s), b)
  {
    UnclosedNext(s, b);
    UnclosedCalm(s + [b], f);
  }

  /** The parentheses of a comment do not count. */
  lemma QuietComment(a: string, body: string)
    requires NoCloser(body, 0, |body|) && Calm(a) && forall i :: 0 <= i < |a| ==> Plain(a[i])
    ensures var x := a + ("/*" + body + "*/"); Quiet(Normal, x) && After(Normal, x) == Normal
  {
    var c := "/*" + body + "*/";
    var x := a + c;
    PlainNeutral(a, |a|);
    BlockCommentNeutral(body);
    AfterConcat(Normal, a, c);
    forall i | 0 <= i < |x| && (x[i] == '(' || x[i] == ')') ensures !Outside(At(Normal, x, i)) {
      AtBack(Normal, a, c, i - |a|);
      InComment(body, i - |a|);
    }
  }

  lemma InComment(body: string, i: nat)
    requires NoCloser(body, 0, |body|) && 2 <= i <= 2 + |body|
    ensures !Outside(At(Normal, "/*" + body + "*/", i))
  {
    var opening := "/*";
    assert At(Normal, opening, 1) == Slash && After(Normal, opening) == Block;
    AtFront(Normal, opening + body, "*/", i);
    AtBack(Normal, opening, body, i - 2);
    StaysInBlock(body, i - 2);
  }

  lemma CommentedGroup(a: string, body: string)
    requires NoCloser(body, 0, |body|) && Calm(a) && forall i :: 0 <= i < |a| ==> Plain(a[i])
    ensures IsReadGroup("(" + (a + ("/*" + body + "*/")) + [')'])
  {
    var f := a + ("/*" + body + "*/");
    OnlyOpen();
    QuietComment(a, body);
    ReadUnclosedQuiet("(", f);
    ReadUnclosedNext("(" + f, ')');
  }

  lemma ReadIsReadGroup()
    ensures IsReadGroup(READ)
  {
    CommentedGroup("TYPE LOGICAL ", "(");
    assert READ == "(" + ("TYPE LOGICAL " + ("/*" + "(" + "*/")) + [')'];
  }

  /** A comment between texts that leave the scan where it is. */
  lemma AroundComment(a: string, body: string, b: string)
    requires NoCloser(body, 0, |body|)
    requires forall i :: 0 <= i < |a| ==> Plain(a[i])
    requires forall i :: 0 <= i < |b| ==> Plain(b[i])
    ensures var x := a + ("/*" + body + "*/") + b; NoSeparator(Normal, x) && After(Normal, x) == Normal
  {
    PlainNeutral(a, |a|);
    PlainNeutral(b, |b|);
    BlockCommentNeutral(body);
    NeutralConcat(a, "/*" + body + "*/");
    NeutralConcat(a + ("/*" + body + "*/"), b);
  }

  lemma SkippedNeutral()
    ensures NoSeparator(Normal, SKIPPED) && After(Normal, SKIPPED) == Normal
  {
    var x := "(TYPE LOGICAL " + ("/*" + "(" + "*/") + ") INSERT INTO t (a ";
    var y := "" + ("/*" + ")" + "*/") + ")";
    AroundComment("(TYPE LOGICAL ", "(", ") INSERT INTO t (a ");
    AroundComment("", ")", ")");
    NeutralConcat(x, y);
    assert SKIPPED == x + y;
  }

  /** EXPLAIN and one group. */
  function Around(g: string): Head {
    Head([], "EXPLAIN", [White(' '), Group(g), White(' ')])
  }

  lemma AroundFits(g: string, inner: string)
    requires IsGroup(g)
    ensures Around(g).Fits(inner) && Around(g).Text() == "EXPLAIN" + (" " + (g + " "))
    ensures Print(Around(g).options) == " " + (g + " ")
  {
    var tail := [Group(g), White(' ')];
    assert Around(g).options[1..] == tail && tail[1..] == [White(' ')];
    SpacePrints();
    assert Print(tail) == g + " ";
    assert Print([]) + "EXPLAIN" == "EXPLAIN";
    assert Separated([White(' ')], inner) && Separated(tail, inner);
    assert ToUpper("EXPLAIN") == "EXPLAIN";
  }

  lemma AroundNeutral(g: string)
    requires NoSeparator(Normal, g) && After(Normal, g) == Normal
    ensures NoSeparator(Normal, "EXPLAIN" + (" " + (g + " "))) && After(Normal, "EXPLAIN" + (" " + (g + " "))) == Normal
  {
    PlainNeutral("EXPLAIN", 7);
    PlainNeutral(" ", 1);
    NeutralConcat(g, " ");
    NeutralConcat(" ", g + " ");
    NeutralConcat("EXPLAIN", " " + (g + " "));
  }

  lemma AroundAccepted(g: string, word: string, rest: string)
    requires IsGroup(g) && NoSeparator(Normal, g) && After(Normal, g) == Normal
    requires First(word, rest) && ToUpper(word) in READ_ONLY_KEYWORDS && ';' !in word + rest
    ensures Neutral(Around(g).Text()) && Validate(Around(g).Text() + (word + rest)) == Accept
  {
    AroundFits(g, word + rest);
    AroundNeutral(g);
    ExplainExact(Around(g), word, rest);
    NoSemicolon(Normal, word + rest);
    NoFirstSeparator(word + rest);
    EmptyEnds();
  }

  lemma SpacedRun(g: string)
    requires IsReadGroup(g)
    ensures OptionRun(" " + (g + " "))
  {
    var x := g + " ";
    assert x[..|g|] == g && x[|g|..] == " ";
    assert (" " + x)[1..] == x && " "[1..] == "";
    ReadGroupEndExact(x);
    assert OptionRun("") && OptionRun(" ") && OptionRun(x);
  }

  lemma Spaced(g: string, w: string)
    ensures " " + (g + " ") + w == " " + (g + (" " + w))
  {
  }

  lemma ReadsFirst(p: string, word: string, more: string)
    requires OptionRun(p) && WordsEnd(p) && First(word, more)
    ensures ReadOptions(p + (word + more)) == word + more
  {
    WordLengthUnique(word, more);
    assert (word + more)[..|word|] == word;
    ReadOptionsExact(p, word + more);
  }

  /** A group g whose first part, without more, is a group for the scan for separators: that scan finds a word within g
      where the code finds one behind g. */
  lemma ReadsBehind(g: string, part: string, word: string, more: string, w: string)
    requires IsReadGroup(part) && g + (" " + w) == part + (" " + (word + more))
    requires First(word, more) && StartsWord(w) && !IsOptionWord(w[..WordLength(w)]) && w != word + more
    ensures " " + (g + " ") + w == " " + (part + " ") + (word + more)
    ensures ReadOptions(" " + (g + " ") + w) == word + more && !OptionRun(" " + (g + " "))
  {
    Spaced(g, w);
    Spaced(part, word + more);
    SpacedRun(part);
    ReadsFirst(" " + (part + " "), word, more);
    ReadOptionsExact(" " + (g + " "), w);
  }

  lemma PartRead(part: string, word: string, more: string)
    requires IsReadGroup(part) && IsWord(word)
    ensures var q := "EXPLAIN" + (" " + (part + " ")); WordOutside(q + (word + more), |q|, |q| + |word|)
  {
    var q := " " + (part + " ");
    SpacedRun(part);
    RunEndsNormal(q);
    PlainNeutral("EXPLAIN", 7);
    AfterConcat(Normal, "EXPLAIN", q);
    WordRead("EXPLAIN" + q, word, more);
  }

  lemma ExplainReadCheck(options: string, word: string, more: string)
    requires !StartsWord(options) && ReadOptions(options) == word + more && IsWord(word) && !StartsWord(more)
    ensures ReadCheck("EXPLAIN" + options) == Judge(ToUpper(word))
  {
    ExplainIsWord();
    KeywordFirst("EXPLAIN", options);
    KeywordFirst(word, more);
  }

  const WRITE_BEHIND := " INTO t (a /*)*/) SELECT 1"

  lemma InsertIsFirst()
    ensures First("INSERT", WRITE_BEHIND) && Judge(ToUpper("INSERT")) == Reject(NotReadOnly("INSERT"))
  {
    assert ToUpper("INSERT") == "INSERT";
    assert "INSERT"[0] == 'I' && "ANALYZE"[0] == 'A' && "VERBOSE"[0] == 'V';
  }

  lemma SkippedSplits()
    ensures SKIPPED + (" " + ("SELECT" + " 1")) == READ + (" " + ("INSERT" + WRITE_BEHIND))
  {
    var a, b := " INSERT INTO t (a /*)*/)", " " + ("SELECT" + " 1");
    Regroup(READ, a, b);
    assert a + b == " " + ("INSERT" + WRITE_BEHIND);
  }

  /** What ReadsBehind means for EXPLAIN with the group g: the word within g is outside, and decides for that scan. */
  lemma WordWithin(g: string, part: string, word: string, more: string, w: string)
    requires IsReadGroup(part) && g + (" " + w) == part + (" " + (word + more))
    requires First(word, more) && StartsWord(w) && !IsOptionWord(w[..WordLength(w)]) && w != word + more
    ensures var p, q := " " + (g + " "), "EXPLAIN" + (" " + (part + " "));
      var x := "EXPLAIN" + p + w;
      && x == q + (word + more) && WordOutside(x, |q|, |q| + |word|)
      && !OptionRun(p) && ReadCheck(x) == Judge(ToUpper(word))
  {
    var p, q := " " + (g + " "), " " + (part + " ");
    ReadsBehind(g, part, word, more, w);
    Regroup("EXPLAIN", p, w);
    Regroup("EXPLAIN", q, word + more);
    PartRead(part, word, more);
    ExplainReadCheck(p + w, word, more);
  }

  lemma InsertBehind()
    ensures var p, q := " " + (SKIPPED + " "), "EXPLAIN" + (" " + (READ + " "));
      var x := "EXPLAIN" + p + ("SELECT" + " 1");
      && x == q + ("INSERT" + WRITE_BEHIND) && WordOutside(x, |q|, |q| + 6)
      && !OptionRun(p) && ReadCheck(x) == Reject(NotReadOnly("INSERT"))
  {
    ReadIsReadGroup();
    SkippedSplits();
    InsertIsFirst();
    SelectStarts();
    WordWithin(SKIPPED, READ, "INSERT", WRITE_BEHIND, "SELECT" + " 1");
  }

  lemma SelectStarts()
    ensures var w := "SELECT" + " 1"; StartsWord(w) && !IsOptionWord(w[..WordLength(w)]) && w != "INSERT" + WRITE_BEHIND
  {
    var w := "SELECT" + " 1";
    SelectIsFirst(" 1");
    WordLengthUnique("SELECT", " 1");
    assert w[..6] == "SELECT";
    assert ("INSERT" + WRITE_BEHIND)[0] == 'I';
  }

  lemma SkippedAccepted()
    ensures var h := Around(SKIPPED);
      && h.Valid() && Neutral(h.Text()) && Transparent(h) && Validate(h.Text() + ("SELECT" + " 1")) == Accept
      && h.Text() == "EXPLAIN" + Print(h.options) && Print(h.options) == " " + (SKIPPED + " ")
  {
    SkippedIsGroup();
    SkippedNeutral();
    SelectIsFirst(" 1");
    AroundFits(SKIPPED, " ");
    AroundAccepted(SKIPPED, "SELECT", " 1");
    TransparentExact(Around(SKIPPED));
  }

  /** Neutrality is not enough: this text is accepted and its EXPLAIN is transparent, but the first word that the scan
      for separators reads behind the options is INSERT. */
  lemma NeutralGroupHidesWrite()
    ensures var h, q := Around(SKIPPED), "EXPLAIN" + (" " + (READ + " "));
      var x := h.Text() + ("SELECT" + " 1");
      && h.Valid() && Neutral(h.Text()) && Transparent(h) && Validate(x) == Accept
      && x == q + ("INSERT" + WRITE_BEHIND) && WordOutside(x, |q|, |q| + 6)
      && !OptionRun(Print(h.options)) && ReadCheck(x) == Reject(NotReadOnly("INSERT"))
  {
    SkippedAccepted();
    InsertBehind();
  }
}
