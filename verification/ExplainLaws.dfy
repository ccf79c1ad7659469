/**
 EXPLAIN in front of a statement. The scan for separators respects both kinds of quotes and comments, but the
 scan that skips an option group respects single quotes only. A group can leave the two out of step; these laws
 say exactly what is accepted then, and when EXPLAIN is transparent.
 */
module ExplainLaws {
  import opened GoStrings
  import opened Lexer
  import opened Guard
  import opened Grammar
  import opened Acceptance
  import opened Language
  import opened GuardLaws

  /** EXPLAIN and its options. */
  datatype Head = Head(lead: seq<Token>, keyword: string, options: seq<Token>) {
    function Text(): string {
      Print(lead) + keyword + Print(options)
    }

    /** The tokens are complete and end where inner begins. */
    ghost predicate Fits(inner: string) {
      && Trivia(lead) && IsWord(keyword) && SpellsExplain(keyword)
      && Options(options) && Separated(options, inner) && !StartsWord(Print(options) + inner)
    }

    ghost predicate Valid() {
      Fits(" ")
    }

    /** The same head with the trivia of a statement taken as further options. */
    function With(gap: seq<Token>): Head {
      Head(lead, keyword, options + gap)
    }
  }

  /** The first word of a statement, which is no option of EXPLAIN. */
  ghost predicate First(word: string, rest: string) {
    IsWord(word) && !SpellsOption(word) && !StartsWord(rest)
  }

  // ---- the head and what follows it ----

  lemma WordInFront(st: State, word: string, rest: string) returns (front: string)
    requires First(word, rest)
    ensures InFront(st, word + rest) == word + front && First(word, front)
  {
    var k := Separator(st, word + rest, 0);
    LeastSeparator(st, word + rest);
    assert forall i :: 0 <= i < |word| ==> (word + rest)[i] == word[i];
    if k < 0 {
      front := rest;
    } else {
      front := rest[..k - |word|];
      SplitAt(word, rest, k - |word|);
    }
  }

  // ---- a separator inside the head ----

  /** A ';' among the options lies in a group or a comment, and what comes before it there leaves nothing to check. */
  lemma CutToken(t: Token, j: nat)
    requires t.Valid() && j < |t.Text()| && t.Text()[j] == ';'
    ensures |StripOptions(t.Text()[..j])| == 0
  {
    var c := t.Text()[..j];
    assert |StripOptions("")| == 0;
    match t
    case White(b) =>
    case OptionWord(w) =>
    case Group(g) => CutGroup(g, j);
    case LineComment(body) =>
      assert OpenComment(c) by {
        assert forall i :: 2 <= i < j ==> c[i] == body[i - 2];
      }
      StripOpenComment(c);
    case BlockComment(body) =>
      CutBlock(body, j);
      StripOpenComment(c);
  }

  lemma CutGroup(g: string, j: nat)
    requires IsGroup(g) && j < |g| && g[j] == ';'
    ensures |StripOptions(g[..j])| == 0
  {
    var c := g[..j];
    GroupEndExact(c);
    forall k | 0 < k <= |c| ensures Nest(c[..k]).depth != 0 {
      assert c[..k] == g[..k];
    }
    StripTriviaStops(c);
    assert StripOptions(c) == StripOptions("");
  }

  lemma CutBlock(body: string, j: nat)
    requires NoCloser(body, 0, |body|)
    requires var text := "/*" + body + "*/"; j < |text| && text[j] == ';'
    ensures OpenComment(("/*" + body + "*/")[..j])
  {
    var text := "/*" + body + "*/";
    var c := text[..j];
    forall k: nat | 2 <= k < |c| ensures !ClosesBlock(c, k) {
      if k < 2 + |body| {
        assert !ClosesBlock(body, k - 2);
      }
    }
  }

  lemma {:induction false} CutOptions(options: seq<Token>, inner: string, j: nat)
    requires Options(options) && Separated(options, inner) && j < |Print(options)| && Print(options)[j] == ';'
    ensures |StripOptions(Print(options)[..j])| == 0
  {
    var t, more := options[0], Print(options[1..]);
    var n := |t.Text()|;
    if j < n {
      assert Print(options)[..j] == t.Text()[..j];
      CutToken(t, j);
    } else {
      CutOptions(options[1..], inner, j - n);
      var front := more[..j - n];
      assert Print(options)[..j] == t.Text() + front;
      match t
      case Group(g) => StripGroup(g, front);
      case OptionWord(w) =>
        assert (more + inner)[0] == more[0];
        StripOptionWord(w, front);
      case _ => StripToken(t, front);
    }
  }

  lemma CheckNoWord(lead: seq<Token>, keyword: string, more: string)
    requires Trivia(lead) && IsWord(keyword) && ToUpper(keyword) == "EXPLAIN" && !StartsWord(more)
    requires |StripOptions(more)| == 0
    ensures Check(Print(lead) + (keyword + more), 0) != Accept
  {
    KeywordAfter(lead, keyword, more);
    assert StripOptions(more) == "" && StripTrivia("") == "";
  }

  lemma FrontNeutral(h: Head)
    requires Trivia(h.lead) && IsWord(h.keyword)
    ensures var front := Print(h.lead) + h.keyword; NoSeparator(Normal, front) && After(Normal, front) == Normal
  {
    TriviaNeutral(h.lead);
    PlainNeutral(h.keyword, |h.keyword|);
    NeutralConcat(Print(h.lead), h.keyword);
  }

  /** The first separator of a head is behind its keyword, and cuts any text that the head starts. */
  lemma CutHead(h: Head, inner: string) returns (j: nat)
    requires Trivia(h.lead) && IsWord(h.keyword) && !NoSeparator(Normal, h.Text())
    ensures j < |Print(h.options)| && Print(h.options)[j] == ';'
    ensures Before(h.Text() + inner) == Print(h.lead) + h.keyword + Print(h.options)[..j]
  {
    var p, front := h.Text(), Print(h.lead) + h.keyword;
    FrontNeutral(h);
    NoSeparatorConcat(Normal, front, Print(h.options));
    FirstSeparatorIsLeast(Print(h.options));
    j := FirstSeparator(Print(h.options));
    FoundBehind(front, Print(h.options), j);
    FirstSeparatorStays(p, inner);
    SeparatorFound(Normal, p + inner, |front| + j);
    SplitAt(front, Print(h.options), j);
    assert (p + inner)[..|front| + j] == p[..|front| + j];
  }

  /** A head that holds a separator is never accepted, whatever follows. */
  lemma SeparatorInHead(h: Head, inner: string)
    requires h.Fits(inner) && !NoSeparator(Normal, h.Text())
    ensures Check(Before(h.Text() + inner), 0) != Accept
  {
    var j := CutHead(h, inner);
    CutOptions(h.options, inner, j);
    Regroup(Print(h.lead), h.keyword, Print(h.options)[..j]);
    assert (Print(h.options) + inner)[0] == Print(h.options)[0];
    CheckNoWord(h.lead, h.keyword, Print(h.options)[..j]);
  }

  // ---- the exact law ----

  lemma HeadChecked(h: Head, word: string, rest: string, front: string)
    requires h.Fits(word + rest) && First(word, rest) && First(word, front)
    ensures Check(h.Text() + (word + front), 0) == Judge(ToUpper(word))
  {
    SeparatedBefore(h.options, word, rest);
    SeparatedBefore(h.options, word, front);
    Regroup(Print(h.options), word, rest);
    Regroup(Print(h.options), word, front);
    StartsWordOfFront(Print(h.options) + word, rest);
    StartsWordOfFront(Print(h.options) + word, front);
    StripTriviaStops(word + front);
    WordLengthUnique(word, front);
    assert (word + front)[..|word|] == word;
    CheckExplain(h.lead, h.keyword, h.options, word + front);
    RegroupFour(Print(h.lead), h.keyword, Print(h.options), word + front);
  }

  lemma HeadPasses(h: Head, word: string, rest: string)
    requires h.Fits(word + rest) && First(word, rest)
    ensures Validate(h.Text() + (word + rest)) == Accept <==> Passes(h.Text() + (word + rest))
  {
    AsciiWord(h.lead, h.keyword, Print(h.options) + (word + rest));
    RegroupFour(Print(h.lead), h.keyword, Print(h.options), word + rest);
    PassesUntrimmed(h.Text() + (word + rest));
    ValidatePasses(h.Text() + (word + rest));
  }

  /** EXPLAIN with any options, groups included, before a word: accepted exactly when the head holds no separator, the
      word is allow-listed, and nothing but an ending is behind the first separator that the scan meets from the
      state in which it leaves the head. */
  lemma ExplainExact(h: Head, word: string, rest: string)
    requires h.Fits(word + rest) && First(word, rest)
    ensures Validate(h.Text() + (word + rest)) == Accept <==>
            && NoSeparator(Normal, h.Text()) && SpellsReadOnly(word)
            && Ending(InBack(After(Normal, h.Text()), word + rest))
  {
    var p := h.Text();
    HeadPasses(h, word, rest);
    if NoSeparator(Normal, p) {
      SplitBehind(p, word + rest);
      var front := WordInFront(After(Normal, p), word, rest);
      HeadChecked(h, word, rest, front);
      JudgeAccepts(ToUpper(word));
      EndingExact(InBack(After(Normal, p), word + rest));
    } else {
      SeparatorInHead(h, word + rest);
    }
  }

  // ---- when EXPLAIN is transparent ----

  /** The scan leaves p with no separator behind it, outside quotes and comments. */
  predicate Neutral(p: string) {
    NoSeparator(Normal, p) && Outside(After(Normal, p))
  }

  /** EXPLAIN changes nothing for this statement, unless the statement is an EXPLAIN itself. */
  predicate TransparentOn(h: Head, gap: seq<Token>, word: string, rest: string) {
    var s := Print(gap) + (word + rest);
    Validate(h.Text() + s) == Accept <==> Validate(s) == Accept && !SpellsExplain(word)
  }

  /** EXPLAIN changes nothing for any statement that can follow the head. */
  ghost predicate Transparent(h: Head) {
    forall gap, word, rest :: Trivia(gap) && First(word, rest) && h.Fits(Print(gap) + (word + rest)) ==>
                                TransparentOn(h, gap, word, rest)
  }

  /** A statement without EXPLAIN: accepted exactly when its word is allow-listed and it ends properly. */
  lemma PlainExact(gap: seq<Token>, word: string, rest: string)
    requires Trivia(gap) && First(word, rest) && ToUpper(word) != "EXPLAIN"
    ensures Validate(Print(gap) + (word + rest)) == Accept <==>
            ToUpper(word) in READ_ONLY_KEYWORDS && Ending(InBack(Normal, word + rest))
  {
    var s := Print(gap) + (word + rest);
    AsciiWord(gap, word, rest);
    PassesUntrimmed(s);
    ValidatePasses(s);
    TriviaNeutral(gap);
    SplitBehind(Print(gap), word + rest);
    var front := WordInFront(Normal, word, rest);
    KeywordAfter(gap, word, front);
    assert Check(Print(gap) + (word + front), 0) == Judge(ToUpper(word));
    JudgeAccepts(ToUpper(word));
    EndingExact(InBack(Normal, word + rest));
  }

  /** Two states that agree after the first byte read the rest of a text alike. */
  lemma {:induction false} AtAlike(st1: State, st2: State, s: string, i: nat)
    requires 1 <= i <= |s| && Step(st1, s[0]) == Step(st2, s[0])
    ensures At(st1, s, i) == At(st2, s, i)
  {
    if i > 1 {
      AtAlike(st1, st2, s, i - 1);
    } else {
      assert At(st1, s, 0) == st1 && At(st2, s, 0) == st2;
    }
  }

  lemma ReadAlike(st1: State, st2: State, s: string)
    requires s != "" && s[0] != ';' && Step(st1, s[0]) == Step(st2, s[0])
    ensures After(st1, s) == After(st2, s) && Separator(st1, s, 0) == Separator(st2, s, 0)
    ensures NoSeparator(st1, s) <==> NoSeparator(st2, s)
  {
    AtAlike(st1, st2, s, |s|);
    LeastSeparator(st1, s);
    LeastSeparator(st2, s);
    forall k: nat | k < |s| ensures SeparatorAt(st1, s, k) == SeparatorAt(st2, s, k) {
      if k > 0 {
        AtAlike(st1, st2, s, k);
      }
    }
  }

  lemma LineCommentAfterDash(body: string)
    requires '\n' !in body
    ensures var s := "--" + body + "\n"; NoSeparator(Dash, s) && After(Dash, s) == Normal
  {
    var dashed := "-" + body;
    assert '\n' !in dashed;
    LineCommentNeutral(body);
    StaysInLine(dashed, |dashed|);
    forall k: nat | k < |dashed| ensures !SeparatorAt(Line, dashed, k) {
      StaysInLine(dashed, k);
    }
    assert At(Dash, "-", 0) == Dash && After(Dash, "-") == Line;
    AfterConcat(Dash, "-", dashed);
    NoSeparatorConcat(Dash, "-", dashed);
    assert At(Line, "\n", 0) == Line && After(Line, "\n") == Normal;
    AfterConcat(Dash, "-" + dashed, "\n");
    NoSeparatorConcat(Dash, "-" + dashed, "\n");
    assert "--" + body + "\n" == "-" + dashed + "\n";
  }

  lemma TokenFromOutside(st: State, t: Token)
    requires Outside(st) && t.Valid() && t.IsTrivia()
    ensures NoSeparator(st, t.Text()) && After(st, t.Text()) == Normal
  {
    TokenNeutral(t);
    if st.Dash? && t.LineComment? {
      LineCommentAfterDash(t.body);
    } else {
      ReadAlike(st, Normal, t.Text());
    }
  }

  lemma {:induction false} TriviaFromOutside(st: State, tokens: seq<Token>)
    requires Outside(st) && Trivia(tokens)
    ensures NoSeparator(st, Print(tokens)) && Outside(After(st, Print(tokens)))
    decreases |tokens|
  {
    if tokens != [] {
      TokenFromOutside(st, tokens[0]);
      TriviaFromOutside(Normal, tokens[1..]);
      AfterConcat(st, tokens[0].Text(), Print(tokens[1..]));
      NoSeparatorConcat(st, tokens[0].Text(), Print(tokens[1..]));
    }
  }

  lemma {:induction false} SeparatedJoin(options: seq<Token>, gap: seq<Token>, tail: string)
    requires Trivia(gap) && Separated(options, Print(gap) + tail)
    ensures Separated(options + gap, tail)
  {
    if options == [] {
      assert options + gap == gap;
      SeparatedTrivia(gap, tail);
    } else {
      assert (options + gap)[1..] == options[1..] + gap;
      SeparatedJoin(options[1..], gap, tail);
      PrintConcat(options[1..], gap);
      Regroup(Print(options[1..]), Print(gap), tail);
    }
  }

  /** Trivia in front of a statement can be counted to the head. */
  lemma FitsWith(h: Head, gap: seq<Token>, tail: string)
    requires Trivia(gap) && h.Fits(Print(gap) + tail)
    ensures h.With(gap).Fits(tail) && h.With(gap).Text() == h.Text() + Print(gap)
    ensures h.With(gap).Text() + tail == h.Text() + (Print(gap) + tail)
  {
    SeparatedJoin(h.options, gap, tail);
    PrintConcat(h.options, gap);
    Regroup(Print(h.options), Print(gap), tail);
    Regroup(Print(h.lead) + h.keyword, Print(h.options), Print(gap));
    Regroup(h.Text(), Print(gap), tail);
  }

  lemma NeutralIsTransparent(h: Head, gap: seq<Token>, word: string, rest: string)
    requires Neutral(h.Text()) && Trivia(gap) && First(word, rest) && h.Fits(Print(gap) + (word + rest))
    ensures TransparentOn(h, gap, word, rest)
  {
    var p, tail := h.Text(), word + rest;
    FitsWith(h, gap, tail);
    ExplainExact(h.With(gap), word, rest);
    TriviaFromOutside(After(Normal, p), gap);
    NoSeparatorConcat(Normal, p, Print(gap));
    AfterConcat(Normal, p, Print(gap));
    ReadAlike(After(Normal, p + Print(gap)), Normal, tail);
    JudgeAccepts("EXPLAIN");
    if ToUpper(word) != "EXPLAIN" {
      PlainExact(gap, word, rest);
    }
  }

  // ---- a head that is not neutral ----

  const TWO := " x;SHOW"

  lemma FitsSpace(h: Head, rest: string)
    requires h.Valid()
    ensures h.Fits(Print([White(' ')]) + ("SHOW" + rest)) && Trivia([White(' ')]) && Print([White(' ')]) == " "
  {
    var tail := "SHOW" + rest;
    SpacePrints();
    SeparatedBefore(h.options, " ", tail);
    Regroup(Print(h.options), " ", tail);
    StartsWordOfFront(Print(h.options) + " ", tail);
  }

  lemma SpacePrints()
    ensures Trivia([White(' ')]) && Print([White(' ')]) == " "
  {
    assert [White(' ')][1..] == [];
    assert [' '] + Print([]) == " ";
  }

  lemma ShowIsFirst(rest: string)
    requires !StartsWord(rest)
    ensures First("SHOW", rest) && ToUpper("SHOW") in READ_ONLY_KEYWORDS && ToUpper("SHOW") != "EXPLAIN"
  {
    assert ToUpper("SHOW") == "SHOW";
    assert ToUpper("SHOW")[0] == 'S' && "EXPLAIN"[0] == 'E' && "ANALYZE"[0] == 'A' && "VERBOSE"[0] == 'V';
  }

  /** Bytes that never take the automaton out of a literal or comment. */
  lemma {:induction false} StaysSealed(st: State, s: string, i: nat)
    requires !Outside(st) && i <= |s|
    requires forall j :: 0 <= j < |s| ==> s[j] != '\'' && s[j] != '"' && s[j] != '\n' && s[j] != '/'
    ensures !Outside(At(st, s, i))
  {
    if i > 0 {
      StaysSealed(st, s, i - 1);
    }
  }

  lemma SealedHasNoSeparator(st: State, s: string)
    requires !Outside(st)
    requires forall j :: 0 <= j < |s| ==> s[j] != '\'' && s[j] != '"' && s[j] != '\n' && s[j] != '/'
    ensures NoSeparator(st, s) && Separator(st, s, 0) < 0 && !Outside(After(st, s))
  {
    forall k: nat | k < |s| ensures !SeparatorAt(st, s, k) {
      StaysSealed(st, s, k);
    }
    StaysSealed(st, s, |s|);
    LeastSeparator(st, s);
  }

  lemma EmptyEnds()
    ensures Ending("")
  {
    EndingExact("");
    assert TrimRight("") == "" && StripTrivia("") == "";
  }

  lemma SecondRejected(one: string, other: string)
    requires NoSeparator(Normal, one) && After(Normal, one) == Normal && !Ending(other)
    ensures Validate(one + (";" + other)) == Reject(MultipleStatements)
  {
    SeparatorHere(one, ";" + other);
    SplitAt(one, ";" + other, 0);
    SeparatorFound(Normal, one + (";" + other), |one|);
    VerdictExact(one + (";" + other));
  }

  lemma WordIsNoEnding(word: string)
    requires IsWord(word)
    ensures !Ending(word)
  {
    EndingExact(word);
    assert TrailingSpace(word) == 0 && TrimRight(word) == word;
    StripTriviaStops(word);
  }

  lemma TwoSplits()
    ensures Print([White(' ')]) + ("SHOW" + TWO) == " SHOW x" + (";" + "SHOW")
    ensures NoSeparator(Normal, " SHOW x") && After(Normal, " SHOW x") == Normal
  {
    SpacePrints();
    PlainNeutral(" SHOW x", 7);
  }

  lemma TwoStatementsRejected()
    ensures Validate(Print([White(' ')]) + ("SHOW" + TWO)) == Reject(MultipleStatements)
  {
    TwoSplits();
    WordIsNoEnding("SHOW");
    SecondRejected(" SHOW x", "SHOW");
  }

  lemma OneStatementAccepted()
    ensures Validate(Print([White(' ')]) + ("SHOW" + " x")) == Accept
  {
    ShowIsFirst(" x");
    PlainExact([White(' ')], "SHOW", " x");
    NoSemicolon(Normal, "SHOW" + " x");
    NoFirstSeparator("SHOW" + " x");
    EmptyEnds();
  }

  /** A head with a separator of its own refuses a statement that is accepted without it. */
  lemma SeparatorBreaks(h: Head)
    requires h.Valid() && !NoSeparator(Normal, h.Text())
    ensures !Transparent(h)
  {
    var gap := [White(' ')];
    FitsSpace(h, " x");
    ShowIsFirst(" x");
    FitsWith(h, gap, "SHOW" + " x");
    NoSeparatorConcat(Normal, h.Text(), Print(gap));
    ExplainExact(h.With(gap), "SHOW", " x");
    OneStatementAccepted();
    assert !TransparentOn(h, gap, "SHOW", " x");
  }

  /** A head that leaves the scan inside a literal or comment accepts two statements as one. */
  lemma OpenHeadAccepts(h: Head)
    requires h.Valid() && NoSeparator(Normal, h.Text()) && !Outside(After(Normal, h.Text()))
    ensures Validate(h.Text() + (Print([White(' ')]) + ("SHOW" + TWO))) == Accept
  {
    var gap := [White(' ')];
    var st := After(Normal, h.Text());
    FitsSpace(h, TWO);
    ShowIsFirst(TWO);
    FitsWith(h, gap, "SHOW" + TWO);
    SealedHasNoSeparator(st, " ");
    NoSeparatorConcat(Normal, h.Text(), " ");
    AfterConcat(Normal, h.Text(), " ");
    SealedHasNoSeparator(After(st, " "), "SHOW" + TWO);
    ExplainExact(h.With(gap), "SHOW", TWO);
    EmptyEnds();
  }

  lemma OpenHeadBreaks(h: Head)
    requires h.Valid() && NoSeparator(Normal, h.Text()) && !Outside(After(Normal, h.Text()))
    ensures !Transparent(h)
  {
    var gap := [White(' ')];
    FitsSpace(h, TWO);
    ShowIsFirst(TWO);
    OpenHeadAccepts(h);
    TwoStatementsRejected();
    assert !TransparentOn(h, gap, "SHOW", TWO);
  }

  /** EXPLAIN with its options is transparent, for all statements, exactly when its head is neutral. */
  lemma TransparentExact(h: Head)
    requires h.Valid()
    ensures Transparent(h) <==> Neutral(h.Text())
  {
    if Neutral(h.Text()) {
      forall gap, word, rest | Trivia(gap) && First(word, rest) && h.Fits(Print(gap) + (word + rest))
        ensures TransparentOn(h, gap, word, rest)
      {
        NeutralIsTransparent(h, gap, word, rest);
      }
    } else if NoSeparator(Normal, h.Text()) {
      OpenHeadBreaks(h);
    } else {
      SeparatorBreaks(h);
    }
  }

  /** Without groups a head is always neutral. */
  lemma WordHeadNeutral(h: Head)
    requires h.Valid() && forall t <- h.options :: !t.Group?
    ensures Neutral(h.Text()) && Transparent(h)
  {
    FrontNeutral(h);
    WordOptionsNeutral(h.options);
    NeutralConcat(Print(h.lead) + h.keyword, Print(h.options));
    TransparentExact(h);
  }

  lemma {:induction false} WordOptionsNeutral(options: seq<Token>)
    requires Options(options) && forall t <- options :: !t.Group?
    ensures NoSeparator(Normal, Print(options)) && After(Normal, Print(options)) == Normal
  {
    if options != [] {
      var t := options[0];
      assert t in options && forall u <- options[1..] :: u in options;
      if t.OptionWord? {
        PlainNeutral(t.text, |t.text|);
      } else {
        TokenNeutral(t);
      }
      WordOptionsNeutral(options[1..]);
      NeutralConcat(t.Text(), Print(options[1..]));
    }
  }

  // ---- where the deciding word is read ----

  /** The byte at i is read outside quotes and comments. */
  predicate ReadOutside(x: string, i: int) {
    0 <= i < |x| && Outside(At(Normal, x, i))
  }

  predicate WordOutside(x: string, from: int, to: int) {
    forall i :: from <= i < to ==> ReadOutside(x, i)
  }

  /** A word behind p is read outside quotes and comments exactly when p is left there. */
  lemma WordRead(p: string, word: string, rest: string)
    requires IsWord(word)
    ensures WordOutside(p + (word + rest), |p|, |p| + |word|) <==> Outside(After(Normal, p))
  {
    var x := p + (word + rest);
    AtFront(Normal, p, word + rest, |p|);
    assert At(Normal, x, |p|) == After(Normal, p);
    if WordOutside(x, |p|, |p| + |word|) {
      assert ReadOutside(x, |p|);
    }
    if Outside(After(Normal, p)) {
      forall i | |p| <= i < |p| + |word| ensures ReadOutside(x, i) {
        WordStaysOutside(p, word, rest, i);
      }
    }
  }

  lemma {:induction false} WordStaysOutside(p: string, word: string, rest: string, i: nat)
    requires Outside(After(Normal, p)) && IsWord(word) && |p| <= i <= |p| + |word|
    ensures Outside(At(Normal, p + (word + rest), i))
  {
    var x := p + (word + rest);
    if i > |p| {
      WordStaysOutside(p, word, rest, i - 1);
      assert x[i - 1] == word[i - 1 - |p|];
    } else {
      AtFront(Normal, p, word + rest, i);
    }
  }

  /** What stands before the deciding word. */
  function FrontOf(p: Phrase): string {
    match p
    case Query(lead, _) => Print(lead)
    case Explain(lead, keyword, options, _) => Head(lead, keyword, options).Text()
  }

  /** The word that decides the verdict on a statement is read outside quotes and comments, except behind an EXPLAIN
      whose head leaves the scan inside one. */
  lemma DecidingWordRead(stmt: string, p: Phrase, rest: string)
    requires StartsWith(stmt, p, rest)
    ensures stmt == FrontOf(p) + p.word + rest
    ensures WordOutside(stmt, |FrontOf(p)|, |FrontOf(p) + p.word|) <==> p.Query? || Outside(After(Normal, FrontOf(p)))
  {
    assert p.Text() == FrontOf(p) + p.word;
    WordRead(FrontOf(p), p.word, rest);
    Regroup(FrontOf(p), p.word, rest);
    TriviaNeutral(p.lead);
  }

  // ---- groups that break it ----

  /** A group with a comment opener in it: balanced for the group scan, an open comment for the separator scan. */
  const OPENER := Head([], "EXPLAIN", [White(' '), Group("(/*)")])

  lemma OpenerHead()
    ensures OPENER.Valid() && OPENER.Text() == "EXPLAIN (/*)"
    ensures NoSeparator(Normal, OPENER.Text()) && After(Normal, OPENER.Text()) == Block
  {
    OpenerPrints();
    OpenerGroup();
    OpenerRead();
    assert ToUpper("EXPLAIN") == "EXPLAIN";
  }

  lemma OpenerPrints()
    ensures Print(OPENER.options) == " (/*)" && OPENER.Text() == "EXPLAIN (/*)"
  {
    assert OPENER.options[1..] == [Group("(/*)")];
    assert Print([Group("(/*)")]) == "(/*)" + Print([]) == "(/*)";
    assert " " + "(/*)" == " (/*)";
    assert Print([]) + "EXPLAIN" == "EXPLAIN";
  }

  lemma OpenerRead()
    ensures NoSeparator(Normal, "EXPLAIN (/*)") && After(Normal, "EXPLAIN (/*)") == Block
  {
    var front := "EXPLAIN (";
    PlainNeutral(front, |front|);
    var st := Step(Step(Step(Normal, '/'), '*'), ')');
    assert st == Block;
    var x := "EXPLAIN (/*)";
    assert x[..|front|] == front;
    AtFront(Normal, front, "/*)", |front|);
    assert front + "/*)" == x;
    assert At(Normal, x, 9) == Normal && At(Normal, x, 10) == Slash && At(Normal, x, 11) == Block;
    NoSemicolon(Normal, x);
  }

  lemma NestNext(s: string, b: char)
    ensures Nest(s + [b]) == NestStep(Nest(s), b)
  {
    assert (s + [b])[..|s|] == s;
  }

  lemma OpenerGroup()
    ensures IsGroup("(/*)")
  {
    var g := "(/*)";
    NestNext("", '(');
    NestNext("(", '/');
    NestNext("(/", '*');
    NestNext("(/*", ')');
    assert g[..1] == "" + ['('] && g[..2] == "(" + ['/'] && g[..3] == "(/" + ['*'] && g == "(/*" + [')'];
    assert g[..1] == "(" && g[..2] == "(/" && g[..3] == "(/*";
  }

  /** Two statements pass behind that head, though they do not pass alone: its group hides the separator. */
  lemma GroupHidesSeparator()
    ensures var s := " " + ("SHOW" + TWO);
      && Validate("EXPLAIN (/*)" + s) == Accept && Validate(s) == Reject(MultipleStatements)
  {
    OpenerHead();
    OpenHeadAccepts(OPENER);
    TwoStatementsRejected();
    SpacePrints();
  }

  lemma OpenerPhrase(word: string, rest: string)
    requires IsWord(word) && !IsOptionWord(word) && !StartsWord(rest)
    ensures OPENER.Fits(word + rest)
    ensures var p := Explain(OPENER.lead, OPENER.keyword, OPENER.options, word);
      StartsWith(OPENER.Text() + (word + rest), p, rest) && FrontOf(p) == OPENER.Text()
  {
    OpenerHead();
    OpenerPrints();
    assert OPENER.options[1..] == [Group("(/*)")];
    PhraseFits(OPENER.lead, OPENER.keyword, OPENER.options, word, rest);
    RegroupFour(Print(OPENER.lead), OPENER.keyword, Print(OPENER.options), word + rest);
  }

  lemma HiddenRead(rest: string)
    ensures var x := "EXPLAIN (/*)" + ("SELECT" + rest);
      forall i :: 12 <= i < 18 ==> !ReadOutside(x, i)
  {
    var p, word := "EXPLAIN (/*)", "SELECT";
    OpenerRead();
    forall i | 12 <= i < 18 ensures !ReadOutside(p + (word + rest), i) {
      AtBack(Normal, p, word + rest, i - 12);
      AtFront(Block, word, rest, i - 12);
      StaysInBlock(word, i - 12);
    }
  }

  const HIDDEN := "*/) DELETE FROM t"

  lemma HiddenLeft()
    ensures var q := "EXPLAIN (/*)" + "SELECT*/) "; After(Normal, q) == Normal
  {
    var word, closing := "SELECT", "*/) ";
    OpenerRead();
    StaysInBlock(word, |word|);
    assert At(Block, closing, 1) == Star && At(Block, closing, 2) == Normal && At(Block, closing, 3) == Normal;
    AfterConcat(Block, word, closing);
    assert "SELECT*/) " == word + closing;
    AfterConcat(Normal, "EXPLAIN (/*)", "SELECT*/) ");
  }

  lemma OpenerAccepts(word: string, rest: string)
    requires First(word, rest) && ToUpper(word) in READ_ONLY_KEYWORDS && ';' !in word + rest
    ensures Validate("EXPLAIN (/*)" + (word + rest)) == Accept
  {
    OpenerHead();
    OpenerPhrase(word, rest);
    ExplainExact(OPENER, word, rest);
    NoSemicolon(Block, word + rest);
    LeastSeparator(Block, word + rest);
    EmptyEnds();
  }

  lemma SelectIsFirst(rest: string)
    requires !StartsWord(rest)
    ensures First("SELECT", rest) && ToUpper("SELECT") in READ_ONLY_KEYWORDS
  {
    assert ToUpper("SELECT") == "SELECT";
    assert "SELECT"[0] == 'S' && "ANALYZE"[0] == 'A' && "VERBOSE"[0] == 'V';
  }

  lemma DeleteRejected()
    ensures Validate("DELETE" + " FROM t") == Reject(NotReadOnly("DELETE"))
  {
    var word, rest := "DELETE", " FROM t";
    assert ToUpper(word) == word;
    assert word[0] == 'D' && word[2] == 'L' && "DESC"[2] == 'S' && "DESCRIBE"[2] == 'S';
    NoSemicolon(Normal, word + rest);
    WordDecides(word, rest);
  }

  lemma HiddenSplits()
    ensures "EXPLAIN (/*)" + ("SELECT" + HIDDEN) == "EXPLAIN (/*)" + "SELECT*/) " + ("DELETE" + " FROM t")
  {
  }

  lemma DeleteRead()
    ensures WordOutside("EXPLAIN (/*)" + ("SELECT" + HIDDEN), 22, 28)
  {
    HiddenLeft();
    HiddenSplits();
    WordRead("EXPLAIN (/*)" + "SELECT*/) ", "DELETE", " FROM t");
  }

  /** Behind that head the deciding word can lie in a comment, and the one word outside can be one that is not
      allow-listed. */
  lemma GroupHidesWord()
    ensures var x := "EXPLAIN (/*)" + ("SELECT" + HIDDEN);
      && Validate(x) == Accept
      && StartsWith(x, Explain([], "EXPLAIN", OPENER.options, "SELECT"), HIDDEN)
      && (forall i :: 12 <= i < 18 ==> !ReadOutside(x, i))
      && WordOutside(x, 22, 28) && x == "EXPLAIN (/*)" + "SELECT*/) " + ("DELETE" + " FROM t")
    ensures Validate("DELETE" + " FROM t") == Reject(NotReadOnly("DELETE"))
  {
    SelectIsFirst(HIDDEN);
    OpenerAccepts("SELECT", HIDDEN);
    OpenerHead();
    OpenerPhrase("SELECT", HIDDEN);
    HiddenRead(HIDDEN);
    HiddenSplits();
    DeleteRead();
    DeleteRejected();
  }
}
