/** The statement checker: its verdict on every statement, and exactly the statements it accepts. */
module Acceptance {
  import opened GoStrings
  import opened Lexer
  import opened Guard
  import opened Grammar

  lemma KeywordAfter(lead: seq<Token>, word: string, more: string)
    requires Trivia(lead) && IsWord(word) && !StartsWord(more)
    ensures Keyword(Print(lead) + (word + more)) == (ToUpper(word), more)
  {
    var t := word + more;
    StripTokens(lead, t);
    StripTriviaStops(t);
    WordLengthUnique(word, more);
    assert t[..|word|] == word && t[|word|..] == more;
  }

  lemma KeywordFirst(word: string, more: string)
    requires IsWord(word) && !StartsWord(more)
    ensures Keyword(word + more) == (ToUpper(word), more)
  {
    KeywordAfter([], word, more);
    assert Print([]) + (word + more) == word + more;
  }

  lemma ExplainIsWord()
    ensures IsWord("EXPLAIN") && ToUpper("EXPLAIN") == "EXPLAIN"
  {
  }

  lemma {:induction false} SeparatedBefore(tokens: seq<Token>, word: string, rest: string)
    requires word != ""
    ensures Separated(tokens, word + rest) <==> Separated(tokens, word)
  {
    if tokens != [] {
      SeparatedBefore(tokens[1..], word, rest);
      Regroup(Print(tokens[1..]), word, rest);
      StartsWordOfFront(Print(tokens[1..]) + word, rest);
    }
  }

  lemma StartsWordOfFront(front: string, rest: string)
    requires front != ""
    ensures StartsWord(front + rest) <==> StartsWord(front)
  {
  }

  /** EXPLAIN and its options, then a word that is no option: the verdict is on that word. */
  lemma CheckExplain(lead: seq<Token>, keyword: string, options: seq<Token>, inner: string)
    requires Trivia(lead) && IsWord(keyword) && ToUpper(keyword) == "EXPLAIN"
    requires Options(options) && Separated(options, inner) && !StartsWord(Print(options) + inner)
    requires StartsWord(StripTrivia(inner)) && !IsOptionWord(StripTrivia(inner)[..WordLength(StripTrivia(inner))])
    ensures Check(Print(lead) + (keyword + (Print(options) + inner)), 0) == Judge(Keyword(inner).0)
  {
    KeywordAfter(lead, keyword, Print(options) + inner);
    StripOptionTokens(options, inner);
    assert StripOptions(inner) == StripTrivia(inner);
    StripTriviaMaximal(inner);
  }

  /** A phrase settles the verdict, whatever follows it. */
  lemma PhraseDecides(p: Phrase, rest: string)
    requires p.Valid() && !StartsWord(rest)
    ensures Check(p.Text() + rest, 0) == Judge(ToUpper(p.word))
  {
    match p
    case Query(lead, word) =>
      Regroup(Print(lead), word, rest);
      KeywordAfter(lead, word, rest);
    case Explain(lead, keyword, options, word) =>
      var inner := word + rest;
      SeparatedBefore(options, word, rest);
      Regroup(Print(options), word, rest);
      StartsWordOfFront(Print(options) + word, rest);
      StripTriviaStops(inner);
      WordLengthUnique(word, rest);
      assert inner[..|word|] == word;
      CheckExplain(lead, keyword, options, inner);
      RegroupFour(Print(lead), keyword, Print(options), inner);
      Regroup(Print(lead) + keyword + Print(options), word, rest);
  }

  lemma ScanKeyword(stmt: string) returns (lead: seq<Token>, word: string, more: string)
    requires Keyword(stmt).0 != ""
    ensures Trivia(lead) && IsWord(word) && !StartsWord(more)
    ensures stmt == Print(lead) + (word + more) && Keyword(stmt) == (ToUpper(word), more)
  {
    var t := StripTrivia(stmt);
    var open;
    lead, open := ParseTrivia(stmt);
    var n := WordLength(t);
    word, more := t[..n], t[n..];
    Cut(t, n);
    Regroup(Print(lead), open, t);
    assert "" + t == t;
  }

  /** Unless the statement type is unknown, the statement starts with a phrase. */
  lemma FindPhrase(stmt: string) returns (p: Phrase, rest: string)
    requires Check(stmt, 0) != Reject(UnknownStatement)
    ensures StartsWith(stmt, p, rest)
  {
    var lead, word, more := ScanKeyword(stmt);
    if ToUpper(word) != "EXPLAIN" {
      p, rest := Query(lead, word), more;
      Regroup(Print(lead), word, more);
    } else {
      var inner := StripOptions(more);
      assert Keyword(inner).0 != "";
      StripOptionsMaximal(more);
      StripTriviaStops(inner);
      var options := ParseOptions(more);
      var n := WordLength(inner);
      Cut(inner, n);
      rest := inner[n..];
      p := Explain(lead, word, options, inner[..n]);
      PhraseFits(lead, word, options, inner[..n], rest);
    }
  }

  lemma PhraseFits(lead: seq<Token>, keyword: string, options: seq<Token>, word: string, rest: string)
    requires Trivia(lead) && IsWord(keyword) && ToUpper(keyword) == "EXPLAIN"
    requires Options(options) && Separated(options, word + rest) && !StartsWord(Print(options) + (word + rest))
    requires IsWord(word) && !IsOptionWord(word) && !StartsWord(rest)
    ensures StartsWith(Print(lead) + (keyword + (Print(options) + (word + rest))),
                       Explain(lead, keyword, options, word), rest)
  {
    SeparatedBefore(options, word, rest);
    Regroup(Print(options), word, rest);
    StartsWordOfFront(Print(options) + word, rest);
    RegroupFour(Print(lead), keyword, Print(options), word + rest);
    Regroup(Print(lead) + keyword + Print(options), word, rest);
  }

  lemma StatementVerdict(stmt: string, p: Phrase, rest: string)
    requires StartsWith(stmt, p, rest)
    ensures Check(stmt, 0) == Judge(ToUpper(p.word)) && |ToUpper(p.word)| > 0
  {
    PhraseDecides(p, rest);
  }

  /** The checker's verdict on every statement: that of its phrase, and "unknown" when it has none. */
  lemma CheckExact(stmt: string)
    ensures Check(stmt, 0) == Reject(UnknownStatement) <==> forall p, rest :: !StartsWith(stmt, p, rest)
    ensures forall p, rest :: StartsWith(stmt, p, rest) ==> Check(stmt, 0) == Judge(ToUpper(p.word))
  {
    var v := Check(stmt, 0);
    forall p, rest | StartsWith(stmt, p, rest) ensures v == Judge(ToUpper(p.word)) && v != Reject(UnknownStatement) {
      StatementVerdict(stmt, p, rest);
    }
    if v != Reject(UnknownStatement) {
      var p, rest := FindPhrase(stmt);
    }
  }

  lemma JudgeAccepts(kw: string)
    ensures Judge(kw) == Accept <==> kw in READ_ONLY_KEYWORDS
  {
    assert "EXPLAIN"[0] == 'E';
    assert kw in READ_ONLY_KEYWORDS ==> |kw| > 0 && kw[0] in {'S', 'W', 'V', 'T', 'D'};
  }

  lemma AcceptsReadOnly(stmt: string)
    ensures Check(stmt, 0) == Accept <==> ReadOnlyStatement(stmt)
  {
    var v := Check(stmt, 0);
    if v == Accept {
      var p, rest := FindPhrase(stmt);
      StatementVerdict(stmt, p, rest);
      JudgeAccepts(ToUpper(p.word));
    }
    if ReadOnlyStatement(stmt) {
      var p, rest :| StartsWith(stmt, p, rest) && SpellsReadOnly(p.word);
      StatementVerdict(stmt, p, rest);
      JudgeAccepts(ToUpper(p.word));
    }
  }

  // ---- every verdict, from the spelling of one word ----

  /** Capital letters and '_' only. */
  predicate Capitals(k: string) {
    forall i :: 0 <= i < |k| ==> 'A' <= k[i] <= 'Z' || k[i] == '_'
  }

  lemma CapitalsUnique(w: string, k: string)
    requires IsWord(w)
    ensures Capitals(k) && Spells(w, k) <==> ToUpper(w) == k
  {
    if ToUpper(w) == k {
      assert forall i :: 0 <= i < |w| ==> ToUpper(w)[i] == k[i];
    }
  }

  /** The checker's verdict on every statement: accepted when its deciding word spells a read-only keyword in any letter
      case, a nested EXPLAIN when it spells that, refused under its capital spelling when it spells another word, and
      unknown when the statement starts with no phrase. */
  lemma ReasonsExact(stmt: string)
    ensures Check(stmt, 0) == Accept <==> ReadOnlyStatement(stmt)
    ensures Check(stmt, 0) == Reject(NestedExplain) <==>
            exists p, rest :: StartsWith(stmt, p, rest) && SpellsExplain(p.word)
    ensures forall k :: Check(stmt, 0) == Reject(NotReadOnly(k)) <==> Refused(stmt, k)
    ensures Check(stmt, 0) == Reject(UnknownStatement) <==> forall p, rest :: !StartsWith(stmt, p, rest)
  {
    CheckExact(stmt);
    AcceptsReadOnly(stmt);
    forall p, rest | StartsWith(stmt, p, rest)
      ensures Check(stmt, 0) == Reject(NestedExplain) <==> SpellsExplain(p.word)
      ensures forall k :: Check(stmt, 0) == Reject(NotReadOnly(k)) <==>
                Capitals(k) && Spells(p.word, k) && !SpellsReadOnly(p.word) && !SpellsExplain(p.word)
    {
      StatementVerdict(stmt, p, rest);
      JudgeAccepts(ToUpper(p.word));
      forall k ensures Capitals(k) && Spells(p.word, k) <==> ToUpper(p.word) == k {
        CapitalsUnique(p.word, k);
      }
    }
    if Check(stmt, 0) != Reject(UnknownStatement) {
      var p, rest := FindPhrase(stmt);
    }
  }

  /** The deciding word is k, in some letter case, and no keyword that is let through or nested. */
  ghost predicate Refused(stmt: string, k: string) {
    && Capitals(k)
    && exists p, rest :: StartsWith(stmt, p, rest) && Spells(p.word, k)
                         && !SpellsReadOnly(p.word) && !SpellsExplain(p.word)
  }
}
