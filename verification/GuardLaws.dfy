/** Laws of the guard: what may be added to a text without changing the verdict, and what each refusal means. */
module GuardLaws {
  import opened GoStrings
  import opened Lexer
  import opened Guard
  import opened Grammar
  import opened Acceptance
  import opened Language

  /** White space in front never changes the verdict. */
  lemma WhiteSpacePrefix(lead: string, s: string)
    requires Spaces(lead)
    ensures Validate(lead + s) == Validate(s)
  {
    TrimLeftAbsorbs(lead, s);
  }

  lemma {:induction false} DropWhitePast(tokens: seq<Token>, s: string)
    requires Trivia(tokens) && exists t <- tokens :: !t.White?
    ensures AsciiLead(Print(tokens) + s)
  {
    var x := Print(tokens) + s;
    var more := Print(tokens[1..]) + s;
    Regroup(tokens[0].Text(), Print(tokens[1..]), s);
    if tokens[0].White? {
      assert exists t <- tokens[1..] :: !t.White? by {
        var t :| t in tokens && !t.White?;
        assert t in tokens[1..];
      }
      DropWhitePast(tokens[1..], s);
      assert x[1..] == more;
    } else {
      assert Solid(x[0]);
    }
  }

  /** A comment in front keeps the verdict "accept" exactly when the text it is put before does not start with
      wide white space, which only the outer trimming removes. */
  lemma CommentPrefix(tokens: seq<Token>, s: string)
    requires Trivia(tokens) && exists t <- tokens :: !t.White?
    ensures Validate(Print(tokens) + s) == Accept <==> Validate(s) == Accept && AsciiLead(s)
  {
    ValidatePasses(s);
    ValidatePasses(Print(tokens) + s);
    PassesUntrimmed(s);
    DropWhitePast(tokens, s);
    PassesUntrimmed(Print(tokens) + s);
    PassesPastTrivia(tokens, s);
  }

  /** A separator and commentary after a statement change nothing, not even the reason of a refusal. */
  lemma TrailingSeparator(s: string, text: string)
    requires NoSeparator(Normal, s) && Outside(After(Normal, s)) && Ending(text)
    ensures Validate(s + (";" + text)) == Validate(s)
  {
    var tail := ";" + text;
    var x, y := s + tail, TrimLeft(s);
    var z := y + tail;
    SeparatorAfterTrim(s);
    NoFirstSeparator(y);
    ExtractOpen(s);
    SolidFront(s, tail);
    SeparatorHere(y, tail);
    assert z[..|y|] == y && z[|y| + 1..] == text;
    EndingExact(text);
    ExtractClosed(x, z, |y|);
    assert Extract(x) == Extract(s);
  }

  lemma SpacesExact(s: string)
    ensures Spaces(s) <==> TrimSpace(s) == ""
  {
    var lead := TrimLeftSplits(s);
    var trail := TrimRightSplits(TrimLeft(s));
    if TrimSpace(s) == "" {
      SpacesConcat(lead, trail);
      assert "" + trail == trail;
    }
    if Spaces(s) {
      TrimLeftAbsorbs(s, "");
      assert s + "" == s;
    }
  }

  /** The verdict on every text, with the reason of every refusal, from what stands before and behind its
      first separator. */
  lemma VerdictExact(sql: string)
    ensures Validate(sql) ==
            if !Ending(Behind(sql)) then Reject(MultipleStatements)
            else if Spaces(Before(sql)) then Reject(EmptyStatement)
            else Check(TrimSpace(Before(sql)), 0)
  {
    SpacesExact(Before(sql));
    EndingExact(Behind(sql));
    AroundSeparator(sql);
    var y := TrimLeft(sql);
    var k := FirstSeparator(y);
    if k < 0 {
      assert StripTrivia("") == "";
      ExtractOpen(sql);
    } else if |StripTrivia(TrimRight(Behind(y)))| == 0 {
      ExtractClosed(sql, y, k);
    } else {
      SeveralBehind(sql, k);
    }
  }

  lemma AroundSeparator(sql: string)
    ensures Behind(sql) == Behind(TrimLeft(sql)) && TrimSpace(Before(sql)) == TrimRight(Before(TrimLeft(sql)))
  {
    var y := TrimLeft(sql);
    var lead := TrimLeftSplits(sql);
    SpacesNeutral(lead);
    ShiftSplit(lead, y);
    TrimLeftAbsorbs(lead, Before(y));
    BeforeIsTrimmed(sql);
  }

  lemma SeveralBehind(sql: string, k: nat)
    requires FirstSeparator(TrimLeft(sql)) == k && |StripTrivia(TrimRight(TrimLeft(sql)[k + 1..]))| > 0
    ensures Validate(sql) == Reject(MultipleStatements)
  {
    TrimLeftStops(sql);
    TrimmedPasses(TrimLeft(sql));
    SeveralStatements(sql, k);
  }

  lemma BeforeIsTrimmed(sql: string)
    ensures TrimLeft(Before(TrimLeft(sql))) == Before(TrimLeft(sql))
  {
    TrimLeftStops(sql);
    var y := TrimLeft(sql);
    LeadingSpaceOfFront(y, |Before(y)|);
  }

  lemma SeparatorAfterTrim(s: string)
    requires NoSeparator(Normal, s)
    ensures NoSeparator(Normal, TrimLeft(s)) && After(Normal, TrimLeft(s)) == After(Normal, s)
  {
    var lead := TrimLeftSplits(s);
    SpacesNeutral(lead);
    NoSeparatorConcat(Normal, lead, TrimLeft(s));
    AfterConcat(Normal, lead, TrimLeft(s));
  }

  /** Trivia before a word never hide wide white space. */
  lemma AsciiWord(gap: seq<Token>, word: string, rest: string)
    requires Trivia(gap) && IsWord(word)
    ensures AsciiLead(Print(gap) + (word + rest))
  {
    if exists t <- gap :: !t.White? {
      DropWhitePast(gap, word + rest);
    } else {
      DropWhites(gap, word + rest);
      assert Solid((word + rest)[0]);
    }
  }

  lemma {:induction false} DropWhites(tokens: seq<Token>, s: string)
    requires Trivia(tokens) && forall t <- tokens :: t.White?
    ensures DropWhite(Print(tokens) + s) == DropWhite(s)
  {
    if tokens == [] {
      assert "" + s == s;
    } else {
      assert tokens[0] in tokens && forall t <- tokens[1..] :: t in tokens;
      DropWhites(tokens[1..], s);
      var more := Print(tokens[1..]) + s;
      Regroup(tokens[0].Text(), Print(tokens[1..]), s);
      assert ([tokens[0].b] + more)[1..] == more;
    }
  }

  lemma TrimFromWord(word: string, rest: string)
    requires IsWord(word)
    ensures TrimLeft(word + rest) == word + rest && TrimSpace(word + rest) == word + TrimRight(rest)
  {
    TrimRightKeeps(word, rest);
    assert (word + rest)[0] == word[0];
  }

  lemma CheckFromWord(word: string, rest: string)
    requires IsWord(word) && ToUpper(word) != "EXPLAIN" && !StartsWord(rest)
    ensures Check(word + TrimRight(rest), 0) == Judge(ToUpper(word))
  {
    var trail := TrimRightSplits(rest);
    KeywordFirst(word, TrimRight(rest));
  }

  /** A statement without a separator gets the verdict on its first word. */
  lemma WordDecides(word: string, rest: string)
    requires IsWord(word) && ToUpper(word) != "EXPLAIN" && !StartsWord(rest) && NoSeparator(Normal, word + rest)
    ensures Validate(word + rest) == Judge(ToUpper(word))
  {
    NoFirstSeparator(word + rest);
    TrimFromWord(word, rest);
    CheckFromWord(word, rest);
    ExtractOpen(word + rest);
  }

  lemma ShowAccepted()
    ensures Validate("SHOW x") == Accept
  {
    assert ToUpper("SHOW") == "SHOW";
    JudgeAccepts(ToUpper("SHOW"));
    NoSemicolon(Normal, "SHOW" + " x");
    WordDecides("SHOW", " x");
    assert "SHOW" + " x" == "SHOW x";
  }

  /** The condition of CommentPrefix is needed: U+00A0 in front is trimmed, but not behind a comment. */
  lemma CommentBeforeWideSpace()
    ensures var tokens, s := [BlockComment("")], "\U{C2}\U{A0}" + "SHOW x";
      Trivia(tokens) && Validate(s) == Accept && Validate(Print(tokens) + s) != Accept
  {
    var tokens, lead := [BlockComment("")], "\U{C2}\U{A0}";
    assert LeadingSpace(lead) == 2 && Spaces(lead[2..]);
    ShowAccepted();
    WhiteSpacePrefix(lead, "SHOW x");
    assert tokens[0] in tokens;
    CommentPrefix(tokens, lead + "SHOW x");
  }

  /** The verdict on every text in terms of the grammar: the part before its first separator, trimmed, must be a
      read-only statement, and nothing but an ending may follow. */
  lemma AcceptedExact(sql: string)
    ensures Validate(sql) == Accept <==> Ending(Behind(sql)) && ReadOnlyStatement(TrimSpace(Before(sql)))
    ensures forall k :: Validate(sql) == Reject(NotReadOnly(k)) <==>
                          Ending(Behind(sql)) && Acceptance.Refused(TrimSpace(Before(sql)), k)
  {
    var stmt := TrimSpace(Before(sql));
    VerdictExact(sql);
    ReasonsExact(stmt);
    SpacesExact(Before(sql));
    EmptyVerdict();
  }

  lemma EmptyVerdict()
    ensures Check("", 0) == Reject(UnknownStatement)
  {
    assert StripTrivia("") == "" && ToUpper("") == "";
  }
}
