/** The read-only statement guard: ValidateReadOnly and the statement checker under it. */
module Guard {
  import opened GoStrings
  import opened Lexer

  datatype Reason =
    | EmptyStatement
    | MultipleStatements
    | UnknownStatement
    | NestedExplain
    | NotReadOnly(keyword: string)

  datatype Verdict = Accept | Reject(reason: Reason)

  const READ_ONLY_KEYWORDS: set<string> := {"SELECT", "WITH", "VALUES", "TABLE", "SHOW", "DESCRIBE", "DESC"}

  /** The leading keyword past trivia, in upper case, and what follows it. */
  function Keyword(s: string): (string, string) {
    var t := StripTrivia(s);
    (ToUpper(t[..WordLength(t)]), t[WordLength(t)..])
  }

  function Check(stmt: string, depth: nat): Verdict
    decreases if depth == 0 then 1 else 0
  {
    var (kw, rest) := Keyword(stmt);
    if kw == "EXPLAIN" && depth == 0 then Check(StripOptions(rest), depth + 1) else Judge(kw)
  }

  /** The verdict on a leading keyword where EXPLAIN is no longer allowed. */
  function Judge(kw: string): Verdict {
    if kw == "" then Reject(UnknownStatement)
    else if kw == "EXPLAIN" then Reject(NestedExplain)
    else if kw in READ_ONLY_KEYWORDS then Accept
    else Reject(NotReadOnly(kw))
  }

  datatype Extracted = Statement(text: string) | Refused(reason: Reason)

  /** The one statement that sql holds, without its separator and the white space around it. */
  function Extract(sql: string): Extracted {
    var trimmed := TrimSpace(sql);
    var idx := FirstSeparator(trimmed);
    if trimmed == "" then Refused(EmptyStatement)
    else if idx < 0 then Statement(trimmed)
    else if |StripTrivia(trimmed[idx + 1..])| > 0 then Refused(MultipleStatements)
    else if TrimSpace(trimmed[..idx]) == "" then Refused(EmptyStatement)
    else Statement(TrimSpace(trimmed[..idx]))
  }

  /** The guard's decision on sql. */
  function Validate(sql: string): Verdict {
    match Extract(sql)
    case Refused(reason) => Reject(reason)
    case Statement(text) => Check(text, 0)
  }

  method LeadingKeyword(s: string) returns (kw: string, rest: string)
    ensures (kw, rest) == Keyword(s)
  {
    var t := StripLeadingTrivia(s);
    var word, after := LeadingWord(t);
    if word == "" {
      return "", t;
    }
    return ToUpper(word), after;
  }

  method CheckStatement(stmt: string, depth: nat) returns (v: Verdict)
    ensures v == Check(stmt, depth)
    decreases if depth == 0 then 1 else 0
  {
    var kw, rest := LeadingKeyword(stmt);
    if kw == "" {
      return Reject(UnknownStatement);
    }
    if kw == "EXPLAIN" {
      if depth > 0 {
        return Reject(NestedExplain);
      }
      var inner := StripExplainOptions(rest);
      v := CheckStatement(inner, depth + 1);
      return;
    }
    if kw !in READ_ONLY_KEYWORDS {
      return Reject(NotReadOnly(kw));
    }
    return Accept;
  }

  lemma SeveralStatements(sql: string, idx: nat)
    requires FirstSeparator(TrimSpace(sql)) == idx && StripTrivia(TrimSpace(sql)[idx + 1..]) != ""
    ensures Validate(sql) == Reject(MultipleStatements)
  {
  }

  method ValidateReadOnly(sql: string) returns (v: Verdict)
    ensures v == Validate(sql)
  {
    var trimmed := TrimSpace(sql);
    if trimmed == "" {
      return Reject(EmptyStatement);
    }
    var idx := TopLevelSemicolon(trimmed);
    if idx >= 0 {
      var after := StripLeadingTrivia(trimmed[idx + 1..]);
      if after != "" {
        SeveralStatements(sql, idx);
        return Reject(MultipleStatements);
      }
      trimmed := TrimSpace(trimmed[..idx]);
      if trimmed == "" {
        return Reject(EmptyStatement);
      }
    }
    v := CheckStatement(trimmed, 0);
  }
}
