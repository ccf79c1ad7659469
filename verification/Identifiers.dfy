/** Quoted identifiers: the printer is the inverse of the scanner, and every metadata statement is safe. */
module Identifiers {
  import opened GoStrings
  import opened Lexer
  import opened Guard
  import opened Language
  import opened Acceptance
  import opened GuardLaws

  const QUOTE: char := '"'

  function Doubled(s: string): string {
    if s == "" then ""
    else (if s[0] == QUOTE then [QUOTE, QUOTE] else [s[0]]) + Doubled(s[1..])
  }

  function QuoteIdent(s: string): string {
    [QUOTE] + Doubled(s) + [QUOTE]
  }

  function FqTable(catalog: string, schema: string, table: string): string {
    QuoteIdent(catalog) + "." + QuoteIdent(schema) + "." + QuoteIdent(table)
  }

  // ---- reading back ----

  function Undoubled(s: string): string {
    if s == "" then ""
    else if s[0] == QUOTE && |s| > 1 && s[1] == QUOTE then [QUOTE] + Undoubled(s[2..])
    else [s[0]] + Undoubled(s[1..])
  }

  /** The identifier that s starts with, read with the scanner's rule for quoted tokens, and what follows. */
  function ReadIdent(s: string): Option<(string, string)> {
    var e := QuoteEnd(s, 1, QUOTE);
    if s != "" && s[0] == QUOTE && 2 <= e <= |s| then Some((Undoubled(s[1..e - 1]), s[e..])) else None
  }

  function ReadTable(s: string): Option<(string, string, string)> {
    match ReadIdent(s)
    case None => None
    case Some((catalog, s1)) =>
      if s1 == "" || s1[0] != '.' then None else
      match ReadIdent(s1[1..])
      case None => None
      case Some((schema, s2)) =>
        if s2 == "" || s2[0] != '.' then None else
        match ReadIdent(s2[1..])
        case None => None
        case Some((table, s3)) => if s3 == "" then Some((catalog, schema, table)) else None
  }

  lemma {:induction false} UndoubledDoubled(s: string)
    ensures Undoubled(Doubled(s)) == s
  {
    if s != "" {
      UndoubledDoubled(s[1..]);
      var d := Doubled(s[1..]);
      if s[0] == QUOTE {
        assert Doubled(s)[2..] == d;
      } else {
        assert Doubled(s)[1..] == d;
      }
    }
  }

  /** The scanner passes over the doubled name inside a quoted token, wherever the token starts. */
  lemma {:induction false} QuoteEndOfDoubled(front: string, s: string, rest: string)
    requires rest == "" || rest[0] != QUOTE
    ensures QuoteEnd(front + (Doubled(s) + ([QUOTE] + rest)), |front|, QUOTE) == |front| + |Doubled(s)| + 1
    decreases |s|
  {
    var x := front + (Doubled(s) + ([QUOTE] + rest));
    if s != "" {
      var piece := if s[0] == QUOTE then [QUOTE, QUOTE] else [s[0]];
      var d := Doubled(s[1..]);
      assert x == (front + piece) + (d + ([QUOTE] + rest));
      QuoteEndOfDoubled(front + piece, s[1..], rest);
    }
  }

  /** Reading undoes printing, for every name and whatever follows it. */
  lemma ReadIdentOfQuoted(s: string, rest: string)
    requires rest == "" || rest[0] != QUOTE
    ensures QuoteEnd(QuoteIdent(s) + rest, 1, QUOTE) == |QuoteIdent(s)|
    ensures ReadIdent(QuoteIdent(s) + rest) == Some((s, rest))
    ensures QuoteIdent(s)[0] == '"' == QuoteIdent(s)[|QuoteIdent(s)| - 1]
  {
    var d := Doubled(s);
    QuotedParts(d, rest);
    QuoteEndOfDoubled([QUOTE], s, rest);
    UndoubledDoubled(s);
  }

  lemma QuotedParts(d: string, rest: string)
    ensures var x := [QUOTE] + d + [QUOTE] + rest;
      && x == [QUOTE] + (d + ([QUOTE] + rest))
      && x[1..|d| + 1] == d && x[|d| + 2..] == rest
  {
  }

  lemma FqTableInjective(c1: string, s1: string, t1: string, c2: string, s2: string, t2: string)
    requires FqTable(c1, s1, t1) == FqTable(c2, s2, t2)
    ensures c1 == c2 && s1 == s2 && t1 == t2
  {
    ReadTableOfFqTable(c1, s1, t1);
    ReadTableOfFqTable(c2, s2, t2);
  }

  /** A fully qualified table name splits back into its three names. */
  lemma ReadTableOfFqTable(catalog: string, schema: string, table: string)
    ensures ReadTable(FqTable(catalog, schema, table)) == Some((catalog, schema, table))
  {
    var c, s, t := QuoteIdent(catalog), QuoteIdent(schema), QuoteIdent(table);
    var dt := "." + t;
    var st := "." + (s + dt);
    Dotted(c, s, t);
    ReadIdentOfQuoted(catalog, st);
    ReadIdentOfQuoted(schema, dt);
    ReadIdentOfQuoted(table, "");
  }

  lemma Dotted(c: string, s: string, t: string)
    ensures c + "." + s + "." + t == c + ("." + (s + ("." + t)))
    ensures ("." + (s + ("." + t)))[1..] == s + ("." + t) && ("." + t)[1..] == t + ""
  {
  }

  // ---- the statements built from names ----

  const NODE_COLUMNS: string := " node_id, http_uri, node_version, "
  const MORE_NODE_COLUMNS: string := "coordinator, state"
  const FROM_NODES: string := " FROM system.runtime.nodes"

  datatype Metadata =
    | Catalogs
    | Schemas(catalog: string)
    | Tables(catalog: string, schema: string)
    | Columns(catalog: string, schema: string, table: string)
    | Stats(catalog: string, schema: string, table: string)
    | Nodes
  {
    /** The leading keyword and the rest of the statement. */
    function Word(): string {
      match this
      case Columns(_, _, _) => "DESCRIBE"
      case Nodes => "SELECT"
      case _ => "SHOW"
    }

    function Fixed(): string {
      match this
      case Catalogs => " CATALOGS"
      case Schemas(_) => " SCHEMAS FROM "
      case Tables(_, _) => " TABLES FROM "
      case Columns(_, _, _) => " "
      case Stats(_, _, _) => " STATS FOR "
      case Nodes => NODE_COLUMNS + MORE_NODE_COLUMNS + FROM_NODES
    }

    function Names(): string {
      match this
      case Schemas(catalog) => QuoteIdent(catalog)
      case Tables(catalog, schema) => QuoteIdent(catalog) + "." + QuoteIdent(schema)
      case Columns(catalog, schema, table) => FqTable(catalog, schema, table)
      case Stats(catalog, schema, table) => FqTable(catalog, schema, table)
      case _ => ""
    }

    function Sql(): string {
      Word() + (Fixed() + Names())
    }
  }

  /** The doubled name keeps the automaton inside the identifier, up to the middle of a doubled quote. */
  lemma {:induction false} DoubledStaysInside(s: string)
    ensures NoSeparator(Double, Doubled(s)) && After(Double, Doubled(s)) == Double
  {
    if s != "" {
      var piece := if s[0] == QUOTE then [QUOTE, QUOTE] else [s[0]];
      assert At(Double, piece, 0) == Double;
      assert At(Double, piece, 1) == Step(Double, piece[0]);
      assert After(Double, piece) == Double;
      assert NoSeparator(Double, piece);
      DoubledStaysInside(s[1..]);
      AfterConcat(Double, piece, Doubled(s[1..]));
      NoSeparatorConcat(Double, piece, Doubled(s[1..]));
    }
  }

  /** A printed identifier holds no separator and is left behind complete, whatever bytes the name has. */
  lemma QuoteIdentNeutral(s: string)
    ensures NoSeparator(Normal, QuoteIdent(s)) && After(Normal, QuoteIdent(s)) == Normal
  {
    var open := [QUOTE] + Doubled(s);
    assert At(Normal, [QUOTE], 0) == Normal && After(Normal, [QUOTE]) == Double;
    DoubledStaysInside(s);
    AfterConcat(Normal, [QUOTE], Doubled(s));
    NoSeparatorConcat(Normal, [QUOTE], Doubled(s));
    assert At(Double, [QUOTE], 0) == Double && After(Double, [QUOTE]) == Normal;
    AfterConcat(Normal, open, [QUOTE]);
    NoSeparatorConcat(Normal, open, [QUOTE]);
  }

  lemma DottedNeutral(a: string, b: string)
    requires NoSeparator(Normal, a) && After(Normal, a) == Normal
    requires NoSeparator(Normal, b) && After(Normal, b) == Normal
    ensures NoSeparator(Normal, a + "." + b) && After(Normal, a + "." + b) == Normal
  {
    PlainNeutral(".", 1);
    NeutralConcat(a, ".");
    NeutralConcat(a + ".", b);
  }

  lemma NamesNeutral(m: Metadata)
    ensures NoSeparator(Normal, m.Names()) && After(Normal, m.Names()) == Normal
  {
    match m
    case Schemas(catalog) => QuoteIdentNeutral(catalog);
    case Tables(catalog, schema) =>
      QuoteIdentNeutral(catalog);
      QuoteIdentNeutral(schema);
      DottedNeutral(QuoteIdent(catalog), QuoteIdent(schema));
    case Columns(catalog, schema, table) => FqTableNeutral(catalog, schema, table);
    case Stats(catalog, schema, table) => FqTableNeutral(catalog, schema, table);
    case _ => PlainNeutral("", 0);
  }

  lemma FqTableNeutral(catalog: string, schema: string, table: string)
    ensures var name := FqTable(catalog, schema, table); NoSeparator(Normal, name) && After(Normal, name) == Normal
  {
    QuoteIdentNeutral(catalog);
    QuoteIdentNeutral(schema);
    QuoteIdentNeutral(table);
    DottedNeutral(QuoteIdent(catalog), QuoteIdent(schema));
    DottedNeutral(QuoteIdent(catalog) + "." + QuoteIdent(schema), QuoteIdent(table));
  }

  lemma WordAllowed(m: Metadata)
    ensures IsWord(m.Word()) && ToUpper(m.Word()) in READ_ONLY_KEYWORDS
    ensures forall j :: 0 <= j < |m.Word()| ==> Plain(m.Word()[j])
  {
    assert ToUpper(m.Word()) == m.Word();
  }

  lemma FixedPlain(m: Metadata)
    ensures forall j :: 0 <= j < |m.Fixed()| ==> Plain(m.Fixed()[j])
    ensures m.Fixed() != "" && !StartsWord(m.Fixed())
  {
    if m.Nodes? {
      NodeColumnsPlain();
      FromNodesPlain();
      assert forall j :: 0 <= j < |MORE_NODE_COLUMNS| ==> Plain(MORE_NODE_COLUMNS[j]);
    }
  }

  lemma NodeColumnsPlain()
    ensures !StartsWord(NODE_COLUMNS) && NODE_COLUMNS != ""
    ensures forall j :: 0 <= j < |NODE_COLUMNS| ==> Plain(NODE_COLUMNS[j])
  {
  }

  lemma FromNodesPlain()
    ensures forall j :: 0 <= j < |FROM_NODES| ==> Plain(FROM_NODES[j])
  {
  }

  lemma StatementAccepted(word: string, fixed: string, names: string)
    requires IsWord(word) && ToUpper(word) in READ_ONLY_KEYWORDS && fixed != "" && !StartsWord(fixed)
    requires forall j :: 0 <= j < |word| ==> Plain(word[j])
    requires forall j :: 0 <= j < |fixed| ==> Plain(fixed[j])
    requires NoSeparator(Normal, names) && After(Normal, names) == Normal
    ensures Validate(word + (fixed + names)) == Accept
    ensures NoSeparator(Normal, word + (fixed + names)) && After(Normal, word + (fixed + names)) == Normal
  {
    PlainNeutral(word, |word|);
    PlainNeutral(fixed, |fixed|);
    NeutralConcat(fixed, names);
    NeutralConcat(word, fixed + names);
    JudgeAccepts(ToUpper(word));
    assert ToUpper(word) != "EXPLAIN";
    WordDecides(word, fixed + names);
  }

  /** Every metadata statement is one read-only statement for the guard, for all names of any bytes. */
  lemma MetadataAccepted(m: Metadata)
    ensures Validate(m.Sql()) == Accept
    ensures NoSeparator(Normal, m.Sql()) && After(Normal, m.Sql()) == Normal
  {
    WordAllowed(m);
    FixedPlain(m);
    NamesNeutral(m);
    StatementAccepted(m.Word(), m.Fixed(), m.Names());
  }

  // ---- a statement determines the request ----

  /** The four bytes that tell the kinds of statement apart. */
  lemma KindShows(m: Metadata)
    ensures var sql := m.Sql();
      |sql| > 6
      && (match m
          case Catalogs => sql[0] == 'S' && sql[1] == 'H' && sql[5] == 'C'
          case Schemas(_) => sql[0] == 'S' && sql[1] == 'H' && sql[5] == 'S' && sql[6] == 'C'
          case Tables(_, _) => sql[0] == 'S' && sql[1] == 'H' && sql[5] == 'T'
          case Columns(_, _, _) => sql[0] == 'D'
          case Stats(_, _, _) => sql[0] == 'S' && sql[1] == 'H' && sql[5] == 'S' && sql[6] == 'T'
          case Nodes => sql[0] == 'S' && sql[1] == 'E')
  {
  }

  lemma SameFront(a: string, b: string, c: string, d: string)
    requires a + (b + c) == a + (b + d)
    ensures c == d
  {
    var n := |a| + |b|;
    assert (a + (b + c))[n..] == c;
    assert (a + (b + d))[n..] == d;
  }

  lemma TablesInjective(c1: string, s1: string, c2: string, s2: string)
    requires QuoteIdent(c1) + "." + QuoteIdent(s1) == QuoteIdent(c2) + "." + QuoteIdent(s2)
    ensures c1 == c2 && s1 == s2
  {
    var r1, r2 := "." + QuoteIdent(s1), "." + QuoteIdent(s2);
    Regroup(QuoteIdent(c1), ".", QuoteIdent(s1));
    Regroup(QuoteIdent(c2), ".", QuoteIdent(s2));
    assert QuoteIdent(c1) + r1 == QuoteIdent(c2) + r2;
    ReadIdentOfQuoted(c1, r1);
    ReadIdentOfQuoted(c2, r2);
    assert r1[1..] == QuoteIdent(s1) + "" && r2[1..] == QuoteIdent(s2) + "";
    ReadIdentOfQuoted(s1, "");
    ReadIdentOfQuoted(s2, "");
  }

  /** Different metadata requests give different statements, for all names: no name can imitate another request. */
  lemma SqlInjective(m1: Metadata, m2: Metadata)
    requires m1.Sql() == m2.Sql()
    ensures m1 == m2
  {
    KindShows(m1);
    KindShows(m2);
    assert m1.Word() == m2.Word() && m1.Fixed() == m2.Fixed();
    SameFront(m1.Word(), m1.Fixed(), m1.Names(), m2.Names());
    match m1
    case Schemas(c1) =>
      assert m1.Names() == QuoteIdent(c1) + "" && m2.Names() == QuoteIdent(m2.catalog) + "";
      ReadIdentOfQuoted(c1, "");
      ReadIdentOfQuoted(m2.catalog, "");
    case Tables(c1, s1) => TablesInjective(c1, s1, m2.catalog, m2.schema);
    case Columns(c1, s1, t1) => FqTableInjective(c1, s1, t1, m2.catalog, m2.schema, m2.table);
    case Stats(c1, s1, t1) => FqTableInjective(c1, s1, t1, m2.catalog, m2.schema, m2.table);
    case _ =>
  }

  // ---- the names can be read back out of the statement ----

  /** s is the text front and then a rest that reads as the one identifier a. */
  predicate ReadsOne(s: string, front: string, a: string) {
    front <= s && ReadIdent(s[|front|..]) == Some((a, ""))
  }

  /** s is the text front and then the identifiers a and b with a dot between them. */
  ghost predicate ReadsTwo(s: string, front: string, a: string, b: string) {
    front <= s && exists r :: ReadIdent(s[|front|..]) == Some((a, "." + r)) && ReadIdent(r) == Some((b, ""))
  }

  predicate ReadsThree(s: string, front: string, a: string, b: string, c: string) {
    front <= s && ReadTable(s[|front|..]) == Some((a, b, c))
  }

  /** Every metadata statement word by word, its names read back in their order. */
  lemma SqlReads(m: Metadata)
    ensures match m
            case Catalogs => m.Sql() == "SHOW CATALOGS"
            case Schemas(catalog) => ReadsOne(m.Sql(), "SHOW SCHEMAS FROM ", catalog)
            case Tables(catalog, schema) => ReadsTwo(m.Sql(), "SHOW TABLES FROM ", catalog, schema)
            case Columns(catalog, schema, table) => ReadsThree(m.Sql(), "DESCRIBE ", catalog, schema, table)
            case Stats(catalog, schema, table) => ReadsThree(m.Sql(), "SHOW STATS FOR ", catalog, schema, table)
            case Nodes =>
              m.Sql() == "SELECT node_id, http_uri, node_version, " + "coordinator, state FROM system.runtime.nodes"
  {
    Regroup(m.Word(), m.Fixed(), m.Names());
    match m
    case Catalogs => assert "SHOW" + " CATALOGS" + "" == "SHOW CATALOGS";
    case Schemas(catalog) =>
      assert "SHOW" + " SCHEMAS FROM " == "SHOW SCHEMAS FROM ";
      OneRead("SHOW SCHEMAS FROM ", catalog);
    case Tables(catalog, schema) =>
      assert "SHOW" + " TABLES FROM " == "SHOW TABLES FROM ";
      TwoRead("SHOW TABLES FROM ", catalog, schema);
    case Columns(catalog, schema, table) =>
      assert "DESCRIBE" + " " == "DESCRIBE ";
      ThreeRead("DESCRIBE ", catalog, schema, table);
    case Stats(catalog, schema, table) =>
      assert "SHOW" + " STATS FOR " == "SHOW STATS FOR ";
      ThreeRead("SHOW STATS FOR ", catalog, schema, table);
    case Nodes => NodesText();
  }

  lemma NodesText()
    ensures Nodes.Sql() == "SELECT node_id, http_uri, node_version, " + "coordinator, state FROM system.runtime.nodes"
  {
    NodesFront();
    NodesBack();
    NodesJoined("SELECT", NODE_COLUMNS, MORE_NODE_COLUMNS, FROM_NODES);
  }

  lemma NodesFront()
    ensures "SELECT" + NODE_COLUMNS == "SELECT node_id, http_uri, node_version, "
  {
  }

  lemma NodesBack()
    ensures MORE_NODE_COLUMNS + FROM_NODES == "coordinator, state FROM system.runtime.nodes"
  {
  }

  lemma NodesJoined(a: string, b: string, c: string, d: string)
    ensures a + (b + c + d + "") == a + b + (c + d)
  {
  }

  lemma Remainder(front: string, s: string)
    ensures front <= front + s && (front + s)[|front|..] == s
  {
  }

  lemma OneRead(front: string, a: string)
    ensures ReadsOne(front + QuoteIdent(a), front, a)
  {
    Remainder(front, QuoteIdent(a));
    assert QuoteIdent(a) + "" == QuoteIdent(a);
    ReadIdentOfQuoted(a, "");
  }

  lemma TwoRead(front: string, a: string, b: string)
    ensures ReadsTwo(front + (QuoteIdent(a) + "." + QuoteIdent(b)), front, a, b)
  {
    var s := QuoteIdent(a) + "." + QuoteIdent(b);
    Remainder(front, s);
    Regroup(QuoteIdent(a), ".", QuoteIdent(b));
    assert QuoteIdent(b) + "" == QuoteIdent(b);
    ReadIdentOfQuoted(a, "." + QuoteIdent(b));
    ReadIdentOfQuoted(b, "");
    assert ReadIdent(s) == Some((a, "." + QuoteIdent(b))) && ReadIdent(QuoteIdent(b)) == Some((b, ""));
  }

  lemma ThreeRead(front: string, a: string, b: string, c: string)
    ensures ReadsThree(front + FqTable(a, b, c), front, a, b, c)
  {
    Remainder(front, FqTable(a, b, c));
    ReadTableOfFqTable(a, b, c);
  }
}
