/** The client operations over the protocol: guarded read queries and the fixed metadata statements. */
module ReadClient {
  import opened GoStrings
  import opened Guard
  import opened Identifiers
  import opened Paging

  datatype ReadResult = Rejected(reason: Reason) | Ran(outcome: Outcome)
  datatype ResultSet = ResultSet(columns: seq<string>, rows: seq<Row>)

  /** Every statement that reached the coordinator is one the guard accepts. */
  ghost predicate OnlyReads(log: seq<Request>) {
    forall i :: 0 <= i < |log| && log[i].verb.Post? ==> Validate(log[i].body) == Accept
  }

  function ColumnNames(columns: seq<Column>): (names: seq<string>)
    ensures |names| == |columns| && forall i :: 0 <= i < |names| ==> names[i] == columns[i].name
  {
    seq(|columns|, i requires 0 <= i < |columns| => columns[i].name)
  }

  /** The run of an accepted read query. */
  function CappedRun(client: Client, cred: Option<Credential>, sql: string, catalog: string, schema: string,
                     maxRows: int, script: seq<Reply>): Run
  {
    client.CollectRun(cred, sql, catalog, schema, ClampMaxRows(maxRows), script)
  }

  /** Whatever the caller asks for, a read query returns at most MAX_RESULT_ROWS rows, and at most maxRows when
      that is a positive number; fewer than the clamped cap means that nothing was cut. */
  lemma ReadQueryBounded(client: Client, cred: Option<Credential>, sql: string, catalog: string, schema: string,
                         maxRows: int, script: seq<Reply>)
    requires CappedRun(client, cred, sql, catalog, schema, maxRows, script).outcome.Done?
    ensures var done := CappedRun(client, cred, sql, catalog, schema, maxRows, script).outcome;
      && |done.rows| <= MAX_RESULT_ROWS
      && (maxRows > 0 ==> |done.rows| <= maxRows)
      && (done.truncated ==> |done.rows| == ClampMaxRows(maxRows))
  {
    var post := client.parse(client.endpoint + "/v1/statement").value;
    CapHolds(Call(post, sql, cred.value, catalog, schema, client.parse), ClampMaxRows(maxRows), script);
  }

  // ---- any number of operations ----

  /** One operation of a caller. */
  datatype Operation =
    | ReadQuery(cred: Option<Credential>, sql: string, catalog: string, schema: string, maxRows: int)
    | ReadMetadata(cred: Option<Credential>, m: Metadata)
  {
    function Sql(): string {
      if ReadQuery? then sql else m.Sql()
    }

    /** Nothing is sent for a refused statement, without a credential, or when the endpoint does not parse. */
    predicate Sends(client: Client) {
      Validate(Sql()) == Accept && cred.Some? && client.parse(client.endpoint + "/v1/statement").Some?
    }

    /** The requests of the operation, and the replies it leaves. */
    function Perform(client: Client, script: seq<Reply>): (seq<Request>, seq<Reply>) {
      if ReadQuery? && Validate(sql).Reject? then ([], script)
      else
        var run := if ReadQuery? then CappedRun(client, cred, sql, catalog, schema, maxRows, script)
                   else client.CollectRun(cred, m.Sql(), "", "", 0, script);
        (run.trace, run.left)
    }
  }

  /** The log of the coordinator after the operations, one after the other. */
  function LogOf(client: Client, ops: seq<Operation>, script: seq<Reply>): seq<Request> {
    if ops == [] then []
    else
      var (trace, left) := ops[0].Perform(client, script);
      trace + LogOf(client, ops[1..], left)
  }

  /** The statements posted, in order. */
  function Posted(log: seq<Request>): seq<string> {
    if log == [] then [] else (if log[0].verb.Post? then [log[0].body] else []) + Posted(log[1..])
  }

  /** The statements that the operations get to send, in order. */
  function Sent(client: Client, ops: seq<Operation>): seq<string> {
    if ops == [] then [] else (if ops[0].Sends(client) then [ops[0].Sql()] else []) + Sent(client, ops[1..])
  }

  lemma {:induction false} PostedConcat(a: seq<Request>, b: seq<Request>)
    ensures Posted(a + b) == Posted(a) + Posted(b)
  {
    if a == [] {
      assert a + b == b;
    } else {
      assert (a + b)[1..] == a[1..] + b;
      PostedConcat(a[1..], b);
    }
  }

  lemma {:induction false} NothingPosted(log: seq<Request>)
    requires forall i :: 0 <= i < |log| ==> !log[i].verb.Post?
    ensures Posted(log) == []
  {
    if log != [] {
      NothingPosted(log[1..]);
    }
  }

  lemma CollectPosts(client: Client, cred: Option<Credential>, sql: string, catalog: string, schema: string,
                     maxRows: int, script: seq<Reply>)
    ensures Posted(client.CollectRun(cred, sql, catalog, schema, maxRows, script).trace) ==
            if cred.Some? && client.parse(client.endpoint + "/v1/statement").Some? then [sql] else []
  {
    var post := client.parse(client.endpoint + "/v1/statement");
    if cred.Some? && post.Some? {
      PostsOnce(Call(post.value, sql, cred.value, catalog, schema, client.parse), maxRows, script);
      NothingPosted(client.CollectRun(cred, sql, catalog, schema, maxRows, script).trace[1..]);
    }
  }

  lemma OperationPosts(client: Client, op: Operation, script: seq<Reply>)
    ensures Posted(op.Perform(client, script).0) == if op.Sends(client) then [op.Sql()] else []
  {
    match op
    case ReadQuery(cred, sql, catalog, schema, maxRows) =>
      CollectPosts(client, cred, sql, catalog, schema, ClampMaxRows(maxRows), script);
    case ReadMetadata(cred, m) =>
      MetadataAccepted(m);
      CollectPosts(client, cred, m.Sql(), "", "", 0, script);
  }

  /** Over every sequence of operations: each accepted statement that can be sent is posted once, in order, and no
      other statement is. */
  lemma {:induction false} EverPosted(client: Client, ops: seq<Operation>, script: seq<Reply>)
    ensures Posted(LogOf(client, ops, script)) == Sent(client, ops)
  {
    if ops != [] {
      var (trace, left) := ops[0].Perform(client, script);
      OperationPosts(client, ops[0], script);
      EverPosted(client, ops[1..], left);
      PostedConcat(trace, LogOf(client, ops[1..], left));
    }
  }

  lemma {:induction false} SentAccepted(client: Client, ops: seq<Operation>)
    ensures forall sql <- Sent(client, ops) :: Validate(sql) == Accept
  {
    if ops != [] {
      SentAccepted(client, ops[1..]);
    }
  }

  lemma {:induction false} PostedReads(log: seq<Request>)
    requires forall sql <- Posted(log) :: Validate(sql) == Accept
    ensures OnlyReads(log)
  {
    if log != [] {
      PostedReads(log[1..]);
      assert forall i :: 0 < i < |log| ==> log[i] == log[1..][i - 1];
    }
  }

  /** No sequence of operations posts a statement that the guard rejects, from an empty log or any other that
      holds none. */
  lemma RunsOnlyRead(client: Client, ops: seq<Operation>, script: seq<Reply>, log: seq<Request>)
    requires OnlyReads(log)
    ensures OnlyReads(log + LogOf(client, ops, script))
  {
    EverPosted(client, ops, script);
    SentAccepted(client, ops);
    PostedReads(LogOf(client, ops, script));
    assert forall i :: |log| <= i < |log + LogOf(client, ops, script)| ==>
                         (log + LogOf(client, ops, script))[i] == LogOf(client, ops, script)[i - |log|];
  }

  /** The columns of a query result, copied one by one. */
  method CopyColumns(columns: seq<Column>) returns (copy: seq<Column>)
    ensures copy == columns
  {
    copy := [];
    for i := 0 to |columns|
      invariant copy == columns[..i]
    {
      copy := copy + [Column(columns[i].name, columns[i].typ)];
    }
  }

  /** The names of the columns of a result set. */
  method CopyNames(columns: seq<Column>) returns (names: seq<string>)
    ensures names == ColumnNames(columns)
  {
    names := [];
    for i := 0 to |columns|
      invariant |names| == i && forall j :: 0 <= j < i ==> names[j] == columns[j].name
    {
      names := names + [columns[i].name];
    }
  }

  function Named(outcome: Outcome): Option<ResultSet> {
    match outcome
    case Failed(_) => None
    case Done(columns, rows, _) => Some(ResultSet(ColumnNames(columns), rows))
  }

  /** The result set of a metadata statement holds every row of the run under the names of its columns, and there is
      none exactly when the run fails. */
  lemma NamedExact(outcome: Outcome)
    ensures Named(outcome) == None <==> outcome.Failed?
    ensures outcome.Done? ==>
              var r := Named(outcome).value;
              && r.rows == outcome.rows && |r.columns| == |outcome.columns|
              && forall i :: 0 <= i < |r.columns| ==> r.columns[i] == outcome.columns[i].name
  {
  }

  /** The first request of a read query carries its statement, catalog and schema; that of a metadata statement is
      outside any session. */
  lemma FirstRequests(client: Client, cred: Option<Credential>, sql: string, catalog: string, schema: string,
                      maxRows: int, m: Metadata, script: seq<Reply>)
    requires cred.Some? && client.parse(client.endpoint + "/v1/statement").Some?
    ensures var post := client.parse(client.endpoint + "/v1/statement").value;
      var query, metadata := CappedRun(client, cred, sql, catalog, schema, maxRows, script).trace,
                             ReadMetadata(cred, m).Perform(client, script).0;
      && query != [] && query[0] == Request(Post, post, sql, cred.value, catalog, schema)
      && metadata != [] && metadata[0] == Request(Post, post, m.Sql(), cred.value, "", "")
  {
    CollectRunExact(client, cred, sql, catalog, schema, ClampMaxRows(maxRows), script);
    CollectRunExact(client, cred, m.Sql(), "", "", 0, script);
  }

  /** A read query: nothing is sent unless the guard accepts it, and then one capped run. */
  method RunReadQuery(client: Client, cred: Option<Credential>, sql: string, catalog: string, schema: string,
                      maxRows: int)
    returns (result: ReadResult)
    modifies client.coordinator
    ensures Validate(sql).Reject? ==> result == Rejected(Validate(sql).reason) && unchanged(client.coordinator)
    ensures Validate(sql).Accept? ==>
              var c := client.coordinator;
              var run := CappedRun(client, cred, sql, catalog, schema, maxRows, old(c.script));
              result == Ran(run.outcome) && c.log == old(c.log) + run.trace && c.script == run.left
    ensures var c, op := client.coordinator, ReadQuery(cred, sql, catalog, schema, maxRows);
      c.log == old(c.log) + op.Perform(client, old(c.script)).0 && c.script == op.Perform(client, old(c.script)).1
  {
    var verdict := ValidateReadOnly(sql);
    if verdict.Reject? {
      return Rejected(verdict.reason);
    }
    var outcome := RunCapped(client, cred, sql, catalog, schema, maxRows);
    return Ran(outcome);
  }

  method RunCapped(client: Client, cred: Option<Credential>, sql: string, catalog: string, schema: string, maxRows: int)
    returns (outcome: Outcome)
    modifies client.coordinator
    ensures var c := client.coordinator;
      var run := CappedRun(client, cred, sql, catalog, schema, maxRows, old(c.script));
      outcome == run.outcome && c.log == old(c.log) + run.trace && c.script == run.left
  {
    outcome := client.CollectRows(cred, sql, catalog, schema, ClampMaxRows(maxRows));
    if outcome.Done? {
      var columns := CopyColumns(outcome.columns);
      outcome := outcome.(columns := columns);
    }
  }

  /** A fixed metadata statement, unbounded and outside any session. */
  method RunMetadata(client: Client, cred: Option<Credential>, m: Metadata) returns (result: Option<ResultSet>)
    modifies client.coordinator
    ensures var c := client.coordinator;
      var run := client.CollectRun(cred, m.Sql(), "", "", 0, old(c.script));
      result == Named(run.outcome) && c.log == old(c.log) + run.trace && c.script == run.left
    ensures var c, op := client.coordinator, ReadMetadata(cred, m);
      c.log == old(c.log) + op.Perform(client, old(c.script)).0 && c.script == op.Perform(client, old(c.script)).1
  {
    var outcome := client.CollectRows(cred, m.Sql(), "", "", 0);
    if outcome.Failed? {
      return None;
    }
    var names := CopyNames(outcome.columns);
    return Some(ResultSet(names, outcome.rows));
  }
}
