/**
 The paged statement protocol: POST the statement, GET along nextUri, DELETE to cancel. The coordinator is a
 script of replies; a request that finds no reply left fails, as it does when its deadline passes.
 */
module Paging {
  import opened GoStrings

  datatype Credential = Credential(user: string, authHeader: string, token: string, password: string)
  datatype Column = Column(name: string, typ: string)
  datatype Cell = Null | Text(text: string) | Bool(value: bool) | Number(digits: string) | Json(json: string)
  type Row = seq<Cell>

  datatype Reply =
    | Broken        // transport failure, deadline, or a status outside 2xx
    | Undecodable   // a body that is no response document
    | Page(nextUri: string, columns: seq<Column>, data: seq<Row>, error: Option<string>)

  datatype Verb = Post | Get | Delete
  datatype Request = Request(verb: Verb, url: string, body: string, cred: Credential, catalog: string, schema: string)

  datatype Failure = NoCredential | BadUrl | Transport | BadBody | Engine(message: string)
  datatype Outcome = Done(columns: seq<Column>, rows: seq<Row>, truncated: bool) | Failed(failure: Failure)

  /** A run: what the caller gets, the requests sent, and the replies not consumed. */
  datatype Run = Run(outcome: Outcome, trace: seq<Request>, left: seq<Reply>)

  /** One call of collect. A URL that does not parse has no canonical form. */
  datatype Call = Call(post: string, sql: string, cred: Credential, catalog: string, schema: string,
                       parse: string -> Option<string>)
  {
    function PostRequest(): Request {
      Request(Post, post, sql, cred, catalog, schema)
    }

    function GetRequest(url: string): Request {
      Request(Get, url, "", cred, catalog, schema)
    }

    /** What cancelling a statement sends: at most one DELETE, outside the session. */
    function Cancel(uri: string): seq<Request> {
      match parse(uri)
      case None => []
      case Some(url) => [Request(Delete, url, "", cred, "", "")]
    }
  }

  const DEFAULT_MAX_ROWS := 1000
  const MAX_RESULT_ROWS := 10000

  function ClampMaxRows(n: int): (cap: int)
    ensures 0 < cap <= MAX_RESULT_ROWS
    ensures 0 < n <= MAX_RESULT_ROWS ==> cap == n
    ensures n <= 0 ==> cap == 1000
    ensures n > MAX_RESULT_ROWS ==> cap == 10000
  {
    if n <= 0 then DEFAULT_MAX_ROWS else if n > MAX_RESULT_ROWS then MAX_RESULT_ROWS else n
  }

  // ---- the loop of collect, as a function of the replies still to come ----

  function Follow(call: Call, cap: int, req: Request, cols: seq<Column>, rows: seq<Row>, script: seq<Reply>): Run
    decreases |script|
  {
    if script == [] || script[0].Broken? then
      Run(Failed(Transport), [req] + (if req.verb.Get? then call.Cancel(req.url) else []),
          if script == [] then [] else script[1..])
    else
      var left := script[1..];
      match script[0]
      case Undecodable => Run(Failed(BadBody), [req], left)
      case Page(nextUri, columns, data, error) =>
        if error.Some? then Run(Failed(Engine(error.value)), [req], left) else
        var cols' := if cols == [] then columns else cols;
        var rows' := rows + data;
        if cap > 0 && |rows'| > cap then
          Run(Done(cols', rows'[..cap], true), [req] + (if nextUri != "" then call.Cancel(nextUri) else []), left)
        else if nextUri == "" then Run(Done(cols', rows', false), [req], left)
        else match call.parse(nextUri)
             case None => Run(Failed(BadUrl), [req], left)
             case Some(url) =>
               var run := Follow(call, cap, call.GetRequest(url), cols', rows', left);
               run.(trace := [req] + run.trace)
  }

  function Collect(call: Call, cap: int, script: seq<Reply>): Run {
    Follow(call, cap, call.PostRequest(), [], [], script)
  }

  // ---- the same run in closed form: everything is settled by the first page that stops the loop ----

  function RowsOf(script: seq<Reply>, i: nat): seq<Row>
    requires i <= |script|
  {
    if i == 0 then [] else RowsOf(script, i - 1) + (if script[i - 1].Page? then script[i - 1].data else [])
  }

  function ColumnsOf(script: seq<Reply>, i: nat): seq<Column>
    requires i <= |script|
  {
    if i == 0 then []
    else if ColumnsOf(script, i - 1) == [] && script[i - 1].Page? then script[i - 1].columns
    else ColumnsOf(script, i - 1)
  }

  /** Page i is a good page with a next one, and the rows up to it fit the cap. */
  predicate Continues(call: Call, cap: int, script: seq<Reply>, i: nat) {
    && i < |script| && script[i].Page? && script[i].error.None?
    && !(cap > 0 && |RowsOf(script, i + 1)| > cap)
    && script[i].nextUri != "" && call.parse(script[i].nextUri).Some?
  }

  ghost predicate StopsAt(call: Call, cap: int, script: seq<Reply>, k: nat) {
    k <= |script| && !Continues(call, cap, script, k) && forall i: nat :: i < k ==> Continues(call, cap, script, i)
  }

  function RequestAt(call: Call, script: seq<Reply>, i: nat): Request {
    if i == 0 then Request(Post, call.post, call.sql, call.cred, call.catalog, call.schema)
    else if i <= |script| && script[i - 1].Page? && call.parse(script[i - 1].nextUri).Some?
    then Request(Get, call.parse(script[i - 1].nextUri).value, "", call.cred, call.catalog, call.schema)
    else Request(Get, "", "", call.cred, call.catalog, call.schema)
  }

  function Requests(call: Call, script: seq<Reply>, i: nat, k: nat): (r: seq<Request>)
    requires i <= k
    ensures |r| == k - i + 1
    ensures forall j :: 0 <= j < |r| ==> r[j] == RequestAt(call, script, i + j)
    decreases k - i
  {
    [RequestAt(call, script, i)] + if i == k then [] else Requests(call, script, i + 1, k)
  }

  function ReplyAt(script: seq<Reply>, k: nat): Reply {
    if k < |script| then script[k] else Broken
  }

  /** More rows than the cap have arrived with page k. */
  predicate Overflows(cap: int, script: seq<Reply>, k: nat) {
    k < |script| && script[k].Page? && script[k].error.None? && cap > 0 && |RowsOf(script, k + 1)| > cap
  }

  function OutcomeAt(cap: int, script: seq<Reply>, k: nat): Outcome {
    match ReplyAt(script, k)
    case Broken => Failed(Transport)
    case Undecodable => Failed(BadBody)
    case Page(nextUri, _, _, error) =>
      if error.Some? then Failed(Engine(error.value))
      else if Overflows(cap, script, k) then Done(ColumnsOf(script, k + 1), RowsOf(script, k + 1)[..cap], true)
      else if nextUri == "" then Done(ColumnsOf(script, k + 1), RowsOf(script, k + 1), false)
      else Failed(BadUrl)
  }

  function DeleteOf(call: Call, uri: string): seq<Request> {
    if call.parse(uri).None? then [] else [Request(Delete, call.parse(uri).value, "", call.cred, "", "")]
  }

  /** The cancellation that ends the run: after a failed GET and after an overflow with a next page, never else. */
  function CancelAt(call: Call, cap: int, script: seq<Reply>, k: nat): seq<Request> {
    if ReplyAt(script, k).Broken? && k > 0 then DeleteOf(call, RequestAt(call, script, k).url)
    else if Overflows(cap, script, k) && script[k].nextUri != "" then DeleteOf(call, script[k].nextUri)
    else []
  }

  lemma {:induction false} FindStop(call: Call, cap: int, script: seq<Reply>, i: nat) returns (k: nat)
    requires i <= |script| && forall j: nat :: j < i ==> Continues(call, cap, script, j)
    ensures StopsAt(call, cap, script, k)
    decreases |script| - i
  {
    if Continues(call, cap, script, i) {
      k := FindStop(call, cap, script, i + 1);
    } else {
      k := i;
    }
  }

  /** From page i on, the loop runs as the first stopping page k says. */
  ghost predicate RunsTo(call: Call, cap: int, script: seq<Reply>, i: nat, k: nat)
    requires i <= k <= |script|
  {
    var run := Follow(call, cap, RequestAt(call, script, i), ColumnsOf(script, i), RowsOf(script, i), script[i..]);
    && run.outcome == OutcomeAt(cap, script, k)
    && run.trace == Requests(call, script, i, k) + CancelAt(call, cap, script, k)
    && run.left == if k < |script| then script[k + 1..] else []
  }

  lemma {:induction false} FollowExact(call: Call, cap: int, script: seq<Reply>, i: nat, k: nat)
    requires StopsAt(call, cap, script, k) && i <= k
    ensures RunsTo(call, cap, script, i, k)
    decreases k - i
  {
    if i < k {
      FollowExact(call, cap, script, i + 1, k);
      FollowOn(call, cap, script, i, k);
    } else {
      FollowEnds(call, cap, script, k);
    }
  }

  lemma FollowOn(call: Call, cap: int, script: seq<Reply>, i: nat, k: nat)
    requires Continues(call, cap, script, i) && i < k <= |script| && RunsTo(call, cap, script, i + 1, k)
    ensures RunsTo(call, cap, script, i, k)
  {
    FollowStep(call, cap, script, i);
    Regroup([RequestAt(call, script, i)], Requests(call, script, i + 1, k), CancelAt(call, cap, script, k));
  }

  lemma FollowEnds(call: Call, cap: int, script: seq<Reply>, k: nat)
    requires k <= |script| && !Continues(call, cap, script, k)
    ensures RunsTo(call, cap, script, k, k)
  {
    FollowStops(call, cap, script, k);
    assert Requests(call, script, k, k) == [RequestAt(call, script, k)];
  }

  /** One turn of the loop at a page that continues. */
  lemma FollowStep(call: Call, cap: int, script: seq<Reply>, i: nat)
    requires Continues(call, cap, script, i)
    ensures var req, next := RequestAt(call, script, i), RequestAt(call, script, i + 1);
      var run := Follow(call, cap, next, ColumnsOf(script, i + 1), RowsOf(script, i + 1), script[i + 1..]);
      Follow(call, cap, req, ColumnsOf(script, i), RowsOf(script, i), script[i..]) == run.(trace := [req] + run.trace)
  {
    assert script[i..][0] == script[i] && script[i..][1..] == script[i + 1..];
  }

  /** The last turn of the loop. */
  lemma FollowStops(call: Call, cap: int, script: seq<Reply>, k: nat)
    requires k <= |script| && !Continues(call, cap, script, k)
    ensures Follow(call, cap, RequestAt(call, script, k), ColumnsOf(script, k), RowsOf(script, k), script[k..]) ==
            Run(OutcomeAt(cap, script, k), [RequestAt(call, script, k)] + CancelAt(call, cap, script, k),
                if k < |script| then script[k + 1..] else [])
  {
    if k < |script| {
      assert script[k..][0] == script[k] && script[k..][1..] == script[k + 1..];
    }
  }

  /** Outcome, requests and consumed replies of every run, from its first stopping page. */
  lemma CollectExact(call: Call, cap: int, script: seq<Reply>, k: nat)
    requires StopsAt(call, cap, script, k)
    ensures var run := Collect(call, cap, script);
      && run.outcome == OutcomeAt(cap, script, k)
      && run.trace == Requests(call, script, 0, k) + CancelAt(call, cap, script, k)
      && run.left == if k < |script| then script[k + 1..] else []
  {
    assert script[0..] == script;
    FollowExact(call, cap, script, 0, k);
  }

  // ---- laws of every run ----

  lemma {:induction false} RowsGrow(script: seq<Reply>, i: nat, j: nat)
    requires i <= j <= |script|
    ensures RowsOf(script, i) <= RowsOf(script, j)
  {
    if i < j {
      RowsGrow(script, i, j - 1);
    }
  }

  lemma {:induction false} RequestsGrow(call: Call, script: seq<Reply>, i: nat, j: nat, k: nat)
    requires i <= j <= k
    ensures Requests(call, script, i, j) <= Requests(call, script, i, k)
    decreases j - i
  {
    if i < j {
      RequestsGrow(call, script, i + 1, j, k);
    }
  }

  /** The requests for pages, in order: the run's trace without its cancellation. */
  function PageRequests(trace: seq<Request>): seq<Request> {
    if trace != [] && trace[|trace| - 1].verb.Delete? then trace[..|trace| - 1] else trace
  }

  lemma PageRequestsOf(call: Call, cap: int, script: seq<Reply>, k: nat)
    requires StopsAt(call, cap, script, k)
    ensures PageRequests(Collect(call, cap, script).trace) == Requests(call, script, 0, k)
  {
    CollectExact(call, cap, script, k);
    var pages := Requests(call, script, 0, k);
    assert pages[|pages| - 1].verb != Delete;
    var cancel := CancelAt(call, cap, script, k);
    if |cancel| == 1 {
      assert (pages + cancel)[..|pages|] == pages;
    } else {
      assert pages + cancel == pages;
    }
  }

  /** cap bounds the result at least as tightly as wide does; a cap of 0 or less is no bound. */
  predicate Tighter(cap: int, wide: int) {
    cap > 0 && (wide <= 0 || cap <= wide)
  }

  /** A tighter cap succeeds where a wider one does. It returns the wider result cut to the cap, reports
      truncation exactly when that loses rows, and asks for no page that the wider run does not ask for. */
  lemma TighterCapRefines(call: Call, cap: int, wide: int, script: seq<Reply>)
    requires Tighter(cap, wide) && Collect(call, wide, script).outcome.Done?
    ensures var tight, loose := Collect(call, cap, script), Collect(call, wide, script);
      && tight.outcome.Done?
      && tight.outcome.rows == (if |loose.outcome.rows| > cap then loose.outcome.rows[..cap] else loose.outcome.rows)
      && (tight.outcome.truncated <==> loose.outcome.truncated || |loose.outcome.rows| > cap)
      && PageRequests(tight.trace) <= PageRequests(loose.trace)
      && (tight.outcome.columns == loose.outcome.columns || tight.outcome.columns == [])
  {
    var k := FindStop(call, wide, script, 0);
    var j := FindStop(call, cap, script, 0);
    CollectExact(call, wide, script, k);
    CollectExact(call, cap, script, j);
    PageRequestsOf(call, wide, script, k);
    PageRequestsOf(call, cap, script, j);
    StopsEarlier(call, cap, wide, script, j, k);
    RequestsGrow(call, script, 0, j, k);
    TighterOutcome(call, cap, wide, script, j, k);
  }

  lemma StopsEarlier(call: Call, cap: int, wide: int, script: seq<Reply>, j: nat, k: nat)
    requires Tighter(cap, wide) && StopsAt(call, cap, script, j) && StopsAt(call, wide, script, k)
    ensures j <= k
  {
    assert Continues(call, cap, script, k) ==> Continues(call, wide, script, k);
  }

  lemma TighterOutcome(call: Call, cap: int, wide: int, script: seq<Reply>, j: nat, k: nat)
    requires Tighter(cap, wide) && StopsAt(call, cap, script, j) && StopsAt(call, wide, script, k) && j <= k
    requires OutcomeAt(wide, script, k).Done?
    ensures var tight, loose := OutcomeAt(cap, script, j), OutcomeAt(wide, script, k);
      && tight.Done?
      && tight.rows == (if |loose.rows| > cap then loose.rows[..cap] else loose.rows)
      && (tight.truncated <==> loose.truncated || |loose.rows| > cap)
      && (tight.columns == loose.columns || tight.columns == [])
  {
    if j < k {
      assert Continues(call, wide, script, j);
      CutEarlier(cap, wide, script, j, k);
    }
  }

  /** The tighter run overflows at page j, in front of the page k at which the wider one stops. */
  lemma CutEarlier(cap: int, wide: int, script: seq<Reply>, j: nat, k: nat)
    requires Tighter(cap, wide) && j < k && OutcomeAt(wide, script, k).Done? && Overflows(cap, script, j)
    requires wide > 0 ==> |RowsOf(script, j + 1)| <= wide
    ensures var tight, loose := OutcomeAt(cap, script, j), OutcomeAt(wide, script, k);
      && tight.Done? && tight.truncated && |loose.rows| > cap && tight.rows == loose.rows[..cap]
      && (tight.columns == loose.columns || tight.columns == [])
  {
    var some, all := RowsOf(script, j + 1), RowsOf(script, k + 1);
    RowsGrow(script, j + 1, k + 1);
    ColumnsKept(script, j + 1, k + 1);
    assert some[..cap] == all[..cap];
  }

  lemma {:induction false} ColumnsKept(script: seq<Reply>, i: nat, j: nat)
    requires i <= j <= |script|
    ensures ColumnsOf(script, i) == [] || ColumnsOf(script, j) == ColumnsOf(script, i)
  {
    if i < j {
      ColumnsKept(script, i, j - 1);
    }
  }

  /** Where the unbounded run succeeds, a capped run returns the first rows of its result. */
  lemma CappedRefinesUncapped(call: Call, cap: int, script: seq<Reply>)
    requires cap > 0 && Collect(call, 0, script).outcome.Done?
    ensures var capped, all := Collect(call, cap, script).outcome, Collect(call, 0, script).outcome;
      capped.Done? && capped.rows <= all.rows
      && |capped.rows| == (if |all.rows| > cap then cap else |all.rows|)
      && (capped.truncated <==> |all.rows| > cap)
  {
    TighterCapRefines(call, cap, 0, script);
    var k := FindStop(call, 0, script, 0);
    CollectExact(call, 0, script, k);
  }

  /** The unbounded run returns every row of every page: those up to the first page without a next one. */
  lemma UncappedReturnsAll(call: Call, script: seq<Reply>)
    ensures Collect(call, 0, script).outcome.Done? <==>
            exists k: nat :: StopsAt(call, 0, script, k) && LastPage(script, k)
    ensures forall k: nat :: StopsAt(call, 0, script, k) && LastPage(script, k) ==>
              Collect(call, 0, script).outcome == Done(ColumnsOf(script, k + 1), RowsOf(script, k + 1), false)
  {
    var k := FindStop(call, 0, script, 0);
    CollectExact(call, 0, script, k);
    forall j: nat | StopsAt(call, 0, script, j) ensures j == k {
      StopUnique(call, 0, script, j, k);
    }
  }

  predicate LastPage(script: seq<Reply>, k: nat) {
    k < |script| && script[k].Page? && script[k].error.None? && script[k].nextUri == ""
  }

  lemma StopUnique(call: Call, cap: int, script: seq<Reply>, j: nat, k: nat)
    requires StopsAt(call, cap, script, j) && StopsAt(call, cap, script, k)
    ensures j == k
  {
  }

  /** The outcome of every run, by the reply at its first stopping page k. */
  lemma OutcomeExact(call: Call, cap: int, script: seq<Reply>, k: nat)
    requires StopsAt(call, cap, script, k)
    ensures var outcome := Collect(call, cap, script).outcome;
      && (outcome == Failed(Transport) <==> k == |script| || script[k].Broken?)
      && (outcome == Failed(BadBody) <==> k < |script| && script[k].Undecodable?)
      && (forall m :: outcome == Failed(Engine(m)) <==> k < |script| && script[k].Page? && script[k].error == Some(m))
      && (outcome == Failed(BadUrl) <==> Readable(script, k) && !Overflows(cap, script, k)
                                         && script[k].nextUri != "" && call.parse(script[k].nextUri).None?)
      && (outcome.Done? <==> Readable(script, k) && (Overflows(cap, script, k) || script[k].nextUri == ""))
      && outcome != Failed(NoCredential)
  {
    CollectExact(call, cap, script, k);
  }

  predicate Readable(script: seq<Reply>, k: nat) {
    k < |script| && script[k].Page? && script[k].error.None?
  }

  /** The rows of the first i pages, page by page in the order of arrival. */
  lemma {:induction false} RowsInOrder(script: seq<Reply>, j: nat, i: nat)
    requires j < i <= |script| && forall p: nat :: p < i ==> script[p].Page?
    ensures |RowsOf(script, j)| + |script[j].data| <= |RowsOf(script, i)|
    ensures RowsOf(script, i)[|RowsOf(script, j)|..][..|script[j].data|] == script[j].data
    ensures |RowsOf(script, 0)| == 0 && |RowsOf(script, j + 1)| == |RowsOf(script, j)| + |script[j].data|
  {
    if j < i - 1 {
      RowsInOrder(script, j, i - 1);
    }
  }

  /** The columns are those of the first page that names any. */
  lemma {:induction false} ColumnsAreFirst(script: seq<Reply>, j: nat, i: nat)
    requires j < i <= |script| && (forall p: nat :: p < i ==> script[p].Page?)
    requires forall p: nat :: p < j ==> script[p].columns == []
    ensures script[j].columns != [] || j == i - 1 ==> ColumnsOf(script, i) == script[j].columns
    decreases i
  {
    if i > 1 {
      ColumnsAreFirst(script, if j < i - 1 then j else i - 2, i - 1);
    }
  }

  /** The cancel discipline. With k the first stopping page, a run sends k + 1 page requests and then at most one
      DELETE; the DELETE is sent exactly after a failed GET, aimed at that GET's own URL, or on truncation with a
      next page, aimed at that page's nextUri; and no DELETE when that URL does not parse. */
  lemma CancelDiscipline(call: Call, cap: int, script: seq<Reply>)
    ensures exists k: nat :: StopsAt(call, cap, script, k) && Disciplined(call, cap, script, k)
  {
    var k := FindStop(call, cap, script, 0);
    CollectExact(call, cap, script, k);
    var trace := Collect(call, cap, script).trace;
    forall i | 0 < i <= k ensures FollowsPage(call, script, trace, i) {
      assert Continues(call, cap, script, i - 1);
      assert trace[i] == Requests(call, script, 0, k)[i];
    }
    assert Disciplined(call, cap, script, k);
  }

  /** Request i goes to the nextUri of the page before it. */
  predicate FollowsPage(call: Call, script: seq<Reply>, trace: seq<Request>, i: nat)
    requires 0 < i <= |script| && i < |trace|
  {
    && script[i - 1].Page? && call.parse(script[i - 1].nextUri).Some?
    && trace[i] == Request(Get, call.parse(script[i - 1].nextUri).value, "", call.cred, call.catalog, call.schema)
  }

  ghost predicate Disciplined(call: Call, cap: int, script: seq<Reply>, k: nat)
    requires k <= |script|
  {
    var run := Collect(call, cap, script);
    var lost := run.outcome == Failed(Transport) && k > 0;
    var last := ReplyAt(script, k);
    var cut := run.outcome.Done? && run.outcome.truncated && last.Page? && last.nextUri != "";
    var before := ReplyAt(script, if k == 0 then 0 else k - 1);
    var lostUrl := if before.Page? && call.parse(before.nextUri).Some? then call.parse(before.nextUri).value else "";
    var target := if lost then lostUrl else if cut then last.nextUri else "";
    && k + 1 <= |run.trace| <= k + 2
    && run.trace[0] == Request(Post, call.post, call.sql, call.cred, call.catalog, call.schema)
    && (forall i :: 0 < i <= k ==> FollowsPage(call, script, run.trace, i))
    && (|run.trace| == k + 2 <==> (lost || cut) && call.parse(target).Some?)
    && (|run.trace| == k + 2 ==>
          run.trace[k + 1] == Request(Delete, call.parse(target).value, "", call.cred, "", ""))
  }

  /** A cap bounds the rows of every run, and truncation fills it. */
  lemma CapHolds(call: Call, cap: int, script: seq<Reply>)
    requires cap > 0 && Collect(call, cap, script).outcome.Done?
    ensures var done := Collect(call, cap, script).outcome;
      |done.rows| <= cap && (done.truncated ==> |done.rows| == cap)
  {
    var k := FindStop(call, cap, script, 0);
    CollectExact(call, cap, script, k);
  }

  /** The statement is sent once, as given, and nothing else is posted. */
  lemma PostsOnce(call: Call, cap: int, script: seq<Reply>)
    ensures var trace := Collect(call, cap, script).trace;
      && trace != [] && trace[0] == Request(Post, call.post, call.sql, call.cred, call.catalog, call.schema)
      && forall i :: 0 < i < |trace| ==> !trace[i].verb.Post?
  {
    var k := FindStop(call, cap, script, 0);
    CollectExact(call, cap, script, k);
  }

  /** Every reply that is a page carries at least one row. */
  predicate NoEmptyPage(script: seq<Reply>) {
    forall i :: 0 <= i < |script| && script[i].Page? ==> script[i].data != []
  }

  lemma {:induction false} RowsAtLeast(script: seq<Reply>, i: nat)
    requires NoEmptyPage(script) && i <= |script| && forall j: nat :: j < i ==> script[j].Page?
    ensures |RowsOf(script, i)| >= i
  {
    if i > 0 {
      RowsAtLeast(script, i - 1);
    }
  }

  lemma CappedStop(call: Call, cap: int, script: seq<Reply>, k: nat)
    requires cap > 0 && NoEmptyPage(script) && StopsAt(call, cap, script, k)
    ensures k <= cap
  {
    if k > 0 {
      assert Continues(call, cap, script, k - 1);
      forall j: nat | j < k ensures script[j].Page? {
        assert Continues(call, cap, script, j);
      }
      RowsAtLeast(script, k);
    }
  }

  /** With a cap and no empty page the run is short: at most cap + 1 page requests, and one DELETE. */
  lemma CappedRunIsShort(call: Call, cap: int, script: seq<Reply>)
    requires cap > 0 && NoEmptyPage(script)
    ensures var trace := Collect(call, cap, script).trace; |PageRequests(trace)| <= cap + 1 && |trace| <= cap + 2
  {
    var k := FindStop(call, cap, script, 0);
    CappedStop(call, cap, script, k);
    CollectExact(call, cap, script, k);
    PageRequestsOf(call, cap, script, k);
  }

  /** Such a run never looks past the first cap + 1 replies, whatever the coordinator still offers. */
  lemma CappedRunLooksNoFurther(call: Call, cap: int, script: seq<Reply>, more: seq<Reply>)
    requires cap > 0 && |script| == cap + 1 && NoEmptyPage(script)
    ensures var run, longer := Collect(call, cap, script), Collect(call, cap, script + more);
      run.outcome == longer.outcome && run.trace == longer.trace
  {
    var k := FindStop(call, cap, script, 0);
    CappedStop(call, cap, script, k);
    SameStart(call, cap, script, more, k);
    CollectExact(call, cap, script, k);
    CollectExact(call, cap, script + more, k);
  }

  lemma {:induction false} RowsOfFront(script: seq<Reply>, more: seq<Reply>, i: nat)
    requires i <= |script|
    ensures RowsOf(script + more, i) == RowsOf(script, i) && ColumnsOf(script + more, i) == ColumnsOf(script, i)
  {
    if i > 0 {
      RowsOfFront(script, more, i - 1);
    }
  }

  lemma SameStart(call: Call, cap: int, script: seq<Reply>, more: seq<Reply>, k: nat)
    requires StopsAt(call, cap, script, k) && k < |script|
    ensures StopsAt(call, cap, script + more, k)
    ensures OutcomeAt(cap, script + more, k) == OutcomeAt(cap, script, k)
    ensures CancelAt(call, cap, script + more, k) == CancelAt(call, cap, script, k)
    ensures Requests(call, script + more, 0, k) == Requests(call, script, 0, k)
  {
    forall i: nat | i < |script| ensures Continues(call, cap, script + more, i) == Continues(call, cap, script, i) {
      RowsOfFront(script, more, i + 1);
    }
    RowsOfFront(script, more, k + 1);
    assert forall i: nat :: i <= k ==> RequestAt(call, script + more, i) == RequestAt(call, script, i);
  }

  // ---- the client ----

  /** The coordinator as the client sees it: it answers page requests in order and ignores cancellations. */
  class Coordinator {
    var script: seq<Reply>
    var log: seq<Request>

    constructor (replies: seq<Reply>)
      ensures script == replies && log == []
    {
      script, log := replies, [];
    }

    method Send(req: Request) returns (reply: Reply)
      modifies this
      ensures log == old(log) + [req]
      ensures if old(script) == [] then reply == Broken && script == []
              else reply == old(script)[0] && script == old(script)[1..]
    {
      log := log + [req];
      if script == [] {
        return Broken;
      }
      reply, script := script[0], script[1..];
    }

    method Cancel(call: Call, uri: string)
      modifies this`log
      ensures log == old(log) + call.Cancel(uri)
    {
      match call.parse(uri)
      case None =>
      case Some(url) => log := log + [Request(Delete, url, "", call.cred, "", "")];
    }
  }

  class Client {
    const endpoint: string
    const parse: string -> Option<string>
    const coordinator: Coordinator

    constructor (endpoint: string, parse: string -> Option<string>, coordinator: Coordinator)
      ensures this.endpoint == endpoint && this.parse == parse && this.coordinator == coordinator
    {
      this.endpoint, this.parse, this.coordinator := endpoint, parse, coordinator;
    }

    /** What collect does for a resolved credential, or for a credential that does not resolve. */
    function CollectRun(cred: Option<Credential>, sql: string, catalog: string, schema: string, maxRows: int,
                        script: seq<Reply>): Run
    {
      match cred
      case None => Run(Failed(NoCredential), [], script)
      case Some(c) =>
        match parse(endpoint + "/v1/statement")
        case None => Run(Failed(BadUrl), [], script)
        case Some(post) => Collect(Call(post, sql, c, catalog, schema, parse), maxRows, script)
    }

    method CollectRows(cred: Option<Credential>, sql: string, catalog: string, schema: string, maxRows: int)
      returns (outcome: Outcome)
      modifies coordinator
      ensures var run := CollectRun(cred, sql, catalog, schema, maxRows, old(coordinator.script));
        && outcome == run.outcome
        && coordinator.log == old(coordinator.log) + run.trace
        && coordinator.script == run.left
    {
      if cred.None? {
        return Failed(NoCredential);
      }
      var post := parse(endpoint + "/v1/statement");
      if post.None? {
        return Failed(BadUrl);
      }
      var call := Call(post.value, sql, cred.value, catalog, schema, parse);
      var req := call.PostRequest();
      var cols: seq<Column>, rows: seq<Row> := [], [];
      ghost var run := Collect(call, maxRows, coordinator.script);
      while true
        invariant var ahead := Follow(call, maxRows, req, cols, rows, coordinator.script);
          && ahead.outcome == run.outcome && ahead.left == run.left
          && coordinator.log + ahead.trace == old(coordinator.log) + run.trace
        decreases |coordinator.script|
      {
        ghost var before := coordinator.log;
        var reply := coordinator.Send(req);
        match reply
        case Broken =>
          if req.verb.Get? {
            coordinator.Cancel(call, req.url);
          }
          return Failed(Transport);
        case Undecodable => return Failed(BadBody);
        case Page(nextUri, columns, data, error) =>
          if error.Some? {
            return Failed(Engine(error.value));
          }
          if |cols| == 0 && |columns| > 0 {
            cols := columns;
          }
          rows := rows + data;
          if maxRows > 0 && |rows| > maxRows {
            if nextUri != "" {
              coordinator.Cancel(call, nextUri);
            }
            return Done(cols, rows[..maxRows], true);
          }
          if nextUri == "" {
            return Done(cols, rows, false);
          }
          var next := parse(nextUri);
          if next.None? {
            return Failed(BadUrl);
          }
          ghost var ahead := Follow(call, maxRows, call.GetRequest(next.value), cols, rows, coordinator.script);
          assert before + ([req] + ahead.trace) == before + [req] + ahead.trace;
          req := call.GetRequest(next.value);
      }
    }
  }

  /** How a call is made from the arguments: nothing is sent without a credential or to an endpoint that does not
      parse; otherwise the statement is posted first, with all of them. */
  lemma CollectRunExact(client: Client, cred: Option<Credential>, sql: string, catalog: string, schema: string,
                        maxRows: int, script: seq<Reply>)
    ensures var run, post := client.CollectRun(cred, sql, catalog, schema, maxRows, script),
                             client.parse(client.endpoint + "/v1/statement");
      && (cred.None? ==> run == Run(Failed(NoCredential), [], script))
      && (cred.Some? && post.None? ==> run == Run(Failed(BadUrl), [], script))
      && (cred.Some? && post.Some? ==>
            && run.trace != [] && run.trace[0] == Request(Post, post.value, sql, cred.value, catalog, schema)
            && run == Collect(Call(post.value, sql, cred.value, catalog, schema, client.parse), maxRows, script))
  {
    var post := client.parse(client.endpoint + "/v1/statement");
    if cred.Some? && post.Some? {
      PostsOnce(Call(post.value, sql, cred.value, catalog, schema, client.parse), maxRows, script);
    }
  }
}
