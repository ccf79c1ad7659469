/** The configuration document: defaults filled in in place, then validation. */
module Config {
  import opened GoStrings

  datatype Auth = Auth(mode: string, scheme: string, user: string, credentialRef: string, passwordRef: string)
  datatype History = History(enabled: bool, provider: string)
  datatype Engine = Engine(id: string, endpoint: string, dialect: string, auth: Auth, history: History)
  datatype EdgeAuth = EdgeAuth(scheme: string, publicKeyRef: string)
  datatype Http = Http(host: string, port: int, tlsCertRef: string, tlsKeyRef: string, edgeAuth: Option<EdgeAuth>)

  /** A parsed endpoint, as far as validation looks at it. */
  datatype Url = Url(scheme: string, host: string)
  type UrlParser = string -> Option<Url>

  datatype EngineError =
    | MissingId | MissingEndpoint | BadEndpoint | BadScheme | MissingHost | BadDialect | BadAuthMode
    | BasicWithoutUser | BasicWithoutPassword | BasicWithoutTls | BadAuthScheme | HistoryWithoutProvider

  datatype Error =
    | BadMode | MissingPort | LoneTlsRef | MissingPublicKey | BadEdgeScheme | BadTransport
    | NoEngines
    | InEngine(index: nat, error: EngineError)
    | DuplicateId(id: string)

  // ---- defaults ----

  function DefaultMode(mode: string): string {
    if mode == "" then "local" else mode
  }

  function DefaultTransport(transport: string, mode: string): string {
    if transport != "" then transport else if mode == "enterprise" then "http" else "stdio"
  }

  function DefaultAuthMode(mode: string): string {
    if mode == "enterprise" then "passthrough" else "static"
  }

  function DefaultUser(auth: Auth): Auth {
    if auth.mode == "static" && auth.scheme != "basic" && auth.user == "" then auth.(user := "presto-mcp") else auth
  }

  function DefaultEngine(e: Engine, authMode: string): Engine {
    e.(dialect := if e.dialect == "" then "presto" else e.dialect,
       auth := DefaultUser(e.auth.(mode := if e.auth.mode == "" then authMode else e.auth.mode,
                                   scheme := if e.auth.scheme == "" then "bearer" else e.auth.scheme)))
  }

  /** Explicit values are kept, and a second pass in any deployment mode changes nothing. */
  lemma DefaultsKeepExplicit(e: Engine, authMode: string, again: string)
    requires authMode != ""
    ensures var d := DefaultEngine(e, authMode);
      && d.id == e.id && d.endpoint == e.endpoint && d.history == e.history
      && d.auth.credentialRef == e.auth.credentialRef && d.auth.passwordRef == e.auth.passwordRef
      && (e.dialect != "" ==> d.dialect == e.dialect)
      && (e.auth.mode != "" ==> d.auth.mode == e.auth.mode)
      && (e.auth.scheme != "" ==> d.auth.scheme == e.auth.scheme)
      && (e.auth.user != "" ==> d.auth.user == e.auth.user)
      && (d.auth.user == "" <==> e.auth.user == "" && (d.auth.mode != "static" || e.auth.scheme == "basic"))
      && DefaultEngine(d, again) == d
  {
  }

  /** e is raw with its gaps filled for that deployment mode, field by field. */
  predicate Filled(raw: Engine, e: Engine, mode: string) {
    && e.id == raw.id && e.endpoint == raw.endpoint && e.history == raw.history
    && e.dialect == (if raw.dialect == "" then "presto" else raw.dialect)
    && e.auth.credentialRef == raw.auth.credentialRef && e.auth.passwordRef == raw.auth.passwordRef
    && e.auth.mode == (if raw.auth.mode != "" then raw.auth.mode
                       else if mode == "enterprise" then "passthrough" else "static")
    && e.auth.scheme == (if raw.auth.scheme == "" then "bearer" else raw.auth.scheme)
    && e.auth.user == (if raw.auth.user == "" && e.auth.mode == "static" && e.auth.scheme != "basic"
                       then "presto-mcp" else raw.auth.user)
  }

  lemma FilledExact(raw: Engine, e: Engine, mode: string)
    ensures Filled(raw, e, mode) <==> e == DefaultEngine(raw, DefaultAuthMode(mode))
  {
  }

  lemma AllFilled(raw: seq<Engine>, engines: seq<Engine>, mode: string)
    requires |raw| == |engines|
    requires forall i :: 0 <= i < |raw| ==> engines[i] == DefaultEngine(raw[i], DefaultAuthMode(mode))
    ensures forall i :: 0 <= i < |raw| ==> Filled(raw[i], engines[i], mode)
  {
    forall i | 0 <= i < |raw| ensures Filled(raw[i], engines[i], mode) {
      FilledExact(raw[i], engines[i], mode);
    }
  }

  // ---- validation of one engine ----

  function EngineProblem(parse: UrlParser, e: Engine): Option<EngineError> {
    if e.id == "" then Some(MissingId)
    else if e.endpoint == "" then Some(MissingEndpoint)
    else match parse(e.endpoint)
         case None => Some(BadEndpoint)
         case Some(u) =>
           if u.scheme != "http" && u.scheme != "https" then Some(BadScheme)
           else if u.host == "" then Some(MissingHost)
           else if e.dialect !in {"presto", "trino", "wxd"} then Some(BadDialect)
           else if e.auth.mode !in {"static", "passthrough"} then Some(BadAuthMode)
           else if e.auth.scheme == "basic" && e.auth.user == "" then Some(BasicWithoutUser)
           else if e.auth.scheme == "basic" && e.auth.passwordRef == "" then Some(BasicWithoutPassword)
           else if e.auth.scheme == "basic" && u.scheme != "https" then Some(BasicWithoutTls)
           else if e.auth.scheme !in {"bearer", "", "basic"} then Some(BadAuthScheme)
           else if e.history.enabled && e.history.provider == "" then Some(HistoryWithoutProvider)
           else None
  }

  /** An engine the server may be configured with; basic credentials only travel over https. */
  predicate ValidEngine(parse: UrlParser, e: Engine) {
    && e.id != "" && e.endpoint != "" && parse(e.endpoint).Some? && parse(e.endpoint).value.host != ""
    && e.dialect in {"presto", "trino", "wxd"} && e.auth.mode in {"static", "passthrough"}
    && (if e.auth.scheme == "basic"
        then parse(e.endpoint).value.scheme == "https" && e.auth.user != "" && e.auth.passwordRef != ""
        else parse(e.endpoint).value.scheme in {"http", "https"} && e.auth.scheme in {"bearer", ""})
    && (e.history.enabled ==> e.history.provider != "")
  }

  lemma EngineProblemExact(parse: UrlParser, e: Engine)
    ensures EngineProblem(parse, e) == None <==> ValidEngine(parse, e)
  {
  }

  /** Which problem of an engine is reported: the first of these that it has. */
  lemma EngineProblemIs(parse: UrlParser, e: Engine)
    ensures var p, u := EngineProblem(parse, e), parse(e.endpoint);
      var located := e.id != "" && e.endpoint != "" && u.Some? && u.value.scheme in {"http", "https"}
                     && u.value.host != "";
      var spoken := located && e.dialect in {"presto", "trino", "wxd"} && e.auth.mode in {"static", "passthrough"};
      var basic := spoken && e.auth.scheme == "basic";
      && (p == Some(MissingId) <==> e.id == "")
      && (p == Some(MissingEndpoint) <==> e.id != "" && e.endpoint == "")
      && (p == Some(BadEndpoint) <==> e.id != "" && e.endpoint != "" && u == None)
      && (p == Some(BadScheme) <==> e.id != "" && e.endpoint != "" && u.Some? && u.value.scheme !in {"http", "https"})
      && (p == Some(MissingHost) <==> e.id != "" && e.endpoint != "" && u.Some? && u.value.scheme in {"http", "https"}
                                      && u.value.host == "")
      && (p == Some(BadDialect) <==> located && e.dialect !in {"presto", "trino", "wxd"})
      && (p == Some(BadAuthMode) <==> located && e.dialect in {"presto", "trino", "wxd"}
                                      && e.auth.mode !in {"static", "passthrough"})
      && (p == Some(BasicWithoutUser) <==> basic && e.auth.user == "")
      && (p == Some(BasicWithoutPassword) <==> basic && e.auth.user != "" && e.auth.passwordRef == "")
      && (p == Some(BasicWithoutTls) <==> basic && e.auth.user != "" && e.auth.passwordRef != ""
                                          && u.value.scheme == "http")
      && (p == Some(BadAuthScheme) <==> spoken && e.auth.scheme !in {"basic", "bearer", ""})
      && (p == Some(HistoryWithoutProvider) <==>
            && spoken && e.history.enabled && e.history.provider == ""
            && (if basic then e.auth.user != "" && e.auth.passwordRef != "" && u.value.scheme == "https"
                else e.auth.scheme in {"bearer", ""}))
  {
  }

  // ---- validation of the document ----

  function HttpProblem(http: Option<Http>): Option<Error> {
    match http
    case None => Some(MissingPort)
    case Some(h) =>
      if h.port == 0 then Some(MissingPort)
      else if (h.tlsCertRef == "") != (h.tlsKeyRef == "") then Some(LoneTlsRef)
      else match h.edgeAuth
           case None => None
           case Some(edge) =>
             if edge.scheme != "jwt_rs256" then Some(BadEdgeScheme)
             else if edge.publicKeyRef == "" then Some(MissingPublicKey)
             else None
  }

  function HeaderProblem(mode: string, transport: string, http: Option<Http>): Option<Error> {
    if mode != "local" && mode != "enterprise" then Some(BadMode)
    else if transport == "stdio" then None
    else if transport == "http" then HttpProblem(http)
    else Some(BadTransport)
  }

  /** A header the server may start with; over http it needs a port, TLS references in pairs and, if the edge checks
      tokens, RS256 with a key. */
  predicate ValidHeader(mode: string, transport: string, http: Option<Http>) {
    && mode in {"local", "enterprise"} && transport in {"stdio", "http"}
    && (transport == "http" ==> http.Some? && ValidHttp(http.value))
  }

  predicate ValidHttp(h: Http) {
    && h.port != 0 && (h.tlsCertRef == "" <==> h.tlsKeyRef == "")
    && (h.edgeAuth.Some? ==> h.edgeAuth.value.scheme == "jwt_rs256" && h.edgeAuth.value.publicKeyRef != "")
  }

  lemma HeaderProblemExact(mode: string, transport: string, http: Option<Http>)
    ensures HeaderProblem(mode, transport, http) == None <==> ValidHeader(mode, transport, http)
  {
  }

  /** Which problem of a header is reported. */
  lemma HeaderProblemIs(mode: string, transport: string, http: Option<Http>)
    ensures var p := HeaderProblem(mode, transport, http);
      var known := mode in {"local", "enterprise"};
      var served := known && transport == "http" && http.Some? && http.value.port != 0;
      var paired := served && (http.value.tlsCertRef == "" <==> http.value.tlsKeyRef == "");
      var edged := paired && http.value.edgeAuth.Some?;
      && (p == Some(BadMode) <==> !known)
      && (p == Some(BadTransport) <==> known && transport !in {"stdio", "http"})
      && (p == Some(MissingPort) <==> known && transport == "http" && !served)
      && (p == Some(LoneTlsRef) <==> served && !paired)
      && (p == Some(BadEdgeScheme) <==> edged && http.value.edgeAuth.value.scheme != "jwt_rs256")
      && (p == Some(MissingPublicKey) <==> edged && http.value.edgeAuth.value.scheme == "jwt_rs256"
                                           && http.value.edgeAuth.value.publicKeyRef == "")
  {
  }

  /** The first engine, from index i, that is invalid or repeats an id. */
  function EnginesProblem(parse: UrlParser, engines: seq<Engine>, i: nat): Option<Error>
    requires i <= |engines|
    decreases |engines| - i
  {
    if i == |engines| then None
    else if EngineProblem(parse, engines[i]).Some? then Some(InEngine(i, EngineProblem(parse, engines[i]).value))
    else if exists j :: 0 <= j < i && engines[j].id == engines[i].id then Some(DuplicateId(engines[i].id))
    else EnginesProblem(parse, engines, i + 1)
  }

  function Problem(parse: UrlParser, mode: string, transport: string, http: Option<Http>,
                   engines: seq<Engine>): Option<Error>
  {
    if HeaderProblem(mode, transport, http).Some? then HeaderProblem(mode, transport, http)
    else if engines == [] then Some(NoEngines)
    else EnginesProblem(parse, engines, 0)
  }

  predicate DistinctIds(engines: seq<Engine>) {
    forall i, j :: 0 <= i < j < |engines| ==> engines[i].id != engines[j].id
  }

  predicate ValidEngines(parse: UrlParser, engines: seq<Engine>) {
    (forall e <- engines :: ValidEngine(parse, e)) && DistinctIds(engines)
  }

  lemma {:induction false} EnginesProblemExact(parse: UrlParser, engines: seq<Engine>, i: nat)
    requires i <= |engines| && ValidEngines(parse, engines[..i])
    ensures EnginesProblem(parse, engines, i) == None <==> ValidEngines(parse, engines)
    decreases |engines| - i
  {
    if i == |engines| {
      assert engines[..i] == engines;
    } else {
      EngineProblemExact(parse, engines[i]);
      assert engines[i] in engines;
      if EnginesProblem(parse, engines, i) == EnginesProblem(parse, engines, i + 1)
         && EngineProblem(parse, engines[i]) == None
         && forall j :: 0 <= j < i ==> engines[j].id != engines[i].id
      {
        assert engines[..i + 1] == engines[..i] + [engines[i]];
        forall e | e in engines[..i + 1] ensures ValidEngine(parse, e) {
          assert e in engines[..i] || e == engines[i];
        }
        assert forall j :: 0 <= j < i ==> engines[..i + 1][j] == engines[..i][j];
        EnginesProblemExact(parse, engines, i + 1);
      }
    }
  }

  /** Validation passes exactly the documents with a proper header and at least one engine, all valid, no id twice. */
  lemma ProblemExact(parse: UrlParser, mode: string, transport: string, http: Option<Http>, engines: seq<Engine>)
    ensures Problem(parse, mode, transport, http, engines) == None <==>
            ValidHeader(mode, transport, http) && engines != [] && ValidEngines(parse, engines)
  {
    HeaderProblemExact(mode, transport, http);
    EnginesProblemExact(parse, engines, 0);
  }

  /** Engine i repeats an id, and nothing before it is wrong. */
  ghost predicate RepeatsAt(parse: UrlParser, engines: seq<Engine>, i: int, id: string) {
    && 0 <= i < |engines| && ValidEngines(parse, engines[..i]) && ValidEngine(parse, engines[i])
    && engines[i].id == id && exists j :: 0 <= j < i && engines[j].id == id
  }

  /** Engine i has that problem, and nothing before it is wrong. */
  ghost predicate FailsAt(parse: UrlParser, engines: seq<Engine>, i: int, error: EngineError) {
    0 <= i < |engines| && ValidEngines(parse, engines[..i]) && EngineProblem(parse, engines[i]) == Some(error)
  }

  lemma ValidUpTo(parse: UrlParser, engines: seq<Engine>, i: nat)
    requires i < |engines| && ValidEngines(parse, engines[..i])
    ensures ValidEngines(parse, engines[..i + 1]) <==>
            ValidEngine(parse, engines[i]) && forall j :: 0 <= j < i ==> engines[j].id != engines[i].id
  {
    assert engines[..i + 1] == engines[..i] + [engines[i]];
    assert forall j :: 0 <= j < i ==> engines[..i + 1][j] == engines[..i][j] == engines[j];
    assert engines[..i + 1][i] in engines[..i + 1];
    if ValidEngine(parse, engines[i]) {
      forall e | e in engines[..i + 1] ensures ValidEngine(parse, e) {
        assert e in engines[..i] || e == engines[i];
      }
    }
  }

  /** Behind an engine with which something is wrong, nothing is reported. */
  lemma WrongAt(parse: UrlParser, engines: seq<Engine>, i: nat, k: nat)
    requires i < k <= |engines| && !ValidEngines(parse, engines[..i + 1])
    ensures !ValidEngines(parse, engines[..k])
  {
    assert engines[..k][..i + 1] == engines[..i + 1];
    assert forall e <- engines[..i + 1] :: e in engines[..k];
    assert forall j :: 0 <= j <= i ==> engines[..k][j] == engines[..i + 1][j];
  }

  lemma WrongHere(parse: UrlParser, engines: seq<Engine>, i: nat)
    requires i < |engines| && ValidEngines(parse, engines[..i])
    ensures (exists error :: FailsAt(parse, engines, i, error)) || (exists id :: RepeatsAt(parse, engines, i, id)) <==>
            !ValidEngines(parse, engines[..i + 1])
  {
    ValidUpTo(parse, engines, i);
    EngineProblemExact(parse, engines[i]);
    if EngineProblem(parse, engines[i]).Some? {
      assert FailsAt(parse, engines, i, EngineProblem(parse, engines[i]).value);
    } else if !ValidEngines(parse, engines[..i + 1]) {
      assert RepeatsAt(parse, engines, i, engines[i].id);
    }
  }

  /** Something is wrong with engine k, and nothing before it. */
  ghost predicate FirstWrong(parse: UrlParser, engines: seq<Engine>, k: int) {
    0 <= k < |engines| && ValidEngines(parse, engines[..k]) && !ValidEngines(parse, engines[..k + 1])
  }

  lemma FirstWrongUnique(parse: UrlParser, engines: seq<Engine>, j: nat, k: nat)
    requires FirstWrong(parse, engines, j) && FirstWrong(parse, engines, k)
    ensures j == k
  {
    if j < k {
      WrongAt(parse, engines, j, k);
    } else if k < j {
      WrongAt(parse, engines, k, j);
    }
  }

  /** Where the pass over the engines stops, and with what. */
  lemma {:induction false} EnginesProblemAt(parse: UrlParser, engines: seq<Engine>, i: nat) returns (k: nat)
    requires i <= |engines| && ValidEngines(parse, engines[..i])
    ensures k == |engines| || FirstWrong(parse, engines, k)
    ensures k == |engines| ==> EnginesProblem(parse, engines, i) == None && ValidEngines(parse, engines)
    ensures k < |engines| ==>
              EnginesProblem(parse, engines, i) == if EngineProblem(parse, engines[k]).Some?
                                                   then Some(InEngine(k, EngineProblem(parse, engines[k]).value))
                                                   else Some(DuplicateId(engines[k].id))
    decreases |engines| - i
  {
    k := i;
    if i == |engines| {
      assert engines[..i] == engines;
    } else {
      ValidUpTo(parse, engines, i);
      EngineProblemExact(parse, engines[i]);
      if ValidEngines(parse, engines[..i + 1]) {
        k := EnginesProblemAt(parse, engines, i + 1);
      }
    }
  }

  lemma OnlyFirstWrong(parse: UrlParser, engines: seq<Engine>, k: nat)
    requires FailsSomehow(parse, engines, k)
    ensures FirstWrong(parse, engines, k)
  {
    WrongHere(parse, engines, k);
  }

  ghost predicate FailsSomehow(parse: UrlParser, engines: seq<Engine>, k: int) {
    (exists error :: FailsAt(parse, engines, k, error)) || (exists id :: RepeatsAt(parse, engines, k, id))
  }

  lemma NothingWrong(parse: UrlParser, engines: seq<Engine>, k: int)
    requires ValidEngines(parse, engines)
    ensures !FailsSomehow(parse, engines, k)
  {
    assert engines[..|engines|] == engines;
    if FailsSomehow(parse, engines, k) {
      OnlyFirstWrong(parse, engines, k);
      WrongAt(parse, engines, k, |engines|);
    }
  }

  lemma EnginesProblemIs(parse: UrlParser, engines: seq<Engine>)
    ensures forall k: nat, error :: EnginesProblem(parse, engines, 0) == Some(InEngine(k, error)) <==>
                                      FailsAt(parse, engines, k, error)
    ensures forall id :: EnginesProblem(parse, engines, 0) == Some(DuplicateId(id)) <==>
                           exists k :: RepeatsAt(parse, engines, k, id)
    ensures EnginesProblem(parse, engines, 0) != Some(NoEngines)
  {
    var k := EnginesProblemAt(parse, engines, 0);
    if k < |engines| {
      WrongHere(parse, engines, k);
      EngineProblemExact(parse, engines[k]);
    }
    forall j: nat, error | FailsAt(parse, engines, j, error) ensures j == k < |engines| {
      if k == |engines| {
        NothingWrong(parse, engines, j);
      } else {
        OnlyFirstWrong(parse, engines, j);
        FirstWrongUnique(parse, engines, j, k);
      }
    }
    forall j: nat, id | RepeatsAt(parse, engines, j, id) ensures j == k < |engines| {
      if k == |engines| {
        NothingWrong(parse, engines, j);
      } else {
        OnlyFirstWrong(parse, engines, j);
        FirstWrongUnique(parse, engines, j, k);
      }
    }
  }

  /** Which problem of a document is reported: the first one of the header, then the lack of engines, then the first
      engine with which something is wrong, its own problem or the id that it repeats. */
  lemma ProblemIs(parse: UrlParser, mode: string, transport: string, http: Option<Http>, engines: seq<Engine>)
    ensures var p := Problem(parse, mode, transport, http, engines);
      && (HeaderProblem(mode, transport, http).Some? ==> p == HeaderProblem(mode, transport, http))
      && (p == Some(NoEngines) <==> ValidHeader(mode, transport, http) && engines == [])
      && (forall k: nat, error :: p == Some(InEngine(k, error)) <==>
            ValidHeader(mode, transport, http) && FailsAt(parse, engines, k, error))
      && (forall id :: p == Some(DuplicateId(id)) <==>
            ValidHeader(mode, transport, http) && exists k :: RepeatsAt(parse, engines, k, id))
  {
    HeaderProblemExact(mode, transport, http);
    EnginesProblemIs(parse, engines);
  }

  // ---- the document ----

  class Document {
    var deploymentMode: string
    var transport: string
    var http: Option<Http>
    const engines: array<Engine>

    constructor (deploymentMode: string, transport: string, http: Option<Http>, engines: array<Engine>)
      ensures this.deploymentMode == deploymentMode && this.transport == transport
      ensures this.http == http && this.engines == engines
    {
      this.deploymentMode, this.transport, this.http, this.engines := deploymentMode, transport, http, engines;
    }

    method ApplyDefaults()
      modifies this`deploymentMode, this`transport, engines
      ensures deploymentMode == if old(deploymentMode) == "" then "local" else old(deploymentMode)
      ensures transport == if old(transport) != "" then old(transport)
                           else if deploymentMode == "enterprise" then "http" else "stdio"
      ensures forall i :: 0 <= i < engines.Length ==> Filled(old(engines[i]), engines[i], deploymentMode)
      ensures deploymentMode == DefaultMode(old(deploymentMode))
      ensures transport == DefaultTransport(old(transport), deploymentMode)
      ensures forall i :: 0 <= i < engines.Length ==>
                engines[i] == DefaultEngine(old(engines[i]), DefaultAuthMode(deploymentMode))
    {
      ghost var raw := engines[..];
      if deploymentMode == "" {
        deploymentMode := "local";
      }
      if transport == "" {
        if deploymentMode == "enterprise" {
          transport := "http";
        } else {
          transport := "stdio";
        }
      }
      var defaultAuth := "static";
      if deploymentMode == "enterprise" {
        defaultAuth := "passthrough";
      }
      FillEngines(defaultAuth);
      AllFilled(raw, engines[..], deploymentMode);
    }

    /** The part of ApplyDefaults that visits the engines. */
    method FillEngines(defaultAuth: string)
      modifies engines
      ensures forall i :: 0 <= i < engines.Length ==> engines[i] == DefaultEngine(old(engines[i]), defaultAuth)
    {
      ghost var raw := engines[..];
      for i := 0 to engines.Length
        modifies engines
        invariant forall k :: 0 <= k < i ==> engines[k] == DefaultEngine(raw[k], defaultAuth)
        invariant forall k :: i <= k < engines.Length ==> engines[k] == raw[k]
      {
        var e := engines[i];
        if e.dialect == "" {
          e := e.(dialect := "presto");
        }
        var auth := e.auth;
        if auth.mode == "" {
          auth := auth.(mode := defaultAuth);
        }
        if auth.scheme == "" {
          auth := auth.(scheme := "bearer");
        }
        if auth.mode == "static" && auth.scheme != "basic" && auth.user == "" {
          auth := auth.(user := "presto-mcp");
        }
        engines[i] := e.(auth := auth);
      }
    }

    method Validate(parse: UrlParser) returns (error: Option<Error>)
      ensures error == Problem(parse, deploymentMode, transport, http, engines[..])
    {
      if deploymentMode != "local" && deploymentMode != "enterprise" {
        return Some(BadMode);
      }
      if transport == "http" {
        error := HttpProblem(http);
        if error.Some? {
          return;
        }
      } else if transport != "stdio" {
        return Some(BadTransport);
      }
      if engines.Length == 0 {
        return Some(NoEngines);
      }
      var seen: set<string> := {};
      ghost var all := engines[..];
      for i := 0 to engines.Length
        invariant forall id :: id in seen <==> exists j :: 0 <= j < i && all[j].id == id
        invariant EnginesProblem(parse, all, i) == EnginesProblem(parse, all, 0)
      {
        var problem := EngineProblem(parse, engines[i]);
        if problem.Some? {
          return Some(InEngine(i, problem.value));
        }
        var id := engines[i].id;
        if id in seen {
          return Some(DuplicateId(id));
        }
        seen := seen + {id};
      }
      return None;
    }
  }
}
