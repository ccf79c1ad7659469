/** The registry of engines: construction from a configuration, and its index. */
module Registry {
  import opened GoStrings
  import Config

  type EngineConfig = Config.Engine

  /** What a reference resolves to, if it does: an environment variable or a file. */
  type Resolver = string -> Option<string>

  datatype Provider =
    | Bearer(user: string, token: string)
    | Basic(user: string, password: string)
    | Passthrough(fallbackUser: string)

  datatype Engine = Engine(config: EngineConfig, headerPrefix: string, provider: Provider)

  datatype CredentialError = MissingUser | MissingPassword | Unresolved(ref: string) | UnknownScheme | UnknownMode
  datatype BuildError =
    | InCredentials(id: string, error: CredentialError)
    | InClient(id: string, dialect: string)
    | InHistory(id: string, provider: string)

  datatype Result<+T, +E> = Ok(value: T) | Err(error: E)

  function NewStatic(user: string, credentialRef: string, resolve: Resolver): Result<Provider, CredentialError> {
    if user == "" then Err(MissingUser)
    else if credentialRef == "" then Ok(Bearer(user, ""))
    else match resolve(credentialRef)
         case None => Err(Unresolved(credentialRef))
         case Some(token) => Ok(Bearer(user, token))
  }

  function NewBasic(user: string, passwordRef: string, resolve: Resolver): Result<Provider, CredentialError> {
    if user == "" then Err(MissingUser)
    else if passwordRef == "" then Err(MissingPassword)
    else match resolve(passwordRef)
         case None => Err(Unresolved(passwordRef))
         case Some(password) => Ok(Basic(user, password))
  }

  function DefaultCredentialFactory(e: EngineConfig, resolve: Resolver): Result<Provider, CredentialError> {
    if e.auth.mode == "static" then
      if e.auth.scheme == "basic" then NewBasic(e.auth.user, e.auth.passwordRef, resolve)
      else if e.auth.scheme == "bearer" || e.auth.scheme == ""
      then NewStatic(e.auth.user, e.auth.credentialRef, resolve)
      else Err(UnknownScheme)
    else if e.auth.mode == "passthrough" then Ok(Passthrough(e.auth.user))
    else Err(UnknownMode)
  }

  /** The header prefix of a supported dialect. */
  function DialectFor(dialect: string): Option<string> {
    if dialect == "trino" then Some("X-Trino-") else if dialect == "presto" then Some("X-Presto-") else None
  }

  /** One engine: credentials first, then the client, then history. */
  function Build(e: EngineConfig, resolve: Resolver): Result<Engine, BuildError> {
    match DefaultCredentialFactory(e, resolve)
    case Err(error) => Err(InCredentials(e.id, error))
    case Ok(provider) =>
      match DialectFor(e.dialect)
      case None => Err(InClient(e.id, e.dialect))
      case Some(prefix) =>
        if e.history.enabled then Err(InHistory(e.id, e.history.provider)) else Ok(Engine(e, prefix, provider))
  }

  /** The engine that is built: the dialect's header prefix, and a provider that holds the resolved secret. */
  predicate Wired(e: EngineConfig, resolve: Resolver, built: Engine) {
    && built.config == e
    && (e.dialect == "trino" ==> built.headerPrefix == "X-Trino-")
    && (e.dialect == "presto" ==> built.headerPrefix == "X-Presto-")
    && e.dialect in {"trino", "presto"} && e.auth.mode in {"static", "passthrough"}
    && (e.auth.mode == "passthrough" ==> built.provider == Passthrough(e.auth.user))
    && (e.auth.mode == "static" && e.auth.scheme == "basic" ==>
          built.provider.Basic? && built.provider.user == e.auth.user
          && Some(built.provider.password) == resolve(e.auth.passwordRef))
    && (e.auth.mode == "static" && e.auth.scheme != "basic" ==>
          built.provider.Bearer? && built.provider.user == e.auth.user
          && (if e.auth.credentialRef == "" then built.provider.token == ""
              else Some(built.provider.token) == resolve(e.auth.credentialRef)))
  }

  lemma BuildWires(e: EngineConfig, resolve: Resolver)
    requires Build(e, resolve).Ok?
    ensures Wired(e, resolve, Build(e, resolve).value)
  {
  }

  /** Which error is reported when an engine cannot be built: credentials first, then the dialect, then history. */
  lemma BuildErrorIs(e: EngineConfig, resolve: Resolver)
    ensures var fixed, basic := e.auth.mode == "static", e.auth.scheme == "basic";
      var bearer := e.auth.scheme in {"bearer", ""};
      var ref := if basic then e.auth.passwordRef else e.auth.credentialRef;
      var named := fixed && (basic || bearer) && e.auth.user != "";
      var b := Build(e, resolve);
      var failed := (error: CredentialError) => b == Err(InCredentials(e.id, error));
      && (failed(UnknownMode) <==> e.auth.mode !in {"static", "passthrough"})
      && (failed(UnknownScheme) <==> fixed && !basic && !bearer)
      && (failed(MissingUser) <==> fixed && (basic || bearer) && e.auth.user == "")
      && (failed(MissingPassword) <==> named && basic && ref == "")
      && (failed(Unresolved(ref)) <==> named && ref != "" && resolve(ref) == None)
      && (b == Err(InClient(e.id, e.dialect)) <==>
            (b.Err? ==> !b.error.InCredentials?) && e.dialect !in {"trino", "presto"})
      && (b == Err(InHistory(e.id, e.history.provider)) <==>
            (b.Err? ==> !b.error.InCredentials?) && e.dialect in {"trino", "presto"} && e.history.enabled)
  {
  }

  // ---- when construction succeeds ----

  /** The reference that must resolve before an engine can be used, if any. */
  function NeededRef(e: EngineConfig): Option<string> {
    if e.auth.mode != "static" then None
    else if e.auth.scheme == "basic" then Some(e.auth.passwordRef)
    else if e.auth.credentialRef != "" then Some(e.auth.credentialRef)
    else None
  }

  predicate Buildable(e: EngineConfig, resolve: Resolver) {
    e.dialect != "wxd" && !e.history.enabled && (NeededRef(e).Some? ==> resolve(NeededRef(e).value).Some?)
  }

  /** An engine that passed validation is built exactly when its dialect is not wxd, it enables no history, the
      reference it needs resolves, and static credentials name a user. */
  lemma ValidatedEngineBuilds(parse: Config.UrlParser, e: EngineConfig, resolve: Resolver)
    requires Config.ValidEngine(parse, e)
    ensures Build(e, resolve).Ok? <==> Buildable(e, resolve) && (e.auth.mode == "static" ==> e.auth.user != "")
  {
  }

  /** Defaults name the user: after them and validation, an engine is built exactly when its dialect is not wxd, it
      enables no history and the reference it needs resolves. */
  lemma DefaultedEngineBuilds(parse: Config.UrlParser, raw: EngineConfig, authMode: string, resolve: Resolver)
    requires authMode == "static" || authMode == "passthrough"
    requires Config.ValidEngine(parse, Config.DefaultEngine(raw, authMode))
    ensures var e := Config.DefaultEngine(raw, authMode); Build(e, resolve).Ok? <==> Buildable(e, resolve)
  {
    Config.DefaultsKeepExplicit(raw, authMode, authMode);
    ValidatedEngineBuilds(parse, Config.DefaultEngine(raw, authMode), resolve);
  }

  /** That condition is needed: without defaults a valid bearer engine may lack the user that its provider needs. */
  lemma ValidatedButUnbuildable()
    ensures var auth := Config.Auth("static", "bearer", "", "", "");
      var e := Config.Engine("e", "http://h", "presto", auth, Config.History(false, ""));
      var parse := (s: string) => Some(Config.Url("http", "h"));
      var resolve := (s: string) => Some("");
      Config.ValidEngine(parse, e) && Buildable(e, resolve) && !Build(e, resolve).Ok?
  {
  }

  // ---- all engines ----

  function FirstFailure(engines: seq<EngineConfig>, resolve: Resolver, i: nat): Option<BuildError>
    requires i <= |engines|
    decreases |engines| - i
  {
    if i == |engines| then None
    else if Build(engines[i], resolve).Err? then Some(Build(engines[i], resolve).error)
    else FirstFailure(engines, resolve, i + 1)
  }

  predicate AllBuild(engines: seq<EngineConfig>, resolve: Resolver) {
    forall e <- engines :: Build(e, resolve).Ok?
  }

  lemma {:induction false} FirstFailureExact(engines: seq<EngineConfig>, resolve: Resolver, i: nat)
    requires i <= |engines| && forall j :: 0 <= j < i ==> Build(engines[j], resolve).Ok?
    ensures FirstFailure(engines, resolve, i) == None <==> AllBuild(engines, resolve)
    decreases |engines| - i
  {
    if i < |engines| {
      assert engines[i] in engines;
      if Build(engines[i], resolve).Ok? {
        FirstFailureExact(engines, resolve, i + 1);
      }
    }
  }

  /** The error reported is that of the first engine that does not build. */
  lemma {:induction false} FirstFailureIs(engines: seq<EngineConfig>, resolve: Resolver, i: nat, error: BuildError)
    requires i <= |engines|
    ensures FirstFailure(engines, resolve, i) == Some(error) <==>
            exists k :: i <= k < |engines| && Build(engines[k], resolve) == Err(error)
                        && forall j :: i <= j < k ==> Build(engines[j], resolve).Ok?
    decreases |engines| - i
  {
    if i < |engines| && Build(engines[i], resolve).Ok? {
      FirstFailureIs(engines, resolve, i + 1, error);
    }
  }

  /** A document that was defaulted and passed validation yields a registry exactly when every engine is buildable. */
  lemma RegistrySucceeds(parse: Config.UrlParser, resolve: Resolver, mode: string, transport: string,
                         http: Option<Config.Http>, raw: seq<EngineConfig>, engines: seq<EngineConfig>)
    requires |engines| == |raw|
    requires forall i :: 0 <= i < |raw| ==> engines[i] == Config.DefaultEngine(raw[i], Config.DefaultAuthMode(mode))
    requires Config.Problem(parse, mode, transport, http, engines) == None
    ensures FirstFailure(engines, resolve, 0) == None <==> forall e <- engines :: Buildable(e, resolve)
  {
    Config.ProblemExact(parse, mode, transport, http, engines);
    FirstFailureExact(engines, resolve, 0);
    forall e | e in engines ensures Build(e, resolve).Ok? <==> Buildable(e, resolve) {
      var i :| 0 <= i < |engines| && engines[i] == e;
      DefaultedEngineBuilds(parse, raw[i], Config.DefaultAuthMode(mode), resolve);
    }
  }

  // ---- the index ----

  /** The engines built so far by id; a later engine replaces an earlier one of the same id. */
  function IndexOf(engines: seq<EngineConfig>, resolve: Resolver, n: nat): map<string, Engine>
    requires n <= |engines| && AllBuild(engines, resolve)
  {
    if n == 0 then map[]
    else
      assert engines[n - 1] in engines;
      IndexOf(engines, resolve, n - 1)[engines[n - 1].id := Build(engines[n - 1], resolve).value]
  }

  /** The first engine of that id, by linear search. */
  function Find(engines: seq<EngineConfig>, resolve: Resolver, id: string): Option<Engine>
    requires AllBuild(engines, resolve)
  {
    if engines == [] then None
    else if engines[0].id == id then assert engines[0] in engines; Some(Build(engines[0], resolve).value)
    else
      assert forall e <- engines[1..] :: e in engines;
      Find(engines[1..], resolve, id)
  }

  predicate SameIdSameEngine(engines: seq<EngineConfig>, resolve: Resolver) {
    forall i, j :: 0 <= i < j < |engines| && engines[i].id == engines[j].id ==>
                     Build(engines[i], resolve) == Build(engines[j], resolve)
  }

  /** What the index holds for an id is the engine configured last under it. */
  lemma {:induction false} IndexHoldsLast(engines: seq<EngineConfig>, resolve: Resolver, n: nat, id: string)
    returns (k: nat)
    requires n <= |engines| && AllBuild(engines, resolve)
    ensures id !in IndexOf(engines, resolve, n) ==> forall i :: 0 <= i < n ==> engines[i].id != id
    ensures id in IndexOf(engines, resolve, n) ==>
              && k < n && engines[k].id == id && Build(engines[k], resolve).Ok?
              && IndexOf(engines, resolve, n)[id] == Build(engines[k], resolve).value
              && forall i :: k < i < n ==> engines[i].id != id
  {
    k := 0;
    if n > 0 {
      assert engines[n - 1] in engines;
      if engines[n - 1].id == id {
        k := n - 1;
      } else {
        k := IndexHoldsLast(engines, resolve, n - 1, id);
      }
    }
  }

  /** Listing the index by the configured ids follows the configuration exactly when engines that share an id build
      the same engine. */
  lemma ListExact(engines: seq<EngineConfig>, resolve: Resolver)
    requires AllBuild(engines, resolve)
    ensures var index := IndexOf(engines, resolve, |engines|);
      (forall i :: 0 <= i < |engines| ==>
         engines[i].id in index && Ok(index[engines[i].id]) == Build(engines[i], resolve))
      <==> SameIdSameEngine(engines, resolve)
  {
    var index := IndexOf(engines, resolve, |engines|);
    forall i | 0 <= i < |engines| ensures engines[i].id in index {
      var k := IndexHoldsLast(engines, resolve, |engines|, engines[i].id);
    }
    if SameIdSameEngine(engines, resolve) {
      forall i | 0 <= i < |engines| ensures Ok(index[engines[i].id]) == Build(engines[i], resolve) {
        ListedInOrder(engines, resolve, i);
      }
    }
  }

  lemma ListedInOrder(engines: seq<EngineConfig>, resolve: Resolver, i: nat)
    requires AllBuild(engines, resolve) && SameIdSameEngine(engines, resolve) && i < |engines|
    ensures var index := IndexOf(engines, resolve, |engines|);
      engines[i].id in index && Ok(index[engines[i].id]) == Build(engines[i], resolve)
  {
    var k := IndexHoldsLast(engines, resolve, |engines|, engines[i].id);
    assert i <= k;
  }

  lemma {:induction false} FindFirst(engines: seq<EngineConfig>, resolve: Resolver, k: nat)
    requires AllBuild(engines, resolve) && k < |engines|
    requires forall i :: 0 <= i < k ==> engines[i].id != engines[k].id
    ensures Find(engines, resolve, engines[k].id) == Some(Build(engines[k], resolve).value)
  {
    assert engines[k] in engines;
    if k > 0 {
      assert forall e <- engines[1..] :: e in engines;
      FindFirst(engines[1..], resolve, k - 1);
    }
  }

  lemma {:induction false} FindNone(engines: seq<EngineConfig>, resolve: Resolver, id: string)
    requires AllBuild(engines, resolve) && forall i :: 0 <= i < |engines| ==> engines[i].id != id
    ensures Find(engines, resolve, id) == None
  {
    if engines != [] {
      assert forall e <- engines[1..] :: e in engines;
      FindNone(engines[1..], resolve, id);
    }
  }

  /** With distinct ids the index is a linear search over the configuration. */
  lemma IndexIsLinearSearch(engines: seq<EngineConfig>, resolve: Resolver, id: string)
    requires AllBuild(engines, resolve) && Config.DistinctIds(engines)
    ensures var index := IndexOf(engines, resolve, |engines|);
      Find(engines, resolve, id) == if id in index then Some(index[id]) else None
  {
    var k := IndexHoldsLast(engines, resolve, |engines|, id);
    if id in IndexOf(engines, resolve, |engines|) {
      FindFirst(engines, resolve, k);
    } else {
      FindNone(engines, resolve, id);
    }
  }

  lemma IndexAgrees(engines: seq<EngineConfig>, resolve: Resolver)
    requires AllBuild(engines, resolve) && Config.DistinctIds(engines)
    ensures var index := IndexOf(engines, resolve, |engines|);
      && (forall id :: Find(engines, resolve, id) == if id in index then Some(index[id]) else None)
      && (forall i :: 0 <= i < |engines| ==>
            engines[i].id in index && index[engines[i].id] == Build(engines[i], resolve).value)
  {
    var index := IndexOf(engines, resolve, |engines|);
    forall id ensures Find(engines, resolve, id) == if id in index then Some(index[id]) else None {
      IndexIsLinearSearch(engines, resolve, id);
    }
    forall i | 0 <= i < |engines|
      ensures Find(engines, resolve, engines[i].id) == Some(Build(engines[i], resolve).value)
    {
      FindFirst(engines, resolve, i);
    }
  }

  /** The registry: engines by id, and the ids in configuration order. */
  class Registry {
    var order: seq<string>
    var byId: map<string, Engine>

    constructor ()
      ensures order == [] && byId == map[]
    {
      order, byId := [], map[];
    }

    ghost predicate Valid()
      reads this
    {
      forall id <- order :: id in byId
    }

    function Get(id: string): Option<Engine>
      reads this
    {
      if id in byId then Some(byId[id]) else None
    }

    method IDs() returns (ids: seq<string>)
      ensures ids == order
    {
      ids := [];
      for i := 0 to |order|
        invariant ids == order[..i]
      {
        ids := ids + [order[i]];
      }
    }

    method List() returns (engines: seq<Engine>)
      requires Valid()
      ensures |engines| == |order| && forall i :: 0 <= i < |order| ==> Some(engines[i]) == Get(order[i])
    {
      engines := [];
      for i := 0 to |order|
        invariant |engines| == i && forall j :: 0 <= j < i ==> Some(engines[j]) == Get(order[j])
      {
        engines := engines + [byId[order[i]]];
      }
    }
  }

  /** The engine under an id was made from one that is configured under it. */
  predicate Indexed(engines: seq<EngineConfig>, resolve: Resolver, id: string, built: Engine) {
    exists k :: 0 <= k < |engines| && engines[k].id == id && Wired(engines[k], resolve, built)
  }

  /** Construction with the default factories: the first engine that does not build is the error. */
  method New(engines: seq<EngineConfig>, resolve: Resolver) returns (r: Result<Registry, BuildError>)
    ensures match r
            case Err(error) => FirstFailure(engines, resolve, 0) == Some(error)
            case Ok(reg) =>
              && FirstFailure(engines, resolve, 0) == None && AllBuild(engines, resolve)
              && fresh(reg) && reg.Valid()
              && |reg.order| == |engines| && (forall i :: 0 <= i < |engines| ==> reg.order[i] == engines[i].id)
              && reg.byId == IndexOf(engines, resolve, |engines|)
              && forall id <- reg.byId :: Indexed(engines, resolve, id, reg.byId[id])
  {
    FirstFailureExact(engines, resolve, 0);
    var reg := new Registry();
    for i := 0 to |engines|
      invariant fresh(reg) && reg.Valid()
      invariant FirstFailure(engines, resolve, i) == FirstFailure(engines, resolve, 0)
      invariant |reg.order| == i && forall j :: 0 <= j < i ==> reg.order[j] == engines[j].id
      invariant AllBuild(engines, resolve) ==> reg.byId == IndexOf(engines, resolve, i)
    {
      var e := engines[i];
      var provider := DefaultCredentialFactory(e, resolve);
      if provider.Err? {
        return Err(InCredentials(e.id, provider.error));
      }
      var prefix := DialectFor(e.dialect);
      if prefix.None? {
        return Err(InClient(e.id, e.dialect));
      }
      if e.history.enabled {
        return Err(InHistory(e.id, e.history.provider));
      }
      reg.byId := reg.byId[e.id := Engine(e, prefix.value, provider.value)];
      reg.order := reg.order + [e.id];
    }
    forall id | id in reg.byId ensures Indexed(engines, resolve, id, reg.byId[id]) {
      var k := IndexHoldsLast(engines, resolve, |engines|, id);
      BuildWires(engines[k], resolve);
    }
    return Ok(reg);
  }

  /** The whole way from a decoded document: defaults, validation, construction. */
  method Load(doc: Config.Document, parse: Config.UrlParser, resolve: Resolver)
    returns (problem: Option<Config.Error>, r: Option<Result<Registry, BuildError>>)
    modifies doc, doc.engines
    ensures forall i :: 0 <= i < doc.engines.Length ==>
              Config.Filled(old(doc.engines[i]), doc.engines[i], doc.deploymentMode)
    ensures doc.deploymentMode == Config.DefaultMode(old(doc.deploymentMode)) && doc.http == old(doc.http)
    ensures doc.transport == Config.DefaultTransport(old(doc.transport), doc.deploymentMode)
    ensures forall i :: 0 <= i < doc.engines.Length ==>
              doc.engines[i] == Config.DefaultEngine(old(doc.engines[i]), Config.DefaultAuthMode(doc.deploymentMode))
    ensures problem == Config.Problem(parse, doc.deploymentMode, doc.transport, doc.http, doc.engines[..])
    ensures problem.Some? <==> r.None?
    ensures r.Some? && r.value.Err? ==> FirstFailure(doc.engines[..], resolve, 0) == Some(r.value.error)
    ensures r.Some? ==>
              && Config.ValidEngines(parse, doc.engines[..])
              && (r.value.Ok? <==> forall e <- doc.engines[..] :: Buildable(e, resolve))
    ensures r.Some? && r.value.Ok? ==>
              var reg, engines := r.value.value, doc.engines[..];
              && AllBuild(engines, resolve) && |reg.order| == |engines|
              && (forall i :: 0 <= i < |engines| ==>
                    reg.order[i] == engines[i].id && reg.Get(engines[i].id) == Some(Build(engines[i], resolve).value))
              && (forall id :: reg.Get(id) == Find(engines, resolve, id))
  {
    ghost var raw := doc.engines[..];
    doc.ApplyDefaults();
    problem := doc.Validate(parse);
    if problem.Some? {
      return problem, None;
    }
    ghost var engines := doc.engines[..];
    Config.ProblemExact(parse, doc.deploymentMode, doc.transport, doc.http, engines);
    RegistrySucceeds(parse, resolve, doc.deploymentMode, doc.transport, doc.http, raw, engines);
    var built := New(doc.engines[..], resolve);
    if built.Ok? {
      IndexAgrees(engines, resolve);
    }
    return None, Some(built);
  }
}
