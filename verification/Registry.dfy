/**
 The canonical registry (ltfp/registry/canonical.go): primary tables of sessions, service instances, logical services
 and routes, and the secondary indexes that every upsert maintains beside them.
 */
module Registry {
  import opened Results
  import opened Strings

  // ---------------------------------------------------------------------------------------------
  // Records
  // ---------------------------------------------------------------------------------------------

  datatype Scope = Scope(namespace: string, environment: string)

  datatype Session = Session(sessionID: string, connectorID: string, state: string)

  datatype Instance = Instance(instanceID: string, connectorID: string, logicalServiceID: string)

  datatype Service = Service(logicalServiceID: string, serviceName: string, scope: Scope)

  datatype Target = ConnectorService(logicalServiceID: string) | MissingConnectorService | ExternalService

  datatype Route = Route(routeID: string, scope: Scope, target: Target)

  function SessionConnector(session: Session): string {
    Trim(session.connectorID)
  }

  function InstanceConnector(instance: Instance): string {
    Trim(instance.connectorID)
  }

  function InstanceService(instance: Instance): string {
    Trim(instance.logicalServiceID)
  }

  function RouteService(route: Route): string {
    match route.target
    case ConnectorService(logicalServiceID) => Trim(logicalServiceID)
    case _ => ""
  }

  // ---------------------------------------------------------------------------------------------
  // Indexes from a key to record ids
  // ---------------------------------------------------------------------------------------------

  type Index = map<string, set<string>>

  function Bucket(index: Index, key: string): set<string> {
    if key in index then index[key] else {}
  }

  function AddIndex(index: Index, key: string, value: string): Index {
    var k, v := Trim(key), Trim(value);
    if k == "" || v == "" then index else index[k := Bucket(index, k) + {v}]
  }

  /** A blank value drops the whole bucket. */
  function RemoveIndex(index: Index, key: string, value: string): Index {
    var k, v := Trim(key), Trim(value);
    if k == "" || k !in index then index
    else if v == "" || index[k] - {v} == {} then index - {k}
    else index[k := index[k] - {v}]
  }

  /** What a full scan of the table finds under `key`. */
  function Scan<T>(table: map<string, T>, keyOf: T -> string, key: string): set<string> {
    set id | id in table && id != "" && keyOf(table[id]) == key
  }

  /** The index lists under each nonblank key exactly what a full scan finds, and has no other buckets. */
  ghost predicate Agrees<T>(table: map<string, T>, keyOf: T -> string, index: Index) {
    && "" !in index
    && (forall key :: key in index ==> index[key] != {})
    && (forall key :: key != "" ==> Bucket(index, key) == Scan(table, keyOf, key))
  }

  /** What an upsert of `item` under `id` does to one index; `always` for routes, which are removed even if unmoved. */
  function Reindex<T>(table: map<string, T>, keyOf: T -> string, index: Index, id: string, item: T,
                      always: bool): Index {
    var without :=
      if id in table && keyOf(table[id]) != "" && (always || keyOf(table[id]) != keyOf(item))
      then RemoveIndex(index, keyOf(table[id]), id) else index;
    AddIndex(without, keyOf(item), id)
  }

  /** The upsert drops the bucket of other records: the record has a blank id, and leaves a key that others have. */
  predicate DropsOthers<T>(table: map<string, T>, keyOf: T -> string, id: string, item: T, always: bool) {
    && id == "" && id in table && keyOf(table[id]) != "" && (always || keyOf(table[id]) != keyOf(item))
    && Scan(table, keyOf, keyOf(table[id])) != {}
  }

  ghost predicate NormalizedKeys<T(!new)>(keyOf: T -> string) {
    forall item :: Trimmed(keyOf(item))
  }

  lemma RemoveIndexBuckets(index: Index, key: string, value: string, other: string)
    requires Trimmed(key) && Trimmed(value)
    ensures Bucket(RemoveIndex(index, key, value), other)
         == if other != key || key == "" then Bucket(index, other)
            else if value == "" then {} else Bucket(index, key) - {value}
    ensures other in RemoveIndex(index, key, value) ==> other in index
    ensures (other in index ==> index[other] != {}) ==>
            other in RemoveIndex(index, key, value) ==> RemoveIndex(index, key, value)[other] != {}
  {
    TrimIsTrimmed(key);
    TrimIsTrimmed(value);
  }

  lemma AddIndexBuckets(index: Index, key: string, value: string, other: string)
    requires Trimmed(key) && Trimmed(value)
    ensures Bucket(AddIndex(index, key, value), other)
         == if other == key && key != "" && value != "" then Bucket(index, key) + {value} else Bucket(index, other)
    ensures other in AddIndex(index, key, value) <==> other in index || (other == key && key != "" && value != "")
  {
    TrimIsTrimmed(key);
    TrimIsTrimmed(value);
  }

  /** One bucket after an upsert. */
  lemma ReindexBucket<T(!new)>(table: map<string, T>, keyOf: T -> string, index: Index, id: string, item: T,
                               always: bool,
                               key: string)
    requires Agrees(table, keyOf, index) && NormalizedKeys(keyOf) && Trimmed(id)
    ensures var next := Reindex(table, keyOf, index, id, item, always);
            && (key in next ==> key != "" && next[key] != {})
            && (key != "" ==>
                  (Bucket(next, key) == Scan(table[id := item], keyOf, key)
                   <==> !(DropsOthers(table, keyOf, id, item, always) && key == keyOf(table[id]))))
  {
    var without := index;
    if id in table {
      var from := keyOf(table[id]);
      if from != "" && (always || from != keyOf(item)) {
        without := RemoveIndex(index, from, id);
        RemoveIndexBuckets(index, from, id, key);
      }
    }
    AddIndexBuckets(without, keyOf(item), id, key);
    if key != "" {
      ScanAfter(table, keyOf, id, item, key);
    }
  }

  lemma ScanAfter<T>(table: map<string, T>, keyOf: T -> string, id: string, item: T, key: string)
    ensures Scan(table[id := item], keyOf, key)
         == if id != "" && keyOf(item) == key then Scan(table, keyOf, key) + {id} else Scan(table, keyOf, key) - {id}
  {
  }

  /**
   An upsert keeps an index in agreement with a full scan exactly unless it drops the bucket of other records; with a
   nonblank id it always does.
   */
  lemma ReindexAgrees<T(!new)>(table: map<string, T>, keyOf: T -> string, index: Index, id: string, item: T,
                               always: bool)
    requires Agrees(table, keyOf, index) && NormalizedKeys(keyOf) && Trimmed(id)
    ensures Agrees(table[id := item], keyOf, Reindex(table, keyOf, index, id, item, always))
            <==> !DropsOthers(table, keyOf, id, item, always)
  {
    var next := Reindex(table, keyOf, index, id, item, always);
    forall key
      ensures key in next ==> key != "" && next[key] != {}
      ensures key != "" ==>
                (Bucket(next, key) == Scan(table[id := item], keyOf, key)
                 <==> !(DropsOthers(table, keyOf, id, item, always) && key == keyOf(table[id])))
    {
      ReindexBucket(table, keyOf, index, id, item, always, key);
    }
  }

  // ---------------------------------------------------------------------------------------------
  // The index from name and scope to logical service
  // ---------------------------------------------------------------------------------------------

  function JoinKey(namespace: string, environment: string, name: string): string {
    namespace + "|" + environment + "|" + name
  }

  function NameKey(name: string, scope: Scope): string {
    JoinKey(Trim(scope.namespace), Trim(scope.environment), Trim(name))
  }

  function ServiceKey(service: Service): string {
    NameKey(service.serviceName, service.scope)
  }

  type Services = map<string, Service>
  type Names = map<string, string>

  function UpsertName(services: Services, names: Names, id: string, service: Service): Names {
    var without :=
      if id in services && ServiceKey(services[id]) != ServiceKey(service)
      then names - {ServiceKey(services[id])} else names;
    if id != "" then without[ServiceKey(service) := id] else without
  }

  /** Every entry points to a service with that key. */
  ghost predicate NamesSound(services: Services, names: Names) {
    forall key :: key in names ==>
      names[key] != "" && names[key] in services && ServiceKey(services[names[key]]) == key
  }

  /** Every service with a nonblank id can be found by its key. */
  ghost predicate NamesComplete(services: Services, names: Names) {
    forall id :: id in services && id != "" ==> ServiceKey(services[id]) in names
  }

  /** The upsert moves the service away from a key that another service has. */
  ghost predicate LeavesShared(services: Services, id: string, service: Service) {
    && id in services && ServiceKey(services[id]) != ServiceKey(service)
    && exists id2 :: id2 in services && id2 != "" && id2 != id && ServiceKey(services[id2]) == ServiceKey(services[id])
  }

  lemma NamesStaySound(services: Services, names: Names, id: string, service: Service)
    requires NamesSound(services, names)
    ensures NamesSound(services[id := service], UpsertName(services, names, id, service))
  {
  }

  lemma LeavingShared(services: Services, names: Names, id: string, service: Service)
    requires LeavesShared(services, id, service)
    ensures !NamesComplete(services[id := service], UpsertName(services, names, id, service))
  {
    var id2 :| id2 in services && id2 != "" && id2 != id && ServiceKey(services[id2]) == ServiceKey(services[id]);
    var services' := services[id := service];
    assert id2 in services' && ServiceKey(services'[id2]) !in UpsertName(services, names, id, service);
  }

  lemma NamesStayComplete(services: Services, names: Names, id: string, service: Service)
    requires NamesComplete(services, names) && !LeavesShared(services, id, service)
    ensures NamesComplete(services[id := service], UpsertName(services, names, id, service))
  {
    var services' := services[id := service];
    forall id2 | id2 in services' && id2 != ""
      ensures ServiceKey(services'[id2]) in UpsertName(services, names, id, service)
    {
      if id2 != id {
        assert services'[id2] == services[id2];
      }
    }
  }

  /** Soundness needs nothing; completeness survives exactly unless the service leaves a key it shares. */
  lemma UpsertNameExact(services: Services, names: Names, id: string, service: Service)
    requires NamesSound(services, names)
    ensures NamesSound(services[id := service], UpsertName(services, names, id, service))
    ensures NamesComplete(services, names) ==>
              (NamesComplete(services[id := service], UpsertName(services, names, id, service))
               <==> !LeavesShared(services, id, service))
  {
    NamesStaySound(services, names, id, service);
    if LeavesShared(services, id, service) {
      LeavingShared(services, names, id, service);
    } else if NamesComplete(services, names) {
      NamesStayComplete(services, names, id, service);
    }
  }

  lemma FirstBar(a: string, b: string, restA: string, restB: string)
    requires '|' !in a && '|' !in b && a + "|" + restA == b + "|" + restB
    ensures a == b && restA == restB
  {
    var left, right := a + "|" + restA, b + "|" + restB;
    assert left[|a|] == '|' && right[|b|] == '|';
    assert forall i :: 0 <= i < |a| ==> left[i] != '|';
    assert forall i :: 0 <= i < |b| ==> right[i] != '|';
    assert |a| == |b|;
    assert left[..|a|] == a && right[..|b|] == b;
    assert left[|a| + 1..] == restA && right[|b| + 1..] == restB;
  }

  lemma JoinKeyIdentifies(ns: string, env: string, name: string, ns2: string, env2: string, name2: string)
    requires '|' !in ns && '|' !in env && '|' !in ns2 && '|' !in env2
    ensures JoinKey(ns, env, name) == JoinKey(ns2, env2, name2) <==> ns == ns2 && env == env2 && name == name2
  {
    if JoinKey(ns, env, name) == JoinKey(ns2, env2, name2) {
      assert JoinKey(ns, env, name) == ns + "|" + (env + "|" + name);
      assert JoinKey(ns2, env2, name2) == ns2 + "|" + (env2 + "|" + name2);
      FirstBar(ns, ns2, env + "|" + name, env2 + "|" + name2);
      FirstBar(env, env2, name, name2);
    }
  }

  /** A key identifies name and scope if no namespace or environment contains a bar. */
  lemma NameKeyIdentifies(name: string, scope: Scope, name2: string, scope2: Scope)
    requires '|' !in Trim(scope.namespace) && '|' !in Trim(scope.environment)
    requires '|' !in Trim(scope2.namespace) && '|' !in Trim(scope2.environment)
    ensures NameKey(name, scope) == NameKey(name2, scope2)
            <==> Trim(name) == Trim(name2) && Trim(scope.namespace) == Trim(scope2.namespace)
                 && Trim(scope.environment) == Trim(scope2.environment)
  {
    JoinKeyIdentifies(Trim(scope.namespace), Trim(scope.environment), Trim(name),
                      Trim(scope2.namespace), Trim(scope2.environment), Trim(name2));
  }

  /** Bars at `i` and `j` cut the key into a namespace, an environment and a name as normalising leaves them. */
  predicate CutsAt(key: string, i: nat, j: nat) {
    && i < j < |key| && key[i] == '|' && key[j] == '|'
    && Trimmed(key[..i]) && Trimmed(key[i + 1..j]) && Trimmed(key[j + 1..])
  }

  /** A normalised namespace, environment and name. */
  datatype Triple = Triple(namespace: string, environment: string, name: string) {
    function Key(): string {
      JoinKey(namespace, environment, name)
    }

    predicate Normal() {
      Trimmed(namespace) && Trimmed(environment) && Trimmed(name)
    }
  }

  function Normalize(name: string, scope: Scope): Triple {
    Triple(Trim(scope.namespace), Trim(scope.environment), Trim(name))
  }

  lemma NormalizedIsNormal(name: string, scope: Scope)
    ensures Normalize(name, scope).Normal() && Normalize(name, scope).Key() == NameKey(name, scope)
  {
    TrimIsTrimmed(scope.namespace);
    TrimIsTrimmed(scope.environment);
    TrimIsTrimmed(name);
  }

  lemma TripleCuts(t: Triple)
    requires t.Normal()
    ensures CutsAt(t.Key(), |t.namespace|, |t.namespace| + 1 + |t.environment|)
    ensures var i, j := |t.namespace|, |t.namespace| + 1 + |t.environment|;
            t == Triple(t.Key()[..i], t.Key()[i + 1..j], t.Key()[j + 1..])
  {
    var key, i, j := t.Key(), |t.namespace|, |t.namespace| + 1 + |t.environment|;
    assert key[..i] == t.namespace && key[i + 1..j] == t.environment && key[j + 1..] == t.name;
    assert key[i] == '|' && key[j] == '|';
  }

  lemma CutIsTriple(key: string, i: nat, j: nat)
    requires CutsAt(key, i, j)
    ensures var t := Triple(key[..i], key[i + 1..j], key[j + 1..]);
            t.Normal() && t.Key() == key && |t.namespace| == i && |t.namespace| + 1 + |t.environment| == j
  {
    assert key == key[..i] + [key[i]] + key[i + 1..j] + [key[j]] + key[j + 1..];
  }

  predicate SharesKey(t: Triple, u: Triple) {
    u.Normal() && u != t && u.Key() == t.Key()
  }

  /** Bars that cut the key of `t` otherwise than joining put them. */
  predicate CutsOtherwise(t: Triple, i: nat, j: nat) {
    CutsAt(t.Key(), i, j) && !(i == |t.namespace| && j == |t.namespace| + 1 + |t.environment|)
  }

  lemma SharedKeyCuts(t: Triple, u: Triple)
    requires t.Normal() && SharesKey(t, u)
    ensures CutsOtherwise(t, |u.namespace|, |u.namespace| + 1 + |u.environment|)
  {
    TripleCuts(t);
    TripleCuts(u);
  }

  lemma CutSharesKey(t: Triple, i: nat, j: nat)
    requires CutsOtherwise(t, i, j)
    ensures SharesKey(t, Triple(t.Key()[..i], t.Key()[i + 1..j], t.Key()[j + 1..]))
  {
    CutIsTriple(t.Key(), i, j);
  }

  /**
   A lookup can confuse two services exactly if bars of the key, other than the two that joining put there, cut it into
   three normalised parts as well.
   */
  lemma KeySharedExactly(t: Triple)
    requires t.Normal()
    ensures (exists u: Triple :: SharesKey(t, u)) <==> exists i: nat, j: nat :: CutsOtherwise(t, i, j)
  {
    forall u: Triple | SharesKey(t, u)
      ensures CutsOtherwise(t, |u.namespace|, |u.namespace| + 1 + |u.environment|)
    {
      SharedKeyCuts(t, u);
    }
    forall i: nat, j: nat | CutsOtherwise(t, i, j)
      ensures SharesKey(t, Triple(t.Key()[..i], t.Key()[i + 1..j], t.Key()[j + 1..]))
    {
      CutSharesKey(t, i, j);
    }
  }

  /** Another name and scope, even when normalised, with the same key. */
  predicate Confused(name: string, scope: Scope, name2: string, scope2: Scope) {
    Normalize(name2, scope2) != Normalize(name, scope) && NameKey(name2, scope2) == NameKey(name, scope)
  }

  /** The same of names and scopes as callers give them. */
  lemma NameKeySharedExactly(name: string, scope: Scope)
    ensures (exists name2, scope2 :: Confused(name, scope, name2, scope2))
            <==> exists i: nat, j: nat :: CutsOtherwise(Normalize(name, scope), i, j)
  {
    var t := Normalize(name, scope);
    NormalizedIsNormal(name, scope);
    KeySharedExactly(t);
    forall name2, scope2 | Confused(name, scope, name2, scope2)
      ensures SharesKey(t, Normalize(name2, scope2))
    {
      NormalizedIsNormal(name2, scope2);
    }
    forall u: Triple | SharesKey(t, u)
      ensures Confused(name, scope, u.name, Scope(u.namespace, u.environment))
    {
      NormalTripleIsItself(u);
    }
  }

  lemma NormalTripleIsItself(u: Triple)
    requires u.Normal()
    ensures Normalize(u.name, Scope(u.namespace, u.environment)) == u
    ensures NameKey(u.name, Scope(u.namespace, u.environment)) == u.Key()
  {
    TrimIsTrimmed(u.namespace);
    TrimIsTrimmed(u.environment);
    TrimIsTrimmed(u.name);
  }

  /** With bars a lookup can return a service of another scope. */
  lemma NameKeysCollide()
    ensures NameKey("s", Scope("a|b", "c")) == NameKey("s", Scope("a", "b|c"))
  {
    TrimIsTrimmed("a|b");
    TrimIsTrimmed("b|c");
    TrimIsTrimmed("a");
    TrimIsTrimmed("c");
    assert "a|b" + "|" + "c" + "|" + Trim("s") == "a" + "|" + "b|c" + "|" + Trim("s");
  }

  // ---------------------------------------------------------------------------------------------
  // Runs of upserts
  // ---------------------------------------------------------------------------------------------

  datatype State = State(
    sessions: map<string, Session>, services: Services, instances: map<string, Instance>, routes: map<string, Route>,
    names: Names, sessionsByConnector: Index, instancesByConnector: Index, instancesByService: Index,
    routesByService: Index)

  const EMPTY := State(map[], map[], map[], map[], map[], map[], map[], map[], map[])

  datatype Upsert =
    | UpsertSession(session: Session)
    | UpsertService(service: Service)
    | UpsertInstance(instance: Instance)
    | UpsertRoute(route: Route)

  datatype Kind = Sessions | Services | Instances | Routes

  function KindOf(op: Upsert): Kind {
    match op
    case UpsertSession(_) => Sessions
    case UpsertService(_) => Services
    case UpsertInstance(_) => Instances
    case UpsertRoute(_) => Routes
  }

  function IDOf(op: Upsert): string {
    match op
    case UpsertSession(session) => Trim(session.sessionID)
    case UpsertService(service) => Trim(service.logicalServiceID)
    case UpsertInstance(instance) => Trim(instance.instanceID)
    case UpsertRoute(route) => Trim(route.routeID)
  }

  /** The record has a nonblank id. */
  predicate HasID(op: Upsert) {
    IDOf(op) != ""
  }

  function SessionStep(st: State, session: Session): State {
    var id := Trim(session.sessionID);
    st.(sessions := st.sessions[id := session],
        sessionsByConnector := Reindex(st.sessions, SessionConnector, st.sessionsByConnector, id, session, false))
  }

  function ServiceStep(st: State, service: Service): State {
    var id := Trim(service.logicalServiceID);
    st.(services := st.services[id := service], names := UpsertName(st.services, st.names, id, service))
  }

  function InstanceStep(st: State, instance: Instance): State {
    var id := Trim(instance.instanceID);
    st.(instances := st.instances[id := instance],
        instancesByConnector := Reindex(st.instances, InstanceConnector, st.instancesByConnector, id, instance, false),
        instancesByService := Reindex(st.instances, InstanceService, st.instancesByService, id, instance, false))
  }

  function RouteStep(st: State, route: Route): State {
    var id := Trim(route.routeID);
    st.(routes := st.routes[id := route],
        routesByService := Reindex(st.routes, RouteService, st.routesByService, id, route, true))
  }

  function Step(st: State, op: Upsert): State {
    match op
    case UpsertSession(session) => SessionStep(st, session)
    case UpsertService(service) => ServiceStep(st, service)
    case UpsertInstance(instance) => InstanceStep(st, instance)
    case UpsertRoute(route) => RouteStep(st, route)
  }

  function After(ops: seq<Upsert>, k: nat): State
    requires k <= |ops|
  {
    if k == 0 then EMPTY else Step(After(ops, k - 1), ops[k - 1])
  }

  /** The record that a table holds, as the upsert that would put it there. */
  function Held(st: State, kind: Kind, id: string): Option<Upsert> {
    match kind
    case Sessions => if id in st.sessions then Some(UpsertSession(st.sessions[id])) else None
    case Services => if id in st.services then Some(UpsertService(st.services[id])) else None
    case Instances => if id in st.instances then Some(UpsertInstance(st.instances[id])) else None
    case Routes => if id in st.routes then Some(UpsertRoute(st.routes[id])) else None
  }

  /** The last of the first `k` upserts that is of that kind and id. */
  function LatestUpsert(ops: seq<Upsert>, k: nat, kind: Kind, id: string): Option<Upsert>
    requires k <= |ops|
  {
    if k == 0 then None
    else if KindOf(ops[k - 1]) == kind && IDOf(ops[k - 1]) == id then Some(ops[k - 1])
    else LatestUpsert(ops, k - 1, kind, id)
  }

  /** An upsert puts its record under its trimmed id and touches no other record of any table. */
  lemma StepHolds(st: State, op: Upsert, kind: Kind, id: string)
    ensures Held(Step(st, op), kind, id)
         == if KindOf(op) == kind && IDOf(op) == id then Some(op) else Held(st, kind, id)
  {
  }

  /** After any run each table holds exactly the latest record upserted under each id. */
  lemma {:induction false} TablesHoldLatest(ops: seq<Upsert>, k: nat, kind: Kind, id: string)
    requires k <= |ops|
    ensures Held(After(ops, k), kind, id) == LatestUpsert(ops, k, kind, id)
  {
    if k > 0 {
      TablesHoldLatest(ops, k - 1, kind, id);
      StepHolds(After(ops, k - 1), ops[k - 1], kind, id);
    }
  }

  /** A service with a nonblank id is found by name and scope right after its upsert, whatever had the key before. */
  lemma UpsertedServiceIsFound(st: State, service: Service)
    requires Trim(service.logicalServiceID) != ""
    ensures var next := Step(st, UpsertService(service));
            && ServiceKey(service) in next.names && next.names[ServiceKey(service)] in next.services
            && next.services[next.names[ServiceKey(service)]] == service
  {
  }

  ghost predicate AllAgree(st: State) {
    && Agrees(st.sessions, SessionConnector, st.sessionsByConnector)
    && Agrees(st.instances, InstanceConnector, st.instancesByConnector)
    && Agrees(st.instances, InstanceService, st.instancesByService)
    && Agrees(st.routes, RouteService, st.routesByService)
  }

  lemma KeysAreNormalized()
    ensures NormalizedKeys(SessionConnector) && NormalizedKeys(InstanceConnector)
    ensures NormalizedKeys(InstanceService) && NormalizedKeys(RouteService)
  {
    forall s: string ensures Trimmed(Trim(s)) {
      TrimIsTrimmed(s);
    }
  }

  /** The upsert drops the bucket of no other record; one with a nonblank id never does. */
  predicate Harmless(st: State, op: Upsert)
    ensures HasID(op) || op.UpsertService? ==> Harmless(st, op)
  {
    match op
    case UpsertSession(session) => !DropsOthers(st.sessions, SessionConnector, Trim(session.sessionID), session, false)
    case UpsertService(_) => true
    case UpsertInstance(instance) =>
      && !DropsOthers(st.instances, InstanceConnector, Trim(instance.instanceID), instance, false)
      && !DropsOthers(st.instances, InstanceService, Trim(instance.instanceID), instance, false)
    case UpsertRoute(route) => !DropsOthers(st.routes, RouteService, Trim(route.routeID), route, true)
  }

  lemma StepKeepsAgreement(st: State, op: Upsert)
    requires AllAgree(st)
    ensures AllAgree(Step(st, op)) <==> Harmless(st, op)
  {
    KeysAreNormalized();
    match op
    case UpsertSession(session) =>
      TrimIsTrimmed(session.sessionID);
      ReindexAgrees(st.sessions, SessionConnector, st.sessionsByConnector, Trim(session.sessionID), session, false);
    case UpsertService(service) =>
    case UpsertInstance(instance) =>
      var id := Trim(instance.instanceID);
      TrimIsTrimmed(instance.instanceID);
      ReindexAgrees(st.instances, InstanceConnector, st.instancesByConnector, id, instance, false);
      ReindexAgrees(st.instances, InstanceService, st.instancesByService, id, instance, false);
    case UpsertRoute(route) =>
      TrimIsTrimmed(route.routeID);
      ReindexAgrees(st.routes, RouteService, st.routesByService, Trim(route.routeID), route, true);
  }

  ghost predicate AgreeAfter(ops: seq<Upsert>, k: nat)
    requires k <= |ops|
  {
    AllAgree(After(ops, k))
  }

  /**
   The four indexes agree with full scans up to the first upsert that drops the bucket of others, and it breaks that.
   */
  lemma {:induction false} IndexesAgreeExactly(ops: seq<Upsert>, k: nat)
    requires k < |ops| && forall i: nat :: i < k ==> Harmless(After(ops, i), ops[i])
    ensures AgreeAfter(ops, k)
    ensures AgreeAfter(ops, k + 1) <==> Harmless(After(ops, k), ops[k])
  {
    if k > 0 {
      IndexesAgreeExactly(ops, k - 1);
    }
    StepKeepsAgreement(After(ops, k), ops[k]);
  }

  /** So they agree after any run of harmless upserts, such as all with nonblank ids. */
  lemma IndexesAgree(ops: seq<Upsert>, k: nat)
    requires k <= |ops| && forall i: nat :: i < k ==> Harmless(After(ops, i), ops[i])
    ensures AgreeAfter(ops, k)
  {
    if k > 0 {
      IndexesAgreeExactly(ops, k - 1);
    }
  }

  /** A blank id can hide other records: here a session loses its listing because a nameless one moved away. */
  lemma BlankIDHidesOthers()
    ensures var st := SessionStep(SessionStep(SessionStep(EMPTY, Session("", "c", "")), Session("s", "c", "")),
                                  Session("", "d", ""));
            "s" in Scan(st.sessions, SessionConnector, "c") && Bucket(st.sessionsByConnector, "c") == {}
  {
    assert Trim("") == "" && Trim("s") == "s" && Trim("c") == "c" && Trim("d") == "d";
    var first := SessionStep(EMPTY, Session("", "c", ""));
    assert first.sessions == map["" := Session("", "c", "")] && first.sessionsByConnector == map[];
    var second := SessionStep(first, Session("s", "c", ""));
    assert second.sessions.Keys == {"", "s"} && second.sessions[""] == Session("", "c", "");
    assert second.sessionsByConnector == AddIndex(map[], "c", "s");
    assert Bucket(RemoveIndex(second.sessionsByConnector, "c", ""), "c") == {};
  }

  ghost predicate SoundAfter(ops: seq<Upsert>, k: nat)
    requires k <= |ops|
  {
    NamesSound(After(ops, k).services, After(ops, k).names)
  }

  lemma StepKeepsSound(st: State, op: Upsert)
    requires NamesSound(st.services, st.names)
    ensures NamesSound(Step(st, op).services, Step(st, op).names)
  {
    if op.UpsertService? {
      NamesStaySound(st.services, st.names, Trim(op.service.logicalServiceID), op.service);
    }
  }

  /** Over any run, with any ids, every name entry points to a service with that key. */
  lemma {:induction false} NamesAlwaysSound(ops: seq<Upsert>, k: nat)
    requires k <= |ops|
    ensures SoundAfter(ops, k)
  {
    if k > 0 {
      NamesAlwaysSound(ops, k - 1);
      StepKeepsSound(After(ops, k - 1), ops[k - 1]);
    }
  }

  /** The upsert does not move a service away from a key that another service has. */
  ghost predicate KeepsShared(services: Services, op: Upsert) {
    op.UpsertService? ==> !LeavesShared(services, Trim(op.service.logicalServiceID), op.service)
  }

  ghost predicate NamesGood(st: State) {
    NamesSound(st.services, st.names) && NamesComplete(st.services, st.names)
  }

  lemma NamesStep(st: State, op: Upsert)
    requires NamesGood(st)
    ensures NamesGood(Step(st, op)) <==> KeepsShared(st.services, op)
  {
    if op.UpsertService? {
      UpsertNameExact(st.services, st.names, Trim(op.service.logicalServiceID), op.service);
    }
  }

  /** The name index stays complete up to the first upsert that leaves a shared key, and that one breaks it. */
  lemma {:induction false} NamesCompleteExactly(ops: seq<Upsert>, k: nat)
    requires k < |ops| && forall i: nat :: i < k ==> KeepsShared(After(ops, i).services, ops[i])
    ensures NamesGood(After(ops, k))
    ensures NamesGood(After(ops, k + 1)) <==> KeepsShared(After(ops, k).services, ops[k])
  {
    if k > 0 {
      NamesCompleteExactly(ops, k - 1);
    }
    NamesStep(After(ops, k), ops[k]);
  }

  // ---------------------------------------------------------------------------------------------
  // The registry object
  // ---------------------------------------------------------------------------------------------

  ghost predicate ListsInOrder<T>(table: map<string, T>, ids: set<string>, result: seq<T>, order: seq<string>) {
    && |order| == |result| && (forall i, j :: 0 <= i < j < |order| ==> order[i] != order[j])
    && (forall i :: 0 <= i < |order| ==> order[i] in table && result[i] == table[order[i]])
    && (forall id :: id in order <==> id in ids)
  }

  /** The records with the given ids, each once, in some order. */
  ghost predicate Lists<T>(table: map<string, T>, ids: set<string>, result: seq<T>) {
    exists order :: ListsInOrder(table, ids, result, order)
  }

  /** What a query by `key` should return: what a full scan finds, and nothing for a blank key. */
  function Wanted<T>(table: map<string, T>, keyOf: T -> string, key: string): set<string> {
    if key == "" then {} else Scan(table, keyOf, key)
  }

  /** Looks up every id, and skips those that the table does not have. */
  method Collect<T>(table: map<string, T>, ids: set<string>) returns (result: seq<T>)
    ensures Lists(table, ids * table.Keys, result)
  {
    result := [];
    ghost var order: seq<string> := [];
    var remaining := ids;
    while remaining != {}
      invariant remaining <= ids
      invariant ListsInOrder(table, (ids - remaining) * table.Keys, result, order)
      decreases |remaining|
    {
      var id :| id in remaining;
      assert id !in order;
      remaining := remaining - {id};
      if id in table {
        result, order := result + [table[id]], order + [id];
        assert order[|order| - 1] == id;
      }
      assert forall other :: other in ids - remaining <==> other == id || other in ids - remaining - {id};
    }
    assert ids - remaining == ids;
  }

  /** While the index agrees with the table, looking up its bucket is a full scan. */
  lemma BucketIsWanted<T>(table: map<string, T>, keyOf: T -> string, index: Index, key: string)
    requires Agrees(table, keyOf, index)
    ensures Bucket(index, key) * table.Keys == Wanted(table, keyOf, key)
  {
  }

  class CanonicalRegistry {
    var sessions: map<string, Session>
    var logicalServices: Services
    var serviceInstances: map<string, Instance>
    var routes: map<string, Route>
    var logicalServiceIDByScopeName: Names
    var sessionIDsByConnector: Index
    var instanceIDsByConnector: Index
    var instanceIDsByLogicalService: Index
    var routeIDsByLogicalService: Index

    ghost function Current(): State
      reads this
    {
      State(sessions, logicalServices, serviceInstances, routes, logicalServiceIDByScopeName, sessionIDsByConnector,
            instanceIDsByConnector, instanceIDsByLogicalService, routeIDsByLogicalService)
    }

    constructor ()
      ensures Current() == EMPTY
    {
      sessions, logicalServices, serviceInstances, routes := map[], map[], map[], map[];
      logicalServiceIDByScopeName := map[];
      sessionIDsByConnector, instanceIDsByConnector := map[], map[];
      instanceIDsByLogicalService, routeIDsByLogicalService := map[], map[];
    }

    method UpsertSession(session: Session)
      modifies this
      ensures Current() == Step(old(Current()), Upsert.UpsertSession(session))
    {
      var id, connectorID := Trim(session.sessionID), Trim(session.connectorID);
      if id in sessions {
        var oldConnectorID := Trim(sessions[id].connectorID);
        if oldConnectorID != "" && oldConnectorID != connectorID {
          sessionIDsByConnector := RemoveIndex(sessionIDsByConnector, oldConnectorID, id);
        }
      }
      sessions := sessions[id := session];
      sessionIDsByConnector := AddIndex(sessionIDsByConnector, connectorID, id);
    }

    method UpsertService(service: Service)
      modifies this
      ensures Current() == Step(old(Current()), Upsert.UpsertService(service))
    {
      var id, key := Trim(service.logicalServiceID), NameKey(service.serviceName, service.scope);
      if id in logicalServices {
        var oldKey := NameKey(logicalServices[id].serviceName, logicalServices[id].scope);
        if oldKey != "" && oldKey != key {
          logicalServiceIDByScopeName := logicalServiceIDByScopeName - {oldKey};
        }
      }
      logicalServices := logicalServices[id := service];
      if id != "" && key != "" {
        logicalServiceIDByScopeName := logicalServiceIDByScopeName[key := id];
      }
    }

    method UpsertInstance(instance: Instance)
      modifies this
      ensures Current() == Step(old(Current()), Upsert.UpsertInstance(instance))
    {
      var id, connectorID := Trim(instance.instanceID), Trim(instance.connectorID);
      var logicalServiceID := Trim(instance.logicalServiceID);
      if id in serviceInstances {
        var oldConnectorID := Trim(serviceInstances[id].connectorID);
        if oldConnectorID != "" && oldConnectorID != connectorID {
          instanceIDsByConnector := RemoveIndex(instanceIDsByConnector, oldConnectorID, id);
        }
        var oldLogicalServiceID := Trim(serviceInstances[id].logicalServiceID);
        if oldLogicalServiceID != "" && oldLogicalServiceID != logicalServiceID {
          instanceIDsByLogicalService := RemoveIndex(instanceIDsByLogicalService, oldLogicalServiceID, id);
        }
      }
      serviceInstances := serviceInstances[id := instance];
      instanceIDsByConnector := AddIndex(instanceIDsByConnector, connectorID, id);
      instanceIDsByLogicalService := AddIndex(instanceIDsByLogicalService, logicalServiceID, id);
      assert instanceIDsByConnector
          == Reindex(old(serviceInstances), InstanceConnector, old(instanceIDsByConnector), id, instance, false);
      assert instanceIDsByLogicalService
          == Reindex(old(serviceInstances), InstanceService, old(instanceIDsByLogicalService), id, instance, false);
    }

    method UpsertRoute(route: Route)
      modifies this
      ensures Current() == Step(old(Current()), Upsert.UpsertRoute(route))
    {
      var id := Trim(route.routeID);
      if id in routes {
        var oldLogicalServiceID := RouteService(routes[id]);
        if oldLogicalServiceID != "" {
          routeIDsByLogicalService := RemoveIndex(routeIDsByLogicalService, oldLogicalServiceID, id);
        }
      }
      routes := routes[id := route];
      var logicalServiceID := RouteService(route);
      if logicalServiceID != "" {
        routeIDsByLogicalService := AddIndex(routeIDsByLogicalService, logicalServiceID, id);
      } else {
        TrimIsTrimmed("");
      }
    }

    /** What a full scan finds, each record once; nothing for a blank connector. */
    method ListSessionsByConnector(connectorID: string) returns (result: seq<Session>)
      ensures Lists(sessions, Bucket(sessionIDsByConnector, Trim(connectorID)) * sessions.Keys, result)
      ensures Agrees(sessions, SessionConnector, sessionIDsByConnector) ==>
                Lists(sessions, Wanted(sessions, SessionConnector, Trim(connectorID)), result)
    {
      if Agrees(sessions, SessionConnector, sessionIDsByConnector) {
        BucketIsWanted(sessions, SessionConnector, sessionIDsByConnector, Trim(connectorID));
      }
      result := Collect(sessions, Bucket(sessionIDsByConnector, Trim(connectorID)));
    }

    method ListServiceInstancesByConnector(connectorID: string) returns (result: seq<Instance>)
      ensures Lists(serviceInstances, Bucket(instanceIDsByConnector, Trim(connectorID)) * serviceInstances.Keys, result)
      ensures Agrees(serviceInstances, InstanceConnector, instanceIDsByConnector) ==>
                Lists(serviceInstances, Wanted(serviceInstances, InstanceConnector, Trim(connectorID)), result)
    {
      if Agrees(serviceInstances, InstanceConnector, instanceIDsByConnector) {
        BucketIsWanted(serviceInstances, InstanceConnector, instanceIDsByConnector, Trim(connectorID));
      }
      result := Collect(serviceInstances, Bucket(instanceIDsByConnector, Trim(connectorID)));
    }

    method ListServiceInstancesByLogicalService(logicalServiceID: string) returns (result: seq<Instance>)
      ensures Lists(serviceInstances,
                    Bucket(instanceIDsByLogicalService, Trim(logicalServiceID)) * serviceInstances.Keys, result)
      ensures Agrees(serviceInstances, InstanceService, instanceIDsByLogicalService) ==>
                Lists(serviceInstances, Wanted(serviceInstances, InstanceService, Trim(logicalServiceID)), result)
    {
      if Agrees(serviceInstances, InstanceService, instanceIDsByLogicalService) {
        BucketIsWanted(serviceInstances, InstanceService, instanceIDsByLogicalService, Trim(logicalServiceID));
      }
      result := Collect(serviceInstances, Bucket(instanceIDsByLogicalService, Trim(logicalServiceID)));
    }

    method ListRoutesByLogicalService(logicalServiceID: string) returns (result: seq<Route>)
      ensures Lists(routes, Bucket(routeIDsByLogicalService, Trim(logicalServiceID)) * routes.Keys, result)
      ensures Agrees(routes, RouteService, routeIDsByLogicalService) ==>
                Lists(routes, Wanted(routes, RouteService, Trim(logicalServiceID)), result)
    {
      if Agrees(routes, RouteService, routeIDsByLogicalService) {
        BucketIsWanted(routes, RouteService, routeIDsByLogicalService, Trim(logicalServiceID));
      }
      result := Collect(routes, Bucket(routeIDsByLogicalService, Trim(logicalServiceID)));
    }

    /** A service found has the requested key; while the name index is complete, none is missed. */
    method FindLogicalServiceByNameScope(name: string, scope: Scope) returns (found: Option<Service>)
      requires NamesSound(logicalServices, logicalServiceIDByScopeName)
      ensures found == if NameKey(name, scope) !in logicalServiceIDByScopeName then None
                       else Some(logicalServices[logicalServiceIDByScopeName[NameKey(name, scope)]])
      ensures found.Some? ==> ServiceKey(found.value) == NameKey(name, scope)
                              && exists id :: id != "" && id in logicalServices && logicalServices[id] == found.value
      ensures NamesComplete(logicalServices, logicalServiceIDByScopeName) ==>
                (found.Some? <==> Scan(logicalServices, ServiceKey, NameKey(name, scope)) != {})
    {
      var key := NameKey(name, scope);
      if key !in logicalServiceIDByScopeName {
        return None;
      }
      var id := logicalServiceIDByScopeName[key];
      if id !in logicalServices {
        return None;
      }
      assert id in Scan(logicalServices, ServiceKey, key);
      found := Some(logicalServices[id]);
    }
  }
}
