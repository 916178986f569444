/** The group handlers and the storage middleware around them (internal/api/httpsrv). */
module GroupApi {
  import opened Bytes
  import opened Storage
  import opened Permissions
  import G = GroupStore

  // ---------- requests and what the environment decides ----------

  datatype Request =
    | CreateGroup(id: Id, owner: Id, name: Str, description: Option<Str>)
    | UpdateGroup(id: Id, newName: Option<Str>, newDescription: Option<Str>)
    | DeleteGroup(id: Id)
    | AddMembers(group: Id, subjects: seq<Id>)
    | RemoveMember(group: Id, subject: Id)
    | ReplaceMembers(group: Id, subjects: seq<Id>)

  /**
   * Everything a request does not control: whether the transaction begins, which identifiers fail to parse,
   * whether access is granted, whether the storage call meets a driver error, how its publishes end, whether the body
   * of the response can be written after its status, and whether rolling back and committing work.
   */
  datatype Env = Env(begins: bool, malformed: set<Id>, allowed: bool, driverError: bool,
                     deliveries: (Delivery, Delivery), responds: bool, rollsBack: bool, commits: bool)

  /** The identifiers a handler parses before anything else. */
  function ParsedIds(req: Request): set<Id> {
    match req
    case CreateGroup(_, owner, _, _) => {owner}
    case UpdateGroup(id, _, _) => {id}
    case DeleteGroup(id) => {id}
    case AddMembers(group, subjects) => {group} + Elements(subjects)
    case RemoveMember(group, subject) => {group, subject}
    case ReplaceMembers(group, subjects) => {group} + Elements(subjects)
  }

  predicate Parses(req: Request, env: Env) {
    forall id | id in ParsedIds(req) :: id !in env.malformed
  }

  // ---------- a request as one step ----------

  /** What the request does to the tables. DeleteGroup counts members before it deletes. */
  function StoreStep(s: Store, req: Request): G.GroupResult<Store> {
    match req
    case CreateGroup(id, owner, name, description) =>
      G.Insert(s, id, Group(owner, name, if description.Some? then description.value else []))
    case UpdateGroup(id, name, description) => G.Update(s, id, name, description)
    case DeleteGroup(id) =>
      if id in s.groups && G.Subjects(s, id) != {} then Err(G.HasMembers) else G.Delete(s, id)
    case AddMembers(group, subjects) => G.Add(s, group, Elements(subjects))
    case RemoveMember(group, subject) => G.Remove(s, group, subject)
    case ReplaceMembers(group, subjects) => G.Replace(s, G.Subjects(s, group), group, Elements(subjects))
  }

  /** What it publishes, in order. */
  function Publishes(s: Store, req: Request): (ps: seq<Publish>)
    ensures |ps| <= 2
  {
    match req
    case CreateGroup(id, owner, _, _) => [Grant({Relation(id, Parent, owner)})]
    case UpdateGroup(_, _, _) => []
    case DeleteGroup(id) => if id in s.groups then [Revoke({Relation(id, Parent, s.groups[id].owner)})] else []
    case AddMembers(group, subjects) => [Grant(MemberRelations(group, Elements(subjects)))]
    case RemoveMember(group, subject) => [Revoke(MemberRelations(group, {subject}))]
    case ReplaceMembers(group, subjects) =>
      var current, incoming := G.Subjects(s, group), Elements(subjects);
      [Revoke(MemberRelations(group, current - incoming)), Grant(MemberRelations(group, incoming - current))]
  }

  /** The graph after publishing until the first failure, whether all went well, and the relations named so far. */
  datatype Sent = Sent(graph: Graph, ok: bool, named: set<Relation>)

  function Deliver(graph: Graph, ps: seq<Publish>, ds: seq<Delivery>): Sent
    requires |ps| <= |ds|
    decreases |ps|
  {
    if ps == [] then Sent(graph, true, {})
    else
      var (g, failed) := Published(graph, ps[0], ds[0]);
      if failed then Sent(g, false, ps[0].rels)
      else
        var rest := Deliver(g, ps[1..], ds[1..]);
        rest.(named := ps[0].rels + rest.named)
  }

  lemma DeliverOne(graph: Graph, p: Publish, d: Delivery, unused: Delivery)
    ensures var (g, failed) := Published(graph, p, d);
            Deliver(graph, [p], [d, unused]) == Sent(g, !failed, p.rels)
  {
    assert [p][1..] == [];
    assert p.rels + {} == p.rels;
  }

  lemma DeliverTwo(graph: Graph, p: Publish, q: Publish, d: Delivery, e: Delivery)
    ensures var (g, failed) := Published(graph, p, d);
            var (h, failed') := Published(g, q, e);
            Deliver(graph, [p, q], [d, e]) ==
              if failed then Sent(g, false, p.rels) else Sent(h, !failed', p.rels + q.rels)
  {
    var g := Published(graph, p, d).0;
    assert [p, q][1..] == [q] && [d, e][1..] == [e];
    assert [q][1..] == [] && q.rels + {} == q.rels;
    assert Deliver(g, [q], [e]) == Sent(Published(g, q, e).0, !Published(g, q, e).1, q.rels);
  }

  /** A handler's outcome: the transaction it leaves, the graph, whether it returns no error, what it named. */
  datatype Handled = Handled(tx: Tx, graph: Graph, ok: bool, named: set<Relation>)

  function Handle(s: Store, graph: Graph, req: Request, env: Env): Handled {
    var refused := Handled(Open(s), graph, false, {});
    if !Parses(req, env) || !env.allowed || env.driverError then refused
    else
      match StoreStep(s, req)
      case Err(_) => refused
      case Ok(view) =>
        var sent := Deliver(graph, Publishes(s, req), [env.deliveries.0, env.deliveries.1]);
        Handled(if sent.ok then Open(view) else Ended, sent.graph, sent.ok, sent.named)
  }

  // ---------- the middleware ----------

  datatype System = System(committed: Store, tx: Tx, graph: Graph)

  /** What the middleware returns to the server. */
  datatype Response = Success | HandlerError | BadGateway

  /** What the client receives. */
  datatype Status = Ok200 | ErrorStatus

  /** What the wrapped handler did: wrote a success status or not, returned an error or not. */
  datatype Next = Next(wrote: bool, ok: bool)

  /**
   * Begin, run the handler, then roll back or commit. A status the handler wrote is on the wire and stands whatever
   * follows; otherwise the status comes from the returned error, if there is one.
   */
  function Middleware(sys: System, handler: System -> (System, Next), env: Env): (System, Response, Status) {
    if !env.begins then (sys.(tx := NoTx), BadGateway, ErrorStatus)
    else
      var (after, next) := handler(sys.(tx := Open(sys.committed)));
      var closed := after.(tx := if after.tx.Open? then Ended else after.tx);
      var written := if next.wrote then Ok200 else ErrorStatus;
      if !next.ok then (closed, if after.tx.Open? && env.rollsBack then HandlerError else BadGateway, written)
      else if after.tx.Open? && env.commits then (closed.(committed := after.tx.view), Success, Ok200)
      else (closed, BadGateway, written)
  }

  /**
   * For every handler that leaves the committed store alone, even one that ends its transaction itself: the store
   * afterwards is the old one, or the handler's whole view, and the latter exactly when the transaction began, the
   * handler returned no error without ending it, and the commit worked. The middleware reports success exactly then.
   * The client's status disagrees with the store in one way only: the handler wrote success and nothing was published.
   */
  lemma MiddlewareAtomic(sys: System, handler: System -> (System, Next), env: Env)
    requires forall s :: handler(s).0.committed == s.committed
    ensures var (after, next) := handler(sys.(tx := Open(sys.committed)));
            var (end, response, status) := Middleware(sys, handler, env);
            var published := env.begins && next.ok && after.tx.Open? && env.commits;
            && end.committed == (if published then after.tx.view else sys.committed)
            && (response.Success? <==> published)
            && (response.HandlerError? <==> env.begins && !next.ok && after.tx.Open? && env.rollsBack)
            && (published ==> status.Ok200?)
            && (status.Ok200? && !published <==>
                  env.begins && next.wrote && !(next.ok && after.tx.Open? && env.commits))
            && !end.tx.Open?
  {
    var start := sys.(tx := Open(sys.committed));
    assert handler(start).0.committed == sys.committed;
  }

  /** The strict handler: a response's status goes out first, then its body, whose writing may fail. */
  function RunHandler(sys: System, req: Request, env: Env): (System, Next) {
    var h := Handle(sys.committed, sys.graph, req, env);
    (System(sys.committed, h.tx, h.graph), Next(h.ok, h.ok && env.responds))
  }

  /** The part of the world that outlives a request. */
  datatype World = World(store: Store, graph: Graph)

  function Served(w: World, req: Request, env: Env): (System, Response, Status) {
    Middleware(System(w.store, NoTx, w.graph), s => RunHandler(s, req, env), env)
  }

  function Serve(w: World, req: Request, env: Env): World {
    World(Served(w, req, env).0.committed, Served(w, req, env).0.graph)
  }

  function ClientStatus(w: World, req: Request, env: Env): Status {
    Served(w, req, env).2
  }

  // ---------- the handlers ----------

  class Api {
    const db: Database
    const groups: G.GroupService
    const events: Events

    constructor (db: Database, events: Events)
      ensures this.db == db && this.events == events && groups.db == db
    {
      this.db, this.events := db, events;
      groups := new G.GroupService(db);
    }

    ghost predicate Wired()
    {
      groups.db == db
    }

    /** rollbackAndReturnError; the handler's error either way. */
    method RollbackAndFail(env: Env) returns (ok: bool)
      requires db.tx.Open?
      modifies db`tx
      ensures !ok && db.tx == Ended
    {
      var _ := db.RollbackContext(env.rollsBack);
      ok := false;
    }

    // Each handler ends as Handle says: the same transaction, the same graph, the same verdict.

    method HandleCreate(id: Id, owner: Id, name: Str, description: Option<Str>, env: Env) returns (ok: bool)
      requires Wired() && db.tx == Open(db.committed)
      modifies db`tx, events
      ensures var h := Handle(db.committed, old(events.graph), CreateGroup(id, owner, name, description), env);
              db.tx == h.tx && events.graph == h.graph && ok == h.ok
    {
      if owner in env.malformed || !env.allowed || env.driverError {
        return false;
      }
      var r := groups.CreateGroup(id, Group(owner, name, if description.Some? then description.value else []));
      if r.Err? {
        return false;
      }
      DeliverOne(events.graph, Grant({Relation(id, Parent, owner)}), env.deliveries.0, env.deliveries.1);
      var err := events.CreateGroup(owner, id, env.deliveries.0);
      if err {
        ok := RollbackAndFail(env);
        return;
      }
      ok := true;
    }

    method HandleUpdate(id: Id, name: Option<Str>, description: Option<Str>, env: Env) returns (ok: bool)
      requires Wired() && db.tx == Open(db.committed)
      modifies db`tx, events
      ensures var h := Handle(db.committed, old(events.graph), UpdateGroup(id, name, description), env);
              db.tx == h.tx && events.graph == h.graph && ok == h.ok
    {
      if id in env.malformed || !env.allowed || env.driverError {
        return false;
      }
      var r := groups.UpdateGroup(id, name, description);
      ok := r.Ok?;
    }

    method HandleDelete(id: Id, env: Env) returns (ok: bool)
      requires Wired() && db.tx == Open(db.committed)
      modifies db`tx, events
      ensures var h := Handle(db.committed, old(events.graph), DeleteGroup(id), env);
              db.tx == h.tx && events.graph == h.graph && ok == h.ok
    {
      if id in env.malformed || !env.allowed || env.driverError {
        return false;
      }
      if id !in db.tx.view.groups {
        return false;
      }
      var group := db.tx.view.groups[id];
      var count := groups.GroupMembersCount(id);
      if count > 0 {
        return false;
      }
      var r := groups.DeleteGroup(id);
      assert r.Ok?;
      DeliverOne(events.graph, Revoke({Relation(id, Parent, group.owner)}), env.deliveries.0, env.deliveries.1);
      var err := events.DeleteGroup(group.owner, id, env.deliveries.0);
      if err {
        ok := RollbackAndFail(env);
        return;
      }
      ok := true;
    }

    method HandleAdd(group: Id, subjects: seq<Id>, env: Env) returns (ok: bool)
      requires Wired() && db.tx == Open(db.committed)
      modifies db`tx, events
      ensures var h := Handle(db.committed, old(events.graph), AddMembers(group, subjects), env);
              db.tx == h.tx && events.graph == h.graph && ok == h.ok
    {
      var parsed := ParseAll(group, subjects, env.malformed);
      if !parsed || !env.allowed || env.driverError {
        return false;
      }
      var r := groups.AddGroupMembers(group, subjects);
      if r.Err? {
        return false;
      }
      DeliverOne(events.graph, Grant(MemberRelations(group, Elements(subjects))), env.deliveries.0, env.deliveries.1);
      var err := events.AddGroupMembers(group, subjects, env.deliveries.0);
      if err {
        ok := RollbackAndFail(env);
        return;
      }
      ok := true;
    }

    method HandleRemove(group: Id, subject: Id, env: Env) returns (ok: bool)
      requires Wired() && db.tx == Open(db.committed)
      modifies db`tx, events
      ensures var h := Handle(db.committed, old(events.graph), RemoveMember(group, subject), env);
              db.tx == h.tx && events.graph == h.graph && ok == h.ok
    {
      if group in env.malformed || subject in env.malformed || !env.allowed || env.driverError {
        return false;
      }
      var r := groups.RemoveGroupMember(group, subject);
      if r.Err? {
        return false;
      }
      assert Elements([subject]) == {subject};
      DeliverOne(events.graph, Revoke(MemberRelations(group, {subject})), env.deliveries.0, env.deliveries.1);
      var err := events.RemoveGroupMembers(group, [subject], env.deliveries.0);
      if err {
        ok := RollbackAndFail(env);
        return;
      }
      ok := true;
    }

    /** Two publishes: what the first one did stays done when the second one fails. */
    method HandleReplace(group: Id, subjects: seq<Id>, env: Env) returns (ok: bool)
      requires Wired() && db.tx == Open(db.committed)
      modifies db`tx, events
      ensures var h := Handle(db.committed, old(events.graph), ReplaceMembers(group, subjects), env);
              db.tx == h.tx && events.graph == h.graph && ok == h.ok
    {
      var parsed := ParseAll(group, subjects, env.malformed);
      if !parsed || !env.allowed || env.driverError {
        return false;
      }
      var r := groups.ReplaceGroupMembers(group, subjects);
      if r.Err? {
        return false;
      }
      var (add, rm) := r.value;
      DeliverTwo(events.graph, Revoke(MemberRelations(group, Elements(rm))), Grant(MemberRelations(group, Elements(add))),
                 env.deliveries.0, env.deliveries.1);
      var err := events.RemoveGroupMembers(group, rm, env.deliveries.0);
      if err {
        ok := RollbackAndFail(env);
        return;
      }
      err := events.AddGroupMembers(group, add, env.deliveries.1);
      if err {
        ok := RollbackAndFail(env);
        return;
      }
      ok := true;
    }

    /** The validation loops over the path and body identifiers. */
    static method ParseAll(group: Id, subjects: seq<Id>, malformed: set<Id>) returns (ok: bool)
      ensures ok <==> forall id | id in {group} + Elements(subjects) :: id !in malformed
    {
      if group in malformed {
        assert group in {group} + Elements(subjects);
        return false;
      }
      for i := 0 to |subjects|
        invariant forall k | 0 <= k < i :: subjects[k] !in malformed
      {
        if subjects[i] in malformed {
          assert subjects[i] in {group} + Elements(subjects);
          return false;
        }
      }
      ok := true;
    }

    /** Runs the handler and writes its response. */
    method Dispatch(req: Request, env: Env) returns (next: Next)
      requires Wired() && db.tx == Open(db.committed)
      modifies db`tx, events
      ensures var h := Handle(db.committed, old(events.graph), req, env);
              db.tx == h.tx && events.graph == h.graph && next == Next(h.ok, h.ok && env.responds)
    {
      var ok;
      match req {
        case CreateGroup(id, owner, name, description) => ok := HandleCreate(id, owner, name, description, env);
        case UpdateGroup(id, name, description) => ok := HandleUpdate(id, name, description, env);
        case DeleteGroup(id) => ok := HandleDelete(id, env);
        case AddMembers(group, subjects) => ok := HandleAdd(group, subjects, env);
        case RemoveMember(group, subject) => ok := HandleRemove(group, subject, env);
        case ReplaceMembers(group, subjects) => ok := HandleReplace(group, subjects, env);
      }
      next := Next(ok, ok && env.responds);
    }

    method StorageMiddleware(req: Request, env: Env) returns (response: Response, status: Status)
      requires Wired()
      modifies db, events
      ensures World(db.committed, events.graph) == Serve(World(old(db.committed), old(events.graph)), req, env)
      ensures response == Served(World(old(db.committed), old(events.graph)), req, env).1
      ensures status == ClientStatus(World(old(db.committed), old(events.graph)), req, env)
      ensures !db.tx.Open?
      ensures response.Success? ==>
                Open(db.committed) == Handle(old(db.committed), old(events.graph), req, env).tx
      ensures !response.Success? ==> db.committed == old(db.committed)
    {
      status := ErrorStatus;
      var err := db.BeginContext(env.begins);
      if err {
        return BadGateway, status;
      }
      var next := Dispatch(req, env);
      if next.wrote {
        status := Ok200;
      }
      if !next.ok {
        var rbErr := db.RollbackContext(env.rollsBack);
        return if rbErr then BadGateway else HandlerError, status;
      }
      var commitErr := db.CommitContext(env.commits);
      response := if commitErr then BadGateway else Success;
    }
  }
}
