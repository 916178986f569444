/** The whole service: group requests, token exchanges and issuer administration in any order. */
module ServiceRuns {
  import opened Bytes
  import opened Storage
  import opened Permissions
  import opened Identity
  import Api = GroupApi
  import Groups = GroupRuns
  import Users = ExchangeRuns

  datatype Event = OnGroups(step: Groups.Step) | OnUsers(action: Users.Action)

  function Advance(w: Api.World, e: Event, f: Foreign): (next: Api.World)
    requires Valid(w.store)
    ensures Valid(next.store)
  {
    match e
    case OnGroups(step) =>
      Groups.ServeKeepsValid(w, step.req, step.env);
      Api.Serve(w, step.req, step.env)
    case OnUsers(action) =>
      Users.DoKeepsGroups(w.store, action, f);
      w.(store := Users.Do(w.store, action, f))
  }

  /** Every reachable store meets every constraint of every table. */
  function Run(w: Api.World, events: seq<Event>, f: Foreign): (end: Api.World)
    requires Valid(w.store)
    ensures Valid(end.store)
    decreases |events|
  {
    if events == [] then w else Run(Advance(w, events[0], f), events[1..], f)
  }

  /** Only group requests put relations in doubt, and only they clear them. */
  function Doubt(w: Api.World, events: seq<Event>, f: Foreign, doubt: set<Relation>): set<Relation>
    requires Valid(w.store)
    decreases |events|
  {
    if events == [] then doubt
    else
      var after :=
        match events[0]
        case OnUsers(_) => doubt
        case OnGroups(step) =>
          var named := Groups.Touched(w, step.req, step.env);
          if Groups.Commits(w, step.req, step.env) then doubt - named else doubt + named;
      Doubt(Advance(w, events[0], f), events[1..], f, after)
  }

  /** Exchanges and issuer changes cannot disturb the agreement of tables and graph. */
  lemma UsersKeepAgreement(w: Api.World, action: Users.Action, f: Foreign, r: Relation)
    requires Valid(w.store)
    ensures Groups.Agrees(Advance(w, OnUsers(action), f), r) <==> Groups.Agrees(w, r)
  {
    Users.DoKeepsGroups(w.store, action, f);
    hide Users.Do;
    assert Groups.Expected(Users.Do(w.store, action, f)) == Groups.Expected(w.store);
  }

  /** In every reachable state tables and graph agree on every relation that is not in doubt. */
  lemma {:induction false} ServiceAgrees(w: Api.World, events: seq<Event>, f: Foreign, doubt: set<Relation>)
    requires Valid(w.store) && forall r | r !in doubt :: Groups.Agrees(w, r)
    ensures forall r | r !in Doubt(w, events, f, doubt) :: Groups.Agrees(Run(w, events, f), r)
    decreases |events|
  {
    hide Valid, Groups.Agrees, Groups.Commits, Groups.Touched, Api.Serve, Users.Do;
    if events != [] {
      var next := Advance(w, events[0], f);
      match events[0] {
        case OnUsers(action) =>
          forall r | r !in doubt ensures Groups.Agrees(next, r) {
            UsersKeepAgreement(w, action, f, r);
          }
          ServiceAgrees(next, events[1..], f, doubt);
        case OnGroups(step) =>
          var named := Groups.Touched(w, step.req, step.env);
          if Groups.Commits(w, step.req, step.env) {
            Groups.CommitHeals(w, step.req, step.env);
            ServiceAgrees(next, events[1..], f, doubt - named);
          } else {
            Groups.FailureIsContained(w, step.req, step.env);
            ServiceAgrees(next, events[1..], f, doubt + named);
          }
      }
    }
  }

  /** From an empty database and graph. */
  lemma FromNothing(events: seq<Event>, f: Foreign)
    ensures Valid(EMPTY)
    ensures forall r | r !in Doubt(Api.World(EMPTY, {}), events, f, {}) ::
              Groups.Agrees(Run(Api.World(EMPTY, {}), events, f), r)
  {
    var start := Api.World(EMPTY, {});
    assert Groups.Expected(EMPTY) == {};
    ServiceAgrees(start, events, f, {});
  }
}
