/** Whole runs of group requests: the membership tables against the permission graph. */
module GroupRuns {
  import opened Bytes
  import opened Storage
  import opened Permissions
  import opened GroupApi
  import G = GroupStore

  /** The relations that the tables call for. */
  function Expected(s: Store): Graph {
    (set m | m in s.members && m.subject != [] :: Relation(m.group, DirectMember, m.subject))
    + (set g | g in s.groups :: Relation(g, Parent, s.groups[g].owner))
  }

  predicate Agrees(w: World, r: Relation) {
    r in w.graph <==> r in Expected(w.store)
  }

  // ---------- one request ----------

  /** The graph after publishing everything. */
  function Applied(graph: Graph, ps: seq<Publish>): Graph
    decreases |ps|
  {
    if ps == [] then graph else Applied(Effect(graph, ps[0]), ps[1..])
  }

  function Named(ps: seq<Publish>): set<Relation> {
    if ps == [] then {} else ps[0].rels + Named(ps[1..])
  }

  lemma AppliedOne(graph: Graph, p: Publish)
    ensures Applied(graph, [p]) == Effect(graph, p) && Named([p]) == p.rels
  {
    assert [p][1..] == [];
  }

  lemma AppliedTwo(graph: Graph, p: Publish, q: Publish)
    ensures Applied(graph, [p, q]) == Effect(Effect(graph, p), q)
  {
    assert [p, q][1..] == [q];
    AppliedOne(Effect(graph, p), q);
  }

  lemma ExpectedHas(s: Store, r: Relation)
    ensures r in Expected(s) <==>
      match r.kind
      case DirectMember => r.subject != [] && Membership(r.resource, r.subject) in s.members
      case Parent => r.resource in s.groups && s.groups[r.resource].owner == r.subject
  {
    if r.kind.DirectMember? && Membership(r.resource, r.subject) in s.members && r.subject != [] {
      var m := Membership(r.resource, r.subject);
      assert r == Relation(m.group, DirectMember, m.subject);
    }
  }

  /** Publishing what a request publishes turns the relations the old tables call for into those of the new ones. */
  lemma PublishesMatchTables(s: Store, req: Request)
    requires StoreStep(s, req).Ok?
    ensures Expected(StoreStep(s, req).value) == Applied(Expected(s), Publishes(s, req))
  {
    var view, before := StoreStep(s, req).value, Expected(s);
    var ps := Publishes(s, req);
    if |ps| == 1 {
      AppliedOne(before, ps[0]);
    } else if |ps| == 2 {
      AppliedTwo(before, ps[0], ps[1]);
    }
    forall r ensures r in Expected(view) <==> r in Applied(before, ps) {
      ExpectedHas(s, r);
      ExpectedHas(view, r);
    }
  }

  /** A relation outside the published ones is left alone; on the others the last word decides, whatever was there. */
  lemma {:induction false} AppliedDecides(a: Graph, b: Graph, ps: seq<Publish>, r: Relation)
    ensures r !in Named(ps) ==> (r in Applied(a, ps) <==> r in a)
    ensures r in Named(ps) ==> (r in Applied(a, ps) <==> r in Applied(b, ps))
    decreases |ps|
  {
    if ps != [] {
      AppliedDecides(Effect(a, ps[0]), Effect(b, ps[0]), ps[1..], r);
      AppliedDecides(Effect(b, ps[0]), Effect(a, ps[0]), ps[1..], r);
    }
  }

  /** Delivery without a failure applies everything; a failed one touches only what it named. */
  lemma {:induction false} DeliverEffect(graph: Graph, ps: seq<Publish>, ds: seq<Delivery>)
    requires |ps| <= |ds|
    ensures var sent := Deliver(graph, ps, ds);
            && (sent.ok ==> sent.graph == Applied(graph, ps) && sent.named == Named(ps))
            && sent.named <= Named(ps)
            && forall r | r !in sent.named :: r in sent.graph <==> r in graph
    decreases |ps|
  {
    if ps != [] {
      var (g, failed) := Published(graph, ps[0], ds[0]);
      if !failed {
        assert g == Effect(graph, ps[0]);
        DeliverEffect(g, ps[1..], ds[1..]);
      }
    }
  }

  /** The handler returned a response, so a success status was written. */
  predicate Accepted(w: World, req: Request, env: Env) {
    env.begins && Handle(w.store, w.graph, req, env).ok
  }

  /** The request got through: begun, handled without error, answered, committed. */
  predicate Commits(w: World, req: Request, env: Env) {
    Accepted(w, req, env) && env.responds && env.commits
  }

  /** The relations the request handed to the permission graph before it ended. */
  function Touched(w: World, req: Request, env: Env): set<Relation> {
    if env.begins then Handle(w.store, w.graph, req, env).named else {}
  }

  lemma ServeIs(w: World, req: Request, env: Env)
    ensures var h := Handle(w.store, w.graph, req, env);
            && (Commits(w, req, env) ==> h.tx.Open? && Serve(w, req, env) == World(h.tx.view, h.graph))
            && (!Commits(w, req, env) ==>
                  Serve(w, req, env) == World(w.store, if env.begins then h.graph else w.graph))
  {
  }

  /**
   * The status is on the wire before the commit. What the client sees and what the store holds disagree in one way
   * only: success was reported and nothing was committed, exactly when the handler accepted the request and then
   * writing the body or committing failed.
   */
  lemma StatusDisagreesIff(w: World, req: Request, env: Env)
    ensures ClientStatus(w, req, env).Ok200? <==> Accepted(w, req, env)
    ensures Commits(w, req, env) ==> ClientStatus(w, req, env).Ok200?
    ensures ClientStatus(w, req, env).Ok200? && !Commits(w, req, env)
       <==> Accepted(w, req, env) && !(env.responds && env.commits)
    ensures !Commits(w, req, env) ==> Serve(w, req, env).store == w.store
  {
    ServeIs(w, req, env);
  }

  /** A committed request makes every relation it names agree, whatever the graph held before. */
  lemma CommitHeals(w: World, req: Request, env: Env)
    requires Commits(w, req, env)
    ensures forall r | r in Touched(w, req, env) :: Agrees(Serve(w, req, env), r)
    ensures forall r | r !in Touched(w, req, env) :: Agrees(Serve(w, req, env), r) <==> Agrees(w, r)
  {
    hide Expected, StoreStep, Publishes;
    var ps := Publishes(w.store, req);
    ServeIs(w, req, env);
    PublishesMatchTables(w.store, req);
    DeliverEffect(w.graph, ps, [env.deliveries.0, env.deliveries.1]);
    forall r ensures r in Named(ps) ==> Agrees(Serve(w, req, env), r)
             ensures r !in Named(ps) ==> (Agrees(Serve(w, req, env), r) <==> Agrees(w, r))
    {
      AppliedDecides(w.graph, Expected(w.store), ps, r);
      AppliedDecides(Expected(w.store), w.graph, ps, r);
    }
  }

  /** A request that does not commit leaves the tables alone and can only disturb what it named. */
  lemma FailureIsContained(w: World, req: Request, env: Env)
    requires !Commits(w, req, env)
    ensures Serve(w, req, env).store == w.store
    ensures forall r | r !in Touched(w, req, env) :: Agrees(Serve(w, req, env), r) <==> Agrees(w, r)
  {
    hide Expected, StoreStep, Publishes;
    ServeIs(w, req, env);
    DeliverEffect(w.graph, Publishes(w.store, req), [env.deliveries.0, env.deliveries.1]);
  }

  // ---------- runs ----------

  datatype Step = Step(req: Request, env: Env)

  function Run(w: World, steps: seq<Step>): World
    decreases |steps|
  {
    if steps == [] then w else Run(Serve(w, steps[0].req, steps[0].env), steps[1..])
  }

  /**
   * The relations in doubt after a run: a request that fails after naming relations puts them in doubt, and a
   * committed request clears the ones it names.
   */
  function Doubt(w: World, steps: seq<Step>, doubt: set<Relation>): set<Relation>
    decreases |steps|
  {
    if steps == [] then doubt
    else
      var req, env := steps[0].req, steps[0].env;
      var named := Touched(w, req, env);
      Doubt(Serve(w, req, env), steps[1..], if Commits(w, req, env) then doubt - named else doubt + named)
  }

  /** However publishes and commits turn out, tables and graph agree on every relation that is not in doubt. */
  lemma {:induction false} RunAgrees(w: World, steps: seq<Step>, doubt: set<Relation>)
    requires forall r | r !in doubt :: Agrees(w, r)
    ensures forall r | r !in Doubt(w, steps, doubt) :: Agrees(Run(w, steps), r)
    decreases |steps|
  {
    hide Agrees, Serve, Commits, Touched;
    if steps != [] {
      var req, env := steps[0].req, steps[0].env;
      var named := Touched(w, req, env);
      var next := if Commits(w, req, env) then doubt - named else doubt + named;
      if Commits(w, req, env) {
        CommitHeals(w, req, env);
      } else {
        FailureIsContained(w, req, env);
      }
      RunAgrees(Serve(w, req, env), steps[1..], next);
    }
  }

  /** The state before step k. */
  function Before(w: World, steps: seq<Step>, k: nat): World
    requires k <= |steps|
  {
    Run(w, steps[..k])
  }

  /** Step k ended after naming relations, and did not commit. */
  predicate FailedLate(w: World, steps: seq<Step>, k: nat)
    requires k < |steps|
  {
    var b := Before(w, steps, k);
    !Commits(b, steps[k].req, steps[k].env) && Touched(b, steps[k].req, steps[k].env) != {}
  }

  lemma {:induction false} RunSplit(w: World, steps: seq<Step>, k: nat)
    requires 0 < k <= |steps|
    ensures Run(w, steps[..k]) == Run(Serve(w, steps[0].req, steps[0].env), steps[1..][..k - 1])
  {
    assert steps[..k][0] == steps[0];
    assert steps[..k][1..] == steps[1..][..k - 1];
  }

  /** Without a late failure nothing comes into doubt. */
  lemma {:induction false} NoDoubt(w: World, steps: seq<Step>)
    requires forall k | 0 <= k < |steps| :: !FailedLate(w, steps, k)
    ensures Doubt(w, steps, {}) == {}
    decreases |steps|
  {
    hide Commits, Touched, Serve;
    if steps != [] {
      var next, tail := Serve(w, steps[0].req, steps[0].env), steps[1..];
      assert Before(w, steps, 0) == w;
      assert !FailedLate(w, steps, 0);
      forall k | 0 <= k < |tail| ensures !FailedLate(next, tail, k) {
        RunSplit(w, steps, k + 1);
        assert !FailedLate(w, steps, k + 1);
        assert tail[k] == steps[k + 1];
      }
      NoDoubt(next, tail);
      var none, named: set<Relation> := {}, Touched(w, steps[0].req, steps[0].env);
      assert none - named == none && none + none == none;
    }
  }

  /** Starting in agreement and without a late failure, the graph is exactly what the tables call for, in every state. */
  lemma RunInSync(w: World, steps: seq<Step>, k: nat)
    requires w.graph == Expected(w.store) && k <= |steps|
    requires forall i | 0 <= i < |steps| :: !FailedLate(w, steps, i)
    ensures Before(w, steps, k).graph == Expected(Before(w, steps, k).store)
  {
    hide Commits, Touched, Serve, Expected;
    var first := steps[..k];
    forall i | 0 <= i < |first| ensures !FailedLate(w, first, i) {
      assert !FailedLate(w, steps, i);
      assert first[..i] == steps[..i] && first[i] == steps[i];
    }
    NoDoubt(w, first);
    RunAgrees(w, first, {});
    var end := Run(w, first);
    forall r ensures r in end.graph <==> r in Expected(end.store) {
      assert Agrees(end, r);
    }
  }

  // ---------- replacing members when publishing fails ----------

  predicate InSync(w: World) {
    w.graph == Expected(w.store)
  }

  /** In agreement, what is to be revoked is there and what is to be granted is not. */
  lemma ReplaceIsFresh(w: World, group: Id, incoming: set<Id>)
    requires InSync(w)
    ensures MemberRelations(group, G.Subjects(w.store, group) - incoming) <= w.graph
    ensures MemberRelations(group, incoming - G.Subjects(w.store, group)) !! w.graph
  {
    forall x | x != []
      ensures x in G.Subjects(w.store, group) <==> Relation(group, DirectMember, x) in w.graph
    {
      ExpectedHas(w.store, Relation(group, DirectMember, x));
      assert x in G.Subjects(w.store, group) <==> Membership(group, x) in w.store.members;
    }
  }

  /**
   * Exactly when an accepted replacement keeps tables and graph in agreement, over every way its two publishes and
   * its commit can end. A failure of the second publish is harmless only if the first one had nothing to revoke.
   */
  lemma ReplaceInSyncIff(w: World, group: Id, subjects: seq<Id>, env: Env)
    requires InSync(w) && group in w.store.groups
    requires env.begins && env.allowed && !env.driverError && Parses(ReplaceMembers(group, subjects), env)
    ensures var current, incoming := G.Subjects(w.store, group), Elements(subjects);
            var revoked, granted := MemberRelations(group, current - incoming), MemberRelations(group, incoming - current);
            var (first, second) := env.deliveries;
            InSync(Serve(w, ReplaceMembers(group, subjects), env)) <==>
              if revoked != {} && first.Failed? then revoked * first.applied == {}
              else if granted != {} && second.Failed? then revoked == {} && granted * second.applied == {}
              else (env.responds && env.commits) || (revoked == {} && granted == {})
  {
    var req := ReplaceMembers(group, subjects);
    var current, incoming := G.Subjects(w.store, group), Elements(subjects);
    var revoked, granted := MemberRelations(group, current - incoming), MemberRelations(group, incoming - current);
    ServeIs(w, req, env);
    DeliverTwo(w.graph, Revoke(revoked), Grant(granted), env.deliveries.0, env.deliveries.1);
    ReplaceIsFresh(w, group, incoming);
    if Commits(w, req, env) {
      PublishesMatchTables(w.store, req);
      AppliedTwo(w.graph, Revoke(revoked), Grant(granted));
    } else {
      NetChange(w.graph, revoked, granted, env.deliveries.0, env.deliveries.1);
    }
  }

  /** Whether the graph is back where it was, when the revoked part was in it and the granted part was not. */
  lemma NetChange(graph: Graph, revoked: set<Relation>, granted: set<Relation>, d: Delivery, e: Delivery)
    requires revoked <= graph && granted !! graph
    ensures var (g, failed) := Published(graph, Revoke(revoked), d);
            var (h, failed') := Published(g, Grant(granted), e);
            && (failed ==> (g == graph <==> revoked * d.applied == {}))
            && (!failed && failed' ==> (h == graph <==> revoked == {} && granted * e.applied == {}))
            && (!failed && !failed' ==> (h == graph <==> revoked == {} && granted == {}))
  {
    var g := Published(graph, Revoke(revoked), d).0;
    var lost := if revoked != {} && d.Failed? then revoked * d.applied else revoked;
    var won := if granted != {} && e.Failed? then granted * e.applied else granted;
    assert g == graph - lost;
    assert Published(g, Grant(granted), e).0 == graph - lost + won;
    assert lost <= graph && won !! graph;
    if lost != {} {
      var r :| r in lost;
      assert r in graph && r !in graph - lost + won;
    } else if won != {} {
      var r :| r in won;
      assert r !in graph && r in graph - lost + won;
    } else {
      assert graph - lost + won == graph;
    }
  }

  /** What a replacement revokes and what it grants. */
  function ReplacedRelations(s: Store, group: Id, subjects: seq<Id>): set<Relation> {
    var current, incoming := G.Subjects(s, group), Elements(subjects);
    MemberRelations(group, current - incoming) + MemberRelations(group, incoming - current)
  }

  /**
   * A committed replacement repairs exactly the relations it changes: everything agrees afterwards if and only if
   * everything else agreed before. A relation of a kept member stays as wrong as it was.
   */
  lemma ReplaceRepairsIff(w: World, group: Id, subjects: seq<Id>, env: Env)
    requires Commits(w, ReplaceMembers(group, subjects), env)
    ensures (forall r :: Agrees(Serve(w, ReplaceMembers(group, subjects), env), r))
       <==> (forall r | r !in ReplacedRelations(w.store, group, subjects) :: Agrees(w, r))
    ensures forall x | x in G.Subjects(w.store, group) && x in subjects ::
              Agrees(Serve(w, ReplaceMembers(group, subjects), env), Relation(group, DirectMember, x)) <==>
              Agrees(w, Relation(group, DirectMember, x))
  {
    var req := ReplaceMembers(group, subjects);
    var ps := Publishes(w.store, req);
    CommitHeals(w, req, env);
    DeliverEffect(w.graph, ps, [env.deliveries.0, env.deliveries.1]);
    NamedTwo(ps[0], ps[1]);
    assert Touched(w, req, env) == ReplacedRelations(w.store, group, subjects);
    hide Agrees, Serve, Touched, Commits;
    forall x | x in G.Subjects(w.store, group) && x in subjects
      ensures Relation(group, DirectMember, x) !in Touched(w, req, env)
    {
    }
    if forall r :: Agrees(Serve(w, req, env), r) {
      forall r | r !in Touched(w, req, env) ensures Agrees(w, r) {
        assert Agrees(Serve(w, req, env), r);
      }
    }
  }

  lemma NamedTwo(p: Publish, q: Publish)
    ensures Named([p, q]) == p.rels + q.rels
  {
    assert [p, q][1..] == [q] && [q][1..] == [];
    assert Named([q]) == q.rels;
  }

  /** Replacing members does not repair a relation it finds nothing to do about; adding the subject again does. */
  lemma ReplaceDoesNotRepair(group: Id, owner: Id, subject: Id, env: Env)
    requires subject != [] && env.begins && env.responds && env.commits && env.allowed && !env.driverError
    requires env.malformed == {} && env.deliveries == (Delivered, Delivered)
    ensures var store := Store(map[group := Group(owner, "g", "")], {Membership(group, subject)}, map[], map[]);
            var w, r := World(store, {Relation(group, Parent, owner)}), Relation(group, DirectMember, subject);
            && !Agrees(w, r)
            && Commits(w, ReplaceMembers(group, [subject]), env)
            && !Agrees(Serve(w, ReplaceMembers(group, [subject]), env), r)
            && Commits(w, AddMembers(group, [subject]), env)
            && Agrees(Serve(w, AddMembers(group, [subject]), env), r)
  {
    var store := Store(map[group := Group(owner, "g", "")], {Membership(group, subject)}, map[], map[]);
    var w, r := World(store, {Relation(group, Parent, owner)}), Relation(group, DirectMember, subject);
    var replace, add := ReplaceMembers(group, [subject]), AddMembers(group, [subject]);
    ExpectedHas(store, r);
    assert Elements([subject]) == {subject};
    assert G.Subjects(store, group) == {subject};
    assert {subject} - {subject} == {};
    assert MemberRelations(group, {}) == {};
    DeliverTwo(w.graph, Revoke({}), Grant({}), Delivered, Delivered);
    CommitHeals(w, replace, env);
    assert MemberRelations(group, {subject}) == {r};
    DeliverOne(w.graph, Grant({r}), Delivered, Delivered);
    CommitHeals(w, add, env);
  }

  // ---------- the tables stay valid ----------

  /** Every statement keeps the constraints of the group tables and leaves the other tables alone. */
  lemma StepKeepsValid(s: Store, req: Request)
    requires GroupTablesValid(s) && StoreStep(s, req).Ok?
    ensures GroupTablesValid(StoreStep(s, req).value)
    ensures StoreStep(s, req).value.issuers == s.issuers && StoreStep(s, req).value.users == s.users
  {
    if req.DeleteGroup? {
      var id := req.id;
      assert forall m | m in s.members && m.group == id :: m.subject in G.Subjects(s, id);
    }
  }

  /** The delete handler's count keeps it clear of the foreign key. */
  lemma DeleteNeverTripsForeignKey(s: Store, id: Id)
    ensures StoreStep(s, DeleteGroup(id)) != Err(G.StillReferenced)
    ensures StoreStep(s, DeleteGroup(id)).Ok? <==> id in s.groups && forall x :: Membership(id, x) !in s.members
  {
    if id in s.groups && G.Subjects(s, id) == {} {
      forall x ensures Membership(id, x) !in s.members {
        assert Membership(id, x) in s.members ==> x in G.Subjects(s, id);
      }
    } else if id in s.groups {
      var x :| x in G.Subjects(s, id);
      assert Membership(id, x) in s.members;
    }
  }

  lemma {:induction false} RunKeepsValid(w: World, steps: seq<Step>)
    requires Valid(w.store)
    ensures Valid(Run(w, steps).store)
    decreases |steps|
  {
    hide GroupTablesValid, UserTablesValid;
    if steps != [] {
      var req, env := steps[0].req, steps[0].env;
      ServeKeepsValid(w, req, env);
      RunKeepsValid(Serve(w, req, env), steps[1..]);
    }
  }

  lemma ServeKeepsValid(w: World, req: Request, env: Env)
    requires Valid(w.store)
    ensures Valid(Serve(w, req, env).store)
  {
    hide GroupTablesValid, StoreStep;
    ServeIs(w, req, env);
    if Commits(w, req, env) {
      StepKeepsValid(w.store, req);
    }
  }
}
