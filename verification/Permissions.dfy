/** The external permission graph and the events published to it (internal/events/groups_event.go). */
module Permissions {
  import opened Bytes
  import opened Storage

  datatype Kind = DirectMember | Parent

  datatype Relation = Relation(resource: Id, kind: Kind, subject: Id)

  type Graph = set<Relation>

  /** One call of CreateAuthRelationships or DeleteAuthRelationships. */
  datatype Publish = Grant(rels: set<Relation>) | Revoke(rels: set<Relation>)

  /** How a call ends. One that fails may still have taken effect on any part of its relations. */
  datatype Delivery = Delivered | Failed(applied: set<Relation>)

  function Effect(graph: Graph, p: Publish): Graph {
    if p.Grant? then graph + p.rels else graph - p.rels
  }

  /** The graph after a call, and whether the call reports an error; nothing is called for no relations. */
  function Published(graph: Graph, p: Publish, d: Delivery): (Graph, bool) {
    if p.rels == {} then (graph, false)
    else if d.Delivered? then (Effect(graph, p), false)
    else (Effect(graph, if p.Grant? then Grant(p.rels * d.applied) else Revoke(p.rels * d.applied)), true)
  }

  /** Empty subjects are not published. */
  function MemberRelations(group: Id, subjects: set<Id>): set<Relation> {
    set x | x in subjects && x != [] :: Relation(group, DirectMember, x)
  }

  class Events {
    var graph: Graph

    constructor (g: Graph)
      ensures graph == g
    {
      graph := g;
    }

    method AddGroupMembers(group: Id, subjects: seq<Id>, d: Delivery) returns (err: bool)
      modifies this
      ensures (graph, err) == Published(old(graph), Grant(MemberRelations(group, Elements(subjects))), d)
    {
      if |subjects| == 0 {
        assert MemberRelations(group, Elements(subjects)) == {};
        return false;
      }
      var rels := Relations(group, subjects);
      err := Send(Grant(Elements(rels)), d);
    }

    method RemoveGroupMembers(group: Id, subjects: seq<Id>, d: Delivery) returns (err: bool)
      modifies this
      ensures (graph, err) == Published(old(graph), Revoke(MemberRelations(group, Elements(subjects))), d)
    {
      var rels := Relations(group, subjects);
      err := Send(Revoke(Elements(rels)), d);
    }

    method CreateGroup(parent: Id, group: Id, d: Delivery) returns (err: bool)
      modifies this
      ensures (graph, err) == Published(old(graph), Grant({Relation(group, Parent, parent)}), d)
    {
      err := Send(Grant({Relation(group, Parent, parent)}), d);
    }

    method DeleteGroup(parent: Id, group: Id, d: Delivery) returns (err: bool)
      modifies this
      ensures (graph, err) == Published(old(graph), Revoke({Relation(group, Parent, parent)}), d)
    {
      err := Send(Revoke({Relation(group, Parent, parent)}), d);
    }

    /** The loop that builds `rels`. */
    static method Relations(group: Id, subjects: seq<Id>) returns (rels: seq<Relation>)
      ensures Elements(rels) == MemberRelations(group, Elements(subjects))
    {
      rels := [];
      for i := 0 to |subjects|
        invariant Elements(rels) == MemberRelations(group, Elements(subjects[..i]))
      {
        var subj := subjects[i];
        assert Elements(subjects[..i + 1]) == Elements(subjects[..i]) + {subj} by {
          assert subjects[..i + 1] == subjects[..i] + [subj];
        }
        if subj != [] {
          var rel := Relation(group, DirectMember, subj);
          assert Elements(rels + [rel]) == Elements(rels) + {rel};
          rels := rels + [rel];
        }
      }
      assert subjects[..|subjects|] == subjects;
    }

    method Send(p: Publish, d: Delivery) returns (err: bool)
      modifies this
      ensures (graph, err) == Published(old(graph), p, d)
    {
      if p.rels == {} {
        return false;
      }
      var (g, e) := Published(graph, p, d);
      graph := g;
      err := e;
    }
  }
}
