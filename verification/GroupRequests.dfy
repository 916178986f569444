/** What each group request does, and exactly when it is accepted, said of the request and the tables alone. */
module GroupRequests {
  import opened Bytes
  import opened Storage
  import opened Permissions
  import opened GroupApi
  import opened GroupRuns
  import G = GroupStore

  /** Nothing outside the request and the tables stands in its way before publishing. */
  predicate Unhindered(ids: set<Id>, env: Env) {
    env.begins && env.allowed && !env.driverError && ids !! env.malformed
  }

  /** Another group than `except` has the name under this owner. */
  predicate HeldByAnother(s: Store, owner: Id, name: Str, except: Option<Id>) {
    exists g | g in s.groups :: except != Some(g) && s.groups[g].owner == owner && s.groups[g].name == name
  }

  predicate SameUserTables(s: Store, t: Store) {
    t.issuers == s.issuers && t.users == s.users
  }

  /** Every other group is there as it was, and no group is new but `id`. */
  ghost predicate OthersKept(s: Store, t: Store, id: Id) {
    forall g | g != id :: (g in t.groups <==> g in s.groups) && (g in s.groups ==> t.groups[g] == s.groups[g])
  }

  lemma CreateGroupLaw(w: World, id: Id, owner: Id, name: Str, description: Option<Str>, env: Env)
    ensures var req := CreateGroup(id, owner, name, description);
            && (Accepted(w, req, env) <==>
                  && Unhindered({owner}, env) && name != [] && id !in w.store.groups
                  && !HeldByAnother(w.store, owner, name, None) && env.deliveries.0.Delivered?)
            && (Commits(w, req, env) ==>
                  var after := Serve(w, req, env).store;
                  && id in after.groups
                  && after.groups[id].owner == owner && after.groups[id].name == name
                  && after.groups[id].description == (if description.Some? then description.value else [])
                  && OthersKept(w.store, after, id)
                  && after.members == w.store.members && SameUserTables(w.store, after))
  {
    DeliverOne(w.graph, Grant({Relation(id, Parent, owner)}), env.deliveries.0, env.deliveries.1);
    ServeIs(w, CreateGroup(id, owner, name, description), env);
  }

  /** A name that is absent or empty keeps the old one, an absent description the old description. */
  lemma UpdateGroupLaw(w: World, id: Id, name: Option<Str>, description: Option<Str>, env: Env)
    requires GroupTablesValid(w.store)
    ensures var req, renames := UpdateGroup(id, name, description), name.Some? && name.value != [];
            && (Accepted(w, req, env) <==>
                  && Unhindered({id}, env) && id in w.store.groups
                  && !(renames && HeldByAnother(w.store, w.store.groups[id].owner, name.value, Some(id))))
            && (Commits(w, req, env) ==>
                  var after, was := Serve(w, req, env), w.store.groups[id];
                  && id in after.store.groups
                  && after.store.groups[id].owner == was.owner
                  && after.store.groups[id].name == (if renames then name.value else was.name)
                  && after.store.groups[id].description ==
                       (if description.Some? then description.value else was.description)
                  && OthersKept(w.store, after.store, id) && after.graph == w.graph
                  && after.store.members == w.store.members && SameUserTables(w.store, after.store))
  {
    ServeIs(w, UpdateGroup(id, name, description), env);
  }

  lemma DeleteGroupLaw(w: World, id: Id, env: Env)
    ensures var req := DeleteGroup(id);
            && (Accepted(w, req, env) <==>
                  && Unhindered({id}, env) && id in w.store.groups
                  && (forall x :: Membership(id, x) !in w.store.members) && env.deliveries.0.Delivered?)
            && (Commits(w, req, env) ==>
                  var after := Serve(w, req, env).store;
                  && id !in after.groups && OthersKept(w.store, after, id)
                  && after.members == w.store.members && SameUserTables(w.store, after))
  {
    DeleteNeverTripsForeignKey(w.store, id);
    if id in w.store.groups {
      var p := Revoke({Relation(id, Parent, w.store.groups[id].owner)});
      DeliverOne(w.graph, p, env.deliveries.0, env.deliveries.1);
    }
    ServeIs(w, DeleteGroup(id), env);
  }

  lemma PublishesNothingIff(group: Id, subjects: set<Id>)
    ensures MemberRelations(group, subjects) == {} <==> forall x | x in subjects :: x == []
  {
    forall x | x in subjects && x != [] ensures Relation(group, DirectMember, x) in MemberRelations(group, subjects) {
    }
  }

  lemma AllEmpty(xs: set<Id>, subjects: seq<Id>)
    requires xs == Elements(subjects)
    ensures (forall x | x in xs :: x == []) <==> forall x | x in subjects :: x == []
  {
    if forall x | x in xs :: x == [] {
      forall x | x in subjects ensures x == [] {
        assert x in xs;
      }
    }
  }

  lemma NothingToRevoke(s: Store, group: Id, subjects: seq<Id>)
    ensures (forall x | x in G.Subjects(s, group) - Elements(subjects) :: x == []) <==>
            forall m | m in s.members && m.group == group :: m.subject in subjects || m.subject == []
  {
    var xs := G.Subjects(s, group) - Elements(subjects);
    if forall x | x in xs :: x == [] {
      forall m | m in s.members && m.group == group ensures m.subject in subjects || m.subject == [] {
        assert m.subject in Elements(subjects) || m.subject in xs;
      }
    }
  }

  lemma NothingToGrant(s: Store, group: Id, subjects: seq<Id>)
    ensures (forall x | x in Elements(subjects) - G.Subjects(s, group) :: x == []) <==>
            forall x | x in subjects :: Membership(group, x) in s.members || x == []
  {
    var xs := Elements(subjects) - G.Subjects(s, group);
    if forall x | x in xs :: x == [] {
      forall x | x in subjects ensures Membership(group, x) in s.members || x == [] {
        G.SubjectIsRow(s, group, x);
        assert x in G.Subjects(s, group) || x in xs;
      }
    }
  }

  /** Adding no subjects is accepted even for a group that is not there. */
  lemma AddMembersLaw(w: World, group: Id, subjects: seq<Id>, env: Env)
    ensures var req := AddMembers(group, subjects);
            && (Accepted(w, req, env) <==>
                  && Unhindered({group} + Elements(subjects), env)
                  && (subjects == [] || group in w.store.groups)
                  && (env.deliveries.0.Delivered? || forall x | x in subjects :: x == []))
            && (Commits(w, req, env) ==>
                  var after := Serve(w, req, env).store;
                  && (forall m :: m in after.members <==>
                        m in w.store.members || (m.group == group && m.subject in subjects))
                  && after.groups == w.store.groups && SameUserTables(w.store, after))
  {
    var p := Grant(MemberRelations(group, Elements(subjects)));
    PublishesNothingIff(group, Elements(subjects));
    assert Elements(subjects) == {} <==> subjects == [] by {
      assert subjects != [] ==> subjects[0] in Elements(subjects);
    }
    AllEmpty(Elements(subjects), subjects);
    DeliverOne(w.graph, p, env.deliveries.0, env.deliveries.1);
    ServeIs(w, AddMembers(group, subjects), env);
  }

  lemma RemoveMemberLaw(w: World, group: Id, subject: Id, env: Env)
    ensures var req := RemoveMember(group, subject);
            && (Accepted(w, req, env) <==>
                  && Unhindered({group, subject}, env) && group in w.store.groups
                  && Membership(group, subject) in w.store.members
                  && (env.deliveries.0.Delivered? || subject == []))
            && (Commits(w, req, env) ==>
                  var after := Serve(w, req, env).store;
                  && (forall m :: m in after.members <==>
                        m in w.store.members && !(m.group == group && m.subject == subject))
                  && after.groups == w.store.groups && SameUserTables(w.store, after))
  {
    PublishesNothingIff(group, {subject});
    DeliverOne(w.graph, Revoke(MemberRelations(group, {subject})), env.deliveries.0, env.deliveries.1);
    ServeIs(w, RemoveMember(group, subject), env);
  }

  lemma ReplaceMembersLaw(w: World, group: Id, subjects: seq<Id>, env: Env)
    ensures var req := ReplaceMembers(group, subjects);
            var members := w.store.members;
            && (Accepted(w, req, env) <==>
                  && Unhindered({group} + Elements(subjects), env) && group in w.store.groups
                  && (env.deliveries.0.Delivered?
                      || forall m | m in members && m.group == group :: m.subject in subjects || m.subject == [])
                  && (env.deliveries.1.Delivered?
                      || forall x | x in subjects :: Membership(group, x) in members || x == []))
            && (Commits(w, req, env) ==>
                  var after := Serve(w, req, env).store;
                  && (forall m :: m in after.members <==> if m.group == group then m.subject in subjects else m in members)
                  && after.groups == w.store.groups && SameUserTables(w.store, after))
  {
    var current, incoming := G.Subjects(w.store, group), Elements(subjects);
    PublishesNothingIff(group, current - incoming);
    PublishesNothingIff(group, incoming - current);
    DeliverTwo(w.graph, Revoke(MemberRelations(group, current - incoming)),
               Grant(MemberRelations(group, incoming - current)), env.deliveries.0, env.deliveries.1);
    ServeIs(w, ReplaceMembers(group, subjects), env);
    forall x ensures x in current <==> Membership(group, x) in w.store.members {
      G.SubjectIsRow(w.store, group, x);
    }
    NothingToRevoke(w.store, group, subjects);
    NothingToGrant(w.store, group, subjects);
  }

  /** Why the store refuses a request, each reason exactly when it applies, and no other reason. */
  lemma RefusedBecause(s: Store, req: Request)
    requires GroupTablesValid(s)
    ensures StoreStep(s, req) == Err(G.NameEmpty) <==> req.CreateGroup? && req.name == []
    ensures StoreStep(s, req) == Err(G.NotFound) <==>
      && !req.CreateGroup? && (if req.UpdateGroup? || req.DeleteGroup? then req.id else req.group) !in s.groups
      && !(req.AddMembers? && req.subjects == [])
    ensures StoreStep(s, req) == Err(G.MemberNotFound) <==>
      req.RemoveMember? && req.group in s.groups && Membership(req.group, req.subject) !in s.members
    ensures StoreStep(s, req) == Err(G.HasMembers) <==>
      req.DeleteGroup? && req.id in s.groups && exists x :: Membership(req.id, x) in s.members
    ensures StoreStep(s, req) == Err(G.Exists) <==>
      || (req.CreateGroup? && req.name != [] && (req.id in s.groups || HeldByAnother(s, req.owner, req.name, None)))
      || (req.UpdateGroup? && req.id in s.groups && req.newName.Some? && req.newName.value != []
          && HeldByAnother(s, s.groups[req.id].owner, req.newName.value, Some(req.id)))
    ensures StoreStep(s, req).Err? ==>
              StoreStep(s, req).error in {G.NameEmpty, G.NotFound, G.MemberNotFound, G.HasMembers, G.Exists}
  {
    match req {
      case DeleteGroup(id) => DeleteNeverTripsForeignKey(s, id);
      case AddMembers(_, subjects) => assert subjects != [] ==> subjects[0] in Elements(subjects);
      case _ =>
    }
  }
}
