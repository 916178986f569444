/** What a client lists page by page, against what the tables hold. */
module Listings {
  import opened Bytes
  import opened Storage
  import opened Select
  import opened Pagination
  import opened Traversal
  import opened GroupApi
  import opened GroupRuns
  import G = GroupStore

  const GROUP_ID: string := "group_id"
  const SUBJECT_ID: string := "subject_id"

  function MemberRow(m: Membership): Row {
    map[GROUP_ID := m.group, SUBJECT_ID := m.subject]
  }

  function MemberRows(s: Store): set<Row> {
    set m | m in s.members :: MemberRow(m)
  }

  function GroupRow(id: Id, g: Group): Row {
    map["id" := id, "owner_id" := g.owner, "name" := g.name, "description" := g.description]
  }

  function GroupRows(s: Store): set<Row> {
    set id | id in s.groups :: GroupRow(id, s.groups[id])
  }

  /** The primary key of group_members makes subjects unique within a group, and listing a group lists its subjects. */
  lemma MemberTable(s: Store, group: Id)
    ensures UniqueKey(GROUP_MEMBERS, group, MemberRows(s))
    ensures KeySet(GROUP_MEMBERS, group, MemberRows(s)) == G.Subjects(s, group)
  {
    forall m ensures Column(MemberRow(m), GROUP_ID) == m.group && Column(MemberRow(m), SUBJECT_ID) == m.subject {
      assert GROUP_ID != SUBJECT_ID;
    }
    var rows := MemberRows(s);
    forall x | x in G.Subjects(s, group) ensures x in KeySet(GROUP_MEMBERS, group, rows) {
      var m :| m in s.members && m.group == group && m.subject == x;
      assert MemberRow(m) in rows && Listed(GROUP_MEMBERS, group, MemberRow(m));
    }
  }

  lemma GroupTable(s: Store, owner: Id)
    ensures UniqueKey(GROUPS, owner, GroupRows(s))
    ensures KeySet(GROUPS, owner, GroupRows(s)) == set id | id in s.groups && s.groups[id].owner == owner
  {
    var rows := GroupRows(s);
    forall id, g ensures Column(GroupRow(id, g), "id") == id && Column(GroupRow(id, g), "owner_id") == g.owner {
    }
    forall id | id in s.groups && s.groups[id].owner == owner ensures id in KeySet(GROUPS, owner, rows) {
      var row := GroupRow(id, s.groups[id]);
      assert row in rows && Listed(GROUPS, owner, row);
    }
  }

  /** A committed replacement leaves the group with exactly the requested subjects and every other group as it was. */
  lemma ReplacedMembers(w: World, group: Id, subjects: seq<Id>, env: Env)
    requires Commits(w, ReplaceMembers(group, subjects), env)
    ensures var after := Serve(w, ReplaceMembers(group, subjects), env).store;
            && G.Subjects(after, group) == Elements(subjects)
            && forall g | g != group :: G.Subjects(after, g) == G.Subjects(w.store, g)
  {
    hide Deliver, G.Subjects;
    ServeIs(w, ReplaceMembers(group, subjects), env);
    G.ReplaceConverges(w.store, group, Elements(subjects));
  }

  /**
   * Replace, then list: once a replacement has committed, a finished traversal of the group over snapshots taken after
   * it returns exactly the requested subjects, each once and in order.
   */
  lemma ReplaceThenList(w: World, group: Id, subjects: seq<Id>, env: Env, limit: Option<int>, replies: seq<Reply>)
    requires Commits(w, ReplaceMembers(group, subjects), env)
    requires Unclamped(limit) && (Asked(limit) >= 2 || [] !in subjects)
    requires Fixed(MemberRows(Serve(w, ReplaceMembers(group, subjects), env).store), Visits(replies))
    requires Exchanged(GROUP_MEMBERS, group, limit, None, replies) && !Offered(replies[|replies| - 1].next)
    ensures Received(GROUP_MEMBERS, Visits(replies)) == Sorted(Elements(subjects))
  {
    var after := Serve(w, ReplaceMembers(group, subjects), env).store;
    hide Exchanged, Follows, Sorted, KeySet, UniqueKey, Serve, Commits, MemberRows, G.Subjects, Received;
    ReplacedMembers(w, group, subjects, env);
    MemberTable(after, group);
    ShippedListingsPrintable();
    TextsAreTraversals(GROUP_MEMBERS, group, limit, None, replies);
    FixedTable(GROUP_MEMBERS, group, limit, MemberRows(after), Visits(replies));
  }

  /**
   * The statement asks for the state of a minute ago. Over snapshots from before the replacement a finished traversal
   * shows the old members, so it shows the requested ones exactly when the replacement had nothing to change.
   */
  lemma StaleListing(w: World, group: Id, subjects: seq<Id>, limit: Option<int>, replies: seq<Reply>)
    requires Unclamped(limit) && (Asked(limit) >= 2 || [] !in G.Subjects(w.store, group))
    requires Fixed(MemberRows(w.store), Visits(replies))
    requires Exchanged(GROUP_MEMBERS, group, limit, None, replies) && !Offered(replies[|replies| - 1].next)
    ensures Received(GROUP_MEMBERS, Visits(replies)) == Sorted(G.Subjects(w.store, group))
    ensures Received(GROUP_MEMBERS, Visits(replies)) == Sorted(Elements(subjects))
       <==> G.Subjects(w.store, group) == Elements(subjects)
  {
    hide Exchanged, Follows, Sorted, KeySet, UniqueKey, MemberRows, G.Subjects, Received;
    MemberTable(w.store, group);
    ShippedListingsPrintable();
    TextsAreTraversals(GROUP_MEMBERS, group, limit, None, replies);
    FixedTable(GROUP_MEMBERS, group, limit, MemberRows(w.store), Visits(replies));
    SortedInjective(G.Subjects(w.store, group), Elements(subjects));
  }

  lemma SortedInjective(a: set<Str>, b: set<Str>)
    ensures Sorted(a) == Sorted(b) ==> a == b
  {
    hide Sorted;
    if Sorted(a) == Sorted(b) {
      forall x ensures x in a <==> x in b {
        assert x in Sorted(a) <==> x in a;
        assert x in Sorted(b) <==> x in b;
      }
    }
  }
}
