/** Groups and their members (internal/storage/groups.go). */
module GroupStore {
  import opened Bytes
  import opened Storage
  import Differences

  datatype GroupError = NotFound | Exists | NameEmpty | MemberNotFound | HasMembers | StillReferenced | MissingTx | Driver

  type GroupResult<+T> = Result<T, GroupError>

  // ---------- the statements, on a view ----------

  predicate NameTaken(s: Store, owner: Id, name: Str, except: set<Id>) {
    exists g | g in s.groups :: g !in except && s.groups[g].owner == owner && s.groups[g].name == name
  }

  function Insert(s: Store, id: Id, g: Group): GroupResult<Store> {
    if g.name == [] then Err(NameEmpty)
    else if id in s.groups || NameTaken(s, g.owner, g.name, {}) then Err(Exists)
    else Ok(s.(groups := s.groups[id := g]))
  }

  /** An absent or empty name keeps the current one. */
  function Updated(g: Group, name: Option<Str>, description: Option<Str>): Group {
    g.(name := if name.Some? && name.value != [] then name.value else g.name,
       description := if description.Some? then description.value else g.description)
  }

  function Update(s: Store, id: Id, name: Option<Str>, description: Option<Str>): GroupResult<Store> {
    if id !in s.groups then Err(NotFound)
    else
      var g := Updated(s.groups[id], name, description);
      if NameTaken(s, g.owner, g.name, {id}) then Err(Exists)
      else Ok(s.(groups := s.groups[id := g]))
  }

  function Subjects(s: Store, group: Id): set<Id> {
    set m | m in s.members && m.group == group :: m.subject
  }

  function Rows(group: Id, subjects: set<Id>): set<Membership> {
    set x | x in subjects :: Membership(group, x)
  }

  /** The foreign key of group_members refuses to lose a group that still has members. */
  function Delete(s: Store, id: Id): GroupResult<Store> {
    if id !in s.groups then Err(NotFound)
    else if Subjects(s, id) != {} then Err(StillReferenced)
    else Ok(s.(groups := s.groups - {id}))
  }

  function Add(s: Store, group: Id, subjects: set<Id>): GroupResult<Store> {
    if subjects == {} then Ok(s)
    else if group !in s.groups then Err(NotFound)
    else Ok(s.(members := s.members + Rows(group, subjects)))
  }

  function Remove(s: Store, group: Id, subject: Id): GroupResult<Store> {
    if group !in s.groups then Err(NotFound)
    else if Membership(group, subject) !in s.members then Err(MemberNotFound)
    else Ok(s.(members := s.members - {Membership(group, subject)}))
  }

  /** The difference is taken against `current`, read outside the transaction. */
  function Replace(s: Store, current: set<Id>, group: Id, incoming: set<Id>): GroupResult<Store> {
    if group !in s.groups then Err(NotFound)
    else Ok(s.(members := s.members - Rows(group, current - incoming) + Rows(group, incoming - current)))
  }

  /** On a view that has the committed members, the group ends with the incoming ones; nobody else is touched. */
  lemma ReplaceConverges(s: Store, group: Id, incoming: set<Id>)
    requires group in s.groups
    ensures var r := Replace(s, Subjects(s, group), group, incoming);
            && r.Ok?
            && Subjects(r.value, group) == incoming
            && (forall g | g != group :: Subjects(r.value, g) == Subjects(s, g))
            && r.value == s.(members := r.value.members)
            && Replace(r.value, Subjects(r.value, group), group, incoming) == r
  {
    var r := Replace(s, Subjects(s, group), group, incoming).value;
    forall x ensures x in Subjects(r, group) <==> x in incoming {
      assert x in Subjects(r, group) <==> Membership(group, x) in r.members;
      assert x in Subjects(s, group) <==> Membership(group, x) in s.members;
    }
    forall g | g != group ensures Subjects(r, g) == Subjects(s, g) {
      forall x ensures x in Subjects(r, g) <==> x in Subjects(s, g) {
        assert x in Subjects(r, g) <==> Membership(g, x) in r.members;
        assert x in Subjects(s, g) <==> Membership(g, x) in s.members;
      }
    }
    assert Subjects(r, group) == incoming && incoming - incoming == {};
    assert r.members - Rows(group, incoming - incoming) + Rows(group, incoming - incoming) == r.members;
  }

  /** The read is of the committed members: when the transaction has already changed them, Replace misses. */
  lemma ReplaceNeedsFreshRead(view: Store, current: set<Id>, group: Id, incoming: set<Id>)
    requires group in view.groups
    ensures Subjects(Replace(view, current, group, incoming).value, group) == incoming
       <==> Subjects(view, group) - incoming <= current && incoming * current <= Subjects(view, group)
  {
    var r := Replace(view, current, group, incoming).value;
    forall x ensures x in Subjects(r, group)
                <==> (x in Subjects(view, group) && !(x in current && x !in incoming)) || (x in incoming && x !in current)
    {
      assert x in Subjects(r, group) <==> Membership(group, x) in r.members;
      assert x in Subjects(view, group) <==> Membership(group, x) in view.members;
    }
    if Subjects(r, group) == incoming {
      forall x | x in Subjects(view, group) && x !in incoming ensures x in current {
        assert x !in Subjects(r, group);
      }
      forall x | x in incoming && x in current ensures x in Subjects(view, group) {
        assert x in Subjects(r, group);
      }
    }
  }

  lemma SubjectIsRow(s: Store, group: Id, x: Id)
    ensures x in Subjects(s, group) <==> Membership(group, x) in s.members
  {
  }

  // ---------- the service ----------

  /** The key by which members are compared: their own text. */
  function Itself(x: Id): Id { x }

  predicate Distinct(s: seq<Id>) {
    forall i, j | 0 <= i < j < |s| :: s[i] != s[j]
  }

  lemma DistinctSnoc(s: seq<Id>, x: Id)
    requires Distinct(s) && x !in Elements(s)
    ensures Distinct(s + [x]) && Elements(s + [x]) == Elements(s) + {x}
  {
    assert x !in s;
    assert forall y :: y in s + [x] <==> y in s || y == x;
  }

  /** One `($1, $k)` of an UPSERT. */
  datatype Placeholders = Placeholders(group: nat, subject: nat)

  predicate InRange(vals: seq<Placeholders>, params: seq<Str>) {
    forall p | p in vals :: 1 <= p.group <= |params| && 1 <= p.subject <= |params|
  }

  /** The rows an UPSERT writes once its parameters are bound. */
  function Upserted(vals: seq<Placeholders>, params: seq<Str>): set<Membership>
    requires InRange(vals, params)
  {
    set p | p in vals :: Membership(params[p.group - 1], params[p.subject - 1])
  }

  class GroupService {
    const db: Database

    constructor (db: Database)
      ensures this.db == db
    {
      this.db := db;
    }

    method CreateGroup(id: Id, g: Group) returns (r: GroupResult<Group>)
      modifies db`tx
      ensures !old(db.tx).Open? ==> r == Err(MissingTx) && db.tx == old(db.tx)
      ensures old(db.tx).Open? ==>
                match Insert(old(db.tx).view, id, g)
                case Ok(s) => r == Ok(g) && db.tx == Open(s)
                case Err(e) => r == Err(e) && db.tx == old(db.tx)
    {
      if !db.tx.Open? {
        return Err(MissingTx);
      }
      var inserted := Insert(db.tx.view, id, g);
      if inserted.Err? {
        return Err(inserted.error);
      }
      db.tx := Open(inserted.value);
      r := Ok(db.tx.view.groups[id]);
    }

    method UpdateGroup(id: Id, name: Option<Str>, description: Option<Str>) returns (r: GroupResult<Group>)
      modifies db`tx
      ensures !old(db.tx).Open? ==> r == Err(MissingTx) && db.tx == old(db.tx)
      ensures old(db.tx).Open? ==>
                match Update(old(db.tx).view, id, name, description)
                case Ok(s) => r == Ok(s.groups[id]) && db.tx == Open(s)
                case Err(e) => r == Err(e) && db.tx == old(db.tx)
    {
      if !db.tx.Open? {
        return Err(MissingTx);
      }
      var view := db.tx.view;
      if id !in view.groups {
        return Err(NotFound);
      }
      var incoming := view.groups[id];
      if name.Some? && name.value != [] {
        incoming := incoming.(name := name.value);
      }
      if description.Some? {
        incoming := incoming.(description := description.value);
      }
      if NameTaken(view, incoming.owner, incoming.name, {id}) {
        return Err(Exists);
      }
      db.tx := Open(view.(groups := view.groups[id := incoming]));
      r := Ok(incoming);
    }

    method DeleteGroup(id: Id) returns (r: GroupResult<()>)
      modifies db`tx
      ensures !old(db.tx).Open? ==> r == Err(MissingTx) && db.tx == old(db.tx)
      ensures old(db.tx).Open? ==>
                match Delete(old(db.tx).view, id)
                case Ok(s) => r == Ok(()) && db.tx == Open(s)
                case Err(e) => r == Err(e) && db.tx == old(db.tx)
    {
      if !db.tx.Open? {
        return Err(MissingTx);
      }
      if id !in db.tx.view.groups {
        return Err(NotFound);
      }
      var deleted := Delete(db.tx.view, id);
      if deleted.Err? {
        return Err(deleted.error);
      }
      db.tx := Open(deleted.value);
      r := Ok(());
    }

    method AddGroupMembers(group: Id, subjects: seq<Id>) returns (r: GroupResult<()>)
      modifies db`tx
      ensures subjects == [] ==> r == Ok(()) && db.tx == old(db.tx)
      ensures subjects != [] && !old(db.tx).Open? ==> r == Err(MissingTx) && db.tx == old(db.tx)
      ensures old(db.tx).Open? ==>
                match Add(old(db.tx).view, group, Elements(subjects))
                case Ok(s) => r == Ok(()) && db.tx == Open(s)
                case Err(e) => r == Err(e) && db.tx == old(db.tx)
    {
      if |subjects| == 0 {
        return Ok(());
      }
      assert subjects[0] in Elements(subjects);
      if !db.tx.Open? {
        return Err(MissingTx);
      }
      var view := db.tx.view;
      if group !in view.groups {
        return Err(NotFound);
      }
      var vals, params := [], [group];
      for i := 0 to |subjects|
        invariant params == [group] + subjects[..i]
        invariant InRange(vals, params)
        invariant Upserted(vals, params) == Rows(group, Elements(subjects[..i]))
      {
        UpsertStep(vals, params, group, subjects, i);
        vals := vals + [Placeholders(1, i + 2)];
        params := params + [subjects[i]];
        assert subjects[..i + 1] == subjects[..i] + [subjects[i]];
      }
      assert subjects[..|subjects|] == subjects;
      db.tx := Open(view.(members := view.members + Upserted(vals, params)));
      r := Ok(());
    }

    /** The scan of COUNT(*): one per committed row of the group. */
    method GroupMembersCount(group: Id) returns (count: nat)
      ensures count == |Subjects(db.committed, group)|
      ensures count == 0 <==> forall x :: Membership(group, x) !in db.committed.members
    {
      count := 0;
      var left := db.committed.members;
      ghost var counted: set<Id> := {};
      while left != {}
        invariant left <= db.committed.members && count == |counted|
        invariant forall x :: x in counted <==> Membership(group, x) in db.committed.members - left
        decreases |left|
      {
        var m :| m in left;
        left := left - {m};
        if m.group == group {
          count := count + 1;
          counted := counted + {m.subject};
        }
      }
      assert counted == Subjects(db.committed, group) by {
        forall x ensures x in counted <==> x in Subjects(db.committed, group) {
          SubjectIsRow(db.committed, group, x);
        }
      }
      assert count == 0 ==> counted == {};
    }

    /** Unpaginated: the committed members in whatever order the database scans them. */
    method ListGroupMembers(group: Id) returns (r: GroupResult<seq<Id>>)
      ensures var groups := if db.tx.Open? then db.tx.view.groups else db.committed.groups;
              if group in groups
              then r.Ok? && Elements(r.value) == Subjects(db.committed, group)
                   && Distinct(r.value)
              else r == Err(NotFound)
    {
      var groups := if db.tx.Open? then db.tx.view.groups else db.committed.groups;
      if group !in groups {
        return Err(NotFound);
      }
      var members: seq<Id> := [];
      var left := Subjects(db.committed, group);
      assert Distinct(members) && Elements(members) == {};
      hide Distinct, Elements, Subjects;
      while left != {}
        invariant Elements(members) !! left
        invariant Elements(members) + left == Subjects(db.committed, group)
        invariant Distinct(members)
        decreases |left|
      {
        var x :| x in left;
        left := left - {x};
        DistinctSnoc(members, x);
        members := members + [x];
      }
      r := Ok(members);
    }

    method RemoveGroupMember(group: Id, subject: Id) returns (r: GroupResult<()>)
      modifies db`tx
      ensures !old(db.tx).Open? ==> r == Err(MissingTx) && db.tx == old(db.tx)
      ensures old(db.tx).Open? ==>
                match Remove(old(db.tx).view, group, subject)
                case Ok(s) => r == Ok(()) && db.tx == Open(s)
                case Err(e) => r == Err(e) && db.tx == old(db.tx)
    {
      if !db.tx.Open? {
        return Err(MissingTx);
      }
      var view := db.tx.view;
      if group !in view.groups {
        return Err(NotFound);
      }
      var row := Membership(group, subject);
      var rowsAffected := if row in view.members then 1 else 0;
      db.tx := Open(view.(members := view.members - {row}));
      if rowsAffected == 0 {
        assert view.members - {row} == view.members;
        return Err(MemberNotFound);
      }
      r := Ok(());
    }

    method ReplaceGroupMembers(group: Id, incoming: seq<Id>) returns (r: GroupResult<(seq<Id>, seq<Id>)>)
      modifies db`tx
      ensures !old(db.tx).Open? ==> r == Err(MissingTx) && db.tx == old(db.tx)
      ensures old(db.tx).Open? ==>
                match Replace(old(db.tx).view, Subjects(db.committed, group), group, Elements(incoming))
                case Ok(s) =>
                  && db.tx == Open(s) && r.Ok?
                  && r.value.0 == Differences.Without(incoming, Subjects(db.committed, group), Itself)
                  && Elements(r.value.0) == Elements(incoming) - Subjects(db.committed, group)
                  && Elements(r.value.1) == Subjects(db.committed, group) - Elements(incoming)
                  && Distinct(r.value.1)
                case Err(e) => r == Err(e) && db.tx == old(db.tx)
    {
      if !db.tx.Open? {
        return Err(MissingTx);
      }
      var view := db.tx.view;
      var listed := ListGroupMembers(group);
      if listed.Err? {
        return Err(listed.error);
      }
      var current := listed.value;
      var add, rm := Differences.Diff(current, incoming, Itself);
      DiffElements(current, incoming, add, rm);
      var without := view.(members := view.members - Rows(group, Elements(rm)));
      db.tx := Open(without);
      var added := AddGroupMembers(group, add);
      assert added.Ok? && Rows(group, {}) == {};
      r := Ok((add, rm));
    }
  }

  lemma UpsertStep(vals: seq<Placeholders>, params: seq<Str>, group: Id, subjects: seq<Id>, i: nat)
    requires i < |subjects| && params == [group] + subjects[..i]
    requires InRange(vals, params)
    requires Upserted(vals, params) == Rows(group, Elements(subjects[..i]))
    ensures var vals', params' := vals + [Placeholders(1, i + 2)], params + [subjects[i]];
            && InRange(vals', params')
            && Upserted(vals', params') == Rows(group, Elements(subjects[..i] + [subjects[i]]))
  {
    var last := Placeholders(1, i + 2);
    var vals', params' := vals + [last], params + [subjects[i]];
    assert params'[0] == group && params'[i + 1] == subjects[i];
    assert Upserted(vals', params') == Upserted(vals, params) + {Membership(group, subjects[i])};
    assert Rows(group, Elements(subjects[..i] + [subjects[i]]))
        == Rows(group, Elements(subjects[..i])) + {Membership(group, subjects[i])};
  }

  /** Diff on identifiers: the lists as sets, and no repetition that the scan did not have. */
  lemma DiffElements(current: seq<Id>, incoming: seq<Id>, add: seq<Id>, rm: seq<Id>)
    requires rm == Differences.Without(current, Differences.Image(incoming, Itself), Itself)
    requires add == Differences.Without(incoming, Differences.Image(current, Itself), Itself)
    requires Distinct(current)
    ensures add == Differences.Without(incoming, Elements(current), Itself)
    ensures Elements(add) == Elements(incoming) - Elements(current)
    ensures Elements(rm) == Elements(current) - Elements(incoming)
    ensures Distinct(rm)
  {
    Differences.WithoutImage(current, Differences.Image(incoming, Itself), Itself);
    Differences.WithoutImage(incoming, Differences.Image(current, Itself), Itself);
    ImageIsElements(current);
    ImageIsElements(incoming);
    ImageIsElements(add);
    ImageIsElements(rm);
    WithoutDistinct(current, Elements(incoming));
  }

  lemma ImageIsElements(s: seq<Id>)
    ensures Differences.Image(s, Itself) == Elements(s)
  {
    forall x ensures x in Differences.Image(s, Itself) <==> x in Elements(s) {
      assert x in s ==> Itself(x) in Differences.Image(s, Itself);
    }
  }

  lemma {:induction false} WithoutDistinct(s: seq<Id>, seen: set<Id>)
    requires Distinct(s)
    ensures Distinct(Differences.Without(s, seen, Itself))
  {
    if s != [] {
      var rest := Differences.Without(s[1..], seen, Itself);
      WithoutDistinct(s[1..], seen);
      forall i | 0 <= i < |rest| ensures rest[i] != s[0] {
        Differences.WithoutMembers(s[1..], seen, Itself, rest[i]);
      }
    }
  }
}
