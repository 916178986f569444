/** Issuers and the users they vouch for (internal/storage/issuer.go, internal/storage/userinfo.go). */
module Identity {
  import opened Bytes
  import opened Storage

  datatype IdentityError =
    | IssuerNotFound | Duplicate | EmptyIssuer | EmptySubject | InvalidClaim | MissingClaim | BadId | MissingTx | Syntax

  type IdentityResult<+T> = Result<T, IdentityError>

  const USER_PREFIX: Str := "idntusr"

  /** Calls into code outside the repository. */
  datatype Foreign = Foreign(
    digest: Str -> Str,                          // raw URL Base64 of SHA-256
    parsesId: Str -> bool,                       // gidx.Parse accepts
    mappings: Str -> Option<map<Str, Str>>,      // decoding the stored claim mappings
    eval: (Str, Claims) -> Option<Value>)        // evaluating a stored expression against claims

  /** A claim value: Go's `any`, with the two types the code asks for. */
  datatype Value = Text(text: Str) | Bool(truth: bool) | Other(tag: int)

  /** Registered claims beside the extra ones. */
  datatype Claims = Claims(issuer: Str, subject: Str, extra: map<Str, Value>)

  /** The ID is empty when the query does not select it. */
  datatype UserInfo = UserInfo(id: Id, name: Str, email: Str, issuer: Str, subject: Str)

  // ---------- issuers ----------

  function IssuerByUri(s: Store, uri: Str): (r: Option<Id>)
    requires UserTablesValid(s)
    ensures r.Some? ==> r.value in s.issuers && s.issuers[r.value].uri == uri
    ensures r.None? ==> forall i | i in s.issuers :: s.issuers[i].uri != uri
  {
    if exists i | i in s.issuers :: s.issuers[i].uri == uri then
      var i :| i in s.issuers && s.issuers[i].uri == uri;
      Some(i)
    else None
  }

  predicate UriTaken(s: Store, uri: Str, except: Id) {
    exists i | i in s.issuers :: i != except && s.issuers[i].uri == uri
  }

  function InsertIssuer(s: Store, id: Id, iss: Issuer): IdentityResult<Store> {
    if id in s.issuers || UriTaken(s, iss.uri, id) then Err(Duplicate)
    else Ok(s.(issuers := s.issuers[id := iss]))
  }

  /** An update; absent fields stay as they are. */
  datatype IssuerUpdate = IssuerUpdate(
    name: Option<Str>, uri: Option<Str>, jwksUri: Option<Str>, mappings: Option<Str>, conditions: Option<Str>)
  {
    predicate SomeField() {
      name.Some? || uri.Some? || jwksUri.Some? || mappings.Some? || conditions.Some?
    }

    function Apply(iss: Issuer): Issuer {
      Issuer(iss.owner, Or(name, iss.name), Or(uri, iss.uri), Or(jwksUri, iss.jwksUri),
             Or(mappings, iss.mappings), Or(conditions, iss.conditions))
    }
  }

  function Or(o: Option<Str>, current: Str): Str {
    if o.Some? then o.value else current
  }

  /** Committing the record update; the printed statement is shown to do the same in IssuerUpdates. */
  function UpdateIssuer(s: Store, id: Id, update: IssuerUpdate): IdentityResult<Store> {
    if id !in s.issuers then Err(IssuerNotFound)
    else
      var iss := update.Apply(s.issuers[id]);
      if UriTaken(s, iss.uri, id) then Err(Duplicate) else Ok(s.(issuers := s.issuers[id := iss]))
  }

  lemma InsertKeepsValid(s: Store, id: Id, iss: Issuer)
    requires UserTablesValid(s) && InsertIssuer(s, id, iss).Ok?
    ensures UserTablesValid(InsertIssuer(s, id, iss).value)
  {
  }

  /** A new issuer is refused exactly for a taken ID or a taken URI; otherwise its row is the one thing added. */
  lemma InsertIssuerIff(s: Store, id: Id, iss: Issuer)
    requires UserTablesValid(s)
    ensures InsertIssuer(s, id, iss).Ok? <==>
      id !in s.issuers && forall j | j in s.issuers :: s.issuers[j].uri != iss.uri
    ensures InsertIssuer(s, id, iss).Err? ==> InsertIssuer(s, id, iss).error == Duplicate
    ensures InsertIssuer(s, id, iss).Ok? ==>
              var t := InsertIssuer(s, id, iss).value;
              && UserTablesValid(t)
              && t.issuers.Keys == s.issuers.Keys + {id} && t.issuers[id] == iss
              && (forall j | j in s.issuers :: t.issuers[j] == s.issuers[j])
              && t.users == s.users && t.groups == s.groups && t.members == s.members
  {
    if InsertIssuer(s, id, iss).Ok? {
      InsertKeepsValid(s, id, iss);
    }
    hide UserTablesValid;
    if id !in s.issuers && exists j | j in s.issuers :: s.issuers[j].uri == iss.uri {
      var j :| j in s.issuers && s.issuers[j].uri == iss.uri;
      assert j != id;
    }
  }

  /**
   * An update goes through exactly if the issuer is there and no other issuer has the URI it ends with, so always
   * when it leaves the URI alone. It changes the given columns of that row and nothing else.
   */
  lemma UpdateIssuerIff(s: Store, id: Id, update: IssuerUpdate)
    requires UserTablesValid(s)
    ensures UpdateIssuer(s, id, update).Ok? <==>
      && id in s.issuers
      && (update.uri.Some? ==> forall j | j in s.issuers && j != id :: s.issuers[j].uri != update.uri.value)
    ensures UpdateIssuer(s, id, update) == Err(IssuerNotFound) <==> id !in s.issuers
    ensures UpdateIssuer(s, id, update).Err? ==> UpdateIssuer(s, id, update).error in {IssuerNotFound, Duplicate}
    ensures id in s.issuers && update.uri.None? ==> UpdateIssuer(s, id, update).Ok?
    ensures UpdateIssuer(s, id, update).Ok? ==>
              var t := UpdateIssuer(s, id, update).value;
              && UserTablesValid(t)
              && t.issuers.Keys == s.issuers.Keys
              && (forall j | j in s.issuers && j != id :: t.issuers[j] == s.issuers[j])
              && t.users == s.users && t.groups == s.groups && t.members == s.members
              && (var was, row := s.issuers[id], t.issuers[id];
                  && row.owner == was.owner
                  && row.name == (if update.name.Some? then update.name.value else was.name)
                  && row.uri == (if update.uri.Some? then update.uri.value else was.uri)
                  && row.jwksUri == (if update.jwksUri.Some? then update.jwksUri.value else was.jwksUri)
                  && row.mappings == (if update.mappings.Some? then update.mappings.value else was.mappings)
                  && row.conditions == (if update.conditions.Some? then update.conditions.value else was.conditions))
  {
    if UpdateIssuer(s, id, update).Ok? {
      UpdateKeepsValid(s, id, update);
    }
    assert id in s.issuers && update.uri.None? ==> !UriTaken(s, s.issuers[id].uri, id);
    hide UserTablesValid;
  }

  lemma UpdateKeepsValid(s: Store, id: Id, update: IssuerUpdate)
    requires UserTablesValid(s) && UpdateIssuer(s, id, update).Ok?
    ensures UserTablesValid(UpdateIssuer(s, id, update).value)
  {
  }

  function UsersOf(s: Store, issuer: Id): set<Id> {
    set u | u in s.users && s.users[u].issuer == issuer
  }

  /** Two statements: the users go first, so the foreign key never objects. */
  function DeleteUsers(s: Store, issuer: Id): Store {
    s.(users := s.users - UsersOf(s, issuer))
  }

  function DeleteIssuer(s: Store, id: Id): (Store, IdentityResult<()>) {
    var t := DeleteUsers(s, id);
    if id in s.issuers then (t.(issuers := t.issuers - {id}), Ok(())) else (t, Err(IssuerNotFound))
  }

  /** Deleting an unknown issuer changes nothing; deleting a known one removes it and exactly its users. */
  lemma DeleteIssuerExact(s: Store, id: Id)
    requires UserTablesValid(s)
    ensures id !in s.issuers ==> DeleteIssuer(s, id) == (s, Err(IssuerNotFound))
    ensures UserTablesValid(DeleteIssuer(s, id).0)
    ensures forall u :: u in DeleteIssuer(s, id).0.users <==> u in s.users && s.users[u].issuer != id
    ensures forall u | u in DeleteIssuer(s, id).0.users :: DeleteIssuer(s, id).0.users[u] == s.users[u]
    ensures id in s.issuers ==> DeleteIssuer(s, id).1.Ok? && DeleteIssuer(s, id).0.issuers == s.issuers - {id}
    ensures DeleteIssuer(s, id).0.groups == s.groups && DeleteIssuer(s, id).0.members == s.members
  {
    if id !in s.issuers {
      assert UsersOf(s, id) == {};
      assert s.users - {} == s.users;
    }
  }

  // ---------- users ----------

  function UserByPair(s: Store, issuer: Id, sub: Str): (r: Option<Id>)
    requires UserTablesValid(s)
    ensures r.Some? ==> r.value in s.users && s.users[r.value].issuer == issuer && s.users[r.value].sub == sub
    ensures r.None? ==> forall u | u in s.users :: s.users[u].issuer != issuer || s.users[u].sub != sub
  {
    if exists u | u in s.users :: s.users[u].issuer == issuer && s.users[u].sub == sub then
      var u :| u in s.users && s.users[u].issuer == issuer && s.users[u].sub == sub;
      Some(u)
    else None
  }

  /** LookupUserInfoByClaims: by issuer URI and subject, without the ID. */
  function LookupByClaims(s: Store, iss: Str, sub: Str): Option<UserInfo>
    requires UserTablesValid(s)
  {
    var i :- IssuerByUri(s, iss);
    var u :- UserByPair(s, i, sub);
    Some(UserInfo([], s.users[u].name, s.users[u].email, iss, sub))
  }

  function LookupById(s: Store, id: Id): Option<UserInfo>
    requires UserTablesValid(s)
  {
    if id !in s.users then None
    else
      var u := s.users[id];
      Some(UserInfo(id, u.name, u.email, s.issuers[u.issuer].uri, u.sub))
  }

  /** Both lookups of a user tell its row; the one by claims leaves the ID out. */
  lemma LookupsTellRow(s: Store, u: Id)
    requires UserTablesValid(s) && u in s.users
    ensures var row := s.users[u];
            var uri := s.issuers[row.issuer].uri;
            && LookupById(s, u) == Some(UserInfo(u, row.name, row.email, uri, row.sub))
            && LookupByClaims(s, uri, row.sub) == Some(UserInfo([], row.name, row.email, uri, row.sub))
  {
    var row := s.users[u];
    var uri := s.issuers[row.issuer].uri;
    assert IssuerByUri(s, uri) == Some(row.issuer);
    assert UserByPair(s, row.issuer, row.sub) == Some(u);
  }

  /** An absent claim counts as empty text. */
  function ParseClaim(claims: map<Str, Value>, key: Str, required: bool): IdentityResult<Str> {
    var raw := if key in claims then claims[key] else Text([]);
    if !raw.Text? then Err(InvalidClaim)
    else if required && raw.text == [] then Err(MissingClaim)
    else Ok(raw.text)
  }

  function ParseUserInfo(claims: map<Str, Value>): IdentityResult<UserInfo> {
    var iss, sub := ParseClaim(claims, "iss", true), ParseClaim(claims, "sub", true);
    var name, email := ParseClaim(claims, "name", false), ParseClaim(claims, "email", false);
    if iss.Err? then Err(iss.error)
    else if sub.Err? then Err(sub.error)
    else if name.Err? then Err(name.error)
    else if email.Err? then Err(email.error)
    else Ok(UserInfo([], name.value, email.value, iss.value, sub.value))
  }

  /** Claims parse exactly if issuer and subject are non-empty texts and name and email are texts where present. */
  lemma ParseUserInfoIff(claims: map<Str, Value>)
    ensures ParseUserInfo(claims).Ok? <==>
      && (forall key: Str | key in ["iss", "sub"] :: key in claims && claims[key].Text? && claims[key].text != [])
      && (forall key: Str | key in ["name", "email"] && key in claims :: claims[key].Text?)
    ensures ParseUserInfo(claims).Err? ==> ParseUserInfo(claims).error in {InvalidClaim, MissingClaim}
    ensures ParseUserInfo(claims) == Err(MissingClaim) <==>
      || "iss" !in claims || claims["iss"] == Text([])
      || (claims["iss"].Text? && ("sub" !in claims || claims["sub"] == Text([])))
  {
    var iss: Str, sub: Str, name: Str, email: Str := "iss", "sub", "name", "email";
    assert iss in ["iss", "sub"] && sub in ["iss", "sub"] && name in ["name", "email"] && email in ["name", "email"];
  }

  /** An empty registered claim is absent from the map; the registered fields win over extra claims. */
  function ToMap(c: Claims): map<Str, Value> {
    var iss: Str, sub: Str := "iss", "sub";
    var plain := c.extra - {iss, sub};
    var withIss := if c.issuer == [] then plain else plain[iss := Text(c.issuer)];
    if c.subject == [] then withIss else withIss[sub := Text(c.subject)]
  }

  function GenerateSubjectId(f: Foreign, iss: Str, sub: Str): IdentityResult<Id> {
    var id: Str := USER_PREFIX + "-" + f.digest(iss + sub);
    if f.parsesId(id) then Ok(id) else Err(BadId)
  }

  /** The ID given, or a generated one when none is given. */
  function NewId(ui: UserInfo, f: Foreign): IdentityResult<Id> {
    if ui.id == [] then GenerateSubjectId(f, ui.issuer, ui.subject) else Ok(ui.id)
  }

  /** StoreUserInfo on a view: the row of the pair if there is one, else a new row unless its ID is taken. */
  function StoreUser(s: Store, ui: UserInfo, f: Foreign): (r: IdentityResult<(Store, UserInfo)>)
    requires UserTablesValid(s)
    ensures r.Ok? ==> UserTablesValid(r.value.0)
  {
    if ui.issuer == [] then Err(EmptyIssuer)
    else if ui.subject == [] then Err(EmptySubject)
    else
      var issuer := IssuerByUri(s, ui.issuer);
      if issuer.None? then Err(IssuerNotFound)
      else
        var newId := NewId(ui, f);
        if newId.Err? then Err(newId.error)
        else
          var existing := UserByPair(s, issuer.value, ui.subject);
          if existing.Some? then Ok((s, ui.(id := existing.value)))
          else if newId.value in s.users then Err(Duplicate)
          else
            var row := User(ui.name, ui.email, ui.subject, issuer.value);
            Ok((s.(users := s.users[newId.value := row]), ui.(id := newId.value)))
  }

  /** Why a user is not stored, each reason exactly when it applies, and no other reason. */
  lemma StoreUserRefusals(s: Store, ui: UserInfo, f: Foreign)
    requires UserTablesValid(s)
    ensures StoreUser(s, ui, f) == Err(EmptyIssuer) <==> ui.issuer == []
    ensures StoreUser(s, ui, f) == Err(EmptySubject) <==> ui.issuer != [] && ui.subject == []
    ensures StoreUser(s, ui, f) == Err(IssuerNotFound) <==>
      ui.issuer != [] && ui.subject != [] && forall i | i in s.issuers :: s.issuers[i].uri != ui.issuer
    ensures StoreUser(s, ui, f) == Err(BadId) <==>
      && ui.issuer != [] && ui.subject != [] && (exists i | i in s.issuers :: s.issuers[i].uri == ui.issuer)
      && ui.id == [] && !f.parsesId("idntusr-" + f.digest(ui.issuer + ui.subject))
    ensures StoreUser(s, ui, f) == Err(Duplicate) <==>
      && ui.issuer != [] && ui.subject != []
      && (exists i | i in s.issuers :: s.issuers[i].uri == ui.issuer
            && forall u | u in s.users :: s.users[u].issuer != i || s.users[u].sub != ui.subject)
      && (var generated: Str := "idntusr-" + f.digest(ui.issuer + ui.subject);
          if ui.id == [] then f.parsesId(generated) && generated in s.users else ui.id in s.users)
    ensures StoreUser(s, ui, f).Err? ==>
              StoreUser(s, ui, f).error in {EmptyIssuer, EmptySubject, IssuerNotFound, BadId, Duplicate}
  {
    assert USER_PREFIX + "-" == "idntusr-";
    var i := IssuerByUri(s, ui.issuer);
    if i.Some? {
      assert forall j | j in s.issuers :: s.issuers[j].uri == ui.issuer ==> j == i.value;
    }
    hide UserTablesValid;
  }

  lemma PairIsUnique(s: Store, u: Id)
    requires UserTablesValid(s) && u in s.users
    ensures UserByPair(s, s.users[u].issuer, s.users[u].sub) == Some(u)
  {
  }

  /**
   * A stored user is the one row of its issuer and subject. Rows already there keep their content, at most one row is
   * added, and it is the row of this very pair.
   */
  lemma StoreUserExact(s: Store, ui: UserInfo, f: Foreign)
    requires UserTablesValid(s) && StoreUser(s, ui, f).Ok?
    ensures var (t, stored) := StoreUser(s, ui, f).value;
            var issuer := IssuerByUri(s, ui.issuer).value;
            && IssuerByUri(s, ui.issuer).Some?
            && UserTablesValid(t) && t == s.(users := t.users)
            && stored == ui.(id := stored.id) && stored.id in t.users
            && t.users[stored.id].issuer == issuer && t.users[stored.id].sub == ui.subject
            && UserByPair(t, issuer, ui.subject) == Some(stored.id)
            && (forall u | u in s.users :: u in t.users && t.users[u] == s.users[u])
            && (forall u | u in t.users :: u in s.users || u == stored.id)
            && (t != s ==> stored.id !in s.users && UserByPair(s, issuer, ui.subject) == None)
            && (t != s ==> LookupById(t, stored.id) == Some(stored))
            && LookupById(t, stored.id).Some?
            && LookupById(t, stored.id).value.issuer == ui.issuer
            && LookupById(t, stored.id).value.subject == ui.subject
  {
    var (t, stored) := StoreUser(s, ui, f).value;
    var issuer := IssuerByUri(s, ui.issuer).value;
    assert t == s || t.users == s.users[stored.id := t.users[stored.id]];
    assert stored.id in t.users && t.users[stored.id].issuer == issuer && t.users[stored.id].sub == ui.subject;
    PairIsUnique(t, stored.id);
  }
}
