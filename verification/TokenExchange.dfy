/** The token exchange grant of RFC 8693 (internal/rfc8693). */
module TokenExchange {
  import opened Bytes
  import opened Storage
  import opened Identity

  const TOKEN_TYPE_JWT: Str := "urn:ietf:params:oauth:token-type:jwt"
  const SUB_OVERRIDE: Str := "identity-api.infratographer.com/sub"
  const SUB: Str := "sub"

  /** The form, the claims of the validated subject token, and how begin, commit and session handling turn out. */
  datatype Exchange = Exchange(
    subjectToken: Str, subjectTokenType: Str, actorToken: Str, validated: Option<Claims>,
    begins: bool, commits: bool, sessionUsable: bool)

  /** `Issued` carries the new token's subject and its extra claims. */
  datatype Outcome = Issued(subject: Id, extra: map<Str, Value>) | Rejected | Panicked

  // ---------- conditions and mappings ----------

  /** ClaimConditionStrategy.Eval; None is an error. */
  function Condition(s: Store, claims: Claims, f: Foreign): Option<bool>
    requires UserTablesValid(s)
  {
    if claims.issuer == [] then None
    else
      var i :- IssuerByUri(s, claims.issuer);
      var expr := s.issuers[i].conditions;
      if f.mappings(s.issuers[i].mappings).None? then None  // scanning the row decodes both columns
      else if expr == [] then Some(true)
      else
        var v :- f.eval(expr, claims);
        if v.Bool? then Some(v.truth) else None
  }

  /** Every mapping evaluates, to these values. */
  ghost predicate Evaluates(mappings: map<Str, Str>, claims: Claims, f: Foreign, out: map<Str, Value>) {
    && out.Keys == mappings.Keys
    && forall k | k in mappings :: f.eval(mappings[k], claims) == Some(out[k])
  }

  function EvalAll(mappings: map<Str, Str>, claims: Claims, f: Foreign): (r: Option<map<Str, Value>>)
    ensures r.Some? ==> Evaluates(mappings, claims, f, r.value)
    ensures r.None? ==> exists k | k in mappings :: f.eval(mappings[k], claims) == None
  {
    if exists k | k in mappings :: f.eval(mappings[k], claims) == None then None
    else Some(map k | k in mappings :: f.eval(mappings[k], claims).value)
  }

  /** Through JWTClaims and back: a `sub` that is not non-empty text is dropped. */
  function Normalised(out: map<Str, Value>): map<Str, Value> {
    if SUB in out && !(out[SUB].Text? && out[SUB].text != []) then out - {SUB} else out
  }

  /** MapClaims; None is an error. */
  function Mapped(s: Store, claims: Claims, f: Foreign): Option<map<Str, Value>>
    requires UserTablesValid(s)
  {
    if claims.subject == [] || claims.issuer == [] then None
    else
      var i :- IssuerByUri(s, claims.issuer);
      var mappings :- f.mappings(s.issuers[i].mappings);
      var out :- EvalAll(mappings, claims, f);
      Some(Normalised(out))
  }

  /** The mapped subject when there is one, else the token's. */
  function EffectiveSubject(claims: Claims, mapped: map<Str, Value>): Str {
    if SUB in mapped && mapped[SUB].Text? then mapped[SUB].text else claims.subject
  }

  // ---------- user info ----------

  function Populate(s: Store, claims: Claims): IdentityResult<UserInfo>
    requires UserTablesValid(s)
  {
    match LookupByClaims(s, claims.issuer, claims.subject)
    case Some(ui) => Ok(ui)
    case None => ParseUserInfo(ToMap(claims))
  }

  datatype Override = Keep | Use(id: Id) | Fail | Panic

  /** The override claim; asserting it to be a string panics when it is not. */
  function OverrideOf(mapped: map<Str, Value>, issuer: Str, f: Foreign): Override {
    if SUB_OVERRIDE !in mapped then Keep
    else if !mapped[SUB_OVERRIDE].Text? then Panic
    else if mapped[SUB_OVERRIDE].text == [] then Keep
    else
      var id: Str := USER_PREFIX + "-" + f.digest(issuer) + "-" + mapped[SUB_OVERRIDE].text;
      if f.parsesId(id) then Use(id) else Fail
  }

  // ---------- the request ----------

  predicate WellFormed(x: Exchange) {
    x.subjectToken != [] && x.subjectTokenType == TOKEN_TYPE_JWT && x.actorToken == []
  }

  /** The claims that got past validation, condition and mapping, with what they were mapped to. */
  datatype Admitted = Admitted(claims: Claims, mapped: map<Str, Value>)

  function Admit(s: Store, x: Exchange, f: Foreign): Option<Admitted>
    requires UserTablesValid(s)
  {
    if !WellFormed(x) then None
    else
      var claims :- x.validated;
      var ok :- Condition(s, claims, f);
      if !ok then None
      else
        var mapped :- Mapped(s, claims, f);
        Some(Admitted(claims, mapped))
  }

  /** What the transaction does with admitted claims: the new view and the stored user. */
  datatype Stored = NotStored | StorePanic | Stored(view: Store, user: UserInfo)

  function StoreAdmitted(s: Store, a: Admitted, f: Foreign): (r: Stored)
    requires UserTablesValid(s)
    ensures r.Stored? ==> UserTablesValid(r.view)
  {
    var claims := a.claims.(subject := EffectiveSubject(a.claims, a.mapped));
    match Populate(s, claims)
    case Err(_) => NotStored
    case Ok(ui) =>
      match OverrideOf(a.mapped, ui.issuer, f)
      case Panic => StorePanic
      case Fail => NotStored
      case Keep => (match StoreUser(s, ui, f) case Ok((t, u)) => Stored(t, u) case Err(_) => NotStored)
      case Use(id) => (match StoreUser(s, ui.(id := id), f) case Ok((t, u)) => Stored(t, u) case Err(_) => NotStored)
  }

  /** One exchange: the committed store afterwards and the outcome. */
  function Perform(s: Store, x: Exchange, f: Foreign): (r: (Store, Outcome))
    requires UserTablesValid(s)
    ensures UserTablesValid(r.0)
  {
    match Admit(s, x, f)
    case None => (s, Rejected)
    case Some(a) =>
      if !x.begins then (s, Rejected)
      else
        match StoreAdmitted(s, a, f)
        case NotStored => (s, Rejected)
        case StorePanic => (s, Panicked)
        case Stored(view, user) =>
          if !x.commits then (s, Rejected)
          else (view, if x.sessionUsable then Issued(user.id, a.mapped - {SUB_OVERRIDE}) else Rejected)
  }

  /** The exits between begin and store: the user cannot be read, the override is no identifier, or it is no text. */
  predicate LeavesOpen(s: Store, a: Admitted, f: Foreign)
    requires UserTablesValid(s)
  {
    var populated := Populate(s, a.claims.(subject := EffectiveSubject(a.claims, a.mapped)));
    populated.Err? || OverrideOf(a.mapped, populated.value.issuer, f) in {Fail, Panic}
  }

  // ---------- the handler ----------

  class UserInfoService {
    const db: Database
    const foreign: Foreign

    constructor (db: Database, f: Foreign)
      ensures this.db == db && foreign == f
    {
      this.db, foreign := db, f;
    }

    method StoreUserInfo(ui: UserInfo) returns (r: IdentityResult<UserInfo>)
      requires db.tx.Open? ==> UserTablesValid(db.tx.view)
      modifies db`tx
      ensures !old(db.tx).Open? ==> db.tx == old(db.tx)
      ensures !old(db.tx).Open? ==>
                r == Err(if ui.issuer == [] then EmptyIssuer else if ui.subject == [] then EmptySubject else MissingTx)
      ensures old(db.tx).Open? ==>
                match StoreUser(old(db.tx).view, ui, foreign)
                case Ok((t, u)) => r == Ok(u) && db.tx == Open(t)
                case Err(e) => r == Err(e) && db.tx == old(db.tx)
    {
      if |ui.issuer| == 0 {
        return Err(EmptyIssuer);
      }
      if |ui.subject| == 0 {
        return Err(EmptySubject);
      }
      if !db.tx.Open? {
        return Err(MissingTx);
      }
      var view := db.tx.view;
      var issuer := IssuerByUri(view, ui.issuer);
      if issuer.None? {
        return Err(IssuerNotFound);
      }
      var newId := ui.id;
      if ui.id == [] {
        var generated := GenerateSubjectId(foreign, ui.issuer, ui.subject);
        if generated.Err? {
          return Err(generated.error);
        }
        newId := generated.value;
      }
      var userId := newId;
      var existing := UserByPair(view, issuer.value, ui.subject);
      if existing.Some? {
        userId := existing.value;
      } else {
        if newId in view.users {
          return Err(Duplicate);
        }
        db.tx := Open(view.(users := view.users[newId := User(ui.name, ui.email, ui.subject, issuer.value)]));
      }
      r := Ok(ui.(id := userId));
    }
  }

  /** The loop of MapClaims over the mappings, in whatever order the map is ranged over. */
  method EvalMappings(mappings: map<Str, Str>, claims: Claims, f: Foreign) returns (r: Option<map<Str, Value>>)
    ensures r == EvalAll(mappings, claims, f)
  {
    var output: map<Str, Value> := map[];
    var left := mappings.Keys;
    while left != {}
      invariant left <= mappings.Keys && output.Keys == mappings.Keys - left
      invariant forall k | k in output :: f.eval(mappings[k], claims) == Some(output[k])
      decreases |left|
    {
      var k :| k in left;
      var out := f.eval(mappings[k], claims);
      if out.None? {
        return None;
      }
      output := output[k := out.value];
      left := left - {k};
    }
    r := Some(output);
    assert EvalAll(mappings, claims, f).Some? ==> EvalAll(mappings, claims, f).value == output;
  }

  class TokenExchangeHandler {
    const db: Database
    const foreign: Foreign
    const users: UserInfoService

    constructor (db: Database, f: Foreign)
      ensures this.db == db && foreign == f && users.db == db && users.foreign == f
    {
      this.db, foreign := db, f;
      users := new UserInfoService(db, f);
    }

    ghost predicate Wired() {
      users.db == db && users.foreign == foreign
    }

    method MapClaims(claims: Claims) returns (r: Option<map<Str, Value>>)
      requires UserTablesValid(db.committed)
      ensures r == Mapped(db.committed, claims, foreign)
    {
      if claims.subject == [] || claims.issuer == [] {
        return None;
      }
      var issuer := IssuerByUri(db.committed, claims.issuer);
      if issuer.None? {
        return None;
      }
      var mappings := foreign.mappings(db.committed.issuers[issuer.value].mappings);
      if mappings.None? {
        return None;
      }
      var out := EvalMappings(mappings.value, claims, foreign);
      if out.None? {
        return None;
      }
      r := Some(Normalised(out.value));
    }

    /**
     * Conditions and mappings are read from the committed store, the user through the transaction. Some exits after
     * begin neither commit nor roll back; the transaction they leave has changed nothing.
     */
    method HandleTokenEndpointRequest(x: Exchange) returns (outcome: Outcome)
      requires Wired() && UserTablesValid(db.committed)
      modifies db
      ensures (db.committed, outcome) == Perform(old(db.committed), x, foreign)
      ensures Admit(old(db.committed), x, foreign).None? ==> db.tx == old(db.tx)
      ensures Admit(old(db.committed), x, foreign).Some? && !x.begins ==> db.tx == NoTx
      ensures Admit(old(db.committed), x, foreign).Some? && x.begins ==>
                db.tx == if LeavesOpen(old(db.committed), Admit(old(db.committed), x, foreign).value, foreign)
                         then Open(old(db.committed)) else Ended
    {
      hide IssuerByUri, UserByPair, StoreUser, Populate, Condition, Mapped, OverrideOf, UserTablesValid;
      if |x.subjectToken| == 0 {
        return Rejected;
      }
      if |x.subjectTokenType| == 0 {
        return Rejected;
      }
      if |x.actorToken| > 0 {
        return Rejected;
      }
      if x.subjectTokenType != TOKEN_TYPE_JWT {
        return Rejected;
      }
      if x.validated.None? {
        return Rejected;
      }
      var claims := x.validated.value;
      var satisfied := Condition(db.committed, claims, foreign);
      if satisfied.None? || !satisfied.value {
        return Rejected;
      }
      var mappedClaims := MapClaims(claims);
      if mappedClaims.None? {
        return Rejected;
      }
      var mapped := mappedClaims.value;
      var mappedSubjectClaim := claims;
      if SUB in mapped && mapped[SUB].Text? {
        mappedSubjectClaim := claims.(subject := mapped[SUB].text);
      }
      var err := db.BeginContext(x.begins);
      if err {
        return Rejected;
      }
      var populated := Populate(db.tx.view, mappedSubjectClaim);
      if populated.Err? {
        return Rejected;  // the transaction stays open
      }
      var userInfo := populated.value;
      var override := OverrideOf(mapped, userInfo.issuer, foreign);
      match override {
        case Keep =>
        case Panic => return Panicked;
        case Fail => return Rejected;
        case Use(id) => userInfo := userInfo.(id := id);
      }
      var stored := users.StoreUserInfo(userInfo);
      if stored.Err? {
        var _ := db.RollbackContext(true);
        return Rejected;
      }
      err := db.CommitContext(x.commits);
      if err {
        return Rejected;
      }
      if !x.sessionUsable {
        return Rejected;
      }
      outcome := Issued(stored.value.id, mapped - {SUB_OVERRIDE});
    }
  }
}
