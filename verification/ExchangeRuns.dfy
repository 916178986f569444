/** Whole runs of token exchanges mixed with issuer administration: subjects stay put and stay apart. */
module ExchangeRuns {
  import opened Bytes
  import opened Storage
  import opened Identity
  import opened TokenExchange

  /** How the request around an issuer operation turns out; it takes effect only if all of it goes well. */
  datatype AdminEnv = AdminEnv(begins: bool, allowed: bool, driverError: bool, commits: bool)
  {
    predicate Smooth() { begins && allowed && !driverError && commits }
  }

  datatype Action =
    | Exchanging(x: Exchange)
    | Creating(id: Id, issuer: Issuer, env: AdminEnv)
    | Updating(id: Id, update: IssuerUpdate, env: AdminEnv)
    | Deleting(id: Id, env: AdminEnv)

  /** The handlers look the issuer up first, so updating or deleting an unknown one stops there. */
  function Do(s: Store, a: Action, f: Foreign): (t: Store)
    requires UserTablesValid(s)
    ensures UserTablesValid(t)
  {
    match a
    case Exchanging(x) => Perform(s, x, f).0
    case Creating(id, issuer, env) =>
      (match InsertIssuer(s, id, issuer) case Ok(t) => if env.Smooth() then t else s case Err(_) => s)
    case Updating(id, update, env) =>
      if !update.SomeField() then s
      else (match UpdateIssuer(s, id, update) case Ok(t) => if env.Smooth() then t else s case Err(_) => s)
    case Deleting(id, env) =>
      DeleteIssuerExact(s, id);
      if env.Smooth() && id in s.issuers then DeleteIssuer(s, id).0 else s
  }

  lemma DoKeepsGroups(s: Store, a: Action, f: Foreign)
    requires UserTablesValid(s)
    ensures Do(s, a, f).groups == s.groups && Do(s, a, f).members == s.members
  {
    if a.Exchanging? {
      PerformStores(s, a.x, f);
    }
  }

  /** Every state of a run keeps the constraints of the issuer and user tables. */
  function Run(s: Store, actions: seq<Action>, f: Foreign): (t: Store)
    requires UserTablesValid(s)
    ensures UserTablesValid(t)
    decreases |actions|
  {
    if actions == [] then s else Run(Do(s, actions[0], f), actions[1..], f)
  }

  // ---------- what admits an exchange ----------

  /** The row's URI is the claims' issuer, its condition is none or true of them, and each stored mapping evaluates. */
  ghost predicate Vouches(iss: Issuer, claims: Claims, f: Foreign) {
    && iss.uri == claims.issuer
    && (iss.conditions == [] || f.eval(iss.conditions, claims) == Some(Bool(true)))
    && f.mappings(iss.mappings).Some?
    && forall k | k in f.mappings(iss.mappings).value :: f.eval(f.mappings(iss.mappings).value[k], claims).Some?
  }

  /** A subject token of the one supported type and no actor, and a stored issuer vouches for the validated claims. */
  ghost predicate VouchedFor(s: Store, x: Exchange, f: Foreign) {
    && x.subjectToken != [] && x.subjectTokenType == "urn:ietf:params:oauth:token-type:jwt" && x.actorToken == []
    && x.validated.Some? && x.validated.value.issuer != [] && x.validated.value.subject != []
    && exists i | i in s.issuers :: Vouches(s.issuers[i], x.validated.value, f)
  }

  /** The condition of an issuer as it is stored: none is true, and a result that is no boolean is an error. */
  lemma ConditionIff(s: Store, claims: Claims, f: Foreign, verdict: bool)
    requires UserTablesValid(s)
    ensures Condition(s, claims, f) == Some(verdict) <==>
      claims.issuer != [] && exists i | i in s.issuers ::
        && s.issuers[i].uri == claims.issuer && f.mappings(s.issuers[i].mappings).Some?
        && (if s.issuers[i].conditions == [] then verdict
            else f.eval(s.issuers[i].conditions, claims) == Some(Bool(verdict)))
  {
  }

  /** Exactly the exchanges that a stored issuer vouches for get past condition and mapping. */
  lemma AdmittedIff(s: Store, x: Exchange, f: Foreign)
    requires UserTablesValid(s)
    ensures Admit(s, x, f).Some? <==> VouchedFor(s, x, f)
  {
    if x.validated.Some? {
      var claims := x.validated.value;
      var found := IssuerByUri(s, claims.issuer);
      if found.Some? {
        var iss := s.issuers[found.value];
        assert forall i | i in s.issuers :: Vouches(s.issuers[i], claims, f) ==> i == found.value;
      }
    }
  }

  // ---------- one exchange ----------

  /** The identity an admitted exchange is about: the issuer's row and the effective subject. */
  datatype Pair = Pair(issuer: Id, sub: Str)

  function PairOf(s: Store, x: Exchange, f: Foreign): Option<Pair>
    requires UserTablesValid(s)
  {
    var a :- Admit(s, x, f);
    var i :- IssuerByUri(s, a.claims.issuer);
    Some(Pair(i, EffectiveSubject(a.claims, a.mapped)))
  }

  predicate HasPair(s: Store, p: Pair, u: Id) {
    u in s.users && s.users[u].issuer == p.issuer && s.users[u].sub == p.sub
  }

  /** Looking a user up or parsing the claims, either way the info speaks of the claims' own issuer and subject. */
  lemma PopulateSpeaksOfClaims(s: Store, claims: Claims)
    requires UserTablesValid(s) && Populate(s, claims).Ok?
    ensures Populate(s, claims).value.issuer == claims.issuer
    ensures Populate(s, claims).value.subject == claims.subject
    ensures Populate(s, claims).value.id == []
  {
    if LookupByClaims(s, claims.issuer, claims.subject).None? {
      var m := ToMap(claims);
      var iss: Str, sub: Str := "iss", "sub";
      assert iss != sub;
      assert iss in m ==> m[iss] == Text(claims.issuer);
      assert sub in m ==> m[sub] == Text(claims.subject);
    }
  }

  /** Storing admitted claims: at most one row is added, none is changed, and the user stored is the pair's. */
  lemma AdmittedStores(s: Store, a: Admitted, f: Foreign)
    requires UserTablesValid(s) && StoreAdmitted(s, a, f).Stored?
    ensures var t, id := StoreAdmitted(s, a, f).view, StoreAdmitted(s, a, f).user.id;
            && t == s.(users := t.users)
            && IssuerByUri(s, a.claims.issuer).Some?
            && HasPair(t, Pair(IssuerByUri(s, a.claims.issuer).value, EffectiveSubject(a.claims, a.mapped)), id)
            && (forall u | u in s.users :: u in t.users && t.users[u] == s.users[u])
            && (forall u | u in t.users :: u in s.users || u == id)
  {
    hide Populate, StoreUser, UserByPair, IssuerByUri, UserTablesValid, OverrideOf, EffectiveSubject;
    var claims := a.claims.(subject := EffectiveSubject(a.claims, a.mapped));
    PopulateSpeaksOfClaims(s, claims);
    var ui := Populate(s, claims).value;
    var override := OverrideOf(a.mapped, ui.issuer, f);
    StoreUserExact(s, if override.Use? then ui.(id := override.id) else ui, f);
  }

  /** An exchange that reaches the store stores the user of its own pair; otherwise nothing is committed. */
  lemma PerformStores(s: Store, x: Exchange, f: Foreign)
    requires UserTablesValid(s)
    ensures var (t, outcome) := Perform(s, x, f);
            && t == s.(users := t.users)
            && (forall u | u in s.users :: u in t.users && t.users[u] == s.users[u])
            && (forall u, v | u in t.users && v in t.users && u !in s.users && v !in s.users :: u == v)
            && (outcome.Panicked? ==> t == s)
            && (t != s ==> x.begins && x.commits && PairOf(s, x, f).Some?)
            && (forall u | u in t.users && u !in s.users ::
                  PairOf(s, x, f).Some? && HasPair(t, PairOf(s, x, f).value, u))
            && (outcome.Issued? ==> PairOf(s, x, f).Some? && HasPair(t, PairOf(s, x, f).value, outcome.subject))
  {
    hide StoreAdmitted, Admit, UserTablesValid, IssuerByUri, EffectiveSubject;
    var admitted := Admit(s, x, f);
    if admitted.Some? && StoreAdmitted(s, admitted.value, f).Stored? {
      AdmittedStores(s, admitted.value, f);
    }
  }

  /** The ID a new user would get: the override, else one generated from issuer URI and subject. */
  function CandidateId(a: Admitted, f: Foreign): IdentityResult<Id> {
    match OverrideOf(a.mapped, a.claims.issuer, f)
    case Use(id) => Ok(id)
    case Keep => GenerateSubjectId(f, a.claims.issuer, EffectiveSubject(a.claims, a.mapped))
    case _ => Err(BadId)
  }

  predicate TextOrAbsent(claims: Claims, key: Str) {
    key in claims.extra ==> claims.extra[key].Text?
  }

  lemma PopulateOkIff(s: Store, claims: Claims)
    requires UserTablesValid(s) && claims.issuer != [] && claims.subject != []
    ensures Populate(s, claims).Ok? <==>
      || LookupByClaims(s, claims.issuer, claims.subject).Some?
      || (TextOrAbsent(claims, "name") && TextOrAbsent(claims, "email"))
  {
    var m := ToMap(claims);
    var iss: Str, name: Str, email: Str := "iss", "name", "email";
    assert iss != SUB && name != iss && name != SUB && email != iss && email != SUB;
    assert m[iss] == Text(claims.issuer) && m[SUB] == Text(claims.subject);
    assert (name in m <==> name in claims.extra) && (name in m ==> m[name] == claims.extra[name]);
    assert (email in m <==> email in claims.extra) && (email in m ==> m[email] == claims.extra[email]);
  }

  /** Name and email, when the token has them, are texts. */
  predicate Parses(claims: Claims) {
    TextOrAbsent(claims, "name") && TextOrAbsent(claims, "email")
  }

  /** Storing admitted claims whose pair has no row: possible exactly if they parse and the candidate ID is free. */
  lemma FreshStores(s: Store, a: Admitted, f: Foreign)
    requires UserTablesValid(s) && a.claims.issuer != [] && EffectiveSubject(a.claims, a.mapped) != []
    requires IssuerByUri(s, a.claims.issuer).Some?
    requires LookupByClaims(s, a.claims.issuer, EffectiveSubject(a.claims, a.mapped)).None?
    ensures var candidate := CandidateId(a, f);
            && (StoreAdmitted(s, a, f).Stored? <==>
                  Parses(a.claims) && candidate.Ok? && candidate.value !in s.users)
            && (StoreAdmitted(s, a, f).Stored? ==> StoreAdmitted(s, a, f).user.id == candidate.value)
  {
    var claims := a.claims.(subject := EffectiveSubject(a.claims, a.mapped));
    PopulateOkIff(s, claims);
    if Populate(s, claims).Ok? {
      PopulateSpeaksOfClaims(s, claims);
      hide Populate, GenerateSubjectId, UserTablesValid, EffectiveSubject;
    }
  }

  lemma AdmittedNames(s: Store, x: Exchange, f: Foreign)
    requires UserTablesValid(s) && Admit(s, x, f).Some?
    ensures var a := Admit(s, x, f).value;
            && x.validated == Some(a.claims) && a.claims.issuer != [] && EffectiveSubject(a.claims, a.mapped) != []
            && IssuerByUri(s, a.claims.issuer).Some?
  {
  }

  /**
   * A pair without a row is issued a token exactly when nothing else goes wrong and its candidate ID is free; the
   * token then carries that ID. A taken ID commits nothing.
   */
  lemma TakenIdFails(s: Store, x: Exchange, f: Foreign)
    requires UserTablesValid(s) && PairOf(s, x, f).Some?
    requires forall u :: !HasPair(s, PairOf(s, x, f).value, u)
    ensures var a := Admit(s, x, f).value;
            var candidate := CandidateId(a, f);
            var (t, outcome) := Perform(s, x, f);
            && (outcome.Issued? <==>
                  && x.begins && x.commits && x.sessionUsable
                  && Parses(a.claims) && candidate.Ok? && candidate.value !in s.users)
            && (outcome.Issued? ==> outcome.subject == candidate.value)
            && (candidate.Ok? && candidate.value in s.users ==> t == s)
  {
    var a, p := Admit(s, x, f).value, PairOf(s, x, f).value;
    AdmittedNames(s, x, f);
    var row := UserByPair(s, p.issuer, p.sub);
    assert row.None? by {
      assert !HasPair(s, p, if row.Some? then row.value else []);
    }
    FreshStores(s, a, f);
    hide Admit, StoreAdmitted, CandidateId, UserTablesValid;
  }

  // ---------- rows persist ----------

  predicate DeletesIssuer(a: Action, issuer: Id) {
    a.Deleting? && a.env.Smooth() && a.id == issuer
  }

  predicate Spares(actions: seq<Action>, issuer: Id) {
    forall a | a in actions :: !DeletesIssuer(a, issuer)
  }

  lemma DoKeepsRow(s: Store, a: Action, f: Foreign, u: Id)
    requires UserTablesValid(s) && u in s.users && !DeletesIssuer(a, s.users[u].issuer)
    ensures u in Do(s, a, f).users && Do(s, a, f).users[u] == s.users[u]
  {
    match a {
      case Exchanging(x) =>
        PerformStores(s, x, f);
      case Creating(_, _, _) =>
      case Updating(_, _, _) =>
      case Deleting(id, _) =>
        DeleteIssuerExact(s, id);
    }
  }

  /** Once committed, a user's row never changes until its issuer is deleted, whatever else happens. */
  lemma {:induction false} RunKeepsRow(s: Store, actions: seq<Action>, f: Foreign, u: Id)
    requires UserTablesValid(s) && u in s.users && Spares(actions, s.users[u].issuer)
    ensures u in Run(s, actions, f).users && Run(s, actions, f).users[u] == s.users[u]
    decreases |actions|
  {
    hide UserTablesValid, Do, DeletesIssuer;
    if actions != [] {
      var a, tail := actions[0], actions[1..];
      assert a in actions;
      DoKeepsRow(s, a, f, u);
      assert forall b | b in tail :: b in actions;
      RunKeepsRow(Do(s, a, f), tail, f, u);
    }
  }

  /** Exchanges and issuer administration leave groups alone, so the whole store stays valid. */
  lemma {:induction false} RunKeepsValid(s: Store, actions: seq<Action>, f: Foreign)
    requires Valid(s)
    ensures Valid(Run(s, actions, f))
    ensures Run(s, actions, f).groups == s.groups && Run(s, actions, f).members == s.members
    decreases |actions|
  {
    hide UserTablesValid, Do;
    if actions != [] {
      DoKeepsGroups(s, actions[0], f);
      RunKeepsValid(Do(s, actions[0], f), actions[1..], f);
    }
  }

  // ---------- subjects identify ----------

  /** One row per pair, one pair per row. */
  lemma RowsIdentify(s: Store, p: Pair, u: Id, q: Pair, v: Id)
    requires UserTablesValid(s) && HasPair(s, p, u) && HasPair(s, q, v)
    ensures u == v <==> p == q
  {
  }

  /**
   * Two exchanges with any run of exchanges and issuer changes between them: the tokens carry the same subject
   * exactly when they are about the same issuer and effective subject, as long as that issuer is not deleted between.
   */
  lemma SubjectsIdentify(s: Store, x: Exchange, between: seq<Action>, y: Exchange, f: Foreign)
    requires UserTablesValid(s)
    requires PairOf(s, x, f).Some? ==> Spares(between, PairOf(s, x, f).value.issuer)
    ensures var (t, first) := Perform(s, x, f);
            var s' := Run(t, between, f);
            var second := Perform(s', y, f).1;
            first.Issued? && second.Issued? ==>
              && PairOf(s, x, f).Some?
              && (second.subject == first.subject <==> PairOf(s', y, f) == PairOf(s, x, f))
  {
    var (t, first) := Perform(s, x, f);
    var s' := Run(t, between, f);
    var (t', second) := Perform(s', y, f);
    PerformStores(s, x, f);
    PerformStores(s', y, f);
    hide Perform, UserTablesValid, Run, PairOf;
    if first.Issued? && second.Issued? {
      RunKeepsRow(t, between, f, first.subject);
      RowsIdentify(t', PairOf(s, x, f).value, first.subject, PairOf(s', y, f).value, second.subject);
    }
  }

  /** Storing admitted claims whose pair has a row: possible exactly if a candidate ID could be made, used or not. */
  lemma KnownStores(s: Store, a: Admitted, f: Foreign)
    requires UserTablesValid(s) && a.claims.issuer != [] && EffectiveSubject(a.claims, a.mapped) != []
    requires LookupByClaims(s, a.claims.issuer, EffectiveSubject(a.claims, a.mapped)).Some?
    ensures StoreAdmitted(s, a, f).Stored? <==> CandidateId(a, f).Ok?
  {
    hide GenerateSubjectId, UserTablesValid, EffectiveSubject;
  }

  /**
   * In particular a pair that already has a row always gets that row's ID, and nothing is written. It gets its token
   * exactly when nothing goes wrong around the store and a candidate ID could be made, though it is not used.
   */
  lemma ExistingRowReturned(s: Store, x: Exchange, f: Foreign, u: Id)
    requires UserTablesValid(s) && PairOf(s, x, f).Some? && HasPair(s, PairOf(s, x, f).value, u)
    ensures Perform(s, x, f).0 == s
    ensures Perform(s, x, f).1.Issued? <==>
      x.begins && x.commits && x.sessionUsable && CandidateId(Admit(s, x, f).value, f).Ok?
    ensures Perform(s, x, f).1.Issued? ==> Perform(s, x, f).1.subject == u
  {
    AdmittedNames(s, x, f);
    LookupsTellRow(s, u);
    KnownStores(s, Admit(s, x, f).value, f);
    hide Admit, StoreAdmitted, CandidateId, UserTablesValid;
    var (t, outcome) := Perform(s, x, f);
    var p := PairOf(s, x, f).value;
    PerformStores(s, x, f);
    forall v | v in t.users ensures v in s.users {
      if v !in s.users {
        RowsIdentify(t, p, u, p, v);
      }
    }
    assert t.users == s.users;
    if outcome.Issued? {
      RowsIdentify(t, p, u, p, outcome.subject);
    }
  }

  // ---------- looking an issued subject up ----------

  /** No update or deletion of this issuer is asked for. */
  predicate Untouched(actions: seq<Action>, issuer: Id) {
    forall a | a in actions :: !((a.Updating? || a.Deleting?) && a.id == issuer)
  }

  lemma DoKeepsIssuer(s: Store, a: Action, f: Foreign, i: Id)
    requires UserTablesValid(s) && i in s.issuers && !((a.Updating? || a.Deleting?) && a.id == i)
    ensures i in Do(s, a, f).issuers && Do(s, a, f).issuers[i] == s.issuers[i]
  {
    if a.Exchanging? {
      PerformStores(s, a.x, f);
    }
  }

  lemma {:induction false} RunKeepsIssuer(s: Store, actions: seq<Action>, f: Foreign, i: Id)
    requires UserTablesValid(s) && i in s.issuers && Untouched(actions, i)
    ensures i in Run(s, actions, f).issuers && Run(s, actions, f).issuers[i] == s.issuers[i]
    decreases |actions|
  {
    hide UserTablesValid, Do;
    if actions != [] {
      var a, tail := actions[0], actions[1..];
      assert a in actions;
      DoKeepsIssuer(s, a, f, i);
      assert forall b | b in tail :: b in actions;
      RunKeepsIssuer(Do(s, a, f), tail, f, i);
    }
  }

  /** The subject of an issued token leads back to the exchanged issuer and effective subject, and keeps doing so. */
  lemma IssuedLooksUp(s: Store, x: Exchange, actions: seq<Action>, f: Foreign)
    requires UserTablesValid(s) && Perform(s, x, f).1.Issued?
    requires PairOf(s, x, f).Some? ==> Untouched(actions, PairOf(s, x, f).value.issuer)
    ensures PairOf(s, x, f).Some?
    ensures var info := LookupById(Run(Perform(s, x, f).0, actions, f), Perform(s, x, f).1.subject);
            && info.Some? && x.validated.Some?
            && info.value.issuer == x.validated.value.issuer
            && info.value.subject == PairOf(s, x, f).value.sub
  {
    var (t, outcome) := Perform(s, x, f);
    PerformStores(s, x, f);
    var p := PairOf(s, x, f).value;
    assert t.issuers[p.issuer].uri == x.validated.value.issuer;
    hide Perform, UserTablesValid, Run, PairOf;
    RunKeepsRow(t, actions, f, outcome.subject);
    RunKeepsIssuer(t, actions, f, p.issuer);
  }

  // ---------- where rows come from ----------

  /** The exchange is vouched for in this store, and its transaction begins and commits. */
  ghost predicate Vouched(s: Store, x: Exchange, f: Foreign) {
    VouchedFor(s, x, f) && x.begins && x.commits
  }

  /** Action k is a vouched-for exchange whose own pair row `u` has. */
  ghost predicate Introduces(s: Store, actions: seq<Action>, k: nat, f: Foreign, row: User)
    requires UserTablesValid(s) && k < |actions|
  {
    var b := Run(s, actions[..k], f);
    actions[k].Exchanging? && Vouched(b, actions[k].x, f)
    && PairOf(b, actions[k].x, f) == Some(Pair(row.issuer, row.sub))
  }

  lemma OnlyExchangesAddUsers(s: Store, a: Action, f: Foreign, u: Id)
    requires UserTablesValid(s) && u in Do(s, a, f).users && u !in s.users
    ensures a.Exchanging? && Vouched(s, a.x, f)
    ensures var row := Do(s, a, f).users[u];
            PairOf(s, a.x, f) == Some(Pair(row.issuer, row.sub))
  {
    match a {
      case Exchanging(x) =>
        PerformStores(s, x, f);
        AdmittedIff(s, x, f);
      case Creating(_, _, _) =>
      case Updating(_, _, _) =>
      case Deleting(id, _) =>
        DeleteIssuerExact(s, id);
    }
  }

  lemma DoKeepsOrDropsRow(s: Store, a: Action, f: Foreign, u: Id)
    requires UserTablesValid(s) && u in s.users
    ensures u in Do(s, a, f).users ==> Do(s, a, f).users[u] == s.users[u]
  {
    if DeletesIssuer(a, s.users[u].issuer) {
      DeleteIssuerExact(s, a.id);
    } else {
      DoKeepsRow(s, a, f, u);
    }
  }

  lemma IntroducesFirst(s: Store, actions: seq<Action>, f: Foreign, u: Id)
    requires UserTablesValid(s) && actions != [] && u in Do(s, actions[0], f).users && u !in s.users
    ensures Introduces(s, actions, 0, f, Do(s, actions[0], f).users[u])
  {
    hide UserTablesValid, Do, Vouched, PairOf;
    OnlyExchangesAddUsers(s, actions[0], f, u);
    assert actions[..0] == [];
  }

  lemma IntroducesLater(s: Store, actions: seq<Action>, k: nat, f: Foreign, row: User)
    requires UserTablesValid(s) && k + 1 < |actions|
    requires Introduces(Do(s, actions[0], f), actions[1..], k, f, row)
    ensures Introduces(s, actions, k + 1, f, row)
  {
    hide UserTablesValid, Do, Vouched, PairOf;
    var upTo := actions[..k + 1];
    assert upTo[0] == actions[0] && upTo[1..] == actions[1..][..k];
  }

  /** Every user row that a run ends with was there at the start or was introduced by a vouched-for exchange for it. */
  lemma {:induction false} Provenance(s: Store, actions: seq<Action>, f: Foreign, u: Id)
    requires UserTablesValid(s) && u in Run(s, actions, f).users
    ensures var row := Run(s, actions, f).users[u];
            || (u in s.users && s.users[u] == row)
            || exists k | 0 <= k < |actions| :: Introduces(s, actions, k, f, row)
    decreases |actions|
  {
    if actions != [] {
      hide UserTablesValid, Do, Vouched, PairOf, Introduces;
      var a, tail := actions[0], actions[1..];
      var t, row := Do(s, a, f), Run(s, actions, f).users[u];
      Provenance(t, tail, f, u);
      if u in t.users && t.users[u] == row {
        if u in s.users {
          DoKeepsOrDropsRow(s, a, f, u);
        } else {
          IntroducesFirst(s, actions, f, u);
        }
      } else {
        var k :| 0 <= k < |tail| && Introduces(t, tail, k, f, row);
        IntroducesLater(s, actions, k, f, row);
      }
    }
  }

  // ---------- an issuer deleted and created again ----------

  /** A well-formed exchange of a token that carries only issuer and subject, with everything going well. */
  function PlainExchange(uri: Str, sub: Str): Exchange {
    Exchange("t", TOKEN_TYPE_JWT, "", Some(Claims(uri, sub, map[])), true, true, true)
  }

  /** An issuer without conditions; `mappings` is the stored text of its claim mappings. */
  function PlainIssuer(uri: Str, mappings: Str): Issuer {
    Issuer("", "", uri, "", mappings, "")
  }

  /** A first exchange under an issuer that maps nothing creates the generated user. */
  lemma FirstExchange(s: Store, i: Id, uri: Str, mappings: Str, sub: Str, f: Foreign)
    requires uri != [] && sub != [] && s == EMPTY.(issuers := map[i := PlainIssuer(uri, mappings)])
    requires f.mappings(mappings) == Some(map[]) && GenerateSubjectId(f, uri, sub).Ok?
    ensures var id := GenerateSubjectId(f, uri, sub).value;
            && UserTablesValid(s)
            && Perform(s, PlainExchange(uri, sub), f) == (s.(users := map[id := User("", "", sub, i)]), Issued(id, map[]))
            && PairOf(s, PlainExchange(uri, sub), f) == Some(Pair(i, sub))
  {
    var x, claims := PlainExchange(uri, sub), Claims(uri, sub, map[]);
    var none: map<Str, Value> := map[];
    PlainAdmitted(s, i, uri, mappings, map[], none, sub, f);
    PlainPopulates(s, i, uri, sub);
    assert UserByPair(s, i, sub).None?;
    assert OverrideOf(none, uri, f) == Keep;
    hide Admit, Populate, UserTablesValid, OverrideOf, GenerateSubjectId;
    assert none - {SUB_OVERRIDE} == none;
  }

  /** A plain token under a plain issuer is admitted with whatever its mappings evaluate to. */
  lemma PlainAdmitted(s: Store, i: Id, uri: Str, stored: Str, mappings: map<Str, Str>, out: map<Str, Value>,
                      sub: Str, f: Foreign)
    requires uri != [] && sub != []
    requires UserTablesValid(s) && i in s.issuers && s.issuers[i] == PlainIssuer(uri, stored)
    requires f.mappings(stored) == Some(mappings) && SUB !in mappings
    requires Evaluates(mappings, Claims(uri, sub, map[]), f, out)
    ensures IssuerByUri(s, uri) == Some(i)
    ensures Admit(s, PlainExchange(uri, sub), f) == Some(Admitted(Claims(uri, sub, map[]), out))
    ensures EffectiveSubject(Claims(uri, sub, map[]), out) == sub
  {
    var claims := Claims(uri, sub, map[]);
    assert i in s.issuers && s.issuers[i].uri == uri;
    assert EvalAll(mappings, claims, f) == Some(out) by {
      var r := EvalAll(mappings, claims, f);
      assert r.Some?;
      assert r.value == out;
    }
  }

  /** Its user info is parsed from the two claims it has. */
  lemma PlainPopulates(s: Store, i: Id, uri: Str, sub: Str)
    requires UserTablesValid(s) && uri != [] && sub != [] && IssuerByUri(s, uri) == Some(i) && s.users == map[]
    ensures Populate(s, Claims(uri, sub, map[])) == Ok(UserInfo([], [], [], uri, sub))
  {
    var iss: Str, name: Str, email: Str := "iss", "name", "email";
    assert iss != SUB && name != iss && name != SUB && email != iss && email != SUB;
    assert ToMap(Claims(uri, sub, map[])) == map[iss := Text(uri), SUB := Text(sub)];
  }

  /** An issuer row that differs in ID, owner, name or key location only admits the same exchanges alike. */
  lemma AdmitsAlike(s: Store, i: Id, t: Store, j: Id, x: Exchange, f: Foreign)
    requires UserTablesValid(s) && UserTablesValid(t) && x.validated.Some?
    requires IssuerByUri(s, x.validated.value.issuer) == Some(i) && IssuerByUri(t, x.validated.value.issuer) == Some(j)
    requires s.issuers[i].mappings == t.issuers[j].mappings && s.issuers[i].conditions == t.issuers[j].conditions
    ensures Admit(t, x, f) == Admit(s, x, f)
  {
  }

  /** Deleting an issuer and creating one with its URI under another ID: its users are gone, no other is. */
  lemma RecreatedStore(s: Store, i: Id, j: Id, iss: Issuer, env: AdminEnv, f: Foreign)
    requires UserTablesValid(s) && i in s.issuers && j !in s.issuers && env.Smooth() && iss.uri == s.issuers[i].uri
    ensures var t := Run(s, [Deleting(i, env), Creating(j, iss, env)], f);
            && IssuerByUri(t, iss.uri) == Some(j) && t.issuers[j] == iss
            && (forall u | u in t.users :: t.users[u].issuer != j)
            && (forall u :: u in t.users <==> u in s.users && s.users[u].issuer != i)
  {
    var actions := [Deleting(i, env), Creating(j, iss, env)];
    DeleteIssuerExact(s, i);
    var d := DeleteIssuer(s, i).0;
    assert !UriTaken(d, iss.uri, j);
    var t := d.(issuers := d.issuers[j := iss]);
    assert Do(s, actions[0], f) == d && Do(d, actions[1], f) == t;
    assert actions[1..] == [actions[1]] && [actions[1]][1..] == [];
    assert Run(d, [actions[1]], f) == t;
    assert j in t.issuers && t.issuers[j].uri == iss.uri;
  }

  /**
   * What SubjectsIdentify cannot allow is deleting the issuer. Created anew under another ID with the same URI,
   * mappings and conditions, it hands the subject it issued before to a different identity exactly when that subject
   * was the pair's candidate ID and the token can be parsed again, hence always when the first exchange was the
   * pair's first.
   */
  lemma RecreatedIssuerReusesIff(s: Store, x: Exchange, j: Id, iss: Issuer, env: AdminEnv, f: Foreign)
    requires UserTablesValid(s) && Perform(s, x, f).1.Issued? && PairOf(s, x, f).Some? && env.Smooth()
    requires var was := s.issuers[PairOf(s, x, f).value.issuer];
             j !in s.issuers && iss.uri == was.uri && iss.mappings == was.mappings && iss.conditions == was.conditions
    ensures var p, a := PairOf(s, x, f).value, Admit(s, x, f).value;
            var (t, first) := Perform(s, x, f);
            var s' := Run(t, [Deleting(p.issuer, env), Creating(j, iss, env)], f);
            var second := Perform(s', x, f).1;
            && PairOf(s', x, f) == Some(Pair(j, p.sub)) && p.issuer != j
            && (second.Issued? && second.subject == first.subject <==>
                  CandidateId(a, f) == Ok(first.subject) && Parses(a.claims))
            && ((forall u :: !HasPair(s, p, u)) ==> second.Issued? && second.subject == first.subject)
  {
    var p := PairOf(s, x, f).value;
    var (t, first) := Perform(s, x, f);
    var s' := Run(t, [Deleting(p.issuer, env), Creating(j, iss, env)], f);
    PerformStores(s, x, f);
    RecreatedStore(t, p.issuer, j, iss, env, f);
    AdmittedNames(s, x, f);
    AdmitsAlike(s, p.issuer, s', j, x, f);
    assert first.Issued? ==> x.begins && x.commits && x.sessionUsable;
    hide Run, StoreAdmitted, Admit, CandidateId, UserTablesValid, EffectiveSubject, Perform, Parses;
    assert PairOf(s', x, f) == Some(Pair(j, p.sub));
    TakenIdFails(s', x, f);
    if forall u :: !HasPair(s, p, u) {
      TakenIdFails(s, x, f);
    }
  }

  /** A concrete run in which that happens. */
  lemma RecreatedIssuerReusesSubject(i: Id, j: Id, uri: Str, mappings: Str, sub: Str, env: AdminEnv, f: Foreign)
    requires i != j && uri != [] && sub != [] && env.Smooth()
    requires f.mappings(mappings) == Some(map[]) && GenerateSubjectId(f, uri, sub).Ok?
    ensures var iss, x := PlainIssuer(uri, mappings), PlainExchange(uri, sub);
            var s := EMPTY.(issuers := map[i := iss]);
            && UserTablesValid(s)
            && (var (t, first) := Perform(s, x, f);
                var s' := Run(t, [Deleting(i, env), Creating(j, iss, env)], f);
                var second := Perform(s', x, f).1;
                && first.Issued? && second.Issued? && first.subject == second.subject
                && PairOf(s, x, f) == Some(Pair(i, sub)) && PairOf(s', x, f) == Some(Pair(j, sub)))
  {
    var iss, x := PlainIssuer(uri, mappings), PlainExchange(uri, sub);
    var s := EMPTY.(issuers := map[i := iss]);
    FirstExchange(s, i, uri, mappings, sub, f);
    RecreatedIssuerReusesIff(s, x, j, iss, env, f);
    hide Perform, PairOf, GenerateSubjectId, Run, UserTablesValid, Parses, CandidateId;
  }

  // ---------- when an exchange panics ----------

  /** What the issuer's stored mapping for the override claim evaluates to on the token's claims. */
  function OverrideValue(s: Store, claims: Claims, f: Foreign): Option<Value>
    requires UserTablesValid(s)
  {
    var i :- IssuerByUri(s, claims.issuer);
    var mappings :- f.mappings(s.issuers[i].mappings);
    if SUB_OVERRIDE in mappings then f.eval(mappings[SUB_OVERRIDE], claims) else None
  }

  /** The pair has a row, or the claims' name and email can be read. */
  predicate Readable(s: Store, a: Admitted)
    requires UserTablesValid(s)
  {
    || LookupByClaims(s, a.claims.issuer, EffectiveSubject(a.claims, a.mapped)).Some?
    || Parses(a.claims)
  }

  /** Admitted claims have an issuer and an effective subject, and their override claim is the mapping's value. */
  lemma AdmittedOverride(s: Store, x: Exchange, f: Foreign)
    requires UserTablesValid(s) && Admit(s, x, f).Some?
    ensures var a := Admit(s, x, f).value;
            && x.validated == Some(a.claims) && a.claims.issuer != [] && EffectiveSubject(a.claims, a.mapped) != []
            && OverrideValue(s, a.claims, f) == if SUB_OVERRIDE in a.mapped then Some(a.mapped[SUB_OVERRIDE]) else None
  {
    var a := Admit(s, x, f).value;
    var i := IssuerByUri(s, a.claims.issuer).value;
    var mappings := f.mappings(s.issuers[i].mappings).value;
    var out := EvalAll(mappings, a.claims, f).value;
    assert SUB_OVERRIDE != SUB && a.mapped == Normalised(out);
  }

  /**
   * An exchange panics exactly when it is admitted, its transaction begins, its user can be read, and the stored
   * mapping for the override claim evaluates to something other than text. Nothing is committed then.
   */
  lemma PanicsIff(s: Store, x: Exchange, f: Foreign)
    requires UserTablesValid(s)
    ensures Perform(s, x, f).1.Panicked? <==>
      && x.begins && Admit(s, x, f).Some? && Readable(s, Admit(s, x, f).value)
      && OverrideValue(s, x.validated.value, f).Some? && !OverrideValue(s, x.validated.value, f).value.Text?
    ensures Perform(s, x, f).1.Panicked? ==> Perform(s, x, f).0 == s
  {
    if Admit(s, x, f).Some? {
      var a := Admit(s, x, f).value;
      var claims := a.claims.(subject := EffectiveSubject(a.claims, a.mapped));
      AdmittedOverride(s, x, f);
      PopulateOkIff(s, claims);
      if Populate(s, claims).Ok? {
        PopulateSpeaksOfClaims(s, claims);
      }
      hide Admit, Populate, UserTablesValid, OverrideValue, EffectiveSubject, StoreUser, LookupByClaims;
    }
  }

  /** A panic is one of the exits that leave the transaction open; the others are refusals. */
  lemma LeavesOpenMeans(s: Store, x: Exchange, f: Foreign)
    requires UserTablesValid(s) && Admit(s, x, f).Some? && x.begins
    ensures LeavesOpen(s, Admit(s, x, f).value, f) ==>
              Perform(s, x, f).0 == s && (Perform(s, x, f).1.Panicked? || Perform(s, x, f).1.Rejected?)
    ensures Perform(s, x, f).1.Panicked? ==> LeavesOpen(s, Admit(s, x, f).value, f)
    ensures !Readable(s, Admit(s, x, f).value) ==> LeavesOpen(s, Admit(s, x, f).value, f)
  {
    var a := Admit(s, x, f).value;
    AdmittedOverride(s, x, f);
    PopulateOkIff(s, a.claims.(subject := EffectiveSubject(a.claims, a.mapped)));
    hide Admit, Populate, UserTablesValid, OverrideValue, EffectiveSubject, StoreUser, LookupByClaims;
  }

  /** A first token of an issuer whose override mapping yields a value that is not text. */
  lemma OverridePanics(i: Id, uri: Str, stored: Str, expr: Str, v: Value, sub: Str, f: Foreign)
    requires uri != [] && sub != [] && !v.Text?
    requires f.mappings(stored) == Some(map[SUB_OVERRIDE := expr]) && f.eval(expr, Claims(uri, sub, map[])) == Some(v)
    ensures var s := EMPTY.(issuers := map[i := PlainIssuer(uri, stored)]);
            UserTablesValid(s) && Perform(s, PlainExchange(uri, sub), f) == (s, Panicked)
  {
    var s := EMPTY.(issuers := map[i := PlainIssuer(uri, stored)]);
    var mappings := map[SUB_OVERRIDE := expr];
    assert SUB != SUB_OVERRIDE;
    PlainAdmitted(s, i, uri, stored, mappings, map[SUB_OVERRIDE := v], sub, f);
    PanicsIff(s, PlainExchange(uri, sub), f);
    hide Admit, Perform, UserTablesValid;
  }
}
