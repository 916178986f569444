/** What an exchange does, said of the stored issuer row and the token's claims alone. */
module ExchangeLaws {
  import opened Bytes
  import opened Storage
  import opened Identity
  import opened TokenExchange
  import opened ExchangeRuns

  /** Row `i` is the issuer the token names. */
  predicate NamedBy(s: Store, x: Exchange, i: Id) {
    x.validated.Some? && i in s.issuers && s.issuers[i].uri == x.validated.value.issuer
  }

  /** What the stored mapping for a claim evaluates to; none when there is no such mapping or it fails. */
  function MappingValue(iss: Issuer, key: Str, claims: Claims, f: Foreign): Option<Value> {
    var m :- f.mappings(iss.mappings);
    if key in m then f.eval(m[key], claims) else None
  }

  predicate NonEmptyText(v: Option<Value>) {
    v.Some? && v.value.Text? && v.value.text != []
  }

  /** The mapped claims of an admitted exchange are the values of its issuer's stored mappings. */
  lemma AdmittedValues(s: Store, x: Exchange, f: Foreign, i: Id)
    requires UserTablesValid(s) && NamedBy(s, x, i) && Admit(s, x, f).Some?
    ensures var a, claims := Admit(s, x, f).value, x.validated.value;
            && a.claims == claims && IssuerByUri(s, claims.issuer) == Some(i)
            && f.mappings(s.issuers[i].mappings).Some?
            && a.mapped.Keys <= f.mappings(s.issuers[i].mappings).value.Keys
            && (forall key: Str | key != "sub" && key in f.mappings(s.issuers[i].mappings).value ::
                  key in a.mapped && MappingValue(s.issuers[i], key, claims, f) == Some(a.mapped[key]))
            && ("sub" in a.mapped <==> NonEmptyText(MappingValue(s.issuers[i], "sub", claims, f)))
            && ("sub" in a.mapped ==> MappingValue(s.issuers[i], "sub", claims, f) == Some(a.mapped["sub"]))
  {
    var claims := x.validated.value;
    assert IssuerByUri(s, claims.issuer) == Some(i);
    var m := f.mappings(s.issuers[i].mappings).value;
    var out := EvalAll(m, claims, f).value;
    assert Admit(s, x, f).value.mapped == Normalised(out);
  }

  /**
   * The row of an issued subject belongs to the issuer the token names. Its subject is what the stored mapping for
   * "sub" gives, if that is a non-empty text, and the token's own otherwise.
   */
  lemma IssuedRow(s: Store, x: Exchange, f: Foreign, i: Id)
    requires UserTablesValid(s) && NamedBy(s, x, i) && Perform(s, x, f).1.Issued?
    ensures var (t, issued) := Perform(s, x, f);
            var claims, mapped := x.validated.value, MappingValue(s.issuers[i], "sub", x.validated.value, f);
            && issued.subject in t.users
            && t.users[issued.subject].issuer == i
            && t.users[issued.subject].sub == if NonEmptyText(mapped) then mapped.value.text else claims.subject
  {
    PerformStores(s, x, f);
    AdmittedValues(s, x, f, i);
    hide Admit, StoreAdmitted, UserTablesValid, MappingValue;
  }

  /** The ID a new user gets, or none when the override is no text or the text is no identifier. */
  lemma CandidateIs(s: Store, x: Exchange, f: Foreign, i: Id)
    requires UserTablesValid(s) && NamedBy(s, x, i) && Admit(s, x, f).Some?
    ensures var claims := x.validated.value;
            var sub := MappingValue(s.issuers[i], "sub", claims, f);
            var override := MappingValue(s.issuers[i], "identity-api.infratographer.com/sub", claims, f);
            var subject := if NonEmptyText(sub) then sub.value.text else claims.subject;
            var id: Str := if NonEmptyText(override)
                           then "idntusr-" + f.digest(claims.issuer) + "-" + override.value.text
                           else "idntusr-" + f.digest(claims.issuer + subject);
            CandidateId(Admit(s, x, f).value, f) ==
              if (override.Some? ==> override.value.Text?) && f.parsesId(id) then Ok(id) else Err(BadId)
  {
    var claims, a := x.validated.value, Admit(s, x, f).value;
    AdmittedValues(s, x, f, i);
    AdmittedOverride(s, x, f);
    hide Admit, UserTablesValid;
    assert USER_PREFIX + "-" == "idntusr-";
    assert OverrideValue(s, claims, f) == MappingValue(s.issuers[i], SUB_OVERRIDE, claims, f);
    hide MappingValue, OverrideValue;
  }

  /** The extra claims of an issued token: every stored mapping but the override, with its value. */
  lemma IssuedExtra(s: Store, x: Exchange, f: Foreign, i: Id)
    requires UserTablesValid(s) && NamedBy(s, x, i) && Perform(s, x, f).1.Issued?
    ensures f.mappings(s.issuers[i].mappings).Some?
    ensures var extra, m := Perform(s, x, f).1.extra, f.mappings(s.issuers[i].mappings).value;
            var claims := x.validated.value;
            && extra.Keys <= m.Keys
            && (forall key: Str | key in m && key != "sub" && key != "identity-api.infratographer.com/sub" ::
                  key in extra && f.eval(m[key], claims) == Some(extra[key]))
            && "identity-api.infratographer.com/sub" !in extra
            && ("sub" in extra <==> NonEmptyText(MappingValue(s.issuers[i], "sub", claims, f)))
            && ("sub" in extra ==> f.eval(m["sub"], claims) == Some(extra["sub"]))
  {
    AdmittedValues(s, x, f, i);
    var a := Admit(s, x, f).value;
    hide Admit, StoreAdmitted, UserTablesValid;
    assert Perform(s, x, f).1.extra == a.mapped - {SUB_OVERRIDE};
    assert SUB != SUB_OVERRIDE;
  }

  /** The text of an optional claim; absent counts as empty, and nothing but text is read. */
  predicate ReadsAs(claims: Claims, key: Str, text: Str) {
    if key in claims.extra then claims.extra[key] == Text(text) else text == []
  }

  /** User info that is not looked up is what the claims say, each field its own claim. */
  lemma PopulateReads(s: Store, claims: Claims)
    requires UserTablesValid(s) && Populate(s, claims).Ok?
    requires LookupByClaims(s, claims.issuer, claims.subject).None?
    ensures ReadsAs(claims, "name", Populate(s, claims).value.name)
    ensures ReadsAs(claims, "email", Populate(s, claims).value.email)
  {
    var m := ToMap(claims);
    var iss: Str, name: Str, email: Str := "iss", "name", "email";
    assert name != iss && name != SUB && email != iss && email != SUB;
    assert (name in m <==> name in claims.extra) && (name in m ==> m[name] == claims.extra[name]);
    assert (email in m <==> email in claims.extra) && (email in m ==> m[email] == claims.extra[email]);
  }

  /** A row that storing adds holds the token's name and email. */
  lemma AddedRow(s: Store, a: Admitted, f: Foreign)
    requires UserTablesValid(s) && StoreAdmitted(s, a, f).Stored?
    requires StoreAdmitted(s, a, f).user.id !in s.users
    ensures var t, u := StoreAdmitted(s, a, f).view, StoreAdmitted(s, a, f).user.id;
            && u in t.users
            && ReadsAs(a.claims, "name", t.users[u].name) && ReadsAs(a.claims, "email", t.users[u].email)
  {
    var claims := a.claims.(subject := EffectiveSubject(a.claims, a.mapped));
    var ui := Populate(s, claims).value;
    var override := OverrideOf(a.mapped, ui.issuer, f);
    PopulateSpeaksOfClaims(s, claims);
    hide Populate, StoreUser, UserByPair, IssuerByUri, UserTablesValid, OverrideOf, EffectiveSubject;
    StoreUserExact(s, if override.Use? then ui.(id := override.id) else ui, f);
    PopulateReads(s, claims);
  }

  /** Name and email as the token has them, and the subject of IssuedRow. */
  predicate Tells(info: UserInfo, iss: Issuer, claims: Claims, f: Foreign) {
    && ReadsAs(claims, "name", info.name) && ReadsAs(claims, "email", info.email)
    && (var mapped := MappingValue(iss, "sub", claims, f);
        info.subject == if NonEmptyText(mapped) then mapped.value.text else claims.subject)
  }

  /**
   * A user that an exchange creates: whatever runs afterwards, until its issuer is deleted, looking its subject up
   * gives the name and email the token had, and the subject of IssuedRow.
   */
  lemma NewIdentity(s: Store, x: Exchange, f: Foreign, i: Id, actions: seq<Action>)
    requires UserTablesValid(s) && NamedBy(s, x, i) && Perform(s, x, f).1.Issued? && Spares(actions, i)
    requires Perform(s, x, f).1.subject !in s.users
    ensures var (t, issued) := Perform(s, x, f);
            var info := LookupById(Run(t, actions, f), issued.subject);
            && info.Some? && info.value.id == issued.subject
            && Tells(info.value, s.issuers[i], x.validated.value, f)
            && i in Run(t, actions, f).issuers && info.value.issuer == Run(t, actions, f).issuers[i].uri
  {
    var (t, issued) := Perform(s, x, f);
    IssuedRow(s, x, f, i);
    AdmittedValues(s, x, f, i);
    AddedRow(s, Admit(s, x, f).value, f);
    hide Perform, MappingValue, UserTablesValid, ReadsAs, Admit, StoreAdmitted;
    RunKeepsRow(t, actions, f, issued.subject);
    LookupsTellRow(Run(t, actions, f), issued.subject);
  }

  /** The store after an exchange: one new row under a new subject, or the old store under a known one. */
  lemma IssuedStore(s: Store, x: Exchange, f: Foreign)
    requires UserTablesValid(s) && Perform(s, x, f).1.Issued?
    ensures var (t, issued) := Perform(s, x, f);
            && t == s.(users := t.users)
            && t.users.Keys == s.users.Keys + {issued.subject}
            && (forall u | u in s.users :: t.users[u] == s.users[u])
            && (issued.subject in s.users ==> t == s)
  {
    var (t, issued) := Perform(s, x, f);
    PerformStores(s, x, f);
    hide Perform, UserTablesValid, PairOf;
    var p := PairOf(s, x, f).value;
    forall u | u in t.users && u !in s.users ensures u == issued.subject {
      RowsIdentify(t, p, u, p, issued.subject);
    }
    if issued.subject in s.users {
      assert t.users == s.users;
    }
  }

  // ---------- candidate IDs ----------

  /** A digest that keeps texts apart and has one length, as raw Base64 of a SHA-256 hash is taken to. */
  ghost predicate Collisionless(f: Foreign) {
    && (forall a, b :: f.digest(a) == f.digest(b) ==> a == b)
    && (forall a, b :: |f.digest(a)| == |f.digest(b)|)
  }

  function GeneratedId(uri: Str, sub: Str, f: Foreign): Str {
    "idntusr-" + f.digest(uri + sub)
  }

  function OverriddenId(uri: Str, override: Str, f: Foreign): Str {
    "idntusr-" + f.digest(uri) + "-" + override
  }

  /**
   * Which identities share a candidate ID: two generated ones exactly if issuer and subject run together to the same
   * text, two overridden ones exactly for the same issuer and override, and a generated and an overridden one never.
   */
  lemma CandidatesShareIff(f: Foreign, uri: Str, text: Str, uri': Str, text': Str)
    requires Collisionless(f)
    ensures GeneratedId(uri, text, f) == GeneratedId(uri', text', f) <==> uri + text == uri' + text'
    ensures OverriddenId(uri, text, f) == OverriddenId(uri', text', f) <==> uri == uri' && text == text'
    ensures GeneratedId(uri, text, f) != OverriddenId(uri', text', f)
  {
    var prefix: Str := "idntusr-";
    SuffixesAgree(prefix, f.digest(uri + text), f.digest(uri' + text'));
    var d, d' := f.digest(uri), f.digest(uri');
    assert |d| == |d'|;
    var o, o' := OverriddenId(uri, text, f), OverriddenId(uri', text', f);
    assert o[|prefix|..|prefix| + |d|] == d && o'[|prefix|..|prefix| + |d|] == d';
    assert o[|prefix| + |d| + 1..] == text && o'[|prefix| + |d| + 1..] == text';
    assert |GeneratedId(uri, text, f)| == |prefix| + |d'|;
  }

  lemma SuffixesAgree(prefix: Str, a: Str, b: Str)
    ensures prefix + a == prefix + b <==> a == b
  {
    assert (prefix + a)[|prefix|..] == a && (prefix + b)[|prefix|..] == b;
  }

  /**
   * An identity whose candidate ID another one already has is locked out: through every run that spares the other's
   * issuer its exchanges issue nothing and store nothing.
   */
  lemma SharedCandidateLocksOut(s: Store, x: Exchange, between: seq<Action>, y: Exchange, f: Foreign)
    requires UserTablesValid(s) && Perform(s, x, f).1.Issued?
    requires PairOf(s, x, f).Some? && Spares(between, PairOf(s, x, f).value.issuer)
    ensures var (t, first) := Perform(s, x, f);
            var s' := Run(t, between, f);
            PairOf(s', y, f).Some? && CandidateId(Admit(s', y, f).value, f) == Ok(first.subject)
            && (forall u :: !HasPair(s', PairOf(s', y, f).value, u)) ==>
              Perform(s', y, f).0 == s' && !Perform(s', y, f).1.Issued?
  {
    var (t, first) := Perform(s, x, f);
    var s' := Run(t, between, f);
    PerformStores(s, x, f);
    hide Perform, UserTablesValid, Run, PairOf, CandidateId, Admit;
    RunKeepsRow(t, between, f, first.subject);
    if PairOf(s', y, f).Some? && (forall u :: !HasPair(s', PairOf(s', y, f).value, u)) {
      TakenIdFails(s', y, f);
    }
  }

  /** A plain token under a plain issuer without mappings: its candidate ID is generated from issuer and subject. */
  lemma PlainCandidate(s: Store, i: Id, uri: Str, stored: Str, sub: Str, f: Foreign)
    requires uri != [] && sub != [] && UserTablesValid(s) && i in s.issuers && s.issuers[i] == PlainIssuer(uri, stored)
    requires f.mappings(stored) == Some(map[])
    ensures var x := PlainExchange(uri, sub);
            && PairOf(s, x, f) == Some(Pair(i, sub)) && Parses(Admit(s, x, f).value.claims)
            && CandidateId(Admit(s, x, f).value, f) == GenerateSubjectId(f, uri, sub)
  {
    PlainAdmitted(s, i, uri, stored, map[], map[], sub, f);
    hide Admit, UserTablesValid;
  }

  /**
   * Concatenation forgets where the issuer ends: of two such identities either one is served alone, and whichever
   * comes second is refused.
   */
  lemma ConcatenationLocksOut(i: Id, j: Id, uri: Str, mid: Str, rest: Str, stored: Str, f: Foreign)
    requires i != j && uri != [] && mid != [] && rest != []
    requires f.mappings(stored) == Some(map[]) && GenerateSubjectId(f, uri, mid + rest).Ok?
    ensures var s := EMPTY.(issuers := map[i := PlainIssuer(uri, stored), j := PlainIssuer(uri + mid, stored)]);
            var x, y := PlainExchange(uri, mid + rest), PlainExchange(uri + mid, rest);
            && UserTablesValid(s)
            && Perform(s, x, f).1.Issued? && Perform(s, y, f).1.Issued?
            && PairOf(s, x, f) != PairOf(s, y, f)
            && !Perform(Perform(s, x, f).0, y, f).1.Issued? && !Perform(Perform(s, y, f).0, x, f).1.Issued?
  {
    var s := EMPTY.(issuers := map[i := PlainIssuer(uri, stored), j := PlainIssuer(uri + mid, stored)]);
    var x, y := PlainExchange(uri, mid + rest), PlainExchange(uri + mid, rest);
    assert uri != uri + mid;
    assert uri + (mid + rest) == (uri + mid) + rest;
    assert UserTablesValid(s);
    PlainCandidate(s, i, uri, stored, mid + rest, f);
    PlainCandidate(s, j, uri + mid, stored, rest, f);
    hide UserTablesValid, Admit, CandidateId, PairOf, Perform;
    assert GenerateSubjectId(f, uri, mid + rest) == GenerateSubjectId(f, uri + mid, rest);
    TakenIdFails(s, x, f);
    TakenIdFails(s, y, f);
    SecondIsRefused(s, x, y, i, j, uri, mid + rest, uri + mid, rest, stored, f);
    SecondIsRefused(s, y, x, j, i, uri + mid, rest, uri, mid + rest, stored, f);
  }

  lemma SecondIsRefused(s: Store, x: Exchange, y: Exchange, i: Id, j: Id, uri: Str, sub: Str, uri': Str, sub': Str,
                        stored: Str, f: Foreign)
    requires UserTablesValid(s) && s.users == map[] && i != j && i in s.issuers && j in s.issuers
    requires uri != [] && sub != [] && uri' != [] && sub' != [] && f.mappings(stored) == Some(map[])
    requires s.issuers[i] == PlainIssuer(uri, stored) && s.issuers[j] == PlainIssuer(uri', stored)
    requires x == PlainExchange(uri, sub) && y == PlainExchange(uri', sub') && Perform(s, x, f).1.Issued?
    requires GenerateSubjectId(f, uri, sub) == GenerateSubjectId(f, uri', sub')
    ensures !Perform(Perform(s, x, f).0, y, f).1.Issued?
  {
    var (t, first) := Perform(s, x, f);
    PerformStores(s, x, f);
    IssuedStore(s, x, f);
    PlainCandidate(s, i, uri, stored, sub, f);
    PlainCandidate(t, j, uri', stored, sub', f);
    hide UserTablesValid, Admit, CandidateId, PairOf, Perform, GenerateSubjectId;
    TakenIdFails(s, x, f);
    assert Run(t, [], f) == t;
    SharedCandidateLocksOut(s, x, [], y, f);
  }

  // ---------- exits that leave the transaction open ----------

  /**
   * An admitted exchange leaves its transaction open exactly when its user has no row and a name or email that is no
   * text, when the stored override mapping gives no text, or when it gives a text that makes no identifier.
   */
  lemma LeavesOpenIff(s: Store, x: Exchange, f: Foreign, i: Id)
    requires UserTablesValid(s) && NamedBy(s, x, i) && Admit(s, x, f).Some?
    ensures var claims := x.validated.value;
            var sub := MappingValue(s.issuers[i], "sub", claims, f);
            var override := MappingValue(s.issuers[i], "identity-api.infratographer.com/sub", claims, f);
            var subject := if NonEmptyText(sub) then sub.value.text else claims.subject;
            LeavesOpen(s, Admit(s, x, f).value, f) <==>
              || ((forall u :: !HasPair(s, Pair(i, subject), u))
                  && !(TextOrAbsent(claims, "name") && TextOrAbsent(claims, "email")))
              || (override.Some? && !override.value.Text?)
              || (NonEmptyText(override)
                  && !f.parsesId("idntusr-" + f.digest(claims.issuer) + "-" + override.value.text))
  {
    var a := Admit(s, x, f).value;
    var claims := a.claims.(subject := EffectiveSubject(a.claims, a.mapped));
    AdmittedValues(s, x, f, i);
    AdmittedOverride(s, x, f);
    PopulateOkIff(s, claims);
    if Populate(s, claims).Ok? {
      PopulateSpeaksOfClaims(s, claims);
    }
    assert OverrideValue(s, a.claims, f) == MappingValue(s.issuers[i], SUB_OVERRIDE, a.claims, f);
    assert USER_PREFIX + "-" == "idntusr-";
    var row := UserByPair(s, i, claims.subject);
    assert row.Some? ==> HasPair(s, Pair(i, claims.subject), row.value);
    hide Admit, Populate, UserTablesValid, OverrideValue, MappingValue, IssuerByUri, UserByPair, StoreUser;
  }

  // ---------- issuer operations in a run ----------

  /** An issuer operation in a run changes the store exactly when its request goes well and the table allows it. */
  lemma AdministrationLaw(s: Store, a: Action, f: Foreign)
    requires UserTablesValid(s) && !a.Exchanging?
    ensures var t, changes := Do(s, a, f),
              a.env.Smooth() &&
              match a
              case Creating(id, iss, _) => id !in s.issuers && forall j | j in s.issuers :: s.issuers[j].uri != iss.uri
              case Updating(id, update, _) =>
                && id in s.issuers && update.SomeField()
                && (update.uri.Some? ==> forall j | j in s.issuers && j != id :: s.issuers[j].uri != update.uri.value)
              case Deleting(id, _) => id in s.issuers;
            if !changes then t == s
            else
              && t.issuers.Keys == (if a.Deleting? then s.issuers.Keys - {a.id} else s.issuers.Keys + {a.id})
              && (forall j | j in s.issuers && j != a.id :: t.issuers[j] == s.issuers[j])
              && (a.Creating? ==> t.issuers[a.id] == a.issuer)
              && (a.Updating? ==> t.issuers[a.id] == a.update.Apply(s.issuers[a.id]))
              && (a.Deleting? ==> forall u :: u in t.users <==> u in s.users && s.users[u].issuer != a.id)
              && (!a.Deleting? ==> t.users == s.users)
              && t.groups == s.groups && t.members == s.members
  {
    hide Perform, UriTaken;
    match a {
      case Creating(id, iss, _) => InsertIssuerIff(s, id, iss);
      case Updating(id, update, _) => UpdateIssuerIff(s, id, update);
      case Deleting(id, _) => DeleteIssuerExact(s, id);
    }
  }
}
