/** The issuer table behind a transaction (internal/storage/issuer.go). */
module IssuerAdministration {
  import opened Bytes
  import opened Storage
  import opened Identity
  import opened IssuerUpdates
  import opened Select
  import Sql

  /** What the statement's row says, read back as scanIssuer does. */
  function FromRow(row: map<string, Str>): Issuer
    requires forall c | c in COLUMNS :: c in row
  {
    assert "owner_id" in COLUMNS && "name" in COLUMNS && "uri" in COLUMNS && "jwksuri" in COLUMNS;
    assert "mappings" in COLUMNS && "conditions" in COLUMNS;
    Issuer(row["owner_id"], row["name"], row["uri"], row["jwksuri"], row["mappings"], row["conditions"])
  }

  lemma RowRoundTrip(id: Id, iss: Issuer)
    ensures (forall c | c in COLUMNS :: c in ToRow(id, iss)) && FromRow(ToRow(id, iss)) == iss
  {
  }

  /** The database reads an UPDATE of issuers, picks the row, writes it, and returns it. */
  function Execute(s: Store, query: string, args: seq<Str>): IdentityResult<(Store, Issuer)> {
    match Sql.Lex(query)
    case None => Err(Syntax)
    case Some(tokens) =>
      match ParseUpdate(tokens)
      case None => Err(Syntax)
      case Some(u) =>
        if !Bound(u.whereParam, args) || exists a | a in u.sets :: !Bound(a.param, args) then Err(Syntax)
        else
          var id := args[u.whereParam - 1];
          if id !in s.issuers then Err(IssuerNotFound)
          else
            var row := Exec(u.sets, args, ToRow(id, s.issuers[id]));
            if exists c | c in COLUMNS :: c !in row then Err(Syntax)
            else
              var iss := FromRow(row);
              if UriTaken(s, iss.uri, id) then Err(Duplicate)
              else Ok((s.(issuers := s.issuers[id := iss]), iss))
  }

  /** Executing the printed statement with its arguments is the record update; without a field it is a syntax error. */
  lemma PrintedUpdateExecutes(s: Store, id: Id, update: IssuerUpdate)
    ensures var executed := Execute(s, UpdateText(Bindings(update)), Arguments(Bindings(update)) + [id]);
            if !update.SomeField() then executed == Err(Syntax)
            else
              match UpdateIssuer(s, id, update)
              case Ok(t) => executed == Ok((t, t.issuers[id]))
              case Err(e) => executed == Err(e)
  {
    hide Sql.Lex, ParseUpdate, UpdateText, Bindings, Exec, ToRow, FromRow, UriTaken, COLUMNS;
    var iss := if id in s.issuers then s.issuers[id] else Issuer([], [], [], [], [], []);
    PrintedUpdateIsRecordUpdate(update, id, iss);
    RowRoundTrip(id, update.Apply(iss));
  }

  /** All of a list of issuers inserted, or nothing. */
  function InsertAll(s: Store, seeds: seq<(Id, Issuer)>): IdentityResult<Store>
    decreases |seeds|
  {
    if seeds == [] then Ok(s)
    else
      match InsertIssuer(s, seeds[0].0, seeds[0].1)
      case Err(e) => Err(e)
      case Ok(t) => InsertAll(t, seeds[1..])
  }

  lemma {:induction false} InsertAllHolds(s: Store, seeds: seq<(Id, Issuer)>)
    requires UserTablesValid(s) && InsertAll(s, seeds).Ok?
    ensures UserTablesValid(InsertAll(s, seeds).value)
    ensures forall i | i in s.issuers :: i in InsertAll(s, seeds).value.issuers
                                         && InsertAll(s, seeds).value.issuers[i] == s.issuers[i]
    ensures forall seed | seed in seeds :: seed.0 in InsertAll(s, seeds).value.issuers
                                           && InsertAll(s, seeds).value.issuers[seed.0] == seed.1
    ensures forall i | i in InsertAll(s, seeds).value.issuers :: i in s.issuers || exists seed | seed in seeds :: seed.0 == i
    decreases |seeds|
  {
    if seeds != [] {
      InsertAllHolds(InsertIssuer(s, seeds[0].0, seeds[0].1).value, seeds[1..]);
      assert seeds == [seeds[0]] + seeds[1..];
    }
  }

  /** Neither ID nor URI is in the table. */
  predicate Free(s: Store, seed: (Id, Issuer)) {
    seed.0 !in s.issuers && forall j | j in s.issuers :: s.issuers[j].uri != seed.1.uri
  }

  predicate Apart(a: (Id, Issuer), b: (Id, Issuer)) {
    a.0 != b.0 && a.1.uri != b.1.uri
  }

  lemma FreeAfter(s: Store, first: (Id, Issuer), seed: (Id, Issuer))
    requires UserTablesValid(s) && InsertIssuer(s, first.0, first.1).Ok?
    ensures Free(InsertIssuer(s, first.0, first.1).value, seed) <==> Free(s, seed) && Apart(first, seed)
  {
    var t := InsertIssuer(s, first.0, first.1).value;
    assert t.issuers[first.0] == first.1;
    if Free(t, seed) {
      forall j | j in s.issuers ensures s.issuers[j].uri != seed.1.uri {
        assert j in t.issuers && t.issuers[j] == s.issuers[j];
      }
    }
  }

  /** Seeding goes through exactly if every seed is new to the table and no two share an ID or a URI. */
  lemma {:induction false} SeedsAcceptedIff(s: Store, seeds: seq<(Id, Issuer)>)
    requires UserTablesValid(s)
    ensures InsertAll(s, seeds).Ok? <==>
      && (forall k | 0 <= k < |seeds| :: Free(s, seeds[k]))
      && (forall k, l | 0 <= k < l < |seeds| :: Apart(seeds[k], seeds[l]))
    decreases |seeds|
  {
    if seeds != [] {
      var first, tail := seeds[0], seeds[1..];
      InsertIssuerIff(s, first.0, first.1);
      if Free(s, first) {
        var t := InsertIssuer(s, first.0, first.1).value;
        SeedsAcceptedIff(t, tail);
        hide Free, Apart, InsertIssuer, UserTablesValid;
        forall k | 0 <= k < |tail| ensures Free(t, tail[k]) <==> Free(s, seeds[k + 1]) && Apart(seeds[0], seeds[k + 1]) {
          FreeAfter(s, first, tail[k]);
        }
        if InsertAll(t, tail).Ok? {
          forall k | 0 <= k < |seeds| ensures Free(s, seeds[k]) {
            assert k > 0 ==> Free(t, tail[k - 1]);
          }
          forall k, l | 0 <= k < l < |seeds| ensures Apart(seeds[k], seeds[l]) {
            assert Free(t, tail[l - 1]);
            assert k > 0 ==> Apart(tail[k - 1], tail[l - 1]);
          }
        }
      }
    }
  }

  class IssuerService {
    const db: Database

    constructor (db: Database)
      ensures this.db == db
    {
      this.db := db;
    }

    method CreateIssuer(id: Id, iss: Issuer) returns (r: IdentityResult<()>)
      modifies db`tx
      ensures !old(db.tx).Open? ==> r == Err(MissingTx) && db.tx == old(db.tx)
      ensures old(db.tx).Open? ==>
                match InsertIssuer(old(db.tx).view, id, iss)
                case Ok(s) => r == Ok(()) && db.tx == Open(s)
                case Err(e) => r == Err(e) && db.tx == old(db.tx)
    {
      if !db.tx.Open? {
        return Err(MissingTx);
      }
      var inserted := InsertIssuer(db.tx.view, id, iss);
      if inserted.Err? {
        return Err(inserted.error);
      }
      db.tx := Open(inserted.value);
      r := Ok(());
    }

    /** Prints the statement, binds its arguments by position, and lets the database read and run it. */
    method UpdateIssuer(id: Id, update: IssuerUpdate) returns (r: IdentityResult<Issuer>)
      modifies db`tx
      ensures !old(db.tx).Open? ==> r == Err(MissingTx) && db.tx == old(db.tx)
      ensures old(db.tx).Open? && !update.SomeField() ==> r == Err(Syntax) && db.tx == old(db.tx)
      ensures old(db.tx).Open? && update.SomeField() ==>
                match Identity.UpdateIssuer(old(db.tx).view, id, update)
                case Ok(s) => r == Ok(s.issuers[id]) && db.tx == Open(s)
                case Err(e) => r == Err(e) && db.tx == old(db.tx)
    {
      hide Execute, UpdateText, Bindings, WhereIdText, Identity.UpdateIssuer;
      if !db.tx.Open? {
        return Err(MissingTx);
      }
      var view := db.tx.view;
      var bindings := Bindings(update);
      var params, args := ColBindingsToParams(bindings);
      var query := "UPDATE issuers SET " + params + " " + WhereIdText(|args| + 1);
      QueryIsUpdateText(bindings, params);
      args := args + [id];
      PrintedUpdateExecutes(view, id, update);
      var executed := Execute(view, query, args);
      if executed.Err? {
        return Err(executed.error);
      }
      var (updated, row) := executed.value;
      db.tx := Open(updated);
      r := Ok(row);
    }

    method DeleteIssuer(id: Id) returns (r: IdentityResult<()>)
      modifies db`tx
      ensures !old(db.tx).Open? ==> r == Err(MissingTx) && db.tx == old(db.tx)
      ensures old(db.tx).Open? ==> (db.tx, r) == (Open(Identity.DeleteIssuer(old(db.tx).view, id).0),
                                                  Identity.DeleteIssuer(old(db.tx).view, id).1)
    {
      if !db.tx.Open? {
        return Err(MissingTx);
      }
      db.tx := Open(DeleteUsers(db.tx.view, id));
      var view := db.tx.view;
      var rowsAffected := if id in view.issuers then 1 else 0;
      db.tx := Open(view.(issuers := view.issuers - {id}));
      if rowsAffected == 0 {
        assert view.issuers - {id} == view.issuers;
        return Err(IssuerNotFound);
      }
      r := Ok(());
    }

    /** Seeding inserts every issuer or none; an error part way leaves the transaction open and uncommitted. */
    method SeedDatabase(seeds: seq<(Id, Issuer)>, begins: bool, commits: bool) returns (err: bool)
      modifies db
      ensures err <==> !(begins && commits && InsertAll(old(db.committed), seeds).Ok?)
      ensures db.committed == if err then old(db.committed) else InsertAll(old(db.committed), seeds).value
    {
      err := db.BeginContext(begins);
      if err {
        return;
      }
      for i := 0 to |seeds|
        invariant db.tx.Open? && db.committed == old(db.committed)
        invariant InsertAll(db.tx.view, seeds[i..]) == InsertAll(old(db.committed), seeds)
      {
        assert seeds[i..][0] == seeds[i] && seeds[i..][1..] == seeds[i + 1..];
        var r := CreateIssuer(seeds[i].0, seeds[i].1);
        if r.Err? {
          return true;
        }
      }
      err := db.CommitContext(commits);
    }
  }

  lemma QueryIsUpdateText(bs: seq<ColBinding>, params: string)
    requires params == Sql.Join(BindingTexts(bs), ", ")
    ensures "UPDATE issuers SET " + params + " " + WhereIdText(|Arguments(bs)| + 1) == UpdateText(bs)
  {
  }
}
