/** The printed UPDATE of an issuer and its positional arguments (internal/storage/query.go). */
module IssuerUpdates {
  import opened Bytes
  import opened Storage
  import opened Identity
  import opened Sql
  import opened Select

  datatype ColBinding = ColBinding(column: string, value: Str)

  /** One `column = $param`. */
  datatype Assignment = Assignment(column: string, param: nat)

  datatype UpdateStatement = UpdateStatement(
    table: string, sets: seq<Assignment>, whereColumn: string, whereParam: nat, returning: seq<string>)

  const COLUMNS := ["owner_id", "id", "name", "uri", "jwksuri", "mappings", "conditions"]

  // ---------- printing ----------

  function BindIfNotNil(bindings: seq<ColBinding>, column: string, value: Option<Str>): seq<ColBinding> {
    if value.Some? then bindings + [ColBinding(column, value.value)] else bindings
  }

  function Bindings(u: IssuerUpdate): seq<ColBinding> {
    var b1 := BindIfNotNil([], "name", u.name);
    var b2 := BindIfNotNil(b1, "uri", u.uri);
    var b3 := BindIfNotNil(b2, "jwksuri", u.jwksUri);
    var b4 := BindIfNotNil(b3, "mappings", u.mappings);
    BindIfNotNil(b4, "conditions", u.conditions)
  }

  function BindingText(b: ColBinding, n: nat): string {
    b.column + " = " + "$" + Itoa(n)
  }

  function BindingTexts(bs: seq<ColBinding>): seq<string> {
    seq(|bs|, i requires 0 <= i < |bs| => BindingText(bs[i], i + 1))
  }

  function Arguments(bs: seq<ColBinding>): seq<Str> {
    seq(|bs|, i requires 0 <= i < |bs| => bs[i].value)
  }

  method ColBindingsToParams(bs: seq<ColBinding>) returns (params: string, args: seq<Str>)
    ensures params == Join(BindingTexts(bs), ", ") && args == Arguments(bs)
  {
    var bindingStrs := new string[|bs|](_ => "");
    var values := new Str[|bs|](_ => []);
    for i := 0 to |bs|
      invariant forall k | 0 <= k < i :: bindingStrs[k] == BindingTexts(bs)[k]
      invariant forall k | 0 <= k < i :: values[k] == bs[k].value
    {
      bindingStrs[i] := bs[i].column + " = " + "$" + Itoa(i + 1);
      values[i] := bs[i].value;
    }
    assert bindingStrs[..] == BindingTexts(bs);
    params := Join(bindingStrs[..], ", ");
    args := values[..];
  }

  function WhereIdText(n: nat): string {
    "WHERE id = " + "$" + Itoa(n) + " RETURNING " + Join(COLUMNS, ", ")
  }

  /** The statement, and the arguments bound to it: the values, then the row ID. */
  function UpdateText(bs: seq<ColBinding>): string {
    "UPDATE issuers SET " + (Join(BindingTexts(bs), ", ") + " " + WhereIdText(|bs| + 1))
  }

  // ---------- reading ----------

  function ParseSets(ts: seq<Token>): Option<(seq<Assignment>, seq<Token>)>
    decreases |ts|
  {
    if |ts| < 3 || !ts[0].Word? || ts[1] != Punct('=') || !ts[2].Param? then None
    else
      var first := Assignment(ts[0].name, ts[2].index);
      if |ts| > 3 && ts[3] == Punct(',') then
        var (more, rest) :- ParseSets(ts[4..]);
        Some(([first] + more, rest))
      else Some(([first], ts[3..]))
  }

  function ParseUpdateWhere(table: string, sets: seq<Assignment>, ts: seq<Token>): Option<UpdateStatement> {
    if |ts| < 5 || ts[0] != Word("WHERE") || !ts[1].Word? || ts[2] != Punct('=') || !ts[3].Param?
       || ts[4] != Word("RETURNING") then None
    else
      var (columns, rest) :- ParseColumns(ts[5..]);
      if rest == [] then Some(UpdateStatement(table, sets, ts[1].name, ts[3].index, columns)) else None
  }

  function ParseUpdate(ts: seq<Token>): Option<UpdateStatement> {
    if |ts| < 3 || ts[0] != Word("UPDATE") || !ts[1].Word? || ts[2] != Word("SET") then None
    else
      var (sets, rest) :- ParseSets(ts[3..]);
      ParseUpdateWhere(ts[1].name, sets, rest)
  }

  /** Carrying an update out on one row. */
  function Exec(sets: seq<Assignment>, args: seq<Str>, row: Row): Row
    requires forall a | a in sets :: Bound(a.param, args)
  {
    if sets == [] then row
    else
      var last := sets[|sets| - 1];
      assert last in sets && Bound(last.param, args);
      Exec(sets[..|sets| - 1], args, row)[last.column := args[last.param - 1]]
  }

  function ToRow(id: Id, iss: Issuer): Row {
    map["owner_id" := iss.owner, "id" := id, "name" := iss.name, "uri" := iss.uri, "jwksuri" := iss.jwksUri,
        "mappings" := iss.mappings, "conditions" := iss.conditions]
  }

  // ---------- the text reads back ----------

  function SetTokens(b: ColBinding, n: nat): seq<Token> {
    [Word(b.column), Punct('='), Param(n)]
  }

  function SetsTokens(bs: seq<ColBinding>, from: nat): seq<Token> {
    if bs == [] then []
    else if |bs| == 1 then SetTokens(bs[0], from)
    else SetTokens(bs[0], from) + [Punct(',')] + SetsTokens(bs[1..], from + 1)
  }

  function Assignments(bs: seq<ColBinding>, from: nat): seq<Assignment> {
    seq(|bs|, i requires 0 <= i < |bs| => Assignment(bs[i].column, i + from))
  }

  function WhereIdTokens(n: nat): seq<Token> {
    [Word("WHERE"), Word("id"), Punct('='), Param(n), Word("RETURNING")] + ColumnsTokens(COLUMNS)
  }

  function UpdateTokens(bs: seq<ColBinding>): seq<Token> {
    [Word("UPDATE"), Word("issuers"), Word("SET")] + (SetsTokens(bs, 1) + WhereIdTokens(|bs| + 1))
  }

  lemma BindingLexes(b: ColBinding, n: nat)
    requires IsWord(b.column)
    ensures LexesTo(BindingText(b, n), SetTokens(b, n))
  {
    hide Lex, LexesTo, Itoa;
    var param := "$" + Itoa(n);
    NumberLexes(n);
    PunctLexes('=');
    assert ['='] == "=";
    WordLexes(b.column);
    PieceThen("=", [Punct('=')], param, [Param(n)]);
    PieceThen(b.column, [Word(b.column)], "=" + " " + param, [Punct('=')] + [Param(n)]);
    assert BindingText(b, n) == b.column + " " + ("=" + " " + param);
    assert SetTokens(b, n) == [Word(b.column)] + ([Punct('=')] + [Param(n)]);
  }

  lemma {:induction false} JoinedSets(bs: seq<ColBinding>, from: nat)
    ensures JoinTokens(seq(|bs|, i requires 0 <= i < |bs| => SetTokens(bs[i], i + from)), [Punct(',')])
         == SetsTokens(bs, from)
  {
    var tss := seq(|bs|, i requires 0 <= i < |bs| => SetTokens(bs[i], i + from));
    if |bs| > 1 {
      var tail := bs[1..];
      assert tss[1..] == seq(|tail|, i requires 0 <= i < |tail| => SetTokens(tail[i], i + (from + 1)));
      JoinedSets(tail, from + 1);
    }
  }

  lemma SetsLex(bs: seq<ColBinding>)
    requires forall b | b in bs :: IsWord(b.column)
    ensures LexesTo(Join(BindingTexts(bs), ", "), SetsTokens(bs, 1))
  {
    hide Lex, LexesTo;
    var texts := BindingTexts(bs);
    var tss := seq(|bs|, i requires 0 <= i < |bs| => SetTokens(bs[i], i + 1));
    forall i | 0 <= i < |texts| ensures LexesTo(texts[i], tss[i]) {
      BindingLexes(bs[i], i + 1);
    }
    CommaSeparates();
    JoinLexes(texts, tss, ", ", [Punct(',')]);
    JoinedSets(bs, 1);
  }

  lemma SetsSplit(bs: seq<ColBinding>, from: nat, rest: seq<Token>)
    requires |bs| > 1
    ensures SetsTokens(bs, from) + rest
         == SetTokens(bs[0], from) + ([Punct(',')] + (SetsTokens(bs[1..], from + 1) + rest))
    ensures Assignments(bs, from) == [Assignment(bs[0].column, from)] + Assignments(bs[1..], from + 1)
  {
    hide SetTokens;
  }

  lemma {:induction false} ParseSetsReads(bs: seq<ColBinding>, from: nat, rest: seq<Token>)
    requires bs != [] && (rest == [] || rest[0] != Punct(','))
    ensures ParseSets(SetsTokens(bs, from) + rest) == Some((Assignments(bs, from), rest))
    decreases |bs|
  {
    hide ParseSets;
    if |bs| == 1 {
      ParseSetsStep(bs[0], from, rest);
      assert Assignments(bs, from) == [Assignment(bs[0].column, from)];
    } else {
      hide SetTokens, SetsTokens, Assignments;
      ParseSetsReads(bs[1..], from + 1, rest);
      ParseSetsStep(bs[0], from, SetsTokens(bs[1..], from + 1) + rest);
      SetsSplit(bs, from, rest);
    }
  }

  lemma ParseSetsStep(b: ColBinding, n: nat, tail: seq<Token>)
    ensures tail == [] || tail[0] != Punct(',') ==>
              ParseSets(SetTokens(b, n) + tail) == Some(([Assignment(b.column, n)], tail))
    ensures ParseSets(tail).Some? ==>
              ParseSets(SetTokens(b, n) + ([Punct(',')] + tail)) ==
                Some(([Assignment(b.column, n)] + ParseSets(tail).value.0, ParseSets(tail).value.1))
  {
    assert (SetTokens(b, n) + tail)[3..] == tail;
    assert (SetTokens(b, n) + ([Punct(',')] + tail))[4..] == tail;
  }

  lemma ColumnsAreWords()
    ensures forall c | c in COLUMNS :: IsWord(c)
    ensures IsWord("issuers") && IsWord("SET") && IsWord("UPDATE") && IsWord("WHERE") && IsWord("RETURNING")
    ensures IsWord("id")
  {
    assert IsWord("owner_id") && IsWord("id") && IsWord("name") && IsWord("uri");
    assert IsWord("jwksuri") && IsWord("mappings") && IsWord("conditions");
    hide IsWord;
  }

  lemma ReturningLexes(n: nat)
    ensures LexesTo("$" + Itoa(n) + " RETURNING " + Join(COLUMNS, ", "),
                    [Param(n), Word("RETURNING")] + ColumnsTokens(COLUMNS))
  {
    ColumnsAreWords();
    hide Lex, LexesTo, Itoa, IsWord, ColumnsTokens;
    var list, listTs, param := Join(COLUMNS, ", "), ColumnsTokens(COLUMNS), "$" + Itoa(n);
    ColumnsLexes(COLUMNS);
    hide Join;
    KeywordThen("RETURNING", list, listTs);
    NumberLexes(n);
    PieceThen(param, [Param(n)], "RETURNING" + " " + list, [Word("RETURNING")] + listTs);
    assert param + " RETURNING " + list == param + " " + ("RETURNING" + " " + list);
    assert [Param(n), Word("RETURNING")] + listTs == [Param(n)] + ([Word("RETURNING")] + listTs);
  }

  lemma WhereIdLexes(n: nat)
    ensures LexesTo(WhereIdText(n), WhereIdTokens(n))
  {
    ColumnsAreWords();
    ReturningLexes(n);
    hide Lex, LexesTo, Itoa, IsWord, ColumnsTokens, Join;
    var rest := "$" + Itoa(n) + " RETURNING " + Join(COLUMNS, ", ");
    var ts := [Param(n), Word("RETURNING")] + ColumnsTokens(COLUMNS);
    PunctLexes('=');
    assert ['='] == "=";
    PieceThen("=", [Punct('=')], rest, ts);
    KeywordThen("id", "=" + " " + rest, [Punct('=')] + ts);
    KeywordThen("WHERE", "id" + " " + ("=" + " " + rest), [Word("id")] + ([Punct('=')] + ts));
    assert WhereIdText(n) == "WHERE" + " " + ("id" + " " + ("=" + " " + rest));
    assert WhereIdTokens(n) == [Word("WHERE")] + ([Word("id")] + ([Punct('=')] + ts));
  }

  lemma UpdatePrefix(rest: string)
    ensures "UPDATE issuers SET " + rest == "UPDATE" + " " + ("issuers" + " " + ("SET" + " " + rest))
  {
    assert "UPDATE issuers SET " == "UPDATE" + " " + "issuers" + " " + "SET" + " ";
  }

  lemma UpdateHead(rest: string, ts: seq<Token>)
    requires LexesTo(rest, ts)
    ensures LexesTo("UPDATE issuers SET " + rest, [Word("UPDATE"), Word("issuers"), Word("SET")] + ts)
  {
    ColumnsAreWords();
    hide Lex, LexesTo, IsWord;
    KeywordThen("SET", rest, ts);
    KeywordThen("issuers", "SET" + " " + rest, [Word("SET")] + ts);
    KeywordThen("UPDATE", "issuers" + " " + ("SET" + " " + rest), [Word("issuers")] + ([Word("SET")] + ts));
    UpdatePrefix(rest);
    assert [Word("UPDATE"), Word("issuers"), Word("SET")] + ts
        == [Word("UPDATE")] + ([Word("issuers")] + ([Word("SET")] + ts));
  }

  lemma UpdateLexes(bs: seq<ColBinding>)
    requires forall b | b in bs :: IsWord(b.column)
    ensures Lex(UpdateText(bs)) == Some(UpdateTokens(bs))
  {
    SetsLex(bs);
    WhereIdLexes(|bs| + 1);
    hide Lex, LexesTo, IsWord, WhereIdText, WhereIdTokens, SetsTokens, Join, BindingTexts;
    var sets, where := Join(BindingTexts(bs), ", "), WhereIdText(|bs| + 1);
    var setsTs, whereTs := SetsTokens(bs, 1), WhereIdTokens(|bs| + 1);
    PieceThen(sets, setsTs, where, whereTs);
    UpdateHead(sets + " " + where, setsTs + whereTs);
    LexesWhole(UpdateText(bs), UpdateTokens(bs));
  }

  function StatementOf(bs: seq<ColBinding>): UpdateStatement {
    UpdateStatement("issuers", Assignments(bs, 1), "id", |bs| + 1, COLUMNS)
  }

  lemma WhereIdReads(sets: seq<Assignment>, n: nat)
    ensures ParseUpdateWhere("issuers", sets, WhereIdTokens(n)) == Some(UpdateStatement("issuers", sets, "id", n, COLUMNS))
  {
    hide ParseColumns, ColumnsTokens;
    assert WhereIdTokens(n)[5..] == ColumnsTokens(COLUMNS) + [];
    ParseColumnsReads(COLUMNS, []);
  }

  /** Where an assignment should stand there is the WHERE of a statement that sets nothing. */
  lemma NoSets(n: nat)
    ensures ParseSets(WhereIdTokens(n)) == None
  {
    hide ColumnsTokens;
    assert WhereIdTokens(n)[1] == Word("id");
  }

  lemma WhereIdStarts(n: nat)
    ensures WhereIdTokens(n) != [] && WhereIdTokens(n)[0] == Word("WHERE")
  {
  }

  lemma ParseUpdateHead(mid: seq<Token>)
    ensures ParseUpdate([Word("UPDATE"), Word("issuers"), Word("SET")] + mid)
         == match ParseSets(mid)
            case None => None
            case Some((sets, rest)) => ParseUpdateWhere("issuers", sets, rest)
  {
    hide ParseSets, ParseUpdateWhere;
    assert ([Word("UPDATE"), Word("issuers"), Word("SET")] + mid)[3..] == mid;
  }

  /** The statement parses exactly when it sets something; without a field it is a syntax error. */
  lemma UpdateParses(bs: seq<ColBinding>)
    ensures ParseUpdate(UpdateTokens(bs)) == if bs == [] then None else Some(StatementOf(bs))
  {
    assert bs == [] ==> SetsTokens(bs, 1) == [];
    hide ParseUpdate, ParseUpdateWhere, ParseSets, WhereIdTokens, SetsTokens, Assignments;
    var where := WhereIdTokens(|bs| + 1);
    ParseUpdateHead(SetsTokens(bs, 1) + where);
    if bs != [] {
      WhereIdStarts(|bs| + 1);
      ParseSetsReads(bs, 1, where);
      WhereIdReads(Assignments(bs, 1), |bs| + 1);
    } else {
      NoSets(|bs| + 1);
      assert [] + where == where;
    }
  }

  // ---------- executing it ----------

  /** Writing the bindings into a row one after another. */
  function Put(bs: seq<ColBinding>, row: Row): Row {
    if bs == [] then row else Put(bs[..|bs| - 1], row)[bs[|bs| - 1].column := bs[|bs| - 1].value]
  }

  lemma {:induction false} ExecIsPut(bs: seq<ColBinding>, args: seq<Str>, row: Row)
    requires Arguments(bs) <= args
    ensures forall a | a in Assignments(bs, 1) :: Bound(a.param, args)
    ensures Exec(Assignments(bs, 1), args, row) == Put(bs, row)
  {
    if bs != [] {
      var front := bs[..|bs| - 1];
      assert Arguments(front) <= Arguments(bs);
      ExecIsPut(front, args, row);
      assert Assignments(bs, 1)[..|bs| - 1] == Assignments(front, 1);
      assert args[|bs| - 1] == Arguments(bs)[|bs| - 1];
    }
  }

  lemma PutBound(bs: seq<ColBinding>, column: string, value: Option<Str>, row: Row)
    ensures Put(BindIfNotNil(bs, column, value), row)
         == if value.Some? then Put(bs, row)[column := value.value] else Put(bs, row)
  {
    if value.Some? {
      var b := ColBinding(column, value.value);
      assert (bs + [b])[..|bs|] == bs;
    }
  }

  /** Each column is one field of the record. */
  lemma RowSet(id: Id, iss: Issuer, v: Str)
    ensures ToRow(id, iss)["name" := v] == ToRow(id, iss.(name := v))
    ensures ToRow(id, iss)["uri" := v] == ToRow(id, iss.(uri := v))
    ensures ToRow(id, iss)["jwksuri" := v] == ToRow(id, iss.(jwksUri := v))
    ensures ToRow(id, iss)["mappings" := v] == ToRow(id, iss.(mappings := v))
    ensures ToRow(id, iss)["conditions" := v] == ToRow(id, iss.(conditions := v))
  {
  }

  lemma BindingsPut(u: IssuerUpdate, id: Id, iss: Issuer)
    ensures Put(Bindings(u), ToRow(id, iss)) == ToRow(id, u.Apply(iss))
  {
    hide Put, ToRow, BindIfNotNil;
    var row := ToRow(id, iss);
    assert Put([], row) == row by { PutNothing(row); }
    var b1 := BindIfNotNil([], "name", u.name);
    PutBound([], "name", u.name, row);
    var i1 := iss.(name := Or(u.name, iss.name));
    RowSet(id, iss, i1.name);
    assert Put(b1, row) == ToRow(id, i1);
    var b2 := BindIfNotNil(b1, "uri", u.uri);
    PutBound(b1, "uri", u.uri, row);
    var i2 := i1.(uri := Or(u.uri, iss.uri));
    RowSet(id, i1, i2.uri);
    assert Put(b2, row) == ToRow(id, i2);
    var b3 := BindIfNotNil(b2, "jwksuri", u.jwksUri);
    PutBound(b2, "jwksuri", u.jwksUri, row);
    var i3 := i2.(jwksUri := Or(u.jwksUri, iss.jwksUri));
    RowSet(id, i2, i3.jwksUri);
    assert Put(b3, row) == ToRow(id, i3);
    var b4 := BindIfNotNil(b3, "mappings", u.mappings);
    PutBound(b3, "mappings", u.mappings, row);
    var i4 := i3.(mappings := Or(u.mappings, iss.mappings));
    RowSet(id, i3, i4.mappings);
    assert Put(b4, row) == ToRow(id, i4);
    PutBound(b4, "conditions", u.conditions, row);
    RowSet(id, i4, Or(u.conditions, iss.conditions));
  }

  lemma PutNothing(row: Row)
    ensures Put([], row) == row
  {
  }

  lemma BindingsShape(u: IssuerUpdate)
    ensures Bindings(u) == [] <==> !u.SomeField()
    ensures forall b | b in Bindings(u) :: b.column in COLUMNS
  {
  }

  /**
   * Running the printed UPDATE under positional binding is the record update: set columns take their new values, the
   * others keep theirs, and the last placeholder is bound to the row's ID. It runs exactly when a field is set.
   */
  lemma PrintedUpdateIsRecordUpdate(u: IssuerUpdate, id: Id, iss: Issuer)
    ensures var bs := Bindings(u);
            var args := Arguments(bs) + [id];
            var parsed := match Lex(UpdateText(bs)) case None => None case Some(ts) => ParseUpdate(ts);
            && (parsed.Some? <==> u.SomeField())
            && (parsed.Some? ==>
                  var st := parsed.value;
                  && st.table == "issuers" && st.whereColumn == "id"
                  && Bound(st.whereParam, args) && args[st.whereParam - 1] == id
                  && (forall a | a in st.sets :: Bound(a.param, args))
                  && Exec(st.sets, args, ToRow(id, iss)) == ToRow(id, u.Apply(iss)))
  {
    BindingsShape(u);
    ColumnsAreWords();
    hide Lex, ParseUpdate, ToRow, Bindings, UpdateText, UpdateTokens, IsWord;
    var bs := Bindings(u);
    BindingsPut(u, id, iss);
    UpdateLexes(bs);
    UpdateParses(bs);
    ExecIsPut(bs, Arguments(bs) + [id], ToRow(id, iss));
  }
}
