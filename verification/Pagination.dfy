/** Paginated listings: from a request to the printed statement, its answer, and the next cursor. */
module Pagination {
  import opened Bytes
  import QueryCodec
  import opened Cursors
  import opened Select
  import opened QueryText
  import Sql

  const LIMIT_MAX := 100
  const LIMIT_DEFAULT := 10

  /** The limit an answer announces: clamped, unlike the printed LIMIT. */
  function Limit(limit: int): nat {
    if limit > LIMIT_MAX then LIMIT_MAX else if limit <= 0 then LIMIT_DEFAULT else limit
  }

  const NO_PAGINATION := FormatValues("", [], [], [], 0, "")

  function OnlyFields(fields: seq<Str>): seq<Str> {
    if fields == [] then ["id"] else fields
  }

  /** The permitted fields that a cursor gives a value, in declared order. */
  function GivenFields(only: seq<Str>, values: QueryCodec.Values): seq<Str> {
    if only == [] then []
    else (if QueryCodec.Get(values, only[0]) != [] then [only[0]] else []) + GivenFields(only[1..], values)
  }

  function GivenValues(only: seq<Str>, values: QueryCodec.Values): seq<Str> {
    if only == [] then []
    else (if QueryCodec.Get(values, only[0]) != [] then [QueryCodec.Get(values, only[0])] else [])
         + GivenValues(only[1..], values)
  }

  /** A cursor that does not decode, or that names another field, drops ordering, position and limit. */
  function Paginated(cursor: CursorPtr, limit: int, onlyFields: seq<Str>, asOf: string): FormatValues {
    var only := OnlyFields(onlyFields);
    var values := Values(cursor);
    if values.InvalidCursor? || exists key | key in values.AsMap() :: key !in only then NO_PAGINATION
    else FormatValues(asOf, GivenFields(only, values.AsMap()), GivenValues(only, values.AsMap()), only, limit, "")
  }

  /** The loop that adds clauses in original field order. */
  method CollectGiven(only: seq<Str>, m: QueryCodec.Values) returns (fields: seq<Str>, values: seq<Str>)
    ensures fields == GivenFields(only, m) && values == GivenValues(only, m)
  {
    hide QueryCodec.Get, GivenFields, GivenValues;
    fields, values := [], [];
    GivenNone(m);
    for i := 0 to |only|
      invariant fields == GivenFields(only[..i], m) && values == GivenValues(only[..i], m)
    {
      var value := QueryCodec.Get(m, only[i]);
      assert only[..i + 1] == only[..i] + [only[i]];
      GivenInOrder(only[..i], [only[i]], m);
      GivenOne(only[i], m);
      if value != [] {
        fields := fields + [only[i]];
        values := values + [value];
      }
    }
    assert only[..|only|] == only;
  }

  lemma GivenNone(m: QueryCodec.Values)
    ensures GivenFields([], m) == [] && GivenValues([], m) == []
  {
  }

  lemma GivenOne(field: Str, m: QueryCodec.Values)
    ensures var value := QueryCodec.Get(m, field);
            && GivenFields([field], m) == (if value != [] then [field] else [])
            && GivenValues([field], m) == (if value != [] then [value] else [])
  {
    GivenNone(m);
    assert [field][1..] == [];
  }

  lemma GivenStep(only: seq<Str>, m: QueryCodec.Values)
    requires only != []
    ensures QueryCodec.Get(m, only[0]) != [] ==>
              && GivenFields(only, m) == [only[0]] + GivenFields(only[1..], m)
              && GivenValues(only, m) == [QueryCodec.Get(m, only[0])] + GivenValues(only[1..], m)
    ensures QueryCodec.Get(m, only[0]) == [] ==>
              && GivenFields(only, m) == GivenFields(only[1..], m)
              && GivenValues(only, m) == GivenValues(only[1..], m)
  {
  }

  method Paginate(cursor: CursorPtr, limit: int, onlyFields: seq<Str>, asOf: string) returns (v: FormatValues)
    ensures v == Paginated(cursor, limit, onlyFields, asOf)
  {
    NilReads();
    hide Values, QueryCodec.Get;
    var only: seq<Str> := onlyFields;
    if |onlyFields| == 0 {
      only := ["id"];
    }
    v := FormatValues(asOf, [], [], only, limit, "");
    if cursor.Some? {
      var c := Values(cursor);
      if c.InvalidCursor? {
        return NO_PAGINATION;
      }
      if exists key | key in c.AsMap() :: key !in only {
        return NO_PAGINATION;
      }
      var fields, values := CollectGiven(only, c.AsMap());
      v := v.(fields := fields, values := values);
    } else {
      NothingGiven(only);
    }
  }

  lemma NilReads()
    ensures Values(None) == NilMap
  {
  }

  lemma {:induction false} NothingGiven(only: seq<Str>)
    ensures GivenFields(only, map[]) == [] && GivenValues(only, map[]) == []
  {
    if only != [] {
      NothingGiven(only[1..]);
    }
  }

  lemma {:induction false} GivenAligned(only: seq<Str>, values: QueryCodec.Values)
    ensures |GivenFields(only, values)| == |GivenValues(only, values)|
    ensures forall i | 0 <= i < |GivenFields(only, values)| ::
              GivenValues(only, values)[i] == QueryCodec.Get(values, GivenFields(only, values)[i])
    ensures forall f :: f in GivenFields(only, values) <==> f in only && QueryCodec.Get(values, f) != []
  {
    if only != [] {
      GivenAligned(only[1..], values);
      assert only == [only[0]] + only[1..];
    }
  }

  /** The given fields and values come in declared order: splitting the declared fields splits them. */
  lemma {:induction false} GivenInOrder(a: seq<Str>, b: seq<Str>, values: QueryCodec.Values)
    ensures GivenFields(a + b, values) == GivenFields(a, values) + GivenFields(b, values)
    ensures GivenValues(a + b, values) == GivenValues(a, values) + GivenValues(b, values)
  {
    hide QueryCodec.Get;
    if a == [] {
      assert a + b == b;
    } else {
      var tail := a[1..];
      assert (a + b)[0] == a[0] && (a + b)[1..] == tail + b;
      GivenInOrder(tail, b, values);
      GivenStep(a + b, values);
      GivenStep(a, values);
      hide GivenFields, GivenValues;
    }
  }

  /**
   * With next-1 leading arguments, every printed `field > $k` compares with that field's own cursor value,
   * and the fields compared are exactly the permitted ones that the cursor gives a value.
   */
  lemma BindingPositions(cursor: CursorPtr, limit: int, onlyFields: seq<Str>, asOf: string,
                         next: nat, leading: seq<Str>)
    requires next == |leading| + 1
    ensures var v := Paginated(cursor, limit, onlyFields, asOf);
            var tests, args := Tests(v, next), Arguments(v, leading);
            && |args| == |leading| + |tests|
            && (forall t | t in tests :: Bound(t.param, args)
                 && t.column.name in OnlyFields(onlyFields)
                 && args[t.param - 1] == QueryCodec.Get(Values(cursor).AsMap(), t.column.name))
            && (v != NO_PAGINATION ==> v.orderFields == if onlyFields == [] then ["id"] else onlyFields)
            && (v != NO_PAGINATION ==> forall f | f in OnlyFields(onlyFields) ::
                 QueryCodec.Get(Values(cursor).AsMap(), f) != [] ==> f in v.fields)
  {
    var v := Paginated(cursor, limit, onlyFields, asOf);
    var m, only := Values(cursor).AsMap(), OnlyFields(onlyFields);
    GivenAligned(only, m);
    assert |v.fields| == |v.values| && (v == NO_PAGINATION || v.fields == GivenFields(only, m));
    hide Values, QueryCodec.Get, OnlyFields, GivenFields, GivenValues, Paginated;
    var tests, args := Tests(v, next), Arguments(v, leading);
    forall t | t in tests
      ensures Bound(t.param, args) && t.column.name in only
      ensures args[t.param - 1] == QueryCodec.Get(m, t.column.name)
    {
      var i :| 0 <= i < |tests| && tests[i] == t;
      TestBound(v, next, leading, i);
      assert v.fields[i] in v.fields;
    }
  }

  /** Test i compares field i with value i. */
  lemma TestBound(v: FormatValues, next: nat, leading: seq<Str>, i: nat)
    requires next == |leading| + 1 && i < |v.fields| == |v.values|
    ensures var t, args := Tests(v, next)[i], Arguments(v, leading);
            Bound(t.param, args) && args[t.param - 1] == v.values[i] && t.column.name == v.fields[i]
  {
  }

  // ---------- a conjunction of tests as a position ----------

  /** The printed conditions with a cursor row bound to them. */
  predicate AllAbove(fields: seq<string>, cursor: Row, row: Row) {
    forall f | f in fields :: Less(Column(cursor, f), Column(row, f))
  }

  function Refs(fields: seq<string>): seq<ColumnRef> {
    seq(|fields|, i requires 0 <= i < |fields| => ColumnRef("", fields[i]))
  }

  lemma {:induction false} LessExtended(a: Str, c: Byte)
    ensures Less(a, a + [c])
  {
    if a != [] {
      LessExtended(a[1..], c);
      assert (a + [c])[1..] == a[1..] + [c];
    }
  }

  /** Joining the tests with AND selects the rows after the cursor, for every cursor row, exactly for a single field. */
  lemma ConjunctionIsPositionIff(fields: seq<string>, cursor: Row)
    requires forall i, j | 0 <= i < j < |fields| :: fields[i] != fields[j]
    ensures (forall row :: AllAbove(fields, cursor, row) <==> Earlier(Refs(fields), cursor, row)) <==> |fields| == 1
  {
    if |fields| == 1 {
      assert Refs(fields)[1..] == [] && fields[0] in fields;
      forall row ensures AllAbove(fields, cursor, row) <==> Earlier(Refs(fields), cursor, row) {
        assert !Earlier([], cursor, row);
      }
    } else if |fields| == 0 {
      assert AllAbove(fields, cursor, map[]) && !Earlier(Refs(fields), cursor, map[]);
    } else {
      var first, second := fields[0], fields[1];
      LessExtended(Column(cursor, first), 'a');
      var row: Row := map[first := Column(cursor, first) + ['a'], second := []];
      assert Earlier(Refs(fields), cursor, row);
      assert second in fields && !Less(Column(cursor, second), Column(row, second));
      assert !AllAbove(fields, cursor, row);
    }
  }

  // ---------- requests ----------

  datatype Params = Params(cursor: CursorPtr, limit: Option<int>)
  {
    function GetLimit(): int { if limit.None? then 0 else limit.value }
  }

  /** A listing of one table by an equality, keyed by one column. */
  datatype Listing = Listing(columns: seq<string>, table: string, equal: string, key: Str)
  {
    predicate Printable() {
      && columns != [] && (forall c | c in columns :: Sql.IsWord(c))
      && Sql.IsWord(table) && Sql.IsWord(equal)
    }
  }

  const GROUP_MEMBERS := Listing(["subject_id"], "group_members", "group_id", "subject_id")
  const GROUPS := Listing(["id", "owner_id", "name", "description"], "groups", "owner_id", "id")
  const AS_OF := "-1m"

  /** What SetPagination leaves in `Next`. */
  function NextCursor(key: Str, params: Params, keys: seq<Str>): CursorPtr {
    if keys != [] && |keys| == Limit(params.GetLimit()) then Some(KeyCursor(key, keys[|keys| - 1])) else None
  }

  class Collection {
    var ids: seq<Str>
    var limit: int
    var next: CursorPtr

    constructor (ids: seq<Str>)
      ensures this.ids == ids && limit == 0 && next == None
    {
      this.ids, limit, next := ids, 0, None;
    }
  }

  /** On a page that is not full `Next` is left as it was; the handlers pass a collection without one. */
  method SetPagination(key: Str, params: Params, collection: Collection)
    modifies collection
    ensures collection.ids == old(collection.ids)
    ensures collection.limit == Limit(params.GetLimit())
    ensures var next := NextCursor(key, params, collection.ids);
            collection.next == if next.Some? then next else old(collection.next)
  {
    collection.limit := Limit(params.GetLimit());
    var count := |collection.ids|;
    if count != 0 && count == collection.limit {
      var last := collection.ids[count - 1];
      var r := NewCursor([key, last]);
      collection.next := r.cursor;
    }
  }

  /** A client sees no next page when the pointer is nil or its text is empty (MarshalJSON prints null). */
  predicate Offered(next: CursorPtr) {
    next.Some? && next.value != []
  }

  /** The keys of a list of rows. */
  function Keys(key: Str, rows: seq<Row>): seq<Str> {
    seq(|rows|, i requires 0 <= i < |rows| => Column(rows[i], key))
  }

  /** One request: the printed statement is read by the database, which answers it from its snapshot. */
  ghost predicate Served(l: Listing, owner: Str, params: Params, snapshot: set<Row>, out: seq<Row>, next: CursorPtr) {
    var v := Paginated(params.cursor, params.GetLimit(), [l.key], AS_OF);
    match Sql.Lex(ListingText(l.columns, l.table, l.equal, v))
    case None => false
    case Some(ts) =>
      match Parse(ts)
      case None => false
      case Some(s) =>
        Answers(s, Arguments(v, [owner]), snapshot, out) && next == NextCursor(l.key, params, Keys(l.key, out))
  }

  /** A cursor that does not decode, or that gives a value to a field other than the key. */
  predicate Unusable(l: Listing, cursor: CursorPtr) {
    Values(cursor).InvalidCursor? || exists field | field in Values(cursor).AsMap() :: field != l.key
  }

  /**
   * The statement any request prints, whatever its cursor. An unusable cursor is no error: position, order, snapshot
   * time and the limit asked for are all dropped, and ten rows are asked for in no order. A usable one is a position.
   */
  lemma AnyCursorReads(l: Listing, params: Params)
    requires l.Printable()
    ensures var v := Paginated(params.cursor, params.GetLimit(), [l.key], AS_OF);
            var ts := Sql.Lex(ListingText(l.columns, l.table, l.equal, v));
            var key := QueryCodec.Get(Values(params.cursor).AsMap(), l.key);
            && ts.Some?
            && Parse(ts.value) == Some(
                 if Unusable(l, params.cursor) then Statement(l.columns, l.table, "", l.equal, 1, [], [], 10)
                 else StatementFor(l, if key == [] then None else Some(key), Asked(params.limit)))
            && (!Unusable(l, params.cursor) && key != [] ==> v.values == [key])
  {
    var v := Paginated(params.cursor, params.GetLimit(), [l.key], AS_OF);
    var m := Values(params.cursor).AsMap();
    hide Values, QueryCodec.Get, Sql.Lex, Parse, ListingText;
    ListingReads(l.columns, l.table, l.equal, v);
    var only := [l.key];
    assert only[1..] == [];
    assert (exists field | field in m :: field !in only) <==> exists field | field in m :: field != l.key;
    if !Unusable(l, params.cursor) {
      var key := QueryCodec.Get(m, l.key);
      assert GivenFields(only, m) == if key == [] then [] else only;
      assert GivenValues(only, m) == if key == [] then [] else [key];
      assert OrderRefs(v) == [ColumnRef("", l.key)];
      assert Tests(v, 2) == if key == [] then [] else [Test(ColumnRef("", l.key), 2)];
    } else {
      assert OrderRefs(v) == [] && Tests(v, 2) == [];
    }
  }

  // ---------- one page ----------

  /** The rows a listing is about, and their keys. */
  predicate Listed(l: Listing, owner: Str, row: Row) {
    Column(row, l.equal) == owner
  }

  function KeySet(l: Listing, owner: Str, snapshot: set<Row>): set<Str> {
    set row | row in snapshot && Listed(l, owner, row) :: Column(row, l.key)
  }

  /** The key column identifies a listed row (the primary keys of groups and group_members). */
  predicate UniqueKey(l: Listing, owner: Str, snapshot: set<Row>) {
    forall a, b | a in snapshot && b in snapshot && Listed(l, owner, a) && Listed(l, owner, b) ::
      Column(a, l.key) == Column(b, l.key) ==> a == b
  }

  /** A request positioned by an offered cursor, or by none. */
  function At(l: Listing, after: Option<Str>, limit: Option<int>): Params {
    Params(if after.None? then None else Some(KeyCursor(l.key, after.value)), limit)
  }

  predicate Position(after: Option<Str>) {
    after.Some? ==> after.value != []
  }

  /** The LIMIT that is printed. */
  function Asked(limit: Option<int>): nat {
    if limit.None? || limit.value <= 0 then DEFAULT_LIMIT else limit.value
  }

  function Min(a: nat, b: nat): nat { if a < b then a else b }

  /** The keyset page: the smallest keys above the position, as many as asked. */
  function Page(keys: set<Str>, after: Option<Str>, n: nat): seq<Str> {
    var s := Sorted(Above(keys, after));
    s[..Min(n, |s|)]
  }

  /** The cursor text, decoded, becomes exactly one test and one argument. */
  lemma PositionedValues(l: Listing, after: Option<Str>, limit: Option<int>)
    requires Position(after)
    ensures var v := Paginated(At(l, after, limit).cursor, At(l, after, limit).GetLimit(), [l.key], AS_OF);
            v == FormatValues(AS_OF, if after.None? then [] else [l.key],
                              if after.None? then [] else [after.value], [l.key],
                              At(l, after, limit).GetLimit(), "")
  {
    NilReads();
    hide Values, KeyCursor;
    var only := [l.key];
    assert only[1..] == [];
    if after.Some? {
      KeyCursorReads(l.key, after.value);
      var m: QueryCodec.Values := map[l.key := [after.value]];
      assert QueryCodec.Get(m, l.key) == after.value;
      assert GivenFields(only, m) == only && GivenValues(only, m) == [after.value];
    } else {
      NothingGiven(only);
    }
  }

  function StatementFor(l: Listing, after: Option<Str>, limit: nat): Statement {
    Statement(l.columns, l.table, AS_OF, l.equal, 1,
              if after.None? then [] else [Test(ColumnRef("", l.key), 2)], [ColumnRef("", l.key)], limit)
  }

  function ArgsFor(owner: Str, after: Option<Str>): seq<Str> {
    [owner] + (if after.None? then [] else [after.value])
  }

  /** Through the cursor codec, the printer and the parser: being served is answering the keyset statement. */
  lemma ServedIff(l: Listing, owner: Str, after: Option<Str>, limit: Option<int>,
                  snapshot: set<Row>, out: seq<Row>, next: CursorPtr)
    requires l.Printable() && Position(after)
    ensures Served(l, owner, At(l, after, limit), snapshot, out, next)
       <==> && Answers(StatementFor(l, after, Asked(limit)), ArgsFor(owner, after), snapshot, out)
            && next == NextCursor(l.key, At(l, after, limit), Keys(l.key, out))
  {
    hide Sql.Lex, Parse, Answers, ListingText, Paginated, KeyCursor;
    PositionedValues(l, after, limit);
    var params := At(l, after, limit);
    var v := Paginated(params.cursor, params.GetLimit(), [l.key], AS_OF);
    ListingReads(l.columns, l.table, l.equal, v);
    assert Tests(v, 2) == if after.None? then [] else [Test(ColumnRef("", l.key), 2)];
    assert OrderRefs(v) == [ColumnRef("", l.key)];
  }

  lemma {:induction false} NothingDoubled(v: string, quote: char)
    requires quote !in v
    ensures Sql.Doubled(v, quote) == v
  {
    if v != [] {
      NothingDoubled(v[1..], quote);
      assert v == [v[0]] + v[1..];
    }
  }

  lemma AsOfPrinted(v: FormatValues)
    requires v.asOf == "-1m"
    ensures AsOfText(v) == "AS OF SYSTEM TIME '-1m'"
  {
    NothingDoubled("-1m", '\'');
    hide Sql.Doubled;
  }

  lemma QuotedPlainly(name: string)
    requires '"' !in name
    ensures QuoteField("", name) == "\"" + name + "\""
  {
    NothingDoubled(name, '"');
    hide Sql.Doubled;
  }

  lemma AndPrinted(v: FormatValues, key: string)
    requires v.qualifier == "" && v.fields == [key]
    ensures AndText(v, 2) == "AND " + ("(" + (QuoteField("", key) + ">$" + "2") + ")")
  {
    assert Sql.Itoa(2) == "2";
    hide QuoteField, Sql.Itoa;
    assert WhereItems(v, 2) == [QuoteField("", key) + ">$" + Sql.Itoa(2)];
  }

  lemma OrderPrinted(v: FormatValues, key: string)
    requires v.qualifier == "" && v.orderFields == [key]
    ensures OrderText(v) == "ORDER BY " + QuoteField("", key)
  {
    hide QuoteField;
    assert QuotedAll("", [key]) == [QuoteField("", key)];
  }

  lemma LimitPrinted(v: FormatValues)
    ensures v.limit <= 0 ==> LimitText(v) == "LIMIT 10"
    ensures v.limit == 250 ==> LimitText(v) == "LIMIT 250"
  {
    assert Sql.Itoa(10) == "10" && Sql.Itoa(250) == "250";
  }

  /** The clauses themselves, as requests for a first and for a later page print them. */
  lemma ClausesPrinted(l: Listing, after: Str, limit: Option<int>)
    requires '"' !in l.key && after != []
    ensures var first := Paginated(None, Params(None, limit).GetLimit(), [l.key], AS_OF);
            var later := Paginated(Some(KeyCursor(l.key, after)), Params(None, limit).GetLimit(), [l.key], AS_OF);
            && AsOfText(first) == AsOfText(later) == "AS OF SYSTEM TIME '-1m'"
            && AndText(first, 2) == "" && AndText(later, 2) == "AND " + ("(" + ("\"" + l.key + "\"" + ">$" + "2") + ")")
            && OrderText(first) == OrderText(later) == "ORDER BY " + ("\"" + l.key + "\"")
            && (limit.None? ==> LimitText(first) == LimitText(later) == "LIMIT 10")
            && (limit == Some(250) ==> LimitText(first) == LimitText(later) == "LIMIT 250")
  {
    PositionedValues(l, None, limit);
    PositionedValues(l, Some(after), limit);
    var first := Paginated(None, Params(None, limit).GetLimit(), [l.key], AS_OF);
    var later := Paginated(Some(KeyCursor(l.key, after)), Params(None, limit).GetLimit(), [l.key], AS_OF);
    assert AndText(first, 2) == "";
    hide Paginated, KeyCursor, AsOfText, AndText, OrderText, LimitText, QuoteField;
    QuotedPlainly(l.key);
    AsOfPrinted(first);
    AsOfPrinted(later);
    AndPrinted(later, l.key);
    OrderPrinted(first, l.key);
    OrderPrinted(later, l.key);
    LimitPrinted(first);
    LimitPrinted(later);
  }
}
