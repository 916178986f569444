/** The SQL text printed for a paginated listing (internal/crdbx/template_values.go). */
module QueryText {
  import opened Bytes
  import opened Sql
  import opened Select

  const DEFAULT_LIMIT := 10

  /** An empty `asOf` means no AS OF SYSTEM TIME value, an empty `qualifier` none. */
  datatype FormatValues = FormatValues(
    asOf: string, fields: seq<string>, values: seq<Str>, orderFields: seq<string>, limit: int, qualifier: string)

  function QuoteIdent(v: string): string {
    "\"" + Doubled(v, '"') + "\""
  }

  function QuoteField(q: string, v: string): string {
    (if q == [] then [] else QuoteIdent(q) + ".") + QuoteIdent(v)
  }

  function QuoteValue(v: string): string {
    "'" + Doubled(v, '\'') + "'"
  }

  // ---------- Where ----------

  function WhereItems(v: FormatValues, next: nat): seq<string> {
    seq(|v.fields|, i requires 0 <= i < |v.fields| =>
      QuoteField(v.qualifier, v.fields[i]) + ">$" + Itoa(i + next))
  }

  function WhereText(v: FormatValues, next: nat): string {
    if v.fields == [] then "" else "(" + Join(WhereItems(v, next), " AND ") + ")"
  }

  /** The tests that the conditions stand for. */
  function Tests(v: FormatValues, next: nat): seq<Test> {
    seq(|v.fields|, i requires 0 <= i < |v.fields| => Test(ColumnRef(v.qualifier, v.fields[i]), i + next))
  }

  method Where(v: FormatValues, next: nat) returns (text: string)
    ensures text == WhereText(v, next)
    ensures v.fields != [] ==> ParseWhere(WhereTokens(Tests(v, next))) == Some((Tests(v, next), []))
    ensures v.fields != [] ==> Lex(text) == Some(WhereTokens(Tests(v, next)))
  {
    if |v.fields| == 0 {
      return "";
    }
    var where := new string[|v.fields|](_ => "");
    for i := 0 to |v.fields|
      invariant forall k | 0 <= k < i :: where[k] == WhereItems(v, next)[k]
    {
      where[i] := QuoteField(v.qualifier, v.fields[i]) + ">$" + Itoa(i + next);
    }
    assert where[..] == WhereItems(v, next);
    text := "(" + Join(where[..], " AND ") + ")";
    WhereReads(v, next);
  }

  function AndText(v: FormatValues, next: nat): string {
    if v.fields == [] then "" else "AND " + WhereText(v, next)
  }

  // ---------- Order ----------

  function QuotedAll(q: string, fields: seq<string>): seq<string> {
    seq(|fields|, i requires 0 <= i < |fields| => QuoteField(q, fields[i]))
  }

  /** quoteFields overwrites the slice it is given. */
  method QuoteFields(q: string, fields: array<string>)
    modifies fields
    ensures fields[..] == QuotedAll(q, old(fields[..]))
  {
    for i := 0 to fields.Length
      invariant forall k | 0 <= k < i :: fields[k] == QuoteField(q, old(fields[k]))
      invariant forall k | i <= k < fields.Length :: fields[k] == old(fields[k])
    {
      fields[i] := QuoteField(q, fields[i]);
    }
  }

  /** Order rewrites the order fields it reads: each call sees them quoted once more. */
  method Order(q: string, orderFields: array<string>, extra: seq<string>) returns (text: string)
    modifies orderFields
    ensures orderFields[..] == QuotedAll(q, old(orderFields[..]))
    ensures text == Join(extra + QuotedAll(q, old(orderFields[..])), ",")
  {
    QuoteFields(q, orderFields);
    var fields := extra + orderFields[..];
    if |fields| == 0 {
      return "";
    }
    text := Join(fields, ",");
  }

  function QuotedTimes(q: string, field: string, k: nat): string {
    if k == 0 then field else QuoteField(q, QuotedTimes(q, field, k - 1))
  }

  function AllQuotedTimes(q: string, fields: seq<string>, k: nat): seq<string> {
    seq(|fields|, i requires 0 <= i < |fields| => QuotedTimes(q, fields[i], k))
  }

  /** The column a text names, when it is one quoted column. */
  function Unquote(text: string): Option<ColumnRef> {
    var ts :- Lex(text);
    var (c, rest) :- ParseRef(ts);
    if rest == [] then Some(c) else None
  }

  function UnquotedTimes(text: string, k: nat): Option<string>
    decreases k
  {
    if k == 0 then Some(text)
    else
      var c :- Unquote(text);
      UnquotedTimes(c.name, k - 1)
  }

  /** One more call finds the fields quoted one more time. */
  lemma OrderCalls(q: string, fields: seq<string>, k: nat)
    ensures AllQuotedTimes(q, fields, 0) == fields
    ensures QuotedAll(q, AllQuotedTimes(q, fields, k)) == AllQuotedTimes(q, fields, k + 1)
  {
  }

  /** Repeated calls on one set of values: the j-th text has every field quoted j times. */
  method OrderRepeatedly(q: string, orderFields: array<string>, k: nat) returns (texts: seq<string>)
    modifies orderFields
    ensures |texts| == k
    ensures forall j | 0 <= j < k :: texts[j] == Join(AllQuotedTimes(q, old(orderFields[..]), j + 1), ",")
    ensures orderFields[..] == AllQuotedTimes(q, old(orderFields[..]), k)
  {
    ghost var declared := orderFields[..];
    texts := [];
    OrderCalls(q, declared, 0);
    for i := 0 to k
      invariant |texts| == i && orderFields[..] == AllQuotedTimes(q, declared, i)
      invariant forall j | 0 <= j < i :: texts[j] == Join(AllQuotedTimes(q, declared, j + 1), ",")
    {
      OrderCalls(q, declared, i);
      var text := Order(q, orderFields, []);
      assert [] + AllQuotedTimes(q, declared, i + 1) == AllQuotedTimes(q, declared, i + 1);
      texts := texts + [text];
    }
  }

  lemma UnquoteQuoted(q: string, v: string)
    ensures Unquote(QuoteField(q, v)) == Some(ColumnRef(q, v))
  {
    QuoteFieldLexes(q, v);
    LexesWhole(QuoteField(q, v), RefTokens(ColumnRef(q, v)));
    ParseRefReads(ColumnRef(q, v), []);
    assert RefTokens(ColumnRef(q, v)) + [] == RefTokens(ColumnRef(q, v));
  }

  /** k unquotings recover a field quoted k times; the first one already does after a single call. */
  lemma {:induction false} UnquotingRecovers(q: string, field: string, k: nat)
    ensures UnquotedTimes(QuotedTimes(q, field, k), k) == Some(field)
    ensures Unquote(QuotedTimes(q, field, 1)) == Some(ColumnRef(q, field))
  {
    hide Unquote, QuoteField;
    UnquoteQuoted(q, QuotedTimes(q, field, 0));
    if k > 0 {
      UnquoteQuoted(q, QuotedTimes(q, field, k - 1));
      UnquotingRecovers(q, field, k - 1);
    }
  }

  function OrderText(v: FormatValues): string {
    if v.orderFields == [] then "" else "ORDER BY " + Join(QuotedAll(v.qualifier, v.orderFields), ",")
  }

  function OrderRefs(v: FormatValues): seq<ColumnRef> {
    seq(|v.orderFields|, i requires 0 <= i < |v.orderFields| => ColumnRef(v.qualifier, v.orderFields[i]))
  }

  // ---------- the other clauses ----------

  function EffectiveLimit(v: FormatValues): nat {
    if v.limit <= 0 then DEFAULT_LIMIT else v.limit
  }

  function LimitText(v: FormatValues): string {
    "LIMIT " + Itoa(EffectiveLimit(v))
  }

  function AsOfText(v: FormatValues): string {
    if v.asOf == [] then "" else "AS OF SYSTEM TIME " + QuoteValue(v.asOf)
  }

  /** Values: the caller's arguments first, then the cursor's. */
  function Arguments(v: FormatValues, leading: seq<Str>): seq<Str> {
    leading + v.values
  }

  // "SELECT %s FROM %s %s WHERE %s = $1 %s %s %s", the format of every listing of one table, in three parts.

  function TailText(v: FormatValues): string {
    AndText(v, 2) + " " + OrderText(v) + " " + LimitText(v)
  }

  function FromText(table: string, equal: string, v: FormatValues): string {
    "FROM " + table + " " + AsOfText(v) + " WHERE " + equal + " = $1 " + TailText(v)
  }

  function ListingText(columns: seq<string>, table: string, equal: string, v: FormatValues): string {
    "SELECT " + Join(columns, ", ") + " " + FromText(table, equal, v)
  }

  function ListingStatement(columns: seq<string>, table: string, equal: string, v: FormatValues): Statement {
    Statement(columns, table, v.asOf, equal, 1, Tests(v, 2), OrderRefs(v), EffectiveLimit(v))
  }

  // ---------- the text reads back ----------

  lemma QuoteFieldThen(q: string, v: string, rest: string)
    requires rest == [] || rest[0] != '"'
    ensures Lex(QuoteField(q, v) + rest) == Append(RefTokens(ColumnRef(q, v)), Lex(rest))
  {
    hide Lex;
    var name := QuoteIdent(v) + rest;
    LexQuoted(v, '"', rest);
    if q != [] {
      var dotted := "." + name;
      LexPunct('.', name);
      LexQuoted(q, '"', dotted);
      assert QuoteField(q, v) + rest == QuoteIdent(q) + dotted;
      PrependThree(Quoted(q), Punct('.'), Quoted(v), Lex(rest));
    } else {
      assert QuoteField(q, v) + rest == name;
    }
  }

  lemma PrependThree(a: Token, b: Token, c: Token, rest: Option<seq<Token>>)
    ensures Prepend(a, Prepend(b, Prepend(c, rest))) == Append([a, b, c], rest)
  {
    if rest.Some? {
      assert [a] + ([b] + ([c] + rest.value)) == [a, b, c] + rest.value;
    }
  }

  lemma QuoteFieldLexes(q: string, v: string)
    ensures LexesTo(QuoteField(q, v), RefTokens(ColumnRef(q, v)))
  {
    forall rest: string | Boundary(rest)
      ensures Lex(QuoteField(q, v) + rest) == Append(RefTokens(ColumnRef(q, v)), Lex(rest))
    {
      QuoteFieldThen(q, v, rest);
    }
  }

  lemma TestLexes(q: string, field: string, n: nat)
    ensures LexesTo(QuoteField(q, field) + ">$" + Itoa(n), TestTokens(Test(ColumnRef(q, field), n)))
  {
    hide Lex, QuoteField, Itoa, Prepend;
    var t := Test(ColumnRef(q, field), n);
    forall rest: string | Boundary(rest)
      ensures Lex(QuoteField(q, field) + ">$" + Itoa(n) + rest) == Append(TestTokens(t), Lex(rest))
    {
      var param := "$" + Itoa(n) + rest;
      var mid := ">" + param;
      LexNumber(n, rest);
      LexPunct('>', param);
      QuoteFieldThen(q, field, mid);
      assert QuoteField(q, field) + ">$" + Itoa(n) + rest == QuoteField(q, field) + mid;
      PrependTwo(Punct('>'), Param(n), Lex(rest));
      AppendTwice(RefTokens(t.column), [Punct('>'), Param(n)], Lex(QuoteField(q, field) + mid), Lex(mid), Lex(rest));
    }
  }

  lemma PrependTwo(a: Token, b: Token, rest: Option<seq<Token>>)
    ensures Prepend(a, Prepend(b, rest)) == Append([a, b], rest)
  {
    if rest.Some? {
      assert [a] + ([b] + rest.value) == [a, b] + rest.value;
    }
  }

  lemma {:induction false} JoinedTests(tests: seq<Test>)
    ensures JoinTokens(seq(|tests|, i requires 0 <= i < |tests| => TestTokens(tests[i])), [Word("AND")])
         == TestsTokens(tests)
  {
    var tss := seq(|tests|, i requires 0 <= i < |tests| => TestTokens(tests[i]));
    if |tests| > 1 {
      var tail := tests[1..];
      assert tss[1..] == seq(|tail|, i requires 0 <= i < |tail| => TestTokens(tail[i]));
      JoinedTests(tail);
    }
  }

  lemma {:induction false} JoinedRefs(cs: seq<ColumnRef>)
    ensures JoinTokens(seq(|cs|, i requires 0 <= i < |cs| => RefTokens(cs[i])), [Punct(',')]) == RefsTokens(cs)
  {
    var tss := seq(|cs|, i requires 0 <= i < |cs| => RefTokens(cs[i]));
    if |cs| > 1 {
      var tail := cs[1..];
      assert tss[1..] == seq(|tail|, i requires 0 <= i < |tail| => RefTokens(tail[i]));
      JoinedRefs(tail);
    }
  }

  lemma WhereLexes(v: FormatValues, next: nat)
    requires v.fields != []
    ensures LexesTo(WhereText(v, next), WhereTokens(Tests(v, next)))
  {
    hide Lex;
    var items, tests := WhereItems(v, next), Tests(v, next);
    var tss := seq(|tests|, i requires 0 <= i < |tests| => TestTokens(tests[i]));
    forall i | 0 <= i < |items| ensures LexesTo(items[i], tss[i]) {
      TestLexes(v.qualifier, v.fields[i], i + next);
    }
    WordSeparates("AND");
    assert " " + "AND" + " " == " AND ";
    JoinLexes(items, tss, " AND ", [Word("AND")]);
    JoinedTests(tests);
    var inner := Join(items, " AND ");
    forall rest: string | Boundary(rest)
      ensures Lex(WhereText(v, next) + rest) == Append(WhereTokens(tests), Lex(rest))
    {
      Parenthesised(inner, TestsTokens(tests), rest);
    }
  }

  lemma Parenthesised(inner: string, ts: seq<Token>, rest: string)
    requires LexesTo(inner, ts)
    ensures Lex("(" + inner + ")" + rest) == Append([Punct('(')] + ts + [Punct(')')], Lex(rest))
  {
    hide Lex;
    var close := ")" + rest;
    LexPunct(')', rest);
    LexPunct('(', inner + close);
    assert "(" + inner + ")" + rest == "(" + (inner + close);
    assert Lex(inner + close) == Append(ts, Lex(close));
    AppendTwice(ts, [Punct(')')], Lex(inner + close), Lex(close), Lex(rest));
    AppendTwice([Punct('(')], ts + [Punct(')')], Lex("(" + (inner + close)), Lex(inner + close), Lex(rest));
    assert [Punct('(')] + (ts + [Punct(')')]) == [Punct('(')] + ts + [Punct(')')];
  }

  /** The printed conditions read back as the conjunction of the intended tests, whatever the names contain. */
  lemma WhereReads(v: FormatValues, next: nat)
    requires v.fields != []
    ensures Lex(WhereText(v, next)) == Some(WhereTokens(Tests(v, next)))
    ensures ParseWhere(WhereTokens(Tests(v, next))) == Some((Tests(v, next), []))
  {
    WhereLexes(v, next);
    LexesWhole(WhereText(v, next), WhereTokens(Tests(v, next)));
    ParseWhereReads(Tests(v, next), []);
    assert WhereTokens(Tests(v, next)) + [] == WhereTokens(Tests(v, next));
  }

  lemma AndLexes(v: FormatValues)
    ensures LexesTo(AndText(v, 2), AndTokens(Tests(v, 2)))
  {
    hide Lex;
    if v.fields == [] {
      LexesEmpty();
    } else {
      WhereLexes(v, 2);
      KeywordThen("AND", WhereText(v, 2), WhereTokens(Tests(v, 2)));
      assert "AND " == "AND" + " ";
    }
  }

  lemma OrderLexes(v: FormatValues)
    ensures LexesTo(OrderText(v), OrderTokens(OrderRefs(v)))
  {
    hide Lex;
    if v.orderFields == [] {
      LexesEmpty();
    } else {
      var items, refs := QuotedAll(v.qualifier, v.orderFields), OrderRefs(v);
      var tss := seq(|refs|, i requires 0 <= i < |refs| => RefTokens(refs[i]));
      forall i | 0 <= i < |items| ensures LexesTo(items[i], tss[i]) {
        QuoteFieldLexes(v.qualifier, v.orderFields[i]);
      }
      CommaSeparates();
      JoinLexes(items, tss, ",", [Punct(',')]);
      JoinedRefs(refs);
      var list := Join(items, ",");
      KeywordThen("BY", list, RefsTokens(refs));
      KeywordThen("ORDER", "BY" + " " + list, [Word("BY")] + RefsTokens(refs));
      assert OrderText(v) == "ORDER" + " " + ("BY" + " " + list);
      assert [Word("ORDER")] + ([Word("BY")] + RefsTokens(refs)) == OrderTokens(refs);
    }
  }

  lemma AsOfLexes(v: FormatValues)
    ensures LexesTo(AsOfText(v), AsOfTokens(v.asOf))
  {
    hide Lex, LexesTo, Doubled;
    if v.asOf == [] {
      LexesEmpty();
    } else {
      var value, t0 := QuoteValue(v.asOf), [Literal(v.asOf)];
      LiteralLexes(v.asOf);
      KeywordThen("TIME", value, t0);
      KeywordThen("SYSTEM", "TIME" + " " + value, [Word("TIME")] + t0);
      KeywordThen("OF", "SYSTEM" + " " + ("TIME" + " " + value), [Word("SYSTEM")] + ([Word("TIME")] + t0));
      KeywordThen("AS", "OF" + " " + ("SYSTEM" + " " + ("TIME" + " " + value)),
                  [Word("OF")] + ([Word("SYSTEM")] + ([Word("TIME")] + t0)));
      assert AsOfText(v) == "AS" + " " + ("OF" + " " + ("SYSTEM" + " " + ("TIME" + " " + value)));
      assert AsOfTokens(v.asOf) == [Word("AS")] + ([Word("OF")] + ([Word("SYSTEM")] + ([Word("TIME")] + t0)));
    }
  }

  lemma LimitLexes(v: FormatValues)
    ensures LexesTo(LimitText(v), [Word("LIMIT"), Number(EffectiveLimit(v))])
  {
    hide Lex;
    NumberLexes(EffectiveLimit(v));
    KeywordThen("LIMIT", Itoa(EffectiveLimit(v)), [Number(EffectiveLimit(v))]);
    assert LimitText(v) == "LIMIT" + " " + Itoa(EffectiveLimit(v));
    assert [Word("LIMIT")] + [Number(EffectiveLimit(v))] == [Word("LIMIT"), Number(EffectiveLimit(v))];
  }

  lemma TailLexes(v: FormatValues, s: Statement)
    requires s.tests == Tests(v, 2) && s.order == OrderRefs(v) && s.limit == EffectiveLimit(v)
    ensures LexesTo(TailText(v), TailTokens(s))
  {
    hide Lex;
    LimitLexes(v);
    OrderLexes(v);
    AndLexes(v);
    var limit := [Word("LIMIT"), Number(s.limit)];
    PieceThen(OrderText(v), OrderTokens(s.order), LimitText(v), limit);
    PieceThen(AndText(v, 2), AndTokens(s.tests), OrderText(v) + " " + LimitText(v), OrderTokens(s.order) + limit);
    assert TailText(v) == AndText(v, 2) + " " + (OrderText(v) + " " + LimitText(v));
  }

  lemma EqualLexes(equal: string, tail: string, tailTs: seq<Token>)
    requires IsWord(equal) && LexesTo(tail, tailTs)
    ensures LexesTo("WHERE " + equal + " = $1 " + tail,
                    [Word("WHERE"), Word(equal), Punct('='), Param(1)] + tailTs)
  {
    hide Lex;
    NumberLexes(1);
    assert Itoa(1) == "1" && "$" + Itoa(1) == "$1";
    PunctLexes('=');
    assert ['='] == "=";
    var p1, p2, p3 := "$1" + " " + tail, "=" + " " + ("$1" + " " + tail), equal + " " + ("=" + " " + ("$1" + " " + tail));
    var t1 := [Param(1)] + tailTs;
    var t2 := [Punct('=')] + t1;
    var t3 := [Word(equal)] + t2;
    PieceThen("$1", [Param(1)], tail, tailTs);
    PieceThen("=", [Punct('=')], p1, t1);
    KeywordThen(equal, p2, t2);
    KeywordThen("WHERE", p3, t3);
    assert "WHERE " + equal + " = $1 " + tail == "WHERE" + " " + p3;
    assert [Word("WHERE"), Word(equal), Punct('='), Param(1)] + tailTs == [Word("WHERE")] + t3;
  }

  lemma FromLexes(table: string, equal: string, v: FormatValues, s: Statement)
    requires IsWord(table) && IsWord(equal)
    requires s == ListingStatement(s.columns, table, equal, v)
    ensures LexesTo(FromText(table, equal, v), FromTokens(s))
  {
    hide Lex, LexesTo, TailText, TailTokens, AsOfText, AsOfTokens, Tests, OrderRefs;
    TailLexes(v, s);
    EqualLexes(equal, TailText(v), TailTokens(s));
    AsOfLexes(v);
    var where := "WHERE " + equal + " = $1 " + TailText(v);
    var whereTs := [Word("WHERE"), Word(s.equal), Punct('='), Param(s.equalParam)] + TailTokens(s);
    var rest, restTs := AsOfText(v) + " " + where, AsOfTokens(s.asOf) + whereTs;
    PieceThen(AsOfText(v), AsOfTokens(s.asOf), where, whereTs);
    KeywordThen(table, rest, restTs);
    KeywordThen("FROM", table + " " + rest, [Word(table)] + restTs);
    assert FromText(table, equal, v) == "FROM" + " " + (table + " " + rest);
    assert FromTokens(s) == [Word("FROM")] + ([Word(table)] + restTs);
  }

  /** The printed statement reads back as the intended one. */
  lemma ListingReads(columns: seq<string>, table: string, equal: string, v: FormatValues)
    requires columns != [] && (forall c | c in columns :: IsWord(c)) && IsWord(table) && IsWord(equal)
    ensures var s := ListingStatement(columns, table, equal, v);
            Lex(ListingText(columns, table, equal, v)) == Some(StatementTokens(s))
            && Parse(StatementTokens(s)) == Some(s)
  {
    hide Lex, LexesTo, FromText, FromTokens, ColumnsTokens, Parse, Tests, OrderRefs, Join;
    var s := ListingStatement(columns, table, equal, v);
    ColumnsLexes(columns);
    FromLexes(table, equal, v, s);
    var from, list := FromText(table, equal, v), Join(columns, ", ");
    PieceThen(list, ColumnsTokens(columns), from, FromTokens(s));
    KeywordThen("SELECT", list + " " + from, ColumnsTokens(columns) + FromTokens(s));
    assert ListingText(columns, table, equal, v) == "SELECT" + " " + (list + " " + from);
    LexesWhole(ListingText(columns, table, equal, v), StatementTokens(s));
    ParseReads(s);
  }
}
