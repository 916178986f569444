/** The listing statement: its syntax tree, a parser from tokens, and what an answer to it may be. */
module Select {
  import opened Bytes
  import opened Sql

  /** A quoted column name; an empty qualifier means none. */
  datatype ColumnRef = ColumnRef(qualifier: string, name: string)

  /** `column > $param`. */
  datatype Test = Test(column: ColumnRef, param: nat)

  /** SELECT columns FROM table [AS OF ...] WHERE equal = $equalParam [AND (tests)] [ORDER BY ...] LIMIT n. */
  datatype Statement = Statement(
    columns: seq<string>, table: string, asOf: string, equal: string, equalParam: nat,
    tests: seq<Test>, order: seq<ColumnRef>, limit: nat)

  // ---------- parsing ----------

  function Expect(t: Token, ts: seq<Token>): Option<seq<Token>> {
    if ts != [] && ts[0] == t then Some(ts[1..]) else None
  }

  function ParseRef(ts: seq<Token>): (r: Option<(ColumnRef, seq<Token>)>)
    ensures r.Some? ==> |r.value.1| < |ts|
  {
    if |ts| >= 3 && ts[0].Quoted? && ts[1] == Punct('.') && ts[2].Quoted? then
      Some((ColumnRef(ts[0].name, ts[2].name), ts[3..]))
    else if |ts| >= 1 && ts[0].Quoted? then Some((ColumnRef("", ts[0].name), ts[1..]))
    else None
  }

  function ParseTest(ts: seq<Token>): (r: Option<(Test, seq<Token>)>)
    ensures r.Some? ==> |r.value.1| < |ts|
  {
    var (column, rest) :- ParseRef(ts);
    if |rest| >= 2 && rest[0] == Punct('>') && rest[1].Param? then
      Some((Test(column, rest[1].index), rest[2..]))
    else None
  }

  /** A conjunction of tests. */
  function ParseTests(ts: seq<Token>): Option<(seq<Test>, seq<Token>)>
    decreases |ts|
  {
    var (t, rest) :- ParseTest(ts);
    if rest != [] && rest[0] == Word("AND") then
      var (more, rest') :- ParseTests(rest[1..]);
      Some(([t] + more, rest'))
    else Some(([t], rest))
  }

  function ParseRefs(ts: seq<Token>): Option<(seq<ColumnRef>, seq<Token>)>
    decreases |ts|
  {
    var (c, rest) :- ParseRef(ts);
    if rest != [] && rest[0] == Punct(',') then
      var (more, rest') :- ParseRefs(rest[1..]);
      Some(([c] + more, rest'))
    else Some(([c], rest))
  }

  function ParseColumns(ts: seq<Token>): Option<(seq<string>, seq<Token>)> {
    if ts == [] || !ts[0].Word? then None
    else if |ts| > 1 && ts[1] == Punct(',') then
      var (more, rest) :- ParseColumns(ts[2..]);
      Some(([ts[0].name] + more, rest))
    else Some(([ts[0].name], ts[1..]))
  }

  /** A parenthesised conjunction. */
  function ParseWhere(ts: seq<Token>): Option<(seq<Test>, seq<Token>)> {
    var r0 :- Expect(Punct('('), ts);
    var (tests, r1) :- ParseTests(r0);
    var r2 :- Expect(Punct(')'), r1);
    Some((tests, r2))
  }

  // The three optional clauses; an absent one is empty.

  function ParseAnd(ts: seq<Token>): Option<(seq<Test>, seq<Token>)> {
    if ts != [] && ts[0] == Word("AND") then ParseWhere(ts[1..]) else Some(([], ts))
  }

  function ParseOrder(ts: seq<Token>): Option<(seq<ColumnRef>, seq<Token>)> {
    if |ts| >= 2 && ts[0] == Word("ORDER") && ts[1] == Word("BY") then ParseRefs(ts[2..]) else Some(([], ts))
  }

  function ParseAsOf(ts: seq<Token>): (string, seq<Token>) {
    if |ts| >= 5 && ts[..4] == [Word("AS"), Word("OF"), Word("SYSTEM"), Word("TIME")] && ts[4].Literal? then
      (ts[4].text, ts[5..])
    else ("", ts)
  }

  /** [AND (tests)] [ORDER BY ...] LIMIT n, up to the end. */
  function ParseTail(ts: seq<Token>): Option<(seq<Test>, seq<ColumnRef>, nat)> {
    var (tests, r0) :- ParseAnd(ts);
    var (order, r1) :- ParseOrder(r0);
    if |r1| == 2 && r1[0] == Word("LIMIT") && r1[1].Number? then Some((tests, order, r1[1].value)) else None
  }

  /** FROM table [AS OF ...] WHERE column = $n and the tail. */
  function ParseFrom(columns: seq<string>, ts: seq<Token>): Option<Statement> {
    if |ts| < 2 || ts[0] != Word("FROM") || !ts[1].Word? then None else
    var (asOf, r) := ParseAsOf(ts[2..]);
    if |r| < 4 || r[0] != Word("WHERE") || !r[1].Word? || r[2] != Punct('=') || !r[3].Param? then None else
    var (tests, order, limit) :- ParseTail(r[4..]);
    Some(Statement(columns, ts[1].name, asOf, r[1].name, r[3].index, tests, order, limit))
  }

  function Parse(ts: seq<Token>): Option<Statement> {
    var r :- Expect(Word("SELECT"), ts);
    var (columns, rest) :- ParseColumns(r);
    ParseFrom(columns, rest)
  }

  // ---------- the tokens of a statement ----------

  function RefTokens(c: ColumnRef): seq<Token> {
    if c.qualifier == [] then [Quoted(c.name)] else [Quoted(c.qualifier), Punct('.'), Quoted(c.name)]
  }

  function TestTokens(t: Test): seq<Token> {
    RefTokens(t.column) + [Punct('>'), Param(t.param)]
  }

  function TestsTokens(tests: seq<Test>): seq<Token> {
    if tests == [] then []
    else if |tests| == 1 then TestTokens(tests[0])
    else TestTokens(tests[0]) + [Word("AND")] + TestsTokens(tests[1..])
  }

  function RefsTokens(cs: seq<ColumnRef>): seq<Token> {
    if cs == [] then []
    else if |cs| == 1 then RefTokens(cs[0])
    else RefTokens(cs[0]) + [Punct(',')] + RefsTokens(cs[1..])
  }

  function ColumnsTokens(columns: seq<string>): seq<Token> {
    if columns == [] then []
    else if |columns| == 1 then [Word(columns[0])]
    else [Word(columns[0]), Punct(',')] + ColumnsTokens(columns[1..])
  }

  function WhereTokens(tests: seq<Test>): seq<Token> {
    [Punct('(')] + TestsTokens(tests) + [Punct(')')]
  }

  function AndTokens(tests: seq<Test>): seq<Token> {
    if tests == [] then [] else [Word("AND")] + WhereTokens(tests)
  }

  function OrderTokens(order: seq<ColumnRef>): seq<Token> {
    if order == [] then [] else [Word("ORDER"), Word("BY")] + RefsTokens(order)
  }

  function AsOfTokens(asOf: string): seq<Token> {
    if asOf == [] then [] else [Word("AS"), Word("OF"), Word("SYSTEM"), Word("TIME"), Literal(asOf)]
  }

  lemma ParseRefReads(c: ColumnRef, rest: seq<Token>)
    requires rest == [] || rest[0] != Punct('.')
    ensures ParseRef(RefTokens(c) + rest) == Some((c, rest))
  {
    var ts := RefTokens(c) + rest;
    assert ts[|RefTokens(c)|..] == rest;
  }

  lemma ParseTestReads(t: Test, rest: seq<Token>)
    ensures ParseTest(TestTokens(t) + rest) == Some((t, rest))
  {
    var mid := [Punct('>'), Param(t.param)] + rest;
    assert TestTokens(t) + rest == RefTokens(t.column) + mid;
    ParseRefReads(t.column, mid);
    assert mid[2..] == rest;
  }

  lemma ParseTestsStep(t: Test, tail: seq<Token>, more: seq<Test>, rest: seq<Token>)
    requires ParseTests(tail) == Some((more, rest))
    ensures ParseTests(TestTokens(t) + ([Word("AND")] + tail)) == Some(([t] + more, rest))
  {
    var mid := [Word("AND")] + tail;
    ParseTestReads(t, mid);
    assert mid[1..] == tail;
  }

  lemma ParseTestsLast(t: Test, rest: seq<Token>)
    requires rest == [] || rest[0] != Word("AND")
    ensures ParseTests(TestTokens(t) + rest) == Some(([t], rest))
  {
    ParseTestReads(t, rest);
  }

  lemma TestsTokensSplit(tests: seq<Test>, rest: seq<Token>)
    requires |tests| > 1
    ensures TestsTokens(tests) + rest == TestTokens(tests[0]) + ([Word("AND")] + (TestsTokens(tests[1..]) + rest))
  {
    hide TestTokens;
    var first, tail := TestTokens(tests[0]), TestsTokens(tests[1..]);
    assert TestsTokens(tests) == first + [Word("AND")] + tail;
    hide TestsTokens;
    Regroup(first, [Word("AND")], tail, rest);
  }

  lemma {:induction false} ParseTestsReads(tests: seq<Test>, rest: seq<Token>)
    requires tests != []
    requires rest == [] || rest[0] != Word("AND")
    ensures ParseTests(TestsTokens(tests) + rest) == Some((tests, rest))
  {
    if |tests| == 1 {
      assert tests == [tests[0]];
      ParseTestsLast(tests[0], rest);
    } else {
      assert tests == [tests[0]] + tests[1..];
      ParseTestsReads(tests[1..], rest);
      ParseTestsStep(tests[0], TestsTokens(tests[1..]) + rest, tests[1..], rest);
      TestsTokensSplit(tests, rest);
    }
  }

  lemma ParseRefsStep(c: ColumnRef, tail: seq<Token>, more: seq<ColumnRef>, rest: seq<Token>)
    requires ParseRefs(tail) == Some((more, rest))
    ensures ParseRefs(RefTokens(c) + ([Punct(',')] + tail)) == Some(([c] + more, rest))
  {
    var mid := [Punct(',')] + tail;
    ParseRefReads(c, mid);
    assert mid[1..] == tail;
  }

  lemma ParseRefsLast(c: ColumnRef, rest: seq<Token>)
    requires rest == [] || (rest[0] != Punct(',') && rest[0] != Punct('.'))
    ensures ParseRefs(RefTokens(c) + rest) == Some(([c], rest))
  {
    ParseRefReads(c, rest);
  }

  lemma RefsTokensSplit(cs: seq<ColumnRef>, rest: seq<Token>)
    requires |cs| > 1
    ensures RefsTokens(cs) + rest == RefTokens(cs[0]) + ([Punct(',')] + (RefsTokens(cs[1..]) + rest))
  {
    hide RefTokens;
    var first, tail := RefTokens(cs[0]), RefsTokens(cs[1..]);
    assert RefsTokens(cs) == first + [Punct(',')] + tail;
    hide RefsTokens;
    Regroup(first, [Punct(',')], tail, rest);
  }

  lemma {:induction false} ParseRefsReads(cs: seq<ColumnRef>, rest: seq<Token>)
    requires cs != []
    requires rest == [] || (rest[0] != Punct(',') && rest[0] != Punct('.'))
    ensures ParseRefs(RefsTokens(cs) + rest) == Some((cs, rest))
  {
    if |cs| == 1 {
      assert cs == [cs[0]];
      ParseRefsLast(cs[0], rest);
    } else {
      assert cs == [cs[0]] + cs[1..];
      ParseRefsReads(cs[1..], rest);
      ParseRefsStep(cs[0], RefsTokens(cs[1..]) + rest, cs[1..], rest);
      RefsTokensSplit(cs, rest);
    }
  }

  lemma ParseColumnsStep(c: string, tail: seq<Token>)
    ensures tail == [] || tail[0] != Punct(',') ==> ParseColumns([Word(c)] + tail) == Some(([c], tail))
    ensures ParseColumns(tail).Some? ==>
              ParseColumns([Word(c), Punct(',')] + tail) == Some(([c] + ParseColumns(tail).value.0, ParseColumns(tail).value.1))
  {
    assert ([Word(c)] + tail)[1..] == tail;
    assert ([Word(c), Punct(',')] + tail)[2..] == tail;
  }

  lemma {:induction false} ParseColumnsReads(columns: seq<string>, rest: seq<Token>)
    requires columns != []
    requires rest == [] || rest[0] != Punct(',')
    ensures ParseColumns(ColumnsTokens(columns) + rest) == Some((columns, rest))
  {
    hide ParseColumns;
    if |columns| == 1 {
      ParseColumnsStep(columns[0], rest);
      assert columns == [columns[0]];
    } else {
      var tail := ColumnsTokens(columns[1..]) + rest;
      ParseColumnsReads(columns[1..], rest);
      ParseColumnsStep(columns[0], tail);
      assert ColumnsTokens(columns) + rest == [Word(columns[0]), Punct(',')] + tail;
      assert columns == [columns[0]] + columns[1..];
    }
  }

  lemma ParseWhereReads(tests: seq<Test>, rest: seq<Token>)
    requires tests != []
    ensures ParseWhere(WhereTokens(tests) + rest) == Some((tests, rest))
  {
    hide ParseTests, TestsTokens;
    var mid := [Punct(')')] + rest;
    var ts := WhereTokens(tests) + rest;
    assert ts[1..] == TestsTokens(tests) + mid;
    ParseTestsReads(tests, mid);
    assert mid[1..] == rest;
  }

  lemma ParseAndReads(tests: seq<Test>, rest: seq<Token>)
    requires rest == [] || rest[0] != Word("AND")
    ensures ParseAnd(AndTokens(tests) + rest) == Some((tests, rest))
  {
    if tests == [] {
      assert AndTokens(tests) + rest == rest;
    } else {
      var where := WhereTokens(tests) + rest;
      assert AndTokens(tests) + rest == [Word("AND")] + where;
      assert ([Word("AND")] + where)[1..] == where;
      ParseWhereReads(tests, rest);
    }
  }

  lemma ParseOrderReads(order: seq<ColumnRef>, rest: seq<Token>)
    requires rest != [] && rest[0] == Word("LIMIT")
    ensures ParseOrder(OrderTokens(order) + rest) == Some((order, rest))
  {
    var ts := OrderTokens(order) + rest;
    if order == [] {
      assert ts == rest;
    } else {
      assert ts[2..] == RefsTokens(order) + rest;
      ParseRefsReads(order, rest);
    }
  }

  lemma ParseAsOfReads(asOf: string, rest: seq<Token>)
    requires rest != [] && rest[0] == Word("WHERE")
    ensures ParseAsOf(AsOfTokens(asOf) + rest) == (asOf, rest)
  {
    var ts := AsOfTokens(asOf) + rest;
    if asOf == [] {
      assert ts == rest;
      if |ts| >= 4 { assert ts[..4][0] == Word("WHERE"); }
    } else {
      assert ts[..4] == [Word("AS"), Word("OF"), Word("SYSTEM"), Word("TIME")];
      assert ts[5..] == rest;
    }
  }

  /** The clauses after the equality. */
  function TailTokens(s: Statement): seq<Token> {
    AndTokens(s.tests) + (OrderTokens(s.order) + [Word("LIMIT"), Number(s.limit)])
  }

  function FromTokens(s: Statement): seq<Token> {
    [Word("FROM"), Word(s.table)] + (AsOfTokens(s.asOf)
      + ([Word("WHERE"), Word(s.equal), Punct('='), Param(s.equalParam)] + TailTokens(s)))
  }

  function StatementTokens(s: Statement): seq<Token> {
    [Word("SELECT")] + (ColumnsTokens(s.columns) + FromTokens(s))
  }

  lemma ParseTailReads(s: Statement)
    ensures ParseTail(TailTokens(s)) == Some((s.tests, s.order, s.limit))
  {
    hide ParseAnd, ParseOrder, AndTokens, RefsTokens;
    var limit := [Word("LIMIT"), Number(s.limit)];
    var rest := OrderTokens(s.order) + limit;
    assert rest[0] == Word("ORDER") || rest[0] == Word("LIMIT");
    ParseAndReads(s.tests, rest);
    ParseOrderReads(s.order, limit);
  }

  lemma ParseFromReads(s: Statement)
    ensures ParseFrom(s.columns, FromTokens(s)) == Some(s)
  {
    var ts := FromTokens(s);
    var where := [Word("WHERE"), Word(s.equal), Punct('='), Param(s.equalParam)] + TailTokens(s);
    assert ts[2..] == AsOfTokens(s.asOf) + where;
    ParseAsOfReads(s.asOf, where);
    assert where[4..] == TailTokens(s);
    ParseTailReads(s);
  }

  /** Parsing a statement's tokens gives the statement. */
  lemma ParseReads(s: Statement)
    requires s.columns != []
    ensures Parse(StatementTokens(s)) == Some(s)
  {
    var ts, rest := StatementTokens(s), FromTokens(s);
    assert ts[1..] == ColumnsTokens(s.columns) + rest;
    assert rest[0] == Word("FROM");
    ParseColumnsReads(s.columns, rest);
    ParseFromReads(s);
  }

  lemma {:induction false} JoinedColumns(cs: seq<string>)
    ensures JoinTokens(seq(|cs|, i requires 0 <= i < |cs| => [Word(cs[i])]), [Punct(',')]) == ColumnsTokens(cs)
  {
    var tss := seq(|cs|, i requires 0 <= i < |cs| => [Word(cs[i])]);
    if |cs| > 1 {
      var tail := cs[1..];
      assert tss[1..] == seq(|tail|, i requires 0 <= i < |tail| => [Word(tail[i])]);
      JoinedColumns(tail);
    }
  }

  lemma ColumnsLexes(columns: seq<string>)
    requires forall c | c in columns :: IsWord(c)
    ensures LexesTo(Join(columns, ", "), ColumnsTokens(columns))
  {
    hide Lex;
    var tss := seq(|columns|, i requires 0 <= i < |columns| => [Word(columns[i])]);
    forall i | 0 <= i < |columns| ensures LexesTo(columns[i], tss[i]) {
      WordLexes(columns[i]);
    }
    CommaSeparates();
    JoinLexes(columns, tss, ", ", [Punct(',')]);
    JoinedColumns(columns);
  }

  // ---------- answers ----------

  /** A row as its columns' values. */
  type Row = map<string, Str>

  function Column(row: Row, name: string): Str {
    if name in row then row[name] else []
  }

  predicate Bound(param: nat, args: seq<Str>) {
    1 <= param <= |args|
  }

  predicate Passes(t: Test, args: seq<Str>, row: Row) {
    Bound(t.param, args) && Less(args[t.param - 1], Column(row, t.column.name))
  }

  predicate Matches(s: Statement, args: seq<Str>, row: Row) {
    && Bound(s.equalParam, args) && Column(row, s.equal) == args[s.equalParam - 1]
    && forall t | t in s.tests :: Passes(t, args, row)
  }

  /** Strictly earlier under ORDER BY. */
  predicate Earlier(order: seq<ColumnRef>, a: Row, b: Row) {
    order != [] &&
    var x, y := Column(a, order[0].name), Column(b, order[0].name);
    Less(x, y) || (x == y && Earlier(order[1..], a, b))
  }

  /**
   * An answer lists distinct matching rows of the table, none out of order; it holds at most `limit` rows,
   * all of them when it holds fewer, and leaves out no row that comes before one it lists.
   */
  ghost predicate Answers(s: Statement, args: seq<Str>, table: set<Row>, out: seq<Row>) {
    && (forall i, j | 0 <= i < j < |out| :: out[i] != out[j] && !Earlier(s.order, out[j], out[i]))
    && (forall row | row in out :: row in table && Matches(s, args, row))
    && |out| <= s.limit
    && (forall row | row in table && Matches(s, args, row) && row !in out ::
          |out| == s.limit && forall o | o in out :: !Earlier(s.order, row, o))
  }
}
