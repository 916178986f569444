/** A reader for the SQL fragment that the storage layer prints, following the lexical rules of PostgreSQL. */
module Sql {
  import opened Bytes

  // ---------- decimal numbers ----------

  predicate IsDigit(c: char) { '0' <= c <= '9' }

  /** strconv.Itoa on a non-negative number. */
  function Itoa(n: nat): (s: string)
    ensures s != [] && forall c | c in s :: IsDigit(c)
  {
    (if n < 10 then [] else Itoa(n / 10)) + ['0' + (n % 10) as char]
  }

  function Atoi(s: string): nat
    requires forall c | c in s :: IsDigit(c)
  {
    if s == [] then 0
    else
      var last := s[|s| - 1];
      assert last in s && IsDigit(last);
      Atoi(s[..|s| - 1]) * 10 + (last - '0') as int
  }

  lemma {:induction false} AtoiItoa(n: nat)
    ensures Atoi(Itoa(n)) == n
  {
    var s := Itoa(n);
    var front := if n < 10 then [] else Itoa(n / 10);
    assert s[..|s| - 1] == front;
    if n >= 10 {
      AtoiItoa(n / 10);
    }
  }

  // ---------- tokens ----------

  datatype Token =
    | Quoted(name: string)
    | Literal(text: string)
    | Word(name: string)
    | Param(index: nat)
    | Number(value: nat)
    | Punct(mark: char)

  predicate IsPunct(c: char) { c in "().,>=" }

  predicate IsWordStart(c: char) { 'a' <= c <= 'z' || 'A' <= c <= 'Z' || c == '_' }

  predicate IsWordChar(c: char) { IsWordStart(c) || IsDigit(c) }

  predicate IsWord(w: string) {
    w != [] && IsWordStart(w[0]) && forall c | c in w :: IsWordChar(c)
  }

  /** The length of the longest prefix of digits, or of word characters. */
  function DigitSpan(s: string): (n: nat)
    ensures n <= |s| && forall c | c in s[..n] :: IsDigit(c)
  {
    if s == [] || !IsDigit(s[0]) then 0 else 1 + DigitSpan(s[1..])
  }

  function WordSpan(s: string): (n: nat)
    ensures n <= |s|
  {
    if s == [] || !IsWordChar(s[0]) then 0 else 1 + WordSpan(s[1..])
  }

  /** Doubling every quote character: strings.ReplaceAll(v, q, q+q). */
  function Doubled(v: string, quote: char): string {
    if v == [] then []
    else (if v[0] == quote then [quote, quote] else [v[0]]) + Doubled(v[1..], quote)
  }

  /** Reads up to the closing quote; a doubled quote stands for itself. */
  function ReadQuoted(s: string, quote: char): (r: Option<(string, string)>)
    ensures r.Some? ==> |r.value.1| < |s|
  {
    if s == [] then None
    else if s[0] != quote then
      match ReadQuoted(s[1..], quote)
      case None => None
      case Some((v, rest)) => Some(([s[0]] + v, rest))
    else if |s| > 1 && s[1] == quote then
      match ReadQuoted(s[2..], quote)
      case None => None
      case Some((v, rest)) => Some(([quote] + v, rest))
    else Some(([], s[1..]))
  }

  function Prepend(t: Token, ts: Option<seq<Token>>): Option<seq<Token>> {
    if ts.None? then None else Some([t] + ts.value)
  }

  function Lex(s: string): Option<seq<Token>>
    decreases |s|
  {
    if s == [] then Some([])
    else if s[0] == ' ' then Lex(s[1..])
    else if IsPunct(s[0]) then Prepend(Punct(s[0]), Lex(s[1..]))
    else if s[0] == '"' || s[0] == '\'' then
      match ReadQuoted(s[1..], s[0])
      case None => None
      case Some((v, rest)) => Prepend(if s[0] == '"' then Quoted(v) else Literal(v), Lex(rest))
    else if s[0] == '$' then
      var n := DigitSpan(s[1..]);
      if n == 0 then None else Prepend(Param(Atoi(s[1..][..n])), Lex(s[1 + n..]))
    else if IsDigit(s[0]) then
      var n := DigitSpan(s);
      Prepend(Number(Atoi(s[..n])), Lex(s[n..]))
    else if IsWordStart(s[0]) then
      var n := WordSpan(s);
      Prepend(Word(s[..n]), Lex(s[n..]))
    else None
  }

  // ---------- what each printed piece lexes to ----------

  lemma {:induction false} DigitSpanIs(d: string, rest: string)
    requires forall c | c in d :: IsDigit(c)
    requires rest == [] || !IsDigit(rest[0])
    ensures DigitSpan(d + rest) == |d|
  {
    if d == [] {
      assert d + rest == rest;
    } else {
      DigitSpanIs(d[1..], rest);
      assert (d + rest)[1..] == d[1..] + rest;
    }
  }

  lemma {:induction false} WordSpanIs(w: string, rest: string)
    requires forall c | c in w :: IsWordChar(c)
    requires rest == [] || !IsWordChar(rest[0])
    ensures WordSpan(w + rest) == |w|
  {
    if w == [] {
      assert w + rest == rest;
    } else {
      WordSpanIs(w[1..], rest);
      assert (w + rest)[1..] == w[1..] + rest;
    }
  }

  lemma {:induction false} QuotedReads(v: string, quote: char, rest: string)
    requires rest == [] || rest[0] != quote
    ensures ReadQuoted(Doubled(v, quote) + [quote] + rest, quote) == Some((v, rest))
  {
    var s := Doubled(v, quote) + [quote] + rest;
    if v == [] {
      assert s == [quote] + rest;
      assert s[1..] == rest;
    } else {
      QuotedReads(v[1..], quote, rest);
      var tail := Doubled(v[1..], quote) + [quote] + rest;
      assert s[if v[0] == quote then 2 else 1..] == tail;
      assert v == [v[0]] + v[1..];
    }
  }

  lemma LexWord(w: string, rest: string)
    requires IsWord(w) && (rest == [] || !IsWordChar(rest[0]))
    ensures Lex(w + rest) == Prepend(Word(w), Lex(rest))
  {
    var s := w + rest;
    WordSpanIs(w, rest);
    assert s[..|w|] == w && s[|w|..] == rest && s[0] == w[0];
  }

  lemma LexQuoted(v: string, quote: char, rest: string)
    requires quote == '"' || quote == '\''
    requires rest == [] || rest[0] != quote
    ensures Lex([quote] + Doubled(v, quote) + [quote] + rest)
         == Prepend(if quote == '"' then Quoted(v) else Literal(v), Lex(rest))
  {
    hide ReadQuoted, Doubled;
    var s := [quote] + Doubled(v, quote) + [quote] + rest;
    QuotedReads(v, quote, rest);
    assert s[1..] == Doubled(v, quote) + [quote] + rest;
  }

  lemma LexDigits(d: string, rest: string)
    requires d != [] && forall c | c in d :: IsDigit(c)
    requires rest == [] || !IsDigit(rest[0])
    ensures Lex(d + rest) == Prepend(Number(Atoi(d)), Lex(rest))
  {
    hide Atoi;
    DigitSpanIs(d, rest);
    var s := d + rest;
    assert s[0] == d[0] && s[..|d|] == d && s[|d|..] == rest;
  }

  lemma LexDollar(d: string, rest: string)
    requires d != [] && forall c | c in d :: IsDigit(c)
    requires rest == [] || !IsDigit(rest[0])
    ensures Lex(['$'] + d + rest) == Prepend(Param(Atoi(d)), Lex(rest))
  {
    hide Atoi;
    DigitSpanIs(d, rest);
    var s := d + rest;
    assert s[..|d|] == d;
    var t := ['$'] + d + rest;
    assert t[1..] == s && t[1 + |d|..] == rest;
  }

  lemma LexNumber(n: nat, rest: string)
    requires rest == [] || !IsDigit(rest[0])
    ensures Lex(Itoa(n) + rest) == Prepend(Number(n), Lex(rest))
    ensures Lex(['$'] + Itoa(n) + rest) == Prepend(Param(n), Lex(rest))
  {
    hide Lex, Itoa;
    LexDigits(Itoa(n), rest);
    LexDollar(Itoa(n), rest);
    AtoiItoa(n);
  }

  lemma LexPunct(c: char, rest: string)
    requires IsPunct(c)
    ensures Lex([c] + rest) == Prepend(Punct(c), Lex(rest))
  {
    assert ([c] + rest)[1..] == rest;
  }

  lemma LexSpace(rest: string)
    ensures Lex([' '] + rest) == Lex(rest)
  {
    assert ([' '] + rest)[1..] == rest;
  }

  // ---------- pieces joined by separators ----------

  function Append(ts: seq<Token>, rest: Option<seq<Token>>): Option<seq<Token>> {
    if rest.None? then None else Some(ts + rest.value)
  }

  /** What may follow a printed piece. */
  predicate Boundary(rest: string) {
    rest == [] || rest[0] in " ),"
  }

  /** Wherever a boundary follows it, the piece lexes to exactly these tokens. */
  ghost predicate LexesTo(piece: string, ts: seq<Token>) {
    forall rest: string | Boundary(rest) :: Lex(piece + rest) == Append(ts, Lex(rest))
  }

  /** A separator that opens with a boundary and lexes the same whatever follows. */
  ghost predicate SeparatesAs(sep: string, ts: seq<Token>) {
    && sep != [] && Boundary(sep)
    && forall rest: string :: Lex(sep + rest) == Append(ts, Lex(rest))
  }

  /** strings.Join. */
  function Join(pieces: seq<string>, sep: string): string {
    if pieces == [] then []
    else if |pieces| == 1 then pieces[0]
    else pieces[0] + sep + Join(pieces[1..], sep)
  }

  function JoinTokens(tss: seq<seq<Token>>, sep: seq<Token>): seq<Token> {
    if tss == [] then []
    else if |tss| == 1 then tss[0]
    else tss[0] + sep + JoinTokens(tss[1..], sep)
  }

  lemma LexesWhole(piece: string, ts: seq<Token>)
    requires LexesTo(piece, ts)
    ensures Lex(piece) == Some(ts)
  {
    assert piece + [] == piece && ts + [] == ts;
    assert Lex(piece + []) == Append(ts, Lex([]));
  }

  lemma LexesEmpty()
    ensures LexesTo([], [])
  {
    forall rest: string | Boundary(rest) ensures Lex([] + rest) == Append([], Lex(rest)) {
      assert [] + rest == rest;
      assert Lex(rest).Some? ==> [] + Lex(rest).value == Lex(rest).value;
    }
  }

  lemma {:induction false} JoinLexes(pieces: seq<string>, tss: seq<seq<Token>>, sep: string, sepTs: seq<Token>)
    requires |pieces| == |tss|
    requires forall i | 0 <= i < |pieces| :: LexesTo(pieces[i], tss[i])
    requires SeparatesAs(sep, sepTs)
    ensures LexesTo(Join(pieces, sep), JoinTokens(tss, sepTs))
  {
    if |pieces| == 0 {
      LexesEmpty();
    } else if |pieces| == 1 {
      assert LexesTo(pieces[0], tss[0]);
    } else {
      var tail, tailTs := Join(pieces[1..], sep), JoinTokens(tss[1..], sepTs);
      JoinLexes(pieces[1..], tss[1..], sep, sepTs);
      forall rest: string | Boundary(rest)
        ensures Lex(pieces[0] + sep + tail + rest) == Append(tss[0] + sepTs + tailTs, Lex(rest))
      {
        JoinStep(pieces[0], tss[0], sep, sepTs, tail, tailTs, rest);
      }
    }
  }

  lemma AppendTwice(ts: seq<Token>, us: seq<Token>, whole: Option<seq<Token>>,
                    mid: Option<seq<Token>>, rest: Option<seq<Token>>)
    requires whole == Append(ts, mid) && mid == Append(us, rest)
    ensures whole == Append(ts + us, rest)
  {
    if rest.Some? {
      assert ts + (us + rest.value) == ts + us + rest.value;
    }
  }

  lemma SeparatorThen(sep: string, sepTs: seq<Token>, tail: string, tailTs: seq<Token>, rest: string)
    requires SeparatesAs(sep, sepTs) && LexesTo(tail, tailTs) && Boundary(rest)
    ensures Lex(sep + (tail + rest)) == Append(sepTs + tailTs, Lex(rest))
  {
    hide Lex;
    AppendTwice(sepTs, tailTs, Lex(sep + (tail + rest)), Lex(tail + rest), Lex(rest));
  }

  lemma JoinStep(piece: string, ts: seq<Token>, sep: string, sepTs: seq<Token>,
                 tail: string, tailTs: seq<Token>, rest: string)
    requires LexesTo(piece, ts) && SeparatesAs(sep, sepTs) && LexesTo(tail, tailTs) && Boundary(rest)
    ensures Lex(piece + sep + tail + rest) == Append(ts + sepTs + tailTs, Lex(rest))
  {
    hide Lex;
    var after := sep + (tail + rest);
    assert piece + sep + tail + rest == piece + after;
    assert ts + sepTs + tailTs == ts + (sepTs + tailTs);
    assert Boundary(after) by { assert after[0] == sep[0]; }
    SeparatorThen(sep, sepTs, tail, tailTs, rest);
    AppendTwice(ts, sepTs + tailTs, Lex(piece + after), Lex(after), Lex(rest));
  }

  lemma SpaceSeparates()
    ensures SeparatesAs(" ", [])
  {
    forall rest: string ensures Lex(" " + rest) == Append([], Lex(rest)) {
      LexSpace(rest);
      assert Lex(rest).Some? ==> [] + Lex(rest).value == Lex(rest).value;
    }
  }

  lemma CommaSeparates()
    ensures SeparatesAs(",", [Punct(',')])
    ensures SeparatesAs(", ", [Punct(',')])
  {
    forall rest: string ensures Lex("," + rest) == Append([Punct(',')], Lex(rest)) {
      LexPunct(',', rest);
    }
    forall rest: string ensures Lex(", " + rest) == Append([Punct(',')], Lex(rest)) {
      assert ", " + rest == [','] + ([' '] + rest);
      LexPunct(',', [' '] + rest);
      LexSpace(rest);
    }
  }

  lemma WordSeparates(w: string)
    requires IsWord(w)
    ensures SeparatesAs(" " + w + " ", [Word(w)])
  {
    var sep := " " + w + " ";
    forall rest: string ensures Lex(sep + rest) == Append([Word(w)], Lex(rest)) {
      assert sep + rest == [' '] + (w + ([' '] + rest));
      LexSpace(w + ([' '] + rest));
      LexWord(w, [' '] + rest);
      LexSpace(rest);
    }
  }

  lemma WordLexes(w: string)
    requires IsWord(w)
    ensures LexesTo(w, [Word(w)])
  {
    forall rest: string | Boundary(rest) ensures Lex(w + rest) == Append([Word(w)], Lex(rest)) {
      LexWord(w, rest);
    }
  }

  lemma NumberLexes(n: nat)
    ensures LexesTo(Itoa(n), [Number(n)])
    ensures LexesTo("$" + Itoa(n), [Param(n)])
  {
    forall rest: string | Boundary(rest)
      ensures Lex(Itoa(n) + rest) == Append([Number(n)], Lex(rest))
      ensures Lex("$" + Itoa(n) + rest) == Append([Param(n)], Lex(rest))
    {
      LexNumber(n, rest);
    }
  }

  lemma PunctLexes(c: char)
    requires IsPunct(c)
    ensures LexesTo([c], [Punct(c)])
  {
    forall rest: string | Boundary(rest) ensures Lex([c] + rest) == Append([Punct(c)], Lex(rest)) {
      LexPunct(c, rest);
    }
  }

  lemma LiteralLexes(v: string)
    ensures LexesTo("'" + Doubled(v, '\'') + "'", [Literal(v)])
  {
    forall rest: string | Boundary(rest)
      ensures Lex("'" + Doubled(v, '\'') + "'" + rest) == Append([Literal(v)], Lex(rest))
    {
      LexQuoted(v, '\'', rest);
    }
  }

  lemma PieceThen(piece: string, ts: seq<Token>, tail: string, tailTs: seq<Token>)
    requires LexesTo(piece, ts) && LexesTo(tail, tailTs)
    ensures LexesTo(piece + " " + tail, ts + tailTs)
  {
    hide Lex;
    SpaceSeparates();
    JoinLexes([piece, tail], [ts, tailTs], " ", []);
    assert [piece, tail][1..] == [tail] && [ts, tailTs][1..] == [tailTs];
    assert Join([piece, tail], " ") == piece + " " + tail;
    assert JoinTokens([ts, tailTs], []) == ts + tailTs;
  }

  lemma KeywordThen(w: string, piece: string, ts: seq<Token>)
    requires IsWord(w) && LexesTo(piece, ts)
    ensures LexesTo(w + " " + piece, [Word(w)] + ts)
  {
    hide Lex;
    SpaceSeparates();
    WordLexes(w);
    JoinLexes([w, piece], [[Word(w)], ts], " ", []);
    assert [w, piece][1..] == [piece] && [[Word(w)], ts][1..] == [ts];
    assert Join([w, piece], " ") == w + " " + piece;
    assert JoinTokens([[Word(w)], ts], []) == [Word(w)] + ts;
  }
}
