/** The URL query form of net/url: Values.Encode and ParseQuery. */
module QueryCodec {
  import opened Bytes

  /** url.Values: each key with its values in order. */
  type Values = map<Str, seq<Str>>

  datatype Pair = Pair(key: Str, value: Str)

  // ---------- percent escaping ----------

  predicate Unreserved(c: Byte) {
    'a' <= c <= 'z' || 'A' <= c <= 'Z' || '0' <= c <= '9' || c in "-_.~"
  }

  function HexDigit(n: int): (c: Byte)
    requires 0 <= n < 16
    ensures HexValue(c) == Some(n)
  {
    if n < 10 then '0' + n as char else 'A' + (n - 10) as char
  }

  function HexValue(c: Byte): (v: Option<int>)
    ensures v.Some? ==> 0 <= v.value < 16
  {
    if '0' <= c <= '9' then Some((c - '0') as int)
    else if 'a' <= c <= 'f' then Some((c - 'a') as int + 10)
    else if 'A' <= c <= 'F' then Some((c - 'A') as int + 10)
    else None
  }

  function EscapeByte(c: Byte): Str {
    if Unreserved(c) then [c]
    else if c == ' ' then ['+']
    else ['%', HexDigit(c as int / 16), HexDigit(c as int % 16)]
  }

  function Escape(s: Str): Str {
    if s == [] then [] else EscapeByte(s[0]) + Escape(s[1..])
  }

  function Unescape(s: Str): Option<Str> {
    if s == [] then Some([])
    else if s[0] == '%' then
      if |s| < 3 || HexValue(s[1]).None? || HexValue(s[2]).None? then None
      else
        match Unescape(s[3..])
        case None => None
        case Some(rest) => Some([(HexValue(s[1]).value * 16 + HexValue(s[2]).value) as char] + rest)
    else
      match Unescape(s[1..])
      case None => None
      case Some(rest) => Some([if s[0] == '+' then ' ' else s[0]] + rest)
  }

  /** One escaped byte is read as that byte, whatever follows it. */
  lemma UnescapeByte(c: Byte, rest: Str)
    requires Unescape(rest).Some?
    ensures Unescape(EscapeByte(c) + rest) == Some([c] + Unescape(rest).value)
  {
    if Unreserved(c) || c == ' ' {
      var h := if c == ' ' then '+' else c;
      assert ([h] + rest)[0] == h && ([h] + rest)[1..] == rest;
    } else {
      var h, l := HexDigit(c as int / 16), HexDigit(c as int % 16);
      var e := ['%', h, l] + rest;
      hide HexDigit, HexValue;
      assert e[0] == '%' && e[1] == h && e[2] == l && e[3..] == rest;
      assert (c as int / 16 * 16 + c as int % 16) as char == c;
    }
  }

  lemma {:induction false} UnescapeEscape(s: Str)
    ensures Unescape(Escape(s)) == Some(s)
  {
    hide EscapeByte;
    if s != [] {
      UnescapeEscape(s[1..]);
      UnescapeByte(s[0], Escape(s[1..]));
      assert s == [s[0]] + s[1..];
    }
  }

  predicate Delimiter(c: Byte) {
    c == '&' || c == '=' || c == ';'
  }

  lemma {:induction false} EscapeHasNoDelimiter(s: Str)
    ensures forall c | c in Escape(s) :: !Delimiter(c)
  {
    if s != [] {
      EscapeHasNoDelimiter(s[1..]);
    }
  }

  // ---------- cutting ----------

  /** The first position of a byte, or the length. */
  function IndexOf(s: Str, c: Byte): (i: nat)
    ensures i <= |s| && c !in s[..i] && (i < |s| ==> s[i] == c)
  {
    if s == [] || s[0] == c then 0 else 1 + IndexOf(s[1..], c)
  }

  function Before(s: Str, c: Byte): Str { s[..IndexOf(s, c)] }

  function After(s: Str, c: Byte): (r: Str)
    ensures s != [] ==> |r| < |s|
  {
    var i := IndexOf(s, c);
    if i == |s| then [] else s[i + 1..]
  }

  lemma CutAt(a: Str, c: Byte, b: Str)
    requires c !in a
    ensures Before(a + [c] + b, c) == a && After(a + [c] + b, c) == b
  {
    var s := a + [c] + b;
    var i := IndexOf(s, c);
    assert s[|a|] == c;
    assert i == |a|;
    assert s[..|a|] == a && s[|a| + 1..] == b;
  }

  lemma CutNowhere(a: Str, c: Byte)
    requires c !in a
    ensures Before(a, c) == a && After(a, c) == []
  {
    assert a[..|a|] == a;
  }

  // ---------- lists of pairs ----------

  function EncodePair(p: Pair): Str {
    Escape(p.key) + ['='] + Escape(p.value)
  }

  function EncodePairs(ps: seq<Pair>): Str {
    if ps == [] then []
    else if |ps| == 1 then EncodePair(ps[0])
    else EncodePair(ps[0]) + ['&'] + EncodePairs(ps[1..])
  }

  /** One `&`-separated piece; a missing `=` means an empty value. */
  function ParsePair(piece: Str): Option<Pair> {
    match (Unescape(Before(piece, '=')), Unescape(After(piece, '=')))
    case (Some(k), Some(v)) => Some(Pair(k, v))
    case _ => None
  }

  /** ParseQuery's loop; any failing piece makes the whole parse fail, empty pieces are skipped. */
  function ParsePairs(query: Str): Option<seq<Pair>>
    decreases |query|
  {
    if query == [] then Some([])
    else
      var piece := Before(query, '&');
      match ParsePairs(After(query, '&'))
      case None => None
      case Some(rest) =>
        if ';' in piece then None
        else if piece == [] then Some(rest)
        else
          match ParsePair(piece)
          case None => None
          case Some(p) => Some([p] + rest)
  }

  lemma PairRoundTrip(p: Pair)
    ensures ParsePair(EncodePair(p)) == Some(p)
    ensures '&' !in EncodePair(p) && ';' !in EncodePair(p) && EncodePair(p) != []
  {
    hide Escape, Unescape, Before, After;
    EscapeHasNoDelimiter(p.key);
    EscapeHasNoDelimiter(p.value);
    CutAt(Escape(p.key), '=', Escape(p.value));
    UnescapeEscape(p.key);
    UnescapeEscape(p.value);
  }

  lemma {:induction false} PairsRoundTrip(ps: seq<Pair>)
    ensures ParsePairs(EncodePairs(ps)) == Some(ps)
  {
    hide EncodePair, ParsePair, Before, After;
    if ps != [] {
      PairRoundTrip(ps[0]);
      PairsRoundTrip(ps[1..]);
      assert ps == [ps[0]] + ps[1..];
      if |ps| == 1 {
        CutNowhere(EncodePair(ps[0]), '&');
      } else {
        CutAt(EncodePair(ps[0]), '&', EncodePairs(ps[1..]));
      }
    }
  }

  // ---------- values ----------

  /** The values listed under one key, in order. */
  function ValuesOf(ps: seq<Pair>, key: Str): seq<Str> {
    if ps == [] then []
    else (if ps[0].key == key then [ps[0].value] else []) + ValuesOf(ps[1..], key)
  }

  function Collect(ps: seq<Pair>): Values {
    map k | k in (set p | p in ps :: p.key) :: ValuesOf(ps, k)
  }

  function Tagged(key: Str, values: seq<Str>): seq<Pair> {
    if values == [] then [] else [Pair(key, values[0])] + Tagged(key, values[1..])
  }

  function Flatten(keys: seq<Str>, values: Values): seq<Pair>
    requires forall k | k in keys :: k in values
  {
    if keys == [] then [] else Tagged(keys[0], values[keys[0]]) + Flatten(keys[1..], values)
  }

  /** Values.Encode: keys in increasing order, each with all its values. */
  function Encode(values: Values): Str {
    EncodePairs(Flatten(Sorted(values.Keys), values))
  }

  function Parse(query: Str): Option<Values> {
    match ParsePairs(query)
    case None => None
    case Some(ps) => Some(Collect(ps))
  }

  /** Values.Get: the first value, or the empty string. */
  function Get(values: Values, key: Str): Str {
    if key in values && values[key] != [] then values[key][0] else []
  }

  /** The printed form itself: keys in byte order, whatever order they were set in. */
  lemma TwoKeysEncoded(a: Str, v: Str, b: Str, w: Str)
    requires Less(a, b)
    ensures Encode(map[a := [v], b := [w]]) == Escape(a) + ['='] + Escape(v) + ['&'] + (Escape(b) + ['='] + Escape(w))
  {
    LessIrreflexive(a);
    var values: Values := map[a := [v], b := [w]];
    assert values.Keys == {a, b};
    hide Escape, Less, Sorted, Flatten, EncodePairs;
    SortedTwo(a, b);
    FlattenTwo(a, b, values);
    EncodeTwo(Pair(a, v), Pair(b, w));
  }

  lemma SortedTwo(a: Str, b: Str)
    requires Less(a, b)
    ensures Sorted({a, b}) == [a, b]
  {
    hide Less, Sorted;
    IncreasingUnique([a, b], {a, b});
  }

  lemma TaggedOne(key: Str, values: seq<Str>)
    requires |values| == 1
    ensures Tagged(key, values) == [Pair(key, values[0])]
  {
    assert values[1..] == [];
    assert Tagged(key, values[1..]) == [];
  }

  lemma FlattenTwo(a: Str, b: Str, values: Values)
    requires a in values && b in values && |values[a]| == 1 && |values[b]| == 1
    ensures Flatten([a, b], values) == [Pair(a, values[a][0]), Pair(b, values[b][0])]
  {
    TaggedOne(a, values[a]);
    TaggedOne(b, values[b]);
    hide Tagged;
    assert [a, b][1..] == [b] && [b][1..] == [];
    assert Flatten([b], values) == Tagged(b, values[b]);
  }

  lemma EncodeTwo(p: Pair, q: Pair)
    ensures EncodePairs([p, q]) == EncodePair(p) + ['&'] + EncodePair(q)
  {
    hide EncodePair;
    assert [p, q][1..] == [q];
  }

  /** Spaces become plus signs, reserved bytes upper-case hex, and the rest stays. */
  lemma EscapedForm()
    ensures Escape("x y") == "x+y" && Escape("&/") == "%26%2F" && Escape("~-") == "~-"
  {
    var two: Str, three: Str, four: Str := "x y", "&/", "~-";
    assert two[1..] == [' ', 'y'] && two[1..][1..] == ['y'] && two[1..][1..][1..] == [];
    assert three[1..] == ['/'] && three[1..][1..] == [];
    assert four[1..] == ['-'] && four[1..][1..] == [];
  }

  predicate NoEmptyList(values: Values) {
    forall k | k in values :: values[k] != []
  }

  lemma {:induction false} ValuesOfConcat(a: seq<Pair>, b: seq<Pair>, key: Str)
    ensures ValuesOf(a + b, key) == ValuesOf(a, key) + ValuesOf(b, key)
  {
    if a == [] {
      assert a + b == b;
    } else {
      var head := if a[0].key == key then [a[0].value] else [];
      var tail := a[1..];
      assert (a + b)[0] == a[0] && (a + b)[1..] == tail + b;
      ValuesOfConcat(tail, b, key);
      assert ValuesOf(a + b, key) == head + ValuesOf(tail + b, key);
      Regroup([], head, ValuesOf(tail, key), ValuesOf(b, key));
    }
  }

  lemma {:induction false} ValuesOfTagged(key: Str, values: seq<Str>, other: Str)
    ensures ValuesOf(Tagged(key, values), other) == if key == other then values else []
  {
    if values != [] {
      ValuesOfTagged(key, values[1..], other);
      assert Tagged(key, values)[1..] == Tagged(key, values[1..]);
      assert values == [values[0]] + values[1..];
    }
  }

  lemma {:induction false} ValuesOfFlatten(keys: seq<Str>, values: Values, key: Str)
    requires Increasing(keys)
    requires forall k | k in keys :: k in values
    ensures ValuesOf(Flatten(keys, values), key) == if key in keys then values[key] else []
  {
    if keys != [] {
      ValuesOfConcat(Tagged(keys[0], values[keys[0]]), Flatten(keys[1..], values), key);
      ValuesOfTagged(keys[0], values[keys[0]], key);
      ValuesOfFlatten(keys[1..], values, key);
      LessIrreflexive(keys[0]);
      assert keys == [keys[0]] + keys[1..];
    }
  }

  lemma {:induction false} HasKeyIffValues(ps: seq<Pair>, key: Str)
    ensures (exists p | p in ps :: p.key == key) <==> ValuesOf(ps, key) != []
  {
    if ps != [] {
      HasKeyIffValues(ps[1..], key);
      assert ps == [ps[0]] + ps[1..];
    }
  }

  /** ParseQuery never yields a key without values. */
  lemma ParseHasNoEmptyList(query: Str)
    ensures Parse(query).Some? ==> NoEmptyList(Parse(query).value)
  {
    if ParsePairs(query).Some? {
      var ps := ParsePairs(query).value;
      forall k | k in Collect(ps) ensures ValuesOf(ps, k) != [] {
        HasKeyIffValues(ps, k);
      }
    }
  }

  lemma CollectKeys(ps: seq<Pair>, key: Str)
    ensures key in Collect(ps) <==> ValuesOf(ps, key) != []
    ensures key in Collect(ps) ==> Collect(ps)[key] == ValuesOf(ps, key)
  {
    HasKeyIffValues(ps, key);
  }

  lemma CollectFlattenedAt(values: Values, key: Str)
    requires NoEmptyList(values)
    ensures var m := Collect(Flatten(Sorted(values.Keys), values));
            (key in m <==> key in values) && (key in values ==> m[key] == values[key])
  {
    var keys := Sorted(values.Keys);
    SortedIncreasing(values.Keys);
    hide Collect, Flatten, ValuesOf, Sorted, Increasing;
    ValuesOfFlatten(keys, values, key);
    CollectKeys(Flatten(keys, values), key);
  }

  /** Listing a map's pairs by increasing key and collecting them again. */
  lemma CollectFlattened(values: Values)
    requires NoEmptyList(values)
    ensures Collect(Flatten(Sorted(values.Keys), values)) == values
  {
    hide Collect, Flatten, Sorted, NoEmptyList;
    var m := Collect(Flatten(Sorted(values.Keys), values));
    forall key ensures (key in m <==> key in values) && (key in values ==> m[key] == values[key]) {
      CollectFlattenedAt(values, key);
    }
    assert m.Keys == values.Keys;
  }

  /** Parsing an encoded map gives the map back. */
  lemma RoundTrip(values: Values)
    requires NoEmptyList(values)
    ensures Parse(Encode(values)) == Some(values)
  {
    hide ParsePairs, EncodePairs, Flatten, Collect;
    var ps := Flatten(Sorted(values.Keys), values);
    PairsRoundTrip(ps);
    CollectFlattened(values);
  }
}
