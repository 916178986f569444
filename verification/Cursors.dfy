/** Pagination cursors: key/value maps in URL query form inside URL-safe Base64. */
module Cursors {
  import opened Bytes
  import Base64Url
  import QueryCodec

  /** A `*Cursor`: nil, or a pointer to its text. */
  type CursorPtr = Option<Str>

  /** What Cursor.Values returns: a nil map, an error, or a map. */
  datatype Lookup = NilMap | InvalidCursor | Found(values: QueryCodec.Values)
  {
    /** A nil Go map reads like an empty one. */
    function AsMap(): QueryCodec.Values {
      if Found? then values else map[]
    }
  }

  function Values(c: CursorPtr): Lookup {
    if c.None? || c.value == [] then NilMap
    else
      match Base64Url.Decode(c.value)
      case None => InvalidCursor
      case Some(query) =>
        match QueryCodec.Parse(query)
        case None => InvalidCursor
        case Some(values) => Found(values)
  }

  /** NewCursorFromValues on a non-nil map. */
  function FromValues(values: QueryCodec.Values): Str {
    Base64Url.Encode(QueryCodec.Encode(values))
  }

  /** Reading a cursor made from a map gives the map; only the empty map reads back as nil. */
  lemma FromValuesRoundTrip(values: QueryCodec.Values)
    requires QueryCodec.NoEmptyList(values)
    ensures Values(Some(FromValues(values))) == if values == map[] then NilMap else Found(values)
    ensures FromValues(values) == [] <==> values == map[]
  {
    var query := QueryCodec.Encode(values);
    QueryCodec.RoundTrip(values);
    Base64Url.RoundTrip(query);
    assert QueryCodec.Parse([]) == Some(map[]);
    if values == map[] {
      assert values.Keys == {};
    }
  }

  // ---------- NewCursor ----------

  function KeyAt(kv: seq<Str>, i: nat): Str
    requires 2 * i + 1 < |kv|
  {
    kv[2 * i]
  }

  function ValueAt(kv: seq<Str>, i: nat): Str
    requires 2 * i + 1 < |kv|
  {
    kv[2 * i + 1]
  }

  /** Pair `i` is the last one, among the first `n`, that gives `key` a non-empty value. */
  predicate IsLast(kv: seq<Str>, n: nat, key: Str, i: nat)
    requires 2 * n <= |kv|
  {
    && i < n
    && KeyAt(kv, i) == key && ValueAt(kv, i) != []
    && forall j | i < j < n :: KeyAt(kv, j) == key ==> ValueAt(kv, j) == []
  }

  /** Each key holds its last non-empty value, and keys with no such value are absent. */
  ghost predicate LastNonEmpty(kv: seq<Str>, n: nat, values: QueryCodec.Values)
    requires 2 * n <= |kv|
  {
    && (forall key, i: nat | IsLast(kv, n, key, i) :: key in values && values[key] == [ValueAt(kv, i)])
    && (forall key | key in values :: exists i: nat :: IsLast(kv, n, key, i))
  }

  datatype NewCursorResult = OddPairs | Made(cursor: CursorPtr)

  method NewCursor(kv: seq<Str>) returns (r: NewCursorResult)
    ensures r.OddPairs? <==> |kv| % 2 != 0
    ensures |kv| == 0 ==> r == Made(None)
    ensures r.Made? && |kv| > 0 ==> r.cursor.Some?
    ensures r.Made? ==> !Values(r.cursor).InvalidCursor?
    ensures r.Made? ==> LastNonEmpty(kv, |kv| / 2, Values(r.cursor).AsMap())
    ensures |kv| == 2 ==> r == Made(Some(KeyCursor(kv[0], kv[1])))
  {
    hide FromValues, IsLast, LastNonEmpty, Base64Url.Decode, QueryCodec.Parse;
    LastNonEmptyStart(kv);
    if |kv| == 0 {
      return Made(None);
    }
    if |kv| % 2 != 0 {
      return OddPairs;
    }
    var values: QueryCodec.Values := map[];
    var i := 0;
    while i < |kv|
      invariant 0 <= i <= |kv| && i % 2 == 0
      invariant QueryCodec.NoEmptyList(values)
      invariant LastNonEmpty(kv, i / 2, values)
      invariant i == 0 ==> values == map[]
      invariant i == 2 ==> values == if kv[1] == [] then map[] else map[kv[0] := [kv[1]]]
    {
      ghost var before := values;
      if kv[i + 1] != [] {
        values := values[kv[i] := [kv[i + 1]]];
      }
      LastNonEmptyStep(kv, i / 2, before, values);
      i := i + 2;
    }
    FromValuesRoundTrip(values);
    r := Made(Some(FromValues(values)));
  }

  lemma LastNonEmptyStart(kv: seq<Str>)
    ensures LastNonEmpty(kv, 0, map[])
  {
  }

  /** Pair `n` decides for its own key when its value is non-empty; every other key keeps its last pair. */
  lemma IsLastStep(kv: seq<Str>, n: nat, key: Str, i: nat)
    requires 2 * (n + 1) <= |kv|
    ensures IsLast(kv, n + 1, key, i) <==>
              if key == KeyAt(kv, n) && ValueAt(kv, n) != [] then i == n else IsLast(kv, n, key, i)
  {
  }

  lemma LastNonEmptyStep(kv: seq<Str>, n: nat, before: QueryCodec.Values, after: QueryCodec.Values)
    requires 2 * (n + 1) <= |kv|
    requires LastNonEmpty(kv, n, before)
    requires after == if ValueAt(kv, n) != [] then before[KeyAt(kv, n) := [ValueAt(kv, n)]] else before
    ensures LastNonEmpty(kv, n + 1, after)
  {
    hide IsLast;
    var m := n + 1;
    forall key, i: nat | IsLast(kv, m, key, i)
      ensures i < m && key in after && after[key] == [ValueAt(kv, i)]
    {
      IsLastStep(kv, n, key, i);
      IsLastInRange(kv, m, key, i);
    }
    forall key | key in after ensures exists i: nat :: IsLast(kv, m, key, i) {
      if key == KeyAt(kv, n) && ValueAt(kv, n) != [] {
        IsLastStep(kv, n, key, n);
      } else {
        var i: nat :| IsLast(kv, n, key, i);
        IsLastStep(kv, n, key, i);
      }
    }
  }

  lemma IsLastInRange(kv: seq<Str>, n: nat, key: Str, i: nat)
    requires 2 * n <= |kv| && IsLast(kv, n, key, i)
    ensures i < n
  {
  }

  /** The one-pair cursor every paginator makes. */
  function KeyCursor(key: Str, value: Str): Str {
    FromValues(if value == [] then map[] else map[key := [value]])
  }

  lemma KeyCursorReads(key: Str, value: Str)
    ensures Values(Some(KeyCursor(key, value))) == if value == [] then NilMap else Found(map[key := [value]])
    ensures KeyCursor(key, value) == [] <==> value == []
  {
    var values: QueryCodec.Values := if value == [] then map[] else map[key := [value]];
    FromValuesRoundTrip(values);
    if value != [] {
      assert key in values;
    }
  }

  // ---------- Set ----------

  datatype SetOutcome = Done | BadCursor | Panic

  /** Values.Set on the decoded map, when there is one to write to. */
  function SetOn(c: CursorPtr, key: Str, value: Str): (SetOutcome, Str) {
    match Values(c)
    case NilMap => (Panic, if c.Some? then c.value else [])
    case InvalidCursor => (BadCursor, if c.Some? then c.value else [])
    case Found(values) => (Done, FromValues(values[key := [value]]))
  }

  /** Set succeeds exactly on a non-empty cursor that decodes, and then changes exactly that key. */
  lemma SetChangesOneKey(c: CursorPtr, key: Str, value: Str)
    ensures SetOn(c, key, value).0.Done? <==> c.Some? && c.value != [] && !Values(c).InvalidCursor?
    ensures SetOn(c, key, value).0.Panic? <==> c.None? || c.value == []
    ensures SetOn(c, key, value).0.Done? ==>
              Values(Some(SetOn(c, key, value).1)) == Found(Values(c).AsMap()[key := [value]])
  {
    if Values(c).Found? {
      var values := Values(c).values;
      QueryCodec.ParseHasNoEmptyList(Base64Url.Decode(c.value).value);
      var changed := values[key := [value]];
      FromValuesRoundTrip(changed);
      assert key in changed;
    }
  }

  class Cursor {
    var text: Str

    constructor (t: Str)
      ensures text == t
    {
      text := t;
    }

    /** The receiver may be nil; writing through it then panics, as does writing to the nil map of "". */
    static method Set(c: Cursor?, key: Str, value: Str) returns (outcome: SetOutcome)
      modifies c
      ensures c == null ==> outcome == Panic
      ensures c != null ==> (outcome, c.text) == SetOn(Some(old(c.text)), key, value)
    {
      var values: QueryCodec.Values := map[];
      if c != null {
        match Values(Some(c.text)) {
          case NilMap => return Panic;
          case InvalidCursor => return BadCursor;
          case Found(m) => values := m;
        }
      }
      values := values[key := [value]];
      if c == null {
        return Panic;
      }
      c.text := FromValues(values);
      return Done;
    }
  }
}
