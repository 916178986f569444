/** An OAuth client's audience: joined with spaces when stored, split at white space when read. */
module Audience {
  import opened Sql

  /** unicode.IsSpace. */
  predicate IsSpace(c: char) {
    || '\t' <= c <= '\r' || c == ' ' || c == '\U{85}' || c == '\U{A0}' || c == '\U{1680}'
    || '\U{2000}' <= c <= '\U{200A}' || c == '\U{2028}' || c == '\U{2029}' || c == '\U{202F}'
    || c == '\U{205F}' || c == '\U{3000}'
  }

  function WordLength(s: string): (n: nat)
    ensures n <= |s| && (s != [] && !IsSpace(s[0]) ==> n > 0)
    ensures forall i | 0 <= i < n :: !IsSpace(s[i])
    ensures n < |s| ==> IsSpace(s[n])
  {
    if s == [] || IsSpace(s[0]) then 0 else 1 + WordLength(s[1..])
  }

  /** strings.Fields. */
  function Fields(s: string): seq<string>
    decreases |s|
  {
    if s == [] then []
    else if IsSpace(s[0]) then Fields(s[1..])
    else [s[..WordLength(s)]] + Fields(s[WordLength(s)..])
  }

  /** The column CreateOAuthClient writes. */
  function Stored(audience: seq<string>): string {
    Join(audience, " ")
  }

  function Flattened(fss: seq<string>): seq<string> {
    if fss == [] then [] else Fields(fss[0]) + Flattened(fss[1..])
  }

  predicate Clean(s: string) {
    s != [] && forall c | c in s :: !IsSpace(c)
  }

  lemma {:induction false} FieldsAroundSpace(a: string, b: string)
    ensures Fields(a + " " + b) == Fields(a) + Fields(b)
    decreases |a|
  {
    var s := a + " " + b;
    if a == [] {
      assert s[1..] == b;
    } else if IsSpace(a[0]) {
      assert s[1..] == a[1..] + " " + b;
      FieldsAroundSpace(a[1..], b);
    } else {
      var n, m := WordLength(a), WordLength(s);
      assert m == n by {
        assert forall i | 0 <= i < |a| :: s[i] == a[i];
        assert s[|a|] == ' ';
      }
      assert s[..n] == a[..n] && s[n..] == a[n..] + " " + b;
      FieldsAroundSpace(a[n..], b);
    }
  }

  /** Reading back a stored audience splits each of its elements in turn. */
  lemma {:induction false} ReadBack(audience: seq<string>)
    ensures Fields(Stored(audience)) == Flattened(audience)
  {
    if |audience| == 1 {
      assert audience[1..] == [];
    } else if |audience| > 1 {
      FieldsAroundSpace(audience[0], Stored(audience[1..]));
      ReadBack(audience[1..]);
    }
  }

  lemma {:induction false} FieldsAreClean(s: string)
    ensures forall w | w in Fields(s) :: Clean(w)
    decreases |s|
  {
    if s != [] {
      if IsSpace(s[0]) {
        FieldsAreClean(s[1..]);
      } else {
        FieldsAreClean(s[WordLength(s)..]);
      }
    }
  }

  lemma CleanIsOneField(s: string)
    requires Clean(s)
    ensures Fields(s) == [s]
  {
    assert forall i | 0 <= i < |s| :: s[i] in s;
    assert WordLength(s) == |s|;
    assert s[..|s|] == s && Fields(s[|s|..]) == [];
  }

  lemma {:induction false} CleanFlattened(audience: seq<string>)
    requires forall w | w in audience :: Clean(w)
    ensures Flattened(audience) == audience
  {
    if audience != [] {
      CleanIsOneField(audience[0]);
      CleanFlattened(audience[1..]);
      assert audience == [audience[0]] + audience[1..];
    }
  }

  /** An audience survives storage exactly when every element is non-empty and free of white space. */
  lemma RoundTripIff(audience: seq<string>)
    ensures Fields(Stored(audience)) == audience <==> forall w | w in audience :: Clean(w)
  {
    ReadBack(audience);
    FieldsAreClean(Stored(audience));
    if forall w | w in audience :: Clean(w) {
      CleanFlattened(audience);
    }
  }

  /** What was read back once is read back unchanged from then on. */
  lemma StoringIsIdempotent(audience: seq<string>)
    ensures Fields(Stored(Fields(Stored(audience)))) == Fields(Stored(audience))
  {
    FieldsAreClean(Stored(audience));
    RoundTripIff(Fields(Stored(audience)));
  }
}
