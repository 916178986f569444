/** Comparing two lists by a key (internal/storage/helpers.go). */
module Differences {

  ghost function Image<T, V>(s: seq<T>, val: T -> V): set<V> {
    set x | x in s :: val(x)
  }

  /** What remains of a list, in order and with repetitions, without the elements whose key is in `seen`. */
  ghost function Without<T, V>(s: seq<T>, seen: set<V>, val: T -> V): seq<T> {
    if s == [] then []
    else (if val(s[0]) in seen then [] else [s[0]]) + Without(s[1..], seen, val)
  }

  method Diff<T, V(==)>(current: seq<T>, incoming: seq<T>, val: T -> V) returns (add: seq<T>, rm: seq<T>)
    ensures rm == Without(current, Image(incoming, val), val)
    ensures add == Without(incoming, Image(current, val), val)
  {
    var curr, incs: set<V> := {}, {};
    for i := 0 to |current|
      invariant curr == Image(current[..i], val)
    {
      assert current[..i + 1] == current[..i] + [current[i]];
      curr := curr + {val(current[i])};
    }
    for i := 0 to |incoming|
      invariant incs == Image(incoming[..i], val)
    {
      assert incoming[..i + 1] == incoming[..i] + [incoming[i]];
      incs := incs + {val(incoming[i])};
    }
    assert current[..|current|] == current && incoming[..|incoming|] == incoming;
    rm := KeepUnseen(current, incs, val);
    add := KeepUnseen(incoming, curr, val);
  }

  lemma WithoutStep<T, V>(s: seq<T>, seen: set<V>, val: T -> V)
    requires s != []
    ensures val(s[0]) in seen ==> Without(s, seen, val) == Without(s[1..], seen, val)
    ensures val(s[0]) !in seen ==> Without(s, seen, val) == [s[0]] + Without(s[1..], seen, val)
  {
  }

  /** The filtering loop of Diff. */
  method KeepUnseen<T, V(==)>(s: seq<T>, seen: set<V>, val: T -> V) returns (out: seq<T>)
    ensures out == Without(s, seen, val)
  {
    out := [];
    for i := 0 to |s|
      invariant out + Without(s[i..], seen, val) == Without(s, seen, val)
    {
      WithoutStep(s[i..], seen, val);
      assert s[i..][1..] == s[i + 1..];
      hide Without;
      if val(s[i]) !in seen {
        assert out + [s[i]] + Without(s[i + 1..], seen, val) == out + ([s[i]] + Without(s[i + 1..], seen, val));
        out := out + [s[i]];
      }
    }
  }

  // ---------- what the lists mean ----------

  /** `sub` comes from `s` by leaving elements out. */
  ghost predicate Subsequence<T>(sub: seq<T>, s: seq<T>)
    decreases |s|
  {
    sub == [] || (s != [] && if sub[0] == s[0] then Subsequence(sub[1..], s[1..]) else Subsequence(sub, s[1..]))
  }

  /** Exactly the elements with an unseen key remain, each as often as before. */
  lemma {:induction false} WithoutCount<T, V>(s: seq<T>, seen: set<V>, val: T -> V, x: T)
    ensures multiset(Without(s, seen, val))[x] == if val(x) in seen then 0 else multiset(s)[x]
  {
    if s != [] {
      WithoutCount(s[1..], seen, val, x);
      assert s == [s[0]] + s[1..];
    }
  }

  lemma {:induction false} WithoutMembers<T, V>(s: seq<T>, seen: set<V>, val: T -> V, x: T)
    ensures x in Without(s, seen, val) <==> x in s && val(x) !in seen
  {
    if s != [] {
      WithoutMembers(s[1..], seen, val, x);
      assert s == [s[0]] + s[1..];
    }
  }

  /** They remain in the same order. */
  lemma {:induction false} WithoutSubsequence<T, V>(s: seq<T>, seen: set<V>, val: T -> V)
    ensures Subsequence(Without(s, seen, val), s)
  {
    if s != [] {
      var rest := Without(s[1..], seen, val);
      WithoutSubsequence(s[1..], seen, val);
      if val(s[0]) !in seen {
        assert ([s[0]] + rest)[1..] == rest;
      } else if rest != [] {
        WithoutMembers(s[1..], seen, val, rest[0]);
        assert Without(s, seen, val) == rest;
      }
    }
  }

  lemma WithoutImage<T, V>(s: seq<T>, seen: set<V>, val: T -> V)
    ensures Image(Without(s, seen, val), val) == Image(s, val) - seen
  {
    var left := Without(s, seen, val);
    forall v | v in Image(left, val) ensures v in Image(s, val) - seen {
      var x :| x in left && val(x) == v;
      WithoutMembers(s, seen, val, x);
    }
    forall v | v in Image(s, val) - seen ensures v in Image(left, val) {
      var x :| x in s && val(x) == v;
      WithoutMembers(s, seen, val, x);
    }
  }

  /** Removing one list and adding the other turns the current keys into the incoming ones; they do not overlap. */
  lemma DiffConverges<T, V>(current: seq<T>, incoming: seq<T>, val: T -> V)
    ensures var rm := Without(current, Image(incoming, val), val);
            var add := Without(incoming, Image(current, val), val);
            && Image(current, val) - Image(rm, val) + Image(add, val) == Image(incoming, val)
            && Image(rm, val) !! Image(add, val)
            && Image(add, val) !! Image(current, val)
  {
    WithoutImage(current, Image(incoming, val), val);
    WithoutImage(incoming, Image(current, val), val);
  }

  /** Nothing is left to do once the keys agree. */
  lemma DiffSettled<T, V>(current: seq<T>, incoming: seq<T>, val: T -> V)
    requires Image(current, val) == Image(incoming, val)
    ensures Without(current, Image(incoming, val), val) == [] == Without(incoming, Image(current, val), val)
  {
    WithoutImage(current, Image(incoming, val), val);
    WithoutImage(incoming, Image(current, val), val);
    assert Without(current, Image(incoming, val), val) == [] by {
      EmptyImage(Without(current, Image(incoming, val), val), val);
    }
    EmptyImage(Without(incoming, Image(current, val), val), val);
  }

  lemma EmptyImage<T, V>(s: seq<T>, val: T -> V)
    ensures s != [] ==> Image(s, val) != {}
  {
    assert s != [] ==> val(s[0]) in Image(s, val);
  }
}
