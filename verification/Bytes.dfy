/** Go strings: sequences of bytes, ordered byte by byte as the database orders its VARCHAR keys. */
module Bytes {

  /** One byte of a Go string, written as the character with that code. */
  type Byte = c: char | c as int < 256 witness 'a'

  /** A Go string. */
  type Str = seq<Byte>

  datatype Option<+T> = None | Some(value: T)
  {
    predicate IsFailure() { None? }
    function PropagateFailure<U>(): Option<U> requires None? { None }
    function Extract(): T requires Some? { value }
  }

  datatype Result<+T, +E> = Ok(value: T) | Err(error: E)

  /** Concatenation regroups to the right. */
  lemma Regroup<T>(a: seq<T>, b: seq<T>, c: seq<T>, d: seq<T>)
    ensures a + b + c + d == a + (b + (c + d))
  {
  }

  /** Strict lexicographic order on bytes. */
  predicate Less(a: Str, b: Str) {
    |b| > 0 && (|a| == 0 || a[0] < b[0] || (a[0] == b[0] && Less(a[1..], b[1..])))
  }

  lemma {:induction false} LessIrreflexive(a: Str)
    ensures !Less(a, a)
  {
    if |a| > 0 {
      LessIrreflexive(a[1..]);
    }
  }

  lemma {:induction false} LessTransitive(a: Str, b: Str, c: Str)
    requires Less(a, b) && Less(b, c)
    ensures Less(a, c)
  {
    if |a| > 0 && a[0] == b[0] == c[0] {
      LessTransitive(a[1..], b[1..], c[1..]);
    }
  }

  lemma {:induction false} LessTotal(a: Str, b: Str)
    ensures a == b || Less(a, b) || Less(b, a)
  {
    if |a| > 0 && |b| > 0 && a[0] == b[0] {
      LessTotal(a[1..], b[1..]);
      assert a == [a[0]] + a[1..] && b == [b[0]] + b[1..];
    }
  }

  /** Strictly increasing, hence free of repetitions. */
  predicate Increasing(s: seq<Str>) {
    forall i, j | 0 <= i < j < |s| :: Less(s[i], s[j])
  }

  function Elements<T>(s: seq<T>): set<T> {
    set x | x in s
  }

  predicate IsLeast(keys: set<Str>, m: Str) {
    m in keys && forall x | x in keys :: x == m || Less(m, x)
  }

  lemma {:induction false} LeastExists(keys: set<Str>)
    requires keys != {}
    ensures exists m :: IsLeast(keys, m)
  {
    var k :| k in keys;
    if keys == {k} {
      assert IsLeast(keys, k);
    } else {
      var rest := keys - {k};
      assert keys == rest + {k};
      LeastExists(rest);
      var r :| IsLeast(rest, r);
      LessTotal(k, r);
      var m := if Less(k, r) then k else r;
      forall x | x in keys ensures x == m || Less(m, x) {
        if x != k && m == k && x != r {
          LessTransitive(k, r, x);
        }
      }
      assert IsLeast(keys, m);
    }
  }

  lemma LeastUnique(keys: set<Str>)
    ensures forall m, n | IsLeast(keys, m) && IsLeast(keys, n) :: m == n
  {
    forall m, n | IsLeast(keys, m) && IsLeast(keys, n) ensures m == n {
      if m != n {
        LessTransitive(m, n, m);
        LessIrreflexive(m);
      }
    }
  }

  function Least(keys: set<Str>): (m: Str)
    requires keys != {}
    ensures IsLeast(keys, m)
  {
    LeastExists(keys);
    LeastUnique(keys);
    var m :| m in keys && IsLeast(keys, m);
    m
  }

  /** The keys in increasing order. */
  function Sorted(keys: set<Str>): (s: seq<Str>)
    ensures |s| == |keys|
    ensures forall x :: x in s <==> x in keys
  {
    if keys == {} then [] else [Least(keys)] + Sorted(keys - {Least(keys)})
  }

  lemma {:induction false} SortedIncreasing(keys: set<Str>)
    ensures Increasing(Sorted(keys))
  {
    if keys != {} {
      SortedIncreasing(keys - {Least(keys)});
    }
  }

  /** The head of an increasing list is its least element, and the tail holds the others. */
  lemma IncreasingHead(s: seq<Str>, keys: set<Str>)
    requires s != [] && Increasing(s)
    requires forall x :: x in s <==> x in keys
    ensures IsLeast(keys, s[0]) && Increasing(s[1..])
    ensures forall x :: x in s[1..] <==> x in keys - {s[0]}
  {
    assert s[0] in keys;
    forall x | x in keys ensures x == s[0] || Less(s[0], x) {
      assert x in s;
    }
    forall x ensures x in s[1..] <==> x in keys - {s[0]} {
      LessIrreflexive(s[0]);
      assert x in s <==> x == s[0] || x in s[1..];
    }
  }

  /** Only one increasing list enumerates a given set. */
  lemma {:induction false} IncreasingUnique(s: seq<Str>, keys: set<Str>)
    requires Increasing(s)
    requires forall x :: x in s <==> x in keys
    ensures s == Sorted(keys)
  {
    hide Less, IsLeast, Increasing;
    if s == [] {
      assert keys == {};
    } else {
      IncreasingHead(s, keys);
      assert Least(keys) == s[0] by { LeastUnique(keys); }
      IncreasingUnique(s[1..], keys - {s[0]});
      assert s == [s[0]] + s[1..];
    }
  }

  lemma {:induction false} IncreasingDistinct(s: seq<Str>, i: nat, j: nat)
    requires Increasing(s) && i < |s| && j < |s| && s[i] == s[j]
    ensures i == j
  {
    LessIrreflexive(s[i]);
  }

  /** The keys strictly above a bound. */
  function Above(keys: set<Str>, after: Option<Str>): set<Str> {
    match after
    case None => keys
    case Some(k) => set x | x in keys && Less(k, x)
  }

  /** What lies above the k-th smallest key is what follows it in the order. */
  lemma AboveSorted(keys: set<Str>, k: nat)
    requires 0 < k <= |keys|
    ensures Sorted(Above(keys, Some(Sorted(keys)[k - 1]))) == Sorted(keys)[k..]
  {
    var s := Sorted(keys);
    var tail := s[k..];
    SortedIncreasing(keys);
    forall x ensures x in tail <==> x in Above(keys, Some(s[k - 1])) {
      if x in Above(keys, Some(s[k - 1])) {
        var i :| 0 <= i < |s| && s[i] == x;
        if i < k {
          if i < k - 1 { LessTransitive(x, s[k - 1], x); }
          LessIrreflexive(x);
        }
        assert x == tail[i - k];
      }
    }
    IncreasingUnique(tail, Above(keys, Some(s[k - 1])));
  }

  /** Above the k-th smallest key of those above a bound: the bound no longer matters. */
  lemma AboveAbove(keys: set<Str>, after: Option<Str>, k: Str)
    requires k in Above(keys, after)
    ensures Above(Above(keys, after), Some(k)) == Above(keys, Some(k))
  {
    if after.Some? {
      forall x | x in keys && Less(k, x) ensures Less(after.value, x) {
        LessTransitive(after.value, k, x);
      }
    }
  }
}
