/** Following `next` from page to page. */
module Traversal {
  import opened Bytes
  import opened Cursors
  import opened Select
  import opened QueryText
  import opened Pagination
  import Sql

  // ---------- an answer is a keyset page ----------

  /** An increasing list that misses nothing below its members is a prefix of the sorted keys. */
  lemma DownwardClosedIsPrefix(s: seq<Str>, keys: set<Str>)
    requires Increasing(s)
    requires forall x | x in s :: x in keys
    requires forall x, y | x in keys && y in s && Less(x, y) :: x in s
    ensures |s| <= |keys| && s == Sorted(keys)[..|s|]
  {
    var rest := set x | x in keys && x !in s;
    var t := Sorted(rest);
    SortedIncreasing(rest);
    var whole := s + t;
    forall i, j | 0 <= i < j < |whole| ensures Less(whole[i], whole[j]) {
      if i < |s| <= j {
        assert whole[i] in s && whole[j] in t;
        LessTotal(whole[i], whole[j]);
      }
    }
    forall x ensures x in whole <==> x in keys {
      assert x in keys && x !in s ==> x in t;
    }
    IncreasingUnique(whole, keys);
  }

  lemma MatchesIff(l: Listing, owner: Str, after: Option<Str>, limit: nat, row: Row)
    ensures Matches(StatementFor(l, after, limit), ArgsFor(owner, after), row)
       <==> Listed(l, owner, row) && (after.Some? ==> Less(after.value, Column(row, l.key)))
  {
    var s, args := StatementFor(l, after, limit), ArgsFor(owner, after);
    if after.Some? {
      assert s.tests[0] in s.tests;
      assert Passes(s.tests[0], args, row) <==> Less(after.value, Column(row, l.key));
    }
  }

  lemma EarlierIff(l: Listing, a: Row, b: Row)
    ensures Earlier([ColumnRef("", l.key)], a, b) <==> Less(Column(a, l.key), Column(b, l.key))
  {
    assert [ColumnRef("", l.key)][1..] == [];
  }

  /** Whatever answer the database gives, its keys are the keyset page. */
  lemma AnswerIsPage(l: Listing, owner: Str, after: Option<Str>, limit: nat, snapshot: set<Row>, out: seq<Row>)
    requires UniqueKey(l, owner, snapshot)
    requires Answers(StatementFor(l, after, limit), ArgsFor(owner, after), snapshot, out)
    ensures Keys(l.key, out) == Page(KeySet(l, owner, snapshot), after, limit)
  {
    var ks, keys := Keys(l.key, out), Above(KeySet(l, owner, snapshot), after);
    AnswerIncreasing(l, owner, after, limit, snapshot, out);
    forall x | x in ks ensures x in keys {
      var i :| 0 <= i < |out| && Column(out[i], l.key) == x;
      assert out[i] in out;
      MatchesIff(l, owner, after, limit, out[i]);
    }
    forall x, y | x in keys && y in ks && Less(x, y) ensures x in ks {
      AnswerMisses(l, owner, after, limit, snapshot, out, x);
    }
    DownwardClosedIsPrefix(ks, keys);
    if |ks| < limit {
      forall x | x in keys ensures x in ks {
        AnswerMisses(l, owner, after, limit, snapshot, out, x);
      }
      IncreasingUnique(ks, keys);
    }
  }

  lemma AnswerIncreasing(l: Listing, owner: Str, after: Option<Str>, limit: nat, snapshot: set<Row>, out: seq<Row>)
    requires UniqueKey(l, owner, snapshot)
    requires Answers(StatementFor(l, after, limit), ArgsFor(owner, after), snapshot, out)
    ensures Increasing(Keys(l.key, out))
  {
    forall i, j | 0 <= i < j < |out| ensures Less(Column(out[i], l.key), Column(out[j], l.key)) {
      assert out[i] in out && out[j] in out;
      MatchesIff(l, owner, after, limit, out[i]);
      MatchesIff(l, owner, after, limit, out[j]);
      EarlierIff(l, out[j], out[i]);
      LessTotal(Column(out[i], l.key), Column(out[j], l.key));
    }
  }

  /** A key left out: the page is full and every listed key is at or below it. */
  lemma AnswerMisses(l: Listing, owner: Str, after: Option<Str>, limit: nat, snapshot: set<Row>, out: seq<Row>, x: Str)
    requires Answers(StatementFor(l, after, limit), ArgsFor(owner, after), snapshot, out)
    requires x in Above(KeySet(l, owner, snapshot), after)
    ensures x in Keys(l.key, out) || (|out| == limit && forall y | y in Keys(l.key, out) :: !Less(x, y))
  {
    var row :| row in snapshot && Listed(l, owner, row) && Column(row, l.key) == x;
    MatchesIff(l, owner, after, limit, row);
    if row in out {
      var i :| 0 <= i < |out| && out[i] == row;
      assert Keys(l.key, out)[i] == x;
    } else {
      forall y | y in Keys(l.key, out) ensures !Less(x, y) {
        var i :| 0 <= i < |out| && Column(out[i], l.key) == y;
        assert out[i] in out;
        EarlierIff(l, row, out[i]);
      }
    }
  }

  // ---------- traversals ----------

  /** One request of a traversal: the snapshot it was answered from and the rows of the answer. */
  datatype Visit = Visit(snapshot: set<Row>, out: seq<Row>)

  /** An answer to the statement for a position. */
  ghost predicate Fetched(l: Listing, owner: Str, limit: Option<int>, after: Option<Str>, v: Visit) {
    Answers(StatementFor(l, after, Asked(limit)), ArgsFor(owner, after), v.snapshot, v.out)
  }

  /** The position a client can go on from: the last key of a page that SetPagination takes for full, unless empty. */
  function NextPosition(l: Listing, limit: Option<int>, v: Visit): Option<Str> {
    var keys := Keys(l.key, v.out);
    if keys != [] && |keys| == Announced(limit) && keys[|keys| - 1] != [] then Some(keys[|keys| - 1]) else None
  }

  /** The limit SetPagination announces. */
  function Announced(limit: Option<int>): nat {
    Limit(Params(None, limit).GetLimit())
  }

  /** Each request goes on from where the one before it ended. */
  ghost predicate Follows(l: Listing, owner: Str, limit: Option<int>, after: Option<Str>, visits: seq<Visit>)
    decreases |visits|
  {
    && visits != []
    && Fetched(l, owner, limit, after, visits[0])
    && (|visits| > 1 ==>
          && NextPosition(l, limit, visits[0]).Some?
          && Follows(l, owner, limit, NextPosition(l, limit, visits[0]), visits[1..]))
  }

  predicate Finished(l: Listing, limit: Option<int>, visits: seq<Visit>) {
    visits != [] && NextPosition(l, limit, visits[|visits| - 1]).None?
  }

  /** All keys received, in the order received. */
  function Received(l: Listing, visits: seq<Visit>): seq<Str> {
    if visits == [] then [] else Keys(l.key, visits[0].out) + Received(l, visits[1..])
  }

  ghost predicate WellKeyed(l: Listing, owner: Str, visits: seq<Visit>) {
    forall v | v in visits :: UniqueKey(l, owner, v.snapshot)
  }

  /** What a request returns, and where it lets the client go on. */
  lemma FirstVisit(l: Listing, owner: Str, limit: Option<int>, after: Option<Str>, v: Visit)
    requires UniqueKey(l, owner, v.snapshot) && Fetched(l, owner, limit, after, v)
    ensures var page := Page(KeySet(l, owner, v.snapshot), after, Asked(limit));
            && Keys(l.key, v.out) == page
            && (NextPosition(l, limit, v).Some? ==> page != [] && NextPosition(l, limit, v).value == page[|page| - 1])
            && (NextPosition(l, limit, v).Some? <==>
                  page != [] && |page| == Announced(limit) && page[|page| - 1] != [])
  {
    AnswerIsPage(l, owner, after, Asked(limit), v.snapshot, v.out);
    hide UniqueKey, Fetched, Answers, KeySet, Page, Keys;
  }

  /** Nothing is below the empty key, so only a page of one can end in it. */
  lemma LastOfManyIsNotEmpty(page: seq<Str>)
    requires Increasing(page) && |page| > 1
    ensures page[|page| - 1] != []
  {
    assert Less(page[|page| - 2], page[|page| - 1]);
  }

  lemma PageIncreasing(keys: set<Str>, after: Option<Str>, n: nat)
    ensures Increasing(Page(keys, after, n))
    ensures forall x | x in Page(keys, after, n) :: x in Above(keys, after)
    ensures forall x | x in Above(keys, after) && x !in Page(keys, after, n) ::
              |Page(keys, after, n)| == n && forall y | y in Page(keys, after, n) :: Less(y, x)
  {
    var s := Sorted(Above(keys, after));
    SortedIncreasing(Above(keys, after));
    var page := Page(keys, after, n);
    forall x | x in Above(keys, after) && x !in page
      ensures |page| == n && forall y | y in page :: Less(y, x)
    {
      var i :| 0 <= i < |s| && s[i] == x;
      assert page == s[..|page|];
    }
  }

  /** The limit asked for is small enough to be printed as announced. */
  predicate Unclamped(limit: Option<int>) {
    limit.Some? ==> limit.value <= LIMIT_MAX
  }

  /** What is asked and what is announced: ten by default, and the same exactly for limits of at most a hundred. */
  lemma AnnouncedIsAskedIff(limit: Option<int>)
    ensures Announced(limit) == Asked(limit) <==> (limit.Some? ==> limit.value <= 100)
    ensures Unclamped(limit) <==> (limit.Some? ==> limit.value <= 100)
    ensures Announced(limit) == if limit.None? || limit.value <= 0 then 10 else Min(limit.value, 100)
    ensures Asked(limit) == if limit.None? || limit.value <= 0 then 10 else limit.value
  {
  }

  /** No page can end in the empty key. */
  ghost predicate NoEmptyEnd(l: Listing, owner: Str, limit: Option<int>, visits: seq<Visit>) {
    Asked(limit) >= 2 || forall v | v in visits :: [] !in KeySet(l, owner, v.snapshot)
  }

  /** There is a page to go on to exactly when this one is full. */
  lemma FullIffMore(l: Listing, owner: Str, limit: Option<int>, after: Option<Str>, visits: seq<Visit>)
    requires WellKeyed(l, owner, visits) && Unclamped(limit) && NoEmptyEnd(l, owner, limit, visits)
    requires Follows(l, owner, limit, after, visits)
    ensures var page := Page(KeySet(l, owner, visits[0].snapshot), after, Asked(limit));
            && Keys(l.key, visits[0].out) == page
            && NextPosition(l, limit, visits[0]) ==
                 if |page| == Asked(limit) then Some(page[|page| - 1]) else None
  {
    hide Fetched, NextPosition;
    var keys := KeySet(l, owner, visits[0].snapshot);
    var page := Page(keys, after, Asked(limit));
    assert visits[0] in visits;
    FirstVisit(l, owner, limit, after, visits[0]);
    PageIncreasing(keys, after, Asked(limit));
    if |page| > 1 {
      LastOfManyIsNotEmpty(page);
    } else if |page| == 1 {
      assert page[0] in page;
    }
  }

  lemma TailIsFine(l: Listing, owner: Str, limit: Option<int>, visits: seq<Visit>)
    requires visits != [] && WellKeyed(l, owner, visits) && NoEmptyEnd(l, owner, limit, visits)
    ensures WellKeyed(l, owner, visits[1..]) && NoEmptyEnd(l, owner, limit, visits[1..])
  {
    assert forall v | v in visits[1..] :: v in visits;
  }

  // ---------- with rows inserted and deleted between requests ----------

  /** Listed from `after` on: present in every snapshot of the traversal and above the position. */
  ghost predicate Throughout(l: Listing, owner: Str, after: Option<Str>, visits: seq<Visit>, x: Str) {
    forall v | v in visits :: x in Above(KeySet(l, owner, v.snapshot), after)
  }

  lemma {:induction false} ReceivedIncreasing(
    l: Listing, owner: Str, limit: Option<int>, after: Option<Str>, visits: seq<Visit>)
    requires WellKeyed(l, owner, visits) && Follows(l, owner, limit, after, visits)
    ensures Increasing(Received(l, visits))
    ensures after.Some? ==> forall x | x in Received(l, visits) :: Less(after.value, x)
    decreases |visits|
  {
    hide Fetched, NextPosition, Page, UniqueKey;
    assert visits[0] in visits;
    var keys := KeySet(l, owner, visits[0].snapshot);
    var page := Page(keys, after, Asked(limit));
    FirstVisit(l, owner, limit, after, visits[0]);
    PageIncreasing(keys, after, Asked(limit));
    var rest := Received(l, visits[1..]);
    if |visits| > 1 {
      var last := page[|page| - 1];
      assert forall v | v in visits[1..] :: v in visits;
      ReceivedIncreasing(l, owner, limit, Some(last), visits[1..]);
      ConcatIncreasing(page, rest);
      if after.Some? {
        forall x | x in rest ensures Less(after.value, x) {
          assert last in page;
          LessTransitive(after.value, last, x);
        }
      }
    } else {
      assert page + rest == page;
    }
  }

  lemma ConcatIncreasing(a: seq<Str>, b: seq<Str>)
    requires Increasing(a) && Increasing(b)
    requires a != [] && forall x | x in b :: Less(a[|a| - 1], x)
    ensures Increasing(a + b)
  {
    var s := a + b;
    forall i, j | 0 <= i < j < |s| ensures Less(s[i], s[j]) {
      if i < |a| <= j {
        assert s[j] in b;
        if i < |a| - 1 {
          LessTransitive(a[i], a[|a| - 1], s[j]);
        }
      }
    }
  }

  lemma {:induction false} ReceivedEverything(
    l: Listing, owner: Str, limit: Option<int>, after: Option<Str>, visits: seq<Visit>, x: Str)
    requires WellKeyed(l, owner, visits)
    requires Unclamped(limit) && NoEmptyEnd(l, owner, limit, visits)
    requires Follows(l, owner, limit, after, visits)
    requires Finished(l, limit, visits) && Throughout(l, owner, after, visits, x)
    ensures x in Received(l, visits)
    decreases |visits|
  {
    hide Fetched, NextPosition, Page, WellKeyed, NoEmptyEnd;
    assert visits[0] in visits;
    var keys := KeySet(l, owner, visits[0].snapshot);
    var page := Page(keys, after, Asked(limit));
    FullIffMore(l, owner, limit, after, visits);
    PageIncreasing(keys, after, Asked(limit));
    if x !in page {
      assert |visits| > 1;
      var last, tail := page[|page| - 1], visits[1..];
      assert last in page;
      TailIsFine(l, owner, limit, visits);
      assert Finished(l, limit, tail) by { assert tail[|tail| - 1] == visits[|visits| - 1]; }
      forall v | v in tail ensures x in Above(KeySet(l, owner, v.snapshot), Some(last)) {
        assert v in visits;
      }
      ReceivedEverything(l, owner, limit, Some(last), tail, x);
    }
  }

  /**
   * Rows may come and go between requests. Whatever the limit, a traversal returns keys in strictly increasing order,
   * so no row twice. Once finished it has returned every row that was there all along, given a limit that is printed
   * as announced and no page that can end in the empty key.
   */
  lemma ChangingTable(l: Listing, owner: Str, limit: Option<int>, visits: seq<Visit>)
    requires WellKeyed(l, owner, visits) && Follows(l, owner, limit, None, visits)
    ensures Increasing(Received(l, visits))
    ensures forall i, j | 0 <= i < |Received(l, visits)| && 0 <= j < |Received(l, visits)| ::
              Received(l, visits)[i] == Received(l, visits)[j] ==> i == j
    ensures Finished(l, limit, visits) && Unclamped(limit) && NoEmptyEnd(l, owner, limit, visits) ==>
              forall x | (forall v | v in visits :: x in KeySet(l, owner, v.snapshot)) :: x in Received(l, visits)
  {
    hide Follows, WellKeyed, NoEmptyEnd;
    ReceivedIncreasing(l, owner, limit, None, visits);
    var all := Received(l, visits);
    forall i, j | 0 <= i < |all| && 0 <= j < |all| && all[i] == all[j] ensures i == j {
      IncreasingDistinct(all, i, j);
    }
    if Finished(l, limit, visits) && Unclamped(limit) && NoEmptyEnd(l, owner, limit, visits) {
      forall x | (forall v | v in visits :: x in KeySet(l, owner, v.snapshot)) ensures x in Received(l, visits) {
        assert Throughout(l, owner, None, visits, x);
        ReceivedEverything(l, owner, limit, None, visits, x);
      }
    }
  }

  // ---------- on a fixed table ----------

  ghost predicate Fixed(snapshot: set<Row>, visits: seq<Visit>) {
    forall v | v in visits :: v.snapshot == snapshot
  }

  /** How many full pages n rows make. */
  function FullPages(n: nat, size: nat): nat
    requires size > 0
  {
    n / size
  }

  lemma FullPagesStep(n: nat, size: nat)
    requires size > 0
    ensures n < size ==> FullPages(n, size) == 0
    ensures n >= size ==> FullPages(n, size) == FullPages(n - size, size) + 1
  {
    if n >= size {
      var q, p := n / size, (n - size) / size;
      assert n == size * q + n % size && n - size == size * p + (n - size) % size;
      assert size * (q - p - 1) == size * q - size * p - size;
      MultipleInRange(size, q - p - 1);
    }
  }

  lemma MultipleInRange(d: int, k: int)
    requires 0 < d && -d < d * k < d
    ensures k == 0
  {
    assert k >= 1 ==> d * k >= d;
    assert k <= -1 ==> d * k <= -d;
  }

  /** A full page leaves exactly the rest of the order above its last key. */
  lemma FullPageRest(keys: set<Str>, after: Option<Str>, n: nat)
    requires 0 < n <= |Above(keys, after)|
    ensures var page := Page(keys, after, n);
            && |page| == n
            && Sorted(Above(keys, after)) == page + Sorted(Above(keys, Some(page[n - 1])))
  {
    var all := Above(keys, after);
    hide Above, Sorted, Less;
    var s := Sorted(all);
    assert s[n - 1] in s;
    AboveSorted(all, n);
    AboveAbove(keys, after, s[n - 1]);
    assert s == s[..n] + s[n..];
  }

  lemma {:induction false} FixedTableFrom(
    l: Listing, owner: Str, limit: Option<int>, after: Option<Str>, snapshot: set<Row>, visits: seq<Visit>)
    requires WellKeyed(l, owner, visits) && Fixed(snapshot, visits)
    requires Unclamped(limit) && NoEmptyEnd(l, owner, limit, visits)
    requires Follows(l, owner, limit, after, visits)
    ensures var rest := Sorted(Above(KeySet(l, owner, snapshot), after));
            if Finished(l, limit, visits)
            then Received(l, visits) == rest && |visits| == FullPages(|rest|, Asked(limit)) + 1
            else |visits| <= FullPages(|rest|, Asked(limit))
    decreases |visits|
  {
    hide Fetched, NextPosition, WellKeyed, NoEmptyEnd, KeySet, Above, Sorted, Less, FullPages;
    assert visits[0] in visits;
    var keys, n := KeySet(l, owner, snapshot), Asked(limit);
    var rest, page := Sorted(Above(keys, after)), Page(keys, after, n);
    var tail := visits[1..];
    FullIffMore(l, owner, limit, after, visits);
    FullPagesStep(|rest|, n);
    if |page| == n {
      FullPageRest(keys, after, n);
      if |visits| > 1 {
        TailIsFine(l, owner, limit, visits);
        FixedTail(l, limit, snapshot, visits);
        FixedTableFrom(l, owner, limit, Some(page[n - 1]), snapshot, tail);
      }
    } else {
      assert tail == [] && Received(l, tail) == [];
    }
  }

  lemma FixedTail(l: Listing, limit: Option<int>, snapshot: set<Row>, visits: seq<Visit>)
    requires |visits| > 1 && Fixed(snapshot, visits)
    ensures Fixed(snapshot, visits[1..]) && (Finished(l, limit, visits[1..]) <==> Finished(l, limit, visits))
  {
    assert forall v | v in visits[1..] :: v in visits;
    assert visits[1..][|visits| - 2] == visits[|visits| - 1];
  }

  /**
   * On a fixed table of n listed rows, with a printed limit of at most 100: after n/L + 1 requests, neither more
   * nor fewer, the traversal is over and has returned the keys in order.
   */
  lemma FixedTable(l: Listing, owner: Str, limit: Option<int>, snapshot: set<Row>, visits: seq<Visit>)
    requires UniqueKey(l, owner, snapshot) && Fixed(snapshot, visits)
    requires Unclamped(limit) && (Asked(limit) >= 2 || [] !in KeySet(l, owner, snapshot))
    requires Follows(l, owner, limit, None, visits)
    ensures var n := |KeySet(l, owner, snapshot)|;
            && (Finished(l, limit, visits) <==> |visits| == n / Asked(limit) + 1)
            && |visits| <= n / Asked(limit) + 1
            && (Finished(l, limit, visits) ==> Received(l, visits) == Sorted(KeySet(l, owner, snapshot)))
  {
    hide Follows, KeySet;
    FixedTableFrom(l, owner, limit, None, snapshot, visits);
  }

  /** Past the last key there is nothing. */
  lemma NothingAboveLast(keys: set<Str>, last: Str)
    requires keys != {} && last == Sorted(keys)[|keys| - 1]
    ensures Above(keys, Some(last)) == {}
  {
    AboveSorted(keys, |keys|);
    assert Sorted(keys)[|keys|..] == [];
  }

  /** When the limit asked for is above what SetPagination announces, one answer is all there is to get. */
  lemma OverLimit(l: Listing, owner: Str, limit: Option<int>, snapshot: set<Row>, visits: seq<Visit>)
    requires UniqueKey(l, owner, snapshot) && Fixed(snapshot, visits)
    requires !Unclamped(limit)
    requires Follows(l, owner, limit, None, visits) && Finished(l, limit, visits)
    ensures Received(l, visits) == Page(KeySet(l, owner, snapshot), None, Asked(limit))
  {
    hide Fetched, NextPosition, KeySet, UniqueKey, Above, Sorted, Less;
    assert visits[0] in visits;
    var keys, n := KeySet(l, owner, snapshot), Asked(limit);
    assert Above(keys, None) == keys by { AboveNone(keys); }
    FirstVisit(l, owner, limit, None, visits[0]);
    if |visits| > 1 {
      // Exactly LIMIT_MAX rows in all: a second, empty page.
      var page := Page(keys, None, n);
      assert forall v | v in visits[1..] :: v in visits;
      OverLimitTail(l, owner, limit, page[|page| - 1], snapshot, visits[1..]);
    } else {
      assert visits[1..] == [];
    }
  }

  lemma AboveNone(keys: set<Str>)
    ensures Above(keys, None) == keys
  {
  }

  lemma PageOfNothing(keys: set<Str>, after: Option<Str>, n: nat)
    requires Above(keys, after) == {}
    ensures Page(keys, after, n) == []
  {
  }

  lemma OverLimitTail(l: Listing, owner: Str, limit: Option<int>, last: Str, snapshot: set<Row>, visits: seq<Visit>)
    requires UniqueKey(l, owner, snapshot) && Fixed(snapshot, visits) && !Unclamped(limit)
    requires |KeySet(l, owner, snapshot)| == LIMIT_MAX && last == Sorted(KeySet(l, owner, snapshot))[LIMIT_MAX - 1]
    requires Follows(l, owner, limit, Some(last), visits)
    ensures Received(l, visits) == []
  {
    hide Fetched, NextPosition, KeySet, UniqueKey, Above, Less, Sorted, Page;
    var keys := KeySet(l, owner, snapshot);
    assert keys != {};
    NothingAboveLast(keys, last);
    PageOfNothing(keys, Some(last), Asked(limit));
    assert visits[0] in visits;
    FirstVisit(l, owner, limit, Some(last), visits[0]);
    assert visits[1..] == [];
  }

  /** A limit of one stops at once when the empty key is listed: its cursor is empty, hence not offered. */
  lemma StopsAtEmptyKey(l: Listing, owner: Str, limit: Option<int>, snapshot: set<Row>, visits: seq<Visit>)
    requires UniqueKey(l, owner, snapshot) && Fixed(snapshot, visits)
    requires Asked(limit) == 1 && [] in KeySet(l, owner, snapshot)
    requires Follows(l, owner, limit, None, visits) && Finished(l, limit, visits)
    ensures |visits| == 1 && Received(l, visits) == [[]]
  {
    hide Fetched, NextPosition, KeySet;
    assert visits[0] in visits;
    var keys := KeySet(l, owner, snapshot);
    FirstVisit(l, owner, limit, None, visits[0]);
    assert Less([], Least(keys)) || Least(keys) == [];
    assert !Less(Least(keys), []);
    assert Page(keys, None, 1) == [[]];
    assert Received(l, visits) == [[]] + Received(l, visits[1..]);
  }

  /**
   * Exactly when a finished traversal of a fixed table has listed everything. A caller can read the condition off
   * the request and the table: with a limit of at most 100, unless one row at a time is asked of a table that
   * lists the empty key beside others; with a larger limit, only if one answer holds every row.
   */
  lemma CompleteIff(l: Listing, owner: Str, limit: Option<int>, snapshot: set<Row>, visits: seq<Visit>)
    requires UniqueKey(l, owner, snapshot) && Fixed(snapshot, visits)
    requires Follows(l, owner, limit, None, visits) && Finished(l, limit, visits)
    ensures Received(l, visits) == Sorted(KeySet(l, owner, snapshot))
       <==> if Unclamped(limit)
            then !(Asked(limit) == 1 && [] in KeySet(l, owner, snapshot) && |KeySet(l, owner, snapshot)| > 1)
            else |KeySet(l, owner, snapshot)| <= Asked(limit)
  {
    hide Follows, KeySet;
    var keys := KeySet(l, owner, snapshot);
    if !Unclamped(limit) {
      OverLimit(l, owner, limit, snapshot, visits);
      assert |keys| <= Asked(limit) ==> Page(keys, None, Asked(limit)) == Sorted(keys);
    } else if Asked(limit) == 1 && [] in keys {
      StopsAtEmptyKey(l, owner, limit, snapshot, visits);
      if |keys| == 1 {
        assert Sorted(keys)[0] in keys;
        assert keys == {[]} by { OneElement(keys, []); }
        assert Sorted(keys) == [[]];
      }
    } else {
      FixedTable(l, owner, limit, snapshot, visits);
    }
  }

  lemma OneElement(keys: set<Str>, x: Str)
    requires |keys| == 1 && x in keys
    ensures keys == {x}
  {
    assert |keys - {x}| == 0;
  }

  // ---------- every request has an answer, and following next comes to an end ----------

  ghost function RowOf(l: Listing, owner: Str, snapshot: set<Row>, x: Str): (row: Row)
    requires x in KeySet(l, owner, snapshot)
    ensures row in snapshot && Listed(l, owner, row) && Column(row, l.key) == x
  {
    var row :| row in snapshot && Listed(l, owner, row) && Column(row, l.key) == x;
    row
  }

  lemma NotBelow(x: Str, y: Str)
    requires Less(x, y)
    ensures x != y && !Less(y, x)
  {
    LessIrreflexive(x);
    if Less(y, x) {
      LessTransitive(x, y, x);
    }
  }

  lemma AnswerExists(l: Listing, owner: Str, after: Option<Str>, limit: nat, snapshot: set<Row>) returns (out: seq<Row>)
    requires UniqueKey(l, owner, snapshot)
    ensures Answers(StatementFor(l, after, limit), ArgsFor(owner, after), snapshot, out)
  {
    var keys := KeySet(l, owner, snapshot);
    var ks, s := Page(keys, after, limit), StatementFor(l, after, limit);
    PageIncreasing(keys, after, limit);
    hide Page, KeySet, Less, StatementFor, Earlier, Matches;
    forall i | 0 <= i < |ks| ensures ks[i] in Above(keys, after) && ks[i] in keys {
      assert ks[i] in ks;
    }
    out := seq(|ks|, i requires 0 <= i < |ks| => RowOf(l, owner, snapshot, ks[i]));
    assert s.order == [ColumnRef("", l.key)] && s.limit == limit by { StatementOrder(l, after, limit); }
    forall i, j | 0 <= i < j < |out| ensures out[i] != out[j] && !Earlier(s.order, out[j], out[i]) {
      NotBelow(ks[i], ks[j]);
      EarlierIff(l, out[j], out[i]);
    }
    forall row | row in out ensures row in snapshot && Matches(s, ArgsFor(owner, after), row) {
      var i :| 0 <= i < |out| && out[i] == row;
      assert ks[i] in Above(keys, after);
      MatchesIff(l, owner, after, limit, row);
    }
    forall row | row in snapshot && Matches(s, ArgsFor(owner, after), row) && row !in out
      ensures |out| == s.limit && forall o | o in out :: !Earlier(s.order, row, o)
    {
      LeftOut(l, owner, after, limit, snapshot, ks, out, row);
    }
    PageLength(keys, after, limit);
  }

  lemma StatementOrder(l: Listing, after: Option<Str>, limit: nat)
    ensures StatementFor(l, after, limit).order == [ColumnRef("", l.key)]
    ensures StatementFor(l, after, limit).limit == limit
  {
  }

  lemma PageLength(keys: set<Str>, after: Option<Str>, n: nat)
    ensures |Page(keys, after, n)| <= n
  {
  }

  /** A matching row that is not chosen lies beyond a full page. */
  lemma LeftOut(l: Listing, owner: Str, after: Option<Str>, limit: nat, snapshot: set<Row>,
                ks: seq<Str>, out: seq<Row>, row: Row)
    requires UniqueKey(l, owner, snapshot) && ks == Page(KeySet(l, owner, snapshot), after, limit)
    requires |out| == |ks| && forall i | 0 <= i < |ks| :: ks[i] in KeySet(l, owner, snapshot)
    requires forall i | 0 <= i < |ks| :: out[i] == RowOf(l, owner, snapshot, ks[i])
    requires row in snapshot && row !in out
    requires Matches(StatementFor(l, after, limit), ArgsFor(owner, after), row)
    ensures |out| == limit && forall o | o in out :: !Earlier([ColumnRef("", l.key)], row, o)
  {
    var keys, x := KeySet(l, owner, snapshot), Column(row, l.key);
    MatchesIff(l, owner, after, limit, row);
    PageIncreasing(keys, after, limit);
    hide Page, Less, Earlier, Matches;
    assert x in Above(keys, after);
    assert x !in ks;
    forall o | o in out ensures !Earlier([ColumnRef("", l.key)], row, o) {
      var i :| 0 <= i < |out| && out[i] == o;
      NotBelow(ks[i], x);
      EarlierIff(l, row, o);
    }
  }

  /** Whatever the limit, some traversal of a fixed table from any position finishes. */
  lemma {:induction false} TraversalEnds(l: Listing, owner: Str, limit: Option<int>, after: Option<Str>, snapshot: set<Row>)
    returns (visits: seq<Visit>)
    requires UniqueKey(l, owner, snapshot)
    ensures Follows(l, owner, limit, after, visits)
    ensures Fixed(snapshot, visits) && Finished(l, limit, visits)
    decreases |Above(KeySet(l, owner, snapshot), after)|
  {
    hide NextPosition, UniqueKey, Less, Answers, KeySet, Page, Keys, Above, StatementFor, ArgsFor;
    var keys := KeySet(l, owner, snapshot);
    var out := AnswerExists(l, owner, after, Asked(limit), snapshot);
    var visit := Visit(snapshot, out);
    FirstVisit(l, owner, limit, after, visit);
    var next := NextPosition(l, limit, visit);
    if next.None? {
      visits := [visit];
    } else {
      var page := Page(keys, after, Asked(limit));
      PageIncreasing(keys, after, Asked(limit));
      assert next.value in page;
      FewerAbove(keys, after, next.value);
      var rest := TraversalEnds(l, owner, limit, next, snapshot);
      visits := [visit] + rest;
      assert visits[1..] == rest;
    }
  }

  lemma FewerAbove(keys: set<Str>, after: Option<Str>, last: Str)
    requires last in Above(keys, after)
    ensures |Above(keys, Some(last))| < |Above(keys, after)|
  {
    AboveAbove(keys, after, last);
    var all, fewer := Above(keys, after), Above(keys, Some(last));
    LessIrreflexive(last);
    assert fewer <= all - {last};
    SubsetSize(fewer, all - {last});
  }

  lemma {:induction false} SubsetSize(a: set<Str>, b: set<Str>)
    requires a <= b
    ensures |a| <= |b|
  {
    if a != {} {
      var x :| x in a;
      SubsetSize(a - {x}, b - {x});
    }
  }

  // ---------- the same through cursors and statement texts ----------

  /** One request as a client sees it: rows and the cursor returned. */
  datatype Reply = Reply(visit: Visit, next: CursorPtr)

  /** Each request carries the cursor that the one before it returned; only offered cursors can be sent. */
  ghost predicate Exchanged(l: Listing, owner: Str, limit: Option<int>, cursor: CursorPtr, replies: seq<Reply>)
    decreases |replies|
  {
    && replies != []
    && Served(l, owner, Params(cursor, limit), replies[0].visit.snapshot, replies[0].visit.out, replies[0].next)
    && (|replies| > 1 ==>
          Offered(replies[0].next) && Exchanged(l, owner, limit, replies[0].next, replies[1..]))
  }

  function Visits(replies: seq<Reply>): seq<Visit> {
    seq(|replies|, i requires 0 <= i < |replies| => replies[i].visit)
  }

  /** The cursor a visit is answered with leads exactly where NextPosition says. */
  lemma CursorIsPosition(l: Listing, limit: Option<int>, after: Option<Str>, v: Visit)
    ensures var next := NextCursor(l.key, At(l, after, limit), Keys(l.key, v.out));
            && (Offered(next) <==> NextPosition(l, limit, v).Some?)
            && (Offered(next) ==> next == At(l, NextPosition(l, limit, v), limit).cursor)
  {
    hide KeyCursor, Values;
    var keys := Keys(l.key, v.out);
    if keys != [] {
      KeyCursorReads(l.key, keys[|keys| - 1]);
    }
  }

  /** Exchanging statement texts and cursor texts with the server is traversing by position. */
  lemma {:induction false} TextsAreTraversals(
    l: Listing, owner: Str, limit: Option<int>, after: Option<Str>, replies: seq<Reply>)
    requires l.Printable() && Position(after)
    requires Exchanged(l, owner, limit, At(l, after, limit).cursor, replies)
    ensures Follows(l, owner, limit, after, Visits(replies))
    ensures Finished(l, limit, Visits(replies)) <==> !Offered(replies[|replies| - 1].next)
    decreases |replies|
  {
    hide Served, KeyCursor, NextPosition, NextCursor, Answers;
    var reply, visits, tail := replies[0], Visits(replies), replies[1..];
    ServedIff(l, owner, after, limit, reply.visit.snapshot, reply.visit.out, reply.next);
    CursorIsPosition(l, limit, after, reply.visit);
    assert visits[1..] == Visits(tail);
    if |replies| > 1 {
      var next := NextPosition(l, limit, reply.visit);
      assert Position(next) by { NextIsPosition(l, limit, reply.visit); }
      TextsAreTraversals(l, owner, limit, next, tail);
      assert tail[|tail| - 1] == replies[|replies| - 1];
    }
  }

  lemma NextIsPosition(l: Listing, limit: Option<int>, v: Visit)
    ensures Position(NextPosition(l, limit, v))
  {
  }

  // ---------- the shipped listings ----------

  /** The listings of group members and of an owner's groups print words only. */
  lemma ShippedListingsPrintable()
    ensures GROUP_MEMBERS.Printable() && GROUPS.Printable()
  {
    assert Sql.IsWord("subject_id") && Sql.IsWord("group_members") && Sql.IsWord("group_id");
    assert Sql.IsWord("id") && Sql.IsWord("owner_id") && Sql.IsWord("name") && Sql.IsWord("description");
    assert Sql.IsWord("groups");
    hide Sql.IsWord;
  }
}
