/**
 * The date sort of filterLocations: a comparator that treats a pair with an
 * unparseable date as equal, applied by a stable insertion sort.
 */
module DateSort {
  import opened Wrappers
  import opened Dates
  import opened Locations
  import opened Seqs

  function DateOf(loc: Location): Option<nat> {
    ParseDate(loc.date)
  }

  predicate Dated(loc: Location) {
    DateOf(loc).Some?
  }

  predicate AllDated(s: seq<Location>) {
    forall i :: 0 <= i < |s| ==> Dated(s[i])
  }

  /**
   * The comparator: negative when a belongs before b. Oldest subtracts the
   * second date from the first, newest the first from the second, and a
   * pair in which either date does not parse compares as 0.
   */
  function Compare(a: Location, b: Location, order: SortOrder): (c: int)
    ensures DateOf(a).None? || DateOf(b).None? ==> c == 0
    ensures Dated(a) && Dated(b) && order == Newest ==> (c < 0 <==> DateOf(a).value > DateOf(b).value)
    ensures Dated(a) && Dated(b) && order == Oldest ==> (c < 0 <==> DateOf(a).value < DateOf(b).value)
  {
    match (DateOf(a), DateOf(b))
    case (Some(ka), Some(kb)) => if order == Oldest then ka as int - kb else kb as int - ka
    case _ => 0
  }

  /** Swapping the two records negates the comparison. */
  lemma CompareAntisymmetric(a: Location, b: Location, order: SortOrder)
    ensures Compare(a, b, order) == -Compare(b, a, order)
  {
  }

  /** Toggling the sort order exactly reverses every comparison. */
  lemma CompareReversed(a: Location, b: Location)
    ensures Compare(a, b, Newest) == -Compare(a, b, Oldest)
  {
  }

  /** Every pair in the sequence is in comparator order. */
  predicate InDateOrder(s: seq<Location>, order: SortOrder) {
    forall i, j :: 0 <= i < j < |s| ==> Compare(s[i], s[j], order) <= 0
  }

  /** On dated records the comparator is transitive. */
  lemma CompareTransitive(a: Location, b: Location, c: Location, order: SortOrder)
    requires Dated(a) && Dated(b) && Dated(c)
    requires Compare(a, b, order) <= 0 && Compare(b, c, order) <= 0
    ensures Compare(a, c, order) <= 0
  {
  }

  /**
   * One step of insertion sort: x moves left past every record that
   * compares greater than it, and stops at the first that does not.
   */
  function Insert(sorted: seq<Location>, x: Location, order: SortOrder): (r: seq<Location>)
    ensures multiset(r) == multiset(sorted) + multiset{x}
    ensures |r| == |sorted| + 1
    decreases |sorted|
  {
    if |sorted| == 0 then [x]
    else
      var prefix, last := sorted[..|sorted| - 1], sorted[|sorted| - 1];
      assert sorted == prefix + [last];
      if Compare(last, x, order) > 0 then Insert(prefix, x, order) + [last]
      else sorted + [x]
  }

  /** The records sorted with the comparator, by an insertion sort over the records in order. */
  function SortByDate(s: seq<Location>, order: SortOrder): (r: seq<Location>)
    ensures multiset(r) == multiset(s)
    ensures |r| == |s|
    decreases |s|
  {
    if |s| == 0 then []
    else
      assert s == s[..|s| - 1] + [s[|s| - 1]];
      Insert(SortByDate(s[..|s| - 1], order), s[|s| - 1], order)
  }

  lemma InMultiset(s: seq<Location>, t: seq<Location>, i: int)
    requires multiset(s) == multiset(t) && 0 <= i < |s|
    ensures exists k :: 0 <= k < |t| && t[k] == s[i]
  {
    assert s[i] in multiset(t);
  }

  lemma AllDatedPermutation(s: seq<Location>, t: seq<Location>)
    requires multiset(s) == multiset(t) && AllDated(t)
    ensures AllDated(s)
  {
    forall i | 0 <= i < |s|
      ensures Dated(s[i])
    {
      InMultiset(s, t, i);
    }
  }

  /** Every record of a list holding the records of front plus x is x or one of front's records. */
  lemma FromFrontOrX(front: seq<Location>, r: seq<Location>, x: Location, i: int)
    requires multiset(r) == multiset(front) + multiset{x} && 0 <= i < |r|
    ensures r[i] == x || exists k :: 0 <= k < |front| && front[k] == r[i]
  {
    assert r[i] in multiset(front) + multiset{x};
    if r[i] != x {
      assert r[i] in multiset(front);
      assert r[i] in front;
    }
  }

  lemma {:induction false} InsertSorted(sorted: seq<Location>, x: Location, order: SortOrder)
    requires AllDated(sorted) && Dated(x) && InDateOrder(sorted, order)
    ensures InDateOrder(Insert(sorted, x, order), order)
    decreases |sorted|
  {
    if |sorted| > 0 {
      var prefix, last := sorted[..|sorted| - 1], sorted[|sorted| - 1];
      if Compare(last, x, order) > 0 {
        OrderedFront(sorted, order);
        assert AllDated(prefix) by {
          forall k | 0 <= k < |prefix|
            ensures Dated(prefix[k])
          {
            assert prefix[k] == sorted[k];
          }
        }
        InsertSorted(prefix, x, order);
        var r' := Insert(prefix, x, order);
        AppendLastAfter(sorted, r', x, order);
        assert Insert(sorted, x, order) == r' + [last];
      } else {
        AppendInOrder(sorted, x, order);
      }
    }
  }

  /**
   * When x moves past the last record, the last record can follow any
   * ordered arrangement of the front and x.
   */
  lemma AppendLastAfter(sorted: seq<Location>, r': seq<Location>, x: Location, order: SortOrder)
    requires |sorted| > 0 && Compare(sorted[|sorted| - 1], x, order) > 0
    requires InDateOrder(sorted, order) && InDateOrder(r', order)
    requires multiset(r') == multiset(sorted[..|sorted| - 1]) + multiset{x}
    ensures InDateOrder(r' + [sorted[|sorted| - 1]], order)
  {
    var last := sorted[|sorted| - 1];
    forall i | 0 <= i < |r'|
      ensures Compare(r'[i], last, order) <= 0
    {
      FromFrontIndex(sorted, r', x, i);
      if r'[i] == x {
        CompareAntisymmetric(last, x, order);
      } else {
        var k :| 0 <= k < |sorted| - 1 && sorted[k] == r'[i];
        assert Compare(sorted[k], sorted[|sorted| - 1], order) <= 0;
      }
    }
    AppendAfterAll(r', last, order);
  }

  /** FromFrontOrX, with the index given into sorted itself. */
  lemma FromFrontIndex(sorted: seq<Location>, r': seq<Location>, x: Location, i: int)
    requires |sorted| > 0 && multiset(r') == multiset(sorted[..|sorted| - 1]) + multiset{x}
    requires 0 <= i < |r'|
    ensures r'[i] == x || exists k :: 0 <= k < |sorted| - 1 && sorted[k] == r'[i]
  {
    var prefix := sorted[..|sorted| - 1];
    FromFrontOrX(prefix, r', x, i);
    if r'[i] != x {
      var k :| 0 <= k < |prefix| && prefix[k] == r'[i];
      assert sorted[k] == prefix[k];
    }
  }

  /** A record that compares no greater than every record of an ordered list can follow them all. */
  lemma AppendAfterAll(p: seq<Location>, x: Location, order: SortOrder)
    requires InDateOrder(p, order)
    requires forall i :: 0 <= i < |p| ==> Compare(p[i], x, order) <= 0
    ensures InDateOrder(p + [x], order)
  {
    var r := p + [x];
    forall i, j | 0 <= i < j < |r|
      ensures Compare(r[i], r[j], order) <= 0
    {
      if j == |p| {
        assert r[i] == p[i] && r[j] == x;
      } else {
        assert r[i] == p[i] && r[j] == p[j];
      }
    }
  }

  /** A dated record that compares no greater than the last of an ordered list can follow it. */
  lemma AppendInOrder(sorted: seq<Location>, x: Location, order: SortOrder)
    requires AllDated(sorted) && Dated(x) && InDateOrder(sorted, order)
    requires |sorted| > 0 ==> Compare(sorted[|sorted| - 1], x, order) <= 0
    ensures InDateOrder(sorted + [x], order)
  {
    var r := sorted + [x];
    forall i, j | 0 <= i < j < |r|
      ensures Compare(r[i], r[j], order) <= 0
    {
      if j == |sorted| {
        assert r[i] == sorted[i] && r[j] == x;
        if i < |sorted| - 1 {
          CompareTransitive(sorted[i], sorted[|sorted| - 1], x, order);
        }
      } else {
        assert r[i] == sorted[i] && r[j] == sorted[j];
      }
    }
  }

  /** When every date parses, sorting puts the records in comparator order. */
  lemma {:induction false} SortInOrder(s: seq<Location>, order: SortOrder)
    requires AllDated(s)
    ensures AllDated(SortByDate(s, order))
    ensures InDateOrder(SortByDate(s, order), order)
    decreases |s|
  {
    if |s| > 0 {
      var prefix := s[..|s| - 1];
      assert AllDated(prefix) by {
        forall k | 0 <= k < |prefix|
          ensures Dated(prefix[k])
        {
          assert prefix[k] == s[k];
        }
      }
      SortInOrder(prefix, order);
      InsertSorted(SortByDate(prefix, order), s[|s| - 1], order);
    }
    AllDatedPermutation(SortByDate(s, order), s);
  }

  /**
   * When every date parses, sorting puts the records in comparator order:
   * "newest" gives non-increasing date keys, "oldest" non-decreasing ones.
   */
  lemma SortSorted(s: seq<Location>, order: SortOrder)
    requires AllDated(s)
    ensures AllDated(SortByDate(s, order))
    ensures InDateOrder(SortByDate(s, order), order)
    ensures forall i, j :: 0 <= i < j < |s| && order == Newest ==>
              DateOf(SortByDate(s, order)[i]).value >= DateOf(SortByDate(s, order)[j]).value
    ensures forall i, j :: 0 <= i < j < |s| && order == Oldest ==>
              DateOf(SortByDate(s, order)[i]).value <= DateOf(SortByDate(s, order)[j]).value
  {
    SortInOrder(s, order);
    var r := SortByDate(s, order);
    forall i, j | 0 <= i < j < |s|
      ensures order == Newest ==> DateOf(r[i]).value >= DateOf(r[j]).value
      ensures order == Oldest ==> DateOf(r[i]).value <= DateOf(r[j]).value
    {
      assert Dated(r[i]) && Dated(r[j]);
      assert Compare(r[i], r[j], order) <= 0;
    }
  }

  lemma OrderedFront(s: seq<Location>, order: SortOrder)
    requires |s| > 0 && InDateOrder(s, order)
    ensures InDateOrder(s[..|s| - 1], order)
  {
    var prefix := s[..|s| - 1];
    forall i, j | 0 <= i < j < |prefix|
      ensures Compare(prefix[i], prefix[j], order) <= 0
    {
      assert prefix[i] == s[i] && prefix[j] == s[j];
    }
  }

  /** A record that compares no greater than the last one stays at the end. */
  lemma InsertAtEnd(sorted: seq<Location>, x: Location, order: SortOrder)
    requires |sorted| > 0 ==> Compare(sorted[|sorted| - 1], x, order) <= 0
    ensures Insert(sorted, x, order) == sorted + [x]
  {
  }

  /** A sequence already in comparator order is left as it is: the sort is stable. */
  lemma {:induction false} SortOfOrdered(s: seq<Location>, order: SortOrder)
    requires InDateOrder(s, order)
    ensures SortByDate(s, order) == s
    decreases |s|
  {
    if |s| > 0 {
      var prefix, x := s[..|s| - 1], s[|s| - 1];
      OrderedFront(s, order);
      SortOfOrdered(prefix, order);
      if |prefix| > 0 {
        assert prefix[|prefix| - 1] == s[|s| - 2];
      }
      InsertAtEnd(prefix, x, order);
      FrontLast(s);
    }
  }

  /**
   * The records of s with date d, in the order of s. With d == None these
   * are the records whose date does not parse.
   */
  function SameDate(s: seq<Location>, d: Option<nat>): (r: seq<Location>)
    ensures |r| <= |s|
    decreases |s|
  {
    if |s| == 0 then []
    else SameDate(s[..|s| - 1], d) + (if DateOf(s[|s| - 1]) == d then [s[|s| - 1]] else [])
  }

  lemma SameDateSnoc(s: seq<Location>, x: Location, d: Option<nat>)
    ensures SameDate(s + [x], d) == SameDate(s, d) + (if DateOf(x) == d then [x] else [])
  {
    FrontOfSnoc(s, x);
  }

  /** Records that move past each other have different dates. */
  lemma CompareMoves(a: Location, b: Location, order: SortOrder)
    requires Compare(a, b, order) != 0
    ensures DateOf(a) != DateOf(b)
  {
  }

  /**
   * Inserting x never moves it past a record of its own date: the records of
   * every date keep their order, and x follows those of its own date.
   */
  lemma {:induction false} InsertStable(sorted: seq<Location>, x: Location, order: SortOrder, d: Option<nat>)
    ensures SameDate(Insert(sorted, x, order), d) == SameDate(sorted, d) + (if DateOf(x) == d then [x] else [])
    decreases |sorted|
  {
    if |sorted| == 0 {
      SameDateSnoc([], x, d);
      assert [] + [x] == [x];
    } else if Compare(sorted[|sorted| - 1], x, order) > 0 {
      InsertStable(sorted[..|sorted| - 1], x, order, d);
      InsertPastStable(sorted, x, order, d);
    } else {
      assert Insert(sorted, x, order) == sorted + [x];
      SameDateSnoc(sorted, x, d);
    }
  }

  /** The step of InsertStable in which x moves past the last record. */
  lemma InsertPastStable(sorted: seq<Location>, x: Location, order: SortOrder, d: Option<nat>)
    requires |sorted| > 0 && Compare(sorted[|sorted| - 1], x, order) > 0
    requires var prefix := sorted[..|sorted| - 1];
      SameDate(Insert(prefix, x, order), d) == SameDate(prefix, d) + (if DateOf(x) == d then [x] else [])
    ensures SameDate(Insert(sorted, x, order), d) == SameDate(sorted, d) + (if DateOf(x) == d then [x] else [])
  {
    var prefix, last := sorted[..|sorted| - 1], sorted[|sorted| - 1];
    var front := Insert(prefix, x, order);
    var lastPart := if DateOf(last) == d then [last] else [];
    var xPart := if DateOf(x) == d then [x] else [];
    assert Insert(sorted, x, order) == front + [last];
    SameDateSnoc(front, last, d);
    assert SameDate(front + [last], d) == (SameDate(prefix, d) + xPart) + lastPart;
    assert SameDate(sorted, d) == SameDate(prefix, d) + lastPart;
    CompareMoves(last, x, order);
    SwapEmpty(SameDate(prefix, d), xPart, lastPart);
  }

  /**
   * This insertion sort is stable on every input: the records of each date,
   * and the records whose date does not parse, keep their input order.
   * With an unparseable date the comparator is inconsistent, so this is a
   * property of the order SortByDate picks, not one the engine's sort promises.
   */
  lemma {:induction false} SortStable(s: seq<Location>, order: SortOrder, d: Option<nat>)
    ensures SameDate(SortByDate(s, order), d) == SameDate(s, d)
    decreases |s|
  {
    if |s| > 0 {
      SortStable(s[..|s| - 1], order, d);
      InsertStable(SortByDate(s[..|s| - 1], order), s[|s| - 1], order, d);
    }
  }

  /** The last record of a non-empty list is the last of those with its date. */
  lemma SameDateLast(s: seq<Location>)
    requires |s| > 0
    ensures var r := SameDate(s, DateOf(s[|s| - 1]));
      |r| > 0 && r == SameDate(s[..|s| - 1], DateOf(s[|s| - 1])) + [s[|s| - 1]]
  {
  }

  /** The records of another date do not see the last record. */
  lemma SameDateOther(s: seq<Location>, d: Option<nat>)
    requires |s| > 0 && d != DateOf(s[|s| - 1])
    ensures SameDate(s, d) == SameDate(s[..|s| - 1], d)
  {
  }

  /** A date with records listed under it is the date of some record of s, at index k. */
  lemma {:induction false} SameDateFrom(s: seq<Location>, d: Option<nat>) returns (k: int)
    requires |SameDate(s, d)| > 0
    ensures 0 <= k < |s| && DateOf(s[k]) == d
    decreases |s|
  {
    var n := |s| - 1;
    if DateOf(s[n]) == d {
      k := n;
    } else {
      k := SameDateFrom(s[..n], d);
      assert s[..n][k] == s[k];
    }
  }

  /** A record compares as 0 with itself. */
  lemma CompareSelf(a: Location, order: SortOrder)
    ensures Compare(a, a, order) == 0
  {
  }

  /**
   * In an ordered list every record compares no greater than the last one,
   * so a date that occurs in it is no later (newest: no earlier) than the
   * last record's. The record found is at index k.
   */
  lemma LastIsExtreme(t: seq<Location>, d: Option<nat>, order: SortOrder) returns (k: int)
    requires |t| > 0 && InDateOrder(t, order) && |SameDate(t, d)| > 0
    ensures 0 <= k < |t| && DateOf(t[k]) == d && Compare(t[k], t[|t| - 1], order) <= 0
  {
    k := SameDateFrom(t, d);
    if k == |t| - 1 {
      CompareSelf(t[k], order);
    }
  }

  /** Two records that compare equal in both directions carry the same parsed date. */
  lemma CompareBothWays(a: Location, b: Location, a': Location, b': Location, order: SortOrder)
    requires Dated(a) && Dated(b) && DateOf(a') == DateOf(a) && DateOf(b') == DateOf(b)
    requires Compare(a, b, order) <= 0 && Compare(b', a', order) <= 0
    ensures DateOf(a) == DateOf(b)
  {
  }

  /**
   * Two ordered dated lists, each holding a record of the other's last date,
   * end with records of the same date.
   */
  lemma SameLastDate(t: seq<Location>, u: seq<Location>, order: SortOrder)
    requires |t| > 0 && |u| > 0 && Dated(t[|t| - 1]) && Dated(u[|u| - 1])
    requires InDateOrder(t, order) && InDateOrder(u, order)
    requires |SameDate(t, DateOf(u[|u| - 1]))| > 0 && |SameDate(u, DateOf(t[|t| - 1]))| > 0
    ensures DateOf(t[|t| - 1]) == DateOf(u[|u| - 1])
  {
    var i := LastIsExtreme(t, DateOf(u[|u| - 1]), order);
    var j := LastIsExtreme(u, DateOf(t[|t| - 1]), order);
    CompareBothWays(u[|u| - 1], t[|t| - 1], t[i], u[j], order);
  }

  lemma DatedFront(s: seq<Location>)
    requires |s| > 0 && AllDated(s)
    ensures AllDated(s[..|s| - 1])
  {
    var prefix := s[..|s| - 1];
    forall k | 0 <= k < |prefix|
      ensures Dated(prefix[k])
    {
      assert prefix[k] == s[k];
    }
  }

  /**
   * There is only one stable ordering: two dated lists in comparator order
   * that hold the same records of every date, in the same order, are equal.
   */
  lemma {:induction false} StableOrderUnique(t: seq<Location>, u: seq<Location>, order: SortOrder)
    requires AllDated(t) && AllDated(u) && InDateOrder(t, order) && InDateOrder(u, order)
    requires forall d :: SameDate(t, d) == SameDate(u, d)
    ensures t == u
    decreases |t| + |u|
  {
    if |t| == 0 && |u| > 0 {
      SameDateLast(u);
    } else if |u| == 0 && |t| > 0 {
      SameDateLast(t);
    } else if |t| > 0 {
      var t', u', x, y := t[..|t| - 1], u[..|u| - 1], t[|t| - 1], u[|u| - 1];
      SameDateLast(t);
      SameDateLast(u);
      assert |SameDate(t, DateOf(y))| > 0 && |SameDate(u, DateOf(x))| > 0;
      SameLastDate(t, u, order);
      SnocCancel(SameDate(t', DateOf(x)), SameDate(u', DateOf(x)), x, y);
      forall d
        ensures SameDate(t', d) == SameDate(u', d)
      {
        if d != DateOf(x) {
          SameDateOther(t, d);
          SameDateOther(u, d);
        }
      }
      OrderedFront(t, order);
      OrderedFront(u, order);
      DatedFront(t);
      DatedFront(u);
      StableOrderUnique(t', u', order);
      FrontLast(t);
      FrontLast(u);
    }
  }

  /**
   * When every date parses, SortByDate gives the one result any stable sort
   * gives: a rearrangement of the records in comparator order that keeps the
   * records of each date in their input order is SortByDate's result.
   */
  lemma StableSortAgrees(s: seq<Location>, t: seq<Location>, order: SortOrder)
    requires AllDated(s) && multiset(t) == multiset(s)
    requires InDateOrder(t, order)
    requires forall d :: SameDate(t, d) == SameDate(s, d)
    ensures t == SortByDate(s, order)
  {
    var r := SortByDate(s, order);
    SortInOrder(s, order);
    AllDatedPermutation(t, s);
    forall d
      ensures SameDate(t, d) == SameDate(r, d)
    {
      SortStable(s, order, d);
    }
    StableOrderUnique(t, r, order);
  }

  /**
   * A record whose date does not parse never contributes a comparison, so a
   * list in which no date parses keeps its order.
   */
  lemma UndatedKeepOrder(s: seq<Location>, order: SortOrder)
    requires forall i :: 0 <= i < |s| ==> !Dated(s[i])
    ensures SortByDate(s, order) == s
  {
    SortOfOrdered(s, order);
  }

  /** With every date parseable, sorting an already sorted list changes nothing. */
  lemma SortIdempotent(s: seq<Location>, order: SortOrder)
    requires AllDated(s)
    ensures SortByDate(SortByDate(s, order), order) == SortByDate(s, order)
  {
    SortSorted(s, order);
    SortOfOrdered(SortByDate(s, order), order);
  }
}
