/**
 * filterLocations taken out of the DOM: sort the records by date, decide
 * which ones the query shows, count them, and list the shown ones in the
 * sidebar in sorted order.
 */
module FilterEngine {
  import opened Locations
  import opened DateSort
  import opened Seqs

  /** The member select is "All" or a name the record's member list holds exactly (untrimmed). */
  predicate MemberMatch(loc: Location, selected: string) {
    selected == AnyMember || selected in loc.members
  }

  /** An empty country selection matches everything, otherwise the country must be equal. */
  predicate CountryMatch(loc: Location, selected: string) {
    selected == "" || loc.country == selected
  }

  predicate CityMatch(loc: Location, selected: string) {
    selected == "" || loc.city == selected
  }

  /**
   * Whether the query shows a record: all three selections match. A query
   * that selects every member, no country and no city shows every record.
   */
  predicate Visible(loc: Location, q: FilterQuery): (shown: bool)
    ensures q.member == AnyMember && q.country == "" && q.city == "" ==> shown
  {
    MemberMatch(loc, q.member) && CountryMatch(loc, q.country) && CityMatch(loc, q.city)
  }

  /**
   * The records of s the query shows, in the order of s. Each visible
   * record occurs as often as in s, each hidden one not at all.
   */
  function Shown(s: seq<Location>, q: FilterQuery): (r: seq<Location>)
    ensures |r| <= |s|
    ensures forall x :: multiset(r)[x] == if Visible(x, q) then multiset(s)[x] else 0
    decreases |s|
  {
    if |s| == 0 then []
    else
      var prefix, last := s[..|s| - 1], s[|s| - 1];
      assert s == prefix + [last];
      Shown(prefix, q) + (if Visible(last, q) then [last] else [])
  }

  /** The default query shows every record. */
  lemma DefaultShowsAll(s: seq<Location>, q: FilterQuery)
    requires q.member == AnyMember && q.country == "" && q.city == ""
    ensures multiset(Shown(s, q)) == multiset(s)
    ensures |Shown(s, q)| == |s|
  {
    var r := Shown(s, q);
    assert forall x :: multiset(r)[x] == multiset(s)[x];
    assert multiset(r) == multiset(s);
    assert |multiset(r)| == |r|;
  }

  /** Which records are shown does not depend on their order. */
  lemma ShownPermutation(a: seq<Location>, b: seq<Location>, q: FilterQuery)
    requires multiset(a) == multiset(b)
    ensures multiset(Shown(a, q)) == multiset(Shown(b, q))
    ensures |Shown(a, q)| == |Shown(b, q)|
  {
    assert multiset(Shown(a, q)) == multiset(Shown(b, q));
    assert |multiset(Shown(a, q))| == |Shown(a, q)|;
  }

  /** Dropping the hidden records keeps a date-ordered list in date order. */
  lemma {:induction false} ShownInDateOrder(s: seq<Location>, q: FilterQuery, order: SortOrder)
    requires InDateOrder(s, order)
    ensures InDateOrder(Shown(s, q), order)
    decreases |s|
  {
    if |s| > 0 {
      var prefix, last := s[..|s| - 1], s[|s| - 1];
      OrderedFront(s, order);
      ShownInDateOrder(prefix, q, order);
      if Visible(last, q) {
        ShownThenLast(s, q, order);
      }
    }
  }

  /** Every shown record is one of the input's records. */
  lemma ShownFrom(s: seq<Location>, q: FilterQuery, i: int)
    requires 0 <= i < |Shown(s, q)|
    ensures exists k :: 0 <= k < |s| && s[k] == Shown(s, q)[i]
  {
    var x := Shown(s, q)[i];
    assert x in multiset(Shown(s, q));
    assert multiset(s)[x] > 0;
    assert x in s;
  }

  /** Every shown record of the front of s is one of the records before the last. */
  lemma ShownFromFront(s: seq<Location>, q: FilterQuery, i: int)
    requires |s| > 0 && 0 <= i < |Shown(s[..|s| - 1], q)|
    ensures exists k :: 0 <= k < |s| - 1 && s[k] == Shown(s[..|s| - 1], q)[i]
  {
    var prefix := s[..|s| - 1];
    ShownFrom(prefix, q, i);
    var k :| 0 <= k < |prefix| && prefix[k] == Shown(prefix, q)[i];
    assert s[k] == prefix[k];
  }

  /** The last record follows every shown record of the front, so appending it keeps the order. */
  lemma ShownThenLast(s: seq<Location>, q: FilterQuery, order: SortOrder)
    requires |s| > 0 && InDateOrder(s, order)
    requires InDateOrder(Shown(s[..|s| - 1], q), order)
    requires Visible(s[|s| - 1], q)
    ensures InDateOrder(Shown(s, q), order)
  {
    var prefix, last := s[..|s| - 1], s[|s| - 1];
    var p := Shown(prefix, q);
    ShownSnoc(s, q);
    forall i | 0 <= i < |p|
      ensures Compare(p[i], last, order) <= 0
    {
      ShownFromFront(s, q, i);
      var k :| 0 <= k < |s| - 1 && s[k] == p[i];
      assert Compare(s[k], s[|s| - 1], order) <= 0;
    }
    AppendAfterAll(p, last, order);
  }

  /** Shown adds the last record after the shown records of the front exactly when it is visible. */
  lemma ShownSnoc(s: seq<Location>, q: FilterQuery)
    requires |s| > 0
    ensures Shown(s, q) == Shown(s[..|s| - 1], q) + (if Visible(s[|s| - 1], q) then [s[|s| - 1]] else [])
  {
  }

  /**
   * The result of one filter pass: the re-sorted records, the visibility
   * flag of each (its marker's `setVisible`), and the visible count.
   */
  datatype View = View(ordered: seq<Location>, visible: seq<bool>, count: nat)

  /**
   * The visibility pass over the sorted records (the forEach that sets each
   * marker's visibility and counts the shown ones).
   */
  method VisibilityPass(ordered: seq<Location>, q: FilterQuery) returns (visible: seq<bool>, count: nat)
    ensures |visible| == |ordered|
    ensures forall i :: 0 <= i < |ordered| ==> (visible[i] <==> Visible(ordered[i], q))
    ensures count == |Shown(ordered, q)|
  {
    visible := [];
    count := 0;
    var i := 0;
    while i < |ordered|
      invariant 0 <= i <= |ordered|
      invariant |visible| == i
      invariant forall k :: 0 <= k < i ==> (visible[k] <==> Visible(ordered[k], q))
      invariant count == |Shown(ordered[..i], q)|
    {
      var shouldShow := Visible(ordered[i], q);
      var flags := visible + [shouldShow];
      forall k | 0 <= k < i + 1
        ensures flags[k] <==> Visible(ordered[k], q)
      {
        if k < i {
          assert flags[k] == visible[k];
        }
      }
      visible := flags;
      ShownStep(ordered, q, i);
      if shouldShow {
        count := count + 1;
      }
      i := i + 1;
    }
    TakeAll(ordered);
  }

  /** Extending a prefix by one record adds one to the shown count exactly when that record is visible. */
  lemma ShownStep(s: seq<Location>, q: FilterQuery, i: int)
    requires 0 <= i < |s|
    ensures |Shown(s[..i + 1], q)| == |Shown(s[..i], q)| + (if Visible(s[i], q) then 1 else 0)
  {
    var t := s[..i + 1];
    assert t[..|t| - 1] == s[..i];
    assert t[|t| - 1] == s[i];
  }

  /** The visibility flag of each record, in order. */
  function Flags(s: seq<Location>, q: FilterQuery): (flags: seq<bool>)
    ensures |flags| == |s|
    ensures forall i :: 0 <= i < |s| ==> (flags[i] <==> Visible(s[i], q))
  {
    seq(|s|, i requires 0 <= i < |s| => Visible(s[i], q))
  }

  lemma SortedWhenDated(records: seq<Location>, order: SortOrder)
    ensures AllDated(records) ==> InDateOrder(SortByDate(records, order), order)
  {
    if AllDated(records) {
      SortSorted(records, order);
    }
  }

  /** One call of filterLocations on the records and the query. */
  function FilterLocations(records: seq<Location>, q: FilterQuery): (v: View)
    ensures multiset(v.ordered) == multiset(records)
    ensures |v.visible| == |v.ordered|
    ensures forall i :: 0 <= i < |v.ordered| ==> (v.visible[i] <==> Visible(v.ordered[i], q))
    ensures v.count == |Shown(records, q)| <= |records|
    ensures AllDated(records) ==> InDateOrder(v.ordered, q.sortOrder)
  {
    var ordered := SortByDate(records, q.sortOrder);
    ShownPermutation(ordered, records, q);
    SortedWhenDated(records, q.sortOrder);
    View(ordered, Flags(ordered, q), |Shown(ordered, q)|)
  }

  /** The view's records are the records sorted for the query's order. */
  lemma FilterOrdered(records: seq<Location>, q: FilterQuery)
    ensures FilterLocations(records, q).ordered == SortByDate(records, q.sortOrder)
  {
  }

  /**
   * The cards renderSidebarList draws: the records whose marker is visible,
   * in order. With every marker visible it lists all records, with none it
   * lists nothing.
   */
  function Sidebar(ordered: seq<Location>, visible: seq<bool>): (cards: seq<Location>)
    requires |visible| == |ordered|
    ensures |cards| <= |ordered|
    ensures (forall i :: 0 <= i < |visible| ==> visible[i]) ==> cards == ordered
    ensures (forall i :: 0 <= i < |visible| ==> !visible[i]) ==> cards == []
    decreases |ordered|
  {
    if |ordered| == 0 then []
    else
      var n := |ordered| - 1;
      assert forall i :: 0 <= i < n ==> visible[..n][i] == visible[i];
      FrontLast(ordered);
      Sidebar(ordered[..n], visible[..n]) + (if visible[n] then [ordered[n]] else [])
  }

  lemma {:induction false} SidebarIsShown(ordered: seq<Location>, visible: seq<bool>, q: FilterQuery)
    requires |visible| == |ordered|
    requires forall i :: 0 <= i < |ordered| ==> (visible[i] <==> Visible(ordered[i], q))
    ensures Sidebar(ordered, visible) == Shown(ordered, q)
    decreases |ordered|
  {
    if |ordered| > 0 {
      var n := |ordered| - 1;
      assert forall i :: 0 <= i < n ==> visible[..n][i] == visible[i] && ordered[..n][i] == ordered[i];
      SidebarIsShown(ordered[..n], visible[..n], q);
      assert visible[n] <==> Visible(ordered[n], q);
    }
  }

  /**
   * The sidebar lists exactly the visible records: as many cards as the
   * visible count, each record as often as it is visible among the input,
   * and in date order when every date parses.
   */
  lemma SidebarListsVisible(records: seq<Location>, q: FilterQuery)
    ensures var v := FilterLocations(records, q);
      && |Sidebar(v.ordered, v.visible)| == v.count
      && multiset(Sidebar(v.ordered, v.visible)) == multiset(Shown(records, q))
      && (forall c :: c in Sidebar(v.ordered, v.visible) ==> Visible(c, q))
      && (AllDated(records) ==> InDateOrder(Sidebar(v.ordered, v.visible), q.sortOrder))
  {
    var v := FilterLocations(records, q);
    SidebarIsShown(v.ordered, v.visible, q);
    ShownPermutation(v.ordered, records, q);
    var cards := Sidebar(v.ordered, v.visible);
    forall c | c in cards
      ensures Visible(c, q)
    {
      assert multiset(cards)[c] > 0;
    }
    if AllDated(records) {
      ShownInDateOrder(v.ordered, q, q.sortOrder);
    }
  }

  /** The visible count does not depend on the sort direction. */
  lemma CountIgnoresSortOrder(records: seq<Location>, q: FilterQuery, order: SortOrder)
    ensures FilterLocations(records, q).count == FilterLocations(records, q.(sortOrder := order)).count
  {
    assert forall x :: Visible(x, q) == Visible(x, q.(sortOrder := order));
    assert Shown(records, q) == Shown(records, q.(sortOrder := order)) by {
      ShownSameQuery(records, q, q.(sortOrder := order));
    }
  }

  lemma {:induction false} ShownSameQuery(s: seq<Location>, q: FilterQuery, q': FilterQuery)
    requires q.member == q'.member && q.country == q'.country && q.city == q'.city
    ensures Shown(s, q) == Shown(s, q')
    decreases |s|
  {
    if |s| > 0 {
      ShownSameQuery(s[..|s| - 1], q, q');
    }
  }

  /**
   * Filtering the already filtered records again with the same query shows
   * the same records with the same count; when every date parses it also
   * leaves their order unchanged.
   */
  lemma RefilterStable(records: seq<Location>, q: FilterQuery)
    ensures var v := FilterLocations(records, q);
      var w := FilterLocations(v.ordered, q);
      && w.count == v.count
      && multiset(Shown(w.ordered, q)) == multiset(Shown(v.ordered, q))
      && (AllDated(records) ==> w == v)
  {
    var v := FilterLocations(records, q);
    var w := FilterLocations(v.ordered, q);
    ShownPermutation(v.ordered, records, q);
    ShownPermutation(w.ordered, v.ordered, q);
    if AllDated(records) {
      SortIdempotent(records, q.sortOrder);
    }
  }
}
