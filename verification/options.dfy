/**
 * The option lists of the member, country and city selects: the distinct
 * values, sorted, with empty countries and cities left out.
 */
module Options {
  import opened Strings
  import opened Locations

  predicate StrictlyAscending(s: seq<string>) {
    forall i, j :: 0 <= i < j < |s| ==> Less(s[i], s[j])
  }

  lemma LessThanAll(x: string, s: seq<string>)
    requires StrictlyAscending(s) && |s| > 0 && Less(x, s[0])
    ensures forall j :: 0 <= j < |s| ==> Less(x, s[j])
  {
    forall j | 0 < j < |s|
      ensures Less(x, s[j])
    {
      LessTransitive(x, s[0], s[j]);
    }
  }

  /** Adds x to an ascending list without duplicates (a `Set.add`, kept sorted). */
  function AddSorted(s: seq<string>, x: string): (r: seq<string>)
    requires StrictlyAscending(s)
    ensures StrictlyAscending(r)
    ensures forall y :: y in r <==> y in s || y == x
    decreases |s|
  {
    if |s| == 0 then [x]
    else if x == s[0] then s
    else if Less(x, s[0]) then
      LessThanAll(x, s);
      [x] + s
    else
      LessTotal(x, s[0]);
      var rest := AddSorted(s[1..], x);
      assert forall y :: y in rest ==> y in s[1..] || y == x;
      assert forall j :: 0 <= j < |rest| ==> Less(s[0], rest[j]) by {
        forall j | 0 <= j < |rest|
          ensures Less(s[0], rest[j])
        {
          assert rest[j] in rest;
        }
      }
      [s[0]] + rest
  }

  /** The distinct values in ascending order, as a set of the values sorted. */
  function SortedDistinct(values: seq<string>): (r: seq<string>)
    ensures StrictlyAscending(r)
    ensures forall y :: y in r <==> y in values
    decreases |values|
  {
    if |values| == 0 then []
    else
      var prefix := values[..|values| - 1];
      assert values == prefix + [values[|values| - 1]];
      AddSorted(SortedDistinct(prefix), values[|values| - 1])
  }

  /** The forEach that skips empty values while appending options. */
  function NonEmpty(s: seq<string>): (r: seq<string>)
    requires StrictlyAscending(s)
    ensures StrictlyAscending(r)
    ensures forall y :: y in r <==> y in s && y != ""
    decreases |s|
  {
    if |s| == 0 then []
    else
      var rest := NonEmpty(s[1..]);
      if s[0] == "" then rest
      else
        assert forall j :: 0 <= j < |rest| ==> Less(s[0], rest[j]) by {
          forall j | 0 <= j < |rest|
            ensures Less(s[0], rest[j])
          {
            assert rest[j] in rest;
          }
        }
        [s[0]] + rest
  }

  /**
   * An ascending duplicate-free list is determined by its elements, so any
   * way of sorting the distinct values gives this same list.
   */
  lemma {:induction false} AscendingUnique(a: seq<string>, b: seq<string>)
    requires StrictlyAscending(a) && StrictlyAscending(b)
    requires forall y :: y in a <==> y in b
    ensures a == b
    decreases |a|
  {
    if |a| > 0 {
      assert a[0] in b;
    }
    if |b| > 0 {
      assert b[0] in a;
    }
    if |a| > 0 && |b| > 0 {
      var k :| 0 <= k < |b| && b[k] == a[0];
      assert b[0] in a;
      var m :| 0 <= m < |a| && a[m] == b[0];
      if k > 0 {
        if m > 0 {
          LessAsymmetric(b[0], b[k]);
        } else {
          LessIrreflexive(b[0]);
        }
      }
      assert a[0] == b[0];
      forall y
        ensures y in a[1..] <==> y in b[1..]
      {
        if y in a[1..] {
          var i :| 1 <= i < |a| && a[i] == y;
          LessIrreflexive(a[0]);
          assert y != a[0];
          assert y in b;
          var t :| 0 <= t < |b| && b[t] == y;
          assert b[1..][t - 1] == y;
        }
        if y in b[1..] {
          var i :| 1 <= i < |b| && b[i] == y;
          LessIrreflexive(b[0]);
          assert y != b[0];
          assert y in a;
          var t :| 0 <= t < |a| && a[t] == y;
          assert a[1..][t - 1] == y;
        }
      }
      AscendingUnique(a[1..], b[1..]);
      assert a == [a[0]] + a[1..] && b == [b[0]] + b[1..];
    }
  }

  /** Some record lists a member whose trimmed name is y. */
  ghost predicate NamedIn(records: seq<Location>, y: string) {
    exists loc, m :: loc in records && m in loc.members && Trim(m) == y
  }

  /** Some record is in country y. */
  ghost predicate CountryIn(records: seq<Location>, y: string) {
    exists loc :: loc in records && loc.country == y
  }

  /** Some record in the chosen country (any record when it is "") is in city y. */
  ghost predicate CityIn(records: seq<Location>, country: string, y: string) {
    exists loc :: loc in records && loc.city == y && (country == "" || loc.country == country)
  }

  /** The trimmed names of one record's member list. */
  function TrimAll(members: seq<string>): (r: seq<string>)
    ensures forall y :: y in r <==> exists m :: m in members && Trim(m) == y
  {
    if |members| == 0 then []
    else
      var rest := TrimAll(members[1..]);
      var r := [Trim(members[0])] + rest;
      assert forall y :: y in r <==> exists m :: m in members && Trim(m) == y by {
        forall y
          ensures y in r <==> exists m :: m in members && Trim(m) == y
        {
          if y in rest {
            var m :| m in members[1..] && Trim(m) == y;
            assert m in members;
          }
          if exists m :: m in members && Trim(m) == y {
            var m :| m in members && Trim(m) == y;
            if m != members[0] {
              assert m in members[1..];
            }
          }
        }
      }
      r
  }

  lemma NamedInSnoc(prefix: seq<Location>, last: Location, y: string)
    ensures NamedIn(prefix + [last], y)
        <==> NamedIn(prefix, y) || exists m :: m in last.members && Trim(m) == y
  {
    var records := prefix + [last];
    if NamedIn(records, y) {
      var loc, m :| loc in records && m in loc.members && Trim(m) == y;
      if loc != last {
        assert loc in prefix;
      }
    }
    if NamedIn(prefix, y) {
      var loc, m :| loc in prefix && m in loc.members && Trim(m) == y;
      assert loc in records;
    }
    if exists m :: m in last.members && Trim(m) == y {
      var m :| m in last.members && Trim(m) == y;
      assert last in records;
    }
  }

  /** The trimmed member names of every record, record by record. */
  function MemberNames(records: seq<Location>): (names: seq<string>)
    ensures forall y :: y in names <==> NamedIn(records, y)
    decreases |records|
  {
    if |records| == 0 then []
    else
      var prefix, last := records[..|records| - 1], records[|records| - 1];
      assert records == prefix + [last];
      var names := MemberNames(prefix) + TrimAll(last.members);
      assert forall y :: y in names <==> NamedIn(records, y) by {
        forall y
          ensures y in names <==> NamedIn(records, y)
        {
          NamedInSnoc(prefix, last, y);
        }
      }
      names
  }

  /** getAllMembers: the distinct trimmed member names, ascending. */
  function MemberOptions(records: seq<Location>): (r: seq<string>)
    ensures StrictlyAscending(r)
    ensures forall y :: y in r <==> NamedIn(records, y)
  {
    SortedDistinct(MemberNames(records))
  }

  function Countries(records: seq<Location>): (cs: seq<string>)
    ensures forall y :: y in cs <==> CountryIn(records, y)
  {
    var cs := seq(|records|, i requires 0 <= i < |records| => records[i].country);
    assert forall y :: y in cs <==> CountryIn(records, y) by {
      forall y
        ensures y in cs <==> CountryIn(records, y)
      {
        if y in cs {
          var i :| 0 <= i < |cs| && cs[i] == y;
          assert records[i] in records;
        }
        if CountryIn(records, y) {
          var loc :| loc in records && loc.country == y;
          var i :| 0 <= i < |records| && records[i] == loc;
          assert cs[i] == y;
        }
      }
    }
    cs
  }

  /** populateCountryFilter: the distinct non-empty countries, ascending. */
  function CountryOptions(records: seq<Location>): (r: seq<string>)
    ensures StrictlyAscending(r)
    ensures forall y :: y in r <==> y != "" && CountryIn(records, y)
  {
    NonEmpty(SortedDistinct(Countries(records)))
  }

  /** The cities of the records in the chosen country, or of all records when it is "". */
  function Cities(records: seq<Location>, country: string): (cs: seq<string>)
    ensures forall y :: y in cs <==> CityIn(records, country, y)
    decreases |records|
  {
    if |records| == 0 then []
    else
      var prefix, last := records[..|records| - 1], records[|records| - 1];
      assert records == prefix + [last];
      Cities(prefix, country) + (if country == "" || last.country == country then [last.city] else [])
  }

  /**
   * populateCityFilter: the distinct non-empty cities, ascending; with a
   * country chosen, exactly the non-empty cities of records in that country.
   */
  function CityOptions(records: seq<Location>, country: string): (r: seq<string>)
    ensures StrictlyAscending(r)
    ensures forall y :: y in r <==> y != "" && CityIn(records, country, y)
  {
    NonEmpty(SortedDistinct(Cities(records, country)))
  }

  /**
   * The option lists depend only on which records there are, so re-sorting
   * the records (as every filter pass does) leaves them unchanged.
   */
  lemma OptionsIgnoreOrder(a: seq<Location>, b: seq<Location>, country: string)
    requires multiset(a) == multiset(b)
    ensures MemberOptions(a) == MemberOptions(b)
    ensures CountryOptions(a) == CountryOptions(b)
    ensures CityOptions(a, country) == CityOptions(b, country)
  {
    assert forall loc :: loc in a <==> loc in b by {
      forall loc
        ensures loc in a <==> loc in b
      {
        assert loc in a <==> loc in multiset(a);
        assert loc in b <==> loc in multiset(b);
      }
    }
    AscendingUnique(MemberOptions(a), MemberOptions(b));
    AscendingUnique(CountryOptions(a), CountryOptions(b));
    AscendingUnique(CityOptions(a, country), CityOptions(b, country));
  }
}
