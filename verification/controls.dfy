/**
 * The page's controls as a state machine: each user event changes the
 * query (and, for a country change or a reset, the city options) and then
 * runs one filter pass over the records.
 */
module Controls {
  import opened Locations
  import opened Options
  import opened FilterEngine
  import opened Strings

  /**
   * The value a select ends up with when it is set to value: the value
   * itself when one of its options carries it, otherwise "" (no option selected).
   */
  function Choose(options: seq<string>, value: string): (shown: string)
    ensures shown in options || shown == ""
    ensures value in options ==> shown == value
  {
    if value in options then value else ""
  }

  /** toggleSortOrder's flip of the sort state. */
  function Toggle(order: SortOrder): (flipped: SortOrder)
    ensures flipped != order
  {
    if order == Newest then Oldest else Newest
  }

  lemma ToggleTwice(order: SortOrder)
    ensures Toggle(Toggle(order)) == order
  {
  }

  /**
   * What the page holds between events: the records in their current
   * order, the options of the three selects, the query and the visible count.
   */
  datatype Page = Page(
    records: seq<Location>,
    memberOptions: seq<string>,
    countryOptions: seq<string>,
    cityOptions: seq<string>,
    query: FilterQuery,
    count: nat)

  /** The user's actions on the controls. */
  datatype Event =
    | MemberSelected(member: string)
    | CountrySelected(country: string)
    | CitySelected(city: string)
    | SortToggled
    | ResetPressed

  /** filterLocations on the page: re-sort the records and recount the visible ones. */
  function Refilter(p: Page): (p': Page)
    ensures multiset(p'.records) == multiset(p.records)
    ensures p'.count == |Shown(p.records, p.query)|
    ensures p'.query == p.query
    ensures p'.memberOptions == p.memberOptions && p'.countryOptions == p.countryOptions
    ensures p'.cityOptions == p.cityOptions
  {
    var v := FilterLocations(p.records, p.query);
    p.(records := v.ordered, count := v.count)
  }

  /**
   * initFilters once the records are loaded: the option lists of all
   * records, the default query, and every record shown.
   */
  function Init(records: seq<Location>): (p: Page)
    ensures p.query == DefaultQuery
    ensures multiset(p.records) == multiset(records)
    ensures p.memberOptions == MemberOptions(records) && p.countryOptions == CountryOptions(records)
    ensures p.cityOptions == CityOptions(records, "")
    ensures p.count == |records|
  {
    DefaultShowsAll(records, DefaultQuery);
    Refilter(Page(records, MemberOptions(records), CountryOptions(records),
                  CityOptions(records, ""), DefaultQuery, 0))
  }

  /**
   * The member select's change listener: only the member selection changes,
   * to the chosen member when the select offers it.
   */
  function SelectMember(p: Page, m: string): (p': Page)
    ensures p'.query == p.query.(member := p'.query.member)
    ensures m == AnyMember || m in p.memberOptions ==> p'.query.member == m
    ensures p'.memberOptions == p.memberOptions && p'.countryOptions == p.countryOptions
    ensures p'.cityOptions == p.cityOptions
    ensures multiset(p'.records) == multiset(p.records)
    ensures p'.count == |Shown(p.records, p'.query)|
  {
    Refilter(p.(query := p.query.(member := Choose([AnyMember] + p.memberOptions, m))))
  }

  /**
   * handleCountryChange: rebuild the city options for the new country and
   * clear the city; the member and country options and the records stay.
   */
  function ChangeCountry(p: Page, c: string): (p': Page)
    ensures p'.memberOptions == p.memberOptions && p'.countryOptions == p.countryOptions
    ensures multiset(p'.records) == multiset(p.records)
    ensures p'.count == |Shown(p.records, p'.query)|
  {
    var country := Choose([""] + p.countryOptions, c);
    Refilter(p.(query := p.query.(country := country, city := ""),
                cityOptions := CityOptions(p.records, country)))
  }

  /**
   * The city select's change listener: only the city selection changes, to
   * the chosen city when the select offers it.
   */
  function SelectCity(p: Page, c: string): (p': Page)
    ensures p'.query == p.query.(city := p'.query.city)
    ensures c == "" || c in p.cityOptions ==> p'.query.city == c
    ensures p'.memberOptions == p.memberOptions && p'.countryOptions == p.countryOptions
    ensures p'.cityOptions == p.cityOptions
    ensures multiset(p'.records) == multiset(p.records)
    ensures p'.count == |Shown(p.records, p'.query)|
  {
    Refilter(p.(query := p.query.(city := Choose([""] + p.cityOptions, c))))
  }

  /**
   * toggleSortOrder: the sort order flips, and the visible count is the
   * one of the unchanged selections.
   */
  function ToggleSort(p: Page): (p': Page)
    ensures p'.query.sortOrder != p.query.sortOrder
    ensures p'.query.member == p.query.member && p'.query.country == p.query.country
    ensures p'.query.city == p.query.city
    ensures p'.memberOptions == p.memberOptions && p'.countryOptions == p.countryOptions
    ensures p'.cityOptions == p.cityOptions
    ensures multiset(p'.records) == multiset(p.records)
    ensures p'.count == |Shown(p.records, p.query)|
  {
    var q := p.query.(sortOrder := Toggle(p.query.sortOrder));
    ShownSameQuery(p.records, p.query, q);
    Refilter(p.(query := q))
  }

  /**
   * resetFilters: the default query and the city options of all records,
   * after which every record is shown.
   */
  function Reset(p: Page): (p': Page)
    ensures p'.memberOptions == p.memberOptions && p'.countryOptions == p.countryOptions
    ensures multiset(p'.records) == multiset(p.records)
    ensures p'.count == |p.records|
  {
    DefaultShowsAll(p.records, DefaultQuery);
    Refilter(p.(query := DefaultQuery, cityOptions := CityOptions(p.records, "")))
  }

  /**
   * The handlers of the controls, each followed by a filter pass: no event
   * adds or loses a record or changes the member and country options, and
   * the count is always the number of records the new query shows.
   */
  function Dispatch(p: Page, e: Event): (p': Page)
    ensures multiset(p'.records) == multiset(p.records)
    ensures p'.memberOptions == p.memberOptions && p'.countryOptions == p.countryOptions
    ensures p'.count == |Shown(p.records, p'.query)|
  {
    match e
    case MemberSelected(m) => SelectMember(p, m)
    case CountrySelected(c) => ChangeCountry(p, c)
    case CitySelected(c) => SelectCity(p, c)
    case SortToggled => ToggleSort(p)
    case ResetPressed => Reset(p)
  }

  /**
   * The controls agree with the records: the option lists are the ones the
   * records give, every selection is "its all entry" or one of its options,
   * and the count is the number of records the query shows.
   */
  predicate Consistent(p: Page) {
    && p.memberOptions == MemberOptions(p.records)
    && p.countryOptions == CountryOptions(p.records)
    && p.cityOptions == CityOptions(p.records, p.query.country)
    && (p.query.member == AnyMember || p.query.member == "" || p.query.member in p.memberOptions)
    && (p.query.country == "" || p.query.country in p.countryOptions)
    && (p.query.city == "" || p.query.city in p.cityOptions)
    && p.count == |Shown(p.records, p.query)|
  }

  lemma RefilterConsistent(p: Page)
    requires p.memberOptions == MemberOptions(p.records)
    requires p.countryOptions == CountryOptions(p.records)
    requires p.cityOptions == CityOptions(p.records, p.query.country)
    requires p.query.member == AnyMember || p.query.member == "" || p.query.member in p.memberOptions
    requires p.query.country == "" || p.query.country in p.countryOptions
    requires p.query.city == "" || p.query.city in p.cityOptions
    ensures Consistent(Refilter(p))
  {
    var p' := Refilter(p);
    OptionsIgnoreOrder(p'.records, p.records, p.query.country);
    ShownPermutation(p'.records, p.records, p.query);
  }

  /** The page starts consistent, with the default query and all records. */
  lemma InitConsistent(records: seq<Location>)
    ensures Consistent(Init(records))
    ensures multiset(Init(records).records) == multiset(records)
    ensures Init(records).query == DefaultQuery
  {
    RefilterConsistent(Page(records, MemberOptions(records), CountryOptions(records),
                            CityOptions(records, ""), DefaultQuery, 0));
  }

  /** Every event keeps the page consistent and never adds or loses a record. */
  lemma DispatchConsistent(p: Page, e: Event)
    requires Consistent(p)
    ensures Consistent(Dispatch(p, e))
    ensures multiset(Dispatch(p, e).records) == multiset(p.records)
  {
    match e
    case MemberSelected(m) =>
      RefilterConsistent(p.(query := p.query.(member := Choose([AnyMember] + p.memberOptions, m))));
    case CountrySelected(c) =>
      var country := Choose([""] + p.countryOptions, c);
      RefilterConsistent(p.(query := p.query.(country := country, city := ""),
                            cityOptions := CityOptions(p.records, country)));
    case CitySelected(c) =>
      RefilterConsistent(p.(query := p.query.(city := Choose([""] + p.cityOptions, c))));
    case SortToggled =>
      RefilterConsistent(p.(query := p.query.(sortOrder := Toggle(p.query.sortOrder))));
    case ResetPressed =>
      RefilterConsistent(p.(query := DefaultQuery, cityOptions := CityOptions(p.records, "")));
  }

  /** Every country option selects at least one record. */
  lemma CountryOptionSelects(records: seq<Location>, c: string)
    requires c in CountryOptions(records)
    ensures c != "" && exists loc :: loc in records && CountryMatch(loc, c)
  {
  }

  /** Every city option, under the country it was built for, selects at least one record. */
  lemma CityOptionSelects(records: seq<Location>, country: string, c: string)
    requires c in CityOptions(records, country)
    ensures c != "" && exists loc :: loc in records && CountryMatch(loc, country) && CityMatch(loc, c)
  {
  }

  /**
   * When the data stores every member name trimmed, every member option
   * selects at least one record. Scenario.UntrimmedMemberExample shows a
   * padded name for which this fails.
   */
  lemma MemberOptionSelects(records: seq<Location>, m: string)
    requires forall loc, n :: loc in records && n in loc.members ==> Trimmed(n)
    requires m in MemberOptions(records)
    ensures exists loc :: loc in records && MemberMatch(loc, m)
  {
    var loc, n :| loc in records && n in loc.members && Trim(n) == m;
    TrimOfTrimmed(n);
  }

  /**
   * On a consistent page a selected city always belongs to a record of the
   * selected country: no stale city survives a country change.
   */
  lemma SelectedCityInCountry(p: Page)
    requires Consistent(p)
    requires p.query.country != "" && p.query.city != ""
    ensures exists loc :: loc in p.records && loc.city == p.query.city && loc.country == p.query.country
  {
  }

  /**
   * handleCountryChange: the city options are rebuilt for the new country and
   * the city selection falls back to "", while member and sort order stay.
   */
  lemma CountryChangeResetsCity(p: Page, c: string)
    ensures var p' := ChangeCountry(p, c);
      && p'.query.city == ""
      && p'.query.member == p.query.member && p'.query.sortOrder == p.query.sortOrder
      && (c in p.countryOptions ==> p'.query.country == c)
      && (c !in p.countryOptions ==> p'.query.country == "")
      && p'.cityOptions == CityOptions(p.records, p'.query.country)
  {
  }

  /** resetFilters: All, no country, no city, newest first, and the city options of all records. */
  lemma ResetRestoresDefaults(p: Page)
    ensures Reset(p).query == FilterQuery("All", "", "", Newest)
    ensures Reset(p).cityOptions == CityOptions(p.records, "")
  {
  }

  /**
   * Toggling the sort twice restores the query, and neither toggle changes
   * the visible count.
   */
  lemma ToggleTwiceRestores(p: Page)
    ensures var p1 := ToggleSort(p);
      var p2 := ToggleSort(p1);
      && p1.query.sortOrder != p.query.sortOrder
      && p2.query == p.query
      && p1.count == p2.count == |Shown(p.records, p.query)|
  {
    var q1 := p.query.(sortOrder := Toggle(p.query.sortOrder));
    var p1 := ToggleSort(p);
    assert p1 == Refilter(p.(query := q1));
    ToggleTwice(p.query.sortOrder);
    assert q1.(sortOrder := Toggle(q1.sortOrder)) == p.query;
    var p2 := ToggleSort(p1);
    assert p1.query == q1;
    assert p2 == Refilter(p1.(query := p.query));
    assert p1.count == |Shown(p.records, q1)|;
    ShownSameQuery(p.records, p.query, q1);
    assert p2.count == |Shown(p1.records, p.query)|;
    ShownPermutation(p1.records, p.records, p.query);
  }
}
