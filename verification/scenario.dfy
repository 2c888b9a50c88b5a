/**
 * Two posts in Japan, one by Karina in January and one by Giselle in March,
 * taken through the filter pass with different queries.
 */
module Scenario {
  import opened Wrappers
  import opened Dates
  import opened Locations
  import opened DateSort
  import opened FilterEngine
  import opened Seqs
  import Options
  import Strings

  const PostA := Location("A", ["Karina"], "JP", "Tokyo", "2024\U{5E74}01\U{6708}05\U{65E5}", "", "", [])
  const PostB := Location("B", ["Giselle"], "JP", "Osaka", "2024\U{5E74}03\U{6708}10\U{65E5}", "", "", [])

  lemma PostDates()
    ensures DateOf(PostA) == Some(20240105)
    ensures DateOf(PostB) == Some(20240310)
  {
    PostDateA();
    PostDateB();
  }

  lemma PostDateA()
    ensures DateOf(PostA) == Some(20240105)
  {
    assert FormatDate(2024, 1, 5) == PostA.date;
    ParseFormatted(2024, 1, 5);
  }

  lemma PostDateB()
    ensures DateOf(PostB) == Some(20240310)
  {
    assert FormatDate(2024, 3, 10) == PostB.date;
    ParseFormatted(2024, 3, 10);
  }

  /** Sorting two records swaps them exactly when the first compares greater. */
  lemma SortPair(a: Location, b: Location, order: SortOrder)
    ensures SortByDate([a, b], order) == if Compare(a, b, order) > 0 then [b, a] else [a, b]
  {
    SortTwo(a, b, order);
    if Compare(a, b, order) > 0 {
      assert Insert([a], b, order) == Insert([], b, order) + [a];
      assert [b] + [a] == [b, a];
    } else {
      assert Insert([a], b, order) == [a] + [b];
    }
  }

  /** Sorting two records is inserting the second into the first alone. */
  lemma SortTwo(a: Location, b: Location, order: SortOrder)
    ensures SortByDate([a, b], order) == Insert([a], b, order)
  {
    var s := [a, b];
    assert s[..1] == [a];
    assert [a][..0] == [];
    assert SortByDate([a], order) == [a];
  }

  lemma KarinaOnly()
    ensures Visible(PostA, DefaultQuery.(member := "Karina"))
    ensures !Visible(PostB, DefaultQuery.(member := "Karina"))
  {
    assert PostB.members == ["Giselle"];
    assert "Karina" != "Giselle";
  }

  /** Two posts in one country, by different members, the first dated earlier. */
  predicate TwoPosts(a: Location, b: Location) {
    && a.members == ["Karina"] && b.members == ["Giselle"]
    && DateOf(a) == Some(20240105) && DateOf(b) == Some(20240310)
  }

  lemma NewestExample(a: Location, b: Location)
    requires TwoPosts(a, b)
    ensures FilterLocations([a, b], DefaultQuery).ordered == [b, a]
    ensures FilterLocations([a, b], DefaultQuery).count == 2
  {
    SortPair(a, b, Newest);
    var ab := [a, b];
    assert Visible(a, DefaultQuery) && Visible(b, DefaultQuery);
    assert ab[..1] == [a] && [a][..0] == [];
    assert Shown([a], DefaultQuery) == [a];
    assert Shown(ab, DefaultQuery) == Shown([a], DefaultQuery) + [b];
    assert |Shown(ab, DefaultQuery)| == 2;
  }

  lemma OldestExample(a: Location, b: Location)
    requires TwoPosts(a, b)
    ensures FilterLocations([a, b], DefaultQuery.(sortOrder := Oldest)).ordered == [a, b]
  {
    SortPair(a, b, Oldest);
  }

  lemma KarinaExample(a: Location, b: Location)
    requires TwoPosts(a, b)
    ensures FilterLocations([a, b], DefaultQuery.(member := "Karina")).count == 1
    ensures FilterLocations([a, b], DefaultQuery.(member := "Karina")).visible == [false, true]
  {
    KarinaCount(a, b);
    KarinaFlags(a, b);
  }

  lemma KarinaCount(a: Location, b: Location)
    requires TwoPosts(a, b)
    ensures FilterLocations([a, b], DefaultQuery.(member := "Karina")).count == 1
  {
    var ab := [a, b];
    var karina := DefaultQuery.(member := "Karina");
    assert "Karina" !in b.members;
    assert !Visible(b, karina) && Visible(a, karina);
    assert ab[..1] == [a] && [a][..0] == [];
    assert Shown(ab, karina) == [a];
  }

  lemma KarinaFlags(a: Location, b: Location)
    requires TwoPosts(a, b)
    ensures FilterLocations([a, b], DefaultQuery.(member := "Karina")).visible == [false, true]
  {
    SortPair(a, b, Newest);
    var karina := DefaultQuery.(member := "Karina");
    assert "Karina" !in b.members;
    assert !Visible(b, karina) && Visible(a, karina);
    var v := FilterLocations([a, b], karina);
    FilterOrdered([a, b], karina);
    assert v.ordered[0] == b && v.ordered[1] == a;
    Pair(v.visible, false, true);
  }

  /**
   * Newest first puts March before January, oldest first the other way
   * round; with no selection both posts are visible, and selecting Karina
   * shows only A.
   */
  lemma TwoPostsExample()
    ensures FilterLocations([PostA, PostB], DefaultQuery).ordered == [PostB, PostA]
    ensures FilterLocations([PostA, PostB], DefaultQuery).count == 2
    ensures FilterLocations([PostA, PostB], DefaultQuery.(sortOrder := Oldest)).ordered == [PostA, PostB]
    ensures FilterLocations([PostA, PostB], DefaultQuery.(member := "Karina")).count == 1
    ensures FilterLocations([PostA, PostB], DefaultQuery.(member := "Karina")).visible == [false, true]
  {
    PostDates();
    NewestExample(PostA, PostB);
    OldestExample(PostA, PostB);
    KarinaExample(PostA, PostB);
  }

  /** One leading space in front of a trimmed name is removed by trim. */
  lemma TrimLeadingSpace(name: string)
    requires Strings.Trimmed(name)
    ensures Strings.Trim([' '] + name) == name
  {
    var padded := [' '] + name;
    assert Strings.SkipSpace(padded, 0) == Strings.SkipSpace(padded, 1) == 1;
    assert Strings.SkipSpaceBack(padded, 1, |padded|) == |padded|;
    assert padded[1..|padded|] == name;
  }

  /**
   * The member options hold trimmed names but the member filter compares
   * the untrimmed list: a post by " Karina" lists the option "Karina", and
   * selecting it shows nothing.
   */
  lemma UntrimmedMemberExample()
    ensures var post := Location("C", [" Karina"], "JP", "Tokyo", "", "", "", []);
      && "Karina" in Options.MemberOptions([post])
      && FilterLocations([post], DefaultQuery.(member := "Karina")).count == 0
  {
    var post := Location("C", [" Karina"], "JP", "Tokyo", "", "", "", []);
    PaddedNameListed(post);
    PaddedNameSelectsNothing(post);
  }

  lemma PaddedNameListed(post: Location)
    requires post.members == [" Karina"]
    ensures "Karina" in Options.MemberOptions([post])
  {
    var name: string := "Karina";
    assert !Strings.IsSpace(name[0]) && !Strings.IsSpace(name[|name| - 1]);
    TrimLeadingSpace(name);
    assert [' '] + name == post.members[0];
    assert post in [post] && post.members[0] in post.members;
    assert Options.NamedIn([post], name);
  }

  lemma PaddedNameSelectsNothing(post: Location)
    requires post.members == [" Karina"]
    ensures FilterLocations([post], DefaultQuery.(member := "Karina")).count == 0
  {
    var karina := DefaultQuery.(member := "Karina");
    assert " Karina" != "Karina";
    assert !Visible(post, karina);
    assert [post][..0] == [];
    assert Shown([post], karina) == [];
  }
}
