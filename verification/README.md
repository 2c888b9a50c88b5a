# aespa pilgrimage map: filter, sort and option logic in Dafny

The page shows geotagged posts about the members of aespa on a map and in a
sidebar list. Its logic lives in `script.js`. The parts modelled here are:

- **The filter pass** (`filterLocations`). It sorts the posts by their
  `YYYY年MM月DD日` date, newest or oldest first. It marks each post visible
  when the member, country and city selections all match, and counts the
  visible posts.
- **The sidebar.** It lists the visible posts in sorted order.
- **The option lists** of the member, country and city selects.
- **The controls.** Member, country and city selection, the sort toggle and
  reset, modelled as a state machine.
- **A card's projection.** The member symbols, the source links with their
  kinds, the image check and the carousel step.

The model is functional. A filter pass takes the records and a
`FilterQuery` and returns a `View`: the re-sorted records, one visibility flag
per record and the visible count. The page's global list and sort state are
passed along explicitly in a `Controls.Page` value.

Modules, one per file:

| module | file | what it holds |
|---|---|---|
| `Wrappers` | wrappers.dfy | `Option` |
| `Strings` | strings.dfy | ECMAScript `trim`, `split`, `join`, `includes`, string sort order |
| `Dates` | dates.dfy | date normalisation, the abstract date parser, a formatter for round trips |
| `Locations` | locations.dfy | `Location`, `FilterQuery`, `SortOrder`, the default query |
| `DateSort` | date_sort.dfy | the comparator and the insertion sort |
| `FilterEngine` | filter_engine.dfy | visibility, count, sidebar, `FilterLocations` |
| `Options` | options.dfy | member, country and city option lists |
| `Registry` | registry.dfy | `MEMBER_INFO` and `getMemberInfo` |
| `Projection` | projection.dfy | link kinds, source URL list, image check, carousel, symbol line |
| `Controls` | controls.dfy | the controls as events on a page state |
| `Scenario` | scenario.dfy | a two-post example through the filter pass |

Behaviour worth knowing:

- **Dates.** The browser's `new Date("YYYY/MM/DD")` is replaced by an abstract
  parser. The string must be three `/`-separated runs of digits, with a month
  in 1..12 and a day in 1..31. Such a string gets the key
  `y*10000 + m*100 + d`. Anything else is an invalid date.
- **Comparator.** A pair in which either date is invalid compares as 0. So
  the comparator is not a consistent order. Sortedness is proved only when
  every date parses. That the sort is a permutation is proved always.
- **Member matching.** The member filter compares against the *untrimmed*
  member list (script.js:418). The option list holds *trimmed* names
  (script.js:296). So a listed member can select nothing when the data has
  stray spaces. `Scenario.UntrimmedMemberExample` shows such a case.
- **Select values.** Setting a select to a value that none of its options
  carries leaves it at `""`. `Controls.Choose` models this DOM behaviour.

## Model

| member | source | states |
|---|---|---|
| Strings.Trim | script.js:296 | the result has no white space at either end and is no longer than the input |
| Strings.TrimSlice | script.js:296 | the trim is the slice of the input whose surroundings on both sides are all white space |
| Strings.TrimOfTrimmed | script.js:202 | a string with no white space at its ends is its own trim |
| Strings.TrimIdempotent | script.js:121 | trimming twice equals trimming once |
| Strings.ContainsIffOccurs | script.js:7-10 | the substring search succeeds exactly when the needle occurs at some offset, which is what `includes` means |
| Strings.Split | script.js:202 | splitting yields at least one piece, and no piece contains the separator |
| Strings.JoinSplit | script.js:202 | joining the pieces of a split with the separator restores the string |
| Strings.SplitJoin | script.js:202 | splitting a join of one or more separator-free pieces returns exactly those pieces |
| Strings.SplitPrefix | script.js:202 | a separator-free prefix is glued to the first piece of what follows it |
| Strings.SplitNone | script.js:202 | a string without the separator splits into itself alone |
| Strings.SplitAtSeparator | script.js:202 | a separator-free piece followed by the separator splits off as the first piece, before the pieces of the rest |
| Strings.LessIrreflexive | script.js:299 | no string sorts before itself |
| Strings.LessTransitive | script.js:299 | the string sort order is transitive |
| Strings.LessTotal | script.js:299 | of two different strings, one sorts before the other |
| Strings.LessAsymmetric | script.js:299 | two strings never sort before each other |
| Dates.Normalize | script.js:395-396 | the normalised date contains no 年, 月 or 日 and is no longer than the input |
| Dates.NormalizeAppend | script.js:395-396 | normalisation distributes over concatenation |
| Dates.NormalizeUnmarked | script.js:395-396 | a string without the three markers is unchanged |
| Dates.NormalizeCounts | script.js:395-396 | the result's slashes are the input's slashes plus its 年 and 月, and every other character occurs as often as before |
| Dates.NormalizeKeepsOrder | script.js:395-396 | the characters other than slashes and markers survive in their original order |
| Dates.ParseDate | script.js:398-401 | a parsed date's key has a day in 1..31 and a month in 1..12 |
| Dates.ParseDateShape | script.js:394-401 | a raw date that parses holds only digits, slashes and the markers 年 月 日, with exactly two separators among '/', 年 and 月; every other string is an invalid date |
| Dates.ParseSlashedShape | script.js:398-401 | a slashed date that parses is made of digits and exactly two slashes |
| Dates.ParseFormattedInvalid | script.js:394-403 | a date in the data's format whose month is outside 1..12 or whose day is outside 1..31 is invalid |
| Dates.ParseFormatted | script.js:394-398 | every date written as `YYYY年MM月DD日` with a real month and day parses to its own key |
| Dates.ParseExample | script.js:394-398 | `2024年01月05日` parses to the key 20240105 |
| Dates.DateKeyOrder | script.js:405-408 | key order is calendar order: by year, then month, then day |
| DateSort.Compare | script.js:393-410 | a pair with an unparseable date compares as 0; otherwise the comparison is negative exactly when the first date is later (newest) or earlier (oldest) |
| DateSort.CompareAntisymmetric | script.js:401-409 | swapping the two records negates the comparison |
| DateSort.CompareReversed | script.js:405-409 | toggling the sort order negates every comparison |
| DateSort.CompareTransitive | script.js:405-409 | on records with parseable dates the comparator is transitive |
| DateSort.Insert | script.js:393 | one insertion step adds exactly the inserted record to the list, as a multiset |
| DateSort.SortByDate | script.js:393-410 | the sorted records are a permutation of the input |
| DateSort.InsertSorted | script.js:393-410 | inserting a dated record into a sorted dated list keeps it sorted |
| DateSort.SortInOrder | script.js:393-410 | when every date parses, the sorted records are all dated and every pair is in comparator order |
| DateSort.SortSorted | script.js:393-410 | when every date parses, newest gives non-increasing date keys and oldest non-decreasing ones |
| DateSort.SortOfOrdered | script.js:393-410 | a list already in comparator order is left unchanged |
| DateSort.InsertStable | script.js:393-410 | inserting a record never moves it past a record of its own date: the records of every date keep their order and the new record follows those of its date |
| DateSort.SortStable | script.js:393-410 | on every input this insertion sort is stable: the records of each date, and the records whose date does not parse, keep their input order |
| DateSort.StableOrderUnique | script.js:393-410 | two dated lists in comparator order holding the same records of each date in the same order are equal |
| DateSort.StableSortAgrees | script.js:393-410 | when every date parses, any rearrangement of the records in comparator order that keeps same-date records in input order is exactly the sort's result, so every stable sort gives the same order |
| DateSort.UndatedKeepOrder | script.js:401-403 | a list in which no date parses keeps its order |
| DateSort.SortIdempotent | script.js:393-410 | when every date parses, sorting twice equals sorting once |
| FilterEngine.Visible | script.js:417-422 | a query selecting every member, no country and no city shows every record |
| FilterEngine.DefaultShowsAll | script.js:417-422 | the default query shows every record, each as often as it occurs |
| FilterEngine.Shown | script.js:417-429 | the shown records hold each visible record as often as the input does, and no hidden record |
| FilterEngine.ShownPermutation | script.js:412-429 | which records are shown, and how many, does not depend on their order |
| FilterEngine.ShownInDateOrder | script.js:180-183 | dropping hidden records keeps a date-ordered list in date order |
| FilterEngine.VisibilityPass | script.js:412-429 | the pass flags each record visible exactly when member, country and city match, and counts the records the query shows |
| FilterEngine.ShownStep | script.js:426-428 | one more record raises the count by one exactly when that record is visible |
| FilterEngine.FilterLocations | script.js:385-435 | the ordered records are a permutation of the input; each flag says whether its record matches; the count is the number of matching input records and at most the total; with all dates parseable the order is the requested one |
| FilterEngine.Sidebar | script.js:180-183 | the sidebar has at most one card per record; with every marker visible it lists all records in order, with none it lists nothing |
| FilterEngine.SidebarIsShown | script.js:180-183 | the cards drawn are the ordered records whose flag is set, in order |
| FilterEngine.SidebarListsVisible | script.js:180-183 | the sidebar has as many cards as the visible count, holds each visible record as often as the input, shows only visible records, and is in date order when every date parses |
| FilterEngine.CountIgnoresSortOrder | script.js:412-431 | the visible count is the same for both sort orders |
| FilterEngine.ShownSameQuery | script.js:418-422 | queries that differ only in sort order show the same records |
| FilterEngine.RefilterStable | script.js:385-435 | filtering the re-sorted records again with the same query gives the same count and shown records, and with all dates parseable the same view |
| Options.AddSorted | script.js:293-299 | adding a value to an ascending duplicate-free list keeps it so and adds exactly that value |
| Options.SortedDistinct | script.js:306 | the distinct values come out strictly ascending, with exactly the input's values |
| Options.NonEmpty | script.js:308-309 | skipping empty values keeps the list ascending and drops exactly "" |
| Options.AscendingUnique | script.js:299 | two strictly ascending lists with the same values are equal, so any sort of the distinct values gives the same list |
| Options.TrimAll | script.js:295-296 | the trimmed names of one member list are exactly the trims of its names |
| Options.MemberNames | script.js:294-298 | the collected names are exactly the trimmed member names of the records |
| Options.MemberOptions | script.js:292-300 | the member options are strictly ascending and are exactly the trimmed member names across all records |
| Options.Countries | script.js:306 | the collected countries are exactly the records' countries |
| Options.CountryOptions | script.js:302-315 | the country options are strictly ascending and are exactly the non-empty countries that occur |
| Options.Cities | script.js:324-330 | the collected cities are exactly the cities of records in the chosen country (all records when none is chosen) |
| Options.CityOptions | script.js:320-340 | the city options are strictly ascending, hold no "", and with a country chosen are exactly the non-empty cities of records in that country |
| Options.OptionsIgnoreOrder | script.js:306-330 | re-ordering the records leaves all three option lists unchanged |
| Registry.InfoFor | script.js:56-62 | a name gets an entry other than the default exactly when it is one of the four members; every symbol is non-empty and space-free |
| Registry.GetMemberInfo | script.js:119-125 | the info is a member's own exactly when the list has one element whose trimmed form is one of the four members; otherwise it is the default |
| Registry.GetMemberInfoAsWritten | script.js:119-125 | as written, the lookup yields an inherited Object.prototype value exactly for a single trimmed name that is such a property; wherever it yields an info record, that record is the one GetMemberInfo gives |
| Registry.AsWrittenPrototypeName | script.js:122 | for a member named like an Object.prototype property, the lookup as written gives no info record and the card's symbol for it is empty, while GetMemberInfo gives the default |
| Registry.PropertyLookup | script.js:122 | a key yields one of MEMBER_INFO's own entries exactly when it is an own key, an inherited value exactly when it is an Object.prototype name, and undefined otherwise |
| Registry.PrototypeNamesApart | script.js:56-62 | no Object.prototype name is one of MEMBER_INFO's own keys |
| Projection.UrlDisplayType | script.js:6-14 | a URL is an IG post exactly when it contains instagram.com; YouTube exactly when it does not but contains youtube.com or youtu.be; external otherwise |
| Projection.CleanPieces | script.js:202 | the cleaned pieces are non-empty, trimmed and comma-free, there are at most as many as pieces, and the trim of every piece that is not blank is among them |
| Projection.CleanPiecesCons | script.js:202 | cleaning a list gives the first piece's trim, unless it is empty, before the cleaned rest |
| Projection.SourceUrls | script.js:200-202 | every source URL is non-empty, trimmed and comma-free, and the trim of every comma-separated piece that is not blank is one of them |
| Projection.SourceUrlsPiece | script.js:200-202 | a source string without a comma gives its trim alone, or nothing when the trim is empty |
| Projection.SourceUrlsConcat | script.js:200-202 | the URLs of a source string are those before its first comma followed by those after it, so pieces keep their original order |
| Projection.CleanPiecesOfClean | script.js:202 | already clean pieces pass through unchanged and in order |
| Projection.SourceUrlsRoundTrip | script.js:200-202 | splitting a comma-joined list of clean URLs gives back exactly that list, in order |
| Projection.SourceLinks | script.js:205-208 | one link per source URL, link k pointing at the k-th URL and carrying the text of that URL's kind |
| Projection.LabelsDistinct | script.js:6-14 | the three kinds have different link texts, so a link's text tells its kind |
| Projection.ImageValidFirstOnly | script.js:195-197 | only the first image URL decides the image check: two lists with the same first URL are both valid or both not |
| Projection.NextImage | script.js:39-48 | with at most one image the index is unchanged; otherwise it moves on by one and wraps from the last image to 0, staying below the image count |
| Projection.Clicks | script.js:39-48 | with at most one image no number of clicks moves the index |
| Projection.ClicksForward | script.js:43 | before the wrap, k clicks move the index k images on |
| Projection.ClicksCompose | script.js:41-48 | a clicks followed by b clicks equal a + b clicks |
| Projection.ClicksToFirst | script.js:43 | from any image, the clicks up to the last image plus one more reach image 0 |
| Projection.FullCycle | script.js:39-48 | as many clicks as there are images return the carousel to its start |
| Projection.EveryImageReachable | script.js:39-48 | every image is reached within count clicks |
| Projection.ClicksInRange | script.js:41-48 | an index below the image count stays below it after any number of clicks |
| Projection.CarouselIndexInRange | script.js:229-247 | a rendered carousel starts at 0 and its index stays within its images however often it is clicked |
| Projection.Symbols | script.js:189-192 | one symbol per member, each that member's trimmed-name symbol and free of spaces |
| Projection.SymbolLine | script.js:189-193 | a post without members has an empty symbol line; a post of one member shows the symbol getMemberInfo gives that member |
| Projection.SymbolLinePerMember | script.js:189-193 | splitting the symbol line at spaces gives exactly each member's symbol, in member order |
| Projection.SymbolLineAsWritten | script.js:189-193 | the symbol line as written equals the intended one whenever no member's trimmed name is an Object.prototype property |
| Projection.AsWrittenCardSymbol | script.js:189-193 | as written, the card of a post by a member named like an Object.prototype property has an empty symbol line, where the intended line is the default symbol |
| Controls.Choose | script.js:386-388 | a select shows one of its options or ""; a value that is an option is shown as is |
| Controls.Toggle | script.js:274 | the toggle always changes the sort order |
| Controls.ToggleTwice | script.js:274 | toggling twice restores the sort order |
| Controls.Init | script.js:364-383 | the first page has the default query, all records, the option lists of all records, and shows every record |
| Controls.SelectMember | script.js:375 | only the member selection changes, to the chosen member when the select offers it; options and records stay, and the count is the new query's |
| Controls.ChangeCountry | script.js:342-346 | the member and country options and the records stay, and the count is the new query's |
| Controls.SelectCity | script.js:385-388 | only the city selection changes, to the chosen city when the select offers it; options and records stay, and the count is the new query's |
| Controls.ToggleSort | script.js:272-289 | only the sort order changes, it flips, and the count is the one of the unchanged selections |
| Controls.Reset | script.js:348-362 | the member and country options and the records stay, and afterwards every record is shown |
| Controls.Dispatch | script.js:342-383 | no event adds or loses a record or changes the member and country options, and the count is always that of the new query |
| Controls.MemberOptionSelects | script.js:292-300 | when every member name is stored trimmed, every member option matches at least one record |
| Controls.CountryOptionSelects | script.js:302-315 | every country option is non-empty and matches at least one record |
| Controls.CityOptionSelects | script.js:320-340 | every city option is non-empty and, under the country it was built for, matches at least one record of that country |
| Controls.Refilter | script.js:385-435 | a filter pass keeps the query and the option lists, permutes the records, and sets the count to the number of records the query shows |
| Controls.RefilterConsistent | script.js:385-435 | a filter pass on a page whose options and selections agree with its records leaves it consistent |
| Controls.InitConsistent | script.js:364-383 | the initial page is consistent, holds all records and has the default query |
| Controls.DispatchConsistent | script.js:342-362 | every event (member, country or city selection, sort toggle, reset) keeps the page consistent and never adds or loses a record |
| Controls.SelectedCityInCountry | script.js:320-346 | on a consistent page a selected city belongs to a record of the selected country |
| Controls.CountryChangeResetsCity | script.js:342-346 | a country change sets the city to "", rebuilds the city options for the new country, and keeps member and sort order |
| Controls.ResetRestoresDefaults | script.js:348-362 | reset restores All / "" / "" / newest and the city options of all records |
| Controls.ToggleTwiceRestores | script.js:272-289 | toggling twice restores the query, and neither toggle changes the visible count |
| Scenario.PostDates | script.js:394-398 | the two example dates parse to 20240105 and 20240310 |
| Scenario.SortPair | script.js:393-410 | two records are swapped exactly when the first compares greater |
| Scenario.KarinaOnly | script.js:418 | selecting Karina matches post A and not post B |
| Scenario.NewestExample | script.js:385-429 | newest first puts the March post before the January one, and both are visible |
| Scenario.OldestExample | script.js:393-410 | oldest first puts the January post first |
| Scenario.KarinaExample | script.js:412-429 | selecting Karina shows only the January post |
| Scenario.TwoPostsExample | script.js:385-429 | the concrete posts A and B: order [B, A] newest first, [A, B] oldest first, count 2, and count 1 with only A visible for Karina |
| Scenario.UntrimmedMemberExample | script.js:292-300 | a member written " Karina" is listed as the option "Karina", and selecting that option shows no post |

## Left out

- Google Maps is an external library. Left out: the map, markers, info windows, bounds fitting, centring and zoom, and `event.trigger` (script.js:72-108, 127-171, 255-258).
- DOM work is presentation only. Left out: `innerHTML` templates, `createElement`, event listeners, `stopPropagation`, `scrollIntoView`, and the sort button's label and colour (script.js:276-285, 355-357).
- `infoWindow.close()` in a filter pass, after the sort (script.js:413), belongs to the map library.
- Loading is asynchronous I/O. Left out: `fetch('locations.json')`, JSON parsing and the script-tag loader (script.js:75-117, 440-445).
- Latitude and longitude are not fields of `Location`. They are floats; outside the map calls left out above (marker position, bounds and centre at script.js:96, 101, 129), they are used only in card ids and in `createNavigationUrl` (script.js:23-25, 164, 186), and those depend on float-to-string formatting.
- The info window's member lines in `addMarker` (script.js:138-141) are not modelled. They use the same lookup as `Registry.GetMemberInfoAsWritten`; for a member named like an Object.prototype property that line would read "undefined" followed by the name.
- The city select's change handler is wired in the page's HTML, which is not part of this model. `Controls.SelectCity` assumes that it runs a filter pass, as the member select's listener does (script.js:375).
- Dates.ParseDate: its own contract gives only the range of a parsed key; which strings are invalid is stated by `Dates.ParseDateShape` and `Dates.ParseFormattedInvalid`. It stands in for the engine's `Date` parsing. It accepts day 29-31 in any month, where the engine would roll over to the next month. It ignores time zones and the other formats the engine accepts.
- DateSort.Compare: returns the difference of date keys, not of milliseconds. By `Dates.DateKeyOrder` it has the same sign, and the sort uses only the sign.
- DateSort.SortByDate: is a stable insertion sort (`DateSort.SortStable`). When every date parses, the engine's `Array.prototype.sort` is stable and the comparator is consistent, and `DateSort.StableSortAgrees` shows that any stable sort in comparator order gives this same order. With any unparseable date the comparator is inconsistent, and the engine's order of all records, dated ones included, is implementation-defined; SortByDate fixes one admissible order, and SortStable's mixed-input case is a property of that choice, not of the engine.
- Strings.Less: orders strings by code point. `Array.prototype.sort` compares UTF-16 code units. The two differ only between characters above U+FFFF and characters in U+E000..U+FFFF.

## Findings

| source | as written | input that shows it | evidently intended | confidence | as-written member | corrected member |
|---|---|---|---|---|---|---|
| script.js:122 | the lookup of a trimmed name in MEMBER_INFO also finds the properties every object inherits from Object.prototype, and the fallback to the default entry does not replace them | a post whose only member is `toString` (or `constructor`, `valueOf`, `__proto__`, ...): its card shows an empty symbol line | an unknown name gets the default entry and its 🔮 symbol | medium, not executed | Registry.GetMemberInfoAsWritten | Registry.GetMemberInfo |
