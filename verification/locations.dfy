/** The records the page shows and the query its controls describe. */
module Locations {

  /** The two states of the sort toggle: latest post first, or earliest first. */
  datatype SortOrder = Newest | Oldest

  /**
   * One geotagged post. A missing source URL string is the empty string and
   * a missing image list the empty list, as the page's fallbacks
   * make them. Coordinates are left out (see README).
   */
  datatype Location = Location(
    name: string,
    members: seq<string>,
    country: string,
    city: string,
    date: string,
    note: string,
    sourceUrls: string,
    imageUrls: seq<string>)

  /** The values of the member, country and city selects and the sort toggle. */
  datatype FilterQuery = FilterQuery(member: string, country: string, city: string, sortOrder: SortOrder)

  /** The member select's "every member" entry. */
  const AnyMember := "All"

  /** The controls as the page starts and as the reset button leaves them. */
  const DefaultQuery := FilterQuery(AnyMember, "", "", Newest)
}
