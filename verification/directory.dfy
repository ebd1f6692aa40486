/**
 * `GraphHelper.GetMembersOfGroup`, reduced to its observable guarantees: the
 * directory itself is a parameter (what the listing call produced), and the
 * helper's guards decide when that answer is used at all.
 */
module Directory {
  import opened Common
  import opened Records

  /** What listing the group's members through all result pages produced. */
  datatype ListingResponse =
    | ListingFailed            // the request or the page iteration threw
    | NoFirstPage              // the first request returned null
    | Pages(users: seq<User>)  // the members of every page, in order

  /**
   * The members of group `groupId`. Never null: a null or empty group id, one
   * that is not a GUID, and any failure all give the empty list.
   */
  function GetMembersOfGroup(groupId: Option<string>, isValidGuid: string -> bool, response: ListingResponse): (r: seq<User>)
    ensures IsNullOrEmpty(groupId) ==> r == []
    ensures groupId.Some? && !isValidGuid(groupId.value) ==> r == []
    ensures response.ListingFailed? || response.NoFirstPage? ==> r == []
    ensures r != [] ==> response.Pages? && r == response.users
    ensures !IsNullOrEmpty(groupId) && isValidGuid(groupId.value) && response.Pages? ==> r == response.users
  {
    if IsNullOrEmpty(groupId) then []
    else if !isValidGuid(groupId.value) then []
    else
      match response
      case ListingFailed => []
      case NoFirstPage => []
      case Pages(users) => users
  }
}
