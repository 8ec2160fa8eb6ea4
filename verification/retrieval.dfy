/** The page-size rule of the paginated retrievals (`retrieveMessages`,
    `retrieveUsers` in pocket-internal.ts). The HTTP response is an input:
    either the page's raw items or a non-success status. */
module Retrieval {
  import opened Results
  import opened Model
  import Normalize

  const MinPerPage := 1
  const MaxPerPage := 500

  datatype FetchResult<T> = Fetched(items: seq<T>) | NotOk

  predicate ValidPerPage(perPage: int) {
    MinPerPage <= perPage <= MaxPerPage
  }

  /** A page of messages: rejected before any request when the page size is
      outside 1..500, an error when the response is not a success, otherwise
      the response's items normalised in order. */
  function RetrieveMessages(
    page: int, perPage: int, response: FetchResult<Normalize.RawMessage>, parseDate: string -> int)
    : (r: Result<seq<Message>, Error>)
    ensures (perPage < 1 || perPage > 500) <==> r == Failure(PageSizeOutOfRange(Messages, page, perPage))
    ensures 1 <= perPage <= 500 && response.NotOk? ==> r == Failure(RetrievalFailed(Messages))
    ensures 1 <= perPage <= 500 && response.Fetched? ==> r.Success?
    ensures r.Success? ==>
              && response.Fetched?
              && |r.value| == |response.items|
              && forall i :: 0 <= i < |r.value| ==>
                   r.value[i] == Normalize.NicifyMessage(response.items[i], parseDate)
  {
    if !ValidPerPage(perPage) then Failure(PageSizeOutOfRange(Messages, page, perPage))
    else match response
      case NotOk => Failure(RetrievalFailed(Messages))
      case Fetched(items) => Success(Normalize.NicifyAll(items, parseDate))
  }

  /** A page of users, under the same page-size rule. */
  function RetrieveUsers(
    page: int, perPage: int, response: FetchResult<Normalize.RawUser>, parseDate: string -> int)
    : (r: Result<seq<User>, Error>)
    ensures (perPage < 1 || perPage > 500) <==> r == Failure(PageSizeOutOfRange(Users, page, perPage))
    ensures 1 <= perPage <= 500 && response.NotOk? ==> r == Failure(RetrievalFailed(Users))
    ensures 1 <= perPage <= 500 && response.Fetched? ==> r.Success?
    ensures r.Success? ==>
              && response.Fetched?
              && |r.value| == |response.items|
              && forall i :: 0 <= i < |r.value| ==>
                   r.value[i] == Normalize.NicifyUser(response.items[i], parseDate)
  {
    if !ValidPerPage(perPage) then Failure(PageSizeOutOfRange(Users, page, perPage))
    else match response
      case NotOk => Failure(RetrievalFailed(Users))
      case Fetched(items) =>
        Success(seq(|items|, i requires 0 <= i < |items| => Normalize.NicifyUser(items[i], parseDate)))
  }

  /** An out-of-range page size is decided before the request: the outcome
      does not depend on the response at all. */
  lemma PageSizeCheckedBeforeFetch(
    page: int, perPage: int, parseDate: string -> int,
    m1: FetchResult<Normalize.RawMessage>, m2: FetchResult<Normalize.RawMessage>,
    u1: FetchResult<Normalize.RawUser>, u2: FetchResult<Normalize.RawUser>)
    requires !ValidPerPage(perPage)
    ensures RetrieveMessages(page, perPage, m1, parseDate) == RetrieveMessages(page, perPage, m2, parseDate)
    ensures RetrieveUsers(page, perPage, u1, parseDate) == RetrieveUsers(page, perPage, u2, parseDate)
  {
  }
}
