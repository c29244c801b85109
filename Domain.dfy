/**
 * Shared domain types of the auction service: identifiers, bids, auctions,
 * users, and the Option / Result wrappers used in place of C#'s null and
 * thrown exceptions.
 */
module Domain {

  /** A 128-bit GUID, compared only for equality; `EmptyGuid` is `Guid.Empty`. */
  datatype Guid = Guid(value: nat)

  const EmptyGuid: Guid := Guid(0)

  /** A point in time as .NET `DateTime` ticks; comparisons are tick comparisons. */
  type Ticks = int

  datatype Option<T> = None | Some(value: T)

  /** The exceptions the modelled code can raise. */
  datatype Exception =
    | ArgumentNull    // a LINQ operator applied to a null sequence

  /** A value, or the exception the C# code would throw instead of returning. */
  datatype Result<T> = Ok(value: T) | Throws(exception: Exception)

  /** A bid as published by the bidding component. */
  datatype Bid = Bid(id: Guid, auctionId: Guid, userId: Guid, amount: int)

  /**
   * An auction record. `bids` is `None` when the stored list is null;
   * `highestBidId` is `None` when no bid has been recorded yet.
   */
  datatype Auction = Auction(
    id: Guid,
    auctionStart: Ticks,
    auctionEnd: Ticks,
    status: string,
    highestBidId: Option<Guid>,
    bids: Option<seq<Bid>>)

  /** The user object built by the repository: it carries only an id. */
  datatype User = User(id: Guid)
}
