/**
 * `AuctionRepository.UserGetAuctionWinner`: the selection logic that runs
 * after the document store has returned the auction (or null) for the id.
 * The fetch itself is the parameter `fetched`.
 */
module Repository {
  import opened Domain
  import opened Bidding
  import Services

  /**
   * Null (`None`) for a missing auction and for a null or empty bid list;
   * otherwise a new `User` carrying only the winning bid's `UserId`.
   */
  function UserGetAuctionWinner(fetched: Option<Auction>): (r: Option<User>)
    ensures r.None? <==> fetched.None? || fetched.value.bids.None? || fetched.value.bids.value == []
    ensures r.Some? ==> exists b :: b in fetched.value.bids.value && r.value == User(b.userId) &&
                          (forall c :: c in fetched.value.bids.value ==> c.amount <= b.amount)
  {
    if fetched.None? || fetched.value.bids.None? || fetched.value.bids.value == [] then
      None
    else
      // After `Any()` holds, `FirstOrDefault()` is never null, so the
      // `winningBid == null` test never yields null.
      var winningBid := HighestBid(fetched.value.bids.value);
      Some(User(winningBid.value.userId))
  }

  /** Ties go to the earliest bid: the winner's bid is the first one of maximal amount. */
  lemma WinnerIsEarliestMaximum(fetched: Option<Auction>) returns (k: nat)
    requires fetched.Some? && fetched.value.bids.Some? && fetched.value.bids.value != []
    ensures var bids := fetched.value.bids.value;
            k < |bids| && UserGetAuctionWinner(fetched) == Some(User(bids[k].userId)) &&
            (forall j :: 0 <= j < |bids| ==> bids[j].amount <= bids[k].amount) &&
            (forall j :: 0 <= j < k ==> bids[j].amount < bids[k].amount)
  {
    k := HighestBidIsEarliestMaximum(fetched.value.bids.value);
  }

  /**
   * The repository and the in-memory service pick the same winner for the
   * same auction; they differ only in how "no winner" is written (null
   * against `Guid.Empty`) and in a null bid list (null against a throw).
   */
  lemma AgreesWithService(found: Option<Auction>)
    ensures found.None? ==>
              UserGetAuctionWinner(found) == None && Services.ServiceWinner(found) == Ok(EmptyGuid)
    ensures found.Some? && found.value.bids.None? ==>
              UserGetAuctionWinner(found) == None && Services.ServiceWinner(found) == Throws(ArgumentNull)
    ensures found.Some? && found.value.bids.Some? ==>
              Services.ServiceWinner(found) ==
                Ok(match UserGetAuctionWinner(found) case None => EmptyGuid case Some(u) => u.id)
  {
  }
}
