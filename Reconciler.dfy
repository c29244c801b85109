/**
 * The body of the `ReceivedAsync` handler of `BiddingWorker`, as a pure
 * decision over the auction store: decode, look up the bid's auction, drop
 * the bid when the auction ended strictly before `now`, otherwise record
 * the bid as the auction's highest and replace the whole record. Every
 * exception is caught inside the handler.
 */
module Reconciler {
  import opened Domain

  /** The auctions collection of the document store, by document id. */
  type Store = map<Guid, Auction>

  /** Every record is stored under its own id. */
  ghost predicate WellKeyed(store: Store)
  {
    forall id :: id in store ==> store[id].id == id
  }

  /** What `JsonSerializer.Deserialize<Bidding>` made of the message body. */
  datatype Payload =
    | Decoded(bid: Bid)  // a bid object
    | DecodedNull        // the JSON text `null`
    | Malformed          // the deserializer threw

  /** Which way one message left the handler; none of them escapes it. */
  datatype Outcome =
    | Applied          // the record was replaced with the new highest bid
    | AuctionEnded     // `AuctionEnd < now`: logged and returned
    | NullBid          // the payload decoded to null: nothing done
    | CaughtJsonError  // the deserializer's exception, caught and logged
    | CaughtNullReference  // `auction.AuctionEnd` on a missing auction, caught and logged

  /** The handler's outcome and the record it passes to `EditAuction`, if any. */
  datatype Decision = Decision(outcome: Outcome, write: Option<Auction>)

  function Decide(store: Store, payload: Payload, now: Ticks): (d: Decision)
    ensures d.write.Some? <==> d.outcome == Applied
    ensures d.outcome == Applied <==>
              payload.Decoded? && payload.bid.auctionId in store &&
              now <= store[payload.bid.auctionId].auctionEnd
    ensures d.write.Some? ==>
              d.write.value == store[payload.bid.auctionId].(highestBidId := Some(payload.bid.id))
    ensures d.outcome == AuctionEnded <==>
              payload.Decoded? && payload.bid.auctionId in store &&
              store[payload.bid.auctionId].auctionEnd < now
    ensures d.outcome == CaughtNullReference <==> payload.Decoded? && payload.bid.auctionId !in store
    ensures d.outcome == NullBid <==> payload.DecodedNull?
    ensures d.outcome == CaughtJsonError <==> payload.Malformed?
  {
    match payload
    case Malformed => Decision(CaughtJsonError, None)
    case DecodedNull => Decision(NullBid, None)
    case Decoded(bidding) =>
      if bidding.auctionId !in store then
        // `GetAuctionById` returned null; reading `AuctionEnd` throws before
        // the null test further down is reached.
        Decision(CaughtNullReference, None)
      else
        var auction := store[bidding.auctionId];
        if auction.auctionEnd < now then Decision(AuctionEnded, None)
        else Decision(Applied, Some(auction.(highestBidId := Some(bidding.id))))
  }

  /** `ReplaceOneAsync(a => a.Id == auction.Id, auction)`: no insert when nothing matches. */
  function Replace(store: Store, auction: Auction): (r: Store)
    ensures r.Keys == store.Keys
    ensures auction.id in store ==> r[auction.id] == auction
    ensures forall id :: id in store && id != auction.id ==> r[id] == store[id]
  {
    if auction.id in store then store[auction.id := auction] else store
  }

  /** The store after one message has been handled. */
  function Apply(store: Store, payload: Payload, now: Ticks): Store
  {
    match Decide(store, payload, now).write
    case None => store
    case Some(auction) => Replace(store, auction)
  }

  // ---------------------------------------------------------------------
  // Properties of one message
  // ---------------------------------------------------------------------

  /** A bid on an auction that has not ended becomes its highest bid; nothing else changes. */
  lemma OpenAuctionRecordsBid(store: Store, bid: Bid, now: Ticks)
    requires WellKeyed(store)
    requires bid.auctionId in store && now <= store[bid.auctionId].auctionEnd
    ensures var after := Apply(store, Decoded(bid), now);
            after.Keys == store.Keys &&
            after[bid.auctionId] == store[bid.auctionId].(highestBidId := Some(bid.id)) &&
            forall id :: id in store && id != bid.auctionId ==> after[id] == store[id]
  {
  }

  /** An auction ending exactly at `now` still takes the bid: the test is strict. */
  lemma EndingNowAccepts(store: Store, bid: Bid, now: Ticks)
    requires WellKeyed(store)
    requires bid.auctionId in store && store[bid.auctionId].auctionEnd == now
    ensures Decide(store, Decoded(bid), now).outcome == Applied
    ensures Apply(store, Decoded(bid), now)[bid.auctionId].highestBidId == Some(bid.id)
  {
  }

  /**
   * Every message that is not an in-time bid on an existing auction leaves
   * the store as it was and passes nothing to `EditAuction`.
   */
  lemma RejectedMessageChangesNothing(store: Store, payload: Payload, now: Ticks)
    requires !payload.Decoded? || payload.bid.auctionId !in store ||
             store[payload.bid.auctionId].auctionEnd < now
    ensures Decide(store, payload, now).write == None
    ensures Apply(store, payload, now) == store
  {
  }

  /**
   * The highest-bid reference of an auction changes only through a bid
   * addressed to it that arrived no later than its end, and no other field
   * of any record changes.
   */
  lemma OnlyHighestBidOfOpenTargetChanges(store: Store, payload: Payload, now: Ticks, id: Guid)
    requires WellKeyed(store)
    requires id in store
    ensures id in Apply(store, payload, now)
    ensures Apply(store, payload, now)[id] == store[id].(highestBidId := Apply(store, payload, now)[id].highestBidId)
    ensures Apply(store, payload, now)[id] != store[id] ==>
              payload.Decoded? && payload.bid.auctionId == id && now <= store[id].auctionEnd
  {
  }

  /**
   * A re-delivered message, handled again at the same time or later, leaves
   * the store as the first handling did.
   */
  lemma HandlingIsIdempotent(store: Store, payload: Payload, now1: Ticks, now2: Ticks)
    requires WellKeyed(store)
    requires now1 <= now2
    ensures Apply(Apply(store, payload, now1), payload, now2) == Apply(store, payload, now1)
  {
    var once := Apply(store, payload, now1);
    if Decide(store, payload, now1).outcome == Applied {
      var aid := payload.bid.auctionId;
      assert once[aid] == store[aid].(highestBidId := Some(payload.bid.id));
      assert once[aid := once[aid].(highestBidId := Some(payload.bid.id))] == once;
    }
  }

  /**
   * Last message wins: of two in-time bids on one auction, the later one
   * is recorded whatever the amounts are.
   */
  lemma LaterBidWins(store: Store, first: Bid, second: Bid, now1: Ticks, now2: Ticks)
    requires WellKeyed(store)
    requires first.auctionId == second.auctionId && first.auctionId in store
    requires now1 <= store[first.auctionId].auctionEnd && now2 <= store[first.auctionId].auctionEnd
    ensures var after := Apply(Apply(store, Decoded(first), now1), Decoded(second), now2);
            after[second.auctionId].highestBidId == Some(second.id)
  {
  }

  /** Handling a message keeps every record under its own id. */
  lemma ApplyKeepsWellKeyed(store: Store, payload: Payload, now: Ticks)
    requires WellKeyed(store)
    ensures WellKeyed(Apply(store, payload, now))
  {
  }

  // ---------------------------------------------------------------------
  // A run of messages, handled one after another
  // ---------------------------------------------------------------------

  /** One delivery: the payload and the clock reading when it is handled. */
  datatype Delivery = Delivery(payload: Payload, now: Ticks)

  function ApplyAll(store: Store, deliveries: seq<Delivery>): Store
    decreases |deliveries|
  {
    if deliveries == [] then store
    else
      var last := deliveries[|deliveries| - 1];
      Apply(ApplyAll(store, deliveries[..|deliveries| - 1]), last.payload, last.now)
  }

  /**
   * Over any run of messages the store keeps its keys, no field but
   * `HighestBidId` changes, and an auction's `HighestBidId` is either the
   * one it had or the id of a bid in the run addressed to that auction.
   */
  lemma {:induction false} HighestBidComesFromRun(store: Store, deliveries: seq<Delivery>, id: Guid)
    requires WellKeyed(store) && id in store
    ensures WellKeyed(ApplyAll(store, deliveries))
    ensures ApplyAll(store, deliveries).Keys == store.Keys
    ensures var a := ApplyAll(store, deliveries)[id];
            a == store[id].(highestBidId := a.highestBidId) &&
            (a.highestBidId == store[id].highestBidId ||
             exists i :: 0 <= i < |deliveries| && deliveries[i].payload.Decoded? &&
               deliveries[i].payload.bid.auctionId == id && a.highestBidId == Some(deliveries[i].payload.bid.id))
  {
    if deliveries != [] {
      var prefix := deliveries[..|deliveries| - 1];
      var last := deliveries[|deliveries| - 1];
      HighestBidComesFromRun(store, prefix, id);
      var mid := ApplyAll(store, prefix);
      ApplyKeepsWellKeyed(mid, last.payload, last.now);
      OnlyHighestBidOfOpenTargetChanges(mid, last.payload, last.now, id);
      var a := ApplyAll(store, deliveries)[id];
      if a != mid[id] {
        assert a.highestBidId == Some(last.payload.bid.id);
      } else if mid[id].highestBidId != store[id].highestBidId {
        var i :| 0 <= i < |prefix| && prefix[i].payload.Decoded? &&
                 prefix[i].payload.bid.auctionId == id && mid[id].highestBidId == Some(prefix[i].payload.bid.id);
        assert deliveries[i] == prefix[i];
      }
    }
  }
}
