/**
 * `BiddingWorker` as an object: the broker parameters resolved by its
 * constructor, the auction store it edits through the repository, and the
 * variables of its connection loop.
 */
module Worker {
  import opened Domain
  import opened BrokerConfig
  import opened Reconciler
  import opened Supervisor

  class BiddingWorker {
    /** `_factory`'s host, port, user name and password. */
    const factory: FactoryConfig

    /** The repository's auctions collection. */
    var store: Store
    /** Every record passed to the repository's `EditAuction`, in call order. */
    var replaced: seq<Auction>

    // The variables of `ExecuteAsync`'s loop.
    var connected: bool
    var stopped: bool
    var attempts: nat
    var retryDelaySeconds: nat
    var waits: seq<nat>

    function LoopState(): State
      reads this
    {
      State(connected, stopped, attempts, retryDelaySeconds, waits)
    }

    constructor (repository: Store, configuration: map<string, string>)
      ensures factory == ResolveConfig(configuration)
      ensures store == repository && replaced == []
      ensures LoopState() == Initial
    {
      factory := ResolveConfig(configuration);
      store := repository;
      replaced := [];
      connected, stopped, attempts := false, false, 0;
      retryDelaySeconds := InitialRetryDelaySeconds;
      waits := [];
    }

    /** The repository's whole-record replace, keyed by the record's id. */
    method EditAuction(auction: Auction)
      modifies this`store, this`replaced
      ensures store == Replace(old(store), auction)
      ensures replaced == old(replaced) + [auction]
    {
      if auction.id in store {
        store := store[auction.id := auction];
      }
      replaced := replaced + [auction];
    }

    /**
     * The consumer's `ReceivedAsync` callback for one message. It returns
     * normally on every path: the outcome says which one was taken.
     */
    method ReceivedAsync(payload: Payload, now: Ticks) returns (outcome: Outcome)
      modifies this`store, this`replaced
      ensures outcome == Decide(old(store), payload, now).outcome
      ensures store == Apply(old(store), payload, now)
      ensures replaced == old(replaced) +
                match Decide(old(store), payload, now).write
                case None => []
                case Some(auction) => [auction]
    {
      match payload {
        case Malformed =>
          outcome := CaughtJsonError;
        case DecodedNull =>
          outcome := NullBid;
        case Decoded(bidding) =>
          var found := if bidding.auctionId in store then Some(store[bidding.auctionId]) else None;
          if found.None? {
            outcome := CaughtNullReference;
            return;
          }
          var auction := found.value;
          if auction.auctionEnd < now {
            outcome := AuctionEnded;
            return;
          }
          auction := auction.(highestBidId := Some(bidding.id));
          EditAuction(auction);
          outcome := Applied;
      }
    }

    /**
     * The connection loop, run over the events that reach it. The loop
     * variables start as `ExecuteAsync` declares them; the loop ends at the
     * first stop request, and later events are never seen.
     */
    method ExecuteAsync(events: seq<Event>)
      modifies this`connected, this`stopped, this`attempts, this`retryDelaySeconds, this`waits
      ensures LoopState() == Replay(Initial, events)
    {
      connected, stopped, attempts := false, false, 0;
      retryDelaySeconds := InitialRetryDelaySeconds;
      waits := [];
      var i := 0;
      while i < |events| && !stopped
        invariant 0 <= i <= |events|
        invariant LoopState() == Replay(Initial, events[..i])
      {
        assert events[..i + 1][..i] == events[..i];
        match events[i] {
          case Stop =>
            stopped := true;
          case Shutdown =>
            connected := false;
          case ConnectOk =>
            if !connected {
              attempts := attempts + 1;
              connected := true;
            } else {
              waits := waits + [IdleWaitMillis];
            }
          case ConnectFail(_) =>
            if !connected {
              attempts := attempts + 1;
              waits := waits + [retryDelaySeconds * 1000];
            } else {
              waits := waits + [IdleWaitMillis];
            }
        }
        i := i + 1;
      }
      if i < |events| {
        assert events == events[..i] + events[i..];
        ReplayAppend(Initial, events[..i], events[i..]);
        StoppedIsFinal(LoopState(), events[i..]);
      } else {
        assert events[..i] == events;
      }
    }
  }
}
