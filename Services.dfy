/**
 * The in-memory auction list of `AuctionService.Services.AuctionService`:
 * a list field that the create, delete and edit operations change, and
 * LINQ queries (`FirstOrDefault`, `Where`, `OrderByDescending`) that read it.
 */
module Services {
  import opened Domain
  import opened Bidding

  // ---------------------------------------------------------------------
  // `FirstOrDefault(a => a.Id == id)`
  // ---------------------------------------------------------------------

  /** Index of the first auction with the given id, `None` when there is none. */
  function FirstIndex(s: seq<Auction>, id: Guid): (r: Option<nat>)
    ensures r.None? <==> forall i :: 0 <= i < |s| ==> s[i].id != id
    ensures r.Some? ==> r.value < |s| && s[r.value].id == id
    ensures r.Some? ==> forall j :: 0 <= j < r.value ==> s[j].id != id
  {
    if s == [] then None
    else if s[0].id == id then Some(0)
    else
      match FirstIndex(s[1..], id)
      case None =>
        assert forall i :: 1 <= i < |s| ==> s[i] == s[1..][i - 1];
        None
      case Some(k) =>
        assert forall j :: 1 <= j <= k ==> s[j] == s[1..][j - 1];
        Some(k + 1)
  }

  /** The first auction with the given id; `None` is C#'s null. */
  function FirstById(s: seq<Auction>, id: Guid): (r: Option<Auction>)
    ensures r.None? <==> forall a :: a in s ==> a.id != id
    ensures r.Some? ==> r.value in s && r.value.id == id
    ensures r.Some? ==> exists k :: 0 <= k < |s| && s[k] == r.value && forall j :: 0 <= j < k ==> s[j].id != id
  {
    match FirstIndex(s, id)
    case None => None
    case Some(k) => Some(s[k])
  }

  // ---------------------------------------------------------------------
  // `Where(...)` and `RemoveAll(...)`: order-preserving filters
  // ---------------------------------------------------------------------

  /** The three predicates the service filters by. */
  datatype AuctionFilter =
    | IdIsNot(id: Guid)         // kept by `RemoveAll(a => a.Id == id)`
    | StartsAt(start: Ticks)    // `a.AuctionStart == startTime`
    | EndsAt(end: Ticks)        // `a.AuctionEnd == endTime`

  predicate Matches(a: Auction, f: AuctionFilter)
  {
    match f
    case IdIsNot(id) => a.id != id
    case StartsAt(t) => a.auctionStart == t
    case EndsAt(t) => a.auctionEnd == t
  }

  /** The auctions of `s` that satisfy `f`, in their original order. */
  function Where(s: seq<Auction>, f: AuctionFilter): (r: seq<Auction>)
    ensures forall a :: a in r ==> Matches(a, f)
    ensures forall a :: multiset(r)[a] == if Matches(a, f) then multiset(s)[a] else 0
    ensures |r| <= |s|
  {
    if s == [] then []
    else
      assert s == [s[0]] + s[1..];
      if Matches(s[0], f) then [s[0]] + Where(s[1..], f) else Where(s[1..], f)
  }

  /** Filtering distributes over concatenation: the order of `s` is kept. */
  lemma {:induction false} WhereAppend(s: seq<Auction>, t: seq<Auction>, f: AuctionFilter)
    ensures Where(s + t, f) == Where(s, f) + Where(t, f)
  {
    if s == [] {
      assert s + t == t;
    } else {
      assert (s + t)[1..] == s[1..] + t;
      WhereAppend(s[1..], t, f);
    }
  }

  /** A filter that every auction passes changes nothing. */
  lemma {:induction false} WhereKeepsAll(s: seq<Auction>, f: AuctionFilter)
    requires forall a :: a in s ==> Matches(a, f)
    ensures Where(s, f) == s
  {
    if s != [] {
      WhereKeepsAll(s[1..], f);
    }
  }

  /** Filtering twice by the same predicate is filtering once. */
  lemma WhereIdempotent(s: seq<Auction>, f: AuctionFilter)
    ensures Where(Where(s, f), f) == Where(s, f)
  {
    WhereKeepsAll(Where(s, f), f);
  }

  // ---------------------------------------------------------------------
  // Edit: the first match gets the new status
  // ---------------------------------------------------------------------

  /**
   * `s` after `EditAuction(auction)`: the first element with `auction.id`
   * takes `auction.status`; every other field and element stays.
   */
  function EditStatus(s: seq<Auction>, auction: Auction): (r: seq<Auction>)
    ensures |r| == |s|
    ensures forall i :: 0 <= i < |s| ==> r[i].id == s[i].id
    ensures forall i :: 0 <= i < |s| && r[i] != s[i] ==>
              FirstIndex(s, auction.id) == Some(i) && r[i] == s[i].(status := auction.status)
    ensures (forall a :: a in s ==> a.id != auction.id) ==> r == s
  {
    match FirstIndex(s, auction.id)
    case None => s
    case Some(k) => s[k := s[k].(status := auction.status)]
  }

  // ---------------------------------------------------------------------
  // `UserGetAuctionWinner`
  // ---------------------------------------------------------------------

  /**
   * `auction?.Bids.OrderByDescending(b => b.Amount).FirstOrDefault()?.UserId ?? Guid.Empty`
   * for the auction `found` by the lookup. A found auction whose `Bids` is
   * null makes `OrderByDescending` throw.
   */
  function ServiceWinner(found: Option<Auction>): (r: Result<Guid>)
    ensures found.None? ==> r == Ok(EmptyGuid)
    ensures r.Throws? <==> found.Some? && found.value.bids.None?
    ensures r.Throws? ==> r.exception == ArgumentNull
    ensures found.Some? && found.value.bids == Some([]) ==> r == Ok(EmptyGuid)
    ensures found.Some? && found.value.bids.Some? && found.value.bids.value != [] ==>
              r.Ok? && (exists b :: b in found.value.bids.value && b.userId == r.value &&
                         (forall c :: c in found.value.bids.value ==> c.amount <= b.amount))
  {
    match found
    case None => Ok(EmptyGuid)
    case Some(auction) =>
      match auction.bids
      case None => Throws(ArgumentNull)
      case Some(bids) =>
        match HighestBid(bids)
        case None => Ok(EmptyGuid)
        case Some(b) => Ok(b.userId)
  }

  // ---------------------------------------------------------------------
  // The service object
  // ---------------------------------------------------------------------

  class AuctionService {
    /** `_auctions`, in insertion order. */
    var auctions: seq<Auction>

    constructor ()
      ensures auctions == []
    {
      auctions := [];
    }

    /** `_auctions.Add(auction)`: no check for an existing id. */
    method CreateAuction(auction: Auction)
      modifies this
      ensures auctions == old(auctions) + [auction]
    {
      auctions := auctions + [auction];
    }

    /** `_auctions.RemoveAll(a => a.Id == auctionId)`. */
    method DeleteAuction(auctionId: Guid)
      modifies this
      ensures auctions == Where(old(auctions), IdIsNot(auctionId))
      ensures forall a :: a in auctions ==> a.id != auctionId
    {
      auctions := Where(auctions, IdIsNot(auctionId));
    }

    /** Finds the first auction with `auction.Id` and overwrites its `Id` and `Status`. */
    method EditAuction(auction: Auction)
      modifies this
      ensures auctions == EditStatus(old(auctions), auction)
    {
      var existing := FirstIndex(auctions, auction.id);
      if existing.Some? {
        var k := existing.value;
        auctions := auctions[k := auctions[k].(id := auction.id, status := auction.status)];
      }
    }

    /** The list itself, in insertion order. */
    function GetAllAuctions(): seq<Auction>
      reads this
    {
      auctions
    }

    function GetAuctionById(auctionId: Guid): Option<Auction>
      reads this
    {
      FirstById(auctions, auctionId)
    }

    function UserGetAuctionWinner(auctionId: Guid): Result<Guid>
      reads this
    {
      ServiceWinner(FirstById(auctions, auctionId))
    }

    function GetAuctionByStartTime(startTime: Ticks): seq<Auction>
      reads this
    {
      Where(auctions, StartsAt(startTime))
    }

    function GetAuctionByEndTime(endTime: Ticks): seq<Auction>
      reads this
    {
      Where(auctions, EndsAt(endTime))
    }
  }

  // ---------------------------------------------------------------------
  // Properties relating the operations
  // ---------------------------------------------------------------------

  /** After appending `a`, a lookup of `a.id` finds an auction with that id. */
  lemma {:induction false} CreateThenGetById(s: seq<Auction>, a: Auction)
    ensures FirstById(s + [a], a.id).Some?
    ensures FirstById(s + [a], a.id).value.id == a.id
    ensures (forall b :: b in s ==> b.id != a.id) ==> FirstById(s + [a], a.id) == Some(a)
  {
    assert (s + [a])[|s|] == a;
    if forall b :: b in s ==> b.id != a.id {
      assert forall j :: 0 <= j < |s| ==> (s + [a])[j] == s[j];
    }
  }

  /** Appending does not change which earlier auction a lookup finds. */
  lemma {:induction false} CreateKeepsEarlierLookups(s: seq<Auction>, a: Auction, id: Guid)
    requires exists b :: b in s && b.id == id
    ensures FirstById(s + [a], id) == FirstById(s, id)
  {
    var k := FirstIndex(s, id).value;
    assert forall j :: 0 <= j < |s| ==> (s + [a])[j] == s[j];
  }

  /** After deleting `id` no auction with that id is found, and deleting again changes nothing. */
  lemma DeleteRemovesEveryMatch(s: seq<Auction>, id: Guid)
    ensures FirstById(Where(s, IdIsNot(id)), id) == None
    ensures Where(Where(s, IdIsNot(id)), IdIsNot(id)) == Where(s, IdIsNot(id))
  {
    WhereIdempotent(s, IdIsNot(id));
  }

  /** Deleting an id that no auction has is a no-op. */
  lemma DeleteAbsentIsNoOp(s: seq<Auction>, id: Guid)
    requires forall a :: a in s ==> a.id != id
    ensures Where(s, IdIsNot(id)) == s
  {
    WhereKeepsAll(s, IdIsNot(id));
  }

  /** After an edit, a lookup of the edited id sees the new status. */
  lemma EditThenGetById(s: seq<Auction>, auction: Auction)
    requires exists a :: a in s && a.id == auction.id
    ensures FirstById(EditStatus(s, auction), auction.id).Some?
    ensures FirstById(EditStatus(s, auction), auction.id).value ==
              FirstById(s, auction.id).value.(status := auction.status)
  {
    var k := FirstIndex(s, auction.id).value;
    var r := EditStatus(s, auction);
    assert r[k] == s[k].(status := auction.status);
  }

  /** A query by time after `CreateAuction(a)` returns the earlier answer, plus `a` at the end if it matches. */
  lemma CreateThenQueryByTime(s: seq<Auction>, a: Auction, f: AuctionFilter)
    ensures Where(s + [a], f) == Where(s, f) + (if Matches(a, f) then [a] else [])
  {
    WhereAppend(s, [a], f);
    assert [a][1..] == [];
  }

  /** Bids of 100, 200 and 150: the winner is the user who bid 200. */
  lemma HighestBidderWins(auction: Auction, first: Guid, second: Guid, third: Guid)
    requires auction.bids == Some([Bid(Guid(1), auction.id, first, 100),
                                   Bid(Guid(2), auction.id, second, 200),
                                   Bid(Guid(3), auction.id, third, 150)])
    ensures ServiceWinner(Some(auction)) == Ok(second)
  {
    EarliestMaximumIsUnique(auction.bids.value, 1);
  }
}
