/**
 * Winner selection shared by the in-memory service and the repository:
 * `bids.OrderByDescending(b => b.Amount).FirstOrDefault()`.
 * LINQ's OrderByDescending is a stable sort, so among bids of equal amount
 * the one earlier in the list comes first.
 */
module Bidding {
  import opened Domain

  ghost predicate SortedDescending(s: seq<Bid>)
  {
    forall i, j :: 0 <= i < j < |s| ==> s[i].amount >= s[j].amount
  }

  /**
   * Inserts `b`, which precedes every element of `sorted` in the original
   * list, in front of the first element whose amount does not exceed its
   * own: this keeps equal amounts in their original order.
   */
  function InsertDescending(b: Bid, sorted: seq<Bid>): (r: seq<Bid>)
    ensures multiset(r) == multiset(sorted) + multiset{b}
    ensures r != [] && (r[0] == b || (sorted != [] && r[0] == sorted[0]))
    ensures sorted == [] || sorted[0].amount <= b.amount ==> r[0] == b
  {
    if sorted == [] || sorted[0].amount <= b.amount then
      [b] + sorted
    else
      assert sorted == [sorted[0]] + sorted[1..];
      [sorted[0]] + InsertDescending(b, sorted[1..])
  }

  lemma {:induction false} InsertKeepsSorted(b: Bid, sorted: seq<Bid>)
    requires SortedDescending(sorted)
    ensures SortedDescending(InsertDescending(b, sorted))
  {
    if sorted == [] || sorted[0].amount <= b.amount {
    } else {
      var rest := InsertDescending(b, sorted[1..]);
      InsertKeepsSorted(b, sorted[1..]);
      assert sorted == [sorted[0]] + sorted[1..];
      forall x | x in rest
        ensures x.amount <= sorted[0].amount
      {
        assert x in multiset(rest);
        if x != b {
          assert x in multiset(sorted[1..]);
        }
      }
    }
  }

  /** The stable descending sort of `bids` by amount. */
  function OrderByDescending(bids: seq<Bid>): (r: seq<Bid>)
    ensures multiset(r) == multiset(bids)
    ensures SortedDescending(r)
  {
    if bids == [] then []
    else
      assert bids == [bids[0]] + bids[1..];
      InsertKeepsSorted(bids[0], OrderByDescending(bids[1..]));
      InsertDescending(bids[0], OrderByDescending(bids[1..]))
  }

  /** `FirstOrDefault()` of the sorted bids: `None` stands for the null result. */
  function HighestBid(bids: seq<Bid>): (r: Option<Bid>)
    ensures r.None? <==> bids == []
    ensures r.Some? ==> r.value in bids
    ensures r.Some? ==> forall b :: b in bids ==> b.amount <= r.value.amount
  {
    var sorted := OrderByDescending(bids);
    if sorted == [] then
      None
    else
      assert sorted[0] in multiset(bids);
      assert forall b :: b in bids ==> b in multiset(sorted);
      Some(sorted[0])
  }

  /** The head of the sorted list, one insertion at a time. */
  lemma SortedHead(bids: seq<Bid>)
    requires bids != []
    ensures var sorted := OrderByDescending(bids);
            var tail := OrderByDescending(bids[1..]);
            sorted != [] &&
            sorted[0] == if tail == [] || tail[0].amount <= bids[0].amount then bids[0] else tail[0]
  {
  }

  /**
   * The chosen bid is the earliest one of maximal amount: it is at some
   * index `k`, every bid is at most its amount, and every bid before `k`
   * is strictly smaller.
   */
  lemma {:induction false} HighestBidIsEarliestMaximum(bids: seq<Bid>) returns (k: nat)
    requires bids != []
    ensures k < |bids| && HighestBid(bids) == Some(bids[k])
    ensures forall j :: 0 <= j < |bids| ==> bids[j].amount <= bids[k].amount
    ensures forall j :: 0 <= j < k ==> bids[j].amount < bids[k].amount
  {
    var tail := bids[1..];
    SortedHead(bids);
    if tail == [] {
      k := 0;
    } else {
      var k' := HighestBidIsEarliestMaximum(tail);
      if tail[k'].amount <= bids[0].amount {
        k := 0;
      } else {
        k := k' + 1;
        assert bids[k] == tail[k'];
        forall j | 0 <= j < k
          ensures bids[j].amount < bids[k].amount
        {
          if j > 0 {
            assert bids[j] == tail[j - 1];
          }
        }
      }
    }
  }

  /** The winner is determined by the earliest-maximum rule alone. */
  lemma EarliestMaximumIsUnique(bids: seq<Bid>, k: nat)
    requires k < |bids|
    requires forall j :: 0 <= j < |bids| ==> bids[j].amount <= bids[k].amount
    requires forall j :: 0 <= j < k ==> bids[j].amount < bids[k].amount
    ensures HighestBid(bids) == Some(bids[k])
  {
    var k' := HighestBidIsEarliestMaximum(bids);
    assert bids[k].amount <= bids[k'].amount <= bids[k].amount;
  }
}
