/**
 * The Auction class: it holds the bids and listings it was built with and
 * closes every listing on request, computing the derived bid lists afresh
 * on each call.
 */
module Engine {
  import opened Records
  import opened Filters
  import opened Ordering
  import opened Closing

  /** The inner loop of evaluate_bid: the bids passing every condition against one listing, in order. */
  method MatchBids(bs: seq<Bid>, listing: Listing, conds: seq<Condition>) returns (matched: seq<Bid>)
    ensures matched == Matching(bs, listing, conds)
  {
    matched := [];
    var j := 0;
    while j < |bs|
      invariant 0 <= j <= |bs|
      invariant matched == Matching(bs[..j], listing, conds)
    {
      var bid := bs[j];
      if AllHold(conds, bid, listing) {
        matched := matched + [bid];
      }
      assert bs[..j + 1][..j] == bs[..j];
      j := j + 1;
    }
    assert bs[..j] == bs;
  }

  class Auction {
    var bids: seq<Bid>
    var listings: seq<Listing>

    constructor (bids: seq<Bid>, listings: seq<Listing>)
      ensures this.bids == bids && this.listings == listings
    {
      this.bids := bids;
      this.listings := listings;
    }

    /**
     * evaluate_bid: for each listing, then each bid, appends the bid when
     * every condition holds of it against the listing.
     */
    method EvaluateBid(conds: seq<Condition>) returns (accepted: seq<Bid>)
      ensures accepted == Evaluate(bids, listings, conds)
    {
      var bs, ls := bids, listings;
      accepted := [];
      var i := 0;
      while i < |ls|
        invariant 0 <= i <= |ls|
        invariant accepted == Evaluate(bs, ls[..i], conds)
      {
        var matched := MatchBids(bs, ls[i], conds);
        accepted := accepted + matched;
        assert ls[..i + 1][..i] == ls[..i];
        i := i + 1;
      }
      assert ls[..i] == ls;
    }

    /** get_valid_bids */
    method GetValidBids() returns (valid: seq<Bid>)
      ensures valid == ValidBids(bids, listings)
    {
      valid := EvaluateBid(ValidConditions());
    }

    /** get_accepted_bids */
    method GetAcceptedBids() returns (accepted: seq<Bid>)
      ensures accepted == AcceptedBids(bids, listings)
    {
      accepted := EvaluateBid(AcceptedConditions());
    }

    /**
     * The body of the loop of finish_auction for one listing: its status,
     * winner, extremes (max and min over whole Bid tuples, as the source
     * has them), count and price, or the error where max and min meet no
     * bid for the item.
     */
    method CloseOne(listing: Listing) returns (outcome: Result<SoldRecord>)
      ensures outcome == CloseListing(bids, listings, listing, WholeTuple)
    {
      var status := Unsold;
      var pool := GetValidBids();
      var accepted := GetAcceptedBids();
      if HasBidFor(accepted, listing.item) {
        status := Sold;
        pool := GetAcceptedBids();
        AcceptedBidForItem(bids, listings, listing.item);
      }
      var userId := WinningUser(pool, listing, status);
      var highest := AuctionAttribute(WholeTuple, Highest, pool, listing);
      var lowest := AuctionAttribute(WholeTuple, Lowest, pool, listing);
      if highest.None? {
        return Failure(NoBidsForItem(listing.item));
      }
      var valid := GetValidBids();
      var count := CountTotalBids(valid, listing.item);
      var price := PricePaid(bids, status, listing.item);
      outcome := Success(SoldRecord(listing.closeTime, listing.item, userId, status, price, count,
                                    highest.value, lowest.value));
    }

    /**
     * finish_auction: closes the listings in order into a fresh list, or
     * stops with the error of the first listing that has no bid to reduce.
     */
    method FinishAuction() returns (result: Result<seq<SoldRecord>>)
      ensures result == FinishAll(bids, listings, WholeTuple)
    {
      ghost var outcomes := Closings(bids, listings, listings, WholeTuple);
      var sold: seq<SoldRecord> := [];
      var i := 0;
      while i < |listings|
        invariant 0 <= i <= |listings| && |sold| == i
        invariant forall k :: 0 <= k < i ==> outcomes[k] == Success(sold[k])
      {
        var outcome := CloseOne(listings[i]);
        ClosingsAt(bids, listings, listings, WholeTuple, i);
        if outcome.Failure? {
          CollectFirstFailure(outcomes, i);
          return Failure(outcome.error);
        }
        ghost var before := sold;
        sold := sold + [outcome.value];
        forall k | 0 <= k < i + 1 ensures outcomes[k] == Success(sold[k]) {
          if k < i {
            assert sold[k] == before[k];
          }
        }
        i := i + 1;
      }
      CollectAllSucceed(outcomes, sold);
      result := Success(sold);
    }

    /** finish_auction changes nothing it reads, so a second call gives the same result. */
    method FinishAuctionTwice() returns (first: Result<seq<SoldRecord>>, second: Result<seq<SoldRecord>>)
      ensures first == second
    {
      first := FinishAuction();
      second := FinishAuction();
    }
  }
}
