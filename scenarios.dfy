/**
 * Worked closings of one listing as the source computes them (extremes
 * over whole Bid tuples), derived from the general lemmas of Closing: a
 * single bid that clears the reserve, one that does not, and a run where
 * the price paid exceeds the highest bid.
 */
module Scenarios {
  import opened Records
  import opened Filters
  import opened Ordering
  import opened Closing

  /** toaster_1, listed at time 10 with reserve 4.00, closing at time 20. */
  function Toaster(): Listing
  {
    Listing(10, 1, "SELL", "toaster_1", 400, 20)
  }

  lemma OneBidPools(b: Bid)
    requires b.item == Toaster().item && b.timestamp <= Toaster().closeTime
    ensures ValidFor([b], Toaster()) == [b]
    ensures AcceptedFor([b], Toaster()) == (if b.amount >= Toaster().reserve then [b] else [])
    ensures |ItemBids([b], Toaster().item)| == 1
  {
    assert [b][..0] == [];
  }

  /** One bid of 7.50 by user 8 at the close time: SOLD to user 8 for 7.50. */
  lemma SingleBidSells()
    ensures FinishAll([Bid(20, 8, "BID", "toaster_1", 750)], [Toaster()], WholeTuple) ==
            Success([SoldRecord(20, "toaster_1", Some(8), Sold, 750, 1, 750, 750)])
  {
    var b := Bid(20, 8, "BID", "toaster_1", 750);
    var bids, listings, l := [b], [Toaster()], Toaster();
    OneBidPools(b);
    assert l in listings && UniqueItems(listings);
    assert b in bids && IsAcceptedFor(b, l);
    CloseListingStatus(bids, listings, l, WholeTuple);
    CloseListingWinner(bids, listings, l, WholeTuple);
    CloseListingExtremes(bids, listings, l, WholeTuple);
    CloseListingCount(bids, listings, l, WholeTuple);
    CloseListingPrice(bids, listings, l, WholeTuple);
    assert bids[0] == b;
    FinishAllSucceeds(bids, listings, WholeTuple, [SoldRecord(20, "toaster_1", Some(8), Sold, 750, 1, 750, 750)]);
  }

  /** One bid of 1.50, below the reserve: UNSOLD, no winner, nothing paid, the bid still counted. */
  lemma SingleLowBidUnsold()
    ensures FinishAll([Bid(20, 8, "BID", "toaster_1", 150)], [Toaster()], WholeTuple) ==
            Success([SoldRecord(20, "toaster_1", None, Unsold, 0, 1, 150, 150)])
  {
    var b := Bid(20, 8, "BID", "toaster_1", 150);
    var bids, listings, l := [b], [Toaster()], Toaster();
    OneBidPools(b);
    assert l in listings && UniqueItems(listings);
    assert b in bids && IsValidFor(b, l) && !IsAcceptedFor(b, l);
    CloseListingStatus(bids, listings, l, WholeTuple);
    CloseListingWinner(bids, listings, l, WholeTuple);
    CloseListingExtremes(bids, listings, l, WholeTuple);
    CloseListingCount(bids, listings, l, WholeTuple);
    CloseListingPrice(bids, listings, l, WholeTuple);
    FinishAllSucceeds(bids, listings, WholeTuple, [SoldRecord(20, "toaster_1", None, Unsold, 0, 1, 150, 150)]);
  }

  /** Sorting two bids by amount puts 16.50 before 12.50. */
  lemma SortTwoBids()
    ensures var low, high := Bid(20, 8, "BID", "toaster_1", 1250), Bid(20, 8, "BID", "toaster_1", 1650);
            SortBidsBy([low, high], BidAmount) == [high, low]
  {
    var low, high := Bid(20, 8, "BID", "toaster_1", 1250), Bid(20, 8, "BID", "toaster_1", 1650);
    assert [low, high][1..] == [high];
    assert [high][1..] == [];
    assert SortBidsBy([high], BidAmount) == [high];
    assert Insert(low, [high], BidAmount) == [high] + Insert(low, [], BidAmount);
  }

  /** A bid of 5.00 on time, then one of 9.00 after the close. */
  function LateRun(): seq<Bid>
  {
    [Bid(5, 1, "BID", "toaster_1", 500), Bid(30, 2, "BID", "toaster_1", 900)]
  }

  lemma LateRunPools()
    ensures AcceptedFor(LateRun(), Toaster()) == [LateRun()[0]]
    ensures |ItemBids(LateRun(), Toaster().item)| == 2
    ensures ItemBids(LateRun()[..0], Toaster().item) == []
    ensures |ItemBids(LateRun()[..1], Toaster().item)| == 1
  {
    var bids, l := LateRun(), Toaster();
    assert bids[..1] == [bids[0]] && [bids[0]][..0] == [] && bids[..0] == [];
    assert AcceptedFor([bids[0]], l) == [bids[0]];
    assert AcceptedFor(bids, l) == AcceptedFor(bids[..1], l) + [];
  }

  lemma LateRunSold()
    ensures CloseListing(LateRun(), [Toaster()], Toaster(), WholeTuple).Success?
    ensures CloseListing(LateRun(), [Toaster()], Toaster(), WholeTuple).value.status == Sold
  {
    var bids, listings, l := LateRun(), [Toaster()], Toaster();
    assert l in listings && UniqueItems(listings);
    assert bids[0] in bids && IsAcceptedFor(bids[0], l);
    CloseListingStatus(bids, listings, l, WholeTuple);
  }

  lemma LateRunHighest()
    ensures CloseListing(LateRun(), [Toaster()], Toaster(), WholeTuple).Success?
    ensures CloseListing(LateRun(), [Toaster()], Toaster(), WholeTuple).value.highestBid == 500
  {
    var bids, listings, l := LateRun(), [Toaster()], Toaster();
    assert l in listings && UniqueItems(listings);
    LateRunSold();
    LateRunPools();
    CloseListingExtremes(bids, listings, l, WholeTuple);
  }

  lemma LateRunSecondBid()
    ensures HasBidFor(LateRun(), Toaster().item) && PricePaid(LateRun(), Sold, Toaster().item) == 900
  {
    var bids, item := LateRun(), Toaster().item;
    assert bids[0].item == item;
    LateRunPools();
    PricePaidInInputOrder(bids, item);
    var i :| 0 <= i < |bids| && bids[i].item == item && PricePaid(bids, Sold, item) == bids[i].amount &&
             |ItemBids(bids[..i], item)| == 1;
    if i == 0 {
      assert false;
    }
  }

  lemma LateRunPrice()
    ensures CloseListing(LateRun(), [Toaster()], Toaster(), WholeTuple).Success?
    ensures CloseListing(LateRun(), [Toaster()], Toaster(), WholeTuple).value.pricePaid == 900
  {
    LateRunSold();
    LateRunSecondBid();
  }

  /**
   * On that run the listing is SOLD with a highest bid of 5.00, yet the
   * price paid is 9.00: the second bid for the item in input order, late
   * as it is.
   */
  lemma PriceCanExceedHighest()
    ensures var r := CloseListing(LateRun(), [Toaster()], Toaster(), WholeTuple);
            r.Success? && r.value.status == Sold && r.value.highestBid == 500 && r.value.pricePaid == 900
  {
    LateRunSold();
    LateRunHighest();
    LateRunPrice();
  }
}
