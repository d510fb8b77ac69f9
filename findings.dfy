/**
 * __get_auction_attribute as written hands max and min the bid records
 * themselves, without a key, so Python compares them as tuples, field by
 * field in declaration order (timestamp, user_id, action, item, bid_amount).
 * The time of the bid therefore decides, not its amount: a SOLD listing can
 * close with its highest bid below its lowest. Compared by amount, as
 * evidently intended, the lowest bid is never above the highest.
 */
module AttributeFinding {
  import opened Records
  import opened Filters
  import opened Ordering
  import opened Closing

  /** A listing of item "x" with reserve 0.50 closing at time 20. */
  function ExampleListing(): Listing
  {
    Listing(1, 5, "SELL", "x", 50, 20)
  }

  /** Two bids for "x": 9.00 at time 10, then 1.00 at time 15. */
  function ExamplePool(): seq<Bid>
  {
    [Bid(10, 1, "BID", "x", 900), Bid(15, 2, "BID", "x", 100)]
  }

  lemma ExamplePoolHasBid()
    ensures HasBidFor(ExamplePool(), ExampleListing().item)
    ensures forall b :: b in ExamplePool() ==> b == ExamplePool()[0] || b == ExamplePool()[1]
  {
    assert ExamplePool()[0].item == ExampleListing().item;
  }

  /** As written, the later bid of 1.00 is the "highest". */
  lemma AsWrittenHighestExample()
    ensures AuctionAttribute(WholeTuple, Highest, ExamplePool(), ExampleListing()) == Some(100)
  {
    ExamplePoolHasBid();
    var pool, l := ExamplePool(), ExampleListing();
    var r := AuctionAttribute(WholeTuple, Highest, pool, l);
    var b :| b in pool && b.item == l.item && b.amount == r.value &&
             forall c :: c in pool && c.item == l.item ==> !Beats(WholeTuple, Highest, c, b);
    assert pool[1] in pool && BidTupleLess(pool[0], pool[1]);
  }

  /** As written, the earlier bid of 9.00 is the "lowest". */
  lemma AsWrittenLowestExample()
    ensures AuctionAttribute(WholeTuple, Lowest, ExamplePool(), ExampleListing()) == Some(900)
  {
    ExamplePoolHasBid();
    var pool, l := ExamplePool(), ExampleListing();
    var r := AuctionAttribute(WholeTuple, Lowest, pool, l);
    var b :| b in pool && b.item == l.item && b.amount == r.value &&
             forall c :: c in pool && c.item == l.item ==> !Beats(WholeTuple, Lowest, c, b);
    assert pool[0] in pool && BidTupleLess(pool[0], pool[1]);
  }

  lemma CorrectedHighestExample()
    ensures AuctionAttribute(ByAmount, Highest, ExamplePool(), ExampleListing()) == Some(900)
  {
    ExamplePoolHasBid();
    var pool := ExamplePool();
    assert pool[0] in pool;
  }

  lemma CorrectedLowestExample()
    ensures AuctionAttribute(ByAmount, Lowest, ExamplePool(), ExampleListing()) == Some(100)
  {
    ExamplePoolHasBid();
    var pool := ExamplePool();
    assert pool[1] in pool;
  }

  /** Both example bids are on time and clear the reserve, so both are accepted. */
  lemma ExampleAllAccepted()
    ensures AcceptedBids(ExamplePool(), [ExampleListing()]) == ExamplePool()
  {
    var pool, l := ExamplePool(), ExampleListing();
    assert [l][..0] == [] && Evaluate(pool, [], AcceptedConditions()) == [];
    assert Evaluate(pool, [l], AcceptedConditions()) == Evaluate(pool, [], AcceptedConditions()) + Matching(pool, l, AcceptedConditions());
    MatchingAccepted(pool, l);
    assert pool[..1] == [pool[0]] && [pool[0]][..0] == [];
    assert AcceptedFor(pool[..1], l) == [pool[0]];
  }

  /** The example listing closes SOLD, its extremes taken over both bids. */
  lemma ExampleClosingSold(order: BidOrder)
    ensures var r := CloseListing(ExamplePool(), [ExampleListing()], ExampleListing(), order);
            r.Success? && r.value.status == Sold &&
            r.value.highestBid == AuctionAttribute(order, Highest, ExamplePool(), ExampleListing()).value &&
            r.value.lowestBid == AuctionAttribute(order, Lowest, ExamplePool(), ExampleListing()).value
  {
    var pool, l := ExamplePool(), ExampleListing();
    ExampleAllAccepted();
    ExamplePoolHasBid();
    AcceptedBidForItem(pool, [l], l.item);
    CloseListingParts(pool, [l], l, order);
  }

  /**
   * The whole closing as written: the example listing closes SOLD with a
   * highest bid of 1.00 below its lowest bid of 9.00.
   */
  lemma AsWrittenHighestBelowLowest()
    ensures var r := CloseListing(ExamplePool(), [ExampleListing()], ExampleListing(), WholeTuple);
            r.Success? && r.value.status == Sold && r.value.highestBid == 100 && r.value.lowestBid == 900 &&
            r.value.highestBid < r.value.lowestBid
  {
    ExampleClosingSold(WholeTuple);
    AsWrittenHighestExample();
    AsWrittenLowestExample();
  }

  /** Compared by amount, the same closing reports 9.00 and 1.00. */
  lemma CorrectedClosingExample()
    ensures var r := CloseListing(ExamplePool(), [ExampleListing()], ExampleListing(), ByAmount);
            r.Success? && r.value.status == Sold && r.value.highestBid == 900 && r.value.lowestBid == 100
  {
    ExampleClosingSold(ByAmount);
    CorrectedHighestExample();
    CorrectedLowestExample();
  }

  /** By amount, the lowest attribute never exceeds the highest, on any pool with a bid for the item. */
  lemma CorrectedHighestNotBelowLowest(pool: seq<Bid>, l: Listing)
    requires HasBidFor(pool, l.item)
    ensures AuctionAttribute(ByAmount, Lowest, pool, l).value <= AuctionAttribute(ByAmount, Highest, pool, l).value
  {
    var lo := AuctionAttribute(ByAmount, Lowest, pool, l);
    var b :| b in pool && b.item == l.item && b.amount == lo.value &&
             forall c :: c in pool && c.item == l.item ==> !Beats(ByAmount, Lowest, c, b);
  }
}
