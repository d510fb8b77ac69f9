/**
 * Closing one listing, and all of them: the status, the winner, the
 * highest and lowest bids, the valid-bid count and the price paid.
 */
module Closing {
  import opened Records
  import opened Filters
  import opened Ordering

  lemma HasBidForMeans(s: seq<Bid>, item: string)
    ensures HasBidFor(s, item) <==> ItemBids(s, item) != []
  {
    if HasBidFor(s, item) {
      var i :| 0 <= i < |s| && s[i].item == item;
      assert s[i] in ItemBids(s, item);
    }
  }

  /** Sorting keeps exactly the same bids. */
  lemma SortKeepsBids(pool: seq<Bid>, attr: Attribute, b: Bid)
    ensures b in SortBidsBy(pool, attr) <==> b in pool
  {
    assert b in SortBidsBy(pool, attr) <==> b in multiset(SortBidsBy(pool, attr));
  }

  /**
   * __get_winning_user: no winner unless sold; when sold, the bidder of the
   * first bid of largest amount among the pool's bids for the item.
   */
  function WinningUser(pool: seq<Bid>, l: Listing, status: Status): (u: Option<int>)
    requires status == Sold ==> HasBidFor(pool, l.item)
    ensures status == Unsold ==> u == None
    ensures status == Sold ==>
      exists w :: w in pool && w.item == l.item && u == Some(w.userId) &&
                  forall b :: b in pool && b.item == l.item ==> b.amount <= w.amount
  {
    if status == Sold then
      var s := ItemBids(pool, l.item);
      HasBidForMeans(pool, l.item);
      var k := MaxIndex(s);
      assert s[k] in s;
      assert forall b :: b in pool && b.item == l.item ==> b.amount <= s[k].amount by {
        forall b | b in pool && b.item == l.item ensures b.amount <= s[k].amount {
          assert b in s;
        }
      }
      Some(s[k].userId)
    else None
  }

  /**
   * __get_auction_attribute: sorts the pool by amount, keeps the bids for the
   * item and reduces them with max or min under `order`; nothing when there
   * is no bid for the item (where max and min raise). The source compares
   * whole tuples (WholeTuple); ByAmount is the evidently intended comparison.
   */
  function AuctionAttribute(order: BidOrder, op: Extremum, pool: seq<Bid>, l: Listing): (r: Option<int>)
    ensures r.Some? <==> HasBidFor(pool, l.item)
    ensures r.Some? ==>
      exists b :: b in pool && b.item == l.item && b.amount == r.value &&
                  forall c :: c in pool && c.item == l.item ==> !Beats(order, op, c, b)
    ensures order == ByAmount && r.Some? ==> forall b :: b in pool && b.item == l.item ==>
      if op == Highest then b.amount <= r.value else r.value <= b.amount
  {
    var sorted := SortBidsBy(pool, BidAmount);
    var s := ItemBids(sorted, l.item);
    assert forall b :: b in s <==> b in pool && b.item == l.item by {
      forall b ensures b in s <==> b in pool && b.item == l.item {
        SortKeepsBids(pool, BidAmount, b);
      }
    }
    assert HasBidFor(pool, l.item) <==> s != [] by {
      HasBidForMeans(pool, l.item);
      if s != [] {
        assert s[0] in s;
      }
    }
    if s == [] then None
    else
      var k := ExtremeIndex(order, op, s);
      assert s[k] in s;
      assert forall c :: c in pool && c.item == l.item ==> !Beats(order, op, c, s[k]) by {
        forall c | c in pool && c.item == l.item ensures !Beats(order, op, c, s[k]) {
          assert c in s;
        }
      }
      Some(s[k].amount)
  }

  /**
   * __get_price_paid: nothing when unsold; when sold, the amount of the
   * second bid for the item among all bids in input order, or of the only one.
   */
  function PricePaid(bids: seq<Bid>, status: Status, item: string): (p: int)
    requires status == Sold ==> HasBidFor(bids, item)
    ensures status == Unsold ==> p == 0
    ensures status == Sold ==> exists b :: b in bids && b.item == item && b.amount == p
  {
    if status == Sold then
      var s := ItemBids(bids, item);
      HasBidForMeans(bids, item);
      var b := if |s| > 1 then s[1] else s[0];
      assert b in s;
      b.amount
    else 0
  }

  /** __count_total_bids: how many of the bids carry the item. */
  function CountTotalBids(bids: seq<Bid>, item: string): (n: nat)
    ensures n <= |bids|
    ensures n > 0 <==> HasBidFor(bids, item)
  {
    HasBidForMeans(bids, item);
    |ItemBids(bids, item)|
  }

  lemma AcceptedBidForItem(bids: seq<Bid>, listings: seq<Listing>, item: string)
    requires HasBidFor(AcceptedBids(bids, listings), item)
    ensures HasBidFor(ValidBids(bids, listings), item)
    ensures HasBidFor(bids, item)
  {
    var acc := AcceptedBids(bids, listings);
    var i :| 0 <= i < |acc| && acc[i].item == item;
    AcceptedIsValid(bids, listings, acc[i]);
    EvaluateMembership(bids, listings, AcceptedConditions(), acc[i]);
    var valid := ValidBids(bids, listings);
    var j :| 0 <= j < |valid| && valid[j] == acc[i];
    var k :| 0 <= k < |bids| && bids[k] == acc[i];
  }

  /**
   * One pass of the loop of finish_auction: the closing record of listing
   * `l`, given all bids and all listings, with the extremes compared under
   * `order` (the source: WholeTuple). It fails exactly where the source
   * raises: unsold with no valid bid for the item. Only by amount is the
   * lowest bid sure to be at most the highest.
   */
  function CloseListing(bids: seq<Bid>, listings: seq<Listing>, l: Listing, order: BidOrder): (r: Result<SoldRecord>)
    ensures r.Failure? <==> !HasBidFor(ValidBids(bids, listings), l.item)
    ensures r.Failure? ==> r.error == NoBidsForItem(l.item)
    ensures r.Success? ==> r.value.closingTime == l.closeTime && r.value.item == l.item
    ensures order == ByAmount && r.Success? ==> r.value.lowestBid <= r.value.highestBid
  {
    var valid := ValidBids(bids, listings);
    var accepted := AcceptedBids(bids, listings);
    var status := if HasBidFor(accepted, l.item) then Sold else Unsold;
    var pool := if status == Sold then accepted else valid;
    var highest := AuctionAttribute(order, Highest, pool, l);
    var lowest := AuctionAttribute(order, Lowest, pool, l);
    assert status == Sold ==> HasBidFor(valid, l.item) && HasBidFor(bids, l.item) by {
      if status == Sold {
        AcceptedBidForItem(bids, listings, l.item);
      }
    }
    if highest.None? then Failure(NoBidsForItem(l.item))
    else
      var user := WinningUser(pool, l, status);
      var count := CountTotalBids(valid, l.item);
      var price := PricePaid(bids, status, l.item);
      Success(SoldRecord(l.closeTime, l.item, user, status, price, count, highest.value, lowest.value))
  }

  /** The per-listing outcomes of finish_auction, one per listing, in listing order. */
  function Closings(bids: seq<Bid>, listings: seq<Listing>, ls: seq<Listing>, order: BidOrder): (rs: seq<Result<SoldRecord>>)
    ensures |rs| == |ls|
  {
    if ls == [] then []
    else Closings(bids, listings, ls[..|ls| - 1], order) + [CloseListing(bids, listings, ls[|ls| - 1], order)]
  }

  lemma {:induction false} ClosingsAt(bids: seq<Bid>, listings: seq<Listing>, ls: seq<Listing>, order: BidOrder, k: nat)
    requires k < |ls|
    ensures Closings(bids, listings, ls, order)[k] == CloseListing(bids, listings, ls[k], order)
  {
    if k < |ls| - 1 {
      ClosingsAt(bids, listings, ls[..|ls| - 1], order, k);
    }
  }

  /**
   * Gathers per-listing outcomes the way the loop of finish_auction does:
   * every record, in order, or the error of the first outcome that fails.
   */
  function Collect(rs: seq<Result<SoldRecord>>): (r: Result<seq<SoldRecord>>)
    ensures r.Success? <==> forall i :: 0 <= i < |rs| ==> rs[i].Success?
    ensures r.Success? ==> |r.value| == |rs| && forall i :: 0 <= i < |rs| ==> r.value[i] == rs[i].value
    ensures r.Failure? ==>
      exists k :: 0 <= k < |rs| && rs[k] == Failure(r.error) && forall i :: 0 <= i < k ==> rs[i].Success?
  {
    if rs == [] then Success([])
    else
      var init := rs[..|rs| - 1];
      match Collect(init)
      case Failure(e) => Failure(e)
      case Success(done) =>
        match rs[|rs| - 1]
        case Failure(e) => Failure(e)
        case Success(record) => Success(done + [record])
  }

  /**
   * finish_auction: the closing records of all listings, or the error of the
   * first listing without bids (the source: `order` is WholeTuple).
   */
  function FinishAll(bids: seq<Bid>, listings: seq<Listing>, order: BidOrder): Result<seq<SoldRecord>>
  {
    Collect(Closings(bids, listings, listings, order))
  }

  lemma CollectAllSucceed(rs: seq<Result<SoldRecord>>, records: seq<SoldRecord>)
    requires |records| == |rs|
    requires forall k :: 0 <= k < |rs| ==> rs[k] == Success(records[k])
    ensures Collect(rs) == Success(records)
  {
  }

  /** When every listing closes, finish_auction returns their records in listing order. */
  lemma FinishAllSucceeds(bids: seq<Bid>, listings: seq<Listing>, order: BidOrder, records: seq<SoldRecord>)
    requires |records| == |listings|
    requires forall k :: 0 <= k < |listings| ==> CloseListing(bids, listings, listings[k], order) == Success(records[k])
    ensures FinishAll(bids, listings, order) == Success(records)
  {
    var rs := Closings(bids, listings, listings, order);
    forall k | 0 <= k < |listings| ensures rs[k] == Success(records[k]) {
      ClosingsAt(bids, listings, listings, order, k);
    }
    CollectAllSucceed(rs, records);
  }

  /** When outcome `k` is the first failure, gathering the outcomes fails with its error. */
  lemma CollectFirstFailure(rs: seq<Result<SoldRecord>>, k: nat)
    requires k < |rs| && rs[k].Failure?
    requires forall i :: 0 <= i < k ==> rs[i].Success?
    ensures Collect(rs) == Failure(rs[k].error)
  {
    var r := Collect(rs);
    var j :| 0 <= j < |rs| && rs[j] == Failure(r.error) && forall i :: 0 <= i < j ==> rs[i].Success?;
    assert j == k;
  }

  // ---------------------------------------------------------------------------
  // What a closing record says about the input bids (listings offer distinct items)

  /** A valid bid for the listing's item exists exactly when some input bid for it is on time. */
  lemma HasValidBidFor(bids: seq<Bid>, listings: seq<Listing>, l: Listing)
    requires UniqueItems(listings) && l in listings
    ensures HasBidFor(ValidBids(bids, listings), l.item) <==> exists b :: b in bids && IsValidFor(b, l)
  {
    ValidBidsForListing(bids, listings, l);
    HasBidForMeans(ValidBids(bids, listings), l.item);
    var vf := ValidFor(bids, l);
    if vf != [] {
      assert vf[0] in vf;
    }
    if exists b :: b in bids && IsValidFor(b, l) {
      var b :| b in bids && IsValidFor(b, l);
      assert b in vf;
    }
  }

  /** An accepted bid for the listing's item exists exactly when some input bid for it is on time and clears the reserve. */
  lemma HasAcceptedBidFor(bids: seq<Bid>, listings: seq<Listing>, l: Listing)
    requires UniqueItems(listings) && l in listings
    ensures HasBidFor(AcceptedBids(bids, listings), l.item) <==> exists b :: b in bids && IsAcceptedFor(b, l)
  {
    AcceptedBidsForListing(bids, listings, l);
    HasBidForMeans(AcceptedBids(bids, listings), l.item);
    var af := AcceptedFor(bids, l);
    if af != [] {
      assert af[0] in af;
    }
    if exists b :: b in bids && IsAcceptedFor(b, l) {
      var b :| b in bids && IsAcceptedFor(b, l);
      assert b in af;
    }
  }

  /**
   * SOLD exactly when some input bid for the item is on time and clears the
   * reserve; the closing fails exactly when no input bid for the item is on time.
   */
  lemma CloseListingStatus(bids: seq<Bid>, listings: seq<Listing>, l: Listing, order: BidOrder)
    requires UniqueItems(listings) && l in listings
    ensures CloseListing(bids, listings, l, order).Failure? <==> forall b :: b in bids ==> !IsValidFor(b, l)
    ensures (CloseListing(bids, listings, l, order).Success? && CloseListing(bids, listings, l, order).value.status == Sold)
            <==> exists b :: b in bids && IsAcceptedFor(b, l)
  {
    HasValidBidFor(bids, listings, l);
    HasAcceptedBidFor(bids, listings, l);
    if HasBidFor(AcceptedBids(bids, listings), l.item) {
      AcceptedBidForItem(bids, listings, l.item);
    }
  }

  /**
   * The winner of a SOLD listing is the bidder of the first input bid of
   * largest amount among its accepted bids; an UNSOLD listing has none.
   */
  lemma CloseListingWinner(bids: seq<Bid>, listings: seq<Listing>, l: Listing, order: BidOrder)
    requires UniqueItems(listings) && l in listings
    requires CloseListing(bids, listings, l, order).Success?
    ensures var rec := CloseListing(bids, listings, l, order).value;
            var acc := AcceptedFor(bids, l);
            (rec.status == Sold ==> acc != [] && rec.userId == Some(acc[MaxIndex(acc)].userId)) &&
            (rec.status == Unsold ==> rec.userId == None)
  {
    AcceptedBidsForListing(bids, listings, l);
    HasBidForMeans(AcceptedBids(bids, listings), l.item);
  }

  /** The status and extremes of a closing, read off the accepted and valid bid lists. */
  lemma CloseListingParts(bids: seq<Bid>, listings: seq<Listing>, l: Listing, order: BidOrder)
    requires CloseListing(bids, listings, l, order).Success?
    ensures var rec := CloseListing(bids, listings, l, order).value;
            var sold := HasBidFor(AcceptedBids(bids, listings), l.item);
            var pool := if sold then AcceptedBids(bids, listings) else ValidBids(bids, listings);
            rec.status == (if sold then Sold else Unsold) &&
            rec.highestBid == AuctionAttribute(order, Highest, pool, l).value &&
            rec.lowestBid == AuctionAttribute(order, Lowest, pool, l).value
  {
  }

  /**
   * Over a pool with bids for the item, the attribute is the amount at the
   * index the scan for the extreme picks among those bids, in pool order:
   * the sort by amount before it does not change which bid wins.
   */
  lemma AttributeOfItemBids(order: BidOrder, op: Extremum, all: seq<Bid>, l: Listing)
    requires ItemBids(all, l.item) != []
    ensures var s := ItemBids(all, l.item);
            AuctionAttribute(order, op, all, l) == Some(s[ExtremeIndex(order, op, s)].amount)
  {
    var s := ItemBids(all, l.item);
    var k := ExtremeIndex(order, op, s);
    var w := s[k];
    assert w in s;
    HasBidForMeans(all, l.item);
    var r := AuctionAttribute(order, op, all, l);
    var b :| b in all && b.item == l.item && b.amount == r.value &&
             forall c :: c in all && c.item == l.item ==> !Beats(order, op, c, b);
    assert b in s;
    UnbeatenSameAmount(order, op, b, w);
  }

  /**
   * The highest and lowest bids are the amounts of the bids the scans pick
   * among the accepted bids of a SOLD listing, or among the valid bids of
   * an UNSOLD one, in input order. As written (WholeTuple) these are the
   * tuple-greatest and tuple-least bids, so the latest and the earliest.
   */
  lemma CloseListingExtremes(bids: seq<Bid>, listings: seq<Listing>, l: Listing, order: BidOrder)
    requires UniqueItems(listings) && l in listings
    requires CloseListing(bids, listings, l, order).Success?
    ensures var rec := CloseListing(bids, listings, l, order).value;
            var pool := if rec.status == Sold then AcceptedFor(bids, l) else ValidFor(bids, l);
            pool != [] &&
            rec.highestBid == pool[ExtremeIndex(order, Highest, pool)].amount &&
            rec.lowestBid == pool[ExtremeIndex(order, Lowest, pool)].amount
  {
    var accepted := AcceptedBids(bids, listings);
    if HasBidFor(accepted, l.item) {
      AcceptedBidsForListing(bids, listings, l);
      HasBidForMeans(accepted, l.item);
      AttributeOfItemBids(order, Highest, accepted, l);
      AttributeOfItemBids(order, Lowest, accepted, l);
    } else {
      var valid := ValidBids(bids, listings);
      ValidBidsForListing(bids, listings, l);
      HasBidForMeans(valid, l.item);
      AttributeOfItemBids(order, Highest, valid, l);
      AttributeOfItemBids(order, Lowest, valid, l);
    }
  }

  /** So a SOLD listing's lowest bid clears the reserve and an UNSOLD listing's highest bid does not. */
  lemma CloseListingReserve(bids: seq<Bid>, listings: seq<Listing>, l: Listing, order: BidOrder)
    requires UniqueItems(listings) && l in listings
    requires CloseListing(bids, listings, l, order).Success?
    ensures var rec := CloseListing(bids, listings, l, order).value;
            (rec.status == Sold ==> rec.lowestBid >= l.reserve) &&
            (rec.status == Unsold ==> rec.highestBid < l.reserve)
  {
    CloseListingExtremes(bids, listings, l, order);
    var rec := CloseListing(bids, listings, l, order).value;
    if rec.status == Sold {
      var pool := AcceptedFor(bids, l);
      assert pool[ExtremeIndex(order, Lowest, pool)] in pool;
    } else {
      var pool := ValidFor(bids, l);
      var top := pool[ExtremeIndex(order, Highest, pool)];
      assert top in pool;
      HasAcceptedBidFor(bids, listings, l);
      assert !IsAcceptedFor(top, l);
    }
  }

  /** The bid count is the number of input bids for the item placed on time, whatever their amount. */
  lemma CloseListingCount(bids: seq<Bid>, listings: seq<Listing>, l: Listing, order: BidOrder)
    requires UniqueItems(listings) && l in listings
    requires CloseListing(bids, listings, l, order).Success?
    ensures CloseListing(bids, listings, l, order).value.totalBidCount == |ValidFor(bids, l)| > 0
  {
    ValidBidsForListing(bids, listings, l);
    HasBidForMeans(ValidBids(bids, listings), l.item);
  }

  /** Unfolds ItemBids once on the prefix of length `n`. */
  lemma ItemBidsPrefix(s: seq<Bid>, n: nat, item: string)
    requires 0 < n <= |s|
    ensures ItemBids(s[..n], item) == ItemBids(s[..n - 1], item) + (if s[n - 1].item == item then [s[n - 1]] else [])
  {
    assert s[..n][..n - 1] == s[..n - 1];
  }

  /** Unfolds PricePaid for a SOLD listing: the second bid for the item, or the only one. */
  lemma SoldPricePick(bids: seq<Bid>, item: string)
    requires HasBidFor(bids, item)
    ensures var s := ItemBids(bids, item);
            s != [] && PricePaid(bids, Sold, item) == s[if |s| > 1 then 1 else 0].amount
  {
    HasBidForMeans(bids, item);
  }

  /** The k-th bid for an item among the first `n` bids sits after exactly k earlier bids for it. */
  lemma {:induction false} ItemBidsAt(s: seq<Bid>, n: nat, item: string, k: nat)
    requires n <= |s| && k < |ItemBids(s[..n], item)|
    ensures exists i :: 0 <= i < n && s[i] == ItemBids(s[..n], item)[k] && |ItemBids(s[..i], item)| == k
  {
    ItemBidsPrefix(s, n, item);
    var front := ItemBids(s[..n - 1], item);
    if k < |front| {
      ItemBidsAt(s, n - 1, item, k);
    } else {
      assert s[n - 1] == ItemBids(s[..n], item)[k] && |ItemBids(s[..n - 1], item)| == k;
    }
  }

  /**
   * The price of a SOLD listing is the amount of the input bid for the item
   * preceded by exactly one other bid for it (the second in input order,
   * whatever its time or amount), or of the only bid for it.
   */
  lemma PricePaidInInputOrder(bids: seq<Bid>, item: string)
    requires HasBidFor(bids, item)
    ensures exists i :: 0 <= i < |bids| && bids[i].item == item &&
                        PricePaid(bids, Sold, item) == bids[i].amount &&
                        |ItemBids(bids[..i], item)| == (if |ItemBids(bids, item)| > 1 then 1 else 0)
  {
    var s := ItemBids(bids, item);
    SoldPricePick(bids, item);
    var k := if |s| > 1 then 1 else 0;
    assert bids[..|bids|] == bids;
    ItemBidsAt(bids, |bids|, item, k);
    var i :| 0 <= i < |bids| && bids[i] == ItemBids(bids[..|bids|], item)[k] && |ItemBids(bids[..i], item)| == k;
    assert bids[i] == s[k] && s[k] in s;
  }

  /** The price: nothing when UNSOLD, the second input bid for the item (or the only one) when SOLD. */
  lemma CloseListingPrice(bids: seq<Bid>, listings: seq<Listing>, l: Listing, order: BidOrder)
    requires CloseListing(bids, listings, l, order).Success?
    ensures var rec := CloseListing(bids, listings, l, order).value;
            (rec.status == Unsold ==> rec.pricePaid == 0) &&
            (rec.status == Sold ==>
               exists i :: 0 <= i < |bids| && bids[i].item == l.item && rec.pricePaid == bids[i].amount &&
                           |ItemBids(bids[..i], l.item)| == (if |ItemBids(bids, l.item)| > 1 then 1 else 0))
  {
    if CloseListing(bids, listings, l, order).value.status == Sold {
      AcceptedBidForItem(bids, listings, l.item);
      PricePaidInInputOrder(bids, l.item);
    }
  }

  // ---------------------------------------------------------------------------
  // The whole run

  /**
   * finish_auction yields one record per listing, in listing order, with the
   * listing's close time and item; it fails exactly when some listing has no
   * valid bid for its item.
   */
  lemma FinishAllRecords(bids: seq<Bid>, listings: seq<Listing>, order: BidOrder)
    ensures FinishAll(bids, listings, order).Success? ==>
      var recs := FinishAll(bids, listings, order).value;
      |recs| == |listings| &&
      forall i :: 0 <= i < |listings| ==> recs[i].item == listings[i].item && recs[i].closingTime == listings[i].closeTime
  {
    var rs := Closings(bids, listings, listings, order);
    forall i | 0 <= i < |listings| ensures rs[i] == CloseListing(bids, listings, listings[i], order) {
      ClosingsAt(bids, listings, listings, order, i);
    }
  }

  /** finish_auction fails exactly when some listing has no valid bid for its item. */
  lemma FinishAllFailsWhen(bids: seq<Bid>, listings: seq<Listing>, order: BidOrder)
    ensures FinishAll(bids, listings, order).Failure? <==>
      exists i :: 0 <= i < |listings| && !HasBidFor(ValidBids(bids, listings), listings[i].item)
  {
    var rs := Closings(bids, listings, listings, order);
    forall i | 0 <= i < |listings| ensures rs[i].Failure? <==> !HasBidFor(ValidBids(bids, listings), listings[i].item) {
      ClosingsAt(bids, listings, listings, order, i);
    }
  }

  /** With distinct listing items, finish_auction fails exactly when some listing has no input bid for its item placed on time. */
  lemma FinishAllFails(bids: seq<Bid>, listings: seq<Listing>, order: BidOrder)
    requires UniqueItems(listings)
    ensures FinishAll(bids, listings, order).Failure? <==>
      exists i :: 0 <= i < |listings| && forall b :: b in bids ==> !IsValidFor(b, listings[i])
  {
    FinishAllFailsWhen(bids, listings, order);
    forall i | 0 <= i < |listings|
      ensures !HasBidFor(ValidBids(bids, listings), listings[i].item) <==> forall b :: b in bids ==> !IsValidFor(b, listings[i])
    {
      HasValidBidFor(bids, listings, listings[i]);
    }
  }
}
