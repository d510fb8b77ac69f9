/**
 * The records the auction engine reads and writes: a Listing (a sell line),
 * a Bid (a bid line) and the closing record of one listing. Money is held in
 * integer cents, so comparisons are exact.
 */
module Records {

  /** A bid line: timestamp|user_id|action|item|bid_amount. */
  datatype Bid = Bid(timestamp: int, userId: int, action: string, item: string, amount: int)

  /** A sell line: timestamp|user_id|action|item|reserve_price|close_time. */
  datatype Listing = Listing(
    timestamp: int, userId: int, action: string, item: string, reserve: int, closeTime: int)

  datatype Status = Sold | Unsold

  datatype Option<T> = None | Some(value: T)

  /**
   * The closing record of one listing. An unsold listing has no winner
   * (the source writes the empty string there).
   */
  datatype SoldRecord = SoldRecord(
    closingTime: int,
    item: string,
    userId: Option<int>,
    status: Status,
    pricePaid: int,
    totalBidCount: nat,
    highestBid: int,
    lowestBid: int)

  /** The one way closing can fail: max/min over no bids for the listing's item. */
  datatype AuctionError = NoBidsForItem(item: string)

  datatype Result<T> = Success(value: T) | Failure(error: AuctionError)

  /** No two listings offer the same item. */
  ghost predicate UniqueItems(listings: seq<Listing>)
  {
    forall i, j :: 0 <= i < |listings| && 0 <= j < |listings| && listings[i].item == listings[j].item ==> i == j
  }
}
