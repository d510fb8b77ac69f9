# Auction closing engine — a Dafny model

This project models the `Auction` class of a small auction house program.
The class takes a list of bid lines and a list of sell lines (listings).
For each listing it produces one closing record, which holds:

- the item and its close time;
- the status, SOLD or UNSOLD;
- the winning user;
- the price paid;
- the number of valid bids;
- the highest and lowest bid.

The model covers the following:

- **Records** (`records.dfy`): the Bid, Listing and Sold records, with money in integer cents.
- **Filters** (`filters.dfy`):
  - the three bid predicates;
  - `evaluate_bid`, the filter over all listings and all bids, with its conditions given as function values;
  - the valid and accepted bid lists;
  - the per-item filter written in the source as a list comprehension.
- **Ordering** (`ordering.dfy`):
  - `sort_bids_by`, a stable descending sort on an integer key;
  - the index Python's `max` picks with a key, which is the first bid of largest amount (used for the winner);
  - Python's order on whole Bid tuples, proved a strict total order, and the indices `max` and `min` pick under it without a key;
  - the by-amount `min` index, which the source never uses but which the corrected attribute needs.
- **Closing** (`closing.dfy`):
  - the helpers `__get_winning_user`, `__get_auction_attribute`, `__get_price_paid` and `__count_total_bids`;
  - the closing of one listing;
  - `finish_auction` as a function over the inputs, with the properties proved about it.
- **Engine** (`engine.dfy`): the `Auction` class itself.
  - Its fields hold the bids and the listings.
  - Its methods keep the source's loops: `evaluate_bid`, `get_valid_bids`, `get_accepted_bids` and `finish_auction`.
  - Each method is proved equal to the matching function of Filters or Closing.
- **AttributeFinding** (`findings.dfy`): a listing on which the source reports a highest bid below the lowest (see Findings).
- **Scenarios** (`scenarios.dfy`): worked closings, as the source computes them.
  - The SOLD and UNSOLD closings and the two-bid sort of the unit tests.
  - A run where the price paid exceeds the highest bid.

`__get_auction_attribute` compares bids in one of two ways, chosen by a `BidOrder` parameter:

- `WholeTuple` is the program as written. `max` and `min` get whole Bid tuples without a key, so the timestamp decides.
- `ByAmount` is the evident intent: compare bid amounts.

The Engine methods use `WholeTuple`. Every closing property is proved for both orders, the extremes included (as the amounts the max and min scans pick under the order). The one exception is that the lowest bid is at most the highest: that is promised only under `ByAmount`.

`max` and `min` over an empty list raise `ValueError` in the source. That happens in `finish_auction` exactly when a listing has no valid bid for its item. The model returns `Failure(NoBidsForItem(item))` for the whole call in that case.

Several lemmas compare one listing's closing with the bids for that listing. Those lemmas assume that no two listings offer the same item (`UniqueItems`). The operations themselves have no such precondition.

## Model

| member | source | states |
|---|---|---|
| Filters.IsListedItem | app/auction.py:68-77 | a bid is for a listing when their items are equal |
| Filters.IsValidPrice | app/auction.py:79-88 | a bid clears a listing when its amount is at least the reserve |
| Filters.IsValidTime | app/auction.py:90-99 | a bid is on time when its timestamp is at most the listing's close time |
| Filters.Evaluate | app/auction.py:101-112 | evaluate_bid: for each listing in order, the bids that pass every condition against it, in bid order |
| Filters.ValidBids | app/auction.py:38-45 | get_valid_bids is evaluate_bid with the item and time conditions |
| Filters.AcceptedBids | app/auction.py:47-56 | get_accepted_bids is evaluate_bid with the item, price and time conditions |
| Filters.HasBidFor | app/auction.py:185 | the `any` test: some bid of the list is for the item |
| Filters.Matching | app/auction.py:109-111 | one listing's pass of evaluate_bid keeps exactly the bids that meet every condition, and never more bids than it was given |
| Filters.ValidConditionsMean | app/auction.py:38-45 | get_valid_bids' two conditions hold of a bid and a listing iff the bid is for the listing's item and placed no later than its close time |
| Filters.AcceptedConditionsMean | app/auction.py:47-56 | get_accepted_bids' three conditions hold iff the bid is for the item, on time, and at or above the reserve |
| Filters.EvaluateMembership | app/auction.py:101-112 | a bid is in evaluate_bid's result iff it is an input bid and some listing lets it pass every condition |
| Filters.EvaluateCount | app/auction.py:107-111 | multiplicity: the bid occurs in the result once per listing it passes, times the number of times it occurs in the input (the order is fixed by Evaluate's definition) |
| Filters.EvaluateAllPass | app/auction.py:101-112 | with conditions that always hold and a single listing, evaluate_bid returns the bids unchanged (the always-true test case) |
| Filters.MatchingAllPass | app/auction.py:109-111 | with conditions that always hold, one listing's pass returns the bids unchanged |
| Filters.ItemBids | app/auction.py:172 | the comprehension keeps exactly the bids for the item, no more than the input |
| Filters.ItemBidsConcat | app/auction.py:172 | filtering by item distributes over concatenation |
| Filters.ItemBidsAll | app/auction.py:172 | filtering a list that holds only bids for the item returns it unchanged |
| Filters.ItemBidsNone | app/auction.py:172 | filtering a list with no bid for the item gives the empty list |
| Filters.EvaluateOtherItems | app/auction.py:101-112 | when conditions demand a listed item, evaluate_bid yields no bid for an item no listing offers |
| Filters.ItemBidsOfEvaluate | app/auction.py:101-112 | with distinct listing items, the bids of evaluate_bid for a listing's item are that listing's own pass, in input order |
| Filters.ValidFor | app/auction.py:91-99 | a listing's valid bids are exactly the input bids for its item placed no later than its close time |
| Filters.AcceptedFor | app/auction.py:80-99 | a listing's accepted bids are exactly its valid bids at or above its reserve |
| Filters.MatchingValid | app/auction.py:38-45 | get_valid_bids' pass over one listing is that listing's valid bids |
| Filters.MatchingAccepted | app/auction.py:47-56 | get_accepted_bids' pass over one listing is that listing's accepted bids |
| Filters.ValidBidsForListing | app/auction.py:184 | the valid bids finish_auction sees for a listing's item are that listing's valid bids, in input order |
| Filters.AcceptedBidsForListing | app/auction.py:185-187 | the accepted bids for a listing's item are that listing's accepted bids, in input order |
| Filters.ValidBidHasListing | app/auction.py:91-99 | every valid bid is an input bid for some listing's item, placed by its close time |
| Filters.AcceptedClearsReserve | app/auction.py:80-88 | an accepted bid for a listing's item is at or above the reserve and on time, so a bid below the reserve is never accepted |
| Filters.AcceptedIsValid | app/auction.py:38-56 | every accepted bid is also valid |
| Filters.AcceptedIsSubsequence | app/auction.py:38-56 | the accepted list is a subsequence of the valid list (same relative order) |
| Filters.MatchingAcceptedSubsequence | app/auction.py:109-111 | per listing, the accepted pass is a subsequence of the valid pass |
| Ordering.SortBidsBy | app/auction.py:58-66 | sort_bids_by returns a permutation of its input that is non-increasing in the key |
| Ordering.InsertPermutes | app/auction.py:66 | inserting a bid into a list adds exactly that bid to its multiset |
| Ordering.InsertSorted | app/auction.py:66 | inserting into a non-increasing list keeps it non-increasing |
| Ordering.InsertStable | app/auction.py:66 | insertion keeps the relative order of bids with equal keys |
| Ordering.SortIsStable | app/auction.py:66 | sorted is stable: the bids with any one key value keep their input order |
| Closing.SortKeepsBids | app/auction.py:141 | the sort before the scan keeps exactly the bids of the pool |
| Ordering.MaxIndex | app/auction.py:124-127 | max with a key picks an element of largest amount, and no earlier element has that amount |
| Ordering.MinIndex | app/auction.py:142-144 | the corrected, by-amount min (the source never calls min with a key): an element of smallest amount, and no earlier element has that amount |
| Ordering.StringLess | app/auction.py:142-144 | Python's order on the string fields: by code point, a proper prefix first |
| Ordering.StringLessIrreflexive | app/auction.py:142-144 | no string is less than itself |
| Ordering.StringLessTransitive | app/auction.py:142-144 | the string order is transitive |
| Ordering.StringLessTotal | app/auction.py:142-144 | of two different strings one is less |
| Ordering.BidTupleLess | app/auction.py:142-144 | Python's order on two Bid tuples: fields in declaration order, the first differing one decides |
| Ordering.BidTupleLessTransitive | app/auction.py:142-144 | the tuple order is transitive |
| Ordering.BidTupleLessTotal | app/auction.py:142-144 | of two different bids one is tuple-less than the other |
| Ordering.TupleTieIsEqual | app/auction.py:142-144 | two bids neither of which is tuple-less than the other are the same bid |
| Ordering.TupleMaxIndex | app/auction.py:142-144 | max without a key picks a bid that no bid of the list is tuple-greater than, so one of the latest timestamp |
| Ordering.TupleMinIndex | app/auction.py:142-144 | min without a key picks a bid that no bid of the list is tuple-less than, so one of the earliest timestamp |
| Ordering.ExtremeIndex | app/auction.py:142-144 | the max or min scan under either order picks an element that no element of the list beats |
| Ordering.UnbeatenSameAmount | app/auction.py:142-144 | two bids neither of which beats the other carry the same amount, so the attribute does not depend on which one the scan meets first |
| Closing.WinningUser | app/auction.py:114-129 | no winner when UNSOLD; when SOLD, the user of a pool bid for the item whose amount no other bid for it exceeds |
| Closing.AuctionAttribute | app/auction.py:131-145 | present iff the pool has a bid for the item, and then the amount of a pool bid for the item that no other beats under the order (tuple order as written, amount as intended); by amount it is the largest or smallest amount |
| Closing.PricePaid | app/auction.py:147-162 | 0 when UNSOLD; when SOLD, the amount of some input bid for the item |
| Closing.CountTotalBids | app/auction.py:164-174 | the count is at most the list's length and positive iff the list holds a bid for the item |
| Closing.AcceptedBidForItem | app/auction.py:185-187 | if an accepted bid exists for the item, a valid one and an input one exist too, so the winner and price lookups are defined |
| Closing.CloseListing | app/auction.py:182-206 | one listing's closing fails iff it has no valid bid for its item; otherwise the record copies close time and item; by amount, its lowest bid is at most its highest |
| Closing.Closings | app/auction.py:182-206 | one outcome per listing |
| Closing.ClosingsAt | app/auction.py:182-206 | the k-th outcome is the closing of the k-th listing |
| Closing.Collect | app/auction.py:181-208 | collecting outcomes succeeds iff all succeed, with the records in listing order; otherwise it gives the first failure's error |
| Closing.CollectAllSucceed | app/auction.py:181-208 | when every outcome succeeds, collecting them gives exactly their records in order |
| Closing.FinishAll | app/auction.py:176-208 | finish_auction: the listings' closings gathered in listing order, stopping at the first that raises |
| Closing.FinishAllSucceeds | app/auction.py:176-208 | when every listing closes, finish_auction returns exactly their records in listing order |
| Closing.CollectFirstFailure | app/auction.py:181-208 | the error reported is that of the first listing that fails |
| Closing.HasValidBidFor | app/auction.py:184 | a valid bid for a listing's item exists iff some input bid for it is on time |
| Closing.HasAcceptedBidFor | app/auction.py:185 | an accepted bid for a listing's item exists iff some input bid for it is on time and at or above the reserve |
| Closing.CloseListingStatus | app/auction.py:183-188 | the closing fails iff no input bid for the item is on time; it is SOLD iff some input bid for the item is on time and at or above the reserve |
| Closing.CloseListingWinner | app/auction.py:188 | SOLD: the winner is the user of the first accepted bid of largest amount; UNSOLD: no winner |
| Closing.AttributeOfItemBids | app/auction.py:141-144 | over a pool with bids for the item, the attribute is the amount of the bid the max or min scan picks among those bids in pool order, so the sort before the scan does not change the result |
| Closing.CloseListingExtremes | app/auction.py:184-190 | highest and lowest are the amounts of the bids the max and min scans pick among the accepted bids when SOLD and among the valid bids when UNSOLD; as written, the tuple-greatest and tuple-least, so the latest and the earliest |
| Closing.CloseListingReserve | app/auction.py:184-190 | under either order, SOLD: the lowest bid is at or above the reserve; UNSOLD: even the highest bid is below it |
| Closing.CloseListingCount | app/auction.py:191-193 | the count is the number of the listing's valid bids, and it is positive |
| Closing.ItemBidsAt | app/auction.py:156-158 | the k-th bid for the item sits at an input position with exactly k earlier bids for the item |
| Closing.PricePaidInInputOrder | app/auction.py:147-162 | SOLD: the price is the amount of the second bid for the item in input order, counting all bids late or low, or of the only one |
| Closing.CloseListingPrice | app/auction.py:194 | the record's price is 0 when UNSOLD, and otherwise the second bid for the item in input order, or the only one |
| Closing.FinishAllRecords | app/auction.py:176-208 | a successful finish_auction has one record per listing, in listing order, with item and close time copied |
| Closing.FinishAllFailsWhen | app/auction.py:189-190 | finish_auction fails iff some listing has no valid bid for its item |
| Closing.FinishAllFails | app/auction.py:189-190 | with distinct listing items, finish_auction fails iff some listing has no input bid for its item placed on time |
| Engine.MatchBids | app/auction.py:109-111 | the inner loop's list is that listing's pass of the conditions |
| Engine.Auction.constructor | app/auction.py:34-36 | the object holds the given bids and listings |
| Engine.Auction.EvaluateBid | app/auction.py:101-112 | the nested loops build exactly the evaluate_bid list |
| Engine.Auction.GetValidBids | app/auction.py:38-45 | returns the valid bid list |
| Engine.Auction.GetAcceptedBids | app/auction.py:47-56 | returns the accepted bid list |
| Engine.Auction.CloseOne | app/auction.py:183-205 | one pass of finish_auction's loop produces that listing's closing outcome, with max and min over whole tuples |
| Engine.Auction.FinishAuction | app/auction.py:176-208 | the loop returns the records of all listings in order, as written (whole-tuple extremes), or the first listing's error |
| Engine.Auction.FinishAuctionTwice | app/auction.py:176-208 | finish_auction mutates nothing it reads, so two calls give equal results |
| AttributeFinding.ExampleAllAccepted | app/auction.py:47-56 | both bids of the example are accepted for its listing |
| AttributeFinding.AsWrittenHighestExample | app/auction.py:142-144 | as written, 9.00 at time 10 then 1.00 at time 15 give a highest bid of 1.00 |
| AttributeFinding.AsWrittenLowestExample | app/auction.py:142-144 | as written, the same bids give a lowest bid of 9.00 |
| AttributeFinding.CorrectedHighestExample | app/auction.py:142-144 | compared by amount, the same bids give a highest bid of 9.00 |
| AttributeFinding.CorrectedLowestExample | app/auction.py:142-144 | compared by amount, the same bids give a lowest bid of 1.00 |
| AttributeFinding.ExampleClosingSold | app/auction.py:183-190 | the example listing closes SOLD, its extremes the attribute over both bids |
| AttributeFinding.AsWrittenHighestBelowLowest | app/auction.py:176-208 | as written, the example listing closes SOLD with highest 1.00 below lowest 9.00 |
| AttributeFinding.CorrectedClosingExample | app/auction.py:176-208 | by amount, the same listing closes SOLD with highest 9.00 and lowest 1.00 |
| AttributeFinding.CorrectedHighestNotBelowLowest | app/auction.py:131-145 | by amount, the lowest attribute never exceeds the highest |
| Scenarios.SingleBidSells | tests/test_auction/test_unit.py:87-95 | one bid of 7.50 at the close time on a 4.00 reserve: SOLD to user 8 for 7.50, one bid, highest and lowest 7.50 |
| Scenarios.SingleLowBidUnsold | tests/test_auction/test_unit.py:97-107 | one bid of 1.50: UNSOLD, no winner, price 0, one bid, highest and lowest 1.50 |
| Scenarios.SortTwoBids | tests/test_auction/test_unit.py:74-85 | sorting 12.50 and 16.50 by amount puts 16.50 first |
| Scenarios.OneBidPools | tests/test_auction/test_unit.py:87-107 | a single on-time bid for the toaster is its only valid bid, is accepted iff it clears the reserve, and is the only bid for the item |
| Scenarios.LateRunPools | app/auction.py:156 | on a run of 5.00 on time then 9.00 late, only the first bid is accepted, and both count for the price |
| Scenarios.LateRunSold | app/auction.py:183-187 | that run closes SOLD |
| Scenarios.LateRunHighest | app/auction.py:189 | that run's highest bid is 5.00 |
| Scenarios.LateRunSecondBid | app/auction.py:156-158 | that run's price is the late 9.00, the second bid in input order |
| Scenarios.LateRunPrice | app/auction.py:194 | the record of that run carries a price of 9.00 |
| Scenarios.PriceCanExceedHighest | app/auction.py:156-160 | SOLD with a highest bid of 5.00 and a price paid of 9.00 |

## Left out

- Reading and parsing the pipe-delimited input file (`app/file.py`) is not modelled. Its effect is taken as given: integer timestamps and user ids, and `Decimal` amounts, held here as integer cents.
- The command-line wiring (`run.py`) and writing the output file are not modelled.
- `is_valid_price` converts both amounts to `float`. The model compares exact cents, which is the same for two-decimal amounts within float precision.
- `sort_bids_by` accepts any attribute name. The model sorts only by the integer attributes: timestamp, user id and amount. Sorting by the string attributes `action` and `item`, and the error for an unknown name, are not modelled.
- The unit tests build records from strings. There `sorted`, `max` and `min` compare amounts and timestamps as text, while the three predicates still convert with `int` and `float`. The model follows the types `app/file.py` produces.
- Strings compare by code point, as Python 3 does. No locale or normalisation is modelled.
- The source writes `""` as the winner of an UNSOLD listing and `0.00` as its price. The model writes `None` and `0`. Output formatting to two decimals is not modelled.
- Listings that share an item are allowed by every operation. The per-listing lemmas assume distinct items, because with shared items each listing also sees the other listing's bids.
- The `ValueError` raised by `max` and `min` over no bids is modelled as a `Failure` result of the whole `finish_auction`, not as an exception.
- Closing.WinningUser and Closing.PricePaid require a bid for the item when SOLD. The source would raise there, but `finish_auction` never calls them that way: SOLD implies an accepted bid for the item.
- Closing.CloseListing promises the lowest bid at most the highest only under `ByAmount`. As written (`WholeTuple`) the source does not keep that order (see Findings).
- Closing.PricePaid is the second bid for the item in input order, whether it is late, below the reserve or lower than the first. It is therefore not a second-price rule and can exceed the highest bid (Scenarios.PriceCanExceedHighest).
- Closing.CloseListingExtremes takes the extremes over the accepted bids when SOLD, not over all valid bids, because that is the pool `finish_auction` passes.
- A listing with no valid bid is not closed UNSOLD: `max` over an empty list raises, and the model fails the whole call (Closing.FinishAllFails).
- Engine.MatchBids and Engine.Auction.CloseOne are the bodies of the source's loops, extracted so that each loop is proved on its own.
- Engine.Auction methods compute the valid and accepted lists afresh on each call, as the properties in the source do. Caching and aliasing of those lists are not modelled.

## Findings

| source | as written | input that shows it | evidently intended | confidence | as-written member | corrected member |
|---|---|---|---|---|---|---|
| app/auction.py:142-144 | `max` and `min` are applied to whole Bid tuples without a key, so Python compares timestamps first. The "highest bid" is then the amount of the latest bid for the item, and the "lowest" that of the earliest. | listing of item x with reserve 0.50 closing at 20; bids 9.00 at time 10 and 1.00 at time 15 for x: closes SOLD with highest 1.00, lowest 9.00 | compare by bid amount: highest 9.00, lowest 1.00, and lowest never above highest | not executed | AttributeFinding.AsWrittenHighestBelowLowest | AttributeFinding.CorrectedHighestNotBelowLowest |
