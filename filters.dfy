/**
 * The bid filters of the engine: the three predicates, the generic
 * listing-by-bid filter behind "valid" and "accepted" bids, and the filter
 * of a bid list by item.
 */
module Filters {
  import opened Records

  /** A condition a bid must meet against a listing. */
  type Condition = (Bid, Listing) -> bool

  /** The bid is for the listed item. */
  predicate IsListedItem(b: Bid, l: Listing) { b.item == l.item }

  /** The bid is at or above the reserve price. */
  predicate IsValidPrice(b: Bid, l: Listing) { b.amount >= l.reserve }

  /** The bid was placed at or before the close time. */
  predicate IsValidTime(b: Bid, l: Listing) { b.timestamp <= l.closeTime }

  /** Every condition holds of the bid against the listing. */
  predicate AllHold(conds: seq<Condition>, b: Bid, l: Listing)
  {
    forall i | 0 <= i < |conds| :: conds[i](b, l)
  }

  function ValidConditions(): seq<Condition> { [IsListedItem, IsValidTime] }

  function AcceptedConditions(): seq<Condition> { [IsListedItem, IsValidPrice, IsValidTime] }

  /** The bids, in input order, that pass every condition against one listing. */
  function Matching(bids: seq<Bid>, l: Listing, conds: seq<Condition>): (r: seq<Bid>)
    ensures |r| <= |bids|
    ensures forall b :: b in r <==> b in bids && AllHold(conds, b, l)
  {
    if bids == [] then []
    else
      var last := bids[|bids| - 1];
      assert bids == bids[..|bids| - 1] + [last];
      Matching(bids[..|bids| - 1], l, conds) + (if AllHold(conds, last, l) then [last] else [])
  }

  /**
   * What the nested loop of evaluate_bid appends: for each listing in order,
   * the bids that pass every condition against it, in bid order.
   */
  function Evaluate(bids: seq<Bid>, listings: seq<Listing>, conds: seq<Condition>): seq<Bid>
  {
    if listings == [] then []
    else Evaluate(bids, listings[..|listings| - 1], conds) + Matching(bids, listings[|listings| - 1], conds)
  }

  /** get_valid_bids: bids for a listed item placed no later than its close. */
  function ValidBids(bids: seq<Bid>, listings: seq<Listing>): seq<Bid>
  {
    Evaluate(bids, listings, ValidConditions())
  }

  /** get_accepted_bids: valid bids that also clear the reserve. */
  function AcceptedBids(bids: seq<Bid>, listings: seq<Listing>): seq<Bid>
  {
    Evaluate(bids, listings, AcceptedConditions())
  }

  /** The bids of `bids` for `item`, in order. */
  function ItemBids(bids: seq<Bid>, item: string): (r: seq<Bid>)
    ensures |r| <= |bids|
    ensures forall b :: b in r <==> b in bids && b.item == item
  {
    if bids == [] then []
    else
      var last := bids[|bids| - 1];
      assert bids == bids[..|bids| - 1] + [last];
      ItemBids(bids[..|bids| - 1], item) + (if last.item == item then [last] else [])
  }

  /** Some bid of `bids` is for `item`. */
  predicate HasBidFor(bids: seq<Bid>, item: string)
  {
    exists i :: 0 <= i < |bids| && bids[i].item == item
  }

  /** The reference meaning of a valid bid for one listing. */
  predicate IsValidFor(b: Bid, l: Listing)
  {
    b.item == l.item && b.timestamp <= l.closeTime
  }

  /** The reference meaning of an accepted bid for one listing. */
  predicate IsAcceptedFor(b: Bid, l: Listing)
  {
    IsValidFor(b, l) && b.amount >= l.reserve
  }

  /** The valid bids for one listing, in input order. */
  function ValidFor(bids: seq<Bid>, l: Listing): (r: seq<Bid>)
    ensures forall b :: b in r <==> b in bids && IsValidFor(b, l)
  {
    if bids == [] then []
    else
      assert bids == bids[..|bids| - 1] + [bids[|bids| - 1]];
      ValidFor(bids[..|bids| - 1], l) + (if IsValidFor(bids[|bids| - 1], l) then [bids[|bids| - 1]] else [])
  }

  /** The accepted bids for one listing, in input order. */
  function AcceptedFor(bids: seq<Bid>, l: Listing): (r: seq<Bid>)
    ensures forall b :: b in r <==> b in bids && IsAcceptedFor(b, l)
  {
    if bids == [] then []
    else
      assert bids == bids[..|bids| - 1] + [bids[|bids| - 1]];
      AcceptedFor(bids[..|bids| - 1], l) + (if IsAcceptedFor(bids[|bids| - 1], l) then [bids[|bids| - 1]] else [])
  }

  /** `a` is obtained from `b` by deleting elements. */
  ghost predicate IsSubsequence(a: seq<Bid>, b: seq<Bid>)
    decreases |b|
  {
    a == [] ||
    (b != [] &&
     ((a[|a| - 1] == b[|b| - 1] && IsSubsequence(a[..|a| - 1], b[..|b| - 1])) ||
      IsSubsequence(a, b[..|b| - 1])))
  }

  // ---------------------------------------------------------------------------
  // The conditions of get_valid_bids and get_accepted_bids

  lemma ValidConditionsMean(b: Bid, l: Listing)
    ensures AllHold(ValidConditions(), b, l) <==> IsValidFor(b, l)
  {
    var cs := ValidConditions();
    if IsValidFor(b, l) {
      forall i | 0 <= i < |cs| ensures cs[i](b, l) {}
    } else {
      assert !cs[0](b, l) || !cs[1](b, l);
    }
  }

  lemma AcceptedConditionsMean(b: Bid, l: Listing)
    ensures AllHold(AcceptedConditions(), b, l) <==> IsAcceptedFor(b, l)
  {
    var cs := AcceptedConditions();
    if IsAcceptedFor(b, l) {
      forall i | 0 <= i < |cs| ensures cs[i](b, l) {}
    } else {
      assert !cs[0](b, l) || !cs[1](b, l) || !cs[2](b, l);
    }
  }

  // ---------------------------------------------------------------------------
  // evaluate_bid

  /** A bid is in the result exactly when it is an input bid and passes every condition against some listing. */
  lemma {:induction false} EvaluateMembership(bids: seq<Bid>, listings: seq<Listing>, conds: seq<Condition>, b: Bid)
    ensures b in Evaluate(bids, listings, conds) <==> b in bids && exists l :: l in listings && AllHold(conds, b, l)
  {
    if listings != [] {
      var init, last := listings[..|listings| - 1], listings[|listings| - 1];
      assert listings == init + [last];
      EvaluateMembership(bids, init, conds, b);
      if b in bids && exists l :: l in listings && AllHold(conds, b, l) {
        var l :| l in listings && AllHold(conds, b, l);
        if l != last {
          assert l in init;
        }
      }
    }
  }

  /** How many of the listings the bid passes every condition against. */
  function ListingsPassed(listings: seq<Listing>, conds: seq<Condition>, b: Bid): nat
  {
    if listings == [] then 0
    else ListingsPassed(listings[..|listings| - 1], conds, b) + (if AllHold(conds, b, listings[|listings| - 1]) then 1 else 0)
  }

  lemma {:induction false} MatchingCount(bids: seq<Bid>, l: Listing, conds: seq<Condition>, b: Bid)
    ensures multiset(Matching(bids, l, conds))[b] == if AllHold(conds, b, l) then multiset(bids)[b] else 0
  {
    if bids != [] {
      var init, last := bids[..|bids| - 1], bids[|bids| - 1];
      assert bids == init + [last];
      MatchingCount(init, l, conds, b);
    }
  }

  /** One more listing passed adds one more block of copies (kept apart: nonlinear). */
  lemma MulSucc(n: int, m: int)
    ensures (n + 1) * m == n * m + m
  {
  }

  /**
   * evaluate_bid yields each bid once for every listing it passes: as many
   * copies of a bid as it has copies in the input times the listings it passes.
   */
  lemma {:induction false} EvaluateCount(bids: seq<Bid>, listings: seq<Listing>, conds: seq<Condition>, b: Bid)
    ensures multiset(Evaluate(bids, listings, conds))[b] == ListingsPassed(listings, conds, b) * multiset(bids)[b]
  {
    if listings != [] {
      var init, last := listings[..|listings| - 1], listings[|listings| - 1];
      var front, block := Evaluate(bids, init, conds), Matching(bids, last, conds);
      assert Evaluate(bids, listings, conds) == front + block;
      assert multiset(front + block) == multiset(front) + multiset(block);
      EvaluateCount(bids, init, conds, b);
      MatchingCount(bids, last, conds, b);
      var n, m := ListingsPassed(init, conds, b), multiset(bids)[b];
      if AllHold(conds, b, last) {
        assert ListingsPassed(listings, conds, b) == n + 1;
        MulSucc(n, m);
      } else {
        assert ListingsPassed(listings, conds, b) == n;
      }
    }
  }

  /** With conditions that always hold and a single listing, evaluate_bid returns the bids unchanged. */
  lemma EvaluateAllPass(bids: seq<Bid>, l: Listing, conds: seq<Condition>)
    requires forall b: Bid, m: Listing :: AllHold(conds, b, m)
    ensures Evaluate(bids, [l], conds) == bids
  {
    assert [l][..0] == [];
    MatchingAllPass(bids, l, conds);
  }

  lemma {:induction false} MatchingAllPass(bids: seq<Bid>, l: Listing, conds: seq<Condition>)
    requires forall b: Bid, m: Listing :: AllHold(conds, b, m)
    ensures Matching(bids, l, conds) == bids
  {
    if bids != [] {
      MatchingAllPass(bids[..|bids| - 1], l, conds);
      assert bids == bids[..|bids| - 1] + [bids[|bids| - 1]];
    }
  }

  /** The bids of `bids` for an item are the bids for it of each part. */
  lemma {:induction false} ItemBidsConcat(a: seq<Bid>, b: seq<Bid>, item: string)
    ensures ItemBids(a + b, item) == ItemBids(a, item) + ItemBids(b, item)
    decreases |b|
  {
    if b == [] {
      assert a + b == a;
    } else {
      var init := b[..|b| - 1];
      assert (a + b)[..|a + b| - 1] == a + init;
      ItemBidsConcat(a, init, item);
    }
  }

  /** Filtering by item a list whose bids all carry that item changes nothing. */
  lemma {:induction false} ItemBidsAll(s: seq<Bid>, item: string)
    requires forall b :: b in s ==> b.item == item
    ensures ItemBids(s, item) == s
  {
    if s != [] {
      var init, last := s[..|s| - 1], s[|s| - 1];
      assert s == init + [last];
      forall b | b in init ensures b.item == item {
        assert b in s;
      }
      ItemBidsAll(init, item);
      assert last in s;
      assert ItemBids(s, item) == init + [last];
    }
  }

  lemma ItemBidsNone(s: seq<Bid>, item: string)
    requires forall b :: b in s ==> b.item != item
    ensures ItemBids(s, item) == []
  {
  }

  /** When the conditions include the item check, no listing for `item` means no evaluated bid for it. */
  lemma EvaluateOtherItems(bids: seq<Bid>, listings: seq<Listing>, conds: seq<Condition>, item: string)
    requires forall b: Bid, m: Listing :: AllHold(conds, b, m) ==> b.item == m.item
    requires forall m :: m in listings ==> m.item != item
    ensures ItemBids(Evaluate(bids, listings, conds), item) == []
  {
    forall b | b in Evaluate(bids, listings, conds) ensures b.item != item {
      EvaluateMembership(bids, listings, conds, b);
    }
    ItemBidsNone(Evaluate(bids, listings, conds), item);
  }

  lemma UniqueItemsInit(listings: seq<Listing>)
    requires UniqueItems(listings) && listings != []
    ensures UniqueItems(listings[..|listings| - 1])
    ensures forall m :: m in listings[..|listings| - 1] ==> m.item != listings[|listings| - 1].item
  {
    var init := listings[..|listings| - 1];
    forall m | m in init ensures m.item != listings[|listings| - 1].item {
      var j :| 0 <= j < |init| && init[j] == m;
      assert listings[j] == m;
    }
  }

  /**
   * When the conditions include the item check and the listings offer
   * distinct items, the bids the whole evaluation yields for a listing's
   * item are exactly that listing's matching bids, in input order, once.
   */
  lemma {:induction false} ItemBidsOfEvaluate(bids: seq<Bid>, listings: seq<Listing>, conds: seq<Condition>, l: Listing)
    requires forall b: Bid, m: Listing :: AllHold(conds, b, m) ==> b.item == m.item
    requires UniqueItems(listings)
    requires l in listings
    ensures ItemBids(Evaluate(bids, listings, conds), l.item) == Matching(bids, l, conds)
  {
    var init, last := listings[..|listings| - 1], listings[|listings| - 1];
    assert listings == init + [last];
    UniqueItemsInit(listings);
    var front, block := Evaluate(bids, init, conds), Matching(bids, last, conds);
    assert Evaluate(bids, listings, conds) == front + block;
    ItemBidsConcat(front, block, l.item);
    if last.item == l.item {
      assert l == last;
      EvaluateOtherItems(bids, init, conds, l.item);
      ItemBidsAll(block, l.item);
    } else {
      assert l in init;
      ItemBidsOfEvaluate(bids, init, conds, l);
      ItemBidsNone(block, l.item);
    }
  }

  lemma {:induction false} MatchingValid(bids: seq<Bid>, l: Listing)
    ensures Matching(bids, l, ValidConditions()) == ValidFor(bids, l)
  {
    if bids != [] {
      MatchingValid(bids[..|bids| - 1], l);
      ValidConditionsMean(bids[|bids| - 1], l);
    }
  }

  lemma {:induction false} MatchingAccepted(bids: seq<Bid>, l: Listing)
    ensures Matching(bids, l, AcceptedConditions()) == AcceptedFor(bids, l)
  {
    if bids != [] {
      MatchingAccepted(bids[..|bids| - 1], l);
      AcceptedConditionsMean(bids[|bids| - 1], l);
    }
  }

  /** With distinct listing items, the valid bids for a listing's item are its reference valid bids, in input order. */
  lemma ValidBidsForListing(bids: seq<Bid>, listings: seq<Listing>, l: Listing)
    requires UniqueItems(listings)
    requires l in listings
    ensures ItemBids(ValidBids(bids, listings), l.item) == ValidFor(bids, l)
  {
    forall b: Bid, m: Listing | AllHold(ValidConditions(), b, m) ensures b.item == m.item {
      ValidConditionsMean(b, m);
    }
    ItemBidsOfEvaluate(bids, listings, ValidConditions(), l);
    MatchingValid(bids, l);
  }

  /** With distinct listing items, the accepted bids for a listing's item are its reference accepted bids, in input order. */
  lemma AcceptedBidsForListing(bids: seq<Bid>, listings: seq<Listing>, l: Listing)
    requires UniqueItems(listings)
    requires l in listings
    ensures ItemBids(AcceptedBids(bids, listings), l.item) == AcceptedFor(bids, l)
  {
    forall b: Bid, m: Listing | AllHold(AcceptedConditions(), b, m) ensures b.item == m.item {
      AcceptedConditionsMean(b, m);
    }
    ItemBidsOfEvaluate(bids, listings, AcceptedConditions(), l);
    MatchingAccepted(bids, l);
  }

  /** Every valid bid is an input bid for a listed item placed at or before that listing's close. */
  lemma ValidBidHasListing(bids: seq<Bid>, listings: seq<Listing>, b: Bid)
    requires b in ValidBids(bids, listings)
    ensures b in bids
    ensures exists l :: l in listings && b.item == l.item && b.timestamp <= l.closeTime
  {
    EvaluateMembership(bids, listings, ValidConditions(), b);
    var l :| l in listings && AllHold(ValidConditions(), b, l);
    ValidConditionsMean(b, l);
  }

  /** With distinct listing items, an accepted bid for a listing's item clears its reserve and is on time. */
  lemma AcceptedClearsReserve(bids: seq<Bid>, listings: seq<Listing>, l: Listing, b: Bid)
    requires UniqueItems(listings)
    requires l in listings
    requires b in AcceptedBids(bids, listings) && b.item == l.item
    ensures b.amount >= l.reserve && b.timestamp <= l.closeTime
  {
    EvaluateMembership(bids, listings, AcceptedConditions(), b);
    var m :| m in listings && AllHold(AcceptedConditions(), b, m);
    AcceptedConditionsMean(b, m);
    var i :| 0 <= i < |listings| && listings[i] == l;
    var j :| 0 <= j < |listings| && listings[j] == m;
    assert i == j;
  }

  /** Every accepted bid is also a valid bid. */
  lemma AcceptedIsValid(bids: seq<Bid>, listings: seq<Listing>, b: Bid)
    requires b in AcceptedBids(bids, listings)
    ensures b in ValidBids(bids, listings)
  {
    EvaluateMembership(bids, listings, AcceptedConditions(), b);
    var m :| m in listings && AllHold(AcceptedConditions(), b, m);
    AcceptedConditionsMean(b, m);
    ValidConditionsMean(b, m);
    EvaluateMembership(bids, listings, ValidConditions(), b);
  }

  // ---------------------------------------------------------------------------
  // Accepted bids are a subsequence of valid bids

  lemma {:induction false} SubsequenceExtend(a: seq<Bid>, b: seq<Bid>, c: seq<Bid>)
    requires IsSubsequence(a, b)
    ensures IsSubsequence(a, b + c)
    decreases |c|
  {
    if c == [] {
      assert b + c == b;
    } else if a != [] {
      assert (b + c)[..|b + c| - 1] == b + c[..|c| - 1];
      SubsequenceExtend(a, b, c[..|c| - 1]);
    }
  }

  lemma {:induction false} SubsequenceConcat(a1: seq<Bid>, b1: seq<Bid>, a2: seq<Bid>, b2: seq<Bid>)
    requires IsSubsequence(a1, b1) && IsSubsequence(a2, b2)
    ensures IsSubsequence(a1 + a2, b1 + b2)
    decreases |b2|
  {
    if a2 == [] {
      assert a1 + a2 == a1;
      SubsequenceExtend(a1, b1, b2);
    } else {
      var a2i, b2i := a2[..|a2| - 1], b2[..|b2| - 1];
      assert (b1 + b2)[..|b1 + b2| - 1] == b1 + b2i;
      if a2[|a2| - 1] == b2[|b2| - 1] && IsSubsequence(a2i, b2i) {
        assert (a1 + a2)[..|a1 + a2| - 1] == a1 + a2i;
        SubsequenceConcat(a1, b1, a2i, b2i);
      } else {
        SubsequenceConcat(a1, b1, a2, b2i);
      }
    }
  }

  lemma {:induction false} MatchingAcceptedSubsequence(bids: seq<Bid>, l: Listing)
    ensures IsSubsequence(Matching(bids, l, AcceptedConditions()), Matching(bids, l, ValidConditions()))
  {
    if bids != [] {
      var init, last := bids[..|bids| - 1], bids[|bids| - 1];
      var a, v := Matching(init, l, AcceptedConditions()), Matching(init, l, ValidConditions());
      MatchingAcceptedSubsequence(init, l);
      AcceptedConditionsMean(last, l);
      ValidConditionsMean(last, l);
      if IsAcceptedFor(last, l) {
        assert (a + [last])[..|a|] == a && (v + [last])[..|v|] == v;
        assert Matching(bids, l, AcceptedConditions()) == a + [last];
        assert Matching(bids, l, ValidConditions()) == v + [last];
      } else if IsValidFor(last, l) {
        assert Matching(bids, l, AcceptedConditions()) == a;
        assert Matching(bids, l, ValidConditions()) == v + [last];
        var w := v + [last];
        assert w[..|w| - 1] == v;
        assert IsSubsequence(a, w);
      } else {
        assert Matching(bids, l, AcceptedConditions()) == a;
        assert Matching(bids, l, ValidConditions()) == v;
      }
    }
  }

  /** get_accepted_bids keeps the loop order of get_valid_bids and only drops bids from it. */
  lemma {:induction false} AcceptedIsSubsequence(bids: seq<Bid>, listings: seq<Listing>)
    ensures IsSubsequence(AcceptedBids(bids, listings), ValidBids(bids, listings))
  {
    if listings != [] {
      var init, last := listings[..|listings| - 1], listings[|listings| - 1];
      AcceptedIsSubsequence(bids, init);
      MatchingAcceptedSubsequence(bids, last);
      SubsequenceConcat(AcceptedBids(bids, init), ValidBids(bids, init),
                        Matching(bids, last, AcceptedConditions()), Matching(bids, last, ValidConditions()));
    }
  }
}
