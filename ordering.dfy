/**
 * Ordering bids: sort_bids_by (a stable sort, largest key first), Python's
 * order on whole Bid tuples, and the scans Python's max and min perform
 * (the first extreme element wins).
 */
module Ordering {
  import opened Records

  /** The numeric bid attributes a caller may sort by. */
  datatype Attribute = Timestamp | UserId | BidAmount

  function Key(b: Bid, attr: Attribute): int
  {
    match attr
    case Timestamp => b.timestamp
    case UserId => b.userId
    case BidAmount => b.amount
  }

  /** Keys never increase along `s`. */
  predicate SortedDesc(s: seq<Bid>, attr: Attribute)
  {
    forall i, j :: 0 <= i < j < |s| ==> Key(s[i], attr) >= Key(s[j], attr)
  }

  /** The bids of `s` whose key is `k`, in order. */
  function KeyClass(s: seq<Bid>, attr: Attribute, k: int): seq<Bid>
  {
    if s == [] then []
    else (if Key(s[0], attr) == k then [s[0]] else []) + KeyClass(s[1..], attr, k)
  }

  lemma PrependSorted(x: Bid, t: seq<Bid>, attr: Attribute)
    requires SortedDesc(t, attr)
    requires forall j :: 0 <= j < |t| ==> Key(t[j], attr) <= Key(x, attr)
    ensures SortedDesc([x] + t, attr)
  {
    var u := [x] + t;
    forall i, j | 0 <= i < j < |u| ensures Key(u[i], attr) >= Key(u[j], attr) {
      assert u[j] == t[j - 1];
      if i > 0 {
        assert u[i] == t[i - 1];
      }
    }
  }

  /** Puts `b` in front of the first bid whose key is not larger than its own. */
  function Insert(b: Bid, s: seq<Bid>, attr: Attribute): seq<Bid>
  {
    if s == [] || Key(b, attr) >= Key(s[0], attr) then [b] + s
    else [s[0]] + Insert(b, s[1..], attr)
  }

  /** Inserting adds exactly the one bid. */
  lemma {:induction false} InsertPermutes(b: Bid, s: seq<Bid>, attr: Attribute)
    ensures multiset(Insert(b, s, attr)) == multiset(s) + multiset{b}
  {
    if s != [] && Key(b, attr) < Key(s[0], attr) {
      InsertPermutes(b, s[1..], attr);
      assert s == [s[0]] + s[1..];
    }
  }

  lemma SortedTail(s: seq<Bid>, attr: Attribute)
    requires s != [] && SortedDesc(s, attr)
    ensures SortedDesc(s[1..], attr)
  {
    forall i, j | 0 <= i < j < |s| - 1 ensures Key(s[1..][i], attr) >= Key(s[1..][j], attr) {
      assert s[1..][i] == s[i + 1] && s[1..][j] == s[j + 1];
    }
  }

  /** Inserting into a sorted sequence keeps it sorted. */
  lemma {:induction false} InsertSorted(b: Bid, s: seq<Bid>, attr: Attribute)
    requires SortedDesc(s, attr)
    ensures SortedDesc(Insert(b, s, attr), attr)
  {
    if s == [] || Key(b, attr) >= Key(s[0], attr) {
      PrependSorted(b, s, attr);
    } else {
      SortedTail(s, attr);
      InsertSorted(b, s[1..], attr);
      InsertPermutes(b, s[1..], attr);
      var rest := Insert(b, s[1..], attr);
      assert s == [s[0]] + s[1..];
      forall j | 0 <= j < |rest| ensures Key(rest[j], attr) <= Key(s[0], attr) {
        assert rest[j] in multiset(rest);
        if rest[j] != b {
          assert rest[j] in multiset(s[1..]);
          var m :| 0 <= m < |s| - 1 && s[1..][m] == rest[j];
          assert s[m + 1] == rest[j];
        }
      }
      PrependSorted(s[0], rest, attr);
    }
  }

  /** sort_bids_by: the bids by the attribute, largest first; equal keys keep their input order. */
  function SortBidsBy(bids: seq<Bid>, attr: Attribute): (r: seq<Bid>)
    ensures SortedDesc(r, attr)
    ensures multiset(r) == multiset(bids)
  {
    if bids == [] then []
    else
      assert bids == [bids[0]] + bids[1..];
      var rest := SortBidsBy(bids[1..], attr);
      InsertSorted(bids[0], rest, attr);
      InsertPermutes(bids[0], rest, attr);
      Insert(bids[0], rest, attr)
  }

  /** Unfolds KeyClass once on a sequence written as a head and a tail. */
  lemma KeyClassCons(x: Bid, t: seq<Bid>, attr: Attribute, k: int)
    ensures KeyClass([x] + t, attr, k) == (if Key(x, attr) == k then [x] else []) + KeyClass(t, attr, k)
  {
    assert ([x] + t)[1..] == t;
  }

  lemma {:induction false} InsertStable(b: Bid, s: seq<Bid>, attr: Attribute, k: int)
    ensures KeyClass(Insert(b, s, attr), attr, k) == KeyClass([b] + s, attr, k)
  {
    if s != [] && Key(b, attr) < Key(s[0], attr) {
      var t := s[1..];
      InsertStable(b, t, attr, k);
      assert s == [s[0]] + t;
      KeyClassCons(s[0], Insert(b, t, attr), attr, k);
      KeyClassCons(b, t, attr, k);
      KeyClassCons(s[0], t, attr, k);
      KeyClassCons(b, s, attr, k);
    }
  }

  /** The sort is stable: the bids sharing a key come out in their input order. */
  lemma {:induction false} SortIsStable(bids: seq<Bid>, attr: Attribute, k: int)
    ensures KeyClass(SortBidsBy(bids, attr), attr, k) == KeyClass(bids, attr, k)
  {
    if bids != [] {
      var rest := SortBidsBy(bids[1..], attr);
      SortIsStable(bids[1..], attr, k);
      InsertStable(bids[0], rest, attr, k);
      assert ([bids[0]] + rest)[1..] == rest;
    }
  }

  /**
   * The index Python's max(s, key=amount) picks: the first bid of largest
   * amount (a later bid replaces the current one only when strictly larger).
   * __get_winning_user uses it.
   */
  function MaxIndex(s: seq<Bid>): (k: nat)
    requires |s| > 0
    ensures k < |s|
    ensures forall i :: 0 <= i < |s| ==> s[i].amount <= s[k].amount
    ensures forall i :: 0 <= i < k ==> s[i].amount < s[k].amount
  {
    if |s| == 1 then 0
    else
      var k := MaxIndex(s[..|s| - 1]);
      if s[|s| - 1].amount > s[k].amount then |s| - 1 else k
  }

  /**
   * The index min(s, key=amount) would pick: the first bid of smallest
   * amount. The source never calls min with a key; this is the intended
   * comparison of __get_auction_attribute.
   */
  function MinIndex(s: seq<Bid>): (k: nat)
    requires |s| > 0
    ensures k < |s|
    ensures forall i :: 0 <= i < |s| ==> s[k].amount <= s[i].amount
    ensures forall i :: 0 <= i < k ==> s[k].amount < s[i].amount
  {
    if |s| == 1 then 0
    else
      var k := MinIndex(s[..|s| - 1]);
      if s[|s| - 1].amount < s[k].amount then |s| - 1 else k
  }

  // ---------------------------------------------------------------------------
  // Python's order on whole Bid tuples: max and min without a key

  /** Python's order on str: by code point, a proper prefix first. */
  predicate StringLess(a: string, b: string)
    decreases |a|
  {
    if a == [] then b != []
    else if b == [] then false
    else if a[0] != b[0] then a[0] < b[0]
    else StringLess(a[1..], b[1..])
  }

  lemma {:induction false} StringLessIrreflexive(a: string)
    ensures !StringLess(a, a)
    decreases |a|
  {
    if a != [] {
      StringLessIrreflexive(a[1..]);
    }
  }

  lemma {:induction false} StringLessTransitive(a: string, b: string, c: string)
    requires StringLess(a, b) && StringLess(b, c)
    ensures StringLess(a, c)
    decreases |a|
  {
    if a != [] && a[0] == b[0] && b[0] == c[0] {
      StringLessTransitive(a[1..], b[1..], c[1..]);
    }
  }

  /** Two different strings are ordered one way or the other. */
  lemma {:induction false} StringLessTotal(a: string, b: string)
    requires a != b
    ensures StringLess(a, b) || StringLess(b, a)
    decreases |a|
  {
    if a != [] && b != [] && a[0] == b[0] {
      assert a == [a[0]] + a[1..] && b == [b[0]] + b[1..];
      StringLessTotal(a[1..], b[1..]);
    }
  }

  /**
   * Python's order on two Bid tuples: fields compared in declaration order
   * (timestamp, user_id, action, item, bid_amount), the first differing one
   * decides.
   */
  predicate BidTupleLess(a: Bid, b: Bid)
  {
    if a.timestamp != b.timestamp then a.timestamp < b.timestamp
    else if a.userId != b.userId then a.userId < b.userId
    else if a.action != b.action then StringLess(a.action, b.action)
    else if a.item != b.item then StringLess(a.item, b.item)
    else a.amount < b.amount
  }

  lemma BidTupleLessTransitive(a: Bid, b: Bid, c: Bid)
    requires BidTupleLess(a, b) && BidTupleLess(b, c)
    ensures BidTupleLess(a, c)
  {
    StringLessIrreflexive(a.action);
    StringLessIrreflexive(a.item);
    if StringLess(a.action, b.action) && StringLess(b.action, c.action) {
      StringLessTransitive(a.action, b.action, c.action);
    }
    if StringLess(a.item, b.item) && StringLess(b.item, c.item) {
      StringLessTransitive(a.item, b.item, c.item);
    }
  }

  /** The tuple order is total: of two different bids, one is less. */
  lemma BidTupleLessTotal(a: Bid, b: Bid)
    requires a != b
    ensures BidTupleLess(a, b) || BidTupleLess(b, a)
  {
    if a.action != b.action {
      StringLessTotal(a.action, b.action);
    }
    if a.item != b.item {
      StringLessTotal(a.item, b.item);
    }
  }

  /** Two bids neither of which is less than the other are the same bid. */
  lemma TupleTieIsEqual(a: Bid, b: Bid)
    requires !BidTupleLess(a, b) && !BidTupleLess(b, a)
    ensures a == b
  {
    if a != b {
      BidTupleLessTotal(a, b);
    }
  }

  /**
   * The index max(s) picks without a key: the first tuple-greatest bid (a
   * later bid replaces the current one only when greater). It holds a bid
   * of the latest time.
   */
  function TupleMaxIndex(s: seq<Bid>): (k: nat)
    requires |s| > 0
    ensures k < |s|
    ensures forall i :: 0 <= i < |s| ==> !BidTupleLess(s[k], s[i])
    ensures forall i :: 0 <= i < |s| ==> s[i].timestamp <= s[k].timestamp
  {
    if |s| == 1 then
      StringLessIrreflexive(s[0].action);
      StringLessIrreflexive(s[0].item);
      0
    else
      var n := |s| - 1;
      var k := TupleMaxIndex(s[..n]);
      assert forall i :: 0 <= i < n ==> s[..n][i] == s[i];
      if BidTupleLess(s[k], s[n]) then
        assert forall i :: 0 <= i < |s| ==> !BidTupleLess(s[n], s[i]) by {
          forall i | 0 <= i < |s| ensures !BidTupleLess(s[n], s[i]) {
            StringLessIrreflexive(s[n].action);
            StringLessIrreflexive(s[n].item);
            if i < n && BidTupleLess(s[n], s[i]) {
              BidTupleLessTransitive(s[k], s[n], s[i]);
            }
          }
        }
        n
      else k
  }

  /** The index min(s) picks without a key: the first tuple-least bid. It holds a bid of the earliest time. */
  function TupleMinIndex(s: seq<Bid>): (k: nat)
    requires |s| > 0
    ensures k < |s|
    ensures forall i :: 0 <= i < |s| ==> !BidTupleLess(s[i], s[k])
    ensures forall i :: 0 <= i < |s| ==> s[k].timestamp <= s[i].timestamp
  {
    if |s| == 1 then
      StringLessIrreflexive(s[0].action);
      StringLessIrreflexive(s[0].item);
      0
    else
      var n := |s| - 1;
      var k := TupleMinIndex(s[..n]);
      assert forall i :: 0 <= i < n ==> s[..n][i] == s[i];
      if BidTupleLess(s[n], s[k]) then
        assert forall i :: 0 <= i < |s| ==> !BidTupleLess(s[i], s[n]) by {
          forall i | 0 <= i < |s| ensures !BidTupleLess(s[i], s[n]) {
            StringLessIrreflexive(s[n].action);
            StringLessIrreflexive(s[n].item);
            if i < n && BidTupleLess(s[i], s[n]) {
              BidTupleLessTransitive(s[i], s[n], s[k]);
            }
          }
        }
        n
      else k
  }

  // ---------------------------------------------------------------------------
  // Picking the highest or lowest bid of a pool

  /** Which reduction __get_auction_attribute applies. */
  datatype Extremum = Highest | Lowest

  /**
   * How the extremes are compared: whole Bid tuples, as the source's max and
   * min without a key do, or bid amounts, as the attribute evidently intends.
   */
  datatype BidOrder = WholeTuple | ByAmount

  /** Bid `c` would displace bid `b` as the `op` extreme under `order`. */
  predicate Beats(order: BidOrder, op: Extremum, c: Bid, b: Bid)
  {
    match order
    case WholeTuple => if op == Highest then BidTupleLess(b, c) else BidTupleLess(c, b)
    case ByAmount => if op == Highest then b.amount < c.amount else c.amount < b.amount
  }

  /** The index the scan for the `op` extreme under `order` picks: no element beats it. */
  function ExtremeIndex(order: BidOrder, op: Extremum, s: seq<Bid>): (k: nat)
    requires |s| > 0
    ensures k < |s|
    ensures forall i :: 0 <= i < |s| ==> !Beats(order, op, s[i], s[k])
    ensures forall c :: c in s ==> !Beats(order, op, c, s[k])
  {
    var k := match order
      case WholeTuple => if op == Highest then TupleMaxIndex(s) else TupleMinIndex(s)
      case ByAmount => if op == Highest then MaxIndex(s) else MinIndex(s);
    assert forall c :: c in s ==> !Beats(order, op, c, s[k]) by {
      forall c | c in s ensures !Beats(order, op, c, s[k]) {
        var j :| 0 <= j < |s| && s[j] == c;
      }
    }
    k
  }

  /**
   * Two bids neither of which beats the other carry the same amount: under
   * the tuple order they are the same bid.
   */
  lemma UnbeatenSameAmount(order: BidOrder, op: Extremum, b: Bid, c: Bid)
    requires !Beats(order, op, b, c) && !Beats(order, op, c, b)
    ensures b.amount == c.amount
  {
    if order == WholeTuple {
      TupleTieIsEqual(b, c);
    }
  }
}
