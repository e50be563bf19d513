/** Limit-order matching: an incoming order walks the opposite side of the book in book
    order, fills against every resting order its price accepts, removes the ones it
    consumed whole, and posts what is left of it at its own price. */
module Matching {
  import opened Orders
  import opened OrderBooks

  /** Every order of a side has something left to fill. */
  predicate Positive(s: seq<Order>)
  {
    forall k :: 0 <= k < |s| ==> s[k].quantity > 0
  }

  /** A book as the engine keeps it: both sides valid and no empty order resting. */
  predicate Resting(b: BookState)
  {
    ValidState(b) && Positive(b.bids) && Positive(b.asks)
  }

  /** The best bid is below the best ask, or a side is empty. */
  predicate NoCross(b: BookState)
  {
    b.bids == [] || b.asks == [] || Best(b.bids) < Best(b.asks)
  }

  /** The side an incoming order of side `side` matches against. */
  function ContraOf(b: BookState, side: Side): seq<Order>
  {
    if side == Buy then b.asks else b.bids
  }

  /** The side an incoming order of side `side` rests on. */
  function OwnOf(b: BookState, side: Side): seq<Order>
  {
    if side == Buy then b.bids else b.asks
  }

  /** The book with the contra side of `side` replaced by `s`. */
  function WithContra(b: BookState, side: Side, s: seq<Order>): BookState
  {
    if side == Buy then b.(asks := s) else b.(bids := s)
  }

  /** The order of the contra side: the asks are keyed as sells, the bids as buys. */
  function Opposite(side: Side): Side
  {
    if side == Buy then Sell else Buy
  }

  /** Whether an incoming order crosses on arrival. A side with no orders has best
      price 0, so a buy at a price of 0 or more crosses an empty ask side. */
  predicate Crosses(b: BookState, o: Order)
  {
    (o.side == Buy && o.price >= Best(b.asks)) || (o.side == Sell && o.price <= Best(b.bids))
  }

  /** Whether the incoming order accepts a resting order's price; the walk stops at the
      first resting order it does not. */
  predicate Acceptable(o: Order, resting: Order)
  {
    if o.side == Buy then resting.price <= o.price else resting.price >= o.price
  }

  /** The trade of `quantity` between the incoming order and a resting one, at the
      resting order's price, with the incoming order's id first. */
  function Fill(o: Order, resting: Order, quantity: nat): Trade
  {
    Trade(o.id, resting.id, resting.price, quantity)
  }

  /** The state of the walk: the contra side (whose visited entries may have shrunk),
      the quantity filled, the trades emitted, and how many leading entries were consumed. */
  datatype Swept = Swept(side: seq<Order>, filled: nat, fills: seq<Trade>, consumed: nat)

  /** The walk over the contra side `side` from index `i`, one resting order per step:
      stop at the end, at a price the incoming order refuses, or once it is filled;
      consume a resting order whole when it fits in what is left, else fill what is
      left from it and shrink it. */
  function Sweep(o: Order, side: seq<Order>, i: nat, filled: nat, fills: seq<Trade>, consumed: nat): (r: Swept)
    requires i <= |side| && consumed <= i && filled <= o.quantity
    ensures |r.side| == |side| && r.consumed <= |r.side|
    ensures filled <= r.filled <= o.quantity
    decreases |side| - i
  {
    if i == |side| then Swept(side, filled, fills, consumed)
    else
      var resting := side[i];
      if !Acceptable(o, resting) then Swept(side, filled, fills, consumed)
      else if filled == o.quantity then Swept(side, filled, fills, consumed)
      else if filled + resting.quantity <= o.quantity then
        Sweep(o, side, i + 1, filled + resting.quantity, fills + [Fill(o, resting, resting.quantity)], consumed + 1)
      else
        var volume := o.quantity - filled;
        Sweep(o, side[i := resting.(quantity := resting.quantity - volume)], i + 1, o.quantity,
              fills + [Fill(o, resting, volume)], consumed)
  }

  /** What the walk leaves behind, read against the contra side `s` it started on:
      the first `consumed` resting orders were filled whole, in book order; at most one
      more, the last one visited, was filled in part and shrunk in place; nothing else
      changed; and the walk stopped for a reason. */
  ghost predicate Shaped(o: Order, s: seq<Order>, r: Swept)
  {
    var c := r.consumed;
    c <= |s| && |r.side| == |s| && (|r.fills| == c || |r.fills| == c + 1) &&
    (forall k :: 0 <= k < c ==> Acceptable(o, s[k]) && r.fills[k] == Fill(o, s[k], s[k].quantity)) &&
    TotalQuantity(r.fills) == r.filled <= o.quantity &&
    if |r.fills| == c + 1 then
      c < |s| && Acceptable(o, s[c]) && r.filled == o.quantity &&
      0 < r.fills[c].quantity < s[c].quantity && r.fills[c] == Fill(o, s[c], r.fills[c].quantity) &&
      r.side == s[c := s[c].(quantity := s[c].quantity - r.fills[c].quantity)]
    else
      r.side == s && (c == |s| || !Acceptable(o, s[c]) || r.filled == o.quantity)
  }

  /** The walk so far: the first `i` resting orders were all accepted and consumed whole,
      in book order, and `filled` is what their trades total. */
  ghost predicate ConsumedWhole(o: Order, s: seq<Order>, i: nat, filled: nat, fills: seq<Trade>)
  {
    i <= |s| && filled <= o.quantity && Positive(s) &&
    |fills| == i && TotalQuantity(fills) == filled &&
    forall k :: 0 <= k < i ==> Acceptable(o, s[k]) && fills[k] == Fill(o, s[k], s[k].quantity)
  }

  /** From any point where every order visited so far was consumed whole, the walk ends
      in a shaped state. */
  lemma {:induction false} SweepShape(o: Order, s: seq<Order>, i: nat, filled: nat, fills: seq<Trade>)
    requires ConsumedWhole(o, s, i, filled, fills)
    ensures Shaped(o, s, Sweep(o, s, i, filled, fills, i))
    decreases |s| - i
  {
    if i == |s| || !Acceptable(o, s[i]) || filled == o.quantity {
      SweepStops(o, s, i, filled, fills, i);
    } else if filled + s[i].quantity <= o.quantity {
      SweepConsumes(o, s, i, filled, fills, i);
      ConsumeStep(o, s, i, filled, fills);
      SweepShape(o, s, i + 1, filled + s[i].quantity, fills + [Fill(o, s[i], s[i].quantity)]);
    } else {
      var volume := o.quantity - filled;
      var s' := s[i := s[i].(quantity := s[i].quantity - volume)];
      SweepReduces(o, s, i, filled, fills, i);
      SweepStops(o, s', i + 1, o.quantity, fills + [Fill(o, s[i], volume)], i);
      ReduceStep(o, s, i, filled, fills);
    }
  }

  /** Consuming the next resting order whole extends the walk so far. */
  lemma ConsumeStep(o: Order, s: seq<Order>, i: nat, filled: nat, fills: seq<Trade>)
    requires ConsumedWhole(o, s, i, filled, fills)
    requires i < |s| && Acceptable(o, s[i]) && filled + s[i].quantity <= o.quantity
    ensures ConsumedWhole(o, s, i + 1, filled + s[i].quantity, fills + [Fill(o, s[i], s[i].quantity)])
  {
    TotalQuantityAppend(fills, Fill(o, s[i], s[i].quantity));
  }

  /** Filling the rest of the order from a larger resting order ends the walk shaped. */
  lemma ReduceStep(o: Order, s: seq<Order>, i: nat, filled: nat, fills: seq<Trade>)
    requires ConsumedWhole(o, s, i, filled, fills)
    requires i < |s| && Acceptable(o, s[i]) && filled < o.quantity < filled + s[i].quantity
    ensures var volume := o.quantity - filled;
      Shaped(o, s, Swept(s[i := s[i].(quantity := s[i].quantity - volume)], o.quantity, fills + [Fill(o, s[i], volume)], i))
  {
    var t := Fill(o, s[i], o.quantity - filled);
    TotalQuantityAppend(fills, t);
    assert forall k :: 0 <= k < i ==> (fills + [t])[k] == fills[k];
  }

  /** The walk stops at the end, at a refused price, or once the order is filled. */
  lemma SweepStops(o: Order, side: seq<Order>, i: nat, filled: nat, fills: seq<Trade>, consumed: nat)
    requires i <= |side| && consumed <= i && filled <= o.quantity
    requires i == |side| || !Acceptable(o, side[i]) || filled == o.quantity
    ensures Sweep(o, side, i, filled, fills, consumed) == Swept(side, filled, fills, consumed)
  {
  }

  /** A resting order that fits in what is left is consumed whole. */
  lemma SweepConsumes(o: Order, side: seq<Order>, i: nat, filled: nat, fills: seq<Trade>, consumed: nat)
    requires i < |side| && consumed <= i && filled < o.quantity
    requires Acceptable(o, side[i]) && filled + side[i].quantity <= o.quantity
    ensures Sweep(o, side, i, filled, fills, consumed) ==
      Sweep(o, side, i + 1, filled + side[i].quantity, fills + [Fill(o, side[i], side[i].quantity)], consumed + 1)
  {
  }

  /** A resting order larger than what is left fills the rest and is shrunk in place. */
  lemma SweepReduces(o: Order, side: seq<Order>, i: nat, filled: nat, fills: seq<Trade>, consumed: nat)
    requires i < |side| && consumed <= i && filled < o.quantity
    requires Acceptable(o, side[i]) && filled + side[i].quantity > o.quantity
    ensures Sweep(o, side, i, filled, fills, consumed) ==
      Sweep(o, side[i := side[i].(quantity := side[i].quantity - (o.quantity - filled))], i + 1, o.quantity,
            fills + [Fill(o, side[i], o.quantity - filled)], consumed)
  {
  }

  /** Past a resting order the incoming order refuses, it refuses every later one:
      the contra side is sorted from the best price outwards. */
  lemma RefusedOnward(o: Order, s: seq<Order>, c: nat, j: nat)
    requires o.side == Buy || o.side == Sell
    requires Sorted(Opposite(o.side), s)
    requires c <= j < |s| && !Acceptable(o, s[c])
    ensures !Acceptable(o, s[j])
  {
    if c < j {
      assert Key(Opposite(o.side), s[c]) <= Key(Opposite(o.side), s[j]);
    }
  }

  /** The result of processing one limit order: the new book and the trades it emitted,
      in the order they were emitted. */
  datatype Outcome = Outcome(book: BookState, fills: seq<Trade>)

  /** The remainder of `o` that rests once `filled` of it has traded. */
  function Remainder(o: Order, filled: nat): Order
    requires filled <= o.quantity
  {
    Order(o.id, Limit, o.side, o.price, o.quantity - filled)
  }

  /** One limit order against the book: a crossing order walks the contra side, the
      orders it consumed whole are removed, and an unfilled remainder is posted under the
      same id at the order's price; an order that does not cross is posted as it is. */
  function Match(b: BookState, o: Order): Outcome
  {
    if Crosses(b, o) then
      var r := Sweep(o, ContraOf(b, o.side), 0, 0, [], 0);
      var cleared := WithContra(b, o.side, r.side[r.consumed..]);
      Outcome(if r.filled < o.quantity then AddOrder(cleared, Remainder(o, r.filled)) else cleared, r.fills)
    else
      Outcome(AddOrder(b, o), [])
  }

  /** Quantity conservation: what a crossing order traded plus what it posted is its
      quantity; a remainder is posted, under its id and at its price, exactly when it was
      not filled, and the resting orders of its own side stay as they were. An order that
      does not cross trades nothing, is below the best ask (a buy) or above the best bid
      (a sell), and is posted whole. */
  lemma MatchConserves(b: BookState, o: Order)
    requires Resting(b)
    ensures var out := Match(b, o); var filled := TotalQuantity(out.fills);
      filled <= o.quantity &&
      (Crosses(b, o) ==>
        OwnOf(out.book, o.side) ==
          (if filled < o.quantity
           then InsertAfterEqual(o.side, OwnOf(b, o.side), Order(o.id, Limit, o.side, o.price, o.quantity - filled))
           else OwnOf(b, o.side))) &&
      (!Crosses(b, o) ==>
        out == Outcome(AddOrder(b, o), []) &&
        (o.side == Buy && b.asks != [] ==> o.price < Best(b.asks)) &&
        (o.side == Sell && b.bids != [] ==> o.price > Best(b.bids)))
  {
    if Crosses(b, o) {
      SweepShape(o, ContraOf(b, o.side), 0, 0, []);
    }
  }

  /** Trade bounds, maker price and ids: the k-th trade is against the k-th resting order
      of the contra side, at that order's price, which the incoming order accepts; its
      first id is the incoming order's and its second the resting order's; its quantity is
      positive, at most the resting order's, and at most what the incoming order still
      had open. */
  lemma MatchFills(b: BookState, o: Order)
    requires Resting(b)
    ensures var out := Match(b, o); var contra := ContraOf(b, o.side);
      |out.fills| <= |contra| &&
      (!Crosses(b, o) ==> out.fills == []) &&
      forall k :: 0 <= k < |out.fills| ==>
        Acceptable(o, contra[k]) &&
        out.fills[k].price == contra[k].price &&
        out.fills[k].buyOrderId == o.id && out.fills[k].sellOrderId == contra[k].id &&
        0 < out.fills[k].quantity <= contra[k].quantity &&
        TotalQuantity(out.fills[..k]) + out.fills[k].quantity <= o.quantity
  {
    if Crosses(b, o) {
      var contra := ContraOf(b, o.side);
      SweepShape(o, contra, 0, 0, []);
      ShapedFills(o, contra, Sweep(o, contra, 0, 0, [], 0));
      MatchUnfolds(b, o);
    }
  }

  /** The trades of a shaped walk: the k-th is against the k-th resting order, at its
      price, for a positive quantity no larger than it or than what was still open. */
  lemma ShapedFills(o: Order, s: seq<Order>, r: Swept)
    requires Shaped(o, s, r) && Positive(s)
    ensures |r.fills| <= |s|
    ensures forall k :: 0 <= k < |r.fills| ==>
      Acceptable(o, s[k]) && r.fills[k] == Fill(o, s[k], r.fills[k].quantity) &&
      0 < r.fills[k].quantity <= s[k].quantity &&
      TotalQuantity(r.fills[..k]) + r.fills[k].quantity <= o.quantity
  {
    forall k | 0 <= k < |r.fills|
      ensures TotalQuantity(r.fills[..k]) + r.fills[k].quantity <= o.quantity
    {
      OpenBound(r.fills, k);
    }
  }

  /** A crossing order's outcome, side by side: its trades are the walk's, the contra
      side is what the walk left past the consumed orders, and its own side gains the
      remainder when one is left. */
  lemma MatchUnfolds(b: BookState, o: Order)
    requires Crosses(b, o)
    ensures var r := Sweep(o, ContraOf(b, o.side), 0, 0, [], 0); var out := Match(b, o);
      out.fills == r.fills &&
      ContraOf(out.book, o.side) == r.side[r.consumed..] &&
      OwnOf(out.book, o.side) ==
        (if r.filled < o.quantity then InsertAfterEqual(o.side, OwnOf(b, o.side), Remainder(o, r.filled))
         else OwnOf(b, o.side))
  {
  }

  /** Each trade of a run is at most what the run still had open before it. */
  lemma OpenBound(fills: seq<Trade>, k: nat)
    requires k < |fills|
    ensures TotalQuantity(fills[..k]) + fills[k].quantity <= TotalQuantity(fills)
  {
    assert fills[..k + 1] == fills[..k] + [fills[k]];
    TotalQuantityAppend(fills[..k], fills[k]);
    TotalQuantityPrefix(fills, k + 1);
  }

  /** Price priority and nothing else changes: the trades run over a prefix of the contra
      side; every matched order but the last was consumed whole and is gone; the last is
      gone too when consumed whole, and otherwise stays at the front shrunk by its trade;
      every later resting order is untouched. */
  lemma MatchConsumesPrefix(b: BookState, o: Order)
    requires Resting(b)
    requires Crosses(b, o)
    ensures var out := Match(b, o); var contra := ContraOf(b, o.side); var m := |out.fills|;
      m <= |contra| &&
      (forall k :: 0 <= k < m - 1 ==> out.fills[k].quantity == contra[k].quantity) &&
      ContraOf(out.book, o.side) ==
        (if m > 0 && out.fills[m - 1].quantity < contra[m - 1].quantity
         then [contra[m - 1].(quantity := contra[m - 1].quantity - out.fills[m - 1].quantity)] + contra[m..]
         else contra[m..])
  {
    var contra := ContraOf(b, o.side);
    SweepShape(o, contra, 0, 0, []);
    ShapedRest(o, contra, Sweep(o, contra, 0, 0, [], 0));
    MatchUnfolds(b, o);
  }

  /** What a shaped walk leaves of the side past the orders it consumed whole. */
  lemma ShapedRest(o: Order, s: seq<Order>, r: Swept)
    requires Shaped(o, s, r)
    ensures var m := |r.fills|;
      m <= |s| &&
      (forall k :: 0 <= k < m - 1 ==> r.fills[k].quantity == s[k].quantity) &&
      r.side[r.consumed..] ==
        (if m > 0 && r.fills[m - 1].quantity < s[m - 1].quantity
         then [s[m - 1].(quantity := s[m - 1].quantity - r.fills[m - 1].quantity)] + s[m..]
         else s[m..])
  {
    var c := r.consumed;
    if |r.fills| == c + 1 {
      assert r.side[c..] == [r.side[c]] + s[c + 1..];
    }
  }

  /** Exhaustive crossing: a crossing order leaves a remainder only once no resting order
      of the contra side is at a price it accepts. */
  lemma MatchExhausts(b: BookState, o: Order)
    requires Resting(b)
    requires Crosses(b, o)
    requires TotalQuantity(Match(b, o).fills) < o.quantity
    ensures var rest := ContraOf(Match(b, o).book, o.side);
      forall k :: 0 <= k < |rest| ==> !Acceptable(o, rest[k])
  {
    var contra := ContraOf(b, o.side);
    SweepShape(o, contra, 0, 0, []);
    var r := Sweep(o, contra, 0, 0, [], 0);
    var c := r.consumed;
    forall k | 0 <= k < |contra| - c ensures !Acceptable(o, contra[c..][k]) {
      RefusedOnward(o, contra, c, c + k);
    }
  }

  /** The walk's contra side, cut after the consumed orders, is still a valid side of
      positive orders. */
  lemma SweptSideValid(o: Order, s: seq<Order>)
    requires o.side == Buy || o.side == Sell
    requires SideValid(Opposite(o.side), s) && Positive(s)
    ensures var r := Sweep(o, s, 0, 0, [], 0);
      SideValid(Opposite(o.side), r.side[r.consumed..]) && Positive(r.side[r.consumed..]) &&
      (r.side[r.consumed..] != [] ==> Key(Opposite(o.side), s[0]) <= Key(Opposite(o.side), r.side[r.consumed..][0]))
  {
    SweepShape(o, s, 0, 0, []);
    var r := Sweep(o, s, 0, 0, [], 0);
    var side := Opposite(o.side);
    var c := r.consumed;
    if |r.fills| == c + 1 {
      var reduced := s[c].(quantity := s[c].quantity - r.fills[c].quantity);
      ReduceKeepsValid(side, s, c, reduced);
      assert Positive(r.side) by {
        assert r.side == s[c := reduced] && reduced.quantity > 0;
      }
    }
    SuffixValid(side, r.side, c);
    if c < |s| {
      assert Key(side, s[0]) <= Key(side, s[c]);
      assert r.side[c..][0] == r.side[c];
    }
  }

  /** The rest of a valid side of positive orders, past any point, is one too. */
  lemma SuffixValid(side: Side, t: seq<Order>, c: nat)
    requires SideValid(side, t) && Positive(t) && c <= |t|
    ensures SideValid(side, t[c..]) && Positive(t[c..])
  {
    assert forall k :: 0 <= k < |t| - c ==> t[c..][k] == t[c + k];
  }

  /** An order posted on its own side keeps that side a valid side of positive orders. */
  lemma PostKeepsResting(b: BookState, o: Order)
    requires Resting(b) && o.quantity > 0
    ensures Resting(AddOrder(b, o))
  {
    AddOrderEffect(b, o);
    var b' := AddOrder(b, o);
    if o.side == Buy {
      forall k | 0 <= k < |b'.bids| ensures b'.bids[k].quantity > 0 {
        assert b'.bids[k] in multiset(b.bids) + multiset{o};
      }
    } else if o.side == Sell {
      forall k | 0 <= k < |b'.asks| ensures b'.asks[k].quantity > 0 {
        assert b'.asks[k] in multiset(b.asks) + multiset{o};
      }
    }
  }

  /** The book stays as the engine keeps it: both sides sorted, each holding only its own
      side's orders, none of them empty. */
  lemma MatchKeepsResting(b: BookState, o: Order)
    requires Resting(b) && o.quantity > 0
    ensures Resting(Match(b, o).book)
  {
    if Crosses(b, o) {
      var r := Sweep(o, ContraOf(b, o.side), 0, 0, [], 0);
      SweptSideValid(o, ContraOf(b, o.side));
      var cleared := WithContra(b, o.side, r.side[r.consumed..]);
      assert Resting(cleared);
      if r.filled < o.quantity {
        PostKeepsResting(cleared, Remainder(o, r.filled));
      }
    } else {
      PostKeepsResting(b, o);
    }
  }

  /** A prefix grows by the element that follows it. */
  lemma PrefixExtend(s: seq<Order>, c: nat)
    requires c < |s|
    ensures s[..c + 1] == s[..c] + [s[c]]
  {
  }

  /** Shrinking one order of a side in place leaves its price, and so the side, valid. */
  lemma ReduceKeepsValid(side: Side, s: seq<Order>, i: nat, reduced: Order)
    requires SideValid(side, s) && i < |s|
    requires reduced.price == s[i].price && reduced.side == s[i].side
    ensures SideValid(side, s[i := reduced])
  {
    assert forall k :: 0 <= k < |s| ==> Key(side, s[i := reduced][k]) == Key(side, s[k]);
  }

  /** No-cross: if the best bid was below the best ask (or a side was empty), it still is. */
  lemma MatchKeepsNoCross(b: BookState, o: Order)
    requires Resting(b) && NoCross(b) && o.quantity > 0
    ensures NoCross(Match(b, o).book)
  {
    var out := Match(b, o);
    if Crosses(b, o) {
      var contra := ContraOf(b, o.side);
      SweepShape(o, contra, 0, 0, []);
      SweptSideValid(o, contra);
      var r := Sweep(o, contra, 0, 0, [], 0);
      var rest := r.side[r.consumed..];
      if rest != [] {
        if r.filled < o.quantity {
          MatchExhausts(b, o);
          assert !Acceptable(o, rest[0]);
          InsertFront(o.side, OwnOf(b, o.side), Remainder(o, r.filled));
        }
        assert Best(ContraOf(out.book, o.side)) == rest[0].price;
      }
    } else if o.side == Buy {
      InsertFront(Buy, b.bids, o);
    } else if o.side == Sell {
      InsertFront(Sell, b.asks, o);
    }
  }

  /** The zero sentinel: a buy at a non-negative price that meets no asks takes the
      crossing path, trades nothing, and rests whole as a new limit order. */
  lemma BuyIntoEmptyAsks(b: BookState, o: Order)
    requires b.asks == [] && o.side == Buy && o.price >= 0 && o.quantity > 0
    ensures Crosses(b, o)
    ensures Match(b, o) == Outcome(b.(bids := InsertAfterEqual(Buy, b.bids, Remainder(o, 0))), [])
  {
  }

  /** A buy for 12 at 102 against asks of 10 at 101 and 5 at 102: it takes all of the
      first and 2 of the second, at their own prices, and 3 at 102 is left resting. */
  lemma WalksTwoAsks()
    ensures var a := Order("A", Limit, Sell, 101, 10);
      var b := Order("B", Limit, Sell, 102, 5);
      Match(BookState([], [a, b]), Order("C", Limit, Buy, 102, 12)) ==
        Outcome(BookState([], [b.(quantity := 3)]), [Trade("C", "A", 101, 10), Trade("C", "B", 102, 2)])
  {
  }

  /** A sell for 3 at 100 against a bid of 3 at 100 empties the book; the trade carries
      the incoming seller's id in its buy-order field. */
  lemma SellerIdFirst()
    ensures Match(BookState([Order("Y", Limit, Buy, 100, 3)], []), Order("Z", Limit, Sell, 100, 3)) ==
      Outcome(BookState([], []), [Trade("Z", "Y", 100, 3)])
  {
  }

  /** A sell for 5 at 100 against a bid of 3 at 100 takes the bid and rests 2 at 100. */
  lemma SellRestsRemainder()
    ensures Match(BookState([Order("Y", Limit, Buy, 100, 3)], []), Order("Z", Limit, Sell, 100, 5)) ==
      Outcome(BookState([], [Order("Z", Limit, Sell, 100, 2)]), [Trade("Z", "Y", 100, 3)])
  {
  }

  /** The matching engine: one book and the ledger of every trade, in emission order. */
  class MatchingEngine {
    const book: OrderBook
    var trades: seq<Trade>

    ghost predicate Valid()
      reads this, book
    {
      Resting(book.State()) && NoCross(book.State())
    }

    /** A fresh engine over an empty book with an empty ledger. */
    constructor ()
      ensures Valid() && fresh(book)
      ensures book.State() == BookState([], []) && trades == []
    {
      book := new OrderBook();
      trades := [];
    }

    /** The ledger, in the order the trades were appended. */
    function GetTrades(): (r: seq<Trade>)
      reads this
      ensures |r| == |trades| && forall k :: 0 <= k < |r| ==> r[k] == trades[k]
    {
      trades
    }

    /** Processes one order: a limit order is matched, any other type is dropped. The
        ledger only grows: earlier trades are never changed. */
    method Process(o: Order)
      requires Valid()
      requires o.kind == Limit ==> o.quantity > 0
      modifies this, book
      ensures Valid()
      ensures o.kind == Limit ==>
        book.State() == Match(old(book.State()), o).book && trades == old(trades) + Match(old(book.State()), o).fills
      ensures o.kind != Limit ==> book.State() == old(book.State()) && trades == old(trades)
    {
      if o.kind == Limit {
        MatchLimitOrder(o);
      }
    }

    /** Matches one limit order against the book, appending its trades to the ledger. */
    method MatchLimitOrder(o: Order)
      requires Valid() && o.quantity > 0
      modifies this, book
      ensures Valid()
      ensures book.State() == Match(old(book.State()), o).book
      ensures trades == old(trades) + Match(old(book.State()), o).fills
    {
      ghost var b0 := book.State();
      MatchKeepsResting(b0, o);
      MatchKeepsNoCross(b0, o);
      if (o.side == Buy && o.price >= book.BestAsk()) || (o.side == Sell && o.price <= book.BestBid()) {
        assert Crosses(b0, o);
        Execute(o);
      } else {
        assert !Crosses(b0, o);
        book.Add(o);
      }
    }

    /** The crossing branch: walk the contra side, take the orders consumed whole off
        it, and post what is left of the incoming order, if anything, on its own side. */
    method Execute(o: Order)
      requires Resting(book.State()) && Crosses(book.State(), o)
      modifies this, book
      ensures book.State() == Match(old(book.State()), o).book
      ensures trades == old(trades) + Match(old(book.State()), o).fills
    {
      ghost var b0 := book.State();
      ghost var r := Sweep(o, ContraOf(b0, o.side), 0, 0, [], 0);
      var filled, consumed;
      if o.side == Buy {
        filled, consumed := WalkAsks(o);
      } else {
        filled, consumed := WalkBids(o);
      }
      RemoveConsumed(o, consumed);
      assert book.State() == WithContra(b0, o.side, r.side[r.consumed..]);
      if filled < o.quantity {
        book.Add(Order(o.id, Limit, o.side, o.price, o.quantity - filled));
      }
    }

    /** A buy's walk over the asks, best first: each ask at or below its price is traded
        against, consumed whole when it fits in what is left of the buy and otherwise shrunk
        in place; the asks consumed whole are returned. */
    method WalkAsks(o: Order) returns (filled: nat, consumed: seq<Order>)
      requires Resting(book.State()) && o.side == Buy
      modifies this, book
      ensures var r := Sweep(o, ContraOf(old(book.State()), o.side), 0, 0, [], 0);
        filled == r.filled && consumed == r.side[..r.consumed] &&
        book.State() == WithContra(old(book.State()), o.side, r.side) &&
        trades == old(trades) + r.fills
      ensures book.Valid()
    {
      ghost var asks0 := book.asks;
      ghost var side := asks0;
      ghost var emitted: seq<Trade> := [];
      var n := |book.asks|;
      filled := 0;
      consumed := [];
      var i := 0;
      while i < n
        invariant 0 <= i <= n == |side| && filled <= o.quantity
        invariant book.bids == old(book.bids) && book.asks == side && SideValid(Sell, side)
        invariant |consumed| <= i && consumed == side[..|consumed|]
        invariant |consumed| == i || filled == o.quantity
        invariant trades == old(trades) + emitted
        invariant Sweep(o, asks0, 0, 0, [], 0) == Sweep(o, side, i, filled, emitted, |consumed|)
      {
        var resting := book.asks[i];
        if resting.price > o.price {
          SweepStops(o, side, i, filled, emitted, |consumed|);
          break;
        }
        if filled == o.quantity {
          SweepStops(o, side, i, filled, emitted, |consumed|);
          break;
        }
        if filled + resting.quantity <= o.quantity {
          var trade := Trade(o.id, resting.id, resting.price, resting.quantity);
          SweepConsumes(o, side, i, filled, emitted, |consumed|);
          PrefixExtend(side, |consumed|);
          filled := filled + resting.quantity;
          trades := trades + [trade];
          emitted := emitted + [trade];
          consumed := consumed + [resting];
        } else {
          var volume := o.quantity - filled;
          var trade := Trade(o.id, resting.id, resting.price, volume);
          var reduced := resting.(quantity := resting.quantity - volume);
          SweepReduces(o, side, i, filled, emitted, |consumed|);
          ReduceKeepsValid(Sell, side, i, reduced);
          assert side[i := reduced][..|consumed|] == side[..|consumed|];
          filled := filled + volume;
          trades := trades + [trade];
          emitted := emitted + [trade];
          side := side[i := reduced];
          book.asks := book.asks[i := reduced];
        }
        i := i + 1;
      }
    }

    /** A sell's walk over the bids, best first: each bid at or above its price is traded
        against, consumed whole when it fits in what is left of the sell and otherwise
        shrunk in place; the bids consumed whole are returned. */
    method WalkBids(o: Order) returns (filled: nat, consumed: seq<Order>)
      requires Resting(book.State()) && o.side == Sell
      modifies this, book
      ensures var r := Sweep(o, ContraOf(old(book.State()), o.side), 0, 0, [], 0);
        filled == r.filled && consumed == r.side[..r.consumed] &&
        book.State() == WithContra(old(book.State()), o.side, r.side) &&
        trades == old(trades) + r.fills
      ensures book.Valid()
    {
      ghost var bids0 := book.bids;
      ghost var side := bids0;
      ghost var emitted: seq<Trade> := [];
      var n := |book.bids|;
      filled := 0;
      consumed := [];
      var i := 0;
      while i < n
        invariant 0 <= i <= n == |side| && filled <= o.quantity
        invariant book.asks == old(book.asks) && book.bids == side && SideValid(Buy, side)
        invariant |consumed| <= i && consumed == side[..|consumed|]
        invariant |consumed| == i || filled == o.quantity
        invariant trades == old(trades) + emitted
        invariant Sweep(o, bids0, 0, 0, [], 0) == Sweep(o, side, i, filled, emitted, |consumed|)
      {
        var resting := book.bids[i];
        if resting.price < o.price {
          SweepStops(o, side, i, filled, emitted, |consumed|);
          break;
        }
        if filled == o.quantity {
          SweepStops(o, side, i, filled, emitted, |consumed|);
          break;
        }
        if filled + resting.quantity <= o.quantity {
          var trade := Trade(o.id, resting.id, resting.price, resting.quantity);
          SweepConsumes(o, side, i, filled, emitted, |consumed|);
          PrefixExtend(side, |consumed|);
          filled := filled + resting.quantity;
          trades := trades + [trade];
          emitted := emitted + [trade];
          consumed := consumed + [resting];
        } else {
          var volume := o.quantity - filled;
          var trade := Trade(o.id, resting.id, resting.price, volume);
          var reduced := resting.(quantity := resting.quantity - volume);
          SweepReduces(o, side, i, filled, emitted, |consumed|);
          ReduceKeepsValid(Buy, side, i, reduced);
          assert side[i := reduced][..|consumed|] == side[..|consumed|];
          filled := filled + volume;
          trades := trades + [trade];
          emitted := emitted + [trade];
          side := side[i := reduced];
          book.bids := book.bids[i := reduced];
        }
        i := i + 1;
      }
    }

    /** Takes the orders the walk consumed whole off the contra side, front first. */
    method RemoveConsumed(o: Order, consumed: seq<Order>)
      requires book.Valid() && (o.side == Buy || o.side == Sell)
      requires |consumed| <= |ContraOf(book.State(), o.side)|
      requires consumed == ContraOf(book.State(), o.side)[..|consumed|]
      modifies book
      ensures book.Valid()
      ensures book.State() == WithContra(old(book.State()), o.side, ContraOf(old(book.State()), o.side)[|consumed|..])
    {
      ghost var b0 := book.State();
      ghost var side := ContraOf(b0, o.side);
      var j := 0;
      while j < |consumed|
        invariant 0 <= j <= |consumed|
        invariant book.Valid()
        invariant book.State() == WithContra(b0, o.side, side[j..])
      {
        assert consumed[j] == side[j..][0];
        assert side[j..][1..] == side[j + 1..];
        book.Remove(consumed[j]);
        j := j + 1;
      }
    }

    /** Cancellation is not implemented: the book and the ledger are left as they are. */
    method CancelOrder(cancel: Order)
      requires Valid()
      ensures Valid()
      ensures book.State() == old(book.State()) && trades == old(trades)
    {
    }
  }
}
