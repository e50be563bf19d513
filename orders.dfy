/** The two records of the matching engine: an order and the trade a match produces. */
module Orders {

  /** The side of an order once its text has been lower-cased; any text other than
      "buy" or "sell" is Unrecognised, and the book ignores such an order. */
  datatype Side = Buy | Sell | Unrecognised

  /** The order type; only "limit" orders are matched, every other type is dropped. */
  datatype OrderType = Limit | Unsupported

  /** An order. Ids are opaque text chosen by the caller and need not be unique.
      `quantity` is the size still open; a resting order's shrinks as it is filled. */
  datatype Order = Order(id: string, kind: OrderType, side: Side, price: int, quantity: nat)

  /** One match. The engine always writes the incoming order's id first and the
      resting order's id second, whatever the incoming order's side. */
  datatype Trade = Trade(buyOrderId: string, sellOrderId: string, price: int, quantity: nat)

  /** The total quantity of a run of trades. */
  function TotalQuantity(ts: seq<Trade>): nat
  {
    if ts == [] then 0 else TotalQuantity(ts[..|ts| - 1]) + ts[|ts| - 1].quantity
  }

  /** Appending a trade adds its quantity. */
  lemma TotalQuantityAppend(ts: seq<Trade>, t: Trade)
    ensures TotalQuantity(ts + [t]) == TotalQuantity(ts) + t.quantity
  {
    assert (ts + [t])[..|ts|] == ts;
  }

  /** A prefix of a run of trades never totals more than the run. */
  lemma {:induction false} TotalQuantityPrefix(ts: seq<Trade>, k: nat)
    requires k <= |ts|
    ensures TotalQuantity(ts[..k]) <= TotalQuantity(ts)
    decreases |ts|
  {
    if k < |ts| {
      assert ts[..|ts| - 1][..k] == ts[..k];
      TotalQuantityPrefix(ts[..|ts| - 1], k);
    } else {
      assert ts[..k] == ts;
    }
  }
}
