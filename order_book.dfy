/** The order book: two sorted sides of resting orders, bids by descending price and
    asks by ascending price, each first-in first-out among orders of equal price. */
module OrderBooks {
  import opened Orders

  /** The sort key of a side: a bid is keyed by its negated price, an ask by its price. */
  function Key(side: Side, o: Order): int
  {
    if side == Buy then -o.price else o.price
  }

  /** A side is sorted when keys never decrease from the front. */
  predicate Sorted(side: Side, s: seq<Order>)
  {
    forall i, j :: 0 <= i < j < |s| ==> Key(side, s[i]) <= Key(side, s[j])
  }

  /** What the book keeps true of one side: sorted by that side's key, and holding
      only orders of that side (the book files an order by its side). */
  predicate SideValid(side: Side, s: seq<Order>)
  {
    Sorted(side, s) && forall k :: 0 <= k < |s| ==> s[k].side == side
  }

  /** The price at the front of a side, or the sentinel 0 when the side is empty. */
  function Best(s: seq<Order>): int
  {
    if s == [] then 0 else s[0].price
  }

  /** Insertion of `o` after every entry whose key is at most its own (a right bisection). */
  function InsertAfterEqual(side: Side, s: seq<Order>, o: Order): (r: seq<Order>)
    ensures |r| == |s| + 1
    decreases s
  {
    if s == [] || Key(side, o) < Key(side, s[0]) then [o] + s
    else [s[0]] + InsertAfterEqual(side, s[1..], o)
  }

  /** The insertion lands at any index p with no greater key before it and a greater one
      (or the end) right after it: so `o` follows every earlier entry of equal price. */
  lemma {:induction false} InsertAt(side: Side, s: seq<Order>, o: Order, p: nat)
    requires p <= |s|
    requires forall j :: 0 <= j < p ==> Key(side, s[j]) <= Key(side, o)
    requires p < |s| ==> Key(side, o) < Key(side, s[p])
    ensures InsertAfterEqual(side, s, o) == s[..p] + [o] + s[p..]
    decreases s
  {
    if p > 0 {
      assert Key(side, s[0]) <= Key(side, o);
      InsertAt(side, s[1..], o, p - 1);
      assert s[..p] == [s[0]] + s[1..][..p - 1];
      assert s[p..] == s[1..][p - 1..];
    } else {
      assert s[..p] + [o] + s[p..] == [o] + s;
    }
  }

  /** The front of a side after an insertion is the inserted order or the old front. */
  lemma InsertFront(side: Side, s: seq<Order>, o: Order)
    ensures InsertAfterEqual(side, s, o)[0] == if s == [] || Key(side, o) < Key(side, s[0]) then o else s[0]
  {
  }

  /** Insertion adds exactly `o` to the side. */
  lemma {:induction false} InsertMultiset(side: Side, s: seq<Order>, o: Order)
    ensures multiset(InsertAfterEqual(side, s, o)) == multiset(s) + multiset{o}
    decreases s
  {
    if s != [] && Key(side, s[0]) <= Key(side, o) {
      InsertMultiset(side, s[1..], o);
      assert s == [s[0]] + s[1..];
    }
  }

  /** A sorted side stays sorted without its front, whose key is the least. */
  lemma SortedTail(side: Side, s: seq<Order>)
    requires Sorted(side, s) && s != []
    ensures Sorted(side, s[1..])
    ensures forall j :: 0 <= j < |s| - 1 ==> Key(side, s[0]) <= Key(side, s[1..][j])
  {
  }

  /** An order keyed no higher than every entry of a sorted side may go in front of it. */
  lemma SortedCons(side: Side, x: Order, t: seq<Order>)
    requires Sorted(side, t)
    requires forall j :: 0 <= j < |t| ==> Key(side, x) <= Key(side, t[j])
    ensures Sorted(side, [x] + t)
  {
    forall i, j | 0 <= i < j < |t| + 1 ensures Key(side, ([x] + t)[i]) <= Key(side, ([x] + t)[j]) {
      if i > 0 {
        assert ([x] + t)[i] == t[i - 1];
      }
      assert ([x] + t)[j] == t[j - 1];
    }
  }

  /** Insertion keeps a side sorted. */
  lemma {:induction false} InsertKeepsSorted(side: Side, s: seq<Order>, o: Order)
    requires Sorted(side, s)
    ensures Sorted(side, InsertAfterEqual(side, s, o))
    decreases s
  {
    if s == [] || Key(side, o) < Key(side, s[0]) {
      SortedCons(side, o, s);
    } else {
      SortedTail(side, s);
      InsertKeepsSorted(side, s[1..], o);
      InsertMultiset(side, s[1..], o);
      var r := InsertAfterEqual(side, s[1..], o);
      forall j | 0 <= j < |r| ensures Key(side, s[0]) <= Key(side, r[j]) {
        assert r[j] in multiset(r);
        assert r[j] in multiset(s[1..]) + multiset{o};
      }
      SortedCons(side, s[0], r);
    }
  }

  /** Insertion of an order of the side keeps the side valid. */
  lemma InsertKeepsValid(side: Side, s: seq<Order>, o: Order)
    requires SideValid(side, s) && o.side == side
    ensures SideValid(side, InsertAfterEqual(side, s, o))
  {
    InsertKeepsSorted(side, s, o);
    InsertMultiset(side, s, o);
    var r := InsertAfterEqual(side, s, o);
    forall k | 0 <= k < |r| ensures r[k].side == side {
      assert r[k] in multiset(s) + multiset{o};
    }
  }

  /** Removal of the first entry equal to `o`. */
  function RemoveFirst(s: seq<Order>, o: Order): (r: seq<Order>)
    decreases s
  {
    if s == [] then []
    else if s[0] == o then s[1..]
    else [s[0]] + RemoveFirst(s[1..], o)
  }

  /** Removal takes away exactly one copy of `o` when it is present, and nothing otherwise. */
  lemma {:induction false} RemoveFirstMultiset(s: seq<Order>, o: Order)
    ensures multiset(RemoveFirst(s, o)) == multiset(s) - multiset{o}
    ensures |RemoveFirst(s, o)| == if o in s then |s| - 1 else |s|
    decreases s
  {
    if s != [] {
      assert s == [s[0]] + s[1..];
      if s[0] != o {
        RemoveFirstMultiset(s[1..], o);
      }
    }
  }

  /** Removal of an order that is not on the side leaves the side as it was. */
  lemma {:induction false} RemoveFirstAbsent(s: seq<Order>, o: Order)
    requires o !in s
    ensures RemoveFirst(s, o) == s
    decreases s
  {
    if s != [] {
      assert s == [s[0]] + s[1..];
      RemoveFirstAbsent(s[1..], o);
    }
  }

  /** The index of the first entry equal to `o`. */
  function FirstIndex(s: seq<Order>, o: Order): (p: nat)
    requires o in s
    ensures p < |s| && s[p] == o && o !in s[..p]
    decreases s
  {
    if s[0] == o then 0 else 1 + FirstIndex(s[1..], o)
  }

  /** Removal deletes the entry at the first index of `o` and keeps every other resting
      order, in order: orders of equal price keep their arrival order. */
  lemma {:induction false} RemoveFirstAt(s: seq<Order>, o: Order, p: nat)
    requires p < |s| && s[p] == o && o !in s[..p]
    ensures RemoveFirst(s, o) == s[..p] + s[p + 1..]
    decreases s
  {
    if p > 0 {
      assert s[0] in s[..p];
      assert s[1..][..p - 1] == s[..p][1..];
      RemoveFirstAt(s[1..], o, p - 1);
      assert s[..p] == [s[0]] + s[1..][..p - 1];
      assert s[p + 1..] == s[1..][p..];
    }
  }

  /** Removal keeps a side sorted. */
  lemma {:induction false} RemoveFirstKeepsSorted(side: Side, s: seq<Order>, o: Order)
    requires Sorted(side, s)
    ensures Sorted(side, RemoveFirst(s, o))
    decreases s
  {
    if s != [] {
      SortedTail(side, s);
      if s[0] != o {
        RemoveFirstKeepsSorted(side, s[1..], o);
        RemoveFirstMultiset(s[1..], o);
        var r := RemoveFirst(s[1..], o);
        forall j | 0 <= j < |r| ensures Key(side, s[0]) <= Key(side, r[j]) {
          assert r[j] in multiset(r);
          assert r[j] in multiset(s[1..]);
        }
        SortedCons(side, s[0], r);
      }
    }
  }

  /** Removal keeps a side valid. */
  lemma RemoveFirstKeepsValid(side: Side, s: seq<Order>, o: Order)
    requires SideValid(side, s)
    ensures SideValid(side, RemoveFirst(s, o))
  {
    RemoveFirstKeepsSorted(side, s, o);
    RemoveFirstMultiset(s, o);
    var r := RemoveFirst(s, o);
    forall k | 0 <= k < |r| ensures r[k].side == side {
      assert r[k] in multiset(r);
      assert r[k] in multiset(s);
    }
  }

  /** The right bisection point of `o` in a sorted side: the first index whose key is
      greater than `o`'s. */
  method BisectRight(side: Side, s: seq<Order>, o: Order) returns (p: nat)
    requires Sorted(side, s)
    ensures p <= |s|
    ensures forall j :: 0 <= j < p ==> Key(side, s[j]) <= Key(side, o)
    ensures forall j :: p <= j < |s| ==> Key(side, o) < Key(side, s[j])
  {
    var lo, hi := 0, |s|;
    while lo < hi
      invariant 0 <= lo <= hi <= |s|
      invariant forall j :: 0 <= j < lo ==> Key(side, s[j]) <= Key(side, o)
      invariant forall j :: hi <= j < |s| ==> Key(side, o) < Key(side, s[j])
      decreases hi - lo
    {
      var mid := (lo + hi) / 2;
      if Key(side, o) < Key(side, s[mid]) {
        hi := mid;
      } else {
        lo := mid + 1;
      }
    }
    p := lo;
  }

  /** The value of an order book: its two sides. */
  datatype BookState = BookState(bids: seq<Order>, asks: seq<Order>)

  /** Both sides valid: bids sorted by descending price and holding only buys, asks
      sorted by ascending price and holding only sells. */
  predicate ValidState(b: BookState)
  {
    SideValid(Buy, b.bids) && SideValid(Sell, b.asks)
  }

  /** The book after `add`: a buy goes into the bids, a sell into the asks, anything else nowhere. */
  function AddOrder(b: BookState, o: Order): BookState
  {
    match o.side
    case Buy => b.(bids := InsertAfterEqual(Buy, b.bids, o))
    case Sell => b.(asks := InsertAfterEqual(Sell, b.asks, o))
    case Unrecognised => b
  }

  /** The book after `remove`: the order is taken from the side its own side names. */
  function RemoveOrder(b: BookState, o: Order): BookState
  {
    match o.side
    case Buy => b.(bids := RemoveFirst(b.bids, o))
    case Sell => b.(asks := RemoveFirst(b.asks, o))
    case Unrecognised => b
  }

  /** `add` keeps the book valid, adds exactly `o` to its own side, grows the book by one
      and leaves the other side alone; an order of an unrecognised side changes nothing. */
  lemma AddOrderEffect(b: BookState, o: Order)
    requires ValidState(b)
    ensures ValidState(AddOrder(b, o))
    ensures o.side == Buy ==> multiset(AddOrder(b, o).bids) == multiset(b.bids) + multiset{o} && AddOrder(b, o).asks == b.asks
    ensures o.side == Sell ==> multiset(AddOrder(b, o).asks) == multiset(b.asks) + multiset{o} && AddOrder(b, o).bids == b.bids
    ensures o.side == Unrecognised ==> AddOrder(b, o) == b
    ensures |AddOrder(b, o).bids| + |AddOrder(b, o).asks| == |b.bids| + |b.asks| + (if o.side == Unrecognised then 0 else 1)
  {
    if o.side == Buy {
      InsertKeepsValid(Buy, b.bids, o);
      InsertMultiset(Buy, b.bids, o);
    } else if o.side == Sell {
      InsertKeepsValid(Sell, b.asks, o);
      InsertMultiset(Sell, b.asks, o);
    }
  }

  /** `remove` of a present order keeps the book valid, takes exactly one copy of it from
      its own side, shrinks the book by one and leaves the other side alone. */
  lemma RemoveOrderEffect(b: BookState, o: Order)
    requires ValidState(b)
    requires o.side == Buy ==> o in b.bids
    requires o.side == Sell ==> o in b.asks
    ensures ValidState(RemoveOrder(b, o))
    ensures o.side == Buy ==> multiset(RemoveOrder(b, o).bids) == multiset(b.bids) - multiset{o} && RemoveOrder(b, o).asks == b.asks
    ensures o.side == Sell ==> multiset(RemoveOrder(b, o).asks) == multiset(b.asks) - multiset{o} && RemoveOrder(b, o).bids == b.bids
    ensures o.side == Unrecognised ==> RemoveOrder(b, o) == b
    ensures |RemoveOrder(b, o).bids| + |RemoveOrder(b, o).asks| == |b.bids| + |b.asks| - (if o.side == Unrecognised then 0 else 1)
  {
    if o.side == Buy {
      RemoveFirstKeepsValid(Buy, b.bids, o);
      RemoveFirstMultiset(b.bids, o);
    } else if o.side == Sell {
      RemoveFirstKeepsValid(Sell, b.asks, o);
      RemoveFirstMultiset(b.asks, o);
    }
  }

  /** `remove` of a present order deletes exactly its first entry on its own side: every
      other resting order keeps its place and its order, the other side is left alone. */
  lemma RemoveOrderInPlace(b: BookState, o: Order)
    requires o.side == Buy ==> o in b.bids
    requires o.side == Sell ==> o in b.asks
    ensures o.side == Buy ==> var p := FirstIndex(b.bids, o);
      RemoveOrder(b, o) == b.(bids := b.bids[..p] + b.bids[p + 1..])
    ensures o.side == Sell ==> var p := FirstIndex(b.asks, o);
      RemoveOrder(b, o) == b.(asks := b.asks[..p] + b.asks[p + 1..])
  {
    if o.side == Buy {
      RemoveFirstAt(b.bids, o, FirstIndex(b.bids, o));
    } else if o.side == Sell {
      RemoveFirstAt(b.asks, o, FirstIndex(b.asks, o));
    }
  }

  class OrderBook {
    var bids: seq<Order>
    var asks: seq<Order>

    /** The value of the book. */
    function State(): BookState
      reads this
    {
      BookState(bids, asks)
    }

    ghost predicate Valid()
      reads this
    {
      ValidState(State())
    }

    /** An empty book. */
    constructor ()
      ensures Valid() && bids == [] && asks == []
    {
      bids, asks := [], [];
    }

    /** The number of resting orders on both sides. */
    function Len(): (n: nat)
      reads this
      ensures n == SizeOfBids() + SizeOfAsks()
    {
      |bids| + |asks|
    }

    /** The number of resting bids. */
    function SizeOfBids(): (n: nat)
      reads this
      ensures n == |bids|
    {
      |bids|
    }

    /** The number of resting asks. */
    function SizeOfAsks(): (n: nat)
      reads this
      ensures n == |asks|
    {
      |asks|
    }

    /** The highest bid price, or 0 when there are no bids. */
    function BestBid(): (p: int)
      reads this
      requires Valid()
      ensures bids == [] ==> p == 0
      ensures bids != [] ==> exists k :: 0 <= k < |bids| && bids[k].price == p
      ensures forall k :: 0 <= k < |bids| ==> bids[k].price <= p
    {
      assert bids != [] ==> bids[0].price == Best(bids);
      Best(bids)
    }

    /** The lowest ask price, or 0 when there are no asks. */
    function BestAsk(): (p: int)
      reads this
      requires Valid()
      ensures asks == [] ==> p == 0
      ensures asks != [] ==> exists k :: 0 <= k < |asks| && asks[k].price == p
      ensures forall k :: 0 <= k < |asks| ==> p <= asks[k].price
    {
      assert asks != [] ==> asks[0].price == Best(asks);
      Best(asks)
    }

    /** Files `o` on its own side after every resting order of equal price. */
    method Add(o: Order)
      requires Valid()
      modifies this
      ensures Valid()
      ensures State() == AddOrder(old(State()), o)
    {
      if o.side == Buy {
        var p := BisectRight(Buy, bids, o);
        InsertAt(Buy, bids, o, p);
        InsertKeepsValid(Buy, bids, o);
        bids := bids[..p] + [o] + bids[p..];
      } else if o.side == Sell {
        var p := BisectRight(Sell, asks, o);
        InsertAt(Sell, asks, o, p);
        InsertKeepsValid(Sell, asks, o);
        asks := asks[..p] + [o] + asks[p..];
      }
    }

    /** Takes `o` off its own side; the order must be resting there. */
    method Remove(o: Order)
      requires Valid()
      requires o.side == Buy ==> o in bids
      requires o.side == Sell ==> o in asks
      modifies this
      ensures Valid()
      ensures State() == RemoveOrder(old(State()), o)
    {
      if o.side == Buy {
        RemoveFirstKeepsValid(Buy, bids, o);
        bids := RemoveFirst(bids, o);
      } else if o.side == Sell {
        RemoveFirstKeepsValid(Sell, asks, o);
        asks := RemoveFirst(asks, o);
      }
    }
  }
}
