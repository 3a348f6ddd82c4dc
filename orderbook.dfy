/** The local replica of one instrument's limit order book: two price-keyed
    maps of resting levels (bids and asks) and the sequence id of the last
    update the replica reflects. Prices and quantities are integer ticks. */
module OrderBooks {

  datatype Option<+T> = None | Some(value: T)

  /** One price level as the exchange reports it. */
  datatype Order = Order(price: int, quantity: int)

  /** Raised by a zero-quantity update for a price the side does not hold:
      the store deletes with `del`, which fails on a missing key. */
  datatype KeyError = KeyError(price: int)

  /** One side of the book: price -> the order resting at that price. */
  type Side = map<int, Order>

  /** What applying updates to a side leaves behind: the side as far as the
      updates got, and the error that stopped them, if any. */
  datatype Applied = Applied(side: Side, err: Option<KeyError>)

  /** A whole book as a value. */
  datatype Book = Book(bids: Side, asks: Side, lastUpdateId: nat)

  const EmptyBook := Book(map[], map[], 0)

  /** Every stored level sits under its own price and rests a nonzero quantity. */
  predicate WellFormed(side: Side) {
    forall p :: p in side ==> side[p].price == p && side[p].quantity != 0
  }

  /** The prices a list of updates mentions. */
  function Prices(orders: seq<Order>): set<int>
  {
    if orders == [] then {} else Prices(orders[..|orders| - 1]) + {orders[|orders| - 1].price}
  }

  /** True when no update in the list is a deletion. */
  predicate AllResting(orders: seq<Order>) {
    forall k :: 0 <= k < |orders| ==> orders[k].quantity != 0
  }

  /** The upsert rule of one side: a nonzero quantity inserts or replaces the
      level at its price, a zero quantity deletes it and fails when it is absent. */
  function Upsert(side: Side, order: Order): (r: Applied)
    ensures r.err.Some? <==> order.quantity == 0 && order.price !in side
    ensures r.err.Some? ==> r.err.value.price == order.price && r.side == side
    ensures r.err.None? ==> r.side.Keys == if order.quantity == 0 then side.Keys - {order.price}
                                           else side.Keys + {order.price}
    ensures order.quantity != 0 ==> order.price in r.side && r.side[order.price] == order
    ensures forall p :: p in side && p != order.price ==> p in r.side && r.side[p] == side[p]
    ensures WellFormed(side) ==> WellFormed(r.side)
  {
    if order.quantity == 0 then
      if order.price in side then Applied(side - {order.price}, None)
      else Applied(side, Some(KeyError(order.price)))
    else
      Applied(side[order.price := order], None)
  }

  /** Upserts a list of updates in order, stopping at the first that fails. */
  function ApplyAll(side: Side, orders: seq<Order>): Applied
    decreases |orders|
  {
    if orders == [] then Applied(side, None)
    else
      var done := ApplyAll(side, orders[..|orders| - 1]);
      if done.err.Some? then done else Upsert(done.side, orders[|orders| - 1])
  }

  /** Updates touch only the prices they mention: no other level appears,
      and every level at an unmentioned price is kept as it was. */
  lemma {:induction false} ApplyAllFrame(side: Side, orders: seq<Order>)
    ensures ApplyAll(side, orders).side.Keys <= side.Keys + Prices(orders)
    ensures forall p :: p in side && p !in Prices(orders) ==>
              p in ApplyAll(side, orders).side && ApplyAll(side, orders).side[p] == side[p]
    decreases |orders|
  {
    if orders != [] {
      ApplyAllFrame(side, orders[..|orders| - 1]);
    }
  }

  /** Updates never store a level under a foreign price or with quantity zero. */
  lemma {:induction false} ApplyAllKeepsWellFormed(side: Side, orders: seq<Order>)
    requires WellFormed(side)
    ensures WellFormed(ApplyAll(side, orders).side)
    decreases |orders|
  {
    if orders != [] {
      ApplyAllKeepsWellFormed(side, orders[..|orders| - 1]);
    }
  }

  /** Only a deletion can fail, and the error names its price. */
  lemma {:induction false} ApplyAllErrorCause(side: Side, orders: seq<Order>)
    ensures ApplyAll(side, orders).err.Some? ==>
              exists k :: 0 <= k < |orders| && orders[k] == Order(ApplyAll(side, orders).err.value.price, 0)
    decreases |orders|
  {
    if orders != [] {
      var init := orders[..|orders| - 1];
      ApplyAllErrorCause(side, init);
      if ApplyAll(side, init).err.Some? {
        var k :| 0 <= k < |init| && init[k] == Order(ApplyAll(side, init).err.value.price, 0);
        assert orders[k] == init[k];
      }
    }
  }

  /** Updates without deletions always succeed and leave exactly the old
      prices plus the mentioned ones. */
  lemma {:induction false} ApplyAllResting(side: Side, orders: seq<Order>)
    requires AllResting(orders)
    ensures ApplyAll(side, orders).err.None?
    ensures ApplyAll(side, orders).side.Keys == side.Keys + Prices(orders)
    decreases |orders|
  {
    if orders != [] {
      var init := orders[..|orders| - 1];
      assert forall k :: 0 <= k < |init| ==> init[k] == orders[k];
      ApplyAllResting(side, init);
    }
  }

  /** Once a prefix of the updates fails, the rest are never applied. */
  lemma {:induction false} ApplyAllStopsAtError(side: Side, orders: seq<Order>, n: nat)
    requires n <= |orders|
    requires ApplyAll(side, orders[..n]).err.Some?
    ensures ApplyAll(side, orders) == ApplyAll(side, orders[..n])
    decreases |orders|
  {
    if n < |orders| {
      var init := orders[..|orders| - 1];
      assert init[..n] == orders[..n];
      ApplyAllStopsAtError(side, init, n);
    } else {
      assert orders[..n] == orders;
    }
  }

  /** No update after the k-th one mentions its price. */
  predicate LastForPrice(orders: seq<Order>, k: nat)
    requires k < |orders|
  {
    forall j :: k < j < |orders| ==> orders[j].price != orders[k].price
  }

  /** For a price updated more than once, the last update decides its level. */
  lemma {:induction false} LaterEntryWins(side: Side, orders: seq<Order>, k: nat)
    requires k < |orders|
    requires LastForPrice(orders, k)
    requires ApplyAll(side, orders).err.None?
    ensures var r := ApplyAll(side, orders).side;
            if orders[k].quantity == 0 then orders[k].price !in r
            else orders[k].price in r && r[orders[k].price] == orders[k]
  {
    var init := orders[..|orders| - 1];
    if k < |orders| - 1 {
      assert init[k] == orders[k];
      assert LastForPrice(init, k);
      LaterEntryWins(side, init, k);
    }
  }

  /** A zero-quantity update for a price the side does not hold fails. */
  lemma DeleteOfAbsentLevelFails(side: Side, price: int)
    requires price !in side
    ensures ApplyAll(side, [Order(price, 0)]) == Applied(side, Some(KeyError(price)))
  {
  }

  /** Some element of a nonempty set. */
  ghost function SomeElement(s: set<int>): (y: int)
    requires s != {}
    ensures y in s
  {
    if forall y :: y !in s then assert false; 0
    else var y :| y in s; y
  }

  /** The least element of a finite nonempty set exists. */
  lemma {:induction false} HasLeast(s: set<int>)
    requires s != {}
    ensures exists m :: m in s && forall x :: x in s ==> m <= x
  {
    var y := SomeElement(s);
    if s != {y} {
      HasLeast(s - {y});
      var m :| m in s - {y} && forall x :: x in s - {y} ==> m <= x;
      var least := if y < m then y else m;
      forall x | x in s ensures least <= x {
        if x != y { assert x in s - {y}; }
      }
    }
  }

  /** The greatest element of a finite nonempty set exists. */
  lemma {:induction false} HasGreatest(s: set<int>)
    requires s != {}
    ensures exists m :: m in s && forall x :: x in s ==> x <= m
  {
    var y := SomeElement(s);
    if s != {y} {
      HasGreatest(s - {y});
      var m :| m in s - {y} && forall x :: x in s - {y} ==> x <= m;
      var greatest := if m < y then y else m;
      forall x | x in s ensures x <= greatest {
        if x != y { assert x in s - {y}; }
      }
    }
  }

  function Least(s: set<int>): (m: int)
    requires s != {}
    ensures m in s && forall x :: x in s ==> m <= x
  {
    HasLeast(s);
    var m :| m in s && forall x :: x in s ==> m <= x; m
  }

  function Greatest(s: set<int>): (m: int)
    requires s != {}
    ensures m in s && forall x :: x in s ==> x <= m
  {
    HasGreatest(s);
    var m :| m in s && forall x :: x in s ==> x <= m; m
  }

  class OrderBook {
    var bids: Side
    var asks: Side
    var lastUpdateId: nat

    /** The levels the book stores are well formed on both sides. */
    ghost predicate Valid()
      reads this
    {
      WellFormed(bids) && WellFormed(asks)
    }

    /** The book as a value. */
    function View(): Book
      reads this
    {
      Book(bids, asks, lastUpdateId)
    }

    /** A new book is empty and has seen no update. */
    constructor ()
      ensures View() == EmptyBook && Valid()
    {
      bids := map[];
      asks := map[];
      lastUpdateId := 0;
    }

    /** The best ask: the lowest ask price, or None when there are no asks. */
    function TopAsk(): (r: Option<int>)
      reads this
      ensures r.None? <==> asks == map[]
      ensures r.Some? ==> r.value in asks && forall p :: p in asks ==> r.value <= p
    {
      if asks == map[] then None else Some(Least(asks.Keys))
    }

    /** The best bid: the highest bid price, or None when there are no bids. */
    function TopBid(): (r: Option<int>)
      reads this
      ensures r.None? <==> bids == map[]
      ensures r.Some? ==> r.value in bids && forall p :: p in bids ==> p <= r.value
    {
      if bids == map[] then None else Some(Greatest(bids.Keys))
    }

    /** Removes the bid at `price` if there is one; never fails. */
    method RemoveBid(price: int)
      modifies this
      ensures bids == old(bids) - {price}
      ensures asks == old(asks) && lastUpdateId == old(lastUpdateId)
      ensures old(Valid()) ==> Valid()
    {
      bids := bids - {price};
    }

    /** Removes the ask at `price` if there is one; never fails. */
    method RemoveAsk(price: int)
      modifies this
      ensures asks == old(asks) - {price}
      ensures bids == old(bids) && lastUpdateId == old(lastUpdateId)
      ensures old(Valid()) ==> Valid()
    {
      asks := asks - {price};
    }

    /** Upserts one bid level; a deletion of an absent price raises and changes nothing. */
    method AddOrUpdateBid(order: Order) returns (err: Option<KeyError>)
      modifies this
      ensures Upsert(old(bids), order) == Applied(bids, err)
      ensures asks == old(asks) && lastUpdateId == old(lastUpdateId)
      ensures old(Valid()) ==> Valid()
    {
      if order.quantity == 0 {
        if order.price !in bids {
          return Some(KeyError(order.price));
        }
        bids := bids - {order.price};
      } else {
        bids := bids[order.price := order];
      }
      err := None;
    }

    /** Upserts one ask level; a deletion of an absent price raises and changes nothing. */
    method AddOrUpdateAsk(order: Order) returns (err: Option<KeyError>)
      modifies this
      ensures Upsert(old(asks), order) == Applied(asks, err)
      ensures bids == old(bids) && lastUpdateId == old(lastUpdateId)
      ensures old(Valid()) ==> Valid()
    {
      if order.quantity == 0 {
        if order.price !in asks {
          return Some(KeyError(order.price));
        }
        asks := asks - {order.price};
      } else {
        asks := asks[order.price := order];
      }
      err := None;
    }
  }
}
