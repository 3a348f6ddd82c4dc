/** The synchroniser that keeps the local book in step with Binance's depth
    feed: it anchors the book on a REST snapshot, drops diff events that are
    stale or ahead of the book, resyncs on a break in the event chain, and
    otherwise applies the event's levels. The snapshot fetch and the websocket
    are outside the model: snapshots and decoded events arrive as arguments. */
module Binance {
  import opened OrderBooks

  /** A decoded diff event: it covers updates firstUpdateId..lastUpdateId. */
  datatype BinanceEvent = BinanceEvent(firstUpdateId: nat, lastUpdateId: nat, bids: seq<Order>, asks: seq<Order>)

  /** A decoded depth snapshot. */
  datatype Snapshot = Snapshot(lastUpdateId: nat, bids: seq<Order>, asks: seq<Order>)

  datatype Result<T> = Success(value: T) | Failure(error: KeyError)

  /** The synchroniser's state: the book and the last id of the previously applied event. */
  datatype Sync = Sync(book: Book, prevLastEventId: Option<nat>)

  /** The state after one event, and the error that escaped, if any. */
  datatype StepResult = StepResult(state: Sync, err: Option<KeyError>)

  /** A book after an event's levels were applied, and the error that stopped them, if any. */
  datatype Updated = Updated(book: Book, err: Option<KeyError>)

  const Initial := Sync(EmptyBook, None)

  /** What the listener sees: a decoded event (with the snapshots a fetch
      would return while handling it), or the connection closing. */
  datatype Input = Event(event: BinanceEvent, initial: Snapshot, resync: Snapshot) | Disconnected

  /** The book built from a snapshot: a fresh book with the snapshot's id,
      its bids upserted in order, then its asks. */
  function BookFromSnapshot(snap: Snapshot): Result<Book>
  {
    var b := ApplyAll(map[], snap.bids);
    if b.err.Some? then Failure(b.err.value)
    else
      var a := ApplyAll(map[], snap.asks);
      if a.err.Some? then Failure(a.err.value)
      else Success(Book(b.side, a.side, snap.lastUpdateId))
  }

  /** The book after an event's levels: the id moves to the event's last id
      first, then every bid and then every ask is upserted in list order;
      a failing bid leaves the asks untouched. */
  function ApplyEvent(book: Book, e: BinanceEvent): Updated
  {
    var b := ApplyAll(book.bids, e.bids);
    if b.err.Some? then Updated(Book(b.side, book.asks, e.lastUpdateId), b.err)
    else
      var a := ApplyAll(book.asks, e.asks);
      Updated(Book(b.side, a.side, e.lastUpdateId), a.err)
  }

  /** A book built from a snapshot carries the snapshot's id and only the
      snapshot's prices, none from any earlier book; at each price it holds
      the last snapshot order for that price; when the snapshot holds
      no deletion it is built without error and holds every snapshot price. */
  lemma SnapshotBookLevels(snap: Snapshot)
    ensures var r := BookFromSnapshot(snap);
            r.Success? ==>
              && r.value.lastUpdateId == snap.lastUpdateId
              && WellFormed(r.value.bids) && WellFormed(r.value.asks)
              && r.value.bids.Keys <= Prices(snap.bids) && r.value.asks.Keys <= Prices(snap.asks)
    ensures var r := BookFromSnapshot(snap);
            r.Success? ==> forall k :: 0 <= k < |snap.bids| && LastForPrice(snap.bids, k) ==>
              if snap.bids[k].quantity == 0 then snap.bids[k].price !in r.value.bids
              else snap.bids[k].price in r.value.bids && r.value.bids[snap.bids[k].price] == snap.bids[k]
    ensures var r := BookFromSnapshot(snap);
            r.Success? ==> forall k :: 0 <= k < |snap.asks| && LastForPrice(snap.asks, k) ==>
              if snap.asks[k].quantity == 0 then snap.asks[k].price !in r.value.asks
              else snap.asks[k].price in r.value.asks && r.value.asks[snap.asks[k].price] == snap.asks[k]
    ensures AllResting(snap.bids) && AllResting(snap.asks) ==>
              var r := BookFromSnapshot(snap);
              r.Success? && r.value.bids.Keys == Prices(snap.bids) && r.value.asks.Keys == Prices(snap.asks)
  {
    if BookFromSnapshot(snap).Success? {
      forall k | 0 <= k < |snap.bids| && LastForPrice(snap.bids, k)
        ensures var b := ApplyAll(map[], snap.bids).side;
                if snap.bids[k].quantity == 0 then snap.bids[k].price !in b
                else snap.bids[k].price in b && b[snap.bids[k].price] == snap.bids[k]
      {
        LaterEntryWins(map[], snap.bids, k);
      }
      forall k | 0 <= k < |snap.asks| && LastForPrice(snap.asks, k)
        ensures var a := ApplyAll(map[], snap.asks).side;
                if snap.asks[k].quantity == 0 then snap.asks[k].price !in a
                else snap.asks[k].price in a && a[snap.asks[k].price] == snap.asks[k]
      {
        LaterEntryWins(map[], snap.asks, k);
      }
    }
    ApplyAllFrame(map[], snap.bids);
    ApplyAllFrame(map[], snap.asks);
    ApplyAllKeepsWellFormed(map[], snap.bids);
    ApplyAllKeepsWellFormed(map[], snap.asks);
    if AllResting(snap.bids) && AllResting(snap.asks) {
      ApplyAllResting(map[], snap.bids);
      ApplyAllResting(map[], snap.asks);
    }
  }

  /** Applying an event moves the book to the event's last id, keeps every
      level at a price the event does not mention, keeps the book well
      formed, and cannot fail when the event deletes nothing. */
  lemma EventLevels(book: Book, e: BinanceEvent)
    ensures ApplyEvent(book, e).book.lastUpdateId == e.lastUpdateId
    ensures WellFormed(book.bids) && WellFormed(book.asks) ==>
              WellFormed(ApplyEvent(book, e).book.bids) && WellFormed(ApplyEvent(book, e).book.asks)
    ensures forall p :: p in book.bids && p !in Prices(e.bids) ==>
              p in ApplyEvent(book, e).book.bids && ApplyEvent(book, e).book.bids[p] == book.bids[p]
    ensures forall p :: p in book.asks && p !in Prices(e.asks) ==>
              p in ApplyEvent(book, e).book.asks && ApplyEvent(book, e).book.asks[p] == book.asks[p]
    ensures AllResting(e.bids) && AllResting(e.asks) ==> ApplyEvent(book, e).err.None?
  {
    ApplyAllFrame(book.bids, e.bids);
    ApplyAllFrame(book.asks, e.asks);
    if WellFormed(book.bids) && WellFormed(book.asks) {
      ApplyAllKeepsWellFormed(book.bids, e.bids);
      ApplyAllKeepsWellFormed(book.asks, e.asks);
    }
    if AllResting(e.bids) && AllResting(e.asks) {
      ApplyAllResting(book.bids, e.bids);
      ApplyAllResting(book.asks, e.asks);
    }
  }

  /** The book the sequence checks run against: an uninitialised book
      (last id 0) is first replaced by one built from the snapshot. */
  function Anchor(s: Sync, initial: Snapshot): Result<Book>
  {
    if s.book.lastUpdateId == 0 then BookFromSnapshot(initial) else Success(s.book)
  }

  /** The event is ahead of the anchored book: updates are missing in between. */
  predicate IsGap(book: Book, e: BinanceEvent) {
    e.firstUpdateId > book.lastUpdateId + 1
  }

  /** The event brings nothing past the anchored book. */
  predicate IsStale(book: Book, e: BinanceEvent) {
    e.lastUpdateId <= book.lastUpdateId
  }

  /** The event does not continue the previously applied one. */
  predicate IsDiscontinuous(prev: Option<nat>, e: BinanceEvent) {
    prev.Some? && e.firstUpdateId != prev.value + 1
  }

  /** The event passes every check and its levels get applied. */
  predicate Applies(s: Sync, e: BinanceEvent, initial: Snapshot) {
    var a := Anchor(s, initial);
    a.Success? && !IsGap(a.value, e) && !IsStale(a.value, e) && !IsDiscontinuous(s.prevLastEventId, e)
  }

  /** One event handled by the synchroniser, as a function of the old state.
      `initial` is what the anchoring fetch returns, `resync` what the
      fetch after a discontinuity returns. */
  function Step(s: Sync, e: BinanceEvent, initial: Snapshot, resync: Snapshot): StepResult
  {
    match Anchor(s, initial)
    case Failure(k) => StepResult(s, Some(k))
    case Success(book) =>
      if IsGap(book, e) then StepResult(Sync(book, s.prevLastEventId), None)
      else if IsStale(book, e) then StepResult(Sync(book, s.prevLastEventId), None)
      else if IsDiscontinuous(s.prevLastEventId, e) then
        match BookFromSnapshot(resync)
        case Failure(k) => StepResult(Sync(book, s.prevLastEventId), Some(k))
        case Success(rebuilt) => StepResult(Sync(rebuilt, None), None)
      else
        var u := ApplyEvent(book, e);
        StepResult(Sync(u.book, Some(e.lastUpdateId)), u.err)
  }

  /** The listener over a stream of inputs: a disconnect resets the state,
      an escaping error ends the listener with the state it left. */
  function Run(s: Sync, inputs: seq<Input>): StepResult
    decreases |inputs|
  {
    if inputs == [] then StepResult(s, None)
    else match inputs[0]
      case Disconnected => Run(Initial, inputs[1..])
      case Event(e, initial, resync) =>
        var r := Step(s, e, initial, resync);
        if r.err.Some? then r else Run(r.state, inputs[1..])
  }

  /** The synchroniser's invariant: both sides are well formed, and a
      remembered event id is the (positive) id of the book. */
  predicate Consistent(s: Sync) {
    && WellFormed(s.book.bids) && WellFormed(s.book.asks)
    && (s.prevLastEventId.Some? ==> s.prevLastEventId.value == s.book.lastUpdateId > 0)
  }

  /** An uninitialised book is replaced wholesale by the snapshot's before
      any check: if building it fails nothing changes, and otherwise no level
      of the old book survives the step unless a snapshot or the event holds
      its price. */
  lemma UninitialisedBookIsAnchored(s: Sync, e: BinanceEvent, initial: Snapshot, resync: Snapshot)
    requires s.book.lastUpdateId == 0
    ensures Anchor(s, initial) == BookFromSnapshot(initial)
    ensures BookFromSnapshot(initial).Failure? ==>
              Step(s, e, initial, resync) == StepResult(s, Some(BookFromSnapshot(initial).error))
    ensures BookFromSnapshot(initial).Success? ==>
              var r := Step(s, e, initial, resync).state.book;
              && r.bids.Keys <= Prices(initial.bids) + Prices(resync.bids) + Prices(e.bids)
              && r.asks.Keys <= Prices(initial.asks) + Prices(resync.asks) + Prices(e.asks)
  {
    SnapshotBookLevels(initial);
    SnapshotBookLevels(resync);
    if BookFromSnapshot(initial).Success? {
      var a := BookFromSnapshot(initial).value;
      ApplyAllFrame(a.bids, e.bids);
      ApplyAllFrame(a.asks, e.asks);
    }
  }

  /** An event ahead of the anchored book is dropped: only the anchoring happens. */
  lemma GapEventDropped(s: Sync, e: BinanceEvent, initial: Snapshot, resync: Snapshot)
    requires Anchor(s, initial).Success? && IsGap(Anchor(s, initial).value, e)
    ensures Step(s, e, initial, resync) == StepResult(Sync(Anchor(s, initial).value, s.prevLastEventId), None)
  {
  }

  /** A stale event is dropped: only the anchoring happens, so an
      initialised state is left exactly as it was. */
  lemma StaleEventDropped(s: Sync, e: BinanceEvent, initial: Snapshot, resync: Snapshot)
    requires Anchor(s, initial).Success? && IsStale(Anchor(s, initial).value, e)
    ensures Step(s, e, initial, resync) == StepResult(Sync(Anchor(s, initial).value, s.prevLastEventId), None)
    ensures s.book.lastUpdateId != 0 ==> Step(s, e, initial, resync) == StepResult(s, None)
  {
  }

  /** A break in the event chain replaces the book by the resync snapshot's,
      forgets the previous event, and applies none of the event's levels. */
  lemma DiscontinuityResyncs(s: Sync, e: BinanceEvent, initial: Snapshot, resync: Snapshot)
    requires Anchor(s, initial).Success?
    requires !IsGap(Anchor(s, initial).value, e) && !IsStale(Anchor(s, initial).value, e)
    requires IsDiscontinuous(s.prevLastEventId, e)
    ensures BookFromSnapshot(resync).Success? ==>
              Step(s, e, initial, resync) == StepResult(Sync(BookFromSnapshot(resync).value, None), None)
    ensures BookFromSnapshot(resync).Failure? ==>
              Step(s, e, initial, resync).state == Sync(Anchor(s, initial).value, s.prevLastEventId)
  {
  }

  /** An applied event sets both the book's id and the remembered id to its
      last id, which is strictly beyond the anchored book's id. */
  lemma AppliedEventAdvances(s: Sync, e: BinanceEvent, initial: Snapshot, resync: Snapshot)
    requires Applies(s, e, initial)
    ensures var r := Step(s, e, initial, resync).state;
            && r.book.lastUpdateId == e.lastUpdateId
            && r.prevLastEventId == Some(e.lastUpdateId)
            && r.book.lastUpdateId > Anchor(s, initial).value.lastUpdateId
            && r.book == ApplyEvent(Anchor(s, initial).value, e).book
  {
  }

  /** Once an event has been applied, the next applied event starts exactly
      one past the book's id: applied events form an unbroken chain. */
  lemma AppliedEventsAreContiguous(s: Sync, e: BinanceEvent, initial: Snapshot, resync: Snapshot)
    requires Consistent(s) && s.prevLastEventId.Some?
    requires Applies(s, e, initial)
    ensures e.firstUpdateId == s.book.lastUpdateId + 1
    ensures Step(s, e, initial, resync).state.book.lastUpdateId > s.book.lastUpdateId
  {
  }

  /** An applied event leaves every bid and every ask level whose price it
      does not mention as the anchored book had it. */
  lemma UnmentionedLevelsKept(s: Sync, e: BinanceEvent, initial: Snapshot, resync: Snapshot, p: int)
    requires Applies(s, e, initial)
    ensures var r := Step(s, e, initial, resync).state;
            var a := Anchor(s, initial).value;
            p in a.bids && p !in Prices(e.bids) ==> p in r.book.bids && r.book.bids[p] == a.bids[p]
    ensures var r := Step(s, e, initial, resync).state;
            var a := Anchor(s, initial).value;
            p in a.asks && p !in Prices(e.asks) ==> p in r.book.asks && r.book.asks[p] == a.asks[p]
  {
    EventLevels(Anchor(s, initial).value, e);
  }

  /** Every step keeps the synchroniser consistent, whatever it does. */
  lemma StepKeepsConsistent(s: Sync, e: BinanceEvent, initial: Snapshot, resync: Snapshot)
    requires Consistent(s)
    ensures Consistent(Step(s, e, initial, resync).state)
  {
    SnapshotBookLevels(initial);
    SnapshotBookLevels(resync);
    if Anchor(s, initial).Success? {
      EventLevels(Anchor(s, initial).value, e);
    }
  }

  /** A whole run of the listener keeps the synchroniser consistent. */
  lemma {:induction false} RunKeepsConsistent(s: Sync, inputs: seq<Input>)
    requires Consistent(s)
    ensures Consistent(Run(s, inputs).state)
    decreases |inputs|
  {
    if inputs != [] {
      match inputs[0]
      case Disconnected =>
        RunKeepsConsistent(Initial, inputs[1..]);
      case Event(e, initial, resync) =>
        StepKeepsConsistent(s, e, initial, resync);
        var r := Step(s, e, initial, resync);
        if r.err.None? {
          RunKeepsConsistent(r.state, inputs[1..]);
        }
    }
  }

  /** A snapshot at id 100 with a bid at 1000 and an ask at 1050, then an
      event 101..101 deleting the bid: no bid is left, the ask remains and
      the book is at id 101. */
  lemma SnapshotThenDeleteConverges()
    ensures var snap := Snapshot(100, [Order(1000, 5)], [Order(1050, 3)]);
            var e := BinanceEvent(101, 101, [Order(1000, 0)], []);
            Step(Initial, e, snap, snap) ==
              StepResult(Sync(Book(map[], map[1050 := Order(1050, 3)], 101), Some(101)), None)
  {
  }

  /** After an event 101..103 is applied on a book at 100, an event 105..110
      is dropped as a gap and an event 104..104 is applied. */
  lemma ChainOfEvents(b: Book, initial: Snapshot, resync: Snapshot)
    requires b.lastUpdateId == 100
    ensures var s1 := Step(Sync(b, None), BinanceEvent(101, 103, [], []), initial, resync).state;
            var s2 := Step(s1, BinanceEvent(105, 110, [], []), initial, resync).state;
            var s3 := Step(s2, BinanceEvent(104, 104, [], []), initial, resync).state;
            && s1 == Sync(Book(b.bids, b.asks, 103), Some(103))
            && s2 == s1
            && s3 == Sync(Book(b.bids, b.asks, 104), Some(104))
  {
  }

  class BinanceExchange {
    var orderbook: OrderBook
    var prevLastEventId: Option<nat>

    /** The state the synchroniser keeps, as a value. */
    ghost function State(): Sync
      reads this, orderbook
    {
      Sync(orderbook.View(), prevLastEventId)
    }

    /** A new exchange holds an empty, uninitialised book and no previous event. */
    constructor ()
      ensures fresh(orderbook) && State() == Initial
    {
      orderbook := new OrderBook();
      prevLastEventId := None;
    }

    /** Handles one decoded diff event; `initial` and `resync` stand for the
        snapshots the two possible fetches return. */
    method UpdateOrderbook(event: BinanceEvent, initial: Snapshot, resync: Snapshot) returns (err: Option<KeyError>)
      modifies this, orderbook
      ensures Step(old(State()), event, initial, resync) == StepResult(State(), err)
      ensures Consistent(old(State())) ==> Consistent(State())
    {
      ghost var s := State();
      if Consistent(s) {
        StepKeepsConsistent(s, event, initial, resync);
      }
      if orderbook.lastUpdateId == 0 {
        var book;
        book, err := CreateOrderbookFromSnapshot(initial);
        if err.Some? {
          return;
        }
        orderbook := book;
      }

      var lastUpdateId := orderbook.lastUpdateId;

      if event.firstUpdateId > lastUpdateId + 1 {
        return None;
      }

      if event.lastUpdateId <= lastUpdateId {
        return None;
      }

      if prevLastEventId.Some? && event.firstUpdateId != prevLastEventId.value + 1 {
        var book;
        book, err := CreateOrderbookFromSnapshot(resync);
        if err.Some? {
          return;
        }
        orderbook := book;
        prevLastEventId := None;
        return None;
      }

      prevLastEventId := Some(event.lastUpdateId);
      err := UpdateFromEvent(event);
    }

    /** Applies an event's levels to the current book: the id first, then
        the bids in order, then the asks in order. */
    method UpdateFromEvent(event: BinanceEvent) returns (err: Option<KeyError>)
      modifies orderbook
      ensures ApplyEvent(old(orderbook.View()), event) == Updated(orderbook.View(), err)
    {
      var book := orderbook;
      ghost var before := book.View();
      book.lastUpdateId := event.lastUpdateId;

      for i := 0 to |event.bids|
        invariant ApplyAll(before.bids, event.bids[..i]) == Applied(book.bids, None)
        invariant book.asks == before.asks && book.lastUpdateId == event.lastUpdateId
      {
        err := book.AddOrUpdateBid(event.bids[i]);
        assert event.bids[..i + 1][..i] == event.bids[..i];
        if err.Some? {
          ApplyAllStopsAtError(before.bids, event.bids, i + 1);
          return;
        }
      }
      assert event.bids[..|event.bids|] == event.bids;

      for i := 0 to |event.asks|
        invariant ApplyAll(before.asks, event.asks[..i]) == Applied(book.asks, None)
        invariant ApplyAll(before.bids, event.bids) == Applied(book.bids, None)
        invariant book.lastUpdateId == event.lastUpdateId
      {
        err := book.AddOrUpdateAsk(event.asks[i]);
        assert event.asks[..i + 1][..i] == event.asks[..i];
        if err.Some? {
          ApplyAllStopsAtError(before.asks, event.asks, i + 1);
          return;
        }
      }
      assert event.asks[..|event.asks|] == event.asks;
      err := None;
    }

    /** Builds a fresh book from a snapshot: its id, then its bids in order,
        then its asks in order. Nothing of the current book is carried over. */
    method CreateOrderbookFromSnapshot(snap: Snapshot) returns (book: OrderBook, err: Option<KeyError>)
      ensures fresh(book)
      ensures err.None? ==> BookFromSnapshot(snap) == Success(book.View())
      ensures err.Some? ==> BookFromSnapshot(snap) == Failure(err.value)
    {
      book := new OrderBook();
      book.lastUpdateId := snap.lastUpdateId;
      err := None;

      for i := 0 to |snap.bids|
        invariant ApplyAll(map[], snap.bids[..i]) == Applied(book.bids, None)
        invariant book.asks == map[] && book.lastUpdateId == snap.lastUpdateId
      {
        err := book.AddOrUpdateBid(snap.bids[i]);
        assert snap.bids[..i + 1][..i] == snap.bids[..i];
        if err.Some? {
          ApplyAllStopsAtError(map[], snap.bids, i + 1);
          return;
        }
      }
      assert snap.bids[..|snap.bids|] == snap.bids;

      for i := 0 to |snap.asks|
        invariant ApplyAll(map[], snap.asks[..i]) == Applied(book.asks, None)
        invariant book.bids == ApplyAll(map[], snap.bids).side
        invariant book.lastUpdateId == snap.lastUpdateId
      {
        err := book.AddOrUpdateAsk(snap.asks[i]);
        assert snap.asks[..i + 1][..i] == snap.asks[..i];
        if err.Some? {
          ApplyAllStopsAtError(map[], snap.asks, i + 1);
          return;
        }
      }
      assert snap.asks[..|snap.asks|] == snap.asks;
      err := None;
    }

    /** On a closed connection the book is discarded for an empty one and
        the previous event is forgotten. */
    method Disconnect()
      modifies this
      ensures fresh(orderbook) && State() == Initial
    {
      orderbook := new OrderBook();
      prevLastEventId := None;
    }
  }
}
