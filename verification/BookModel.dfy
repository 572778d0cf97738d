// The two-sided book as a state machine over its messages (src/order_book.cpp).
module BookModel {
  import opened Common
  import opened SideModel
  import opened SnapshotModel

  datatype Book = Book(bids: Side, asks: Side) {
    function Get(isSell: bool): Side { if isSell then asks else bids }

    function Put(isSell: bool, s: Side): Book { if isSell then this.(asks := s) else this.(bids := s) }
  }

  // A handler comes back with a book and events, or loops for ever in matchPendingLiqAdd.
  datatype Ran = Returned(book: Book, events: seq<OrderInfo>) | Hangs

  const EmptyBook := Book(Side(false, [], [], map[], []), Side(true, [], [], map[], []))

  datatype Added = Added(own: Side, opp: Side, events: seq<OrderInfo>) | Stalled

  function OweSide(s: Side, fills: seq<Fill>): Side {
    s.(pendingRemove := OweAll(s.pendingRemove, fills))
  }

  function Rest(s: Side, order: OrderV): Side {
    s.(book := AddOrder(s.isSell, s.book, order))
  }

  // A new order for side own: first against expected liquidity, then across the book
  // against opp, and what is left comes to rest.
  function AddTo(e: Erase, own: Side, opp: Side, id: OrderId, quantity: Quantity, price: Price): Added {
    var m := MatchAdd(e, own.isSell, own.pendingAdd, quantity, price);
    if m.Stuck? then Stalled
    else
      var own1 := own.(pendingAdd := m.left);
      var open := quantity - m.matched;
      if open == 0 then Added(own1, opp, [])
      else
        var r := Sweep(opp.isSell, opp.book, open, price);
        var execs := ExecEvents(opp.isSell, r.fills);
        if r.left == 0 then Added(OweSide(own1, r.fills), Cross(opp, open, price), execs)
        else Added(Rest(OweSide(own1, r.fills), OrderV(id, quantity, quantity - r.left, price)),
                   Cross(opp, open, price),
                   execs + [OrderInfo(ADD, id, own.isSell, r.left, price)])
  }

  function ProcessAdd(e: Erase, b: Book, isSell: bool, id: OrderId, quantity: Quantity, price: Price): Ran {
    var r := AddTo(e, b.Get(isSell), b.Get(!isSell), id, quantity, price);
    if r.Stalled? then Hangs else Returned(b.Put(isSell, r.own).Put(!isSell, r.opp), r.events)
  }

  function ProcessCancel(b: Book, isSell: bool, id: OrderId, quantity: Quantity, price: Price): (Book, seq<OrderInfo>) {
    var (s, events) := Cancel(b.Get(isSell), id, quantity, price);
    (b.Put(isSell, s), events)
  }

  predicate Exists(b: Book, id: OrderId) {
    Has(b.bids.book, id) || Has(b.asks.book, id)
  }

  function Lookup(b: Book, id: OrderId): OrderV
    requires Exists(b, id)
  {
    if Has(b.bids.book, id) then Find(b.bids.book, id) else Find(b.asks.book, id)
  }

  // A modification is a cancellation of what remains and a new order; only the
  // modification itself is reported.
  function ProcessModify(e: Erase, b: Book, isSell: bool, id: OrderId, quantity: Quantity, price: Price): Ran {
    var events := [OrderInfo(MODIF, id, isSell, quantity, price)];
    if !Exists(b, id) then Returned(b, events)
    else
      var b1 := ProcessCancel(b, isSell, id, Lookup(b, id).Rem(), price).0;
      var r := ProcessAdd(e, b1, isSell, id, quantity, price);
      if r.Hangs? then Hangs else Returned(r.book, events)
  }

  function ProcessTrade(b: Book, t: Trade): (Book, seq<OrderInfo>) {
    (Book(ApplyTrade(b.bids, t), ApplyTrade(b.asks, t)), TradeEvents(b.bids, t) + TradeEvents(b.asks, t))
  }

  function ProcessSnapshot(b: Book, bidRows: seq<Row>, askRows: seq<Row>): (Book, seq<OrderInfo>) {
    (Book(ApplySnapshot(b.bids, bidRows), ApplySnapshot(b.asks, askRows)),
     SnapshotEvents(b.bids, bidRows) + SnapshotEvents(b.asks, askRows))
  }

  // ---------- Invariants ----------

  function PriceSet(b: seq<OrderV>): set<Price> {
    set o | o in b :: o.price
  }

  ghost predicate WfBook(b: Book) {
    Wf(b.bids) && Wf(b.asks) && !b.bids.isSell && b.asks.isSell
  }

  // Every bid price is below every ask price.
  ghost predicate Uncrossed(b: Book) {
    forall p, q :: p in PriceSet(b.bids.book) && q in PriceSet(b.asks.book) ==> p < q
  }
}
