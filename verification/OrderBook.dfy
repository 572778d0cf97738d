// The smart order book (src/order_book.cpp): two sides and the handlers of the three
// feeds. Every handler does to Model() what the state machine of BookModel says.
module OrderBook {
  import opened Common
  import opened SideModel
  import opened BookSides
  import opened Matching
  import opened SnapshotModel
  import opened BookModel
  import opened Invariants

  class SmartOrderBook {
    const bids: BookSide
    const asks: BookSide

    ghost predicate Valid()
      reads this, bids, asks, bids.Repr, asks.Repr
    {
      && !bids.isSell && asks.isSell
      && bids.Valid() && asks.Valid()
      && bids.Repr !! asks.Repr
      && WfBook(Model())
    }

    ghost function Model(): Book
      reads this, bids, asks
    {
      Book(bids.Model(), asks.Model())
    }

    constructor ()
      ensures Valid() && fresh(bids) && fresh(asks) && bids.Repr == asks.Repr == {}
      ensures Model() == EmptyBook
    {
      bids := new BookSide(false);
      asks := new BookSide(true);
    }

    function SideOf(isSell: bool): BookSide {
      if isSell then asks else bids
    }

    method ProcessOrderCancelMessage(id: OrderId, isSell: bool, quantity: Quantity, price: Price)
      returns (events: seq<OrderInfo>)
      requires Valid()
      modifies bids, asks, bids.Repr, asks.Repr
      ensures Valid() && fresh(bids.Repr - old(bids.Repr)) && fresh(asks.Repr - old(asks.Repr))
      ensures (Model(), events) == ProcessCancel(old(Model()), isSell, id, quantity, price)
    {
      hide WfBook, BookSide.Valid, Cancel;
      CancelBookKeeps(Model(), isSell, id, quantity, price);
      var side := SideOf(isSell);
      events := side.ProcessOrderCancel(id, quantity, price);
    }

    method ProcessTradeMessage(trade: Trade) returns (events: seq<OrderInfo>)
      requires Valid() && trade.quantity >= 0
      modifies bids, asks, bids.Repr, asks.Repr
      ensures Valid() && fresh(bids.Repr - old(bids.Repr)) && fresh(asks.Repr - old(asks.Repr))
      ensures (Model(), events) == ProcessTrade(old(Model()), trade)
    {
      hide WfBook, BookSide.Valid, ApplyTrade, TradeEvents, Live;
      TradeBookKeeps(Model(), trade);
      LiveSides();
      var bidEvents := bids.ProcessTrade(trade);
      assert asks.Valid() && asks.Model() == old(asks.Model()) && bids.Repr !! asks.Repr;
      var askEvents := asks.ProcessTrade(trade);
      events := bidEvents + askEvents;
    }

    lemma LiveSides()
      requires Valid()
      ensures Live(bids.view.book) && Live(asks.view.book)
    {
    }

    method ProcessSnapshotMessage(bidRows: seq<Row>, askRows: seq<Row>) returns (events: seq<OrderInfo>)
      requires Valid() && ValidRows(false, bidRows) && ValidRows(true, askRows)
      modifies bids, asks, bids.Repr, asks.Repr
      ensures Valid() && fresh(bids.Repr - old(bids.Repr)) && fresh(asks.Repr - old(asks.Repr))
      ensures (Model(), events) == ProcessSnapshot(old(Model()), bidRows, askRows)
    {
      hide WfBook, BookSide.Valid, ApplySnapshot, SnapshotEvents, Live, ValidRows;
      SnapshotBookKeeps(Model(), bidRows, askRows);
      LiveSides();
      var bidEvents := bids.ProcessL2Snapshot(bidRows);
      var askEvents := asks.ProcessL2Snapshot(askRows);
      events := bidEvents + askEvents;
    }

    // The loop of matchPendingLiqAdd must come back; PendingAdd says exactly when it does.
    method ProcessOrderAddMessage(id: OrderId, isSell: bool, quantity: Quantity, price: Price)
      returns (events: seq<OrderInfo>)
      requires Valid() && quantity >= 0
      requires ProcessAdd(AsWritten, Model(), isSell, id, quantity, price).Returned?
      modifies bids, asks, bids.Repr, asks.Repr
      ensures Valid() && fresh(bids.Repr - old(bids.Repr)) && fresh(asks.Repr - old(asks.Repr))
      ensures Returned(Model(), events) == ProcessAdd(AsWritten, old(Model()), isSell, id, quantity, price)
    {
      hide WfBook, BookSide.Valid, AddTo, Live;
      AddKeeps(AsWritten, Model(), isSell, id, quantity, price);
      LiveSides();
      if isSell {
        events := AddOrderTo(asks, bids, id, quantity, price);
      } else {
        events := AddOrderTo(bids, asks, id, quantity, price);
      }
    }

    method ExistOrder(id: OrderId) returns (exist: bool)
      requires Valid()
      ensures exist == Exists(Model(), id)
    {
      hide WfBook, BookSide.Valid;
      bids.ExistOrder(id);
      asks.ExistOrder(id);
      exist := id in bids.orderMap || id in asks.orderMap;
    }

    method ProcessOrderModifyMessage(id: OrderId, isSell: bool, quantity: Quantity, price: Price)
      returns (events: seq<OrderInfo>)
      requires Valid() && quantity >= 0
      requires ProcessModify(AsWritten, Model(), isSell, id, quantity, price).Returned?
      modifies bids, asks, bids.Repr, asks.Repr
      ensures Valid() && fresh(bids.Repr - old(bids.Repr)) && fresh(asks.Repr - old(asks.Repr))
      ensures Returned(Model(), events) == ProcessModify(AsWritten, old(Model()), isSell, id, quantity, price)
    {
      hide WfBook, BookSide.Valid, ProcessCancel, ProcessAdd, BookModel.Exists, Lookup;
      events := [OrderInfo(MODIF, id, isSell, quantity, price)];
      var exist := ExistOrder(id);
      if !exist { return; }
      var remaining := Remaining(id);
      var _ := ProcessOrderCancelMessage(id, isSell, remaining, price);
      var _ := ProcessOrderAddMessage(id, isSell, quantity, price);
    }

    // What is left of the order getOrderHandler finds.
    method Remaining(id: OrderId) returns (remaining: Quantity)
      requires Valid() && Exists(Model(), id)
      ensures remaining == Lookup(Model(), id).Rem()
    {
      hide WfBook, BookSide.Valid;
      bids.ExistOrder(id);
      asks.ExistOrder(id);
      if id in bids.orderMap {
        remaining := bids.RemainingQuantity(id);
      } else {
        remaining := asks.RemainingQuantity(id);
      }
    }
  }

  // A new order for one side, seen from that side.
  method AddOrderTo(own: BookSide, opp: BookSide, id: OrderId, quantity: Quantity, price: Price)
    returns (events: seq<OrderInfo>)
    requires own.Valid() && opp.Valid() && own != opp && own.Repr !! opp.Repr
    requires Live(opp.view.book)
    requires AddTo(AsWritten, own.Model(), opp.Model(), id, quantity, price).Added?
    modifies own, own.Repr, opp, opp.Repr
    ensures own.Valid() && opp.Valid()
    ensures fresh(own.Repr - old(own.Repr)) && opp.Repr == old(opp.Repr)
    ensures Added(own.Model(), opp.Model(), events)
         == AddTo(AsWritten, old(own.Model()), old(opp.Model()), id, quantity, price)
  {
    hide BookSide.Valid, Sweep, MatchAdd, Live, ExecEvents, Cross, OweEvents, OweAll, SideModel.AddOrder;
    events := [];
    var matched := own.MatchPendingLiqAdd(quantity, price);
    var order := OrderV(id, quantity, matched, price);
    if order.Rem() == 0 { return; }
    ghost var r := Sweep(opp.isSell, opp.view.book, order.Rem(), price);
    var crossed := opp.BookCrossedWithPrice(price);
    if crossed {
      OweExecs(opp.isSell, own.pendingRemove, r.fills);
      events, order := opp.ProcessCrossedOrder(order);
      own.AddPendingLiqRemoveQty(events);
    } else {
      CrossNothing(opp.Model(), order.Rem(), price);
      OweNone(own.pendingRemove);
      ExecNone(opp.isSell);
    }
    if order.Rem() == 0 { return; }
    own.AddOrder(order);
    events := events + [OrderInfo(ADD, id, own.isSell, order.Rem(), price)];
  }
}
