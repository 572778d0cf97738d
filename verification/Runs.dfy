// Whole runs of the book from empty, and snapshots that run ahead of or behind the orders
// (src/order_book.cpp:15-63, src/book_side.cpp:172-249).
module Runs {
  import opened Common
  import opened SideModel
  import opened ListLemmas
  import opened SnapshotModel
  import opened SnapshotLemmas
  import opened SnapshotTheorems
  import opened BookModel
  import opened Invariants
  import opened Confluence

  // ---------- Runs ----------

  datatype Message =
    | AddMsg(isSell: bool, id: OrderId, quantity: Quantity, price: Price)
    | CancelMsg(isSell: bool, id: OrderId, quantity: Quantity, price: Price)
    | ModifyMsg(isSell: bool, id: OrderId, quantity: Quantity, price: Price)
    | TradeMsg(trade: Trade)
    | SnapshotMsg(bidRows: seq<Row>, askRows: seq<Row>)

  function Step(b: Book, m: Message): Ran {
    match m
    case AddMsg(isSell, id, quantity, price) => ProcessAdd(AsWritten, b, isSell, id, quantity, price)
    case CancelMsg(isSell, id, quantity, price) =>
      var (b', events) := ProcessCancel(b, isSell, id, quantity, price); Returned(b', events)
    case ModifyMsg(isSell, id, quantity, price) => ProcessModify(AsWritten, b, isSell, id, quantity, price)
    case TradeMsg(trade) => var (b', events) := ProcessTrade(b, trade); Returned(b', events)
    case SnapshotMsg(bidRows, askRows) =>
      var (b', events) := ProcessSnapshot(b, bidRows, askRows); Returned(b', events)
  }

  function Run(b: Book, ms: seq<Message>): Ran
    decreases |ms|
  {
    if ms == [] then Returned(b, [])
    else
      var r := Step(b, ms[0]);
      if r.Hangs? then Hangs
      else
        var rest := Run(r.book, ms[1..]);
        if rest.Hangs? then Hangs else Returned(rest.book, r.events + rest.events)
  }

  // The prices a side will show after a snapshot: the snapshot's, without the new prices whose
  // made-up id is taken. If an earlier snapshot is still expected, the side does not follow
  // this one and keeps its own prices.
  ghost function Shown(s: Side, rows: seq<Row>): set<Price> {
    if s.snapQueue == []
    then set p | p in KeySet(rows) && !(Blocked(s.book, rows, FIRST_FAKE_ID, p) && TotalAt(s.book, p) == 0)
    else PriceSet(s.book)
  }

  ghost predicate SnapshotFits(b: Book, bidRows: seq<Row>, askRows: seq<Row>) {
    forall p, q :: p in Shown(b.bids, bidRows) && q in Shown(b.asks, askRows) ==> p < q
  }

  // What the exchange guarantees of a message, and, for a snapshot, that it fits.
  ghost predicate Admissible(b: Book, m: Message) {
    match m
    case AddMsg(_, _, quantity, _) => quantity >= 0
    case CancelMsg(_, _, _, _) => true
    case ModifyMsg(_, _, quantity, _) => quantity >= 0
    case TradeMsg(trade) => trade.quantity >= 0
    case SnapshotMsg(bidRows, askRows) =>
      ValidRows(false, bidRows) && ValidRows(true, askRows) && SnapshotFits(b, bidRows, askRows)
  }

  ghost predicate AdmissibleRun(b: Book, ms: seq<Message>)
    decreases |ms|
  {
    ms == [] || (Admissible(b, ms[0])
                 && (Step(b, ms[0]).Returned? ==> AdmissibleRun(Step(b, ms[0]).book, ms[1..])))
  }

  lemma {:induction false} RowKeys(rows: seq<Row>, p: Price)
    ensures HasRow(rows, p) <==> p in KeySet(rows)
  {
    if rows != [] {
      RowKeys(rows[1..], p);
      assert rows == [rows[0]] + rows[1..];
    }
  }

  lemma SnapshotShows(s: Side, rows: seq<Row>)
    requires Wf(s) && ValidRows(s.isSell, rows)
    ensures PriceSet(ApplySnapshot(s, rows).book) == Shown(s, rows)
  {
    hide Wf, Sorted, UniqueIds, Live, Resync, ValidRows, PriceSet, KeySet, Blocked, TotalAt;
    if s.snapQueue == [] {
      var b := Resync(s, rows).book;
      forall p ensures p in PriceSet(b) <==> p in Shown(s, rows) {
        ResyncTotals(s, rows, p);
        PriceTotal(b, p);
        PriceShown(s, rows, p);
      }
    } else {
      SamePrices(s, rows);
    }
  }

  lemma PriceTotal(b: seq<OrderV>, p: Price)
    requires Live(b)
    ensures p in PriceSet(b) <==> TotalAt(b, p) > 0
    ensures TotalAt(b, p) >= 0
  {
    InAtPrice(b, p);
    SumPositive(AtPrice(b, p));
    if AtPrice(b, p) != [] { assert AtPrice(b, p)[0] in AtPrice(b, p); }
  }

  lemma PriceShown(s: Side, rows: seq<Row>, p: Price)
    requires Wf(s) && ValidRows(s.isSell, rows)
    ensures HasRow(rows, p) <==> p in KeySet(rows)
    ensures HasRow(rows, p) ==> QtyAt(rows, p) > 0
    ensures TotalAt(s.book, p) >= 0
  {
    RowKeys(rows, p);
    QtyRow(rows, p);
    PriceTotal(s.book, p);
  }

  lemma SamePrices(s: Side, rows: seq<Row>)
    requires s.snapQueue != []
    ensures ApplySnapshot(s, rows).book == s.book
  {
  }

  lemma StepKeeps(b: Book, m: Message)
    requires WfBook(b) && Uncrossed(b) && Admissible(b, m) && Step(b, m).Returned?
    ensures WfBook(Step(b, m).book) && Uncrossed(Step(b, m).book)
  {
    hide Wf, PriceSet, AddTo, ApplySnapshot, ApplyTrade, ValidRows, Shown;
    match m
    case AddMsg(isSell, id, quantity, price) => AddKeeps(AsWritten, b, isSell, id, quantity, price);
    case CancelMsg(isSell, id, quantity, price) => CancelBookKeeps(b, isSell, id, quantity, price);
    case ModifyMsg(isSell, id, quantity, price) => ModifyKeeps(AsWritten, b, isSell, id, quantity, price);
    case TradeMsg(trade) => TradeBookKeeps(b, trade);
    case SnapshotMsg(bidRows, askRows) =>
      SnapshotBookKeeps(b, bidRows, askRows);
      SnapshotShows(b.bids, bidRows);
      SnapshotShows(b.asks, askRows);
  }

  // From any good book, every admissible run that comes back keeps every bid below every ask.
  lemma {:induction false} RunKeeps(b: Book, ms: seq<Message>)
    requires WfBook(b) && Uncrossed(b) && AdmissibleRun(b, ms) && Run(b, ms).Returned?
    ensures WfBook(Run(b, ms).book) && Uncrossed(Run(b, ms).book)
    decreases |ms|
  {
    hide WfBook, Uncrossed, Step, Admissible;
    if ms != [] {
      StepKeeps(b, ms[0]);
      RunKeeps(Step(b, ms[0]).book, ms[1..]);
    }
  }

  lemma RunFromEmpty(ms: seq<Message>)
    requires AdmissibleRun(EmptyBook, ms) && Run(EmptyBook, ms).Returned?
    ensures var b := Run(EmptyBook, ms).book;
            && WfBook(b) && Uncrossed(b)
            && (b.bids.book != [] ==> !Crossed(b.asks, b.bids.book[0].price))
            && (b.asks.book != [] ==> !Crossed(b.bids, b.asks.book[0].price))
  {
    RunKeeps(EmptyBook, ms);
    var b := Run(EmptyBook, ms).book;
    if b.bids.book != [] && b.asks.book != [] {
      assert b.bids.book[0].price in PriceSet(b.bids.book) && b.asks.book[0].price in PriceSet(b.asks.book);
    }
  }

  // While both sides follow a snapshot, or neither does, it is enough that it is uncrossed.
  lemma BothOrNeither(b: Book, bidRows: seq<Row>, askRows: seq<Row>)
    requires Uncrossed(b)
    requires b.bids.snapQueue == [] <==> b.asks.snapQueue == []
    requires forall p, q :: p in KeySet(bidRows) && q in KeySet(askRows) ==> p < q
    ensures SnapshotFits(b, bidRows, askRows)
  {
  }

  // A message as the exchange sends it, whose snapshots are uncrossed and come while both
  // sides have no view queued.
  ghost predicate Plain(b: Book, m: Message) {
    match m
    case SnapshotMsg(bidRows, askRows) =>
      && ValidRows(false, bidRows) && ValidRows(true, askRows)
      && b.bids.snapQueue == [] && b.asks.snapQueue == []
      && forall p, q :: p in KeySet(bidRows) && q in KeySet(askRows) ==> p < q
    case _ => Admissible(b, m)
  }

  ghost predicate PlainRun(b: Book, ms: seq<Message>)
    decreases |ms|
  {
    ms == [] || (Plain(b, ms[0]) && (Step(b, ms[0]).Returned? ==> PlainRun(Step(b, ms[0]).book, ms[1..])))
  }

  lemma PlainIsAdmissible(b: Book, m: Message)
    requires Uncrossed(b) && Plain(b, m)
    ensures Admissible(b, m)
  {
    hide Uncrossed, ValidRows, KeySet, SnapshotFits;
    if m.SnapshotMsg? { BothOrNeither(b, m.bidRows, m.askRows); }
  }

  // So runs of plain messages never cross it.
  lemma {:induction false} PlainRunKeeps(b: Book, ms: seq<Message>)
    requires WfBook(b) && Uncrossed(b) && PlainRun(b, ms) && Run(b, ms).Returned?
    ensures WfBook(Run(b, ms).book) && Uncrossed(Run(b, ms).book)
    decreases |ms|
  {
    hide WfBook, Uncrossed, Step, Admissible, Plain;
    if ms != [] {
      PlainIsAdmissible(b, ms[0]);
      StepKeeps(b, ms[0]);
      PlainRunKeeps(Step(b, ms[0]).book, ms[1..]);
    }
  }

  // The condition on the prices shown is exact.
  lemma SnapshotUncrossedExactly(b: Book, bidRows: seq<Row>, askRows: seq<Row>)
    requires WfBook(b) && ValidRows(false, bidRows) && ValidRows(true, askRows)
    ensures Uncrossed(ProcessSnapshot(b, bidRows, askRows).0) <==> SnapshotFits(b, bidRows, askRows)
  {
    hide ApplySnapshot, SnapshotEvents, ValidRows, PriceSet, Shown;
    SnapshotShows(b.bids, bidRows);
    SnapshotShows(b.asks, askRows);
  }

  lemma OneOrder(isSell: bool, o: OrderV, snaps: seq<seq<Row>>)
    requires o.Rem() > 0
    ensures Wf(Side(isSell, [o], [], map[], snaps)) && PriceSet([o]) == {o.price}
  {
    assert [o][1..] == [];
  }

  // An uncrossed snapshot crosses a book of which only the asks follow it, whenever its
  // ask is at or below the standing bid.
  lemma OneSideFollows(bid: OrderV, ask: OrderV, expected: seq<Row>, bidRow: Row, askRow: Row)
    requires bid.Rem() > 0 && ask.Rem() > 0 && bid.price < ask.price && ask.id < FIRST_FAKE_ID
    requires bidRow.quantity > 0 && askRow.quantity > 0 && bidRow.price < askRow.price <= bid.price
    ensures var b := Book(Side(false, [bid], [], map[], [expected]), Side(true, [ask], [], map[], []));
            && WfBook(b) && Uncrossed(b) && ValidRows(false, [bidRow]) && ValidRows(true, [askRow])
            && !Uncrossed(ProcessSnapshot(b, [bidRow], [askRow]).0)
  {
    var b := Book(Side(false, [bid], [], map[], [expected]), Side(true, [ask], [], map[], []));
    OneOrder(false, bid, b.bids.snapQueue);
    OneOrder(true, ask, b.asks.snapQueue);
    OneRow(false, bidRow);
    OneRow(true, askRow);
    OneFresh(ask, [askRow]);
    FreshShown(b.asks, [askRow], askRow.price);
    hide Wf, PriceSet, KeySet, ValidRows, FreshIds, ApplySnapshot, Blocked, TotalAt;
    SnapshotUncrossedExactly(b, [bidRow], [askRow]);
    assert bid.price in Shown(b.bids, [bidRow]) && askRow.price in Shown(b.asks, [askRow]);
  }

  lemma FreshShown(s: Side, rows: seq<Row>, p: Price)
    requires Positive(rows) && HasRow(rows, p) && FreshIds(s.book, rows)
    ensures !Blocked(s.book, rows, FIRST_FAKE_ID, p)
  {
    if QtyAt(rows, p) > TotalAt(s.book, p) { IdRange(s.book, rows, FIRST_FAKE_ID, p); }
  }

  lemma OneRow(isSell: bool, r: Row)
    requires r.quantity > 0
    ensures ValidRows(isSell, [r]) && KeySet([r]) == {r.price}
  {
    assert [r][1..] == [];
  }

  lemma OneFresh(o: OrderV, rows: seq<Row>)
    requires o.id < FIRST_FAKE_ID
    ensures FreshIds([o], rows)
  {
    assert [o][1..] == [];
  }

  // ---------- Snapshot leads orders ----------

  datatype NewOrder = NewOrder(id: OrderId, quantity: Quantity, price: Price)

  function FeedOrders(b: Book, isSell: bool, os: seq<NewOrder>): Ran
    decreases |os|
  {
    if os == [] then Returned(b, [])
    else
      var r := ProcessAdd(AsWritten, b, isSell, os[0].id, os[0].quantity, os[0].price);
      if r.Hangs? then Hangs
      else
        var rest := FeedOrders(r.book, isSell, os[1..]);
        if rest.Hangs? then Hangs else Returned(rest.book, r.events + rest.events)
  }

  function OrderTotalAt(os: seq<NewOrder>, p: Price): Quantity {
    if os == [] then 0
    else (if os[0].price == p then os[0].quantity else 0) + OrderTotalAt(os[1..], p)
  }

  ghost predicate BestFirst(isSell: bool, os: seq<NewOrder>) {
    os == [] || ((forall o :: o in os[1..] ==> NoWorse(isSell, os[0].price, o.price)) && BestFirst(isSell, os[1..]))
  }

  lemma {:induction false} SomeOrderAt(os: seq<NewOrder>, p: Price)
    requires OrderTotalAt(os, p) > 0
    ensures exists o :: o in os && o.price == p
  {
    if os[0].price == p {
      assert os[0] in os;
    } else {
      SomeOrderAt(os[1..], p);
      var o :| o in os[1..] && o.price == p;
      assert o in os;
    }
  }

  lemma {:induction false} OrderTotalPositive(os: seq<NewOrder>, p: Price)
    requires forall o :: o in os ==> o.quantity > 0
    ensures OrderTotalAt(os, p) >= 0
  {
    if os != [] {
      assert os[0] in os;
      OrderTotalPositive(os[1..], p);
    }
  }

  lemma BestKey(isSell: bool, m: seq<Row>, p: Price)
    requires SortedRows(isSell, m) && HasRow(m, p)
    ensures NoWorse(isSell, m[0].price, p)
  {
    RowKeys(m, p);
  }

  // Every order that an expectation map is made of is for one of its entries.
  lemma {:induction false} OrderHasKey(isSell: bool, m: seq<Row>, os: seq<NewOrder>, o: NewOrder)
    requires SortedRows(isSell, m) && Positive(m) && o in os && forall o :: o in os ==> o.quantity > 0
    requires forall p :: OrderTotalAt(os, p) == QtyAt(m, p)
    ensures m != [] && NoWorse(isSell, m[0].price, o.price) && o.quantity <= QtyAt(m, o.price)
  {
    AtLeast(os, o);
    assert OrderTotalAt(os, o.price) == QtyAt(m, o.price);
    QtyRow(m, o.price);
    BestKey(isSell, m, o.price);
  }

  lemma {:induction false} AtLeast(os: seq<NewOrder>, o: NewOrder)
    requires o in os && forall o :: o in os ==> o.quantity > 0
    ensures OrderTotalAt(os, o.price) >= o.quantity > 0
  {
    assert os[0] in os;
    if os[0] == o {
      OrderTotalPositive(os[1..], o.price);
    } else {
      AtLeast(os[1..], o);
    }
  }

  // So orders come best first exactly if each is for the best entry when it comes.
  lemma {:induction false} BestOrderFirst(isSell: bool, m: seq<Row>, os: seq<NewOrder>)
    requires SortedRows(isSell, m) && Positive(m) && os != [] && forall o :: o in os ==> o.quantity > 0
    requires forall p :: OrderTotalAt(os, p) == QtyAt(m, p)
    ensures m != [] && NoWorse(isSell, m[0].price, os[0].price)
    ensures os[0].price == m[0].price ==> os[0].quantity <= m[0].quantity
    ensures BestFirst(isSell, os) <==> os[0].price == m[0].price && BestFirst(isSell, os[1..])
  {
    OrderHasKey(isSell, m, os, os[0]);
    if os[0].price == m[0].price {
      forall o | o in os[1..] ensures NoWorse(isSell, os[0].price, o.price) {
        OrderHasKey(isSell, m, os, o);
      }
    } else {
      Visible(m);
      assert OrderTotalAt(os, m[0].price) == QtyAt(m, m[0].price);
      SomeOrderAt(os, m[0].price);
      var x :| x in os && x.price == m[0].price;
      assert x in os[1..];
    }
  }

  // An order that nothing expected matches does not go unreported.
  lemma AddReports(own: Side, opp: Side, id: OrderId, q: Quantity, price: Price)
    requires own.pendingAdd == [] || !NoWorse(own.isSell, price, own.pendingAdd[0].price)
    requires q > 0
    ensures var r := AddTo(AsWritten, own, opp, id, q, price); r.Added? && r.events != []
  {
    var r := Sweep(opp.isSell, opp.book, q, price);
    assert |ExecEvents(opp.isSell, r.fills)| == |r.fills|;
  }

  // Taking q off the best entry, as the loop does for an order at that entry's price.
  function TakeBest(m: seq<Row>, q: Quantity): seq<Row>
    requires m != []
  {
    if q == m[0].quantity then m[1..] else [Row(m[0].price, m[0].quantity - q)] + m[1..]
  }

  lemma TakeBestKeeps(isSell: bool, m: seq<Row>, q: Quantity, p: Price)
    requires SortedRows(isSell, m) && Positive(m) && m != [] && 0 < q <= m[0].quantity
    ensures var m' := TakeBest(m, q);
            && SortedRows(isSell, m') && Positive(m')
            && QtyAt(m', p) == QtyAt(m, p) - (if p == m[0].price then q else 0)
            && MatchAdd(AsWritten, isSell, m, q, m[0].price) == Done(q, m')
  {
    var m' := TakeBest(m, q);
    if q == m[0].quantity {
      NoQty(isSell, m[1..], m[0].price);
    } else {
      assert m'[1..] == m[1..];
      forall r | r in m' ensures r.quantity > 0 {
        assert r == m'[0] || r in m[1..];
      }
    }
  }

  // Orders that were expected: all are absorbed (no level changes, nothing is reported, and
  // nothing is left to expect) if and only if they come best price first.
  lemma {:induction false} OrdersAbsorbedExactly(b: Book, isSell: bool, os: seq<NewOrder>)
    requires WfBook(b) && Positive(b.Get(isSell).pendingAdd)
    requires forall o :: o in os ==> o.quantity > 0
    requires forall p :: OrderTotalAt(os, p) == QtyAt(b.Get(isSell).pendingAdd, p)
    ensures FeedOrders(b, isSell, os) == Returned(b.Put(isSell, b.Get(isSell).(pendingAdd := [])), [])
       <==> BestFirst(isSell, os)
    decreases |os|
  {
    var own := b.Get(isSell);
    var m := own.pendingAdd;
    if os == [] {
      if m != [] { Visible(m); }
      assert m == [];
    } else {
      BestOrderFirst(isSell, m, os);
      var q := os[0].quantity;
      assert os[0] in os;
      if os[0].price == m[0].price {
        TakeBestKeeps(isSell, m, q, m[0].price);
        var b1 := b.Put(isSell, own.(pendingAdd := TakeBest(m, q)));
        assert ProcessAdd(AsWritten, b, isSell, os[0].id, q, os[0].price) == Returned(b1, []);
        forall p ensures OrderTotalAt(os[1..], p) == QtyAt(TakeBest(m, q), p) {
          TakeBestKeeps(isSell, m, q, p);
          assert OrderTotalAt(os, p) == QtyAt(m, p);
        }
        assert NonNegative(TakeBest(m, q)) by {
          forall r | r in TakeBest(m, q) ensures r.quantity >= 0 {}
        }
        hide ProcessAdd, TakeBest, MatchAdd, BestFirst;
        OrdersAbsorbedExactly(b1, isSell, os[1..]);
      } else {
        AddReports(own, b.Get(!isSell), os[0].id, q, os[0].price);
      }
    }
  }

  lemma {:induction false} GrowPositive(s: Side, rows: seq<Row>, id: OrderId)
    requires Sorted(s.isSell, s.book) && UniqueIds(s.book) && Live(s.book) && SortedRows(s.isSell, s.pendingAdd)
    requires Positive(s.pendingAdd) && Positive(rows)
    ensures Positive(GrowAll(s, rows, id).side.pendingAdd)
    decreases |rows|
  {
    hide Sorted, UniqueIds, Live, SortedRows, Sum, AtPrice, Credit;
    if rows != [] {
      var row := rows[0];
      assert row in rows;
      var more := row.quantity - Sum(AtPrice(s.book, row.price));
      SumNone();
      if more > 0 { CreditKeys(s.isSell, s.pendingAdd, row.price, more); }
      GrowRowKeeps(s, row, id);
      GrowPositive(GrowRow(s, row, id).side, rows[1..], GrowRow(s, row, id).nextId);
    }
  }

  // After a resync, the real orders behind it, which add up at every price to what the resync
  // added there, leave the levels as the snapshot showed them, with nothing left to expect, if
  // and only if they come best price first.
  lemma {:induction false} SnapshotLeadsOrders(b: Book, isSell: bool, rows: seq<Row>, os: seq<NewOrder>)
    requires WfBook(b) && ValidRows(isSell, rows)
    requires b.Get(isSell).snapQueue == [] && b.Get(isSell).pendingAdd == []
    requires forall o :: o in os ==> o.quantity > 0
    requires forall p :: OrderTotalAt(os, p) == ReportedAt(SnapshotEvents(b.Get(isSell), rows), ADD, p)
    ensures var s := ApplySnapshot(b.Get(isSell), rows);
            FeedOrders(b.Put(isSell, s), isSell, os) == Returned(b.Put(isSell, s.(pendingAdd := [])), [])
            <==> BestFirst(isSell, os)
  {
    var own := b.Get(isSell);
    var s := ApplySnapshot(own, rows);
    SnapshotKeeps(own, rows);
    GrowPositive(own, rows, FIRST_FAKE_ID);
    forall p ensures OrderTotalAt(os, p) == QtyAt(s.pendingAdd, p) {
      Ledger(own, rows, p);
    }
    assert s.pendingAdd == GrowAll(own, rows, FIRST_FAKE_ID).side.pendingAdd;
    hide ApplySnapshot, SnapshotEvents, FeedOrders, GrowAll;
    OrdersAbsorbedExactly(b.Put(isSell, s), isSell, os);
  }

  // ---------- Order leads snapshots ----------

  function FeedSnapshots(s: Side, views: seq<seq<Row>>): Side
    decreases |views|
  {
    if views == [] then s else FeedSnapshots(ApplySnapshot(s, views[0]), views[1..])
  }

  // The snapshots a side expects, in their order, are ticked off and change nothing else.
  lemma {:induction false} ExpectedSnapshots(s: Side, views: seq<seq<Row>>)
    requires views <= s.snapQueue
    ensures FeedSnapshots(s, views) == s.(snapQueue := s.snapQueue[|views|..])
    decreases |views|
  {
    if views == [] {
      assert s.snapQueue[0..] == s.snapQueue;
    } else {
      assert ApplySnapshot(s, views[0]) == s.(snapQueue := s.snapQueue[1..]);
      assert s.snapQueue[1..][|views| - 1..] == s.snapQueue[|views|..];
      ExpectedSnapshots(s.(snapQueue := s.snapQueue[1..]), views[1..]);
    }
  }
}
