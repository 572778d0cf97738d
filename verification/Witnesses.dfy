// Inputs on which the program does not do what one would expect: messages from the empty
// book, step by step, to each failing outcome. Every quantity and price is a parameter.
module Witnesses {
  import opened Common
  import opened SideModel
  import opened Matching
  import opened SnapshotModel
  import opened SnapshotTheorems
  import opened BookModel
  import opened Invariants
  import opened Reconciliation
  import opened Priority
  import opened Confluence
  import opened PartialFills
  import opened Runs
  import opened ExpectedViews

  // ---------- Single messages ----------

  // An order that does not cross comes to rest.
  lemma AddRests(b: Book, isSell: bool, id: OrderId, q: Quantity, price: Price)
    requires q > 0 && b.Get(isSell).pendingAdd == [] && b.Get(isSell).book == [] && b.Get(!isSell).book == []
    ensures ProcessAdd(AsWritten, b, isSell, id, q, price)
         == Returned(b.Put(isSell, b.Get(isSell).(book := [OrderV(id, q, 0, price)])),
                     [OrderInfo(ADD, id, b.Get(isSell).isSell, q, price)])
  {
    var own, opp := b.Get(isSell), b.Get(!isSell);
    hide Sweep, Cross, MatchAdd, OweAll, ExecEvents, AddTo;
    MatchNothing(AsWritten, own.isSell, q, price);
    CrossNothing(opp, q, price);
    OweNone(own.pendingRemove);
    ExecNone(opp.isSell);
    RestsWhole(AsWritten, own, opp, id, q, price);
  }

  function Rested(own: Side, id: OrderId, q: Quantity, price: Price, o: OrderV): Side {
    own.(pendingRemove := Owe(own.pendingRemove, o.price, Min(q, o.Rem())),
         book := if q > o.Rem() then [OrderV(id, q, o.Rem(), price)] else [])
  }

  function Hit(opp: Side, q: Quantity, o: OrderV): Side {
    opp.(book := if q < o.Rem() then [o.Take(q)] else [],
         pendingRemove := Owe(opp.pendingRemove, o.price, Min(q, o.Rem())),
         snapQueue := opp.snapQueue + [[Row(o.price, o.Rem() - Min(q, o.Rem()))]])
  }

  // What an order does to the one order of the other side.
  lemma SweepOne(opp: Side, o: OrderV, q: Quantity, price: Price)
    requires opp.book == [o] && o.Rem() > 0 && q > 0 && NoWorse(opp.isSell, o.price, price)
    ensures Sweep(opp.isSell, opp.book, q, price)
         == Swept([Fill(o.id, Min(q, o.Rem()), o.price)], if q < o.Rem() then [o.Take(q)] else [],
                  if q < o.Rem() then 0 else q - o.Rem())
    ensures SweepViews(opp.isSell, opp.book, q, price) == [[Row(o.price, o.Rem() - Min(q, o.Rem()))]]
  {
    var b := opp.book;
    assert b[1..] == [];
    if q < o.Rem() {
      assert [o.Take(q)] + b[1..] == [o.Take(q)] && [o.Take(q)][1..] == [];
      assert L2View([o.Take(q)]) == [Row(o.price, o.Rem() - q)];
    } else {
      assert ViewAfterFill(o.price, []) == [Row(o.price, 0)];
      assert SweepViews(opp.isSell, [], q - o.Rem(), price) == [];
    }
  }

  lemma OweOne(m: map<Price, Quantity>, f: Fill)
    ensures OweAll(m, [f]) == Owe(m, f.price, f.quantity)
  {
    assert [f][1..] == [];
  }

  lemma CrossesOne(own: Side, opp: Side, o: OrderV, id: OrderId, q: Quantity, price: Price)
    requires own.pendingAdd == [] && own.book == [] && opp.book == [o] && o.Rem() > 0 && q > 0
    requires NoWorse(opp.isSell, o.price, price)
    ensures var r := AddTo(AsWritten, own, opp, id, q, price);
            r.Added? && r.own == Rested(own, id, q, price, o) && r.opp == Hit(opp, q, o)
  {
    hide AddTo, Sweep, SweepViews, MatchAdd, OweAll, ExecEvents, NoWorse, Owe;
    MatchNothing(AsWritten, own.isSell, q, price);
    AddStalls(AsWritten, own, opp, id, q, price);
    AddToSides(AsWritten, own, opp, id, q, price);
    SweepOne(opp, o, q, price);
    OweOne(own.pendingRemove, Fill(o.id, Min(q, o.Rem()), o.price));
    OweOne(opp.pendingRemove, Fill(o.id, Min(q, o.Rem()), o.price));
    if q > o.Rem() {
      assert Insert(own.isSell, [], OrderV(id, q, o.Rem(), price)) == [OrderV(id, q, o.Rem(), price)];
    }
  }

  lemma RunFirst(b: Book, m: Message, ms: seq<Message>)
    ensures Run(b, [m] + ms)
         == var r := Step(b, m);
            if r.Hangs? then Hangs
            else
              var rest := Run(r.book, ms);
              if rest.Hangs? then Hangs else Returned(rest.book, r.events + rest.events)
  {
    assert ([m] + ms)[1..] == ms;
  }

  lemma RunTwo(b: Book, m1: Message, m2: Message)
    requires Step(b, m1).Returned?
    ensures var r := Step(Step(b, m1).book, m2);
            && (r.Hangs? ==> Run(b, [m1, m2]) == Hangs)
            && (r.Returned? ==> Run(b, [m1, m2]).Returned? && Run(b, [m1, m2]).book == r.book)
  {
    hide Step;
    var b1 := Step(b, m1).book;
    RunFirst(b, m1, [m2]);
    RunFirst(b1, m2, []);
    assert [m1] + [m2] == [m1, m2] && [m2] + [] == [m2];
  }

  lemma RunThree(b: Book, m1: Message, m2: Message, m3: Message)
    requires Step(b, m1).Returned? && Step(Step(b, m1).book, m2).Returned?
    ensures var r := Step(Step(Step(b, m1).book, m2).book, m3);
            && (r.Returned? ==> Run(b, [m1, m2, m3]).Returned? && Run(b, [m1, m2, m3]).book == r.book)
  {
    hide Step;
    RunTwo(Step(b, m1).book, m2, m3);
    RunFirst(b, m1, [m2, m3]);
    assert [m1] + [m2, m3] == [m1, m2, m3];
  }

  // ---------- The loop that does not come back ----------

  lemma TradeOnEmpty(q: Quantity, p: Price)
    requires q > 0
    ensures ProcessTrade(EmptyBook, Trade(q, p)).0
         == Book(Side(false, [], [Row(p, q)], map[], []), Side(true, [], [Row(p, q)], map[], []))
  {
    hide ApplyTrade;
    UnmatchedTrade(EmptyBook.bids, Trade(q, p));
    UnmatchedTrade(EmptyBook.asks, Trade(q, p));
  }

  // A trade, say of 10 at 100, and then a bid for more at a higher price, say for 20 at 101:
  // the handler of the bid never returns.
  lemma TradeThenBidHangs(t: Quantity, p: Price, id: OrderId, q: Quantity, price: Price)
    requires 0 < t < q && p < price
    ensures Run(EmptyBook, [TradeMsg(Trade(t, p)), AddMsg(false, id, q, price)]) == Hangs
  {
    hide ProcessTrade, AddTo;
    var b := ProcessTrade(EmptyBook, Trade(t, p)).0;
    TradeOnEmpty(t, p);
    AddStalls(AsWritten, b.bids, b.asks, id, q, price);
    RunTwo(EmptyBook, TradeMsg(Trade(t, p)), AddMsg(false, id, q, price));
  }

  // ---------- An ask of a at p, and a bid that meets it ----------

  function Ask(a: Quantity, p: Price): OrderV { OrderV(1, a, 0, p) }

  function AskRests(a: Quantity, p: Price): Book {
    Book(Side(false, [], [], map[], []), Side(true, [Ask(a, p)], [], map[], []))
  }

  lemma FirstAsk(a: Quantity, p: Price)
    requires a > 0
    ensures Step(EmptyBook, AddMsg(true, 1, a, p)).Returned?
    ensures Step(EmptyBook, AddMsg(true, 1, a, p)).book == AskRests(a, p)
  {
    hide ProcessAdd;
    AddRests(EmptyBook, true, 1, a, p);
  }

  function BidMeets(a: Quantity, p: Price, q: Quantity, price: Price): Book {
    Book(Rested(AskRests(a, p).bids, 2, q, price, Ask(a, p)), Hit(AskRests(a, p).asks, q, Ask(a, p)))
  }

  lemma ThenBid(a: Quantity, p: Price, q: Quantity, price: Price)
    requires a > 0 && q > 0 && price >= p
    ensures Step(AskRests(a, p), AddMsg(false, 2, q, price)).Returned?
    ensures Step(AskRests(a, p), AddMsg(false, 2, q, price)).book == BidMeets(a, p, q, price)
  {
    hide AddTo, Rested, Hit;
    CrossesOne(AskRests(a, p).bids, AskRests(a, p).asks, Ask(a, p), 2, q, price);
  }

  lemma OneOrderOwed(o: OrderV, p: Price, q: Quantity, snaps: seq<seq<Row>>)
    requires o.Rem() > 0 && q > 0
    ensures Wf(Side(false, [o], [], map[p := q], snaps))
    ensures Wf(Side(true, [], [], map[p := q], []))
  {
    OneOrder(false, o, snaps);
  }

  lemma OweFirst(p: Price, q: Quantity)
    ensures Owe(map[], p, q) == map[p := q]
  {
  }

  lemma BidRests(a: Quantity, p: Price, q: Quantity, price: Price)
    requires 0 < a < q
    ensures BidMeets(a, p, q, price).bids == Side(false, [OrderV(2, q, a, price)], [], map[p := a], [])
    ensures Wf(BidMeets(a, p, q, price).bids)
  {
    hide Wf, Owe, Hit;
    OneOrderOwed(OrderV(2, q, a, price), p, a, []);
    OweFirst(p, a);
  }

  // A bid for more than the ask at a higher price, say for 20 at 101 where 10 are asked at 100,
  // takes the ask and rests with what is left; its own trade then cancels that.
  lemma TradeCancelsItsBid(a: Quantity, p: Price, q: Quantity, price: Price)
    requires 0 < a < q && p < price
    ensures var r := Run(EmptyBook, [AddMsg(true, 1, a, p), AddMsg(false, 2, q, price)]);
            r.Returned? && r.book.bids.book == [OrderV(2, q, a, price)]
    ensures var r := Run(EmptyBook, [AddMsg(true, 1, a, p), AddMsg(false, 2, q, price), TradeMsg(Trade(a, p))]);
            r.Returned? && price !in PriceSet(r.book.bids.book)
  {
    hide ApplyTrade, TradeEvents, ProcessAdd, PriceSet, Run, Wf, BidMeets;
    var b := BidMeets(a, p, q, price);
    FirstAsk(a, p);
    ThenBid(a, p, q, price);
    BidRests(a, p, q, price);
    TradeCancels(b.bids, Trade(a, p), price);
    RunTwo(EmptyBook, AddMsg(true, 1, a, p), AddMsg(false, 2, q, price));
    RunThree(EmptyBook, AddMsg(true, 1, a, p), AddMsg(false, 2, q, price), TradeMsg(Trade(a, p)));
  }

  // ---------- A bid and its trade, the one first or the other ----------

  lemma BidFilled(a: Quantity, p: Price, price: Price)
    requires a > 0
    ensures BidMeets(a, p, a, price).bids == Side(false, [], [], map[p := a], [])
  {
    hide Owe, Hit;
    OweFirst(p, a);
  }

  // A trade that the side owes in full leaves what it expects.
  lemma OwedTrade(a: Quantity, p: Price)
    requires a > 0
    ensures ApplyTrade(Side(false, [], [], map[p := a], []), Trade(a, p)).pendingAdd == []
  {
    hide ApplyTrade, TradeEvents;
    TradeAbsorbed(Side(false, [], [], map[p := a], []), Trade(a, p));
  }

  lemma ThenTrade(a: Quantity, p: Price)
    requires a > 0
    ensures Step(AskRests(a, p), TradeMsg(Trade(a, p))).book.bids == Side(false, [], [Row(p, a)], map[], [])
    ensures Step(AskRests(a, p), TradeMsg(Trade(a, p))).book.asks.isSell
  {
    hide ApplyTrade, TradeEvents;
    UnmatchedTrade(AskRests(a, p).bids, Trade(a, p));
    OpenTrade(AskRests(a, p).asks, Trade(a, p));
  }

  // An order to which exactly what is expected at a worse price is due leaves an entry of zero.
  lemma ZeroStays(own: Side, opp: Side, id: OrderId, q: Quantity, p: Price, price: Price)
    requires own.pendingAdd == [Row(p, q)] && q > 0 && Better(own.isSell, price, p)
    ensures AddTo(AsWritten, own, opp, id, q, price) == Added(own.(pendingAdd := [Row(p, 0)]), opp, [])
  {
    assert [Row(p, q)][1..] == [];
  }

  // An ask, a bid that takes it at a better limit, say 10 asked at 100 and bid for at 101, and
  // their trade. If the bid comes first, nothing is expected in the end; if the trade comes
  // first, an entry of zero stays for good.
  lemma BidAndTradeDiffer(a: Quantity, p: Price, price: Price)
    requires a > 0 && p < price
    ensures var r := Run(EmptyBook, [AddMsg(true, 1, a, p), AddMsg(false, 2, a, price), TradeMsg(Trade(a, p))]);
            r.Returned? && r.book.bids.pendingAdd == []
    ensures var r := Run(EmptyBook, [AddMsg(true, 1, a, p), TradeMsg(Trade(a, p)), AddMsg(false, 2, a, price)]);
            r.Returned? && r.book.bids.pendingAdd == [Row(p, 0)]
  {
    hide ApplyTrade, TradeEvents, AddTo, Run, BidMeets, AskRests;
    FirstAsk(a, p);
    ThenBid(a, p, a, price);
    BidFilled(a, p, price);
    OwedTrade(a, p);
    RunThree(EmptyBook, AddMsg(true, 1, a, p), AddMsg(false, 2, a, price), TradeMsg(Trade(a, p)));
    ThenTrade(a, p);
    var b := Step(AskRests(a, p), TradeMsg(Trade(a, p))).book;
    ZeroStays(b.bids, b.asks, 2, a, p, price);
    RunThree(EmptyBook, AddMsg(true, 1, a, p), TradeMsg(Trade(a, p)), AddMsg(false, 2, a, price));
  }

  // ---------- A drained level ----------

  lemma AsksDrained(a: Quantity, p: Price)
    requires a > 0
    ensures var asks := BidMeets(a, p, a, p).asks;
            asks.isSell && asks.book == [] && asks.snapQueue == [[Row(p, 0)]]
  {
    hide Owe, Rested;
  }

  lemma ZeroRow(isSell: bool, p: Price)
    ensures !AllValid(isSell, [[Row(p, 0)]])
  {
    assert [Row(p, 0)] in [[Row(p, 0)]] && Row(p, 0) in [Row(p, 0)];
  }

  // A bid that takes the whole ask: the asks follow no snapshot ever again, and the next one
  // that shows an ask leaves the side empty.
  lemma AsksStopFollowing(a: Quantity, p: Price, row: Row)
    requires a > 0 && row.quantity > 0
    ensures var r := Run(EmptyBook, [AddMsg(true, 1, a, p), AddMsg(false, 2, a, p)]);
            r.Returned? && !CanFollow(r.book.asks)
    ensures var r := Run(EmptyBook, [AddMsg(true, 1, a, p), AddMsg(false, 2, a, p), SnapshotMsg([], [row])]);
            r.Returned? && r.book.asks.book == []
  {
    hide ProcessAdd, Run, BidMeets, CanFollow, AllValid, SnapshotEvents, Resync;
    FirstAsk(a, p);
    ThenBid(a, p, a, p);
    AsksDrained(a, p);
    ZeroRow(true, p);
    FollowsAgainExactly(BidMeets(a, p, a, p).asks);
    assert [Row(p, 0)][0] != [row][0];
    RunTwo(EmptyBook, AddMsg(true, 1, a, p), AddMsg(false, 2, a, p));
    RunThree(EmptyBook, AddMsg(true, 1, a, p), AddMsg(false, 2, a, p), SnapshotMsg([], [row]));
  }

  // ---------- A snapshot that one side follows ----------

  function Bid(a: Quantity, p: Price): OrderV { OrderV(1, a, 0, p) }

  function BidRestsFirst(a: Quantity, p: Price): Book {
    Book(Side(false, [Bid(a, p)], [], map[], []), Side(true, [], [], map[], []))
  }

  function AskMeets(a: Quantity, p: Price, q: Quantity): Book {
    Book(Hit(BidRestsFirst(a, p).bids, q, Bid(a, p)), Rested(BidRestsFirst(a, p).asks, 2, q, p, Bid(a, p)))
  }

  lemma BidThenAsk(a: Quantity, p: Price, q: Quantity)
    requires a > 0 && q > 0
    ensures Step(EmptyBook, AddMsg(false, 1, a, p)).Returned?
    ensures Step(EmptyBook, AddMsg(false, 1, a, p)).book == BidRestsFirst(a, p)
    ensures Step(BidRestsFirst(a, p), AddMsg(true, 2, q, p)).Returned?
    ensures Step(BidRestsFirst(a, p), AddMsg(true, 2, q, p)).book == AskMeets(a, p, q)
  {
    hide AddTo, Rested, Hit;
    AddRests(EmptyBook, false, 1, a, p);
    CrossesOne(BidRestsFirst(a, p).asks, BidRestsFirst(a, p).bids, Bid(a, p), 2, q, p);
  }

  lemma HitInPart(own: Side, opp: Side, o: OrderV, id: OrderId, q: Quantity, price: Price)
    requires own == Side(own.isSell, [], [], map[], []) && opp == Side(opp.isSell, [o], [], map[], []) && 0 < q < o.Rem()
    ensures Hit(opp, q, o) == Side(opp.isSell, [o.Take(q)], [], map[o.price := q], [[Row(o.price, o.Rem() - q)]])
    ensures Rested(own, id, q, price, o) == Side(own.isSell, [], [], map[o.price := q], [])
  {
    hide Owe;
    OweFirst(o.price, q);
  }

  lemma AskMet(a: Quantity, p: Price, q: Quantity)
    requires 0 < q < a
    ensures AskMeets(a, p, q).bids == Side(false, [OrderV(1, a, q, p)], [], map[p := q], [[Row(p, a - q)]])
    ensures AskMeets(a, p, q).asks == Side(true, [], [], map[p := q], [])
    ensures WfBook(AskMeets(a, p, q))
  {
    hide Hit, Rested, Wf;
    HitInPart(BidRestsFirst(a, p).asks, BidRestsFirst(a, p).bids, Bid(a, p), 2, q, p);
    OneOrderOwed(OrderV(1, a, q, p), p, q, [[Row(p, a - q)]]);
  }

  lemma NothingResting(rows: seq<Row>)
    ensures FreshIds([], rows)
  {
  }

  // A bid and an ask that meets it in part leave a view queued on the bids alone. An uncrossed
  // snapshot then puts an ask below the standing bid: say a bid of 10 at 100, an ask of 5, and
  // the snapshot of 5 at 98 and 5 at 99.
  lemma SnapshotCrosses(a: Quantity, p: Price, q: Quantity, bidRow: Row, askRow: Row)
    requires 0 < q < a && bidRow.price < askRow.price < p && bidRow.quantity > 0 && askRow.quantity > 0
    ensures var r := Run(EmptyBook, [AddMsg(false, 1, a, p), AddMsg(true, 2, q, p), SnapshotMsg([bidRow], [askRow])]);
            r.Returned? && !Uncrossed(r.book)
  {
    hide ProcessAdd, Run, AskMeets, ApplySnapshot, SnapshotEvents, WfBook, Uncrossed, PriceSet, KeySet, Blocked, TotalAt,
         FreshIds, ValidRows;
    var b := AskMeets(a, p, q);
    BidThenAsk(a, p, q);
    AskMet(a, p, q);
    OneOrder(false, OrderV(1, a, q, p), []);
    OneRow(false, bidRow);
    OneRow(true, askRow);
    NothingResting([askRow]);
    FreshShown(b.asks, [askRow], askRow.price);
    SnapshotUncrossedExactly(b, [bidRow], [askRow]);
    assert p in Shown(b.bids, [bidRow]) && askRow.price in Shown(b.asks, [askRow]);
    RunThree(EmptyBook, AddMsg(false, 1, a, p), AddMsg(true, 2, q, p), SnapshotMsg([bidRow], [askRow]));
  }

  // ---------- A snapshot whose id is taken ----------

  function TakenId(q: Quantity, p: Price): OrderV { OrderV(FIRST_FAKE_ID, q, 0, p) }

  lemma NewRow(q: Quantity, p: Price, row: Row)
    requires q > 0 && row.quantity > 0 && row.price > p
    ensures ValidRows(false, [row, Row(p, q)]) && !FreshIds([TakenId(q, p)], [row, Row(p, q)])
  {
    var b, rows := [TakenId(q, p)], [row, Row(p, q)];
    assert rows[1..] == [Row(p, q)] && rows[1..][1..] == [];
    assert SortedRows(false, rows[1..]);
    assert b[1..] == [] && AtPrice(b, row.price) == [];
    assert TotalAt(b, row.price) == 0;
    assert Rises(b, rows) >= 1 && Has(b, FIRST_FAKE_ID);
    assert !FreeFrom(b, rows, FIRST_FAKE_ID);
  }

  // While an order with the id 100 rests, a snapshot that adds a better level is not shown.
  lemma SnapshotNotShown(q: Quantity, p: Price, row: Row)
    requires q > 0 && row.quantity > 0 && row.price > p
    ensures var r := Run(EmptyBook, [AddMsg(false, FIRST_FAKE_ID, q, p), SnapshotMsg([row, Row(p, q)], [])]);
            r.Returned? && L2View(r.book.bids.book) != [row, Row(p, q)]
  {
    hide ProcessAdd, Run, ApplySnapshot, SnapshotEvents, FreshIds, ValidRows, L2View;
    AddRests(EmptyBook, false, FIRST_FAKE_ID, q, p);
    OneOrder(false, TakenId(q, p), []);
    NewRow(q, p, row);
    ResyncExact(Side(false, [TakenId(q, p)], [], map[], []), [row, Row(p, q)]);
    RunTwo(EmptyBook, AddMsg(false, FIRST_FAKE_ID, q, p), SnapshotMsg([row, Row(p, q)], []));
  }

  // ---------- A modification that is lost ----------

  lemma BookRests(a: Quantity, p: Price, q: Quantity)
    requires 0 < a < q
    ensures var b := BidMeets(a, p, q, p);
            && WfBook(b) && b.bids.book == [OrderV(2, q, a, p)] && b.asks.book == []
            && b.bids.pendingAdd == [] && b.bids.pendingRemove == map[p := a]
  {
    hide Owe;
    BidRests(a, p, q, p);
    OweFirst(p, a);
    assert BidMeets(a, p, q, p).asks == Side(true, [], [], map[p := a], [[Row(p, 0)]]);
  }

  // An order whose id is taken does not come to rest.
  lemma TakenDoesNotRest(own: Side, opp: Side, id: OrderId, q: Quantity, price: Price)
    requires own.pendingAdd == [] && opp.book == [] && q > 0 && Has(own.book, id)
    ensures var r := AddTo(AsWritten, own, opp, id, q, price); r.Added? && r.own.book == own.book
  {
    hide MatchAdd, Sweep, Cross, OweAll, Has, ExecEvents;
    MatchNothing(AsWritten, own.isSell, q, price);
    CrossNothing(opp, q, price);
  }

  lemma CancelLeaves(b: Book, id: OrderId, q: Quantity, price: Price)
    ensures var b1 := ProcessCancel(b, false, id, q, price).0;
            b1.asks == b.asks && b1.bids.pendingAdd == b.bids.pendingAdd
  {
  }

  // A bid that was filled in part rests with no more than its own trade, which is still owed at
  // its price: say a bid for 20 that has met 10. Changing its quantity is answered with MODIF,
  // and the order stays as it was.
  lemma ModificationLost(a: Quantity, p: Price, q: Quantity, changed: Quantity)
    requires 0 < a < q <= 2 * a && changed > 0
    ensures var r := Run(EmptyBook, [AddMsg(true, 1, a, p), AddMsg(false, 2, q, p)]);
            r.Returned? && r.book.bids.book == [OrderV(2, q, a, p)]
    ensures var r := Run(EmptyBook, [AddMsg(true, 1, a, p), AddMsg(false, 2, q, p), ModifyMsg(false, 2, changed, p)]);
            r.Returned? && r.book.bids.book == [OrderV(2, q, a, p)]
  {
    hide ProcessCancel, AddTo, Run, BidMeets, WfBook;
    var b := BidMeets(a, p, q, p);
    FirstAsk(a, p);
    ThenBid(a, p, q, p);
    BookRests(a, p, q);
    ModifyReplacesExactly(b, false, 2, changed, p);
    var b1 := ProcessCancel(b, false, 2, Lookup(b, 2).Rem(), p).0;
    CancelLeaves(b, 2, Lookup(b, 2).Rem(), p);
    TakenDoesNotRest(b1.bids, b1.asks, 2, changed, p);
    RunTwo(EmptyBook, AddMsg(true, 1, a, p), AddMsg(false, 2, q, p));
    RunThree(EmptyBook, AddMsg(true, 1, a, p), AddMsg(false, 2, q, p), ModifyMsg(false, 2, changed, p));
  }
}
