// An order that is filled in part and rests, and then its own trades
// (src/order_book.cpp:15-31, src/book_side.cpp:123-140).
module PartialFills {
  import opened Common
  import opened SideModel
  import opened ListLemmas
  import opened Matching
  import opened BookModel
  import opened Invariants
  import opened Greedy
  import opened Reconciliation

  // A trade at a worse price cancels what rests at p, and no later trade brings it back.
  lemma {:induction false} TradesCancel(s: Side, ts: seq<Trade>, p: Price)
    requires Wf(s) && (forall t :: t in ts ==> t.quantity >= 0)
    requires p !in PriceSet(s.book) || exists t :: t in ts && Better(s.isSell, p, t.price)
    ensures p !in PriceSet(FeedSide(s, ts).book)
    decreases |ts|
  {
    if ts != [] {
      hide Wf, PriceSet, ApplyTrade, Better;
      TradeKeeps(s, ts[0]);
      TradeCancels(s, ts[0], p);
      if Better(s.isSell, p, ts[0].price) || p !in PriceSet(s.book) {
        TradesCancel(ApplyTrade(s, ts[0]), ts[1..], p);
      } else {
        var t :| t in ts && Better(s.isSell, p, t.price);
        assert t in ts[1..];
        TradesCancel(ApplyTrade(s, ts[0]), ts[1..], p);
      }
    }
  }

  lemma TradeCancels(s: Side, t: Trade, p: Price)
    requires Wf(s) && t.quantity >= 0
    ensures Better(s.isSell, p, t.price) ==> p !in PriceSet(ApplyTrade(s, t).book)
  {
    hide ApplyTrade, AtPrice, Wf;
    TradeSplits(s, t);
    InAtPrice(ApplyTrade(s, t).book, p);
  }

  // The sides of the book once an order with a new id has been filled in part and rests.
  lemma RestedSides(e: Erase, own: Side, opp: Side, id: OrderId, q: Quantity, price: Price)
    requires AddTo(e, own, opp, id, q, price).Added? && !Has(own.book, id) && q >= 0
    requires var open := q - MatchAdd(e, own.isSell, own.pendingAdd, q, price).matched;
             Sweep(opp.isSell, opp.book, open, price).left > 0
    ensures var open := q - MatchAdd(e, own.isSell, own.pendingAdd, q, price).matched;
            var r := AddTo(e, own, opp, id, q, price);
            && open > 0
            && r.opp == Cross(opp, open, price)
            && r.own.isSell == own.isSell
            && r.own.pendingRemove == OweAll(own.pendingRemove, FillsOf(opp, open, price))
            && PriceSet(r.own.book) == PriceSet(own.book) + {price}
  {
    hide Sweep, MatchAdd, OweAll, PriceSet, Cross, ExecEvents, Insert;
    AddToSides(e, own, opp, id, q, price);
    var m := MatchAdd(e, own.isSell, own.pendingAdd, q, price);
    var open := q - m.matched;
    if open <= 0 { CrossNothing(opp, open, price); }
    var left := Sweep(opp.isSell, opp.book, open, price).left;
    InsertPrices(own.isSell, own.book, OrderV(id, q, q - left, price));
  }

  lemma InsertPrices(isSell: bool, b: seq<OrderV>, o: OrderV)
    ensures PriceSet(Insert(isSell, b, o)) == PriceSet(b) + {o.price}
  {
    InsertSorted(isSell, b, o);
    assert o in Insert(isSell, b, o);
  }

  // All fills at the limit, or the first one at a better price.
  lemma FillsAtLimit(opp: Side, q: Quantity, price: Price)
    requires Wf(opp)
    ensures var fills := FillsOf(opp, q, price);
            && (fills != [] ==> opp.book != [] && fills[0].price == opp.book[0].price)
            && (fills != [] && opp.book[0].price == price ==> forall f :: f in fills ==> f.price == price)
            && (fills != [] && opp.book[0].price != price ==> Better(opp.isSell, opp.book[0].price, price))
  {
    FillPrices(opp.isSell, opp.book, q, price);
    var fills := FillsOf(opp, q, price);
    if fills != [] {
      SortedFront(opp.isSell, opp.book);
      assert fills[0] in fills;
    }
  }

  // The trades of an order leave levels, expectations and queued views alone, report
  // nothing, and restore both debts.
  ghost predicate Restores(b: Book, b1: Book, ts: seq<Trade>) {
    && FeedTrades(b1, ts) == Book(b1.bids.(pendingRemove := b.bids.pendingRemove),
                                  b1.asks.(pendingRemove := b.asks.pendingRemove))
    && FeedEvents(b1, ts) == []
  }

  lemma FirstTrade(fills: seq<Fill>, ts: seq<Trade>) returns (t: Trade)
    requires multiset(ts) == multiset(TradesOf(fills)) && fills != []
    ensures t in ts && t.price == fills[0].price
  {
    t := TradesOf(fills)[0];
    assert t in multiset(TradesOf(fills));
  }

  // An order with a new id that rests after some fills: its own trades, in any order, leave
  // it resting if and only if it did not cross or the best opposite price, hence every fill,
  // is at its limit. Otherwise the first trade at a better price cancels what rests of it.
  lemma {:induction false} PartialFillExactly(e: Erase, b: Book, isSell: bool, id: OrderId, q: Quantity, price: Price,
                                              ts: seq<Trade>)
    requires WfBook(b) && Uncrossed(b) && q >= 0 && !Has(b.Get(isSell).book, id)
    requires ProcessAdd(e, b, isSell, id, q, price).Returned?
    requires var own, opp := b.Get(isSell), b.Get(!isSell);
             var open := q - MatchAdd(e, own.isSell, own.pendingAdd, q, price).matched;
             && Sweep(opp.isSell, opp.book, open, price).left > 0
             && multiset(ts) == multiset(TradesOf(FillsOf(opp, open, price)))
    ensures var opp := b.Get(!isSell);
            var b1 := ProcessAdd(e, b, isSell, id, q, price).book;
            && price in PriceSet(b1.Get(isSell).book)
            && (Restores(b, b1, ts) <==> (!Crossed(opp, price) || opp.book[0].price == price))
            && (Crossed(opp, price) && opp.book[0].price != price
                ==> price !in PriceSet(FeedTrades(b1, ts).Get(isSell).book))
  {
    hide Wf, PriceSet, Uncrossed, Apart, NothingBetter, AddTo, Sweep, MatchAdd, OweAll, TradeTotalAt, FillTotalAt;
    hide TradesOf, ApplyTrade, Cross, FeedSide, FeedTrades, FeedEvents, Quiet, Better, NoWorse, Has;
    var own, opp := b.Get(isSell), b.Get(!isSell);
    var b1 := ProcessAdd(e, b, isSell, id, q, price).book;
    AddToSides(e, own, opp, id, q, price);
    var open := q - MatchAdd(e, own.isSell, own.pendingAdd, q, price).matched;
    var fills := FillsOf(opp, open, price);
    WfSides(b, isSell);
    RestedSides(e, own, opp, id, q, price);
    AddKeeps(e, b, isSell, id, q, price);
    WfSides(b1, isSell);
    ApartUncrossed(b, isSell);
    TradesFit(own, opp, open, price, ts);
    FillsAtLimit(opp, open, price);
    CrossedFills(opp, open, price);
    SidesOwe(own, opp, open, price);
    FeedSides(b1, ts);
    if fills == [] || opp.book[0].price == price {
      StillNothingBetter(own, b1.Get(isSell), fills, ts, price);
      FeedRestores(b1.Get(isSell), own.pendingRemove, fills, ts);
      FeedRestores(b1.Get(!isSell), opp.pendingRemove, fills, ts);
    } else {
      var t := FirstTrade(fills, ts);
      OtherSide(opp.isSell, t.price, price);
      TradesCancel(b1.Get(isSell), ts, price);
    }
  }

  lemma CrossedFills(opp: Side, q: Quantity, price: Price)
    requires q > 0
    ensures Crossed(opp, price) <==> FillsOf(opp, q, price) != []
  {
  }

  lemma OtherSide(isSell: bool, p: Price, x: Price)
    ensures Better(isSell, p, x) <==> Better(!isSell, x, p)
  {
  }

  // A remainder at the price of all the trades is not better than any of them.
  lemma StillNothingBetter(own: Side, own1: Side, fills: seq<Fill>, ts: seq<Trade>, price: Price)
    requires own1.isSell == own.isSell && PriceSet(own1.book) == PriceSet(own.book) + {price}
    requires multiset(ts) == multiset(TradesOf(fills)) && forall f :: f in fills ==> f.price == price
    requires forall t :: t in ts ==> NothingBetter(own, t.price)
    ensures forall t :: t in ts ==> NothingBetter(own1, t.price)
  {
    hide PriceSet, TradesOf;
    TradesFrom(fills);
    forall t | t in ts ensures NothingBetter(own1, t.price) {
      assert t in multiset(ts) && t in TradesOf(fills);
    }
  }
}
