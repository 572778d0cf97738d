// The feeds may arrive in different orders; the book ends up the same (README.md:64-142).
module Reconciliation {
  import opened Common
  import opened SideModel
  import opened Matching
  import opened BookModel
  import opened Invariants
  import opened Greedy
  import opened Determined

  // ---------- Feeding trades ----------

  function TradesOf(fills: seq<Fill>): seq<Trade> {
    if fills == [] then [] else [Trade(fills[0].quantity, fills[0].price)] + TradesOf(fills[1..])
  }

  function TradeTotalAt(ts: seq<Trade>, p: Price): Quantity {
    if ts == [] then 0
    else (if ts[0].price == p then ts[0].quantity else 0) + TradeTotalAt(ts[1..], p)
  }

  function FeedSide(s: Side, ts: seq<Trade>): Side
    decreases |ts|
  {
    if ts == [] then s else FeedSide(ApplyTrade(s, ts[0]), ts[1..])
  }

  function FeedTrades(b: Book, ts: seq<Trade>): Book
    decreases |ts|
  {
    if ts == [] then b else FeedTrades(ProcessTrade(b, ts[0]).0, ts[1..])
  }

  function FeedEvents(b: Book, ts: seq<Trade>): seq<OrderInfo>
    decreases |ts|
  {
    if ts == [] then [] else ProcessTrade(b, ts[0]).1 + FeedEvents(ProcessTrade(b, ts[0]).0, ts[1..])
  }

  // No trade of the feed makes the side report anything.
  ghost predicate Quiet(s: Side, ts: seq<Trade>)
    decreases |ts|
  {
    ts == [] || (TradeEvents(s, ts[0]) == [] && Quiet(ApplyTrade(s, ts[0]), ts[1..]))
  }

  lemma {:induction false} FeedSides(b: Book, ts: seq<Trade>)
    ensures FeedTrades(b, ts) == Book(FeedSide(b.bids, ts), FeedSide(b.asks, ts))
    ensures Quiet(b.bids, ts) && Quiet(b.asks, ts) ==> FeedEvents(b, ts) == []
    decreases |ts|
  {
    hide TradeEvents, ApplyTrade;
    if ts != [] { FeedSides(ProcessTrade(b, ts[0]).0, ts[1..]); }
  }

  lemma {:induction false} TradesTotal(fills: seq<Fill>, p: Price)
    ensures TradeTotalAt(TradesOf(fills), p) == FillTotalAt(fills, p)
  {
    if fills != [] {
      TradesTotal(fills[1..], p);
      assert TradesOf(fills)[1..] == TradesOf(fills[1..]);
    }
  }

  lemma {:induction false} TradeTotalSplit(a: seq<Trade>, t: Trade, b: seq<Trade>, p: Price)
    ensures TradeTotalAt(a + [t] + b, p) == TradeTotalAt([t] + (a + b), p)
  {
    assert ([t] + (a + b))[1..] == a + b;
    if a == [] {
      assert a + [t] + b == [t] + (a + b);
    } else {
      assert (a + [t] + b)[1..] == a[1..] + [t] + b;
      TradeTotalSplit(a[1..], t, b, p);
      assert ([t] + (a[1..] + b))[1..] == a[1..] + b;
      assert (a + b)[1..] == a[1..] + b;
    }
  }

  lemma TradeTotalFirst(ts: seq<Trade>, p: Price)
    requires ts != []
    ensures TradeTotalAt(ts, p) == (if ts[0].price == p then ts[0].quantity else 0) + TradeTotalAt(ts[1..], p)
  {
  }

  // The total at a price does not depend on the order of the trades.
  lemma {:induction false} TradeTotalShuffle(ts: seq<Trade>, us: seq<Trade>, p: Price)
    requires multiset(ts) == multiset(us)
    ensures TradeTotalAt(ts, p) == TradeTotalAt(us, p)
    decreases |ts|
  {
    assert |multiset(ts)| == |ts| && |multiset(us)| == |us|;
    if ts != [] {
      var a, b := WithoutFirst(ts, us);
      TradeTotalSplit(a, ts[0], b, p);
      TradeTotalFirst([ts[0]] + (a + b), p);
      assert ([ts[0]] + (a + b))[1..] == a + b;
      TradeTotalFirst(ts, p);
      hide TradeTotalAt;
      TradeTotalShuffle(ts[1..], a + b, p);
    }
  }

  lemma WithoutFirst(ts: seq<Trade>, us: seq<Trade>) returns (a: seq<Trade>, b: seq<Trade>)
    requires multiset(ts) == multiset(us) && ts != []
    ensures us == a + [ts[0]] + b && multiset(ts[1..]) == multiset(a + b) && |a + b| == |us| - 1
  {
    var t := ts[0];
    assert t in multiset(us);
    a, b := Cut(us, t);
    TakeOut(a, t, b);
    TakeOut([], t, ts[1..]);
    assert ts == [] + [t] + ts[1..] && [] + ts[1..] == ts[1..];
  }

  lemma Cut(us: seq<Trade>, t: Trade) returns (a: seq<Trade>, b: seq<Trade>)
    requires t in us
    ensures us == a + [t] + b && |a + b| == |us| - 1
  {
    var i :| 0 <= i < |us| && us[i] == t;
    a, b := us[..i], us[i + 1..];
  }

  lemma TakeOut(a: seq<Trade>, t: Trade, b: seq<Trade>)
    ensures multiset(a + b) == multiset(a + [t] + b) - multiset{t}
  {
  }

  // ---------- Trades that were already accounted for ----------

  // Nothing rests at a better price than p.
  ghost predicate NothingBetter(s: Side, p: Price) {
    forall x :: x in PriceSet(s.book) ==> NoWorse(s.isSell, p, x)
  }

  // A trade that is owed in full settles the debt and touches nothing else.
  lemma TradeAbsorbed(s: Side, t: Trade)
    requires Wf(s) && 0 <= t.quantity <= Get(s.pendingRemove, t.price) && NothingBetter(s, t.price)
    ensures ApplyTrade(s, t) == Settle(s, t.quantity, t.price) && TradeEvents(s, t) == []
  {
    hide *;
    OwedInFull(s, t);
    NothingToDrop(s, t);
    FillNothing(Settle(s, t.quantity, t.price), t.price);
    TradeOfNothing(s, t);
  }

  lemma OwedInFull(s: Side, t: Trade)
    requires Wf(s) && 0 <= t.quantity <= Get(s.pendingRemove, t.price)
    ensures TradeOpen(s, t) == 0
  {
    hide Sorted, SortedRows, UniqueIds, Live, NonNegative;
  }

  lemma NothingToDrop(s: Side, t: Trade)
    requires NothingBetter(s, t.price)
    ensures TradeFront(s, t) == Settle(s, t.quantity, t.price) && DropEvents(Settle(s, t.quantity, t.price), t.price) == []
  {
    hide L2View, RemoveLeft;
    if s.book != [] { assert s.book[0].price in PriceSet(s.book); }
    DropNothing(Settle(s, t.quantity, t.price), t.price);
  }

  lemma TradeOfNothing(s: Side, t: Trade)
    requires TradeOpen(s, t) == 0
    requires var s1 := Settle(s, t.quantity, t.price);
             && TradeFront(s, t) == s1 && DropEvents(s1, t.price) == []
             && FillAt(s1, 0, t.price) == s1 && Expect(s1, 0, t.price) == s1
    ensures ApplyTrade(s, t) == Settle(s, t.quantity, t.price) && TradeEvents(s, t) == []
  {
    hide TradeOpen, TradeFront, Settle, FillAt, DropEvents, Expect;
  }

  lemma FillNothing(s: Side, p: Price)
    ensures FillAt(s, 0, p) == s && Expect(s, 0, p) == s
    ensures Sweep(s.isSell, s.book, 0, p) == Swept([], s.book, 0)
  {
    assert s.snapQueue + [] + [] == s.snapQueue;
  }

  // Trades that are owed in full can come in any order.
  lemma {:induction false} TradesAbsorbed(s: Side, ts: seq<Trade>)
    requires Wf(s)
    requires forall t :: t in ts ==> t.quantity >= 0 && NothingBetter(s, t.price)
    requires forall p :: TradeTotalAt(ts, p) <= Get(s.pendingRemove, p)
    ensures var s' := FeedSide(s, ts);
            && s' == s.(pendingRemove := s'.pendingRemove)
            && Quiet(s, ts)
            && Canonical(s'.pendingRemove)
            && forall p :: Get(s'.pendingRemove, p) == Get(s.pendingRemove, p) - TradeTotalAt(ts, p)
    decreases |ts|
  {
    hide Wf, NothingBetter, Settle, ApplyTrade, TradeEvents, Canonical, Get, RemoveLeft;
    if ts == [] {
      CanonicalDebts(s);
    } else {
      var t := ts[0];
      assert t in ts;
      TradeTotalPositive(ts[1..], t.price);
      assert TradeTotalAt(ts, t.price) <= Get(s.pendingRemove, t.price);
      TradeAbsorbed(s, t);
      SettleKeeps(s, t.quantity, t.price);
      SettleIs(s, t.quantity, t.price);
      var s1 := Settle(s, t.quantity, t.price);
      forall p ensures TradeTotalAt(ts[1..], p) <= Get(s1.pendingRemove, p) {
        assert TradeTotalAt(ts, p) <= Get(s.pendingRemove, p);
      }
      forall u | u in ts[1..] ensures NothingBetter(s1, u.price) {
        SameBook(s, s1, u.price);
      }
      TradesAbsorbed(s1, ts[1..]);
    }
  }

  lemma CanonicalDebts(s: Side)
    requires Wf(s)
    ensures Canonical(s.pendingRemove)
  {
  }

  lemma SameBook(s: Side, s1: Side, p: Price)
    requires s1.book == s.book && s1.isSell == s.isSell
    ensures NothingBetter(s, p) <==> NothingBetter(s1, p)
  {
  }

  lemma SettleIs(s: Side, q: Quantity, p: Price)
    requires Wf(s) && 0 <= q <= Get(s.pendingRemove, p)
    ensures Settle(s, q, p) == s.(pendingRemove := Settle(s, q, p).pendingRemove)
    ensures forall x :: Get(Settle(s, q, p).pendingRemove, x) == Get(s.pendingRemove, x) - if x == p then q else 0
  {
    hide Sorted, UniqueIds, Live, SortedRows, NonNegative;
    forall x ensures Get(Settle(s, q, p).pendingRemove, x) == Get(s.pendingRemove, x) - if x == p then q else 0 {
      SettleGet(s.pendingRemove, q, p, x);
    }
  }

  lemma {:induction false} TradeTotalPositive(ts: seq<Trade>, p: Price)
    requires forall t :: t in ts ==> t.quantity >= 0
    ensures TradeTotalAt(ts, p) >= 0
  {
    if ts != [] {
      assert ts[0] in ts;
      TradeTotalPositive(ts[1..], p);
    }
  }

  // ---------- Order leads trades ----------

  // Fills happen at prices that nothing left on the side beats, and that the limit allows.
  lemma {:induction false} FillPrices(isSell: bool, b: seq<OrderV>, q: Quantity, limit: Price)
    requires Sorted(isSell, b) && Live(b)
    ensures var r := Sweep(isSell, b, q, limit);
            forall f :: f in r.fills ==>
              && f.quantity > 0 && f.price in PriceSet(b)
              && NoWorse(isSell, f.price, limit)
              && forall x :: x in PriceSet(r.rest) ==> NoWorse(isSell, f.price, x)
  {
    if q <= 0 || b == [] || !NoWorse(isSell, b[0].price, limit) {
    } else {
      assert b[0] in b && b[0].price in PriceSet(b);
      SortedFront(isSell, b);
      var r := Sweep(isSell, b, q, limit);
      SweepPrices(isSell, b, q, limit);
      forall x | x in PriceSet(r.rest) ensures NoWorse(isSell, b[0].price, x) {
        assert x in PriceSet(b);
      }
      if q >= b[0].Rem() {
        FillPrices(isSell, b[1..], q - b[0].Rem(), limit);
        var r1 := Sweep(isSell, b[1..], q - b[0].Rem(), limit);
        forall f | f in r1.fills ensures f.price in PriceSet(b) {
          assert f.price in PriceSet(b[1..]);
        }
      }
    }
  }

  lemma {:induction false} TradesFrom(fills: seq<Fill>)
    ensures forall t :: t in TradesOf(fills) ==> exists f :: f in fills && f.price == t.price && f.quantity == t.quantity
  {
    if fills != [] {
      TradesFrom(fills[1..]);
      var f0 := fills[0];
      forall t | t in TradesOf(fills) ensures exists f :: f in fills && f.price == t.price && f.quantity == t.quantity {
        if t == TradesOf(fills)[0] {
          assert f0 in fills && f0.price == t.price && f0.quantity == t.quantity;
        } else {
          assert t in TradesOf(fills[1..]);
          var f :| f in fills[1..] && f.price == t.price && f.quantity == t.quantity;
          assert f in fills;
        }
      }
    }
  }

  // The fills of an order for side own that found q unaccounted for.
  function FillsOf(opp: Side, q: Quantity, price: Price): seq<Fill> {
    Sweep(opp.isSell, opp.book, q, price).fills
  }

  // The trades of a crossing, as the two sides see them once the order has been processed.
  lemma TradesFit(own: Side, opp: Side, q: Quantity, price: Price, ts: seq<Trade>)
    requires Wf(own) && Wf(opp) && own.isSell != opp.isSell && Apart(own, opp)
    requires multiset(ts) == multiset(TradesOf(FillsOf(opp, q, price)))
    ensures forall t :: t in ts ==>
              t.quantity >= 0 && NothingBetter(own, t.price) && NothingBetter(Cross(opp, q, price), t.price)
    ensures forall p :: TradeTotalAt(ts, p) == FillTotalAt(FillsOf(opp, q, price), p)
  {
    var fills := FillsOf(opp, q, price);
    FillPrices(opp.isSell, opp.book, q, price);
    TradesFrom(fills);
    forall t | t in ts
      ensures t.quantity >= 0 && NothingBetter(own, t.price) && NothingBetter(Cross(opp, q, price), t.price)
    {
      assert t in multiset(ts);
      assert t in TradesOf(fills);
      var f :| f in fills && f.price == t.price && f.quantity == t.quantity;
      forall x | x in PriceSet(own.book) ensures NoWorse(own.isSell, t.price, x) {
        assert AllWorse(opp.isSell, opp.book, x);
        assert Better(opp.isSell, x, f.price);
      }
    }
    forall p ensures TradeTotalAt(ts, p) == FillTotalAt(fills, p) {
      TradeTotalShuffle(ts, TradesOf(fills), p);
      TradesTotal(fills, p);
    }
  }

  // Each side owes exactly the fills, so feeding their trades restores its debts.
  lemma FeedRestores(s: Side, m: map<Price, Quantity>, fills: seq<Fill>, ts: seq<Trade>)
    requires Wf(s) && Canonical(m) && s.pendingRemove == OweAll(m, fills)
    requires forall t :: t in ts ==> t.quantity >= 0 && NothingBetter(s, t.price)
    requires forall p :: TradeTotalAt(ts, p) == FillTotalAt(fills, p)
    ensures FeedSide(s, ts) == s.(pendingRemove := m) && Quiet(s, ts)
  {
    forall p ensures Get(s.pendingRemove, p) == Get(m, p) + TradeTotalAt(ts, p) && Get(m, p) >= 0 {
      OweGet(m, fills, p);
    }
    TradesAbsorbed(s, ts);
    SameDebts(FeedSide(s, ts).pendingRemove, m);
  }

  // An order that is fully filled leaves the sides owing its trades; delivered in any
  // order they change no level, no expectation and no snapshot, and clear the debts.
  lemma {:induction false} OrderLeadsTrades(e: Erase, b: Book, isSell: bool, id: OrderId, q: Quantity, price: Price, ts: seq<Trade>)
    requires WfBook(b) && Uncrossed(b) && q >= 0
    requires ProcessAdd(e, b, isSell, id, q, price).Returned?
    requires var own, opp := b.Get(isSell), b.Get(!isSell);
             var open := q - MatchAdd(e, own.isSell, own.pendingAdd, q, price).matched;
             && Sweep(opp.isSell, opp.book, open, price).left == 0
             && multiset(ts) == multiset(TradesOf(FillsOf(opp, open, price)))
    ensures var b1 := ProcessAdd(e, b, isSell, id, q, price).book;
            FeedTrades(b1, ts) == Book(b1.bids.(pendingRemove := b.bids.pendingRemove),
                                       b1.asks.(pendingRemove := b.asks.pendingRemove))
            && FeedEvents(b1, ts) == []
  {
    hide Wf, PriceSet, Uncrossed, Apart, NothingBetter, AddTo, Sweep, MatchAdd, OweAll, TradeTotalAt, FillTotalAt;
    hide TradesOf, ApplyTrade, Cross, OweSide, FeedSide, FeedTrades, FeedEvents, Quiet;
    var own, opp := b.Get(isSell), b.Get(!isSell);
    AddToSides(e, own, opp, id, q, price);
    var m := MatchAdd(e, own.isSell, own.pendingAdd, q, price);
    var open := q - m.matched;
    var fills := FillsOf(opp, open, price);
    var b1 := ProcessAdd(e, b, isSell, id, q, price).book;
    AddKeeps(e, b, isSell, id, q, price);
    ApartUncrossed(b, isSell);
    WfSides(b, isSell);
    WfSides(b1, isSell);
    TradesFit(own, opp, open, price, ts);
    FilledSides(own, opp, m.left, q, open, price);
    var own1 := OweSide(own.(pendingAdd := m.left), fills);
    assert b1.Get(isSell) == own1 && b1.Get(!isSell) == Cross(opp, open, price);
    SidesOwe(own.(pendingAdd := m.left), opp, open, price);
    SameBooks(own, own1, ts);
    FeedRestores(own1, own.pendingRemove, fills, ts);
    FeedRestores(Cross(opp, open, price), opp.pendingRemove, fills, ts);
    FeedSides(b1, ts);
  }

  lemma SidesOwe(own: Side, opp: Side, q: Quantity, price: Price)
    ensures var own1 := OweSide(own, FillsOf(opp, q, price));
            own1.book == own.book && own1.isSell == own.isSell
            && own1.pendingRemove == OweAll(own.pendingRemove, FillsOf(opp, q, price))
    ensures Cross(opp, q, price).pendingRemove == OweAll(opp.pendingRemove, FillsOf(opp, q, price))
  {
  }

  lemma WfSides(b: Book, isSell: bool)
    requires WfBook(b)
    ensures Wf(b.Get(isSell)) && Canonical(b.Get(isSell).pendingRemove)
    ensures Wf(b.Get(!isSell)) && Canonical(b.Get(!isSell).pendingRemove)
    ensures b.Get(isSell).isSell == isSell && b.Get(!isSell).isSell == !isSell
  {
  }

  // A fully filled order leaves both sides as a crossing does, even if that fills nothing.
  lemma FilledSides(own: Side, opp: Side, left: seq<Row>, q: Quantity, open: Quantity, price: Price)
    ensures open == 0 ==>
              Cross(opp, open, price) == opp && OweSide(own.(pendingAdd := left), FillsOf(opp, open, price)) == own.(pendingAdd := left)
  {
    CrossNothing(opp, 0, price);
  }

  lemma SameBooks(s: Side, s': Side, ts: seq<Trade>)
    requires s.book == s'.book && s.isSell == s'.isSell
    requires forall t :: t in ts ==> NothingBetter(s, t.price)
    ensures forall t :: t in ts ==> NothingBetter(s', t.price)
  {
  }
}
