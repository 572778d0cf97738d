// An aggressive order arriving anywhere among the trades it causes: the same book
// (src/order_book.cpp:15-56), exactly when the loop as written can drain what is expected.
module Interleaving {
  import opened Common
  import opened SideModel
  import opened PendingAddTheorems
  import opened BookModel
  import opened Invariants
  import opened Greedy
  import opened Reconciliation
  import opened Confluence

  // The first k trades, the order, and the other trades in some order.
  function Interleaved(e: Erase, b: Book, isSell: bool, id: OrderId, q: Quantity, price: Price,
                       k: nat, rest: seq<Trade>): Ran
    requires k <= |FillsOf(b.Get(!isSell), q, price)|
  {
    var b1 := FeedTrades(b, TradesOf(FillsOf(b.Get(!isSell), q, price)[..k]));
    var r := ProcessAdd(e, b1, isSell, id, q, price);
    if r.Hangs? then Hangs else Returned(FeedTrades(r.book, rest), r.events)
  }

  // ---------- A sweep in two parts ----------

  // Filling what the first k fills took, and then the rest, is filling all.
  ghost predicate SplitAt(isSell: bool, b: seq<OrderV>, q: Quantity, limit: Price, k: nat)
    requires k <= |Sweep(isSell, b, q, limit).fills|
  {
    var r := Sweep(isSell, b, q, limit);
    var part := FillTotal(r.fills[..k]);
    var r1 := Sweep(isSell, b, part, limit);
    && r1.fills == r.fills[..k] && r1.left == 0
    && Sweep(isSell, r1.rest, q - part, limit) == Swept(r.fills[k..], r.rest, r.left)
  }

  lemma {:induction false} SweepSplits(isSell: bool, b: seq<OrderV>, q: Quantity, limit: Price, k: nat)
    requires Live(b) && k <= |Sweep(isSell, b, q, limit).fills|
    ensures SplitAt(isSell, b, q, limit, k)
  {
    hide Sweep, SplitAt, Live, NoWorse;
    if k == 0 {
      SplitNowhere(isSell, b, q, limit);
    } else {
      Reached(isSell, b, q, limit);
      SweepFront(isSell, b, q, limit);
      if q < b[0].Rem() {
        SplitOne(isSell, b, q, limit);
      } else {
        SweepSplits(isSell, b[1..], q - b[0].Rem(), limit, k - 1);
        SplitNext(isSell, b, q, limit, k);
      }
    }
  }

  lemma SplitNowhere(isSell: bool, b: seq<OrderV>, q: Quantity, limit: Price)
    ensures SplitAt(isSell, b, q, limit, 0)
  {
    var r := Sweep(isSell, b, q, limit);
    assert r.fills[..0] == [] && r.fills[0..] == r.fills;
  }

  lemma SplitOne(isSell: bool, b: seq<OrderV>, q: Quantity, limit: Price)
    requires Sweep(isSell, b, q, limit).fills != [] && q < b[0].Rem()
    ensures |Sweep(isSell, b, q, limit).fills| == 1 && SplitAt(isSell, b, q, limit, 1)
  {
    var r := Sweep(isSell, b, q, limit);
    assert r.fills[..1] == r.fills && r.fills[1..] == [];
    assert FillTotal(r.fills) == r.fills[0].quantity + FillTotal(r.fills[1..]);
  }

  lemma SplitNext(isSell: bool, b: seq<OrderV>, q: Quantity, limit: Price, k: nat)
    requires Live(b) && b != [] && 0 < k <= |Sweep(isSell, b, q, limit).fills| && q >= b[0].Rem()
    requires k - 1 <= |Sweep(isSell, b[1..], q - b[0].Rem(), limit).fills|
    requires SplitAt(isSell, b[1..], q - b[0].Rem(), limit, k - 1)
    ensures SplitAt(isSell, b, q, limit, k)
  {
    hide Sweep, Live, NoWorse, FillTotal;
    var r, r' := Sweep(isSell, b, q, limit), Sweep(isSell, b[1..], q - b[0].Rem(), limit);
    Reached(isSell, b, q, limit);
    SweepFront(isSell, b, q, limit);
    var f := r.fills[0];
    var part' := FillTotal(r'.fills[..k - 1]);
    assert r.fills[..k] == [f] + r'.fills[..k - 1] && r.fills[k..] == r'.fills[k - 1..];
    FillTotalCons(f, r'.fills[..k - 1]);
    PartPositive(isSell, b[1..], q - b[0].Rem(), limit, k - 1);
    SweepFront(isSell, b, f.quantity + part', limit);
  }

  lemma FillTotalCons(f: Fill, fills: seq<Fill>)
    ensures FillTotal([f] + fills) == f.quantity + FillTotal(fills)
  {
    assert ([f] + fills)[1..] == fills;
  }

  lemma Reached(isSell: bool, b: seq<OrderV>, q: Quantity, limit: Price)
    requires Live(b) && Sweep(isSell, b, q, limit).fills != []
    ensures b != [] && NoWorse(isSell, b[0].price, limit) && q > 0 && b[0].Rem() > 0 && Live(b[1..])
  {
    assert b[0] in b;
  }

  lemma PartPositive(isSell: bool, b: seq<OrderV>, q: Quantity, limit: Price, k: nat)
    requires Live(b) && q >= 0 && k <= |Sweep(isSell, b, q, limit).fills|
    ensures var part := FillTotal(Sweep(isSell, b, q, limit).fills[..k]); part >= 0 && (k > 0 ==> part > 0)
  {
    SweepIsGreedy(isSell, b, q, limit);
    FillTotalPositive(Sweep(isSell, b, q, limit).fills[..k]);
  }

  lemma {:induction false} FillTotalAppend(x: seq<Fill>, y: seq<Fill>)
    ensures FillTotal(x + y) == FillTotal(x) + FillTotal(y)
  {
    if x == [] {
      assert x + y == y;
    } else {
      FillTotalAppend(x[1..], y);
      assert (x + y)[1..] == x[1..] + y;
    }
  }

  // The first k fills are all that is filled exactly when there are no others.
  lemma PartOfAll(isSell: bool, b: seq<OrderV>, q: Quantity, limit: Price, k: nat)
    requires Live(b) && q > 0 && Sweep(isSell, b, q, limit).left == 0 && k <= |Sweep(isSell, b, q, limit).fills|
    ensures var fills := Sweep(isSell, b, q, limit).fills;
            var part := FillTotal(fills[..k]);
            part <= q && (part == q <==> k == |fills|) && (k > 0 ==> part > 0)
  {
    hide Sweep, Live, InPriority, LeftOver;
    var fills := Sweep(isSell, b, q, limit).fills;
    SweepSum(isSell, b, q, limit);
    SweepIsGreedy(isSell, b, q, limit);
    PriorityFits(isSell, b, limit, fills);
    assert fills == fills[..k] + fills[k..];
    FillTotalAppend(fills[..k], fills[k..]);
    FillTotalPositive(fills[..k]);
    FillTotalPositive(fills[k..]);
  }

  // ---------- The state the order finds ----------

  lemma {:induction false} FeedKeeps(b: Book, ts: seq<Trade>)
    requires WfBook(b) && Uncrossed(b)
    ensures WfBook(FeedTrades(b, ts)) && Uncrossed(FeedTrades(b, ts))
    decreases |ts|
  {
    if ts != [] {
      hide WfBook, Uncrossed, ProcessTrade;
      TradeBookKeeps(b, ts[0]);
      FeedKeeps(ProcessTrade(b, ts[0]).0, ts[1..]);
    }
  }

  lemma LiveBook(s: Side)
    requires Wf(s)
    ensures Live(s.book)
  {
  }

  // After some of the trades, one side expects the order for as much as they filled, and the
  // other has the rest of the fills in front.
  lemma OrderMeets(b: Book, isSell: bool, q: Quantity, price: Price, k: nat)
    requires WfBook(b) && Uncrossed(b) && NothingPending(b) && q > 0
    requires Sweep(!isSell, b.Get(!isSell).book, q, price).left == 0
    requires 0 < k <= |FillsOf(b.Get(!isSell), q, price)|
    ensures b.Get(!isSell).book != []
    ensures var own, opp := b.Get(isSell), b.Get(!isSell);
            var all := Sweep(!isSell, opp.book, q, price);
            var part := FillTotal(all.fills[..k]);
            var m := CreditAll(isSell, [], all.fills[..k]);
            var b2 := FeedTrades(b, TradesOf(all.fills[..k]));
            && WfBook(b2) && Uncrossed(b2)
            && b2.Get(isSell) == own.(pendingAdd := m)
            && b2.Get(!isSell) == opp.(book := b2.Get(!isSell).book, snapQueue := b2.Get(!isSell).snapQueue)
            && Sweep(!isSell, b2.Get(!isSell).book, q - part, price) == Swept(all.fills[k..], all.rest, 0)
            && 0 < part <= q && (part == q <==> k == |all.fills|)
            && SortedRows(isSell, m) && Positive(m) && m != [] && RowTotal(m) == part
            && (forall p :: p in KeySet(m) ==> NoWorse(isSell, price, p))
            && (KeySet(m) == {price} <==> opp.book[0].price == price)
  {
    hide Wf, WfBook, Uncrossed, Apart, NothingPending, Sweep, FeedTrades, CreditAll, KeySet, FillTotal, TradesOf, Live;
    hide SortedRows, Positive, RowTotal, NoWorse;
    var own, opp := b.Get(isSell), b.Get(!isSell);
    WfSides(b, isSell);
    LiveBook(b.Get(!isSell));
    ApartUncrossed(b, isSell);
    SweepSplits(!isSell, opp.book, q, price, k);
    PartOfAll(!isSell, opp.book, q, price, k);
    var part := FillTotal(Sweep(!isSell, opp.book, q, price).fills[..k]);
    TradesLeave(b, isSell, part, price);
    ExpectedIs(own, opp, part, price);
    FeedKeeps(b, TradesOf(FillsOf(opp, q, price)[..k]));
  }

  // ---------- The order arrives ----------

  // The order takes all that was expected of it, and the trades that are left settle what it
  // goes on to fill.
  lemma OrderFits(e: Erase, b: Book, isSell: bool, id: OrderId, q: Quantity, price: Price, part: Quantity,
                  all: Swept, k: nat, rest: seq<Trade>)
    requires WfBook(b) && Uncrossed(b) && 0 <= part <= q && k <= |all.fills|
    requires MatchAdd(e, b.Get(isSell).isSell, b.Get(isSell).pendingAdd, q, price) == Done(part, [])
    requires Sweep(!isSell, b.Get(!isSell).book, q - part, price) == Swept(all.fills[k..], all.rest, 0)
    requires part == q ==> k == |all.fills|
    requires multiset(rest) == multiset(TradesOf(all.fills[k..]))
    ensures var own, opp := b.Get(isSell), b.Get(!isSell);
            var r := ProcessAdd(e, b, isSell, id, q, price);
            && r.Returned?
            && NoSnaps(FeedTrades(r.book, rest))
               == NoSnaps(b.Put(isSell, own.(pendingAdd := [])).Put(!isSell, opp.(book := all.rest)))
  {
    hide Wf, WfBook, Uncrossed, Sweep, FeedTrades, OweAll, SweepViews, TradesOf, ExecEvents, AddTo, MatchAdd, FeedEvents, Cross;
    var own, opp := b.Get(isSell), b.Get(!isSell);
    WfSides(b, isSell);
    AddStalls(e, own, opp, id, q, price);
    AddToSides(e, own, opp, id, q, price);
    CrossLeaves(opp, q - part, price);
    CrossNone(opp, price);
    SidesOwe(own.(pendingAdd := []), opp, q - part, price);
    OrderLeadsTrades(e, b, isSell, id, q, price, rest);
  }

  lemma CrossNone(s: Side, price: Price)
    ensures Sweep(s.isSell, s.book, 0, price) == Swept([], s.book, 0)
  {
  }

  // An order that leaves something expected does not lead to the book without expectations.
  lemma OrderMisses(e: Erase, b: Book, isSell: bool, id: OrderId, q: Quantity, price: Price)
    requires WfBook(b)
    requires MatchAdd(e, b.Get(isSell).isSell, b.Get(isSell).pendingAdd, q, price).Done?
             ==> MatchAdd(e, b.Get(isSell).isSell, b.Get(isSell).pendingAdd, q, price).left != []
    ensures var r := ProcessAdd(e, b, isSell, id, q, price);
            r.Returned? ==> && MatchAdd(e, b.Get(isSell).isSell, b.Get(isSell).pendingAdd, q, price).Done?
                            && r.book.Get(isSell).pendingAdd != []
  {
    hide Wf, Sweep, AddTo, MatchAdd;
    var own, opp := b.Get(isSell), b.Get(!isSell);
    if AddTo(e, own, opp, id, q, price).Added? {
      AddKeepsPending(e, own, opp, id, q, price);
    }
  }

  lemma NoTrades(b: Book)
    ensures TradesOf([]) == [] && FeedTrades(b, []) == b && FeedTrades(b, TradesOf([])) == b
  {
  }

  // Wherever among its trades, in their order, the order arrives, and however the trades
  // behind it are permuted: levels and pending maps end as if the order had come first, if
  // and only if it does come first, or the erase is repaired, or the best opposite price
  // (hence every fill) is at the order's own limit.
  lemma {:induction false} InterleavedExactly(e: Erase, b: Book, isSell: bool, id: OrderId, q: Quantity, price: Price,
                                              k: nat, rest: seq<Trade>)
    requires WfBook(b) && Uncrossed(b) && NothingPending(b) && q > 0
    requires Sweep(!isSell, b.Get(!isSell).book, q, price).left == 0
    requires k <= |FillsOf(b.Get(!isSell), q, price)|
    requires multiset(rest) == multiset(TradesOf(FillsOf(b.Get(!isSell), q, price)[k..]))
    ensures b.Get(!isSell).book != []
    ensures var r1 := OrderFirst(e, b, isSell, id, q, price);
            var r2 := Interleaved(e, b, isSell, id, q, price, k, rest);
            && r1.Returned?
            && ((r2.Returned? && NoSnaps(r2.book) == NoSnaps(r1.book))
                <==> (k == 0 || e.Repaired? || b.Get(!isSell).book[0].price == price))
  {
    hide Wf, WfBook, Uncrossed, Sweep, FeedTrades, OweAll, TradesOf, AddTo, MatchAdd, CreditAll, OrderFirst, KeySet, FillTotal;
    hide SortedRows, Positive, NoWorse, RowTotal;
    var own, opp := b.Get(isSell), b.Get(!isSell);
    var all := Sweep(!isSell, opp.book, q, price);
    WfSides(b, isSell);
    SomethingFilled(opp, q, price);
    OrderFirstIs(e, b, isSell, id, q, price);
    NoTrades(b);
    if k == 0 {
      MatchNothing(e, own.isSell, q, price);
      assert all.fills[..0] == [] && all.fills[0..] == all.fills;
      OrderFits(e, b, isSell, id, q, price, 0, all, 0, rest);
    } else {
      OrderMeets(b, isSell, q, price, k);
      var part, m := FillTotal(all.fills[..k]), CreditAll(isSell, [], all.fills[..k]);
      var b2 := FeedTrades(b, TradesOf(all.fills[..k]));
      ExpectedOrder(e, isSell, m, q, price);
      if MatchAdd(e, isSell, m, q, price) == Done(part, []) {
        OrderFits(e, b2, isSell, id, q, price, part, all, k, rest);
      } else {
        OrderMisses(e, b2, isSell, id, q, price);
        NothingLeft(all.fills, k, part, q, rest);
        var r := ProcessAdd(e, b2, isSell, id, q, price);
        if r.Returned? { NoTrades(r.book); }
      }
    }
  }

  lemma SomethingFilled(opp: Side, q: Quantity, price: Price)
    requires q > 0 && Sweep(opp.isSell, opp.book, q, price).left == 0
    ensures opp.book != []
  {
  }

  lemma NothingLeft(fills: seq<Fill>, k: nat, part: Quantity, q: Quantity, rest: seq<Trade>)
    requires k <= |fills| && (part == q ==> k == |fills|)
    requires multiset(rest) == multiset(TradesOf(fills[k..]))
    ensures part == q ==> rest == []
  {
    if part == q {
      assert fills[k..] == [];
      assert |multiset(rest)| == |rest|;
    }
  }
}
