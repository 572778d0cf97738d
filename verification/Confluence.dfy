// An aggressive order and the trades it causes, one before the other: what each leaves
// for the other (src/order_book.cpp:15-56).
module Confluence {
  import opened Common
  import opened SideModel
  import opened Matching
  import opened PendingAddTheorems
  import opened BookModel
  import opened Invariants
  import opened Greedy
  import opened Reconciliation

  // The queues of expected snapshots record the path, so they are not compared.
  function NoSnaps(b: Book): Book {
    Book(b.bids.(snapQueue := []), b.asks.(snapQueue := []))
  }

  // ---------- Trades first: the side they fill ----------

  lemma OpenTrade(s: Side, t: Trade)
    requires s.pendingRemove == map[] && s.book != [] && s.book[0].price == t.price
    requires 0 < t.quantity <= s.book[0].Rem()
    ensures var s' := ApplyTrade(s, t);
            s' == s.(book := Sweep(s.isSell, s.book, t.quantity, t.price).rest, snapQueue := s'.snapQueue)
    ensures Sweep(s.isSell, s.book, t.quantity, t.price).rest
         == (if t.quantity < s.book[0].Rem() then [s.book[0].Take(t.quantity)] + s.book[1..] else s.book[1..])
  {
    TradeOfNobody(s, t);
    hide SweepViews, EraseViews, ApplyTrade;
  }

  // A trade with no debt to settle and nothing better resting fills at its price.
  lemma TradeOfNobody(s: Side, t: Trade)
    requires s.pendingRemove == map[] && (s.book == [] || !Better(s.isSell, s.book[0].price, t.price))
    ensures ApplyTrade(s, t)
         == Expect(FillAt(s, t.quantity, t.price), Sweep(s.isSell, s.book, t.quantity, t.price).left, t.price)
  {
    hide *;
    NothingToSettle(s, t.quantity, t.price);
    DropNothing(s, t.price);
    var s1, d, open := TradeParts(s.isSell, s, t);
  }

  lemma NothingToSettle(s: Side, q: Quantity, p: Price)
    requires s.pendingRemove == map[]
    ensures Settle(s, q, p) == s && RemoveMatched(s.pendingRemove, q, p) == 0
  {
  }

  // The trades of a sweep, in fill order, leave what the sweep leaves.
  lemma {:induction false} TradesFill(s: Side, q: Quantity, limit: Price)
    requires Live(s.book) && s.pendingRemove == map[] && q >= 0
    requires Sweep(s.isSell, s.book, q, limit).left == 0
    ensures var r := Sweep(s.isSell, s.book, q, limit);
            var s' := FeedSide(s, TradesOf(r.fills));
            s' == s.(book := r.rest, snapQueue := s'.snapQueue)
    decreases |s.book|
  {
    hide ApplyTrade, SweepViews;
    var r := Sweep(s.isSell, s.book, q, limit);
    if r.fills != [] {
      assert s.book[0] in s.book;
      var t := Trade(r.fills[0].quantity, r.fills[0].price);
      OpenTrade(s, t);
      FeedFirst(s, r.fills);
      if q < s.book[0].Rem() {
        assert r.fills[1..] == [];
      } else {
        assert r.fills[1..] == Sweep(s.isSell, s.book[1..], q - s.book[0].Rem(), limit).fills;
        TradesFill(ApplyTrade(s, t), q - s.book[0].Rem(), limit);
      }
    }
  }

  lemma FeedFirst(s: Side, fills: seq<Fill>)
    requires fills != []
    ensures FeedSide(s, TradesOf(fills))
         == FeedSide(ApplyTrade(s, Trade(fills[0].quantity, fills[0].price)), TradesOf(fills[1..]))
  {
    hide ApplyTrade;
    assert TradesOf(fills)[1..] == TradesOf(fills[1..]);
  }

  // ---------- Trades first: the side of the order to come ----------

  function CreditAll(isSell: bool, m: seq<Row>, fills: seq<Fill>): seq<Row>
    decreases |fills|
  {
    if fills == [] then m else CreditAll(isSell, Credit(isSell, m, fills[0].price, fills[0].quantity), fills[1..])
  }

  lemma UnmatchedTrade(s: Side, t: Trade)
    requires s.pendingRemove == map[] && t.quantity > 0
    requires s.book == [] || Better(s.isSell, t.price, s.book[0].price)
    ensures ApplyTrade(s, t) == s.(pendingAdd := Credit(s.isSell, s.pendingAdd, t.price, t.quantity))
  {
    TradeOfNobody(s, t);
    hide ApplyTrade;
    FillMiss(s, t.quantity, t.price);
  }

  lemma FillMiss(s: Side, q: Quantity, p: Price)
    requires q > 0 && (s.book == [] || !NoWorse(s.isSell, s.book[0].price, p))
    ensures FillAt(s, q, p) == s && Sweep(s.isSell, s.book, q, p) == Swept([], s.book, q)
  {
    assert s.snapQueue + [] + [] == s.snapQueue;
  }

  lemma {:induction false} TradesExpected(s: Side, fills: seq<Fill>)
    requires s.pendingRemove == map[]
    requires forall f :: f in fills ==> f.quantity > 0 && (s.book == [] || Better(s.isSell, f.price, s.book[0].price))
    ensures FeedSide(s, TradesOf(fills)) == s.(pendingAdd := CreditAll(s.isSell, s.pendingAdd, fills))
    decreases |fills|
  {
    if fills != [] {
      assert fills[0] in fills;
      var t := Trade(fills[0].quantity, fills[0].price);
      assert TradesOf(fills)[0] == t && TradesOf(fills)[1..] == TradesOf(fills[1..]);
      UnmatchedTrade(s, t);
      hide ApplyTrade;
      TradesExpected(ApplyTrade(s, t), fills[1..]);
    }
  }

  function KeySet(m: seq<Row>): set<Price> {
    set r | r in m :: r.price
  }

  function FillPriceSet(fills: seq<Fill>): set<Price> {
    set f | f in fills :: f.price
  }

  lemma {:induction false} CreditKeys(isSell: bool, m: seq<Row>, p: Price, q: Quantity)
    requires Positive(m) && q > 0
    ensures KeySet(Credit(isSell, m, p, q)) == KeySet(m) + {p} && Positive(Credit(isSell, m, p, q))
  {
    var m' := Credit(isSell, m, p, q);
    if m == [] || Better(isSell, p, m[0].price) {
      assert m' == [Row(p, q)] + m;
    } else {
      assert m[0] in m;
      assert KeySet(m) == KeySet(m[1..]) + {m[0].price} by {
        assert m == [m[0]] + m[1..];
      }
      assert KeySet(m') == KeySet(m'[1..]) + {m'[0].price} by {
        assert m' == [m'[0]] + m'[1..];
      }
      if m[0].price == p {
        assert m'[1..] == m[1..];
      } else {
        CreditKeys(isSell, m[1..], p, q);
        assert m'[1..] == Credit(isSell, m[1..], p, q);
      }
      forall r | r in m' ensures r.quantity > 0 {
        assert r == m'[0] || r in m'[1..];
      }
    }
  }

  lemma {:induction false} CreditAllKeeps(isSell: bool, m: seq<Row>, fills: seq<Fill>)
    requires SortedRows(isSell, m) && Positive(m) && forall f :: f in fills ==> f.quantity > 0
    ensures var a := CreditAll(isSell, m, fills);
            && SortedRows(isSell, a) && Positive(a)
            && RowTotal(a) == RowTotal(m) + FillTotal(fills)
            && KeySet(a) == KeySet(m) + FillPriceSet(fills)
    decreases |fills|
  {
    if fills != [] {
      var f := fills[0];
      assert f in fills && fills == [f] + fills[1..];
      CreditSorted(isSell, m, f.price, f.quantity);
      CreditKeys(isSell, m, f.price, f.quantity);
      CreditTotal(isSell, m, f.price, f.quantity);
      CreditAllKeeps(isSell, Credit(isSell, m, f.price, f.quantity), fills[1..]);
      assert FillPriceSet(fills) == {f.price} + FillPriceSet(fills[1..]);
    }
  }

  // ---------- The order, after its trades ----------

  lemma {:induction false} OneKey(isSell: bool, m: seq<Row>, p: Price)
    requires SortedRows(isSell, m) && KeySet(m) == {p}
    ensures m == [Row(p, RowTotal(m))]
  {
    NoKeys();
    KeyIn(m, 0);
    if |m| > 1 {
      SecondKey(isSell, m);
      KeyIn(m, 1);
    }
    assert m[1..] == [];
  }

  lemma NoKeys()
    ensures KeySet([]) == {}
  {
  }

  lemma KeyIn(m: seq<Row>, i: nat)
    requires i < |m|
    ensures m[i].price in KeySet(m)
  {
    assert m[i] in m;
  }

  lemma SecondKey(isSell: bool, m: seq<Row>)
    requires SortedRows(isSell, m) && |m| > 1
    ensures Better(isSell, m[0].price, m[1].price)
  {
    assert m[1] in m[1..];
  }

  // An order that everything expected is due to: the repaired loop drains the map; the
  // loop as written leaves something behind, or never returns, unless the only key is the
  // order's own price. If more is to come than was expected, it never returns.
  lemma {:induction false} ExpectedOrder(e: Erase, isSell: bool, m: seq<Row>, q: Quantity, price: Price)
    requires SortedRows(isSell, m) && Positive(m) && m != [] && RowTotal(m) <= q
    requires forall p :: p in KeySet(m) ==> NoWorse(isSell, price, p)
    ensures MatchAdd(e, isSell, m, q, price) == Done(RowTotal(m), []) <==> (e.Repaired? || KeySet(m) == {price})
    ensures MatchAdd(e, isSell, m, q, price) != Done(RowTotal(m), []) && MatchAdd(e, isSell, m, q, price).Done?
            ==> MatchAdd(e, isSell, m, q, price).left != [] && RowTotal(m) == q
  {
    assert m[0] in m && m[0].price in KeySet(m);
    RowTotalPositive(m);
    RepairedDrains(isSell, m, q, price);
    if e.Repaired? {
      var left := MatchAdd(e, isSell, m, q, price).left;
      if left != [] {
        assert left[0] in left && Positive(left[1..]);
        RowTotalPositive(left[1..]);
      }
    } else if KeySet(m) == {price} {
      OneKey(isSell, m, price);
      assert m[1..] == [];
    } else if MatchAdd(e, isSell, m, q, price).Done? {
      var r :| r in m && r.price != price;
      KeysStay(isSell, m, q, price, r.price);
      NotAllDrained(isSell, m, q, price);
    }
  }

  lemma SingleKey(m: seq<Row>)
    requires |m| == 1
    ensures KeySet(m) == {m[0].price}
  {
    assert m == [m[0]];
  }

  lemma NotAllDrained(isSell: bool, m: seq<Row>, q: Quantity, price: Price)
    requires SortedRows(isSell, m) && Positive(m) && m != [] && RowTotal(m) <= q && KeySet(m) != {price}
    requires NoWorse(isSell, price, m[0].price) && MatchAdd(AsWritten, isSell, m, q, price).Done?
    ensures RowTotal(m) == q
  {
    RowTotalPositive(m);
    DoneExactly(isSell, m, q, price);
    assert Positive(m[1..]);
    RowTotalPositive(m[1..]);
    if |m| == 1 {
      SingleKey(m);
    } else {
      assert m[1] in m && Positive(m[1..][1..]);
      RowTotalPositive(m[1..][1..]);
    }
  }

  // ---------- The order first ----------

  ghost predicate NothingPending(b: Book) {
    && b.bids.pendingAdd == [] && b.asks.pendingAdd == []
    && b.bids.pendingRemove == map[] && b.asks.pendingRemove == map[]
  }

  // The book after the order and then its trades.
  function OrderFirst(e: Erase, b: Book, isSell: bool, id: OrderId, q: Quantity, price: Price): Ran {
    var r := ProcessAdd(e, b, isSell, id, q, price);
    if r.Hangs? then Hangs
    else Returned(FeedTrades(r.book, TradesOf(FillsOf(b.Get(!isSell), q, price))), r.events)
  }

  lemma {:induction false} OrderFirstIs(e: Erase, b: Book, isSell: bool, id: OrderId, q: Quantity, price: Price)
    requires WfBook(b) && Uncrossed(b) && NothingPending(b) && q > 0
    requires Sweep(!isSell, b.Get(!isSell).book, q, price).left == 0
    ensures var r := OrderFirst(e, b, isSell, id, q, price);
            && r.Returned?
            && NoSnaps(r.book) == NoSnaps(b.Put(!isSell, b.Get(!isSell).(book := Sweep(!isSell, b.Get(!isSell).book, q, price).rest)))
  {
    hide Wf, Uncrossed, Sweep, FeedTrades, OweAll, SweepViews, TradesOf, ExecEvents, AddTo, MatchAdd, FeedEvents, Cross;
    var own, opp := b.Get(isSell), b.Get(!isSell);
    WfSides(b, isSell);
    MatchNothing(e, own.isSell, q, price);
    AddStalls(e, own, opp, id, q, price);
    AddToSides(e, own, opp, id, q, price);
    CrossLeaves(opp, q, price);
    SidesOwe(own, opp, q, price);
    OrderLeadsTrades(e, b, isSell, id, q, price, TradesOf(FillsOf(opp, q, price)));
  }

  lemma MatchNothing(e: Erase, isSell: bool, q: Quantity, price: Price)
    ensures MatchAdd(e, isSell, [], q, price) == Done(0, [])
  {
  }

  lemma CrossLeaves(s: Side, q: Quantity, price: Price)
    ensures var s' := Cross(s, q, price);
            s' == s.(book := Sweep(s.isSell, s.book, q, price).rest,
                     pendingRemove := s'.pendingRemove, snapQueue := s'.snapQueue)
  {
  }

  lemma FillsApart(own: Side, opp: Side, q: Quantity, price: Price)
    requires Wf(own) && Wf(opp) && Apart(own, opp) && own.isSell != opp.isSell
    ensures forall f :: f in FillsOf(opp, q, price) ==>
              && f.quantity > 0
              && (own.book == [] || Better(own.isSell, f.price, own.book[0].price))
              && NoWorse(own.isSell, price, f.price)
  {
    FillPrices(opp.isSell, opp.book, q, price);
    if own.book != [] {
      var x := own.book[0].price;
      assert x in PriceSet(own.book);
      assert AllWorse(opp.isSell, opp.book, x);
    }
  }

  // ---------- The trades first ----------

  // What the trades leave for the order: the fills, credited by price.
  lemma TradesLeave(b: Book, isSell: bool, q: Quantity, price: Price)
    requires WfBook(b) && Uncrossed(b) && NothingPending(b) && q > 0
    requires Sweep(!isSell, b.Get(!isSell).book, q, price).left == 0
    ensures var own, opp := b.Get(isSell), b.Get(!isSell);
            var fills := FillsOf(opp, q, price);
            var b2 := FeedTrades(b, TradesOf(fills));
            && b2.Get(isSell) == own.(pendingAdd := CreditAll(isSell, [], fills))
            && b2.Get(!isSell) == opp.(book := Sweep(!isSell, opp.book, q, price).rest,
                                       snapQueue := b2.Get(!isSell).snapQueue)
  {
    var own, opp := b.Get(isSell), b.Get(!isSell);
    WfSides(b, isSell);
    ApartUncrossed(b, isSell);
    FillsApart(own, opp, q, price);
    TradesFill(opp, q, price);
    TradesExpected(own, FillsOf(opp, q, price));
    FeedSides(b, TradesOf(FillsOf(opp, q, price)));
  }

  lemma ExpectedIs(own: Side, opp: Side, q: Quantity, price: Price)
    requires Wf(own) && Wf(opp) && Apart(own, opp) && own.isSell != opp.isSell && q > 0
    requires Sweep(opp.isSell, opp.book, q, price).left == 0
    ensures var fills := FillsOf(opp, q, price);
            var m := CreditAll(own.isSell, [], fills);
            && opp.book != []
            && SortedRows(own.isSell, m) && Positive(m) && m != [] && RowTotal(m) == q
            && (forall p :: p in KeySet(m) ==> NoWorse(own.isSell, price, p))
            && (KeySet(m) == {price} <==> opp.book[0].price == price)
  {
    var fills := FillsOf(opp, q, price);
    var m := CreditAll(own.isSell, [], fills);
    FillsApart(own, opp, q, price);
    CreditAllKeeps(own.isSell, [], fills);
    SweepSum(opp.isSell, opp.book, q, price);
    FillPrices(opp.isSell, opp.book, q, price);
    assert fills != [] && fills[0] in fills && fills[0].price == opp.book[0].price;
    assert fills[0].price in FillPriceSet(fills);
    assert KeySet([]) == {};
    assert KeySet(m) == FillPriceSet(fills);
    SortedFront(opp.isSell, opp.book);
    if opp.book[0].price == price {
      forall p | p in FillPriceSet(fills) ensures p == price {
        var f :| f in fills && f.price == p;
        assert f.price in PriceSet(opp.book);
      }
    }
  }

  // What an addition does to the expectations of its side, and when it does not return.
  lemma AddKeepsPending(e: Erase, own: Side, opp: Side, id: OrderId, q: Quantity, price: Price)
    requires AddTo(e, own, opp, id, q, price).Added?
    ensures var m := MatchAdd(e, own.isSell, own.pendingAdd, q, price);
            m.Done? && AddTo(e, own, opp, id, q, price).own.pendingAdd == m.left
  {
  }

  lemma AddStalls(e: Erase, own: Side, opp: Side, id: OrderId, q: Quantity, price: Price)
    ensures AddTo(e, own, opp, id, q, price).Stalled? <==> MatchAdd(e, own.isSell, own.pendingAdd, q, price).Stuck?
  {
  }
}
