// The matcher against an independent description of greedy price-time matching, and what
// single messages conserve (src/book_side.cpp:63-170, src/order_book.cpp:15-31).
module Greedy {
  import opened Common
  import opened SideModel
  import opened ListLemmas
  import opened Matching
  import opened PendingAddTheorems
  import opened SnapshotTheorems
  import opened BookModel
  import opened Invariants

  function FillTotal(fills: seq<Fill>): Quantity {
    if fills == [] then 0 else fills[0].quantity + FillTotal(fills[1..])
  }

  function FillTotalAt(fills: seq<Fill>, p: Price): Quantity {
    if fills == [] then 0
    else (if fills[0].price == p then fills[0].quantity else 0) + FillTotalAt(fills[1..], p)
  }

  // The fills take the orders at the front in their order, all but the last completely,
  // and none beyond the limit.
  ghost predicate InPriority(isSell: bool, b: seq<OrderV>, limit: Price, fills: seq<Fill>) {
    && |fills| <= |b|
    && (forall i :: 0 <= i < |fills| ==>
          fills[i].id == b[i].id && fills[i].price == b[i].price && NoWorse(isSell, b[i].price, limit)
          && 0 < fills[i].quantity <= b[i].Rem())
    && (forall i :: 0 <= i < |fills| - 1 ==> fills[i].quantity == b[i].Rem())
  }

  // What such fills leave of the list.
  function LeftOver(b: seq<OrderV>, fills: seq<Fill>): seq<OrderV>
    requires |fills| <= |b|
  {
    var k := |fills|;
    if k > 0 && fills[k - 1].quantity < b[k - 1].Rem()
    then [b[k - 1].Take(fills[k - 1].quantity)] + b[k..]
    else b[k..]
  }

  // Greedy price-time matching of q against b down to a limit, without saying how: fills
  // in priority, the rest of the list untouched, and matching stops only when nothing is
  // left to fill or the next order is beyond the limit.
  ghost predicate GreedyOutcome(isSell: bool, b: seq<OrderV>, q: Quantity, limit: Price, r: Swept) {
    && InPriority(isSell, b, limit, r.fills)
    && r.rest == LeftOver(b, r.fills)
    && FillTotal(r.fills) + r.left == q
    && r.left >= 0
    && (r.left == 0 || r.rest == [] || !NoWorse(isSell, r.rest[0].price, limit))
  }

  lemma PriorityCons(isSell: bool, b: seq<OrderV>, limit: Price, fills: seq<Fill>)
    requires b != [] && fills != []
    ensures InPriority(isSell, b, limit, fills)
        <==> (&& fills[0].id == b[0].id && fills[0].price == b[0].price && NoWorse(isSell, b[0].price, limit)
              && 0 < fills[0].quantity <= b[0].Rem()
              && (|fills| > 1 ==> fills[0].quantity == b[0].Rem())
              && InPriority(isSell, b[1..], limit, fills[1..]))
  {
    var f, c := fills[1..], b[1..];
    if InPriority(isSell, b, limit, fills) {
      assert forall i :: 0 <= i < |f| ==> f[i] == fills[i + 1] && c[i] == b[i + 1];
    }
    if InPriority(isSell, c, limit, f) {
      assert forall i :: 0 < i < |fills| ==> fills[i] == f[i - 1] && b[i] == c[i - 1];
    }
  }

  lemma LeftOverCons(b: seq<OrderV>, fills: seq<Fill>)
    requires b != [] && fills != [] && |fills| <= |b| && (|fills| > 1 || fills[0].quantity == b[0].Rem())
    ensures LeftOver(b, fills) == LeftOver(b[1..], fills[1..])
  {
    var k := |fills| - 1;
    assert b[1..][k..] == b[k + 1..];
    if k > 0 { assert fills[1..][k - 1] == fills[k] && b[1..][k - 1] == b[k]; }
  }

  lemma {:induction false} SweepIsGreedy(isSell: bool, b: seq<OrderV>, q: Quantity, limit: Price)
    requires Live(b) && q >= 0
    ensures GreedyOutcome(isSell, b, q, limit, Sweep(isSell, b, q, limit))
  {
    var r := Sweep(isSell, b, q, limit);
    if q <= 0 || b == [] || !NoWorse(isSell, b[0].price, limit) {
    } else {
      assert b[0] in b;
      if q < b[0].Rem() {
        assert r.fills == [Fill(b[0].id, q, b[0].price)] && r.fills[1..] == [];
        assert FillTotal(r.fills) == q + FillTotal(r.fills[1..]);
        assert InPriority(isSell, b, limit, r.fills);
        assert LeftOver(b, r.fills) == r.rest;
      } else {
        SweepIsGreedy(isSell, b[1..], q - b[0].Rem(), limit);
        assert r.fills[1..] == Sweep(isSell, b[1..], q - b[0].Rem(), limit).fills;
        hide InPriority, LeftOver;
        PriorityFits(isSell, b[1..], limit, r.fills[1..]);
        LeftOverCons(b, r.fills);
        PriorityCons(isSell, b, limit, r.fills);
      }
    }
  }

  lemma PriorityFits(isSell: bool, b: seq<OrderV>, limit: Price, fills: seq<Fill>)
    requires InPriority(isSell, b, limit, fills)
    ensures |fills| <= |b| && forall i :: 0 <= i < |fills| ==> fills[i].quantity > 0
  {
  }

  // The description fixes the outcome.
  lemma {:induction false} GreedyUnique(isSell: bool, b: seq<OrderV>, q: Quantity, limit: Price, r: Swept)
    requires Live(b) && q >= 0 && GreedyOutcome(isSell, b, q, limit, r)
    ensures r == Sweep(isSell, b, q, limit)
  {
    hide InPriority, LeftOver, Sweep, FillTotal, NoWorse;
    PriorityFits(isSell, b, limit, r.fills);
    FillTotalPositive(r.fills);
    if r.fills == [] {
      NothingFilled(isSell, b, q, limit, r);
    } else {
      PriorityCons(isSell, b, limit, r.fills);
      FillTotalFirst(r.fills);
      FillTotalPositive(r.fills[1..]);
      LiveRest(b);
      SweepFront(isSell, b, q, limit);
      if r.fills[0].quantity < b[0].Rem() {
        var f := r.fills[0];
        assert r.fills == [f] && f == Fill(b[0].id, f.quantity, b[0].price);
        PartOfFirst(b, f);
      } else {
        LeftOverCons(b, r.fills);
        GreedyUnique(isSell, b[1..], q - b[0].Rem(), limit, r.(fills := r.fills[1..]));
        assert r.fills == [Fill(b[0].id, b[0].Rem(), b[0].price)] + r.fills[1..];
      }
    }
  }

  lemma NothingFilled(isSell: bool, b: seq<OrderV>, q: Quantity, limit: Price, r: Swept)
    requires Live(b) && q >= 0 && GreedyOutcome(isSell, b, q, limit, r) && r.fills == []
    ensures r == Sweep(isSell, b, q, limit)
  {
    assert b[0..] == b;
  }

  lemma FillTotalFirst(fills: seq<Fill>)
    requires fills != []
    ensures FillTotal(fills) == fills[0].quantity + FillTotal(fills[1..])
  {
  }

  lemma LiveRest(b: seq<OrderV>)
    requires b != [] && Live(b)
    ensures b[0].Rem() > 0 && Live(b[1..])
  {
    assert b[0] in b;
  }

  lemma PartOfFirst(b: seq<OrderV>, f: Fill)
    requires b != [] && f.quantity < b[0].Rem()
    ensures LeftOver(b, [f]) == [b[0].Take(f.quantity)] + b[1..] && FillTotal([f]) == f.quantity
  {
    assert [f][1..] == [];
  }

  lemma {:induction false} FillTotalPositive(fills: seq<Fill>)
    requires forall i :: 0 <= i < |fills| ==> fills[i].quantity > 0
    ensures FillTotal(fills) >= 0 && (fills != [] ==> FillTotal(fills) > 0)
  {
    if fills != [] { FillTotalPositive(fills[1..]); }
  }

  // The matcher is greedy price-time matching, and nothing else is.
  lemma GreedyExactly(isSell: bool, b: seq<OrderV>, q: Quantity, limit: Price, r: Swept)
    requires Live(b) && q >= 0
    ensures r == Sweep(isSell, b, q, limit) <==> GreedyOutcome(isSell, b, q, limit, r)
  {
    SweepIsGreedy(isSell, b, q, limit);
    if GreedyOutcome(isSell, b, q, limit, r) { GreedyUnique(isSell, b, q, limit, r); }
  }

  // ---------- Where filled quantity comes from and goes to ----------

  lemma {:induction false} SweepSum(isSell: bool, b: seq<OrderV>, q: Quantity, limit: Price)
    requires q >= 0
    ensures var r := Sweep(isSell, b, q, limit);
            && FillTotal(r.fills) + r.left == q
            && Sum(r.rest) == Sum(b) - FillTotal(r.fills)
  {
    if q <= 0 || b == [] || !NoWorse(isSell, b[0].price, limit) {
    } else if q < b[0].Rem() {
      assert Sweep(isSell, b, q, limit).fills[1..] == [];
      assert ([b[0].Take(q)] + b[1..])[1..] == b[1..];
    } else {
      SweepSum(isSell, b[1..], q - b[0].Rem(), limit);
      var r := Sweep(isSell, b, q, limit);
      assert r.fills[1..] == Sweep(isSell, b[1..], q - b[0].Rem(), limit).fills;
    }
  }

  lemma {:induction false} SweepSumAt(isSell: bool, b: seq<OrderV>, q: Quantity, limit: Price, p: Price)
    ensures var r := Sweep(isSell, b, q, limit);
            TotalAt(r.rest, p) == TotalAt(b, p) - FillTotalAt(r.fills, p)
  {
    if q <= 0 || b == [] || !NoWorse(isSell, b[0].price, limit) {
    } else if q < b[0].Rem() {
      assert Sweep(isSell, b, q, limit).fills[1..] == [];
      assert ([b[0].Take(q)] + b[1..])[1..] == b[1..];
    } else {
      SweepSumAt(isSell, b[1..], q - b[0].Rem(), limit, p);
      var r := Sweep(isSell, b, q, limit);
      assert r.fills[1..] == Sweep(isSell, b[1..], q - b[0].Rem(), limit).fills;
    }
  }

  lemma {:induction false} OweGet(m: map<Price, Quantity>, fills: seq<Fill>, p: Price)
    ensures Get(OweAll(m, fills), p) == Get(m, p) + FillTotalAt(fills, p)
    decreases |fills|
  {
    if fills != [] { OweGet(Owe(m, fills[0].price, fills[0].quantity), fills[1..], p); }
  }

  // Conservation of a new order with a new id: its quantity is what was expected of it,
  // plus what it took from the other side, plus what comes to rest; and both sides now
  // expect the same trades, price by price, as the other side lost.
  lemma AddConserves(e: Erase, own: Side, opp: Side, id: OrderId, q: Quantity, price: Price, p: Price)
    requires Wf(own) && Wf(opp) && q >= 0 && !Has(own.book, id)
    requires AddTo(e, own, opp, id, q, price).Added?
    ensures var r := AddTo(e, own, opp, id, q, price);
            && q == (RowTotal(own.pendingAdd) - RowTotal(r.own.pendingAdd))
                    + (Sum(opp.book) - Sum(r.opp.book))
                    + (Sum(r.own.book) - Sum(own.book))
            && Get(r.own.pendingRemove, p) - Get(own.pendingRemove, p)
               == Get(r.opp.pendingRemove, p) - Get(opp.pendingRemove, p)
               == TotalAt(opp.book, p) - TotalAt(r.opp.book, p)
  {
    hide AddTo, Wf, MatchAdd, RowTotal, Sum, TotalAt, Get, Rest, OweSide, Cross, Sweep, Has;
    AddToSides(e, own, opp, id, q, price);
    MatchSideKeeps(e, own, q, price);
    MatchConserves(e, own.isSell, own.pendingAdd, q, price);
    var m := MatchAdd(e, own.isSell, own.pendingAdd, q, price);
    if q - m.matched != 0 {
      CrossConserves(own.(pendingAdd := m.left), opp, id, q, q - m.matched, price, p);
    }
  }

  lemma CrossConserves(own: Side, opp: Side, id: OrderId, q: Quantity, open: Quantity, price: Price, p: Price)
    requires open > 0 && !Has(own.book, id)
    ensures var s := Sweep(opp.isSell, opp.book, open, price);
            var own1 := OweSide(own, s.fills);
            var own' := if s.left == 0 then own1 else Rest(own1, OrderV(id, q, q - s.left, price));
            var opp' := Cross(opp, open, price);
            && own'.pendingAdd == own.pendingAdd
            && open == (Sum(opp.book) - Sum(opp'.book)) + (Sum(own'.book) - Sum(own.book))
            && Get(own'.pendingRemove, p) - Get(own.pendingRemove, p)
               == Get(opp'.pendingRemove, p) - Get(opp.pendingRemove, p)
               == TotalAt(opp.book, p) - TotalAt(opp'.book, p)
  {
    var s := Sweep(opp.isSell, opp.book, open, price);
    SweepSum(opp.isSell, opp.book, open, price);
    SweepSumAt(opp.isSell, opp.book, open, price, p);
    OweGet(own.pendingRemove, s.fills, p);
    OweGet(opp.pendingRemove, s.fills, p);
    SumInsert(own.isSell, own.book, OrderV(id, q, q - s.left, price));
    hide Sweep, OweAll, Sum, AtPrice, SweepViews, Insert, Get;
  }

  // ---------- A trade, split ----------

  lemma {:induction false} BetterGone(isSell: bool, b: seq<OrderV>, p: Price, x: Price)
    requires Sorted(isSell, b) && !Better(isSell, x, p)
    ensures AtPrice(b[BetterCount(isSell, b, p)..], x) == AtPrice(b, x)
  {
    if b != [] && Better(isSell, b[0].price, p) {
      BetterGone(isSell, b[1..], p, x);
      assert b[1..][BetterCount(isSell, b[1..], p)..] == b[BetterCount(isSell, b, p)..];
    } else {
      assert b[0..] == b;
    }
  }

  // With nothing better than p in front, filling at p is filling p's queue first to last.
  lemma {:induction false} FillQueue(isSell: bool, b: seq<OrderV>, q: Quantity, p: Price)
    requires Sorted(isSell, b) && (b != [] ==> NoWorse(isSell, p, b[0].price))
    ensures var r := Sweep(isSell, b, q, p);
            && AtPrice(r.rest, p) == Sweep(isSell, AtPrice(b, p), q, p).rest
            && r.fills == Sweep(isSell, AtPrice(b, p), q, p).fills
            && r.left == Sweep(isSell, AtPrice(b, p), q, p).left
            && (forall x :: x != p ==> AtPrice(r.rest, x) == AtPrice(b, x))
  {
    if b == [] {
    } else if b[0].price != p {
      SortedFront(isSell, b);
      NoneAtPrice(b, p);
    } else if q > 0 {
      hide Sweep, Sorted, AtPrice;
      AtPriceFront(b);
      SweepFront(isSell, b, q, p);
      SweepFront(isSell, AtPrice(b, p), q, p);
      if q < b[0].Rem() {
        AtPriceFront([b[0].Take(q)] + b[1..]);
        assert ([b[0].Take(q)] + b[1..])[1..] == b[1..];
      } else {
        SortedRest(isSell, b);
        FillQueue(isSell, b[1..], q - b[0].Rem(), p);
      }
    }
  }

  lemma AtPriceFront(b: seq<OrderV>)
    requires b != []
    ensures AtPrice(b, b[0].price) == [b[0]] + AtPrice(b[1..], b[0].price)
    ensures forall x :: x != b[0].price ==> AtPrice(b, x) == AtPrice(b[1..], x)
  {
  }

  // A sweep meets the first order.
  lemma SweepFront(isSell: bool, b: seq<OrderV>, q: Quantity, limit: Price)
    requires b != [] && NoWorse(isSell, b[0].price, limit) && q > 0
    ensures Sweep(isSell, b, q, limit)
         == if q < b[0].Rem() then Swept([Fill(b[0].id, q, b[0].price)], [b[0].Take(q)] + b[1..], 0)
            else
              var r := Sweep(isSell, b[1..], q - b[0].Rem(), limit);
              Swept([Fill(b[0].id, b[0].Rem(), b[0].price)] + r.fills, r.rest, r.left)
  {
  }

  lemma SortedRest(isSell: bool, b: seq<OrderV>)
    requires b != [] && Sorted(isSell, b)
    ensures Sorted(isSell, b[1..])
    ensures b[1..] != [] ==> NoWorse(isSell, b[0].price, b[1..][0].price)
  {
    if b[1..] != [] { assert b[1..][0] in b[1..]; }
  }

  lemma {:induction false} CreditTotal(isSell: bool, m: seq<Row>, p: Price, q: Quantity)
    ensures RowTotal(Credit(isSell, m, p, q)) == RowTotal(m) + q
  {
    if m == [] || Better(isSell, p, m[0].price) {
      assert Credit(isSell, m, p, q)[1..] == m;
    } else if m[0].price == p {
      assert Credit(isSell, m, p, q)[1..] == m[1..];
    } else {
      CreditTotal(isSell, m[1..], p, q);
      assert Credit(isSell, m, p, q)[1..] == Credit(isSell, m[1..], p, q);
    }
  }

  lemma {:induction false} LeftEmpties(isSell: bool, b: seq<OrderV>, q: Quantity, p: Price)
    requires Live(b) && forall o :: o in b ==> o.price == p
    ensures Sweep(isSell, b, q, p).left > 0 ==> Sweep(isSell, b, q, p).rest == []
  {
    if q > 0 && b != [] {
      assert b[0] in b;
      if q >= b[0].Rem() { LeftEmpties(isSell, b[1..], q - b[0].Rem(), p); }
    }
  }

  // A trade at p goes exactly to what was owed at p, to p's queue first to last, and to
  // what is newly expected at p; better levels go, worse levels stay, other debts and
  // expectations stay, and something is newly expected only once p's queue is empty.
  lemma TradeSplits(s: Side, t: Trade)
    requires Wf(s) && t.quantity >= 0
    ensures var s' := ApplyTrade(s, t);
            var p := t.price;
            && t.quantity == (Get(s.pendingRemove, p) - Get(s'.pendingRemove, p))
                             + (TotalAt(s.book, p) - TotalAt(s'.book, p))
                             + (QtyAt(s'.pendingAdd, p) - QtyAt(s.pendingAdd, p))
            && Get(s'.pendingRemove, p) == Get(s.pendingRemove, p) - Min(Get(s.pendingRemove, p), t.quantity)
            && AtPrice(s'.book, p) == Sweep(s.isSell, AtPrice(s.book, p), TradeOpen(s, t), p).rest
            && (forall x :: Better(s.isSell, x, p) ==> AtPrice(s'.book, x) == [])
            && (forall x :: Better(s.isSell, p, x) ==> AtPrice(s'.book, x) == AtPrice(s.book, x))
            && (forall x :: x != p ==> Get(s'.pendingRemove, x) == Get(s.pendingRemove, x))
            && (forall x :: x != p ==> QtyAt(s'.pendingAdd, x) == QtyAt(s.pendingAdd, x))
            && QtyAt(s'.pendingAdd, p) == QtyAt(s.pendingAdd, p) + TradeSweep(s, t).left
            && RowTotal(s'.pendingAdd) == RowTotal(s.pendingAdd) + TradeSweep(s, t).left
            && 0 <= TradeSweep(s, t).left
            && (TradeSweep(s, t).left > 0 ==> AtPrice(s'.book, p) == [])
  {
    hide Wf, Sorted, UniqueIds, Live, Sweep, Credit, AtPrice, Sum, DropBetter, SweepViews, EraseViews, RowTotal, QtyAt;
    hide RemoveLeft, RemoveMatched, Get, FillTotalAt, Better, NoWorse, Canonical, SortedRows;
    var p := t.price;
    var open := TradeOpen(s, t);
    var b := TradeFront(s, t).book;
    WfParts(s);
    TradeQueue(s, t);
    MatchedBound(s.pendingRemove, t.quantity, p);
    Strict(s.isSell, p);
    FillQueue(s.isSell, b, open, p);
    SweepSumAt(s.isSell, b, open, p, p);
    QueueAt(s.book, p);
    QueueFillTotal(s.isSell, AtPrice(s.book, p), open, p);
    LeftEmpties(s.isSell, AtPrice(s.book, p), open, p);
    LeftBound(s.isSell, AtPrice(s.book, p), open, p);
    forall x ensures QtyAt(Credit(s.isSell, s.pendingAdd, p, TradeSweep(s, t).left), x)
                  == QtyAt(s.pendingAdd, x) + if x == p then TradeSweep(s, t).left else 0 {
      QtyCredit(s.isSell, s.pendingAdd, p, TradeSweep(s, t).left, x);
    }
    CreditTotal(s.isSell, s.pendingAdd, p, TradeSweep(s, t).left);
    forall x ensures Get(RemoveLeft(s.pendingRemove, t.quantity, p), x)
                  == Get(s.pendingRemove, x) - if x == p then t.quantity - open else 0 {
      SettleGet(s.pendingRemove, t.quantity, p, x);
    }
    SettleGet(s.pendingRemove, t.quantity, p, p);
  }

  lemma Strict(isSell: bool, p: Price)
    ensures !Better(isSell, p, p) && forall x :: Better(isSell, p, x) ==> !Better(isSell, x, p) && x != p
  {
  }

  lemma WfParts(s: Side)
    requires Wf(s)
    ensures Canonical(s.pendingRemove) && SortedRows(s.isSell, s.pendingAdd) && forall p :: Live(AtPrice(s.book, p))
  {
    forall p ensures Live(AtPrice(s.book, p)) {
      InAtPrice(s.book, p);
    }
  }

  lemma QueueAt(b: seq<OrderV>, p: Price)
    ensures forall o :: o in AtPrice(b, p) ==> o.price == p
  {
    InAtPrice(b, p);
  }

  lemma SettleGet(m: map<Price, Quantity>, q: Quantity, p: Price, x: Price)
    requires Canonical(m) && q >= 0
    ensures Get(RemoveLeft(m, q, p), x) == Get(m, x) - if x == p then RemoveMatched(m, q, p) else 0
    ensures RemoveMatched(m, q, p) == Min(Get(m, p), q)
    ensures Canonical(RemoveLeft(m, q, p))
  {
  }

  // What a trade at p finds of each queue: the better ones empty, the others as they were.
  lemma TradeQueue(s: Side, t: Trade)
    requires Wf(s)
    ensures var b := TradeFront(s, t).book;
            && TradeFront(s, t) == Settle(s, t.quantity, t.price).(book := b, snapQueue := TradeFront(s, t).snapQueue)
            && Sorted(s.isSell, b) && (b != [] ==> NoWorse(s.isSell, t.price, b[0].price))
            && (forall x :: Better(s.isSell, x, t.price) ==> AtPrice(b, x) == [])
            && (forall x :: !Better(s.isSell, x, t.price) ==> AtPrice(b, x) == AtPrice(s.book, x))
  {
    DropKeeps(Settle(s, t.quantity, t.price), t.price);
    var b := TradeFront(s, t).book;
    hide Sorted, UniqueIds, Live, AtPrice;
    forall x ensures if Better(s.isSell, x, t.price) then AtPrice(b, x) == [] else AtPrice(b, x) == AtPrice(s.book, x) {
      if Better(s.isSell, x, t.price) {
        if b != [] { SortedFront(s.isSell, b); }
        NoneAtPrice(b, x);
      } else {
        BetterGone(s.isSell, s.book, t.price, x);
      }
    }
  }

  // Fills of one queue are all at its price.
  lemma {:induction false} QueueFillTotal(isSell: bool, b: seq<OrderV>, q: Quantity, p: Price)
    requires q >= 0
    requires forall o :: o in b ==> o.price == p
    ensures FillTotalAt(Sweep(isSell, b, q, p).fills, p) == q - Sweep(isSell, b, q, p).left
  {
    if q > 0 && b != [] {
      assert b[0] in b;
      if q < b[0].Rem() {
        assert Sweep(isSell, b, q, p).fills[1..] == [];
      } else {
        QueueFillTotal(isSell, b[1..], q - b[0].Rem(), p);
        var r := Sweep(isSell, b, q, p);
        assert r.fills[1..] == Sweep(isSell, b[1..], q - b[0].Rem(), p).fills;
      }
    }
  }
}
