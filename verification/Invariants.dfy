// What every message keeps: each side well-formed, and no new prices except where stated.
module Invariants {
  import opened Common
  import opened SideModel
  import opened ListLemmas
  import opened Matching
  import opened SnapshotModel
  import opened SnapshotLemmas
  import opened SnapshotTheorems
  import opened BookModel

  lemma {:induction false} SweepPrices(isSell: bool, b: seq<OrderV>, q: Quantity, limit: Price)
    ensures PriceSet(Sweep(isSell, b, q, limit).rest) <= PriceSet(b)
  {
    if q <= 0 || b == [] || !NoWorse(isSell, b[0].price, limit) {
    } else if q < b[0].Rem() {
      forall o | o in [b[0].Take(q)] + b[1..] ensures o.price in PriceSet(b) {
        assert o == b[0].Take(q) || o in b[1..];
        assert b[0] in b && b[0].price in PriceSet(b);
      }
    } else {
      SweepPrices(isSell, b[1..], q - b[0].Rem(), limit);
      assert PriceSet(b[1..]) <= PriceSet(b);
    }
  }

  // A sweep that leaves something to fill has nothing left to fill from.
  lemma {:induction false} SweepStops(isSell: bool, b: seq<OrderV>, q: Quantity, limit: Price)
    requires Sorted(isSell, b) && Live(b)
    ensures var r := Sweep(isSell, b, q, limit);
            r.left > 0 ==> forall p :: p in PriceSet(r.rest) ==> Better(isSell, limit, p)
  {
    if q > 0 && b != [] {
      if !NoWorse(isSell, b[0].price, limit) {
        SortedFront(isSell, b);
      } else if q >= b[0].Rem() {
        SweepStops(isSell, b[1..], q - b[0].Rem(), limit);
      }
    }
  }

  lemma {:induction false} OweKeeps(m: map<Price, Quantity>, fills: seq<Fill>)
    requires Canonical(m) && forall f :: f in fills ==> f.quantity > 0
    ensures Canonical(OweAll(m, fills))
    decreases |fills|
  {
    if fills != [] {
      assert fills[0] in fills;
      OweKeeps(Owe(m, fills[0].price, fills[0].quantity), fills[1..]);
    }
  }

  lemma CrossKeeps(s: Side, q: Quantity, limit: Price)
    requires Wf(s)
    ensures Wf(Cross(s, q, limit)) && PriceSet(Cross(s, q, limit).book) <= PriceSet(s.book)
  {
    SweepKeeps(s.isSell, s.book, q, limit);
    SweepPrices(s.isSell, s.book, q, limit);
    OweKeeps(s.pendingRemove, Sweep(s.isSell, s.book, q, limit).fills);
  }

  lemma SettleKeeps(s: Side, q: Quantity, p: Price)
    requires Wf(s)
    ensures Wf(Settle(s, q, p))
  {
  }

  lemma CancelKeeps(s: Side, id: OrderId, q: Quantity, p: Price)
    requires Wf(s)
    ensures var s' := Cancel(s, id, q, p).0;
            Wf(s') && s'.isSell == s.isSell && PriceSet(s'.book) <= PriceSet(s.book)
  {
    SettleKeeps(s, q, p);
    RemoveKeeps(s.book, id);
    RemoveSorted(s.isSell, s.book, id);
  }

  lemma ExpectKeeps(s: Side, q: Quantity, p: Price)
    requires Wf(s)
    ensures Wf(Expect(s, q, p))
  {
    if q > 0 {
      CreditSorted(s.isSell, s.pendingAdd, p, q);
      CreditNonNegative(s.isSell, s.pendingAdd, p, q);
    }
  }

  lemma {:induction false} CreditNonNegative(isSell: bool, m: seq<Row>, p: Price, q: Quantity)
    requires NonNegative(m) && q >= 0
    ensures NonNegative(Credit(isSell, m, p, q))
  {
    if m != [] {
      assert m[0] in m;
      if !Better(isSell, p, m[0].price) && m[0].price != p {
        CreditNonNegative(isSell, m[1..], p, q);
      }
    }
  }

  lemma TradeKeeps(s: Side, t: Trade)
    requires Wf(s)
    ensures Wf(ApplyTrade(s, t)) && ApplyTrade(s, t).isSell == s.isSell
    ensures PriceSet(ApplyTrade(s, t).book) <= PriceSet(s.book)
  {
    var s1 := Settle(s, t.quantity, t.price);
    SettleKeeps(s, t.quantity, t.price);
    DropKeeps(s1, t.price);
    var d := TradeFront(s, t);
    SweepKeeps(d.isSell, d.book, TradeOpen(s, t), t.price);
    SweepPrices(d.isSell, d.book, TradeOpen(s, t), t.price);
    ExpectKeeps(FillAt(d, TradeOpen(s, t), t.price), TradeSweep(s, t).left, t.price);
  }

  lemma {:induction false} MatchKeeps(e: Erase, isSell: bool, m: seq<Row>, q: Quantity, p: Price)
    requires SortedRows(isSell, m) && NonNegative(m) && q >= 0 && MatchAdd(e, isSell, m, q, p).Done?
    ensures var r := MatchAdd(e, isSell, m, q, p);
            && SortedRows(isSell, r.left) && NonNegative(r.left) && 0 <= r.matched <= q
  {
    if m != [] && NoWorse(isSell, p, m[0].price) {
      assert m[0] in m;
      var cur := Min(m[0].quantity, q);
      if cur == m[0].quantity && (e.Repaired? || m[0].price == p) {
        if cur != q { MatchKeeps(e, isSell, m[1..], q - cur, p); }
      } else {
        var m' := [Row(m[0].price, m[0].quantity - cur)] + m[1..];
        assert m'[1..] == m[1..];
        forall r | r in m' ensures r.quantity >= 0 {
          assert r == m'[0] || r in m[1..];
        }
      }
    }
  }

  // An order that comes to rest brings its own price and no other.
  lemma RestKeeps(s: Side, o: OrderV)
    requires Wf(s) && o.Rem() > 0
    ensures var s' := s.(book := AddOrder(s.isSell, s.book, o));
            Wf(s') && PriceSet(s'.book) <= PriceSet(s.book) + {o.price}
  {
    if !Has(s.book, o.id) {
      InsertKeeps(s.isSell, s.book, o);
      InsertSorted(s.isSell, s.book, o);
    }
  }

  // After a resync the side rests only at prices that the snapshot shows.
  lemma ResyncKeeps(s: Side, rows: seq<Row>)
    requires Wf(s) && ValidRows(s.isSell, rows)
    ensures Wf(Resync(s, rows)) && Resync(s, rows).isSell == s.isSell
    ensures forall p :: p in PriceSet(Resync(s, rows).book) ==> HasRow(rows, p)
  {
    var b := Resync(s, rows).book;
    GrowAllKeeps(s, rows, FIRST_FAKE_ID);
    ResyncTotals(s, rows, 0.0);
    GrowNonNegative(s, rows, FIRST_FAKE_ID);
    forall o | o in b ensures HasRow(rows, o.price) {
      ResyncTotals(s, rows, o.price);
      InAtPrice(b, o.price);
      assert o in AtPrice(b, o.price);
      SumPositive(AtPrice(b, o.price));
    }
  }

  lemma {:induction false} GrowNonNegative(s: Side, rows: seq<Row>, id: OrderId)
    requires Live(s.book) && NonNegative(s.pendingAdd) && Positive(rows) && Sorted(s.isSell, s.book)
    requires UniqueIds(s.book) && SortedRows(s.isSell, s.pendingAdd)
    ensures NonNegative(GrowAll(s, rows, id).side.pendingAdd)
    decreases |rows|
  {
    if rows != [] {
      var row := rows[0];
      assert row in rows;
      var queue := AtPrice(s.book, row.price);
      CreditIfMore(s, row, id);
      GrowRowKeeps(s, row, id);
      var g := GrowRow(s, row, id);
      GrowNonNegative(g.side, rows[1..], g.nextId);
    }
  }

  lemma CreditIfMore(s: Side, row: Row, id: OrderId)
    requires NonNegative(s.pendingAdd) && row.quantity > 0
    ensures NonNegative(GrowRow(s, row, id).side.pendingAdd)
  {
    var more := row.quantity - Sum(AtPrice(s.book, row.price));
    if more > 0 { CreditNonNegative(s.isSell, s.pendingAdd, row.price, more); }
  }

  lemma SnapshotKeeps(s: Side, rows: seq<Row>)
    requires Wf(s) && ValidRows(s.isSell, rows)
    ensures Wf(ApplySnapshot(s, rows)) && ApplySnapshot(s, rows).isSell == s.isSell
    ensures s.snapQueue == [] ==> forall p :: p in PriceSet(ApplySnapshot(s, rows).book) ==> HasRow(rows, p)
    ensures s.snapQueue != [] ==> ApplySnapshot(s, rows).book == s.book
  {
    if s.snapQueue == [] { ResyncKeeps(s, rows); }
  }

  // ---------- The book ----------

  // Everything resting is strictly worse than p.
  ghost predicate AllWorse(isSell: bool, b: seq<OrderV>, p: Price) {
    forall x :: x in PriceSet(b) ==> Better(isSell, p, x)
  }

  // No price of one list is better than, or equal to, a price of the other across the book.
  ghost predicate Apart(own: Side, opp: Side) {
    forall x :: x in PriceSet(own.book) ==> AllWorse(opp.isSell, opp.book, x)
  }

  lemma ApartUncrossed(b: Book, isSell: bool)
    requires !b.bids.isSell && b.asks.isSell
    ensures Uncrossed(b) <==> Apart(b.Get(isSell), b.Get(!isSell))
  {
    if Uncrossed(b) {
      forall x | x in PriceSet(b.Get(isSell).book)
        ensures AllWorse(b.Get(!isSell).isSell, b.Get(!isSell).book, x) {
      }
    }
    if Apart(b.Get(isSell), b.Get(!isSell)) {
      forall p, q | p in PriceSet(b.bids.book) && q in PriceSet(b.asks.book) ensures p < q {
        var x, y := if isSell then q else p, if isSell then p else q;
        assert AllWorse(b.Get(!isSell).isSell, b.Get(!isSell).book, x);
        assert Better(b.Get(!isSell).isSell, x, y);
      }
    }
  }

  lemma OweSideKeeps(own: Side, opp: Side, q: Quantity, p: Price)
    requires Wf(own) && Wf(opp)
    ensures Wf(OweSide(own, Sweep(opp.isSell, opp.book, q, p).fills))
  {
    SweepKeeps(opp.isSell, opp.book, q, p);
    OweKeeps(own.pendingRemove, Sweep(opp.isSell, opp.book, q, p).fills);
  }

  // Crossing keeps the sides apart, and an order that is left over fits between them.
  lemma CrossApart(own: Side, opp: Side, own': Side, opp': Side, q: Quantity, p: Price)
    requires Wf(opp) && Apart(own, opp) && q >= 0
    requires opp' == Cross(opp, q, p)
    requires PriceSet(own'.book) <= PriceSet(own.book)
             || (Sweep(opp.isSell, opp.book, q, p).left > 0 && PriceSet(own'.book) <= PriceSet(own.book) + {p})
    ensures Apart(own', opp')
  {
    SweepPrices(opp.isSell, opp.book, q, p);
    SweepStops(opp.isSell, opp.book, q, p);
    hide Wf, Sweep, PriceSet, OweAll, SweepViews;
    forall x | x in PriceSet(own'.book) ensures AllWorse(opp.isSell, opp'.book, x) {
      if x in PriceSet(own.book) {
        assert AllWorse(opp.isSell, opp.book, x);
      }
    }
  }

  // The second half of an addition, once expected liquidity has been matched.
  lemma CrossRestKeeps(own: Side, opp: Side, id: OrderId, q: Quantity, open: Quantity, p: Price)
    requires Wf(own) && Wf(opp) && open > 0
    ensures var r := Sweep(opp.isSell, opp.book, open, p);
            var own1 := OweSide(own, r.fills);
            var own' := if r.left == 0 then own1 else Rest(own1, OrderV(id, q, q - r.left, p));
            var opp' := Cross(opp, open, p);
            && Wf(own') && Wf(opp') && own'.isSell == own.isSell && opp'.isSell == opp.isSell
            && (Apart(own, opp) ==> Apart(own', opp'))
  {
    LeftBound(opp.isSell, opp.book, open, p);
    OweSideKeeps(own, opp, open, p);
    CrossKeeps(opp, open, p);
    CrossSideIs(opp, open, p);
    var r := Sweep(opp.isSell, opp.book, open, p);
    OweSideBook(own, r.fills);
    hide Wf, Sweep, OweSide, Cross, PriceSet, Apart, Rest;
    var own1 := OweSide(own, r.fills);
    var order := OrderV(id, q, q - r.left, p);
    var own' := if r.left == 0 then own1 else Rest(own1, order);
    if r.left != 0 {
      RestKeeps(own1, order);
      RestIs(own1, order);
    }
    if Apart(own, opp) { CrossApart(own, opp, own', Cross(opp, open, p), open, p); }
  }

  // What AddTo leaves, without its events.
  lemma AddToSides(e: Erase, own: Side, opp: Side, id: OrderId, q: Quantity, p: Price)
    requires AddTo(e, own, opp, id, q, p).Added?
    ensures var r := AddTo(e, own, opp, id, q, p);
            var m := MatchAdd(e, own.isSell, own.pendingAdd, q, p);
            var own1 := own.(pendingAdd := m.left);
            var open := q - m.matched;
            var s := Sweep(opp.isSell, opp.book, open, p);
            var own2 := OweSide(own1, s.fills);
            && m.Done?
            && r.own == (if open == 0 then own1
                         else if s.left == 0 then own2 else Rest(own2, OrderV(id, q, q - s.left, p)))
            && r.opp == (if open == 0 then opp else Cross(opp, open, p))
  {
    hide Sweep, MatchAdd, OweSide, Cross, ExecEvents, Rest;
  }

  lemma AddToKeeps(e: Erase, own: Side, opp: Side, id: OrderId, q: Quantity, p: Price)
    requires Wf(own) && Wf(opp) && q >= 0 && AddTo(e, own, opp, id, q, p).Added?
    ensures var r := AddTo(e, own, opp, id, q, p);
            && Wf(r.own) && Wf(r.opp) && r.own.isSell == own.isSell && r.opp.isSell == opp.isSell
            && (Apart(own, opp) ==> Apart(r.own, r.opp))
  {
    hide AddTo, Wf, Sweep, MatchAdd, OweSide, Cross, PriceSet, Apart, Rest;
    AddToSides(e, own, opp, id, q, p);
    MatchSideKeeps(e, own, q, p);
    var m := MatchAdd(e, own.isSell, own.pendingAdd, q, p);
    var own1 := own.(pendingAdd := m.left);
    ApartSame(own, opp, own1);
    if q - m.matched != 0 {
      CrossRestKeeps(own1, opp, id, q, q - m.matched, p);
    }
  }

  lemma MatchSideKeeps(e: Erase, s: Side, q: Quantity, p: Price)
    requires Wf(s) && q >= 0 && MatchAdd(e, s.isSell, s.pendingAdd, q, p).Done?
    ensures var m := MatchAdd(e, s.isSell, s.pendingAdd, q, p);
            0 <= m.matched <= q && Wf(s.(pendingAdd := m.left))
  {
    MatchKeeps(e, s.isSell, s.pendingAdd, q, p);
  }

  lemma ApartSame(own: Side, opp: Side, own': Side)
    requires own'.book == own.book
    ensures Apart(own, opp) ==> Apart(own', opp)
  {
  }

  lemma OweSideBook(s: Side, fills: seq<Fill>)
    ensures OweSide(s, fills).book == s.book && OweSide(s, fills).isSell == s.isSell
  {
  }

  lemma RestIs(s: Side, o: OrderV)
    ensures Rest(s, o) == s.(book := AddOrder(s.isSell, s.book, o))
  {
  }

  lemma AddKeeps(e: Erase, b: Book, isSell: bool, id: OrderId, q: Quantity, p: Price)
    requires WfBook(b) && q >= 0 && ProcessAdd(e, b, isSell, id, q, p).Returned?
    ensures WfBook(ProcessAdd(e, b, isSell, id, q, p).book)
    ensures Uncrossed(b) ==> Uncrossed(ProcessAdd(e, b, isSell, id, q, p).book)
  {
    hide AddTo, Wf, Uncrossed, Apart;
    AddToKeeps(e, b.Get(isSell), b.Get(!isSell), id, q, p);
    ApartUncrossed(b, isSell);
    ApartUncrossed(ProcessAdd(e, b, isSell, id, q, p).book, isSell);
  }

  lemma CancelBookKeeps(b: Book, isSell: bool, id: OrderId, q: Quantity, p: Price)
    requires WfBook(b)
    ensures WfBook(ProcessCancel(b, isSell, id, q, p).0)
    ensures Uncrossed(b) ==> Uncrossed(ProcessCancel(b, isSell, id, q, p).0)
  {
    CancelKeeps(b.Get(isSell), id, q, p);
  }

  lemma ModifyKeeps(e: Erase, b: Book, isSell: bool, id: OrderId, q: Quantity, p: Price)
    requires WfBook(b) && q >= 0 && ProcessModify(e, b, isSell, id, q, p).Returned?
    ensures WfBook(ProcessModify(e, b, isSell, id, q, p).book)
    ensures Uncrossed(b) ==> Uncrossed(ProcessModify(e, b, isSell, id, q, p).book)
  {
    if Exists(b, id) {
      var rem := Lookup(b, id).Rem();
      CancelBookKeeps(b, isSell, id, rem, p);
      AddKeeps(e, ProcessCancel(b, isSell, id, rem, p).0, isSell, id, q, p);
    }
  }

  lemma TradeBookKeeps(b: Book, t: Trade)
    requires WfBook(b)
    ensures WfBook(ProcessTrade(b, t).0)
    ensures Uncrossed(b) ==> Uncrossed(ProcessTrade(b, t).0)
  {
    TradeKeeps(b.bids, t);
    TradeKeeps(b.asks, t);
  }

  lemma SnapshotBookKeeps(b: Book, bidRows: seq<Row>, askRows: seq<Row>)
    requires WfBook(b) && ValidRows(false, bidRows) && ValidRows(true, askRows)
    ensures WfBook(ProcessSnapshot(b, bidRows, askRows).0)
  {
    SnapshotKeeps(b.bids, bidRows);
    SnapshotKeeps(b.asks, askRows);
  }
}
