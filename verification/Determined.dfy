// What determines a side: its queues, its quantities price by price, and the levels that its
// views show. Messages are described in these terms alone.
module Determined {
  import opened Common
  import opened SideModel
  import opened ListLemmas
  import opened Matching
  import opened SnapshotModel
  import opened SnapshotLemmas
  import opened SnapshotTheorems
  import opened BookModel
  import opened Invariants
  import opened Greedy

  // ---------- Lists ----------

  // Lists in book order with the same queues are the same.
  lemma {:induction false} SameQueues(isSell: bool, b: seq<OrderV>, c: seq<OrderV>)
    requires Sorted(isSell, b) && Sorted(isSell, c) && forall p :: AtPrice(b, p) == AtPrice(c, p)
    ensures b == c
  {
    if b == [] || c == [] {
      Inhabited(b, c);
      Inhabited(c, b);
    } else {
      FrontNoWorse(isSell, b, c);
      FrontNoWorse(isSell, c, b);
      var p := b[0].price;
      assert AtPrice(b, p) == AtPrice(c, p);
      forall x ensures AtPrice(b[1..], x) == AtPrice(c[1..], x) {
        assert AtPrice(b, x) == AtPrice(c, x);
        assert x == p ==> AtPrice(b, x)[1..] == AtPrice(b[1..], x) && AtPrice(c, x)[1..] == AtPrice(c[1..], x);
      }
      SameQueues(isSell, b[1..], c[1..]);
      assert AtPrice(b, p)[0] == b[0] && AtPrice(c, p)[0] == c[0];
      assert b == [b[0]] + b[1..] && c == [c[0]] + c[1..];
    }
  }

  lemma Inhabited(b: seq<OrderV>, c: seq<OrderV>)
    requires forall p :: AtPrice(b, p) == AtPrice(c, p)
    ensures b != [] ==> c != []
  {
    if b != [] { assert AtPrice(b, b[0].price) == AtPrice(c, b[0].price); }
  }

  lemma FrontNoWorse(isSell: bool, b: seq<OrderV>, c: seq<OrderV>)
    requires b != [] && c != [] && Sorted(isSell, b) && forall p :: AtPrice(b, p) == AtPrice(c, p)
    ensures NoWorse(isSell, b[0].price, c[0].price)
  {
    var p := c[0].price;
    InAtPrice(b, p);
    assert AtPrice(b, p) == AtPrice(c, p);
    SortedFront(isSell, b);
    assert AtPrice(b, p)[0] in b;
  }

  // The n orders in front are those that are better than p.
  ghost predicate Leading(isSell: bool, b: seq<OrderV>, p: Price, n: nat) {
    && n <= |b|
    && (forall j :: 0 <= j < n ==> Better(isSell, b[j].price, p))
    && (n < |b| ==> !Better(isSell, b[n].price, p))
  }

  lemma {:induction false} LeadingExactly(isSell: bool, b: seq<OrderV>, p: Price, n: nat)
    ensures n == BetterCount(isSell, b, p) <==> Leading(isSell, b, p, n)
  {
    if b != [] && Better(isSell, b[0].price, p) && n > 0 {
      LeadingExactly(isSell, b[1..], p, n - 1);
      assert |b[1..]| == |b| - 1 && forall j :: 0 < j < |b| ==> b[j] == b[1..][j - 1];
      if Leading(isSell, b[1..], p, n - 1) {
        forall j | 0 <= j < n ensures Better(isSell, b[j].price, p) {
          assert j > 0 ==> b[j] == b[1..][j - 1];
        }
      }
      if Leading(isSell, b, p, n) {
        forall j | 0 <= j < n - 1 ensures Better(isSell, b[1..][j].price, p) {
          assert b[1..][j] == b[j + 1];
        }
      }
    }
  }

  // ---------- Rows ----------

  // Rows in book order with the same prices and quantities are the same.
  lemma {:induction false} SameKeyed(isSell: bool, x: seq<Row>, y: seq<Row>)
    requires SortedRows(isSell, x) && SortedRows(isSell, y)
    requires forall p :: (HasRow(x, p) <==> HasRow(y, p)) && QtyAt(x, p) == QtyAt(y, p)
    ensures x == y
  {
    if x == [] || y == [] {
      FirstRow(x);
      FirstRow(y);
    } else {
      RowNoWorse(isSell, x, y[0].price);
      RowNoWorse(isSell, y, x[0].price);
      RowBetter(isSell, x[1..], x[0].price);
      RowBetter(isSell, y[1..], y[0].price);
      NoQty(isSell, x[1..], x[0].price);
      NoQty(isSell, y[1..], y[0].price);
      assert QtyAt(x, x[0].price) == QtyAt(y, x[0].price);
      forall p ensures (HasRow(x[1..], p) <==> HasRow(y[1..], p)) && QtyAt(x[1..], p) == QtyAt(y[1..], p) {
        assert (HasRow(x, p) <==> HasRow(y, p)) && QtyAt(x, p) == QtyAt(y, p);
      }
      SameKeyed(isSell, x[1..], y[1..]);
    }
  }

  lemma FirstRow(rows: seq<Row>)
    ensures if rows == [] then forall p :: !HasRow(rows, p) else HasRow(rows, rows[0].price)
  {
  }

  lemma {:induction false} RowNoWorse(isSell: bool, rows: seq<Row>, p: Price)
    requires SortedRows(isSell, rows) && HasRow(rows, p)
    ensures NoWorse(isSell, rows[0].price, p)
  {
    if rows[0].price != p {
      RowNoWorse(isSell, rows[1..], p);
      assert rows[1..][0] in rows[1..];
    }
  }

  // What is expected at p rises by q, and nowhere else.
  ghost predicate Expected(isSell: bool, m: seq<Row>, m': seq<Row>, p: Price, q: Quantity) {
    if q == 0 then m' == m
    else
      && SortedRows(isSell, m')
      && forall x :: (HasRow(m', x) <==> HasRow(m, x) || x == p)
                  && QtyAt(m', x) == QtyAt(m, x) + if x == p then q else 0
  }

  lemma {:induction false} CreditRows(isSell: bool, m: seq<Row>, p: Price, q: Quantity)
    ensures forall x :: HasRow(Credit(isSell, m, p, q), x) <==> HasRow(m, x) || x == p
  {
    if m == [] || Better(isSell, p, m[0].price) {
      assert Credit(isSell, m, p, q)[1..] == m;
    } else if m[0].price == p {
      assert Credit(isSell, m, p, q)[1..] == m[1..];
    } else {
      CreditRows(isSell, m[1..], p, q);
      assert Credit(isSell, m, p, q)[1..] == Credit(isSell, m[1..], p, q);
    }
  }

  lemma ExpectedExactly(isSell: bool, m: seq<Row>, m': seq<Row>, p: Price, q: Quantity)
    requires SortedRows(isSell, m) && q >= 0
    ensures m' == (if q > 0 then Credit(isSell, m, p, q) else m) <==> Expected(isSell, m, m', p, q)
  {
    if q > 0 {
      var c := Credit(isSell, m, p, q);
      CreditSorted(isSell, m, p, q);
      CreditRows(isSell, m, p, q);
      forall x ensures QtyAt(c, x) == QtyAt(m, x) + if x == p then q else 0 { QtyCredit(isSell, m, p, q, x); }
      hide SortedRows, QtyAt, HasRow, Credit;
      if Expected(isSell, m, m', p, q) { SameKeyed(isSell, m', c); }
    }
  }

  // ---------- Debts ----------

  // What is owed at p falls by q, and nowhere else; nothing is owed at zero.
  ghost predicate DebtsFall(m: map<Price, Quantity>, m': map<Price, Quantity>, p: Price, q: Quantity) {
    Canonical(m') && forall x :: Get(m', x) == Get(m, x) - if x == p then q else 0
  }

  // Every fill is owed at its price.
  ghost predicate DebtsRise(m: map<Price, Quantity>, m': map<Price, Quantity>, fills: seq<Fill>) {
    Canonical(m') && forall x :: Get(m', x) == Get(m, x) + FillTotalAt(fills, x)
  }

  lemma SameDebts(m: map<Price, Quantity>, m': map<Price, Quantity>)
    requires Canonical(m) && Canonical(m') && forall p :: Get(m, p) == Get(m', p)
    ensures m == m'
  {
    forall p ensures p in m <==> p in m' {
      assert Get(m, p) == Get(m', p);
    }
    forall p | p in m ensures m[p] == m'[p] {
      assert Get(m, p) == Get(m', p);
    }
  }

  lemma SettledExactly(m: map<Price, Quantity>, m': map<Price, Quantity>, q: Quantity, p: Price)
    requires Canonical(m) && q >= 0
    ensures RemoveMatched(m, q, p) == Min(Get(m, p), q)
    ensures m' == RemoveLeft(m, q, p) <==> DebtsFall(m, m', p, Min(Get(m, p), q))
  {
    forall x ensures Get(RemoveLeft(m, q, p), x) == Get(m, x) - if x == p then RemoveMatched(m, q, p) else 0 {
      SettleGet(m, q, p, x);
    }
    SettleGet(m, q, p, p);
    hide Get, Canonical, RemoveLeft, RemoveMatched;
    if DebtsFall(m, m', p, Min(Get(m, p), q)) { SameDebts(m', RemoveLeft(m, q, p)); }
  }

  lemma OwedExactly(m: map<Price, Quantity>, m': map<Price, Quantity>, fills: seq<Fill>)
    requires Canonical(m) && forall f :: f in fills ==> f.quantity > 0
    ensures m' == OweAll(m, fills) <==> DebtsRise(m, m', fills)
  {
    forall x ensures Get(OweAll(m, fills), x) == Get(m, x) + FillTotalAt(fills, x) { OweGet(m, fills, x); }
    OweKeeps(m, fills);
    hide Get, Canonical, OweAll, FillTotalAt;
    if DebtsRise(m, m', fills) { SameDebts(m', OweAll(m, fills)); }
  }

  // Every EXEC event, and no other, is owed at its price.
  lemma {:induction false} OweEventsExactly(m: map<Price, Quantity>, events: seq<OrderInfo>, p: Price)
    ensures Get(OweEvents(m, events), p) == Get(m, p) + ReportedAt(events, EXEC, p)
    ensures p in OweEvents(m, events) <==> p in m || exists e :: e in events && e.event == EXEC && e.price == p
    decreases |events|
  {
    if events != [] {
      var e := events[0];
      OweEventsExactly(if e.event == EXEC then Owe(m, e.price, e.quantity) else m, events[1..], p);
      assert e in events && forall x :: x in events <==> x == e || x in events[1..];
    }
  }

  // ---------- Views ----------

  // The view has, in book order, a row for each level of the list and for each drained level,
  // with what rests there.
  ghost predicate Shows(isSell: bool, view: seq<Row>, b: seq<OrderV>, drained: set<Price>) {
    && SortedRows(isSell, view)
    && forall x :: (HasRow(view, x) <==> x in PriceSet(b) || x in drained) && QtyAt(view, x) == TotalAt(b, x)
  }

  lemma ShownOnce(isSell: bool, v: seq<Row>, w: seq<Row>, b: seq<OrderV>, drained: set<Price>)
    requires Shows(isSell, v, b, drained) && Shows(isSell, w, b, drained)
    ensures v == w
  {
    hide SortedRows, HasRow, QtyAt, TotalAt, PriceSet;
    SameKeyed(isSell, v, w);
  }

  lemma {:induction false} ViewPrices(b: seq<OrderV>, x: Price)
    ensures HasRow(L2View(b), x) <==> x in PriceSet(b)
  {
    if b != [] {
      var rest := L2View(b[1..]);
      ViewPrices(b[1..], x);
      PricesFront(b);
      if rest != [] && rest[0].price == b[0].price {
        assert L2View(b)[1..] == rest[1..];
      } else {
        assert L2View(b)[1..] == rest;
      }
    }
  }

  lemma PricesFront(b: seq<OrderV>)
    requires b != []
    ensures PriceSet(b) == {b[0].price} + PriceSet(b[1..])
  {
    assert b == [b[0]] + b[1..];
  }

  lemma ViewShows(isSell: bool, b: seq<OrderV>)
    requires Sorted(isSell, b) && Live(b)
    ensures Shows(isSell, L2View(b), b, {})
  {
    ViewRows(isSell, b);
    forall x ensures HasRow(L2View(b), x) <==> x in PriceSet(b) { ViewPrices(b, x); }
  }

  // The view after a fill at p.
  lemma FillViewShows(isSell: bool, p: Price, rest: seq<OrderV>)
    requires Sorted(isSell, rest) && Live(rest) && forall o :: o in rest ==> NoWorse(isSell, p, o.price)
    ensures Shows(isSell, ViewAfterFill(p, rest), rest, {p})
  {
    ViewShows(isSell, rest);
    ViewRows(isSell, rest);
    if rest != [] && rest[0].price == p {
      assert rest[0] in rest;
    } else {
      var v, w := L2View(rest), ViewAfterFill(p, rest);
      assert w[1..] == v;
      NothingAt(isSell, rest, p);
      forall r | r in v ensures Better(isSell, p, r.price) {
        var o :| o in rest && o.price == r.price;
        assert o.price in PriceSet(rest);
      }
      forall x ensures (HasRow(w, x) <==> x in PriceSet(rest) || x == p) && QtyAt(w, x) == TotalAt(rest, x) {
        assert (HasRow(v, x) <==> x in PriceSet(rest)) && QtyAt(v, x) == TotalAt(rest, x);
      }
    }
  }

  lemma NothingAt(isSell: bool, b: seq<OrderV>, p: Price)
    requires Sorted(isSell, b) && (b == [] || b[0].price != p) && forall o :: o in b ==> NoWorse(isSell, p, o.price)
    ensures TotalAt(b, p) == 0 && p !in PriceSet(b)
  {
    if b != [] { assert b[0] in b; SortedFront(isSell, b); }
    NoneAtPrice(b, p);
  }

  lemma Sound(s: Side)
    requires Wf(s)
    ensures Sorted(s.isSell, s.book) && UniqueIds(s.book) && Live(s.book)
    ensures SortedRows(s.isSell, s.pendingAdd) && Canonical(s.pendingRemove)
  {
  }
}
