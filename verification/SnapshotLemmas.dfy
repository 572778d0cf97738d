// Cutting orders: which orders a snapshot cuts, and what that leaves.
module SnapshotLemmas {
  import opened Common
  import opened SideModel
  import opened ListLemmas
  import opened SnapshotModel
  import opened Agreement
  import opened Matching

  // ---------- One cut ----------

  lemma CutKeeps(isSell: bool, b: seq<OrderV>, c: Fill)
    requires Sorted(isSell, b) && UniqueIds(b) && Live(b) && CutFits(b, c)
    ensures var b' := CutOne(b, c);
            && Sorted(isSell, b') && UniqueIds(b') && Live(b')
            && (forall id :: Has(b', id) ==> Has(b, id))
            && (forall id :: id != c.id ==> (Has(b', id) <==> Has(b, id)) && (Has(b, id) ==> Find(b', id) == Find(b, id)))
  {
    var o := Find(b, c.id);
    if o.Rem() == c.quantity {
      RemoveKeeps(b, c.id);
      RemoveSorted(isSell, b, c.id);
    } else {
      ReplaceKeeps(b, o.Take(c.quantity));
      ReplaceSorted(isSell, b, o.Take(c.quantity));
    }
  }

  lemma CutRest(isSell: bool, b: seq<OrderV>, cuts: seq<Fill>)
    requires Sorted(isSell, b) && UniqueIds(b) && Live(b) && cuts != [] && CutsFit(b, cuts)
    ensures CutsFit(CutOne(b, cuts[0]), cuts[1..])
  {
    CutKeeps(isSell, b, cuts[0]);
    forall c | c in cuts[1..] ensures CutFits(CutOne(b, cuts[0]), c) {
      assert c in cuts;
    }
  }

  // ---------- Where cuts come from ----------

  lemma {:induction false} SweepCuts(isSell: bool, b: seq<OrderV>, q: Quantity, p: Price)
    requires UniqueIds(b) && Live(b) && forall o :: o in b ==> o.price == p
    ensures CutsFit(b, Sweep(isSell, b, q, p).fills)
  {
    if q <= 0 || b == [] || !NoWorse(isSell, b[0].price, p) {
    } else if q < b[0].Rem() {
      var f := Sweep(isSell, b, q, p).fills;
      assert f[1..] == [];
    } else {
      SweepCuts(isSell, b[1..], q - b[0].Rem(), p);
      var rest := Sweep(isSell, b[1..], q - b[0].Rem(), p).fills;
      var f := Sweep(isSell, b, q, p).fills;
      assert f[1..] == rest;
      forall c | c in f ensures CutFits(b, c) {
        if c != f[0] { assert c in rest && CutFits(b[1..], c); }
      }
      forall c | c in rest ensures c.id != b[0].id {
        assert CutFits(b[1..], c);
      }
    }
  }

  lemma {:induction false} AtPriceFinds(b: seq<OrderV>, p: Price, id: OrderId)
    requires UniqueIds(b) && Has(AtPrice(b, p), id)
    ensures Has(b, id) && Find(b, id) == Find(AtPrice(b, p), id) && Find(b, id).price == p
  {
    if b[0].price == p && b[0].id == id {
    } else {
      AtPriceFinds(b[1..], p, id);
    }
  }

  lemma {:induction false} AtPriceUnique(b: seq<OrderV>, p: Price)
    requires UniqueIds(b)
    ensures UniqueIds(AtPrice(b, p))
  {
    if b != [] {
      AtPriceUnique(b[1..], p);
      AtPriceHas(b[1..], p, b[0].id);
    }
  }

  lemma QueueCuts(isSell: bool, b: seq<OrderV>, q: Quantity, p: Price)
    requires UniqueIds(b) && Live(b)
    ensures var cuts := Sweep(isSell, AtPrice(b, p), q, p).fills;
            CutsFit(b, cuts) && forall c :: c in cuts ==> c.price == p
  {
    AtPriceUnique(b, p);
    InAtPrice(b, p);
    SweepCuts(isSell, AtPrice(b, p), q, p);
    forall c | c in Sweep(isSell, AtPrice(b, p), q, p).fills ensures CutFits(b, c) && c.price == p {
      assert CutFits(AtPrice(b, p), c);
      AtPriceFinds(b, p, c.id);
    }
  }

  lemma {:induction false} MissingCuts(b: seq<OrderV>, rows: seq<Row>)
    requires UniqueIds(b) && Live(b)
    ensures CutsFit(b, Missing(b, rows))
    ensures forall c :: c in Missing(b, rows) ==> !HasRow(rows, c.price)
  {
    if b != [] {
      MissingCuts(b[1..], rows);
      var rest := Missing(b[1..], rows);
      forall c | c in rest ensures CutFits(b, c) && c.id != b[0].id {
        assert CutFits(b[1..], c);
      }
      if !HasRow(rows, b[0].price) {
        assert b[0] in b;
        assert Missing(b, rows)[1..] == rest;
      }
    }
  }

  lemma {:induction false} CutsAppend(b: seq<OrderV>, x: seq<Fill>, y: seq<Fill>)
    requires CutsFit(b, x) && CutsFit(b, y)
    requires forall c, d :: c in x && d in y ==> c.price != d.price
    ensures CutsFit(b, x + y)
  {
    if x == [] {
      assert x + y == y;
    } else {
      assert (x + y)[1..] == x[1..] + y;
      CutsAppend(b, x[1..], y);
      forall c | c in y ensures c.id != x[0].id {
        assert CutFits(b, c) && CutFits(b, x[0]);
      }
    }
  }

  // ---------- Rows against levels ----------

  // A later book with at least the orders of an earlier one.
  ghost predicate Extends(b: seq<OrderV>, b': seq<OrderV>) {
    forall id :: Has(b, id) ==> Has(b', id) && Find(b', id) == Find(b, id)
  }

  lemma ExtendsCuts(b: seq<OrderV>, b': seq<OrderV>, cuts: seq<Fill>)
    requires Extends(b, b') && CutsFit(b, cuts)
    ensures CutsFit(b', cuts)
  {
    forall c | c in cuts ensures CutFits(b', c) {
      assert CutFits(b, c);
    }
  }

  lemma GrowRowKeeps(s: Side, row: Row, id: OrderId)
    requires Sorted(s.isSell, s.book) && UniqueIds(s.book) && Live(s.book) && SortedRows(s.isSell, s.pendingAdd)
    requires row.quantity > 0
    ensures var g := GrowRow(s, row, id);
            && g.side == s.(book := g.side.book, pendingAdd := g.side.pendingAdd)
            && Sorted(s.isSell, g.side.book) && UniqueIds(g.side.book) && Live(g.side.book)
            && SortedRows(s.isSell, g.side.pendingAdd)
            && Extends(s.book, g.side.book)
            && CutsFit(g.side.book, g.cuts)
            && (forall c :: c in g.cuts ==> c.price == row.price)
  {
    hide Sum, AtPrice, Sweep, Insert, Credit, Sorted, UniqueIds, SortedRows;
    var queue := AtPrice(s.book, row.price);
    var more := row.quantity - Sum(queue);
    if queue != [] && more < 0 {
      QueueCuts(s.isSell, s.book, -more, row.price);
    } else if queue != [] && more == 0 {
    } else {
      SumNone();
      CreditSorted(s.isSell, s.pendingAdd, row.price, more);
      if !Has(s.book, id) {
        InsertKeeps(s.isSell, s.book, OrderV(id, more, 0, row.price));
        InsertSorted(s.isSell, s.book, OrderV(id, more, 0, row.price));
      }
    }
  }

  lemma {:induction false} RowBetter(isSell: bool, rows: seq<Row>, p: Price)
    requires forall r :: r in rows ==> Better(isSell, p, r.price)
    ensures !HasRow(rows, p)
  {
    if rows != [] {
      assert rows[0] in rows;
      RowBetter(isSell, rows[1..], p);
    }
  }

  lemma {:induction false} GrowAllKeeps(s: Side, rows: seq<Row>, id: OrderId)
    requires Sorted(s.isSell, s.book) && UniqueIds(s.book) && Live(s.book) && SortedRows(s.isSell, s.pendingAdd)
    requires ValidRows(s.isSell, rows)
    ensures var g := GrowAll(s, rows, id);
            && g.side == s.(book := g.side.book, pendingAdd := g.side.pendingAdd)
            && Sorted(s.isSell, g.side.book) && UniqueIds(g.side.book) && Live(g.side.book)
            && SortedRows(s.isSell, g.side.pendingAdd)
            && Extends(s.book, g.side.book)
            && CutsFit(g.side.book, g.cuts)
            && (forall c :: c in g.cuts ==> HasRow(rows, c.price))
    decreases |rows|
  {
    if rows != [] {
      assert rows[0] in rows;
      var g := GrowRow(s, rows[0], id);
      var h := GrowAll(g.side, rows[1..], g.nextId);
      hide GrowRow, Sorted, Live, UniqueIds;
      GrowRowKeeps(s, rows[0], id);
      GrowAllKeeps(g.side, rows[1..], g.nextId);
      ExtendsCuts(g.side.book, h.side.book, g.cuts);
      RowBetter(s.isSell, rows[1..], rows[0].price);
      CutsAppend(h.side.book, g.cuts, h.cuts);
    }
  }

  lemma SnapshotCuts(s: Side, rows: seq<Row>)
    requires Sorted(s.isSell, s.book) && UniqueIds(s.book) && Live(s.book) && SortedRows(s.isSell, s.pendingAdd)
    requires ValidRows(s.isSell, rows)
    ensures CutsFit(GrowAll(s, rows, FIRST_FAKE_ID).side.book, Cuts(s, rows))
  {
    var g := GrowAll(s, rows, FIRST_FAKE_ID);
    GrowAllKeeps(s, rows, FIRST_FAKE_ID);
    MissingCuts(g.side.book, rows);
    CutsAppend(g.side.book, g.cuts, Missing(g.side.book, rows));
  }

  // ---------- The loops of a resync, one turn at a time ----------

  // Rows still to do from side s, after events and cuts so far.
  ghost predicate Growing(s0: Side, rows: seq<Row>, s: Side, rest: seq<Row>, id: OrderId,
                          events: seq<OrderInfo>, cuts: seq<Fill>) {
    var h := GrowAll(s, rest, id);
    var g := GrowAll(s0, rows, FIRST_FAKE_ID);
    g.side == h.side && g.events == events + h.events && g.cuts == cuts + h.cuts
  }

  lemma GrowStart(s0: Side, rows: seq<Row>)
    ensures rows[0..] == rows && Growing(s0, rows, s0, rows[0..], FIRST_FAKE_ID, [], [])
  {
    assert rows[0..] == rows;
    var g := GrowAll(s0, rows, FIRST_FAKE_ID);
    assert [] + g.events == g.events && [] + g.cuts == g.cuts;
  }

  lemma GrowNext(s0: Side, rows: seq<Row>, s: Side, i: nat, id: OrderId, events: seq<OrderInfo>, cuts: seq<Fill>)
    requires i < |rows| && Growing(s0, rows, s, rows[i..], id, events, cuts)
    ensures var g := GrowRow(s, rows[i], id);
            Growing(s0, rows, g.side, rows[i + 1..], g.nextId, events + g.events, cuts + g.cuts)
  {
    hide GrowRow;
    var g := GrowRow(s, rows[i], id);
    assert rows[i..][1..] == rows[i + 1..];
    var h := GrowAll(g.side, rows[i + 1..], g.nextId);
    Assoc(events, g.events, h.events);
    Assoc(cuts, g.cuts, h.cuts);
  }

  lemma GrowEnd(s0: Side, rows: seq<Row>, s: Side, id: OrderId, events: seq<OrderInfo>, cuts: seq<Fill>)
    requires Growing(s0, rows, s, [], id, events, cuts)
    ensures var g := GrowAll(s0, rows, FIRST_FAKE_ID);
            g.side == s && g.events == events && g.cuts == cuts
  {
    assert events + [] == events && cuts + [] == cuts;
  }

  function WholeOrders(b: seq<OrderV>): seq<Fill> {
    if b == [] then [] else [Fill(b[0].id, b[0].Rem(), b[0].price)] + WholeOrders(b[1..])
  }

  lemma {:induction false} MissingLevel(a: seq<OrderV>, b: seq<OrderV>, rows: seq<Row>, p: Price)
    requires forall o :: o in a ==> o.price == p
    ensures Missing(a + b, rows) == (if HasRow(rows, p) then [] else WholeOrders(a)) + Missing(b, rows)
  {
    if a == [] {
      assert a + b == b && [] + Missing(b, rows) == Missing(b, rows);
    } else {
      assert (a + b)[1..] == a[1..] + b;
      MissingLevel(a[1..], b, rows, p);
      assert a[0] in a;
      Assoc([Fill(a[0].id, a[0].Rem(), p)], WholeOrders(a[1..]), Missing(b, rows));
    }
  }

  lemma MissingNone(rows: seq<Row>)
    ensures Missing([], rows) == []
  {
  }

  lemma SumNone()
    ensures Sum([]) == 0
  {
  }

  lemma {:induction false} RowPrices(rows: seq<Row>, p: Price)
    ensures HasRow(rows, p) <==> p in set r | r in rows :: r.price
  {
    if rows != [] {
      RowPrices(rows[1..], p);
      assert forall r :: r in rows <==> r == rows[0] || r in rows[1..];
    }
  }
}
