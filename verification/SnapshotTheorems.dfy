// A resync makes the side show exactly the snapshot, provided the ids of the orders it
// makes up are free; what it reports adds up; and a second look changes nothing.
module SnapshotTheorems {
  import opened Common
  import opened SideModel
  import opened ListLemmas
  import opened SnapshotModel
  import opened SnapshotLemmas

  function TotalAt(b: seq<OrderV>, p: Price): Quantity {
    Sum(AtPrice(b, p))
  }

  // The quantity a snapshot shows at a price.
  function QtyAt(rows: seq<Row>, p: Price): Quantity {
    if rows == [] then 0 else if rows[0].price == p then rows[0].quantity else QtyAt(rows[1..], p)
  }

  function CutTotal(cuts: seq<Fill>, p: Price): Quantity {
    if cuts == [] then 0
    else (if cuts[0].price == p then cuts[0].quantity else 0) + CutTotal(cuts[1..], p)
  }

  // ---------- The view determines and is determined by the totals ----------

  lemma {:induction false} ViewRows(isSell: bool, b: seq<OrderV>)
    requires Sorted(isSell, b) && Live(b)
    ensures ValidRows(isSell, L2View(b))
    ensures forall p :: QtyAt(L2View(b), p) == TotalAt(b, p)
    ensures forall r :: r in L2View(b) ==> exists o :: o in b && o.price == r.price
  {
    if b != [] {
      ViewRows(isSell, b[1..]);
      ViewHead(b[1..]);
      var rest := L2View(b[1..]);
      var v := L2View(b);
      assert b[0] in b;
      forall r | r in v ensures r.quantity > 0 && exists o :: o in b && o.price == r.price {
        if r == v[0] {
          assert b[0].price == r.price;
          if rest != [] { assert rest[0] in rest; }
        } else {
          assert r in rest;
          var o :| o in b[1..] && o.price == r.price;
          assert o in b;
        }
      }
      if rest != [] && rest[0].price == b[0].price {
        assert v[1..] == rest[1..];
      } else {
        assert v[1..] == rest;
        forall r | r in rest ensures Better(isSell, b[0].price, r.price) {
          var o :| o in b[1..] && o.price == r.price;
          assert NoWorse(isSell, b[0].price, o.price);
          if r != rest[0] { assert r in rest[1..]; }
          assert b[1] in b[1..] && rest[0].price == b[1].price;
        }
      }
      forall p ensures QtyAt(v, p) == TotalAt(b, p) {
        assert QtyAt(rest, p) == TotalAt(b[1..], p);
        if rest != [] && rest[0].price == b[0].price {
          assert QtyAt(rest, b[0].price) == TotalAt(b[1..], b[0].price);
        } else if p == b[0].price {
          NoQty(isSell, rest, p);
        }
      }
    }
  }

  lemma {:induction false} NoQty(isSell: bool, rows: seq<Row>, p: Price)
    requires forall r :: r in rows ==> Better(isSell, p, r.price)
    ensures QtyAt(rows, p) == 0
  {
    if rows != [] {
      assert rows[0] in rows;
      NoQty(isSell, rows[1..], p);
    }
  }

  lemma Visible(rows: seq<Row>)
    requires Positive(rows) && rows != []
    ensures QtyAt(rows, rows[0].price) > 0
  {
    assert rows[0] in rows;
  }

  // Two snapshots that show the same quantity at every price are the same.
  lemma {:induction false} SameRows(isSell: bool, x: seq<Row>, y: seq<Row>)
    requires ValidRows(isSell, x) && ValidRows(isSell, y)
    requires forall p :: QtyAt(x, p) == QtyAt(y, p)
    ensures x == y
  {
    if x == [] {
      if y != [] {
        Visible(y);
      }
    } else {
      assert x[0] in x && QtyAt(x, x[0].price) == QtyAt(y, x[0].price);
      if y != [] {
        assert y[0] in y && QtyAt(x, y[0].price) == QtyAt(y, y[0].price);
        if Better(isSell, x[0].price, y[0].price) {
          forall r | r in y ensures Better(isSell, x[0].price, r.price) {
            assert r == y[0] || r in y[1..];
          }
          NoQty(isSell, y, x[0].price);
        }
        if Better(isSell, y[0].price, x[0].price) {
          forall r | r in x ensures Better(isSell, y[0].price, r.price) {
            assert r == x[0] || r in x[1..];
          }
          NoQty(isSell, x, y[0].price);
        }
        NoQty(isSell, x[1..], x[0].price);
        NoQty(isSell, y[1..], y[0].price);
        forall p ensures QtyAt(x[1..], p) == QtyAt(y[1..], p) {
          assert QtyAt(x, p) == QtyAt(y, p);
        }
        assert Positive(x[1..]) && Positive(y[1..]);
        SameRows(isSell, x[1..], y[1..]);
      }
    }
  }

  // ---------- Totals of cuts ----------

  lemma {:induction false} CutTotalAppend(x: seq<Fill>, y: seq<Fill>, p: Price)
    ensures CutTotal(x + y, p) == CutTotal(x, p) + CutTotal(y, p)
  {
    if x == [] {
      assert x + y == y;
    } else {
      assert (x + y)[1..] == x[1..] + y;
      CutTotalAppend(x[1..], y, p);
    }
  }

  lemma CutOneTotal(b: seq<OrderV>, c: Fill, p: Price)
    requires UniqueIds(b) && CutFits(b, c)
    ensures TotalAt(CutOne(b, c), p) == TotalAt(b, p) - if c.price == p then c.quantity else 0
  {
    var o := Find(b, c.id);
    AtPriceHasFind(b, c.id);
    if o.Rem() == c.quantity {
      RemoveAtPrice(b, c.id, p);
      SumRemove(AtPrice(b, c.price), c.id);
    } else {
      ReplaceAtPrice(b, o.Take(c.quantity), p);
      SumReplace(AtPrice(b, c.price), o.Take(c.quantity));
    }
  }

  lemma {:induction false} AtPriceHasFind(b: seq<OrderV>, id: OrderId)
    requires Has(b, id)
    ensures var p := Find(b, id).price; Has(AtPrice(b, p), id) && Find(AtPrice(b, p), id) == Find(b, id)
  {
    if b[0].id != id { AtPriceHasFind(b[1..], id); }
  }

  lemma {:induction false} CutAllTotal(isSell: bool, b: seq<OrderV>, cuts: seq<Fill>, p: Price)
    requires Sorted(isSell, b) && UniqueIds(b) && Live(b) && CutsFit(b, cuts)
    ensures var b' := CutAll(b, cuts);
            && TotalAt(b', p) == TotalAt(b, p) - CutTotal(cuts, p)
            && Sorted(isSell, b') && UniqueIds(b') && Live(b')
    decreases |cuts|
  {
    if cuts != [] {
      assert cuts[0] in cuts;
      CutKeeps(isSell, b, cuts[0]);
      CutRest(isSell, b, cuts);
      CutOneTotal(b, cuts[0], p);
      CutAllTotal(isSell, CutOne(b, cuts[0]), cuts[1..], p);
    }
  }

  // The front orders of a level add up to the quantity asked for.
  lemma {:induction false} FrontTotal(isSell: bool, b: seq<OrderV>, q: Quantity, p: Price)
    requires Live(b) && (forall o :: o in b ==> o.price == p) && 0 <= q <= Sum(b)
    ensures CutTotal(Sweep(isSell, b, q, p).fills, p) == q
  {
    if q > 0 {
      assert b[0] in b;
      if q >= b[0].Rem() {
        FrontTotal(isSell, b[1..], q - b[0].Rem(), p);
        var r := Sweep(isSell, b[1..], q - b[0].Rem(), p);
        assert ([Fill(b[0].id, b[0].Rem(), p)] + r.fills)[1..] == r.fills;
      } else {
        assert Sweep(isSell, b, q, p).fills[1..] == [];
      }
    }
  }

  lemma {:induction false} MissingTotal(b: seq<OrderV>, rows: seq<Row>, p: Price)
    ensures CutTotal(Missing(b, rows), p) == if HasRow(rows, p) then 0 else TotalAt(b, p)
  {
    if b != [] {
      MissingTotal(b[1..], rows, p);
      if !HasRow(rows, b[0].price) {
        assert Missing(b, rows)[1..] == Missing(b[1..], rows);
      }
    }
  }

  lemma {:induction false} NoCutAt(cuts: seq<Fill>, p: Price)
    requires forall c :: c in cuts ==> c.price != p
    ensures CutTotal(cuts, p) == 0
  {
    if cuts != [] {
      assert cuts[0] in cuts;
      NoCutAt(cuts[1..], p);
    }
  }

  // ---------- Totals after a resync ----------

  // How many rows exceed their level, hence how many orders a resync makes up.
  function Rises(b: seq<OrderV>, rows: seq<Row>): nat {
    if rows == [] then 0
    else (if rows[0].quantity > TotalAt(b, rows[0].price) then 1 else 0) + Rises(b, rows[1..])
  }

  // The id used for the row at p.
  function IdAt(b: seq<OrderV>, rows: seq<Row>, id: OrderId, p: Price): OrderId {
    if rows == [] || rows[0].price == p then id
    else IdAt(b, rows[1..], if rows[0].quantity > TotalAt(b, rows[0].price) then id + 1 else id, p)
  }

  // The ids a resync will use, from the first one on, are free.
  ghost predicate FreeFrom(b: seq<OrderV>, rows: seq<Row>, first: OrderId) {
    forall id :: first <= id < first + Rises(b, rows) ==> !Has(b, id)
  }

  ghost predicate FreshIds(b: seq<OrderV>, rows: seq<Row>) {
    FreeFrom(b, rows, FIRST_FAKE_ID)
  }

  // The row at p asks for an order whose id is taken, so the order is not added.
  ghost predicate Blocked(b: seq<OrderV>, rows: seq<Row>, id: OrderId, p: Price) {
    QtyAt(rows, p) > TotalAt(b, p) && Has(b, IdAt(b, rows, id, p))
  }

  lemma {:induction false} IdAtSame(b: seq<OrderV>, b': seq<OrderV>, rows: seq<Row>, id: OrderId, p: Price)
    requires forall r :: r in rows ==> TotalAt(b, r.price) == TotalAt(b', r.price)
    ensures IdAt(b, rows, id, p) == IdAt(b', rows, id, p) >= id
  {
    if rows != [] && rows[0].price != p {
      assert rows[0] in rows;
      IdAtSame(b, b', rows[1..], if rows[0].quantity > TotalAt(b, rows[0].price) then id + 1 else id, p);
    }
  }

  lemma GrowRowTotal(s: Side, row: Row, id: OrderId, p: Price)
    requires Sorted(s.isSell, s.book) && UniqueIds(s.book) && Live(s.book) && row.quantity > 0
    ensures var g := GrowRow(s, row, id);
            var rises := row.quantity > TotalAt(s.book, row.price);
            && (p != row.price ==> TotalAt(g.side.book, p) == TotalAt(s.book, p) && CutTotal(g.cuts, p) == 0)
            && TotalAt(g.side.book, row.price) - CutTotal(g.cuts, row.price)
               == (if rises && Has(s.book, id) then TotalAt(s.book, row.price) else row.quantity)
            && g.nextId == (if rises then id + 1 else id)
            && (forall x :: x >= g.nextId ==> (Has(g.side.book, x) <==> Has(s.book, x)))
  {
    hide Sorted, UniqueIds, Live, Sweep, AddOrder, Has;
    var more := row.quantity - TotalAt(s.book, row.price);
    if more < 0 {
      FrontCutTotal(s.isSell, s.book, -more, row.price, p);
      FrontCutTotal(s.isSell, s.book, -more, row.price, row.price);
    } else if more > 0 {
      AddTotal(s.isSell, s.book, OrderV(id, more, 0, row.price), p);
      AddTotal(s.isSell, s.book, OrderV(id, more, 0, row.price), row.price);
    }
  }

  lemma FrontCutTotal(isSell: bool, b: seq<OrderV>, q: Quantity, price: Price, p: Price)
    requires UniqueIds(b) && Live(b) && 0 <= q <= TotalAt(b, price)
    ensures CutTotal(Sweep(isSell, AtPrice(b, price), q, price).fills, p) == if p == price then q else 0
  {
    InAtPrice(b, price);
    QueueCuts(isSell, b, q, price);
    if p == price {
      FrontTotal(isSell, AtPrice(b, price), q, price);
    } else {
      NoCutAt(Sweep(isSell, AtPrice(b, price), q, price).fills, p);
    }
  }

  lemma AddTotal(isSell: bool, b: seq<OrderV>, o: OrderV, p: Price)
    requires Sorted(isSell, b)
    ensures TotalAt(AddOrder(isSell, b, o), p) == TotalAt(b, p) + if Has(b, o.id) || p != o.price then 0 else o.Rem()
    ensures forall x :: x != o.id ==> (Has(AddOrder(isSell, b, o), x) <==> Has(b, x))
  {
    if !Has(b, o.id) {
      InsertAtPrice(isSell, b, o, p);
      InsertKeeps(isSell, b, o);
      SumBack(AtPrice(b, p), o);
      assert AtPrice(b, p) + [] == AtPrice(b, p);
    }
  }

  lemma {:induction false} GrowTotals(s: Side, rows: seq<Row>, id: OrderId, p: Price)
    requires Sorted(s.isSell, s.book) && UniqueIds(s.book) && Live(s.book) && SortedRows(s.isSell, s.pendingAdd)
    requires ValidRows(s.isSell, rows)
    ensures var g := GrowAll(s, rows, id);
            TotalAt(g.side.book, p) - CutTotal(g.cuts, p)
            == if !HasRow(rows, p) || Blocked(s.book, rows, id, p) then TotalAt(s.book, p) else QtyAt(rows, p)
    decreases |rows|
  {
    hide GrowRow, Sorted, UniqueIds, Live, SortedRows, TotalAt, Has;
    if rows != [] {
      var row := rows[0];
      var g := GrowRow(s, row, id);
      var h := GrowAll(g.side, rows[1..], g.nextId);
      RowsAfter(s.isSell, rows);
      GrowRowKeeps(s, row, id);
      GrowRowTotal(s, row, id, p);
      GrowTotals(g.side, rows[1..], g.nextId, p);
      CutTotalAppend(g.cuts, h.cuts, p);
      RowBetter(s.isSell, rows[1..], row.price);
      if p != row.price {
        forall r | r in rows[1..] ensures TotalAt(s.book, r.price) == TotalAt(g.side.book, r.price) {
          GrowRowTotal(s, row, id, r.price);
        }
        IdAtSame(s.book, g.side.book, rows[1..], g.nextId, p);
      }
    }
  }

  lemma {:induction false} QtyRow(rows: seq<Row>, p: Price)
    requires Positive(rows)
    ensures QtyAt(rows, p) > 0 <==> HasRow(rows, p)
    ensures QtyAt(rows, p) >= 0
  {
    if rows != [] {
      assert rows[0] in rows;
      QtyRow(rows[1..], p);
    }
  }

  // Level by level: a level without a row is gone, and a row is met unless its id was taken.
  lemma ResyncTotals(s: Side, rows: seq<Row>, p: Price)
    requires Wf(s) && ValidRows(s.isSell, rows)
    ensures TotalAt(Resync(s, rows).book, p)
         == if !HasRow(rows, p) then 0
            else if Blocked(s.book, rows, FIRST_FAKE_ID, p) then TotalAt(s.book, p)
            else QtyAt(rows, p)
    ensures var b := Resync(s, rows).book;
            Sorted(s.isSell, b) && UniqueIds(b) && Live(b)
  {
    var g := GrowAll(s, rows, FIRST_FAKE_ID);
    GrowAllKeeps(s, rows, FIRST_FAKE_ID);
    SnapshotCuts(s, rows);
    CutAllTotal(s.isSell, g.side.book, Cuts(s, rows), p);
    CutTotalAppend(g.cuts, Missing(g.side.book, rows), p);
    MissingTotal(g.side.book, rows, p);
    GrowTotals(s, rows, FIRST_FAKE_ID, p);
    if !HasRow(rows, p) { NoCutAt(g.cuts, p); }
  }

  lemma {:induction false} IdRange(b: seq<OrderV>, rows: seq<Row>, id: OrderId, p: Price)
    requires Positive(rows) && HasRow(rows, p) && QtyAt(rows, p) > TotalAt(b, p)
    ensures id <= IdAt(b, rows, id, p) < id + Rises(b, rows)
  {
    if rows[0].price != p {
      IdRange(b, rows[1..], if rows[0].quantity > TotalAt(b, rows[0].price) then id + 1 else id, p);
    }
  }

  lemma {:induction false} IdOnto(isSell: bool, b: seq<OrderV>, rows: seq<Row>, id: OrderId, x: OrderId) returns (p: Price)
    requires ValidRows(isSell, rows) && id <= x < id + Rises(b, rows)
    ensures HasRow(rows, p) && QtyAt(rows, p) > TotalAt(b, p) && IdAt(b, rows, id, p) == x
  {
    var rises := rows[0].quantity > TotalAt(b, rows[0].price);
    if rises && x == id {
      p := rows[0].price;
    } else {
      p := IdOnto(isSell, b, rows[1..], if rises then id + 1 else id, x);
      RowBetter(isSell, rows[1..], rows[0].price);
    }
  }

  // The resync shows exactly the snapshot if and only if the ids it makes up are free.
  lemma ResyncExact(s: Side, rows: seq<Row>)
    requires Wf(s) && s.snapQueue == [] && ValidRows(s.isSell, rows)
    ensures L2View(ApplySnapshot(s, rows).book) == rows <==> FreshIds(s.book, rows)
  {
    var b := Resync(s, rows).book;
    ResyncTotals(s, rows, 0.0);
    ViewRows(s.isSell, b);
    if FreshIds(s.book, rows) {
      forall p ensures QtyAt(L2View(b), p) == QtyAt(rows, p) {
        ResyncTotals(s, rows, p);
        QtyRow(rows, p);
        if HasRow(rows, p) && QtyAt(rows, p) > TotalAt(s.book, p) {
          IdRange(s.book, rows, FIRST_FAKE_ID, p);
        }
      }
      SameRows(s.isSell, L2View(b), rows);
    } else {
      var id :| FIRST_FAKE_ID <= id < FIRST_FAKE_ID + Rises(s.book, rows) && Has(s.book, id);
      var p := IdOnto(s.isSell, s.book, rows, FIRST_FAKE_ID, id);
      ResyncTotals(s, rows, p);
      assert QtyAt(L2View(b), p) == TotalAt(b, p) < QtyAt(rows, p);
    }
  }

  // ---------- A second look ----------

  lemma {:induction false} GrowNothing(s: Side, rows: seq<Row>, id: OrderId)
    requires Positive(rows) && forall r :: r in rows ==> TotalAt(s.book, r.price) == r.quantity
    ensures GrowAll(s, rows, id) == Grown(s, [], [], id)
    decreases |rows|
  {
    if rows != [] {
      assert rows[0] in rows;
      assert GrowRow(s, rows[0], id) == Grown(s, [], [], id);
      GrowNothing(s, rows[1..], id);
    }
  }

  lemma {:induction false} QtyOf(isSell: bool, rows: seq<Row>, r: Row)
    requires SortedRows(isSell, rows) && r in rows
    ensures QtyAt(rows, r.price) == r.quantity
  {
    if rows[0] != r { QtyOf(isSell, rows[1..], r); }
  }

  lemma {:induction false} MissingNothing(b: seq<OrderV>, rows: seq<Row>)
    requires forall o :: o in b ==> HasRow(rows, o.price)
    ensures Missing(b, rows) == []
  {
    if b != [] {
      assert b[0] in b;
      MissingNothing(b[1..], rows);
    }
  }

  lemma {:induction false} SumPositive(b: seq<OrderV>)
    requires Live(b)
    ensures if b == [] then Sum(b) == 0 else Sum(b) > 0
  {
    if b != [] {
      assert b[0] in b;
      SumPositive(b[1..]);
    }
  }

  // A snapshot that the side already shows reports nothing and changes nothing.
  lemma SecondLook(s: Side, rows: seq<Row>)
    requires Wf(s) && s.snapQueue == [] && L2View(s.book) == rows
    ensures ApplySnapshot(s, rows) == s && SnapshotEvents(s, rows) == []
  {
    ViewRows(s.isSell, s.book);
    forall r | r in rows ensures TotalAt(s.book, r.price) == r.quantity {
      QtyOf(s.isSell, rows, r);
    }
    GrowNothing(s, rows, FIRST_FAKE_ID);
    forall o | o in s.book ensures HasRow(rows, o.price) {
      InAtPrice(s.book, o.price);
      SumPositive(AtPrice(s.book, o.price));
      assert o in AtPrice(s.book, o.price);
      assert QtyAt(rows, o.price) == TotalAt(s.book, o.price);
      QtyRow(rows, o.price);
    }
    MissingNothing(s.book, rows);
  }

  // ---------- The ledger ----------

  function EventTotal(events: seq<OrderInfo>, e: OrderEvent): Quantity {
    if events == [] then 0
    else (if events[0].event == e then events[0].quantity else 0) + EventTotal(events[1..], e)
  }

  function CutSum(cuts: seq<Fill>): Quantity {
    if cuts == [] then 0 else cuts[0].quantity + CutSum(cuts[1..])
  }

  lemma {:induction false} EventTotalAppend(x: seq<OrderInfo>, y: seq<OrderInfo>, e: OrderEvent)
    ensures EventTotal(x + y, e) == EventTotal(x, e) + EventTotal(y, e)
  {
    if x == [] {
      assert x + y == y;
    } else {
      assert (x + y)[1..] == x[1..] + y;
      EventTotalAppend(x[1..], y, e);
    }
  }

  // Whichever of them are called executions, the cuts are reported in full.
  lemma {:induction false} CutEventTotals(events: seq<OrderInfo>, cuts: seq<Fill>)
    requires |events| == |cuts|
    requires forall i :: 0 <= i < |cuts| ==> events[i].quantity == cuts[i].quantity && events[i].event in {EXEC, CANCEL}
    ensures EventTotal(events, ADD) == 0
    ensures EventTotal(events, EXEC) + EventTotal(events, CANCEL) == CutSum(cuts)
  {
    if cuts != [] { CutEventTotals(events[1..], cuts[1..]); }
  }

  lemma CutAllSum(isSell: bool, b: seq<OrderV>, cuts: seq<Fill>)
    requires Sorted(isSell, b) && UniqueIds(b) && Live(b) && CutsFit(b, cuts)
    ensures Sum(CutAll(b, cuts)) == Sum(b) - CutSum(cuts)
    decreases |cuts|
  {
    if cuts != [] {
      var c := cuts[0];
      assert c in cuts && CutFits(b, c);
      if Find(b, c.id).Rem() == c.quantity {
        SumRemove(b, c.id);
      } else {
        SumReplace(b, Find(b, c.id).Take(c.quantity));
      }
      CutKeeps(isSell, b, c);
      CutRest(isSell, b, cuts);
      CutAllSum(isSell, CutOne(b, c), cuts[1..]);
    }
  }

  lemma {:induction false} SumInsert(isSell: bool, b: seq<OrderV>, o: OrderV)
    ensures Sum(Insert(isSell, b, o)) == Sum(b) + o.Rem()
  {
    if b == [] || Better(isSell, o.price, b[0].price) {
      assert ([o] + b)[1..] == b;
    } else {
      SumInsert(isSell, b[1..], o);
      assert Insert(isSell, b, o)[1..] == Insert(isSell, b[1..], o);
    }
  }

  lemma {:induction false} QtyCredit(isSell: bool, m: seq<Row>, p: Price, q: Quantity, x: Price)
    requires SortedRows(isSell, m)
    ensures QtyAt(Credit(isSell, m, p, q), x) == QtyAt(m, x) + if x == p then q else 0
  {
    if m == [] || Better(isSell, p, m[0].price) {
      assert Credit(isSell, m, p, q)[1..] == m;
      if x == p {
        forall r | r in m ensures Better(isSell, p, r.price) {
          assert r == m[0] || r in m[1..];
        }
        NoQty(isSell, m, p);
      }
    } else if m[0].price == p {
      assert Credit(isSell, m, p, q)[1..] == m[1..];
    } else {
      QtyCredit(isSell, m[1..], p, q, x);
      assert Credit(isSell, m, p, q)[1..] == Credit(isSell, m[1..], p, q);
    }
  }

  // What events of a kind report at a price.
  function ReportedAt(events: seq<OrderInfo>, e: OrderEvent, p: Price): Quantity {
    if events == [] then 0
    else (if events[0].event == e && events[0].price == p then events[0].quantity else 0) + ReportedAt(events[1..], e, p)
  }

  lemma {:induction false} ReportedAppend(x: seq<OrderInfo>, y: seq<OrderInfo>, e: OrderEvent, p: Price)
    ensures ReportedAt(x + y, e, p) == ReportedAt(x, e, p) + ReportedAt(y, e, p)
  {
    if x == [] {
      assert x + y == y;
    } else {
      assert (x + y)[1..] == x[1..] + y;
      ReportedAppend(x[1..], y, e, p);
    }
  }

  lemma {:induction false} ReportedNone(events: seq<OrderInfo>, e: OrderEvent, p: Price)
    requires forall x :: x in events ==> x.event != e
    ensures ReportedAt(events, e, p) == 0
  {
    if events != [] {
      assert events[0] in events;
      ReportedNone(events[1..], e, p);
    }
  }

  // The rows' own part of the ledger: each ADD reported is a credit, and all of them come to
  // rest exactly while the ids are free.
  lemma {:induction false} GrowLedger(s: Side, rows: seq<Row>, id: OrderId, p: Price)
    requires Sorted(s.isSell, s.book) && UniqueIds(s.book) && Live(s.book) && SortedRows(s.isSell, s.pendingAdd)
    requires ValidRows(s.isSell, rows)
    ensures var g := GrowAll(s, rows, id);
            var missed := Sum(s.book) + EventTotal(g.events, ADD) - Sum(g.side.book);
            && QtyAt(g.side.pendingAdd, p) == QtyAt(s.pendingAdd, p) + ReportedAt(g.events, ADD, p)
            && EventTotal(g.events, EXEC) == 0 && EventTotal(g.events, CANCEL) == 0
            && missed >= 0 && (missed == 0 <==> FreeFrom(s.book, rows, id))
    decreases |rows|
  {
    hide GrowRow, Sorted, UniqueIds, Live, SortedRows, QtyAt, Sum, ReportedAt, FreeFrom;
    if rows == [] {
      NothingMissed(s.book, id);
    } else {
      var row := rows[0];
      assert row in rows;
      var g := GrowRow(s, row, id);
      var h := GrowAll(g.side, rows[1..], g.nextId);
      RowsAfter(s.isSell, rows);
      GrowRowKeeps(s, row, id);
      GrowRowLedger(s, row, id, p);
      GrowLedger(g.side, rows[1..], g.nextId, p);
      EventTotalAppend(g.events, h.events, ADD);
      EventTotalAppend(g.events, h.events, EXEC);
      EventTotalAppend(g.events, h.events, CANCEL);
      ReportedAppend(g.events, h.events, ADD, p);
      FreeAfter(s, rows, id);
    }
  }

  lemma NothingMissed(b: seq<OrderV>, id: OrderId)
    ensures FreeFrom(b, [], id) && EventTotal([], ADD) == 0 && forall p :: ReportedAt([], ADD, p) == 0
  {
  }

  lemma RowsAfter(isSell: bool, rows: seq<Row>)
    requires ValidRows(isSell, rows) && rows != []
    ensures ValidRows(isSell, rows[1..]) && rows[0].quantity > 0
    ensures forall r :: r in rows[1..] ==> Better(isSell, rows[0].price, r.price)
  {
    assert rows[0] in rows;
  }

  // The ids are free for all rows if the first row's is and those of the others will be.
  lemma FreeAfter(s: Side, rows: seq<Row>, id: OrderId)
    requires Sorted(s.isSell, s.book) && UniqueIds(s.book) && Live(s.book)
    requires rows != [] && rows[0].quantity > 0
    requires forall r :: r in rows[1..] ==> Better(s.isSell, rows[0].price, r.price)
    ensures var g := GrowRow(s, rows[0], id);
            FreeFrom(s.book, rows, id)
            <==> (g.nextId == id || !Has(s.book, id)) && FreeFrom(g.side.book, rows[1..], g.nextId)
  {
    hide GrowRow, Sorted, UniqueIds, Live, Has;
    GrowRowTotal(s, rows[0], id, rows[0].price);
    RisesAfter(s, rows[0], id, rows[1..]);
  }

  lemma RisesAfter(s: Side, row: Row, id: OrderId, rows: seq<Row>)
    requires Sorted(s.isSell, s.book) && UniqueIds(s.book) && Live(s.book) && row.quantity > 0
    requires forall r :: r in rows ==> Better(s.isSell, row.price, r.price)
    ensures Rises(GrowRow(s, row, id).side.book, rows) == Rises(s.book, rows)
  {
    forall r | r in rows ensures TotalAt(GrowRow(s, row, id).side.book, r.price) == TotalAt(s.book, r.price) {
      GrowRowTotal(s, row, id, r.price);
    }
    RisesSame(s.book, GrowRow(s, row, id).side.book, rows);
  }

  lemma {:induction false} RisesSame(b: seq<OrderV>, b': seq<OrderV>, rows: seq<Row>)
    requires forall r :: r in rows ==> TotalAt(b, r.price) == TotalAt(b', r.price)
    ensures Rises(b, rows) == Rises(b', rows)
  {
    if rows != [] {
      assert rows[0] in rows;
      RisesSame(b, b', rows[1..]);
    }
  }

  lemma GrowRowLedger(s: Side, row: Row, id: OrderId, p: Price)
    requires SortedRows(s.isSell, s.pendingAdd) && row.quantity > 0
    ensures var g := GrowRow(s, row, id);
            var missed := Sum(s.book) + EventTotal(g.events, ADD) - Sum(g.side.book);
            && QtyAt(g.side.pendingAdd, p) == QtyAt(s.pendingAdd, p) + ReportedAt(g.events, ADD, p)
            && EventTotal(g.events, EXEC) == 0 && EventTotal(g.events, CANCEL) == 0
            && missed >= 0 && (missed == 0 <==> g.nextId == id || !Has(s.book, id))
  {
    hide Sum, AtPrice, Sweep, Insert, Credit, SortedRows, QtyAt;
    var more := row.quantity - Sum(AtPrice(s.book, row.price));
    SumNone();
    QtyCredit(s.isSell, s.pendingAdd, row.price, more, p);
    SumInsert(s.isSell, s.book, OrderV(id, more, 0, row.price));
    var e := [OrderInfo(ADD, -1, s.isSell, more, row.price)];
    assert e[1..] == [];
  }

  // What a resync reports is what it does: every price is credited with what was added there,
  // and ADD minus EXEC minus CANCEL is the change of the resting total if and only if the ids
  // it makes up are free. Otherwise more is reported than comes to rest.
  lemma Ledger(s: Side, rows: seq<Row>, p: Price)
    requires Wf(s) && s.snapQueue == [] && ValidRows(s.isSell, rows)
    ensures var s' := ApplySnapshot(s, rows);
            var events := SnapshotEvents(s, rows);
            var reported := EventTotal(events, ADD) - EventTotal(events, EXEC) - EventTotal(events, CANCEL);
            && reported >= Sum(s'.book) - Sum(s.book)
            && (reported == Sum(s'.book) - Sum(s.book) <==> FreshIds(s.book, rows))
            && QtyAt(s'.pendingAdd, p) == QtyAt(s.pendingAdd, p) + ReportedAt(events, ADD, p)
  {
    hide GrowAll, Sorted, UniqueIds, Live, CutsFit, Sum, QtyAt, ReportedAt, EventTotal, FreeFrom, ValidRows;
    var g := GrowAll(s, rows, FIRST_FAKE_ID);
    var cuts := Cuts(s, rows);
    var cutEvents := CutEvents(s.isSell, cuts);
    GrowAllKeeps(s, rows, FIRST_FAKE_ID);
    GrowLedger(s, rows, FIRST_FAKE_ID, p);
    SnapshotCuts(s, rows);
    CutEventTotals(cutEvents, cuts);
    CutAllSum(s.isSell, g.side.book, cuts);
    EventTotalAppend(g.events, cutEvents, ADD);
    EventTotalAppend(g.events, cutEvents, EXEC);
    EventTotalAppend(g.events, cutEvents, CANCEL);
    ReportedAppend(g.events, cutEvents, ADD, p);
    ReportedNone(cutEvents, ADD, p);
  }

  lemma {:induction false} GrowEvents(s: Side, rows: seq<Row>, id: OrderId)
    ensures forall e :: e in GrowAll(s, rows, id).events ==> e.event == ADD
    decreases |rows|
  {
    if rows != [] {
      var g := GrowRow(s, rows[0], id);
      GrowEvents(g.side, rows[1..], g.nextId);
    }
  }

  // Of the n orders touched, exactly ceil(3n/10) are called executions, before any of the
  // others is called cancelled; the additions are reported before both.
  lemma GuessShare(s: Side, rows: seq<Row>)
    requires Wf(s) && s.snapQueue == [] && ValidRows(s.isSell, rows)
    ensures var events := SnapshotEvents(s, rows);
            var n := |Cuts(s, rows)|;
            var k := |events| - n;
            && DistinctCuts(Cuts(s, rows))
            && 3 * n <= 10 * ExecCount(n) < 3 * n + 10
            && k >= 0
            && (forall j :: 0 <= j < |events| ==>
                  events[j].event == if j < k then ADD else if j < k + ExecCount(n) then EXEC else CANCEL)
  {
    SnapshotCuts(s, rows);
    GrowEvents(s, rows, FIRST_FAKE_ID);
    var adds := GrowAll(s, rows, FIRST_FAKE_ID).events;
    forall j | 0 <= j < |adds| ensures SnapshotEvents(s, rows)[j].event == ADD {
      assert adds[j] in adds;
    }
  }
}
