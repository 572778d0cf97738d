// A snapshot on one side, described without saying how it is worked off: which orders are
// made up, which are cut and by how much, and what is reported (src/book_side.cpp:172-249).
module Resyncs {
  import opened Common
  import opened SideModel
  import opened ListLemmas
  import opened SnapshotModel
  import opened SnapshotLemmas
  import opened SnapshotTheorems
  import opened BookModel
  import opened Greedy
  import opened Determined

  // How much more, and how much less, than what rests at a price the snapshot shows there.
  function Excess(b: seq<OrderV>, rows: seq<Row>, p: Price): Quantity {
    if QtyAt(rows, p) > TotalAt(b, p) then QtyAt(rows, p) - TotalAt(b, p) else 0
  }

  function Lack(b: seq<OrderV>, rows: seq<Row>, p: Price): Quantity {
    if QtyAt(rows, p) < TotalAt(b, p) then TotalAt(b, p) - QtyAt(rows, p) else 0
  }

  // The cuts at one price.
  function FillsAt(cuts: seq<Fill>, p: Price): seq<Fill> {
    if cuts == [] then []
    else if cuts[0].price == p then [cuts[0]] + FillsAt(cuts[1..], p)
    else FillsAt(cuts[1..], p)
  }

  ghost predicate InOrder(isSell: bool, cuts: seq<Fill>) {
    cuts == []
    || ((forall c :: c in cuts[1..] ==> NoWorse(isSell, cuts[0].price, c.price)) && InOrder(isSell, cuts[1..]))
  }

  // The excess, price by price.
  ghost predicate Adding(isSell: bool, b: seq<OrderV>, rows: seq<Row>, adds: seq<Row>) {
    ValidRows(isSell, adds) && forall p :: QtyAt(adds, p) == Excess(b, rows, p)
  }

  // What lacks at each price is cut from that price's queue, first to last. The k cuts at
  // prices that have a row come before those at prices that have none; each part goes from
  // the best price to the worst.
  ghost predicate Cutting(isSell: bool, b: seq<OrderV>, rows: seq<Row>, cuts: seq<Fill>, k: nat) {
    && k <= |cuts|
    && InOrder(isSell, cuts[..k]) && InOrder(isSell, cuts[k..])
    && (forall c :: c in cuts[..k] ==> HasRow(rows, c.price))
    && (forall c :: c in cuts[k..] ==> !HasRow(rows, c.price))
    && forall p :: InPriority(isSell, AtPrice(b, p), p, FillsAt(cuts, p))
                && FillTotal(FillsAt(cuts, p)) == Lack(b, rows, p)
  }

  // Each price with an excess has one new order behind its queue, numbered from 100 on, unless
  // an order with that number rests already; of each other queue the cuts have left the rest.
  ghost predicate QueuesAfter(isSell: bool, b: seq<OrderV>, adds: seq<Row>, cuts: seq<Fill>, b': seq<OrderV>) {
    && Sorted(isSell, b')
    && (forall i :: 0 <= i < |adds| ==>
          AtPrice(b', adds[i].price)
          == AtPrice(b, adds[i].price)
             + if Has(b, 100 + i) then [] else [OrderV(100 + i, adds[i].quantity, 0, adds[i].price)])
    && (forall p :: !HasRow(adds, p) ==>
          |FillsAt(cuts, p)| <= |AtPrice(b, p)| && AtPrice(b', p) == LeftOver(AtPrice(b, p), FillsAt(cuts, p)))
  }

  // What was made up is expected, whether it came to rest or not.
  ghost predicate AllExpected(isSell: bool, m: seq<Row>, m': seq<Row>, adds: seq<Row>) {
    && SortedRows(isSell, m')
    && forall x :: (HasRow(m', x) <==> HasRow(m, x) || HasRow(adds, x)) && QtyAt(m', x) == QtyAt(m, x) + QtyAt(adds, x)
  }

  // Every addition is reported without an id, and every cut with its own; the first 30 percent
  // of the cuts count as executions.
  ghost predicate AddsReported(isSell: bool, adds: seq<Row>, events: seq<OrderInfo>) {
    && |events| == |adds|
    && forall i :: 0 <= i < |adds| ==> events[i] == OrderInfo(ADD, -1, isSell, adds[i].quantity, adds[i].price)
  }

  ghost predicate CutsReported(isSell: bool, cuts: seq<Fill>, events: seq<OrderInfo>) {
    && |events| == |cuts|
    && forall i :: 0 <= i < |cuts| ==>
         events[i] == OrderInfo(if 10 * i < 3 * |cuts| then EXEC else CANCEL,
                                cuts[i].id, isSell, cuts[i].quantity, cuts[i].price)
  }

  ghost predicate Guessed(isSell: bool, adds: seq<Row>, cuts: seq<Fill>, events: seq<OrderInfo>) {
    |events| >= |adds| && AddsReported(isSell, adds, events[..|adds|]) && CutsReported(isSell, cuts, events[|adds|..])
  }

  ghost predicate ResyncOutcome(s: Side, rows: seq<Row>, s': Side, events: seq<OrderInfo>,
                                adds: seq<Row>, cuts: seq<Fill>, k: nat)
  {
    && Adding(s.isSell, s.book, rows, adds)
    && Cutting(s.isSell, s.book, rows, cuts, k)
    && s' == s.(book := s'.book, pendingAdd := s'.pendingAdd)
    && QueuesAfter(s.isSell, s.book, adds, cuts, s'.book)
    && AllExpected(s.isSell, s.pendingAdd, s'.pendingAdd, adds)
    && Guessed(s.isSell, adds, cuts, events)
  }

  // An expected snapshot is ticked off, an unexpected one with views still queued is ignored,
  // and any other one resynchronises the side.
  ghost predicate SnapshotOutcome(s: Side, rows: seq<Row>, s': Side, events: seq<OrderInfo>) {
    if s.snapQueue == [] then exists adds, cuts, k: nat :: ResyncOutcome(s, rows, s', events, adds, cuts, k)
    else s' == (if s.snapQueue[0] == rows then s.(snapQueue := s.snapQueue[1..]) else s) && events == []
  }

  // ---------- The additions ----------

  function AddRows(b: seq<OrderV>, rows: seq<Row>): seq<Row> {
    if rows == [] then []
    else
      var more := rows[0].quantity - TotalAt(b, rows[0].price);
      (if more > 0 then [Row(rows[0].price, more)] else []) + AddRows(b, rows[1..])
  }

  lemma TotalPositive(b: seq<OrderV>, p: Price)
    requires Live(b)
    ensures TotalAt(b, p) >= 0
  {
    InAtPrice(b, p);
    SumPositive(AtPrice(b, p));
  }

  lemma {:induction false} AddRowsMeet(isSell: bool, b: seq<OrderV>, rows: seq<Row>)
    requires ValidRows(isSell, rows) && Live(b)
    ensures ValidRows(isSell, AddRows(b, rows))
    ensures forall r :: r in AddRows(b, rows) ==> HasRow(rows, r.price)
    ensures forall p :: QtyAt(AddRows(b, rows), p) == Excess(b, rows, p)
  {
    hide Live, TotalAt;
    if rows == [] {
      forall p ensures Excess(b, rows, p) == 0 { TotalPositive(b, p); }
    } else {
      RowsAfter(isSell, rows);
      AddRowsMeet(isSell, b, rows[1..]);
      var row, rest, adds := rows[0], AddRows(b, rows[1..]), AddRows(b, rows);
      RowBetter(isSell, rows[1..], row.price);
      NoQty(isSell, rows[1..], row.price);
      forall r | r in rest ensures Better(isSell, row.price, r.price) {
        RowPrices(rows[1..], r.price);
      }
      NoQty(isSell, rest, row.price);
      TotalPositive(b, row.price);
      if row.quantity > TotalAt(b, row.price) {
        assert adds[1..] == rest;
      } else {
        assert adds == rest;
      }
      forall p ensures QtyAt(adds, p) == Excess(b, rows, p) {
        assert QtyAt(rest, p) == Excess(b, rows[1..], p);
      }
    }
  }

  lemma AddingExactly(isSell: bool, b: seq<OrderV>, rows: seq<Row>, adds: seq<Row>)
    requires ValidRows(isSell, rows) && Live(b)
    ensures adds == AddRows(b, rows) <==> Adding(isSell, b, rows, adds)
  {
    hide ValidRows, Live, Excess, QtyAt, AddRows;
    AddRowsMeet(isSell, b, rows);
    if Adding(isSell, b, rows, adds) { SameRows(isSell, adds, AddRows(b, rows)); }
  }

  lemma {:induction false} AddRowsSame(b: seq<OrderV>, b': seq<OrderV>, rows: seq<Row>)
    requires forall r :: r in rows ==> TotalAt(b, r.price) == TotalAt(b', r.price)
    ensures AddRows(b, rows) == AddRows(b', rows)
  {
    if rows != [] {
      assert rows[0] in rows;
      AddRowsSame(b, b', rows[1..]);
    }
  }

  // The orders made up for the rows, as far as they come to rest at p.
  function MadeUp(b: seq<OrderV>, adds: seq<Row>, id: OrderId, p: Price): seq<OrderV> {
    if adds == [] then []
    else if adds[0].price == p then (if Has(b, id) then [] else [OrderV(id, adds[0].quantity, 0, p)])
    else MadeUp(b, adds[1..], id + 1, p)
  }

  lemma {:induction false} MadeUpSame(b: seq<OrderV>, b': seq<OrderV>, adds: seq<Row>, id: OrderId, p: Price)
    requires forall x :: x >= id ==> (Has(b, x) <==> Has(b', x))
    ensures MadeUp(b, adds, id, p) == MadeUp(b', adds, id, p)
  {
    if adds != [] && adds[0].price != p { MadeUpSame(b, b', adds[1..], id + 1, p); }
  }

  lemma {:induction false} MadeUpAt(isSell: bool, b: seq<OrderV>, adds: seq<Row>, id: OrderId, i: nat)
    requires SortedRows(isSell, adds) && i < |adds|
    ensures MadeUp(b, adds, id, adds[i].price)
         == if Has(b, id + i) then [] else [OrderV(id + i, adds[i].quantity, 0, adds[i].price)]
  {
    if i > 0 {
      assert adds[i] in adds[1..];
      MadeUpAt(isSell, b, adds[1..], id + 1, i - 1);
    }
  }

  lemma {:induction false} MadeUpNone(b: seq<OrderV>, adds: seq<Row>, id: OrderId, p: Price)
    requires !HasRow(adds, p)
    ensures MadeUp(b, adds, id, p) == []
  {
    if adds != [] { MadeUpNone(b, adds[1..], id + 1, p); }
  }

  function AddedEvents(isSell: bool, adds: seq<Row>): seq<OrderInfo> {
    seq(|adds|, i requires 0 <= i < |adds| => OrderInfo(ADD, -1, isSell, adds[i].quantity, adds[i].price))
  }

  // What the rows do to the side, in terms of the additions.
  ghost predicate GrownBy(s: Side, adds: seq<Row>, id: OrderId, g: Grown, p: Price) {
    && g.events == AddedEvents(s.isSell, adds)
    && AtPrice(g.side.book, p) == AtPrice(s.book, p) + MadeUp(s.book, adds, id, p)
    && (HasRow(g.side.pendingAdd, p) <==> HasRow(s.pendingAdd, p) || HasRow(adds, p))
    && QtyAt(g.side.pendingAdd, p) == QtyAt(s.pendingAdd, p) + QtyAt(adds, p)
  }

  lemma RowGrows(s: Side, row: Row, id: OrderId, p: Price)
    requires Sorted(s.isSell, s.book) && Live(s.book) && SortedRows(s.isSell, s.pendingAdd) && row.quantity > 0
    ensures var g := GrowRow(s, row, id);
            var adds := AddRows(s.book, [row]);
            && adds == (if row.quantity > TotalAt(s.book, row.price)
                        then [Row(row.price, row.quantity - TotalAt(s.book, row.price))] else [])
            && GrownBy(s, adds, id, g, p)
            && g.nextId == id + |adds|
            && g.cuts == (if row.quantity < TotalAt(s.book, row.price)
                          then Sweep(s.isSell, AtPrice(s.book, row.price), TotalAt(s.book, row.price) - row.quantity, row.price).fills
                          else [])
  {
    hide Sorted, Live, SortedRows, Sweep, Credit, AtPrice, Sum, Insert, Has;
    var more := row.quantity - TotalAt(s.book, row.price);
    var adds := AddRows(s.book, [row]);
    OneRow(s.book, row);
    SumNone();
    QtyCredit(s.isSell, s.pendingAdd, row.price, more, p);
    CreditRows(s.isSell, s.pendingAdd, row.price, more);
    InsertAtPrice(s.isSell, s.book, OrderV(id, more, 0, row.price), p);
    assert AtPrice(s.book, p) + [] == AtPrice(s.book, p);
    if more > 0 { assert adds[1..] == []; }
    var g := GrowRow(s, row, id);
    assert g.events == AddedEvents(s.isSell, adds);
    assert HasRow(g.side.pendingAdd, p) <==> HasRow(s.pendingAdd, p) || HasRow(adds, p);
    assert QtyAt(g.side.pendingAdd, p) == QtyAt(s.pendingAdd, p) + QtyAt(adds, p);
    assert AtPrice(g.side.book, p) == AtPrice(s.book, p) + MadeUp(s.book, adds, id, p);
  }

  lemma OneRow(b: seq<OrderV>, row: Row)
    ensures AddRows(b, [row]) == if row.quantity > TotalAt(b, row.price)
                                 then [Row(row.price, row.quantity - TotalAt(b, row.price))] else []
  {
    hide TotalAt;
    assert [row][1..] == [];
  }

  lemma AddedAppend(isSell: bool, x: seq<Row>, y: seq<Row>)
    ensures AddedEvents(isSell, x + y) == AddedEvents(isSell, x) + AddedEvents(isSell, y)
  {
  }

  // One row more in front.
  lemma GrownFirst(s: Side, x: seq<Row>, y: seq<Row>, id: OrderId, g: Grown, h: Grown, p: Price)
    requires |x| <= 1 && GrownBy(s, x, id, g, p) && GrownBy(g.side, y, id + |x|, h, p)
    requires g.side.isSell == s.isSell
    requires forall r :: r in x ==> !HasRow(y, r.price)
    requires forall i :: i >= id + |x| ==> (Has(s.book, i) <==> Has(g.side.book, i))
    ensures GrownBy(s, x + y, id, h.(events := g.events + h.events), p)
  {
    hide AtPrice, Has;
    AddedAppend(s.isSell, x, y);
    MadeUpSame(s.book, g.side.book, y, id + |x|, p);
    if x == [] {
      assert x + y == y;
      assert AtPrice(s.book, p) + [] == AtPrice(s.book, p);
    } else {
      assert x[1..] == [] && (x + y)[1..] == y && x[0] in x;
      MadeUpNone(s.book, y, id + 1, x[0].price);
      NoRowNoQty(y, x[0].price);
      Assoc(AtPrice(s.book, p), MadeUp(s.book, x, id, p), MadeUp(s.book, y, id + 1, p));
      assert MadeUp(s.book, x + y, id, p) == MadeUp(s.book, x, id, p) + MadeUp(s.book, y, id + 1, p);
      assert QtyAt(x + y, p) == QtyAt(x, p) + QtyAt(y, p);
      assert HasRow(x + y, p) <==> HasRow(x, p) || HasRow(y, p);
    }
  }

  lemma {:induction false} NoRowNoQty(rows: seq<Row>, p: Price)
    requires !HasRow(rows, p)
    ensures QtyAt(rows, p) == 0
  {
    if rows != [] { NoRowNoQty(rows[1..], p); }
  }

  // A row changes nothing for the rows behind it.
  lemma RowLeaves(s: Side, rows: seq<Row>, id: OrderId)
    requires Sorted(s.isSell, s.book) && UniqueIds(s.book) && Live(s.book) && SortedRows(s.isSell, s.pendingAdd)
    requires ValidRows(s.isSell, rows) && rows != []
    ensures var g := GrowRow(s, rows[0], id);
            var x := AddRows(s.book, [rows[0]]);
            && g.side.isSell == s.isSell
            && g.nextId == id + |x| && |x| <= 1
            && (forall i :: i >= id + |x| ==> (Has(s.book, i) <==> Has(g.side.book, i)))
            && AddRows(s.book, rows) == x + AddRows(g.side.book, rows[1..])
            && (forall r :: r in x ==> !HasRow(AddRows(g.side.book, rows[1..]), r.price))
            && ValidRows(s.isSell, rows[1..])
            && (forall p :: p != rows[0].price ==> AtPrice(g.side.book, p) == AtPrice(s.book, p))
  {
    hide GrowRow, Sorted, UniqueIds, Live, SortedRows, ValidRows, TotalAt, AtPrice, Has, AddRows, GrownBy, Sweep, HasRow;
    var g := GrowRow(s, rows[0], id);
    RowsAfter(s.isSell, rows);
    GrowRowKeeps(s, rows[0], id);
    GrowRowTotal(s, rows[0], id, rows[0].price);
    RowGrows(s, rows[0], id, rows[0].price);
    RowApart(s, rows, id);
    AddRowsFirst(s.book, rows);
    AddRowsSame(s.book, g.side.book, rows[1..]);
    AddRowsMeet(s.isSell, g.side.book, rows[1..]);
    RowBetter(s.isSell, rows[1..], rows[0].price);
    NotAdded(AddRows(g.side.book, rows[1..]), rows[1..], rows[0].price);
  }

  lemma AddRowsFirst(b: seq<OrderV>, rows: seq<Row>)
    requires rows != []
    ensures AddRows(b, rows) == AddRows(b, [rows[0]]) + AddRows(b, rows[1..])
  {
    hide TotalAt;
    OneRow(b, rows[0]);
  }

  // The queues at other prices stay.
  lemma RowApart(s: Side, rows: seq<Row>, id: OrderId)
    requires Sorted(s.isSell, s.book) && UniqueIds(s.book) && Live(s.book) && SortedRows(s.isSell, s.pendingAdd)
    requires ValidRows(s.isSell, rows) && rows != []
    ensures var g := GrowRow(s, rows[0], id);
            && (forall p :: p != rows[0].price ==> AtPrice(g.side.book, p) == AtPrice(s.book, p))
            && (forall r :: r in rows[1..] ==> TotalAt(s.book, r.price) == TotalAt(g.side.book, r.price))
  {
    hide GrowRow, Sorted, UniqueIds, Live, SortedRows, ValidRows, AtPrice, Has, AddRows, Sweep, Sum;
    var g := GrowRow(s, rows[0], id);
    RowsAfter(s.isSell, rows);
    OneRow(s.book, rows[0]);
    forall p | p != rows[0].price ensures AtPrice(g.side.book, p) == AtPrice(s.book, p) {
      RowGrows(s, rows[0], id, p);
      OneElse(s.book, AddRows(s.book, [rows[0]]), rows[0].price, id, p);
    }
  }

  lemma OneElse(b: seq<OrderV>, adds: seq<Row>, price: Price, id: OrderId, p: Price)
    requires |adds| <= 1 && (forall r :: r in adds ==> r.price == price) && p != price
    ensures AtPrice(b, p) + MadeUp(b, adds, id, p) == AtPrice(b, p)
  {
    if adds != [] { assert adds[0] in adds && adds[1..] == []; }
  }

  lemma NotAdded(adds: seq<Row>, rows: seq<Row>, p: Price)
    requires (forall r :: r in adds ==> HasRow(rows, r.price)) && !HasRow(rows, p)
    ensures !HasRow(adds, p)
  {
    if HasRow(adds, p) { RowPrices(adds, p); }
  }

  lemma {:induction false} RowsGrow(s: Side, rows: seq<Row>, id: OrderId, p: Price)
    requires Sorted(s.isSell, s.book) && UniqueIds(s.book) && Live(s.book) && SortedRows(s.isSell, s.pendingAdd)
    requires ValidRows(s.isSell, rows)
    ensures GrownBy(s, AddRows(s.book, rows), id, GrowAll(s, rows, id), p)
    decreases |rows|
  {
    hide GrowRow, Sorted, UniqueIds, Live, SortedRows, ValidRows, TotalAt, Has, GrownBy;
    if rows == [] {
      NothingGrows(s, id, p);
    } else {
      var g, x := GrowRow(s, rows[0], id), AddRows(s.book, [rows[0]]);
      RowsAfter(s.isSell, rows);
      RowLeaves(s, rows, id);
      RowGrows(s, rows[0], id, p);
      GrowRowKeeps(s, rows[0], id);
      RowsGrow(g.side, rows[1..], g.nextId, p);
      GrownFirst(s, x, AddRows(g.side.book, rows[1..]), id, g, GrowAll(g.side, rows[1..], g.nextId), p);
      GrownAlike(s, AddRows(s.book, rows), id, GrowAll(g.side, rows[1..], g.nextId).(events := GrowAll(s, rows, id).events),
                 GrowAll(s, rows, id), p);
    }
  }

  lemma NothingGrows(s: Side, id: OrderId, p: Price)
    ensures GrownBy(s, [], id, Grown(s, [], [], id), p)
  {
    assert AtPrice(s.book, p) + [] == AtPrice(s.book, p);
  }

  lemma GrownAlike(s: Side, adds: seq<Row>, id: OrderId, g: Grown, h: Grown, p: Price)
    requires GrownBy(s, adds, id, g, p) && g.side == h.side && g.events == h.events
    ensures GrownBy(s, adds, id, h, p)
  {
  }

  // ---------- The cuts ----------

  lemma {:induction false} FillsAppend(x: seq<Fill>, y: seq<Fill>, p: Price)
    ensures FillsAt(x + y, p) == FillsAt(x, p) + FillsAt(y, p)
  {
    if x == [] {
      assert x + y == y;
    } else {
      assert (x + y)[1..] == x[1..] + y;
      FillsAppend(x[1..], y, p);
    }
  }

  lemma {:induction false} FillsAll(cuts: seq<Fill>, p: Price)
    requires forall c :: c in cuts ==> c.price == p
    ensures FillsAt(cuts, p) == cuts
  {
    if cuts != [] { FillsAll(cuts[1..], p); }
  }

  lemma {:induction false} FillsNone(cuts: seq<Fill>, p: Price)
    requires forall c :: c in cuts ==> c.price != p
    ensures FillsAt(cuts, p) == []
  {
    if cuts != [] { FillsNone(cuts[1..], p); }
  }

  // The greedy cuts that make up what lacks at p.
  function Due(isSell: bool, b: seq<OrderV>, rows: seq<Row>, p: Price): seq<Fill> {
    Sweep(isSell, AtPrice(b, p), Lack(b, rows, p), p).fills
  }

  lemma {:induction false} RowsCut(s: Side, rows: seq<Row>, id: OrderId, p: Price)
    requires Sorted(s.isSell, s.book) && UniqueIds(s.book) && Live(s.book) && SortedRows(s.isSell, s.pendingAdd)
    requires ValidRows(s.isSell, rows)
    ensures FillsAt(GrowAll(s, rows, id).cuts, p) == if HasRow(rows, p) then Due(s.isSell, s.book, rows, p) else []
    decreases |rows|
  {
    hide GrowRow, Sorted, UniqueIds, Live, SortedRows, ValidRows, TotalAt, AtPrice, GrownBy, Sweep, AddRows, FillsAt, Due, HasRow;
    if rows == [] {
      FillsNone([], p);
      RowBetter(s.isSell, rows, p);
    } else {
      var g := GrowRow(s, rows[0], id);
      RowsAfter(s.isSell, rows);
      RowLeaves(s, rows, id);
      RowGrows(s, rows[0], id, p);
      GrowRowKeeps(s, rows[0], id);
      RowsCut(g.side, rows[1..], g.nextId, p);
      FillsAppend(g.cuts, GrowAll(g.side, rows[1..], g.nextId).cuts, p);
      if p == rows[0].price {
        RowBetter(s.isSell, rows[1..], p);
        DueFirst(s.isSell, s.book, rows);
        FillsAll(g.cuts, p);
        assert g.cuts + [] == g.cuts;
      } else {
        DueNext(s.isSell, s.book, g.side.book, rows, p);
        FillsNone(g.cuts, p);
      }
    }
  }

  lemma DueFirst(isSell: bool, b: seq<OrderV>, rows: seq<Row>)
    requires rows != []
    ensures var p := rows[0].price;
            && HasRow(rows, p)
            && Due(isSell, b, rows, p) == if rows[0].quantity < TotalAt(b, p)
                                          then Sweep(isSell, AtPrice(b, p), TotalAt(b, p) - rows[0].quantity, p).fills
                                          else []
  {
    hide TotalAt, AtPrice, Sweep;
    NothingDue(isSell, AtPrice(b, rows[0].price), rows[0].price);
  }

  lemma DueNext(isSell: bool, b: seq<OrderV>, b': seq<OrderV>, rows: seq<Row>, p: Price)
    requires rows != [] && p != rows[0].price && AtPrice(b, p) == AtPrice(b', p)
    ensures HasRow(rows, p) <==> HasRow(rows[1..], p)
    ensures Due(isSell, b', rows[1..], p) == Due(isSell, b, rows, p)
  {
  }

  lemma NothingDue(isSell: bool, b: seq<OrderV>, p: Price)
    ensures Sweep(isSell, b, 0, p).fills == []
  {
  }

  // Levels that are missing are cut whole.
  lemma {:induction false} MissingAt(b: seq<OrderV>, rows: seq<Row>, p: Price)
    ensures FillsAt(Missing(b, rows), p) == if HasRow(rows, p) then [] else WholeOrders(AtPrice(b, p))
  {
    if b != [] {
      MissingAt(b[1..], rows, p);
      if !HasRow(rows, b[0].price) { assert Missing(b, rows)[1..] == Missing(b[1..], rows); }
      if b[0].price == p { assert AtPrice(b, p)[1..] == AtPrice(b[1..], p); }
    }
  }

  // Cutting all that rests in a queue cuts every order whole.
  lemma {:induction false} AllDue(isSell: bool, b: seq<OrderV>, p: Price)
    requires Live(b) && forall o :: o in b ==> o.price == p
    ensures Sweep(isSell, b, Sum(b), p).fills == WholeOrders(b)
  {
    if b != [] {
      assert b[0] in b;
      SumPositive(b[1..]);
      AllDue(isSell, b[1..], p);
    }
  }

  // At each price, the cuts of a resync are those that are due.
  lemma CutsAt(s: Side, rows: seq<Row>, p: Price)
    requires Wf(s) && ValidRows(s.isSell, rows)
    ensures FillsAt(Cuts(s, rows), p) == Due(s.isSell, s.book, rows, p)
  {
    hide Wf, Sorted, UniqueIds, Live, SortedRows, ValidRows, GrowAll, AtPrice, Sweep, Sum, FillsAt, Missing, WholeOrders, HasRow,
         AddRows, MadeUp, AddedEvents, QtyAt, Has;
    Sound(s);
    var g := GrowAll(s, rows, FIRST_FAKE_ID);
    RowsCut(s, rows, FIRST_FAKE_ID, p);
    MissingAt(g.side.book, rows, p);
    FillsAppend(g.cuts, Missing(g.side.book, rows), p);
    if !HasRow(rows, p) {
      RowsGrow(s, rows, FIRST_FAKE_ID, p);
      AddRowsMeet(s.isSell, s.book, rows);
      NotAdded(AddRows(s.book, rows), rows, p);
      MadeUpNone(s.book, AddRows(s.book, rows), FIRST_FAKE_ID, p);
      assert AtPrice(s.book, p) + [] == AtPrice(s.book, p);
      NoRowNoQty(rows, p);
      TotalPositive(s.book, p);
      InAtPrice(s.book, p);
      LiveQueue(s.book, p);
      AllDue(s.isSell, AtPrice(s.book, p), p);
    }
  }

  lemma LiveQueue(b: seq<OrderV>, p: Price)
    requires Live(b)
    ensures Live(AtPrice(b, p)) && forall o :: o in AtPrice(b, p) ==> o.price == p
  {
    InAtPrice(b, p);
  }

  // They are in priority and make up what lacks, and nothing else does.
  lemma DueExactly(isSell: bool, b: seq<OrderV>, rows: seq<Row>, p: Price, fills: seq<Fill>)
    requires Live(b) && Positive(rows)
    ensures fills == Due(isSell, b, rows, p)
       <==> InPriority(isSell, AtPrice(b, p), p, fills) && FillTotal(fills) == Lack(b, rows, p)
  {
    hide Live, AtPrice, Sum, Sweep, InPriority, FillTotal, LeftOver;
    var queue, lack := AtPrice(b, p), Lack(b, rows, p);
    LiveQueue(b, p);
    QtyRow(rows, p);
    TotalPositive(b, p);
    SweepIsGreedy(isSell, queue, lack, p);
    SweepSum(isSell, queue, lack, p);
    LeftEmpties(isSell, queue, lack, p);
    SumNone();
    if InPriority(isSell, queue, p, fills) && FillTotal(fills) == lack {
      PriorityFits(isSell, queue, p, fills);
      GreedyUnique(isSell, queue, lack, p, Swept(fills, LeftOver(queue, fills), 0));
    }
  }

  lemma {:induction false} InOrderAppend(isSell: bool, x: seq<Fill>, y: seq<Fill>)
    requires InOrder(isSell, x) && InOrder(isSell, y)
    requires forall c, d :: c in x && d in y ==> NoWorse(isSell, c.price, d.price)
    ensures InOrder(isSell, x + y)
  {
    if x == [] {
      assert x + y == y;
    } else {
      assert (x + y)[1..] == x[1..] + y && x[0] in x;
      InOrderAppend(isSell, x[1..], y);
    }
  }

  lemma {:induction false} InOrderAlike(isSell: bool, cuts: seq<Fill>, p: Price)
    requires forall c :: c in cuts ==> c.price == p
    ensures InOrder(isSell, cuts)
  {
    if cuts != [] { assert cuts[0] in cuts; InOrderAlike(isSell, cuts[1..], p); }
  }

  lemma {:induction false} RowsInOrder(s: Side, rows: seq<Row>, id: OrderId)
    requires Sorted(s.isSell, s.book) && UniqueIds(s.book) && Live(s.book) && SortedRows(s.isSell, s.pendingAdd)
    requires ValidRows(s.isSell, rows)
    ensures InOrder(s.isSell, GrowAll(s, rows, id).cuts)
    ensures forall c :: c in GrowAll(s, rows, id).cuts ==> HasRow(rows, c.price)
    decreases |rows|
  {
    hide GrowRow, Sorted, UniqueIds, Live, SortedRows, ValidRows, InOrder;
    if rows == [] {
      InOrderAlike(s.isSell, [], 0.0);
    } else {
      var g := GrowRow(s, rows[0], id);
      RowsAfter(s.isSell, rows);
      GrowRowKeeps(s, rows[0], id);
      RowsInOrder(g.side, rows[1..], g.nextId);
      InOrderAlike(s.isSell, g.cuts, rows[0].price);
      var h := GrowAll(g.side, rows[1..], g.nextId);
      forall c, d | c in g.cuts && d in h.cuts ensures NoWorse(s.isSell, c.price, d.price) {
        RowPrices(rows[1..], d.price);
      }
      InOrderAppend(s.isSell, g.cuts, h.cuts);
    }
  }

  lemma {:induction false} MissingInOrder(isSell: bool, b: seq<OrderV>, rows: seq<Row>)
    requires Sorted(isSell, b)
    ensures InOrder(isSell, Missing(b, rows))
    ensures forall c :: c in Missing(b, rows) ==> !HasRow(rows, c.price) && exists o :: o in b && o.price == c.price
  {
    if b != [] {
      MissingInOrder(isSell, b[1..], rows);
      var rest := Missing(b[1..], rows);
      forall c | c in rest ensures exists o :: o in b && o.price == c.price {
        var o :| o in b[1..] && o.price == c.price;
        assert o in b;
      }
      if !HasRow(rows, b[0].price) {
        assert b[0] in b;
        assert Missing(b, rows)[1..] == rest;
      }
    }
  }

  lemma {:induction false} InFillsAt(cuts: seq<Fill>, p: Price)
    ensures forall c :: c in FillsAt(cuts, p) <==> c in cuts && c.price == p
  {
    if cuts != [] { InFillsAt(cuts[1..], p); }
  }

  // Cuts in order that are the same at every price are the same.
  lemma {:induction false} SameCuts(isSell: bool, x: seq<Fill>, y: seq<Fill>)
    requires InOrder(isSell, x) && InOrder(isSell, y) && forall p :: FillsAt(x, p) == FillsAt(y, p)
    ensures x == y
  {
    if x == [] || y == [] {
      CutInhabited(x, y);
      CutInhabited(y, x);
    } else {
      FirstCut(isSell, x, y);
      FirstCut(isSell, y, x);
      var p := x[0].price;
      assert FillsAt(x, p) == FillsAt(y, p);
      forall q ensures FillsAt(x[1..], q) == FillsAt(y[1..], q) {
        assert FillsAt(x, q) == FillsAt(y, q);
        assert q == p ==> FillsAt(x, q)[1..] == FillsAt(x[1..], q) && FillsAt(y, q)[1..] == FillsAt(y[1..], q);
      }
      SameCuts(isSell, x[1..], y[1..]);
      assert FillsAt(x, p)[0] == x[0] && FillsAt(y, p)[0] == y[0];
      assert x == [x[0]] + x[1..] && y == [y[0]] + y[1..];
    }
  }

  lemma CutInhabited(x: seq<Fill>, y: seq<Fill>)
    requires forall p :: FillsAt(x, p) == FillsAt(y, p)
    ensures x != [] ==> y != []
  {
    if x != [] { assert FillsAt(x, x[0].price) == FillsAt(y, x[0].price); }
  }

  lemma FirstCut(isSell: bool, x: seq<Fill>, y: seq<Fill>)
    requires x != [] && y != [] && InOrder(isSell, x) && forall p :: FillsAt(x, p) == FillsAt(y, p)
    ensures NoWorse(isSell, x[0].price, y[0].price)
  {
    var p := y[0].price;
    InFillsAt(x, p);
    assert FillsAt(x, p) == FillsAt(y, p);
    var c := FillsAt(x, p)[0];
    assert c == x[0] || c in x[1..];
  }

  lemma CuttingHolds(s: Side, rows: seq<Row>)
    requires Wf(s) && ValidRows(s.isSell, rows)
    ensures Cutting(s.isSell, s.book, rows, Cuts(s, rows), |GrowAll(s, rows, FIRST_FAKE_ID).cuts|)
  {
    hide Wf, Sorted, UniqueIds, Live, SortedRows, GrowAll, Missing, InOrder, InPriority, FillTotal, FillsAt, AtPrice, Lack, Due;
    var g := GrowAll(s, rows, FIRST_FAKE_ID);
    var k, cuts := |g.cuts|, Cuts(s, rows);
    Sound(s);
    GrowAllKeeps(s, rows, FIRST_FAKE_ID);
    RowsInOrder(s, rows, FIRST_FAKE_ID);
    MissingInOrder(s.isSell, g.side.book, rows);
    assert cuts[..k] == g.cuts && cuts[k..] == Missing(g.side.book, rows);
    forall p ensures InPriority(s.isSell, AtPrice(s.book, p), p, FillsAt(cuts, p))
                  && FillTotal(FillsAt(cuts, p)) == Lack(s.book, rows, p)
    {
      CutsAt(s, rows, p);
      DueExactly(s.isSell, s.book, rows, p, FillsAt(cuts, p));
    }
  }

  lemma {:induction false} SplitFills(isSell: bool, cuts: seq<Fill>, k: nat, rows: seq<Row>, p: Price)
    requires k <= |cuts|
    requires forall c :: c in cuts[..k] ==> HasRow(rows, c.price)
    requires forall c :: c in cuts[k..] ==> !HasRow(rows, c.price)
    ensures FillsAt(cuts[..k], p) == if HasRow(rows, p) then FillsAt(cuts, p) else []
    ensures FillsAt(cuts[k..], p) == if HasRow(rows, p) then [] else FillsAt(cuts, p)
  {
    FillsAppend(cuts[..k], cuts[k..], p);
    assert cuts == cuts[..k] + cuts[k..];
    if HasRow(rows, p) {
      FillsNone(cuts[k..], p);
    } else {
      FillsNone(cuts[..k], p);
    }
  }

  lemma CuttingOnce(isSell: bool, b: seq<OrderV>, rows: seq<Row>, x: seq<Fill>, y: seq<Fill>, k: nat, l: nat)
    requires Live(b) && Positive(rows) && Cutting(isSell, b, rows, x, k) && Cutting(isSell, b, rows, y, l)
    ensures x == y
  {
    hide Live, Positive, InOrder, InPriority, FillTotal, FillsAt, AtPrice, Lack, Due, HasRow;
    forall p ensures FillsAt(x[..k], p) == FillsAt(y[..l], p) && FillsAt(x[k..], p) == FillsAt(y[l..], p) {
      DueExactly(isSell, b, rows, p, FillsAt(x, p));
      DueExactly(isSell, b, rows, p, FillsAt(y, p));
      SplitFills(isSell, x, k, rows, p);
      SplitFills(isSell, y, l, rows, p);
    }
    SameCuts(isSell, x[..k], y[..l]);
    SameCuts(isSell, x[k..], y[l..]);
    assert x == x[..k] + x[k..] && y == y[..l] + y[l..];
  }

  // ---------- What the cuts leave ----------

  lemma CutOneAt(b: seq<OrderV>, c: Fill, p: Price)
    requires UniqueIds(b) && CutFits(b, c)
    ensures AtPrice(CutOne(b, c), p) == if c.price == p then CutOne(AtPrice(b, p), c) else AtPrice(b, p)
  {
    hide UniqueIds, AtPrice, Remove, Replace, Has, Find;
    var o := Find(b, c.id);
    AtPriceHasFind(b, c.id);
    if o.Rem() == c.quantity {
      RemoveAtPrice(b, c.id, p);
    } else {
      TakeIs(o, c.quantity);
      ReplaceAtPrice(b, o.Take(c.quantity), p);
    }
  }

  lemma TakeIs(o: OrderV, q: Quantity)
    ensures o.Take(q).id == o.id && o.Take(q).price == o.price
  {
  }

  // Each queue is cut by its own cuts.
  lemma {:induction false} CutAllAt(isSell: bool, b: seq<OrderV>, cuts: seq<Fill>, p: Price)
    requires Sorted(isSell, b) && UniqueIds(b) && Live(b) && CutsFit(b, cuts)
    ensures AtPrice(CutAll(b, cuts), p) == CutAll(AtPrice(b, p), FillsAt(cuts, p))
    decreases |cuts|
  {
    if cuts != [] {
      hide Sorted, UniqueIds, Live, AtPrice, CutOne, CutFits, DistinctCuts;
      FirstFits(b, cuts);
      CutKeeps(isSell, b, cuts[0]);
      CutRest(isSell, b, cuts);
      CutOneAt(b, cuts[0], p);
      CutAllAt(isSell, CutOne(b, cuts[0]), cuts[1..], p);
    }
  }

  lemma FirstFits(b: seq<OrderV>, cuts: seq<Fill>)
    requires cuts != [] && CutsFit(b, cuts)
    ensures CutFits(b, cuts[0])
  {
  }

  // Cuts in priority leave what is left over, and what is behind stays.
  lemma {:induction false} CutFront(isSell: bool, b: seq<OrderV>, more: seq<OrderV>, p: Price, cuts: seq<Fill>)
    requires UniqueIds(b + more) && InPriority(isSell, b, p, cuts)
    ensures CutAll(b + more, cuts) == LeftOver(b, cuts) + more
    decreases |cuts|
  {
    hide InPriority, UniqueIds, Has, Find;
    PriorityFits(isSell, b, p, cuts);
    if cuts == [] {
      assert b[0..] == b;
    } else {
      PriorityCons(isSell, b, p, cuts);
      assert (b + more)[1..] == b[1..] + more;
      CutFirst(b + more, cuts[0]);
      if cuts[0].quantity == b[0].Rem() {
        hide LeftOver;
        LeftOverCons(b, cuts);
        RestUnique(b + more);
        CutFront(isSell, b[1..], more, p, cuts[1..]);
      } else {
        assert cuts == [cuts[0]] && cuts[1..] == [];
      }
    }
  }

  lemma CutFirst(b: seq<OrderV>, c: Fill)
    requires b != [] && b[0].id == c.id
    ensures CutOne(b, c) == if b[0].Rem() == c.quantity then b[1..] else [b[0].Take(c.quantity)] + b[1..]
  {
    assert Has(b, c.id) && Find(b, c.id) == b[0];
  }

  lemma RestUnique(b: seq<OrderV>)
    requires b != [] && UniqueIds(b)
    ensures UniqueIds(b[1..])
  {
  }

  // The queue at p after a resync.
  lemma QueueAfter(s: Side, rows: seq<Row>, p: Price)
    requires Wf(s) && ValidRows(s.isSell, rows)
    ensures var fills := FillsAt(Cuts(s, rows), p);
            && |fills| <= |AtPrice(s.book, p)|
            && AtPrice(Resync(s, rows).book, p)
               == LeftOver(AtPrice(s.book, p), fills) + MadeUp(s.book, AddRows(s.book, rows), FIRST_FAKE_ID, p)
  {
    hide Wf, Sorted, UniqueIds, Live, SortedRows, ValidRows, GrowAll, AtPrice, CutAll, Cuts, FillsAt, Due, Lack, InPriority,
         LeftOver, MadeUp, AddRows, FillTotal, CutsFit;
    var g := GrowAll(s, rows, FIRST_FAKE_ID);
    var fills, more := FillsAt(Cuts(s, rows), p), MadeUp(s.book, AddRows(s.book, rows), FIRST_FAKE_ID, p);
    Sound(s);
    GrowAllKeeps(s, rows, FIRST_FAKE_ID);
    SnapshotCuts(s, rows);
    CutAllAt(s.isSell, g.side.book, Cuts(s, rows), p);
    RowsGrow(s, rows, FIRST_FAKE_ID, p);
    AtPriceUnique(g.side.book, p);
    CutsAt(s, rows, p);
    PositiveRows(s.isSell, rows);
    DueExactly(s.isSell, s.book, rows, p, fills);
    PriorityFits(s.isSell, AtPrice(s.book, p), p, fills);
    CutFront(s.isSell, AtPrice(s.book, p), more, p, fills);
  }

  lemma PositiveRows(isSell: bool, rows: seq<Row>)
    requires ValidRows(isSell, rows)
    ensures Positive(rows)
  {
  }

  // Where something is added, nothing is cut.
  lemma NoneDue(isSell: bool, b: seq<OrderV>, rows: seq<Row>, p: Price)
    requires Excess(b, rows, p) > 0
    ensures Due(isSell, b, rows, p) == []
  {
    NothingDue(isSell, AtPrice(b, p), p);
  }

  lemma QueuesHold(s: Side, rows: seq<Row>)
    requires Wf(s) && ValidRows(s.isSell, rows)
    ensures QueuesAfter(s.isSell, s.book, AddRows(s.book, rows), Cuts(s, rows), Resync(s, rows).book)
  {
    hide Wf, Sorted, UniqueIds, Live, SortedRows, AtPrice, Resync, Cuts, FillsAt, Due, Excess, MadeUp, AddRows, LeftOver, QtyAt, Has;
    var adds, cuts, b' := AddRows(s.book, rows), Cuts(s, rows), Resync(s, rows).book;
    Sound(s);
    AddRowsMeet(s.isSell, s.book, rows);
    ResyncTotals(s, rows, 0.0);
    forall i | 0 <= i < |adds|
      ensures AtPrice(b', adds[i].price)
           == AtPrice(s.book, adds[i].price)
              + if Has(s.book, 100 + i) then [] else [OrderV(100 + i, adds[i].quantity, 0, adds[i].price)]
    {
      var p := adds[i].price;
      QueueAfter(s, rows, p);
      MadeUpAt(s.isSell, s.book, adds, 100, i);
      assert adds[i] in adds;
      QtyOf(s.isSell, adds, adds[i]);
      CutsAt(s, rows, p);
      NoneDue(s.isSell, s.book, rows, p);
      AllLeft(AtPrice(s.book, p));
    }
    forall p | !HasRow(adds, p)
      ensures |FillsAt(cuts, p)| <= |AtPrice(s.book, p)| && AtPrice(b', p) == LeftOver(AtPrice(s.book, p), FillsAt(cuts, p))
    {
      QueueAfter(s, rows, p);
      MadeUpNone(s.book, adds, 100, p);
    }
  }

  lemma AllLeft(b: seq<OrderV>)
    ensures LeftOver(b, []) == b
  {
  }

  lemma QueuesOnce(isSell: bool, b: seq<OrderV>, adds: seq<Row>, cuts: seq<Fill>, x: seq<OrderV>, y: seq<OrderV>)
    requires QueuesAfter(isSell, b, adds, cuts, x) && QueuesAfter(isSell, b, adds, cuts, y)
    ensures x == y
  {
    hide Sorted, AtPrice, FillsAt, LeftOver, Has;
    forall p ensures AtPrice(x, p) == AtPrice(y, p) {
      if HasRow(adds, p) {
        RowPrices(adds, p);
        var r :| r in adds && r.price == p;
        var i :| 0 <= i < |adds| && adds[i] == r;
        assert AtPrice(x, adds[i].price) == AtPrice(y, adds[i].price);
      }
    }
    SameQueues(isSell, x, y);
  }

  // ---------- The description ----------

  lemma AddsExactly(isSell: bool, adds: seq<Row>, events: seq<OrderInfo>)
    ensures |AddedEvents(isSell, adds)| == |adds|
    ensures events == AddedEvents(isSell, adds) <==> AddsReported(isSell, adds, events)
  {
  }

  lemma CutsExactly(isSell: bool, cuts: seq<Fill>, events: seq<OrderInfo>)
    ensures events == CutEvents(isSell, cuts) <==> CutsReported(isSell, cuts, events)
  {
    hide ExecCount;
    forall i | 0 <= i < |cuts|
      ensures CutEvents(isSell, cuts)[i]
           == OrderInfo(if 10 * i < 3 * |cuts| then EXEC else CANCEL, cuts[i].id, isSell, cuts[i].quantity, cuts[i].price)
    {
      Share(|cuts|, i);
    }
  }

  lemma GuessedExactly(isSell: bool, adds: seq<Row>, cuts: seq<Fill>, events: seq<OrderInfo>)
    ensures events == AddedEvents(isSell, adds) + CutEvents(isSell, cuts) <==> Guessed(isSell, adds, cuts, events)
  {
    hide AddedEvents, CutEvents, AddsReported, CutsReported;
    AddsExactly(isSell, adds, AddedEvents(isSell, adds));
    Parts(events, AddedEvents(isSell, adds), CutEvents(isSell, cuts));
    if |events| >= |adds| {
      AddsExactly(isSell, adds, events[..|adds|]);
      CutsExactly(isSell, cuts, events[|adds|..]);
    }
  }

  lemma Share(n: nat, i: nat)
    ensures i < ExecCount(n) <==> 10 * i < 3 * n
  {
  }

  lemma GrownAt(s: Side, adds: seq<Row>, id: OrderId, g: Grown, p: Price)
    requires GrownBy(s, adds, id, g, p)
    ensures g.events == AddedEvents(s.isSell, adds)
    ensures HasRow(g.side.pendingAdd, p) <==> HasRow(s.pendingAdd, p) || HasRow(adds, p)
    ensures QtyAt(g.side.pendingAdd, p) == QtyAt(s.pendingAdd, p) + QtyAt(adds, p)
  {
  }

  lemma ExpectedHold(s: Side, rows: seq<Row>)
    requires Wf(s) && ValidRows(s.isSell, rows)
    ensures AllExpected(s.isSell, s.pendingAdd, Resync(s, rows).pendingAdd, AddRows(s.book, rows))
    ensures GrowAll(s, rows, FIRST_FAKE_ID).events == AddedEvents(s.isSell, AddRows(s.book, rows))
    ensures Resync(s, rows) == s.(book := Resync(s, rows).book, pendingAdd := Resync(s, rows).pendingAdd)
  {
    hide Wf, Sorted, UniqueIds, Live, SortedRows, ValidRows, GrowAll, GrownBy, CutAll, Cuts, AddRows, QtyAt, HasRow, AddedEvents;
    var adds, g := AddRows(s.book, rows), GrowAll(s, rows, FIRST_FAKE_ID);
    Sound(s);
    GrowAllKeeps(s, rows, FIRST_FAKE_ID);
    RowsGrow(s, rows, FIRST_FAKE_ID, 0.0);
    GrownAt(s, adds, FIRST_FAKE_ID, g, 0.0);
    forall x ensures (HasRow(g.side.pendingAdd, x) <==> HasRow(s.pendingAdd, x) || HasRow(adds, x))
                  && QtyAt(g.side.pendingAdd, x) == QtyAt(s.pendingAdd, x) + QtyAt(adds, x)
    {
      RowsGrow(s, rows, FIRST_FAKE_ID, x);
      GrownAt(s, adds, FIRST_FAKE_ID, g, x);
    }
  }

  lemma ExpectedOnce(isSell: bool, m: seq<Row>, adds: seq<Row>, x: seq<Row>, y: seq<Row>)
    requires AllExpected(isSell, m, x, adds) && AllExpected(isSell, m, y, adds)
    ensures x == y
  {
    hide SortedRows, HasRow, QtyAt;
    SameKeyed(isSell, x, y);
  }

  lemma ResyncMeets(s: Side, rows: seq<Row>)
    requires Wf(s) && ValidRows(s.isSell, rows)
    ensures ResyncOutcome(s, rows, Resync(s, rows), ResyncEvents(s, rows), AddRows(s.book, rows), Cuts(s, rows),
                          |GrowAll(s, rows, FIRST_FAKE_ID).cuts|)
  {
    hide Wf, Sorted, UniqueIds, Live, SortedRows, ValidRows, GrowAll, Resync, Cuts, AddRows, AddedEvents, CutEvents, Adding,
         Cutting, QueuesAfter, AllExpected, Guessed;
    Sound(s);
    AddingExactly(s.isSell, s.book, rows, AddRows(s.book, rows));
    CuttingHolds(s, rows);
    QueuesHold(s, rows);
    ExpectedHold(s, rows);
    GuessedExactly(s.isSell, AddRows(s.book, rows), Cuts(s, rows), ResyncEvents(s, rows));
  }

  lemma ResyncOnce(s: Side, rows: seq<Row>, x: Side, e: seq<OrderInfo>, y: Side, f: seq<OrderInfo>,
                   adds: seq<Row>, cuts: seq<Fill>, k: nat, adds': seq<Row>, cuts': seq<Fill>, k': nat)
    requires Live(s.book) && ValidRows(s.isSell, rows)
    requires ResyncOutcome(s, rows, x, e, adds, cuts, k) && ResyncOutcome(s, rows, y, f, adds', cuts', k')
    ensures x == y && e == f
  {
    hide Live, ValidRows, Adding, Cutting, QueuesAfter, AllExpected, Guessed, AddedEvents, CutEvents;
    PositiveRows(s.isSell, rows);
    AddingExactly(s.isSell, s.book, rows, adds);
    AddingExactly(s.isSell, s.book, rows, adds');
    CuttingOnce(s.isSell, s.book, rows, cuts, cuts', k, k');
    QueuesOnce(s.isSell, s.book, adds, cuts, x.book, y.book);
    ExpectedOnce(s.isSell, s.pendingAdd, adds, x.pendingAdd, y.pendingAdd);
    GuessedExactly(s.isSell, adds, cuts, e);
    GuessedExactly(s.isSell, adds, cuts, f);
  }

  // A snapshot on a side has this outcome and no other.
  lemma SnapshotExactly(s: Side, rows: seq<Row>, s': Side, events: seq<OrderInfo>)
    requires Wf(s) && ValidRows(s.isSell, rows)
    ensures (s', events) == (ApplySnapshot(s, rows), SnapshotEvents(s, rows)) <==> SnapshotOutcome(s, rows, s', events)
  {
    hide Wf, Sorted, UniqueIds, Live, SortedRows, ValidRows, GrowAll, Resync, ResyncEvents, Cuts, AddRows, ResyncOutcome;
    if s.snapQueue == [] {
      Sound(s);
      ResyncMeets(s, rows);
      forall adds, cuts, k: nat | ResyncOutcome(s, rows, s', events, adds, cuts, k)
        ensures s' == Resync(s, rows) && events == ResyncEvents(s, rows)
      {
        ResyncOnce(s, rows, s', events, Resync(s, rows), ResyncEvents(s, rows), adds, cuts, k,
                   AddRows(s.book, rows), Cuts(s, rows), |GrowAll(s, rows, FIRST_FAKE_ID).cuts|);
      }
    }
  }

  // In the book: the bids take their half first, and their events come first.
  lemma SnapshotBookExactly(b: Book, bidRows: seq<Row>, askRows: seq<Row>, b': Book, events: seq<OrderInfo>)
    requires WfBook(b) && ValidRows(false, bidRows) && ValidRows(true, askRows)
    ensures (b', events) == ProcessSnapshot(b, bidRows, askRows)
       <==> exists k :: 0 <= k <= |events| && SnapshotOutcome(b.bids, bidRows, b'.bids, events[..k])
                                           && SnapshotOutcome(b.asks, askRows, b'.asks, events[k..])
  {
    hide Wf, ValidRows, ApplySnapshot, SnapshotEvents, SnapshotOutcome;
    var x, y := SnapshotEvents(b.bids, bidRows), SnapshotEvents(b.asks, askRows);
    if (b', events) == ProcessSnapshot(b, bidRows, askRows) {
      assert events[..|x|] == x && events[|x|..] == y;
      SnapshotExactly(b.bids, bidRows, b'.bids, x);
      SnapshotExactly(b.asks, askRows, b'.asks, y);
    }
    forall k | 0 <= k <= |events| && SnapshotOutcome(b.bids, bidRows, b'.bids, events[..k])
                                  && SnapshotOutcome(b.asks, askRows, b'.asks, events[k..])
      ensures (b', events) == ProcessSnapshot(b, bidRows, askRows)
    {
      SnapshotExactly(b.bids, bidRows, b'.bids, events[..k]);
      SnapshotExactly(b.asks, askRows, b'.asks, events[k..]);
      assert events == events[..k] + events[k..];
    }
  }
}
