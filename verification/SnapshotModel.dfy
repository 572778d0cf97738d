// What an L2 snapshot does to one side (src/book_side.cpp:172-249): rows that exceed the
// book add guessed orders, rows that fall short and levels that are missing cut resting
// orders, and the cuts are reported as executions and cancellations.
module SnapshotModel {
  import opened Common
  import opened SideModel

  const FIRST_FAKE_ID: OrderId := 100

  // ceil(0.3 * n), in integers
  function ExecCount(n: nat): nat {
    (3 * n + 9) / 10
  }

  predicate HasRow(rows: seq<Row>, p: Price) {
    rows != [] && (rows[0].price == p || HasRow(rows[1..], p))
  }

  datatype Grown = Grown(side: Side, events: seq<OrderInfo>, cuts: seq<Fill>, nextId: OrderId)

  function Add(s: Side, id: OrderId, q: Quantity, p: Price): Side {
    s.(book := AddOrder(s.isSell, s.book, OrderV(id, q, 0, p)),
       pendingAdd := Credit(s.isSell, s.pendingAdd, p, q))
  }

  // One row against its level: a guessed order, the orders to cut, or nothing.
  function GrowRow(s: Side, row: Row, id: OrderId): Grown {
    var queue := AtPrice(s.book, row.price);
    var more := row.quantity - Sum(queue);
    if queue != [] && more < 0 then Grown(s, [], Sweep(s.isSell, queue, -more, row.price).fills, id)
    else if queue != [] && more == 0 then Grown(s, [], [], id)
    else Grown(Add(s, id, more, row.price), [OrderInfo(ADD, -1, s.isSell, more, row.price)], [], id + 1)
  }

  function GrowAll(s: Side, rows: seq<Row>, id: OrderId): Grown
    decreases |rows|
  {
    if rows == [] then Grown(s, [], [], id)
    else
      var g := GrowRow(s, rows[0], id);
      var h := GrowAll(g.side, rows[1..], g.nextId);
      Grown(h.side, g.events + h.events, g.cuts + h.cuts, h.nextId)
  }

  // Every order of a level that the snapshot does not show.
  function Missing(b: seq<OrderV>, rows: seq<Row>): seq<Fill> {
    if b == [] then []
    else if HasRow(rows, b[0].price) then Missing(b[1..], rows)
    else [Fill(b[0].id, b[0].Rem(), b[0].price)] + Missing(b[1..], rows)
  }

  function CutOne(b: seq<OrderV>, c: Fill): seq<OrderV> {
    if !Has(b, c.id) then b
    else if Find(b, c.id).Rem() == c.quantity then Remove(b, c.id)
    else Replace(b, Find(b, c.id).Take(c.quantity))
  }

  function CutAll(b: seq<OrderV>, cuts: seq<Fill>): seq<OrderV>
    decreases |cuts|
  {
    if cuts == [] then b else CutAll(CutOne(b, cuts[0]), cuts[1..])
  }

  function CutEvent(isSell: bool, c: Fill, exec: bool): OrderInfo {
    OrderInfo(if exec then EXEC else CANCEL, c.id, isSell, c.quantity, c.price)
  }

  function CutEvents(isSell: bool, cuts: seq<Fill>): seq<OrderInfo> {
    seq(|cuts|, i requires 0 <= i < |cuts| => CutEvent(isSell, cuts[i], i < ExecCount(|cuts|)))
  }

  // The orders to cut, in the order in which they are cut.
  function Cuts(s: Side, rows: seq<Row>): seq<Fill> {
    var g := GrowAll(s, rows, FIRST_FAKE_ID);
    g.cuts + Missing(g.side.book, rows)
  }

  function Resync(s: Side, rows: seq<Row>): Side {
    var g := GrowAll(s, rows, FIRST_FAKE_ID);
    g.side.(book := CutAll(g.side.book, Cuts(s, rows)))
  }

  function ResyncEvents(s: Side, rows: seq<Row>): seq<OrderInfo> {
    GrowAll(s, rows, FIRST_FAKE_ID).events + CutEvents(s.isSell, Cuts(s, rows))
  }

  function ApplySnapshot(s: Side, rows: seq<Row>): Side {
    if s.snapQueue == [] then Resync(s, rows)
    else if s.snapQueue[0] == rows then s.(snapQueue := s.snapQueue[1..])
    else s
  }

  function SnapshotEvents(s: Side, rows: seq<Row>): seq<OrderInfo> {
    if s.snapQueue == [] then ResyncEvents(s, rows) else []
  }

  // ---------- The cuts fit the book ----------

  ghost predicate DistinctCuts(cuts: seq<Fill>) {
    cuts == [] || ((forall c :: c in cuts[1..] ==> c.id != cuts[0].id) && DistinctCuts(cuts[1..]))
  }

  ghost predicate CutFits(b: seq<OrderV>, c: Fill) {
    Has(b, c.id) && Find(b, c.id).price == c.price && 0 < c.quantity <= Find(b, c.id).Rem()
  }

  ghost predicate CutsFit(b: seq<OrderV>, cuts: seq<Fill>) {
    DistinctCuts(cuts) && forall c :: c in cuts ==> CutFits(b, c)
  }

  // What the exchange guarantees of a snapshot: levels in book order, none empty.
  ghost predicate ValidRows(isSell: bool, rows: seq<Row>) {
    SortedRows(isSell, rows) && Positive(rows)
  }
}
