// What one side of the book means: its resting orders as a single list in price-time
// order, and the three records that reconcile the feeds. Every method of class
// BookSide is proved against a function of this module.
module SideModel {
  import opened Common

  datatype OrderV = OrderV(id: OrderId, quantity: Quantity, filled: Quantity, price: Price) {
    function Rem(): Quantity { quantity - filled }

    function Take(q: Quantity): OrderV { this.(filled := filled + q) }
  }

  // A quantity taken from (or guessed to leave) one resting order.
  datatype Fill = Fill(id: OrderId, quantity: Quantity, price: Price)

  datatype Side = Side(
    isSell: bool,
    book: seq<OrderV>,
    pendingAdd: seq<Row>,
    pendingRemove: map<Price, Quantity>,
    snapQueue: seq<seq<Row>>)

  // ---------- Well-formed sides ----------

  ghost predicate Sorted(isSell: bool, b: seq<OrderV>) {
    b == [] || ((forall o :: o in b[1..] ==> NoWorse(isSell, b[0].price, o.price)) && Sorted(isSell, b[1..]))
  }

  ghost predicate UniqueIds(b: seq<OrderV>) {
    b == [] || (!Has(b[1..], b[0].id) && UniqueIds(b[1..]))
  }

  // Every resting order still has something to fill.
  ghost predicate Live(b: seq<OrderV>) {
    forall o :: o in b ==> o.Rem() > 0
  }

  ghost predicate SortedRows(isSell: bool, m: seq<Row>) {
    m == [] || ((forall r :: r in m[1..] ==> Better(isSell, m[0].price, r.price)) && SortedRows(isSell, m[1..]))
  }

  ghost predicate NonNegative(m: seq<Row>) {
    forall r :: r in m ==> r.quantity >= 0
  }

  ghost predicate Positive(m: seq<Row>) {
    forall r :: r in m ==> r.quantity > 0
  }

  // A map of pending quantities never stores a zero.
  ghost predicate Canonical(m: map<Price, Quantity>) {
    forall p :: p in m ==> m[p] > 0
  }

  ghost predicate Wf(s: Side) {
    && Sorted(s.isSell, s.book)
    && UniqueIds(s.book)
    && Live(s.book)
    && SortedRows(s.isSell, s.pendingAdd)
    && NonNegative(s.pendingAdd)
    && Canonical(s.pendingRemove)
  }

  // ---------- Orders: add, remove, modify, fill ----------

  predicate Has(b: seq<OrderV>, id: OrderId) {
    b != [] && (b[0].id == id || Has(b[1..], id))
  }

  // The new order queues behind every order whose price is as good as its own.
  function Insert(isSell: bool, b: seq<OrderV>, o: OrderV): seq<OrderV> {
    if b == [] || Better(isSell, o.price, b[0].price) then [o] + b
    else [b[0]] + Insert(isSell, b[1..], o)
  }

  function Remove(b: seq<OrderV>, id: OrderId): seq<OrderV> {
    if b == [] then []
    else if b[0].id == id then b[1..]
    else [b[0]] + Remove(b[1..], id)
  }

  function Replace(b: seq<OrderV>, o: OrderV): seq<OrderV> {
    if b == [] then []
    else if b[0].id == o.id then [o] + b[1..]
    else [b[0]] + Replace(b[1..], o)
  }

  function Find(b: seq<OrderV>, id: OrderId): (o: OrderV)
    requires Has(b, id)
    ensures o in b && o.id == id
  {
    if b[0].id == id then b[0] else Find(b[1..], id)
  }

  function AddOrder(isSell: bool, b: seq<OrderV>, o: OrderV): seq<OrderV> {
    if Has(b, o.id) then b else Insert(isSell, b, o)
  }

  function ModifyOrder(isSell: bool, b: seq<OrderV>, id: OrderId, quantity: Quantity, price: Price): seq<OrderV> {
    if !Has(b, id) then b
    else
      var o := Find(b, id);
      if o.price == price then Replace(b, o.(quantity := quantity))
      else Insert(isSell, Remove(b, id), OrderV(id, quantity, o.filled, price))
  }

  // ---------- Totals and the L2 view ----------

  function Sum(b: seq<OrderV>): Quantity {
    if b == [] then 0 else b[0].Rem() + Sum(b[1..])
  }

  // The orders of one price level, in queue order.
  function AtPrice(b: seq<OrderV>, p: Price): seq<OrderV> {
    if b == [] then []
    else if b[0].price == p then [b[0]] + AtPrice(b[1..], p)
    else AtPrice(b[1..], p)
  }

  // One row per price level, carrying the level's resting total.
  function L2View(b: seq<OrderV>): seq<Row> {
    if b == [] then []
    else
      var rest := L2View(b[1..]);
      if rest != [] && rest[0].price == b[0].price
      then [Row(b[0].price, b[0].Rem() + rest[0].quantity)] + rest[1..]
      else [Row(b[0].price, b[0].Rem())] + rest
  }

  // The view saved just after a fill at price p: exhausted orders are erased only when
  // the whole level has been walked, so a drained level is recorded with quantity zero.
  function ViewAfterFill(p: Price, rest: seq<OrderV>): seq<Row> {
    if rest != [] && rest[0].price == p then L2View(rest) else [Row(p, 0)] + L2View(rest)
  }

  // ---------- The greedy matcher ----------

  datatype Swept = Swept(fills: seq<Fill>, rest: seq<OrderV>, left: Quantity)

  // Fill up to q from the front of the list, as far as prices are no worse than limit.
  function Sweep(isSell: bool, b: seq<OrderV>, q: Quantity, limit: Price): (r: Swept)
    ensures |r.rest| <= |b|
  {
    if q <= 0 || b == [] || !NoWorse(isSell, b[0].price, limit) then Swept([], b, q)
    else if q < b[0].Rem() then
      Swept([Fill(b[0].id, q, b[0].price)], [b[0].Take(q)] + b[1..], 0)
    else
      var r := Sweep(isSell, b[1..], q - b[0].Rem(), limit);
      Swept([Fill(b[0].id, b[0].Rem(), b[0].price)] + r.fills, r.rest, r.left)
  }

  // The L2 views saved during the sweep, one for each fill.
  function SweepViews(isSell: bool, b: seq<OrderV>, q: Quantity, limit: Price): seq<seq<Row>> {
    if q <= 0 || b == [] || !NoWorse(isSell, b[0].price, limit) then []
    else if q < b[0].Rem() then [L2View([b[0].Take(q)] + b[1..])]
    else [ViewAfterFill(b[0].price, b[1..])] + SweepViews(isSell, b[1..], q - b[0].Rem(), limit)
  }

  function ExecEvents(isSell: bool, fills: seq<Fill>): seq<OrderInfo> {
    seq(|fills|, i requires 0 <= i < |fills| =>
      OrderInfo(EXEC, fills[i].id, isSell, fills[i].quantity, fills[i].price))
  }

  // ---------- Pending quantities ----------

  function Get(m: map<Price, Quantity>, p: Price): Quantity {
    if p in m then m[p] else 0
  }

  function Owe(m: map<Price, Quantity>, p: Price, q: Quantity): map<Price, Quantity> {
    m[p := Get(m, p) + q]
  }

  function OweAll(m: map<Price, Quantity>, fills: seq<Fill>): map<Price, Quantity>
    decreases |fills|
  {
    if fills == [] then m
    else OweAll(Owe(m, fills[0].price, fills[0].quantity), fills[1..])
  }

  function OweEvents(m: map<Price, Quantity>, events: seq<OrderInfo>): map<Price, Quantity>
    decreases |events|
  {
    if events == [] then m
    else if events[0].event == EXEC
    then OweEvents(Owe(m, events[0].price, events[0].quantity), events[1..])
    else OweEvents(m, events[1..])
  }

  function RemoveMatched(m: map<Price, Quantity>, q: Quantity, p: Price): Quantity {
    if p in m then Min(m[p], q) else 0
  }

  function RemoveLeft(m: map<Price, Quantity>, q: Quantity, p: Price): map<Price, Quantity> {
    if p !in m then m
    else if m[p] == RemoveMatched(m, q, p) then m - {p}
    else m[p := m[p] - RemoveMatched(m, q, p)]
  }

  // pending_liq_add_qty_[p] += q on the ordered map.
  function Credit(isSell: bool, m: seq<Row>, p: Price, q: Quantity): seq<Row> {
    if m == [] || Better(isSell, p, m[0].price) then [Row(p, q)] + m
    else if m[0].price == p then [Row(p, m[0].quantity + q)] + m[1..]
    else [m[0]] + Credit(isSell, m[1..], p, q)
  }

  function EraseKey(m: seq<Row>, p: Price): seq<Row> {
    if m == [] then []
    else if m[0].price == p then m[1..]
    else [m[0]] + EraseKey(m[1..], p)
  }

  // src/book_side.cpp:261 erases the order's price; the repaired line would erase the
  // key of the entry that was drained.
  datatype Erase = AsWritten | Repaired

  // Stuck: the loop repeats one state for ever.
  datatype Matched = Done(matched: Quantity, left: seq<Row>) | Stuck {
    function Plus(q: Quantity): Matched {
      if Done? then Done(matched + q, left) else Stuck
    }
  }

  function MatchAdd(e: Erase, isSell: bool, m: seq<Row>, q: Quantity, p: Price): Matched {
    if m == [] || !NoWorse(isSell, p, m[0].price) then Done(0, m)
    else
      var cur := Min(m[0].quantity, q);
      if cur == m[0].quantity && (e.Repaired? || m[0].price == p) then
        if cur == q then Done(cur, m[1..])
        else MatchAdd(e, isSell, m[1..], q - cur, p).Plus(cur)
      else if cur == q then Done(cur, [Row(m[0].price, m[0].quantity - cur)] + m[1..])
      else Stuck
  }

  // ---------- Messages on one side ----------

  function Crossed(s: Side, price: Price): bool {
    s.book != [] && NoWorse(s.isSell, s.book[0].price, price)
  }

  // The side after an aggressive order for q at price was matched against it.
  function Cross(s: Side, q: Quantity, price: Price): Side {
    var r := Sweep(s.isSell, s.book, q, price);
    s.(book := r.rest,
       pendingRemove := OweAll(s.pendingRemove, r.fills),
       snapQueue := s.snapQueue + SweepViews(s.isSell, s.book, q, price))
  }

  function Cancel(s: Side, id: OrderId, q: Quantity, price: Price): (Side, seq<OrderInfo>) {
    var rest := q - RemoveMatched(s.pendingRemove, q, price);
    var s1 := Settle(s, q, price);
    if rest > 0 && Has(s.book, id)
    then (s1.(book := Remove(s.book, id)), [OrderInfo(CANCEL, id, s.isSell, rest, price)])
    else (s1, [])
  }

  // How many leading orders are strictly better than p.
  function BetterCount(isSell: bool, b: seq<OrderV>, p: Price): (n: nat)
    ensures n <= |b|
  {
    if b == [] || !Better(isSell, b[0].price, p) then 0 else 1 + BetterCount(isSell, b[1..], p)
  }

  function CancelEvents(isSell: bool, b: seq<OrderV>): seq<OrderInfo> {
    seq(|b|, i requires 0 <= i < |b| => OrderInfo(CANCEL, b[i].id, isSell, b[i].quantity, b[i].price))
  }

  // The views saved while the first n orders are erased one by one.
  function DropViews(b: seq<OrderV>, n: nat): seq<seq<Row>>
    requires n <= |b|
  {
    seq(n, i requires 0 <= i < n => L2View(b[i + 1..]))
  }

  // The views saved while the n orders a trade at p exhausted are erased one by one.
  function EraseViews(p: Price, rest: seq<OrderV>, n: nat): seq<seq<Row>> {
    if n == 0 then []
    else if n == 1 then [L2View(rest)]
    else [ViewAfterFill(p, rest)] + EraseViews(p, rest, n - 1)
  }

  // The part of a trade that no earlier order message has accounted for.
  function TradeOpen(s: Side, t: Trade): Quantity {
    t.quantity - RemoveMatched(s.pendingRemove, t.quantity, t.price)
  }

  // The side after every order strictly better than p was erased.
  function DropBetter(s: Side, p: Price): Side {
    var n := BetterCount(s.isSell, s.book, p);
    s.(book := s.book[n..], snapQueue := s.snapQueue + DropViews(s.book, n))
  }

  function DropEvents(s: Side, p: Price): seq<OrderInfo> {
    CancelEvents(s.isSell, s.book[..BetterCount(s.isSell, s.book, p)])
  }

  // The side after q was filled at price p exactly, with nothing better than p resting.
  function FillAt(s: Side, q: Quantity, p: Price): Side {
    var r := Sweep(s.isSell, s.book, q, p);
    s.(book := r.rest,
       snapQueue := s.snapQueue + SweepViews(s.isSell, s.book, q, p) + EraseViews(p, r.rest, |s.book| - |r.rest|))
  }

  // Earlier order messages have accounted for part of a trade or a cancellation.
  function Settle(s: Side, q: Quantity, p: Price): Side {
    s.(pendingRemove := RemoveLeft(s.pendingRemove, q, p))
  }

  // Liquidity is expected that no order message has brought yet.
  function Expect(s: Side, q: Quantity, p: Price): Side {
    if q > 0 then s.(pendingAdd := Credit(s.isSell, s.pendingAdd, p, q)) else s
  }

  // Traded quantity with no resting order behind it: an order message is still to come.
  function GuessEvents(isSell: bool, left: Quantity, p: Price): seq<OrderInfo> {
    if left > 0 then [OrderInfo(ADD, -1, isSell, left, p), OrderInfo(EXEC, -1, isSell, left, p)] else []
  }

  // The side a trade finds once what was settled and what was better is gone.
  function TradeFront(s: Side, t: Trade): Side {
    DropBetter(Settle(s, t.quantity, t.price), t.price)
  }

  function TradeSweep(s: Side, t: Trade): Swept {
    Sweep(s.isSell, TradeFront(s, t).book, TradeOpen(s, t), t.price)
  }

  function ApplyTrade(s: Side, t: Trade): Side {
    Expect(FillAt(TradeFront(s, t), TradeOpen(s, t), t.price), TradeSweep(s, t).left, t.price)
  }

  function TradeEvents(s: Side, t: Trade): seq<OrderInfo> {
    var r := TradeSweep(s, t);
    DropEvents(Settle(s, t.quantity, t.price), t.price)
    + ExecEvents(s.isSell, r.fills)
    + GuessEvents(s.isSell, r.left, t.price)
  }
}
