// One side of the book (src/book_side.cpp, src/include/book_side.h): price levels of
// FIFO queues, an index by order id over the orders, and the pending maps.
// Model() is the side's meaning; every method is proved against it.
module BookSides {
  import opened Common
  import opened SideModel
  import opened ListLemmas
  import opened Level
  import opened Agreement
  import opened Matching
  import opened PendingAdd
  import opened SnapshotModel
  import opened SnapshotLemmas

  // The level holds the given orders, queued at price p.
  ghost predicate LevelOk(level: L3PriceLevel, p: Price, queue: seq<OrderV>)
    reads level
  {
    level.price == p && level.Valid() && level.orders == queue
  }

  class BookSide {
    const isSell: bool
    var levels: map<Price, L3PriceLevel>
    var orderMap: map<OrderId, Price>  // where to find each order: the level that queues it
    var snapQueue: seq<seq<Row>>
    var pendingRemove: map<Price, Quantity>
    var pendingAdd: seq<Row>
    ghost var view: View
    ghost var Repr: set<L3PriceLevel>  // the level objects this side owns

    // The levels and the index hold exactly the orders of the list.
    ghost predicate Valid()
      reads this, Repr
    {
      && (forall p :: p in levels ==> levels[p] in Repr)
      && levels.Keys == view.queues.Keys
      && (forall p :: p in levels ==> LevelOk(levels[p], p, view.queues[p]))
      && orderMap == view.prices
      && Agree(isSell, view)
      && SortedRows(isSell, pendingAdd)
    }

    ghost function Model(): Side
      reads this
    {
      Side(isSell, view.book, pendingAdd, pendingRemove, snapQueue)
    }

    constructor (isSell: bool)
      ensures Valid() && Repr == {}
      ensures Model() == Side(isSell, [], [], map[], [])
    {
      this.isSell := isSell;
      levels, orderMap, snapQueue, pendingRemove, pendingAdd := map[], map[], [], map[], [];
      view, Repr := View([], map[], map[]), {};
    }

    // ---------- Orders ----------

    // operator[]: a price without a level gets an empty one.
    method LevelAt(price: Price) returns (level: L3PriceLevel)
      requires Valid()
      ensures if price in levels then level == levels[price] else fresh(level)
      ensures level.Valid() && level.orders == QueueOf(view.queues, price)
      ensures forall p :: p in levels && p != price ==> levels[p] != level
    {
      if price in levels {
        level := levels[price];
      } else {
        level := new L3PriceLevel();
      }
    }

    // All is in order but for the level at one price.
    ghost predicate ValidBut(price: Price)
      reads this, Repr
    {
      && levels.Keys == view.queues.Keys
      && (forall p :: p in levels && p != price ==> levels[p] in Repr && LevelOk(levels[p], p, view.queues[p]))
      && orderMap == view.prices
      && SortedRows(isSell, pendingAdd)
    }

    // The side's record of an order that has joined its level.
    method Enter(order: OrderV, level: L3PriceLevel)
      requires ValidBut(order.price) && Agree(isSell, With(isSell, view, order))
      requires LevelOk(level, order.price, QueueOf(view.queues, order.price) + [order])
      modifies this
      ensures Valid() && Repr == old(Repr) + {level}
      ensures Model() == old(Model()).(book := Insert(isSell, old(view.book), order))
    {
      hide Agree, L3PriceLevel.Valid, SortedRows, Insert;
      levels, orderMap := levels[order.price := level], orderMap[order.id := order.price];
      view, Repr := With(isSell, view, order), Repr + {level};
    }

    method AddOrder(order: OrderV)
      requires Valid()
      modifies this, Repr
      ensures Valid() && fresh(Repr - old(Repr))
      ensures Model() == old(Model()).(book := SideModel.AddOrder(isSell, old(view.book), order))
    {
      hide Agree, UniqueIds, Sum, AtPrice, Insert, SortedRows, With, Has;
      AgreeHas(isSell, view, order.id);
      if order.id in orderMap { return; }
      AgreeInsert(isSell, view, order);
      var level := LevelAt(order.price);
      level.AddOrder(order);
      Enter(order, level);
    }

    // The side's record of an order that has left its level.
    method Leave(id: OrderId, level: L3PriceLevel)
      requires id in orderMap && orderMap[id] in levels && level == levels[orderMap[id]] && level in Repr
      requires ValidBut(orderMap[id]) && Agree(isSell, Without(view, id))
      requires LevelOk(level, orderMap[id], Remove(view.queues[orderMap[id]], id))
      modifies this
      ensures Valid() && Repr == old(Repr)
      ensures Model() == old(Model()).(book := Remove(old(view.book), id))
    {
      hide Agree, SortedRows, Remove, Sum, UniqueIds;
      orderMap, view := orderMap - {id}, Without(view, id);
      if level.numOrders == 0 {
        levels := levels - {level.price};
      }
    }

    method RemoveOrder(id: OrderId)
      requires Valid()
      modifies this, Repr
      ensures Valid() && Repr == old(Repr)
      ensures Model() == old(Model()).(book := Remove(old(view.book), id))
    {
      hide Agree, UniqueIds, Sum, AtPrice, Remove, SortedRows, Without, Has;
      AgreeHas(isSell, view, id);
      if id !in orderMap {
        RemoveAbsent(view.book, id);
        return;
      }
      AgreeRemove(isSell, view, id);
      var level := levels[orderMap[id]];
      level.RemoveOrder(id);
      Leave(id, level);
    }

    // cur_level.fillOrder on the level that queues the order.
    method FillOrder(id: OrderId, qty: Quantity)
      requires Valid() && Has(view.book, id) && qty <= Find(view.book, id).Rem()
      modifies this, Repr
      ensures Valid() && levels == old(levels) && Repr == old(Repr)
      ensures forall p :: p in levels ==> |levels[p].orders| == old(|levels[p].orders|)
      ensures Model() == old(Model()).(book := Replace(old(view.book), Find(old(view.book), id).Take(qty)))
    {
      hide Agree, UniqueIds, Sum, AtPrice, Replace, SortedRows;
      AgreeHas(isSell, view, id);
      AgreeReplace(isSell, view, Find(view.book, id).Take(qty));
      ReplaceLength(levels[orderMap[id]].orders, Find(view.book, id).Take(qty));
      levels[orderMap[id]].FillOrder(id, qty);
      view := Changed(view, Find(view.book, id).Take(qty));
    }

    method ModifyOrder(id: OrderId, quantity: Quantity, price: Price)
      requires Valid()
      modifies this, Repr
      ensures Valid() && fresh(Repr - old(Repr))
      ensures Model() == old(Model()).(book := SideModel.ModifyOrder(isSell, old(view.book), id, quantity, price))
    {
      hide Agree, UniqueIds, Sum, AtPrice, Replace, SortedRows;
      AgreeHas(isSell, view, id);
      if id !in orderMap { return; }
      var level := levels[orderMap[id]];
      var order := Find(level.orders, id);
      if orderMap[id] == price {
        AgreeReplace(isSell, view, order.(quantity := quantity));
        level.ModifyOrder(id, quantity);
        view := Changed(view, order.(quantity := quantity));
      } else {
        AgreeUnique(isSell, view, id);
        RemoveOrder(id);
        AddOrder(OrderV(id, quantity, order.filled, price));
      }
    }

    // ---------- Walking the levels ----------

    method Begin() returns (best: Price)
      requires Valid() && levels.Keys != {}
      ensures best in levels && view.book != [] && best == view.book[0].price
    {
      hide Agree, L3PriceLevel.Valid;
      AgreeFront(isSell, view);
      assert exists p :: p in levels by {
        var p := Member(levels.Keys);
      }
      best :| best in levels && forall p :: p in levels ==> NoWorse(isSell, best, p);
      assert NoWorse(isSell, view.book[0].price, best) && NoWorse(isSell, best, view.book[0].price);
    }

    method BookCrossedWithPrice(price: Price) returns (crossed: bool)
      requires Valid()
      ensures crossed == Crossed(Model(), price)
    {
      hide Agree, L3PriceLevel.Valid;
      AgreeFront(isSell, view);
      if levels.Keys == {} { return false; }
      var best := Begin();
      crossed := if isSell then price >= best else best >= price;
    }

    method SaveL2SnapshotSide()
      requires Valid()
      modifies this`snapQueue
      ensures Valid() && Model() == old(Model()).(snapQueue := old(snapQueue) + [L2View(view.book)])
    {
      hide Agree, Remaining, UniqueIds, L2View;
      var rows, rest := [], levels.Keys;
      ghost var b := view.book;
      RemainingAll(isSell, view);
      while rest != {}
        invariant Remaining(isSell, view, b, rest) && rest <= levels.Keys
        invariant L2View(view.book) == rows + L2View(b)
        invariant snapQueue == old(snapQueue)
      {
        RemainingHead(isSell, view, b, rest);
        ghost var some := Member(rest);
        var p :| p in rest && forall q :: q in rest ==> NoWorse(isSell, p, q);
        ghost var b' := RemainingNext(isSell, view, b, rest, p);
        ViewLevel(view.queues[p], p, b');
        rows := rows + [Row(p, levels[p].quantity)];
        rest, b := rest - {p}, b';
      }
      RemainingHead(isSell, view, b, rest);
      assert b == [];
      ViewHead(b);
      assert L2View(view.book) == rows;
      snapQueue := snapQueue + [rows];
    }

    // ---------- Pending quantities ----------

    method MatchPendingLiqRemove(quantity: Quantity, price: Price) returns (matched: Quantity)
      requires Valid()
      modifies this`pendingRemove
      ensures Valid() && matched == RemoveMatched(old(pendingRemove), quantity, price)
      ensures Model() == Settle(old(Model()), quantity, price)
    {
      hide Agree, L3PriceLevel.Valid;
      matched := 0;
      if price in pendingRemove {
        matched := Min(pendingRemove[price], quantity);
        pendingRemove := pendingRemove[price := pendingRemove[price] - matched];
        if pendingRemove[price] == 0 {
          pendingRemove := pendingRemove - {price};
          assert pendingRemove == old(pendingRemove) - {price};
        }
      }
    }

    method AddPendingLiqRemoveQty(events: seq<OrderInfo>)
      requires Valid()
      modifies this`pendingRemove
      ensures Valid() && Model() == old(Model()).(pendingRemove := OweEvents(old(pendingRemove), events))
    {
      hide Agree, L3PriceLevel.Valid;
      for i := 0 to |events|
        invariant Valid() && Model() == old(Model()).(pendingRemove := pendingRemove)
        invariant OweEvents(old(pendingRemove), events) == OweEvents(pendingRemove, events[i..])
      {
        var e := events[i];
        assert events[i..][1..] == events[i + 1..];
        if e.event == EXEC {
          pendingRemove := Owe(pendingRemove, e.price, e.quantity);
        }
      }
      assert events[|events|..] == [];
    }

    // The loop as the source writes it. It comes back exactly when MatchAdd is Done.
    method MatchPendingLiqAdd(quantity: Quantity, price: Price) returns (matched: Quantity)
      requires Valid() && MatchAdd(AsWritten, isSell, pendingAdd, quantity, price).Done?
      modifies this`pendingAdd
      ensures Valid()
      ensures MatchAdd(AsWritten, isSell, old(pendingAdd), quantity, price) == Done(matched, pendingAdd)
      ensures Model() == old(Model()).(pendingAdd := pendingAdd)
    {
      hide Agree, LevelOk, MatchAdd, SortedRows, EraseKey;
      matched := 0;
      while pendingAdd != []
        invariant Valid() && Model() == old(Model()).(pendingAdd := pendingAdd)
        invariant MatchAdd(AsWritten, isSell, pendingAdd, quantity - matched, price).Done?
        invariant MatchAdd(AsWritten, isSell, old(pendingAdd), quantity, price)
               == MatchAdd(AsWritten, isSell, pendingAdd, quantity - matched, price).Plus(matched)
        decreases |pendingAdd|
      {
        TurnMeaning(AsWritten, isSell, pendingAdd, matched, quantity, price);
        var top := pendingAdd[0];
        var canMatch := if isSell then price <= top.price else price >= top.price;
        if !canMatch { break; }
        var cur := Min(top.quantity, quantity - matched);
        matched := matched + cur;
        pendingAdd := [Row(top.price, top.quantity - cur)] + pendingAdd[1..];
        if pendingAdd[0].quantity == 0 {
          pendingAdd := EraseKey(pendingAdd, price);
        }
        if matched == quantity { break; }
      }
      if pendingAdd == [] {
        TurnMeaning(AsWritten, isSell, pendingAdd, matched, quantity, price);
      }
    }

    // ---------- Matching ----------

    lemma BookSorted()
      requires Valid()
      ensures Sorted(isSell, view.book) && UniqueIds(view.book)
    {
      AgreeSorted(isSell, view);
    }

    // The side in the middle of a walk that started from s0.
    ghost predicate Walked(s0: Side, w: Walk)
      reads this
    {
      Model() == s0.(book := w.z + w.rest, snapQueue := s0.snapQueue + w.views)
    }

    lemma WalkBegins(w: Walk)
      requires w.z == [] && w.rest == view.book && w.views == []
      ensures Walked(Model(), w)
    {
    }

    // The order the walk has reached.
    lemma WalkOrder(s0: Side, b: seq<OrderV>, quantity: Quantity, price: Price, w: Walk)
      requires Valid() && price in levels && Walked(s0, w) && Walking(isSell, b, quantity, price, w)
      ensures var queue := levels[price].orders;
              && |w.z| <= |queue|
              && (|w.z| < |queue| ==> w.rest != [] && w.rest[0].price == price && queue[|w.z|] == w.rest[0]
                                      && w.rest[0].Rem() > 0)
              && (|w.z| == |queue| ==> w.rest == [] || !NoWorse(isSell, w.rest[0].price, price))
    {
      AgreeSorted(isSell, view);
      FrontOrder(isSell, w.z, w.rest, price);
    }

    lemma WalkOver(s0: Side, b: seq<OrderV>, quantity: Quantity, price: Price, w: Walk)
      requires Valid() && price in levels && Walked(s0, w) && Walking(isSell, b, quantity, price, w)
      requires w.left > 0 ==> |w.z| == |levels[price].orders|
      ensures var r := Sweep(isSell, b, quantity, price);
              && r == Swept(w.fills, w.rest, w.left)
              && Model() == s0.(book := w.z + r.rest,
                   snapQueue := s0.snapQueue + SweepViews(isSell, b, quantity, price))
      ensures Exhausted(w.z, price) && |w.z| + |w.rest| == |b|
    {
      WalkOrder(s0, b, quantity, price, w);
      WalkEnd(isSell, b, quantity, price, w);
    }

    // Fill the first order that is not yet exhausted, and save the view.
    method FillOne(ghost s0: Side, ghost w: Walk, ghost w': Walk, id: OrderId, qty: Quantity)
      requires Valid() && Walked(s0, w) && w.rest != [] && w.rest[0].id == id && qty <= w.rest[0].Rem()
      requires w'.z + w'.rest == w.z + [w.rest[0].Take(qty)] + w.rest[1..]
      requires w'.views == w.views + [L2View(w'.z + w'.rest)]
      modifies this, Repr
      ensures Valid() && levels == old(levels) && Repr == old(Repr) && Walked(s0, w')
      ensures forall p :: p in levels ==> |levels[p].orders| == old(|levels[p].orders|)
    {
      hide Agree, L3PriceLevel.Valid, L2View, LevelOk;
      AgreeSorted(isSell, view);
      FindAfter(w.z, w.rest, w.rest[0].Take(qty));
      FillOrder(id, qty);
      SaveL2SnapshotSide();
      Assoc(s0.snapQueue, w.views, [L2View(w'.z + w'.rest)]);
    }

    // The walk over the queue of the front level: fill its orders first to last, save a view
    // after each fill, and report the exhausted ones, which the caller erases.
    method FillFront(price: Price, quantity: Quantity)
      returns (events: seq<OrderInfo>, toRemove: seq<OrderId>, left: Quantity, ghost z: seq<OrderV>)
      requires Valid() && Live(view.book) && quantity >= 0
      requires price in levels && view.book != [] && view.book[0].price == price
      modifies this, Repr
      ensures Valid() && levels == old(levels) && Repr == old(Repr)
      ensures var r := Sweep(isSell, old(view.book), quantity, price);
              && Model() == old(Model()).(book := z + r.rest,
                   snapQueue := old(snapQueue) + SweepViews(isSell, old(view.book), quantity, price))
              && events == ExecEvents(isSell, r.fills)
              && left == r.left
              && |z| + |r.rest| == |old(view.book)|
      ensures Exhausted(z, price) && toRemove == Ids(z)
    {
      hide Valid, L2View, Walking, Walked, Sweep, SweepViews, Exhausted, Sorted, UniqueIds, Live, Ids, ExecEvents;
      BookSorted();
      ghost var s0, b := Model(), view.book;
      ghost var w := WalkStart(isSell, b, quantity);
      WalkBegins(w);
      events, toRemove, left := [], [], quantity;
      var level := levels[price];
      var i, n := 0, |level.orders|;
      while i < n && left != 0
        invariant Valid() && levels == old(levels) && Repr == old(Repr) && |level.orders| == n
        invariant Walked(s0, w) && Walking(isSell, b, quantity, price, w)
        invariant events == ExecEvents(isSell, w.fills) && toRemove == Ids(w.z) && left == w.left >= 0
        invariant 0 <= i <= n && (left > 0 ==> |w.z| == i)
        decreases n - i
      {
        WalkOrder(s0, b, quantity, price, w);
        var order := level.orders[i];
        var fillable := Min(left, order.Rem());
        ghost var w' := WalkStep(isSell, b, quantity, price, w);
        FillOne(s0, w, w', order.id, fillable);
        left := left - fillable;
        if fillable == order.Rem() {
          toRemove := toRemove + [order.id];
        }
        events := events + [OrderInfo(EXEC, order.id, isSell, fillable, order.price)];
        w, i := w', i + 1;
      }
      WalkOver(s0, b, quantity, price, w);
      z := w.z;
    }

    // Erase the orders that a walk has collected.
    method EraseOrders(ids: seq<OrderId>, ghost z: seq<OrderV>, ghost rest: seq<OrderV>)
      requires Valid() && view.book == z + rest && ids == Ids(z)
      modifies this, Repr
      ensures Valid() && Repr == old(Repr)
      ensures Model() == old(Model()).(book := rest)
    {
      hide Valid, Ids, Remove;
      assert |Ids(z)| == |z| by { IdsLength(z); }
      assert z[0..] + rest == z + rest;
      for j := 0 to |ids|
        invariant Valid() && Repr == old(Repr)
        invariant Model() == old(Model()).(book := z[j..] + rest)
      {
        EraseStep(z, rest, j);
        RemoveOrder(ids[j]);
      }
      assert z[|z|..] + rest == rest;
    }

    // The same, with a view saved after each erased order.
    method EraseOrdersSaving(ids: seq<OrderId>, ghost z: seq<OrderV>, ghost rest: seq<OrderV>)
      requires Valid() && view.book == z + rest && ids == Ids(z)
      modifies this, Repr
      ensures Valid() && Repr == old(Repr)
      ensures Model() == old(Model()).(book := rest, snapQueue := old(snapQueue) + DropViews(z + rest, |z|))
    {
      hide Valid, Ids, Remove, L2View, DropViews;
      ghost var s0, b := Model(), view.book;
      IdsLength(z);
      assert z[0..] + rest == z + rest;
      DropViewsNone(b);
      assert snapQueue + [] == snapQueue;
      for j := 0 to |ids|
        invariant Valid() && Repr == old(Repr)
        invariant Model() == s0.(book := z[j..] + rest, snapQueue := s0.snapQueue + DropViews(b, j))
      {
        EraseStep(z, rest, j);
        DropViewsNext(z, rest, j);
        RemoveOrder(ids[j]);
        SaveL2SnapshotSide();
        Assoc(s0.snapQueue, DropViews(b, j), [L2View(view.book)]);
      }
      assert z[|z|..] + rest == rest;
    }

    method ProcessCrossedOrder(order: OrderV) returns (events: seq<OrderInfo>, filled: OrderV)
      requires Valid() && Live(view.book)
      modifies this, Repr
      ensures Valid() && Repr == old(Repr)
      ensures Model() == Cross(old(Model()), order.Rem(), order.price)
      ensures var r := Sweep(isSell, old(view.book), order.Rem(), order.price);
              && events == ExecEvents(isSell, r.fills)
              && filled == order.Take(order.Rem() - r.left)
    {
      hide Valid, Cross, Crossed, Sweep, Live, Sorted, UniqueIds, ExecEvents, Crossing;
      ghost var s0, b0 := Model(), view.book;
      events, filled := [], order;
      var remaining := order.Rem();
      var crossed := BookCrossedWithPrice(order.price);
      CrossingStart(isSell, s0, remaining, order.price);
      while remaining > 0 && crossed
        invariant Valid() && Repr == old(Repr) && Live(view.book)
        invariant Crossing(isSell, s0, order.Rem(), order.price, Model(), remaining, events)
        invariant filled == order.Take(order.Rem() - remaining)
        invariant crossed == Crossed(Model(), order.price)
        decreases remaining
      {
        CrossingNext(isSell, s0, order.Rem(), order.price, Model(), view.book, remaining, events);
        var left, levelEvents := CrossFront(remaining);
        events := events + levelEvents;
        filled := filled.Take(remaining - left);
        remaining := left;
        crossed := BookCrossedWithPrice(order.price);
      }
      CrossingEnd(isSell, s0, b0, order.Rem(), order.price, Model(), remaining, events);
    }

    // One turn of the outer loop: match the front level and erase its exhausted orders.
    method CrossFront(quantity: Quantity) returns (left: Quantity, events: seq<OrderInfo>)
      requires Valid() && Live(view.book) && quantity > 0 && view.book != []
      modifies this, Repr
      ensures Valid() && Repr == old(Repr) && Live(view.book)
      ensures var p := old(view.book)[0].price;
              && Model() == Cross(old(Model()), quantity, p)
              && left == Sweep(isSell, old(view.book), quantity, p).left < quantity
              && events == ExecEvents(isSell, Sweep(isSell, old(view.book), quantity, p).fills)
    {
      hide Sweep, SweepViews, Live, Sorted, UniqueIds, Exhausted, Ids, ExecEvents, L3PriceLevel.Valid, Agree, LevelOk;
      BookSorted();
      AgreeFront(isSell, view);
      ghost var s, p := Model(), view.book[0].price;
      ghost var r := Sweep(isSell, s.book, quantity, p);
      SweepKeeps(isSell, s.book, quantity, p);
      SweepProgress(isSell, s.book, quantity);
      OweExecs(isSell, s.pendingRemove, r.fills);
      var best := Begin();
      var toRemove;
      ghost var z;
      events, toRemove, left, z := FillFront(best, quantity);
      AddPendingLiqRemoveQty(events);
      EraseOrders(toRemove, z, r.rest);
    }

    // ---------- Messages ----------

    method ProcessOrderCancel(id: OrderId, quantity: Quantity, price: Price) returns (events: seq<OrderInfo>)
      requires Valid()
      modifies this, Repr
      ensures Valid() && Repr == old(Repr)
      ensures (Model(), events) == Cancel(old(Model()), id, quantity, price)
    {
      ExistOrder(id);
      hide Valid, Agree, RemoveMatched, RemoveLeft, Has, Remove;
      events := [];
      var matched := MatchPendingLiqRemove(quantity, price);
      if quantity - matched > 0 && id in orderMap {
        events := [OrderInfo(CANCEL, id, isSell, quantity - matched, price)];
        RemoveOrder(id);
      }
    }

    // getOrderHandler(id).order->getRemainingQuantity()
    method RemainingQuantity(id: OrderId) returns (remaining: Quantity)
      requires Valid() && Has(view.book, id)
      ensures remaining == Find(view.book, id).Rem()
    {
      hide Agree, UniqueIds, Sum, AtPrice, SortedRows;
      AgreeHas(isSell, view, id);
      var order := Find(levels[orderMap[id]].orders, id);
      remaining := order.Rem();
    }

    lemma ExistOrder(id: OrderId)
      requires Valid()
      ensures id in orderMap <==> Has(view.book, id)
    {
      AgreeHas(isSell, view, id);
    }

    // Step 1 of a trade: every level better than its price is cancelled.
    method CancelBetter(price: Price) returns (events: seq<OrderInfo>)
      requires Valid()
      modifies this, Repr
      ensures Valid() && Repr == old(Repr)
      ensures Model() == DropBetter(old(Model()), price) && events == DropEvents(old(Model()), price)
    {
      hide Valid, DropBetter, DropEvents, CancelEvents, Ids, DropViews, BetterCount, L2View, Has, Find, Sorted, UniqueIds;
      ghost var s0 := Model();
      events := [];
      assert [] + DropEvents(s0, price) == DropEvents(s0, price);
      while levels.Keys != {}
        invariant Valid() && Repr == old(Repr)
        invariant DropBetter(s0, price) == DropBetter(Model(), price)
        invariant DropEvents(s0, price) == events + DropEvents(Model(), price)
        decreases |view.book|
      {
        var best := Begin();
        var shouldCancel := if isSell then best < price else best > price;
        if !shouldCancel { break; }
        var orders := levels[best].orders;
        ghost var n := FrontOrders(best);
        DropLevel(Model(), price, n);
        assert view.book == orders + view.book[n..];
        events := events + CancelEvents(isSell, orders);
        EraseOrdersSaving(Ids(orders), orders, view.book[n..]);
      }
      EmptySide();
      DropNothing(Model(), price);
    }

    lemma EmptySide()
      requires Valid()
      ensures levels.Keys == {} ==> view.book == []
    {
      AgreeFront(isSell, view);
    }

    lemma FrontOrders(best: Price) returns (n: nat)
      requires Valid() && view.book != [] && best == view.book[0].price && best in levels
      ensures 0 < n <= |view.book| && levels[best].orders == view.book[..n]
      ensures forall o :: o in view.book[..n] ==> o.price == best
    {
      AgreeSorted(isSell, view);
      n := FrontLevel(isSell, view.book);
      InAtPrice(view.book, best);
    }

    // Step 2 of a trade: fill the level at its price, first order first.
    method FillAtPrice(price: Price, quantity: Quantity) returns (events: seq<OrderInfo>, left: Quantity)
      requires Valid() && Live(view.book) && quantity >= 0
      requires view.book != [] ==> NoWorse(isSell, price, view.book[0].price)
      modifies this, Repr
      ensures Valid() && Repr == old(Repr)
      ensures var b := old(view.book);
              var r := Sweep(isSell, b, quantity, price);
              && Model() == FillAt(old(Model()), quantity, price)
              && events == ExecEvents(isSell, r.fills)
              && left == r.left
    {
      hide Valid, Live, Sorted, UniqueIds, Ids, DropViews, L2View, ViewAfterFill, Exhausted;
      BookSorted();
      FrontPrice(price);
      ghost var b := view.book;
      if price in levels {
        hide Sweep, SweepViews, EraseViews, ExecEvents;
        ghost var r := Sweep(isSell, b, quantity, price);
        var toRemove;
        ghost var z;
        events, toRemove, left, z := FillFront(price, quantity);
        ExhaustedViews(z, r.rest, price);
        EraseOrdersSaving(toRemove, z, r.rest);
      } else {
        events, left := [], quantity;
        assert snapQueue + [] + [] == snapQueue;
      }
    }

    // After step 1 the level at the trade's price is there only as the front level.
    lemma FrontPrice(price: Price)
      requires Valid() && (view.book != [] ==> NoWorse(isSell, price, view.book[0].price))
      ensures price in levels ==> view.book != [] && view.book[0].price == price
      ensures price !in levels ==> view.book == [] || !NoWorse(isSell, view.book[0].price, price)
    {
      AgreeFront(isSell, view);
    }

    method ProcessTrade(trade: Trade) returns (events: seq<OrderInfo>)
      requires Valid() && Live(view.book) && trade.quantity >= 0
      modifies this, Repr
      ensures Valid() && Repr == old(Repr)
      ensures Model() == ApplyTrade(old(Model()), trade)
      ensures events == TradeEvents(old(Model()), trade)
    {
      hide Valid, Live, Sorted, UniqueIds, DropBetter, DropEvents, Sweep, ExecEvents, FillAt, Expect, GuessEvents;
      hide ApplyTrade, TradeEvents, RemoveMatched, NoWorse, Better;
      BookSorted();
      ghost var s, d, open' := TradeParts(isSell, Model(), trade);
      DropKeeps(s, trade.price);
      MatchedBound(pendingRemove, trade.quantity, trade.price);
      var matched := MatchPendingLiqRemove(trade.quantity, trade.price);
      var open := trade.quantity - matched;
      var cancels := CancelBetter(trade.price);
      var execs, left := FillAtPrice(trade.price, open);
      ExpectAdd(left, trade.price);
      events := cancels + execs + GuessEvents(isSell, left, trade.price);
    }

    method ExpectAdd(quantity: Quantity, price: Price)
      requires Valid()
      modifies this`pendingAdd
      ensures Valid() && Model() == Expect(old(Model()), quantity, price)
    {
      hide Agree, L3PriceLevel.Valid;
      if quantity > 0 {
        CreditSorted(isSell, pendingAdd, price, quantity);
        pendingAdd := Credit(isSell, pendingAdd, price, quantity);
      }
    }

    // ---------- Snapshots ----------

    lemma LevelQueue(p: Price)
      requires Valid()
      ensures p in levels ==> levels[p].orders == AtPrice(view.book, p) != [] && levels[p].quantity == Sum(AtPrice(view.book, p))
      ensures p !in levels ==> AtPrice(view.book, p) == []
    {
      assert QueueOf(view.queues, p) == AtPrice(view.book, p);
    }

    // A guessed order brings a level up to its row.
    method AddGuess(id: OrderId, quantity: Quantity, price: Price)
      requires Valid()
      modifies this, Repr
      ensures Valid() && fresh(Repr - old(Repr))
      ensures Model() == Add(old(Model()), id, quantity, price)
    {
      hide Agree, L3PriceLevel.Valid, Insert;
      CreditSorted(isSell, pendingAdd, price, quantity);
      pendingAdd := Credit(isSell, pendingAdd, price, quantity);
      AddOrder(OrderV(id, quantity, 0, price));
    }

    // The orders at the front of a level that make up a quantity.
    method FrontCuts(orders: seq<OrderV>, quantity: Quantity, price: Price) returns (cuts: seq<Fill>)
      requires quantity >= 0 && forall o :: o in orders ==> o.price == price
      ensures cuts == Sweep(isSell, orders, quantity, price).fills
    {
      hide Sweep, NoWorse;
      cuts := [];
      var left, i := quantity, 0;
      assert orders[0..] == orders;
      while i < |orders| && left != 0
        invariant 0 <= i <= |orders| && left >= 0
        invariant Sweep(isSell, orders, quantity, price).fills == cuts + Sweep(isSell, orders[i..], left, price).fills
        decreases |orders| - i
      {
        FrontCut(orders, left, price, i);
        var cut := Min(left, orders[i].Rem());
        Assoc(cuts, [Fill(orders[i].id, cut, price)], Sweep(isSell, orders[i + 1..], left - cut, price).fills);
        cuts := cuts + [Fill(orders[i].id, cut, price)];
        left := left - cut;
        i := i + 1;
      }
      NoMoreCuts(orders[i..], left, price);
    }

    lemma FrontCut(orders: seq<OrderV>, left: Quantity, price: Price, i: nat)
      requires i < |orders| && left > 0 && forall o :: o in orders ==> o.price == price
      ensures var cut := Min(left, orders[i].Rem());
              Sweep(isSell, orders[i..], left, price).fills
              == [Fill(orders[i].id, cut, price)] + Sweep(isSell, orders[i + 1..], left - cut, price).fills
    {
      assert orders[i] in orders;
      assert orders[i..][1..] == orders[i + 1..];
    }

    lemma NoMoreCuts(orders: seq<OrderV>, left: Quantity, price: Price)
      requires orders == [] || left == 0
      ensures Sweep(isSell, orders, left, price).fills == []
    {
    }

    method GrowLevel(row: Row, id: OrderId) returns (events: seq<OrderInfo>, cuts: seq<Fill>, nextId: OrderId)
      requires Valid()
      modifies this, Repr
      ensures Valid() && fresh(Repr - old(Repr))
      ensures GrowRow(old(Model()), row, id) == Grown(Model(), events, cuts, nextId)
    {
      hide Valid, Sweep, Add, AtPrice, Sum;
      LevelQueue(row.price);
      InAtPrice(view.book, row.price);
      events, cuts, nextId := [], [], id;
      var more := row.quantity;
      if row.price in levels {
        var level := levels[row.price];
        if row.quantity < level.quantity {
          cuts := FrontCuts(level.orders, level.quantity - row.quantity, row.price);
          return;
        } else if row.quantity == level.quantity {
          return;
        }
        more := row.quantity - level.quantity;
      } else {
        assert Sum([]) == 0 by { SumNone(); }
      }
      events, nextId := [OrderInfo(ADD, -1, isSell, more, row.price)], id + 1;
      AddGuess(id, more, row.price);
    }

    method GrowLevels(rows: seq<Row>) returns (events: seq<OrderInfo>, cuts: seq<Fill>, prices: set<Price>)
      requires Valid()
      modifies this, Repr
      ensures Valid() && fresh(Repr - old(Repr))
      ensures var g := GrowAll(old(Model()), rows, FIRST_FAKE_ID);
              Model() == g.side && events == g.events && cuts == g.cuts
      ensures prices == set r | r in rows :: r.price
    {
      hide Valid, Growing, GrowRow, GrowAll;
      ghost var s0 := Model();
      events, cuts, prices := [], [], {};
      var fakeId := FIRST_FAKE_ID;
      GrowStart(s0, rows);
      for i := 0 to |rows|
        invariant Valid() && fresh(Repr - old(Repr))
        invariant Growing(s0, rows, Model(), rows[i..], fakeId, events, cuts)
        invariant prices == set r | r in rows[..i] :: r.price
      {
        GrowNext(s0, rows, Model(), i, fakeId, events, cuts);
        var rowEvents, rowCuts;
        rowEvents, rowCuts, fakeId := GrowLevel(rows[i], fakeId);
        events, cuts := events + rowEvents, cuts + rowCuts;
        assert rows[..i + 1] == rows[..i] + [rows[i]];
        prices := prices + {rows[i].price};
      }
      assert rows[|rows|..] == [] && rows[..|rows|] == rows;
      GrowEnd(s0, rows, Model(), fakeId, events, cuts);
    }

    // Walk the levels in order and collect those without a row.
    method MissingOrders(rows: seq<Row>, prices: set<Price>) returns (cuts: seq<Fill>)
      requires Valid() && prices == set r | r in rows :: r.price
      ensures cuts == Missing(view.book, rows)
    {
      hide Valid, Agree, Missing, Remaining, HasRow;
      cuts := [];
      var rest := levels.Keys;
      ghost var b := view.book;
      WalkAll();
      assert [] + Missing(b, rows) == Missing(b, rows);
      while rest != {}
        invariant Remaining(isSell, view, b, rest) && rest <= levels.Keys
        invariant Missing(view.book, rows) == cuts + Missing(b, rows)
      {
        RemainingHead(isSell, view, b, rest);
        ghost var some := Member(rest);
        var p :| p in rest && forall q :: q in rest ==> NoWorse(isSell, p, q);
        ghost var b' := RemainingNext(isSell, view, b, rest, p);
        WalkLevel(p);
        MissingLevel(view.queues[p], b', rows, p);
        RowPrices(rows, p);
        ghost var more := if HasRow(rows, p) then [] else WholeOrders(view.queues[p]);
        Assoc(cuts, more, Missing(b', rows));
        if p !in prices {
          cuts := cuts + WholeOrders(levels[p].orders);
        } else {
          assert cuts + [] == cuts;
        }
        rest, b := rest - {p}, b';
      }
      RemainingHead(isSell, view, b, rest);
      assert b == [];
      MissingNone(rows);
    }

    lemma WalkAll()
      requires Valid()
      ensures Remaining(isSell, view, view.book, levels.Keys)
    {
      RemainingAll(isSell, view);
    }

    lemma WalkLevel(p: Price)
      requires Valid() && p in levels
      ensures p in view.queues && levels[p].orders == view.queues[p]
    {
    }

    // The guesses: cut every collected order; the first 30% are taken for executions.
    method ApplyCuts(cuts: seq<Fill>) returns (events: seq<OrderInfo>)
      requires Valid() && Live(view.book) && CutsFit(view.book, cuts)
      modifies this, Repr
      ensures Valid() && Repr == old(Repr)
      ensures Model() == old(Model()).(book := CutAll(old(view.book), cuts))
      ensures events == CutEvents(isSell, cuts)
    {
      hide Valid, CutOne, CutsFit, Live, CutEvent, ExecCount;
      ghost var b := view.book;
      var executed := ExecCount(|cuts|);
      events := [];
      assert cuts[0..] == cuts;
      for i := 0 to |cuts|
        invariant Valid() && Live(view.book) && Repr == old(Repr)
        invariant CutsFit(view.book, cuts[i..])
        invariant Model() == old(Model()).(book := view.book)
        invariant CutAll(b, cuts) == CutAll(view.book, cuts[i..])
        invariant |events| == i && forall j :: 0 <= j < i ==> events[j] == CutEvent(isSell, cuts[j], j < executed)
      {
        assert cuts[i..][1..] == cuts[i + 1..];
        CutNext(cuts[i..]);
        events := events + [CutEvent(isSell, cuts[i], i < executed)];
        CutOrder(cuts[i]);
      }
      assert cuts[|cuts|..] == [];
    }

    lemma CutNext(cuts: seq<Fill>)
      requires Valid() && Live(view.book) && cuts != [] && CutsFit(view.book, cuts)
      ensures CutFits(view.book, cuts[0])
      ensures CutsFit(CutOne(view.book, cuts[0]), cuts[1..]) && Live(CutOne(view.book, cuts[0]))
    {
      BookSorted();
      assert cuts[0] in cuts;
      CutKeeps(isSell, view.book, cuts[0]);
      CutRest(isSell, view.book, cuts);
    }

    method CutOrder(cut: Fill)
      requires Valid() && CutFits(view.book, cut)
      modifies this, Repr
      ensures Valid() && Repr == old(Repr)
      ensures Model() == old(Model()).(book := CutOne(old(view.book), cut))
    {
      AgreeHas(isSell, view, cut.id);
      hide Agree, L3PriceLevel.Valid, Remove, Replace, SortedRows;
      var order := Find(levels[orderMap[cut.id]].orders, cut.id);
      if order.Rem() == cut.quantity {
        RemoveOrder(cut.id);
      } else if cut.price in levels {
        FillOrder(cut.id, cut.quantity);
      }
    }

    method ProcessL2Snapshot(rows: seq<Row>) returns (events: seq<OrderInfo>)
      requires Valid() && Live(view.book) && ValidRows(isSell, rows)
      modifies this, Repr
      ensures Valid() && fresh(Repr - old(Repr))
      ensures Model() == ApplySnapshot(old(Model()), rows)
      ensures events == SnapshotEvents(old(Model()), rows)
    {
      events := [];
      if snapQueue != [] && snapQueue[0] == rows {
        snapQueue := snapQueue[1..];
        return;
      }
      if snapQueue == [] {
        PendingSorted();
        hide Valid, Agree, Sorted, UniqueIds, SortedRows, ValidRows, CutsFit, CutAll, Missing, CutEvents;
        ghost var s0 := Model();
        SnapshotCuts(s0, rows);
        GrowAllKeeps(s0, rows, FIRST_FAKE_ID);
        hide Live, GrowAll;
        var cuts, prices;
        events, cuts, prices := GrowLevels(rows);
        var missing := MissingOrders(rows, prices);
        var guesses := ApplyCuts(cuts + missing);
        events := events + guesses;
      }
    }

    lemma PendingSorted()
      requires Valid()
      ensures Sorted(isSell, view.book) && UniqueIds(view.book) && SortedRows(isSell, pendingAdd)
    {
      AgreeSorted(isSell, view);
    }
  }
}
