// Time priority under addition, modification and cancellation (src/book_side.cpp:14-48).
module Priority {
  import opened Common
  import opened SideModel
  import opened ListLemmas
  import opened Matching
  import opened BookModel

  // A new quantity keeps an order's place in the queue; a new price sends it to the back of
  // that price's queue. No other order is touched, and an unknown id changes nothing.
  lemma ModifyPriority(isSell: bool, b: seq<OrderV>, id: OrderId, quantity: Quantity, price: Price)
    requires Sorted(isSell, b) && UniqueIds(b)
    ensures var b' := ModifyOrder(isSell, b, id, quantity, price);
            && Sorted(isSell, b') && UniqueIds(b')
            && (!Has(b, id) ==> b' == b)
            && (Has(b, id) ==>
                  var o := Find(b, id);
                  && (price == o.price ==> exists i :: 0 <= i < |b| && b[i] == o && b' == b[i := o.(quantity := quantity)])
                  && (price != o.price ==>
                        && AtPrice(b', price) == AtPrice(b, price) + [OrderV(id, quantity, o.filled, price)]
                        && AtPrice(b', o.price) == Remove(AtPrice(b, o.price), id))
                  && (forall p :: p != price && p != o.price ==> AtPrice(b', p) == AtPrice(b, p)))
  {
    hide Sorted, UniqueIds, AtPrice, Insert, Remove, Replace, Has, Find;
    if Has(b, id) {
      var o := Find(b, id);
      if price == o.price {
        var o' := o.(quantity := quantity);
        var i := ReplacedAt(b, o');
        ReplaceKeeps(b, o');
        ReplaceSorted(isSell, b, o');
        forall p | p != price ensures AtPrice(Replace(b, o'), p) == AtPrice(b, p) {
          ReplaceAtPrice(b, o', p);
        }
      } else {
        var b1, o' := Remove(b, id), OrderV(id, quantity, o.filled, price);
        RemoveKeeps(b, id);
        RemoveSorted(isSell, b, id);
        InsertKeeps(isSell, b1, o');
        InsertSorted(isSell, b1, o');
        forall p ensures AtPrice(Insert(isSell, b1, o'), p)
                      == (if p == o.price then Remove(AtPrice(b, p), id) else AtPrice(b, p)) + if p == price then [o'] else []
        {
          RemoveAtPrice(b, id, p);
          InsertAtPrice(isSell, b1, o', p);
        }
      }
    }
  }

  lemma {:induction false} ReplacedAt(b: seq<OrderV>, o: OrderV) returns (i: nat)
    requires Has(b, o.id)
    ensures i < |b| && b[i] == Find(b, o.id) && Replace(b, o) == b[i := o]
  {
    if b[0].id == o.id {
      i := 0;
    } else {
      i := ReplacedAt(b[1..], o);
      i := i + 1;
    }
  }

  lemma {:induction false} RemoveInserted(isSell: bool, b: seq<OrderV>, o: OrderV)
    requires !Has(b, o.id)
    ensures Remove(Insert(isSell, b, o), o.id) == b
  {
    if b == [] || Better(isSell, o.price, b[0].price) {
      assert ([o] + b)[1..] == b;
    } else {
      RemoveInserted(isSell, b[1..], o);
      assert Insert(isSell, b, o)[1..] == Insert(isSell, b[1..], o);
    }
  }

  // Cancelling an order that came to rest as a whole undoes its addition, on both sides, if
  // and only if no trade is owed at its price.
  lemma CancelUndoesAdd(e: Erase, b: Book, isSell: bool, id: OrderId, q: Quantity, price: Price)
    requires WfBook(b) && q > 0 && !Has(b.Get(isSell).book, id) && !Crossed(b.Get(!isSell), price)
    requires MatchAdd(e, isSell, b.Get(isSell).pendingAdd, q, price) == Done(0, b.Get(isSell).pendingAdd)
    ensures var r := ProcessAdd(e, b, isSell, id, q, price);
            && r.Returned? && r.events == [OrderInfo(ADD, id, isSell, q, price)]
            && (ProcessCancel(r.book, isSell, id, q, price) == (b, [OrderInfo(CANCEL, id, isSell, q, price)])
                <==> price !in b.Get(isSell).pendingRemove)
  {
    assert Canonical(b.Get(isSell).pendingRemove);
    hide Wf, MatchAdd, Sweep, Cross, ExecEvents, OweAll, Insert, Remove, Has;
    var own, opp := b.Get(isSell), b.Get(!isSell);
    var o := OrderV(id, q, 0, price);
    CrossNothing(opp, q, price);
    OweNone(own.pendingRemove);
    ExecNone(opp.isSell);
    RestsWhole(e, own, opp, id, q, price);
    RemoveInserted(isSell, own.book, o);
    InsertKeeps(isSell, own.book, o);
  }

  lemma RestsWhole(e: Erase, own: Side, opp: Side, id: OrderId, q: Quantity, price: Price)
    requires q > 0 && !Has(own.book, id)
    requires MatchAdd(e, own.isSell, own.pendingAdd, q, price) == Done(0, own.pendingAdd)
    requires Sweep(opp.isSell, opp.book, q, price) == Swept([], opp.book, q) && Cross(opp, q, price) == opp
    requires OweAll(own.pendingRemove, []) == own.pendingRemove && ExecEvents(opp.isSell, []) == []
    ensures AddTo(e, own, opp, id, q, price)
         == Added(own.(book := Insert(own.isSell, own.book, OrderV(id, q, 0, price))), opp,
                  [OrderInfo(ADD, id, own.isSell, q, price)])
  {
    hide MatchAdd, Sweep, Cross, ExecEvents, OweAll, Insert, Has;
  }

  // A modification cancels at the new price, so the old order goes if and only if the trades
  // owed at that price are fewer than what remains of it. If it stays, the new order, which
  // has the same id, can no longer come to rest.
  lemma ModifyReplacesExactly(b: Book, isSell: bool, id: OrderId, quantity: Quantity, price: Price)
    requires WfBook(b) && Has(b.Get(isSell).book, id)
    requires !Has(b.Get(!isSell).book, id)
    ensures Exists(b, id)
    ensures var own := b.Get(isSell);
            var rem := Lookup(b, id).Rem();
            var own1 := ProcessCancel(b, isSell, id, rem, price).0.Get(isSell);
            && (!Has(own1.book, id) <==> Get(own.pendingRemove, price) < rem)
            && (Has(own1.book, id) ==>
                  own1.book == own.book && forall o: OrderV :: o.id == id ==> AddOrder(isSell, own1.book, o) == own.book)
  {
    var own := b.Get(isSell);
    assert Live(own.book) && UniqueIds(own.book) && Canonical(own.pendingRemove);
    assert Lookup(b, id) == Find(own.book, id);
    hide Wf, UniqueIds, Has, Remove, Find;
    RemoveKeeps(own.book, id);
  }
}
