// A modification, described without saying how it is done, and what it leaves of the order
// (src/order_book.cpp:40-49).
module Modifications {
  import opened Common
  import opened SideModel
  import opened ListLemmas
  import opened Matching
  import opened PendingAddTheorems
  import opened SnapshotTheorems
  import opened BookModel
  import opened Invariants
  import opened Greedy
  import opened Reconciliation
  import opened Priority
  import opened Determined
  import opened Cancellations
  import opened Additions

  // What remains of the order with the id; an id may rest on both sides, and then the bid counts.
  ghost predicate Remains(b: Book, id: OrderId, rem: Quantity) {
    exists o :: o in (if Has(b.bids.book, id) then b.bids.book else b.asks.book) && o.id == id && o.Rem() == rem
  }

  // What remains is cancelled at the new price, and the new quantity is a new order.
  ghost predicate ReplaceOutcome(e: Erase, b: Book, isSell: bool, id: OrderId, q: Quantity, price: Price, b': Book,
                                 rem: Quantity, own1: Side, cancelled: seq<OrderInfo>, added: seq<OrderInfo>)
  {
    && Remains(b, id, rem)
    && CancelOutcome(b.Get(isSell), id, rem, price, own1, cancelled)
    && Adds(e, own1, b.Get(!isSell), id, q, price, b'.Get(isSell), b'.Get(!isSell), added)
  }

  // Only the modification is reported, even if the id is unknown.
  ghost predicate ModifyOutcome(e: Erase, b: Book, isSell: bool, id: OrderId, q: Quantity, price: Price,
                                b': Book, events: seq<OrderInfo>)
  {
    && events == [OrderInfo(MODIF, id, isSell, q, price)]
    && if !Has(b.bids.book, id) && !Has(b.asks.book, id) then b' == b
       else exists rem, own1, cancelled, added ::
              ReplaceOutcome(e, b, isSell, id, q, price, b', rem, own1, cancelled, added)
  }

  lemma {:induction false} FindOnly(b: seq<OrderV>, o: OrderV)
    requires UniqueIds(b) && o in b
    ensures Has(b, o.id) && Find(b, o.id) == o
  {
    if b[0] != o {
      FindOnly(b[1..], o);
      assert b[0].id != o.id;
    }
  }

  lemma RemainsExactly(b: Book, id: OrderId, rem: Quantity)
    requires UniqueIds(b.bids.book) && UniqueIds(b.asks.book) && Exists(b, id)
    ensures Remains(b, id, rem) <==> rem == Lookup(b, id).Rem()
  {
    hide UniqueIds, Has, Find;
    var list := if Has(b.bids.book, id) then b.bids.book else b.asks.book;
    assert Lookup(b, id) in list;
    forall o | o in list && o.id == id ensures o == Lookup(b, id) {
      FindOnly(list, o);
    }
  }

  lemma CancelSound(b: Book, isSell: bool, id: OrderId, q: Quantity, price: Price)
    requires WfBook(b)
    ensures var own1 := Cancel(b.Get(isSell), id, q, price).0;
            && Wf(own1) && own1.isSell == isSell && Wf(b.Get(!isSell)) && b.Get(!isSell).isSell == !isSell
            && ProcessCancel(b, isSell, id, q, price).0 == b.Put(isSell, own1)
  {
    hide Wf, Cancel, PriceSet;
    WfSides(b, isSell);
    CancelKeeps(b.Get(isSell), id, q, price);
  }

  lemma LookupPositive(b: Book, id: OrderId)
    requires WfBook(b) && Exists(b, id)
    ensures Lookup(b, id).Rem() > 0
  {
    hide Sorted, UniqueIds, SortedRows, Canonical, Has;
  }

  lemma ModifyIs(e: Erase, b: Book, isSell: bool, id: OrderId, q: Quantity, price: Price, b': Book)
    requires WfBook(b) && Exists(b, id)
    ensures var rem := Lookup(b, id).Rem();
            var own1 := Cancel(b.Get(isSell), id, rem, price).0;
            ProcessModify(e, b, isSell, id, q, price) == Returned(b', [OrderInfo(MODIF, id, isSell, q, price)])
            <==> var r := AddTo(e, own1, b.Get(!isSell), id, q, price);
                 r.Added? && r.own == b'.Get(isSell) && r.opp == b'.Get(!isSell)
  {
    hide WfBook, Cancel, AddTo, Lookup, Exists;
    var rem := Lookup(b, id).Rem();
    CancelSound(b, isSell, id, rem, price);
    var own1 := Cancel(b.Get(isSell), id, rem, price).0;
  }

  // A modification has this outcome and no other.
  lemma ModifyExactly(e: Erase, b: Book, isSell: bool, id: OrderId, q: Quantity, price: Price,
                      b': Book, events: seq<OrderInfo>)
    requires WfBook(b) && q >= 0
    ensures ProcessModify(e, b, isSell, id, q, price) == Returned(b', events)
       <==> ModifyOutcome(e, b, isSell, id, q, price, b', events)
  {
    hide WfBook, ProcessModify, Lookup, Has, ReplaceOutcome;
    ModifyReports(e, b, isSell, id, q, price);
    if Exists(b, id) && events == [OrderInfo(MODIF, id, isSell, q, price)] {
      ReplaceExactly(e, b, isSell, id, q, price, b');
    }
  }

  lemma ModifyReports(e: Erase, b: Book, isSell: bool, id: OrderId, q: Quantity, price: Price)
    ensures var r := ProcessModify(e, b, isSell, id, q, price);
            && (r.Returned? ==> r.events == [OrderInfo(MODIF, id, isSell, q, price)])
            && (!Exists(b, id) ==> r.Returned? && r.book == b)
  {
    hide Has, Lookup, ProcessCancel, ProcessAdd;
  }

  lemma ReplaceExactly(e: Erase, b: Book, isSell: bool, id: OrderId, q: Quantity, price: Price, b': Book)
    requires WfBook(b) && q >= 0 && Exists(b, id)
    ensures ProcessModify(e, b, isSell, id, q, price) == Returned(b', [OrderInfo(MODIF, id, isSell, q, price)])
       <==> exists rem, own1, cancelled, added ::
              ReplaceOutcome(e, b, isSell, id, q, price, b', rem, own1, cancelled, added)
  {
    hide Wf, WfBook, ProcessModify, Lookup, Exists, Cancel, AddTo, Remains, CancelOutcome, Adds;
    var rem, own, opp := Lookup(b, id).Rem(), b.Get(isSell), b.Get(!isSell);
    var c := Cancel(own, id, rem, price);
    BothSound(b);
    LookupPositive(b, id);
    RemainsExactly(b, id, rem);
    CancelSound(b, isSell, id, rem, price);
    WfSides(b, isSell);
    ModifyIs(e, b, isSell, id, q, price, b');
    CancelExactly(own, id, rem, price, c.0, c.1);
    var a := AddTo(e, c.0, opp, id, q, price);
    if a.Added? {
      AddExactly(e, c.0, opp, id, q, price, a.own, a.opp, a.events);
      if a.own == b'.Get(isSell) && a.opp == b'.Get(!isSell) {
        assert ReplaceOutcome(e, b, isSell, id, q, price, b', rem, c.0, c.1, a.events);
      }
    }
    forall rem', own1, cancelled, added | ReplaceOutcome(e, b, isSell, id, q, price, b', rem', own1, cancelled, added)
      ensures a == Added(b'.Get(isSell), b'.Get(!isSell), added)
    {
      RemainsExactly(b, id, rem');
      CancelExactly(own, id, rem, price, own1, cancelled);
      AddExactly(e, c.0, opp, id, q, price, b'.Get(isSell), b'.Get(!isSell), added);
    }
  }

  lemma BothSound(b: Book)
    requires WfBook(b)
    ensures UniqueIds(b.bids.book) && UniqueIds(b.asks.book)
  {
  }

  // ---------- What is left of the order ----------

  // No order but the one with the id changes, appears or goes.
  ghost predicate OthersStay(b: seq<OrderV>, b': seq<OrderV>, id: OrderId) {
    forall x :: x != id ==> (Has(b', x) <==> Has(b, x)) && (Has(b, x) ==> Find(b', x) == Find(b, x))
  }

  function RestingUnder(b: seq<OrderV>, id: OrderId): Quantity {
    if Has(b, id) then Find(b, id).Rem() else 0
  }

  // If less is owed at the new price than remains of the order, the old order is gone, and the
  // new quantity is what was expected, plus what the other side lost, plus what rests under
  // the id, at the new price and with the new quantity as its original one.
  lemma ModifyConserves(e: Erase, b: Book, isSell: bool, id: OrderId, q: Quantity, price: Price)
    requires WfBook(b) && q >= 0 && Has(b.Get(isSell).book, id) && !Has(b.Get(!isSell).book, id)
    requires Get(b.Get(isSell).pendingRemove, price) < Find(b.Get(isSell).book, id).Rem()
    requires ProcessModify(e, b, isSell, id, q, price).Returned?
    ensures var r := ProcessModify(e, b, isSell, id, q, price);
            var own, opp, own', opp' := b.Get(isSell), b.Get(!isSell), r.book.Get(isSell), r.book.Get(!isSell);
            && q == (RowTotal(own.pendingAdd) - RowTotal(own'.pendingAdd))
                    + (Sum(opp.book) - Sum(opp'.book))
                    + RestingUnder(own'.book, id)
            && OthersStay(own.book, own'.book, id)
            && (Has(own'.book, id) ==> Find(own'.book, id).quantity == q && Find(own'.book, id).price == price)
  {
    hide Wf, WfBook, Lookup, Exists, Cancel, AddTo, ProcessModify, Has, Find, Sum, RowTotal, OthersStay, RestingUnder;
    var own, opp := b.Get(isSell), b.Get(!isSell);
    LookupOwn(b, isSell, id);
    var rem := Lookup(b, id).Rem();
    CancelSound(b, isSell, id, rem, price);
    WfSides(b, isSell);
    var own1 := Cancel(own, id, rem, price).0;
    var b' := ProcessModify(e, b, isSell, id, q, price).book;
    ModifyReports(e, b, isSell, id, q, price);
    ModifyIs(e, b, isSell, id, q, price, b');
    CancelErases(own, id, rem, price);
    AddConserves(e, own1, opp, id, q, price, price);
    AddRestsAlone(e, own1, opp, id, q, price);
    OthersStayThrough(own.book, own1.book, b'.Get(isSell).book, id);
  }

  lemma LookupOwn(b: Book, isSell: bool, id: OrderId)
    requires Has(b.Get(isSell).book, id) && !Has(b.Get(!isSell).book, id)
    ensures Exists(b, id) && Lookup(b, id) == Find(b.Get(isSell).book, id)
  {
    hide Has, Find;
  }

  lemma OthersStayThrough(x: seq<OrderV>, y: seq<OrderV>, z: seq<OrderV>, id: OrderId)
    requires OthersStay(x, y, id) && OthersStay(y, z, id)
    ensures OthersStay(x, z, id)
  {
  }

  lemma CancelErases(s: Side, id: OrderId, rem: Quantity, price: Price)
    requires Wf(s) && Has(s.book, id) && Get(s.pendingRemove, price) < rem
    ensures var s' := Cancel(s, id, rem, price).0;
            && s' == s.(book := Remove(s.book, id), pendingRemove := s'.pendingRemove)
            && !Has(s'.book, id) && OthersStay(s.book, s'.book, id)
  {
    hide Wf, Sorted, UniqueIds, Live, Has, Find, Remove, RemoveLeft;
    Sound(s);
    RemoveKeeps(s.book, id);
  }

  // What comes to rest is the new order alone.
  lemma AddRestsAlone(e: Erase, own: Side, opp: Side, id: OrderId, q: Quantity, price: Price)
    requires Wf(own) && !Has(own.book, id) && AddTo(e, own, opp, id, q, price).Added?
    ensures var own' := AddTo(e, own, opp, id, q, price).own;
            && RestingUnder(own'.book, id) == Sum(own'.book) - Sum(own.book)
            && OthersStay(own.book, own'.book, id)
            && (Has(own'.book, id) ==> Find(own'.book, id).quantity == q && Find(own'.book, id).price == price)
  {
    hide Wf, AddTo, MatchAdd, Sweep, OweAll, Has, Find, Sum, Insert;
    AddToSides(e, own, opp, id, q, price);
    var left := Sweep(opp.isSell, opp.book, q - MatchAdd(e, own.isSell, own.pendingAdd, q, price).matched, price).left;
    var o := OrderV(id, q, q - left, price);
    InsertKeeps(own.isSell, own.book, o);
    SumInsert(own.isSell, own.book, o);
  }

  // Otherwise the old order stays as it is, and what is left of the new one is lost.
  lemma ModifyLoses(e: Erase, b: Book, isSell: bool, id: OrderId, q: Quantity, price: Price)
    requires WfBook(b) && Has(b.Get(isSell).book, id) && !Has(b.Get(!isSell).book, id)
    requires Get(b.Get(isSell).pendingRemove, price) >= Find(b.Get(isSell).book, id).Rem()
    requires ProcessModify(e, b, isSell, id, q, price).Returned?
    ensures ProcessModify(e, b, isSell, id, q, price).book.Get(isSell).book == b.Get(isSell).book
  {
    hide Wf, WfBook, Lookup, Exists, Cancel, AddTo, ProcessModify, Has, Find;
    var own, opp := b.Get(isSell), b.Get(!isSell);
    LookupOwn(b, isSell, id);
    LookupPositive(b, id);
    var rem := Lookup(b, id).Rem();
    CancelSound(b, isSell, id, rem, price);
    var own1 := Cancel(own, id, rem, price).0;
    ModifyReports(e, b, isSell, id, q, price);
    ModifyIs(e, b, isSell, id, q, price, ProcessModify(e, b, isSell, id, q, price).book);
    CancelSpares(own, id, rem, price);
    AddIgnored(e, own1, opp, id, q, price);
  }

  lemma CancelSpares(s: Side, id: OrderId, rem: Quantity, price: Price)
    requires 0 < rem <= Get(s.pendingRemove, price)
    ensures Cancel(s, id, rem, price).0.book == s.book
  {
    hide Has;
  }

  lemma AddIgnored(e: Erase, own: Side, opp: Side, id: OrderId, q: Quantity, price: Price)
    requires Has(own.book, id) && AddTo(e, own, opp, id, q, price).Added?
    ensures AddTo(e, own, opp, id, q, price).own.book == own.book
  {
    hide AddTo, MatchAdd, Sweep, OweAll, Has;
    AddToSides(e, own, opp, id, q, price);
  }

  // Where nothing is expected of it and it crosses nothing, the new order is last in its
  // price's queue, as if new, and every other order keeps its place.
  lemma ModifyRests(e: Erase, b: Book, isSell: bool, id: OrderId, q: Quantity, price: Price)
    requires WfBook(b) && q > 0 && Has(b.Get(isSell).book, id) && !Has(b.Get(!isSell).book, id)
    requires Get(b.Get(isSell).pendingRemove, price) < Find(b.Get(isSell).book, id).Rem()
    requires b.Get(isSell).pendingAdd == [] || !NoWorse(isSell, price, b.Get(isSell).pendingAdd[0].price)
    requires !Crossed(b.Get(!isSell), price)
    ensures var r := ProcessModify(e, b, isSell, id, q, price);
            && r.Returned? && r.events == [OrderInfo(MODIF, id, isSell, q, price)]
            && var own, own' := b.Get(isSell), r.book.Get(isSell);
            && r.book.Get(!isSell) == b.Get(!isSell)
            && own' == own.(book := own'.book, pendingRemove := own'.pendingRemove)
            && exists rest :: && TakenOut(own.book, id, rest)
                              && Joins(isSell, rest, OrderV(id, q, 0, price), own'.book)
  {
    hide Wf, WfBook, Lookup, Exists, Cancel, AddTo, ProcessModify, Has, Find, Sorted, UniqueIds, Live, TakenOut, Joins, Remove,
         Insert, Sweep, Cross, OweAll, ExecEvents;
    var own, opp := b.Get(isSell), b.Get(!isSell);
    LookupOwn(b, isSell, id);
    var rem := Lookup(b, id).Rem();
    CancelSound(b, isSell, id, rem, price);
    WfSides(b, isSell);
    Sound(own);
    CancelErases(own, id, rem, price);
    TakenExactly(own.book, id, Remove(own.book, id));
    RemoveSorted(isSell, own.book, id);
    var own1, o := Cancel(own, id, rem, price).0, OrderV(id, q, 0, price);
    CrossNothing(opp, q, price);
    OweNone(own1.pendingRemove);
    ExecNone(opp.isSell);
    MatchWorse(e, isSell, own1.pendingAdd, q, price);
    RestsWhole(e, own1, opp, id, q, price);
    JoinsExactly(isSell, own1.book, o, Insert(isSell, own1.book, o));
    var b' := b.Put(isSell, own1.(book := Insert(isSell, own1.book, o)));
    ModifyIs(e, b, isSell, id, q, price, b');
  }

  lemma MatchWorse(e: Erase, isSell: bool, m: seq<Row>, q: Quantity, price: Price)
    requires m == [] || !NoWorse(isSell, price, m[0].price)
    ensures MatchAdd(e, isSell, m, q, price) == Done(0, m)
  {
  }
}
