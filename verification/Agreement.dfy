// The list of a side regrouped as its class stores it: by price and by id.
module Agreement {
  import opened Common
  import opened SideModel
  import opened ListLemmas

  ghost function Without(w: View, id: OrderId): View
    requires id in w.prices && w.prices[id] in w.queues
  {
    var p := w.prices[id];
    var q := Remove(w.queues[p], id);
    View(Remove(w.book, id), if q == [] then w.queues - {p} else w.queues[p := q], w.prices - {id})
  }

  // The order o.id changed in place: same price, same position.
  ghost function Changed(w: View, o: OrderV): View
    requires o.price in w.queues
  {
    View(Replace(w.book, o), w.queues[o.price := Replace(w.queues[o.price], o)], w.prices)
  }

  // The price at which each order rests.
  ghost function Prices(b: seq<OrderV>): map<OrderId, Price> {
    if b == [] then map[] else Prices(b[1..])[b[0].id := b[0].price]
  }

  ghost function QueueOf(queues: map<Price, seq<OrderV>>, p: Price): seq<OrderV> {
    if p in queues then queues[p] else []
  }

  // All orders in price-time order, and the same orders by price and by id.
  datatype View = View(book: seq<OrderV>, queues: map<Price, seq<OrderV>>, prices: map<OrderId, Price>)

  ghost predicate Agree(isSell: bool, w: View) {
    && Sorted(isSell, w.book)
    && UniqueIds(w.book)
    && w.prices == Prices(w.book)
    && (forall p :: p in w.queues ==> w.queues[p] != [])
    && (forall p :: QueueOf(w.queues, p) == AtPrice(w.book, p))
  }

  ghost function With(isSell: bool, w: View, o: OrderV): View {
    View(Insert(isSell, w.book, o),
         w.queues[o.price := QueueOf(w.queues, o.price) + [o]],
         w.prices[o.id := o.price])
  }

  lemma {:induction false} PricesHas(b: seq<OrderV>, id: OrderId)
    ensures id in Prices(b) <==> Has(b, id)
    ensures id in Prices(b) ==> Prices(b)[id] == Find(b, id).price
    ensures id in Prices(b) ==> Has(AtPrice(b, Prices(b)[id]), id) && Find(AtPrice(b, Prices(b)[id]), id) == Find(b, id)
  {
    if b != [] { PricesHas(b[1..], id); }
  }

  lemma AgreeHas(isSell: bool, w: View, id: OrderId)
    requires Agree(isSell, w)
    ensures id in w.prices <==> Has(w.book, id)
    ensures id in w.prices ==>
              && w.prices[id] in w.queues
              && w.prices[id] == Find(w.book, id).price
              && Has(w.queues[w.prices[id]], id)
              && Find(w.queues[w.prices[id]], id) == Find(w.book, id)
  {
    PricesHas(w.book, id);
    if id in w.prices {
      assert QueueOf(w.queues, w.prices[id]) == AtPrice(w.book, w.prices[id]);
    }
  }

  lemma {:induction false} PricesInsert(isSell: bool, b: seq<OrderV>, o: OrderV)
    requires !Has(b, o.id)
    ensures Prices(Insert(isSell, b, o)) == Prices(b)[o.id := o.price]
  {
    if b == [] || Better(isSell, o.price, b[0].price) {
      assert ([o] + b)[1..] == b;
    } else {
      PricesInsert(isSell, b[1..], o);
      assert Insert(isSell, b, o)[1..] == Insert(isSell, b[1..], o);
    }
  }

  lemma AgreeInsert(isSell: bool, w: View, o: OrderV)
    requires Agree(isSell, w) && o.id !in w.prices
    ensures Agree(isSell, With(isSell, w, o))
    ensures !Has(QueueOf(w.queues, o.price), o.id)
  {
    AgreeHas(isSell, w, o.id);
    InsertKeeps(isSell, w.book, o);
    InsertSorted(isSell, w.book, o);
    PricesInsert(isSell, w.book, o);
    forall p ensures QueueOf(With(isSell, w, o).queues, p) == AtPrice(With(isSell, w, o).book, p) {
      InsertAtPrice(isSell, w.book, o, p);
    }
    AtPriceHas(w.book, o.price, o.id);
  }

  lemma {:induction false} AtPriceHas(b: seq<OrderV>, p: Price, id: OrderId)
    ensures Has(AtPrice(b, p), id) ==> Has(b, id)
  {
    if b != [] { AtPriceHas(b[1..], p, id); }
  }

  lemma {:induction false} PricesRemove(b: seq<OrderV>, id: OrderId)
    requires UniqueIds(b)
    ensures Prices(Remove(b, id)) == Prices(b) - {id}
  {
    if b != [] {
      PricesHas(b[1..], b[0].id);
      if b[0].id != id {
        PricesRemove(b[1..], id);
        assert Remove(b, id)[1..] == Remove(b[1..], id);
      }
    }
  }

  lemma {:induction false} PricesReplace(b: seq<OrderV>, o: OrderV)
    requires Has(b, o.id) && Find(b, o.id).price == o.price
    ensures Prices(Replace(b, o)) == Prices(b)
  {
    if b[0].id == o.id {
      assert Replace(b, o)[1..] == b[1..];
    } else {
      PricesReplace(b[1..], o);
      assert Replace(b, o)[1..] == Replace(b[1..], o);
    }
  }

  lemma AgreeRemove(isSell: bool, w: View, id: OrderId)
    requires Agree(isSell, w) && id in w.prices
    ensures w.prices[id] in w.queues && Agree(isSell, Without(w, id))
  {
    AgreeHas(isSell, w, id);
    RemoveKeeps(w.book, id);
    RemoveSorted(isSell, w.book, id);
    PricesRemove(w.book, id);
    forall p ensures QueueOf(Without(w, id).queues, p) == AtPrice(Without(w, id).book, p) {
      RemoveAtPrice(w.book, id, p);
    }
  }

  lemma AgreeReplace(isSell: bool, w: View, o: OrderV)
    requires Agree(isSell, w) && Has(w.book, o.id) && Find(w.book, o.id).price == o.price
    ensures o.price in w.queues && Agree(isSell, Changed(w, o))
  {
    AgreeHas(isSell, w, o.id);
    ReplaceKeeps(w.book, o);
    ReplaceSorted(isSell, w.book, o);
    PricesReplace(w.book, o);
    ReplaceKeeps(w.queues[o.price], o);
    forall p ensures QueueOf(Changed(w, o).queues, p) == AtPrice(Changed(w, o).book, p) {
      ReplaceAtPrice(w.book, o, p);
    }
  }

  lemma AgreeSorted(isSell: bool, w: View)
    requires Agree(isSell, w)
    ensures Sorted(isSell, w.book) && UniqueIds(w.book)
    ensures forall p :: p in w.queues ==> w.queues[p] == AtPrice(w.book, p)
  {
    forall p | p in w.queues ensures w.queues[p] == AtPrice(w.book, p) {
      assert QueueOf(w.queues, p) == AtPrice(w.book, p);
    }
  }

  lemma AgreeUnique(isSell: bool, w: View, id: OrderId)
    requires Agree(isSell, w)
    ensures !Has(Remove(w.book, id), id)
  {
    RemoveKeeps(w.book, id);
  }

  lemma Member<T>(s: set<T>) returns (x: T)
    requires s != {}
    ensures x in s
  {
    x :| x in s;
  }

  // The map of levels is walked from the front of the list.
  lemma AgreeFront(isSell: bool, w: View)
    requires Agree(isSell, w)
    ensures w.book == [] ==> forall p :: p !in w.queues
    ensures w.book != [] ==> w.book[0].price in w.queues
    ensures w.book != [] ==> forall p :: p in w.queues ==> NoWorse(isSell, w.book[0].price, p)
  {
    if w.book != [] {
      assert QueueOf(w.queues, w.book[0].price) == AtPrice(w.book, w.book[0].price);
    }
    forall p | p in w.queues ensures w.book != [] && NoWorse(isSell, w.book[0].price, p) {
      assert QueueOf(w.queues, p) == AtPrice(w.book, p);
      InAtPrice(w.book, p);
      assert AtPrice(w.book, p)[0] in AtPrice(w.book, p);
    }
  }

  // What is left of the list once its front levels have been walked: exactly the levels of ps.
  ghost predicate Remaining(isSell: bool, w: View, b: seq<OrderV>, ps: set<Price>) {
    && ps <= w.queues.Keys
    && Sorted(isSell, b)
    && (forall o :: o in b ==> o.price in ps)
    && (forall p :: p in ps ==> AtPrice(b, p) == w.queues[p] != [])
  }

  lemma RemainingAll(isSell: bool, w: View)
    requires Agree(isSell, w)
    ensures Remaining(isSell, w, w.book, w.queues.Keys)
  {
    forall o | o in w.book ensures o.price in w.queues {
      InAtPrice(w.book, o.price);
      assert QueueOf(w.queues, o.price) == AtPrice(w.book, o.price);
    }
    forall p | p in w.queues ensures AtPrice(w.book, p) == w.queues[p] {
      assert QueueOf(w.queues, p) == AtPrice(w.book, p);
    }
  }

  lemma RemainingHead(isSell: bool, w: View, b: seq<OrderV>, ps: set<Price>)
    requires Remaining(isSell, w, b, ps)
    ensures if b == [] then forall q :: q !in ps
            else b[0].price in ps && forall q :: q in ps ==> NoWorse(isSell, b[0].price, q)
  {
    forall q | q in ps ensures b != [] && NoWorse(isSell, b[0].price, q) {
      InAtPrice(b, q);
      assert AtPrice(b, q)[0] in AtPrice(b, q);
    }
  }

  lemma RemainingNext(isSell: bool, w: View, b: seq<OrderV>, ps: set<Price>, p: Price) returns (b': seq<OrderV>)
    requires Remaining(isSell, w, b, ps) && p in ps && forall q :: q in ps ==> NoWorse(isSell, p, q)
    ensures b != [] && b[0].price == p
    ensures b == w.queues[p] + b' && Remaining(isSell, w, b', ps - {p})
    ensures b' == [] || b'[0].price != p
    ensures forall o :: o in w.queues[p] ==> o.price == p
  {
    InAtPrice(b, p);
    assert AtPrice(b, p)[0] in AtPrice(b, p);
    var n := FrontLevel(isSell, b);
    b' := b[n..];
    assert b == b[..n] + b';
    forall q | q in ps - {p} ensures AtPrice(b', q) == w.queues[q] {
      AtPriceAppend(b[..n], b', q);
      NoneAtPrice(b[..n], q);
    }
  }
}
