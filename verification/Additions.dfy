// A new order, described without saying how it is matched (src/order_book.cpp:15-31,
// src/book_side.cpp:63-91).
module Additions {
  import opened Common
  import opened SideModel
  import opened ListLemmas
  import opened Matching
  import opened PendingAdd
  import opened PendingAddTheorems
  import opened BookModel
  import opened Invariants
  import opened Greedy
  import opened Reconciliation
  import opened Confluence
  import opened ExpectedViews
  import opened Determined

  // One view was queued for each fill, of the list as it then was.
  ghost predicate FillViews(isSell: bool, b: seq<OrderV>, fills: seq<Fill>, views: seq<seq<Row>>)
    requires |fills| <= |b|
  {
    && |views| == |fills|
    && forall i :: 0 <= i < |fills| ==> Shows(isSell, views[i], LeftOver(b, fills[..i + 1]), {fills[i].price})
  }

  // The order joins the back of its price's queue, and the others stay.
  ghost predicate Joins(isSell: bool, b: seq<OrderV>, o: OrderV, b': seq<OrderV>) {
    && Sorted(isSell, b')
    && forall p :: AtPrice(b', p) == AtPrice(b, p) + if p == o.price then [o] else []
  }

  // Every fill is reported with the order it filled.
  ghost predicate Executed(isSell: bool, fills: seq<Fill>, events: seq<OrderInfo>) {
    && |events| == |fills|
    && forall i :: 0 <= i < |fills| ==>
         events[i] == OrderInfo(EXEC, fills[i].id, isSell, fills[i].quantity, fills[i].price)
  }

  // The order's own side: it owes the fills, and what is left rests, unless an order with the
  // same id already does.
  ghost predicate OwnOutcome(own: Side, r: Swept, o: OrderV, own': Side) {
    && own' == own.(book := own'.book, pendingAdd := own'.pendingAdd, pendingRemove := own'.pendingRemove)
    && DebtsRise(own.pendingRemove, own'.pendingRemove, r.fills)
    && (if r.left > 0 && !Has(own.book, o.id) then Joins(own.isSell, own.book, o, own'.book) else own'.book == own.book)
  }

  // The other side: it has lost the fills, owes them too, and has queued its views of them.
  ghost predicate OppOutcome(opp: Side, r: Swept, opp': Side) {
    && opp' == opp.(book := r.rest, pendingRemove := opp'.pendingRemove, snapQueue := opp'.snapQueue)
    && DebtsRise(opp.pendingRemove, opp'.pendingRemove, r.fills)
    && |r.fills| <= |opp.book|
    && |opp'.snapQueue| >= |opp.snapQueue| && opp'.snapQueue[..|opp.snapQueue|] == opp.snapQueue
    && FillViews(opp.isSell, opp.book, r.fills, opp'.snapQueue[|opp.snapQueue|..])
  }

  // The fills are reported, and then more.
  ghost predicate Reported(isSell: bool, fills: seq<Fill>, more: seq<OrderInfo>, events: seq<OrderInfo>) {
    |events| >= |fills| && Executed(isSell, fills, events[..|fills|]) && events[|fills|..] == more
  }

  function RestEvents(isSell: bool, id: OrderId, left: Quantity, price: Price): seq<OrderInfo> {
    if left > 0 then [OrderInfo(ADD, id, isSell, left, price)] else []
  }

  // Of the order's quantity, matched was expected; the rest was matched greedily against the
  // other side with outcome r.
  ghost predicate AddOutcome(e: Erase, own: Side, opp: Side, id: OrderId, q: Quantity, price: Price,
                             own': Side, opp': Side, events: seq<OrderInfo>, matched: Quantity, r: Swept)
  {
    && LoopExits(e, own.isSell, own.pendingAdd, q, price, matched, own'.pendingAdd)
    && GreedyOutcome(opp.isSell, opp.book, q - matched, price, r)
    && OwnOutcome(own, r, OrderV(id, q, q - r.left, price), own')
    && OppOutcome(opp, r, opp')
    && Reported(opp.isSell, r.fills, RestEvents(own.isSell, id, r.left, price), events)
  }

  ghost predicate Adds(e: Erase, own: Side, opp: Side, id: OrderId, q: Quantity, price: Price,
                       own': Side, opp': Side, events: seq<OrderInfo>)
  {
    exists matched, r :: AddOutcome(e, own, opp, id, q, price, own', opp', events, matched, r)
  }

  // ---------- Views ----------

  // What fills in priority leave is in order, and nothing of it beats the last fill.
  lemma LeftOverKeeps(isSell: bool, b: seq<OrderV>, limit: Price, fills: seq<Fill>)
    requires Sorted(isSell, b) && Live(b) && InPriority(isSell, b, limit, fills) && fills != []
    ensures var left := LeftOver(b, fills);
            && Sorted(isSell, left) && Live(left)
            && forall o :: o in left ==> NoWorse(isSell, fills[|fills| - 1].price, o.price)
  {
    var k := |fills|;
    var rest := b[k - 1..];
    assert b == b[..k - 1] + rest;
    SortedSuffix(isSell, b[..k - 1], rest);
    assert rest[0] == b[k - 1] && rest[1..] == b[k..];
    SortedFront(isSell, rest);
    forall o | o in b[k - 1..] ensures o in b {}
    assert LeftOver(b, fills) != rest[1..] ==> LeftOver(b, fills)[1..] == rest[1..];
  }

  // The first fills of a greedy outcome are in priority too.
  lemma SomeInPriority(isSell: bool, b: seq<OrderV>, limit: Price, fills: seq<Fill>, n: nat)
    requires InPriority(isSell, b, limit, fills) && n <= |fills|
    ensures InPriority(isSell, b, limit, fills[..n])
  {
  }

  lemma SweepShows(isSell: bool, b: seq<OrderV>, q: Quantity, limit: Price)
    requires Sorted(isSell, b) && Live(b) && q >= 0
    ensures |Sweep(isSell, b, q, limit).fills| <= |b|
    ensures FillViews(isSell, b, Sweep(isSell, b, q, limit).fills, SweepViews(isSell, b, q, limit))
  {
    hide Sweep, SweepViews, Sorted, Live, LeftOver, Shows, InPriority;
    var fills := Sweep(isSell, b, q, limit).fills;
    OneViewEach(isSell, b, q, limit);
    SweepIsGreedy(isSell, b, q, limit);
    forall i | 0 <= i < |fills|
      ensures Shows(isSell, SweepViews(isSell, b, q, limit)[i], LeftOver(b, fills[..i + 1]), {fills[i].price})
    {
      ViewsExactly(isSell, b, q, limit, i);
      SomeInPriority(isSell, b, limit, fills, i + 1);
      LeftOverKeeps(isSell, b, limit, fills[..i + 1]);
      FillViewShows(isSell, fills[i].price, LeftOver(b, fills[..i + 1]));
    }
  }

  lemma FillViewsOnce(isSell: bool, b: seq<OrderV>, fills: seq<Fill>, v: seq<seq<Row>>, w: seq<seq<Row>>)
    requires |fills| <= |b| && FillViews(isSell, b, fills, v) && FillViews(isSell, b, fills, w)
    ensures v == w
  {
    hide Shows, LeftOver;
    forall i | 0 <= i < |fills| ensures v[i] == w[i] {
      ShownOnce(isSell, v[i], w[i], LeftOver(b, fills[..i + 1]), {fills[i].price});
    }
  }

  // ---------- Parts ----------

  lemma JoinsExactly(isSell: bool, b: seq<OrderV>, o: OrderV, b': seq<OrderV>)
    requires Sorted(isSell, b)
    ensures b' == Insert(isSell, b, o) <==> Joins(isSell, b, o, b')
  {
    InsertSorted(isSell, b, o);
    forall p ensures AtPrice(Insert(isSell, b, o), p) == AtPrice(b, p) + if p == o.price then [o] else [] {
      InsertAtPrice(isSell, b, o, p);
    }
    hide Sorted, AtPrice, Insert;
    if Joins(isSell, b, o, b') { SameQueues(isSell, b', Insert(isSell, b, o)); }
  }

  lemma ExecutedExactly(isSell: bool, fills: seq<Fill>, events: seq<OrderInfo>)
    ensures events == ExecEvents(isSell, fills) <==> Executed(isSell, fills, events)
  {
  }

  // An addition, part by part, whether or not anything is left to match.
  lemma AddToParts(e: Erase, own: Side, opp: Side, id: OrderId, q: Quantity, price: Price)
    requires Wf(own) && Live(opp.book) && q >= 0 && MatchAdd(e, own.isSell, own.pendingAdd, q, price).Done?
    ensures var m := MatchAdd(e, own.isSell, own.pendingAdd, q, price);
            var r := Sweep(opp.isSell, opp.book, q - m.matched, price);
            var own1 := OweSide(own.(pendingAdd := m.left), r.fills);
            && 0 <= m.matched <= q && r.left >= 0
            && AddTo(e, own, opp, id, q, price)
               == Added(if r.left > 0 then Rest(own1, OrderV(id, q, q - r.left, price)) else own1,
                        Cross(opp, q - m.matched, price),
                        ExecEvents(opp.isSell, r.fills) + RestEvents(own.isSell, id, r.left, price))
  {
    hide Wf, Live, MatchAdd, Sweep, OweSide, Cross, Rest, ExecEvents;
    var m := MatchAdd(e, own.isSell, own.pendingAdd, q, price);
    MatchSideKeeps(e, own, q, price);
    LeftBound(opp.isSell, opp.book, q - m.matched, price);
    if q == m.matched {
      CrossNothing(opp, 0, price);
      NothingOwed(own.(pendingAdd := m.left), opp.isSell);
    }
    var execs := ExecEvents(opp.isSell, Sweep(opp.isSell, opp.book, q - m.matched, price).fills);
    assert execs + [] == execs;
  }

  lemma NothingOwed(s: Side, isSell: bool)
    ensures OweSide(s, []) == s && ExecEvents(isSell, []) == []
  {
  }

  lemma OwnExactly(own: Side, left: seq<Row>, r: Swept, o: OrderV, own': Side)
    requires Sorted(own.isSell, own.book) && Canonical(own.pendingRemove) && own'.pendingAdd == left
    requires forall f :: f in r.fills ==> f.quantity > 0
    ensures own' == (if r.left > 0 then Rest(OweSide(own.(pendingAdd := left), r.fills), o)
                     else OweSide(own.(pendingAdd := left), r.fills))
       <==> OwnOutcome(own, r, o, own')
  {
    hide Sorted, Canonical, OweAll, DebtsRise, Joins, Insert, Has;
    OwedExactly(own.pendingRemove, own'.pendingRemove, r.fills);
    JoinsExactly(own.isSell, own.book, o, own'.book);
  }

  lemma OppExactly(opp: Side, open: Quantity, price: Price, r: Swept, opp': Side)
    requires Wf(opp) && open >= 0 && r == Sweep(opp.isSell, opp.book, open, price)
    ensures forall f :: f in r.fills ==> f.quantity > 0
    ensures opp' == Cross(opp, open, price) <==> OppOutcome(opp, r, opp')
  {
    SweepKeeps(opp.isSell, opp.book, open, price);
    SweepShows(opp.isSell, opp.book, open, price);
    hide Sweep, Sorted, UniqueIds, Live, Canonical, OweAll, DebtsRise, SweepViews, FillViews;
    OwedExactly(opp.pendingRemove, opp'.pendingRemove, r.fills);
    Parts(opp'.snapQueue, opp.snapQueue, SweepViews(opp.isSell, opp.book, open, price));
    if |opp'.snapQueue| >= |opp.snapQueue| && FillViews(opp.isSell, opp.book, r.fills, opp'.snapQueue[|opp.snapQueue|..]) {
      FillViewsOnce(opp.isSell, opp.book, r.fills, opp'.snapQueue[|opp.snapQueue|..],
                    SweepViews(opp.isSell, opp.book, open, price));
    }
  }

  lemma ReportExactly(isSell: bool, fills: seq<Fill>, more: seq<OrderInfo>, events: seq<OrderInfo>)
    ensures events == ExecEvents(isSell, fills) + more <==> Reported(isSell, fills, more, events)
  {
    hide ExecEvents, Executed;
    ExecLength(isSell, fills);
    Parts(events, ExecEvents(isSell, fills), more);
    if |events| >= |fills| { ExecutedExactly(isSell, fills, events[..|fills|]); }
  }

  lemma ExecLength(isSell: bool, fills: seq<Fill>)
    ensures |ExecEvents(isSell, fills)| == |fills|
  {
  }

  // With the matcher's outcome, the description is met by what an addition does and by
  // nothing else.
  lemma AddMeets(e: Erase, own: Side, opp: Side, id: OrderId, q: Quantity, price: Price,
                 own': Side, opp': Side, events: seq<OrderInfo>, matched: Quantity, r: Swept)
    requires Wf(own) && Wf(opp) && q >= 0
    requires MatchAdd(e, own.isSell, own.pendingAdd, q, price) == Done(matched, own'.pendingAdd)
    requires r == Sweep(opp.isSell, opp.book, q - matched, price)
    ensures AddTo(e, own, opp, id, q, price) == Added(own', opp', events)
       <==> AddOutcome(e, own, opp, id, q, price, own', opp', events, matched, r)
  {
    hide Wf, Sorted, UniqueIds, SortedRows, Canonical, Live, MatchAdd, Sweep, AddTo, Cross, Rest, OweSide, ExecEvents, LoopExits,
         GreedyOutcome, OwnOutcome, OppOutcome, Reported, RestEvents;
    Sound(own);
    Sound(opp);
    AddToParts(e, own, opp, id, q, price);
    ExitsExactly(e, own.isSell, own.pendingAdd, q, price, matched, own'.pendingAdd);
    GreedyExactly(opp.isSell, opp.book, q - matched, price, r);
    OppExactly(opp, q - matched, price, r, opp');
    OwnExactly(own, own'.pendingAdd, r, OrderV(id, q, q - r.left, price), own');
    ReportExactly(opp.isSell, r.fills, RestEvents(own.isSell, id, r.left, price), events);
  }

  lemma AddHas(e: Erase, own: Side, opp: Side, id: OrderId, q: Quantity, price: Price,
               own': Side, opp': Side, events: seq<OrderInfo>) returns (matched: Quantity, r: Swept)
    requires Wf(own) && Wf(opp) && q >= 0 && AddTo(e, own, opp, id, q, price) == Added(own', opp', events)
    ensures AddOutcome(e, own, opp, id, q, price, own', opp', events, matched, r)
  {
    hide Wf, MatchAdd, Sweep, AddTo, AddOutcome;
    AddKeepsPending(e, own, opp, id, q, price);
    matched := MatchAdd(e, own.isSell, own.pendingAdd, q, price).matched;
    r := Sweep(opp.isSell, opp.book, q - matched, price);
    AddMeets(e, own, opp, id, q, price, own', opp', events, matched, r);
  }

  lemma AddOnly(e: Erase, own: Side, opp: Side, id: OrderId, q: Quantity, price: Price,
                own': Side, opp': Side, events: seq<OrderInfo>, matched: Quantity, r: Swept)
    requires Wf(own) && Wf(opp) && q >= 0
    requires AddOutcome(e, own, opp, id, q, price, own', opp', events, matched, r)
    ensures AddTo(e, own, opp, id, q, price) == Added(own', opp', events)
  {
    hide Wf, Sorted, UniqueIds, SortedRows, Canonical, Live, MatchAdd, Sweep, AddTo, AddOutcome, LoopExits, GreedyOutcome;
    Sound(own);
    Sound(opp);
    OutcomeParts(e, own, opp, id, q, price, own', opp', events, matched, r);
    ExitsExactly(e, own.isSell, own.pendingAdd, q, price, matched, own'.pendingAdd);
    MatchSideKeeps(e, own, q, price);
    GreedyExactly(opp.isSell, opp.book, q - matched, price, r);
    AddMeets(e, own, opp, id, q, price, own', opp', events, matched, r);
  }

  lemma OutcomeParts(e: Erase, own: Side, opp: Side, id: OrderId, q: Quantity, price: Price,
                     own': Side, opp': Side, events: seq<OrderInfo>, matched: Quantity, r: Swept)
    requires AddOutcome(e, own, opp, id, q, price, own', opp', events, matched, r)
    ensures LoopExits(e, own.isSell, own.pendingAdd, q, price, matched, own'.pendingAdd)
    ensures GreedyOutcome(opp.isSell, opp.book, q - matched, price, r)
  {
    hide LoopExits, GreedyOutcome, OwnOutcome, OppOutcome, Reported;
  }

  // A new order has this outcome and no other.
  lemma AddExactly(e: Erase, own: Side, opp: Side, id: OrderId, q: Quantity, price: Price,
                   own': Side, opp': Side, events: seq<OrderInfo>)
    requires Wf(own) && Wf(opp) && q >= 0
    ensures AddTo(e, own, opp, id, q, price) == Added(own', opp', events)
       <==> Adds(e, own, opp, id, q, price, own', opp', events)
  {
    hide Wf, AddTo, AddOutcome;
    if AddTo(e, own, opp, id, q, price) == Added(own', opp', events) {
      var matched, r := AddHas(e, own, opp, id, q, price, own', opp', events);
    }
    forall matched, r | AddOutcome(e, own, opp, id, q, price, own', opp', events, matched, r)
      ensures AddTo(e, own, opp, id, q, price) == Added(own', opp', events)
    {
      AddOnly(e, own, opp, id, q, price, own', opp', events, matched, r);
    }
  }

  // In the book: the named side is the order's own.
  lemma AddBookExactly(e: Erase, b: Book, isSell: bool, id: OrderId, q: Quantity, price: Price,
                       b': Book, events: seq<OrderInfo>)
    requires WfBook(b) && q >= 0
    ensures ProcessAdd(e, b, isSell, id, q, price) == Returned(b', events)
       <==> Adds(e, b.Get(isSell), b.Get(!isSell), id, q, price, b'.Get(isSell), b'.Get(!isSell), events)
  {
    hide Wf, AddTo, Adds;
    WfSides(b, isSell);
    AddExactly(e, b.Get(isSell), b.Get(!isSell), id, q, price, b'.Get(isSell), b'.Get(!isSell), events);
  }

  // The handler never comes back exactly when the loop over the expectations does not.
  lemma HangsExactly(e: Erase, b: Book, isSell: bool, id: OrderId, q: Quantity, price: Price)
    requires WfBook(b)
    ensures ProcessAdd(e, b, isSell, id, q, price).Hangs?
       <==> forall n: nat :: After(e, isSell, q, price, Next(b.Get(isSell).pendingAdd, 0), n).Next?
  {
    hide Wf, Sorted, UniqueIds, Live, Canonical, AddTo, MatchAdd, After;
    WfSides(b, isSell);
    var own := b.Get(isSell);
    Sound(own);
    AddStalls(e, own, b.Get(!isSell), id, q, price);
    if MatchAdd(e, isSell, own.pendingAdd, q, price).Done? {
      var n := LoopReturns(e, isSell, own.pendingAdd, 0, q, price);
      assert After(e, isSell, q, price, Next(own.pendingAdd, 0), n).Exit?;
    } else {
      forall n: nat ensures After(e, isSell, q, price, Next(own.pendingAdd, 0), n).Next? {
        LoopNeverReturns(e, isSell, own.pendingAdd, 0, q, price, n);
      }
    }
  }
}
