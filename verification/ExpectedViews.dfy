// The L2 views that a side queues while it matches, and what they do to the snapshot feed
// (src/book_side.cpp:63-91, src/book_side.cpp:172-178, src/book_side.cpp:288-294).
module ExpectedViews {
  import opened Common
  import opened SideModel
  import opened ListLemmas
  import opened Matching
  import opened SnapshotTheorems
  import opened SnapshotModel
  import opened Greedy
  import opened Runs

  lemma {:induction false} OneViewEach(isSell: bool, b: seq<OrderV>, q: Quantity, limit: Price)
    ensures |SweepViews(isSell, b, q, limit)| == |Sweep(isSell, b, q, limit).fills| <= |b|
  {
    if !(q <= 0 || b == [] || !NoWorse(isSell, b[0].price, limit)) && q >= b[0].Rem() {
      OneViewEach(isSell, b[1..], q - b[0].Rem(), limit);
    }
  }

  // The view is the true view of what is left, exactly while the level just filled still
  // has an order; otherwise it shows that level with quantity zero.
  ghost predicate TrueUnlessDrained(view: seq<Row>, left: seq<OrderV>, p: Price) {
    && (view == L2View(left) <==> left != [] && left[0].price == p)
    && (view != L2View(left) ==> view == [Row(p, 0)] + L2View(left))
  }

  // Of the views queued during a sweep, the one of fill i.
  lemma {:induction false} ViewsExactly(isSell: bool, b: seq<OrderV>, q: Quantity, limit: Price, i: nat)
    requires Live(b) && i < |Sweep(isSell, b, q, limit).fills|
    ensures |SweepViews(isSell, b, q, limit)| == |Sweep(isSell, b, q, limit).fills| <= |b|
    ensures var fills := Sweep(isSell, b, q, limit).fills;
            TrueUnlessDrained(SweepViews(isSell, b, q, limit)[i], LeftOver(b, fills[..i + 1]), fills[i].price)
    decreases i
  {
    hide Sweep, SweepViews, LeftOver, Live, TrueUnlessDrained;
    OneViewEach(isSell, b, q, limit);
    if i == 0 {
      FirstView(isSell, b, q, limit);
    } else {
      NextViews(isSell, b, q, limit);
      var fills := Sweep(isSell, b, q, limit).fills;
      ViewsExactly(isSell, b[1..], q - b[0].Rem(), limit, i - 1);
      assert fills[..i + 1][1..] == fills[1..][..i];
      LeftOverCons(b, fills[..i + 1]);
    }
  }

  // Beyond its first fill a sweep is the sweep of the rest.
  lemma NextViews(isSell: bool, b: seq<OrderV>, q: Quantity, limit: Price)
    requires Live(b) && |Sweep(isSell, b, q, limit).fills| > 1
    ensures Live(b[1..])
    ensures Sweep(isSell, b, q, limit).fills[1..] == Sweep(isSell, b[1..], q - b[0].Rem(), limit).fills
    ensures SweepViews(isSell, b, q, limit) != []
         && SweepViews(isSell, b, q, limit)[1..] == SweepViews(isSell, b[1..], q - b[0].Rem(), limit)
  {
  }

  lemma FirstView(isSell: bool, b: seq<OrderV>, q: Quantity, limit: Price)
    requires Live(b) && Sweep(isSell, b, q, limit).fills != [] && SweepViews(isSell, b, q, limit) != []
    ensures b != []
    ensures var fill := Sweep(isSell, b, q, limit).fills[0];
            && Sweep(isSell, b, q, limit).fills[..1] == [fill]
            && TrueUnlessDrained(SweepViews(isSell, b, q, limit)[0], LeftOver(b, [fill]), fill.price)
  {
    hide L2View;
    var fill := Sweep(isSell, b, q, limit).fills[0];
    assert Sweep(isSell, b, q, limit).fills[..1] == [fill];
    assert b[0] in b;
    if q < b[0].Rem() {
      assert LeftOver(b, [fill]) == [b[0].Take(q)] + b[1..];
    } else {
      assert LeftOver(b, [fill]) == b[1..];
      assert |[Row(b[0].price, 0)] + L2View(b[1..])| != |L2View(b[1..])|;
    }
  }

  // ---------- The snapshot feed ----------

  ghost predicate AllValid(isSell: bool, views: seq<seq<Row>>) {
    forall v :: v in views ==> ValidRows(isSell, v)
  }

  // While a view that no snapshot can show is queued, snapshots never change the book.
  lemma {:induction false} NeverFollows(s: Side, views: seq<seq<Row>>)
    requires AllValid(s.isSell, views) && !AllValid(s.isSell, s.snapQueue)
    ensures var s' := FeedSnapshots(s, views);
            s' == s.(snapQueue := s'.snapQueue) && !AllValid(s.isSell, s'.snapQueue)
    decreases |views|
  {
    if views != [] {
      hide ValidRows;
      var s1 := ApplySnapshot(s, views[0]);
      if s.snapQueue[0] == views[0] {
        var v :| v in s.snapQueue && !ValidRows(s.isSell, v);
        assert v in s.snapQueue[1..];
      }
      NeverFollows(s1, views[1..]);
    }
  }

  // Snapshots can bring a side back to following them.
  ghost predicate CanFollow(s: Side) {
    exists views :: AllValid(s.isSell, views) && FeedSnapshots(s, views).snapQueue == []
  }

  // That is so if and only if every view it has queued is one that a snapshot can show.
  lemma FollowsAgainExactly(s: Side)
    ensures CanFollow(s) <==> AllValid(s.isSell, s.snapQueue)
  {
    if AllValid(s.isSell, s.snapQueue) {
      ExpectedSnapshots(s, s.snapQueue);
      assert FeedSnapshots(s, s.snapQueue).snapQueue == [];
    }
    forall views | AllValid(s.isSell, views) && FeedSnapshots(s, views).snapQueue == []
      ensures AllValid(s.isSell, s.snapQueue)
    {
      if !AllValid(s.isSell, s.snapQueue) { NeverFollows(s, views); }
    }
  }

  // One crossing that drains a level is enough: from then on no snapshot changes the side.
  lemma DrainedNeverFollows(s: Side, q: Quantity, price: Price, i: nat, views: seq<seq<Row>>)
    requires Live(s.book) && i < |Sweep(s.isSell, s.book, q, price).fills| <= |s.book|
    requires var fills := Sweep(s.isSell, s.book, q, price).fills;
             var left := LeftOver(s.book, fills[..i + 1]);
             left == [] || left[0].price != fills[i].price
    requires AllValid(s.isSell, views)
    ensures FeedSnapshots(Cross(s, q, price), views).book == Cross(s, q, price).book
  {
    ViewsExactly(s.isSell, s.book, q, price, i);
    var s' := Cross(s, q, price);
    var view := SweepViews(s.isSell, s.book, q, price)[i];
    hide Sweep, SweepViews, L2View, OweAll, LeftOver;
    assert view[0].quantity == 0 && view[0] in view;
    assert s'.snapQueue[|s.snapQueue| + i] == view && view in s'.snapQueue;
    assert !ValidRows(s'.isSell, view);
    NeverFollows(s', views);
  }

  // ---------- Which messages cut a side off ----------

  lemma TrueView(isSell: bool, b: seq<OrderV>)
    requires Sorted(isSell, b) && Live(b)
    ensures ValidRows(isSell, L2View(b))
  {
    ViewRows(isSell, b);
  }

  // The view after a fill that exhausts the first order, which rest follow in the list.
  lemma ViewAfterFillExactly(isSell: bool, p: Price, rest: seq<OrderV>)
    requires Sorted(isSell, rest) && Live(rest)
    ensures ValidRows(isSell, ViewAfterFill(p, rest)) <==> rest != [] && rest[0].price == p
  {
    TrueView(isSell, rest);
    if !(rest != [] && rest[0].price == p) {
      assert ViewAfterFill(p, rest)[0].quantity == 0 && ViewAfterFill(p, rest)[0] in ViewAfterFill(p, rest);
    }
  }

  // What is at the front of the list, and how much rests at its price.
  lemma FrontTotals(isSell: bool, b: seq<OrderV>)
    requires b != [] && Sorted(isSell, b) && Live(b)
    ensures Sorted(isSell, b[1..]) && Live(b[1..]) && b[0].Rem() > 0
    ensures TotalAt(b, b[0].price) == b[0].Rem() + TotalAt(b[1..], b[0].price)
    ensures if b[1..] != [] && b[1..][0].price == b[0].price then TotalAt(b[1..], b[0].price) > 0
            else TotalAt(b[1..], b[0].price) == 0
  {
    assert b[0] in b;
    PriceTotal(b[1..], b[0].price);
    if b[1..] != [] {
      assert b[1..][0] in b[1..];
      if b[1..][0].price != b[0].price {
        SortedFront(isSell, b[1..]);
        NoneAtPrice(b[1..], b[0].price);
      }
    }
  }

  // A sweep that reaches the front level queues true views only, exactly if it leaves some of
  // that level.
  lemma {:induction false} SweepViewsExactly(isSell: bool, b: seq<OrderV>, q: Quantity, limit: Price)
    requires Sorted(isSell, b) && Live(b) && q > 0 && b != [] && NoWorse(isSell, b[0].price, limit)
    ensures AllValid(isSell, SweepViews(isSell, b, q, limit)) <==> q < TotalAt(b, b[0].price)
  {
    FrontTotals(isSell, b);
    var p, rest := b[0].price, b[1..];
    hide Sorted, Live, TotalAt, ValidRows, L2View, ViewAfterFill;
    if q < b[0].Rem() {
      TakeKeeps(isSell, b, q);
      TrueView(isSell, [b[0].Take(q)] + rest);
      RestNotNegative(rest, p);
    } else {
      var more := SweepViews(isSell, rest, q - b[0].Rem(), limit);
      ViewAfterFillExactly(isSell, p, rest);
      FirstAndRest(isSell, ViewAfterFill(p, rest), more);
      if rest != [] && rest[0].price == p && q > b[0].Rem() {
        SweepViewsExactly(isSell, rest, q - b[0].Rem(), limit);
      }
    }
  }

  lemma RestNotNegative(b: seq<OrderV>, p: Price)
    requires Live(b)
    ensures TotalAt(b, p) >= 0
  {
    PriceTotal(b, p);
  }

  lemma TakeKeeps(isSell: bool, b: seq<OrderV>, q: Quantity)
    requires b != [] && Sorted(isSell, b) && Live(b) && q < b[0].Rem()
    ensures Sorted(isSell, [b[0].Take(q)] + b[1..]) && Live([b[0].Take(q)] + b[1..])
  {
    assert ([b[0].Take(q)] + b[1..])[1..] == b[1..];
  }

  lemma FirstAndRest(isSell: bool, v: seq<Row>, views: seq<seq<Row>>)
    ensures AllValid(isSell, [v] + views) <==> ValidRows(isSell, v) && AllValid(isSell, views)
  {
    hide ValidRows;
    if AllValid(isSell, [v] + views) {
      assert v in [v] + views;
    }
  }

  lemma BothValid(isSell: bool, x: seq<seq<Row>>, y: seq<seq<Row>>)
    ensures AllValid(isSell, x + y) <==> AllValid(isSell, x) && AllValid(isSell, y)
  {
    hide ValidRows;
    if AllValid(isSell, x + y) {
      forall v | v in x ensures ValidRows(isSell, v) { assert v in x + y; }
      forall v | v in y ensures ValidRows(isSell, v) { assert v in x + y; }
    }
  }

  // After an aggressive order a side can follow snapshots again if and only if it could before
  // and the order leaves some of the best level.
  lemma CrossFollowsExactly(s: Side, q: Quantity, price: Price)
    requires Wf(s)
    ensures CanFollow(Cross(s, q, price))
       <==> CanFollow(s) && (q <= 0 || !Crossed(s, price) || q < TotalAt(s.book, s.book[0].price))
  {
    assert Sorted(s.isSell, s.book) && Live(s.book);
    hide Wf, Sorted, Live, ValidRows, CanFollow, TotalAt;
    FollowsAgainExactly(s);
    FollowsAgainExactly(Cross(s, q, price));
    BothValid(s.isSell, s.snapQueue, SweepViews(s.isSell, s.book, q, price));
    if q > 0 && Crossed(s, price) {
      SweepViewsExactly(s.isSell, s.book, q, price);
    }
  }

  // ---------- The views a trade queues ----------

  lemma {:induction false} SuffixViews(isSell: bool, b: seq<OrderV>, n: nat)
    requires n <= |b| && Sorted(isSell, b) && Live(b)
    ensures AllValid(isSell, DropViews(b, n))
  {
    hide Sorted, Live, ValidRows, L2View, DropViews, TotalAt;
    if n > 0 {
      DropViewsFirst(b, n);
      FrontTotals(isSell, b);
      TrueView(isSell, b[1..]);
      SuffixViews(isSell, b[1..], n - 1);
      FirstAndRest(isSell, L2View(b[1..]), DropViews(b[1..], n - 1));
    } else {
      DropViewsNone(b);
    }
  }

  lemma {:induction false} EraseViewsValid(isSell: bool, p: Price, rest: seq<OrderV>, n: nat)
    requires Sorted(isSell, rest) && Live(rest) && rest != [] && rest[0].price == p
    ensures AllValid(isSell, EraseViews(p, rest, n))
  {
    hide ValidRows, Sorted, Live, L2View;
    TrueView(isSell, rest);
    if n > 1 { EraseViewsValid(isSell, p, rest, n - 1); }
  }

  // Filling at p with nothing better in front queues true views only, exactly if it fills
  // nothing or leaves some of p's level.
  lemma FillViewsExactly(s: Side, q: Quantity, p: Price)
    requires Sorted(s.isSell, s.book) && UniqueIds(s.book) && Live(s.book) && q >= 0
    requires s.book != [] ==> NoWorse(s.isSell, p, s.book[0].price)
    ensures AllValid(s.isSell, FillAt(s, q, p).snapQueue)
       <==> AllValid(s.isSell, s.snapQueue) && (q == 0 || TotalAt(s.book, p) == 0 || q < TotalAt(s.book, p))
  {
    var b, r := s.book, Sweep(s.isSell, s.book, q, p);
    var fillViews := SweepViews(s.isSell, b, q, p);
    SweepKeeps(s.isSell, b, q, p);
    LevelInFront(s.isSell, b, p);
    hide Sorted, UniqueIds, Live, ValidRows, TotalAt;
    var eraseViews := EraseViews(p, r.rest, |b| - |r.rest|);
    BothValid(s.isSell, s.snapQueue, fillViews);
    BothValid(s.isSell, s.snapQueue + fillViews, eraseViews);
    if q > 0 && TotalAt(b, p) != 0 {
      SweepViewsExactly(s.isSell, b, q, p);
      if q < TotalAt(b, p) {
        StillInFront(s.isSell, b, q, p);
        EraseViewsValid(s.isSell, p, r.rest, |b| - |r.rest|);
      }
    } else {
      assert fillViews == [] && eraseViews == [];
    }
  }

  lemma LevelInFront(isSell: bool, b: seq<OrderV>, p: Price)
    requires Sorted(isSell, b) && Live(b) && (b != [] ==> NoWorse(isSell, p, b[0].price))
    ensures TotalAt(b, p) >= 0
    ensures TotalAt(b, p) != 0 <==> b != [] && b[0].price == p
    ensures TotalAt(b, p) != 0 <==> b != [] && NoWorse(isSell, b[0].price, p)
  {
    PriceTotal(b, p);
    if b != [] {
      assert b[0] in b;
      if b[0].price != p {
        SortedFront(isSell, b);
        NoneAtPrice(b, p);
      }
    }
  }

  lemma {:induction false} StillInFront(isSell: bool, b: seq<OrderV>, q: Quantity, p: Price)
    requires Sorted(isSell, b) && Live(b) && b != [] && b[0].price == p && 0 <= q < TotalAt(b, p)
    ensures var rest := Sweep(isSell, b, q, p).rest; rest != [] && rest[0].price == p
  {
    FrontTotals(isSell, b);
    hide Sorted, Live, TotalAt;
    if q >= b[0].Rem() { StillInFront(isSell, b[1..], q - b[0].Rem(), p); }
  }

  // After a trade a side can follow snapshots again if and only if it could before and the
  // trade, as far as it was not owed, leaves some of the level at its price.
  lemma TradeFollowsExactly(s: Side, t: Trade)
    requires Wf(s) && t.quantity >= 0
    ensures CanFollow(ApplyTrade(s, t))
       <==> CanFollow(s) && (TradeOpen(s, t) == 0 || TotalAt(s.book, t.price) == 0
                             || TradeOpen(s, t) < TotalAt(s.book, t.price))
  {
    var n := BetterCount(s.isSell, s.book, t.price);
    assert Sorted(s.isSell, s.book) && UniqueIds(s.book) && Live(s.book);
    hide Wf, Sorted, UniqueIds, Live, ValidRows, CanFollow, Sweep, SweepViews, EraseViews, DropViews;
    var d := TradeFront(s, t);
    TradeQueue(s, t);
    Strict(s.isSell, t.price);
    DropKeeps(Settle(s, t.quantity, t.price), t.price);
    MatchedBound(s.pendingRemove, t.quantity, t.price);
    SuffixViews(s.isSell, s.book, n);
    BothValid(s.isSell, s.snapQueue, DropViews(s.book, n));
    FillViewsExactly(d, TradeOpen(s, t), t.price);
    FollowsAgainExactly(s);
    FollowsAgainExactly(ApplyTrade(s, t));
  }
}
