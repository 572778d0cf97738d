// A trade on one side, described without saying how it is done: what it settles, cancels,
// fills and expects, what it reports, and which views it queues (src/book_side.cpp:105-170).
module Trades {
  import opened Common
  import opened SideModel
  import opened ListLemmas
  import opened Matching
  import opened BookModel
  import opened Greedy
  import opened ExpectedViews
  import opened Determined
  import opened Additions

  // The first n orders are reported as cancelled, with their original quantities.
  ghost predicate Cancelled(isSell: bool, b: seq<OrderV>, n: nat, events: seq<OrderInfo>)
    requires n <= |b|
  {
    && |events| == n
    && forall j :: 0 <= j < n ==> events[j] == OrderInfo(CANCEL, b[j].id, isSell, b[j].quantity, b[j].price)
  }

  // One view for each of the first n orders as it is erased.
  ghost predicate DropShown(isSell: bool, b: seq<OrderV>, n: nat, views: seq<seq<Row>>)
    requires n <= |b|
  {
    |views| == n && forall j :: 0 <= j < n ==> Shows(isSell, views[j], b[j + 1..], {})
  }

  // One view for each of n exhausted orders at p as it is erased: until the last one is, their
  // level is still there.
  ghost predicate EraseShown(isSell: bool, p: Price, rest: seq<OrderV>, n: nat, views: seq<seq<Row>>) {
    |views| == n && forall j :: 0 <= j < n ==> Shows(isSell, views[j], rest, if j + 1 < n then {p} else {})
  }

  // The views of a trade that cancels n orders and fills the others with outcome r.
  ghost predicate TradeViews(isSell: bool, b: seq<OrderV>, n: nat, p: Price, r: Swept, views: seq<seq<Row>>) {
    && n <= |b| && |r.fills| <= |b[n..]| && |r.rest| <= |b[n..]|
    && n + |r.fills| <= |views|
    && DropShown(isSell, b, n, views[..n])
    && FillViews(isSell, b[n..], r.fills, views[n..][..|r.fills|])
    && EraseShown(isSell, p, r.rest, |b[n..]| - |r.rest|, views[n..][|r.fills|..])
  }

  // The debt at the price is settled first. The n better orders go and are reported as
  // cancelled, even if that was the whole trade; the open part is matched greedily at the
  // price, with outcome r; and what is left is expected, and reported as an order and its
  // execution that are still to come.
  ghost predicate TradeOutcome(s: Side, t: Trade, s': Side, events: seq<OrderInfo>, n: nat, r: Swept) {
    var settled := Min(Get(s.pendingRemove, t.price), t.quantity);
    && Leading(s.isSell, s.book, t.price, n)
    && GreedyOutcome(s.isSell, s.book[n..], t.quantity - settled, t.price, r)
    && s' == Side(s.isSell, r.rest, s'.pendingAdd, s'.pendingRemove, s'.snapQueue)
    && DebtsFall(s.pendingRemove, s'.pendingRemove, t.price, settled)
    && Expected(s.isSell, s.pendingAdd, s'.pendingAdd, t.price, r.left)
    && |s'.snapQueue| >= |s.snapQueue| && s'.snapQueue[..|s.snapQueue|] == s.snapQueue
    && TradeViews(s.isSell, s.book, n, t.price, r, s'.snapQueue[|s.snapQueue|..])
    && |events| >= n
    && Cancelled(s.isSell, s.book, n, events[..n])
    && Reported(s.isSell, r.fills, Expecting(s.isSell, r.left, t.price), events[n..])
  }

  function Expecting(isSell: bool, left: Quantity, p: Price): seq<OrderInfo> {
    if left > 0 then [OrderInfo(ADD, -1, isSell, left, p), OrderInfo(EXEC, -1, isSell, left, p)] else []
  }

  ghost predicate Traded(s: Side, t: Trade, s': Side, events: seq<OrderInfo>) {
    exists n: nat, r: Swept :: TradeOutcome(s, t, s', events, n, r)
  }

  // ---------- Views ----------

  lemma DropShows(isSell: bool, b: seq<OrderV>, n: nat)
    requires n <= |b| && Sorted(isSell, b) && UniqueIds(b) && Live(b)
    ensures DropShown(isSell, b, n, DropViews(b, n))
  {
    hide Sorted, UniqueIds, Live, Shows, L2View;
    forall j | 0 <= j < n ensures Shows(isSell, DropViews(b, n)[j], b[j + 1..], {}) {
      SuffixKeeps(isSell, b, j + 1);
      LiveSuffix(b, j + 1);
      ViewShows(isSell, b[j + 1..]);
    }
  }

  lemma LiveSuffix(b: seq<OrderV>, n: nat)
    requires n <= |b| && Live(b)
    ensures Live(b[n..])
  {
  }

  lemma {:induction false} EraseShows(isSell: bool, p: Price, rest: seq<OrderV>, n: nat)
    requires Sorted(isSell, rest) && Live(rest) && forall o :: o in rest ==> NoWorse(isSell, p, o.price)
    ensures EraseShown(isSell, p, rest, n, EraseViews(p, rest, n))
  {
    hide Sorted, Live, Shows, L2View, ViewAfterFill;
    ViewShows(isSell, rest);
    FillViewShows(isSell, p, rest);
    if n > 1 {
      EraseShows(isSell, p, rest, n - 1);
      var views := EraseViews(p, rest, n);
      assert views[1..] == EraseViews(p, rest, n - 1);
      forall j | 0 <= j < n ensures Shows(isSell, views[j], rest, if j + 1 < n then {p} else {}) {
        if j > 0 { assert views[j] == views[1..][j - 1]; }
      }
    }
  }

  lemma DropShownOnce(isSell: bool, b: seq<OrderV>, n: nat, v: seq<seq<Row>>, w: seq<seq<Row>>)
    requires n <= |b| && DropShown(isSell, b, n, v) && DropShown(isSell, b, n, w)
    ensures v == w
  {
    hide Shows;
    forall j | 0 <= j < n ensures v[j] == w[j] { ShownOnce(isSell, v[j], w[j], b[j + 1..], {}); }
  }

  lemma EraseShownOnce(isSell: bool, p: Price, rest: seq<OrderV>, n: nat, v: seq<seq<Row>>, w: seq<seq<Row>>)
    requires EraseShown(isSell, p, rest, n, v) && EraseShown(isSell, p, rest, n, w)
    ensures v == w
  {
    hide Shows;
    forall j | 0 <= j < n ensures v[j] == w[j] {
      ShownOnce(isSell, v[j], w[j], rest, if j + 1 < n then {p} else {});
    }
  }

  lemma ViewsOnce(isSell: bool, b: seq<OrderV>, n: nat, p: Price, r: Swept, v: seq<seq<Row>>, w: seq<seq<Row>>)
    requires TradeViews(isSell, b, n, p, r, v) && TradeViews(isSell, b, n, p, r, w)
    ensures v == w
  {
    hide DropShown, FillViews, EraseShown;
    var k := |r.fills|;
    DropShownOnce(isSell, b, n, v[..n], w[..n]);
    FillViewsOnce(isSell, b[n..], r.fills, v[n..][..k], w[n..][..k]);
    EraseShownOnce(isSell, p, r.rest, |b[n..]| - |r.rest|, v[n..][k..], w[n..][k..]);
    assert v == v[..n] + (v[n..][..k] + v[n..][k..]) && w == w[..n] + (w[n..][..k] + w[n..][k..]);
  }

  // ---------- What a trade is ----------

  lemma TradeIs(s: Side, t: Trade, n: nat, open: Quantity, r: Swept)
    requires n == BetterCount(s.isSell, s.book, t.price) && open == TradeOpen(s, t)
    requires r == Sweep(s.isSell, s.book[n..], open, t.price)
    ensures r == TradeSweep(s, t) && n <= |s.book| && |r.rest| <= |s.book[n..]|
    ensures ApplyTrade(s, t)
         == Side(s.isSell, r.rest,
                 if r.left > 0 then Credit(s.isSell, s.pendingAdd, t.price, r.left) else s.pendingAdd,
                 RemoveLeft(s.pendingRemove, t.quantity, t.price),
                 s.snapQueue + DropViews(s.book, n) + SweepViews(s.isSell, s.book[n..], open, t.price)
                 + EraseViews(t.price, r.rest, |s.book[n..]| - |r.rest|))
    ensures TradeEvents(s, t)
         == CancelEvents(s.isSell, s.book[..n]) + ExecEvents(s.isSell, r.fills) + Expecting(s.isSell, r.left, t.price)
  {
    hide Sweep, SweepViews, EraseViews, DropViews, Credit, RemoveLeft, RemoveMatched, CancelEvents, ExecEvents, BetterCount;
  }

  lemma CancelledExactly(isSell: bool, b: seq<OrderV>, n: nat, events: seq<OrderInfo>)
    requires n <= |b|
    ensures events == CancelEvents(isSell, b[..n]) <==> Cancelled(isSell, b, n, events)
  {
  }

  lemma TradeViewsHold(isSell: bool, b: seq<OrderV>, n: nat, p: Price, open: Quantity)
    requires Sorted(isSell, b) && UniqueIds(b) && Live(b) && open >= 0 && n == BetterCount(isSell, b, p)
    ensures n <= |b| && |Sweep(isSell, b[n..], open, p).rest| <= |b[n..]|
    ensures var r := Sweep(isSell, b[n..], open, p);
            TradeViews(isSell, b, n, p, r, DropViews(b, n) + (SweepViews(isSell, b[n..], open, p)
                                                              + EraseViews(p, r.rest, |b[n..]| - |r.rest|)))
  {
    hide Sorted, UniqueIds, Live, Sweep, SweepViews, EraseViews, DropViews, BetterCount, DropShown, FillViews, EraseShown;
    var front := b[n..];
    var r := Sweep(isSell, front, open, p);
    var d, f, x := DropViews(b, n), SweepViews(isSell, front, open, p), EraseViews(p, r.rest, |front| - |r.rest|);
    DropShows(isSell, b, n);
    FrontOf(isSell, b, p);
    SweepShows(isSell, front, open, p);
    OneViewEach(isSell, front, open, p);
    RestNoWorse(isSell, front, open, p);
    EraseShows(isSell, p, r.rest, |front| - |r.rest|);
    DropLength(b, n);
    var views := d + (f + x);
    assert views[..n] == d && views[n..] == f + x;
    assert views[n..][..|r.fills|] == f && views[n..][|r.fills|..] == x;
  }

  lemma DropLength(b: seq<OrderV>, n: nat)
    requires n <= |b|
    ensures |DropViews(b, n)| == n
  {
  }

  lemma FrontOf(isSell: bool, b: seq<OrderV>, p: Price)
    requires Sorted(isSell, b) && UniqueIds(b) && Live(b)
    ensures var n := BetterCount(isSell, b, p);
            && n <= |b|
            && Sorted(isSell, b[n..]) && UniqueIds(b[n..]) && Live(b[n..])
            && forall o :: o in b[n..] ==> NoWorse(isSell, p, o.price)
  {
    hide UniqueIds, Live, Sorted;
    var n := BetterCount(isSell, b, p);
    SuffixKeeps(isSell, b, n);
    LiveSuffix(b, n);
    FirstNotBetter(isSell, b, p);
    if n < |b| { SortedFront(isSell, b[n..]); }
  }

  // Nothing that is left beats the price if nothing did before.
  lemma RestNoWorse(isSell: bool, b: seq<OrderV>, q: Quantity, p: Price)
    requires Sorted(isSell, b) && UniqueIds(b) && Live(b) && forall o :: o in b ==> NoWorse(isSell, p, o.price)
    ensures var r := Sweep(isSell, b, q, p);
            Sorted(isSell, r.rest) && Live(r.rest) && forall o :: o in r.rest ==> NoWorse(isSell, p, o.price)
  {
    hide Sorted, UniqueIds, Live, Sweep;
    SweepKeeps(isSell, b, q, p);
  }

  // ---------- The description ----------

  lemma TradeMeets(s: Side, t: Trade, s': Side, events: seq<OrderInfo>, n: nat, r: Swept)
    requires Wf(s) && t.quantity >= 0
    requires n == BetterCount(s.isSell, s.book, t.price)
    requires r == Sweep(s.isSell, s.book[n..], t.quantity - Min(Get(s.pendingRemove, t.price), t.quantity), t.price)
    ensures (s', events) == (ApplyTrade(s, t), TradeEvents(s, t)) <==> TradeOutcome(s, t, s', events, n, r)
  {
    hide Wf, Sorted, UniqueIds, Live, SortedRows, Canonical, Sweep, SweepViews, EraseViews, DropViews, Credit, RemoveLeft,
         RemoveMatched, Get, CancelEvents, ExecEvents, BetterCount, ApplyTrade, TradeEvents, GreedyOutcome, Leading, DebtsFall,
         Expected, TradeViews, Cancelled, Reported, Expecting;
    var p, open := t.price, t.quantity - Min(Get(s.pendingRemove, t.price), t.quantity);
    Sound(s);
    SettledExactly(s.pendingRemove, s'.pendingRemove, t.quantity, p);
    TradeIs(s, t, n, open, r);
    FrontOf(s.isSell, s.book, p);
    LeadingExactly(s.isSell, s.book, p, n);
    GreedyExactly(s.isSell, s.book[n..], open, p, r);
    LeftBound(s.isSell, s.book[n..], open, p);
    ExpectedExactly(s.isSell, s.pendingAdd, s'.pendingAdd, p, r.left);
    QueuedExactly(s, t, n, open, r, s'.snapQueue);
    EventsExactly(s.isSell, s.book, n, r.fills, Expecting(s.isSell, r.left, p), events);
  }

  lemma QueuedExactly(s: Side, t: Trade, n: nat, open: Quantity, r: Swept, queue: seq<seq<Row>>)
    requires Sorted(s.isSell, s.book) && UniqueIds(s.book) && Live(s.book) && open >= 0
    requires n == BetterCount(s.isSell, s.book, t.price) && n <= |s.book|
    requires r == Sweep(s.isSell, s.book[n..], open, t.price) && |r.rest| <= |s.book[n..]|
    ensures queue == s.snapQueue + DropViews(s.book, n) + SweepViews(s.isSell, s.book[n..], open, t.price)
                     + EraseViews(t.price, r.rest, |s.book[n..]| - |r.rest|)
       <==> && |queue| >= |s.snapQueue| && queue[..|s.snapQueue|] == s.snapQueue
            && TradeViews(s.isSell, s.book, n, t.price, r, queue[|s.snapQueue|..])
  {
    hide Sorted, UniqueIds, Live, Sweep, SweepViews, EraseViews, DropViews, BetterCount, TradeViews;
    var d, f, x := DropViews(s.book, n), SweepViews(s.isSell, s.book[n..], open, t.price),
                   EraseViews(t.price, r.rest, |s.book[n..]| - |r.rest|);
    TradeViewsHold(s.isSell, s.book, n, t.price, open);
    Assoc(s.snapQueue, d, f);
    Assoc(s.snapQueue, d + f, x);
    Assoc(d, f, x);
    Parts(queue, s.snapQueue, d + (f + x));
    if |queue| >= |s.snapQueue| && TradeViews(s.isSell, s.book, n, t.price, r, queue[|s.snapQueue|..]) {
      ViewsOnce(s.isSell, s.book, n, t.price, r, queue[|s.snapQueue|..], d + (f + x));
    }
  }

  lemma EventsExactly(isSell: bool, b: seq<OrderV>, n: nat, fills: seq<Fill>, more: seq<OrderInfo>, events: seq<OrderInfo>)
    requires n <= |b|
    ensures events == CancelEvents(isSell, b[..n]) + ExecEvents(isSell, fills) + more
       <==> && |events| >= n && Cancelled(isSell, b, n, events[..n]) && Reported(isSell, fills, more, events[n..])
  {
    hide CancelEvents, ExecEvents, Cancelled, Reported;
    var c, x := CancelEvents(isSell, b[..n]), ExecEvents(isSell, fills);
    CancelLength(isSell, b[..n]);
    Assoc(c, x, more);
    Parts(events, c, x + more);
    if |events| >= n {
      CancelledExactly(isSell, b, n, events[..n]);
      ReportExactly(isSell, fills, more, events[n..]);
    }
  }

  lemma CancelLength(isSell: bool, b: seq<OrderV>)
    ensures |CancelEvents(isSell, b)| == |b|
  {
  }

  lemma TradeParts(s: Side, t: Trade, s': Side, events: seq<OrderInfo>, n: nat, r: Swept)
    requires TradeOutcome(s, t, s', events, n, r)
    ensures Leading(s.isSell, s.book, t.price, n)
    ensures GreedyOutcome(s.isSell, s.book[n..], t.quantity - Min(Get(s.pendingRemove, t.price), t.quantity), t.price, r)
  {
    hide GreedyOutcome, Leading, DebtsFall, Expected, TradeViews, Cancelled, Reported, Get;
  }

  // A trade on a side has this outcome and no other.
  lemma TradeExactly(s: Side, t: Trade, s': Side, events: seq<OrderInfo>)
    requires Wf(s) && t.quantity >= 0
    ensures (s', events) == (ApplyTrade(s, t), TradeEvents(s, t)) <==> Traded(s, t, s', events)
  {
    hide Wf, Sorted, UniqueIds, Live, SortedRows, Canonical, Sweep, BetterCount, ApplyTrade, TradeEvents, TradeOutcome, Get,
         Leading, GreedyOutcome;
    var n0 := BetterCount(s.isSell, s.book, t.price);
    var open := t.quantity - Min(Get(s.pendingRemove, t.price), t.quantity);
    var r0 := Sweep(s.isSell, s.book[n0..], open, t.price);
    Sound(s);
    FrontOf(s.isSell, s.book, t.price);
    SettledExactly(s.pendingRemove, s.pendingRemove, t.quantity, t.price);
    TradeMeets(s, t, s', events, n0, r0);
    forall n: nat, r: Swept | TradeOutcome(s, t, s', events, n, r)
      ensures n == n0 && r == r0
    {
      TradeParts(s, t, s', events, n, r);
      LeadingExactly(s.isSell, s.book, t.price, n);
      GreedyExactly(s.isSell, s.book[n..], open, t.price, r);
    }
  }

  // The fills are those of the queue at the price, first to last.
  lemma TradeFillsQueue(s: Side, t: Trade, s': Side, events: seq<OrderInfo>, n: nat, r: Swept)
    requires Wf(s) && t.quantity >= 0 && TradeOutcome(s, t, s', events, n, r)
    ensures GreedyOutcome(s.isSell, AtPrice(s.book, t.price), t.quantity - Min(Get(s.pendingRemove, t.price), t.quantity),
                          t.price, Swept(r.fills, AtPrice(s'.book, t.price), r.left))
  {
    hide Wf, Sorted, UniqueIds, Live, SortedRows, Canonical, Sweep, BetterCount, TradeOutcome, Get, Leading, GreedyOutcome, AtPrice;
    var p, open := t.price, t.quantity - Min(Get(s.pendingRemove, t.price), t.quantity);
    Sound(s);
    TradeParts(s, t, s', events, n, r);
    TradeBook(s, t, s', events, n, r);
    LeadingExactly(s.isSell, s.book, p, n);
    FrontOf(s.isSell, s.book, p);
    GreedyExactly(s.isSell, s.book[n..], open, p, r);
    BetterGone(s.isSell, s.book, p, p);
    FillQueue(s.isSell, s.book[n..], open, p);
    WfParts(s);
    SettledExactly(s.pendingRemove, s.pendingRemove, t.quantity, p);
    GreedyExactly(s.isSell, AtPrice(s.book, p), open, p, Swept(r.fills, AtPrice(s'.book, p), r.left));
  }

  lemma TradeBook(s: Side, t: Trade, s': Side, events: seq<OrderInfo>, n: nat, r: Swept)
    requires TradeOutcome(s, t, s', events, n, r)
    ensures s'.book == r.rest
  {
    hide GreedyOutcome, Leading, DebtsFall, Expected, TradeViews, Cancelled, Reported, Get;
  }

  // In the book: the bids take the trade first, and their events come first.
  lemma TradeBookExactly(b: Book, t: Trade, b': Book, events: seq<OrderInfo>)
    requires WfBook(b) && t.quantity >= 0
    ensures (b', events) == ProcessTrade(b, t)
       <==> exists k :: 0 <= k <= |events| && Traded(b.bids, t, b'.bids, events[..k]) && Traded(b.asks, t, b'.asks, events[k..])
  {
    hide Wf, ApplyTrade, TradeEvents, Traded;
    var x, y := TradeEvents(b.bids, t), TradeEvents(b.asks, t);
    if (b', events) == ProcessTrade(b, t) {
      assert events[..|x|] == x && events[|x|..] == y;
      TradeExactly(b.bids, t, b'.bids, x);
      TradeExactly(b.asks, t, b'.asks, y);
    }
    forall k | 0 <= k <= |events| && Traded(b.bids, t, b'.bids, events[..k]) && Traded(b.asks, t, b'.asks, events[k..])
      ensures (b', events) == ProcessTrade(b, t)
    {
      TradeExactly(b.bids, t, b'.bids, events[..k]);
      TradeExactly(b.asks, t, b'.asks, events[k..]);
      assert events == events[..k] + events[k..];
    }
  }
}
