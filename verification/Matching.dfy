// The greedy matcher, one level and one order at a time.
module Matching {
  import opened Common
  import opened SideModel
  import opened ListLemmas

  // Sweeping to a better limit first and then on to the real one is one sweep.
  lemma {:induction false} SweepThrough(isSell: bool, b: seq<OrderV>, q: Quantity, p: Price, limit: Price)
    requires NoWorse(isSell, p, limit)
    ensures var r := Sweep(isSell, b, q, p);
            var s := Sweep(isSell, r.rest, r.left, limit);
            Sweep(isSell, b, q, limit) == Swept(r.fills + s.fills, s.rest, s.left)
  {
    var r := Sweep(isSell, b, q, p);
    var s := Sweep(isSell, r.rest, r.left, limit);
    if q <= 0 || b == [] || !NoWorse(isSell, b[0].price, p) {
      assert [] + s.fills == s.fills;
    } else if q < b[0].Rem() {
      assert r.fills + [] == r.fills;
    } else {
      SweepThrough(isSell, b[1..], q - b[0].Rem(), p, limit);
      Assoc([Fill(b[0].id, b[0].Rem(), b[0].price)], Sweep(isSell, b[1..], q - b[0].Rem(), p).fills, s.fills);
    }
  }

  lemma {:induction false} ViewsThrough(isSell: bool, b: seq<OrderV>, q: Quantity, p: Price, limit: Price)
    requires NoWorse(isSell, p, limit)
    ensures var r := Sweep(isSell, b, q, p);
            SweepViews(isSell, b, q, limit)
            == SweepViews(isSell, b, q, p) + SweepViews(isSell, r.rest, r.left, limit)
  {
    hide L2View, ViewAfterFill;
    var r := Sweep(isSell, b, q, p);
    if q <= 0 || b == [] || !NoWorse(isSell, b[0].price, p) {
      assert [] + SweepViews(isSell, b, q, limit) == SweepViews(isSell, b, q, limit);
    } else if q < b[0].Rem() {
      assert SweepViews(isSell, b, q, p) + [] == SweepViews(isSell, b, q, p);
    } else {
      ViewsThrough(isSell, b[1..], q - b[0].Rem(), p, limit);
      Assoc([ViewAfterFill(b[0].price, b[1..])],
            SweepViews(isSell, b[1..], q - b[0].Rem(), p), SweepViews(isSell, r.rest, r.left, limit));
    }
  }

  // What is left of a book that was swept is still a book.
  lemma {:induction false} SweepKeeps(isSell: bool, b: seq<OrderV>, q: Quantity, limit: Price)
    requires Sorted(isSell, b) && UniqueIds(b) && Live(b)
    ensures var r := Sweep(isSell, b, q, limit);
            && Sorted(isSell, r.rest) && UniqueIds(r.rest) && Live(r.rest)
            && (forall o :: o in r.rest ==> exists o' :: o' in b && o'.price == o.price)
            && (forall id :: Has(r.rest, id) ==> Has(b, id))
            && (forall f :: f in r.fills ==> f.quantity > 0 && exists o :: o in b && o.price == f.price)
            && (q >= 0 ==> 0 <= r.left <= q)
  {
    if q <= 0 || b == [] || !NoWorse(isSell, b[0].price, limit) {
    } else if q < b[0].Rem() {
      var b' := [b[0].Take(q)] + b[1..];
      assert b'[1..] == b[1..];
      forall o | o in b' ensures exists o' :: o' in b && o'.price == o.price {
        if o == b'[0] {
          assert b[0] in b && b[0].price == o.price;
        } else {
          assert o in b[1..];
          assert o in b && o.price == o.price;
        }
      }
    } else {
      SweepKeeps(isSell, b[1..], q - b[0].Rem(), limit);
      var r := Sweep(isSell, b[1..], q - b[0].Rem(), limit);
      forall o | o in r.rest ensures exists o' :: o' in b && o'.price == o.price {
        var o' :| o' in b[1..] && o'.price == o.price;
        assert o' in b;
      }
      var f0 := Fill(b[0].id, b[0].Rem(), b[0].price);
      forall f | f in [f0] + r.fills ensures f.quantity > 0 && exists o :: o in b && o.price == f.price {
        if f == f0 {
          assert b[0] in b && b[0].price == f.price;
        } else {
          assert f in r.fills;
          var o :| o in b[1..] && o.price == f.price;
          assert o in b;
        }
      }
    }
  }

  // ---------- A level being walked: exhausted orders z in front of what is left ----------

  function Ids(z: seq<OrderV>): seq<OrderId> {
    seq(|z|, i requires 0 <= i < |z| => z[i].id)
  }

  ghost predicate Exhausted(z: seq<OrderV>, p: Price) {
    forall o :: o in z ==> o.price == p && o.Rem() == 0
  }

  // Where the walk over the level at p stands once z is exhausted.
  lemma FrontOrder(isSell: bool, z: seq<OrderV>, rest: seq<OrderV>, p: Price)
    requires Sorted(isSell, z + rest) && Exhausted(z, p)
    requires forall o :: o in rest ==> NoWorse(isSell, p, o.price)
    ensures var level := AtPrice(z + rest, p);
            && |z| <= |level|
            && (|z| < |level| ==> rest != [] && rest[0].price == p && level[|z|] == rest[0])
            && (|z| == |level| ==> rest == [] || !NoWorse(isSell, rest[0].price, p))
  {
    AtPriceAppend(z, rest, p);
    AllAtPrice(z, p);
    SortedSuffix(isSell, z, rest);
    if rest != [] && rest[0].price != p {
      forall o | o in rest ensures o.price != p {
        assert rest[0] in rest;
        if o != rest[0] { assert o in rest[1..]; }
      }
      NoneAtPrice(rest, p);
    }
  }

  // The state of a walk over the front level at p of a list b, with q to fill: exhausted
  // orders z, the remaining list, what is left to fill, and the fills and views so far.
  datatype Walk = Walk(z: seq<OrderV>, rest: seq<OrderV>, left: Quantity, fills: seq<Fill>, views: seq<seq<Row>>)

  ghost predicate Walking(isSell: bool, b: seq<OrderV>, q: Quantity, p: Price, w: Walk) {
    && Exhausted(w.z, p)
    && Live(w.rest)
    && w.left >= 0
    && |w.z| + |w.rest| == |b|
    && (forall o :: o in w.rest ==> NoWorse(isSell, p, o.price))
    && (var s := Sweep(isSell, w.rest, w.left, p);
        Sweep(isSell, b, q, p) == Swept(w.fills + s.fills, s.rest, s.left))
    && SweepViews(isSell, b, q, p) == w.views + SweepViews(isSell, w.rest, w.left, p)
  }

  lemma WalkStart(isSell: bool, b: seq<OrderV>, q: Quantity) returns (w: Walk)
    requires b != [] && Sorted(isSell, b) && Live(b) && q >= 0
    ensures w == Walk([], b, q, [], []) && [] + b == b
    ensures Ids(w.z) == [] && ExecEvents(isSell, w.fills) == []
    ensures Walking(isSell, b, q, b[0].price, w)
  {
    SortedFront(isSell, b);
    w := Walk([], b, q, [], []);
    assert [] + SweepViews(isSell, b, q, b[0].price) == SweepViews(isSell, b, q, b[0].price);
  }

  lemma WalkEnd(isSell: bool, b: seq<OrderV>, q: Quantity, p: Price, w: Walk)
    requires Walking(isSell, b, q, p, w)
    requires w.left == 0 || w.rest == [] || !NoWorse(isSell, w.rest[0].price, p)
    ensures Sweep(isSell, b, q, p) == Swept(w.fills, w.rest, w.left)
    ensures SweepViews(isSell, b, q, p) == w.views
  {
  }

  // One fill of the walk: the front order is exhausted, or it ends the sweep.
  lemma FillStep(isSell: bool, z: seq<OrderV>, rest: seq<OrderV>, left: Quantity, p: Price)
    returns (z': seq<OrderV>, rest': seq<OrderV>)
    requires rest != [] && rest[0].price == p && left > 0 && Exhausted(z, p) && Live(rest)
    ensures var f := Min(left, rest[0].Rem());
            var o := rest[0].Take(f);
            var s := Sweep(isSell, rest', left - f, p);
            && z + [o] + rest[1..] == z' + rest'
            && (if f == rest[0].Rem() then z' == z + [o] && rest' == rest[1..]
                else z' == z && rest' == [o] + rest[1..] && left == f)
            && Exhausted(z', p)
            && Live(rest')
            && Sweep(isSell, rest, left, p) == Swept([Fill(o.id, f, p)] + s.fills, s.rest, s.left)
            && SweepViews(isSell, rest, left, p) == [L2View(z' + rest')] + SweepViews(isSell, rest', left - f, p)
  {
    hide L2View, Live;
    LiveTake(rest, Min(left, rest[0].Rem()));
    var f := Min(left, rest[0].Rem());
    var o := rest[0].Take(f);
    if f == rest[0].Rem() {
      z', rest' := z + [o], rest[1..];
      assert o.Rem() == 0;
      ViewExhausted(z', p, rest');
    } else {
      z', rest' := z, [o] + rest[1..];
      Assoc(z, [o], rest[1..]);
      if z == [] {
        assert z + rest' == rest';
      } else {
        ViewExhausted(z, p, rest');
      }
    }
  }

  lemma LiveTake(b: seq<OrderV>, f: Quantity)
    requires b != [] && Live(b)
    ensures b[0].Rem() > 0 && Live(b[1..])
    ensures f < b[0].Rem() ==> Live([b[0].Take(f)] + b[1..])
  {
    assert b[0] in b;
  }

  lemma WalkStep(isSell: bool, b: seq<OrderV>, q: Quantity, p: Price, w: Walk) returns (w': Walk)
    requires Walking(isSell, b, q, p, w)
    requires w.rest != [] && w.rest[0].price == p && w.left > 0
    ensures var f := Min(w.left, w.rest[0].Rem());
            var o := w.rest[0].Take(f);
            && w'.z + w'.rest == w.z + [o] + w.rest[1..]
            && w'.z == (if f == w.rest[0].Rem() then w.z + [o] else w.z)
            && (f < w.rest[0].Rem() ==> w'.left == 0)
            && w'.left == w.left - f
            && ExecEvents(isSell, w'.fills) == ExecEvents(isSell, w.fills) + [OrderInfo(EXEC, o.id, isSell, f, p)]
            && Ids(w'.z) == Ids(w.z) + (if f == w.rest[0].Rem() then [o.id] else [])
            && w'.views == w.views + [L2View(w'.z + w'.rest)]
    ensures Walking(isSell, b, q, p, w')
  {
    hide L2View, Exhausted, Sweep, SweepViews;
    var z', rest' := FillStep(isSell, w.z, w.rest, w.left, p);
    var f := Min(w.left, w.rest[0].Rem());
    var fill := Fill(w.rest[0].id, f, p);
    var s := Sweep(isSell, rest', w.left - f, p);
    w' := Walk(z', rest', w.left - f, w.fills + [fill], w.views + [L2View(z' + rest')]);
    assert w.fills + ([fill] + s.fills) == w'.fills + s.fills;
    assert w.views + ([L2View(z' + rest')] + SweepViews(isSell, rest', w'.left, p))
        == w'.views + SweepViews(isSell, rest', w'.left, p);
    forall o | o in rest' ensures NoWorse(isSell, p, o.price) {
      assert o == rest'[0] || o in w.rest[1..];
    }
  }

  lemma SortedFront(isSell: bool, b: seq<OrderV>)
    requires b != [] && Sorted(isSell, b)
    ensures forall o :: o in b ==> NoWorse(isSell, b[0].price, o.price)
  {
    forall o | o in b ensures NoWorse(isSell, b[0].price, o.price) {
      assert o == b[0] || o in b[1..];
    }
  }

  lemma {:induction false} SortedSuffix(isSell: bool, a: seq<OrderV>, b: seq<OrderV>)
    requires Sorted(isSell, a + b)
    ensures Sorted(isSell, b)
  {
    if a == [] {
      assert a + b == b;
    } else {
      assert (a + b)[1..] == a[1..] + b;
      SortedSuffix(isSell, a[1..], b);
    }
  }

  lemma {:induction false} FindAfter(a: seq<OrderV>, b: seq<OrderV>, o: OrderV)
    requires b != [] && UniqueIds(a + b) && o.id == b[0].id
    ensures Has(a + b, b[0].id) && Find(a + b, b[0].id) == b[0]
    ensures Replace(a + b, o) == a + [o] + b[1..]
    ensures !Has(b[1..], b[0].id) && UniqueIds(b)
  {
    if a == [] {
      assert a + b == b && a + [o] + b[1..] == [o] + b[1..];
    } else {
      assert (a + b)[1..] == a[1..] + b;
      FindAfter(a[1..], b, o);
      assert a + [o] + b[1..] == [a[0]] + (a[1..] + [o] + b[1..]);
    }
  }

  // Crossing up to a better price first and then on is one crossing.
  lemma CrossThrough(s: Side, q: Quantity, p: Price, limit: Price)
    requires NoWorse(s.isSell, p, limit)
    ensures var r := Sweep(s.isSell, s.book, q, p);
            var s1 := Cross(s, q, p);
            && Cross(s, q, limit) == Cross(s1, r.left, limit)
            && Sweep(s.isSell, s.book, q, limit).fills == r.fills + Sweep(s.isSell, s1.book, r.left, limit).fills
            && Sweep(s.isSell, s.book, q, limit).left == Sweep(s.isSell, s1.book, r.left, limit).left
  {
    hide Sweep, SweepViews, OweAll;
    SweepThrough(s.isSell, s.book, q, p, limit);
    ViewsThrough(s.isSell, s.book, q, p, limit);
    var r := Sweep(s.isSell, s.book, q, p);
    OweAppend(s.pendingRemove, r.fills, Sweep(s.isSell, r.rest, r.left, limit).fills);
    Assoc(s.snapQueue, SweepViews(s.isSell, s.book, q, p), SweepViews(s.isSell, r.rest, r.left, limit));
  }

  // A crossing that has nothing to fill, or nothing to fill from, changes nothing.
  lemma CrossNothing(s: Side, q: Quantity, limit: Price)
    requires q <= 0 || !Crossed(s, limit)
    ensures Cross(s, q, limit) == s && Sweep(s.isSell, s.book, q, limit) == Swept([], s.book, q)
  {
    assert s.snapQueue + [] == s.snapQueue;
  }

  lemma SweepProgress(isSell: bool, b: seq<OrderV>, q: Quantity)
    requires Live(b) && b != [] && q > 0
    ensures 0 <= Sweep(isSell, b, q, b[0].price).left < q
  {
    if q >= b[0].Rem() {
      LeftBound(isSell, b[1..], q - b[0].Rem(), b[0].price);
    }
  }

  lemma {:induction false} LeftBound(isSell: bool, b: seq<OrderV>, q: Quantity, limit: Price)
    requires Live(b) && q >= 0
    ensures 0 <= Sweep(isSell, b, q, limit).left <= q
  {
    if q > 0 && b != [] && NoWorse(isSell, b[0].price, limit) && q >= b[0].Rem() {
      LeftBound(isSell, b[1..], q - b[0].Rem(), limit);
    }
  }

  // ---------- Erasing orders from the front ----------

  lemma IdsLength(z: seq<OrderV>)
    ensures |Ids(z)| == |z|
  {
  }

  lemma ExecNone(isSell: bool)
    ensures ExecEvents(isSell, []) == []
  {
  }

  lemma ExecAppend(isSell: bool, a: seq<Fill>, b: seq<Fill>)
    ensures ExecEvents(isSell, a + b) == ExecEvents(isSell, a) + ExecEvents(isSell, b)
  {
  }

  lemma DropViewsNone(b: seq<OrderV>)
    ensures DropViews(b, 0) == []
  {
  }

  // A crossing of q into s0 that has come as far as side s, with left still to fill.
  ghost predicate Crossing(isSell: bool, s0: Side, q: Quantity, limit: Price,
                           s: Side, left: Quantity, events: seq<OrderInfo>)
  {
    && s0.isSell == isSell && s.isSell == isSell
    && Cross(s0, q, limit) == Cross(s, left, limit)
    && Sweep(isSell, s0.book, q, limit).left == Sweep(isSell, s.book, left, limit).left
    && ExecEvents(isSell, Sweep(isSell, s0.book, q, limit).fills)
       == events + ExecEvents(isSell, Sweep(isSell, s.book, left, limit).fills)
  }

  lemma CrossingStart(isSell: bool, s: Side, q: Quantity, limit: Price)
    requires s.isSell == isSell
    ensures Crossing(isSell, s, q, limit, s, q, [])
  {
    var execs := ExecEvents(isSell, Sweep(isSell, s.book, q, limit).fills);
    assert [] + execs == execs;
  }

  lemma CrossingNext(isSell: bool, s0: Side, q: Quantity, limit: Price, s: Side, b: seq<OrderV>, left: Quantity,
                     events: seq<OrderInfo>)
    requires Crossing(isSell, s0, q, limit, s, left, events) && Crossed(s, limit) && b == s.book
    ensures b != []
    ensures var p := b[0].price;
            var r := Sweep(isSell, b, left, p);
            Crossing(isSell, s0, q, limit, Cross(s, left, p), r.left, events + ExecEvents(isSell, r.fills))
  {
    var p := s.book[0].price;
    var r := Sweep(isSell, s.book, left, p);
    CrossThrough(s, left, p, limit);
    CrossSideIs(s, left, p);
    hide Sweep, Cross, ExecEvents;
    var rest := Sweep(isSell, Cross(s, left, p).book, r.left, limit).fills;
    ExecAppend(isSell, r.fills, rest);
    Assoc(events, ExecEvents(isSell, r.fills), ExecEvents(isSell, rest));
  }

  lemma CrossSideIs(s: Side, q: Quantity, p: Price)
    ensures Cross(s, q, p).isSell == s.isSell
  {
  }

  lemma CrossingEnd(isSell: bool, s0: Side, b: seq<OrderV>, q: Quantity, limit: Price, s: Side, left: Quantity,
                    events: seq<OrderInfo>)
    requires Crossing(isSell, s0, q, limit, s, left, events) && (left <= 0 || !Crossed(s, limit)) && b == s0.book
    ensures s == Cross(s0, q, limit)
    ensures left == Sweep(isSell, b, q, limit).left
    ensures events == ExecEvents(isSell, Sweep(isSell, b, q, limit).fills)
  {
    CrossNothing(s, left, limit);
    assert events + [] == events;
  }

  lemma EraseStep(z: seq<OrderV>, rest: seq<OrderV>, j: nat)
    requires j < |z|
    ensures Remove(z[j..] + rest, Ids(z)[j]) == z[j + 1..] + rest
  {
    assert (z[j..] + rest)[1..] == z[j + 1..] + rest;
  }

  lemma DropViewsNext(z: seq<OrderV>, rest: seq<OrderV>, j: nat)
    requires j < |z|
    ensures DropViews(z + rest, j + 1) == DropViews(z + rest, j) + [L2View(z[j + 1..] + rest)]
  {
    hide L2View;
    assert (z + rest)[j + 1..] == z[j + 1..] + rest;
  }

  lemma DropViewsFirst(b: seq<OrderV>, n: nat)
    requires 0 < n <= |b|
    ensures DropViews(b, n) == [L2View(b[1..])] + DropViews(b[1..], n - 1)
  {
    hide L2View;
    var vs := [L2View(b[1..])] + DropViews(b[1..], n - 1);
    forall i | 0 <= i < n ensures DropViews(b, n)[i] == vs[i] {
      assert i > 0 ==> b[1..][i..] == b[i + 1..];
    }
  }

  lemma {:induction false} DropViewsAppend(b: seq<OrderV>, n: nat, m: nat)
    requires n + m <= |b|
    ensures DropViews(b, n + m) == DropViews(b, n) + DropViews(b[n..], m)
  {
    hide L2View;
    if n == 0 {
      assert b[0..] == b;
      assert DropViews(b, 0) == [];
    } else {
      DropViewsFirst(b, n + m);
      DropViewsFirst(b, n);
      DropViewsAppend(b[1..], n - 1, m);
      assert b[1..][n - 1..] == b[n..];
      Assoc([L2View(b[1..])], DropViews(b[1..], n - 1), DropViews(b[n..], m));
    }
  }

  lemma {:induction false} ExhaustedViews(z: seq<OrderV>, rest: seq<OrderV>, p: Price)
    requires Exhausted(z, p)
    ensures DropViews(z + rest, |z|) == EraseViews(p, rest, |z|)
  {
    hide L2View, ViewAfterFill;
    if z != [] {
      ExhaustedViews(z[1..], rest, p);
      assert (z + rest)[1..] == z[1..] + rest;
      DropViewsFirst(z + rest, |z|);
      if |z| == 1 {
        assert z[1..] + rest == rest;
        assert DropViews(z[1..] + rest, 0) == [];
      } else {
        ViewExhausted(z[1..], p, rest);
      }
    }
  }

  lemma {:induction false} BetterCountSkip(isSell: bool, b: seq<OrderV>, p: Price, n: nat)
    requires n <= |b| && forall o :: o in b[..n] ==> Better(isSell, o.price, p)
    ensures BetterCount(isSell, b, p) == n + BetterCount(isSell, b[n..], p)
  {
    if n == 0 {
      assert b[0..] == b;
    } else {
      assert b[0] in b[..n];
      forall o | o in b[1..][..n - 1] ensures Better(isSell, o.price, p) {
        assert b[1..][..n - 1] == b[..n][1..];
      }
      BetterCountSkip(isSell, b[1..], p, n - 1);
      assert b[1..][n - 1..] == b[n..];
    }
  }

  // Erasing a better front level first is part of erasing everything better.
  lemma DropLevel(s: Side, p: Price, n: nat)
    requires n <= |s.book| && forall o :: o in s.book[..n] ==> Better(s.isSell, o.price, p)
    ensures var s1 := s.(book := s.book[n..], snapQueue := s.snapQueue + DropViews(s.book, n));
            && DropBetter(s, p) == DropBetter(s1, p)
            && DropEvents(s, p) == CancelEvents(s.isSell, s.book[..n]) + DropEvents(s1, p)
  {
    hide DropViews, CancelEvents;
    BetterCountSkip(s.isSell, s.book, p, n);
    var m := BetterCount(s.isSell, s.book[n..], p);
    DropViewsAppend(s.book, n, m);
    Assoc(s.snapQueue, DropViews(s.book, n), DropViews(s.book[n..], m));
    assert s.book[n..][m..] == s.book[n + m..];
    CancelAppend(s.isSell, s.book, n, m);
  }

  lemma CancelAppend(isSell: bool, b: seq<OrderV>, n: nat, m: nat)
    requires n + m <= |b|
    ensures CancelEvents(isSell, b[..n + m]) == CancelEvents(isSell, b[..n]) + CancelEvents(isSell, b[n..][..m])
  {
    assert b[..n + m] == b[..n] + b[n..][..m];
  }

  // A trade, part by part.
  lemma TradeParts(isSell: bool, s: Side, t: Trade) returns (s1: Side, d: Side, open: Quantity)
    requires s.isSell == isSell
    ensures s1 == Settle(s, t.quantity, t.price) && d == DropBetter(s1, t.price)
    ensures open == t.quantity - RemoveMatched(s.pendingRemove, t.quantity, t.price)
    ensures ApplyTrade(s, t) == Expect(FillAt(d, open, t.price), Sweep(isSell, d.book, open, t.price).left, t.price)
    ensures TradeEvents(s, t)
         == DropEvents(s1, t.price) + ExecEvents(isSell, Sweep(isSell, d.book, open, t.price).fills)
            + GuessEvents(isSell, Sweep(isSell, d.book, open, t.price).left, t.price)
  {
    s1 := Settle(s, t.quantity, t.price);
    d := TradeFront(s, t);
    open := TradeOpen(s, t);
  }

  lemma MatchedBound(m: map<Price, Quantity>, q: Quantity, p: Price)
    requires q >= 0
    ensures RemoveMatched(m, q, p) <= q
  {
  }

  lemma DropNothing(s: Side, p: Price)
    requires s.book == [] || !Better(s.isSell, s.book[0].price, p)
    ensures DropBetter(s, p) == s && DropEvents(s, p) == []
  {
    assert s.snapQueue + [] == s.snapQueue;
    assert s.book[0..] == s.book;
    DropViewsNone(s.book);
  }

  lemma {:induction false} DropKeeps(s: Side, p: Price)
    requires Sorted(s.isSell, s.book) && UniqueIds(s.book) && Live(s.book)
    ensures var b := DropBetter(s, p).book;
            && Sorted(s.isSell, b) && UniqueIds(b) && Live(b)
            && (forall o :: o in b ==> o in s.book)
            && (b != [] ==> NoWorse(s.isSell, p, b[0].price))
  {
    SuffixKeeps(s.isSell, s.book, BetterCount(s.isSell, s.book, p));
    FirstNotBetter(s.isSell, s.book, p);
  }

  lemma {:induction false} FirstNotBetter(isSell: bool, b: seq<OrderV>, p: Price)
    ensures var n := BetterCount(isSell, b, p);
            n < |b| ==> NoWorse(isSell, p, b[n].price)
  {
    if b != [] { FirstNotBetter(isSell, b[1..], p); }
  }

  lemma {:induction false} SuffixKeeps(isSell: bool, b: seq<OrderV>, n: nat)
    requires n <= |b| && Sorted(isSell, b) && UniqueIds(b)
    ensures Sorted(isSell, b[n..]) && UniqueIds(b[n..])
  {
    if n == 0 {
      assert b[0..] == b;
    } else {
      SuffixKeeps(isSell, b[1..], n - 1);
      assert b[1..][n - 1..] == b[n..];
    }
  }

  // ---------- Pending quantities ----------

  lemma {:induction false} OweExecs(isSell: bool, m: map<Price, Quantity>, fills: seq<Fill>)
    ensures OweEvents(m, ExecEvents(isSell, fills)) == OweAll(m, fills)
    decreases |fills|
  {
    if fills != [] {
      OweExecs(isSell, Owe(m, fills[0].price, fills[0].quantity), fills[1..]);
      assert ExecEvents(isSell, fills)[1..] == ExecEvents(isSell, fills[1..]);
    }
  }

  lemma OweNone(m: map<Price, Quantity>)
    ensures OweAll(m, []) == m
  {
  }

  lemma {:induction false} OweAppend(m: map<Price, Quantity>, a: seq<Fill>, b: seq<Fill>)
    ensures OweAll(m, a + b) == OweAll(OweAll(m, a), b)
    decreases |a|
  {
    if a == [] {
      assert a + b == b;
    } else {
      assert (a + b)[1..] == a[1..] + b;
      OweAppend(Owe(m, a[0].price, a[0].quantity), a[1..], b);
    }
  }

  lemma {:induction false} CreditSorted(isSell: bool, m: seq<Row>, p: Price, q: Quantity)
    requires SortedRows(isSell, m)
    ensures SortedRows(isSell, Credit(isSell, m, p, q))
    ensures forall r :: r in Credit(isSell, m, p, q) ==> r.price == p || r in m
  {
    if m == [] || Better(isSell, p, m[0].price) {
      assert Credit(isSell, m, p, q)[1..] == m;
    } else if m[0].price == p {
      assert Credit(isSell, m, p, q)[1..] == m[1..];
    } else {
      CreditSorted(isSell, m[1..], p, q);
      assert Credit(isSell, m, p, q)[1..] == Credit(isSell, m[1..], p, q);
    }
  }
}
