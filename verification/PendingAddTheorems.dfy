// When the loop of matchPendingLiqAdd comes back, and with what (src/book_side.cpp:251-266).
module PendingAddTheorems {
  import opened Common
  import opened SideModel
  import opened PendingAdd

  // The state after n turns of the loop, or at its exit if that comes earlier.
  function After(e: Erase, isSell: bool, quantity: Quantity, price: Price, t: Turn, n: nat): Turn
    decreases n
  {
    if n == 0 || t.Exit? then t
    else After(e, isSell, quantity, price, OneTurn(e, isSell, t.m, t.matched, quantity, price), n - 1)
  }

  // While MatchAdd is Done, the loop leaves with its result...
  lemma {:induction false} LoopReturns(e: Erase, isSell: bool, m: seq<Row>, matched: Quantity, quantity: Quantity, price: Price)
    returns (n: nat)
    requires SortedRows(isSell, m) && MatchAdd(e, isSell, m, quantity - matched, price).Done?
    ensures var r := MatchAdd(e, isSell, m, quantity - matched, price);
            After(e, isSell, quantity, price, Next(m, matched), n) == Exit(r.left, r.matched + matched)
    decreases |m|
  {
    hide OneTurn, MatchAdd, SortedRows;
    TurnMeaning(e, isSell, m, matched, quantity, price);
    var t := OneTurn(e, isSell, m, matched, quantity, price);
    if t.Exit? {
      n := 1;
      assert After(e, isSell, quantity, price, t, 0) == t;
    } else {
      n := LoopReturns(e, isSell, t.m, t.matched, quantity, price);
      n := n + 1;
    }
  }

  // ... and when it is Stuck, no number of turns leaves the loop.
  lemma {:induction false} LoopNeverReturns(e: Erase, isSell: bool, m: seq<Row>, matched: Quantity, quantity: Quantity,
                                            price: Price, n: nat)
    requires SortedRows(isSell, m) && MatchAdd(e, isSell, m, quantity - matched, price).Stuck?
    ensures After(e, isSell, quantity, price, Next(m, matched), n).Next?
    decreases n
  {
    hide OneTurn, MatchAdd, SortedRows;
    if n > 0 {
      TurnMeaning(e, isSell, m, matched, quantity, price);
      var t := OneTurn(e, isSell, m, matched, quantity, price);
      LoopNeverReturns(e, isSell, t.m, t.matched, quantity, price, n - 1);
    }
  }

  // The loop, started on the whole map, comes back with this.
  ghost predicate LoopExits(e: Erase, isSell: bool, m: seq<Row>, quantity: Quantity, price: Price,
                            matched: Quantity, left: seq<Row>)
  {
    exists n: nat :: After(e, isSell, quantity, price, Next(m, 0), n) == Exit(left, matched)
  }

  // Once it is left, more turns make no difference.
  lemma {:induction false} Stays(e: Erase, isSell: bool, quantity: Quantity, price: Price, t: Turn, n: nat, k: nat)
    requires n <= k && After(e, isSell, quantity, price, t, n).Exit?
    ensures After(e, isSell, quantity, price, t, k) == After(e, isSell, quantity, price, t, n)
    decreases n
  {
    if n > 0 && t.Next? {
      Stays(e, isSell, quantity, price, OneTurn(e, isSell, t.m, t.matched, quantity, price), n - 1, k - 1);
    }
  }

  // MatchAdd is what the loop comes back with, if it does.
  lemma ExitsExactly(e: Erase, isSell: bool, m: seq<Row>, quantity: Quantity, price: Price, matched: Quantity, left: seq<Row>)
    requires SortedRows(isSell, m)
    ensures MatchAdd(e, isSell, m, quantity, price) == Done(matched, left)
       <==> LoopExits(e, isSell, m, quantity, price, matched, left)
  {
    hide OneTurn, MatchAdd, SortedRows, After;
    if MatchAdd(e, isSell, m, quantity, price).Done? {
      var k := LoopReturns(e, isSell, m, 0, quantity, price);
      forall n: nat | After(e, isSell, quantity, price, Next(m, 0), n) == Exit(left, matched)
        ensures MatchAdd(e, isSell, m, quantity, price) == Done(matched, left)
      {
        if n <= k {
          Stays(e, isSell, quantity, price, Next(m, 0), n, k);
        } else {
          Stays(e, isSell, quantity, price, Next(m, 0), k, n);
        }
      }
    } else {
      forall n: nat ensures After(e, isSell, quantity, price, Next(m, 0), n).Next? {
        LoopNeverReturns(e, isSell, m, 0, quantity, price, n);
      }
    }
  }

  // The loop as written comes back if and only if the first entry it cannot erase (any
  // entry whose key is not the order's own price) covers what is still to be matched.
  lemma ReturnsExactly(isSell: bool, m: seq<Row>, quantity: Quantity, price: Price)
    requires SortedRows(isSell, m) && NonNegative(m) && quantity >= 0
    ensures (exists n: nat :: After(AsWritten, isSell, quantity, price, Next(m, 0), n).Exit?)
        <==> (m == []
              || !NoWorse(isSell, price, m[0].price)
              || quantity <= m[0].quantity
              || (m[0].price == price && (|m| == 1 || quantity - m[0].quantity <= m[1].quantity)))
  {
    DoneExactly(isSell, m, quantity, price);
    hide OneTurn, MatchAdd, SortedRows, After;
    if MatchAdd(AsWritten, isSell, m, quantity, price).Done? {
      var n := LoopReturns(AsWritten, isSell, m, 0, quantity, price);
      assert After(AsWritten, isSell, quantity, price, Next(m, 0), n).Exit?;
    } else {
      forall n: nat ensures After(AsWritten, isSell, quantity, price, Next(m, 0), n).Next? {
        LoopNeverReturns(AsWritten, isSell, m, 0, quantity, price, n);
      }
    }
  }

  lemma DoneExactly(isSell: bool, m: seq<Row>, quantity: Quantity, price: Price)
    requires SortedRows(isSell, m) && NonNegative(m) && quantity >= 0
    ensures MatchAdd(AsWritten, isSell, m, quantity, price).Done?
        <==> (m == []
              || !NoWorse(isSell, price, m[0].price)
              || quantity <= m[0].quantity
              || (m[0].price == price && (|m| == 1 || quantity - m[0].quantity <= m[1].quantity)))
  {
    if m != [] {
      assert m[0] in m;
      if |m| > 1 { assert m[1..][0] == m[1] && m[1] in m[1..]; }
    }
  }

  // What it then comes back with: the first entry goes only if it is drained and its key is
  // the order's price; any other drained entry stays, with quantity zero.
  lemma WrittenLeaves(isSell: bool, m: seq<Row>, quantity: Quantity, price: Price, matched: Quantity, left: seq<Row>)
    requires SortedRows(isSell, m) && NonNegative(m) && quantity >= 0 && m != [] && NoWorse(isSell, price, m[0].price)
    requires LoopExits(AsWritten, isSell, m, quantity, price, matched, left)
    ensures if m[0].price == price && quantity >= m[0].quantity then
              if quantity == m[0].quantity then matched == quantity && left == m[1..]
              else if |m| == 1 then matched == m[0].quantity && left == []
              else matched == quantity && left == [Row(m[1].price, m[1].quantity - (quantity - m[0].quantity))] + m[2..]
            else matched == quantity && left == [Row(m[0].price, m[0].quantity - quantity)] + m[1..]
  {
    hide OneTurn, SortedRows, LoopExits, After;
    ExitsExactly(AsWritten, isSell, m, quantity, price, matched, left);
    DoneExactly(isSell, m, quantity, price);
    FirstTwo(isSell, m);
  }

  lemma FirstTwo(isSell: bool, m: seq<Row>)
    requires SortedRows(isSell, m) && NonNegative(m) && m != []
    ensures m[0].quantity >= 0
    ensures |m| > 1 ==> m[1].quantity >= 0 && Better(isSell, m[0].price, m[1].price) && m[1..][0] == m[1] && m[1..][1..] == m[2..]
  {
    assert m[0] in m;
    if |m| > 1 { assert m[1] in m && m[1..][0] == m[1] && m[1] in m[1..]; }
  }

  // An input on which it never comes back: 10 expected at 100, an order for 20 at 101.
  lemma HangExample(n: nat)
    ensures After(AsWritten, false, 20, 101.0, Next([Row(100.0, 10)], 0), n).Next?
  {
    assert [Row(100.0, 10)][1..] == [];
    LoopNeverReturns(AsWritten, false, [Row(100.0, 10)], 0, 20, 101.0, n);
  }

  // ---------- The repaired loop ----------

  function RowTotal(m: seq<Row>): Quantity {
    if m == [] then 0 else m[0].quantity + RowTotal(m[1..])
  }

  // With the drained entry's own key erased the loop always comes back. An order that is
  // good enough for the best entry is good enough for all: the map is drained best first,
  // and no entry is left at zero.
  lemma RepairedDrains(isSell: bool, m: seq<Row>, quantity: Quantity, price: Price)
    requires SortedRows(isSell, m) && Positive(m) && quantity >= 0
    ensures var r := MatchAdd(Repaired, isSell, m, quantity, price);
            && r.Done?
            && r.matched == (if m != [] && NoWorse(isSell, price, m[0].price) then Min(quantity, RowTotal(m)) else 0)
            && RowTotal(r.left) == RowTotal(m) - r.matched
            && Positive(r.left)
            && DrainedFrom(m, r.left)
  {
    if m != [] && NoWorse(isSell, price, m[0].price) {
      forall r | r in m ensures NoWorse(isSell, price, r.price) {
        assert r == m[0] || r in m[1..];
      }
      DrainTotals(isSell, m, quantity, price);
      DrainFront(isSell, m, quantity, price);
    } else {
      DrainedSelf(m);
    }
  }

  lemma {:induction false} DrainTotals(isSell: bool, m: seq<Row>, quantity: Quantity, price: Price)
    requires Positive(m) && quantity >= 0 && forall r :: r in m ==> NoWorse(isSell, price, r.price)
    ensures var r := MatchAdd(Repaired, isSell, m, quantity, price);
            && r.Done?
            && r.matched == Min(quantity, RowTotal(m))
            && RowTotal(r.left) == RowTotal(m) - r.matched
  {
    if m != [] {
      assert m[0] in m;
      assert Positive(m[1..]);
      RowTotalPositive(m[1..]);
      if quantity > m[0].quantity {
        DrainTotals(isSell, m[1..], quantity - m[0].quantity, price);
      } else if quantity < m[0].quantity {
        assert ([Row(m[0].price, m[0].quantity - quantity)] + m[1..])[1..] == m[1..];
      }
    }
  }

  lemma {:induction false} DrainFront(isSell: bool, m: seq<Row>, quantity: Quantity, price: Price)
    requires Positive(m) && quantity >= 0 && forall r :: r in m ==> NoWorse(isSell, price, r.price)
    ensures var r := MatchAdd(Repaired, isSell, m, quantity, price);
            r.Done? && Positive(r.left) && DrainedFrom(m, r.left)
  {
    if m != [] {
      assert m[0] in m;
      assert Positive(m[1..]);
      if quantity > m[0].quantity {
        DrainFront(isSell, m[1..], quantity - m[0].quantity, price);
        hide DrainedFrom;
        DrainedMore(m, MatchAdd(Repaired, isSell, m[1..], quantity - m[0].quantity, price).left);
      } else if quantity == m[0].quantity {
        DrainedSelf(m[1..]);
        DrainedMore(m, m[1..]);
      } else {
        var left := [Row(m[0].price, m[0].quantity - quantity)] + m[1..];
        assert left[1..] == m[1..];
      }
    }
  }

  // left is what remains of m when entries are taken from its front, the last one in part.
  ghost predicate DrainedFrom(m: seq<Row>, left: seq<Row>) {
    && |left| <= |m|
    && (left != [] ==>
          var k := |m| - |left|;
          left[1..] == m[k + 1..] && left[0].price == m[k].price && left[0].quantity <= m[k].quantity)
  }

  lemma DrainedSelf(m: seq<Row>)
    ensures DrainedFrom(m, m)
  {
  }

  lemma DrainedMore(m: seq<Row>, left: seq<Row>)
    requires m != [] && DrainedFrom(m[1..], left)
    ensures DrainedFrom(m, left)
  {
    if left != [] {
      assert m[1..][|m| - |left|..] == m[|m| - |left| + 1..];
    }
  }

  lemma {:induction false} RowTotalPositive(m: seq<Row>)
    requires Positive(m)
    ensures RowTotal(m) >= 0
  {
    if m != [] {
      assert m[0] in m;
      RowTotalPositive(m[1..]);
    }
  }

  // Where the loop as written does what the repaired one does: only the first entry may be
  // drained, and only if its key is the order's price.
  lemma {:induction false} AgreesExactly(isSell: bool, m: seq<Row>, quantity: Quantity, price: Price)
    requires SortedRows(isSell, m) && Positive(m) && quantity > 0
    ensures MatchAdd(AsWritten, isSell, m, quantity, price) == MatchAdd(Repaired, isSell, m, quantity, price)
        <==> (m == []
              || !NoWorse(isSell, price, m[0].price)
              || quantity < m[0].quantity
              || (m[0].price == price
                  && (quantity == m[0].quantity || |m| == 1 || quantity - m[0].quantity < m[1].quantity)))
  {
    RepairedDrains(isSell, m, quantity, price);
    if m != [] {
      assert m[0] in m && m[0].quantity > 0;
      if |m| > 1 {
        assert m[1..][0] == m[1] && m[1] in m[1..] && m[1] in m;
        assert m[1..][1..] == m[2..];
      }
    }
  }

  // ---------- Both loops conserve what is expected ----------

  lemma {:induction false} MatchConserves(e: Erase, isSell: bool, m: seq<Row>, quantity: Quantity, price: Price)
    requires MatchAdd(e, isSell, m, quantity, price).Done?
    ensures var r := MatchAdd(e, isSell, m, quantity, price);
            RowTotal(r.left) == RowTotal(m) - r.matched
  {
    if m != [] && NoWorse(isSell, price, m[0].price) {
      var cur := Min(m[0].quantity, quantity);
      if cur == m[0].quantity && (e.Repaired? || m[0].price == price) {
        if cur != quantity { MatchConserves(e, isSell, m[1..], quantity - cur, price); }
      } else {
        assert ([Row(m[0].price, m[0].quantity - cur)] + m[1..])[1..] == m[1..];
      }
    }
  }

  // The loop as written never erases a key that is not the order's price.
  lemma {:induction false} KeysStay(isSell: bool, m: seq<Row>, quantity: Quantity, price: Price, key: Price)
    requires MatchAdd(AsWritten, isSell, m, quantity, price).Done? && key != price
    requires exists r :: r in m && r.price == key
    ensures exists r :: r in MatchAdd(AsWritten, isSell, m, quantity, price).left && r.price == key
  {
    var r0 :| r0 in m && r0.price == key;
    if m != [] && NoWorse(isSell, price, m[0].price) {
      var cur := Min(m[0].quantity, quantity);
      var left := MatchAdd(AsWritten, isSell, m, quantity, price).left;
      if cur == m[0].quantity && m[0].price == price {
        assert r0 in m[1..];
        if cur != quantity { KeysStay(isSell, m[1..], quantity - cur, price, key); }
      } else if r0 == m[0] {
        assert left[0] in left;
      } else {
        assert r0 in m[1..] && r0 in left;
      }
    }
  }
}
