// The loop of matchPendingLiqAdd (src/book_side.cpp:251-266), one turn at a time. With
// the key the source erases the loop may never come back; here is exactly when.
module PendingAdd {
  import opened Common
  import opened SideModel

  datatype Turn = Next(m: seq<Row>, matched: Quantity) | Exit(m: seq<Row>, matched: Quantity)

  // What one turn of the loop does to the map and the running total.
  function OneTurn(e: Erase, isSell: bool, m: seq<Row>, matched: Quantity, quantity: Quantity, price: Price): Turn {
    if m == [] || !NoWorse(isSell, price, m[0].price) then Exit(m, matched)
    else
      var cur := Min(m[0].quantity, quantity - matched);
      var m1 := [Row(m[0].price, m[0].quantity - cur)] + m[1..];
      var m2 := if m1[0].quantity == 0 then EraseKey(m1, if e.Repaired? then m[0].price else price) else m1;
      if matched + cur == quantity then Exit(m2, matched + cur) else Next(m2, matched + cur)
  }

  lemma {:induction false} EraseWorse(isSell: bool, m: seq<Row>, p: Price)
    requires forall r :: r in m ==> Better(isSell, p, r.price)
    ensures EraseKey(m, p) == m
  {
    if m != [] { EraseWorse(isSell, m[1..], p); }
  }

  // What a turn leaves of the map: the drained entry goes only if the erased key is its own.
  lemma TurnMap(e: Erase, isSell: bool, m: seq<Row>, matched: Quantity, quantity: Quantity, price: Price)
    requires SortedRows(isSell, m) && m != [] && NoWorse(isSell, price, m[0].price)
    ensures var cur := Min(m[0].quantity, quantity - matched);
            var t := OneTurn(e, isSell, m, matched, quantity, price);
            && t.matched == matched + cur
            && t.m == (if cur == m[0].quantity && (e.Repaired? || m[0].price == price) then m[1..]
                       else [Row(m[0].price, m[0].quantity - cur)] + m[1..])
            && SortedRows(isSell, t.m)
  {
    var cur := Min(m[0].quantity, quantity - matched);
    var m1 := [Row(m[0].price, m[0].quantity - cur)] + m[1..];
    assert m1[1..] == m[1..];
    if m[0].price != price {
      EraseWorse(isSell, m1, price);
    }
  }

  // One turn keeps what the loop will return, and while that is defined, turns make progress.
  lemma TurnMeaning(e: Erase, isSell: bool, m: seq<Row>, matched: Quantity, quantity: Quantity, price: Price)
    requires SortedRows(isSell, m)
    ensures var t := OneTurn(e, isSell, m, matched, quantity, price);
            var r := MatchAdd(e, isSell, m, quantity - matched, price);
            && SortedRows(isSell, t.m)
            && (t.Exit? ==> r.Plus(matched) == Done(t.matched, t.m))
            && (t.Next? ==> r.Plus(matched) == MatchAdd(e, isSell, t.m, quantity - t.matched, price).Plus(t.matched))
            && (t.Next? && r.Done? ==> |t.m| < |m|)
  {
    hide SortedRows;
    if m != [] && NoWorse(isSell, price, m[0].price) {
      TurnMap(e, isSell, m, matched, quantity, price);
      var cur := Min(m[0].quantity, quantity - matched);
      if cur != quantity - matched && !(e.Repaired? || m[0].price == price) {
        assert [Row(m[0].price, m[0].quantity - cur)][0].quantity == 0;
      }
    }
  }
}
