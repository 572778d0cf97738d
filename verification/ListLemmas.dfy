// How the list functions of SideModel act on lookups, levels and order.
module ListLemmas {
  import opened Common
  import opened SideModel

  lemma {:induction false} InsertKeeps(isSell: bool, b: seq<OrderV>, o: OrderV)
    requires !Has(b, o.id)
    ensures forall id :: Has(Insert(isSell, b, o), id) <==> Has(b, id) || id == o.id
    ensures forall id :: Has(Insert(isSell, b, o), id) ==>
              Find(Insert(isSell, b, o), id) == if id == o.id then o else Find(b, id)
    ensures UniqueIds(b) ==> UniqueIds(Insert(isSell, b, o))
  {
    if b == [] || Better(isSell, o.price, b[0].price) {
      assert ([o] + b)[1..] == b;
    } else {
      InsertKeeps(isSell, b[1..], o);
      assert Insert(isSell, b, o)[1..] == Insert(isSell, b[1..], o);
    }
  }

  lemma {:induction false} InsertSorted(isSell: bool, b: seq<OrderV>, o: OrderV)
    ensures forall x :: x in Insert(isSell, b, o) <==> x in b || x == o
    ensures Sorted(isSell, b) ==> Sorted(isSell, Insert(isSell, b, o))
  {
    if b == [] || Better(isSell, o.price, b[0].price) {
      assert ([o] + b)[1..] == b;
    } else {
      InsertSorted(isSell, b[1..], o);
      assert Insert(isSell, b, o)[1..] == Insert(isSell, b[1..], o);
    }
  }

  lemma {:induction false} InAtPrice(b: seq<OrderV>, p: Price)
    ensures forall o :: o in AtPrice(b, p) <==> o in b && o.price == p
  {
    if b != [] { InAtPrice(b[1..], p); }
  }

  lemma {:induction false} InsertAtPrice(isSell: bool, b: seq<OrderV>, o: OrderV, p: Price)
    requires Sorted(isSell, b)
    ensures AtPrice(Insert(isSell, b, o), p) == AtPrice(b, p) + (if p == o.price then [o] else [])
  {
    if b == [] || Better(isSell, o.price, b[0].price) {
      assert ([o] + b)[1..] == b;
      InAtPrice(b, p);
      assert p == o.price && AtPrice(b, p) != [] ==> AtPrice(b, p)[0] in AtPrice(b, p);
    } else {
      InsertAtPrice(isSell, b[1..], o, p);
      assert Insert(isSell, b, o)[1..] == Insert(isSell, b[1..], o);
    }
  }

  lemma {:induction false} RemoveKeeps(b: seq<OrderV>, id: OrderId)
    requires UniqueIds(b)
    ensures forall x :: Has(Remove(b, id), x) <==> Has(b, x) && x != id
    ensures forall x :: Has(Remove(b, id), x) ==> Find(Remove(b, id), x) == Find(b, x)
    ensures UniqueIds(Remove(b, id))
    ensures |Remove(b, id)| == if Has(b, id) then |b| - 1 else |b|
  {
    if b != [] && b[0].id != id {
      RemoveKeeps(b[1..], id);
      assert Remove(b, id)[1..] == Remove(b[1..], id);
    }
  }

  lemma {:induction false} RemoveSorted(isSell: bool, b: seq<OrderV>, id: OrderId)
    ensures forall x :: x in Remove(b, id) ==> x in b
    ensures Sorted(isSell, b) ==> Sorted(isSell, Remove(b, id))
  {
    if b != [] && b[0].id != id {
      RemoveSorted(isSell, b[1..], id);
      assert Remove(b, id)[1..] == Remove(b[1..], id);
    }
  }

  lemma {:induction false} RemoveAtPrice(b: seq<OrderV>, id: OrderId, p: Price)
    requires UniqueIds(b) && Has(b, id)
    ensures AtPrice(Remove(b, id), p)
         == if p == Find(b, id).price then Remove(AtPrice(b, p), id) else AtPrice(b, p)
  {
    if b[0].id != id {
      RemoveAtPrice(b[1..], id, p);
      assert Remove(b, id)[1..] == Remove(b[1..], id);
    }
  }

  lemma {:induction false} ReplaceKeeps(b: seq<OrderV>, o: OrderV)
    requires Has(b, o.id)
    ensures forall x :: Has(Replace(b, o), x) <==> Has(b, x)
    ensures forall x :: Has(b, x) ==> Find(Replace(b, o), x) == if x == o.id then o else Find(b, x)
    ensures UniqueIds(b) ==> UniqueIds(Replace(b, o))
    ensures |Replace(b, o)| == |b|
  {
    if b[0].id == o.id {
      assert Replace(b, o)[1..] == b[1..];
    } else {
      ReplaceKeeps(b[1..], o);
      assert Replace(b, o)[1..] == Replace(b[1..], o);
    }
  }

  lemma {:induction false} ReplaceLength(b: seq<OrderV>, o: OrderV)
    ensures |Replace(b, o)| == |b|
  {
    if b != [] && b[0].id != o.id { ReplaceLength(b[1..], o); }
  }

  lemma {:induction false} ReplaceSorted(isSell: bool, b: seq<OrderV>, o: OrderV)
    requires Has(b, o.id) && Find(b, o.id).price == o.price
    ensures forall x :: x in Replace(b, o) ==> x in b || x == o
    ensures Sorted(isSell, b) ==> Sorted(isSell, Replace(b, o))
  {
    if b[0].id == o.id {
      assert Replace(b, o)[1..] == b[1..];
    } else {
      ReplaceSorted(isSell, b[1..], o);
      assert Replace(b, o)[1..] == Replace(b[1..], o);
      if Sorted(isSell, b) {
        forall x | x in Replace(b[1..], o) ensures NoWorse(isSell, b[0].price, x.price) {
          assert Find(b[1..], o.id) in b[1..];
        }
      }
    }
  }

  lemma {:induction false} ReplaceAtPrice(b: seq<OrderV>, o: OrderV, p: Price)
    requires Has(b, o.id) && Find(b, o.id).price == o.price
    ensures AtPrice(Replace(b, o), p) == if p == o.price then Replace(AtPrice(b, p), o) else AtPrice(b, p)
  {
    if b[0].id == o.id {
      assert Replace(b, o)[1..] == b[1..];
    } else {
      ReplaceAtPrice(b[1..], o, p);
      assert Replace(b, o)[1..] == Replace(b[1..], o);
    }
  }

  lemma {:induction false} RemoveAbsent(b: seq<OrderV>, id: OrderId)
    requires !Has(b, id)
    ensures Remove(b, id) == b
  {
    if b != [] { RemoveAbsent(b[1..], id); }
  }

  // ---------- The front of a sorted list ----------

  // The best level is a prefix of the list, and what follows is strictly worse.
  lemma {:induction false} FrontLevel(isSell: bool, b: seq<OrderV>) returns (n: nat)
    requires b != [] && Sorted(isSell, b)
    ensures 0 < n <= |b| && AtPrice(b, b[0].price) == b[..n]
    ensures forall o :: o in b[n..] ==> Better(isSell, b[0].price, o.price)
    ensures Sorted(isSell, b[n..])
  {
    if |b| > 1 && b[1].price == b[0].price {
      n := FrontLevel(isSell, b[1..]);
      n := n + 1;
      assert b[1..][n - 1..] == b[n..] && b[..n] == [b[0]] + b[1..][..n - 1];
    } else {
      n := 1;
      if |b| > 1 {
        forall o | o in b[1..] ensures Better(isSell, b[0].price, o.price) {
          assert b[1..][0] == b[1] && b[1] in b[1..];
          assert o == b[1] || o in b[1..][1..];
        }
      }
      NoneAtPrice(b[1..], b[0].price);
    }
  }

  lemma {:induction false} NoneAtPrice(b: seq<OrderV>, p: Price)
    requires forall o :: o in b ==> o.price != p
    ensures AtPrice(b, p) == []
  {
    if b != [] { NoneAtPrice(b[1..], p); }
  }

  lemma {:induction false} AllAtPrice(b: seq<OrderV>, p: Price)
    requires forall o :: o in b ==> o.price == p
    ensures AtPrice(b, p) == b
  {
    if b != [] { AllAtPrice(b[1..], p); }
  }

  lemma {:induction false} AtPriceAppend(a: seq<OrderV>, b: seq<OrderV>, p: Price)
    ensures AtPrice(a + b, p) == AtPrice(a, p) + AtPrice(b, p)
  {
    if a == [] {
      assert a + b == b;
    } else {
      assert (a + b)[1..] == a[1..] + b;
      AtPriceAppend(a[1..], b, p);
    }
  }

  lemma Assoc<T>(a: seq<T>, b: seq<T>, c: seq<T>)
    ensures a + b + c == a + (b + c)
  {
  }

  // A sequence is a prefix and the rest.
  lemma Parts<T>(s: seq<T>, a: seq<T>, b: seq<T>)
    ensures s == a + b <==> |s| >= |a| && s[..|a|] == a && s[|a|..] == b
  {
    if |s| >= |a| { assert s == s[..|a|] + s[|a|..]; }
  }

  // ---------- Totals ----------

  lemma {:induction false} SumBack(b: seq<OrderV>, o: OrderV)
    ensures Sum(b + [o]) == Sum(b) + o.Rem()
  {
    if b == [] {
      assert b + [o] == [o];
    } else {
      SumBack(b[1..], o);
      assert (b + [o])[1..] == b[1..] + [o];
    }
  }

  lemma {:induction false} UniqueBack(b: seq<OrderV>, o: OrderV)
    requires UniqueIds(b) && !Has(b, o.id)
    ensures UniqueIds(b + [o])
    ensures forall id :: Has(b + [o], id) <==> Has(b, id) || id == o.id
  {
    if b == [] {
      assert b + [o] == [o];
    } else {
      UniqueBack(b[1..], o);
      assert (b + [o])[1..] == b[1..] + [o];
    }
  }

  lemma {:induction false} SumRemove(b: seq<OrderV>, id: OrderId)
    requires Has(b, id)
    ensures Sum(Remove(b, id)) == Sum(b) - Find(b, id).Rem()
  {
    if b[0].id != id {
      SumRemove(b[1..], id);
      assert Remove(b, id)[1..] == Remove(b[1..], id);
    }
  }

  lemma {:induction false} SumReplace(b: seq<OrderV>, o: OrderV)
    requires Has(b, o.id)
    ensures Sum(Replace(b, o)) == Sum(b) - Find(b, o.id).Rem() + o.Rem()
  {
    if b[0].id == o.id {
      assert Replace(b, o)[1..] == b[1..];
    } else {
      SumReplace(b[1..], o);
      assert Replace(b, o)[1..] == Replace(b[1..], o);
    }
  }

  // ---------- Views ----------

  // A view starts at the price of the first order, and is empty only for an empty list.
  lemma ViewHead(b: seq<OrderV>)
    ensures L2View(b) == [] <==> b == []
    ensures b != [] ==> L2View(b)[0].price == b[0].price
  {
  }

  // Exhausted orders in front of their level add nothing to its row.
  lemma {:induction false} ViewExhausted(z: seq<OrderV>, p: Price, rest: seq<OrderV>)
    requires z != [] && forall i :: 0 <= i < |z| ==> z[i].price == p && z[i].Rem() == 0
    ensures L2View(z + rest) == ViewAfterFill(p, rest)
  {
    assert (z + rest)[1..] == z[1..] + rest;
    ViewHead(rest);
    if |z| == 1 {
      assert z[1..] + rest == rest;
    } else {
      ViewExhausted(z[1..], p, rest);
    }
  }

  // A level in front of other prices contributes exactly one row.
  lemma {:induction false} ViewLevel(a: seq<OrderV>, p: Price, b: seq<OrderV>)
    requires a != [] && forall o :: o in a ==> o.price == p
    requires b == [] || b[0].price != p
    ensures L2View(a + b) == [Row(p, Sum(a))] + L2View(b)
  {
    assert (a + b)[1..] == a[1..] + b;
    if |a| == 1 {
      assert a[1..] + b == b;
      ViewHead(b);
    } else {
      ViewLevel(a[1..], p, b);
    }
  }
}
