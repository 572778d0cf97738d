// A cancellation, described without saying how it is done (src/book_side.cpp:93-102,
// src/order_book.cpp:33-38).
module Cancellations {
  import opened Common
  import opened SideModel
  import opened BookModel
  import opened Determined

  // The order with the id is gone, and all others are where they were.
  ghost predicate TakenOut(b: seq<OrderV>, id: OrderId, b': seq<OrderV>) {
    exists i :: 0 <= i < |b| && b[i].id == id && b' == b[..i] + b[i + 1..]
  }

  // The debt at the price is settled first, whatever becomes of the order. The order goes if
  // and only if it rests and something is left to cancel, and what is left is reported.
  ghost predicate CancelOutcome(s: Side, id: OrderId, q: Quantity, price: Price, s': Side, events: seq<OrderInfo>) {
    var settled := Min(Get(s.pendingRemove, price), q);
    var gone := Has(s.book, id) && Get(s.pendingRemove, price) < q;
    && s' == s.(book := s'.book, pendingRemove := s'.pendingRemove)
    && DebtsFall(s.pendingRemove, s'.pendingRemove, price, settled)
    && (if gone then TakenOut(s.book, id, s'.book) else s'.book == s.book)
    && events == (if gone then [OrderInfo(CANCEL, id, s.isSell, q - settled, price)] else [])
  }

  lemma {:induction false} TakenAt(b: seq<OrderV>, id: OrderId, i: nat)
    requires UniqueIds(b) && i < |b| && b[i].id == id
    ensures Remove(b, id) == b[..i] + b[i + 1..]
  {
    if i > 0 {
      HasAt(b[1..], i - 1);
      TakenAt(b[1..], id, i - 1);
      assert b[..i] == [b[0]] + b[1..][..i - 1] && b[1..][i..] == b[i + 1..];
    }
  }

  lemma {:induction false} HasAt(b: seq<OrderV>, i: nat)
    requires i < |b|
    ensures Has(b, b[i].id)
  {
    if i > 0 { HasAt(b[1..], i - 1); }
  }

  lemma {:induction false} PlaceOf(b: seq<OrderV>, id: OrderId) returns (i: nat)
    requires Has(b, id)
    ensures i < |b| && b[i] == Find(b, id)
  {
    if b[0].id == id {
      i := 0;
    } else {
      i := PlaceOf(b[1..], id);
      i := i + 1;
    }
  }

  lemma TakenExactly(b: seq<OrderV>, id: OrderId, b': seq<OrderV>)
    requires UniqueIds(b) && Has(b, id)
    ensures b' == Remove(b, id) <==> TakenOut(b, id, b')
  {
    var i := PlaceOf(b, id);
    TakenAt(b, id, i);
    if TakenOut(b, id, b') {
      var j :| 0 <= j < |b| && b[j].id == id && b' == b[..j] + b[j + 1..];
      TakenAt(b, id, j);
    }
  }

  // The cancellation of a side has this outcome and no other.
  lemma CancelExactly(s: Side, id: OrderId, q: Quantity, price: Price, s': Side, events: seq<OrderInfo>)
    requires Wf(s) && q >= 0
    ensures (s', events) == Cancel(s, id, q, price) <==> CancelOutcome(s, id, q, price, s', events)
  {
    hide Wf, Sorted, UniqueIds, Live, SortedRows, Canonical, RemoveMatched, RemoveLeft, TakenOut, DebtsFall, Get, Remove, Has;
    Sound(s);
    SettledExactly(s.pendingRemove, s'.pendingRemove, q, price);
    if Has(s.book, id) { TakenExactly(s.book, id, s'.book); }
  }

  // In the book, the other side stays as it is.
  lemma CancelBookExactly(b: Book, isSell: bool, id: OrderId, q: Quantity, price: Price, b': Book, events: seq<OrderInfo>)
    requires WfBook(b) && q >= 0
    ensures (b', events) == ProcessCancel(b, isSell, id, q, price)
       <==> b'.Get(!isSell) == b.Get(!isSell)
            && CancelOutcome(b.Get(isSell), id, q, price, b'.Get(isSell), events)
  {
    hide Wf, Cancel, CancelOutcome;
    CancelExactly(b.Get(isSell), id, q, price, b'.Get(isSell), events);
  }
}
