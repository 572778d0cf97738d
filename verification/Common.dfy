// The value types every component of the order book shares (src/include/common.h,
// level.h, trade.h, message.h). A price is a totally ordered number, a quantity an
// unbounded integer.
module Common {
  type Price = real
  type Quantity = int
  type OrderId = int

  datatype OrderEvent = ADD | CANCEL | EXEC | MODIF

  datatype OrderInfo =
    OrderInfo(event: OrderEvent, odid: OrderId, isSell: bool, quantity: Quantity, price: Price)

  // A price with a quantity: one level of an L2 snapshot, or one entry of the
  // ordered map of pending added liquidity.
  datatype Row = Row(price: Price, quantity: Quantity)

  datatype Trade = Trade(quantity: Quantity, price: Price)

  // The comparator of a side: asks ascend, bids descend.
  predicate Better(isSell: bool, p: Price, q: Price) {
    if isSell then p < q else p > q
  }

  predicate NoWorse(isSell: bool, p: Price, q: Price) {
    if isSell then p <= q else p >= q
  }

  function Min(a: int, b: int): int {
    if a <= b then a else b
  }
}
