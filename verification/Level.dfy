// L3 price levels (src/level.cpp, src/include/level.h).
module Level {
  import opened Common
  import opened SideModel
  import opened ListLemmas

  class L3PriceLevel {
    var price: Price
    var quantity: Quantity
    var numOrders: int
    var orders: seq<OrderV>

    // The cached totals agree with the queue.
    ghost predicate Valid()
      reads this
    {
      && quantity == Sum(orders)
      && numOrders == |orders|
      && UniqueIds(orders)
    }

    constructor ()
      ensures Valid() && orders == []
    {
      price, quantity, numOrders, orders := 0.0, 0, 0, [];
    }

    method AddOrder(order: OrderV)
      requires Valid() && !Has(orders, order.id)
      modifies this
      ensures Valid() && price == order.price && orders == old(orders) + [order]
    {
      SumBack(orders, order);
      UniqueBack(orders, order);
      quantity := quantity + order.Rem();
      price := order.price;
      numOrders := numOrders + 1;
      orders := orders + [order];
    }

    method RemoveOrder(id: OrderId)
      requires Valid() && Has(orders, id)
      modifies this
      ensures Valid() && price == old(price) && orders == Remove(old(orders), id)
    {
      SumRemove(orders, id);
      RemoveKeeps(orders, id);
      quantity := quantity - Find(orders, id).Rem();
      numOrders := numOrders - 1;
      orders := Remove(orders, id);
    }

    method ModifyOrder(id: OrderId, newQuantity: Quantity)
      requires Valid() && Has(orders, id)
      modifies this
      ensures Valid() && price == old(price)
      ensures orders == Replace(old(orders), Find(old(orders), id).(quantity := newQuantity))
    {
      var order := Find(orders, id);
      SumReplace(orders, order.(quantity := newQuantity));
      ReplaceKeeps(orders, order.(quantity := newQuantity));
      quantity := quantity + newQuantity - order.quantity;
      orders := Replace(orders, order.(quantity := newQuantity));
    }

    method FillOrder(id: OrderId, qty: Quantity)
      requires Valid() && Has(orders, id) && qty <= Find(orders, id).Rem()
      modifies this
      ensures Valid() && price == old(price)
      ensures orders == Replace(old(orders), Find(old(orders), id).Take(qty))
    {
      var order := Find(orders, id);
      SumReplace(orders, order.Take(qty));
      ReplaceKeeps(orders, order.Take(qty));
      orders := Replace(orders, order.Take(qty));
      quantity := quantity - qty;
    }
  }
}
