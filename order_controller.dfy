/**
 * The order handlers of src/controllers/order.controller.ts that put
 * entities on a ladder, move them along it, or remove them. The caller's
 * verified `sub` is given; HTTP responses are reduced to an outcome per
 * handler whose `Code()` is the status the handler sends.
 */
module OrderController {
  import opened Wrappers
  import opened Models
  import opened Store
  import U = UtilsService

  /** The order belongs to a stored user whose `sub` is the caller's. */
  predicate OwnedBy(users: seq<Row<User>>, order: Order, sub: string) {
    exists u :: u in users && u.id == order.userId && u.value.sub == sub
  }

  /** The order with key `orderId`, provided its user carries the caller's `sub`. */
  function FindOwnedOrder(orders: Table<Order>, users: Table<User>, orderId: nat, sub: string): (r: Option<Row<Order>>)
    ensures r.Some? ==> r.value in orders.rows && r.value.id == orderId && OwnedBy(users.rows, r.value.value, sub)
    ensures r.None? && orders.Valid() ==>
      forall o :: o in orders.rows && o.id == orderId ==> !OwnedBy(users.rows, o.value, sub)
  {
    match orders.Find(orderId)
    case None => None
    case Some(o) =>
      if OwnedBy(users.rows, o.value, sub) then Some(o)
      else
        assert orders.Valid() ==> forall o' :: o' in orders.rows && o'.id == orderId ==> o' == o by {
          if orders.Valid() {
            forall o' | o' in orders.rows && o'.id == orderId ensures o' == o {
              KeyIdentifiesRow(orders.rows, o', o);
            }
          }
        }
        None
  }

  /** The first stored user whose `sub` is the caller's. */
  function FindUserBySub(users: seq<Row<User>>, sub: string): (r: Option<Row<User>>)
    ensures r.Some? ==> r.value in users && r.value.value.sub == sub
    ensures r.None? <==> forall u :: u in users ==> u.value.sub != sub
  {
    if users == [] then None
    else if users[0].value.sub == sub then Some(users[0])
    else FindUserBySub(users[1..], sub)
  }

  // ---------------------------------------------------------------------
  // createOrder
  // ---------------------------------------------------------------------

  datatype CreateOrderResult =
    | UnknownUser              // no user with the caller's sub
    | NoDefaultStatus          // the order-status table is empty
    | OrderCreated(order: Row<Order>)
  {
    function Code(): int {
      match this
      case UnknownUser => 401
      case NoDefaultStatus => 500
      case OrderCreated(_) => 201
    }
  }

  /** `createOrder`: a new order of the caller, on the first rung of the order-status table. */
  method CreateOrder(db: Database, sub: string) returns (result: CreateOrderResult)
    requires db.Valid()
    modifies db`orders
    ensures db.Valid()
    ensures !result.OrderCreated? ==> db.orders == old(db.orders)
    ensures FindUserBySub(db.users.rows, sub).None? <==> result == UnknownUser
    ensures FindUserBySub(db.users.rows, sub).Some? && |db.orderStatuses.rows| == 0 <==> result == NoDefaultStatus
    ensures result.OrderCreated? ==>
      var user := FindUserBySub(db.users.rows, sub).value;
      result.order == Row(old(db.orders.nextId), Order(user.id, db.orderStatuses.rows[0].id)) &&
      db.orders == old(db.orders).Insert([result.order.value]) &&
      OwnedBy(db.users.rows, result.order.value, sub)
  {
    var user := FindUserBySub(db.users.rows, sub);
    if user.None? {
      return UnknownUser;
    }
    var statuses := db.orderStatuses.rows;
    if |statuses| == 0 {
      return NoDefaultStatus;
    }
    var defaultStatus := statuses[0];
    var order := Order(user.value.id, defaultStatus.id);
    var id := db.orders.nextId;
    db.orders := db.orders.Insert([order]);
    return OrderCreated(Row(id, order));
  }

  // ---------------------------------------------------------------------
  // updateOrder
  // ---------------------------------------------------------------------

  datatype UpdateResult =
    | OrderNotFound                 // no such order of the caller
    | AwaitingVendor                // the current rung is vendor-controlled
    | NoOrderStatuses               // the order-status table is empty
    | Pending                       // the next rung is the vendor's to enter
    | CannotChange(message: string) // no transition from the current rung
    | OrderUpdated(order: Row<Order>)
  {
    function Code(): int {
      match this
      case OrderNotFound => 404
      case AwaitingVendor => 400
      case NoOrderStatuses => 404
      case Pending => 202
      case CannotChange(_) => 400
      case OrderUpdated(_) => 200
    }
  }

  /** What the checks of `updateOrder` decide once the current status row is known. */
  datatype Decision = Reject(result: UpdateResult) | Advance(next: Row<Status>)

  /**
   * The accept/reject chain of `updateOrder`: a vendor-controlled current
   * rung is refused before the ladder is read; otherwise the ladder is
   * walked with the customer side, Pending and Invalid becoming 202 and a
   * 400 that names the current rung.
   */
  function DecideUpdate(currStatus: Row<Status>, orderStatuses: seq<Row<Status>>): (d: Decision)
    ensures currStatus.value.isVendorControlled ==> d == Reject(AwaitingVendor)
    ensures d.Advance? ==>
      var i := IndexOfId(orderStatuses, currStatus.id);
      0 <= i < |orderStatuses| - 1 && d.next == orderStatuses[i + 1] &&
      !currStatus.value.isVendorControlled && !d.next.value.isVendorControlled && d.next.value.OrderStatus?
    ensures d.Reject? ==> (d.result in {AwaitingVendor, NoOrderStatuses, Pending,
                                        CannotChange("Cannot change order status after " + currStatus.value.Name())})
  {
    if currStatus.value.isVendorControlled then Reject(AwaitingVendor)
    else if |orderStatuses| == 0 then Reject(NoOrderStatuses)
    else
      match U.FindNextStatus(currStatus, orderStatuses, U.User)
      case Pending => Reject(Pending)
      case Invalid => Reject(CannotChange("Cannot change order status after " + currStatus.value.Name()))
      case Advanced(next) => Advance(next)
  }

  /**
   * Past the vendor-controlled check, the decision is the transition rule's
   * answer for the customer side, whatever the rung.
   */
  lemma DecideUpdateUsesCustomerSide(currStatus: Row<Status>, orderStatuses: seq<Row<Status>>)
    requires !currStatus.value.isVendorControlled && |orderStatuses| > 0
    ensures var n := U.FindNextStatus(currStatus, orderStatuses, U.User);
      DecideUpdate(currStatus, orderStatuses) ==
        match n
        case Advanced(next) => Advance(next)
        case Pending => Reject(Pending)
        case Invalid => Reject(CannotChange("Cannot change order status after " + currStatus.value.Name()))
    ensures var n := U.FindNextStatus(currStatus, orderStatuses, U.User);
      !n.Advanced? ==> DecideUpdate(currStatus, orderStatuses).result.Code() == n.Code()
  {
  }

  /**
   * `updateOrder`: the caller's order moves one rung up the order ladder
   * when the decision allows it; nothing else in the store changes, and on
   * every other outcome nothing changes at all.
   */
  method UpdateOrder(db: Database, sub: string, orderId: nat) returns (result: UpdateResult)
    requires db.Valid()
    modifies db`orders
    ensures db.Valid()
    ensures !result.OrderUpdated? ==> db.orders == old(db.orders)
    ensures var owned := FindOwnedOrder(old(db.orders), db.users, orderId, sub);
      owned.None? || db.orderStatuses.Find(owned.value.value.statusId).None? ==> result == OrderNotFound
    ensures var owned := FindOwnedOrder(old(db.orders), db.users, orderId, sub);
      owned.Some? && db.orderStatuses.Find(owned.value.value.statusId).Some? ==>
        var order := owned.value;
        var d := DecideUpdate(db.orderStatuses.Find(order.value.statusId).value, db.orderStatuses.rows);
        (d.Reject? ==> result == d.result) &&
        (d.Advance? ==>
          result == OrderUpdated(Row(order.id, order.value.(statusId := d.next.id))) &&
          db.orders == old(db.orders).Replace(order.id, order.value.(statusId := d.next.id)))
  {
    var owned := FindOwnedOrder(db.orders, db.users, orderId, sub);
    if owned.None? {
      return OrderNotFound;
    }
    var order := owned.value;
    var currStatus := db.orderStatuses.Find(order.value.statusId);
    if currStatus.None? {
      return OrderNotFound;
    }
    match DecideUpdate(currStatus.value, db.orderStatuses.rows) {
      case Reject(r) =>
        return r;
      case Advance(next) =>
        var updated := order.value.(statusId := next.id);
        db.orders := db.orders.Replace(order.id, updated);
        return OrderUpdated(Row(order.id, updated));
    }
  }

  // ---------------------------------------------------------------------
  // deleteOrder
  // ---------------------------------------------------------------------

  datatype DeleteOrderResult =
    | DeleteNotFound          // no such order of the caller
    | DeleteFailed            // line items still reference the order: the foreign key refuses the removal
    | OrderDeleted
  {
    function Code(): int {
      match this
      case DeleteNotFound => 404
      case DeleteFailed => 500
      case OrderDeleted => 200
    }
  }

  /**
   * Some stored line item is on order `orderId`. The foreign key from a
   * line item to its order is not nullable and has no delete rule, so the
   * database refuses to remove such an order.
   */
  predicate HasLineItems(orderDishes: seq<Row<OrderDish>>, orderId: nat) {
    exists item :: item in orderDishes && item.value.orderId == orderId
  }

  /** Every stored line item is on an order that is stored: the foreign key holds. */
  ghost predicate LineItemsOnStoredOrders(orders: Table<Order>, orderDishes: Table<OrderDish>) {
    forall item :: item in orderDishes.rows ==> orders.Find(item.value.orderId).Some?
  }

  /**
   * `deleteOrder`: the caller's order is removed when no line item is on
   * it; with line items the removal fails and the transaction is rolled
   * back (500); anyone else's order is left alone (404). The foreign key
   * between line items and orders is kept.
   */
  method DeleteOrder(db: Database, sub: string, orderId: nat) returns (result: DeleteOrderResult)
    requires db.Valid()
    modifies db`orders
    ensures db.Valid()
    ensures result == DeleteNotFound <==> FindOwnedOrder(old(db.orders), db.users, orderId, sub).None?
    ensures result == DeleteFailed <==>
      FindOwnedOrder(old(db.orders), db.users, orderId, sub).Some? && HasLineItems(db.orderDishes.rows, orderId)
    ensures result == OrderDeleted <==>
      FindOwnedOrder(old(db.orders), db.users, orderId, sub).Some? && !HasLineItems(db.orderDishes.rows, orderId)
    ensures result != OrderDeleted ==> db.orders == old(db.orders)
    ensures result == OrderDeleted ==> db.orders == old(db.orders).Remove(orderId)
    ensures LineItemsOnStoredOrders(old(db.orders), db.orderDishes) ==> LineItemsOnStoredOrders(db.orders, db.orderDishes)
  {
    var order := FindOwnedOrder(db.orders, db.users, orderId, sub);
    if order.None? {
      return DeleteNotFound;
    }
    if HasLineItems(db.orderDishes.rows, order.value.id) {
      return DeleteFailed;
    }
    ghost var before := db.orders;
    db.orders := db.orders.Remove(order.value.id);
    forall item | item in db.orderDishes.rows && before.Find(item.value.orderId).Some?
      ensures db.orders.Find(item.value.orderId).Some?
    {
      var o := before.Find(item.value.orderId).value;
      assert o in db.orders.rows;
    }
    return OrderDeleted;
  }

  // ---------------------------------------------------------------------
  // createOrderDish
  // ---------------------------------------------------------------------

  /**
   * The query for dishes: those whose key is one of the listed ids and
   * whose vendor is not run by the caller, in table order.
   */
  function MatchingDishes(dishes: seq<Row<Dish>>, ids: seq<real>, sub: string): (r: seq<Row<Dish>>)
    ensures forall d :: d in r ==> d in dishes && (d.id as real) in ids && d.value.vendorSub != sub
    ensures forall d :: d in dishes && (d.id as real) in ids && d.value.vendorSub != sub ==> d in r
    ensures Increasing(dishes) ==> Increasing(r)
  {
    if dishes == [] then []
    else if (dishes[0].id as real) in ids && dishes[0].value.vendorSub != sub then
      [dishes[0]] + MatchingDishes(dishes[1..], ids, sub)
    else
      MatchingDishes(dishes[1..], ids, sub)
  }

  /** One new line item per dish, in the same order, each on the order and the given status. */
  function NewOrderDishes(orderId: nat, dishes: seq<Row<Dish>>, statusId: nat): (items: seq<OrderDish>)
    ensures |items| == |dishes|
    ensures forall i :: 0 <= i < |dishes| ==> items[i] == OrderDish(orderId, dishes[i].id, statusId)
  {
    seq(|dishes|, i requires 0 <= i < |dishes| => OrderDish(orderId, dishes[i].id, statusId))
  }

  datatype CreateOrderDishResult =
    | MissingParameters       // `dishId` absent or empty
    | InvalidDishIds          // the id list does not convert to numbers
    | OrderMissing            // no such order of the caller
    | NoMatchingDish          // no listed dish outside the caller's own vendor
    | SaveFailed              // the order-dish-status table is empty: the status column is not nullable
    | OrderDishesCreated(items: seq<Row<OrderDish>>)
  {
    function Code(): int {
      match this
      case MissingParameters => 400
      case InvalidDishIds => 500
      case OrderMissing => 404
      case NoMatchingDish => 404
      case SaveFailed => 500
      case OrderDishesCreated(_) => 201
    }
  }

  /**
   * `createOrderDish`: the id list is checked and converted, then the
   * transaction saves one line item per matching dish, each on the given
   * order and the first row of the order-dish-status table.
   */
  method CreateOrderDish(db: Database, sub: string, orderId: nat, dishId: U.JsValue, toNumber: string -> U.JsNumber)
    returns (result: CreateOrderDishResult)
    requires db.Valid()
    modifies db`orderDishes
    ensures db.Valid()
    ensures !result.OrderDishesCreated? ==> db.orderDishes == old(db.orderDishes)
    ensures dishId.NotAString? || dishId.s == [] <==> result == MissingParameters
    ensures dishId.JsString? && dishId.s != [] && U.ConvertToArray(dishId, toNumber).None? <==> result == InvalidDishIds
    ensures U.ConvertToArray(dishId, toNumber).Some? ==>
      var ids := U.ConvertToArray(dishId, toNumber).value;
      var order := FindOwnedOrder(db.orders, db.users, orderId, sub);
      var dishes := MatchingDishes(db.dishes.rows, ids, sub);
      if order.None? then result == OrderMissing
      else if |dishes| == 0 then result == NoMatchingDish
      else if |db.orderDishStatuses.rows| == 0 then result == SaveFailed
      else
        var items := NewOrderDishes(order.value.id, dishes, db.orderDishStatuses.rows[0].id);
        db.orderDishes == old(db.orderDishes).Insert(items) &&
        result == OrderDishesCreated(db.orderDishes.rows[|old(db.orderDishes.rows)|..])
    ensures LineItemsOnStoredOrders(db.orders, old(db.orderDishes)) ==> LineItemsOnStoredOrders(db.orders, db.orderDishes)
  {
    if dishId.NotAString? || dishId.s == [] {
      return MissingParameters;
    }
    var arrayDishId := U.ConvertToArray(dishId, toNumber);
    if arrayDishId.None? {
      return InvalidDishIds;
    }
    result := SaveOrderDishes(db, sub, orderId, arrayDishId.value);
  }

  /**
   * The transaction of `createOrderDish` for converted ids: the caller's
   * order, the matching dishes and the default line-item status are looked
   * up in turn, and the line items are saved only when all three exist.
   */
  method SaveOrderDishes(db: Database, sub: string, orderId: nat, ids: seq<real>) returns (result: CreateOrderDishResult)
    requires db.Valid()
    modifies db`orderDishes
    ensures db.Valid()
    ensures !result.OrderDishesCreated? ==> db.orderDishes == old(db.orderDishes)
    ensures
      var order := FindOwnedOrder(db.orders, db.users, orderId, sub);
      var dishes := MatchingDishes(db.dishes.rows, ids, sub);
      if order.None? then result == OrderMissing
      else if |dishes| == 0 then result == NoMatchingDish
      else if |db.orderDishStatuses.rows| == 0 then result == SaveFailed
      else
        var items := NewOrderDishes(order.value.id, dishes, db.orderDishStatuses.rows[0].id);
        db.orderDishes == old(db.orderDishes).Insert(items) &&
        result == OrderDishesCreated(db.orderDishes.rows[|old(db.orderDishes.rows)|..])
    ensures LineItemsOnStoredOrders(db.orders, old(db.orderDishes)) ==> LineItemsOnStoredOrders(db.orders, db.orderDishes)
  {
    var order := FindOwnedOrder(db.orders, db.users, orderId, sub);
    if order.None? {
      return OrderMissing;
    }
    var dishes := MatchingDishes(db.dishes.rows, ids, sub);
    if |dishes| == 0 {
      return NoMatchingDish;
    }
    var statuses := db.orderDishStatuses.rows;
    if |statuses| == 0 {
      return SaveFailed;
    }
    var items := NewOrderDishes(order.value.id, dishes, statuses[0].id);
    var before := |db.orderDishes.rows|;
    ItemsOnStoredOrderKeepKey(db.orders, db.orderDishes, order.value.id, dishes, statuses[0].id);
    db.orderDishes := db.orderDishes.Insert(items);
    return OrderDishesCreated(db.orderDishes.rows[before..]);
  }

  /** Line items put on a stored order keep every line item on a stored order. */
  lemma ItemsOnStoredOrderKeepKey(orders: Table<Order>, t: Table<OrderDish>, orderId: nat, dishes: seq<Row<Dish>>, statusId: nat)
    requires orders.Find(orderId).Some?
    ensures LineItemsOnStoredOrders(orders, t) ==>
      LineItemsOnStoredOrders(orders, t.Insert(NewOrderDishes(orderId, dishes, statusId)))
  {
    var items := NewOrderDishes(orderId, dishes, statusId);
    var r := t.Insert(items);
    if LineItemsOnStoredOrders(orders, t) {
      forall item | item in r.rows ensures orders.Find(item.value.orderId).Some? {
        var i :| 0 <= i < |r.rows| && r.rows[i] == item;
        if i < |t.rows| {
          assert item == r.rows[..|t.rows|][i] == t.rows[i];
        } else {
          assert r.rows[|t.rows| + (i - |t.rows|)] == Row(t.nextId + (i - |t.rows|), items[i - |t.rows|]);
        }
      }
    }
  }

  /**
   * The saved line items are exactly the matching dishes, one each, in
   * table order, under fresh consecutive keys, on the first order-dish rung.
   */
  lemma CreatedItemsAreTheMatches(t: Table<OrderDish>, orderId: nat, dishes: seq<Row<Dish>>, statusId: nat)
    ensures var r := t.Insert(NewOrderDishes(orderId, dishes, statusId));
      var created := r.rows[|t.rows|..];
      |created| == |dishes| &&
      forall i :: 0 <= i < |dishes| ==>
        created[i] == Row(t.nextId + i, OrderDish(orderId, dishes[i].id, statusId))
  {
    var r := t.Insert(NewOrderDishes(orderId, dishes, statusId));
    forall i | 0 <= i < |dishes|
      ensures r.rows[|t.rows|..][i] == Row(t.nextId + i, OrderDish(orderId, dishes[i].id, statusId))
    {
      assert r.rows[|t.rows|..][i] == r.rows[|t.rows| + i];
    }
  }

  /**
   * Each handler answers with a 2xx status exactly on its success
   * outcomes: creation, the advance of an order or the wait for the
   * vendor, and the deletion.
   */
  lemma SuccessCodes(c: CreateOrderResult, u: UpdateResult, d: DeleteOrderResult, i: CreateOrderDishResult)
    ensures 200 <= c.Code() < 300 <==> c.OrderCreated?
    ensures 200 <= u.Code() < 300 <==> u.OrderUpdated? || u.Pending?
    ensures 200 <= d.Code() < 300 <==> d.OrderDeleted?
    ensures 200 <= i.Code() < 300 <==> i.OrderDishesCreated?
  {
  }
}
