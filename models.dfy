/**
 * The values stored in the rows of the tables the core touches
 * (the entity classes under src/models). Relations are kept as the foreign keys
 * the database stores; primary keys live in Store.Row.
 */
module Models {
  import OS = OrderStatusEntity
  import DS = OrderDishStatusEntity

  /**
   * One rung of a status ladder. The two ladders live in two tables with
   * separate key spaces; the constructor is the `instanceof` tag the
   * transition rule inspects.
   */
  datatype Status =
    | OrderStatus(name: OS.OrderStatusType, isVendorControlled: bool)
    | OrderDishStatus(dishName: DS.OrderDishStatusType, isVendorControlled: bool)
  {
    /** The `name` column as a string. */
    function Name(): string {
      match this
      case OrderStatus(n, _) => OS.Label(n)
      case OrderDishStatus(n, _) => DS.Label(n)
    }
  }

  /** A seeded rating (only its score is stored). */
  datatype Rating = Rating(score: int)

  /** A registered user; name, email and role are not part of this model. */
  datatype User = User(sub: string)

  /**
   * A dish. `vendorSub` is the `sub` of the user behind the dish's vendor
   * (Dish -> Vendor -> VendorUser -> User, each link single-valued).
   */
  datatype Dish = Dish(name: string, vendorSub: string)

  /** An order: the customer who owns it and its current rung on the order ladder. */
  datatype Order = Order(userId: nat, statusId: nat)

  /** A line item: its order, its dish and its current rung on the order-dish ladder. */
  datatype OrderDish = OrderDish(orderId: nat, dishId: nat, statusId: nat)
}
