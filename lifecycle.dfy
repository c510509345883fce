/**
 * Properties of the whole lifecycle: the transition rule and the
 * `updateOrder` checks evaluated on the ladders exactly as the seeder
 * writes them.
 */
module Lifecycle {
  import opened Store
  import opened Wrappers
  import opened Models
  import opened SeederService
  import U = UtilsService
  import OC = OrderController
  import OS = OrderStatusEntity

  /** `l` holds the batch `seed` in order, under increasing keys: a ladder as a seed step leaves it. */
  ghost predicate SeededWith(l: seq<Row<Status>>, seed: seq<Status>) {
    |l| == |seed| && Increasing(l) && forall k :: 0 <= k < |seed| ==> l[k].value == seed[k]
  }

  /** Populating an empty ladder table yields a ladder seeded with the batch, keyed from `n` on. */
  lemma PopulatedLadderIsSeeded(n: nat, seed: seq<Status>)
    ensures var l := InsertIfEmpty(Table([], n), seed).rows;
      SeededWith(l, seed) && forall k :: 0 <= k < |seed| ==> l[k].id == n + k
  {
    var t: Table<Status> := Table([], n);
    assert t.Valid();
  }

  /**
   * On the seeded order ladder, every rung but the last moves to the next
   * one for the side that controls the next rung, and is Pending for the
   * other side.
   */
  lemma OrderLadderStep(l: seq<Row<Status>>, k: nat, side: U.Side)
    requires SeededWith(l, OrderStatusSeed) && k < 7
    ensures U.FindNextStatus(l[k], l, side) ==
      if side == U.SideFor(OrderStatusSeed[k + 1].isVendorControlled) then U.Advanced(l[k + 1]) else U.Pending
  {
    assert l[k + 1].value == OrderStatusSeed[k + 1];
    U.SuccessorDecides(l[k], l, k, side);
  }

  /** The last rung of the seeded order ladder, Complete, is terminal for both sides. */
  lemma OrderLadderEnds(l: seq<Row<Status>>, side: U.Side)
    requires SeededWith(l, OrderStatusSeed)
    ensures l[7].value.name == OS.Complete && U.FindNextStatus(l[7], l, side) == U.Invalid
  {
    assert l[7].value == OrderStatusSeed[7];
    U.TerminalIsInvalid(l[7], l, side);
  }

  /**
   * The four single-step scenarios on the seeded order ladder: the customer
   * confirms a cart, then waits on the vendor, who may start preparing;
   * nobody moves a complete order.
   */
  lemma OrderLadderScenarios(l: seq<Row<Status>>)
    requires SeededWith(l, OrderStatusSeed)
    ensures U.FindNextStatus(l[0], l, U.User) == U.Advanced(l[1])
    ensures U.FindNextStatus(l[1], l, U.User) == U.Pending
    ensures U.FindNextStatus(l[1], l, U.Vendor) == U.Advanced(l[2])
    ensures U.FindNextStatus(l[7], l, U.User) == U.Invalid
    ensures U.FindNextStatus(l[7], l, U.Vendor) == U.Invalid
  {
    OrderLadderStep(l, 0, U.User);
    OrderLadderStep(l, 1, U.User);
    OrderLadderStep(l, 1, U.Vendor);
    OrderLadderEnds(l, U.User);
    OrderLadderEnds(l, U.Vendor);
  }

  /** No rung of the seeded order-dish ladder ever advances, for either side. */
  lemma OrderDishLadderFrozen(l: seq<Row<Status>>, k: nat, side: U.Side)
    requires SeededWith(l, OrderDishStatusSeed) && k < 8
    ensures U.FindNextStatus(l[k], l, side) == U.Invalid
  {
    forall row | row in l ensures row.value.OrderDishStatus? {
      var j :| 0 <= j < |l| && l[j] == row;
      assert row.value == OrderDishStatusSeed[j];
    }
    U.OrderDishLadderNeverAdvances(l[k], l, side);
  }

  /**
   * What `updateOrder` decides on each rung of the seeded order ladder:
   * the customer moves the order out of Pending/InCart, Eating/Delivered
   * and CleanUp; waits at Paid/Confirmed; is refused on the three vendor
   * rungs; and cannot move a complete order.
   */
  lemma UpdateOnSeededLadder(l: seq<Row<Status>>, k: nat)
    requires SeededWith(l, OrderStatusSeed) && k < 8
    ensures OC.DecideUpdate(l[k], l) ==
      if k == 0 || k == 5 || k == 6 then OC.Advance(l[k + 1])
      else if k == 1 then OC.Reject(OC.Pending)
      else if k == 2 || k == 3 || k == 4 then OC.Reject(OC.AwaitingVendor)
      else OC.Reject(OC.CannotChange("Cannot change order status after Complete"))
  {
    assert l[k].value == OrderStatusSeed[k];
    if k < 7 {
      OrderLadderStep(l, k, U.User);
    } else {
      OrderLadderEnds(l, U.User);
      OC.DecideUpdateUsesCustomerSide(l[k], l);
      assert l[k].value.Name() == "Complete";
      assert "Cannot change order status after " + "Complete" == "Cannot change order status after Complete";
    }
  }

  /** The rung an order stands on after one `updateOrder` by its owner. */
  function UpdateStep(curr: Row<Status>, ladder: seq<Row<Status>>): Row<Status> {
    match OC.DecideUpdate(curr, ladder)
    case Advance(next) => next
    case Reject(_) => curr
  }

  /** The rung after `count` successive `updateOrder` calls by the owner. */
  function AfterUpdates(curr: Row<Status>, ladder: seq<Row<Status>>, count: nat): Row<Status>
    decreases count
  {
    if count == 0 then curr else AfterUpdates(UpdateStep(curr, ladder), ladder, count - 1)
  }

  /**
   * `updateOrder` is the only caller of the transition rule and always acts
   * as the customer, so an order created on the seeded ladder never gets
   * past Paid/Confirmed, however often its owner calls it.
   */
  lemma {:induction false} OwnerAloneStopsAtConfirmed(l: seq<Row<Status>>, curr: Row<Status>, count: nat)
    requires SeededWith(l, OrderStatusSeed)
    requires curr == l[0] || curr == l[1]
    ensures AfterUpdates(curr, l, count) == l[0] || AfterUpdates(curr, l, count) == l[1]
    decreases count
  {
    if count > 0 {
      UpdateOnSeededLadder(l, 0);
      UpdateOnSeededLadder(l, 1);
      OwnerAloneStopsAtConfirmed(l, UpdateStep(curr, l), count - 1);
    }
  }

  /** A fresh store with one registered user, seeded by `populateDatabaseStaticTables`. */
  method SeededStore(sub: string) returns (db: Database)
    ensures fresh(db) && db.Valid()
    ensures db.users == Table([Row(1, User(sub))], 2) && db.orders == Table([], 1)
    ensures SeededWith(db.orderStatuses.rows, OrderStatusSeed)
    ensures forall k :: 0 <= k < 8 ==> db.orderStatuses.rows[k].id == 1 + k
  {
    var users: Table<User> := Table([], 1);
    users := users.Insert([User(sub)]);
    db := new Database(users, Table([], 1));
    PopulateDatabaseStaticTables(db);
    PopulatedLadderIsSeeded(1, OrderStatusSeed);
  }

  /**
   * In that store, with user 1's only order on rung `k`, both lookups of
   * `updateOrder` succeed and the decision is the one for rung `k`.
   */
  lemma LookupsOnSeededStore(users: Table<User>, orders: Table<Order>, statuses: Table<Status>, sub: string, k: nat)
    requires users == Table([Row(1, User(sub))], 2) && orders == Table([Row(1, Order(1, 1 + k))], 2)
    requires SeededWith(statuses.rows, OrderStatusSeed) && k < 8
    requires forall j :: 0 <= j < 8 ==> statuses.rows[j].id == 1 + j
    ensures OC.FindOwnedOrder(orders, users, 1, sub) == Some(Row(1, Order(1, 1 + k)))
    ensures statuses.Find(1 + k) == Some(statuses.rows[k])
  {
    assert users.rows[0] in users.rows;
    assert IndexOfId(orders.rows, 1) == 0;
    IndexOfOwnKey(statuses.rows, k);
  }

  /**
   * One customer request on that store, with user 1's only order on rung
   * `k`: from the cart it moves to CONFIRMED, from CONFIRMED it waits.
   */
  method UpdateOnSeededStore(db: Database, sub: string, k: nat) returns (result: OC.UpdateResult)
    requires db.Valid() && k < 2
    requires db.users == Table([Row(1, User(sub))], 2) && db.orders == Table([Row(1, Order(1, 1 + k))], 2)
    requires SeededWith(db.orderStatuses.rows, OrderStatusSeed)
    requires forall j :: 0 <= j < 8 ==> db.orderStatuses.rows[j].id == 1 + j
    modifies db`orders
    ensures db.Valid()
    ensures k == 0 ==> result == OC.OrderUpdated(Row(1, Order(1, 2))) && db.orders == Table([Row(1, Order(1, 2))], 2)
    ensures k == 1 ==> result == OC.Pending
  {
    LookupsOnSeededStore(db.users, db.orders, db.orderStatuses, sub, k);
    UpdateOnSeededLadder(db.orderStatuses.rows, k);
    result := OC.UpdateOrder(db, sub, 1);
  }

  /**
   * On a freshly seeded store, a registered customer opens a cart, confirms
   * it, and on the next request is told to wait for the vendor: the order
   * advances exactly once and never twice.
   */
  method ConfirmThenWait(sub: string) returns (first: OC.UpdateResult, second: OC.UpdateResult)
    ensures first == OC.OrderUpdated(Row(1, Order(1, 2)))
    ensures second == OC.Pending
  {
    var db := SeededStore(sub);
    assert OC.FindUserBySub(db.users.rows, sub) == Some(Row(1, User(sub)));
    var created := OC.CreateOrder(db, sub);
    assert db.orders == Table([Row(1, Order(1, 1))], 2);
    first := UpdateOnSeededStore(db, sub, 0);
    second := UpdateOnSeededStore(db, sub, 1);
  }
}
