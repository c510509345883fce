/**
 * The seeding of the static tables (src/services/utils/seeder.service.ts):
 * each populate step writes its fixed batch into its table only when the
 * table has no row yet.
 */
module SeederService {
  import opened Wrappers
  import opened Models
  import opened Store
  import opened RoleEntity
  import OS = OrderStatusEntity
  import DS = OrderDishStatusEntity

  /** The roles `populateRoles` writes, in order. */
  const RoleSeed: seq<RoleType> := [Admin, Vendor, Customer]

  /** The ratings `populateRatings` writes, in order (the score 4 twice, as written). */
  const RatingSeed: seq<Rating> := [Rating(0), Rating(1), Rating(2), Rating(4), Rating(4), Rating(5)]

  /** The order ladder `populateOrderStatus` writes, rung by rung. */
  const OrderStatusSeed: seq<Status> := [
    OrderStatus(OS.Default, false),
    OrderStatus(OS.Confirmed, false),
    OrderStatus(OS.Preparing, true),
    OrderStatus(OS.Queued, true),
    OrderStatus(OS.Delivering, true),
    OrderStatus(OS.Delivered, false),
    OrderStatus(OS.CleanUp, false),
    OrderStatus(OS.Complete, false)
  ]

  /** The order-dish ladder `populateOrderDishStatuses` writes, rung by rung. */
  const OrderDishStatusSeed: seq<Status> := [
    OrderDishStatus(DS.Default, false),
    OrderDishStatus(DS.Confirmed, false),
    OrderDishStatus(DS.Preparing, true),
    OrderDishStatus(DS.Queue, true),
    OrderDishStatus(DS.Delivering, true),
    OrderDishStatus(DS.Delivered, true),
    OrderDishStatus(DS.CleanUp, false),
    OrderDishStatus(DS.Complete, false)
  ]

  /**
   * The table after one populate step: a table that has a row is left as
   * it is; an empty one receives exactly the batch, in order, under
   * consecutive fresh keys.
   */
  function InsertIfEmpty<T>(t: Table<T>, batch: seq<T>): (r: Table<T>)
    ensures |t.rows| > 0 ==> r == t
    ensures |t.rows| == 0 ==>
      |r.rows| == |batch| && r.nextId == t.nextId + |batch| &&
      forall k :: 0 <= k < |batch| ==> r.rows[k] == Row(t.nextId + k, batch[k])
    ensures t.Valid() ==> r.Valid()
  {
    if |t.rows| > 0 then t
    else
      var r := t.Insert(batch);
      assert forall k :: 0 <= k < |batch| ==> r.rows[k] == r.rows[|t.rows| + k];
      r
  }

  /** The four seeded tables, in the order `populateDatabaseStaticTables` visits them. */
  datatype StaticTables = StaticTables(
    roles: Table<RoleType>,
    ratings: Table<Rating>,
    orderStatuses: Table<Status>,
    orderDishStatuses: Table<Status>)

  /**
   * The effect of one run of `populateDatabaseStaticTables`: afterwards
   * every static table has rows, and a table that had rows already is
   * left untouched.
   */
  function Seed(st: StaticTables): (r: StaticTables)
    ensures |r.roles.rows| > 0 && |r.ratings.rows| > 0
    ensures |r.orderStatuses.rows| > 0 && |r.orderDishStatuses.rows| > 0
    ensures |st.roles.rows| > 0 ==> r.roles == st.roles
    ensures |st.ratings.rows| > 0 ==> r.ratings == st.ratings
    ensures |st.orderStatuses.rows| > 0 ==> r.orderStatuses == st.orderStatuses
    ensures |st.orderDishStatuses.rows| > 0 ==> r.orderDishStatuses == st.orderDishStatuses
  {
    StaticTables(
      InsertIfEmpty(st.roles, RoleSeed),
      InsertIfEmpty(st.ratings, RatingSeed),
      InsertIfEmpty(st.orderStatuses, OrderStatusSeed),
      InsertIfEmpty(st.orderDishStatuses, OrderDishStatusSeed))
  }

  function StaticTablesOf(db: Database): StaticTables
    reads db
  {
    StaticTables(db.roles, db.ratings, db.orderStatuses, db.orderDishStatuses)
  }

  /** A second populate step changes nothing. */
  lemma InsertIfEmptyIdempotent<T>(t: Table<T>, batch: seq<T>)
    ensures InsertIfEmpty(InsertIfEmpty(t, batch), batch) == InsertIfEmpty(t, batch)
  {
    if |t.rows| == 0 && batch == [] {
      assert t.Insert(batch).rows == t.rows;
    }
  }

  /** Seeding twice leaves every table as seeding once does. */
  lemma SeedIdempotent(st: StaticTables)
    ensures Seed(Seed(st)) == Seed(st)
  {
    InsertIfEmptyIdempotent(st.roles, RoleSeed);
    InsertIfEmptyIdempotent(st.ratings, RatingSeed);
    InsertIfEmptyIdempotent(st.orderStatuses, OrderStatusSeed);
    InsertIfEmptyIdempotent(st.orderDishStatuses, OrderDishStatusSeed);
  }

  /**
   * The order ladder has eight order rungs in the canonical order, and
   * exactly Preparing, Queued and Delivering are vendor-controlled.
   */
  lemma OrderStatusSeedShape()
    ensures |OrderStatusSeed| == 8
    ensures forall k :: 0 <= k < 8 ==> OrderStatusSeed[k].OrderStatus?
    ensures [OrderStatusSeed[0].name, OrderStatusSeed[1].name, OrderStatusSeed[2].name, OrderStatusSeed[3].name,
             OrderStatusSeed[4].name, OrderStatusSeed[5].name, OrderStatusSeed[6].name, OrderStatusSeed[7].name]
         == [OS.Default, OS.Confirmed, OS.Preparing, OS.Queued, OS.Delivering, OS.Delivered, OS.CleanUp, OS.Complete]
    ensures forall k :: 0 <= k < 8 ==>
      (OrderStatusSeed[k].isVendorControlled <==> OrderStatusSeed[k].name in {OS.Preparing, OS.Queued, OS.Delivering})
  {
  }

  /**
   * The order-dish ladder has the same eight names in the same order, and
   * its flags differ from the order ladder's at Eating/Delivered only.
   */
  lemma LaddersDifferOnlyAtDelivered()
    ensures |OrderDishStatusSeed| == |OrderStatusSeed| == 8
    ensures forall k :: 0 <= k < 8 ==>
      OrderDishStatusSeed[k].OrderDishStatus? && OrderDishStatusSeed[k].Name() == OrderStatusSeed[k].Name()
    ensures forall k :: 0 <= k < 8 ==>
      (OrderDishStatusSeed[k].isVendorControlled != OrderStatusSeed[k].isVendorControlled <==> k == 5)
    ensures OrderDishStatusSeed[5].isVendorControlled && !OrderStatusSeed[5].isVendorControlled
  {
  }

  /** `populateRoles`: true when it wrote the three roles into an empty table. */
  method PopulateRoles(manager: Database) returns (populated: bool)
    requires manager.Valid()
    modifies manager`roles
    ensures manager.Valid()
    ensures populated <==> |old(manager.roles.rows)| == 0
    ensures manager.roles == InsertIfEmpty(old(manager.roles), RoleSeed)
  {
    var existing := manager.roles.rows;
    if |existing| > 0 {
      return false;
    }
    manager.roles := manager.roles.Insert(RoleSeed);
    return true;
  }

  /** `populateRatings`: the saved ratings when it wrote them into an empty table, else `false`. */
  method PopulateRatings(manager: Database) returns (saved: Option<seq<Row<Rating>>>)
    requires manager.Valid()
    modifies manager`ratings
    ensures manager.Valid()
    ensures saved.Some? <==> |old(manager.ratings.rows)| == 0
    ensures saved.Some? ==> saved.value == manager.ratings.rows
    ensures manager.ratings == InsertIfEmpty(old(manager.ratings), RatingSeed)
  {
    var existing := manager.ratings.rows;
    if |existing| > 0 {
      return None;
    }
    manager.ratings := manager.ratings.Insert(RatingSeed);
    return Some(manager.ratings.rows);
  }

  /** `populateOrderStatus`: true when it wrote the order ladder into an empty table. */
  method PopulateOrderStatus(manager: Database) returns (populated: bool)
    requires manager.Valid()
    modifies manager`orderStatuses
    ensures manager.Valid()
    ensures populated <==> |old(manager.orderStatuses.rows)| == 0
    ensures manager.orderStatuses == InsertIfEmpty(old(manager.orderStatuses), OrderStatusSeed)
  {
    var existing := manager.orderStatuses.rows;
    if |existing| > 0 {
      return false;
    }
    InsertKeeps(manager.orderStatuses, OrderStatusSeed, (s: Status) => s.OrderStatus?);
    manager.orderStatuses := manager.orderStatuses.Insert(OrderStatusSeed);
    return true;
  }

  /** `populateOrderDishStatuses`: true when it wrote the order-dish ladder into an empty table. */
  method PopulateOrderDishStatuses(manager: Database) returns (populated: bool)
    requires manager.Valid()
    modifies manager`orderDishStatuses
    ensures manager.Valid()
    ensures populated <==> |old(manager.orderDishStatuses.rows)| == 0
    ensures manager.orderDishStatuses == InsertIfEmpty(old(manager.orderDishStatuses), OrderDishStatusSeed)
  {
    var existing := manager.orderDishStatuses.rows;
    if |existing| > 0 {
      return false;
    }
    InsertKeeps(manager.orderDishStatuses, OrderDishStatusSeed, (s: Status) => s.OrderDishStatus?);
    manager.orderDishStatuses := manager.orderDishStatuses.Insert(OrderDishStatusSeed);
    return true;
  }

  /**
   * `populateDatabaseStaticTables`: the four steps in order, as one unit.
   * Only the four static tables can change, each by its own step.
   */
  method PopulateDatabaseStaticTables(manager: Database)
    requires manager.Valid()
    modifies manager`roles, manager`ratings, manager`orderStatuses, manager`orderDishStatuses
    ensures manager.Valid()
    ensures StaticTablesOf(manager) == Seed(old(StaticTablesOf(manager)))
  {
    var roles := PopulateRoles(manager);
    var ratings := PopulateRatings(manager);
    var orderStatuses := PopulateOrderStatus(manager);
    var orderDishStatuses := PopulateOrderDishStatuses(manager);
  }

  /** Running the seeding twice leaves the database as running it once. */
  method SeedTwice(manager: Database)
    requires manager.Valid()
    modifies manager`roles, manager`ratings, manager`orderStatuses, manager`orderDishStatuses
    ensures manager.Valid()
    ensures StaticTablesOf(manager) == Seed(old(StaticTablesOf(manager)))
  {
    PopulateDatabaseStaticTables(manager);
    PopulateDatabaseStaticTables(manager);
    SeedIdempotent(old(StaticTablesOf(manager)));
  }
}
