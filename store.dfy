/**
 * The relational store the controllers and the seeder talk to through
 * TypeORM's EntityManager: one table per entity, each with an
 * auto-increment primary key. Every modelled operation runs inside one
 * transaction, so it is modelled as one atomic step.
 */
module Store {
  import opened Wrappers
  import opened Models
  import opened RoleEntity

  /** A persisted row: the key the database generated, and the stored value. */
  datatype Row<T> = Row(id: nat, value: T)

  /**
   * Position of the first row whose key is `id`, or -1 when there is none:
   * the index search the transition rule performs on the ladder.
   */
  function IndexOfId<T>(rows: seq<Row<T>>, id: nat): (i: int)
    ensures -1 <= i < |rows|
    ensures i >= 0 ==> rows[i].id == id
    ensures forall j :: 0 <= j < |rows| && (i == -1 || j < i) ==> rows[j].id != id
  {
    if rows == [] then -1
    else if rows[0].id == id then 0
    else
      var k := IndexOfId(rows[1..], id);
      if k == -1 then -1 else k + 1
  }

  /** Keys strictly increase along the table (insertion order). */
  ghost predicate Increasing<T>(rows: seq<Row<T>>) {
    forall i, j :: 0 <= i < j < |rows| ==> rows[i].id < rows[j].id
  }

  /** In a table with increasing keys, the first row carrying a row's key is that row. */
  lemma IndexOfOwnKey<T>(rows: seq<Row<T>>, k: nat)
    requires Increasing(rows) && k < |rows|
    ensures IndexOfId(rows, rows[k].id) == k
  {
  }

  /** In a table with increasing keys, a key identifies one row. */
  lemma KeyIdentifiesRow<T>(rows: seq<Row<T>>, a: Row<T>, b: Row<T>)
    requires Increasing(rows) && a in rows && b in rows && a.id == b.id
    ensures a == b
  {
    var i :| 0 <= i < |rows| && rows[i] == a;
    var j :| 0 <= j < |rows| && rows[j] == b;
    assert i == j;
  }

  /** `rows` without the rows whose key is `id`, in the same order. */
  function Without<T>(rows: seq<Row<T>>, id: nat): (r: seq<Row<T>>)
    ensures forall row :: row in r ==> row in rows && row.id != id
    ensures forall row :: row in rows && row.id != id ==> row in r
    ensures Increasing(rows) ==> Increasing(r)
  {
    if rows == [] then []
    else if rows[0].id == id then Without(rows[1..], id)
    else [rows[0]] + Without(rows[1..], id)
  }

  /** A property every stored value has survives the insertion of values that have it too. */
  lemma InsertKeeps<T>(t: Table<T>, values: seq<T>, p: T -> bool)
    requires forall row :: row in t.rows ==> p(row.value)
    requires forall v :: v in values ==> p(v)
    ensures forall row :: row in t.Insert(values).rows ==> p(row.value)
  {
    var r := t.Insert(values);
    forall i | 0 <= i < |r.rows| ensures p(r.rows[i].value) {
      if i < |t.rows| {
        assert r.rows[i] == r.rows[..|t.rows|][i] == t.rows[i];
      } else {
        var k := i - |t.rows|;
        assert r.rows[|t.rows| + k] == Row(t.nextId + k, values[k]);
        assert values[k] in values;
      }
    }
  }

  /** A table: its rows in insertion order and the next key the sequence will hand out. */
  datatype Table<T> = Table(rows: seq<Row<T>>, nextId: nat) {

    /** Keys are handed out in increasing order and never reused. */
    ghost predicate Valid() {
      Increasing(rows) && forall i :: 0 <= i < |rows| ==> rows[i].id < nextId
    }

    /** `findOne` by primary key. */
    function Find(id: nat): (r: Option<Row<T>>)
      ensures r.Some? ==> r.value in rows && r.value.id == id
      ensures r.None? <==> forall row :: row in rows ==> row.id != id
    {
      var i := IndexOfId(rows, id);
      if i == -1 then None else Some(rows[i])
    }

    /** `save` of new entities: each value gets the next key, in order. */
    function Insert(values: seq<T>): (t: Table<T>)
      ensures |t.rows| == |rows| + |values| && t.rows[..|rows|] == rows
      ensures forall k :: 0 <= k < |values| ==> t.rows[|rows| + k] == Row(nextId + k, values[k])
      ensures t.nextId == nextId + |values|
      ensures Valid() ==> t.Valid()
    {
      Table(rows + seq(|values|, k requires 0 <= k < |values| => Row(nextId + k, values[k])),
            nextId + |values|)
    }

    /** `save` of an entity that already has key `id`: its row now holds `v`. */
    function Replace(id: nat, v: T): (t: Table<T>)
      ensures |t.rows| == |rows| && t.nextId == nextId
      ensures forall i :: 0 <= i < |rows| ==> t.rows[i] == (if rows[i].id == id then Row(id, v) else rows[i])
      ensures Valid() ==> t.Valid()
    {
      Table(seq(|rows|, i requires 0 <= i < |rows| => if rows[i].id == id then Row(id, v) else rows[i]),
            nextId)
    }

    /** `remove` of the entity with key `id`; its key is not handed out again. */
    function Remove(id: nat): (t: Table<T>)
      ensures t.nextId == nextId
      ensures forall row :: row in t.rows ==> row in rows && row.id != id
      ensures forall row :: row in rows && row.id != id ==> row in t.rows
      ensures Valid() ==> t.Valid()
    {
      Table(Without(rows, id), nextId)
    }
  }

  /** The tables of the schema that the core reads or writes. */
  class Database {
    var roles: Table<RoleType>
    var ratings: Table<Rating>
    var orderStatuses: Table<Status>
    var orderDishStatuses: Table<Status>
    var users: Table<User>
    var dishes: Table<Dish>
    var orders: Table<Order>
    var orderDishes: Table<OrderDish>

    /** Every table keeps its keys; each ladder table holds rows of its own kind only. */
    ghost predicate Valid()
      reads this
    {
      roles.Valid() && ratings.Valid() && orderStatuses.Valid() && orderDishStatuses.Valid() &&
      users.Valid() && dishes.Valid() && orders.Valid() && orderDishes.Valid() &&
      (forall row :: row in orderStatuses.rows ==> row.value.OrderStatus?) &&
      (forall row :: row in orderDishStatuses.rows ==> row.value.OrderDishStatus?)
    }

    /**
     * A fresh schema. Users and dishes are written by the user and vendor
     * controllers, which are not part of this model, so they are given.
     */
    constructor (users: Table<User>, dishes: Table<Dish>)
      requires users.Valid() && dishes.Valid()
      ensures Valid()
      ensures this.users == users && this.dishes == dishes
      ensures roles == Table([], 1) && ratings == Table([], 1)
      ensures orderStatuses == Table([], 1) && orderDishStatuses == Table([], 1)
      ensures orders == Table([], 1) && orderDishes == Table([], 1)
    {
      this.users := users;
      this.dishes := dishes;
      roles := Table([], 1);
      ratings := Table([], 1);
      orderStatuses := Table([], 1);
      orderDishStatuses := Table([], 1);
      orders := Table([], 1);
      orderDishes := Table([], 1);
    }
  }
}
