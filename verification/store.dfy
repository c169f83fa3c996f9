/** The local database of helper/db.ts: three independent AUTOINCREMENT tables
    (`Dollar`, `Shipping`, `Car`) and the query helpers over them. Each query is
    a synchronous transition; a query against a table that has not been created
    fails the way SQLite does ("no such table"). */
module Store {
  import opened Wrappers
  import opened Tables

  /** The non-id columns of `Shipping`. */
  datatype ShippingData = ShippingData(state: string, auction: string, rate: real)

  /** The non-id columns of `Car` (`modal` is the model name). */
  datatype CarData = CarData(name: string, modal: string, totalTax: real)

  /** `local.db`; a table is `None` until `initDB` creates it. The `Dollar`
      table has the single column `daily_price`. */
  datatype Db = Db(
    dollar: Option<Table<real>>,
    shipping: Option<Table<ShippingData>>,
    car: Option<Table<CarData>>)

  datatype DbError = NoSuchTable(table: string)

  /** A database file that has never been initialised. */
  const Fresh: Db := Db(None, None, None)

  function CreateIfMissing<R>(t: Option<Table<R>>): (r: Option<Table<R>>)
    ensures r.Some?
    ensures t.Some? ==> r == t
    ensures t.None? ==> r.value.rows == [] && r.value.lastId == 0
  {
    if t.Some? then t else Some(Empty())
  }

  /** `initDB`: `CREATE TABLE IF NOT EXISTS` for the three tables. Afterwards
      all three exist, and a table that already existed keeps all its rows
      and its id counter. */
  function InitDb(db: Db): (r: Db)
    ensures r.dollar.Some? && r.shipping.Some? && r.car.Some?
    ensures db.dollar.Some? ==> r.dollar == db.dollar
    ensures db.shipping.Some? ==> r.shipping == db.shipping
    ensures db.car.Some? ==> r.car == db.car
    ensures db.dollar.None? ==> r.dollar.value.rows == []
    ensures db.shipping.None? ==> r.shipping.value.rows == []
    ensures db.car.None? ==> r.car.value.rows == []
  {
    Db(CreateIfMissing(db.dollar), CreateIfMissing(db.shipping), CreateIfMissing(db.car))
  }

  /** Running `initDB` again changes nothing. */
  lemma InitDbIdempotent(db: Db)
    ensures InitDb(InitDb(db)) == InitDb(db)
  {
  }

  // ===== Dollar =====

  /** `addDollar`: appends one row with a fresh id; the other tables are untouched. */
  function AddDollar(db: Db, dailyPrice: real): (r: Result<Db, DbError>)
    ensures r.Failure? <==> db.dollar.None?
    ensures r.Success? ==> r.value.shipping == db.shipping && r.value.car == db.car
    ensures r.Success? ==>
      && r.value.dollar.Some?
      && r.value.dollar.value.lastId == db.dollar.value.lastId + 1
      && r.value.dollar.value.rows == db.dollar.value.rows + [Row(r.value.dollar.value.lastId, dailyPrice)]
  {
    if db.dollar.None? then Failure(NoSuchTable("Dollar"))
    else Success(db.(dollar := Some(Insert(db.dollar.value, dailyPrice))))
  }

  /** `getDollar`: every row, strictly newest (highest id) first. */
  function GetDollar(db: Db): (r: Result<seq<Row<real>>, DbError>)
    ensures r.Failure? <==> db.dollar.None?
    ensures r.Success? ==> Descending(r.value) && |r.value| == |db.dollar.value.rows|
    ensures r.Success? ==> forall i :: 0 <= i < |r.value| ==> r.value[i] in db.dollar.value.rows
    ensures r.Success? ==> forall i :: 0 <= i < |db.dollar.value.rows| ==> db.dollar.value.rows[i] in r.value
  {
    if db.dollar.None? then Failure(NoSuchTable("Dollar")) else Success(List(db.dollar.value))
  }

  /** `updateDollar`: rewrites `daily_price` of that id only; an unknown id is a no-op. */
  function UpdateDollar(db: Db, id: int, dailyPrice: real): (r: Result<Db, DbError>)
    ensures r.Failure? <==> db.dollar.None?
    ensures r.Success? ==> r.value.shipping == db.shipping && r.value.car == db.car
    ensures r.Success? ==>
      && r.value.dollar.Some?
      && Find(r.value.dollar.value.rows, id) == (if HasId(db.dollar.value.rows, id) then Some(dailyPrice) else None)
      && (forall k :: k != id ==> Find(r.value.dollar.value.rows, k) == Find(db.dollar.value.rows, k))
      && r.value.dollar.value.lastId == db.dollar.value.lastId
    ensures r.Success? && !HasId(db.dollar.value.rows, id) ==> r.value == db
  {
    if db.dollar.None? then Failure(NoSuchTable("Dollar"))
    else Success(db.(dollar := Some(Update(db.dollar.value, id, dailyPrice))))
  }

  /** `deleteDollar`: removes that id only; an unknown id is a no-op. */
  function DeleteDollar(db: Db, id: int): (r: Result<Db, DbError>)
    ensures r.Failure? <==> db.dollar.None?
    ensures r.Success? ==> r.value.shipping == db.shipping && r.value.car == db.car
    ensures r.Success? ==>
      && r.value.dollar.Some?
      && !HasId(r.value.dollar.value.rows, id)
      && r.value.dollar.value.rows == Without(db.dollar.value.rows, {id})
      && r.value.dollar.value.lastId == db.dollar.value.lastId
    ensures r.Success? && !HasId(db.dollar.value.rows, id) ==> r.value == db
  {
    if db.dollar.None? then Failure(NoSuchTable("Dollar"))
    else Success(db.(dollar := Some(Delete(db.dollar.value, id))))
  }

  // ===== Shipping =====

  /** `addShipping`: appends one row with a fresh id; the other tables are untouched. */
  function AddShipping(db: Db, state: string, auction: string, rate: real): (r: Result<Db, DbError>)
    ensures r.Failure? <==> db.shipping.None?
    ensures r.Success? ==> r.value.dollar == db.dollar && r.value.car == db.car
    ensures r.Success? ==>
      && r.value.shipping.Some?
      && r.value.shipping.value.lastId == db.shipping.value.lastId + 1
      && r.value.shipping.value.rows
         == db.shipping.value.rows + [Row(r.value.shipping.value.lastId, ShippingData(state, auction, rate))]
  {
    if db.shipping.None? then Failure(NoSuchTable("Shipping"))
    else Success(db.(shipping := Some(Insert(db.shipping.value, ShippingData(state, auction, rate)))))
  }

  /** `getShipping`: every row, strictly newest (highest id) first. */
  function GetShipping(db: Db): (r: Result<seq<Row<ShippingData>>, DbError>)
    ensures r.Failure? <==> db.shipping.None?
    ensures r.Success? ==> Descending(r.value) && |r.value| == |db.shipping.value.rows|
    ensures r.Success? ==> forall i :: 0 <= i < |r.value| ==> r.value[i] in db.shipping.value.rows
    ensures r.Success? ==> forall i :: 0 <= i < |db.shipping.value.rows| ==> db.shipping.value.rows[i] in r.value
  {
    if db.shipping.None? then Failure(NoSuchTable("Shipping")) else Success(List(db.shipping.value))
  }

  /** `updateShipping`: rewrites `state`, `auction`, `rate` of that id only;
      an unknown id is a no-op. */
  function UpdateShipping(db: Db, id: int, state: string, auction: string, rate: real): (r: Result<Db, DbError>)
    ensures r.Failure? <==> db.shipping.None?
    ensures r.Success? ==> r.value.dollar == db.dollar && r.value.car == db.car
    ensures r.Success? ==>
      && r.value.shipping.Some?
      && Find(r.value.shipping.value.rows, id)
         == (if HasId(db.shipping.value.rows, id) then Some(ShippingData(state, auction, rate)) else None)
      && (forall k :: k != id ==> Find(r.value.shipping.value.rows, k) == Find(db.shipping.value.rows, k))
      && r.value.shipping.value.lastId == db.shipping.value.lastId
    ensures r.Success? && !HasId(db.shipping.value.rows, id) ==> r.value == db
  {
    if db.shipping.None? then Failure(NoSuchTable("Shipping"))
    else Success(db.(shipping := Some(Update(db.shipping.value, id, ShippingData(state, auction, rate)))))
  }

  /** `deleteShipping`: removes that id only; an unknown id is a no-op. */
  function DeleteShipping(db: Db, id: int): (r: Result<Db, DbError>)
    ensures r.Failure? <==> db.shipping.None?
    ensures r.Success? ==> r.value.dollar == db.dollar && r.value.car == db.car
    ensures r.Success? ==>
      && r.value.shipping.Some?
      && !HasId(r.value.shipping.value.rows, id)
      && r.value.shipping.value.rows == Without(db.shipping.value.rows, {id})
      && r.value.shipping.value.lastId == db.shipping.value.lastId
    ensures r.Success? && !HasId(db.shipping.value.rows, id) ==> r.value == db
  {
    if db.shipping.None? then Failure(NoSuchTable("Shipping"))
    else Success(db.(shipping := Some(Delete(db.shipping.value, id))))
  }

  // ===== Car =====

  /** `addCar`: appends one row with a fresh id; the other tables are untouched. */
  function AddCar(db: Db, name: string, modal: string, totalTax: real): (r: Result<Db, DbError>)
    ensures r.Failure? <==> db.car.None?
    ensures r.Success? ==> r.value.dollar == db.dollar && r.value.shipping == db.shipping
    ensures r.Success? ==>
      && r.value.car.Some?
      && r.value.car.value.lastId == db.car.value.lastId + 1
      && r.value.car.value.rows == db.car.value.rows + [Row(r.value.car.value.lastId, CarData(name, modal, totalTax))]
  {
    if db.car.None? then Failure(NoSuchTable("Car"))
    else Success(db.(car := Some(Insert(db.car.value, CarData(name, modal, totalTax)))))
  }

  /** `getCar`: every row, strictly newest (highest id) first. */
  function GetCar(db: Db): (r: Result<seq<Row<CarData>>, DbError>)
    ensures r.Failure? <==> db.car.None?
    ensures r.Success? ==> Descending(r.value) && |r.value| == |db.car.value.rows|
    ensures r.Success? ==> forall i :: 0 <= i < |r.value| ==> r.value[i] in db.car.value.rows
    ensures r.Success? ==> forall i :: 0 <= i < |db.car.value.rows| ==> db.car.value.rows[i] in r.value
  {
    if db.car.None? then Failure(NoSuchTable("Car")) else Success(List(db.car.value))
  }

  /** `updateCar`: rewrites `name`, `modal`, `total_tax` of that id only;
      an unknown id is a no-op. */
  function UpdateCar(db: Db, id: int, name: string, modal: string, totalTax: real): (r: Result<Db, DbError>)
    ensures r.Failure? <==> db.car.None?
    ensures r.Success? ==> r.value.dollar == db.dollar && r.value.shipping == db.shipping
    ensures r.Success? ==>
      && r.value.car.Some?
      && Find(r.value.car.value.rows, id)
         == (if HasId(db.car.value.rows, id) then Some(CarData(name, modal, totalTax)) else None)
      && (forall k :: k != id ==> Find(r.value.car.value.rows, k) == Find(db.car.value.rows, k))
      && r.value.car.value.lastId == db.car.value.lastId
    ensures r.Success? && !HasId(db.car.value.rows, id) ==> r.value == db
  {
    if db.car.None? then Failure(NoSuchTable("Car"))
    else Success(db.(car := Some(Update(db.car.value, id, CarData(name, modal, totalTax)))))
  }

  /** `deleteCar`: removes that id only; an unknown id is a no-op. */
  function DeleteCar(db: Db, id: int): (r: Result<Db, DbError>)
    ensures r.Failure? <==> db.car.None?
    ensures r.Success? ==> r.value.dollar == db.dollar && r.value.shipping == db.shipping
    ensures r.Success? ==>
      && r.value.car.Some?
      && !HasId(r.value.car.value.rows, id)
      && r.value.car.value.rows == Without(db.car.value.rows, {id})
      && r.value.car.value.lastId == db.car.value.lastId
    ensures r.Success? && !HasId(db.car.value.rows, id) ==> r.value == db
  {
    if db.car.None? then Failure(NoSuchTable("Car"))
    else Success(db.(car := Some(Delete(db.car.value, id))))
  }

  /** The "current" exchange rate is the head of `getDollar`: the row with the
      highest id. Deleting that row makes the next-highest id current. */
  lemma DeletingCurrentRate(db: Db)
    requires db.dollar.Some? && |db.dollar.value.rows| > 0
    ensures GetDollar(db).Success? && |GetDollar(db).value| > 0
    ensures var cur := GetDollar(db).value[0];
      forall i :: 0 <= i < |db.dollar.value.rows| ==> db.dollar.value.rows[i].id <= cur.id
    ensures var cur := GetDollar(db).value[0];
      var after := GetDollar(DeleteDollar(db, cur.id).value);
      after.Success? && |after.value| == |db.dollar.value.rows| - 1
      && (|after.value| > 0 ==> after.value[0] == GetDollar(db).value[1])
  {
    var t := db.dollar.value;
    DeleteNewest(t);
    assert Newest(t).value == List(t)[0];
  }
}
