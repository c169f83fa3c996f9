/** The car accordion of components/CarsCard.tsx: the shape check on loaded
    data, grouping cars by name, the group and car totals, the one-open-group
    accordion and the guarded dollar rate. */
module CarsCard {
  import opened Wrappers
  import opened Tables
  import opened Store
  import Rates
  import Collections

  /** A JavaScript value as the data source may return it. `NaN` is not
      modelled. */
  datatype JsValue =
    | JsUndefined
    | JsNull
    | JsBool(b: bool)
    | JsNumber(n: real)
    | JsString(s: string)
    | JsArray(items: seq<JsValue>)
    | JsObject(fields: map<string, JsValue>)

  /** JavaScript truthiness. */
  predicate Truthy(v: JsValue) {
    match v
    case JsUndefined => false
    case JsNull => false
    case JsBool(b) => b
    case JsNumber(n) => n != 0.0
    case JsString(s) => s != ""
    case JsArray(_) => true
    case JsObject(_) => true
  }

  /** Property access `v[key]` for the keys `id` and `name`, which no built-in
      prototype defines: an own field of an object, else `undefined`. */
  function Get(v: JsValue, key: string): JsValue {
    if v.JsObject? && key in v.fields then v.fields[key] else JsUndefined
  }

  predicate IsCarLike(v: JsValue) {
    Truthy(v) && Get(v, "id").JsNumber? && Get(v, "name").JsString?
  }

  /** `validateCarsData`: an array whose every element is an object with a
      numeric `id` and a string `name` (the truthiness test adds nothing,
      since only objects have those properties). The empty array passes. */
  function ValidateCarsData(data: JsValue): (ok: bool)
    ensures ok <==> data.JsArray? && forall i :: 0 <= i < |data.items| ==>
      && data.items[i].JsObject?
      && "id" in data.items[i].fields && data.items[i].fields["id"].JsNumber?
      && "name" in data.items[i].fields && data.items[i].fields["name"].JsString?
    ensures data == JsArray([]) ==> ok
  {
    data.JsArray? && forall i :: 0 <= i < |data.items| ==> IsCarLike(data.items[i])
  }

  /** A validated car: its `id`, its `name` and the whole loaded object. */
  datatype LoadedCar = LoadedCar(id: real, name: string, raw: JsValue)

  /** One validated element read as a car. */
  function CarOf(v: JsValue): (c: LoadedCar)
    requires IsCarLike(v)
    ensures Get(v, "name") == JsString(c.name) && Get(v, "id") == JsNumber(c.id) && c.raw == v
  {
    LoadedCar(Get(v, "id").n, Get(v, "name").s, v)
  }

  /** The validated array read as cars (the `data is Car[]` narrowing). */
  function AsCars(items: seq<JsValue>): (cars: seq<LoadedCar>)
    requires forall i :: 0 <= i < |items| ==> IsCarLike(items[i])
    ensures |cars| == |items|
    ensures forall i :: 0 <= i < |items| ==> cars[i] == CarOf(items[i])
  {
    if |items| == 0 then [] else [CarOf(items[0])] + AsCars(items[1..])
  }

  // ========== Grouping ==========

  /** One accordion group: a name and the cars carrying it. */
  datatype Group = Group(name: string, cars: seq<LoadedCar>)

  /** The cars named `name`, in input order. */
  function WithName(cars: seq<LoadedCar>, name: string): (r: seq<LoadedCar>)
    ensures |r| <= |cars|
    ensures forall i :: 0 <= i < |r| ==> r[i] in cars && r[i].name == name
    ensures forall i :: 0 <= i < |cars| && cars[i].name == name ==> cars[i] in r
  {
    if |cars| == 0 then []
    else (if cars[0].name == name then [cars[0]] else []) + WithName(cars[1..], name)
  }

  /** `WithName` is `cars.filter(c => c.name === name)`: so it keeps the cars of
      that name in input order and each as often as it occurs. */
  lemma {:induction false} WithNameIsFilter(cars: seq<LoadedCar>, name: string, keep: LoadedCar -> bool)
    requires forall c :: keep(c) <==> c.name == name
    ensures WithName(cars, name) == Collections.Filter(cars, keep)
    ensures Collections.IsSubsequence(WithName(cars, name), cars)
    ensures forall i :: 0 <= i < |cars| && cars[i].name == name ==>
      multiset(WithName(cars, name))[cars[i]] == multiset(cars)[cars[i]]
  {
    if |cars| > 0 {
      WithNameIsFilter(cars[1..], name, keep);
    }
    Collections.FilterCounts(cars, keep);
  }

  lemma {:induction false} WithNameAppend(cars: seq<LoadedCar>, c: LoadedCar, name: string)
    ensures WithName(cars + [c], name) == WithName(cars, name) + (if c.name == name then [c] else [])
  {
    if |cars| > 0 {
      WithNameAppend(cars[1..], c, name);
      assert (cars + [c])[1..] == cars[1..] + [c];
    } else {
      assert cars + [c] == [c];
    }
  }

  /** The set of names in a list of cars. */
  function CarNames(cars: seq<LoadedCar>): set<string> {
    set i | 0 <= i < |cars| :: cars[i].name
  }

  predicate HasGroup(groups: seq<Group>, name: string) {
    exists i :: 0 <= i < |groups| && groups[i].name == name
  }

  predicate DistinctNames(groups: seq<Group>) {
    forall i, j :: 0 <= i < j < |groups| ==> groups[i].name != groups[j].name
  }

  /** Each group is non-empty and holds exactly the cars of its name. */
  ghost predicate GroupsHold(groups: seq<Group>, cars: seq<LoadedCar>) {
    forall i :: 0 <= i < |groups| ==>
      |groups[i].cars| > 0 && groups[i].cars == WithName(cars, groups[i].name)
  }

  /** Every car has a group of its name. */
  ghost predicate Covers(groups: seq<Group>, cars: seq<LoadedCar>) {
    forall j :: 0 <= j < |cars| ==> HasGroup(groups, cars[j].name)
  }

  /** `groups` is the grouping of `cars` by name: one group per distinct name,
      each holding exactly the cars of that name in input order. */
  ghost predicate IsGrouping(groups: seq<Group>, cars: seq<LoadedCar>) {
    DistinctNames(groups) && GroupsHold(groups, cars) && Covers(groups, cars)
  }

  /** `totalCarsCount`: the sum of the group sizes. */
  function TotalCars(groups: seq<Group>): nat {
    if |groups| == 0 then 0 else |groups[0].cars| + TotalCars(groups[1..])
  }

  /** The total bounds every group's size, and is 0 exactly when every group
      is empty. */
  lemma {:induction false} TotalCarsBounds(groups: seq<Group>)
    ensures forall i :: 0 <= i < |groups| ==> |groups[i].cars| <= TotalCars(groups)
    ensures TotalCars(groups) == 0 <==> forall i :: 0 <= i < |groups| ==> |groups[i].cars| == 0
  {
    if |groups| > 0 {
      TotalCarsBounds(groups[1..]);
      assert forall i :: 1 <= i < |groups| ==> groups[i] == groups[1..][i - 1];
    }
  }

  /** One step of the `reduce`: appends the car to the group of its name,
      creating that group at the end when it is new. */
  function AddToGroups(groups: seq<Group>, car: LoadedCar): (r: seq<Group>)
    requires DistinctNames(groups)
    ensures DistinctNames(r)
    ensures HasGroup(groups, car.name) ==> |r| == |groups|
    ensures !HasGroup(groups, car.name) ==> r == groups + [Group(car.name, [car])]
    ensures forall i :: 0 <= i < |groups| ==>
      && r[i].name == groups[i].name
      && r[i].cars == groups[i].cars + (if groups[i].name == car.name then [car] else [])
    ensures TotalCars(r) == TotalCars(groups) + 1
  {
    if |groups| == 0 then [Group(car.name, [car])]
    else if groups[0].name == car.name then
      FirstGroupOnly(groups);
      [groups[0].(cars := groups[0].cars + [car])] + groups[1..]
    else
      HasGroupTail(groups, car.name);
      var rest := AddToGroups(groups[1..], car);
      assert ([groups[0]] + rest)[1..] == rest;
      [groups[0]] + rest
  }

  lemma HasGroupTail(groups: seq<Group>, name: string)
    requires |groups| > 0 && groups[0].name != name
    ensures HasGroup(groups, name) <==> HasGroup(groups[1..], name)
  {
    if HasGroup(groups, name) {
      var i :| 0 <= i < |groups| && groups[i].name == name;
      assert groups[1..][i - 1].name == name;
    }
    if HasGroup(groups[1..], name) {
      var i :| 0 <= i < |groups[1..]| && groups[1..][i].name == name;
      assert groups[i + 1].name == name;
    }
  }

  /** With distinct names, the first group's name appears nowhere after it. */
  lemma FirstGroupOnly(groups: seq<Group>)
    requires |groups| > 0 && DistinctNames(groups)
    ensures forall i :: 0 <= i < |groups[1..]| ==> groups[1..][i].name != groups[0].name
    ensures DistinctNames(groups[1..])
  {
  }

  /** The grouping `reduce` of `loadCars`, with groups in order of first
      appearance (the insertion order of the accumulator's keys). It
      partitions the cars by name, keeps each group in input order, has as
      many groups as distinct names, and its total is the number of cars. */
  function GroupCars(cars: seq<LoadedCar>): (groups: seq<Group>)
    ensures IsGrouping(groups, cars)
    ensures TotalCars(groups) == |cars|
    ensures |groups| == |CarNames(cars)|
    decreases |cars|
  {
    if |cars| == 0 then []
    else
      var n := |cars| - 1;
      var prev := GroupCars(cars[..n]);
      GroupStep(prev, cars);
      AddToGroups(prev, cars[n])
  }

  /** Recording the last car: if `prev` groups all cars but the last, adding
      the last car to it groups them all. */
  lemma GroupStep(prev: seq<Group>, cars: seq<LoadedCar>)
    requires |cars| > 0
    requires IsGrouping(prev, cars[..|cars| - 1])
    requires |prev| == |CarNames(cars[..|cars| - 1])| && TotalCars(prev) == |cars| - 1
    ensures IsGrouping(AddToGroups(prev, cars[|cars| - 1]), cars)
    ensures TotalCars(AddToGroups(prev, cars[|cars| - 1])) == |cars|
    ensures |AddToGroups(prev, cars[|cars| - 1])| == |CarNames(cars)|
  {
    var prefix, c := cars[..|cars| - 1], cars[|cars| - 1];
    assert prefix + [c] == cars;
    if HasGroup(prev, c.name) {
      NamedGroupHasCars(prev, prefix, c.name);
    } else {
      NoGroupNoCars(prev, prefix, c.name);
    }
    GroupStepHolds(prev, prefix, c);
    GroupStepCovers(prev, prefix, c);
    GroupStepCount(prev, prefix, c);
  }

  /** A name that has a group names some car. */
  lemma NamedGroupHasCars(prev: seq<Group>, prefix: seq<LoadedCar>, name: string)
    requires GroupsHold(prev, prefix) && HasGroup(prev, name)
    ensures name in CarNames(prefix)
  {
    var i :| 0 <= i < |prev| && prev[i].name == name;
    var x := WithName(prefix, name)[0];
    var j :| 0 <= j < |prefix| && prefix[j] == x;
    assert prefix[j].name == name;
  }

  /** A name without a group names no car. */
  lemma NoGroupNoCars(prev: seq<Group>, prefix: seq<LoadedCar>, name: string)
    requires Covers(prev, prefix) && !HasGroup(prev, name)
    ensures name !in CarNames(prefix)
    ensures WithName(prefix, name) == []
  {
    forall j | 0 <= j < |prefix| ensures prefix[j].name != name {
      assert HasGroup(prev, prefix[j].name);
    }
    WithNameNone(prefix, name);
  }

  lemma {:induction false} WithNameNone(cars: seq<LoadedCar>, name: string)
    requires forall j :: 0 <= j < |cars| ==> cars[j].name != name
    ensures WithName(cars, name) == []
  {
    if |cars| > 0 {
      WithNameNone(cars[1..], name);
    }
  }

  lemma GroupStepHolds(prev: seq<Group>, prefix: seq<LoadedCar>, c: LoadedCar)
    requires DistinctNames(prev) && GroupsHold(prev, prefix)
    requires !HasGroup(prev, c.name) ==> WithName(prefix, c.name) == []
    ensures GroupsHold(AddToGroups(prev, c), prefix + [c])
  {
    var r := AddToGroups(prev, c);
    forall i | 0 <= i < |r|
      ensures |r[i].cars| > 0 && r[i].cars == WithName(prefix + [c], r[i].name)
    {
      WithNameAppend(prefix, c, r[i].name);
    }
  }

  lemma GroupStepCovers(prev: seq<Group>, prefix: seq<LoadedCar>, c: LoadedCar)
    requires DistinctNames(prev) && Covers(prev, prefix)
    ensures Covers(AddToGroups(prev, c), prefix + [c])
  {
    var r := AddToGroups(prev, c);
    var cars := prefix + [c];
    forall j | 0 <= j < |cars|
      ensures HasGroup(r, cars[j].name)
    {
      if j < |prefix| {
        assert cars[j] == prefix[j];
        var i :| 0 <= i < |prev| && prev[i].name == prefix[j].name;
        assert r[i].name == cars[j].name;
      } else if HasGroup(prev, c.name) {
        var i :| 0 <= i < |prev| && prev[i].name == c.name;
        assert r[i].name == c.name;
      } else {
        assert r[|prev|].name == c.name;
      }
    }
  }

  lemma CarNamesAppend(prefix: seq<LoadedCar>, c: LoadedCar)
    ensures CarNames(prefix + [c]) == CarNames(prefix) + {c.name}
  {
    var cars := prefix + [c];
    forall x | x in CarNames(cars) ensures x in CarNames(prefix) + {c.name} {
      var j :| 0 <= j < |cars| && cars[j].name == x;
      if j < |prefix| { assert prefix[j] == cars[j]; }
    }
    forall x | x in CarNames(prefix) ensures x in CarNames(cars) {
      var j :| 0 <= j < |prefix| && prefix[j].name == x;
      assert cars[j] == prefix[j];
    }
    assert cars[|prefix|] == c;
  }

  lemma GroupStepCount(prev: seq<Group>, prefix: seq<LoadedCar>, c: LoadedCar)
    requires DistinctNames(prev)
    requires |prev| == |CarNames(prefix)|
    requires HasGroup(prev, c.name) <==> c.name in CarNames(prefix)
    ensures |AddToGroups(prev, c)| == |CarNames(prefix + [c])|
  {
    CarNamesAppend(prefix, c);
  }

  /** Every car is in exactly the group of its own name. */
  lemma CarInOwnGroupOnly(groups: seq<Group>, cars: seq<LoadedCar>, j: int, i: int)
    requires IsGrouping(groups, cars)
    requires 0 <= j < |cars| && 0 <= i < |groups|
    ensures cars[j] in groups[i].cars <==> groups[i].name == cars[j].name
  {
  }

  // ========== Accordion state ==========

  /** `toggleGroup`: the open group, if any, is kept in one optional name, so
      at most one group is open at a time. */
  function ToggleGroup(open: Option<string>, name: string): (r: Option<string>)
    ensures r.Some? ==> r.value == name
    ensures r == Some(name) <==> open != Some(name)
  {
    if open == Some(name) then None else Some(name)
  }

  /** After a toggle the group `g` is open exactly when it is the toggled
      group and that group was closed before. */
  lemma ToggleGroupOpens(open: Option<string>, name: string, g: string)
    ensures ToggleGroup(open, name) == Some(g) <==> g == name && open != Some(name)
  {
  }

  /** The state hooks of the accordion. */
  datatype Card = Card(groups: seq<Group>, openGroup: Option<string>, error: Option<CardError>, dollarRate: real)

  datatype CardError = LoadCarsFailed | LoadDollarFailed

  const InitialCard: Card := Card([], None, None, 0.0)

  /** `loadCars` on the loaded value: data that fails validation sets the error
      and installs no groups; valid data replaces the groups by its grouping. */
  function LoadCars(c: Card, data: JsValue): (r: (Card, bool))
    ensures r.1 <==> ValidateCarsData(data)
    ensures !r.1 ==> r.0 == c.(error := Some(LoadCarsFailed))
    ensures r.1 ==>
      && r.0.(groups := c.groups) == c
      && IsGrouping(r.0.groups, AsCars(data.items))
      && TotalCars(r.0.groups) == |data.items|
  {
    if !ValidateCarsData(data) then (c.(error := Some(LoadCarsFailed)), false)
    else (c.(groups := GroupCars(AsCars(data.items))), true)
  }

  /** `loadDollarRate`: the rate is set only when the newest `Dollar` row
      exists and is positive, so the rate is never made non-positive; a failed
      query sets the error. */
  function LoadDollarRate(c: Card, db: Db): (r: (Card, bool))
    ensures r.1 <==> GetDollar(db).Success? && |GetDollar(db).value| > 0 && GetDollar(db).value[0].data > 0.0
    ensures r.1 ==> r.0 == c.(dollarRate := GetDollar(db).value[0].data)
    ensures !r.1 && GetDollar(db).Success? ==> r.0 == c
    ensures GetDollar(db).Failure? ==> r.0 == c.(error := Some(LoadDollarFailed))
    ensures r.0.dollarRate == c.dollarRate || r.0.dollarRate > 0.0
  {
    match GetDollar(db)
    case Failure(_) => (c.(error := Some(LoadDollarFailed)), false)
    case Success(rows) =>
      if |rows| > 0 && rows[0].data > 0.0 then (c.(dollarRate := rows[0].data), true) else (c, false)
  }

  /** Starting from the initial rate of 0, the accordion's rate is never
      negative, so every displayed dollar amount is either 0 or the tax divided
      by a positive rate. */
  lemma RateNeverNegative(db: Db)
    ensures LoadDollarRate(InitialCard, db).0.dollarRate >= 0.0
  {
  }

  /** `dollarAmount` of one car of the accordion. */
  function CarDollarAmount(c: Card, totalTax: real): (r: real)
    ensures c.dollarRate <= 0.0 ==> r == 0.0
    ensures c.dollarRate > 0.0 ==> r * c.dollarRate == totalTax
  {
    Rates.DollarAmount(totalTax, c.dollarRate)
  }

  // ========== The grouping as written ==========

  /** The names of the properties every plain object inherits from
      `Object.prototype`. `acc[key]` on the `{}` accumulator reads them, finds
      a truthy non-array, and `push` then throws a `TypeError`. */
  const ObjectPrototypeKeys: set<string> := {
    "constructor", "__proto__", "toString", "toLocaleString", "valueOf",
    "hasOwnProperty", "isPrototypeOf", "propertyIsEnumerable",
    "__defineGetter__", "__defineSetter__", "__lookupGetter__", "__lookupSetter__"
  }

  /** The `reduce` exactly as written over a plain-object accumulator: it
      throws as soon as a car's name is an inherited property name, and the
      load then fails; otherwise it is the grouping. */
  function GroupCarsAsWritten(cars: seq<LoadedCar>): (r: Result<seq<Group>, string>)
    ensures r.Failure? <==> exists j :: 0 <= j < |cars| && cars[j].name in ObjectPrototypeKeys
    ensures r.Success? ==> r.value == GroupCars(cars)
  {
    if exists j :: 0 <= j < |cars| && cars[j].name in ObjectPrototypeKeys then
      Failure("TypeError: acc[key].push is not a function")
    else Success(GroupCars(cars))
  }

  /** `loadCars` exactly as written: invalid data and a grouping that throws
      both land in the `catch`, which sets the error and reports failure. */
  function LoadCarsAsWritten(c: Card, data: JsValue): (r: (Card, bool))
    ensures !ValidateCarsData(data) ==> r == (c.(error := Some(LoadCarsFailed)), false)
    ensures ValidateCarsData(data) ==> (r.1 <==> GroupCarsAsWritten(AsCars(data.items)).Success?)
    ensures !r.1 ==> r.0 == c.(error := Some(LoadCarsFailed))
    ensures r.1 ==> r == LoadCars(c, data)
  {
    if !ValidateCarsData(data) then (c.(error := Some(LoadCarsFailed)), false)
    else match GroupCarsAsWritten(AsCars(data.items))
      case Failure(_) => (c.(error := Some(LoadCarsFailed)), false)
      case Success(groups) => (c.(groups := groups), true)
  }

  /** The corrected load differs from the load as written exactly when valid
      data holds a car named after an inherited property: there the app shows
      the load error instead of the cars. */
  lemma LoadCarsDiffersOnlyOnPrototypeNames(c: Card, data: JsValue)
    ensures !ValidateCarsData(data) ==> LoadCarsAsWritten(c, data) == LoadCars(c, data)
    ensures ValidateCarsData(data) ==>
      (LoadCarsAsWritten(c, data) == LoadCars(c, data) <==> GroupCarsAsWritten(AsCars(data.items)).Success?)
  {
    if ValidateCarsData(data) {
      assert LoadCars(c, data).1;
    }
  }

  /** A single car named "constructor" cannot be loaded as written, although
      its grouping is one group holding that car. */
  lemma ConstructorNameBreaksGrouping()
    ensures var cars := [LoadedCar(1.0, "constructor", JsNull)];
      && GroupCarsAsWritten(cars).Failure?
      && GroupCars(cars) == [Group("constructor", cars)]
  {
    var cars := [LoadedCar(1.0, "constructor", JsNull)];
    assert cars[0].name in ObjectPrototypeKeys;
    assert cars[..0] == [];
  }
}
