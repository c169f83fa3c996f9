/** The list-management logic of components/ManagementScreen.tsx: one screen
    that edits either the car list or the shipping list. Rendering, alerts and
    confirmation dialogs are not modelled; a confirmed dialog is the call of
    the corresponding transition. */
module ManagementScreen {
  import opened Wrappers
  import opened Tables
  import opened Store
  import Text
  import Collections
  import Rates

  /** `ScreenMode`. */
  datatype Mode = Cars | ShippingMode

  /** The text fields of the form, as typed. */
  datatype Form = Form(
    name: string, modal: string, totalTax: string,
    stateValue: string, auction: string, rate: string)

  const EmptyForm: Form := Form("", "", "", "", "", "")

  /** The two validation messages (`STRINGS.validation`). */
  datatype ValidationError = Required | InvalidNumber

  /** `PAGE_SIZE` */
  const PageSize: nat := 5

  /** The fields that must be non-blank in each mode. */
  function RequiredFields(form: Form, mode: Mode): seq<string> {
    if mode == Cars then [form.name, form.modal, form.totalTax]
    else [form.stateValue, form.auction, form.rate]
  }

  /** The field that must hold a positive number in each mode. */
  function NumericField(form: Form, mode: Mode): string {
    if mode == Cars then form.totalTax else form.rate
  }

  /** `parseFloat(text)` yields a number greater than zero. `parseFloat` is a
      parameter (`None` stands for `NaN`). */
  predicate ParsesPositive(text: string, parseFloat: string -> Option<real>) {
    parseFloat(text).Some? && parseFloat(text).value > 0.0
  }

  /** `validateForm`: "required" when some field of the mode is white space
      only, checked before any number is parsed; otherwise "invalidNumber"
      unless the numeric field parses to a positive number; otherwise no error. */
  function ValidateForm(form: Form, mode: Mode, parseFloat: string -> Option<real>): (r: Option<ValidationError>)
    ensures r == Some(Required) <==>
      exists i :: 0 <= i < 3 && Text.AllSpace(RequiredFields(form, mode)[i])
    ensures r == Some(InvalidNumber) <==>
      (forall i :: 0 <= i < 3 ==> !Text.AllSpace(RequiredFields(form, mode)[i]))
      && !ParsesPositive(NumericField(form, mode), parseFloat)
    ensures r == None ==> ParsesPositive(NumericField(form, mode), parseFloat)
  {
    var fields := RequiredFields(form, mode);
    SomeFieldBlank(fields);
    if Text.IsBlank(fields[0]) || Text.IsBlank(fields[1]) || Text.IsBlank(fields[2]) then
      Some(Required)
    else
      var v := parseFloat(NumericField(form, mode));
      if v.None? || v.value <= 0.0 then Some(InvalidNumber) else None
  }

  lemma SomeFieldBlank(fields: seq<string>)
    requires |fields| == 3
    ensures (Text.IsBlank(fields[0]) || Text.IsBlank(fields[1]) || Text.IsBlank(fields[2])) <==>
      exists i :: 0 <= i < 3 && Text.AllSpace(fields[i])
  {
    Text.BlankIffAllSpace(fields[0]);
    Text.BlankIffAllSpace(fields[1]);
    Text.BlankIffAllSpace(fields[2]);
  }

  // ========== Search, pagination ==========

  /** A car is kept when its lower-cased name or model contains the
      lower-cased search text. */
  predicate CarMatches(car: Row<CarData>, searchText: string) {
    var needle := Text.Lower(searchText);
    Text.Includes(Text.Lower(car.data.name), needle) || Text.Includes(Text.Lower(car.data.modal), needle)
  }

  /** A shipping row is kept when its lower-cased state or auction contains the
      lower-cased search text, or when the string form of its rate contains
      the search text as typed. `showNumber` is `Number.prototype.toString`. */
  predicate ShippingMatches(s: Row<ShippingData>, searchText: string, showNumber: real -> string) {
    var needle := Text.Lower(searchText);
    || Text.Includes(Text.Lower(s.data.state), needle)
    || Text.Includes(Text.Lower(s.data.auction), needle)
    || Text.Includes(showNumber(s.data.rate), searchText)
  }

  /** `filteredItems` in car mode. */
  function FilteredCars(items: seq<Row<CarData>>, searchText: string): (r: seq<Row<CarData>>)
    ensures Text.AllSpace(searchText) ==> r == items
    ensures Collections.IsSubsequence(r, items)
    ensures !Text.AllSpace(searchText) ==>
      && (forall i :: 0 <= i < |r| ==> CarMatches(r[i], searchText))
      && (forall i :: 0 <= i < |items| && CarMatches(items[i], searchText) ==> items[i] in r)
  {
    Text.BlankIffAllSpace(searchText);
    if Text.IsBlank(searchText) then
      Collections.FilterKeepsAll(items, (_: Row<CarData>) => true);
      items
    else
      Collections.Filter(items, (c: Row<CarData>) => CarMatches(c, searchText))
  }

  /** `filteredItems` in shipping mode. */
  function FilteredShipping(items: seq<Row<ShippingData>>, searchText: string, showNumber: real -> string)
    : (r: seq<Row<ShippingData>>)
    ensures Text.AllSpace(searchText) ==> r == items
    ensures Collections.IsSubsequence(r, items)
    ensures !Text.AllSpace(searchText) ==>
      && (forall i :: 0 <= i < |r| ==> ShippingMatches(r[i], searchText, showNumber))
      && (forall i :: 0 <= i < |items| && ShippingMatches(items[i], searchText, showNumber) ==> items[i] in r)
  {
    Text.BlankIffAllSpace(searchText);
    if Text.IsBlank(searchText) then
      Collections.FilterKeepsAll(items, (_: Row<ShippingData>) => true);
      items
    else
      Collections.Filter(items, (s: Row<ShippingData>) => ShippingMatches(s, searchText, showNumber))
  }

  /** A car matches exactly when the lower-cased search text occurs somewhere
      in its lower-cased name or model. */
  lemma CarMatchesIffOccurs(car: Row<CarData>, searchText: string)
    ensures CarMatches(car, searchText) <==>
      || (exists k :: Text.OccursAt(Text.Lower(car.data.name), Text.Lower(searchText), k))
      || (exists k :: Text.OccursAt(Text.Lower(car.data.modal), Text.Lower(searchText), k))
  {
    Text.IncludesIffOccurs(Text.Lower(car.data.name), Text.Lower(searchText));
    Text.IncludesIffOccurs(Text.Lower(car.data.modal), Text.Lower(searchText));
  }

  /** `filteredItems.slice(0, page * PAGE_SIZE)`: the first `page` pages. */
  function Paginate<T>(filtered: seq<T>, page: nat): (r: seq<T>)
    ensures |r| == if page * PageSize < |filtered| then page * PageSize else |filtered|
    ensures r == filtered[..|r|]
  {
    if page * PageSize < |filtered| then filtered[..page * PageSize] else filtered
  }

  /** `hasMore`: the shown prefix is shorter than the filtered list. */
  function HasMore<T>(filtered: seq<T>, page: nat): (b: bool)
    ensures b <==> page * PageSize < |filtered|
    ensures !b ==> Paginate(filtered, page) == filtered
  {
    |Paginate(filtered, page)| < |filtered|
  }

  /** `loadMore` only extends what is shown: each page's prefix is a prefix of
      the next one's, and one more page shows up to five more items. */
  lemma LoadMoreExtends<T>(filtered: seq<T>, page: nat)
    ensures Paginate(filtered, page) <= Paginate(filtered, page + 1)
    ensures |Paginate(filtered, page + 1)| <= |Paginate(filtered, page)| + PageSize
    ensures HasMore(filtered, page) ==> |Paginate(filtered, page)| < |Paginate(filtered, page + 1)|
  {
  }

  // ========== Screen state and handlers ==========

  /** The state hooks of the screen that carry logic. */
  datatype Screen = Screen(
    mode: Mode,
    searchText: string,
    page: nat,
    isBulkMode: bool,
    selected: set<int>,
    editingId: Option<int>,
    form: Form,
    dollarRate: real,
    cars: seq<Row<CarData>>,
    shippings: seq<Row<ShippingData>>)

  /** The screen as first rendered. */
  function Initial(mode: Mode): (s: Screen)
    ensures s.page == 1 && s.dollarRate == 1.0 && !s.isBulkMode && s.selected == {}
    ensures s.editingId == None && s.form == EmptyForm && s.searchText == ""
  {
    Screen(mode, "", 1, false, {}, None, EmptyForm, 1.0, [], [])
  }

  /** The screen state together with the database it edits. */
  datatype App = App(db: Db, screen: Screen)

  /** `handleSearch`: takes the new search text and goes back to page one. */
  function HandleSearch(s: Screen, text: string): (r: Screen)
    ensures r.searchText == text && r.page == 1
    ensures r.(searchText := s.searchText, page := s.page) == s
  {
    s.(searchText := text, page := 1)
  }

  /** `loadMore` */
  function LoadMore(s: Screen): (r: Screen)
    ensures r.page == s.page + 1
    ensures r.(page := s.page) == s
  {
    s.(page := s.page + 1)
  }

  /** `toggleBulkMode`: flips bulk mode and always empties the selection. */
  function ToggleBulkMode(s: Screen): (r: Screen)
    ensures r.isBulkMode == !s.isBulkMode && r.selected == {}
    ensures r.(isBulkMode := s.isBulkMode, selected := s.selected) == s
  {
    s.(isBulkMode := !s.isBulkMode, selected := {})
  }

  /** `toggleSelectItem`: flips the membership of `id` and of nothing else. */
  function ToggleSelectItem(s: Screen, id: int): (r: Screen)
    ensures id in r.selected <==> id !in s.selected
    ensures forall x :: x != id ==> (x in r.selected <==> x in s.selected)
    ensures r.(selected := s.selected) == s
  {
    s.(selected := Collections.Toggle(s.selected, id))
  }

  /** Selecting the same item twice gives back the selection. */
  lemma ToggleSelectTwice(s: Screen, id: int)
    ensures ToggleSelectItem(ToggleSelectItem(s, id), id) == s
  {
    Collections.ToggleTwice(s.selected, id);
  }

  /** `loadDollarRate`: the first row of `getDollar` (the highest id) becomes
      the rate, whatever its value; with no row, or a failed query, the rate
      stays as it was. */
  function LoadDollarRate(app: App): (r: Screen)
    ensures r.(dollarRate := app.screen.dollarRate) == app.screen
    ensures match GetDollar(app.db)
      case Success(rows) =>
        (|rows| > 0 ==>
          && r.dollarRate == rows[0].data
          && forall i :: 0 <= i < |rows| ==> rows[i].id <= rows[0].id)
        && (|rows| == 0 ==> r.dollarRate == app.screen.dollarRate)
      case Failure(_) => r.dollarRate == app.screen.dollarRate
  {
    match GetDollar(app.db)
    case Success(rows) =>
      if |rows| > 0 then app.screen.(dollarRate := rows[0].data) else app.screen
    case Failure(_) => app.screen
  }

  /** `loadCars` / `loadShippings`: replaces the list of the current mode by the
      newest-first rows of its table and goes back to page one; a failed query
      leaves the screen as it was. */
  function Reload(app: App): (r: Screen)
    ensures r.(cars := app.screen.cars, shippings := app.screen.shippings, page := app.screen.page) == app.screen
    ensures app.screen.mode == Cars ==> match GetCar(app.db)
      case Success(rows) => r == app.screen.(cars := rows, page := 1)
      case Failure(_) => r == app.screen
    ensures app.screen.mode == ShippingMode ==> match GetShipping(app.db)
      case Success(rows) => r == app.screen.(shippings := rows, page := 1)
      case Failure(_) => r == app.screen
  {
    if app.screen.mode == Cars then
      match GetCar(app.db)
      case Success(rows) => app.screen.(cars := rows, page := 1)
      case Failure(_) => app.screen
    else
      match GetShipping(app.db)
      case Success(rows) => app.screen.(shippings := rows, page := 1)
      case Failure(_) => app.screen
  }

  /** The store call `handleSave` issues. */
  datatype SaveCall =
    | AddCarCall(name: string, modal: string, totalTax: real)
    | UpdateCarCall(id: int, name: string, modal: string, totalTax: real)
    | AddShippingCall(state: string, auction: string, rate: real)
    | UpdateShippingCall(id: int, state: string, auction: string, rate: real)

  /** The dispatch of `handleSave`: nothing when validation fails; otherwise an
      update of `editingId` when one is set (and, as `isEditing && editingId`
      is written, non-zero), else an add. The text fields go to the store as
      typed (untrimmed) and the number is the positive `parseFloat` result. */
  function SaveDispatch(form: Form, mode: Mode, editingId: Option<int>, parseFloat: string -> Option<real>)
    : (r: Result<SaveCall, ValidationError>)
    ensures r.Failure? <==> ValidateForm(form, mode, parseFloat).Some?
    ensures r.Failure? ==> r.error == ValidateForm(form, mode, parseFloat).value
    ensures r.Success? ==> ParsesPositive(NumericField(form, mode), parseFloat)
    ensures r.Success? && mode == Cars ==>
      var tax := parseFloat(form.totalTax).value;
      r.value == if editingId.Some? && editingId.value != 0
                 then UpdateCarCall(editingId.value, form.name, form.modal, tax)
                 else AddCarCall(form.name, form.modal, tax)
    ensures r.Success? && mode == ShippingMode ==>
      var rate := parseFloat(form.rate).value;
      r.value == if editingId.Some? && editingId.value != 0
                 then UpdateShippingCall(editingId.value, form.stateValue, form.auction, rate)
                 else AddShippingCall(form.stateValue, form.auction, rate)
  {
    match ValidateForm(form, mode, parseFloat)
    case Some(e) => Failure(e)
    case None =>
      var editing := editingId.Some? && editingId.value != 0;
      if mode == Cars then
        var tax := parseFloat(form.totalTax).value;
        Success(if editing then UpdateCarCall(editingId.value, form.name, form.modal, tax)
                else AddCarCall(form.name, form.modal, tax))
      else
        var rate := parseFloat(form.rate).value;
        Success(if editing then UpdateShippingCall(editingId.value, form.stateValue, form.auction, rate)
                else AddShippingCall(form.stateValue, form.auction, rate))
  }

  /** Whether the table the screen edits in `mode` has been created. */
  predicate ModeTableExists(db: Db, mode: Mode) {
    if mode == Cars then db.car.Some? else db.shipping.Some?
  }

  /** The store function a save call names; it fails exactly when its table
      is missing; car calls leave the other tables alone and so do shipping
      calls. */
  function Perform(db: Db, call: SaveCall): (r: Result<Db, DbError>)
    ensures r.Failure? <==>
      if call.AddCarCall? || call.UpdateCarCall? then db.car.None? else db.shipping.None?
    ensures r.Success? && (call.AddCarCall? || call.UpdateCarCall?) ==>
      r.value.car.Some? && r.value.dollar == db.dollar && r.value.shipping == db.shipping
    ensures r.Success? && (call.AddShippingCall? || call.UpdateShippingCall?) ==>
      r.value.shipping.Some? && r.value.dollar == db.dollar && r.value.car == db.car
  {
    match call
    case AddCarCall(n, m, t) => AddCar(db, n, m, t)
    case UpdateCarCall(id, n, m, t) => UpdateCar(db, id, n, m, t)
    case AddShippingCall(s, a, r) => AddShipping(db, s, a, r)
    case UpdateShippingCall(id, s, a, r) => UpdateShipping(db, id, s, a, r)
  }

  /** A valid form dispatches to the table of the screen's mode, so the
      call fails exactly when that table is missing. */
  lemma DispatchFollowsMode(form: Form, mode: Mode, editingId: Option<int>, parseFloat: string -> Option<real>)
    ensures var call := SaveDispatch(form, mode, editingId, parseFloat);
      call.Success? ==>
        && (call.value.AddCarCall? || call.value.UpdateCarCall? <==> mode == Cars)
        && forall db: Db :: Perform(db, call.value).Failure? <==> !ModeTableExists(db, mode)
  {
  }

  /** What `handleSave` reports. */
  datatype SaveOutcome = Invalid(reason: ValidationError) | Saved | SaveFailed(error: DbError)

  /** `handleSave`: a form that fails validation changes nothing; a successful
      store call resets the form, leaves edit mode and reloads the list; a
      failed store call changes nothing. Every value written to the store has
      a positive numeric field. */
  function HandleSave(app: App, parseFloat: string -> Option<real>): (r: (App, SaveOutcome))
    ensures ValidateForm(app.screen.form, app.screen.mode, parseFloat).Some? ==>
      r == (app, Invalid(ValidateForm(app.screen.form, app.screen.mode, parseFloat).value))
    ensures r.1.Saved? ==>
      && ParsesPositive(NumericField(app.screen.form, app.screen.mode), parseFloat)
      && r.0.screen.form == EmptyForm && r.0.screen.editingId == None
      && r.0.screen.selected == app.screen.selected && r.0.screen.isBulkMode == app.screen.isBulkMode
    ensures r.1.Saved? && app.screen.mode == Cars ==>
      r.0.db.dollar == app.db.dollar && r.0.db.shipping == app.db.shipping
    ensures r.1.Saved? && app.screen.mode == ShippingMode ==>
      r.0.db.dollar == app.db.dollar && r.0.db.car == app.db.car
    ensures r.1.SaveFailed? ==> r.0 == app
    ensures ValidateForm(app.screen.form, app.screen.mode, parseFloat).None? ==>
      (r.1 == Saved <==> ModeTableExists(app.db, app.screen.mode))
      && (r.1.SaveFailed? <==> !ModeTableExists(app.db, app.screen.mode))
    ensures r.1.Saved? ==>
      var call := SaveDispatch(app.screen.form, app.screen.mode, app.screen.editingId, parseFloat);
      call.Success? && Perform(app.db, call.value) == Success(r.0.db)
    ensures r.1.Saved? && app.screen.mode == Cars ==>
      r.0.db.car.Some? && r.0.screen.cars == List(r.0.db.car.value) && r.0.screen.page == 1
    ensures r.1.Saved? && app.screen.mode == ShippingMode ==>
      r.0.db.shipping.Some? && r.0.screen.shippings == List(r.0.db.shipping.value) && r.0.screen.page == 1
    ensures r.1.Saved? ==>
      r.0.screen.(form := app.screen.form, editingId := app.screen.editingId,
                  cars := app.screen.cars, shippings := app.screen.shippings, page := app.screen.page) == app.screen
    ensures r.1.Saved? && app.screen.mode == Cars ==> r.0.screen.shippings == app.screen.shippings
    ensures r.1.Saved? && app.screen.mode == ShippingMode ==> r.0.screen.cars == app.screen.cars
  {
    var s := app.screen;
    DispatchFollowsMode(s.form, s.mode, s.editingId, parseFloat);
    match SaveDispatch(s.form, s.mode, s.editingId, parseFloat)
    case Failure(e) => (app, Invalid(e))
    case Success(call) =>
      match Perform(app.db, call)
      case Failure(e) => (app, SaveFailed(e))
      case Success(db) => (AfterSave(app, db), Saved)
  }

  /** The screen after a successful save into `db`: the form is reset, edit
      mode ends and the list of the current mode is reloaded from `db`. */
  function AfterSave(app: App, db: Db): (r: App)
    ensures r.db == db
    ensures r.screen.form == EmptyForm && r.screen.editingId == None
    ensures r.screen.selected == app.screen.selected && r.screen.isBulkMode == app.screen.isBulkMode
    ensures app.screen.mode == Cars && db.car.Some? ==>
      r.screen.cars == List(db.car.value) && r.screen.page == 1
    ensures app.screen.mode == ShippingMode && db.shipping.Some? ==>
      r.screen.shippings == List(db.shipping.value) && r.screen.page == 1
    ensures r.screen.(form := app.screen.form, editingId := app.screen.editingId,
                      cars := app.screen.cars, shippings := app.screen.shippings, page := app.screen.page) == app.screen
    ensures app.screen.mode == Cars ==> r.screen.shippings == app.screen.shippings
    ensures app.screen.mode == ShippingMode ==> r.screen.cars == app.screen.cars
  {
    App(db, Reload(App(db, app.screen.(form := EmptyForm, editingId := None))))
  }

  /** What `handleBulkDelete` reports. */
  datatype BulkOutcome = NoSelection | BulkDeleted | BulkFailed(error: DbError)

  /** `handleBulkDelete` once confirmed: with an empty selection nothing
      happens; otherwise every selected id is deleted from the table of the
      current mode (in no particular order), the selection is emptied, bulk
      mode ends and the list is reloaded. If the table is missing the first
      delete fails and nothing changes. */
  method HandleBulkDelete(app: App) returns (r: App, outcome: BulkOutcome)
    ensures app.screen.selected == {} ==> r == app && outcome == NoSelection
    ensures outcome.BulkFailed? ==> r == app && !ModeTableExists(app.db, app.screen.mode)
    ensures app.screen.selected != {} && ModeTableExists(app.db, app.screen.mode) ==> outcome == BulkDeleted
    ensures outcome == BulkDeleted ==>
      && app.screen.selected != {}
      && r.screen.selected == {} && !r.screen.isBulkMode
      && r.screen.form == app.screen.form && r.screen.editingId == app.screen.editingId
    ensures outcome == BulkDeleted && app.screen.mode == Cars ==>
      && app.db.car.Some? && r.db.car.Some?
      && r.db.car.value.rows == Without(app.db.car.value.rows, app.screen.selected)
      && r.db.dollar == app.db.dollar && r.db.shipping == app.db.shipping
      && r.screen.cars == List(r.db.car.value) && r.screen.page == 1
    ensures outcome == BulkDeleted && app.screen.mode == ShippingMode ==>
      && app.db.shipping.Some? && r.db.shipping.Some?
      && r.db.shipping.value.rows == Without(app.db.shipping.value.rows, app.screen.selected)
      && r.db.dollar == app.db.dollar && r.db.car == app.db.car
      && r.screen.shippings == List(r.db.shipping.value) && r.screen.page == 1
    ensures outcome == BulkDeleted ==>
      r.screen.(selected := app.screen.selected, isBulkMode := app.screen.isBulkMode,
                cars := app.screen.cars, shippings := app.screen.shippings, page := app.screen.page) == app.screen
    ensures outcome == BulkDeleted && app.screen.mode == Cars ==> r.screen.shippings == app.screen.shippings
    ensures outcome == BulkDeleted && app.screen.mode == ShippingMode ==> r.screen.cars == app.screen.cars
  {
    var s := app.screen;
    if s.selected == {} {
      return app, NoSelection;
    }
    var db := app.db;
    if s.mode == Cars {
      if db.car.None? {
        return app, BulkFailed(NoSuchTable("Car"));
      }
      var t := DeleteAll(db.car.value, s.selected);
      db := db.(car := Some(t));
    } else {
      if db.shipping.None? {
        return app, BulkFailed(NoSuchTable("Shipping"));
      }
      var t := DeleteAll(db.shipping.value, s.selected);
      db := db.(shipping := Some(t));
    }
    var cleared := s.(selected := {}, isBulkMode := false);
    r := App(db, Reload(App(db, cleared)));
    outcome := BulkDeleted;
  }

  /** Saving a valid car form writes exactly the typed fields: a new car
      gets the next id and is listed first, at the top of page one; an edit
      rewrites the edited row, if it still exists, and leaves every other row
      as it was. */
  lemma SaveWritesCarForm(app: App, parseFloat: string -> Option<real>)
    requires app.screen.mode == Cars && app.db.car.Some?
    requires ValidateForm(app.screen.form, Cars, parseFloat).None?
    ensures var (after, outcome) := HandleSave(app, parseFloat);
      var f := app.screen.form;
      var data := CarData(f.name, f.modal, parseFloat(f.totalTax).value);
      var id := app.screen.editingId;
      && outcome == Saved && after.db.car.Some?
      && (id.None? || id.value == 0 ==>
            after.screen.cars[0] == Row(app.db.car.value.lastId + 1, data)
            && |after.screen.cars| == |app.db.car.value.rows| + 1)
      && (id.Some? && id.value != 0 ==>
            && Find(after.db.car.value.rows, id.value)
               == (if HasId(app.db.car.value.rows, id.value) then Some(data) else None)
            && forall k :: k != id.value ==> Find(after.db.car.value.rows, k) == Find(app.db.car.value.rows, k))
  {
    var (after, outcome) := HandleSave(app, parseFloat);
    var id := app.screen.editingId;
    if id.None? || id.value == 0 {
      var t := after.db.car.value;
      var newest := Newest(t).value;
      assert newest == after.screen.cars[0];
      assert Row(t.lastId, newest.data) in t.rows;
      assert newest.id == t.lastId;
    }
  }

  /** `dollarAmount` of a car row with the screen's current rate. */
  function CarDollarAmount(s: Screen, car: Row<CarData>): (r: real)
    ensures s.dollarRate > 0.0 ==> r * s.dollarRate == car.data.totalTax
    ensures s.dollarRate <= 0.0 ==> r == 0.0
  {
    Rates.DollarAmount(car.data.totalTax, s.dollarRate)
  }
}
