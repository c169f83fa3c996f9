# Vehicle import-cost calculator: a Dafny model of its core

The app is a React Native calculator for the cost of importing vehicles.
It keeps a local SQLite store of three tables:

- `Dollar`: daily exchange rates.
- `Shipping`: a state, an auction and a shipping rate per route.
- `Car`: a vehicle name, a model and its total tax.

This project models the store and the decision logic of the screens that
read and write it, and proves properties of that model:

- **The store** (`helper/db.ts`) is modelled as three optional AUTOINCREMENT
  tables. `initDB` creates only the missing tables. Each add, get, update and
  delete is a pure state transition that fails when its table does not exist.
- **The management screen** (`components/ManagementScreen.tsx`) covers:
  - form validation;
  - the case-insensitive search filter and the five-per-page pagination;
  - bulk selection and bulk delete;
  - the save dispatch between add and update;
  - reloading the list and the dollar rate.
- **The car accordion** (`components/CarsCard.tsx`) covers:
  - the shape check on loaded data;
  - grouping cars by name, and the totals;
  - the one-open-group accordion;
  - the guarded dollar rate.
- **The spreadsheet import** (`components/ImportExcel.tsx`) covers:
  - the empty-file and missing-column checks;
  - the per-column value coercion and the placeholder count;
  - the per-row success and failure counting;
  - the four-step indicator.
- **The final-price history list** (`components/FinalPriceList.tsx`) covers:
  - selection, select-all and bulk mode;
  - the list filtering after single and bulk deletes;
  - the relative-time buckets.

Modules:

| file | module | contents |
|---|---|---|
| wrappers.dfy | `Wrappers` | `Option` and `Result` |
| collections.dfy | `Collections` | `Array.prototype.filter`, subsequences, the `Set` membership toggle |
| text.dfy | `Text` | JavaScript `trim`, ASCII `toLowerCase`, `includes` |
| tables.dfy | `Tables` | one AUTOINCREMENT table: insert, update, delete, newest-first listing |
| store.dfy | `Store` | the three-table store and the functions of `helper/db.ts` |
| rates.dfy | `Rates` | conversion of a tax into dollars |
| management.dfy | `ManagementScreen` | the management screen |
| cars_card.dfy | `CarsCard` | the car accordion |
| import_excel.dfy | `ImportExcel` | the spreadsheet import |
| final_price_list.dfy | `FinalPriceList` | the final-price history list |

Some JavaScript built-ins are parameters of the operations that use them:

- `parseFloat`, `Number` on a non-blank string, and `Number.prototype.toString` are function parameters.
- The outcome of each store call in `FinalPriceList` and of each row insert in `ImportExcel` is a parameter.
- Whether the import transaction commits is a parameter.

A table stores its rows in ascending id order, together with the highest id
it has ever issued (the `sqlite_sequence` entry of an AUTOINCREMENT table).
`getX` lists the rows newest first (`ORDER BY id DESC`).

Where the description of the system and its code differ, the model follows the code:

- The store does no validation. An `UPDATE` or `DELETE` of an absent id is a
  silent no-op, not a "not found" error. Validation happens only in the
  management form.
- `ManagementScreen`'s `loadDollarRate` takes the newest rate whatever its
  value. Only `CarsCard`'s `loadDollarRate` requires it to be positive.
- `CarsCard` loads its cars through `getAllCarsGrouped`, which `helper/db.ts`
  does not define. The model takes the loaded value as a parameter.

## Model

| member | source | states |
|---|---|---|
| Collections.Filter | components/FinalPriceList.tsx:107-109 | `filter` keeps, in order, exactly the elements satisfying the predicate (a subsequence of the input, no longer than it) |
| Collections.FilterCounts | components/FinalPriceList.tsx:107-109 | `filter` keeps each satisfying element exactly as often as it occurs in the input |
| Collections.FilterKeepsAll | components/ManagementScreen.tsx:566-567 | filtering with a predicate that every element satisfies returns the list unchanged |
| Collections.Toggle | components/FinalPriceList.tsx:126-136 | the `Set` toggle flips membership of the given id and of no other id |
| Collections.ToggleTwice | components/FinalPriceList.tsx:126-136 | toggling the same id twice restores the selection |
| Text.TrimStart | components/ManagementScreen.tsx:567 | the result is a suffix of the input, the removed prefix is all JavaScript white space, and the result does not start with white space |
| Text.Trim | components/ManagementScreen.tsx:145 | `trim` never lengthens a string, and a non-empty result neither starts nor ends with JavaScript white space |
| Text.TrimCutsSpace | components/ManagementScreen.tsx:145 | `trim` returns the input with exactly its leading and trailing white space removed: the slice after the leading white space, followed in the input by white space only |
| Text.TrimEnd | components/ManagementScreen.tsx:567 | the result is a prefix of the input, the removed suffix is all white space, and the result does not end with white space |
| Text.BlankIffAllSpace | components/ManagementScreen.tsx:145 | `s.trim()` is empty exactly when every character of `s` is JavaScript white space |
| Text.Lower | components/ManagementScreen.tsx:569 | lower-casing keeps the length and maps each character by itself, upper-case ASCII letters to lower case |
| Text.LowerIdempotent | components/ManagementScreen.tsx:569-574 | lower-casing an already lower-cased string changes nothing |
| Text.Includes | components/ManagementScreen.tsx:574-575 | `includes` holds whenever the needle is a prefix, and never when the needle is longer than the string |
| Text.IncludesIffOccurs | components/ManagementScreen.tsx:573-574 | the left-to-right `includes` scan succeeds exactly when the needle occurs at some position |
| Text.IncludesEmpty | components/ManagementScreen.tsx:569-574 | the empty search text is included in every string |
| Tables.Find | helper/db.ts:55-56 | looking up an id finds a value exactly when a row with that id exists, and that row holds the value |
| Tables.Empty | helper/db.ts:26-29 | a newly created table has no rows and has issued no id |
| Tables.Insert | helper/db.ts:50-51 | an insert appends one row whose id is fresh, greater than every existing id and the new high-water mark |
| Tables.Update | helper/db.ts:55-56 | an update changes the value of the row with the given id only; an absent id leaves the table unchanged; the id counter is unchanged |
| Tables.UpdateRows | helper/db.ts:55-56 | rewriting rows keeps every id and position, sets the value of rows with the id, and keeps the other rows |
| Tables.Delete | helper/db.ts:58-59 | a delete removes the row with the id and keeps every other row in order; the row count drops by one exactly when the id was present; an absent id is a no-op; the counter is not rolled back |
| Tables.WithoutWithout | components/ManagementScreen.tsx:784-790 | deleting one set of ids and then another equals deleting their union |
| Tables.WithoutOnePresent | helper/db.ts:58-59 | deleting a present id from a table with distinct ids removes exactly one row |
| Tables.List | helper/db.ts:53 | `ORDER BY id DESC` lists every row exactly once, in strictly descending id order |
| Tables.DescendingUnique | helper/db.ts:53 | two strictly descending lists with the same rows are equal, so the listing order is fully determined |
| Tables.ListIsTheDescendingOrder | helper/db.ts:53 | any strictly descending arrangement of a table's rows is its listing |
| Tables.Newest | helper/db.ts:53 | the first listed row exists exactly when the table is non-empty and holds the largest id |
| Tables.DeleteNewest | helper/db.ts:53-59 | after deleting the newest row, the newest row is the one that was listed second |
| Tables.DeleteAll | components/ManagementScreen.tsx:784-790 | deleting every selected id one at a time, in any order, leaves exactly the rows whose ids were not selected |
| Tables.IdsNeverReused | helper/db.ts:27 | across any sequence of inserts, updates and deletes, the issued ids strictly increase and exceed every id issued before, so deleted ids are never reused |
| Store.CreateIfMissing | helper/db.ts:26-43 | `CREATE TABLE IF NOT EXISTS` keeps an existing table and creates a missing one empty |
| Store.InitDb | helper/db.ts:20-47 | after `initDB` all three tables exist; existing tables keep their rows; missing ones are empty |
| Store.InitDbIdempotent | helper/db.ts:20-47 | running `initDB` twice is the same as running it once |
| Store.AddDollar | helper/db.ts:50-51 | fails exactly when `Dollar` is missing; otherwise appends one rate row whose id is the counter plus one, advances the counter to it, and leaves the other tables alone |
| Store.GetDollar | helper/db.ts:53 | fails exactly when `Dollar` is missing; otherwise lists every rate row once, newest first |
| Store.UpdateDollar | helper/db.ts:55-56 | fails exactly when `Dollar` is missing; otherwise sets the rate of that id only and keeps the id counter; an absent id changes nothing |
| Store.DeleteDollar | helper/db.ts:58-59 | fails exactly when `Dollar` is missing; otherwise removes that id only and keeps the id counter, so the id is never issued again; an absent id changes nothing |
| Store.AddShipping | helper/db.ts:62-67 | fails exactly when `Shipping` is missing; otherwise appends one route whose id is the counter plus one and advances the counter; other tables unchanged |
| Store.GetShipping | helper/db.ts:69-70 | fails exactly when `Shipping` is missing; otherwise lists every route once, newest first |
| Store.UpdateShipping | helper/db.ts:72-83 | fails exactly when `Shipping` is missing; otherwise rewrites the route with that id only and keeps the id counter; an absent id changes nothing |
| Store.DeleteShipping | helper/db.ts:85-86 | fails exactly when `Shipping` is missing; otherwise removes that route only and keeps the id counter, so the id is never issued again |
| Store.AddCar | helper/db.ts:89-94 | fails exactly when `Car` is missing; otherwise appends one car whose id is the counter plus one and advances the counter; other tables unchanged |
| Store.GetCar | helper/db.ts:96 | fails exactly when `Car` is missing; otherwise lists every car once, newest first |
| Store.UpdateCar | helper/db.ts:98-109 | fails exactly when `Car` is missing; otherwise rewrites the car with that id only and keeps the id counter; an absent id changes nothing |
| Store.DeleteCar | helper/db.ts:111-112 | fails exactly when `Car` is missing; otherwise removes that car only and keeps the id counter, so the id is never issued again |
| Store.DeletingCurrentRate | helper/db.ts:53-59 | the current rate is the row with the largest id; deleting it makes the previously second-newest rate current |
| Rates.DollarAmount | components/ManagementScreen.tsx:372 | with a positive rate the dollar amount times the rate is the tax; with no positive rate it is 0 |
| Rates.DollarAmountMonotone | components/CarsCard.tsx:132-135 | for a positive rate a larger tax never gives a smaller dollar amount, and a non-negative tax gives a non-negative amount |
| ManagementScreen.ValidateForm | components/ManagementScreen.tsx:143-162 | "required" exactly when some field of the mode is blank; "invalid number" exactly when none is blank and the numeric field does not parse to a positive number; no error only when it does |
| ManagementScreen.FilteredCars | components/ManagementScreen.tsx:566-586 | a blank search keeps every car; otherwise exactly the cars whose name or model contains the search text, case-insensitively, in order |
| ManagementScreen.FilteredShipping | components/ManagementScreen.tsx:566-586 | a blank search keeps every route; otherwise exactly the routes matching on state, auction or rate text, in order |
| ManagementScreen.CarMatchesIffOccurs | components/ManagementScreen.tsx:569-575 | a car matches exactly when the lower-cased search text occurs at some position of its lower-cased name or model |
| ManagementScreen.Paginate | components/ManagementScreen.tsx:588-591 | the page shows the first `page * 5` filtered items, or all of them when there are fewer |
| ManagementScreen.HasMore | components/ManagementScreen.tsx:593 | "load more" is offered exactly when the filtered list is longer than `page * 5`; when it is not, the whole list is shown |
| ManagementScreen.LoadMoreExtends | components/ManagementScreen.tsx:807-809 | loading one more page extends the shown prefix by at most five items, and by at least one when more were available |
| ManagementScreen.Initial | components/ManagementScreen.tsx:542-558 | the screen starts on page 1 with rate 1, no selection, no edit and an empty form |
| ManagementScreen.HandleSearch | components/ManagementScreen.tsx:651-654 | a new search text resets to page 1 and changes nothing else |
| ManagementScreen.LoadMore | components/ManagementScreen.tsx:807-809 | loading more advances the page by one and changes nothing else |
| ManagementScreen.ToggleBulkMode | components/ManagementScreen.tsx:755-758 | toggling bulk mode flips it and always empties the selection |
| ManagementScreen.ToggleSelectItem | components/ManagementScreen.tsx:760-766 | selecting an item flips membership of that id only |
| ManagementScreen.ToggleSelectTwice | components/ManagementScreen.tsx:760-766 | selecting the same item twice restores the screen |
| ManagementScreen.LoadDollarRate | components/ManagementScreen.tsx:626-635 | the rate becomes the value of the row with the largest id, unguarded; with no row or a failed query it is unchanged; nothing else changes |
| ManagementScreen.Reload | components/ManagementScreen.tsx:598-624 | the current mode's list becomes its table listed newest first, on page 1; a failed query changes nothing |
| ManagementScreen.SaveDispatch | components/ManagementScreen.tsx:656-687 | an invalid form is rejected with its validation error; otherwise a non-zero editing id updates that row and anything else adds a row, with the parsed positive number |
| ManagementScreen.Perform | components/ManagementScreen.tsx:662-676 | a save call fails exactly when its table is missing; a car save touches only `Car` and a shipping save touches only `Shipping` |
| ManagementScreen.DispatchFollowsMode | components/ManagementScreen.tsx:664-678 | a valid form is saved into the table of the screen's mode, so the save fails exactly when that table is missing |
| ManagementScreen.AfterSave | components/ManagementScreen.tsx:681-682 | after a save the form is empty, edit mode has ended, and the mode's list is the new table newest first on page 1; search text, mode, rate, selection, bulk mode and the other mode's list are unchanged |
| ManagementScreen.HandleSave | components/ManagementScreen.tsx:656-687 | an invalid form or a failed store call changes nothing; a valid form is saved exactly when the mode's table exists; the new store is the result of the dispatched add or update; the form is reset, edit mode ends, the selection is kept and the list is reloaded newest first; nothing else on the screen changes, in particular the search text, mode, rate and the other mode's list |
| ManagementScreen.SaveWritesCarForm | components/ManagementScreen.tsx:664-670 | saving a valid car form adds the typed car with the next id at the top of the list, or rewrites the edited car (if it still exists) and leaves every other car as it was |
| ManagementScreen.HandleBulkDelete | components/ManagementScreen.tsx:768-805 | an empty selection does nothing; a non-empty selection is deleted whenever the mode's table exists, and fails only when it does not; on success exactly the selected ids leave the table, the selection empties, bulk mode ends and the list is reloaded newest first; the form, edit state, search text, mode, rate and the other mode's list are unchanged |
| ManagementScreen.CarDollarAmount | components/ManagementScreen.tsx:372 | a car's dollar amount is its tax divided by a positive rate, else 0 |
| CarsCard.ValidateCarsData | components/CarsCard.tsx:72-80 | data passes exactly when it is an array whose every element is an object with a numeric `id` and a string `name`; the empty array passes |
| CarsCard.CarOf | components/CarsCard.tsx:72-80 | a validated element is read as the car with that element's `id` and `name` |
| CarsCard.AsCars | components/CarsCard.tsx:230-237 | the validated array is read element by element as cars |
| CarsCard.WithName | components/CarsCard.tsx:238-245 | the cars of one name are input cars carrying that name, and every input car carrying it is among them |
| CarsCard.WithNameIsFilter | components/CarsCard.tsx:238-245 | the cars of one name are `cars.filter(c => c.name === name)`: in input order, each as often as it occurs |
| CarsCard.AddToGroups | components/CarsCard.tsx:239-243 | one reduce step appends the car to the group of its name, or opens a new last group; it keeps names distinct and adds one to the total |
| CarsCard.TotalCarsBounds | components/CarsCard.tsx:297-300 | `totalCarsCount` is at least the size of every group and is 0 exactly when every group is empty |
| CarsCard.GroupCars | components/CarsCard.tsx:238-245 | the grouping has one non-empty group per distinct name, each group holds exactly the cars of that name in input order, and the group sizes add up to the number of cars |
| CarsCard.GroupStep | components/CarsCard.tsx:238-245 | adding the last car to the grouping of all the others yields the grouping of all the cars |
| CarsCard.CarInOwnGroupOnly | components/CarsCard.tsx:238-245 | a car is in a group exactly when the group has the car's name, so every car is in exactly one group |
| CarsCard.ToggleGroup | components/CarsCard.tsx:284-286 | toggling closes the open group if it is the one toggled, and otherwise opens the toggled group; at most one group is open |
| CarsCard.ToggleGroupOpens | components/CarsCard.tsx:284-286 | after a toggle, a group is open exactly when it was the toggled group and was closed before |
| CarsCard.LoadCars | components/CarsCard.tsx:230-254 | invalid data sets the error and keeps the groups; valid data replaces the groups by their grouping (the corrected one, see Findings), whose total is the number of cars |
| CarsCard.LoadCarsAsWritten | components/CarsCard.tsx:230-254 | as written, invalid data and a throwing grouping both set the error and report failure; valid data loads exactly when the as-written grouping succeeds, and then as `LoadCars` does |
| CarsCard.LoadCarsDiffersOnlyOnPrototypeNames | components/CarsCard.tsx:230-254 | the corrected load and the load as written agree on every input except valid data whose as-written grouping throws |
| CarsCard.LoadDollarRate | components/CarsCard.tsx:215-228 | the rate is set exactly when the newest rate exists and is positive; a failed query sets the error; the rate never becomes non-positive |
| CarsCard.RateNeverNegative | components/CarsCard.tsx:212-222 | starting from rate 0, a load leaves the rate non-negative |
| CarsCard.CarDollarAmount | components/CarsCard.tsx:132-135 | a car's dollar amount is its tax divided by a positive rate, else 0 |
| CarsCard.GroupCarsAsWritten | components/CarsCard.tsx:238-245 | the reduce over a plain object fails exactly when some car's name is an inherited `Object.prototype` property; otherwise it is the grouping |
| CarsCard.ConstructorNameBreaksGrouping | components/CarsCard.tsx:238-245 | one car named "constructor" cannot be grouped as written, though its grouping is one group holding it |
| ImportExcel.Columns | components/ImportExcel.tsx:31-60 | each importable table has a non-empty list of configured columns |
| ImportExcel.IsNumericColumnIffOccurs | components/ImportExcel.tsx:158-162 | a column is numeric exactly when "price", "rate" or "tax" occurs somewhere in its name |
| ImportExcel.NumericColumnsOfConfig | components/ImportExcel.tsx:155-167 | among the configured columns, `total_tax`, `rate` and the four price columns are numeric; `name`, `modal`, `state` and `auction` are text |
| ImportExcel.MissingColumns | components/ImportExcel.tsx:104-108 | the missing columns are, in configured order, exactly the configured columns absent from the first row; the list is empty exactly when all are present |
| ImportExcel.CheckFile | components/ImportExcel.tsx:98-116 | an empty sheet is rejected before any column check; otherwise the import is offered exactly when no configured column is missing |
| ImportExcel.ToNumber | components/ImportExcel.tsx:163-164 | `Number(value)`: `undefined` is `NaN`, `null` is 0, a boolean is 1 or 0, a number is itself, a blank string is 0, and any other string is the parse of its trimmed text |
| ImportExcel.Coerce | components/ImportExcel.tsx:157-167 | a numeric column gets `Number(value)`, or 0 for `NaN`; a text column keeps a truthy value and gets "" for a falsy one, never `undefined` or `null` |
| ImportExcel.RowValues | components/ImportExcel.tsx:155-167 | the values tuple has one coerced entry per configured column, in configured order |
| ImportExcel.NumericColumnsAreNumbers | components/ImportExcel.tsx:158-164 | every numeric column of every row is bound to a number |
| ImportExcel.Placeholders | components/ImportExcel.tsx:169 | the placeholder list for n columns holds n question marks and is 3n − 2 characters long |
| ImportExcel.PlaceholdersMatchValues | components/ImportExcel.tsx:169-174 | an insert binds exactly as many values as its statement has placeholders |
| ImportExcel.Bound | components/ImportExcel.tsx:152-167 | one values tuple per sheet row, in row order, each the row's coerced values |
| ImportExcel.Kept | components/ImportExcel.tsx:152-184 | the loop keeps at most one entry per row, and every row when every insert succeeds |
| ImportExcel.KeptFromOk | components/ImportExcel.tsx:152-184 | every kept entry is the entry of a row whose insert succeeded |
| ImportExcel.OkIsKept | components/ImportExcel.tsx:152-184 | the entry of every row whose insert succeeded is kept |
| ImportExcel.AllKeptIffAllOk | components/ImportExcel.tsx:152-184 | every entry is kept exactly when every insert succeeded |
| ImportExcel.Imported | components/ImportExcel.tsx:147-188 | the inserted tuples are at most one per row, each one value per column, and one per row when every insert succeeds |
| ImportExcel.ImportedFromOkRows | components/ImportExcel.tsx:152-184 | each inserted tuple is the coerced values of a row whose insert succeeded |
| ImportExcel.OkRowsImported | components/ImportExcel.tsx:152-184 | the coerced values of every row whose insert succeeded are inserted |
| ImportExcel.AllImportedIffNoFailure | components/ImportExcel.tsx:153-194 | one tuple per row is inserted exactly when no row insert failed |
| ImportExcel.ImportRows | components/ImportExcel.tsx:147-188 | every row is counted once, as a success or a failure, so successes plus failures equal the row count; the successes are the inserted tuples |
| ImportExcel.FindIndex | components/ImportExcel.tsx:249-250 | `findIndex` returns the first position holding the step, or −1 when it is absent |
| ImportExcel.IsCompleted | components/ImportExcel.tsx:249-250 | at the first step no step is shown completed; at the last step exactly the steps before it are |
| ImportExcel.CompletedIffBefore | components/ImportExcel.tsx:247-250 | a step is shown completed exactly when it comes before the current step |
| ImportExcel.HandleTableSelect | components/ImportExcel.tsx:69-72 | choosing a table records it and moves to file selection |
| ImportExcel.StartImport | components/ImportExcel.tsx:126-127 | confirming a valid file moves to importing with zeroed counters for that many rows |
| ImportExcel.HandleImport | components/ImportExcel.tsx:141-219 | the success count is the number of inserted tuples and successes plus failures equal the row count; no row fails exactly when every insert succeeded; on commit the wizard moves from importing to complete, keeps the inserted tuples and reports full success exactly when no row failed; otherwise nothing is kept and it returns to file selection |
| ImportExcel.ResetProcess | components/ImportExcel.tsx:221-226 | reset returns to the first step with no table and zero counters, with no step shown completed |
| ImportExcel.StepsAdvanceByOne | components/ImportExcel.tsx:62-72 | choosing a table and starting an import each move the indicator exactly one step on |
| FinalPriceList.LoadData | components/FinalPriceList.tsx:55-80 | loading replaces the records; the selection is cleared outside bulk mode and kept inside it |
| FinalPriceList.ToggleSelectItem | components/FinalPriceList.tsx:126-136 | toggling flips membership of that id only and keeps records and mode |
| FinalPriceList.ToggleSelectItemTwice | components/FinalPriceList.tsx:126-136 | toggling the same id twice restores the state |
| FinalPriceList.SelectAllItems | components/FinalPriceList.tsx:138-148 | a selection as large as the list is cleared; any other becomes every record id; only listed ids are ever selected |
| FinalPriceList.SelectAllMeansAll | components/FinalPriceList.tsx:138-148 | with distinct ids and a selection drawn from the list, the size test means "all selected", and select-all completes any partial selection |
| FinalPriceList.StaleSelectionIsCleared | components/FinalPriceList.tsx:67-70 | a selection kept across a reload may hold an unlisted id, and select-all then clears it instead of selecting the list |
| FinalPriceList.ExitBulkMode | components/FinalPriceList.tsx:150-153 | leaving bulk mode always empties the selection |
| FinalPriceList.EnterBulkMode | components/FinalPriceList.tsx:155-157 | entering bulk mode keeps the selection and records |
| FinalPriceList.Press | components/FinalPriceList.tsx:292-296 | a press toggles the card in bulk mode and does nothing otherwise |
| FinalPriceList.LongPress | components/FinalPriceList.tsx:297-302 | a long press outside bulk mode enters it and toggles that card; inside bulk mode it does nothing |
| FinalPriceList.LongPressThenPress | components/FinalPriceList.tsx:292-302 | from no selection a long press selects exactly that card, and pressing it again empties the selection while staying in bulk mode |
| FinalPriceList.HandleBulkDelete | components/FinalPriceList.tsx:87-124 | an empty selection or a failed delete changes nothing; otherwise the unselected records remain in order, none of the selected, the selection empties and bulk mode ends |
| FinalPriceList.HandleDelete | components/FinalPriceList.tsx:160-185 | a successful delete removes exactly the records with that id, keeps the rest in order, and leaves selection and mode alone |
| FinalPriceList.SingleDeleteIsBulkOfOne | components/FinalPriceList.tsx:107-109 | deleting one record leaves the same list as bulk-deleting a selection of just that record |
| FinalPriceList.GetTimeAgo | components/FinalPriceList.tsx:203-224 | a minute count is 1 to 59, an hour count 1 to 23, a day count 1 to 6 |
| FinalPriceList.GetTimeAgoByRange | components/FinalPriceList.tsx:208-218 | the floor-based rules equal the range definition (under a minute, an hour, a day, a week), and each count is the number of whole units elapsed |
| FinalPriceList.GetTimeAgoMonotone | components/FinalPriceList.tsx:208-218 | an older record never gets a finer-grained label than a newer one |

## Left out

- I/O and concurrency:
  - The expo-sqlite calls, the WAL pragma and async/await are left out. Each query is a synchronous state transition.
  - The `Promise.all` and `Promise.allSettled` sequencing is left out. A bulk delete is modelled as deleting each selected id, in any order.
- React: hooks, rendering, styles, alerts, confirmation prompts, loading and refreshing flags, and navigation carry no decision logic. Confirmed actions are modelled as taken.
- Other components:
  - components/DropDownX.tsx is a styling wrapper.
  - components/ExportExcel.tsx and the app screens are not part of this model.
- Spreadsheet I/O: xlsx parsing, the document picker and base64 file reads are left out. A sheet is a given sequence of string-keyed rows.
- Import transaction: BEGIN, COMMIT and ROLLBACK are reduced to one `commits` flag. When it is false, nothing is kept.
- Import targets:
  - `ImportExcel.HandleImport` returns the bound value tuples. It does not write them into `Store`'s typed tables, because SQLite accepts any value type in any column.
  - `INSERT OR REPLACE` only replaces on a key conflict. The `Car` and `Shipping` tables of `helper/db.ts` have no key among the configured columns, so there every successful row is a new row. The schema of `final_car_prices` is not part of this model; the same is assumed for it.
- The `final_car_prices` table and the computation of a final price live in a module that is not part of this model. FinalPriceList only lists and deletes records. The success of those deletes is a parameter.
- Numbers: `parseFloat`, `Number` of a non-blank string and `Number.prototype.toString` are parameters. `NaN` is modelled as an absent value.
- Store errors: a store call fails in the model only when its table is missing. Every other SQLite error that `query` (helper/db.ts:5-17) rethrows is not modelled: a full disk, a locked or corrupt database, a constraint violation. So the promises that a call fails exactly when its table is missing hold only inside this abstraction. That covers the Store rows, HandleSave's "saved exactly when the mode's table exists" and HandleBulkDelete's "fails only when it does not".
- ManagementScreen.HandleBulkDelete: a bulk delete that fails part-way is not modelled. In the app, the deletes before the error stay done, the selection is kept and the reload is skipped. In the model, a bulk delete either deletes every selected id or, when the table is missing, changes nothing.
- Floating point is modelled as exact reals:
  - Rates.DollarAmount: the quotient is exact, with no IEEE-754 rounding.
  - FinalPriceList.GetTimeAgo: the floor of the quotient is exact, because the difference is modelled as an integer number of milliseconds.
- Dates: `Date` parsing is left out. The current time is an input, through the millisecond difference. An unparseable timestamp (`NaN` difference) and the formatted full date are left out.
- ManagementScreen.FilteredCars: `toLowerCase` is modelled on ASCII letters only. The app's text is Persian, which has no case. Full Unicode case mapping is left out.
- CarsCard.GroupCars: groups follow first appearance, which is the key insertion order. `Object.entries` would list integer-like names first, in ascending numeric order. That reordering is left out.
- JavaScript `Set` iteration order is not modelled. Selections are sets.
- Some of `validateCarsData` is left out:
  - `NaN` as an id;
  - accessor properties;
  - `id` or `name` inherited through a custom prototype.

- CarsCard.LoadCars: it uses the corrected grouping, so valid data with a car named after an inherited `Object.prototype` property loads in the model, while the app sets the load error and reports failure. `CarsCard.LoadCarsAsWritten` models that behaviour, and `CarsCard.LoadCarsDiffersOnlyOnPrototypeNames` states where the two differ.

## Findings

| source | as written | input that shows it | evidently intended | confidence | as-written member | corrected member |
|---|---|---|---|---|---|---|
| components/CarsCard.tsx:238-245 | the grouping accumulator is a plain object `{}`, so `acc[key]` on a name such as "constructor", "toString" or "__proto__" reads an inherited `Object.prototype` member; that member is truthy, the new array is never created, and `acc[key].push` throws, so the whole load fails | one car named "constructor" | group every car by its name, whatever the name (for example with `Object.create(null)` or a `Map`) | not executed | CarsCard.GroupCarsAsWritten | CarsCard.GroupCars |
