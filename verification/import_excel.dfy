/** The spreadsheet import of components/ImportExcel.tsx: the file checks
    before an import, the per-column value coercion, the per-row success and
    failure counting, and the four-step indicator. A sheet is given as the
    sequence of string-keyed rows the parser produced. */
module ImportExcel {
  import opened Wrappers
  import Collections
  import Text

  /** A cell value as read from a sheet row; an absent key reads as
      `Undefined`. */
  datatype Cell = Undefined | Null | Flag(b: bool) | Num(x: real) | Str(s: string)

  type SheetRow = map<string, Cell>

  function Lookup(row: SheetRow, col: string): Cell {
    if col in row then row[col] else Undefined
  }

  /** JavaScript truthiness of a cell (`NaN` is not a cell value). */
  predicate Truthy(v: Cell) {
    match v
    case Undefined => false
    case Null => false
    case Flag(b) => b
    case Num(x) => x != 0.0
    case Str(s) => s != ""
  }

  // ========== Configuration ==========

  /** The three importable tables of `tableConfig`. */
  datatype TableName = CarTable | ShippingTable | FinalCarPrices

  /** The configured columns of each table, in configured order. */
  function Columns(t: TableName): (cols: seq<string>)
    ensures |cols| > 0
  {
    match t
    case CarTable => ["name", "modal", "total_tax"]
    case ShippingTable => ["state", "auction", "rate"]
    case FinalCarPrices => ["car_price", "shipping_rate", "total_tax", "final_price"]
  }

  /** A column is numeric when its name contains "price", "rate" or "tax". */
  predicate IsNumericColumn(col: string) {
    Text.Includes(col, "price") || Text.Includes(col, "rate") || Text.Includes(col, "tax")
  }

  /** A column is numeric exactly when one of the three words occurs in its
      name at some position. */
  lemma IsNumericColumnIffOccurs(col: string)
    ensures IsNumericColumn(col) <==>
      exists i :: Text.OccursAt(col, "price", i) || Text.OccursAt(col, "rate", i) || Text.OccursAt(col, "tax", i)
  {
    Text.IncludesIffOccurs(col, "price");
    Text.IncludesIffOccurs(col, "rate");
    Text.IncludesIffOccurs(col, "tax");
  }

  /** Which configured columns are numeric: the tax of a car, the rate of a
      shipping route, and every column of a final price; the names, models,
      states and auctions are text. */
  lemma NumericColumnsOfConfig()
    ensures IsNumericColumn("total_tax") && IsNumericColumn("rate")
    ensures IsNumericColumn("car_price") && IsNumericColumn("shipping_rate") && IsNumericColumn("final_price")
    ensures !IsNumericColumn("name") && !IsNumericColumn("modal")
    ensures !IsNumericColumn("state") && !IsNumericColumn("auction")
  {
    TaxAndRateNumeric();
    PricesNumeric();
    TextColumnsNotNumeric();
  }

  lemma TaxAndRateNumeric()
    ensures IsNumericColumn("total_tax") && IsNumericColumn("rate") && IsNumericColumn("shipping_rate")
  {
    var h := "total_tax";
    assert h[6] == 't' && h[7] == 'a' && h[8] == 'x';
    OccursIncluded(h, "tax", 6);
    h := "shipping_rate";
    assert h[9] == 'r' && h[10] == 'a' && h[11] == 't' && h[12] == 'e';
    OccursIncluded(h, "rate", 9);
    OccursIncluded("rate", "rate", 0);
  }

  lemma PricesNumeric()
    ensures IsNumericColumn("car_price") && IsNumericColumn("final_price")
  {
    var h := "car_price";
    assert h[4] == 'p' && h[5] == 'r' && h[6] == 'i' && h[7] == 'c' && h[8] == 'e';
    OccursIncluded(h, "price", 4);
    h := "final_price";
    assert h[6] == 'p' && h[7] == 'r' && h[8] == 'i' && h[9] == 'c' && h[10] == 'e';
    OccursIncluded(h, "price", 6);
  }

  lemma TextColumnsNotNumeric()
    ensures !IsNumericColumn("name") && !IsNumericColumn("modal")
    ensures !IsNumericColumn("state") && !IsNumericColumn("auction")
  {
    NoMarker("name", 0, 0, 0);
    NoMarker("modal", 0, 0, 0);
    NoMarker("state", 2, 0, 0);
    NoMarker("auction", 2, 0, 0);
  }

  lemma OccursIncluded(hay: string, needle: string, i: int)
    requires Text.OccursAt(hay, needle, i)
    ensures Text.Includes(hay, needle)
  {
    Text.IncludesIffOccurs(hay, needle);
  }

  /** A string lacking some character of a needle does not include it. */
  lemma MissingCharNotIncluded(hay: string, needle: string, k: int)
    requires 0 <= k < |needle| && needle[k] !in hay
    ensures !Text.Includes(hay, needle)
  {
    forall i | 0 <= i
      ensures !Text.OccursAt(hay, needle, i)
    {
      if i + |needle| <= |hay| {
        assert hay[i..i + |needle|][k] == hay[i + k];
      }
    }
    Text.IncludesIffOccurs(hay, needle);
  }

  /** A name lacking one character of each of the three markers is not a
      numeric column. */
  lemma NoMarker(col: string, kt: int, kr: int, kp: int)
    requires 0 <= kt < 3 && "tax"[kt] !in col
    requires 0 <= kr < 4 && "rate"[kr] !in col
    requires 0 <= kp < 5 && "price"[kp] !in col
    ensures !IsNumericColumn(col)
  {
    MissingCharNotIncluded(col, "tax", kt);
    MissingCharNotIncluded(col, "rate", kr);
    MissingCharNotIncluded(col, "price", kp);
  }

  // ========== File checks ==========

  /** The configured columns, in configured order, that are not keys of
      the first row. */
  function MissingColumns(cols: seq<string>, keys: set<string>): (r: seq<string>)
    ensures Collections.IsSubsequence(r, cols)
    ensures forall i :: 0 <= i < |r| ==> r[i] !in keys
    ensures forall i :: 0 <= i < |cols| && cols[i] !in keys ==> cols[i] in r
    ensures r == [] <==> forall i :: 0 <= i < |cols| ==> cols[i] in keys
  {
    Collections.Filter(cols, (col: string) => col !in keys)
  }

  /** What the checks in `handleFileSelect` decide about a parsed sheet. */
  datatype FileCheck = EmptyFile | ColumnsMissing(missing: seq<string>) | ReadyToImport(rows: nat)

  /** An empty sheet is rejected before any column check; otherwise the
      import is offered exactly when every configured column is a key of the
      first row. */
  function CheckFile(t: TableName, data: seq<SheetRow>): (r: FileCheck)
    ensures r == EmptyFile <==> |data| == 0
    ensures r.ColumnsMissing? ==>
      && |r.missing| > 0
      && Collections.IsSubsequence(r.missing, Columns(t))
      && forall i :: 0 <= i < |r.missing| ==> r.missing[i] !in data[0].Keys
    ensures r.ReadyToImport? <==>
      && |data| > 0
      && forall i :: 0 <= i < |Columns(t)| ==> Columns(t)[i] in data[0].Keys
    ensures r.ReadyToImport? ==> r.rows == |data|
  {
    if |data| == 0 then EmptyFile
    else
      var missing := MissingColumns(Columns(t), data[0].Keys);
      if |missing| > 0 then ColumnsMissing(missing) else ReadyToImport(|data|)
  }

  // ========== Value coercion ==========

  /** `Number(value)`, with `None` for `NaN`. `parse` is the conversion of a
      trimmed, non-empty string; a blank string converts to 0. */
  function ToNumber(v: Cell, parse: string -> Option<real>): (r: Option<real>)
    ensures v == Undefined ==> r == None
    ensures v.Num? ==> r == Some(v.x)
    ensures v == Null ==> r == Some(0.0)
    ensures v.Flag? ==> r == Some(if v.b then 1.0 else 0.0)
    ensures v.Str? && Text.IsBlank(v.s) ==> r == Some(0.0)
    ensures v.Str? && !Text.IsBlank(v.s) ==> r == parse(Text.Trim(v.s))
  {
    match v
    case Undefined => None
    case Null => Some(0.0)
    case Flag(b) => Some(if b then 1.0 else 0.0)
    case Num(x) => Some(x)
    case Str(s) => if Text.IsBlank(s) then Some(0.0) else parse(Text.Trim(s))
  }

  /** The value bound for one column: a number (0 for `NaN`) in a numeric
      column, otherwise the value itself when truthy and "" when not. */
  function Coerce(col: string, v: Cell, parse: string -> Option<real>): (r: Cell)
    ensures IsNumericColumn(col) ==> r.Num? && (ToNumber(v, parse).Some? ==> r.x == ToNumber(v, parse).value)
    ensures IsNumericColumn(col) && ToNumber(v, parse).None? ==> r == Num(0.0)
    ensures !IsNumericColumn(col) ==> (Truthy(v) ==> r == v) && (!Truthy(v) ==> r == Str(""))
    ensures !IsNumericColumn(col) ==> r != Undefined && r != Null
  {
    if IsNumericColumn(col) then Num(ToNumber(v, parse).GetOr(0.0))
    else if Truthy(v) then v
    else Str("")
  }

  /** The values tuple of one row: one entry per configured column, in
      configured order. */
  function RowValues(t: TableName, row: SheetRow, parse: string -> Option<real>): (vals: seq<Cell>)
    ensures |vals| == |Columns(t)|
    ensures forall i :: 0 <= i < |vals| ==> vals[i] == Coerce(Columns(t)[i], Lookup(row, Columns(t)[i]), parse)
  {
    seq(|Columns(t)|, i requires 0 <= i < |Columns(t)| => Coerce(Columns(t)[i], Lookup(row, Columns(t)[i]), parse))
  }

  /** The numeric columns of a row are always bound to numbers, so no
      numeric column ever receives text or a missing value. */
  lemma NumericColumnsAreNumbers(t: TableName, row: SheetRow, parse: string -> Option<real>, i: int)
    requires 0 <= i < |Columns(t)| && IsNumericColumn(Columns(t)[i])
    ensures RowValues(t, row, parse)[i].Num?
  {
  }

  /** `items.join(sep)`. */
  function Join(items: seq<string>, sep: string): string {
    if |items| == 0 then ""
    else if |items| == 1 then items[0]
    else items[0] + sep + Join(items[1..], sep)
  }

  function CountChar(s: string, c: char): nat {
    if |s| == 0 then 0 else (if s[0] == c then 1 else 0) + CountChar(s[1..], c)
  }

  lemma {:induction false} CountCharAppend(a: string, b: string, c: char)
    ensures CountChar(a + b, c) == CountChar(a, c) + CountChar(b, c)
  {
    if |a| > 0 {
      CountCharAppend(a[1..], b, c);
      assert (a + b)[1..] == a[1..] + b;
    } else {
      assert a + b == b;
    }
  }

  /** `columns.map(() => "?").join(", ")`. */
  function Placeholders(n: nat): (r: string)
    ensures CountChar(r, '?') == n
    ensures n > 0 ==> |r| == 3 * n - 2
  {
    var items := seq(n, _ => "?");
    PlaceholdersShape(n);
    Join(items, ", ")
  }

  lemma {:induction false} PlaceholdersShape(n: nat)
    ensures CountChar(Join(seq(n, _ => "?"), ", "), '?') == n
    ensures n > 0 ==> |Join(seq(n, _ => "?"), ", ")| == 3 * n - 2
  {
    var items := seq(n, _ => "?");
    if n == 1 {
      assert items[0] == "?";
      assert CountChar("?", '?') == 1;
    } else if n > 1 {
      PlaceholdersShape(n - 1);
      assert items[1..] == seq(n - 1, _ => "?");
      var rest := Join(items[1..], ", ");
      assert Join(items, ", ") == "?" + ", " + rest;
      CountCharAppend("?" + ", ", rest, '?');
      assert CountChar("?, ", '?') == 1;
    }
  }

  /** The insert of one row binds as many values as the statement has
      placeholders. */
  lemma PlaceholdersMatchValues(t: TableName, row: SheetRow, parse: string -> Option<real>)
    ensures CountChar(Placeholders(|Columns(t)|), '?') == |RowValues(t, row, parse)|
  {
  }

  // ========== The import loop ==========

  /** The bound values of every row, in row order. */
  function Bound(t: TableName, data: seq<SheetRow>, parse: string -> Option<real>): (vals: seq<seq<Cell>>)
    ensures |vals| == |data|
    ensures forall i :: 0 <= i < |data| ==> vals[i] == RowValues(t, data[i], parse)
  {
    seq(|data|, i requires 0 <= i < |data| => RowValues(t, data[i], parse))
  }

  /** The entries of `vals` whose insert succeeded, in order: `ok(i, v)` says
      whether the insert of entry `i` went through; a failed entry is skipped
      and the loop goes on. */
  function Kept<V>(vals: seq<V>, ok: (nat, V) -> bool): (r: seq<V>)
    ensures |r| <= |vals|
    ensures (forall i :: 0 <= i < |vals| ==> ok(i, vals[i])) ==> |r| == |vals|
    decreases |vals|
  {
    if |vals| == 0 then []
    else
      var n := |vals| - 1;
      assert forall i :: 0 <= i < n ==> vals[..n][i] == vals[i];
      Kept(vals[..n], ok) + (if ok(n, vals[n]) then [vals[n]] else [])
  }

  /** Each kept entry is an entry whose insert succeeded. */
  lemma KeptFromOk<V>(vals: seq<V>, ok: (nat, V) -> bool)
    ensures forall x :: x in Kept(vals, ok) ==> exists i: nat :: i < |vals| && ok(i, vals[i]) && x == vals[i]
  {
    forall x | x in Kept(vals, ok)
      ensures exists i: nat :: i < |vals| && ok(i, vals[i]) && x == vals[i]
    {
      var k :| 0 <= k < |Kept(vals, ok)| && Kept(vals, ok)[k] == x;
      KeptEntry(vals, ok, k);
    }
  }

  lemma {:induction false} KeptEntry<V>(vals: seq<V>, ok: (nat, V) -> bool, k: int)
    requires 0 <= k < |Kept(vals, ok)|
    ensures exists i: nat :: i < |vals| && ok(i, vals[i]) && Kept(vals, ok)[k] == vals[i]
    decreases |vals|
  {
    var n := |vals| - 1;
    var prev := Kept(vals[..n], ok);
    if k < |prev| {
      KeptEntry(vals[..n], ok, k);
      assert Kept(vals, ok)[k] == prev[k];
      var i: nat :| i < n && ok(i, vals[..n][i]) && prev[k] == vals[..n][i];
      assert vals[..n][i] == vals[i];
    } else {
      assert Kept(vals, ok)[k] == vals[n];
    }
  }

  /** Every entry whose insert succeeded is kept. */
  lemma {:induction false} OkIsKept<V>(vals: seq<V>, ok: (nat, V) -> bool)
    ensures forall i :: 0 <= i < |vals| && ok(i, vals[i]) ==> vals[i] in Kept(vals, ok)
  {
    if |vals| > 0 {
      var n := |vals| - 1;
      OkIsKept(vals[..n], ok);
      forall i | 0 <= i < n && ok(i, vals[i])
        ensures vals[i] in Kept(vals, ok)
      {
        assert vals[..n][i] == vals[i];
      }
    }
  }

  /** Everything is kept exactly when every insert succeeded. */
  lemma {:induction false} AllKeptIffAllOk<V>(vals: seq<V>, ok: (nat, V) -> bool)
    ensures |Kept(vals, ok)| == |vals| <==> forall i :: 0 <= i < |vals| ==> ok(i, vals[i])
  {
    if |vals| > 0 {
      var n := |vals| - 1;
      AllKeptIffAllOk(vals[..n], ok);
      if |Kept(vals, ok)| == |vals| {
        assert |Kept(vals[..n], ok)| == n && ok(n, vals[n]);
        forall i | 0 <= i < |vals|
          ensures ok(i, vals[i])
        {
          if i < n {
            assert vals[..n][i] == vals[i];
          }
        }
      }
    }
  }

  /** The value tuples the loop inserts, in row order: the bound values of
      the rows whose insert succeeded. */
  function Imported(t: TableName, data: seq<SheetRow>, ok: (nat, seq<Cell>) -> bool,
                    parse: string -> Option<real>): (r: seq<seq<Cell>>)
    ensures |r| <= |data|
    ensures forall k :: 0 <= k < |r| ==> |r[k]| == |Columns(t)|
    ensures (forall i :: 0 <= i < |data| ==> ok(i, RowValues(t, data[i], parse))) ==> |r| == |data|
  {
    var vals := Bound(t, data, parse);
    KeptFromOk(vals, ok);
    assert forall k :: 0 <= k < |Kept(vals, ok)| ==> Kept(vals, ok)[k] in Kept(vals, ok);
    Kept(vals, ok)
  }

  /** Each imported tuple is the bound values of a row whose insert
      succeeded. */
  lemma ImportedFromOkRows(t: TableName, data: seq<SheetRow>, ok: (nat, seq<Cell>) -> bool,
                           parse: string -> Option<real>)
    ensures forall v :: v in Imported(t, data, ok, parse) ==>
      exists i: nat :: i < |data| && ok(i, RowValues(t, data[i], parse)) && v == RowValues(t, data[i], parse)
  {
    KeptFromOk(Bound(t, data, parse), ok);
  }

  /** The bound values of every row whose insert succeeded are imported. */
  lemma OkRowsImported(t: TableName, data: seq<SheetRow>, ok: (nat, seq<Cell>) -> bool,
                       parse: string -> Option<real>)
    ensures forall i :: 0 <= i < |data| && ok(i, RowValues(t, data[i], parse)) ==>
      RowValues(t, data[i], parse) in Imported(t, data, ok, parse)
  {
    OkIsKept(Bound(t, data, parse), ok);
  }

  /** Every row is imported exactly when the import keeps one tuple per row:
      a single failed insert makes the tuple list shorter than the sheet. */
  lemma AllImportedIffNoFailure(t: TableName, data: seq<SheetRow>, ok: (nat, seq<Cell>) -> bool,
                                parse: string -> Option<real>)
    ensures |Imported(t, data, ok, parse)| == |data| <==>
      forall i :: 0 <= i < |data| ==> ok(i, RowValues(t, data[i], parse))
  {
    AllKeptIffAllOk(Bound(t, data, parse), ok);
  }

  /** The running counters of `importStats`. */
  datatype Stats = Stats(total: nat, success: nat, failed: nat)

  /** The `for` loop of `handleImport`: every row is counted once, as a
      success when its insert went through and as a failure otherwise. */
  method ImportRows(t: TableName, data: seq<SheetRow>, ok: (nat, seq<Cell>) -> bool,
                    parse: string -> Option<real>)
    returns (stats: Stats, inserted: seq<seq<Cell>>)
    ensures stats.total == |data|
    ensures stats.success + stats.failed == |data|
    ensures stats.success == |inserted|
    ensures inserted == Imported(t, data, ok, parse)
  {
    var success, failed := 0, 0;
    inserted := [];
    var i := 0;
    while i < |data|
      invariant 0 <= i <= |data|
      invariant success + failed == i
      invariant success == |inserted|
      invariant inserted == Kept(Bound(t, data, parse)[..i], ok)
    {
      var vals := RowValues(t, data[i], parse);
      var bound := Bound(t, data, parse);
      assert bound[..i + 1][..i] == bound[..i] && bound[..i + 1][i] == vals;
      if ok(i, vals) {
        inserted := inserted + [vals];
        success := success + 1;
      } else {
        failed := failed + 1;
      }
      i := i + 1;
    }
    assert Bound(t, data, parse)[..i] == Bound(t, data, parse);
    stats := Stats(|data|, success, failed);
  }

  // ========== Steps ==========

  /** The four steps of the wizard. */
  datatype Step = SelectTable | SelectFile | Importing | Complete

  /** The `steps` array, in display order. */
  const Steps: seq<Step> := [SelectTable, SelectFile, Importing, Complete]

  /** `steps.findIndex(s => s.key === current)`. */
  function FindIndex(steps: seq<Step>, s: Step): (r: int)
    ensures -1 <= r < |steps|
    ensures r >= 0 ==> steps[r] == s && forall j :: 0 <= j < r ==> steps[j] != s
    ensures r == -1 <==> s !in steps
  {
    if |steps| == 0 then -1
    else if steps[0] == s then 0
    else
      var k := FindIndex(steps[1..], s);
      if k == -1 then -1 else k + 1
  }

  /** The indicator shows step `index` as completed when the current step
      comes later in the array. */
  function IsCompleted(index: int, current: Step): (b: bool)
    ensures current == SelectTable && index >= 0 ==> !b
    ensures current == Complete ==> (b <==> index < |Steps| - 1)
  {
    assert FindIndex(Steps, SelectTable) == 0 && FindIndex(Steps, Complete) == 3;
    FindIndex(Steps, current) > index
  }

  /** A step is shown completed exactly when it precedes the current one. */
  lemma CompletedIffBefore(i: int, j: int)
    requires 0 <= i < |Steps| && 0 <= j < |Steps|
    ensures IsCompleted(i, Steps[j]) <==> i < j
  {
    var k := FindIndex(Steps, Steps[j]);
    assert k == j;
  }

  /** The wizard's `table`, `currentStep` and `importStats` hooks. */
  datatype Wizard = Wizard(table: Option<TableName>, step: Step, stats: Stats)

  const InitialWizard: Wizard := Wizard(None, SelectTable, Stats(0, 0, 0))

  /** `handleTableSelect`. */
  function HandleTableSelect(w: Wizard, t: TableName): (r: Wizard)
    ensures r.table == Some(t) && r.step == SelectFile && r.stats == w.stats
  {
    w.(table := Some(t), step := SelectFile)
  }

  /** Starting the import from the confirmation of a valid file. */
  function StartImport(w: Wizard, rows: nat): (r: Wizard)
    ensures r.step == Importing && r.table == w.table
    ensures r.stats == Stats(rows, 0, 0)
  {
    w.(step := Importing, stats := Stats(rows, 0, 0))
  }

  /** How `handleImport` reports its end. */
  datatype ImportOutcome = AllImported(count: nat) | ImportedWithFailures(success: nat, failed: nat) | ImportFailed

  /** `handleImport`: the rows are inserted in one transaction. When the
      commit goes through the wizard completes and the outcome says whether
      any row failed; when it does not, nothing is kept and the wizard goes
      back to choosing a file. */
  method HandleImport(w: Wizard, t: TableName, data: seq<SheetRow>, ok: (nat, seq<Cell>) -> bool,
                      parse: string -> Option<real>, commits: bool)
    returns (r: Wizard, outcome: ImportOutcome, kept: seq<seq<Cell>>)
    ensures r.table == w.table
    ensures r.stats.total == |data| && r.stats.success + r.stats.failed == |data|
    ensures r.stats.success == |Imported(t, data, ok, parse)|
    ensures r.stats.failed == 0 <==> forall i :: 0 <= i < |data| ==> ok(i, RowValues(t, data[i], parse))
    ensures commits ==> r.step == Complete && kept == Imported(t, data, ok, parse)
    ensures commits ==> (outcome == AllImported(|data|) <==> r.stats.failed == 0)
    ensures commits && r.stats.failed > 0 ==> outcome == ImportedWithFailures(r.stats.success, r.stats.failed)
    ensures !commits ==> r.step == SelectFile && kept == [] && outcome == ImportFailed
    ensures commits && w.step == Importing ==> FindIndex(Steps, r.step) == FindIndex(Steps, w.step) + 1
  {
    var stats, inserted := ImportRows(t, data, ok, parse);
    AllImportedIffNoFailure(t, data, ok, parse);
    assert FindIndex(Steps, Importing) == 2 && FindIndex(Steps, Complete) == 3;
    if commits {
      r := w.(step := Complete, stats := stats);
      kept := inserted;
      outcome := if stats.failed == 0 then AllImported(stats.success) else ImportedWithFailures(stats.success, stats.failed);
    } else {
      r := w.(step := SelectFile, stats := stats);
      kept := [];
      outcome := ImportFailed;
    }
  }

  /** `resetProcess`. */
  function ResetProcess(w: Wizard): (r: Wizard)
    ensures r == InitialWizard
    ensures forall i :: 0 <= i < |Steps| ==> !IsCompleted(i, r.step)
  {
    InitialWizard
  }

  /** Each forward transition before the import moves the indicator exactly
      one step on; `HandleImport` states the same for its commit. */
  lemma StepsAdvanceByOne(w: Wizard, t: TableName, rows: nat)
    ensures w.step == SelectTable ==> FindIndex(Steps, HandleTableSelect(w, t).step) == FindIndex(Steps, w.step) + 1
    ensures w.step == SelectFile ==> FindIndex(Steps, StartImport(w, rows).step) == FindIndex(Steps, w.step) + 1
  {
    assert FindIndex(Steps, SelectTable) == 0;
    assert FindIndex(Steps, SelectFile) == 1;
    assert FindIndex(Steps, Importing) == 2;
    assert FindIndex(Steps, Complete) == 3;
  }
}
