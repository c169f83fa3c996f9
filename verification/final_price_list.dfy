/** The final-price history list of components/FinalPriceList.tsx: selection,
    bulk mode, the list filtering after single and bulk deletes, and the
    relative-time buckets. */
module FinalPriceList {
  import Collections

  /** One stored calculation; the amounts are kept as the strings the store
      returns. */
  datatype Record = Record(
    id: int, finalPrice: string, carPrice: string, shippingRate: string,
    totalTax: string, timestamp: string)

  /** The screen's `records`, `selectedItems` and `isBulkMode` hooks. */
  datatype ListState = ListState(records: seq<Record>, selected: set<int>, isBulkMode: bool)

  const Initial: ListState := ListState([], {}, false)

  function RecordIds(records: seq<Record>): set<int> {
    set i | 0 <= i < |records| :: records[i].id
  }

  predicate DistinctIds(records: seq<Record>) {
    forall i, j :: 0 <= i < j < |records| ==> records[i].id != records[j].id
  }

  // ========== Loading ==========

  /** `loadData`: the fetched records replace the list; the selection is
      cleared only outside bulk mode, so a refresh keeps a selection in
      progress. */
  function LoadData(st: ListState, data: seq<Record>): (r: ListState)
    ensures r.records == data && r.isBulkMode == st.isBulkMode
    ensures r.selected == {} <==> !st.isBulkMode || st.selected == {}
    ensures st.isBulkMode ==> r.selected == st.selected
  {
    if st.isBulkMode then st.(records := data) else st.(records := data, selected := {})
  }

  // ========== Selection ==========

  /** `toggleSelectItem`: flips the membership of `id` and of nothing else. */
  function ToggleSelectItem(st: ListState, id: int): (r: ListState)
    ensures id in r.selected <==> id !in st.selected
    ensures forall x :: x != id ==> (x in r.selected <==> x in st.selected)
    ensures r.records == st.records && r.isBulkMode == st.isBulkMode
  {
    st.(selected := Collections.Toggle(st.selected, id))
  }

  lemma ToggleSelectItemTwice(st: ListState, id: int)
    ensures ToggleSelectItem(ToggleSelectItem(st, id), id) == st
  {
    Collections.ToggleTwice(st.selected, id);
  }

  /** `selectAllItems`: a selection as large as the list is cleared; any
      other selection becomes the ids of every record. */
  function SelectAllItems(st: ListState): (r: ListState)
    ensures |st.selected| == |st.records| ==> r.selected == {}
    ensures |st.selected| != |st.records| ==>
      forall i :: 0 <= i < |st.records| ==> st.records[i].id in r.selected
    ensures forall x :: x in r.selected ==> x in RecordIds(st.records)
    ensures r.records == st.records && r.isBulkMode == st.isBulkMode
  {
    if |st.selected| == |st.records| then st.(selected := {})
    else st.(selected := RecordIds(st.records))
  }

  lemma {:induction false} DistinctIdsCount(records: seq<Record>)
    requires DistinctIds(records)
    ensures |RecordIds(records)| == |records|
  {
    if |records| > 0 {
      var rest := records[1..];
      DistinctIdsCount(rest);
      assert RecordIds(records) == RecordIds(rest) + {records[0].id} by {
        forall x | x in RecordIds(records) ensures x in RecordIds(rest) + {records[0].id} {
          var i :| 0 <= i < |records| && records[i].id == x;
          if i > 0 { assert rest[i - 1] == records[i]; }
        }
        forall x | x in RecordIds(rest) ensures x in RecordIds(records) {
          var i :| 0 <= i < |rest| && rest[i].id == x;
          assert records[i + 1] == rest[i];
        }
      }
      assert records[0].id !in RecordIds(rest) by {
        forall i | 0 <= i < |rest| ensures rest[i].id != records[0].id {
          assert rest[i] == records[i + 1];
        }
      }
    }
  }

  /** With distinct ids and a selection drawn from the list, the size test of
      `selectAllItems` means "everything is selected": select-all then clears
      a full selection and completes any other one. */
  lemma SelectAllMeansAll(st: ListState)
    requires DistinctIds(st.records) && st.selected <= RecordIds(st.records)
    ensures |st.selected| == |st.records| <==> st.selected == RecordIds(st.records)
    ensures st.selected != RecordIds(st.records) ==>
      SelectAllItems(st).selected == RecordIds(st.records)
  {
    DistinctIdsCount(st.records);
    var all := RecordIds(st.records);
    if st.selected != all {
      assert |all| == |st.selected| + |all - st.selected|;
      var x :| x in all - st.selected;
      assert |all - st.selected| > 0;
    }
  }

  /** A selection holding an id that is no longer listed can have the size
      of the list without covering it; select-all then clears it instead of
      selecting every record. */
  lemma StaleSelectionIsCleared()
    ensures var st := ListState([Record(1, "", "", "", "", "")], {2}, true);
      && st.selected != RecordIds(st.records)
      && SelectAllItems(st).selected == {}
  {
    var st := ListState([Record(1, "", "", "", "", "")], {2}, true);
    assert st.records[0].id in RecordIds(st.records);
  }

  // ========== Bulk mode ==========

  /** `exitBulkMode`. */
  function ExitBulkMode(st: ListState): (r: ListState)
    ensures !r.isBulkMode && r.selected == {} && r.records == st.records
  {
    st.(isBulkMode := false, selected := {})
  }

  /** `enterBulkMode`: the selection is left as it is. */
  function EnterBulkMode(st: ListState): (r: ListState)
    ensures r.isBulkMode && r.selected == st.selected && r.records == st.records
  {
    st.(isBulkMode := true)
  }

  /** A press on a card toggles it in bulk mode and does nothing otherwise. */
  function Press(st: ListState, id: int): (r: ListState)
    ensures !st.isBulkMode ==> r == st
    ensures st.isBulkMode ==> r == ToggleSelectItem(st, id)
  {
    if st.isBulkMode then ToggleSelectItem(st, id) else st
  }

  /** A long press outside bulk mode enters it and toggles the card; in bulk
      mode it does nothing. */
  function LongPress(st: ListState, id: int): (r: ListState)
    ensures st.isBulkMode ==> r == st
    ensures !st.isBulkMode ==>
      && r.isBulkMode && r.records == st.records
      && (id in r.selected <==> id !in st.selected)
      && forall x :: x != id ==> (x in r.selected <==> x in st.selected)
  {
    if st.isBulkMode then st else ToggleSelectItem(EnterBulkMode(st), id)
  }

  /** From a list with nothing selected, a long press selects exactly that
      card, and a press on the same card afterwards empties the selection
      again while staying in bulk mode. */
  lemma LongPressThenPress(st: ListState, id: int)
    requires !st.isBulkMode && st.selected == {}
    ensures LongPress(st, id).selected == {id}
    ensures Press(LongPress(st, id), id) == st.(isBulkMode := true)
  {
  }

  // ========== Deletes ==========

  predicate Unselected(selected: set<int>, item: Record) {
    item.id !in selected
  }

  /** `handleBulkDelete` once the confirmation is accepted. `deleted` says
      whether every store delete succeeded. An empty selection does nothing;
      on success the selected records leave the list with the order of the
      rest kept, the selection is emptied and bulk mode ends; on failure
      nothing changes. */
  function HandleBulkDelete(st: ListState, deleted: bool): (r: ListState)
    ensures st.selected == {} || !deleted ==> r == st
    ensures st.selected != {} && deleted ==>
      && r.selected == {} && !r.isBulkMode
      && Collections.IsSubsequence(r.records, st.records)
      && (forall i :: 0 <= i < |r.records| ==> r.records[i].id !in st.selected)
      && (forall i :: 0 <= i < |st.records| && st.records[i].id !in st.selected ==> st.records[i] in r.records)
  {
    if st.selected == {} || !deleted then st
    else
      var keep := (item: Record) => Unselected(st.selected, item);
      ListState(Collections.Filter(st.records, keep), {}, false)
  }

  /** `handleDelete` once confirmed: on success exactly the records with that
      id leave the list, the rest keep their order; selection and mode are
      untouched. */
  function HandleDelete(st: ListState, id: int, deleted: bool): (r: ListState)
    ensures !deleted ==> r == st
    ensures deleted ==>
      && r.selected == st.selected && r.isBulkMode == st.isBulkMode
      && Collections.IsSubsequence(r.records, st.records)
      && (forall i :: 0 <= i < |r.records| ==> r.records[i].id != id)
      && (forall i :: 0 <= i < |st.records| && st.records[i].id != id ==> st.records[i] in r.records)
  {
    if !deleted then st
    else st.(records := Collections.Filter(st.records, (item: Record) => item.id != id))
  }

  /** Deleting one record leaves the same list as bulk-deleting a selection
      of just that record. */
  lemma {:induction false} SingleDeleteIsBulkOfOne(st: ListState, id: int)
    requires st.selected == {id}
    ensures HandleDelete(st, id, true).records == HandleBulkDelete(st, true).records
  {
    FilterSameKeep(st.records, (item: Record) => item.id != id, (item: Record) => Unselected(st.selected, item));
  }

  lemma {:induction false} FilterSameKeep(s: seq<Record>, p: Record -> bool, q: Record -> bool)
    requires forall x :: p(x) == q(x)
    ensures Collections.Filter(s, p) == Collections.Filter(s, q)
  {
    if |s| > 0 {
      FilterSameKeep(s[1..], p, q);
    }
  }

  // ========== Relative time ==========

  const MinuteMs: int := 60000
  const HourMs: int := 3600000
  const DayMs: int := 86400000

  /** The label `getTimeAgo` picks; `FullDate` stands for the formatted date. */
  datatype TimeAgo = JustNow | MinutesAgo(n: int) | HoursAgo(n: int) | DaysAgo(n: int) | FullDate

  /** `getTimeAgo` on the millisecond difference `d` between now and the
      record. `Math.floor` of a quotient by a positive divisor is Dafny's
      `/`. The first matching rule applies. */
  function GetTimeAgo(d: int): (r: TimeAgo)
    ensures r.MinutesAgo? ==> 1 <= r.n < 60
    ensures r.HoursAgo? ==> 1 <= r.n < 24
    ensures r.DaysAgo? ==> 1 <= r.n < 7
  {
    var minutes := d / MinuteMs;
    var hours := d / HourMs;
    var days := d / DayMs;
    if minutes < 1 then JustNow
    else if minutes < 60 then MinutesAgo(minutes)
    else if hours < 24 then HoursAgo(hours)
    else if days < 7 then DaysAgo(days)
    else FullDate
  }

  /** The buckets as ranges of the difference: under a minute (including a
      record stamped in the future), under an hour, under a day, under a week,
      and the rest. */
  function TimeAgoByRange(d: int): TimeAgo {
    if d < MinuteMs then JustNow
    else if d < HourMs then MinutesAgo(d / MinuteMs)
    else if d < DayMs then HoursAgo(d / HourMs)
    else if d < 7 * DayMs then DaysAgo(d / DayMs)
    else FullDate
  }

  lemma FloorBelow(d: int, k: int, m: int)
    requires k > 0 && m >= 0
    ensures d / k < m <==> d < m * k
  {
    var q := d / k;
    assert d == k * q + d % k;
    if q < m {
      assert q <= m - 1;
      assert k * q <= k * (m - 1);
    } else {
      assert k * q >= k * m;
    }
  }

  /** `getTimeAgo` agrees with the range definition for every difference,
      and each count is the number of whole units elapsed. */
  lemma GetTimeAgoByRange(d: int)
    ensures GetTimeAgo(d) == TimeAgoByRange(d)
    ensures GetTimeAgo(d).MinutesAgo? ==> GetTimeAgo(d).n * MinuteMs <= d < (GetTimeAgo(d).n + 1) * MinuteMs
    ensures GetTimeAgo(d).HoursAgo? ==> GetTimeAgo(d).n * HourMs <= d < (GetTimeAgo(d).n + 1) * HourMs
    ensures GetTimeAgo(d).DaysAgo? ==> GetTimeAgo(d).n * DayMs <= d < (GetTimeAgo(d).n + 1) * DayMs
  {
    FloorBelow(d, MinuteMs, 1);
    FloorBelow(d, MinuteMs, 60);
    FloorBelow(d, HourMs, 24);
    FloorBelow(d, DayMs, 7);
    assert d == MinuteMs * (d / MinuteMs) + d % MinuteMs;
    assert d == HourMs * (d / HourMs) + d % HourMs;
    assert d == DayMs * (d / DayMs) + d % DayMs;
  }

  /** A later difference never gets an earlier bucket. */
  function Rank(t: TimeAgo): nat {
    match t
    case JustNow => 0
    case MinutesAgo(_) => 1
    case HoursAgo(_) => 2
    case DaysAgo(_) => 3
    case FullDate => 4
  }

  lemma GetTimeAgoMonotone(d: int, e: int)
    requires d <= e
    ensures Rank(GetTimeAgo(d)) <= Rank(GetTimeAgo(e))
  {
    GetTimeAgoByRange(d);
    GetTimeAgoByRange(e);
  }
}
