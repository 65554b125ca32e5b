/** The KPI time series as an append-only table: inserts, restatements, idempotence. */
module KpiHistory {
  import opened Text

  const TOLERANCE: real := 0.000001

  datatype Note = RestatedFrom(before: real, after: real)
  datatype Item = Item(kpi: string, period: string, value: real)
  datatype Row = Row(kpi: string, period: string, value: real, isRestated: bool, note: Option<Note>, extractedAt: int)

  predicate Same(r: Row, kpi: string, period: string) {
    r.kpi == kpi && r.period == period
  }

  // ---------------------------------------------------------------- the table

  /** A row that `order_by(extracted_at desc).first()` may return; ties are not resolved. */
  ghost predicate IsLatest(rows: seq<Row>, kpi: string, period: string, i: int) {
    && 0 <= i < |rows| && Same(rows[i], kpi, period)
    && forall j :: 0 <= j < |rows| && Same(rows[j], kpi, period) ==> rows[j].extractedAt <= rows[i].extractedAt
  }

  ghost predicate Known(rows: seq<Row>, kpi: string, period: string) {
    exists i :: 0 <= i < |rows| && Same(rows[i], kpi, period)
  }

  /** How a row that is written relates to the rows before it. */
  ghost predicate WellWritten(earlier: seq<Row>, r: Row) {
    if Known(earlier, r.kpi, r.period) then
      && r.isRestated
      && exists i :: IsLatest(earlier, r.kpi, r.period, i)
           && r.note == Some(RestatedFrom(earlier[i].value, r.value))
           && Abs(earlier[i].value - r.value) >= 0.000001
    else !r.isRestated && r.note == None
  }

  class KpiTable {
    var rows: seq<Row>

    constructor ()
      ensures rows == []
    {
      rows := [];
    }

    method FindLatest(kpi: string, period: string) returns (i: int)
      ensures if Known(rows, kpi, period) then IsLatest(rows, kpi, period, i) else i == -1
    {
      i := -1;
      for j := 0 to |rows|
        invariant i == -1 ==> !Known(rows[..j], kpi, period)
        invariant i != -1 ==> IsLatest(rows[..j], kpi, period, i)
      {
        if Same(rows[j], kpi, period) && (i == -1 || rows[i].extractedAt <= rows[j].extractedAt) {
          i := j;
        }
      }
      assert rows[..|rows|] == rows;
    }

    method UpsertOne(item: Item, now: int) returns (added: bool)
      modifies this
      ensures Upserted(old(rows), item, now, rows) && added == (rows != old(rows))
    {
      var i := FindLatest(item.kpi, item.period);
      if i != -1 && Abs(rows[i].value - item.value) < TOLERANCE {
        assert rows == rows + [];
        return false;
      }
      var note := if i != -1 then Some(RestatedFrom(rows[i].value, item.value)) else None;
      rows := rows + [Row(item.kpi, item.period, item.value, i != -1, note, now)];
      added := true;
    }

    /** A batch: rows are only appended, every appended row is well written, and the result counts them. */
    method Upsert(items: seq<Item>, now: int) returns (upserted: nat)
      modifies this
      ensures old(rows) <= rows && upserted == |rows| - |old(rows)|
      ensures Appended(old(rows), rows, now)
      ensures Chronological(old(rows)) && Before(old(rows), now) && DistinctKeys(items)
        ==> rows == Applied(old(rows), items, now)
    {
      hide Appended, Upserted, Chronological, Before, DistinctKeys, Applied;
      upserted := 0;
      ghost var start := rows;
      NothingApplied(start, now);
      for i := 0 to |items|
        invariant start <= rows && upserted == |rows| - |start|
        invariant Appended(start, rows, now)
        invariant Chronological(start) && Before(start, now) && DistinctKeys(items)
          ==> rows == Applied(start, items[..i], now)
      {
        ghost var earlier := rows;
        var added := UpsertOne(items[i], now);
        UpsertedIsWellWritten(start, earlier, items[i], now, rows);
        if added {
          upserted := upserted + 1;
        }
        if Chronological(start) && Before(start, now) && DistinctKeys(items) {
          NextItem(start, items, i, now, rows);
        }
      }
      assert items[..|items|] == items;
    }
  }

  /** What one item does, given some latest row of its key. */
  ghost predicate Upserted(before: seq<Row>, item: Item, now: int, after: seq<Row>) {
    if !Known(before, item.kpi, item.period) then
      after == before + [Row(item.kpi, item.period, item.value, false, None, now)]
    else
      exists i :: IsLatest(before, item.kpi, item.period, i) && after == before + ValueRow(before[i].value, item, now)
  }

  function ValueRow(current: real, item: Item, now: int): seq<Row> {
    if Abs(current - item.value) < TOLERANCE then []
    else [Row(item.kpi, item.period, item.value, true, Some(RestatedFrom(current, item.value)), now)]
  }

  ghost predicate Appended(start: seq<Row>, rows: seq<Row>, now: int) {
    && start <= rows
    && forall k :: |start| <= k < |rows| ==> WellWritten(rows[..k], rows[k]) && rows[k].extractedAt == now
  }

  lemma NothingApplied(rows: seq<Row>, now: int)
    ensures Appended(rows, rows, now) && Applied(rows, [], now) == rows
  {
  }

  lemma UpsertedIsWellWritten(start: seq<Row>, before: seq<Row>, item: Item, now: int, after: seq<Row>)
    requires Appended(start, before, now) && Upserted(before, item, now, after)
    ensures Appended(start, after, now) && before <= after && |after| <= |before| + 1
  {
    hide Known, IsLatest, Abs;
    forall k | |start| <= k < |after| ensures WellWritten(after[..k], after[k]) && after[k].extractedAt == now {
      if k < |before| {
        assert after[..k] == before[..k];
      } else {
        assert after[..k] == before;
      }
    }
  }

  // ---------------------------------------------------------------- the specification

  /** Batches come one after the other: rows of one key are in order of time. */
  ghost predicate Chronological(rows: seq<Row>) {
    forall i, j :: 0 <= i < j < |rows| && Same(rows[i], rows[j].kpi, rows[j].period)
        ==> rows[i].extractedAt < rows[j].extractedAt
  }

  ghost predicate Before(rows: seq<Row>, now: int) {
    forall i :: 0 <= i < |rows| ==> rows[i].extractedAt < now
  }

  ghost predicate DistinctKeys(items: seq<Item>) {
    forall i, j :: 0 <= i < j < |items| ==> !(items[i].kpi == items[j].kpi && items[i].period == items[j].period)
  }

  /** The value a key has now: that of its last row. */
  function Last(rows: seq<Row>, kpi: string, period: string): (i: int)
    ensures -1 <= i < |rows|
    ensures i >= 0 ==> Same(rows[i], kpi, period)
    ensures forall j :: i < j < |rows| ==> !Same(rows[j], kpi, period)
  {
    if rows == [] then -1
    else if Same(rows[|rows| - 1], kpi, period) then |rows| - 1
    else Last(rows[..|rows| - 1], kpi, period)
  }

  function NewRow(rows: seq<Row>, item: Item, now: int): seq<Row> {
    var i := Last(rows, item.kpi, item.period);
    if i == -1 then [Row(item.kpi, item.period, item.value, false, None, now)]
    else ValueRow(rows[i].value, item, now)
  }

  function NewRows(rows: seq<Row>, items: seq<Item>, now: int): seq<Row> {
    if items == [] then []
    else NewRows(rows, items[..|items| - 1], now) + NewRow(rows, items[|items| - 1], now)
  }

  function Applied(rows: seq<Row>, items: seq<Item>, now: int): seq<Row> {
    rows + NewRows(rows, items, now)
  }

  lemma LatestIsLast(rows: seq<Row>, kpi: string, period: string, i: int)
    requires Chronological(rows) && IsLatest(rows, kpi, period, i)
    ensures i == Last(rows, kpi, period)
  {
    hide Last;
    var l := Last(rows, kpi, period);
    assert l >= i;
  }

  // ---------------------------------------------------------------- the loop refines the specification

  lemma {:induction false} NewRowKeys(rows: seq<Row>, items: seq<Item>, now: int)
    ensures forall r :: r in NewRows(rows, items, now) ==>
      r.extractedAt == now && exists i :: 0 <= i < |items| && Same(r, items[i].kpi, items[i].period)
  {
    hide Last, Abs;
    if items != [] {
      var n := |items| - 1;
      NewRowKeys(rows, items[..n], now);
      forall r | r in NewRows(rows, items, now)
        ensures r.extractedAt == now && exists i :: 0 <= i < |items| && Same(r, items[i].kpi, items[i].period)
      {
        if r in NewRows(rows, items[..n], now) {
          var i :| 0 <= i < n && Same(r, items[..n][i].kpi, items[..n][i].period);
          assert Same(r, items[i].kpi, items[i].period);
        } else {
          assert r in NewRow(rows, items[n], now);
          assert Same(r, items[n].kpi, items[n].period);
        }
      }
    }
  }

  // A batch of distinct keys never looks at a row it wrote itself.
  lemma NotOwnRow(start: seq<Row>, items: seq<Item>, i: nat, now: int, r: Row)
    requires DistinctKeys(items) && i < |items| && r in NewRows(start, items[..i], now)
    ensures !Same(r, items[i].kpi, items[i].period)
  {
    hide NewRows;
    NewRowKeys(start, items[..i], now);
    var k :| 0 <= k < |items[..i]| && Same(r, items[..i][k].kpi, items[..i][k].period);
    assert items[..i][k] == items[k];
  }

  lemma UntouchedKey(start: seq<Row>, items: seq<Item>, i: nat, now: int, j: nat)
    requires DistinctKeys(items) && i < |items|
    requires j < |Applied(start, items[..i], now)|
        && Same(Applied(start, items[..i], now)[j], items[i].kpi, items[i].period)
    ensures j < |start|
  {
    hide NewRows, DistinctKeys, Same;
    if j >= |start| {
      var news := NewRows(start, items[..i], now);
      NotOwnRow(start, items, i, now, news[j - |start|]);
    }
  }

  lemma NextItem(start: seq<Row>, items: seq<Item>, i: nat, now: int, after: seq<Row>)
    requires Chronological(start) && DistinctKeys(items) && i < |items|
    requires Upserted(Applied(start, items[..i], now), items[i], now, after)
    ensures after == Applied(start, items[..i + 1], now)
  {
    hide NewRows, Chronological, DistinctKeys, Abs, ValueRow;
    var mid, item := Applied(start, items[..i], now), items[i];
    NewRowsSnoc(start, items, i, now);
    KnownIff(start, item.kpi, item.period);
    if Known(mid, item.kpi, item.period) {
      var j :| IsLatest(mid, item.kpi, item.period, j) && after == mid + ValueRow(mid[j].value, item, now);
      UntouchedKey(start, items, i, now, j);
      assert forall k :: 0 <= k < |start| ==> mid[k] == start[k];
      LatestIsLast(start, item.kpi, item.period, j);
    } else {
      assert forall k :: 0 <= k < |start| ==> mid[k] == start[k];
    }
  }

  lemma NewRowsSnoc(rows: seq<Row>, items: seq<Item>, i: nat, now: int)
    requires i < |items|
    ensures Applied(rows, items[..i + 1], now) == Applied(rows, items[..i], now) + NewRow(rows, items[i], now)
  {
    hide NewRow;
    assert items[..i + 1][..i] == items[..i];
  }

  lemma KnownIff(rows: seq<Row>, kpi: string, period: string)
    ensures Known(rows, kpi, period) <==> Last(rows, kpi, period) != -1
  {
    hide Last;
    var l := Last(rows, kpi, period);
    assert l >= 0 ==> Same(rows[l], kpi, period);
  }

  // ---------------------------------------------------------------- whole runs

  datatype Batch = Batch(items: seq<Item>, now: int)

  /** The table after a run of batches. */
  function Run(batches: seq<Batch>): seq<Row> {
    if batches == [] then []
    else var b := batches[|batches| - 1]; Applied(Run(batches[..|batches| - 1]), b.items, b.now)
  }

  ghost predicate InOrder(batches: seq<Batch>) {
    && (forall i :: 0 <= i < |batches| ==> DistinctKeys(batches[i].items))
    && forall i, j :: 0 <= i < j < |batches| ==> batches[i].now < batches[j].now
  }

  /**
   * A row against the row of its key before it: the first of a key is not restated; every other one is, its
   * note names its predecessor's value, it is later, and it differs by at least the tolerance.
   */
  predicate Linked(rows: seq<Row>, k: nat)
    requires k < |rows|
  {
    var r := rows[k];
    var i := Last(rows[..k], r.kpi, r.period);
    if i == -1 then !r.isRestated && r.note == None
    else
      && r.isRestated && r.note == Some(RestatedFrom(rows[i].value, r.value))
      && Abs(rows[i].value - r.value) >= 0.000001
      && rows[i].extractedAt < r.extractedAt
  }

  ghost predicate History(rows: seq<Row>) {
    forall k :: 0 <= k < |rows| ==> Linked(rows, k)
  }

  lemma AppliedBefore(rows: seq<Row>, items: seq<Item>, now: int, later: int)
    requires Before(rows, now) && now < later
    ensures Before(Applied(rows, items, now), later)
  {
    hide NewRows;
    NewRowKeys(rows, items, now);
    var all := Applied(rows, items, now);
    forall i | 0 <= i < |all| ensures all[i].extractedAt < later {
      if i >= |rows| {
        assert all[i] in NewRows(rows, items, now);
      }
    }
  }

  lemma {:induction false} AppliedHistory(rows: seq<Row>, items: seq<Item>, now: int, n: nat)
    requires History(rows) && Before(rows, now) && DistinctKeys(items) && n <= |items|
    ensures History(Applied(rows, items[..n], now))
    decreases n
  {
    hide History, Before, DistinctKeys;
    if n == 0 {
      NothingApplied(rows, now);
      assert items[..0] == [];
    } else {
      AppliedHistory(rows, items, now, n - 1);
      NewRowsSnoc(rows, items, n - 1, now);
      LinkNext(rows, items, n - 1, now);
    }
  }

  lemma LinkNext(rows: seq<Row>, items: seq<Item>, i: nat, now: int)
    requires Before(rows, now) && DistinctKeys(items) && i < |items|
    requires History(Applied(rows, items[..i], now))
    ensures History(Applied(rows, items[..i], now) + NewRow(rows, items[i], now))
  {
    hide NewRows, Last, DistinctKeys, Abs;
    var mid, added := Applied(rows, items[..i], now), NewRow(rows, items[i], now);
    var all := mid + added;
    LastIgnoresBatch(rows, items, i, now);
    forall k | 0 <= k < |all| ensures Linked(all, k) {
      if k < |mid| {
        assert all[..k] == mid[..k];
        assert Linked(mid, k);
      } else {
        assert all[..k] == mid;
      }
    }
  }

  lemma LastIgnoresBatch(rows: seq<Row>, items: seq<Item>, i: nat, now: int)
    requires DistinctKeys(items) && i < |items|
    ensures Last(Applied(rows, items[..i], now), items[i].kpi, items[i].period)
        == Last(rows, items[i].kpi, items[i].period)
  {
    hide NewRows, Last, DistinctKeys;
    var mid := Applied(rows, items[..i], now);
    var a, b := Last(mid, items[i].kpi, items[i].period), Last(rows, items[i].kpi, items[i].period);
    if a >= 0 {
      UntouchedKey(rows, items, i, now, a);
      assert mid[a] == rows[a];
    }
    assert b >= 0 ==> mid[b] == rows[b];
  }

  /** Over every run of batches the table is a linked history of each key, in order of time. */
  lemma {:induction false} RunHistory(batches: seq<Batch>)
    requires InOrder(batches)
    ensures History(Run(batches))
    ensures forall now :: (batches != [] ==> batches[|batches| - 1].now < now) ==> Before(Run(batches), now)
  {
    hide History, Applied, DistinctKeys;
    if batches == [] {
      EmptyHistory();
    } else {
      var n := |batches| - 1;
      var b, rows := batches[n], Run(batches[..n]);
      assert forall i :: 0 <= i < n ==> batches[..n][i] == batches[i];
      RunHistory(batches[..n]);
      assert Before(rows, b.now);
      assert DistinctKeys(b.items);
      AppliedHistory(rows, b.items, b.now, |b.items|);
      assert b.items[..|b.items|] == b.items;
      forall now: int | b.now < now ensures Before(Run(batches), now) {
        AppliedBefore(rows, b.items, b.now, now);
      }
    }
  }

  lemma EmptyHistory()
    ensures History([]) && forall now :: Before([], now)
  {
  }

  lemma HistoryIsChronological(rows: seq<Row>)
    requires History(rows)
    ensures Chronological(rows)
  {
    forall i, j | 0 <= i < j < |rows| && Same(rows[i], rows[j].kpi, rows[j].period)
      ensures rows[i].extractedAt < rows[j].extractedAt
    {
      EarlierIsEarlier(rows, i, j);
    }
  }

  lemma {:induction false} EarlierIsEarlier(rows: seq<Row>, i: nat, j: nat)
    requires History(rows) && i < j < |rows| && Same(rows[i], rows[j].kpi, rows[j].period)
    ensures rows[i].extractedAt < rows[j].extractedAt
    decreases j
  {
    hide Last;
    assert Linked(rows, j);
    var l := Last(rows[..j], rows[j].kpi, rows[j].period);
    assert rows[..j][i] == rows[i];
    assert l >= i;
    if l > i {
      EarlierIsEarlier(rows, i, l);
    }
  }

  // ---------------------------------------------------------------- replaying a batch

  /** The key has a value within the tolerance of the item's. */
  predicate UpToDate(rows: seq<Row>, item: Item) {
    var l := Last(rows, item.kpi, item.period);
    l != -1 && Abs(rows[l].value - item.value) < 0.000001
  }

  /** A key that was just upserted has, within the tolerance, the value it was upserted with. */
  lemma {:induction false} LastAfter(rows: seq<Row>, items: seq<Item>, now: int, n: nat, i: nat)
    requires DistinctKeys(items) && i < n <= |items|
    ensures UpToDate(Applied(rows, items[..n], now), items[i])
    decreases n
  {
    hide DistinctKeys, Applied, NewRow, Last, Abs;
    NewRowsSnoc(rows, items, n - 1, now);
    var mid, added := Applied(rows, items[..n - 1], now), NewRow(rows, items[n - 1], now);
    if i < n - 1 {
      LastAfter(rows, items, now, n - 1, i);
      OtherKey(mid, added, items, i, n - 1, rows, now);
    } else {
      LastIgnoresBatch(rows, items, i, now);
      AppliedKeeps(rows, items[..i], now);
      LastOfNewRow(rows, mid, items[i], now);
    }
  }

  lemma AppliedKeeps(rows: seq<Row>, items: seq<Item>, now: int)
    ensures rows <= Applied(rows, items, now)
  {
    hide NewRows;
  }

  lemma OtherKey(mid: seq<Row>, added: seq<Row>, items: seq<Item>, i: nat, j: nat, rows: seq<Row>, now: int)
    requires DistinctKeys(items) && i < j < |items| && added == NewRow(rows, items[j], now)
    ensures Last(mid + added, items[i].kpi, items[i].period) == Last(mid, items[i].kpi, items[i].period)
  {
    if added != [] {
      assert (mid + added)[..|mid|] == mid;
    } else {
      assert mid + added == mid;
    }
  }

  lemma LastOfNewRow(rows: seq<Row>, mid: seq<Row>, item: Item, now: int)
    requires rows <= mid && Last(mid, item.kpi, item.period) == Last(rows, item.kpi, item.period)
    ensures UpToDate(mid + NewRow(rows, item, now), item)
  {
    var added := NewRow(rows, item, now);
    if added == [] {
      assert mid + added == mid;
    }
  }

  lemma NoNewRow(rows: seq<Row>, item: Item, now: int)
    requires UpToDate(rows, item)
    ensures NewRow(rows, item, now) == []
  {
    hide Last, Abs;
  }

  lemma {:induction false} NothingNew(rows: seq<Row>, items: seq<Item>, now: int)
    requires forall i :: 0 <= i < |items| ==> UpToDate(rows, items[i])
    ensures NewRows(rows, items, now) == []
  {
    hide UpToDate, NewRow;
    if items != [] {
      var n := |items| - 1;
      NothingNew(rows, items[..n], now);
      NoNewRow(rows, items[n], now);
    }
  }

  /** Replaying a batch right after itself changes nothing. */
  lemma ReplayChangesNothing(rows: seq<Row>, items: seq<Item>, now: int, again: int)
    requires DistinctKeys(items)
    ensures Applied(Applied(rows, items, now), items, again) == Applied(rows, items, now)
  {
    hide DistinctKeys, Last, Abs;
    var all := Applied(rows, items, now);
    forall i | 0 <= i < |items| ensures UpToDate(all, items[i]) {
      LastAfter(rows, items, now, |items|, i);
      assert items[..|items|] == items;
    }
    NothingNew(all, items, again);
  }

  // ---------------------------------------------------------------- where the rows of a run come from

  lemma LastBatch(batches: seq<Batch>)
    requires batches != []
    ensures var n := |batches| - 1;
      && Run(batches) == Applied(Run(batches[..n]), batches[n].items, batches[n].now)
      && Run(batches[..n]) <= Run(batches)
  {
    hide Applied;
    var n := |batches| - 1;
    AppliedKeeps(Run(batches[..n]), batches[n].items, batches[n].now);
  }

  /** No batch changes or removes a row of an earlier one. */
  lemma {:induction false} RunGrows(batches: seq<Batch>, n: nat)
    requires n <= |batches|
    ensures Run(batches[..n]) <= Run(batches)
    decreases |batches|
  {
    hide Run;
    if n == |batches| {
      assert batches[..n] == batches;
    } else {
      var m := |batches| - 1;
      LastBatch(batches);
      RunGrows(batches[..m], n);
      assert batches[..m][..n] == batches[..n];
    }
  }

  /** After each batch every key in it has, within the tolerance, the value it came with. */
  lemma BatchIsApplied(batches: seq<Batch>, n: nat, i: nat)
    requires InOrder(batches) && n < |batches| && i < |batches[n].items|
    ensures UpToDate(Run(batches[..n + 1]), batches[n].items[i])
  {
    hide Run, UpToDate, DistinctKeys, Applied;
    var done, b := batches[..n + 1], batches[n];
    assert done[n] == b && DistinctKeys(b.items);
    LastBatch(done);
    LastAfter(Run(done[..n]), b.items, b.now, |b.items|, i);
    assert b.items[..|b.items|] == b.items;
  }
}
