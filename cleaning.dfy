/** `process_csv_file`: one daily traffic-count table is filtered to the selected sites,
    cleaned, aggregated from quarter hours to hours and melted into long format. Each
    pandas step is a row-wise map or filter, so each is a function on a sequence of rows. */
module Cleaning {
  import opened Common
  import opened Text

  /** Hours per day; each hour is four quarter-hour cells. */
  const HoursPerDay: nat := 24

  /** A row of the raw table after the region, 24-hour total and alarm columns are
      dropped and the rest renamed. `vols` holds the `V..` columns in column order; a
      missing reading is `None`. `datetime` is carried through as read. */
  datatype RawRow = RawRow(siteId: int, datetime: string, detectorId: int,
                           workingPeriodCount: int, vols: seq<Option<int>>)

  /** A row in wide format with integer cells: quarter hours after cleaning, hours after
      aggregation. */
  datatype WideRow = WideRow(siteId: int, datetime: string, detectorId: int,
                             workingPeriodCount: int, cells: seq<int>)

  /** A row of the output table, fields in output column order. */
  datatype LongRow = LongRow(datetime: string, hour: string, siteId: int, detectorId: int,
                             volume: int, workingPeriodCount: int)

  // ---------------------------------------------------------------------------
  // Filtering

  /** `df[df["site_id"].isin(selected_sites)]`. */
  function AtSelectedSites(rows: seq<RawRow>, selected: seq<int>): (r: seq<RawRow>)
    ensures |r| <= |rows|
    ensures forall x :: x in r <==> x in rows && x.siteId in selected
  {
    if rows == [] then []
    else
      assert rows == [rows[0]] + rows[1..];
      (if rows[0].siteId in selected then [rows[0]] else []) + AtSelectedSites(rows[1..], selected)
  }

  /** A reading that is present and strictly positive (`NaN > 0` is false). */
  predicate IsPositive(c: Option<int>)
  {
    c.Some? && c.value > 0
  }

  /** `(df[volume_cols] > 0).any(axis=1)`, on the raw readings. */
  predicate HasSignal(row: RawRow)
  {
    exists i :: 0 <= i < |row.vols| && IsPositive(row.vols[i])
  }

  /** Keeps the rows with at least one positive reading. */
  function WithSignal(rows: seq<RawRow>): (r: seq<RawRow>)
    ensures |r| <= |rows|
    ensures forall x :: x in r <==> x in rows && HasSignal(x)
  {
    if rows == [] then []
    else
      assert rows == [rows[0]] + rows[1..];
      (if HasSignal(rows[0]) then [rows[0]] else []) + WithSignal(rows[1..])
  }

  /** The rows that reach the cleaning steps, in table order. */
  function Survivors(rows: seq<RawRow>, selected: seq<int>): (r: seq<RawRow>)
    ensures |r| <= |rows|
    ensures forall x :: x in r <==> x in rows && x.siteId in selected && HasSignal(x)
  {
    WithSignal(AtSelectedSites(rows, selected))
  }

  lemma {:induction false} AtSelectedSitesAppend(a: seq<RawRow>, b: seq<RawRow>, selected: seq<int>)
    ensures AtSelectedSites(a + b, selected) == AtSelectedSites(a, selected) + AtSelectedSites(b, selected)
  {
    if a == [] {
      assert a + b == b;
    } else {
      assert (a + b)[1..] == a[1..] + b;
      AtSelectedSitesAppend(a[1..], b, selected);
    }
  }

  lemma {:induction false} WithSignalAppend(a: seq<RawRow>, b: seq<RawRow>)
    ensures WithSignal(a + b) == WithSignal(a) + WithSignal(b)
  {
    if a == [] {
      assert a + b == b;
    } else {
      assert (a + b)[1..] == a[1..] + b;
      WithSignalAppend(a[1..], b);
    }
  }

  /** Both filters work row by row, so the surviving rows keep their table order. */
  lemma SurvivorsAppend(a: seq<RawRow>, b: seq<RawRow>, selected: seq<int>)
    ensures Survivors(a + b, selected) == Survivors(a, selected) + Survivors(b, selected)
  {
    AtSelectedSitesAppend(a, b, selected);
    WithSignalAppend(AtSelectedSites(a, selected), AtSelectedSites(b, selected));
  }

  // ---------------------------------------------------------------------------
  // Cleaning

  /** `fillna(0)` on one reading. */
  function FillCell(c: Option<int>): int
  {
    match c
    case None => 0
    case Some(v) => v
  }

  /** `fillna(0)` on a row's readings. */
  function FillCells(vols: seq<Option<int>>): (r: seq<int>)
    ensures |r| == |vols|
  {
    seq(|vols|, i requires 0 <= i < |vols| => FillCell(vols[i]))
  }

  /** `df.fillna(0)`. */
  function Fill(row: RawRow): WideRow
  {
    WideRow(row.siteId, row.datetime, row.detectorId, row.workingPeriodCount, FillCells(row.vols))
  }

  /** `neg_mask.sum(axis=1)` for one row. */
  function CountNegative(cells: seq<int>): nat
  {
    if cells == [] then 0 else (if cells[0] < 0 then 1 else 0) + CountNegative(cells[1..])
  }

  /** The negative-cell correction: the working period count loses one per negative
      cell (no clamping), and every negative cell becomes 0. */
  function Correct(w: WideRow): WideRow
  {
    w.(workingPeriodCount := w.workingPeriodCount - CountNegative(w.cells),
       cells := ZeroNegatives(w.cells))
  }

  /** `mask(neg_mask, 0)` on a row's cells. */
  function ZeroNegatives(cells: seq<int>): (r: seq<int>)
    ensures |r| == |cells|
  {
    seq(|cells|, i requires 0 <= i < |cells| => if cells[i] < 0 then 0 else cells[i])
  }

  /** Fill, then correct: the cleaning of one surviving row. It keeps the identifying
      fields, leaves no reading missing or negative, keeps the non-negative readings, and
      lowers the working period count by exactly the number of negative readings. */
  function Clean(row: RawRow): (r: WideRow)
    ensures r.siteId == row.siteId && r.datetime == row.datetime && r.detectorId == row.detectorId
    ensures r.workingPeriodCount == row.workingPeriodCount - RawNegatives(row.vols)
    ensures r.cells == CleanCells(row.vols)
    ensures forall i :: 0 <= i < |row.vols| ==> r.cells[i] >= 0
  {
    CountNegativeOfFill(row.vols);
    Correct(Fill(row))
  }

  /** The number of raw readings that are present and negative. */
  function RawNegatives(vols: seq<Option<int>>): nat
  {
    if vols == [] then 0
    else (if vols[0].Some? && vols[0].value < 0 then 1 else 0) + RawNegatives(vols[1..])
  }

  /** What a reading is after cleaning: missing and negative readings are 0, the others
      are kept. */
  function CleanedCell(c: Option<int>): (v: int)
    ensures v >= 0
  {
    if c.Some? && c.value >= 0 then c.value else 0
  }

  /** The reference reading of a whole row after cleaning. */
  function CleanCells(vols: seq<Option<int>>): (r: seq<int>)
    ensures |r| == |vols|
  {
    seq(|vols|, i requires 0 <= i < |vols| => CleanedCell(vols[i]))
  }

  lemma {:induction false} CountNegativeOfFill(vols: seq<Option<int>>)
    ensures CountNegative(FillCells(vols)) == RawNegatives(vols)
  {
    if vols != [] {
      CountNegativeOfFill(vols[1..]);
      assert FillCells(vols)[1..] == FillCells(vols[1..]);
    }
  }

  /** The readings of a sample row: 5, -3, 0, 2 and then zeros, 96 in all. */
  predicate ExampleReadings(vols: seq<Option<int>>)
  {
    |vols| == 96 && vols[0] == Some(5) && vols[1] == Some(-3) && vols[2] == Some(0) && vols[3] == Some(2)
    && forall i :: 4 <= i < 96 ==> vols[i] == Some(0)
  }

  /** The sample row is cleaned to 5, 0, 0, 2, 0, ... and its working period count drops
      by one, for its one negative reading. */
  lemma CleanExample(row: RawRow)
    requires ExampleReadings(row.vols)
    ensures Clean(row).workingPeriodCount == row.workingPeriodCount - 1
    ensures Clean(row).cells[..4] == [5, 0, 0, 2]
    ensures forall i :: 4 <= i < 96 ==> Clean(row).cells[i] == 0
  {
    var vols := row.vols;
    assert vols == vols[..4] + vols[4..];
    assert vols[..4] == [Some(5), Some(-3), Some(0), Some(2)];
    assert RawNegatives([Some(5), Some(-3), Some(0), Some(2)]) == 1;
    NoRawNegatives(vols[4..]);
    RawNegativesAppend(vols[..4], vols[4..]);
  }

  lemma {:induction false} RawNegativesAppend(a: seq<Option<int>>, b: seq<Option<int>>)
    ensures RawNegatives(a + b) == RawNegatives(a) + RawNegatives(b)
  {
    if a == [] {
      assert a + b == b;
    } else {
      assert (a + b)[1..] == a[1..] + b;
      RawNegativesAppend(a[1..], b);
    }
  }

  lemma {:induction false} NoRawNegatives(vols: seq<Option<int>>)
    requires forall i :: 0 <= i < |vols| ==> vols[i].None? || vols[i].value >= 0
    ensures RawNegatives(vols) == 0
  {
    if vols != [] {
      NoRawNegatives(vols[1..]);
    }
  }

  // ---------------------------------------------------------------------------
  // Hourly aggregation

  function Min(a: nat, b: nat): nat
  {
    if a <= b then a else b
  }

  /** Python's `s[i:j]` for `0 <= i <= j`: bounds past the end are cut back. */
  function PySlice(s: seq<int>, i: nat, j: nat): (r: seq<int>)
    requires i <= j
  {
    s[Min(i, |s|)..Min(j, |s|)]
  }

  /** The total of hour `h` (counting from 0): the sum of
      `volume_cols[h*4 : (h+1)*4]`. */
  function HourTotal(cells: seq<int>, h: nat): int
  {
    Sum(PySlice(cells, 4 * h, 4 * (h + 1)))
  }

  /** The 24 hourly columns built by the aggregation comprehension. */
  function HourlyTotals(cells: seq<int>): (t: seq<int>)
    ensures |t| == HoursPerDay
  {
    seq(HoursPerDay, h requires 0 <= h < HoursPerDay => HourTotal(cells, h))
  }

  /** With all 96 quarter hours present, hour `h` is the sum of quarters
      `4h .. 4h+3`. */
  lemma HourTotalOfQuarters(cells: seq<int>, h: nat)
    requires 4 * h + 3 < |cells|
    ensures HourTotal(cells, h) == cells[4 * h] + cells[4 * h + 1] + cells[4 * h + 2] + cells[4 * h + 3]
  {
    var q := cells[4 * h .. 4 * h + 4];
    assert PySlice(cells, 4 * h, 4 * (h + 1)) == q;
    assert q[1..][1..][1..][1..] == [];
    assert Sum(q[1..][1..][1..]) == q[3];
    assert Sum(q[1..][1..]) == q[2] + q[3];
    assert Sum(q[1..]) == q[1] + q[2] + q[3];
  }

  lemma {:induction false} FirstHoursSum(cells: seq<int>, k: nat)
    requires k <= HoursPerDay
    ensures Sum(HourlyTotals(cells)[..k]) == Sum(cells[..Min(|cells|, 4 * k)])
  {
    if k == 0 {
      assert HourlyTotals(cells)[..0] == [];
      assert cells[..0] == [];
    } else {
      var t := HourlyTotals(cells);
      FirstHoursSum(cells, k - 1);
      assert t[..k] == t[..k - 1] + [t[k - 1]];
      SumAppend(t[..k - 1], [t[k - 1]]);
      var lo := Min(|cells|, 4 * (k - 1));
      var hi := Min(|cells|, 4 * k);
      assert cells[..hi] == cells[..lo] + cells[lo..hi];
      SumAppend(cells[..lo], cells[lo..hi]);
      assert [t[k - 1]][1..] == [];
    }
  }

  /** Aggregation preserves the day's total: the 24 hours add up to the first 96 cleaned
      quarter hours (all of them, for the 96-column schema). */
  lemma HourlyTotalsPreserveSum(cells: seq<int>)
    ensures Sum(HourlyTotals(cells)) == Sum(cells[..Min(|cells|, 96)])
  {
    FirstHoursSum(cells, HoursPerDay);
    assert HourlyTotals(cells)[..HoursPerDay] == HourlyTotals(cells);
  }

  /** Hours of non-negative quarter hours are non-negative. */
  lemma HourlyTotalsNonNegative(cells: seq<int>)
    requires forall i :: 0 <= i < |cells| ==> cells[i] >= 0
    ensures forall h :: 0 <= h < HoursPerDay ==> HourlyTotals(cells)[h] >= 0
  {
    forall h | 0 <= h < HoursPerDay ensures HourlyTotals(cells)[h] >= 0 {
      var s := PySlice(cells, 4 * h, 4 * (h + 1));
      assert forall i :: 0 <= i < |s| ==> s[i] in cells;
      SumNonNegative(s);
    }
  }

  /** The wide row with its quarter hours replaced by the 24 hourly columns. */
  function Aggregate(w: WideRow): WideRow
  {
    w.(cells := HourlyTotals(w.cells))
  }

  // ---------------------------------------------------------------------------
  // Wide to long

  /** Every row has exactly the 24 hourly columns. */
  predicate AllHourly(rows: seq<WideRow>)
  {
    forall k :: 0 <= k < |rows| ==> |rows[k].cells| == HoursPerDay
  }

  /** The names of the hourly columns, `f"{h+1}"` for `h` in `range(24)`; they become
      the values of the output's hour column. */
  const HourLabels: seq<string> :=
    ["1", "2", "3", "4", "5", "6", "7", "8", "9", "10", "11", "12",
     "13", "14", "15", "16", "17", "18", "19", "20", "21", "22", "23", "24"]

  /** The labels are the decimal renderings of 1 to 24, so no two hours share one. */
  lemma HourLabelsDecimal(h: nat)
    requires h < HoursPerDay
    ensures |HourLabels| == HoursPerDay && HourLabels[h] == DecimalString(h + 1)
  {
  }

  /** The output row for hour `h` (counting from 0) of a wide row. */
  function LongAt(w: WideRow, h: nat): LongRow
    requires h < HoursPerDay && h < |w.cells|
  {
    LongRow(w.datetime, HourLabels[h], w.siteId, w.detectorId, w.cells[h], w.workingPeriodCount)
  }

  /** All rows' values for one hour column, in row order. */
  function HourBlock(rows: seq<WideRow>, h: nat): (r: seq<LongRow>)
    requires AllHourly(rows) && h < HoursPerDay
    ensures |r| == |rows|
  {
    seq(|rows|, k requires 0 <= k < |rows| => LongAt(rows[k], h))
  }

  /** Where `melt` puts hour `h` of row `k` when there are `n` rows: the hour columns are
      stacked in order, each holding all rows. */
  function HourMajor(h: nat, k: nat, n: nat): nat
  {
    h * n + k
  }

  /** The hour columns, each as a block of output rows. */
  function HourBlocks(rows: seq<WideRow>): (b: seq<seq<LongRow>>)
    requires AllHourly(rows)
    ensures |b| == HoursPerDay
    ensures forall h :: 0 <= h < HoursPerDay ==> b[h] == HourBlock(rows, h)
  {
    seq(HoursPerDay, h requires 0 <= h < HoursPerDay => HourBlock(rows, h))
  }

  /** `df.melt(...)` over the hourly columns `"1"`..`"24"`: the columns are stacked one
      after the other. */
  function Melt(rows: seq<WideRow>): (r: seq<LongRow>)
    requires AllHourly(rows)
    ensures |r| == HoursPerDay * |rows|
  {
    FlattenUniformLength(HourBlocks(rows), |rows|);
    Flatten(HourBlocks(rows))
  }

  lemma MeltAt(rows: seq<WideRow>, h: nat, k: nat)
    requires AllHourly(rows) && h < HoursPerDay && k < |rows|
    ensures HourMajor(h, k, |rows|) < |Melt(rows)|
    ensures Melt(rows)[HourMajor(h, k, |rows|)] == LongAt(rows[k], h)
  {
    FlattenUniformAt(HourBlocks(rows), |rows|, h, k);
  }

  lemma MeltMember(rows: seq<WideRow>, x: LongRow)
    requires AllHourly(rows) && x in Melt(rows)
    ensures exists k, g :: 0 <= k < |rows| && 0 <= g < HoursPerDay && x == LongAt(rows[k], g)
  {
    FlattenMember(HourBlocks(rows), x);
    var g :| 0 <= g < HoursPerDay && x in HourBlocks(rows)[g];
    var k :| 0 <= k < |rows| && HourBlock(rows, g)[k] == x;
  }

  // ---------------------------------------------------------------------------
  // The whole file

  /** The surviving rows, cleaned and aggregated, in table order. */
  function HourlyRows(rows: seq<RawRow>, selected: seq<int>): (r: seq<WideRow>)
    ensures AllHourly(r)
    ensures |r| == |Survivors(rows, selected)|
  {
    var s := Survivors(rows, selected);
    seq(|s|, k requires 0 <= k < |s| => Aggregate(Clean(s[k])))
  }

  /** `process_csv_file` on an already parsed table: 24 output rows per surviving row. */
  function ProcessCsv(rows: seq<RawRow>, selected: seq<int>): (r: seq<LongRow>)
    ensures |r| == HoursPerDay * |Survivors(rows, selected)|
  {
    Melt(HourlyRows(rows, selected))
  }

  lemma ProcessCsvIndex(rows: seq<RawRow>, selected: seq<int>, h: nat, k: nat)
    requires h < HoursPerDay && k < |Survivors(rows, selected)|
    ensures HourMajor(h, k, |Survivors(rows, selected)|) < |ProcessCsv(rows, selected)|
    ensures ProcessCsv(rows, selected)[HourMajor(h, k, |Survivors(rows, selected)|)]
      == LongAt(Aggregate(Clean(Survivors(rows, selected)[k])), h)
  {
    var w := HourlyRows(rows, selected);
    MeltAt(w, h, k);
  }

  lemma LongAtOfClean(s: RawRow, h: nat)
    requires h < HoursPerDay
    ensures LongAt(Aggregate(Clean(s)), h) == LongRow(s.datetime, HourLabels[h], s.siteId, s.detectorId,
                   HourTotal(CleanCells(s.vols), h), s.workingPeriodCount - RawNegatives(s.vols))
  {
  }

  /** Fan-out and hour-major order: with `n` surviving rows the output has `24 * n`
      rows, and the row at `h * n + k` is hour `h + 1` of surviving row `k`: it is
      labelled `str(h + 1)`, carries that row's date, site, detector and corrected
      working period count, and its volume is the sum of the row's cleaned quarter
      hours `4h .. 4h+3`. */
  lemma ProcessCsvAt(rows: seq<RawRow>, selected: seq<int>, h: nat, k: nat)
    requires h < HoursPerDay && k < |Survivors(rows, selected)|
    ensures |ProcessCsv(rows, selected)| == HoursPerDay * |Survivors(rows, selected)|
    ensures HourMajor(h, k, |Survivors(rows, selected)|) < |ProcessCsv(rows, selected)|
    ensures var s := Survivors(rows, selected)[k];
      ProcessCsv(rows, selected)[HourMajor(h, k, |Survivors(rows, selected)|)]
        == LongRow(s.datetime, HourLabels[h], s.siteId, s.detectorId,
                   HourTotal(CleanCells(s.vols), h), s.workingPeriodCount - RawNegatives(s.vols))
  {
    ProcessCsvIndex(rows, selected, h, k);
    LongAtOfClean(Survivors(rows, selected)[k], h);
  }

  /** An output row carries the date, site, detector and corrected working period count
      of raw row `r`. */
  predicate ComesFrom(x: LongRow, r: RawRow)
  {
    x.datetime == r.datetime && x.siteId == r.siteId && x.detectorId == r.detectorId
    && x.workingPeriodCount == r.workingPeriodCount - RawNegatives(r.vols)
  }

  /** Every output row comes from a surviving input row: its site is selected, its
      volume is not negative, its hour label is one of `"1"`..`"24"`, and it shares
      that row's date, site, detector and corrected working period count. */
  lemma ProcessCsvRows(rows: seq<RawRow>, selected: seq<int>)
    ensures forall x :: x in ProcessCsv(rows, selected) ==>
      x.siteId in selected && x.volume >= 0
      && x.hour in HourLabels
      && exists r :: r in rows && HasSignal(r) && ComesFrom(x, r)
  {
    var w := HourlyRows(rows, selected);
    var s := Survivors(rows, selected);
    forall x | x in ProcessCsv(rows, selected)
      ensures x.siteId in selected && x.volume >= 0
      ensures x.hour in HourLabels
      ensures exists r :: r in rows && HasSignal(r) && ComesFrom(x, r)
    {
      MeltMember(w, x);
      var k, g :| 0 <= k < |w| && 0 <= g < HoursPerDay && x == LongAt(w[k], g);
      assert s[k] in s;
      HourlyTotalsNonNegative(Clean(s[k]).cells);
    }
  }

  /** A row yields output if and only if its site is selected and one of its raw
      readings is positive; then it yields exactly 24 rows. A row of zeros, missing or
      negative readings yields nothing, although cleaning would have zeroed it anyway. */
  lemma ProcessCsvOneRow(row: RawRow, selected: seq<int>)
    ensures |ProcessCsv([row], selected)| == if row.siteId in selected && HasSignal(row) then HoursPerDay else 0
  {
    assert [row][1..] == [];
    var s := Survivors([row], selected);
    if row.siteId in selected && HasSignal(row) {
      assert s == [row];
    } else {
      assert s == [];
    }
  }

  /** The hours a row is spread over add up to the day's cleaned total. */
  lemma ProcessCsvRowTotal(rows: seq<RawRow>, selected: seq<int>, k: nat)
    requires k < |Survivors(rows, selected)|
    ensures var n := |Survivors(rows, selected)|;
      var s := Survivors(rows, selected)[k];
      var out := ProcessCsv(rows, selected);
      (forall h :: 0 <= h < HoursPerDay ==> HourMajor(h, k, n) < |out|)
      && Sum(seq(HoursPerDay, h requires 0 <= h < HoursPerDay => out[HourMajor(h, k, n)].volume))
         == Sum(CleanCells(s.vols)[..Min(|s.vols|, 96)])
  {
    var n := |Survivors(rows, selected)|;
    var s := Survivors(rows, selected)[k];
    var out := ProcessCsv(rows, selected);
    var t := HourlyTotals(CleanCells(s.vols));
    forall h | 0 <= h < HoursPerDay
      ensures HourMajor(h, k, n) < |out| && out[HourMajor(h, k, n)].volume == t[h]
    {
      ProcessCsvAt(rows, selected, h, k);
    }
    assert seq(HoursPerDay, h requires 0 <= h < HoursPerDay => out[HourMajor(h, k, n)].volume) == t;
    HourlyTotalsPreserveSum(CleanCells(s.vols));
  }

  /** The hourly totals of the example readings: 7 in the first hour, 0 in every other. */
  lemma ExampleHourTotals(vols: seq<Option<int>>, h: nat)
    requires ExampleReadings(vols) && h < HoursPerDay
    ensures HourTotal(CleanCells(vols), h) == if h == 0 then 7 else 0
  {
    var cells := CleanCells(vols);
    HourTotalOfQuarters(cells, h);
    assert h > 0 ==> cells[4 * h] == 0 && cells[4 * h + 1] == 0 && cells[4 * h + 2] == 0 && cells[4 * h + 3] == 0;
  }

  /** The sample row, at a selected site, is kept (one reading is positive) and yields 24
      rows: 7 vehicles in hour `"1"`, none in the others, all with the working period count
      lowered by one for the one negative reading. */
  lemma ProcessCsvExample(row: RawRow, selected: seq<int>)
    requires ExampleReadings(row.vols) && row.siteId in selected
    ensures var out := ProcessCsv([row], selected);
      |out| == HoursPerDay
      && out[0] == LongRow(row.datetime, "1", row.siteId, row.detectorId, 7, row.workingPeriodCount - 1)
      && forall h :: 1 <= h < HoursPerDay ==> out[h].volume == 0 && out[h].workingPeriodCount == row.workingPeriodCount - 1
  {
    assert IsPositive(row.vols[0]);
    assert Survivors([row], selected) == [row] by {
      assert [row][1..] == [];
    }
    CleanExample(row);
    forall h | 0 <= h < HoursPerDay
      ensures ProcessCsv([row], selected)[h].volume == (if h == 0 then 7 else 0)
      ensures ProcessCsv([row], selected)[h] == LongRow(row.datetime, HourLabels[h], row.siteId, row.detectorId,
                                                       ProcessCsv([row], selected)[h].volume, row.workingPeriodCount - 1)
    {
      ProcessCsvAt([row], selected, h, 0);
      ExampleHourTotals(row.vols, h);
    }
  }
}
