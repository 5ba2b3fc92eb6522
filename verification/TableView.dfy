/** What the viewer shows and what the download writes: the header row, the
    projection of each reconciled row, the per-destination cell
    normalisation and the repeat-holder highlighting. */
module TableView {
  import opened JsPrim
  import opened FinancialPeriod
  import opened Rows
  import opened Reconcile

  // ---------------------------------------------------------------------
  // Headers

  /** A header cell: a fixed column label, or the quarter a historical
      column reports on. */
  datatype Header = Fixed(name: string) | QuarterColumn(q: Quarter)

  const BaseHeaders: seq<Header> :=
    [Fixed("SL"), Fixed("Company Name"), Fixed("Shares Held"), Fixed("Filing Status"), Fixed("—")]

  /** The five fixed labels followed by the eight quarters before the
      current one, most recent first: column `5 + k` reports on the quarter
      `k + 1` places before the current one. */
  function Headers(month: Month, year: int): (h: seq<Header>)
    ensures |h| == 13
    ensures h[..5] == BaseHeaders
    ensures forall k :: 5 <= k < 13 ==>
      && h[k].QuarterColumn?
      && Ordinal(h[k].q) == Ordinal(CurrentIndianQuarter(month, year)) - (k - 4)
  {
    var prev := seq(8, k requires 0 <= k < 8 => QuarterColumn(PreviousIndianQuarter(k + 1, month, year)));
    forall k | 0 <= k < 8
      ensures Ordinal(prev[k].q) == Ordinal(CurrentIndianQuarter(month, year)) - (k + 1)
    {
      OrdinalLaw(k + 1, month, year);
    }
    BaseHeaders + prev
  }

  /** The eight quarter columns are pairwise distinct and strictly
      decreasing from left to right. */
  lemma HeadersStrictlyDecreasing(month: Month, year: int)
    ensures var h := Headers(month, year);
      forall a, b :: 5 <= a < b < 13 ==> Before(h[b].q, h[a].q) && h[b].q != h[a].q
  {
    var h := Headers(month, year);
    forall a, b | 5 <= a < b < 13
      ensures Before(h[b].q, h[a].q) && h[b].q != h[a].q
    {
      OrdinalOrder(h[b].q, h[a].q);
    }
  }

  // ---------------------------------------------------------------------
  // Row projection and cell normalisation

  /** `[i + 1, ...row.slice(1, -1)]`: the running serial replaces cell 0,
      cells 1 up to the second-to-last keep their positions, and the last
      cell is dropped. */
  function Project(i: nat, row: Row): (r: seq<Cell>)
    ensures |r| == 1 + (if |row| >= 2 then |row| - 2 else 0)
    ensures r[0] == Int(i + 1)
    ensures forall j :: 1 <= j < |r| ==> r[j] == row[j]
  {
    [Int(i + 1)] + JsSlice(row, 1, -1)
  }

  /** The download blanks a cell holding exactly the string "-" and leaves
      every other cell as it is. */
  function ExportCell(c: Cell): (r: Cell)
    ensures r != Str("-")
    ensures c == Str("-") ==> r == Str("")
    ensures c != Str("-") ==> r == c
  {
    if c == Str("-") then Str("") else c
  }

  /** The screen shows "-" for a falsy cell and every truthy cell as it
      is. */
  function RenderCell(c: Cell): (r: Cell)
    ensures Truthy(r)
    ensures r == c <==> Truthy(c)
    ensures !Truthy(c) ==> r == Str("-")
  {
    if Truthy(c) then c else Str("-")
  }

  /** Normalising twice is normalising once, on either side. */
  lemma NormalisationIdempotent(c: Cell)
    ensures ExportCell(ExportCell(c)) == ExportCell(c)
    ensures RenderCell(RenderCell(c)) == RenderCell(c)
  {
  }

  /** A cell comes out the same on both sides exactly when it is truthy and
      not the string "-". */
  lemma NormalisationsAgree(c: Cell)
    ensures ExportCell(c) == RenderCell(c) <==> Truthy(c) && c != Str("-")
  {
  }

  /** The cells the download writes for the row at position `i`: every
      projected cell, the serial included, passes through the export rule. */
  function ExportRow(i: nat, row: Row): (r: seq<Cell>)
    ensures |r| == 1 + (if |row| >= 2 then |row| - 2 else 0)
    ensures r[0] == Int(i + 1)
    ensures forall j :: 1 <= j < |r| ==> r[j] == ExportCell(row[j])
    ensures forall j :: 0 <= j < |r| ==> r[j] != Str("-")
  {
    var p := Project(i, row);
    seq(|p|, j requires 0 <= j < |p| => ExportCell(p[j]))
  }

  /** The cells the screen shows for the row at position `i`: the serial as
      it is, then every sliced cell through the render rule. */
  function RenderRow(i: nat, row: Row): (r: seq<Cell>)
    ensures |r| == 1 + (if |row| >= 2 then |row| - 2 else 0)
    ensures r[0] == Int(i + 1)
    ensures forall j :: 1 <= j < |r| ==> r[j] == RenderCell(row[j])
    ensures forall j :: 0 <= j < |r| ==> Truthy(r[j])
  {
    var cells := JsSlice(row, 1, -1);
    [Int(i + 1)] + seq(|cells|, j requires 0 <= j < |cells| => RenderCell(cells[j]))
  }

  /** The screen and the download project a row alike: same width, same
      serial, and column by column the same source cell, which comes out
      the same on both sides unless it is falsy or "-". */
  lemma ProjectionsAgree(i: nat, row: Row)
    ensures var e, d, p := ExportRow(i, row), RenderRow(i, row), Project(i, row);
      && |e| == |d| == |p|
      && e[0] == d[0] == p[0]
      && forall j :: 1 <= j < |p| ==>
           && e[j] == ExportCell(p[j])
           && d[j] == RenderCell(p[j])
           && (e[j] == d[j] <==> Truthy(p[j]) && p[j] != Str("-"))
  {
    var e, d, p := ExportRow(i, row), RenderRow(i, row), Project(i, row);
    forall j | 1 <= j < |p|
      ensures e[j] == d[j] <==> Truthy(p[j]) && p[j] != Str("-")
    {
      NormalisationsAgree(p[j]);
    }
  }

  // ---------------------------------------------------------------------
  // Highlighting

  /** The two fixed background colours: one for repeat holders, one for
      first-time holders. */
  datatype Fill = RepeatFill | FirstTimeFill

  /** `count = occ[key] || 1` and the repeat colour when `count > 1`: a
      key is a repeat exactly when the map counts it more than once. */
  function FillFor(occ: map<Cell, nat>, key: Cell): (f: Fill)
    ensures f == RepeatFill <==> key in occ && occ[key] > 1
  {
    var count := if key in occ && occ[key] != 0 then occ[key] else 1;
    if count > 1 then RepeatFill else FirstTimeFill
  }

  /** One body row of the table: its cells and its background. */
  datatype TableRow = TableRow(cells: seq<Cell>, fill: Fill)

  /** The body rows the download writes for the rows it is handed, with
      serials 1 to n and each row coloured by how often its key occurs among
      those same rows. */
  function ExportBody(rowsParam: seq<Row>): (body: seq<TableRow>)
    ensures |body| == |rowsParam|
    ensures forall i :: 0 <= i < |body| ==>
      && body[i].cells == ExportRow(i, rowsParam[i])
      && (body[i].fill == RepeatFill <==> |RowsWithKey(rowsParam, Key(rowsParam[i]))| > 1)
  {
    var occ := OccurrenceMap(rowsParam);
    assert forall i :: 0 <= i < |rowsParam| ==> Key(rowsParam[i]) in KeySet(rowsParam);
    seq(|rowsParam|, i requires 0 <= i < |rowsParam| =>
      TableRow(ExportRow(i, rowsParam[i]), FillFor(occ, Key(rowsParam[i]))))
  }

  /** The body rows on screen: the reconciled rows, with serials 1 to n,
      each coloured by how often its key occurs among ALL rows, whatever
      their status. */
  function ScreenBody(rows: seq<Row>): (body: seq<TableRow>)
    ensures var out := FilteredRows(rows);
      && |body| == |out|
      && forall i :: 0 <= i < |body| ==>
        && body[i].cells == RenderRow(i, out[i])
        && (body[i].fill == RepeatFill <==> |RowsWithKey(rows, Key(out[i]))| > 1)
  {
    var out, occ := FilteredRows(rows), OccurrenceMap(rows);
    assert forall i :: 0 <= i < |out| ==> Key(out[i]) in KeySet(rows);
    seq(|out|, i requires 0 <= i < |out| => TableRow(RenderRow(i, out[i]), FillFor(occ, Key(out[i]))))
  }

  /** In rows whose keys are pairwise distinct, each key sits at exactly one
      position. */
  lemma DistinctKeysCountOnce(xs: seq<Row>, i: nat)
    requires NoDuplicates(Keys(xs))
    requires i < |xs|
    ensures RowsWithKey(xs, Key(xs[i])) == {i}
  {
    forall j | j in RowsWithKey(xs, Key(xs[i]))
      ensures j == i
    {
      assert Keys(xs)[j] == Keys(xs)[i];
    }
  }

  /** The download is handed the reconciled rows, whose keys are pairwise
      distinct, so it counts every key once and colours every row as a
      first-time holder. */
  lemma {:induction false} DownloadAllFirstTime(rows: seq<Row>)
    ensures var body := ExportBody(FilteredRows(rows));
      forall i :: 0 <= i < |body| ==> body[i].fill == FirstTimeFill
  {
    var out := FilteredRows(rows);
    forall i | 0 <= i < |out|
      ensures |RowsWithKey(out, Key(out[i]))| == 1
    {
      DistinctKeysCountOnce(out, i);
    }
  }

  /** The download and the screen show the same reconciled rows in the same
      order, with the same serials and the same columns; they differ only in
      the normalisation of falsy and "-" cells and in the colour of repeat
      holders, which only the screen marks. */
  lemma {:induction false} DownloadMatchesScreen(rows: seq<Row>)
    ensures var out := FilteredRows(rows);
      var e, d := ExportBody(out), ScreenBody(rows);
      && |e| == |d| == |out|
      && forall i :: 0 <= i < |out| ==> RowsMatch(e[i], d[i], out[i], i, rows)
  {
    var out := FilteredRows(rows);
    var e, d := ExportBody(out), ScreenBody(rows);
    DownloadAllFirstTime(rows);
    forall i | 0 <= i < |out|
      ensures RowsMatch(e[i], d[i], out[i], i, rows)
    {
      assert e[i].cells == ExportRow(i, out[i]);
      assert d[i].cells == RenderRow(i, out[i]);
      ProjectionsAgree(i, out[i]);
    }
  }

  /** The downloaded row `e` and the shown row `d` of source row `row` at
      position `i`: same width, serial `i + 1` on both, a column equal on both
      sides exactly when its source cell is truthy and not "-", and the same
      colour exactly when the key occurs at most once among all rows. */
  ghost predicate RowsMatch(e: TableRow, d: TableRow, row: Row, i: nat, rows: seq<Row>)
  {
    && |e.cells| == |d.cells|
    && |e.cells| > 0
    && e.cells[0] == d.cells[0] == Int(i + 1)
    && (forall j :: 1 <= j < |e.cells| ==>
          j < |row| && (e.cells[j] == d.cells[j] <==> Truthy(row[j]) && row[j] != Str("-")))
    && (e.fill == d.fill <==> |RowsWithKey(rows, Key(row))| <= 1)
  }
}
