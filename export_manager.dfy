/**
 * The export manager's CSV writers: every field quoted with its quotes
 * doubled, every line ended by a line break; one writer keeps the cells not
 * styled away, one also drops rows and cells marked hidden, and one writes
 * the raw data. A small configuration object is also built and read.
 */
module ExportManager {
  import opened Wrappers
  import JsText
  import SeqOps
  import Rfc4180

  /** A cell of the rendered table: header or data cell, text, inline `display: none`, class `hidden`. */
  datatype Cell = Cell(isHeader: bool, text: string, displayNone: bool, hiddenClass: bool)

  datatype Row = Row(cells: seq<Cell>, displayNone: bool, hiddenClass: bool)

  /** The header rows and the rows of every body, in document order. */
  datatype Table = Table(headRows: seq<Row>, bodyRows: seq<Row>)

  /** What an export does: warn the user, or hand content to the download. */
  datatype Outcome = Alerted(message: string) | Downloaded(content: string, filename: string, mime: string)

  /** `"${text.replace(/"/g, '""').trim()}"`. */
  function QuoteTrimmed(text: string): (r: string)
    ensures r == Rfc4180.Quoted(JsText.Trim(text))
  {
    JsText.TrimDoubleQuotes(text);
    "\"" + JsText.Trim(JsText.DoubleQuotes(text)) + "\""
  }

  /** Which cells a writer keeps: always the inline style, and for the visible export the class too. */
  predicate Shown(c: Cell, visibleOnly: bool) {
    !c.displayNone && (!visibleOnly || !c.hiddenClass)
  }

  predicate Wanted(c: Cell, header: bool, visibleOnly: bool) {
    c.isHeader == header && Shown(c, visibleOnly)
  }

  /** The header or data cells of a row that the writer keeps, in order (see `KeptCellsExactly`). */
  function KeptCells(cells: seq<Cell>, header: bool, visibleOnly: bool): (r: seq<Cell>)
    ensures |r| <= |cells|
    decreases |cells|
  {
    if cells == [] then []
    else (if Wanted(cells[0], header, visibleOnly) then [cells[0]] else []) + KeptCells(cells[1..], header, visibleOnly)
  }

  /** The kept cells are exactly the wanted ones: each kept cell is wanted and in the row, each wanted cell is kept. */
  lemma {:induction false} KeptCellsExactly(cells: seq<Cell>, header: bool, visibleOnly: bool)
    ensures forall c :: c in KeptCells(cells, header, visibleOnly) <==> c in cells && Wanted(c, header, visibleOnly)
    decreases |cells|
  {
    if cells != [] {
      KeptCellsExactly(cells[1..], header, visibleOnly);
      assert cells == [cells[0]] + cells[1..];
    }
  }

  /** Their trimmed texts: `textContent.trim()` after the quotes are doubled, which commutes. */
  function Kept(cells: seq<Cell>, header: bool, visibleOnly: bool): (r: seq<string>)
    ensures |r| == |KeptCells(cells, header, visibleOnly)|
  {
    var kept := KeptCells(cells, header, visibleOnly);
    seq(|kept|, i requires 0 <= i < |kept| => JsText.Trim(kept[i].text))
  }

  /** When every cell is of the kind asked for and shown, both writers keep them all. */
  lemma {:induction false} KeptAllShown(cells: seq<Cell>, header: bool)
    requires forall i :: 0 <= i < |cells| ==> Wanted(cells[i], header, true)
    ensures KeptCells(cells, header, false) == cells && KeptCells(cells, header, true) == cells
    decreases |cells|
  {
    if cells != [] {
      KeptAllShown(cells[1..], header);
      assert cells == [cells[0]] + cells[1..];
    }
  }

  /** When no cell is of the kind asked for and shown, nothing is kept. */
  lemma {:induction false} KeptNone(cells: seq<Cell>, header: bool, visibleOnly: bool)
    requires forall i :: 0 <= i < |cells| ==> !Wanted(cells[i], header, visibleOnly)
    ensures KeptCells(cells, header, visibleOnly) == []
    decreases |cells|
  {
    if cells != [] {
      KeptNone(cells[1..], header, visibleOnly);
    }
  }

  function QuoteAll(texts: seq<string>): (r: seq<string>)
    ensures |r| == |texts| && forall i :: 0 <= i < |texts| ==> r[i] == Rfc4180.Quoted(texts[i])
  {
    seq(|texts|, i requires 0 <= i < |texts| => Rfc4180.Quoted(texts[i]))
  }

  /** A line: the kept texts, each quoted, joined by commas. */
  function LineOf(texts: seq<string>): string {
    JsText.Join(QuoteAll(texts), ",")
  }

  /** The header line's texts: the header cells of the last header row. */
  function HeaderTexts(t: Table, visibleOnly: bool): seq<string> {
    if t.headRows == [] then [] else Kept(t.headRows[|t.headRows| - 1].cells, true, visibleOnly)
  }

  predicate RowShown(r: Row) {
    !r.displayNone && !r.hiddenClass
  }

  /**
   * The records after the header: one per body row for `exportToCSV`; for
   * `exportVisibleToCSV` only shown rows that keep at least one cell.
   */
  function BodyRecords(rows: seq<Row>, visibleOnly: bool): (r: seq<seq<string>>)
    ensures |r| <= |rows|
    ensures !visibleOnly ==> |r| == |rows|
    ensures visibleOnly ==> forall i :: 0 <= i < |r| ==> r[i] != []
    decreases |rows|
  {
    if rows == [] then []
    else
      var last := rows[|rows| - 1];
      var texts := Kept(last.cells, false, visibleOnly);
      var keep := !visibleOnly || (RowShown(last) && texts != []);
      BodyRecords(rows[..|rows| - 1], visibleOnly) + (if keep then [texts] else [])
  }

  /** Every record the writer emits: the header, then the body records. */
  function Records(t: Table, visibleOnly: bool): (r: seq<seq<string>>)
    ensures r != [] && r[0] == HeaderTexts(t, visibleOnly)
  {
    [HeaderTexts(t, visibleOnly)] + BodyRecords(t.bodyRows, visibleOnly)
  }

  /** One line per record, in order (see `LinesOfAt`). */
  function LinesOf(records: seq<seq<string>>): (r: seq<string>)
    ensures |r| == |records|
  {
    if records == [] then [] else LinesOf(records[..|records| - 1]) + [LineOf(records[|records| - 1])]
  }

  lemma {:induction false} LinesOfAt(records: seq<seq<string>>, i: nat)
    requires i < |records|
    ensures LinesOf(records)[i] == LineOf(records[i])
    decreases |records|
  {
    if i < |records| - 1 {
      LinesOfAt(records[..|records| - 1], i);
    }
  }

  /** The text the writer downloads: every line followed by a line break. */
  function CsvText(t: Table, visibleOnly: bool): (r: string)
    ensures r != [] && r[|r| - 1] == '\n'
  {
    var lines := LinesOf(Records(t, visibleOnly));
    Rfc4180.Terminated(lines)
  }

  lemma LinesOfSnoc(records: seq<seq<string>>, x: seq<string>)
    ensures LinesOf(records + [x]) == LinesOf(records) + [LineOf(x)]
  {
    assert (records + [x])[..|records|] == records;
  }

  lemma BodyRecordsSnoc(rows: seq<Row>, r: Row, visibleOnly: bool)
    ensures BodyRecords(rows + [r], visibleOnly) == BodyRecords(rows, visibleOnly)
      + (if !visibleOnly || (RowShown(r) && Kept(r.cells, false, visibleOnly) != []) then [Kept(r.cells, false, visibleOnly)] else [])
  {
    assert (rows + [r])[..|rows|] == rows;
  }

  /** One more body row: its record is added exactly when the writer keeps the row. */
  lemma BodyStep(rows: seq<Row>, i: nat, visibleOnly: bool)
    requires i < |rows|
    ensures BodyRecords(rows[..i + 1], visibleOnly) == BodyRecords(rows[..i], visibleOnly) + RowRecords(rows[i], visibleOnly)
  {
    assert rows[..i + 1][..i] == rows[..i];
  }

  /** What one body row contributes: its record when the writer keeps the row, else nothing. */
  function RowRecords(row: Row, visibleOnly: bool): seq<seq<string>> {
    var texts := Kept(row.cells, false, visibleOnly);
    if !visibleOnly || (RowShown(row) && texts != []) then [texts] else []
  }

  /** One pass of the writer's loop: a kept row adds its line and a line break. */
  method AppendRow(csv0: string, ghost recs: seq<seq<string>>, row: Row, visibleOnly: bool) returns (csv: string)
    requires csv0 == Rfc4180.Terminated(LinesOf(recs))
    ensures csv == Rfc4180.Terminated(LinesOf(recs + RowRecords(row, visibleOnly)))
  {
    csv := csv0;
    if !visibleOnly || RowShown(row) {
      var texts := Kept(row.cells, false, visibleOnly);
      if !visibleOnly || texts != [] {
        LinesOfSnoc(recs, texts);
        Rfc4180.TerminatedSnoc(LinesOf(recs), LineOf(texts));
        csv := csv + LineOf(texts) + "\n";
        return;
      }
    }
    assert recs + RowRecords(row, visibleOnly) == recs;
  }

  /** The writer's loop over the body rows. */
  method AppendBody(csv0: string, ghost recs0: seq<seq<string>>, rows: seq<Row>, visibleOnly: bool) returns (csv: string)
    requires csv0 == Rfc4180.Terminated(LinesOf(recs0))
    ensures csv == Rfc4180.Terminated(LinesOf(recs0 + BodyRecords(rows, visibleOnly)))
  {
    csv := csv0;
    assert recs0 + BodyRecords(rows[..0], visibleOnly) == recs0;
    for i := 0 to |rows|
      invariant csv == Rfc4180.Terminated(LinesOf(recs0 + BodyRecords(rows[..i], visibleOnly)))
    {
      BodyStep(rows, i, visibleOnly);
      SeqOps.AppendAssoc(recs0, BodyRecords(rows[..i], visibleOnly), RowRecords(rows[i], visibleOnly));
      csv := AppendRow(csv, recs0 + BodyRecords(rows[..i], visibleOnly), rows[i], visibleOnly);
    }
    assert rows[..|rows|] == rows;
  }

  /** Both table exports: the header line, then the body lines. */
  method WriteTable(t: Table, visibleOnly: bool) returns (csv: string)
    ensures csv == CsvText(t, visibleOnly)
  {
    var head := LineOf(HeaderTexts(t, visibleOnly));
    assert [HeaderTexts(t, visibleOnly)][..0] == [];
    Rfc4180.TerminatedSnoc([], head);
    csv := AppendBody(head + "\n", [HeaderTexts(t, visibleOnly)], t.bodyRows, visibleOnly);
  }

  /** `exportToCSV`. */
  method ExportToCsv(table: Option<Table>) returns (out: Outcome)
    ensures table.None? ==> out == Alerted("No table found to export")
    ensures table.Some? ==> out == Downloaded(CsvText(table.value, false), "table-export.csv", "text/csv")
  {
    if table.None? {
      return Alerted("No table found to export");
    }
    var csv := WriteTable(table.value, false);
    out := Downloaded(csv, "table-export.csv", "text/csv");
  }

  /** `exportToExcel` is the CSV export under another name. */
  method ExportToExcel(table: Option<Table>) returns (out: Outcome)
    ensures table.None? ==> out == Alerted("No table found to export")
    ensures table.Some? ==> out == Downloaded(CsvText(table.value, false), "table-export.csv", "text/csv")
  {
    out := ExportToCsv(table);
  }

  /** `exportVisibleToCSV`. */
  method ExportVisibleToCsv(table: Option<Table>) returns (out: Outcome)
    ensures table.None? ==> out == Alerted("No table found to export")
    ensures table.Some? ==> out == Downloaded(CsvText(table.value, true), "table-export-visible.csv", "text/csv")
  {
    if table.None? {
      return Alerted("No table found to export");
    }
    var csv := WriteTable(table.value, true);
    out := Downloaded(csv, "table-export-visible.csv", "text/csv");
  }

  // ------------------------------------------------------------- properties

  lemma QuotedLineReads(texts: seq<string>)
    requires texts != []
    ensures Rfc4180.LineReads(LineOf(texts), texts)
  {
    forall i | 0 <= i < |texts|
      ensures Rfc4180.Reads(QuoteAll(texts)[i], texts[i])
    {
      Rfc4180.QuotedReads(texts[i]);
    }
    Rfc4180.LineOfFields(QuoteAll(texts), texts);
  }

  /**
   * An RFC 4180 reader gets back exactly the trimmed texts of the kept cells,
   * line by line, whenever every line keeps at least one cell (an empty
   * line reads as one empty field).
   */
  lemma RoundTrip(t: Table, visibleOnly: bool)
    requires forall i :: 0 <= i < |Records(t, visibleOnly)| ==> Records(t, visibleOnly)[i] != []
    ensures Rfc4180.ReadDocument(CsvText(t, visibleOnly)) == Some(Records(t, visibleOnly))
  {
    var recs := Records(t, visibleOnly);
    forall i | 0 <= i < |recs|
      ensures Rfc4180.LineReads(LinesOf(recs)[i], recs[i])
    {
      LinesOfAt(recs, i);
      QuotedLineReads(recs[i]);
    }
    Rfc4180.TerminatedReads(LinesOf(recs), recs);
  }

  /** The visible export drops a hidden row, and a row with no shown data cell, from the file. */
  lemma {:induction false} VisibleSkipsHiddenRows(rows: seq<Row>, r: Row)
    requires !RowShown(r) || forall i :: 0 <= i < |r.cells| ==> !Wanted(r.cells[i], false, true)
    ensures BodyRecords(rows + [r], true) == BodyRecords(rows, true)
  {
    if RowShown(r) {
      KeptNone(r.cells, false, true);
    }
    assert (rows + [r])[..|rows|] == rows;
  }

  /** The full export keeps one record per body row, empty or not. */
  lemma {:induction false} FullKeepsEveryRow(rows: seq<Row>, r: Row)
    ensures BodyRecords(rows + [r], false) == BodyRecords(rows, false) + [Kept(r.cells, false, false)]
  {
    assert (rows + [r])[..|rows|] == rows;
  }

  // ------------------------------------------------------------- raw data

  /** The data handed to `exportRawData`; a missing part is `None`. */
  datatype RawData = RawData(columns: Option<seq<string>>, rows: Option<seq<seq<Option<string>>>>)

  /** `"${(cell || '').replace(/"/g, '""')}"`: a null or empty cell is an empty quoted field. */
  function RawField(cell: Option<string>): (r: string)
    ensures r == Rfc4180.Quoted(cell.GetOr(""))
  {
    "\"" + JsText.DoubleQuotes(cell.GetOr("")) + "\""
  }

  function RawRecords(columns: seq<string>, rows: seq<seq<Option<string>>>): (r: seq<seq<string>>)
    ensures |r| == |rows| + 1 && r[0] == columns
    ensures forall i :: 0 <= i < |rows| ==> |r[i + 1]| == |rows[i]|
  {
    [columns] + seq(|rows|, i requires 0 <= i < |rows| => seq(|rows[i]|, k requires 0 <= k < |rows[i]| => rows[i][k].GetOr("")))
  }

  function RawText(columns: seq<string>, rows: seq<seq<Option<string>>>): string {
    Rfc4180.Terminated(LinesOf(RawRecords(columns, rows)))
  }

  /** `exportRawData`: rejected without data, columns or rows; otherwise a header line and one line per row. */
  method ExportRawData(data: Option<RawData>) returns (out: Outcome)
    ensures (data.None? || data.value.columns.None? || data.value.rows.None?) <==> out.Alerted?
    ensures out.Alerted? ==> out.message == "No data available to export"
    ensures out.Downloaded? ==> out == Downloaded(RawText(data.value.columns.value, data.value.rows.value), "raw-data-export.csv", "text/csv")
  {
    if data.None? || data.value.columns.None? || data.value.rows.None? {
      return Alerted("No data available to export");
    }
    var columns, rows := data.value.columns.value, data.value.rows.value;
    var recs := RawRecords(columns, rows);
    var csv := LineOf(columns) + "\n";
    assert csv == Rfc4180.Terminated(LinesOf(recs[..1])) by {
      assert recs[..1][..0] == [];
      assert LinesOf(recs[..1]) == [LineOf(columns)];
      Rfc4180.TerminatedSnoc([], LineOf(columns));
    }
    for i := 0 to |rows|
      invariant csv == Rfc4180.Terminated(LinesOf(recs[..i + 1]))
    {
      var fields := seq(|rows[i]|, k requires 0 <= k < |rows[i]| => RawField(rows[i][k]));
      assert fields == QuoteAll(recs[i + 1]);
      assert recs[..i + 2] == recs[..i + 1] + [recs[i + 1]];
      LinesOfSnoc(recs[..i + 1], recs[i + 1]);
      Rfc4180.TerminatedSnoc(LinesOf(recs[..i + 1]), LineOf(recs[i + 1]));
      csv := csv + JsText.Join(fields, ",") + "\n";
    }
    assert recs[..|rows| + 1] == recs;
    out := Downloaded(csv, "raw-data-export.csv", "text/csv");
  }

  /** The raw export reads back as the columns and the cells, null cells as empty, given no empty line. */
  lemma RawRoundTrip(columns: seq<string>, rows: seq<seq<Option<string>>>)
    requires columns != [] && forall i :: 0 <= i < |rows| ==> rows[i] != []
    ensures Rfc4180.ReadDocument(RawText(columns, rows)) == Some(RawRecords(columns, rows))
  {
    var recs := RawRecords(columns, rows);
    forall i | 0 <= i < |recs|
      ensures Rfc4180.LineReads(LinesOf(recs)[i], recs[i])
    {
      LinesOfAt(recs, i);
      if i > 0 {
        assert |recs[i]| == |rows[i - 1]|;
      }
      QuotedLineReads(recs[i]);
    }
    Rfc4180.TerminatedReads(LinesOf(recs), recs);
  }

  // ------------------------------------------------------ configuration

  datatype Config<G, P> = Config(version: string, exportDate: string, measureGroups: G, pivotState: P)

  /** `exportConfiguration`: version "1.0", the current time, and both arguments as given. */
  function ExportConfiguration<G, P>(measureGroups: G, pivotState: P, now: string): (c: Config<G, P>)
    ensures c.version == "1.0" && c.exportDate == now
    ensures c.measureGroups == measureGroups && c.pivotState == pivotState
  {
    Config("1.0", now, measureGroups, pivotState)
  }

  datatype Imported<C> = Rejected(reason: string) | Resolved(config: C)

  /** `importConfiguration`: no file chosen or unparseable text rejects; otherwise the parsed object. */
  function ImportConfiguration<C>(file: Option<string>, parse: string -> Option<C>): (r: Imported<C>)
    ensures file.None? ==> r == Rejected("No file selected")
    ensures file.Some? && parse(file.value).None? ==> r == Rejected("Failed to parse configuration file")
    ensures r.Resolved? <==> file.Some? && parse(file.value).Some?
    ensures r.Resolved? ==> r.config == parse(file.value).value
  {
    if file.None? then Rejected("No file selected")
    else match parse(file.value)
      case None => Rejected("Failed to parse configuration file")
      case Some(c) => Resolved(c)
  }
}
