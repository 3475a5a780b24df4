/**
 * The visible-table CSV export: the last header row and every row of the
 * first body, each cell's text escaped only when it needs to be, fields
 * joined by commas and lines by a line break, with no final line break.
 */
module CsvExport {
  import opened Wrappers
  import JsText
  import Rfc4180

  /** A rendered row as the export sees it: each cell's `textContent`, which may be null. */
  type Row = seq<Option<string>>

  /** The table found on the page: its header rows and its bodies. */
  datatype Table = Table(headRows: seq<Row>, bodies: seq<seq<Row>>)

  /** What is handed to the download: content, file name and type. */
  datatype Download = Download(content: string, filename: string, mime: string)

  predicate NeedsQuotes(v: string) {
    '"' in v || ',' in v || '\n' in v
  }

  /** `csvEscape`: quoted exactly when the field holds a quote, comma or line break. */
  function Escape(v: string): (r: string)
    ensures NeedsQuotes(v) ==> r == Rfc4180.Quoted(v)
    ensures !NeedsQuotes(v) ==> r == v
  {
    var s := JsText.DoubleQuotes(v);
    if NeedsQuotes(v) then "\"" + s + "\"" else (JsText.DoubleQuotesPlain(v); s)
  }

  /** The escaped field starts and ends with a quote exactly when the value needed quoting. */
  lemma EscapeQuotesIff(v: string)
    ensures (|Escape(v)| >= 2 && Escape(v)[0] == '"' && Escape(v)[|Escape(v)| - 1] == '"') <==> NeedsQuotes(v)
  {
    if !NeedsQuotes(v) && |v| >= 2 {
      assert v[0] in v;
    }
  }

  /** A field with no bare CR: a CR is only allowed where the field gets quoted anyway. */
  predicate NoBareCr(v: string) {
    '\r' in v ==> NeedsQuotes(v)
  }

  /** An RFC 4180 reader recovers every field without a bare CR from its escaped form. */
  lemma EscapeReads(v: string)
    requires NoBareCr(v)
    ensures Rfc4180.Reads(Escape(v), v)
  {
    if NeedsQuotes(v) {
      Rfc4180.QuotedReads(v);
    } else {
      assert Rfc4180.Plain(v) by {
        forall i | 0 <= i < |v|
          ensures v[i] != '"' && v[i] != ',' && v[i] != '\n' && v[i] != '\r'
        {
          assert v[i] in v;
        }
      }
      Rfc4180.PlainReads(v);
    }
  }

  /** A field that holds only a bare CR cannot be read back: it is written unquoted. */
  lemma BareCrUnreadable()
    ensures Escape("\r") == "\r"
    ensures Rfc4180.ReadField("\r") == None
  {
  }

  /** `cells`: each cell's text, with null read as the empty string. */
  function Cells(r: Row): (texts: seq<string>)
    ensures |texts| == |r|
    ensures forall i :: 0 <= i < |r| ==> texts[i] == r[i].GetOr("")
  {
    seq(|r|, i requires 0 <= i < |r| => r[i].GetOr(""))
  }

  function EscapeAll(texts: seq<string>): (r: seq<string>)
    ensures |r| == |texts| && forall i :: 0 <= i < |texts| ==> r[i] == Escape(texts[i])
  {
    seq(|texts|, i requires 0 <= i < |texts| => Escape(texts[i]))
  }

  /** One line of the file: the escaped fields joined by commas. */
  function Line(texts: seq<string>): string {
    JsText.Join(EscapeAll(texts), ",")
  }

  /** The rows exported: the last header row, if any, then every row of the first body. */
  function ExportedRows(t: Table): (rows: seq<seq<string>>)
    ensures |rows| == (if t.headRows != [] then 1 else 0) + (if t.bodies != [] then |t.bodies[0]| else 0)
  {
    var head := if t.headRows != [] then [Cells(t.headRows[|t.headRows| - 1])] else [];
    var body := if t.bodies != [] then seq(|t.bodies[0]|, i requires 0 <= i < |t.bodies[0]| => Cells(t.bodies[0][i])) else [];
    head + body
  }

  function Lines(rows: seq<seq<string>>): (r: seq<string>)
    ensures |r| == |rows| && forall i :: 0 <= i < |rows| ==> r[i] == Line(rows[i])
  {
    seq(|rows|, i requires 0 <= i < |rows| => Line(rows[i]))
  }

  /** The text `exportCSVFromDOM` downloads for a table. */
  function CsvOf(t: Table): string {
    JsText.Join(Lines(ExportedRows(t)), "\n")
  }

  lemma ExportedHeadRow(t: Table)
    requires t.headRows != []
    ensures ExportedRows(t)[0] == Cells(t.headRows[|t.headRows| - 1])
  {
  }

  lemma ExportedBodyRow(t: Table, i: nat)
    requires t.bodies != [] && i < |t.bodies[0]|
    ensures ExportedRows(t)[(if t.headRows != [] then 1 else 0) + i] == Cells(t.bodies[0][i])
  {
  }

  /** Lines that are the rows' lines one by one are their `Lines`. */
  lemma LinesExactly(rows: seq<seq<string>>, lines: seq<string>)
    requires |lines| == |rows| && forall k :: 0 <= k < |rows| ==> lines[k] == Line(rows[k])
    ensures lines == Lines(rows)
  {
    assert forall k :: 0 <= k < |rows| ==> lines[k] == Lines(rows)[k];
  }

  /** `exportCSVFromDOM`: nothing without a table; otherwise the lines are collected and joined. */
  method ExportCsvFromDom(table: Option<Table>) returns (d: Option<Download>)
    ensures table.None? <==> d.None?
    ensures d.Some? ==> d.value == Download(CsvOf(table.value), "flextable_export.csv", "text/csv;charset=utf-8;")
  {
    if table.None? {
      return None;
    }
    var lines := CollectLines(table.value);
    d := Some(Download(JsText.Join(lines, "\n"), "flextable_export.csv", "text/csv;charset=utf-8;"));
  }

  /** The lines `exportCSVFromDOM` collects: the last header row's, then the first body's rows'. */
  method CollectLines(t: Table) returns (lines: seq<string>)
    ensures lines == Lines(ExportedRows(t))
  {
    ghost var rows := ExportedRows(t);
    lines := [];
    if t.headRows != [] {
      ExportedHeadRow(t);
      lines := lines + [Line(Cells(t.headRows[|t.headRows| - 1]))];
    }
    var head := |lines|;
    assert head == (if t.headRows != [] then 1 else 0);
    if t.bodies != [] {
      var body := t.bodies[0];
      for i := 0 to |body|
        invariant |lines| == head + i
        invariant forall k :: 0 <= k < head + i ==> lines[k] == Line(rows[k])
      {
        ExportedBodyRow(t, i);
        lines := lines + [Line(Cells(body[i]))];
      }
    }
    LinesExactly(rows, lines);
  }

  predicate RowReadable(r: seq<string>) {
    r != [] && forall i :: 0 <= i < |r| ==> NoBareCr(r[i])
  }

  lemma LineReads(r: seq<string>)
    requires RowReadable(r)
    ensures Rfc4180.LineReads(Line(r), r)
  {
    forall i | 0 <= i < |r|
      ensures Rfc4180.Reads(EscapeAll(r)[i], r[i])
    {
      EscapeReads(r[i]);
    }
    Rfc4180.LineOfFields(EscapeAll(r), r);
  }

  /**
   * Reading the exported file back with an RFC 4180 reader gives exactly the
   * exported cell texts, when there is at least one row, every row has a
   * cell, no cell has a bare CR, and a last row after others is not a
   * single empty cell (a file may end in a line break, so that row is lost).
   */
  lemma RoundTrip(t: Table)
    requires ExportedRows(t) != []
    requires forall i :: 0 <= i < |ExportedRows(t)| ==> RowReadable(ExportedRows(t)[i])
    requires |ExportedRows(t)| > 1 ==> ExportedRows(t)[|ExportedRows(t)| - 1] != [""]
    ensures Rfc4180.ReadDocument(CsvOf(t)) == Some(ExportedRows(t))
  {
    var rows := ExportedRows(t);
    var lines := Lines(rows);
    forall i | 0 <= i < |rows|
      ensures Rfc4180.LineReads(lines[i], rows[i])
    {
      LineReads(rows[i]);
    }
    Rfc4180.DocumentReads(lines, rows);
  }

  /** The lost last row: a header "a" over one empty cell is read back as the header alone. */
  lemma TrailingEmptyRowLost()
    ensures CsvOf(Table([[Some("a")]], [[[None]]])) == "a\n"
    ensures Rfc4180.ReadDocument("a\n") == Some([["a"]])
  {
    var t := Table([[Some("a")]], [[[None]]]);
    assert Cells([Some("a")]) == ["a"];
    assert Cells([None]) == [""];
    assert ExportedRows(t) == [["a"]] + [[""]];
    assert Lines(ExportedRows(t)) == ["a", ""];
  }
}
