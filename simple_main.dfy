/**
 * The stand-alone table of src/simple-main.js: rendering, click-to-sort and
 * CSV export.
 *
 * The sort state lives in the table's `data-sort-column`/`data-sort-order`
 * attributes. A click sorts ascending unless the table is already sorted
 * ascending on that column. Two cells compare numerically when both start
 * with a number once ',', '$' and '%' are removed (`parseFloat`), and by
 * collation otherwise. Descending order swaps the operands. The export
 * quotes every field, doubles embedded quotes, joins the fields with ','
 * and ends every line, the header line included, with '\n'.
 */
module SimpleMain {
  import opened Wrappers
  import JsText
  import JsNumber
  import RowSort
  import Rfc4180
  import ExportManager

  /** The `.simple-table` element: header texts and classes, body texts, and its two data attributes. */
  datatype Grid = Grid(head: seq<string>, marks: seq<RowSort.Mark>, body: seq<seq<string>>,
                       sortColumn: Option<nat>, sortOrder: Option<RowSort.Dir>)

  /** The table `renderTable` builds: every header unmarked and no sort attributes. */
  function Rendered(columns: seq<string>, rows: seq<seq<string>>): (g: Grid)
    ensures g.head == columns && g.body == rows && |g.marks| == |columns|
    ensures forall j :: 0 <= j < |g.marks| ==> g.marks[j] == RowSort.Unmarked
    ensures g.sortColumn.None? && g.sortOrder.None?
  {
    Grid(columns, seq(|columns|, j => RowSort.Unmarked), rows, None, None)
  }

  // ------------------------------------------------------------ comparator

  const Separators: set<char> := {',', '$', '%'}

  /** `parseFloat(text.replace(/[,$%]/g, ''))`; `None` stands for NaN. */
  function SortKey(text: string): Option<real> {
    JsNumber.ParseFloat(JsText.Remove(text, Separators))
  }

  /** `isAscending`: false exactly when the table is sorted ascending on this column already. */
  predicate IsAscending(g: Grid, col: nat) {
    g.sortColumn != Some(col) || g.sortOrder != Some(RowSort.Asc)
  }

  function CompareTexts(a: string, b: string, asc: bool, collate: (string, string) -> int): real {
    var an, bn := SortKey(a), SortKey(b);
    if an.Some? && bn.Some? then (if asc then an.value - bn.value else bn.value - an.value)
    else (if asc then collate(a, b) else collate(b, a)) as real
  }

  /** The cell at `col`; the comparator is never called on a row without one (see `Throws`). */
  function KeyOf(row: seq<string>, col: nat): string {
    if col < |row| then row[col] else ""
  }

  function CompareRows(col: nat, asc: bool, collate: (string, string) -> int): (seq<string>, seq<string>) -> real {
    (ra: seq<string>, rb: seq<string>) => CompareTexts(KeyOf(ra, col), KeyOf(rb, col), asc, collate)
  }

  /** Descending order is ascending order with the operands swapped. */
  lemma DescSwaps(a: string, b: string, collate: (string, string) -> int)
    ensures CompareTexts(a, b, false, collate) == CompareTexts(b, a, true, collate)
  {
  }

  /** Numbers compare by value, the smaller first ascending and last descending. */
  lemma NumbersByValue(a: string, b: string, collate: (string, string) -> int)
    requires SortKey(a).Some? && SortKey(b).Some? && SortKey(a).value < SortKey(b).value
    ensures CompareTexts(a, b, true, collate) < 0.0 && CompareTexts(a, b, false, collate) > 0.0
  {
  }

  /** When either cell is not a number, the collation decides. */
  lemma TextsByCollation(a: string, b: string, asc: bool, collate: (string, string) -> int)
    requires SortKey(a).None? || SortKey(b).None?
    ensures CompareTexts(a, b, asc, collate) == (if asc then collate(a, b) else collate(b, a)) as real
  {
  }

  lemma CompareTextsAntisymmetric(a: string, b: string, asc: bool, collate: (string, string) -> int)
    requires RowSort.CollationAntisymmetric(collate)
    ensures RowSort.Sign(CompareTexts(a, b, asc, collate)) == -RowSort.Sign(CompareTexts(b, a, asc, collate))
  {
    assert collate(a, b) < 0 <==> collate(b, a) > 0;
    assert collate(b, a) < 0 <==> collate(a, b) > 0;
  }

  lemma CompareRowsAntisymmetric(col: nat, asc: bool, collate: (string, string) -> int)
    requires RowSort.CollationAntisymmetric(collate)
    ensures RowSort.Antisymmetric(CompareRows(col, asc, collate))
  {
    var cmp := CompareRows(col, asc, collate);
    forall ra: seq<string>, rb: seq<string>
      ensures RowSort.Sign(cmp(ra, rb)) == -RowSort.Sign(cmp(rb, ra))
    {
      CompareTextsAntisymmetric(KeyOf(ra, col), KeyOf(rb, col), asc, collate);
    }
  }

  // ------------------------------------------------------------------ sort

  /**
   * `a.children[columnIndex].textContent` throws on a row without that cell.
   * Any sort of two or more rows compares every row, and a sort of fewer
   * compares none.
   */
  predicate Throws(g: Grid, col: nat) {
    |g.body| >= 2 && exists i :: 0 <= i < |g.body| && |g.body[i]| <= col
  }

  /** `className = ''` on every header, then the sort class on the sorted one. */
  function MarksFor(n: nat, col: nat, dir: RowSort.Dir): (r: seq<RowSort.Mark>)
    ensures |r| == n
    ensures forall j :: 0 <= j < n ==> (r[j] != RowSort.Unmarked <==> j == col)
    ensures col < n ==> r[col] == RowSort.Marked(dir)
  {
    seq(n, j => if j == col then RowSort.Marked(dir) else RowSort.Unmarked)
  }

  /** The table after a sort that does not throw. */
  function SortedOn(g: Grid, col: nat, collate: (string, string) -> int): (r: Grid)
    ensures multiset(r.body) == multiset(g.body) && r.head == g.head
    ensures r.sortColumn == Some(col)
    ensures r.sortOrder == Some(if IsAscending(g, col) then RowSort.Asc else RowSort.Desc)
  {
    var asc := IsAscending(g, col);
    var dir := if asc then RowSort.Asc else RowSort.Desc;
    Grid(g.head, MarksFor(|g.marks|, col, dir), RowSort.SortBy(g.body, CompareRows(col, asc, collate)), Some(col), Some(dir))
  }

  /** Sorting twice on one column gives both directions in turn. */
  lemma SortAlternates(g: Grid, col: nat, collate: (string, string) -> int)
    ensures IsAscending(SortedOn(g, col, collate), col) == !IsAscending(g, col)
  {
  }

  /** After a sort, neighbouring rows are in the chosen order, given an antisymmetric collation. */
  lemma SortedOnOrdered(g: Grid, col: nat, collate: (string, string) -> int)
    requires RowSort.CollationAntisymmetric(collate)
    ensures RowSort.Ordered(SortedOn(g, col, collate).body, CompareRows(col, IsAscending(g, col), collate))
  {
    CompareRowsAntisymmetric(col, IsAscending(g, col), collate);
    RowSort.SortByOrdered(g.body, CompareRows(col, IsAscending(g, col), collate));
  }

  // ---------------------------------------------------------------- export

  /** The exported records: the header texts, then each body row's texts. */
  function Records(g: Grid): (r: seq<seq<string>>)
    ensures |r| == |g.body| + 1 && r[0] == g.head
    ensures forall i :: 0 <= i < |g.body| ==> r[i + 1] == g.body[i]
  {
    [g.head] + g.body
  }

  function CsvText(g: Grid): string {
    Rfc4180.Terminated(ExportManager.LinesOf(Records(g)))
  }

  /** The text after record k is the text before it plus record k's line. */
  lemma ExportStep(recs: seq<seq<string>>, k: nat)
    requires k < |recs|
    ensures Rfc4180.Terminated(ExportManager.LinesOf(recs[..k + 1]))
      == Rfc4180.Terminated(ExportManager.LinesOf(recs[..k])) + ExportManager.LineOf(recs[k]) + "\n"
  {
    assert recs[..k + 1] == recs[..k] + [recs[k]];
    ExportManager.LinesOfSnoc(recs[..k], recs[k]);
    Rfc4180.TerminatedSnoc(ExportManager.LinesOf(recs[..k]), ExportManager.LineOf(recs[k]));
  }

  /** An RFC 4180 reader gets back the header and every body row, whenever no record is empty. */
  lemma ExportReadsBack(g: Grid)
    requires g.head != [] && forall i :: 0 <= i < |g.body| ==> g.body[i] != []
    ensures Rfc4180.ReadDocument(CsvText(g)) == Some(Records(g))
  {
    var recs := Records(g);
    forall i | 0 <= i < |recs|
      ensures Rfc4180.LineReads(ExportManager.LinesOf(recs)[i], recs[i])
    {
      ExportManager.LinesOfAt(recs, i);
      ExportManager.QuotedLineReads(recs[i]);
    }
    Rfc4180.TerminatedReads(ExportManager.LinesOf(recs), recs);
  }

  /** Rendering, then exporting, reads back the columns and the rows. */
  lemma RenderedReadsBack(columns: seq<string>, rows: seq<seq<string>>)
    requires columns != [] && forall i :: 0 <= i < |rows| ==> rows[i] != []
    ensures Rfc4180.ReadDocument(CsvText(Rendered(columns, rows))) == Some([columns] + rows)
  {
    ExportReadsBack(Rendered(columns, rows));
  }

  /** The page: whether `#table-container` exists, and the `.simple-table` element if there is one. */
  class Page {
    const hasContainer: bool
    var table: Option<Grid>

    constructor(hasContainer: bool)
      ensures this.hasContainer == hasContainer && table.None?
    {
      this.hasContainer := hasContainer;
      table := None;
    }

    /** `renderTable`: without the container, nothing; otherwise a fresh table replaces the old one. */
    method RenderTable(columns: seq<string>, rows: seq<seq<string>>)
      modifies this`table
      ensures !hasContainer ==> table == old(table)
      ensures hasContainer ==> table == Some(Rendered(columns, rows))
    {
      if hasContainer {
        table := Some(Rendered(columns, rows));
      }
    }

    /**
     * `sortTable`: throws without a table, or on a short row. The exception
     * leaves the table as it was. Otherwise the rows are sorted and the
     * attributes and header classes are updated.
     */
    method SortTable(columnIndex: nat, collate: (string, string) -> int) returns (thrown: bool)
      modifies this`table
      ensures thrown <==> old(table).None? || Throws(old(table).value, columnIndex)
      ensures thrown ==> table == old(table)
      ensures !thrown ==> table == Some(SortedOn(old(table).value, columnIndex, collate))
    {
      if table.None? || Throws(table.value, columnIndex) {
        return true;
      }
      table := Some(SortedOn(table.value, columnIndex, collate));
      return false;
    }

    /** `exportCSV`: nothing without a table; otherwise the text that is downloaded. */
    method ExportCsv() returns (csv: Option<string>)
      ensures csv.None? <==> table.None?
      ensures csv.Some? ==> csv.value == CsvText(table.value)
    {
      if table.None? {
        return None;
      }
      var g := table.value;
      var text := JsText.Join(ExportManager.QuoteAll(g.head), ",") + "\n";
      ExportStep(Records(g), 0);
      for i := 0 to |g.body|
        invariant text == Rfc4180.Terminated(ExportManager.LinesOf(Records(g)[..i + 1]))
      {
        ExportStep(Records(g), i + 1);
        text := text + JsText.Join(ExportManager.QuoteAll(g.body[i]), ",") + "\n";
      }
      assert Records(g)[..|g.body| + 1] == Records(g);
      return Some(text);
    }
  }
}
