/**
 * The click-to-sort table of src/ui/table-renderer.js.
 *
 * `renderTable` replaces the container's contents with a fresh table: one
 * header per column and one row of cells per data row. A null cell shows as
 * the empty text. A header longer than 20 characters and a cell longer than
 * 30 also carry their text as a tooltip.
 *
 * Each table keeps its own sort state, and a click on a header updates it.
 * Clicking the sorted column flips the direction. Clicking any other column
 * sorts it ascending. The clicked header alone carries the direction's
 * class, and the body rows are sorted by that column.
 */
module UiTableRenderer {
  import opened Wrappers
  import JsText
  import JsNumber
  import RowSort

  datatype Cell = Cell(text: string, title: Option<string>)
  datatype Header = Header(cell: Cell, mark: RowSort.Mark)
  datatype Grid = Grid(head: seq<Header>, body: seq<seq<Cell>>)

  /** The sort state kept in the table's closure. */
  datatype SortState = Unsorted | SortedBy(col: nat, dir: RowSort.Dir)

  const HeaderTitleOver: nat := 20
  const CellTitleOver: nat := 30

  /** A cell showing `text`, with the text as its tooltip only when it is longer than `over`. */
  function Titled(text: string, over: nat): (c: Cell)
    ensures c.text == text
    ensures c.title.Some? <==> |text| > over
    ensures c.title.Some? ==> c.title.value == text
  {
    Cell(text, if |text| > over then Some(text) else None)
  }

  function HeaderOf(col: string): Header {
    Header(Titled(col, HeaderTitleOver), RowSort.Unmarked)
  }

  /** `cell ?? ""`. */
  function BodyCell(cell: Option<string>): Cell {
    Titled(cell.GetOr(""), CellTitleOver)
  }

  function BodyRow(row: seq<Option<string>>): (r: seq<Cell>)
    ensures |r| == |row|
  {
    seq(|row|, k requires 0 <= k < |row| => BodyCell(row[k]))
  }

  /** The table `renderTable` builds. */
  ghost function Rendered(columns: seq<string>, rows: seq<seq<Option<string>>>): Grid {
    Grid(seq(|columns|, i requires 0 <= i < |columns| => HeaderOf(columns[i])),
         seq(|rows|, i requires 0 <= i < |rows| => BodyRow(rows[i])))
  }

  /** What a rendered table shows: the columns unmarked, and every cell's text or the empty text. */
  lemma RenderedShows(columns: seq<string>, rows: seq<seq<Option<string>>>)
    ensures |Rendered(columns, rows).head| == |columns| && |Rendered(columns, rows).body| == |rows|
    ensures forall i :: 0 <= i < |columns| ==>
      Rendered(columns, rows).head[i].cell.text == columns[i] && Rendered(columns, rows).head[i].mark == RowSort.Unmarked
    ensures forall i, k :: 0 <= i < |rows| && 0 <= k < |rows[i]| ==>
      |Rendered(columns, rows).body[i]| == |rows[i]| && Rendered(columns, rows).body[i][k].text == rows[i][k].GetOr("")
  {
  }

  // ------------------------------------------------------------ sort state

  /** The state after a click on header `idx`. */
  function NextSort(s: SortState, idx: nat): (r: SortState)
    ensures r.SortedBy? && r.col == idx
  {
    if s.SortedBy? && s.col == idx then SortedBy(idx, RowSort.Flip(s.dir)) else SortedBy(idx, RowSort.Asc)
  }

  /** Clicking the same header again flips the direction. */
  lemma ClickAgainFlips(s: SortState, idx: nat)
    ensures NextSort(NextSort(s, idx), idx).dir == RowSort.Flip(NextSort(s, idx).dir)
  {
  }

  /** Clicking a header that is not the sorted one sorts it ascending, whatever the state was. */
  lemma ClickOtherAscends(s: SortState, idx: nat)
    requires s.Unsorted? || s.col != idx
    ensures NextSort(s, idx) == SortedBy(idx, RowSort.Asc)
  {
  }

  /** Two clicks on the same header bring its direction back. */
  lemma ClickTwiceRestores(s: SortState, idx: nat)
    requires s.SortedBy? && s.col == idx
    ensures NextSort(NextSort(s, idx), idx) == s
  {
  }

  // ------------------------------------------------------------ comparator

  predicate Stripped(c: char) {
    c == '%' || c == ',' || c == '$' || JsText.IsSpace(c)
  }

  /** `v.replace(/[%,$\s]/g, "")`. */
  function Strip(v: string): (r: string)
    ensures forall i :: 0 <= i < |r| ==> !Stripped(r[i])
  {
    if v == [] then [] else (if Stripped(v[0]) then [] else [v[0]]) + Strip(v[1..])
  }

  /**
   * `toNumber`: the stripped text as a finite number, or `None`. Text that
   * strips to nothing is 0, since `Number("")` is 0; text that strips to the
   * decimal digits of n is n.
   */
  function ToNumber(v: string): (r: Option<real>)
    ensures Strip(v) == "" ==> r == Some(0.0)
    ensures forall n: nat :: Strip(v) == JsNumber.ShowNat(n) ==> r == Some(n as real)
  {
    assert Strip(v) == "" ==> JsNumber.FiniteNumber(Strip(v)) == Some(0.0) by {
      JsNumber.BlankIsZero("");
    }
    assert forall n: nat :: Strip(v) == JsNumber.ShowNat(n) ==> JsNumber.FiniteNumber(Strip(v)) == Some(n as real) by {
      forall n: nat | Strip(v) == JsNumber.ShowNat(n)
        ensures JsNumber.FiniteNumber(Strip(v)) == Some(n as real)
      {
        JsNumber.NatRoundTrip(n);
      }
    }
    JsNumber.FiniteNumber(Strip(v))
  }

  lemma {:induction false} StripAll(v: string)
    requires forall i :: 0 <= i < |v| ==> Stripped(v[i])
    ensures Strip(v) == ""
  {
    if v != [] {
      StripAll(v[1..]);
    }
  }

  /** A cell of nothing but signs, separators and white space (the empty cell among them) counts as the number 0. */
  lemma BlankIsZero(v: string)
    requires forall i :: 0 <= i < |v| ==> Stripped(v[i])
    ensures ToNumber(v) == Some(0.0)
  {
    StripAll(v);
    JsNumber.BlankIsZero("");
  }

  /** `children[colIndex]?.textContent ?? ""`: a row too short for the column sorts as the empty text. */
  function KeyOf(row: seq<Cell>, col: nat): (k: string)
    ensures col >= |row| ==> k == ""
  {
    if col < |row| then row[col].text else ""
  }

  /** The comparator on two texts: by value when both are numbers, otherwise by collation. */
  function CompareTexts(a: string, b: string, dir: RowSort.Dir, collate: (string, string) -> int): real {
    var mult := if dir == RowSort.Asc then 1.0 else -1.0;
    var an, bn := ToNumber(a), ToNumber(b);
    if an.Some? && bn.Some? then (an.value - bn.value) * mult
    else (collate(a, b) as real) * mult
  }

  function CompareRows(col: nat, dir: RowSort.Dir, collate: (string, string) -> int): (seq<Cell>, seq<Cell>) -> real {
    (ra: seq<Cell>, rb: seq<Cell>) => CompareTexts(KeyOf(ra, col), KeyOf(rb, col), dir, collate)
  }

  /** Two numbers compare by value: the smaller first ascending, last descending. */
  lemma NumbersByValue(a: string, b: string, collate: (string, string) -> int)
    requires ToNumber(a).Some? && ToNumber(b).Some? && ToNumber(a).value < ToNumber(b).value
    ensures CompareTexts(a, b, RowSort.Asc, collate) < 0.0
    ensures CompareTexts(a, b, RowSort.Desc, collate) > 0.0
  {
  }

  /** When either text is not a number, the collation decides. */
  lemma TextsByCollation(a: string, b: string, dir: RowSort.Dir, collate: (string, string) -> int)
    requires ToNumber(a).None? || ToNumber(b).None?
    ensures RowSort.Sign(CompareTexts(a, b, dir, collate)) ==
      (if dir == RowSort.Asc then 1 else -1) * RowSort.Sign(collate(a, b) as real)
  {
  }

  /** The descending comparator is the ascending one negated. */
  lemma DescNegates(a: string, b: string, collate: (string, string) -> int)
    ensures CompareTexts(a, b, RowSort.Desc, collate) == -CompareTexts(a, b, RowSort.Asc, collate)
  {
  }

  lemma CompareTextsAntisymmetric(a: string, b: string, dir: RowSort.Dir, collate: (string, string) -> int)
    requires RowSort.CollationAntisymmetric(collate)
    ensures RowSort.Sign(CompareTexts(a, b, dir, collate)) == -RowSort.Sign(CompareTexts(b, a, dir, collate))
  {
    assert collate(a, b) < 0 <==> collate(b, a) > 0;
    assert collate(b, a) < 0 <==> collate(a, b) > 0;
  }

  /** Given an antisymmetric collation, so is the row comparator, in either direction. */
  lemma CompareRowsAntisymmetric(col: nat, dir: RowSort.Dir, collate: (string, string) -> int)
    requires RowSort.CollationAntisymmetric(collate)
    ensures RowSort.Antisymmetric(CompareRows(col, dir, collate))
  {
    var cmp := CompareRows(col, dir, collate);
    forall ra: seq<Cell>, rb: seq<Cell>
      ensures RowSort.Sign(cmp(ra, rb)) == -RowSort.Sign(cmp(rb, ra))
    {
      CompareTextsAntisymmetric(KeyOf(ra, col), KeyOf(rb, col), dir, collate);
    }
  }

  // ----------------------------------------------------------------- click

  /** Every header's class removed, then the clicked one's added. */
  function MarkOnly(head: seq<Header>, idx: nat, dir: RowSort.Dir): (r: seq<Header>)
    ensures |r| == |head|
    ensures forall j :: 0 <= j < |head| ==> r[j].cell == head[j].cell
    ensures forall j :: 0 <= j < |head| ==> (r[j].mark != RowSort.Unmarked <==> j == idx)
    ensures idx < |head| ==> r[idx].mark == RowSort.Marked(dir)
  {
    seq(|head|, j requires 0 <= j < |head| => head[j].(mark := if j == idx then RowSort.Marked(dir) else RowSort.Unmarked))
  }

  /** The table after a click that leaves the sort state at `idx` in direction `dir`. */
  function Clicked(g: Grid, idx: nat, dir: RowSort.Dir, collate: (string, string) -> int): (r: Grid)
    ensures multiset(r.body) == multiset(g.body)
  {
    Grid(MarkOnly(g.head, idx, dir), RowSort.SortBy(g.body, CompareRows(idx, dir, collate)))
  }

  /** After a click, the body is a reordering of the rows with every neighbour pair in the clicked order. */
  lemma ClickedOrdered(g: Grid, idx: nat, dir: RowSort.Dir, collate: (string, string) -> int)
    requires RowSort.CollationAntisymmetric(collate)
    ensures RowSort.Ordered(Clicked(g, idx, dir, collate).body, CompareRows(idx, dir, collate))
  {
    CompareRowsAntisymmetric(idx, dir, collate);
    RowSort.SortByOrdered(g.body, CompareRows(idx, dir, collate));
  }

  /** Whether the `flextable-container` element exists, and what it holds. */
  class Container {
    const present: bool
    var grid: Option<Grid>
    var sort: SortState

    constructor(present: bool)
      ensures this.present == present && grid.None? && sort.Unsorted?
    {
      this.present := present;
      grid := None;
      sort := Unsorted;
    }

    /**
     * `renderTable`: without the container, nothing happens. Otherwise a new
     * table takes the old one's place, with a fresh sort state.
     */
    method RenderTable(columns: seq<string>, rows: seq<seq<Option<string>>>)
      modifies this`grid, this`sort
      ensures !present ==> grid == old(grid) && sort == old(sort)
      ensures present ==> grid == Some(Rendered(columns, rows)) && sort.Unsorted?
    {
      if !present {
        return;
      }
      var head: seq<Header> := [];
      for i := 0 to |columns|
        invariant |head| == i && forall j :: 0 <= j < i ==> head[j] == HeaderOf(columns[j])
      {
        head := head + [HeaderOf(columns[i])];
      }
      var body: seq<seq<Cell>> := [];
      for i := 0 to |rows|
        invariant |body| == i && forall j :: 0 <= j < i ==> body[j] == BodyRow(rows[j])
      {
        var tr: seq<Cell> := [];
        for k := 0 to |rows[i]|
          invariant |tr| == k && forall j :: 0 <= j < k ==> tr[j] == BodyCell(rows[i][j])
        {
          tr := tr + [BodyCell(rows[i][k])];
        }
        assert tr == BodyRow(rows[i]);
        body := body + [tr];
      }
      assert Grid(head, body) == Rendered(columns, rows) by {
        assert head == Rendered(columns, rows).head;
        forall i | 0 <= i < |rows|
          ensures body[i] == BodyRow(rows[i])
        {
        }
        assert body == Rendered(columns, rows).body;
      }
      grid, sort := Some(Grid(head, body)), Unsorted;
    }

    /** A click on header `idx` of the rendered table. */
    method Click(idx: nat, collate: (string, string) -> int)
      requires grid.Some? && idx < |grid.value.head|
      modifies this`grid, this`sort
      ensures sort == NextSort(old(sort), idx)
      ensures grid == Some(Clicked(old(grid.value), idx, sort.dir, collate))
    {
      var s := NextSort(sort, idx);
      var g := grid.value;
      grid, sort := Some(Clicked(g, idx, s.dir, collate)), s;
    }
  }
}
