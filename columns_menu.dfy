/**
 * The columns menu: a set of hidden column indices, kept across redraws, a
 * panel listing every column except the row-number one with a checkbox,
 * and the rule that hides a cell of any header or body row exactly when its
 * index is in the set and is not the row-number column's.
 */
module ColumnsMenu {
  import opened Wrappers
  import JsText
  import JsNumber

  /**
   * A table cell: its `textContent`, whether it carries `data-ft-rownum="1"`
   * or the class `ft-rownum`, and whether its `style.display` is `none`.
   */
  datatype Cell = Cell(text: string, rownumData: bool, rownumClass: bool, hidden: bool)

  /** The header rows and the rows of the first body. */
  datatype Table = Table(head: seq<seq<Cell>>, body: seq<seq<Cell>>)

  /** What `getHeaderCells` reports of a header of the first row. */
  datatype Column = Column(idx: nat, name: string, isRowNum: bool)

  /** One line of the panel: the column index its checkbox toggles, the label, and whether it is checked. */
  datatype Entry = Entry(idx: nat, caption: string, checked: bool)

  /** A header is the row-number one when marked so, or when its trimmed text is `#`. */
  function ColumnOf(c: Cell, idx: nat): (r: Column)
    ensures r.idx == idx && r.name == JsText.Trim(c.text)
    ensures r.isRowNum <==> c.rownumData || c.rownumClass || r.name == "#"
  {
    var name := JsText.Trim(c.text);
    Column(idx, name, c.rownumData || c.rownumClass || name == "#")
  }

  /** `getHeaderCells`: one column per header of the first header row; none without a table or a header row. */
  function HeaderCells(t: Option<Table>): (r: seq<Column>)
    ensures t.None? || t.value.head == [] ==> r == []
    ensures t.Some? && t.value.head != [] ==> |r| == |t.value.head[0]|
    ensures forall k :: 0 <= k < |r| ==> r[k].idx == k
  {
    if t.None? || t.value.head == [] then []
    else seq(|t.value.head[0]|, k requires 0 <= k < |t.value.head[0]| => ColumnOf(t.value.head[0][k], k))
  }

  /** `cols.find(c => c.isRowNum)?.idx`: the first row-number column, if any. */
  function RowNumIndex(cols: seq<Column>): (r: Option<nat>)
    ensures r.Some? ==> exists k :: 0 <= k < |cols| && cols[k].isRowNum && cols[k].idx == r.value
    ensures r.None? ==> forall k :: 0 <= k < |cols| ==> !cols[k].isRowNum
  {
    if cols == [] then None
    else if cols[0].isRowNum then Some(cols[0].idx)
    else
      var r := RowNumIndex(cols[1..]);
      assert forall k :: 1 <= k < |cols| ==> cols[k] == cols[1..][k - 1];
      r
  }

  /** The found column is the first row-number one. */
  lemma {:induction false} RowNumIndexFirst(cols: seq<Column>, k: nat)
    requires k < |cols| && cols[k].isRowNum
    ensures RowNumIndex(cols).Some?
    ensures (forall j :: 0 <= j < |cols| ==> cols[j].idx == j) ==> RowNumIndex(cols).value <= k
  {
    if !cols[0].isRowNum {
      RowNumIndexFirst(cols[1..], k - 1);
      if forall j :: 0 <= j < |cols| ==> cols[j].idx == j {
        assert forall j :: 0 <= j < |cols| - 1 ==> cols[1..][j].idx == j + 1;
        RowNumIndexShifted(cols[1..], k - 1, 1);
      }
    }
  }

  /** With indices offset by d, the first row-number index found is at most k + d. */
  lemma {:induction false} RowNumIndexShifted(cols: seq<Column>, k: nat, d: nat)
    requires k < |cols| && cols[k].isRowNum && forall j :: 0 <= j < |cols| ==> cols[j].idx == j + d
    ensures RowNumIndex(cols).Some? && RowNumIndex(cols).value <= k + d
  {
    if !cols[0].isRowNum {
      assert forall j :: 0 <= j < |cols| - 1 ==> cols[1..][j].idx == j + d + 1;
      RowNumIndexShifted(cols[1..], k - 1, d + 1);
    }
  }

  // ------------------------------------------------------------- the visibility rule

  /** A cell at index idx is hidden iff idx is in the set and is not the row-number column. */
  predicate IsHidden(hidden: set<nat>, rowNum: Option<nat>, idx: nat) {
    idx in hidden && rowNum != Some(idx)
  }

  function ApplyRow(row: seq<Cell>, hidden: set<nat>, rowNum: Option<nat>): (r: seq<Cell>)
    ensures |r| == |row| && forall i :: 0 <= i < |row| ==> r[i] == row[i].(hidden := IsHidden(hidden, rowNum, i))
  {
    seq(|row|, i requires 0 <= i < |row| => row[i].(hidden := IsHidden(hidden, rowNum, i)))
  }

  function ApplyRows(rows: seq<seq<Cell>>, hidden: set<nat>, rowNum: Option<nat>): (r: seq<seq<Cell>>)
    ensures |r| == |rows| && forall k :: 0 <= k < |rows| ==> r[k] == ApplyRow(rows[k], hidden, rowNum)
  {
    seq(|rows|, k requires 0 <= k < |rows| => ApplyRow(rows[k], hidden, rowNum))
  }

  /** `applyVisibilityToCurrentTable` on a table: the same rule in every header and body row. */
  function Applied(t: Table, hidden: set<nat>): Table {
    var rowNum := RowNumIndex(HeaderCells(Some(t)));
    Table(ApplyRows(t.head, hidden, rowNum), ApplyRows(t.body, hidden, rowNum))
  }

  /**
   * Every cell, in a header row or a body row, is hidden exactly when its
   * index is in the set and is not the row-number column, so the columns of
   * all rows stay aligned.
   */
  lemma AppliedCell(t: Table, hidden: set<nat>, i: nat)
    ensures forall k :: 0 <= k < |t.head| && i < |t.head[k]| ==>
      Applied(t, hidden).head[k][i].hidden == IsHidden(hidden, RowNumIndex(HeaderCells(Some(t))), i)
    ensures forall k :: 0 <= k < |t.body| && i < |t.body[k]| ==>
      Applied(t, hidden).body[k][i].hidden == IsHidden(hidden, RowNumIndex(HeaderCells(Some(t))), i)
  {
  }

  /** Cells in the same column of any two rows are both hidden or both shown. */
  lemma ColumnsAligned(t: Table, hidden: set<nat>, j: nat, k: nat, i: nat)
    requires j < |t.head| && k < |t.body| && i < |t.head[j]| && i < |t.body[k]|
    ensures Applied(t, hidden).head[j][i].hidden == Applied(t, hidden).body[k][i].hidden
  {
    AppliedCell(t, hidden, i);
  }

  /** The row-number column is never hidden. */
  lemma RowNumShown(t: Table, hidden: set<nat>, k: nat)
    requires RowNumIndex(HeaderCells(Some(t))) == Some(k)
    ensures forall j :: 0 <= j < |t.head| && k < |t.head[j]| ==> !Applied(t, hidden).head[j][k].hidden
    ensures forall j :: 0 <= j < |t.body| && k < |t.body[j]| ==> !Applied(t, hidden).body[j][k].hidden
  {
    AppliedCell(t, hidden, k);
  }

  /** Hiding changes no header's text or marks, so the columns seen afterwards are the same. */
  lemma AppliedKeepsColumns(t: Table, hidden: set<nat>)
    ensures HeaderCells(Some(Applied(t, hidden))) == HeaderCells(Some(t))
  {
    if t.head != [] {
      var a, b := HeaderCells(Some(Applied(t, hidden))), HeaderCells(Some(t));
      forall k | 0 <= k < |b|
        ensures a[k] == b[k]
      {
        assert Applied(t, hidden).head[0][k].text == t.head[0][k].text;
      }
    }
  }

  lemma ApplyRowsTwice(rows: seq<seq<Cell>>, hidden: set<nat>, rowNum: Option<nat>)
    ensures ApplyRows(ApplyRows(rows, hidden, rowNum), hidden, rowNum) == ApplyRows(rows, hidden, rowNum)
  {
    var a, b := ApplyRows(ApplyRows(rows, hidden, rowNum), hidden, rowNum), ApplyRows(rows, hidden, rowNum);
    forall k | 0 <= k < |rows|
      ensures a[k] == b[k]
    {
      assert ApplyRow(b[k], hidden, rowNum) == b[k];
    }
  }

  /** Applying the same set again changes nothing. */
  lemma AppliedIdempotent(t: Table, hidden: set<nat>)
    ensures Applied(Applied(t, hidden), hidden) == Applied(t, hidden)
  {
    AppliedKeepsColumns(t, hidden);
    var rowNum := RowNumIndex(HeaderCells(Some(t)));
    ApplyRowsTwice(t.head, hidden, rowNum);
    ApplyRowsTwice(t.body, hidden, rowNum);
  }

  // ------------------------------------------------------------- the list

  /** The label of a column: its name, or `Column n` counting from 1 when the name is empty. */
  function Caption(c: Column): string {
    if c.name != "" then c.name else "Column " + JsNumber.ShowNat(c.idx + 1)
  }

  /** `buildList`'s lines: every column that is not a row-number one, in order. */
  function Listed(cols: seq<Column>, hidden: set<nat>): (r: seq<Entry>)
    ensures |r| <= |cols|
  {
    if cols == [] then []
    else
      var n := |cols| - 1;
      var c := cols[n];
      Listed(cols[..n], hidden) + if c.isRowNum then [] else [Entry(c.idx, Caption(c), c.idx !in hidden)]
  }

  /**
   * Each line belongs to a column that is not a row-number one, and is
   * checked iff that column is shown; every such column has a line.
   */
  lemma {:induction false} ListedExactly(cols: seq<Column>, hidden: set<nat>)
    ensures forall e :: e in Listed(cols, hidden) ==>
      exists k :: 0 <= k < |cols| && !cols[k].isRowNum && e == Entry(cols[k].idx, Caption(cols[k]), cols[k].idx !in hidden)
    ensures forall k :: 0 <= k < |cols| && !cols[k].isRowNum ==> Entry(cols[k].idx, Caption(cols[k]), cols[k].idx !in hidden) in Listed(cols, hidden)
  {
    if cols != [] {
      var n := |cols| - 1;
      ListedExactly(cols[..n], hidden);
      assert forall k :: 0 <= k < n ==> cols[..n][k] == cols[k];
    }
  }

  /** No line toggles a row-number column. */
  lemma RowNumNeverListed(cols: seq<Column>, hidden: set<nat>, e: Entry)
    requires e in Listed(cols, hidden) && forall j :: 0 <= j < |cols| ==> cols[j].idx == j
    ensures e.idx < |cols| && !cols[e.idx].isRowNum
  {
    ListedExactly(cols, hidden);
  }

  /** The set `Hide all` builds: every column that is not a row-number one. */
  function AllButRowNum(cols: seq<Column>): set<nat> {
    set k | 0 <= k < |cols| && !cols[k].isRowNum :: cols[k].idx
  }

  /** `Hide all` never puts the row-number column in the set, so the clean-up finds nothing to remove. */
  lemma RowNumNotHidden(cols: seq<Column>)
    requires forall j :: 0 <= j < |cols| ==> cols[j].idx == j
    ensures WithoutRowNum(AllButRowNum(cols), RowNumIndex(cols)) == AllButRowNum(cols)
  {
    var rowNum := RowNumIndex(cols);
    if rowNum.Some? {
      assert rowNum.value !in AllButRowNum(cols);
    }
  }

  /** The rownum clean-up at the end of `buildList`. */
  function WithoutRowNum(hidden: set<nat>, rowNum: Option<nat>): (r: set<nat>)
    ensures rowNum.None? ==> r == hidden
    ensures rowNum.Some? ==> r == hidden - {rowNum.value}
  {
    if rowNum.Some? && rowNum.value in hidden then hidden - {rowNum.value} else hidden
  }

  /** The loop of `buildList` over the columns. */
  method ListEntries(cols: seq<Column>, hidden: set<nat>) returns (entries: seq<Entry>)
    ensures entries == Listed(cols, hidden)
  {
    entries := [];
    var k := 0;
    while k < |cols|
      invariant k <= |cols| && entries == Listed(cols[..k], hidden)
    {
      assert cols[..k + 1][..k] == cols[..k];
      var c := cols[k];
      if !c.isRowNum {
        entries := entries + [Entry(c.idx, Caption(c), c.idx !in hidden)];
      }
      k := k + 1;
    }
    assert cols[..k] == cols;
  }

  /** The loop of `Hide all`. */
  method HideAllOf(cols: seq<Column>) returns (hidden: set<nat>)
    ensures hidden == AllButRowNum(cols)
  {
    hidden := {};
    var k := 0;
    while k < |cols|
      invariant k <= |cols| && hidden == AllButRowNum(cols[..k])
    {
      assert forall j :: 0 <= j < k ==> cols[..k + 1][j] == cols[..k][j];
      if !cols[k].isRowNum {
        hidden := hidden + {cols[k].idx};
      }
      k := k + 1;
    }
    assert cols[..k] == cols;
  }

  /** The loop of `applyVisibilityToCurrentTable` over the cells of one row. */
  method ApplyToRow(row: seq<Cell>, hidden: set<nat>, rowNum: Option<nat>) returns (r: seq<Cell>)
    ensures r == ApplyRow(row, hidden, rowNum)
  {
    r := row;
    var idx := 0;
    while idx < |row|
      invariant idx <= |row| && |r| == |row|
      invariant forall i :: 0 <= i < idx ==> r[i] == row[i].(hidden := IsHidden(hidden, rowNum, i))
      invariant forall i :: idx <= i < |row| ==> r[i] == row[i]
    {
      r := r[idx := row[idx].(hidden := idx in hidden && rowNum != Some(idx))];
      idx := idx + 1;
    }
  }

  /** ... and over the rows of one section. */
  method ApplyToRows(rows: seq<seq<Cell>>, hidden: set<nat>, rowNum: Option<nat>) returns (r: seq<seq<Cell>>)
    ensures r == ApplyRows(rows, hidden, rowNum)
  {
    r := [];
    var k := 0;
    while k < |rows|
      invariant k <= |rows| && |r| == k && forall j :: 0 <= j < k ==> r[j] == ApplyRow(rows[j], hidden, rowNum)
    {
      var row := ApplyToRow(rows[k], hidden, rowNum);
      r := r + [row];
      k := k + 1;
    }
  }

  // ------------------------------------------------------------- the menu

  class Menu {
    /** `hiddenCols`. */
    var hidden: set<nat>
    /** The `.flextable` element, when the page has one. */
    var table: Option<Table>
    /** The panel is displayed. */
    var open: bool
    /** The panel's lines as last built. */
    var entries: seq<Entry>
    /** The menu button is in the toolbar. */
    var installed: bool

    constructor (t: Option<Table>)
      ensures hidden == {} && table == t && !open && entries == [] && !installed
    {
      hidden, table, open, entries, installed := {}, t, false, [], false;
    }

    /**
     * `initColumnsMenu`: nothing without a toolbar or when the button is
     * already there; otherwise the button is added with its panel closed
     * and the current set is applied.
     */
    method Init(hasToolbar: bool)
      modifies this`installed, this`open, this`table
      ensures !hasToolbar || old(installed) ==> installed == old(installed) && open == old(open) && table == old(table)
      ensures hasToolbar && !old(installed) ==> installed && !open && table == Visible(old(table), hidden)
    {
      if !hasToolbar || installed {
        return;
      }
      installed, open := true, false;
      ApplyVisibility();
    }

    /** The table after the set is applied; no table, nothing to apply. */
    static function Visible(t: Option<Table>, hidden: set<nat>): Option<Table> {
      if t.None? then t else Some(Applied(t.value, hidden))
    }

    /** `applyVisibilityToCurrentTable`. */
    method ApplyVisibility()
      modifies this`table
      ensures table == Visible(old(table), hidden)
    {
      if table.None? {
        return;
      }
      var t := table.value;
      var rowNumIdx := RowNumIndex(HeaderCells(table));
      var head := ApplyToRows(t.head, hidden, rowNumIdx);
      var body := ApplyToRows(t.body, hidden, rowNumIdx);
      table := Some(Table(head, body));
    }

    /** `buildList`: the lines for the current columns, then the row-number column taken out of the set. */
    method BuildList()
      modifies this`entries, this`hidden
      ensures entries == Listed(HeaderCells(table), old(hidden))
      ensures hidden == WithoutRowNum(old(hidden), RowNumIndex(HeaderCells(table)))
    {
      var cols := HeaderCells(table);
      var lines := ListEntries(cols, hidden);
      var rowNum := RowNumIndex(cols);
      var h := hidden;
      if rowNum.Some? && rowNum.value in h {
        h := h - {rowNum.value};
      }
      entries, hidden := lines, h;
    }

    /** `refreshList`: the list is rebuilt only while the panel is open. */
    method RefreshList()
      modifies this`entries, this`hidden
      ensures !open ==> entries == old(entries) && hidden == old(hidden)
      ensures open ==> (entries == Listed(HeaderCells(table), old(hidden))
        && hidden == WithoutRowNum(old(hidden), RowNumIndex(HeaderCells(table))))
    {
      if open {
        BuildList();
      }
    }

    /** `Show all`: the set emptied, then applied. */
    method ShowAll()
      modifies this`hidden, this`table, this`entries
      ensures table == Visible(old(table), {})
      ensures hidden == {}
      ensures open ==> entries == Listed(HeaderCells(table), {})
      ensures !open ==> entries == old(entries)
    {
      hidden := {};
      ApplyVisibility();
      RefreshList();
    }

    /** `Hide all`: the set becomes every column but the row-number ones, then is applied. */
    method HideAll()
      modifies this`hidden, this`table, this`entries
      ensures table == Visible(old(table), AllButRowNum(HeaderCells(old(table))))
      ensures hidden == AllButRowNum(HeaderCells(old(table)))
      ensures open ==> entries == Listed(HeaderCells(table), hidden)
      ensures !open ==> entries == old(entries)
    {
      var cols := HeaderCells(table);
      hidden := HideAllOf(cols);
      ApplyVisibility();
      VisibleKeepsColumns(old(table), hidden);
      RowNumNotHidden(cols);
      RefreshList();
    }

    /** A checkbox changed: checked shows the column, unchecked hides it; the set is applied. */
    method CheckboxChanged(idx: nat, checked: bool)
      modifies this`hidden, this`table
      ensures hidden == if checked then old(hidden) - {idx} else old(hidden) + {idx}
      ensures table == Visible(old(table), hidden)
    {
      if checked {
        hidden := hidden - {idx};
      } else {
        hidden := hidden + {idx};
      }
      ApplyVisibility();
    }

    /** The menu button: an open panel closes, a closed one is rebuilt and opens. */
    method ToggleButton()
      modifies this`open, this`entries, this`hidden
      ensures open == !old(open)
      ensures old(open) ==> entries == old(entries) && hidden == old(hidden)
      ensures !old(open) ==> (entries == Listed(HeaderCells(table), old(hidden))
        && hidden == WithoutRowNum(old(hidden), RowNumIndex(HeaderCells(table))))
    {
      if !open {
        BuildList();
        open := true;
      } else {
        open := false;
      }
    }

    /**
     * A click on `Show all` as dispatched: the panel lies inside the menu
     * button and nothing stops the click, so after the listener the click
     * reaches the button's toggle, which closes an open panel.
     */
    method ClickShowAll()
      modifies this`hidden, this`table, this`entries, this`open
      ensures open == !old(open)
      ensures table == Visible(old(table), {}) && hidden == {}
      ensures entries == Listed(HeaderCells(table), {})
    {
      ShowAll();
      ToggleButton();
    }

    /** A click on `Hide all` as dispatched: the listener, then the button's toggle. */
    method ClickHideAll()
      modifies this`hidden, this`table, this`entries, this`open
      ensures open == !old(open)
      ensures table == Visible(old(table), AllButRowNum(HeaderCells(old(table))))
      ensures hidden == AllButRowNum(HeaderCells(old(table)))
      ensures entries == Listed(HeaderCells(table), hidden)
    {
      var cols := HeaderCells(table);
      ghost var h := AllButRowNum(cols);
      HideAll();
      VisibleKeepsColumns(old(table), h);
      assert HeaderCells(table) == cols && hidden == h;
      RowNumNotHidden(cols);
      assert WithoutRowNum(h, RowNumIndex(cols)) == h;
      ToggleButton();
    }

    /**
     * A click on a checkbox as dispatched: the click bubbles to the button's
     * toggle before the checkbox's `change` fires, so the panel is toggled
     * first and the column shown or hidden after.
     */
    method ClickCheckbox(idx: nat, checked: bool)
      modifies this`hidden, this`table, this`entries, this`open
      ensures open == !old(open)
      ensures old(open) ==> entries == old(entries)
      ensures !old(open) ==> entries == Listed(HeaderCells(old(table)), old(hidden))
      ensures var h := if old(open) then old(hidden) else WithoutRowNum(old(hidden), RowNumIndex(HeaderCells(old(table))));
        hidden == (if checked then h - {idx} else h + {idx})
      ensures table == Visible(old(table), hidden)
    {
      ToggleButton();
      CheckboxChanged(idx, checked);
    }

    /** A click anywhere outside the panel and the button closes the panel. */
    method ClickOutside()
      modifies this`open
      ensures !open
    {
      open := false;
    }
  }

  /** Applying the set keeps the columns the menu sees. */
  lemma VisibleKeepsColumns(t: Option<Table>, hidden: set<nat>)
    ensures HeaderCells(Menu.Visible(t, hidden)) == HeaderCells(t)
  {
    if t.Some? {
      AppliedKeepsColumns(t.value, hidden);
    }
  }
}
