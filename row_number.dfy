/**
 * The leading row-number column: a `#` header cell in the first header
 * row, a blank one in later header rows, a number cell at the front of
 * every body row, the visible rows numbered 1, 2, ... from the top, and the
 * CSS variable `--ft-filter-top` holding the first header row's height.
 */
module RowNumber {
  import opened Wrappers
  import JsNumber

  /** How a cell is pinned: not at all, to the top (`top: 0`), or under the first header row (`top: var(--ft-filter-top)`). */
  datatype Pin = NotPinned | PinnedTop | PinnedBelow

  /**
   * A cell: its text, whether it carries `data-ft-rownum="1"` (a header's
   * mark) or `data-ft-rownum-cell="1"` (a body cell's mark), and its pin.
   */
  datatype Cell = Cell(text: string, headMark: bool, bodyMark: bool, pin: Pin)

  /** A body row and whether its computed style hides it (`display: none` or `visibility: hidden`). */
  datatype Row = Row(cells: seq<Cell>, hidden: bool)

  /** The header rows, the rows of the first body, and the value of `--ft-filter-top` in pixels, once set. */
  datatype Table = Table(head: seq<seq<Cell>>, body: seq<Row>, filterTop: Option<nat>)

  // ------------------------------------------------------------- the header column

  /** The cell `ensureHeaderFirstCol` inserts: `#` in the first header row, blank and pinned below it in the others. */
  function NewHeadCell(idx: nat): Cell {
    if idx == 0 then Cell("#", true, false, PinnedTop) else Cell("", true, false, PinnedBelow)
  }

  predicate StartsWithHeadMark(row: seq<Cell>) {
    row != [] && row[0].headMark
  }

  /** One header row: a row that starts with a marked cell keeps it (re-pinned below the first row after row 0); any other gets one. */
  function EnsureHeadRow(row: seq<Cell>, idx: nat): (r: seq<Cell>)
    ensures StartsWithHeadMark(r)
  {
    if StartsWithHeadMark(row) then (if idx > 0 then row[0 := row[0].(pin := PinnedBelow)] else row)
    else [NewHeadCell(idx)] + row
  }

  function EnsureHead(head: seq<seq<Cell>>): (r: seq<seq<Cell>>)
    ensures |r| == |head| && forall idx :: 0 <= idx < |head| ==> r[idx] == EnsureHeadRow(head[idx], idx)
  {
    seq(|head|, idx requires 0 <= idx < |head| => EnsureHeadRow(head[idx], idx))
  }

  /**
   * After `ensureHeaderFirstCol` every header row starts with a marked
   * cell; a row that had none has gained exactly one in front of its cells,
   * reading `#` in the first row and blank in the others; a row that had
   * one has no new cell.
   */
  lemma EnsureHeadCells(head: seq<seq<Cell>>, idx: nat)
    requires idx < |head|
    ensures StartsWithHeadMark(EnsureHead(head)[idx])
    ensures !StartsWithHeadMark(head[idx]) ==> EnsureHead(head)[idx] == [NewHeadCell(idx)] + head[idx]
    ensures !StartsWithHeadMark(head[idx]) ==> EnsureHead(head)[idx][0].text == if idx == 0 then "#" else ""
    ensures StartsWithHeadMark(head[idx]) ==> |EnsureHead(head)[idx]| == |head[idx]| && EnsureHead(head)[idx][1..] == head[idx][1..]
  {
  }

  /** `ensureHeaderFirstCol` is idempotent: a second call inserts nothing and changes nothing. */
  lemma EnsureHeadIdempotent(head: seq<seq<Cell>>)
    ensures EnsureHead(EnsureHead(head)) == EnsureHead(head)
  {
    var a, b := EnsureHead(EnsureHead(head)), EnsureHead(head);
    forall idx | 0 <= idx < |head|
      ensures a[idx] == b[idx]
    {
      EnsureHeadRowTwice(head[idx], idx);
    }
  }

  lemma EnsureHeadRowTwice(row: seq<Cell>, idx: nat)
    ensures EnsureHeadRow(EnsureHeadRow(row, idx), idx) == EnsureHeadRow(row, idx)
  {
    var r := EnsureHeadRow(row, idx);
    if idx > 0 {
      assert r[0].pin == PinnedBelow;
      assert r[0 := r[0].(pin := PinnedBelow)] == r;
    }
  }

  // ------------------------------------------------------------- the body column

  /** The cell `ensureBodyFirstCol` inserts: marked and blank. */
  const NewBodyCell := Cell("", false, true, NotPinned)

  predicate StartsWithBodyMark(row: Row) {
    row.cells != [] && row.cells[0].bodyMark
  }

  function EnsureBodyRow(row: Row): (r: Row)
    ensures StartsWithBodyMark(r) && r.hidden == row.hidden
  {
    if StartsWithBodyMark(row) then row else row.(cells := [NewBodyCell] + row.cells)
  }

  function EnsureBody(body: seq<Row>): (r: seq<Row>)
    ensures |r| == |body| && forall k :: 0 <= k < |body| ==> r[k] == EnsureBodyRow(body[k])
  {
    seq(|body|, k requires 0 <= k < |body| => EnsureBodyRow(body[k]))
  }

  /** After `ensureBodyFirstCol` every body row starts with a marked cell; a row that had one is untouched, any other gained one blank cell in front. */
  lemma EnsureBodyCells(body: seq<Row>, k: nat)
    requires k < |body|
    ensures StartsWithBodyMark(EnsureBody(body)[k])
    ensures StartsWithBodyMark(body[k]) ==> EnsureBody(body)[k] == body[k]
    ensures !StartsWithBodyMark(body[k]) ==> EnsureBody(body)[k].cells == [NewBodyCell] + body[k].cells
  {
  }

  /** `ensureBodyFirstCol` is idempotent. */
  lemma EnsureBodyIdempotent(body: seq<Row>)
    ensures EnsureBody(EnsureBody(body)) == EnsureBody(body)
  {
  }

  // ------------------------------------------------------------- numbering

  /** A row that takes a number: it has a number cell and is shown. */
  predicate Numbered(row: Row) {
    StartsWithBodyMark(row) && !row.hidden
  }

  /** How many rows of `rows` take a number. */
  function Counted(rows: seq<Row>): (n: nat)
    ensures n <= |rows|
  {
    if rows == [] then 0
    else Counted(rows[..|rows| - 1]) + if Numbered(rows[|rows| - 1]) then 1 else 0
  }

  /** A row given its number: its number cell shows the number, or nothing when the row is hidden; a row without one is untouched. */
  function Label(row: Row, num: nat): (r: Row)
    ensures |r.cells| == |row.cells| && r.hidden == row.hidden && StartsWithBodyMark(r) == StartsWithBodyMark(row)
  {
    if !StartsWithBodyMark(row) then row
    else row.(cells := row.cells[0 := row.cells[0].(text := if row.hidden then "" else JsNumber.ShowNat(num))])
  }

  /** `renumberVisibleRows`: each row labelled with one more than the number of rows above it that took a number. */
  function Renumbered(rows: seq<Row>): (r: seq<Row>)
    ensures |r| == |rows|
  {
    if rows == [] then []
    else
      var n := |rows| - 1;
      Renumbered(rows[..n]) + [Label(rows[n], Counted(rows[..n]) + 1)]
  }

  lemma {:induction false} RenumberedAt(rows: seq<Row>, k: nat)
    requires k < |rows|
    ensures Renumbered(rows)[k] == Label(rows[k], Counted(rows[..k]) + 1)
  {
    var n := |rows| - 1;
    if k < n {
      RenumberedAt(rows[..n], k);
      assert rows[..n][..k] == rows[..k];
    } else {
      assert rows[..n] == rows[..k];
    }
  }

  /** The texts of the number cells of the rows that take a number, top to bottom. */
  function Numbers(rows: seq<Row>): seq<string> {
    if rows == [] then []
    else
      var n := |rows| - 1;
      Numbers(rows[..n]) + if Numbered(rows[n]) then [rows[n].cells[0].text] else []
  }

  /** The labels 1, 2, ..., c. */
  function Ones(c: nat): (r: seq<string>)
    ensures |r| == c
  {
    seq(c, i requires 0 <= i < c => JsNumber.ShowNat(i + 1))
  }

  lemma OnesSnoc(c: nat)
    ensures Ones(c + 1) == Ones(c) + [JsNumber.ShowNat(c + 1)]
  {
  }

  /** The rows that take a number read 1, 2, ..., k from top to bottom, k being how many there are. */
  lemma {:induction false} NumbersConsecutive(rows: seq<Row>)
    ensures Numbers(Renumbered(rows)) == Ones(Counted(rows))
  {
    if rows != [] {
      var n := |rows| - 1;
      var c := Counted(rows[..n]);
      NumbersConsecutive(rows[..n]);
      assert Renumbered(rows)[..n] == Renumbered(rows[..n]);
      RenumberedAt(rows, n);
      assert rows[..n][..n] == rows[..n];
      assert Numbers(Renumbered(rows)) == Ones(c) + if Numbered(rows[n]) then [JsNumber.ShowNat(c + 1)] else [];
      OnesSnoc(c);
    }
  }

  /** A hidden row's number cell is blank, and a row without a number cell keeps its cells. */
  lemma RenumberedHiddenBlank(rows: seq<Row>, k: nat)
    requires k < |rows|
    ensures StartsWithBodyMark(Renumbered(rows)[k]) == StartsWithBodyMark(rows[k]) && Renumbered(rows)[k].hidden == rows[k].hidden
    ensures StartsWithBodyMark(Renumbered(rows)[k]) && rows[k].hidden ==> Renumbered(rows)[k].cells[0].text == ""
    ensures !StartsWithBodyMark(rows[k]) ==> Renumbered(rows)[k] == rows[k]
  {
    RenumberedAt(rows, k);
    var c := Counted(rows[..k]) + 1;
    if StartsWithBodyMark(rows[k]) && rows[k].hidden {
      assert Label(rows[k], c).cells[0].text == "";
    }
  }

  /** The positions of the shown rows. */
  function Shown(body: seq<Row>): set<nat> {
    set k: nat | k < |body| && !body[k].hidden
  }

  lemma ShownSnoc(body: seq<Row>)
    requires body != []
    ensures var n := |body| - 1;
      n !in Shown(body[..n]) && Shown(body) == Shown(body[..n]) + (if body[n].hidden then {} else {n})
  {
    var n := |body| - 1;
    assert forall k: nat :: k < n ==> body[..n][k] == body[k];
  }

  /** Once every body row has its number cell, the numbers run over exactly the shown rows. */
  lemma {:induction false} CountedAfterEnsure(body: seq<Row>)
    ensures Counted(EnsureBody(body)) == |Shown(body)|
  {
    if body != [] {
      var n := |body| - 1;
      assert EnsureBody(body)[..n] == EnsureBody(body[..n]);
      CountedAfterEnsure(body[..n]);
      ShownSnoc(body);
      assert Numbered(EnsureBody(body)[n]) <==> !body[n].hidden;
    }
  }

  // ------------------------------------------------------------- the filter row

  /** `alignFilterRowToVar`: the second header row's cells pinned under the first; fewer than two rows, nothing. */
  function AlignFilterRow(head: seq<seq<Cell>>): (r: seq<seq<Cell>>)
    ensures |r| == |head|
  {
    if |head| < 2 then head
    else head[1 := seq(|head[1]|, i requires 0 <= i < |head[1]| => head[1][i].(pin := PinnedBelow))]
  }

  // ------------------------------------------------------------- the loops

  /** The loop of `ensureHeaderFirstCol`. */
  method EnsureHeaderFirstCol(head: seq<seq<Cell>>) returns (r: seq<seq<Cell>>)
    ensures r == EnsureHead(head)
  {
    r := [];
    var idx := 0;
    while idx < |head|
      invariant idx <= |head| && |r| == idx && forall j :: 0 <= j < idx ==> r[j] == EnsureHeadRow(head[j], j)
    {
      var row := head[idx];
      if row != [] && row[0].headMark {
        if idx > 0 {
          row := row[0 := row[0].(pin := PinnedBelow)];
        }
      } else {
        var th := if idx == 0 then Cell("#", true, false, PinnedTop) else Cell("", true, false, PinnedBelow);
        row := [th] + row;
      }
      assert row == EnsureHeadRow(head[idx], idx);
      r := r + [row];
      idx := idx + 1;
    }
    assert r == EnsureHead(head);
  }

  /** The loop of `ensureBodyFirstCol`. */
  method EnsureBodyFirstCol(body: seq<Row>) returns (r: seq<Row>)
    ensures r == EnsureBody(body)
  {
    r := [];
    var k := 0;
    while k < |body|
      invariant k <= |body| && |r| == k && forall j :: 0 <= j < k ==> r[j] == EnsureBodyRow(body[j])
    {
      var tr := body[k];
      if !(tr.cells != [] && tr.cells[0].bodyMark) {
        tr := tr.(cells := [Cell("", false, true, NotPinned)] + tr.cells);
      }
      r := r + [tr];
      k := k + 1;
    }
  }

  /** The loop of `renumberVisibleRows`, with its counter. */
  method RenumberVisibleRows(body: seq<Row>) returns (r: seq<Row>)
    ensures r == Renumbered(body)
  {
    r := [];
    var idx := 1;
    var k := 0;
    while k < |body|
      invariant k <= |body| && r == Renumbered(body[..k]) && idx == Counted(body[..k]) + 1
    {
      RenumberedNext(body, k);
      var tr := body[k];
      if tr.cells != [] && tr.cells[0].bodyMark {
        var text := "";
        if !tr.hidden {
          text := JsNumber.ShowNat(idx);
          idx := idx + 1;
        }
        tr := tr.(cells := tr.cells[0 := tr.cells[0].(text := text)]);
      }
      assert tr == Label(body[k], Counted(body[..k]) + 1);
      r := r + [tr];
      k := k + 1;
    }
    assert body[..k] == body;
  }

  /** One more row: it is labelled with the next number, which it takes when it is numbered. */
  lemma RenumberedNext(body: seq<Row>, k: nat)
    requires k < |body|
    ensures Renumbered(body[..k + 1]) == Renumbered(body[..k]) + [Label(body[k], Counted(body[..k]) + 1)]
    ensures Counted(body[..k + 1]) == Counted(body[..k]) + if Numbered(body[k]) then 1 else 0
  {
    assert body[..k + 1][..k] == body[..k];
  }

  /** All of `safeApply` on a table; the header row's height is measured once. */
  function Applied(t: Table, height: nat): Table {
    var head := AlignFilterRow(EnsureHead(t.head));
    var body := Renumbered(EnsureBody(t.body));
    Table(head, body, if head == [] then t.filterTop else Some(height))
  }

  class RowNumbers {
    /** The `.flextable` element, when the page has one. */
    var table: Option<Table>

    constructor (t: Option<Table>)
      ensures table == t
    {
      table := t;
    }

    /**
     * `syncFilterTopVar`: with a table and a first header row, the variable
     * becomes the row's height; it is written only when it differs.
     */
    method SyncFilterTopVar(height: nat) returns (wrote: bool)
      modifies this`table
      ensures wrote <==> old(table).Some? && old(table).value.head != [] && old(table).value.filterTop != Some(height)
      ensures wrote ==> table == Some(old(table).value.(filterTop := Some(height)))
      ensures !wrote ==> table == old(table)
    {
      if table.None? || table.value.head == [] {
        return false;
      }
      var t := table.value;
      if t.filterTop != Some(height) {
        table := Some(t.(filterTop := Some(height)));
        return true;
      }
      return false;
    }

    /**
     * `safeApply`: without a table nothing (the retry is not modelled);
     * otherwise the header and body number cells are ensured, the variable
     * synced, the filter row pinned and the rows renumbered.
     */
    method SafeApply(height: nat)
      modifies this`table
      ensures old(table).None? ==> table == old(table)
      ensures old(table).Some? ==> table == Some(Applied(old(table).value, height))
    {
      if table.None? {
        return;
      }
      var t := table.value;
      var head := EnsureHeaderFirstCol(t.head);
      var body := EnsureBodyFirstCol(t.body);
      table := Some(Table(head, body, t.filterTop));
      var _ := SyncFilterTopVar(height);
      var t' := table.value;
      var aligned := AlignFilterRow(t'.head);
      var numbered := RenumberVisibleRows(t'.body);
      table := Some(t'.(head := aligned, body := numbered));
    }
  }

  /** A second `safeApply` at the same height builds no column and leaves every number where it was. */
  lemma AppliedIdempotent(t: Table, height: nat)
    ensures Applied(Applied(t, height), height) == Applied(t, height)
  {
    HeadSettled(t.head);
    BodySettled(t.body);
  }

  /** The body rows after one pass are left as they are by a second. */
  lemma BodySettled(body: seq<Row>)
    ensures Renumbered(EnsureBody(Renumbered(EnsureBody(body)))) == Renumbered(EnsureBody(body))
  {
    var x := EnsureBody(body);
    forall k | 0 <= k < |x|
      ensures StartsWithBodyMark(Renumbered(x)[k])
    {
      RenumberedAt(x, k);
    }
    assert EnsureBody(Renumbered(x)) == Renumbered(x);
    RenumberedTwice(x);
  }

  /** The header rows after one pass are left as they are by a second. */
  lemma HeadSettled(head: seq<seq<Cell>>)
    ensures AlignFilterRow(EnsureHead(AlignFilterRow(EnsureHead(head)))) == AlignFilterRow(EnsureHead(head))
  {
    var e := EnsureHead(head);
    var a := AlignFilterRow(e);
    forall idx | 0 <= idx < |head|
      ensures EnsureHeadRow(a[idx], idx) == a[idx]
    {
      EnsureHeadRowTwice(head[idx], idx);
      if idx == 1 {
        assert a[1][0].pin == PinnedBelow;
        assert a[1][0 := a[1][0].(pin := PinnedBelow)] == a[1];
      }
    }
    assert EnsureHead(a) == a;
    if |head| >= 2 {
      assert AlignFilterRow(a)[1] == a[1];
    }
  }

  /** Labelling keeps which rows take a number. */
  lemma {:induction false} CountedRenumbered(rows: seq<Row>)
    ensures Counted(Renumbered(rows)) == Counted(rows)
  {
    if rows != [] {
      var n := |rows| - 1;
      CountedRenumbered(rows[..n]);
      assert Renumbered(rows)[..n] == Renumbered(rows[..n]);
    }
  }

  /** Renumbering renumbered rows changes nothing. */
  lemma {:induction false} RenumberedTwice(rows: seq<Row>)
    ensures Renumbered(Renumbered(rows)) == Renumbered(rows)
  {
    if rows != [] {
      var n := |rows| - 1;
      var r := Renumbered(rows);
      RenumberedTwice(rows[..n]);
      assert r[..n] == Renumbered(rows[..n]);
      CountedRenumbered(rows[..n]);
      LabelTwice(rows[n], Counted(rows[..n]) + 1);
    }
  }

  lemma LabelTwice(row: Row, num: nat)
    ensures Label(Label(row, num), num) == Label(row, num)
  {
    if StartsWithBodyMark(row) {
      var r := Label(row, num);
      assert r.cells[0 := r.cells[0].(text := r.cells[0].text)] == r.cells;
    }
  }
}
