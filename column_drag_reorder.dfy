/**
 * Column reordering by dragging a header and dropping it on the left or the
 * right half of another header of the first header row. The dragged column
 * is put before the target, or after it, in every row that has both
 * indices; the row-number header takes no part.
 */
module ColumnDragReorder {
  import opened Wrappers
  import SeqOps
  import D = DomChildren
  import TR = TableRows

  type Cell = TR.Cell

  // ------------------------------------------------------------- moving a column

  /**
   * Where the dragged cell ends up: at the target when it moves left and is
   * dropped on the target's left half, or moves right and is dropped on the
   * right half; one short of the target when it moves right onto the left
   * half; one past it when it moves left onto the right half; and where it
   * was when it is dropped on its own column.
   */
  function LandsAt(from: nat, to: nat, insertBefore: bool): (p: nat)
    ensures from <= to ==> from <= p <= to
    ensures to <= from ==> to <= p <= from
  {
    if from == to then from
    else if insertBefore && from > to then to
    else if !insertBefore && from < to then to
    else if insertBefore && from < to then to - 1
    else to + 1
  }

  /** The table after the move: every row with both indices has its cell moved to the landing place. */
  function Shifted(rows: seq<seq<Cell>>, from: nat, to: nat, insertBefore: bool): (r: seq<seq<Cell>>)
    ensures |r| == |rows|
  {
    seq(|rows|, k requires 0 <= k < |rows| =>
      if TR.Reaches(rows[k], from, to) then SeqOps.MoveTo(rows[k], from, LandsAt(from, to, insertBefore))
      else rows[k])
  }

  /**
   * `moveTableColumn` on one row: the dragged cell goes in before the target
   * or before the target's next sibling (appended when there is none), by
   * the four cases of the drop; dropped on its own column it stays.
   */
  method MoveInRow(row: seq<Cell>, from: nat, to: nat, insertBefore: bool) returns (r: seq<Cell>)
    requires SeqOps.Distinct(row)
    ensures r == if TR.Reaches(row, from, to) then SeqOps.MoveTo(row, from, LandsAt(from, to, insertBefore)) else row
  {
    if !(from < |row| && to < |row|) {
      return row;
    }
    var cellToMove, targetCell := row[from], row[to];
    if insertBefore && from > to {
      BeforeTarget(row, from, to);
      r := D.InsertBefore(row, cellToMove, Some(targetCell));
    } else if !insertBefore && from < to {
      AfterTarget(row, from, to);
      r := D.InsertBefore(row, cellToMove, D.NextSibling(row, targetCell));
    } else if insertBefore && from < to {
      BeforeTarget(row, from, to);
      r := D.InsertBefore(row, cellToMove, Some(targetCell));
    } else if !insertBefore && from > to {
      AfterTarget(row, from, to);
      r := D.InsertBefore(row, cellToMove, D.NextSibling(row, targetCell));
    } else {
      SeqOps.MoveToSame(row, from);
      r := row;
    }
  }

  /** `insertBefore(cell, target)`: the cell lands at the target's index, one less when it came from the left. */
  lemma BeforeTarget(row: seq<Cell>, from: nat, to: nat)
    requires SeqOps.Distinct(row) && from < |row| && to < |row|
    ensures D.InsertBefore(row, row[from], Some(row[to])) == SeqOps.MoveTo(row, from, if to <= from then to else to - 1)
  {
    assert D.At(row, to) == Some(row[to]);
    D.InsertBeforeIndex(row, from, to);
  }

  /** `insertBefore(cell, target.nextSibling)`: the cell lands just after the target. */
  lemma AfterTarget(row: seq<Cell>, from: nat, to: nat)
    requires SeqOps.Distinct(row) && from < |row| && to < |row|
    ensures row[to] in row
    ensures D.InsertBefore(row, row[from], D.NextSibling(row, row[to])) == SeqOps.MoveTo(row, from, if to + 1 <= from then to + 1 else to)
  {
    D.NextSiblingAt(row, to);
    D.InsertBeforeIndex(row, from, to + 1);
  }

  /** The first k + 1 shifted rows are the first k followed by row k shifted. */
  lemma ShiftedSnoc(rows: seq<seq<Cell>>, from: nat, to: nat, insertBefore: bool, k: nat, row: seq<Cell>)
    requires k < |rows|
    requires row == if TR.Reaches(rows[k], from, to) then SeqOps.MoveTo(rows[k], from, LandsAt(from, to, insertBefore)) else rows[k]
    ensures Shifted(rows, from, to, insertBefore)[..k] + [row] == Shifted(rows, from, to, insertBefore)[..k + 1]
  {
  }

  /**
   * `moveTableColumn` over every row, rows found in document order. With no
   * drag in progress the dragged index is -1: the first row long enough for
   * the target has no cell at -1, and `insertBefore` of `undefined` throws a
   * TypeError there, before any row has changed (`None`).
   */
  method MoveTableColumn(rows: seq<seq<Cell>>, from: int, to: nat, insertBefore: bool) returns (r: Option<seq<seq<Cell>>>)
    requires TR.AllDistinct(rows)
    ensures from >= 0 ==> r == Some(Shifted(rows, from, to, insertBefore))
    ensures from < 0 ==> (r.None? <==> exists k :: 0 <= k < |rows| && to < |rows[k]|)
    ensures from < 0 && r.Some? ==> r.value == rows
  {
    var done: seq<seq<Cell>> := [];
    var k := 0;
    while k < |rows|
      invariant 0 <= k <= |rows|
      invariant from >= 0 ==> done == Shifted(rows, from, to, insertBefore)[..k]
      invariant from < 0 ==> done == rows[..k] && forall j :: 0 <= j < k ==> to >= |rows[j]|
    {
      var row := rows[k];
      if from < |row| && to < |row| {
        if from < 0 {
          return None;
        }
      }
      if from >= 0 {
        row := MoveInRow(rows[k], from, to, insertBefore);
        ShiftedSnoc(rows, from, to, insertBefore, k, row);
      }
      done := done + [row];
      k := k + 1;
    }
    assert rows[..k] == rows;
    if from >= 0 {
      assert Shifted(rows, from, to, insertBefore)[..k] == Shifted(rows, from, to, insertBefore);
    }
    r := Some(done);
  }

  // ------------------------------------------------------------- what a move does to the table

  /** A move is one permutation of the positions, applied alike to every row that has both indices. */
  lemma ShiftedSamePermutation(rows: seq<seq<Cell>>, from: nat, to: nat, insertBefore: bool, k: nat, p: nat)
    requires k < |rows| && TR.Reaches(rows[k], from, to) && p < |rows[k]|
    ensures TR.MoveSource(from, LandsAt(from, to, insertBefore), p) < |rows[k]|
    ensures Shifted(rows, from, to, insertBefore)[k][p] == rows[k][TR.MoveSource(from, LandsAt(from, to, insertBefore), p)]
    ensures multiset(Shifted(rows, from, to, insertBefore)[k]) == multiset(rows[k])
  {
    SeqOps.MoveToAt(rows[k], from, LandsAt(from, to, insertBefore), p);
  }

  /** Dropping a header on its own column changes nothing, whichever half it lands on. */
  lemma {:induction false} SameColumnUnchanged(rows: seq<seq<Cell>>, i: nat, insertBefore: bool)
    ensures Shifted(rows, i, i, insertBefore) == rows
  {
    forall k | 0 <= k < |rows| && TR.Reaches(rows[k], i, i)
      ensures Shifted(rows, i, i, insertBefore)[k] == rows[k]
    {
      SeqOps.MoveToSame(rows[k], i);
    }
  }

  /** Every row's cells stay distinct. */
  lemma ShiftedDistinct(rows: seq<seq<Cell>>, from: nat, to: nat, insertBefore: bool)
    requires TR.AllDistinct(rows)
    ensures TR.AllDistinct(Shifted(rows, from, to, insertBefore))
  {
    forall k | 0 <= k < |rows| && TR.Reaches(rows[k], from, to)
      ensures SeqOps.Distinct(Shifted(rows, from, to, insertBefore)[k])
    {
      TR.MoveToDistinct(rows[k], from, LandsAt(from, to, insertBefore));
    }
  }

  /** Every row has n cells: the shape of a rendered table. */
  predicate Rectangular(rows: seq<seq<Cell>>, n: nat) {
    forall k :: 0 <= k < |rows| ==> |rows[k]| == n
  }

  /**
   * In a rectangular table, dragging the moved header back onto the column
   * it came from, on the half facing that column, restores the table.
   */
  lemma {:induction false} DragBackRestores(rows: seq<seq<Cell>>, n: nat, from: nat, to: nat, insertBefore: bool)
    requires Rectangular(rows, n) && from < n && to < n
    ensures var p := LandsAt(from, to, insertBefore);
      Shifted(Shifted(rows, from, to, insertBefore), p, from, p > from) == rows
  {
    var p := LandsAt(from, to, insertBefore);
    assert LandsAt(p, from, p > from) == from;
    var s := Shifted(rows, from, to, insertBefore);
    forall k | 0 <= k < |rows|
      ensures Shifted(s, p, from, p > from)[k] == rows[k]
    {
      SeqOps.MoveToInverse(rows[k], from, p);
    }
  }

  // ------------------------------------------------------------- the drag state

  /**
   * The table as the drag code sees it: its rows (the first of them the
   * header row when the table has a head), the cells carrying the
   * row-number class, the headers found when the handlers were set up, and
   * the dragged header with its index (null and -1 when none).
   */
  class ColumnDrag {
    var rows: seq<seq<Cell>>
    const hasHead: bool
    const rowNum: set<Cell>
    var headers: seq<Cell>
    var dragged: Option<Cell>
    var draggedIndex: int

    /** The headers are the first header row; a dragged header is one of them with its own index, never the row-number one. */
    predicate Valid()
      reads this`rows, this`headers, this`dragged, this`draggedIndex
    {
      TR.AllDistinct(rows) && (hasHead ==> |rows| > 0) &&
      headers == (if hasHead then rows[0] else []) &&
      (dragged.None? <==> draggedIndex == -1) &&
      (dragged.Some? ==> 0 <= draggedIndex < |headers| && headers[draggedIndex] == dragged.value && dragged.value !in rowNum)
    }

    /** A header that got the drag handlers: every one but the row-number header. */
    predicate Draggable(index: nat)
      reads this`headers
    {
      index < |headers| && headers[index] !in rowNum
    }

    /** `initColumnDragReorder` on a table that is present. */
    constructor (rows0: seq<seq<Cell>>, hasHead0: bool, rowNum0: set<Cell>)
      requires TR.AllDistinct(rows0) && (hasHead0 ==> |rows0| > 0)
      ensures Valid() && rows == rows0 && hasHead == hasHead0 && rowNum == rowNum0
      ensures dragged == None && forall i :: 0 <= i < |headers| ==> (Draggable(i) <==> headers[i] !in rowNum0)
    {
      rows, hasHead, rowNum := rows0, hasHead0, rowNum0;
      headers := if hasHead0 then rows0[0] else [];
      dragged, draggedIndex := None, -1;
    }

    /** `dragstart` on header `index`: the row-number header has no handler. */
    method DragStart(index: nat)
      requires Valid() && index < |headers|
      modifies this`dragged, this`draggedIndex
      ensures Valid()
      ensures !Draggable(index) ==> dragged == old(dragged) && draggedIndex == old(draggedIndex)
      ensures Draggable(index) ==> dragged == Some(headers[index]) && draggedIndex == index
    {
      if headers[index] !in rowNum {
        dragged, draggedIndex := Some(headers[index]), index;
      }
    }

    /** `dragend` on header `index`: the drag is over. */
    method DragEnd(index: nat)
      requires Valid() && index < |headers|
      modifies this`dragged, this`draggedIndex
      ensures Valid()
      ensures !Draggable(index) ==> dragged == old(dragged) && draggedIndex == old(draggedIndex)
      ensures Draggable(index) ==> dragged == None && draggedIndex == -1
    {
      if headers[index] !in rowNum {
        dragged, draggedIndex := None, -1;
      }
    }

    /**
     * `drop` on header `index`, on its left half when `insertBefore`:
     * ignored on the row-number header (no handler) and on the dragged
     * header itself; with no drag in progress the move throws and nothing
     * changes; otherwise the column moves and the handlers are set up
     * again on the new header row.
     */
    method Drop(index: nat, insertBefore: bool) returns (thrown: bool)
      requires Valid() && index < |headers|
      modifies this`rows, this`headers, this`dragged, this`draggedIndex
      ensures Valid()
      ensures !Draggable(index) || old(dragged) == Some(old(headers)[index]) ==>
        !thrown && rows == old(rows) && headers == old(headers) && dragged == old(dragged) && draggedIndex == old(draggedIndex)
      ensures Draggable(index) && old(dragged).None? ==>
        thrown && rows == old(rows) && headers == old(headers) && dragged == None && draggedIndex == -1
      ensures old(Draggable(index)) && old(dragged).Some? && old(dragged) != Some(old(headers)[index]) ==>
        !thrown && dragged == None && draggedIndex == -1 &&
        rows == Shifted(old(rows), old(draggedIndex), index, insertBefore) &&
        rows[0][LandsAt(old(draggedIndex), index, insertBefore)] == old(dragged).value
    {
      thrown := false;
      if headers[index] in rowNum || dragged == Some(headers[index]) {
        return;
      }
      assert hasHead && index < |rows[0]|;
      var r := MoveTableColumn(rows, draggedIndex, index, insertBefore);
      if r.None? {
        thrown := true;
        return;
      }
      ShiftedDistinct(rows, draggedIndex, index, insertBefore);
      var moved := r.value;
      rows, headers, dragged, draggedIndex := moved, moved[0], None, -1;
    }
  }
}
