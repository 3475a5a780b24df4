/**
 * Drag one header onto another to exchange the two columns. The exchange
 * marks both positions with fresh placeholder cells, moves each cell before
 * the other's placeholder and then removes the placeholders, in every row
 * that has both indices.
 */
module WorkingColumnDrag {
  import opened Wrappers
  import SeqOps
  import D = DomChildren
  import T = TableRows

  /** A child of a table row: one of the table's cells, or one of the two placeholders a swap creates. */
  datatype Node = Cell(id: nat) | FromPlaceholder | ToPlaceholder

  /** A row of the table: distinct cells and no placeholder. */
  predicate CellRow(row: seq<Node>) {
    SeqOps.Distinct(row) && forall k :: 0 <= k < |row| ==> row[k].Cell?
  }

  predicate CellRows(rows: seq<seq<Node>>) {
    forall k :: 0 <= k < |rows| ==> CellRow(rows[k])
  }

  const FP := FromPlaceholder
  const TP := ToPlaceholder

  /** Neither placeholder is in s. */
  predicate Free(s: seq<Node>) {
    FromPlaceholder !in s && ToPlaceholder !in s
  }

  /** A row of cells cut around two of them, x and y: the facts each placeholder step relies on. */
  predicate Cut(a: seq<Node>, x: Node, b: seq<Node>, y: Node, c: seq<Node>) {
    x.Cell? && y.Cell? && x != y && x !in a && x !in b && y !in a && y !in b && Free(a) && Free(b) && Free(c)
  }

  lemma CutOf(a: seq<Node>, x: Node, b: seq<Node>, y: Node, c: seq<Node>)
    requires CellRow(a + [x] + b + [y] + c)
    ensures Cut(a, x, b, y, c)
  {
    var s := a + [x] + b + [y] + c;
    assert s[|a|] == x && s[|a| + 1 + |b|] == y;
    forall k | 0 <= k < |a|
      ensures a[k] != x && a[k] != y && a[k].Cell?
    {
      assert s[k] == a[k];
    }
    forall k | 0 <= k < |b|
      ensures b[k] != x && b[k] != y && b[k].Cell?
    {
      assert s[|a| + 1 + k] == b[k];
    }
    forall k | 0 <= k < |c|
      ensures c[k].Cell?
    {
      assert s[|a| + |b| + 2 + k] == c[k];
    }
  }

  // The six steps on a row a + [x] + b + [y] + c, x the cell dragged to the
  // right onto y: the placeholders go in before x and before y, x goes before
  // y's placeholder, y before x's, and the placeholders come out again.

  lemma Right1(a: seq<Node>, x: Node, b: seq<Node>, y: Node, c: seq<Node>)
    requires Cut(a, x, b, y, c)
    ensures D.InsertBefore(a + [x] + b + [y] + c, FP, Some(x)) == a + [FP] + [x] + b + [y] + c
  {
    D.InsertNew(a, x, b + [y] + c, FP);
    SeqOps.AppendAssoc(a + [x], b + [y], c); SeqOps.AppendAssoc(a + [x], b, [y]);
    SeqOps.AppendAssoc(a + [FP] + [x], b + [y], c); SeqOps.AppendAssoc(a + [FP] + [x], b, [y]);
  }

  lemma Right2(a: seq<Node>, x: Node, b: seq<Node>, y: Node, c: seq<Node>)
    requires Cut(a, x, b, y, c)
    ensures D.InsertBefore(a + [FP] + [x] + b + [y] + c, TP, Some(y)) == a + [FP] + [x] + b + [TP] + [y] + c
  {
    D.InsertNew(a + [FP] + [x] + b, y, c, TP);
  }

  lemma Right3(a: seq<Node>, x: Node, b: seq<Node>, y: Node, c: seq<Node>)
    requires Cut(a, x, b, y, c)
    ensures D.InsertBefore(a + [FP] + [x] + b + [TP] + [y] + c, x, Some(TP)) == a + [FP] + b + [x] + [TP] + [y] + c
  {
    D.MoveRight(a + [FP], x, b, TP, [y] + c);
    SeqOps.AppendAssoc(a + [FP] + [x] + b + [TP], [y], c);
    SeqOps.AppendAssoc(a + [FP] + b + [x] + [TP], [y], c);
  }

  lemma Right4(a: seq<Node>, x: Node, b: seq<Node>, y: Node, c: seq<Node>)
    requires Cut(a, x, b, y, c)
    ensures D.InsertBefore(a + [FP] + b + [x] + [TP] + [y] + c, y, Some(FP)) == a + [y] + [FP] + b + [x] + [TP] + c
  {
    D.MoveLeft(a, FP, b + [x] + [TP], y, c);
    SeqOps.AppendAssoc(a + [FP], b + [x], [TP]); SeqOps.AppendAssoc(a + [FP], b, [x]);
    SeqOps.AppendAssoc(a + [y] + [FP], b + [x], [TP]); SeqOps.AppendAssoc(a + [y] + [FP], b, [x]);
  }

  lemma Right5(a: seq<Node>, x: Node, b: seq<Node>, y: Node, c: seq<Node>)
    requires Cut(a, x, b, y, c)
    ensures D.RemoveChild(a + [y] + [FP] + b + [x] + [TP] + c, FP) == a + [y] + b + [x] + [TP] + c
  {
    D.RemoveSplit(a + [y], FP, b + [x] + [TP] + c);
    SeqOps.AppendAssoc(a + [y] + [FP], b + [x] + [TP], c); SeqOps.AppendAssoc(a + [y] + [FP], b + [x], [TP]); SeqOps.AppendAssoc(a + [y] + [FP], b, [x]);
    SeqOps.AppendAssoc(a + [y], b + [x] + [TP], c); SeqOps.AppendAssoc(a + [y], b + [x], [TP]); SeqOps.AppendAssoc(a + [y], b, [x]);
  }

  lemma Right6(a: seq<Node>, x: Node, b: seq<Node>, y: Node, c: seq<Node>)
    requires Cut(a, x, b, y, c)
    ensures D.RemoveChild(a + [y] + b + [x] + [TP] + c, TP) == a + [y] + b + [x] + c
  {
    D.RemoveSplit(a + [y] + b + [x], TP, c);
  }

  // The same six steps when the dragged cell x comes after the target y.

  lemma Left1(a: seq<Node>, y: Node, b: seq<Node>, x: Node, c: seq<Node>)
    requires Cut(a, y, b, x, c)
    ensures D.InsertBefore(a + [y] + b + [x] + c, FP, Some(x)) == a + [y] + b + [FP] + [x] + c
  {
    D.InsertNew(a + [y] + b, x, c, FP);
  }

  lemma Left2(a: seq<Node>, y: Node, b: seq<Node>, x: Node, c: seq<Node>)
    requires Cut(a, y, b, x, c)
    ensures D.InsertBefore(a + [y] + b + [FP] + [x] + c, TP, Some(y)) == a + [TP] + [y] + b + [FP] + [x] + c
  {
    D.InsertNew(a, y, b + [FP] + [x] + c, TP);
    SeqOps.AppendAssoc(a + [y], b + [FP] + [x], c); SeqOps.AppendAssoc(a + [y], b + [FP], [x]); SeqOps.AppendAssoc(a + [y], b, [FP]);
    SeqOps.AppendAssoc(a + [TP] + [y], b + [FP] + [x], c); SeqOps.AppendAssoc(a + [TP] + [y], b + [FP], [x]); SeqOps.AppendAssoc(a + [TP] + [y], b, [FP]);
  }

  lemma Left3(a: seq<Node>, y: Node, b: seq<Node>, x: Node, c: seq<Node>)
    requires Cut(a, y, b, x, c)
    ensures D.InsertBefore(a + [TP] + [y] + b + [FP] + [x] + c, x, Some(TP)) == a + [x] + [TP] + [y] + b + [FP] + c
  {
    D.MoveLeft(a, TP, [y] + b + [FP], x, c);
    SeqOps.AppendAssoc(a + [TP], [y] + b, [FP]); SeqOps.AppendAssoc(a + [TP], [y], b);
    SeqOps.AppendAssoc(a + [x] + [TP], [y] + b, [FP]); SeqOps.AppendAssoc(a + [x] + [TP], [y], b);
  }

  lemma Left4(a: seq<Node>, y: Node, b: seq<Node>, x: Node, c: seq<Node>)
    requires Cut(a, y, b, x, c)
    ensures D.InsertBefore(a + [x] + [TP] + [y] + b + [FP] + c, y, Some(FP)) == a + [x] + [TP] + b + [y] + [FP] + c
  {
    D.MoveRight(a + [x] + [TP], y, b, FP, c);
  }

  lemma Left5(a: seq<Node>, y: Node, b: seq<Node>, x: Node, c: seq<Node>)
    requires Cut(a, y, b, x, c)
    ensures D.RemoveChild(a + [x] + [TP] + b + [y] + [FP] + c, FP) == a + [x] + [TP] + b + [y] + c
  {
    D.RemoveSplit(a + [x] + [TP] + b + [y], FP, c);
  }

  lemma Left6(a: seq<Node>, y: Node, b: seq<Node>, x: Node, c: seq<Node>)
    requires Cut(a, y, b, x, c)
    ensures D.RemoveChild(a + [x] + [TP] + b + [y] + c, TP) == a + [x] + b + [y] + c
  {
    D.RemoveSplit(a + [x], TP, b + [y] + c);
    SeqOps.AppendAssoc(a + [x] + [TP], b + [y], c); SeqOps.AppendAssoc(a + [x] + [TP], b, [y]);
    SeqOps.AppendAssoc(a + [x], b + [y], c); SeqOps.AppendAssoc(a + [x], b, [y]);
  }

  // The six steps when a column is swapped with itself: the row ends as it began.

  lemma Same1(a: seq<Node>, x: Node, c: seq<Node>)
    requires x.Cell? && x !in a && Free(a) && Free(c)
    ensures D.InsertBefore(a + [x] + c, FP, Some(x)) == a + [FP] + [x] + c
    ensures D.InsertBefore(a + [FP] + [x] + c, TP, Some(x)) == a + [FP] + [TP] + [x] + c
  {
    D.InsertNew(a, x, c, FP);
    D.InsertNew(a + [FP], x, c, TP);
  }

  lemma Same2(a: seq<Node>, x: Node, c: seq<Node>)
    requires x.Cell? && x !in a && Free(a) && Free(c)
    ensures D.InsertBefore(a + [FP] + [TP] + [x] + c, x, Some(TP)) == a + [FP] + [x] + [TP] + c
  {
    D.MoveLeft(a + [FP], TP, [], x, c);
    assert a + [FP] + [TP] + [] == a + [FP] + [TP];
    assert a + [FP] + [x] + [TP] + [] == a + [FP] + [x] + [TP];
  }

  lemma Same3(a: seq<Node>, x: Node, c: seq<Node>)
    requires x.Cell? && x !in a && Free(a) && Free(c)
    ensures D.InsertBefore(a + [FP] + [x] + [TP] + c, x, Some(FP)) == a + [x] + [FP] + [TP] + c
  {
    D.MoveLeft(a, FP, [], x, [TP] + c);
    assert a + [FP] + [] == a + [FP];
    assert a + [x] + [FP] + [] == a + [x] + [FP];
    SeqOps.AppendAssoc(a + [FP] + [x], [TP], c);
    SeqOps.AppendAssoc(a + [x] + [FP], [TP], c);
  }

  lemma Same4(a: seq<Node>, x: Node, c: seq<Node>)
    requires x.Cell? && x !in a && Free(a) && Free(c)
    ensures D.RemoveChild(a + [x] + [FP] + [TP] + c, FP) == a + [x] + [TP] + c
    ensures D.RemoveChild(a + [x] + [TP] + c, TP) == a + [x] + c
  {
    D.RemoveSplit(a + [x], FP, [TP] + c);
    SeqOps.AppendAssoc(a + [x] + [FP], [TP], c);
    SeqOps.AppendAssoc(a + [x], [TP], c);
    D.RemoveSplit(a + [x], TP, c);
  }

  /** A row cut around two positions lo < hi; exchanging the two cut cells is `Swap`. */
  lemma CutRow(row: seq<Node>, lo: nat, hi: nat)
    requires CellRow(row) && lo < hi < |row|
    ensures row == row[..lo] + [row[lo]] + row[lo + 1..hi] + [row[hi]] + row[hi + 1..]
    ensures Cut(row[..lo], row[lo], row[lo + 1..hi], row[hi], row[hi + 1..])
    ensures row[..lo] + [row[hi]] + row[lo + 1..hi] + [row[lo]] + row[hi + 1..] == SeqOps.Swap(row, lo, hi)
  {
    var a, b, c := row[..lo], row[lo + 1..hi], row[hi + 1..];
    assert row == a + [row[lo]] + b + [row[hi]] + c;
    CutOf(a, row[lo], b, row[hi], c);
    var t := a + [row[hi]] + b + [row[lo]] + c;
    var w := SeqOps.Swap(row, lo, hi);
    assert |t| == |w|;
    forall k | 0 <= k < |t|
      ensures t[k] == w[k]
    {
      if k < lo {
        assert t[k] == a[k];
      } else if k == lo {
      } else if k < hi {
        assert t[k] == b[k - lo - 1];
      } else if k == hi {
      } else {
        assert t[k] == c[k - hi - 1];
      }
    }
  }

  /** A row cut around one position. */
  lemma CutAt(row: seq<Node>, i: nat)
    requires CellRow(row) && i < |row|
    ensures row == row[..i] + [row[i]] + row[i + 1..]
    ensures row[i].Cell? && row[i] !in row[..i] && Free(row[..i]) && Free(row[i + 1..])
  {
    var a, c := row[..i], row[i + 1..];
    assert row == a + [row[i]] + c;
    D.DistinctSplit(a, row[i], c);
    forall k | 0 <= k < |a|
      ensures a[k].Cell?
    {
      assert a[k] == row[k];
    }
    forall k | 0 <= k < |c|
      ensures c[k].Cell?
    {
      assert c[k] == row[i + 1 + k];
    }
  }

  /** Swapping keeps a row of distinct cells a row of distinct cells. */
  lemma SwapCellRow(row: seq<Node>, i: nat, j: nat)
    requires CellRow(row) && i < |row| && j < |row|
    ensures CellRow(SeqOps.Swap(row, i, j))
  {
    T.SwapDistinct(row, i, j);
  }

  /**
   * `swapColumns` on one row: a row that lacks either index is left alone;
   * otherwise placeholders mark both cells' places, each cell goes before the
   * other's placeholder and the placeholders are removed, which exchanges
   * the two cells.
   */
  method SwapInRow(row: seq<Node>, from: nat, to: nat) returns (r: seq<Node>)
    requires CellRow(row)
    ensures r == if T.Reaches(row, from, to) then SeqOps.Swap(row, from, to) else row
  {
    if from >= |row| || to >= |row| {
      return row;
    }
    var fromCell, toCell := row[from], row[to];
    if from < to {
      CutRow(row, from, to);
      var a, b, c := row[..from], row[from + 1..to], row[to + 1..];
      Right1(a, fromCell, b, toCell, c);
      Right2(a, fromCell, b, toCell, c);
      Right3(a, fromCell, b, toCell, c);
      Right4(a, fromCell, b, toCell, c);
      Right5(a, fromCell, b, toCell, c);
      Right6(a, fromCell, b, toCell, c);
    } else if to < from {
      CutRow(row, to, from);
      var a, b, c := row[..to], row[to + 1..from], row[from + 1..];
      Left1(a, toCell, b, fromCell, c);
      Left2(a, toCell, b, fromCell, c);
      Left3(a, toCell, b, fromCell, c);
      Left4(a, toCell, b, fromCell, c);
      Left5(a, toCell, b, fromCell, c);
      Left6(a, toCell, b, fromCell, c);
      SeqOps.SwapSymmetric(row, to, from);
    } else {
      CutAt(row, from);
      var a, c := row[..from], row[from + 1..];
      Same1(a, fromCell, c);
      Same2(a, fromCell, c);
      Same3(a, fromCell, c);
      Same4(a, fromCell, c);
      SeqOps.SwapInvolution(row, from, to);
    }
    r := D.InsertBefore(row, FP, Some(fromCell));
    r := D.InsertBefore(r, TP, Some(toCell));
    r := D.InsertBefore(r, fromCell, Some(TP));
    r := D.InsertBefore(r, toCell, Some(FP));
    r := D.RemoveChild(r, FP);
    r := D.RemoveChild(r, TP);
  }

  /** `swapColumns`: every row of the table, header and body, exchanges the two cells. */
  method SwapColumns(rows: seq<seq<Node>>, from: nat, to: nat) returns (r: seq<seq<Node>>)
    requires CellRows(rows)
    ensures r == T.Swapped(rows, from, to)
  {
    r := [];
    var k := 0;
    while k < |rows|
      invariant 0 <= k <= |rows|
      invariant r == T.Swapped(rows, from, to)[..k]
    {
      var row := SwapInRow(rows[k], from, to);
      T.SwappedSnoc(rows, from, to, k, row);
      r := r + [row];
      k := k + 1;
    }
    T.SwappedAll(rows, from, to);
  }

  /** Swapping keeps every row a row of distinct cells. */
  lemma SwappedCellRows(rows: seq<seq<Node>>, i: nat, j: nat)
    requires CellRows(rows)
    ensures CellRows(T.Swapped(rows, i, j))
  {
    forall k | 0 <= k < |rows| && T.Reaches(rows[k], i, j)
      ensures CellRow(T.Swapped(rows, i, j)[k])
    {
      SwapCellRow(rows[k], i, j);
    }
  }

  /**
   * The drag state of `setupColumnDragging`: the table's rows and the index
   * of the header being dragged, if any.
   */
  class ColumnDrag {
    var rows: seq<seq<Node>>
    var dragged: Option<nat>

    predicate Valid()
      reads this
    {
      CellRows(rows)
    }

    constructor (rows0: seq<seq<Node>>)
      requires CellRows(rows0)
      ensures Valid() && rows == rows0 && dragged == None
    {
      rows := rows0;
      dragged := None;
    }

    /** `dragstart` on the header at `index`. */
    method DragStart(index: nat)
      modifies this
      ensures rows == old(rows) && dragged == Some(index)
    {
      dragged := Some(index);
    }

    /** `dragend`: nothing is being dragged any more. */
    method DragEnd()
      modifies this
      ensures rows == old(rows) && dragged == None
    {
      dragged := None;
    }

    /**
     * `drop` on the header at `index`: ignored when nothing is dragged or the
     * header is dropped onto itself; otherwise the two columns are exchanged
     * in every row and the drag is over.
     */
    method Drop(index: nat)
      requires Valid()
      modifies this
      ensures Valid()
      ensures old(dragged).None? || old(dragged) == Some(index) ==> rows == old(rows) && dragged == old(dragged)
      ensures old(dragged).Some? && old(dragged) != Some(index) ==>
        rows == T.Swapped(old(rows), old(dragged).value, index) && dragged == None
    {
      if dragged.None? || dragged.value == index {
        return;
      }
      var from := dragged.value;
      SwappedCellRows(rows, from, index);
      rows := SwapColumns(rows, from, index);
      dragged := None;
    }
  }

  /** Dropping column j back onto i right after dropping i onto j restores the table. */
  lemma DropTwiceRestores(rows: seq<seq<Node>>, i: nat, j: nat)
    ensures T.Swapped(T.Swapped(rows, i, j), j, i) == rows
  {
    forall k | 0 <= k < |rows| && T.Reaches(rows[k], i, j)
      ensures T.Swapped(T.Swapped(rows, i, j), j, i)[k] == rows[k]
    {
      SeqOps.SwapSymmetric(SeqOps.Swap(rows[k], i, j), j, i);
      SeqOps.SwapInvolution(rows[k], i, j);
    }
  }
}
