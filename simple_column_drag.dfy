/**
 * Column reordering by dragging one header onto another, and the
 * re-application of a saved column order to a freshly drawn table: every
 * row is cleared and refilled, first with the cells the saved names find,
 * then with the cells no saved name found.
 */
module SimpleColumnDrag {
  import opened Wrappers
  import SeqOps
  import D = DomChildren
  import TR = TableRows
  import JsMap
  import JsObject
  import JsText

  type Cell = TR.Cell

  /** `cellMap`: names to cells, in the order the names were first met. */
  type CellMap = JsMap.OrderedMap<string, Cell>

  // ------------------------------------------------------------- moving a column

  /**
   * `moveColumn` on one row: the dragged cell is removed, then put back after
   * the target cell when moving right (appended when the target is last) and
   * before it when moving left; it ends at `to`. Rows too short for either
   * index are skipped.
   */
  method MoveInRow(row: seq<Cell>, from: nat, to: nat) returns (r: seq<Cell>)
    requires SeqOps.Distinct(row) && from != to
    ensures r == if TR.Reaches(row, from, to) then SeqOps.MoveTo(row, from, to) else row
  {
    if from >= |row| || to >= |row| {
      return row;
    }
    var draggedCell, targetCell := row[from], row[to];
    D.IndexOfDistinct(row, from);
    ghost var removed := SeqOps.RemoveAt(row, from);
    r := D.RemoveChild(row, draggedCell);
    assert r == removed;
    if from < to {
      MovedRight(row, from, to);
      var next := D.NextSibling(r, targetCell);
      if next.Some? {
        r := D.InsertBefore(r, draggedCell, next);
      } else {
        r := D.AppendChild(r, draggedCell);
      }
    } else {
      MovedLeft(row, from, to);
      r := D.InsertBefore(r, draggedCell, Some(targetCell));
    }
  }

  /** Moving right: after the removal the target's next sibling, if any, is where the cell goes back in. */
  lemma MovedRight(row: seq<Cell>, from: nat, to: nat)
    requires SeqOps.Distinct(row) && from < to < |row|
    ensures var t := SeqOps.RemoveAt(row, from);
      row[to] in t &&
      var next := D.NextSibling(t, row[to]);
      (next.Some? ==> next.value in t && D.InsertBefore(t, row[from], next) == SeqOps.MoveTo(row, from, to)) &&
      (next.None? ==> D.AppendChild(t, row[from]) == SeqOps.MoveTo(row, from, to))
  {
    var t := SeqOps.RemoveAt(row, from);
    D.RemovedDistinct(row, from);
    assert row[to] == t[to - 1];
    D.NextSiblingAt(t, to - 1);
    if to < |row| - 1 {
      D.SimpleInsert(row, from, to);
    } else {
      D.SimpleAppend(row, from);
    }
  }

  /** Moving left: the cell goes back in before the target. */
  lemma MovedLeft(row: seq<Cell>, from: nat, to: nat)
    requires SeqOps.Distinct(row) && to < from < |row|
    ensures var t := SeqOps.RemoveAt(row, from);
      row[to] in t && D.InsertBefore(t, row[from], Some(row[to])) == SeqOps.MoveTo(row, from, to)
  {
    var t := SeqOps.RemoveAt(row, from);
    assert row[to] == t[to];
    D.SimpleInsert(row, from, to);
  }

  /** `moveColumn` over every row of the table. */
  method MoveColumn(rows: seq<seq<Cell>>, from: nat, to: nat) returns (r: seq<seq<Cell>>)
    requires TR.AllDistinct(rows) && from != to
    ensures r == TR.Moved(rows, from, to)
  {
    r := [];
    var k := 0;
    while k < |rows|
      invariant 0 <= k <= |rows|
      invariant r == TR.Moved(rows, from, to)[..k]
    {
      var row := MoveInRow(rows[k], from, to);
      TR.MovedSnoc(rows, from, to, k, row);
      r := r + [row];
      k := k + 1;
    }
    TR.MovedAll(rows, from, to);
  }

  // ------------------------------------------------------------- naming the cells of a row

  /**
   * Cell i of a row has a name: the first cell of a header row is named by
   * its own text, every other cell by the i-th header of the first header
   * row, which must exist (reading the text of a missing header throws).
   */
  predicate KeyOk(inHead: bool, hdr: seq<string>, i: nat) {
    (i == 0 && inHead) || i < |hdr|
  }

  /** Every cell of the row has a name. */
  predicate Named(row: seq<Cell>, inHead: bool, hdr: seq<string>) {
    forall i :: 0 <= i < |row| ==> KeyOk(inHead, hdr, i)
  }

  function KeyAt(row: seq<Cell>, inHead: bool, hdr: seq<string>, i: nat): string
    requires i < |row| && KeyOk(inHead, hdr, i)
  {
    if i == 0 && inHead then TR.Name(row[0]) else hdr[i]
  }

  /** The names of the first n cells. */
  function KeysOf(row: seq<Cell>, inHead: bool, hdr: seq<string>, n: nat): (r: seq<string>)
    requires n <= |row| && forall i :: 0 <= i < n ==> KeyOk(inHead, hdr, i)
    ensures |r| == n && forall i :: 0 <= i < n ==> r[i] == KeyAt(row, inHead, hdr, i)
  {
    seq(n, i requires 0 <= i < n => KeyAt(row, inHead, hdr, i))
  }

  /** The map's cells in the order their names were first met. */
  function Values(m: CellMap): (r: seq<Cell>)
    ensures |r| == |m| && forall i :: 0 <= i < |m| ==> r[i] == m[i].1
  {
    JsObject.ValuesOf(m)
  }

  /**
   * `Object.values(cellMap)`: the same cells, listed in the object's own-key
   * order, so the cells under names that are array indices come first.
   */
  function ObjectValues(m: CellMap): (r: seq<Cell>)
    ensures multiset(r) == multiset(Values(m))
  {
    JsObject.OwnOrderValues(m);
    Values(JsObject.OwnOrder(m))
  }

  /** `Object.values` lists the map's cells, each once when they are distinct. */
  lemma ObjectValuesMembers(m: CellMap)
    ensures forall c :: c in ObjectValues(m) <==> c in Values(m)
    ensures SeqOps.Distinct(Values(m)) ==> SeqOps.Distinct(ObjectValues(m))
  {
    var o := ObjectValues(m);
    forall c
      ensures c in o <==> c in Values(m)
    {
      assert c in o <==> c in multiset(o);
      assert c in Values(m) <==> c in multiset(Values(m));
    }
    if SeqOps.Distinct(Values(m)) {
      SeqOps.MultisetDistinct(o, Values(m));
    }
  }

  /** `cellMap` after the naming loop: a name is entered with its cell only when it is not there yet. */
  function FirstCells(keys: seq<string>, cells: seq<Cell>): (m: CellMap)
    requires |keys| == |cells|
    ensures JsMap.DistinctKeys(m) && |m| <= |cells|
  {
    if cells == [] then []
    else
      var n := |cells| - 1;
      var m := FirstCells(keys[..n], cells[..n]);
      if keys[n] in JsMap.Keys(m) then m else m + [(keys[n], cells[n])]
  }

  /** The map's names are exactly the row's names. */
  lemma {:induction false} FirstCellsKeys(keys: seq<string>, cells: seq<Cell>)
    requires |keys| == |cells|
    ensures forall x :: x in JsMap.Keys(FirstCells(keys, cells)) <==> x in keys
  {
    if cells != [] {
      var n := |cells| - 1;
      FirstCellsKeys(keys[..n], cells[..n]);
      assert keys == keys[..n] + [keys[n]];
      var m := FirstCells(keys[..n], cells[..n]);
      if keys[n] !in JsMap.Keys(m) {
        assert JsMap.Keys(m + [(keys[n], cells[n])]) == JsMap.Keys(m) + [keys[n]];
      }
    }
  }

  /** The map's cells come from the row, and from distinct cells come distinct entries. */
  lemma {:induction false} FirstCellsFrom(keys: seq<string>, cells: seq<Cell>)
    requires |keys| == |cells|
    ensures forall i :: 0 <= i < |FirstCells(keys, cells)| ==> FirstCells(keys, cells)[i].1 in cells
    ensures SeqOps.Distinct(cells) ==> SeqOps.Distinct(Values(FirstCells(keys, cells)))
  {
    if cells != [] {
      var n := |cells| - 1;
      FirstCellsFrom(keys[..n], cells[..n]);
      var m := FirstCells(keys[..n], cells[..n]);
      assert cells == cells[..n] + [cells[n]];
      if SeqOps.Distinct(cells) {
        assert SeqOps.Distinct(cells[..n]);
        assert cells[n] !in cells[..n];
        assert forall i :: 0 <= i < |m| ==> m[i].1 in cells[..n];
      }
    }
  }

  /** With distinct names nothing is dropped: the map holds every cell, in row order. */
  lemma {:induction false} FirstCellsDistinct(keys: seq<string>, cells: seq<Cell>)
    requires |keys| == |cells| && SeqOps.Distinct(keys)
    ensures JsMap.Keys(FirstCells(keys, cells)) == keys && Values(FirstCells(keys, cells)) == cells
  {
    if cells != [] {
      var n := |cells| - 1;
      assert SeqOps.Distinct(keys[..n]);
      FirstCellsDistinct(keys[..n], cells[..n]);
      assert keys[n] !in keys[..n];
      assert keys == keys[..n] + [keys[n]] && cells == cells[..n] + [cells[n]];
      var m := FirstCells(keys[..n], cells[..n]);
      assert JsMap.Keys(m + [(keys[n], cells[n])]) == JsMap.Keys(m) + [keys[n]];
      assert Values(m + [(keys[n], cells[n])]) == Values(m) + [cells[n]];
    }
  }

  /** Each name finds the first cell carrying it. */
  lemma {:induction false} FirstCellsGet(keys: seq<string>, cells: seq<Cell>, j: nat)
    requires |keys| == |cells| && j < |keys|
    ensures SeqOps.IndexOf(keys, keys[j]) >= 0
    ensures JsMap.Get(FirstCells(keys, cells), keys[j]) == Some(cells[SeqOps.IndexOf(keys, keys[j])])
  {
    var n := |cells| - 1;
    if keys[j] in keys[..n] {
      var j' :| 0 <= j' < n && keys[..n][j'] == keys[j];
      FirstCellsGet(keys[..n], cells[..n], j');
      FirstCellsGetEarlier(keys, cells, j, j');
    } else {
      FirstCellsGetLast(keys, cells, j);
    }
  }

  /** The step of FirstCellsGet for a name that an earlier cell already carries. */
  lemma FirstCellsGetEarlier(keys: seq<string>, cells: seq<Cell>, j: nat, j': nat)
    requires |keys| == |cells| && j < |keys| && j' < |keys| - 1 && keys[j'] == keys[j]
    requires SeqOps.IndexOf(keys[..|keys| - 1], keys[j]) >= 0
    requires JsMap.Get(FirstCells(keys[..|keys| - 1], cells[..|keys| - 1]), keys[j]) ==
      Some(cells[..|keys| - 1][SeqOps.IndexOf(keys[..|keys| - 1], keys[j])])
    ensures SeqOps.IndexOf(keys, keys[j]) >= 0
    ensures JsMap.Get(FirstCells(keys, cells), keys[j]) == Some(cells[SeqOps.IndexOf(keys, keys[j])])
  {
    var n := |cells| - 1;
    var m := FirstCells(keys[..n], cells[..n]);
    var x := keys[j];
    FirstCellsKeys(keys[..n], cells[..n]);
    var i' := SeqOps.IndexOf(keys[..n], x);
    assert keys[..i'] == keys[..n][..i'];
    SeqOps.IndexOfFirst(keys, x, i');
    if keys[n] !in JsMap.Keys(m) {
      JsMap.GetAppend(m, keys[n], cells[n], x);
    }
  }

  /** The step of FirstCellsGet for a name that only the last cell carries. */
  lemma FirstCellsGetLast(keys: seq<string>, cells: seq<Cell>, j: nat)
    requires |keys| == |cells| && j < |keys| && keys[j] !in keys[..|keys| - 1]
    ensures SeqOps.IndexOf(keys, keys[j]) >= 0
    ensures JsMap.Get(FirstCells(keys, cells), keys[j]) == Some(cells[SeqOps.IndexOf(keys, keys[j])])
  {
    var n := |cells| - 1;
    var m := FirstCells(keys[..n], cells[..n]);
    FirstCellsKeys(keys[..n], cells[..n]);
    assert j == n && keys[..n] == keys[..j];
    SeqOps.IndexOfFirst(keys, keys[j], n);
    JsMap.GetAppend(m, keys[n], cells[n], keys[j]);
  }

  // ------------------------------------------------------------- refilling a row

  /** The cells the saved names find, in saved order; a name without a cell adds nothing. */
  function Placed(order: seq<string>, m: CellMap): seq<Cell> {
    if order == [] then []
    else
      var n := |order| - 1;
      var g := JsMap.Get(m, order[n]);
      Placed(order[..n], m) + (if g.Some? then [g.value] else [])
  }

  /** The emptied row after `appendChild` of the cell each saved name finds, in turn. */
  function Arranged(order: seq<string>, m: CellMap): seq<Cell> {
    if order == [] then []
    else
      var n := |order| - 1;
      var g := JsMap.Get(m, order[n]);
      var a := Arranged(order[..n], m);
      if g.Some? then D.AppendChild(a, g.value) else a
  }

  /** Then every cell of the map that the row does not contain, appended in map order. */
  function Completed(a: seq<Cell>, vals: seq<Cell>): seq<Cell> {
    if vals == [] then a
    else
      var n := |vals| - 1;
      var p := Completed(a, vals[..n]);
      if vals[n] in p then p else p + [vals[n]]
  }

  /** One row after `applySavedColumnOrder`, its cells named by `keys`. */
  function RebuiltRow(row: seq<Cell>, keys: seq<string>, order: seq<string>): seq<Cell>
    requires |keys| == |row|
  {
    var m := FirstCells(keys, row);
    Completed(Arranged(order, m), ObjectValues(m))
  }

  /** Not one of the cells of a. */
  function NotIn(a: seq<Cell>): Cell -> bool {
    c => c !in a
  }

  /** Two names that find the same cell are the same name. */
  lemma GetInjective(m: CellMap, x: string, y: string)
    requires JsMap.DistinctKeys(m) && SeqOps.Distinct(Values(m))
    requires JsMap.Get(m, x).Some? && JsMap.Get(m, x) == JsMap.Get(m, y)
    ensures x == y
  {
    var i, j := SeqOps.IndexOf(JsMap.Keys(m), x), SeqOps.IndexOf(JsMap.Keys(m), y);
    assert Values(m)[i] == Values(m)[j];
  }

  /** A found cell is one of the map's cells. */
  lemma GetValue(m: CellMap, x: string)
    requires JsMap.Get(m, x).Some?
    ensures JsMap.Get(m, x).value in Values(m)
  {
    var i := SeqOps.IndexOf(JsMap.Keys(m), x);
    assert Values(m)[i] == JsMap.Get(m, x).value;
  }

  /** Appending never repeats a cell and only brings in the map's cells. */
  lemma {:induction false} ArrangedDistinct(order: seq<string>, m: CellMap)
    ensures SeqOps.Distinct(Arranged(order, m))
    ensures forall c :: c in Arranged(order, m) ==> c in Values(m)
  {
    if order != [] {
      var n := |order| - 1;
      var g := JsMap.Get(m, order[n]);
      var a := Arranged(order[..n], m);
      ArrangedDistinct(order[..n], m);
      if g.Some? {
        GetValue(m, order[n]);
        if g.value in a {
          var f := SeqOps.IndexOf(a, g.value);
          D.RemovedDistinct(a, f);
        }
        var t := D.Detach(a, g.value);
        assert SeqOps.Distinct(t) && g.value !in t && forall c :: c in t ==> c in a;
        assert D.AppendChild(a, g.value) == t + [g.value];
      }
    }
  }

  /** With no saved name repeated, each found cell is new to the row, so appending is adding at the end. */
  lemma {:induction false} ArrangedPlaced(order: seq<string>, m: CellMap)
    requires SeqOps.Distinct(order) && JsMap.DistinctKeys(m) && SeqOps.Distinct(Values(m))
    ensures Arranged(order, m) == Placed(order, m)
    ensures forall c :: c in Placed(order, m) ==> exists x :: x in order && JsMap.Get(m, x) == Some(c)
  {
    if order != [] {
      var n := |order| - 1;
      var g := JsMap.Get(m, order[n]);
      var front := order[..n];
      assert SeqOps.Distinct(front);
      ArrangedPlaced(front, m);
      var p := Placed(front, m);
      assert forall x :: x in front ==> x in order;
      if g.Some? {
        assert order[n] !in front;
        if g.value in p {
          var x :| x in front && JsMap.Get(m, x) == Some(g.value);
          GetInjective(m, order[n], x);
          assert false;
        }
        assert D.Detach(p, g.value) == p;
      }
    }
  }

  /** Completing adds each missing cell once and nothing else. */
  lemma {:induction false} CompletedMembers(a: seq<Cell>, vals: seq<Cell>)
    requires SeqOps.Distinct(a)
    ensures SeqOps.Distinct(Completed(a, vals))
    ensures forall c :: c in Completed(a, vals) <==> c in a || c in vals
  {
    if vals != [] {
      var n := |vals| - 1;
      CompletedMembers(a, vals[..n]);
      assert vals == vals[..n] + [vals[n]];
    }
  }

  /** With distinct cells the completion is the arranged cells followed by the others in map order. */
  lemma {:induction false} CompletedShape(a: seq<Cell>, vals: seq<Cell>)
    requires SeqOps.Distinct(vals)
    ensures Completed(a, vals) == a + SeqOps.Filter(vals, NotIn(a))
  {
    if vals != [] {
      var n := |vals| - 1;
      var front := vals[..n];
      assert SeqOps.Distinct(front);
      CompletedShape(a, front);
      assert vals == front + [vals[n]];
      SeqOps.FilterAppendOne(front, vals[n], NotIn(a));
      assert vals[n] !in front;
      assert vals[n] !in SeqOps.Filter(front, NotIn(a));
    }
  }

  /**
   * The refilled row: the cells the saved names find, in saved order,
   * followed by the map's other cells in `Object.values` order; and it holds
   * exactly the map's cells, each once, whatever the saved order.
   */
  lemma RowRefilled(row: seq<Cell>, keys: seq<string>, order: seq<string>)
    requires |keys| == |row| && SeqOps.Distinct(row)
    ensures SeqOps.Distinct(RebuiltRow(row, keys, order))
    ensures multiset(RebuiltRow(row, keys, order)) == multiset(Values(FirstCells(keys, row)))
    ensures SeqOps.Distinct(order) ==>
      var p := Placed(order, FirstCells(keys, row));
      RebuiltRow(row, keys, order) == p + SeqOps.Filter(ObjectValues(FirstCells(keys, row)), NotIn(p))
  {
    var m := FirstCells(keys, row);
    var vals := ObjectValues(m);
    FirstCellsFrom(keys, row);
    ObjectValuesMembers(m);
    ArrangedDistinct(order, m);
    var a := Arranged(order, m);
    CompletedMembers(a, vals);
    SeqOps.DistinctMultiset(Completed(a, vals), vals);
    CompletedShape(a, vals);
    if SeqOps.Distinct(order) {
      ArrangedPlaced(order, m);
    }
  }

  /**
   * A row whose cells are named Region and 2020, refilled in a saved order
   * that names neither: `Object.values` lists the cell under the array
   * index 2020 first, so the row comes out reversed.
   */
  lemma IndexNamedCellFirst(r: Cell, y: Cell)
    requires r != y
    ensures RebuiltRow([r, y], ["Region", "2020"], ["X"]) == [y, r]
  {
    var m := RegionYearMap(r, y);
    JsObject.IndexKeyFirst(r, y);
    assert ObjectValues(m) == Values([("2020", y), ("Region", r)]) == [y, r];
    UnnamedArranged(r, y);
    CompletedPair(y, r);
  }

  lemma RegionYearMap(r: Cell, y: Cell) returns (m: CellMap)
    ensures m == FirstCells(["Region", "2020"], [r, y]) && m == [("Region", r), ("2020", y)]
  {
    var keys: seq<string> := ["Region", "2020"];
    m := FirstCells(keys, [r, y]);
    assert SeqOps.Distinct(keys);
    FirstCellsDistinct(keys, [r, y]);
    assert m[0].0 == "Region" && m[1].0 == "2020" && m[0].1 == r && m[1].1 == y;
  }

  /** A saved order whose one name is not in the map places nothing. */
  lemma UnnamedArranged(a: Cell, b: Cell)
    ensures Arranged(["X"], [("Region", a), ("2020", b)]) == []
  {
    var m: CellMap := [("Region", a), ("2020", b)];
    assert JsMap.Keys(m) == ["Region", "2020"];
    assert JsMap.Get(m, "X").None?;
    assert ["X"][..0] == [];
  }

  /** Completing nothing with two distinct cells gives those two. */
  lemma CompletedPair(c: Cell, d: Cell)
    requires c != d
    ensures Completed([], [c, d]) == [c, d]
  {
    assert [c, d][..1] == [c] && [c][..0] == [];
    assert Completed([], [c]) == [c];
  }

  /**
   * With distinct names in a row no cell is lost: the row is only
   * rearranged, the cells no saved name finds following in `Object.values`
   * order of the row's own cells.
   */
  lemma RowPermuted(row: seq<Cell>, keys: seq<string>, order: seq<string>)
    requires |keys| == |row| && SeqOps.Distinct(row) && SeqOps.Distinct(keys)
    ensures multiset(RebuiltRow(row, keys, order)) == multiset(row)
    ensures Values(FirstCells(keys, row)) == row
    ensures SeqOps.Distinct(order) ==>
      var p := Placed(order, FirstCells(keys, row));
      RebuiltRow(row, keys, order) == p + SeqOps.Filter(ObjectValues(FirstCells(keys, row)), NotIn(p))
  {
    RowRefilled(row, keys, order);
    FirstCellsDistinct(keys, row);
  }

  /** When every saved name finds a cell, the placed cells are exactly those, one per name. */
  lemma {:induction false} PlacedAll(order: seq<string>, m: CellMap)
    requires forall x :: x in order ==> JsMap.Get(m, x).Some?
    ensures |Placed(order, m)| == |order|
    ensures forall k :: 0 <= k < |order| ==> Placed(order, m)[k] == JsMap.Get(m, order[k]).value
  {
    if order != [] {
      var n := |order| - 1;
      var front := order[..n];
      assert forall x :: x in front ==> x in order;
      PlacedAll(front, m);
      assert order[n] in order;
      assert Placed(order, m) == Placed(front, m) + [JsMap.Get(m, order[n]).value];
      forall k | 0 <= k < n
        ensures Placed(order, m)[k] == JsMap.Get(m, order[k]).value
      {
        assert order[k] == front[k];
      }
    }
  }

  /** With distinct names, each name of the row finds the cell under it. */
  lemma FoundUnder(row: seq<Cell>, keys: seq<string>, j: nat)
    requires |keys| == |row| && SeqOps.Distinct(keys) && j < |keys|
    ensures SeqOps.IndexOf(keys, keys[j]) == j && JsMap.Get(FirstCells(keys, row), keys[j]) == Some(row[j])
  {
    D.IndexOfDistinct(keys, j);
    FirstCellsGet(keys, row, j);
  }

  /** A rearrangement has the same length and the same members. */
  lemma SameNames(order: seq<string>, keys: seq<string>)
    requires multiset(order) == multiset(keys)
    ensures |order| == |keys| && forall x :: x in order <==> x in keys
  {
    assert |order| == |multiset(order)| == |multiset(keys)| == |keys|;
    forall x
      ensures x in order <==> x in keys
    {
      assert x in order <==> x in multiset(order);
      assert x in keys <==> x in multiset(keys);
    }
  }

  /** With a rearrangement of distinct names, the placed cells are the row's cells in saved order. */
  lemma PlacedUnder(row: seq<Cell>, keys: seq<string>, order: seq<string>)
    requires |keys| == |row| && SeqOps.Distinct(keys) && multiset(order) == multiset(keys)
    ensures |order| == |row| && |Placed(order, FirstCells(keys, row))| == |order|
    ensures forall k :: 0 <= k < |order| ==> (order[k] in keys &&
      Placed(order, FirstCells(keys, row))[k] == row[SeqOps.IndexOf(keys, order[k])])
    ensures forall c :: c in row ==> c in Placed(order, FirstCells(keys, row))
  {
    var m := FirstCells(keys, row);
    SameNames(order, keys);
    assert forall x :: x in order ==> JsMap.Get(m, x).Some? by {
      forall x | x in order
        ensures JsMap.Get(m, x).Some?
      {
        FoundUnder(row, keys, SeqOps.IndexOf(keys, x));
      }
    }
    PlacedAll(order, m);
    var p := Placed(order, m);
    forall k | 0 <= k < |order|
      ensures p[k] == row[SeqOps.IndexOf(keys, order[k])]
    {
      FoundUnder(row, keys, SeqOps.IndexOf(keys, order[k]));
    }
    forall c | c in row
      ensures c in p
    {
      var j :| 0 <= j < |row| && row[j] == c;
      FoundUnder(row, keys, j);
      var k :| 0 <= k < |order| && order[k] == keys[j];
      assert p[k] == row[j];
    }
  }

  /**
   * With distinct names in a row and a saved order that is a rearrangement
   * of them, position k of the refilled row holds the cell that stood under
   * the k-th saved name: every such row is permuted by the same positions.
   */
  lemma ColumnsFollowNames(row: seq<Cell>, keys: seq<string>, order: seq<string>)
    requires |keys| == |row| && SeqOps.Distinct(row) && SeqOps.Distinct(keys)
    requires SeqOps.Distinct(order) && multiset(order) == multiset(keys)
    ensures |order| == |row| && |RebuiltRow(row, keys, order)| == |row|
    ensures forall k :: 0 <= k < |order| ==> (order[k] in keys &&
      RebuiltRow(row, keys, order)[k] == row[SeqOps.IndexOf(keys, order[k])])
  {
    PlacedUnder(row, keys, order);
    var p := Placed(order, FirstCells(keys, row));
    forall c | c in row
      ensures !NotIn(p)(c)
    {
    }
    SeqOps.FilterNone(row, NotIn(p));
    RowPermuted(row, keys, order);
  }

  // ------------------------------------------------------------- refilling the table

  /** The names the body cells are read under: the first header row's, if there is one. */
  function HeaderOf(rows: seq<seq<Cell>>, headRows: nat): seq<string> {
    if headRows > 0 && |rows| > 0 then TR.Names(rows[0]) else []
  }

  /**
   * The rows from here on refilled in `order`, the cells named by `hdr`, the
   * first `headLeft` of them header rows; a row with a cell that cannot be
   * named throws, which leaves it and every later row as they were.
   */
  function SavedFrom(rows: seq<seq<Cell>>, headLeft: nat, hdr: seq<string>, order: seq<string>): (r: seq<seq<Cell>>)
    ensures |r| == |rows|
  {
    if rows == [] then []
    else if !Named(rows[0], headLeft > 0, hdr) then rows
    else
      [RebuiltRow(rows[0], KeysOf(rows[0], headLeft > 0, hdr, |rows[0]|), order)]
      + SavedFrom(rows[1..], if headLeft > 0 then headLeft - 1 else 0, hdr, order)
  }

  /** `applySavedColumnOrder` with the header names read once, before any row is refilled. */
  function Saved(rows: seq<seq<Cell>>, headRows: nat, order: seq<string>): (r: seq<seq<Cell>>)
    ensures |r| == |rows|
  {
    SavedFrom(rows, headRows, HeaderOf(rows, headRows), order)
  }

  /**
   * `applySavedColumnOrder` as written: the header that names the cells is
   * looked up again for every row, so every row after the first header row
   * is named by that header as already refilled.
   */
  function SavedAsWritten(rows: seq<seq<Cell>>, headRows: nat, order: seq<string>): (r: seq<seq<Cell>>)
    ensures |r| == |rows|
  {
    if rows == [] then []
    else
      var hdr := HeaderOf(rows, headRows);
      if !Named(rows[0], headRows > 0, hdr) then rows
      else
        var first := RebuiltRow(rows[0], KeysOf(rows[0], headRows > 0, hdr, |rows[0]|), order);
        [first] + SavedFrom(rows[1..], if headRows > 0 then headRows - 1 else 0,
                            HeaderOf([first] + rows[1..], headRows), order)
  }

  /** Refilling keeps every row's cells distinct. */
  lemma {:induction false} SavedFromDistinct(rows: seq<seq<Cell>>, headLeft: nat, hdr: seq<string>, order: seq<string>)
    requires TR.AllDistinct(rows)
    ensures TR.AllDistinct(SavedFrom(rows, headLeft, hdr, order))
  {
    if rows != [] && Named(rows[0], headLeft > 0, hdr) {
      RowRefilled(rows[0], KeysOf(rows[0], headLeft > 0, hdr, |rows[0]|), order);
      assert TR.AllDistinct(rows[1..]) by {
        forall k | 0 <= k < |rows[1..]|
          ensures SeqOps.Distinct(rows[1..][k])
        {
          assert rows[1..][k] == rows[k + 1];
        }
      }
      SavedFromDistinct(rows[1..], if headLeft > 0 then headLeft - 1 else 0, hdr, order);
    }
  }

  /**
   * One row of `applySavedColumnOrder`: the naming loop fills `cellMap`
   * (None when a name lookup throws), the row is emptied child by child, the
   * cells the saved names find are appended, then every map cell the row
   * does not contain.
   */
  method RefillRow(row: seq<Cell>, inHead: bool, hdr: seq<string>, order: seq<string>) returns (r: Option<seq<Cell>>)
    ensures r.None? <==> !Named(row, inHead, hdr)
    ensures r.Some? ==> r.value == RebuiltRow(row, KeysOf(row, inHead, hdr, |row|), order)
  {
    var cellMap := BuildCellMap(row, inHead, hdr);
    if cellMap.None? {
      return None;
    }
    var cells := EmptyRow(row);
    cells := AppendFound(cells, order, cellMap.value);
    cells := AppendRest(cells, ObjectValues(cellMap.value));
    return Some(cells);
  }

  /** The naming loop: `cellMap` keeps the first cell under each name; None when a name lookup throws. */
  method BuildCellMap(row: seq<Cell>, inHead: bool, hdr: seq<string>) returns (m: Option<CellMap>)
    ensures m.None? <==> !Named(row, inHead, hdr)
    ensures m.Some? ==> m.value == FirstCells(KeysOf(row, inHead, hdr, |row|), row)
  {
    var cellMap: CellMap := [];
    var i := 0;
    while i < |row|
      invariant 0 <= i <= |row|
      invariant forall j :: 0 <= j < i ==> KeyOk(inHead, hdr, j)
      invariant cellMap == FirstCells(KeysOf(row, inHead, hdr, i), row[..i])
    {
      if !KeyOk(inHead, hdr, i) {
        return None;
      }
      var columnName := if i == 0 && inHead then TR.Name(row[0]) else hdr[i];
      ghost var keys := KeysOf(row, inHead, hdr, i + 1);
      assert keys[..i] == KeysOf(row, inHead, hdr, i) && keys[i] == columnName;
      assert row[..i + 1][..i] == row[..i];
      if columnName !in JsMap.Keys(cellMap) {
        cellMap := cellMap + [(columnName, row[i])];
      }
      i := i + 1;
    }
    assert row[..i] == row;
    return Some(cellMap);
  }

  /** `while (row.firstChild) row.removeChild(row.firstChild)`. */
  method EmptyRow(row: seq<Cell>) returns (cells: seq<Cell>)
    ensures cells == []
  {
    cells := row;
    while cells != []
      decreases |cells|
    {
      cells := D.RemoveChild(cells, cells[0]);
    }
  }

  /** The cell each saved name finds, appended in turn. */
  method AppendFound(start: seq<Cell>, order: seq<string>, m: CellMap) returns (cells: seq<Cell>)
    requires start == []
    ensures cells == Arranged(order, m)
  {
    cells := start;
    var j := 0;
    while j < |order|
      invariant 0 <= j <= |order|
      invariant cells == Arranged(order[..j], m)
    {
      assert order[..j + 1][..j] == order[..j];
      var found := JsMap.Get(m, order[j]);
      if found.Some? {
        cells := D.AppendChild(cells, found.value);
      }
      j := j + 1;
    }
    assert order[..j] == order;
  }

  /** `Object.values(cellMap)`: each cell the row does not contain, appended. */
  method AppendRest(start: seq<Cell>, values: seq<Cell>) returns (cells: seq<Cell>)
    ensures cells == Completed(start, values)
  {
    cells := start;
    var v := 0;
    while v < |values|
      invariant 0 <= v <= |values|
      invariant cells == Completed(start, values[..v])
    {
      assert values[..v + 1][..v] == values[..v];
      if values[v] !in cells {
        cells := D.AppendChild(cells, values[v]);
      }
      v := v + 1;
    }
    assert values[..v] == values;
  }

  /** How many of the rows from row k on are header rows. */
  function HeadLeft(headRows: nat, k: nat): nat {
    if k < headRows then headRows - k else 0
  }

  /** SavedFrom at row k, the header rows counted from the top. */
  lemma SavedFromAt(rows: seq<seq<Cell>>, k: nat, headRows: nat, hdr: seq<string>, order: seq<string>)
    requires k < |rows|
    ensures !Named(rows[k], k < headRows, hdr) ==> SavedFrom(rows[k..], HeadLeft(headRows, k), hdr, order) == rows[k..]
    ensures Named(rows[k], k < headRows, hdr) ==> (SavedFrom(rows[k..], HeadLeft(headRows, k), hdr, order) ==
      [RebuiltRow(rows[k], KeysOf(rows[k], k < headRows, hdr, |rows[k]|), order)] + SavedFrom(rows[k + 1..], HeadLeft(headRows, k + 1), hdr, order))
  {
    var t := rows[k..];
    assert t[0] == rows[k] && t[1..] == rows[k + 1..];
    assert (HeadLeft(headRows, k) > 0) == (k < headRows);
    assert (if HeadLeft(headRows, k) > 0 then HeadLeft(headRows, k) - 1 else 0) == HeadLeft(headRows, k + 1);
    SavedFromFirst(t, HeadLeft(headRows, k), hdr, order);
  }

  /** SavedFrom on a non-empty list of rows, one step. */
  lemma SavedFromFirst(rows: seq<seq<Cell>>, headLeft: nat, hdr: seq<string>, order: seq<string>)
    requires rows != []
    ensures !Named(rows[0], headLeft > 0, hdr) ==> SavedFrom(rows, headLeft, hdr, order) == rows
    ensures Named(rows[0], headLeft > 0, hdr) ==> (SavedFrom(rows, headLeft, hdr, order) ==
      [RebuiltRow(rows[0], KeysOf(rows[0], headLeft > 0, hdr, |rows[0]|), order)]
      + SavedFrom(rows[1..], if headLeft > 0 then headLeft - 1 else 0, hdr, order))
  {
  }

  /** `applySavedColumnOrder` over every row, in document order, the header names read before the first row. */
  method ApplySavedOrder(rows: seq<seq<Cell>>, headRows: nat, order: seq<string>) returns (r: seq<seq<Cell>>)
    ensures r == Saved(rows, headRows, order)
  {
    var hdr := if headRows > 0 && |rows| > 0 then TR.Names(rows[0]) else [];
    assert hdr == HeaderOf(rows, headRows) && rows[0..] == rows;
    r := [];
    var k := 0;
    while k < |rows|
      invariant 0 <= k <= |rows|
      invariant Saved(rows, headRows, order) == r + SavedFrom(rows[k..], HeadLeft(headRows, k), hdr, order)
    {
      var inHead := k < headRows;
      SavedFromAt(rows, k, headRows, hdr, order);
      var refilled := RefillRow(rows[k], inHead, hdr, order);
      if refilled.None? {
        return r + rows[k..];
      }
      ghost var tail := SavedFrom(rows[k + 1..], HeadLeft(headRows, k + 1), hdr, order);
      assert SavedFrom(rows[k..], HeadLeft(headRows, k), hdr, order) == [refilled.value] + tail;
      SeqOps.AppendAssoc(r, [refilled.value], tail);
      r := r + [refilled.value];
      k := k + 1;
    }
    assert rows[k..] == [];
  }

  /** The first row moves like every other: the dragged header lands at the drop index, and so does its name. */
  lemma MovedHeader(rows: seq<seq<Cell>>, from: nat, to: nat)
    requires |rows| > 0 && from < |rows[0]| && to < |rows[0]|
    ensures |TR.Moved(rows, from, to)[0]| == |rows[0]| && TR.Moved(rows, from, to)[0][to] == rows[0][from]
    ensures TR.Names(TR.Moved(rows, from, to)[0]) == SeqOps.MoveTo(TR.Names(rows[0]), from, to)
  {
    TR.NamesMoved(rows[0], from, to);
  }

  /** What a drop from `from` onto `to` leaves: distinct rows, as many, with the header names moved alike. */
  lemma DropMoves(rows: seq<seq<Cell>>, headRows: nat, from: nat, to: nat)
    requires TR.AllDistinct(rows) && 0 < headRows <= |rows| && from < |rows[0]| && to < |rows[0]|
    ensures TR.AllDistinct(TR.Moved(rows, from, to)) && headRows <= |TR.Moved(rows, from, to)|
    ensures |TR.Moved(rows, from, to)[0]| == |rows[0]| && TR.Moved(rows, from, to)[0][to] == rows[0][from]
    ensures TR.Names(TR.Moved(rows, from, to)[0]) == SeqOps.MoveTo(HeaderOf(rows, headRows), from, to)
  {
    TR.MovedDistinct(rows, from, to);
    MovedHeader(rows, from, to);
  }

  /** The rows a drop from `from` onto `to` leaves. */
  method DroppedRows(rows: seq<seq<Cell>>, headRows: nat, from: nat, to: nat) returns (moved: seq<seq<Cell>>)
    requires TR.AllDistinct(rows) && 0 < headRows <= |rows| && from < |rows[0]| && to < |rows[0]| && from != to
    ensures moved == TR.Moved(rows, from, to) && TR.AllDistinct(moved) && headRows <= |moved|
    ensures |moved[0]| == |rows[0]| && moved[0][to] == rows[0][from]
  {
    DropMoves(rows, headRows, from, to);
    moved := MoveColumn(rows, from, to);
  }

  /** The header names `saveColumnOrder` reads after that drop. */
  method DroppedNames(rows: seq<seq<Cell>>, headRows: nat, from: nat, to: nat) returns (names: seq<string>)
    requires TR.AllDistinct(rows) && 0 < headRows <= |rows| && from < |rows[0]| && to < |rows[0]| && from != to
    ensures names == SeqOps.MoveTo(HeaderOf(rows, headRows), from, to)
  {
    DropMoves(rows, headRows, from, to);
    var moved := MoveColumn(rows, from, to);
    names := TR.Names(moved[0]);
  }

  /**
   * What a drop from `from` onto `to` leaves, whatever the indices: the
   * moved rows, still distinct, and the names `saveColumnOrder` then reads;
   * with both indices inside the first header row, the dragged header at
   * the drop index and the saved names moved alike.
   */
  method DropRows(rows: seq<seq<Cell>>, headRows: nat, from: nat, to: nat) returns (moved: seq<seq<Cell>>, names: seq<string>)
    requires TR.AllDistinct(rows) && 0 < headRows <= |rows| && from != to
    ensures moved == TR.Moved(rows, from, to) && TR.AllDistinct(moved) && headRows <= |moved|
    ensures names == TR.Names(moved[0])
    ensures from < |rows[0]| && to < |rows[0]| ==>
      |moved[0]| == |rows[0]| && moved[0][to] == rows[0][from] &&
      names == SeqOps.MoveTo(HeaderOf(rows, headRows), from, to)
  {
    if from < |rows[0]| && to < |rows[0]| {
      DropMoves(rows, headRows, from, to);
    }
    TR.MovedDistinct(rows, from, to);
    moved := MoveColumn(rows, from, to);
    names := TR.Names(moved[0]);
  }

  // ------------------------------------------------------------- the drag state

  /**
   * The index each header's `ondragstart` and `ondrop` closures captured
   * when `setupDrag` last ran over the first header row: header k of that
   * row is bound to k.
   */
  function Binding(h: seq<Cell>): (b: map<Cell, nat>)
    ensures forall c :: c in b <==> c in h
  {
    if h == [] then map[]
    else
      assert h == h[..|h| - 1] + [h[|h| - 1]];
      Binding(h[..|h| - 1])[h[|h| - 1] := |h| - 1]
  }

  /** With distinct headers, each is bound to its own position. */
  lemma {:induction false} BindingAt(h: seq<Cell>)
    requires SeqOps.Distinct(h)
    ensures forall k :: 0 <= k < |h| ==> Binding(h)[h[k]] == k
  {
    if h != [] {
      var n := |h| - 1;
      var t := h[..n];
      assert SeqOps.Distinct(t) by {
        assert forall i :: 0 <= i < |t| ==> t[i] == h[i];
      }
      BindingAt(t);
      forall k | 0 <= k < |h|
        ensures Binding(h)[h[k]] == k
      {
        if k < n {
          assert t[k] == h[k] && h[k] != h[n];
        }
      }
    }
  }

  /**
   * The table as the drag code sees it: its rows (the first `headRows` of
   * them header rows), the index captured by the dragstart handler that
   * fired last, the saved order, and the index each header's handlers are
   * bound to. Handlers belong to the header nodes, so they move with the
   * headers and keep their index until `setupDrag` runs again.
   */
  class SimpleDrag {
    var rows: seq<seq<Cell>>
    var headRows: nat
    var dragged: Option<nat>
    var stored: Option<seq<string>>
    var bound: map<Cell, nat>

    predicate Valid()
      reads this`rows, this`headRows
    {
      TR.AllDistinct(rows) && headRows <= |rows|
    }

    /** Every header of the first header row is bound to its own position. */
    predicate Current()
      reads this`rows, this`headRows, this`bound
    {
      headRows > 0 && |rows| > 0 &&
      forall k :: 0 <= k < |rows[0]| ==> rows[0][k] in bound && bound[rows[0][k]] == k
    }

    constructor (rows0: seq<seq<Cell>>, headRows0: nat, stored0: Option<seq<string>>)
      requires TR.AllDistinct(rows0) && headRows0 <= |rows0|
      ensures Valid() && rows == rows0 && headRows == headRows0 && stored == stored0
      ensures dragged == None && bound == map[]
    {
      rows, headRows, stored, dragged, bound := rows0, headRows0, stored0, None, map[];
    }

    /** The names `saveColumnOrder` reads. */
    function HeaderNames(): seq<string>
      reads this`rows, this`headRows
    {
      HeaderOf(rows, headRows)
    }

    /**
     * `setupDrag`: every header of the first header row gets handlers bound
     * to its current position; nodes that are no longer headers keep theirs.
     */
    method SetupDrag()
      requires Valid()
      modifies this`bound
      ensures headRows > 0 && |rows| > 0 ==> bound == old(bound) + Binding(rows[0]) && Current()
      ensures !(headRows > 0 && |rows| > 0) ==> bound == old(bound)
    {
      if headRows > 0 && |rows| > 0 {
        BindingAt(rows[0]);
        bound := bound + Binding(rows[0]);
      }
    }

    /**
     * `dragstart` on the header at position `p` of the first header row:
     * its handler records the index it was bound to, which is `p` only
     * while the binding is current. A header without handlers is not
     * draggable and records nothing.
     */
    method DragStart(p: nat)
      requires Valid() && headRows > 0 && p < |rows[0]|
      modifies this`dragged
      ensures rows[0][p] in bound ==> dragged == Some(bound[rows[0][p]])
      ensures rows[0][p] !in bound ==> dragged == old(dragged)
      ensures Current() ==> dragged == Some(p)
    {
      if rows[0][p] in bound {
        dragged := Some(bound[rows[0][p]]);
      }
    }

    /**
     * `drop` on the header at position `p`: its handler reads the index it
     * was bound to. The drop is ignored when that header has no handler,
     * nothing has been dragged, or the two indices agree; otherwise the
     * column at the dragged index moves to the bound index in every row long
     * enough, the drag is over, the new header order is saved and
     * `setupDrag` rebinds every header. While the binding is current the
     * dragged header lands where it was dropped.
     */
    method Drop(p: nat)
      requires Valid() && headRows > 0 && p < |rows[0]|
      modifies this`rows, this`dragged, this`stored, this`bound
      ensures Valid() && headRows == old(headRows)
      ensures (old(rows)[0][p] !in old(bound) || old(dragged).None? ||
               old(dragged) == Some(old(bound)[old(rows)[0][p]])) ==>
        rows == old(rows) && dragged == old(dragged) && stored == old(stored) && bound == old(bound)
      ensures (old(rows)[0][p] in old(bound) && old(dragged).Some? &&
               old(dragged) != Some(old(bound)[old(rows)[0][p]])) ==>
        rows == TR.Moved(old(rows), old(dragged).value, old(bound)[old(rows)[0][p]]) &&
        dragged == None && stored == Some(TR.Names(rows[0])) &&
        bound == old(bound) + Binding(rows[0]) && Current()
      ensures (old(Current()) && old(dragged).Some? && old(dragged).value < |old(rows)[0]| &&
               old(dragged) != Some(p)) ==>
        |rows[0]| == |old(rows)[0]| && rows[0][p] == old(rows)[0][old(dragged).value] &&
        stored == Some(SeqOps.MoveTo(old(HeaderNames()), old(dragged).value, p))
    {
      if rows[0][p] in bound {
        var index := bound[rows[0][p]];
        if dragged.Some? && dragged.value != index {
          MoveDragged(index);
          SetupDrag();
        }
      }
    }

    /** The body of a drop that is not ignored: `moveColumn`, then `saveColumnOrder`. */
    method MoveDragged(to: nat)
      requires Valid() && headRows > 0 && dragged.Some? && dragged.value != to
      modifies this`rows, this`dragged, this`stored
      ensures Valid() && headRows == old(headRows) && dragged == None
      ensures rows == TR.Moved(old(rows), old(dragged).value, to)
      ensures stored == Some(TR.Names(rows[0]))
      ensures old(dragged).value < |old(rows)[0]| && to < |old(rows)[0]| ==>
        |rows[0]| == |old(rows)[0]| && rows[0][to] == old(rows)[0][old(dragged).value] &&
        stored == Some(SeqOps.MoveTo(old(HeaderNames()), old(dragged).value, to))
    {
      var moved, names := DropRows(rows, headRows, dragged.value, to);
      rows, dragged, stored := moved, None, Some(names);
    }

    /** The saved order, if any, applied to the table; the handlers stay on their nodes. */
    method ApplySavedColumnOrder()
      requires Valid()
      modifies this`rows
      ensures Valid()
      ensures stored.None? ==> rows == old(rows)
      ensures stored.Some? ==> rows == Saved(old(rows), headRows, stored.value)
    {
      if stored.Some? {
        SavedFromDistinct(rows, headRows, HeaderOf(rows, headRows), stored.value);
        rows := ApplySavedOrder(rows, headRows, stored.value);
      }
    }

    /**
     * `enableColumnDrag` as written: `setupDrag` binds the headers to their
     * positions, and only then does the saved order move them, handlers and
     * all, so a header's handlers keep the index it had before the move.
     */
    method EnableColumnDrag()
      requires Valid() && headRows > 0 && bound == map[]
      modifies this`rows, this`bound
      ensures Valid() && bound == Binding(old(rows)[0])
      ensures stored.None? ==> rows == old(rows)
      ensures stored.Some? ==> rows == Saved(old(rows), headRows, stored.value)
    {
      SetupDrag();
      assert map[] + Binding(rows[0]) == Binding(rows[0]);
      ApplySavedColumnOrder();
    }

    /** `enableColumnDrag` with the saved order applied before `setupDrag`: every header is bound to its place. */
    method EnableColumnDragCorrected()
      requires Valid() && headRows > 0
      modifies this`rows, this`bound
      ensures Valid() && Current()
      ensures stored.None? ==> rows == old(rows)
      ensures stored.Some? ==> rows == Saved(old(rows), headRows, stored.value)
    {
      ApplySavedColumnOrder();
      SetupDrag();
    }
  }

  /**
   * Headers a, b, c restored to the order c, a, b after `setupDrag` bound
   * them to 0, 1 and 2: dragging c (now first) onto a (now second) moves
   * the column at index 2 to index 0, giving b, c, a; with the binding
   * current the same gesture moves index 0 to index 1 and gives a, c, b.
   */
  lemma StaleDragCounterexample(a: Cell, b: Cell, c: Cell)
    requires a != b && b != c && a != c
    ensures Binding([a, b, c])[c] == 2 && Binding([a, b, c])[a] == 0
    ensures TR.Moved([[c, a, b]], 2, 0) == [[b, c, a]]
    ensures Binding([c, a, b])[c] == 0 && Binding([c, a, b])[a] == 1
    ensures TR.Moved([[c, a, b]], 0, 1) == [[a, c, b]]
  {
    BindingThree(a, b, c);
    BindingThree(c, a, b);
    MovedOneRow([c, a, b], 2, 0);
    MovedOneRow([c, a, b], 0, 1);
    MoveToThreeLeft(c, a, b);
    MoveToThreeRight(c, a, b);
  }

  /** Three distinct headers bound to 0, 1 and 2. */
  lemma BindingThree(x: Cell, y: Cell, z: Cell)
    requires x != y && y != z && x != z
    ensures SeqOps.Distinct([x, y, z])
    ensures Binding([x, y, z])[x] == 0 && Binding([x, y, z])[y] == 1 && Binding([x, y, z])[z] == 2
  {
    var h := [x, y, z];
    BindingAt(h);
    assert h[0] == x && h[1] == y && h[2] == z;
  }

  /** A one-row table reaching both indices moves that row. */
  lemma MovedOneRow(row: seq<Cell>, from: nat, to: nat)
    requires from < |row| && to < |row|
    ensures TR.Moved([row], from, to) == [SeqOps.MoveTo(row, from, to)]
  {
    assert TR.Reaches([row][0], from, to);
  }

  /**
   * The state the stale drag starts from is reachable: headers a, b, c
   * with distinct names, restored to the saved order c, a, b.
   */
  lemma RestoredThree(a: Cell, b: Cell, c: Cell, na: string, nb: string, nc: string)
    requires a != b && b != c && a != c && na != nb && nb != nc && na != nc
    requires TR.Name(a) == na && TR.Name(b) == nb && TR.Name(c) == nc
    ensures Saved([[a, b, c]], 1, [nc, na, nb]) == [[c, a, b]]
  {
    NamesOfThree(a, b, c, na, nb, nc);
    SavedHeaderOnly([a, b, c], [nc, na, nb]);
    RebuiltThree(a, b, c, na, nb, nc);
  }

  /** Three cells under three distinct names, refilled with the last name first. */
  lemma RebuiltThree(a: Cell, b: Cell, c: Cell, na: string, nb: string, nc: string)
    requires a != b && b != c && a != c && na != nb && nb != nc && na != nc
    ensures RebuiltRow([a, b, c], [na, nb, nc], [nc, na, nb]) == [c, a, b]
  {
    var h, keys, order := [a, b, c], [na, nb, nc], [nc, na, nb];
    assert multiset(order) == multiset(keys);
    ColumnsFollowNames(h, keys, order);
    D.IndexOfDistinct(keys, 0);
    D.IndexOfDistinct(keys, 1);
    D.IndexOfDistinct(keys, 2);
    assert order[0] == keys[2] && order[1] == keys[0] && order[2] == keys[1];
    ThreeOf(RebuiltRow(h, keys, order));
  }

  lemma NamesOfThree(a: Cell, b: Cell, c: Cell, na: string, nb: string, nc: string)
    requires TR.Name(a) == na && TR.Name(b) == nb && TR.Name(c) == nc
    ensures TR.Names([a, b, c]) == [na, nb, nc]
  {
    var h := [a, b, c];
    var n := TR.Names(h);
    assert n[0] == TR.Name(h[0]) && n[1] == TR.Name(h[1]) && n[2] == TR.Name(h[2]);
    ThreeOf(n);
  }

  lemma ThreeOf<T>(s: seq<T>)
    requires |s| == 3
    ensures s == [s[0], s[1], s[2]]
  {
  }

  /** A table that is one header row is refilled under its own names. */
  lemma SavedHeaderOnly(h: seq<Cell>, order: seq<string>)
    ensures Saved([h], 1, order) == [RebuiltRow(h, TR.Names(h), order)]
  {
    var rows := [h];
    assert HeaderOf(rows, 1) == TR.Names(h);
    assert Named(h, true, TR.Names(h));
    assert KeysOf(h, true, TR.Names(h), |h|) == TR.Names(h);
    assert rows[1..] == [];
  }

  /** The last of three moved to the front. */
  lemma MoveToThreeLeft<T>(x: T, y: T, z: T)
    ensures SeqOps.MoveTo([x, y, z], 2, 0) == [z, x, y]
  {
    assert SeqOps.RemoveAt([x, y, z], 2) == [x, y];
    assert SeqOps.InsertAt([x, y], 0, z) == [z, x, y];
  }

  /** The first of three moved one place right. */
  lemma MoveToThreeRight<T>(x: T, y: T, z: T)
    ensures SeqOps.MoveTo([x, y, z], 0, 1) == [y, x, z]
  {
    assert SeqOps.RemoveAt([x, y, z], 0) == [y, z];
    assert SeqOps.InsertAt([y, z], 1, x) == [y, x, z];
  }

  // ------------------------------------------------------------- the saved order as written

  /** Two distinct cells under two distinct names, refilled in swapped order. */
  lemma RefilledSwapped(c0: Cell, c1: Cell, k0: string, k1: string)
    requires c0 != c1 && k0 != k1
    ensures RebuiltRow([c0, c1], [k0, k1], [k1, k0]) == [c1, c0]
  {
    assert multiset([k1, k0]) == multiset([k0, k1]);
    ColumnsFollowNames([c0, c1], [k0, k1], [k1, k0]);
    D.IndexOfDistinct([k0, k1], 0);
    D.IndexOfDistinct([k0, k1], 1);
  }

  /** Two distinct cells under two distinct names, refilled in their own order. */
  lemma RefilledSame(c0: Cell, c1: Cell, k0: string, k1: string)
    requires c0 != c1 && k0 != k1
    ensures RebuiltRow([c0, c1], [k0, k1], [k0, k1]) == [c0, c1]
  {
    ColumnsFollowNames([c0, c1], [k0, k1], [k0, k1]);
    D.IndexOfDistinct([k0, k1], 0);
    D.IndexOfDistinct([k0, k1], 1);
  }

  /**
   * Header A, B over a body row x, y, saved order B, A: as written the
   * header row becomes B, A but the body row, named by the already reversed
   * header, stays x, y, so every body cell now stands under the other
   * column's header; with the names read first the body row becomes y, x.
   */
  lemma MisalignedBodyCounterexample()
    ensures var hA, hB, x, y := TR.Cell(1, "A"), TR.Cell(2, "B"), TR.Cell(3, "x"), TR.Cell(4, "y");
      SavedAsWritten([[hA, hB], [x, y]], 1, ["B", "A"]) == [[hB, hA], [x, y]] &&
      Saved([[hA, hB], [x, y]], 1, ["B", "A"]) == [[hB, hA], [y, x]]
  {
    var hA, hB, x, y := TR.Cell(1, "A"), TR.Cell(2, "B"), TR.Cell(3, "x"), TR.Cell(4, "y");
    NameOfLetter(hA, "A");
    NameOfLetter(hB, "B");
    MisalignedBody(hA, hB, x, y, "A", "B");
  }

  /** The same for any two headers with distinct names over any two distinct body cells. */
  lemma MisalignedBody(hA: Cell, hB: Cell, x: Cell, y: Cell, a: string, b: string)
    requires hA != hB && x != y && a != b && TR.Name(hA) == a && TR.Name(hB) == b
    ensures SavedAsWritten([[hA, hB], [x, y]], 1, [b, a]) == [[hB, hA], [x, y]]
    ensures Saved([[hA, hB], [x, y]], 1, [b, a]) == [[hB, hA], [y, x]]
  {
    HeaderPair(hA, hB, a, b);
    RefilledSwapped(hA, hB, a, b);
    RefilledSwapped(x, y, a, b);
    RefilledSame(x, y, b, a);
    AsWrittenPair(hA, hB, x, y, a, b);
    CorrectedPair(hA, hB, x, y, a, b);
  }

  lemma HeaderPair(hA: Cell, hB: Cell, a: string, b: string)
    requires TR.Name(hA) == a && TR.Name(hB) == b
    ensures TR.Names([hA, hB]) == [a, b] && TR.Names([hB, hA]) == [b, a]
  {
    NamesOfPair(hA, hB);
    NamesOfPair(hB, hA);
  }

  lemma NamesOfPair(c: Cell, d: Cell)
    ensures TR.Names([c, d]) == [TR.Name(c), TR.Name(d)]
  {
    var h := [c, d];
    var n := TR.Names(h);
    assert n[0] == TR.Name(h[0]) && n[1] == TR.Name(h[1]);
    PairOfTwo(n);
  }

  /** A sequence of two elements is the pair of them. */
  lemma PairOfTwo<T>(s: seq<T>)
    requires |s| == 2
    ensures s == [s[0], s[1]]
  {
  }

  /** A one-letter header is named by its letter. */
  lemma NameOfLetter(c: Cell, t: string)
    requires c.text == t && |t| == 1 && !JsText.IsSpace(t[0])
    ensures TR.Name(c) == t
  {
    JsText.TrimPlain(t);
  }

  /** The last row alone, named by two header names. */
  lemma LastRow(x: Cell, y: Cell, hdr: seq<string>, order: seq<string>)
    requires |hdr| == 2
    ensures SavedFrom([[x, y]], 0, hdr, order) == [RebuiltRow([x, y], hdr, order)]
  {
    assert Named([x, y], false, hdr);
    assert KeysOf([x, y], false, hdr, 2) == hdr;
    assert [[x, y]][1..] == [];
  }

  /** As written, the rows after the first header row are named by that row as refilled. */
  lemma AsWrittenUnfold(rows: seq<seq<Cell>>, headRows: nat, order: seq<string>)
    requires |rows| > 0 && headRows > 0 && Named(rows[0], true, TR.Names(rows[0]))
    ensures var first := RebuiltRow(rows[0], KeysOf(rows[0], true, TR.Names(rows[0]), |rows[0]|), order);
      SavedAsWritten(rows, headRows, order) == [first] + SavedFrom(rows[1..], headRows - 1, TR.Names(first), order)
  {
    var first := RebuiltRow(rows[0], KeysOf(rows[0], true, TR.Names(rows[0]), |rows[0]|), order);
    assert ([first] + rows[1..])[0] == first;
  }

  /** As written: the body row is named by the header already refilled as b, a. */
  lemma AsWrittenPair(hA: Cell, hB: Cell, x: Cell, y: Cell, a: string, b: string)
    requires TR.Names([hA, hB]) == [a, b] && TR.Names([hB, hA]) == [b, a]
    requires RebuiltRow([hA, hB], [a, b], [b, a]) == [hB, hA]
    requires RebuiltRow([x, y], [b, a], [b, a]) == [x, y]
    ensures SavedAsWritten([[hA, hB], [x, y]], 1, [b, a]) == [[hB, hA], [x, y]]
  {
    AsWrittenPairUnfold(hA, hB, x, y, a, b, [b, a]);
  }

  /** As written, a header row and one body row: the body row is named by the header as refilled. */
  lemma AsWrittenPairUnfold(hA: Cell, hB: Cell, x: Cell, y: Cell, a: string, b: string, order: seq<string>)
    requires TR.Names([hA, hB]) == [a, b]
    requires |TR.Names(RebuiltRow([hA, hB], [a, b], order))| == 2
    ensures SavedAsWritten([[hA, hB], [x, y]], 1, order) ==
      [RebuiltRow([hA, hB], [a, b], order), RebuiltRow([x, y], TR.Names(RebuiltRow([hA, hB], [a, b], order)), order)]
  {
    var rows := [[hA, hB], [x, y]];
    HeadPairKeys(hA, hB, a, b);
    AsWrittenKeyed(rows, 1, order, [a, b]);
    assert rows[1..] == [[x, y]];
    LastRow(x, y, TR.Names(RebuiltRow([hA, hB], [a, b], order)), order);
  }

  /** The same, with the first header row's keys given. */
  lemma AsWrittenKeyed(rows: seq<seq<Cell>>, headRows: nat, order: seq<string>, keys: seq<string>)
    requires |rows| > 0 && headRows > 0 && Named(rows[0], true, TR.Names(rows[0]))
    requires KeysOf(rows[0], true, TR.Names(rows[0]), |rows[0]|) == keys
    ensures SavedAsWritten(rows, headRows, order) ==
      [RebuiltRow(rows[0], keys, order)] + SavedFrom(rows[1..], headRows - 1, TR.Names(RebuiltRow(rows[0], keys, order)), order)
  {
    AsWrittenUnfold(rows, headRows, order);
  }

  /** A header row of two cells named a, b is keyed a, b. */
  lemma HeadPairKeys(hA: Cell, hB: Cell, a: string, b: string)
    requires TR.Names([hA, hB]) == [a, b]
    ensures Named([hA, hB], true, TR.Names([hA, hB]))
    ensures KeysOf([hA, hB], true, TR.Names([hA, hB]), 2) == [a, b]
  {
  }

  /** With the names read first: the body row is named a, b and follows its headers. */
  lemma CorrectedPair(hA: Cell, hB: Cell, x: Cell, y: Cell, a: string, b: string)
    requires TR.Names([hA, hB]) == [a, b]
    requires RebuiltRow([hA, hB], [a, b], [b, a]) == [hB, hA]
    requires RebuiltRow([x, y], [a, b], [b, a]) == [y, x]
    ensures Saved([[hA, hB], [x, y]], 1, [b, a]) == [[hB, hA], [y, x]]
  {
    SavedPair(hA, hB, x, y, a, b, [b, a]);
  }

  /** With the names read first, a header row and one body row are both named by the header. */
  lemma SavedPair(hA: Cell, hB: Cell, x: Cell, y: Cell, a: string, b: string, order: seq<string>)
    requires TR.Names([hA, hB]) == [a, b]
    ensures Saved([[hA, hB], [x, y]], 1, order) ==
      [RebuiltRow([hA, hB], [a, b], order), RebuiltRow([x, y], [a, b], order)]
  {
    var rows := [[hA, hB], [x, y]];
    HeadPairKeys(hA, hB, a, b);
    assert HeaderOf(rows, 1) == TR.Names([hA, hB]);
    assert rows[1..] == [[x, y]];
    LastRow(x, y, [a, b], order);
  }
}
