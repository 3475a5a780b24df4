/**
 * Column reordering through a dialog: the dialog lists the header names,
 * its up and down buttons exchange neighbouring entries, and Apply rebuilds
 * every row from the cells at the header indices of the chosen names and
 * saves the new header order.
 */
module CleanColumnReorder {
  import opened Wrappers
  import SeqOps
  import TR = TableRows

  type Cell = TR.Cell

  // ------------------------------------------------------------- the name-to-index table

  /** The last index holding x, or -1. */
  function LastIndexOf(s: seq<string>, x: string): (r: int)
    ensures -1 <= r < |s|
    ensures r == -1 <==> x !in s
    ensures r >= 0 ==> s[r] == x && forall j :: r < j < |s| ==> s[j] != x
  {
    if s == [] then -1
    else if s[|s| - 1] == x then |s| - 1
    else
      var r := LastIndexOf(s[..|s| - 1], x);
      assert forall y :: y in s[..|s| - 1] ==> y in s;
      assert x in s ==> x in s[..|s| - 1] by {
        if x in s {
          var i :| 0 <= i < |s| && s[i] == x;
          assert s[..|s| - 1][i] == x;
        }
      }
      r
  }

  /** `columnIndexMap`: every header name to the index of its last occurrence. */
  function IndexMap(names: seq<string>): (m: map<string, nat>)
    ensures forall x :: x in m <==> x in names
    ensures forall x :: x in m ==> m[x] < |names| && names[m[x]] == x && forall j :: m[x] < j < |names| ==> names[j] != x
  {
    map x | x in names :: LastIndexOf(names, x) as nat
  }

  lemma IndexMapSnoc(s: seq<string>, x: string)
    ensures IndexMap(s + [x]) == IndexMap(s)[x := |s|]
  {
    var t := s + [x];
    assert t[..|t| - 1] == s;
    forall y | y in IndexMap(s)[x := |s|]
      ensures y in IndexMap(t) && IndexMap(t)[y] == IndexMap(s)[x := |s|][y]
    {
    }
  }

  /** With distinct names the last occurrence is the only one. */
  lemma IndexMapDistinct(names: seq<string>, k: nat)
    requires SeqOps.Distinct(names) && k < |names|
    ensures IndexMap(names)[names[k]] == k
  {
  }

  /** The loop that fills `columnIndexMap`, a later index overwriting an earlier one. */
  method BuildIndexMap(names: seq<string>) returns (m: map<string, nat>)
    ensures m == IndexMap(names)
  {
    m := map[];
    var index := 0;
    while index < |names|
      invariant 0 <= index <= |names|
      invariant m == IndexMap(names[..index])
    {
      IndexMapSnoc(names[..index], names[index]);
      assert names[..index + 1] == names[..index] + [names[index]];
      m := m[names[index] := index];
      index := index + 1;
    }
    assert names[..index] == names;
  }

  // ------------------------------------------------------------- rebuilding a row

  /** The clone a name contributes: the cell at the name's header index, when there is one and the row has it. */
  function Pick(row: seq<Cell>, name: string, m: map<string, nat>): (r: seq<Cell>)
    ensures |r| <= 1
    ensures r != [] <==> name in m && m[name] < |row|
  {
    if name in m && m[name] < |row| then [row[m[name]]] else []
  }

  /** The new cells of a row, in the order of `order`. */
  function Picked(row: seq<Cell>, order: seq<string>, m: map<string, nat>): seq<Cell> {
    if order == [] then []
    else Picked(row, order[..|order| - 1], m) + Pick(row, order[|order| - 1], m)
  }

  /** When every name is found and inside the row, the k-th new cell is the cell at the k-th name's index. */
  lemma {:induction false} PickedAll(row: seq<Cell>, order: seq<string>, m: map<string, nat>)
    requires forall x :: x in order ==> x in m && m[x] < |row|
    ensures |Picked(row, order, m)| == |order|
    ensures forall k :: 0 <= k < |order| ==> Picked(row, order, m)[k] == row[m[order[k]]]
  {
    if order != [] {
      var front := order[..|order| - 1];
      assert forall x :: x in front ==> x in order;
      PickedAll(row, front, m);
      forall k | 0 <= k < |order|
        ensures Picked(row, order, m)[k] == row[m[order[k]]]
      {
        if k < |front| {
          assert order[k] == front[k];
        }
      }
    }
  }

  /** A name that is absent from the header, or whose index the row lacks, contributes nothing. */
  lemma PickedSkips(row: seq<Cell>, order: seq<string>, m: map<string, nat>, name: string)
    requires !(name in m && m[name] < |row|)
    ensures Picked(row, order + [name], m) == Picked(row, order, m)
  {
    assert (order + [name])[..|order|] == order;
  }

  /**
   * `applyColumnOrder` on one row: the clones of the picked cells are
   * collected, the row is emptied child by child, and the clones are
   * appended in order (each clone being a new node).
   */
  method RebuildRow(row: seq<Cell>, order: seq<string>, m: map<string, nat>) returns (r: seq<Cell>)
    ensures r == Picked(row, order, m)
  {
    var newCells := [];
    var i := 0;
    while i < |order|
      invariant 0 <= i <= |order|
      invariant newCells == Picked(row, order[..i], m)
    {
      var columnName := order[i];
      assert order[..i + 1][..i] == order[..i];
      if columnName in m && m[columnName] < |row| {
        newCells := newCells + [row[m[columnName]]];
      }
      i := i + 1;
    }
    assert order[..i] == order;
    r := row;
    while r != []
      decreases |r|
    {
      r := SeqOps.RemoveAt(r, SeqOps.IndexOf(r, r[0]));
    }
    var j := 0;
    while j < |newCells|
      invariant 0 <= j <= |newCells|
      invariant r == newCells[..j]
    {
      r := r + [newCells[j]];
      assert newCells[..j + 1] == newCells[..j] + [newCells[j]];
      j := j + 1;
    }
    assert newCells[..j] == newCells;
  }

  /** Every row rebuilt from the header names `names` and the new order. */
  function Applied(rows: seq<seq<Cell>>, names: seq<string>, order: seq<string>): (r: seq<seq<Cell>>)
    ensures |r| == |rows|
  {
    seq(|rows|, k requires 0 <= k < |rows| => Picked(rows[k], order, IndexMap(names)))
  }

  /** `applyColumnOrder` over every row: the header names are looked up once and each row is rebuilt. */
  method ApplyColumnOrder(rows: seq<seq<Cell>>, names: seq<string>, order: seq<string>) returns (r: seq<seq<Cell>>)
    ensures r == Applied(rows, names, order)
  {
    var m := BuildIndexMap(names);
    r := [];
    var k := 0;
    while k < |rows|
      invariant 0 <= k <= |rows|
      invariant r == Applied(rows, names, order)[..k]
    {
      var row := RebuildRow(rows[k], order, m);
      assert Applied(rows, names, order)[..k + 1] == Applied(rows, names, order)[..k] + [row];
      r := r + [row];
      k := k + 1;
    }
    assert Applied(rows, names, order)[..k] == Applied(rows, names, order);
  }

  // ------------------------------------------------------------- what applying does

  /** Rebuilding the header row in an order made of header names gives headers named in exactly that order. */
  lemma HeaderTakesOrder(h: seq<Cell>, order: seq<string>)
    requires forall x :: x in order ==> x in TR.Names(h)
    ensures TR.Names(Picked(h, order, IndexMap(TR.Names(h)))) == order
  {
    var m := IndexMap(TR.Names(h));
    PickedAll(h, order, m);
  }

  /** Applied to the whole table, the header row takes the new order. */
  lemma AppliedHeader(rows: seq<seq<Cell>>, order: seq<string>)
    requires |rows| > 0 && forall x :: x in order ==> x in TR.Names(rows[0])
    ensures TR.Names(Applied(rows, TR.Names(rows[0]), order)[0]) == order
  {
    HeaderTakesOrder(rows[0], order);
  }

  /** Where the k-th new cell comes from: the header index of the k-th name. */
  function Source(names: seq<string>, order: seq<string>, k: nat): nat
    requires k < |order| && order[k] in names
  {
    IndexMap(names)[order[k]]
  }

  /**
   * With distinct header names and an order that is a permutation of them,
   * every row with one cell per header keeps its length and receives the
   * same permutation: position k takes the cell from Source(k), and no two
   * positions take the same one.
   */
  lemma SamePermutation(row: seq<Cell>, names: seq<string>, order: seq<string>)
    requires SeqOps.Distinct(order) && multiset(order) == multiset(names)
    requires |row| == |names|
    ensures |order| == |row| && |Picked(row, order, IndexMap(names))| == |row|
    ensures forall k :: 0 <= k < |order| ==> order[k] in names && Source(names, order, k) < |row|
    ensures forall k :: 0 <= k < |order| ==> Picked(row, order, IndexMap(names))[k] == row[Source(names, order, k)]
    ensures forall k, l :: 0 <= k < l < |order| ==> Source(names, order, k) != Source(names, order, l)
  {
    SameNames(order, names);
    PickedAll(row, order, IndexMap(names));
    forall k, l | 0 <= k < l < |order|
      ensures Source(names, order, k) != Source(names, order, l)
    {
      assert names[Source(names, order, k)] == order[k] && names[Source(names, order, l)] == order[l];
    }
  }

  /** A rearrangement has the same length and the same members. */
  lemma SameNames(order: seq<string>, names: seq<string>)
    requires multiset(order) == multiset(names)
    ensures |order| == |names| && forall x :: x in order ==> x in names
  {
    assert |order| == |multiset(order)| == |multiset(names)| == |names|;
    forall x | x in order
      ensures x in names
    {
      assert x in multiset(order);
    }
  }

  // ------------------------------------------------------------- the dialog and the table

  /**
   * The table as the dialog sees it: its rows (the first one the header row
   * when `hasHead`), the saved column order, and the open dialog's order.
   */
  class CleanReorder {
    var rows: seq<seq<Cell>>
    var hasHead: bool
    var stored: Option<seq<string>>
    var dialog: Option<seq<string>>

    /** The names of the first header row (none without one). */
    function HeaderNames(): seq<string>
      reads this`rows, this`hasHead
    {
      if hasHead && |rows| > 0 then TR.Names(rows[0]) else []
    }

    /** The dialog's order is always a rearrangement of the header names. */
    predicate Valid()
      reads this
    {
      (hasHead ==> |rows| > 0) && (dialog.Some? ==> multiset(dialog.value) == multiset(HeaderNames()))
    }

    constructor (rows0: seq<seq<Cell>>, hasHead0: bool, stored0: Option<seq<string>>)
      requires hasHead0 ==> |rows0| > 0
      ensures Valid() && rows == rows0 && hasHead == hasHead0 && stored == stored0 && dialog == None
    {
      rows, hasHead, stored, dialog := rows0, hasHead0, stored0, None;
    }

    /** `showColumnReorderDialog`: the dialog opens on the header names in their present order. */
    method ShowDialog()
      requires Valid()
      modifies this
      ensures Valid() && dialog == Some(HeaderNames())
      ensures rows == old(rows) && hasHead == old(hasHead) && stored == old(stored)
    {
      var names := if hasHead && |rows| > 0 then TR.Names(rows[0]) else [];
      dialog := Some(names);
    }

    /** The up arrow of entry `index`; disabled on the first entry. */
    method MoveUp(index: nat)
      requires Valid() && dialog.Some? && index < |dialog.value|
      modifies this`dialog
      ensures Valid() && dialog == Some(Up(old(dialog.value), index))
    {
      ghost var names := HeaderNames();
      var order := Up(dialog.value, index);
      assert multiset(order) == multiset(names);
      dialog := Some(order);
      assert HeaderNames() == names;
    }

    /** The down arrow of entry `index`; disabled on the last entry. */
    method MoveDown(index: nat)
      requires Valid() && dialog.Some? && index < |dialog.value|
      modifies this`dialog
      ensures Valid() && dialog == Some(Down(old(dialog.value), index))
    {
      ghost var names := HeaderNames();
      var order := Down(dialog.value, index);
      assert multiset(order) == multiset(names);
      dialog := Some(order);
      assert HeaderNames() == names;
    }

    /** Cancel, or a click outside the dialog: the dialog closes and the table is untouched. */
    method Cancel()
      modifies this
      ensures dialog == None && rows == old(rows) && hasHead == old(hasHead) && stored == old(stored)
    {
      dialog := None;
    }

    /** `saveColumnOrder`: the header names are stored. */
    method SaveColumnOrder()
      modifies this
      ensures stored == Some(old(HeaderNames()))
      ensures rows == old(rows) && hasHead == old(hasHead) && dialog == old(dialog)
    {
      var names := if hasHead && |rows| > 0 then TR.Names(rows[0]) else [];
      stored := Some(names);
    }

    /** `applyColumnOrder` followed by `saveColumnOrder`. */
    method ApplyAndSave(order: seq<string>)
      requires hasHead ==> |rows| > 0
      modifies this
      ensures rows == Applied(old(rows), old(HeaderNames()), order) && hasHead == old(hasHead)
      ensures stored == Some(HeaderNames()) && dialog == old(dialog)
      ensures hasHead && (forall x :: x in order ==> x in old(HeaderNames())) ==> HeaderNames() == order
    {
      var names := if hasHead && |rows| > 0 then TR.Names(rows[0]) else [];
      var newRows := ApplyColumnOrder(rows, names, order);
      if hasHead && forall x :: x in order ==> x in names {
        AppliedHeader(rows, order);
      }
      var newNames := if hasHead && |newRows| > 0 then TR.Names(newRows[0]) else [];
      rows, stored := newRows, Some(newNames);
    }

    /**
     * Apply: every row is rebuilt in the dialog's order, the new order is
     * saved and the dialog closes; the header row then lists exactly the
     * dialog's names.
     */
    method Apply()
      requires Valid() && dialog.Some?
      modifies this
      ensures Valid() && dialog == None && hasHead == old(hasHead)
      ensures rows == Applied(old(rows), old(HeaderNames()), old(dialog.value))
      ensures hasHead ==> HeaderNames() == old(dialog.value) && stored == Some(old(dialog.value))
    {
      var order := dialog.value;
      SameNames(order, HeaderNames());
      ApplyAndSave(order);
      dialog := None;
    }

    /**
     * `restoreColumnOrder`: a saved order is applied (and saved again); the
     * header row then follows it whenever every saved name is a header name.
     */
    method RestoreColumnOrder()
      requires Valid() && dialog.None?
      modifies this
      ensures Valid() && dialog == None && hasHead == old(hasHead)
      ensures old(stored).None? ==> rows == old(rows) && stored == old(stored)
      ensures old(stored).Some? ==> rows == Applied(old(rows), old(HeaderNames()), old(stored.value))
      ensures old(stored).Some? && hasHead && (forall x :: x in old(stored.value) ==> x in old(HeaderNames())) ==>
        HeaderNames() == old(stored.value)
    {
      if stored.Some? {
        ApplyAndSave(stored.value);
      }
    }
  }

  /**
   * The order after the up arrow of entry `index`: the entry changes places
   * with the one above it; on the first entry, whose arrow is disabled,
   * nothing changes. The same names remain, each as often.
   */
  function Up(order: seq<string>, index: nat): (r: seq<string>)
    requires index < |order|
    ensures multiset(r) == multiset(order)
    ensures index == 0 ==> r == order
    ensures index > 0 ==> r[index - 1] == order[index] && r[index] == order[index - 1]
    ensures forall k :: 0 <= k < |order| && k != index && k + 1 != index ==> r[k] == order[k]
  {
    SeqOps.SwapMultiset(order, index, if index > 0 then index - 1 else 0);
    if index > 0 then SeqOps.Swap(order, index, index - 1) else order
  }

  /** The order after the down arrow of entry `index`; disabled on the last entry. */
  function Down(order: seq<string>, index: nat): (r: seq<string>)
    requires index < |order|
    ensures multiset(r) == multiset(order)
    ensures index == |order| - 1 ==> r == order
    ensures index < |order| - 1 ==> r[index + 1] == order[index] && r[index] == order[index + 1]
    ensures forall k :: 0 <= k < |order| && k != index && k != index + 1 ==> r[k] == order[k]
  {
    SeqOps.SwapMultiset(order, index, if index < |order| - 1 then index + 1 else index);
    if index < |order| - 1 then SeqOps.Swap(order, index, index + 1) else order
  }

  /** Moving an entry up and then moving it back down restores the dialog's order, and the other way round. */
  lemma UpThenDown(order: seq<string>, index: nat)
    requires 0 < index < |order|
    ensures Down(Up(order, index), index - 1) == order
    ensures Up(Down(order, index - 1), index) == order
  {
    SeqOps.SwapSymmetric(order, index, index - 1);
    SeqOps.SwapInvolution(order, index - 1, index);
    SeqOps.SwapInvolution(order, index, index - 1);
    SeqOps.SwapSymmetric(SeqOps.Swap(order, index, index - 1), index - 1, index);
  }
}
