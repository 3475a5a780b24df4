/**
 * Column reordering by arrow buttons in the first header row. Each header
 * gets a left and/or right button that moves its column by one place in
 * every row; the new header order is saved, and a saved order is restored by
 * moving each named column to its saved place.
 */
module ButtonColumnReorder {
  import opened Wrappers
  import SeqOps
  import D = DomChildren
  import TR = TableRows

  type Cell = TR.Cell

  /** The button container of one header: the index its handlers were built for and which arrows it shows. */
  datatype Controls = Controls(index: nat, left: bool, right: bool)

  /** The controls built for the header at index k of n: a left arrow unless first, a right arrow unless last. */
  function ControlsFor(k: nat, n: nat): (c: Controls)
    ensures c.index == k && (c.left <==> k > 0) && (c.right <==> k + 1 < n)
  {
    Controls(k, k > 0, k + 1 < n)
  }

  // ------------------------------------------------------------- moving a column

  /**
   * `moveColumn` on one row: the cell at `from` is inserted before the next
   * sibling of the cell at `to` when moving right and before that cell when
   * moving left, so it ends at `to`; a row lacking either index is unchanged.
   */
  method MoveInRow<T(==)>(row: seq<T>, from: nat, to: nat) returns (r: seq<T>)
    requires SeqOps.Distinct(row)
    ensures r == if TR.Reaches(row, from, to) then SeqOps.MoveTo(row, from, to) else row
  {
    if from >= |row| || to >= |row| {
      return row;
    }
    var fromCell, toCell := row[from], row[to];
    if to > from {
      InsertAfterTarget(row, from, to);
      r := D.InsertBefore(row, fromCell, D.NextSibling(row, toCell));
    } else {
      D.InsertBeforeIndex(row, from, to);
      r := D.InsertBefore(row, fromCell, Some(toCell));
    }
  }

  /** Moving right: inserting before the target's next sibling puts the cell at the target's index. */
  lemma InsertAfterTarget<T>(row: seq<T>, from: nat, to: nat)
    requires SeqOps.Distinct(row) && from < to < |row|
    ensures D.InsertBefore(row, row[from], D.NextSibling(row, row[to])) == SeqOps.MoveTo(row, from, to)
  {
    D.InsertBeforeNextSibling(row, from, to);
  }

  /** `moveColumn` over every row of the table. */
  method MoveColumns<T(==)>(rows: seq<seq<T>>, from: nat, to: nat) returns (r: seq<seq<T>>)
    requires TR.AllDistinct(rows)
    ensures r == TR.Moved(rows, from, to)
  {
    r := [];
    var k := 0;
    while k < |rows|
      invariant 0 <= k <= |rows|
      invariant r == TR.Moved(rows, from, to)[..k]
    {
      var row := MoveInRow(rows[k], from, to);
      TR.MovedSnoc(rows, from, to, k, row);
      r := r + [row];
      k := k + 1;
    }
    TR.MovedAll(rows, from, to);
  }

  /**
   * `moveColumnSimple` on one row: the cell at `from` is removed and put
   * back before the child now at `to`, or appended when `to` is past the
   * remaining children; it ends at `to`.
   */
  method MoveSimpleInRow<T(==)>(row: seq<T>, from: nat, to: nat) returns (r: seq<T>)
    requires SeqOps.Distinct(row)
    ensures r == if TR.Reaches(row, from, to) then SeqOps.MoveTo(row, from, to) else row
  {
    if from >= |row| || to >= |row| {
      return row;
    }
    var fromCell := row[from];
    D.IndexOfDistinct(row, from);
    r := D.RemoveChild(row, fromCell);
    if to >= |r| {
      D.SimpleAppend(row, from);
      r := D.AppendChild(r, fromCell);
    } else {
      D.SimpleInsert(row, from, to);
      r := D.InsertBefore(r, fromCell, Some(r[to]));
    }
  }

  /** `moveColumnSimple` over every row of the table. */
  method MoveColumnsSimple<T(==)>(rows: seq<seq<T>>, from: nat, to: nat) returns (r: seq<seq<T>>)
    requires TR.AllDistinct(rows)
    ensures r == TR.Moved(rows, from, to)
  {
    r := [];
    var k := 0;
    while k < |rows|
      invariant 0 <= k <= |rows|
      invariant r == TR.Moved(rows, from, to)[..k]
    {
      var row := MoveSimpleInRow(rows[k], from, to);
      TR.MovedSnoc(rows, from, to, k, row);
      r := r + [row];
      k := k + 1;
    }
    TR.MovedAll(rows, from, to);
  }

  // ------------------------------------------------------------- the buttons

  /**
   * The button controls after `addColumnMoveButtons` has passed the headers
   * h[..k], starting from `buttons` (header id to its controls): a header
   * that already has controls is skipped, any other one gets the controls
   * for its index.
   */
  function AddedUpTo(h: seq<Cell>, buttons: map<nat, Controls>, k: nat): map<nat, Controls>
    requires k <= |h|
  {
    if k == 0 then buttons
    else
      var m := AddedUpTo(h, buttons, k - 1);
      if h[k - 1].id in m then m else m[h[k - 1].id := ControlsFor(k - 1, |h|)]
  }

  function Added(h: seq<Cell>, buttons: map<nat, Controls>): map<nat, Controls> {
    AddedUpTo(h, buttons, |h|)
  }

  predicate DistinctIds(h: seq<Cell>) {
    forall i, j :: 0 <= i < j < |h| ==> h[i].id != h[j].id
  }

  /** Every header the pass reached has controls, earlier controls stay as they were, and nothing else gets any. */
  lemma {:induction false} AddedKeeps(h: seq<Cell>, buttons: map<nat, Controls>, k: nat)
    requires k <= |h|
    ensures forall j :: 0 <= j < k ==> h[j].id in AddedUpTo(h, buttons, k)
    ensures forall id :: id in buttons ==> id in AddedUpTo(h, buttons, k) && AddedUpTo(h, buttons, k)[id] == buttons[id]
    ensures forall id :: id in AddedUpTo(h, buttons, k) ==> id in buttons || exists j :: 0 <= j < k && h[j].id == id
  {
    if k > 0 {
      AddedKeeps(h, buttons, k - 1);
    }
  }

  /** A header without controls before the pass gets the controls for its own index. */
  lemma {:induction false} AddedFresh(h: seq<Cell>, buttons: map<nat, Controls>, k: nat, j: nat)
    requires DistinctIds(h) && j < k <= |h| && h[j].id !in buttons
    ensures h[j].id in AddedUpTo(h, buttons, k) && AddedUpTo(h, buttons, k)[h[j].id] == ControlsFor(j, |h|)
  {
    AddedKeeps(h, buttons, k - 1);
    if j < k - 1 {
      AddedFresh(h, buttons, k - 1, j);
    } else {
      assert h[j].id !in AddedUpTo(h, buttons, k - 1) by {
        forall i | 0 <= i < k - 1
          ensures h[i].id != h[j].id
        {
        }
      }
    }
  }

  /** Running `addColumnMoveButtons` again adds nothing: every header already has controls. */
  lemma AddedIdempotent(h: seq<Cell>, buttons: map<nat, Controls>)
    ensures Added(h, Added(h, buttons)) == Added(h, buttons)
  {
    AddedKeeps(h, buttons, |h|);
    AddedAllPresent(h, Added(h, buttons), |h|);
  }

  lemma {:induction false} AddedAllPresent(h: seq<Cell>, buttons: map<nat, Controls>, k: nat)
    requires k <= |h| && forall j :: 0 <= j < k ==> h[j].id in buttons
    ensures AddedUpTo(h, buttons, k) == buttons
  {
    if k > 0 {
      AddedAllPresent(h, buttons, k - 1);
    }
  }

  /** Every header's controls, where it has any, were built for its present index. */
  predicate Current(h: seq<Cell>, buttons: map<nat, Controls>) {
    forall k :: 0 <= k < |h| && h[k].id in buttons ==> buttons[h[k].id] == ControlsFor(k, |h|)
  }

  /** The controls with every header's own taken away. */
  function Stripped(h: seq<Cell>, buttons: map<nat, Controls>): (r: map<nat, Controls>)
    ensures forall k :: 0 <= k < |h| ==> h[k].id !in r
  {
    map id | id in buttons && forall k :: 0 <= k < |h| ==> h[k].id != id :: buttons[id]
  }

  /** Stripping the headers' controls and adding them again leaves every header with current controls. */
  lemma RefreshedCurrent(h: seq<Cell>, buttons: map<nat, Controls>)
    requires DistinctIds(h)
    ensures Current(h, Added(h, Stripped(h, buttons)))
    ensures forall k :: 0 <= k < |h| ==> h[k].id in Added(h, Stripped(h, buttons))
  {
    var s := Stripped(h, buttons);
    AddedKeeps(h, s, |h|);
    forall k | 0 <= k < |h|
      ensures Added(h, s)[h[k].id] == ControlsFor(k, |h|)
    {
      AddedFresh(h, s, |h|, k);
    }
  }

  /** `addColumnMoveButtons` on top of current controls keeps them current. */
  lemma AddedCurrent(h: seq<Cell>, buttons: map<nat, Controls>)
    requires DistinctIds(h) && Current(h, buttons)
    ensures Current(h, Added(h, buttons))
  {
    AddedKeeps(h, buttons, |h|);
    forall k | 0 <= k < |h| && h[k].id !in buttons
      ensures Added(h, buttons)[h[k].id] == ControlsFor(k, |h|)
    {
      AddedFresh(h, buttons, |h|, k);
    }
  }

  /** With current controls, the right arrow of the header at k moves that very header to k + 1. */
  lemma RightArrowMovesOwnColumn(h: seq<Cell>, buttons: map<nat, Controls>, k: nat)
    requires Current(h, buttons) && k < |h| && h[k].id in buttons && buttons[h[k].id].right
    ensures var c := buttons[h[k].id];
      c.index == k && c.index + 1 < |h| && SeqOps.MoveTo(h, c.index, c.index + 1)[k + 1] == h[k]
  {
  }

  /** With current controls, the left arrow of the header at k moves that very header to k - 1. */
  lemma LeftArrowMovesOwnColumn(h: seq<Cell>, buttons: map<nat, Controls>, k: nat)
    requires Current(h, buttons) && k < |h| && h[k].id in buttons && buttons[h[k].id].left
    ensures var c := buttons[h[k].id];
      c.index == k && 0 < c.index && SeqOps.MoveTo(h, c.index, c.index - 1)[k - 1] == h[k]
  {
  }

  /**
   * As written, a move re-runs `addColumnMoveButtons`, which skips every
   * header because each already has controls: on two columns A, B, A's right
   * arrow leaves A at index 1 still holding the controls built for index 0
   * (a right arrow and no left arrow), and pressing that right arrow again
   * moves B, putting A back at index 0.
   */
  lemma StaleControlsCounterexample()
    ensures var a, b := TR.Cell(1, "A"), TR.Cell(2, "B");
      var buttons := Added([a, b], map[]);
      var h := SeqOps.MoveTo([a, b], 0, 1);
      var after := Added(h, buttons);
      h == [b, a] && after[a.id] == Controls(0, false, true) && !Current(h, after) &&
      SeqOps.MoveTo(h, after[a.id].index, after[a.id].index + 1) == [a, b]
  {
    var a, b := TR.Cell(1, "A"), TR.Cell(2, "B");
    TwoHeaderButtons(a, b);
    SwapTwo(a, b);
    SwapTwo(b, a);
    var buttons := Added([a, b], map[]);
    AddedAllPresent([b, a], buttons, 2);
    assert !Current([b, a], buttons) by {
      assert [b, a][1] == a && buttons[a.id] != ControlsFor(1, 2);
    }
  }

  /** The controls `addColumnMoveButtons` gives two fresh headers. */
  lemma TwoHeaderButtons(a: Cell, b: Cell)
    requires a.id != b.id
    ensures Added([a, b], map[]) == map[a.id := Controls(0, false, true), b.id := Controls(1, true, false)]
  {
    assert AddedUpTo([a, b], map[], 1) == map[a.id := Controls(0, false, true)];
  }

  /** Moving the first of two cells to index 1 exchanges them. */
  lemma SwapTwo<T>(a: T, b: T)
    ensures SeqOps.MoveTo([a, b], 0, 1) == [b, a]
  {
    assert SeqOps.RemoveAt([a, b], 0) == [b];
    assert SeqOps.InsertAt([b], 1, a) == [b, a];
  }

  /** Moving the second of two cells to index 0 exchanges them. */
  lemma SwapTwoBack<T>(a: T, b: T)
    ensures SeqOps.MoveTo([a, b], 1, 0) == [b, a]
  {
    assert SeqOps.RemoveAt([a, b], 1) == [a];
    assert SeqOps.InsertAt([a], 0, b) == [b, a];
  }

  /**
   * As written, `restoreColumnOrder` moves columns and never touches the
   * controls: on two columns A, B restored to the order B, A, the single
   * move from index 1 to index 0 leaves B first still holding the controls
   * built for index 1 (a left arrow and no right arrow), and pressing that
   * left arrow moves A, putting B back at index 1.
   */
  lemma RestoreStaleCounterexample()
    ensures var a, b := TR.Cell(1, "A"), TR.Cell(2, "B");
      var buttons := Added([a, b], map[]);
      var h := SeqOps.MoveTo([a, b], 1, 0);
      h == [b, a] && buttons[b.id] == Controls(1, true, false) && !Current(h, buttons) &&
      SeqOps.MoveTo(h, buttons[b.id].index, buttons[b.id].index - 1) == [a, b]
  {
    var a, b := TR.Cell(1, "A"), TR.Cell(2, "B");
    TwoHeaderButtons(a, b);
    SwapTwoBack(a, b);
    SwapTwoBack(b, a);
    var buttons := Added([a, b], map[]);
    assert !Current([b, a], buttons) by {
      assert [b, a][0] == b && buttons[b.id] != ControlsFor(0, 2);
    }
  }

  // ------------------------------------------------------------- restoring a saved order

  /** `array.splice(i, 0, x)`: an index past the end appends. */
  function SpliceInsert<T>(s: seq<T>, i: nat, x: T): (r: seq<T>)
    ensures |r| == |s| + 1
  {
    if i <= |s| then SeqOps.InsertAt(s, i, x) else s + [x]
  }

  /** The restore loop's step on its copy of the header names, with the name found at ci moved to t. */
  function MirrorStep(mirror: seq<string>, ci: nat, t: nat): (r: seq<string>)
    requires ci < |mirror|
    ensures |r| == |mirror|
  {
    SpliceInsert(SeqOps.RemoveAt(mirror, ci), t, mirror[ci])
  }

  /** For targets inside the row the copied names move exactly as the header moves. */
  lemma MirrorStepMoves(mirror: seq<string>, ci: nat, t: nat)
    requires ci < |mirror| && t < |mirror|
    ensures MirrorStep(mirror, ci, t) == SeqOps.MoveTo(mirror, ci, t)
  {
  }

  /** The restore loop's facts when the saved order is a permutation of distinct names. */
  predicate PermutationOf(saved: seq<string>, names: seq<string>) {
    SeqOps.Distinct(saved) && multiset(saved) == multiset(names)
  }

  /** Moving the name saved[i] from ci to i keeps the first i names and puts saved[i] at i. */
  lemma RestoreStep(mirror: seq<string>, saved: seq<string>, i: nat, ci: nat)
    requires |mirror| == |saved| && i < |saved| && ci < |mirror| && mirror[ci] == saved[i]
    requires SeqOps.Distinct(saved) && mirror[..i] == saved[..i] && ci != i
    ensures i < ci
    ensures SeqOps.MoveTo(mirror, ci, i)[..i + 1] == saved[..i + 1]
  {
    var m := SeqOps.MoveTo(mirror, ci, i);
    forall k | 0 <= k <= i
      ensures m[k] == saved[k]
    {
      SeqOps.MoveToAt(mirror, ci, i, k);
      if k < i {
        assert mirror[k] == mirror[..i][k];
      }
    }
  }

  /** Each row's cells are the same multiset after a move. */
  lemma MovedKeepsCells<T>(rows: seq<seq<T>>, from: nat, to: nat)
    ensures forall k :: 0 <= k < |rows| ==> multiset(TR.Moved(rows, from, to)[k]) == multiset(rows[k])
  {
  }

  /** The rows keep their cells, every row's cells stay distinct, and so do the header's ids. */
  predicate RowsKept(rows: seq<seq<Cell>>, r: seq<seq<Cell>>) {
    |rows| > 0 && |r| == |rows| && TR.AllDistinct(r) && |r[0]| == |rows[0]| &&
    (forall k :: 0 <= k < |rows| ==> multiset(r[k]) == multiset(rows[k])) &&
    (DistinctIds(rows[0]) ==> DistinctIds(r[0]))
  }

  /**
   * Every row as long as the header row has been rearranged as the header
   * row has: the cell now at position j of row k is the one that stood in
   * row k under the header now at position j.
   */
  predicate PermutedAlike(rows: seq<seq<Cell>>, r: seq<seq<Cell>>) {
    |rows| > 0 && |r| == |rows| && |r[0]| == |rows[0]| &&
    (forall k :: 0 <= k < |rows| && |rows[k]| == |rows[0]| ==> |r[k]| == |rows[k]|) &&
    forall k, j :: 0 <= k < |rows| && |rows[k]| == |rows[0]| && 0 <= j < |rows[0]| ==>
      r[0][j] in rows[0] && r[k][j] == rows[k][SeqOps.IndexOf(rows[0], r[0][j])]
  }

  /** Before any move every row is as it was. */
  lemma {:induction false} PermutedAlikeStart(rows: seq<seq<Cell>>)
    requires |rows| > 0 && SeqOps.Distinct(rows[0])
    ensures PermutedAlike(rows, rows)
  {
    forall j | 0 <= j < |rows[0]|
      ensures SeqOps.IndexOf(rows[0], rows[0][j]) == j
    {
      assert rows[0][j] !in rows[0][..j];
      SeqOps.IndexOfFirst(rows[0], rows[0][j], j);
    }
  }

  /** A move inside the header row moves every row of its length alike, so they stay rearranged as the header is. */
  lemma {:induction false} PermutedAlikeMoved(rows: seq<seq<Cell>>, r: seq<seq<Cell>>, ci: nat, i: nat)
    requires PermutedAlike(rows, r) && ci < |r[0]|
    ensures PermutedAlike(rows, TR.Moved(r, ci, i))
  {
    var n := |rows[0]|;
    var m := TR.Moved(r, ci, i);
    if i < n {
      forall k, j | 0 <= k < |rows| && |rows[k]| == n && 0 <= j < n
        ensures m[0][j] in rows[0] && m[k][j] == rows[k][SeqOps.IndexOf(rows[0], m[0][j])]
      {
        var q := TR.MoveSource(ci, i, j);
        TR.MovedSamePermutation(r, ci, i, k, j);
        TR.MovedSamePermutation(r, ci, i, 0, j);
        assert m[k][j] == r[k][q] && m[0][j] == r[0][q];
      }
    } else {
      assert m[0] == r[0];
      forall k | 0 <= k < |rows| && |rows[k]| == n
        ensures m[k] == r[k]
      {
        assert |r[k]| == n;
      }
    }
  }

  /** Before the first turn of the restore loop, a saved permutation has nothing in place yet, and nothing needs to be. */
  lemma NothingPlacedYet(saved: seq<string>, mirror: seq<string>)
    requires PermutationOf(saved, mirror)
    ensures PrefixPlaced(saved, mirror, 0)
  {
    assert |saved| == |multiset(saved)| == |multiset(mirror)| == |mirror|;
  }

  /** For a saved permutation, the copy holds the saved names and its first i are in place. */
  predicate PrefixPlaced(saved: seq<string>, mirror: seq<string>, i: nat) {
    SeqOps.Distinct(saved) && |saved| == |mirror| && i <= |saved| &&
    multiset(mirror) == multiset(saved) && mirror[..i] == saved[..i]
  }

  lemma MoveKeepsRows(rows: seq<seq<Cell>>, r: seq<seq<Cell>>, ci: nat, i: nat)
    requires RowsKept(rows, r) && ci < |r[0]|
    ensures RowsKept(rows, TR.Moved(r, ci, i))
  {
    if DistinctIds(rows[0]) {
      MovedIds(r[0], ci, i);
    }
    TR.MovedDistinct(r, ci, i);
    MovedKeepsCells(r, ci, i);
  }

  lemma MoveKeepsMirror(r: seq<seq<Cell>>, mirror: seq<string>, ci: nat, i: nat)
    requires |r| > 0 && mirror == TR.Names(r[0]) && ci < |mirror|
    ensures i < |mirror| ==> MirrorStep(mirror, ci, i) == TR.Names(TR.Moved(r, ci, i)[0])
  {
    if i < |mirror| {
      TR.NamesMoved(r[0], ci, i);
      MirrorStepMoves(mirror, ci, i);
    }
  }

  lemma MovePlacesName(saved: seq<string>, mirror: seq<string>, i: nat, ci: nat)
    requires PrefixPlaced(saved, mirror, i) && i < |saved|
    requires ci < |mirror| && mirror[ci] == saved[i] && ci != i
    ensures PrefixPlaced(saved, MirrorStep(mirror, ci, i), i + 1)
  {
    RestoreStep(mirror, saved, i, ci);
    MirrorStepMoves(mirror, ci, i);
  }

  lemma SkipPlacesName(saved: seq<string>, mirror: seq<string>, i: nat)
    requires PrefixPlaced(saved, mirror, i) && i < |saved|
    requires var ci := SeqOps.IndexOf(mirror, saved[i]); ci == -1 || ci == i
    ensures PrefixPlaced(saved, mirror, i + 1)
  {
    assert saved[i] in multiset(mirror);
    assert mirror[..i + 1] == mirror[..i] + [mirror[i]];
    assert saved[..i + 1] == saved[..i] + [saved[i]];
  }

  /** One turn of the restore loop: the saved name at i moved to index i when found elsewhere. */
  method RestoreName(ghost rows: seq<seq<Cell>>, saved: seq<string>, ghost perm: bool, r: seq<seq<Cell>>, mirror: seq<string>, i: nat)
      returns (r': seq<seq<Cell>>, mirror': seq<string>)
    requires i < |saved| && RowsKept(rows, r) && |mirror| == |rows[0]|
    requires i <= |mirror| ==> mirror == TR.Names(r[0])
    requires perm ==> PrefixPlaced(saved, mirror, i)
    requires PermutedAlike(rows, r)
    ensures RowsKept(rows, r') && |mirror'| == |rows[0]|
    ensures i + 1 <= |mirror'| ==> mirror' == TR.Names(r'[0])
    ensures perm ==> PrefixPlaced(saved, mirror', i + 1)
    ensures PermutedAlike(rows, r')
  {
    var colName := saved[i];
    var currentIndex := SeqOps.IndexOf(mirror, colName);
    r', mirror' := r, mirror;
    if currentIndex != -1 && currentIndex != i {
      r', mirror' := RestoreMove(rows, saved, perm, r, mirror, i, currentIndex);
    } else if perm {
      SkipPlacesName(saved, mirror, i);
    }
  }

  /** The move in one turn of the restore loop: the column whose name is found at ci goes to i. */
  method RestoreMove(ghost rows: seq<seq<Cell>>, saved: seq<string>, ghost perm: bool, r: seq<seq<Cell>>, mirror: seq<string>, i: nat, ci: nat)
      returns (r': seq<seq<Cell>>, mirror': seq<string>)
    requires i < |saved| && RowsKept(rows, r) && |mirror| == |rows[0]|
    requires ci < |mirror| && mirror[ci] == saved[i] && ci != i
    requires i <= |mirror| ==> mirror == TR.Names(r[0])
    requires perm ==> PrefixPlaced(saved, mirror, i)
    requires PermutedAlike(rows, r)
    ensures RowsKept(rows, r') && |mirror'| == |rows[0]|
    ensures i + 1 <= |mirror'| ==> mirror' == TR.Names(r'[0])
    ensures perm ==> PrefixPlaced(saved, mirror', i + 1)
    ensures PermutedAlike(rows, r')
  {
    MoveKeepsRows(rows, r, ci, i);
    PermutedAlikeMoved(rows, r, ci, i);
    if i < |mirror| {
      MoveKeepsMirror(r, mirror, ci, i);
    }
    if perm {
      MovePlacesName(saved, mirror, i, ci);
    }
    r' := MoveColumnsSimple(r, ci, i);
    var rest := SeqOps.RemoveAt(mirror, ci);
    mirror' := SpliceInsert(rest, i, saved[i]);
  }

  /**
   * `restoreColumnOrder` on rows whose first row is the header row: each
   * saved name, in saved order, is looked up in a copy of the header names
   * and, when found elsewhere than its saved index, its column is moved there
   * with `moveColumnSimple` and the copy is spliced alike.
   */
  method Restore(rows: seq<seq<Cell>>, saved: seq<string>) returns (r: seq<seq<Cell>>)
    requires TR.AllDistinct(rows) && |rows| > 0
    ensures |r| == |rows| && TR.AllDistinct(r) && |r[0]| == |rows[0]|
    ensures forall k :: 0 <= k < |rows| ==> multiset(r[k]) == multiset(rows[k])
    ensures PermutationOf(saved, TR.Names(rows[0])) ==> TR.Names(r[0]) == saved
    ensures DistinctIds(rows[0]) ==> DistinctIds(r[0])
    ensures PermutedAlike(rows, r)
  {
    r := rows;
    PermutedAlikeStart(rows);
    var mirror := TR.Names(rows[0]);
    ghost var perm := PermutationOf(saved, mirror);
    if perm {
      NothingPlacedYet(saved, mirror);
    }
    var i := 0;
    while i < |saved|
      invariant 0 <= i <= |saved|
      invariant RowsKept(rows, r) && |mirror| == |rows[0]|
      invariant i <= |mirror| ==> mirror == TR.Names(r[0])
      invariant perm ==> PrefixPlaced(saved, mirror, i)
      invariant PermutedAlike(rows, r)
    {
      r, mirror := RestoreName(rows, saved, perm, r, mirror, i);
      i := i + 1;
    }
    if perm {
      assert mirror == mirror[..|saved|] && saved == saved[..|saved|];
    }
  }

  // ------------------------------------------------------------- the table

  /**
   * The table with its arrow buttons: its rows (the first one the header row
   * when `hasHead`), every header's controls by cell id, and the saved
   * column order kept for the worksheet.
   */
  class ButtonReorder {
    var rows: seq<seq<Cell>>
    var hasHead: bool
    var buttons: map<nat, Controls>
    var stored: Option<seq<string>>

    predicate Valid()
      reads this
    {
      TR.AllDistinct(rows) && (hasHead ==> |rows| > 0 && DistinctIds(rows[0]) && Current(rows[0], buttons))
    }

    /** The names `saveColumnOrder` collects: those of the first header row, or none without one. */
    function HeaderNames(): seq<string>
      reads this
    {
      if hasHead && |rows| > 0 then TR.Names(rows[0]) else []
    }

    constructor (rows0: seq<seq<Cell>>, hasHead0: bool, stored0: Option<seq<string>>)
      requires TR.AllDistinct(rows0) && (hasHead0 ==> |rows0| > 0 && DistinctIds(rows0[0]))
      ensures Valid() && rows == rows0 && hasHead == hasHead0 && buttons == map[] && stored == stored0
    {
      rows, hasHead, buttons, stored := rows0, hasHead0, map[], stored0;
    }

    /** `addColumnMoveButtons`: every header without controls gets those for its index; the rest are skipped. */
    method AddColumnMoveButtons()
      requires Valid()
      modifies this
      ensures Valid() && rows == old(rows) && hasHead == old(hasHead) && stored == old(stored)
      ensures buttons == if hasHead then Added(rows[0], old(buttons)) else old(buttons)
    {
      if !hasHead {
        return;
      }
      var h := rows[0];
      var m := buttons;
      var k := 0;
      while k < |h|
        invariant 0 <= k <= |h|
        invariant m == AddedUpTo(h, buttons, k)
      {
        if h[k].id !in m {
          var controls := Controls(k, k > 0, k < |h| - 1);
          m := m[h[k].id := controls];
        }
        k := k + 1;
      }
      AddedCurrent(h, buttons);
      buttons := m;
    }

    /** `saveColumnOrder`: the header names are stored for the worksheet. */
    method SaveColumnOrder()
      modifies this
      ensures stored == Some(old(HeaderNames()))
      ensures rows == old(rows) && hasHead == old(hasHead) && buttons == old(buttons)
    {
      var names := if hasHead && |rows| > 0 then TR.Names(rows[0]) else [];
      stored := Some(names);
    }

    /**
     * `moveColumn`: the column moves in every row and the order is saved;
     * then each header's controls are rebuilt for its new index (as written,
     * the source re-runs `addColumnMoveButtons`, which keeps the old ones).
     */
    method MoveColumn(from: nat, to: nat)
      requires Valid()
      modifies this
      ensures Valid() && rows == TR.Moved(old(rows), from, to) && hasHead == old(hasHead)
      ensures stored == Some(HeaderNames())
      ensures hasHead ==> buttons == Added(rows[0], Stripped(rows[0], old(buttons)))
      ensures hasHead ==> forall k :: 0 <= k < |rows[0]| ==> rows[0][k].id in buttons
    {
      TR.MovedDistinct(rows, from, to);
      var moved := MoveColumns(rows, from, to);
      rows := moved;
      SaveColumnOrder();
      if hasHead {
        MovedIds(old(rows)[0], from, to);
        RefreshedCurrent(rows[0], buttons);
        buttons := Stripped(rows[0], buttons);
        AddColumnMoveButtons();
      }
    }

    /** The right arrow of the header at position k: its column moves one place right. */
    method ClickRight(k: nat)
      requires Valid() && hasHead && k < |rows[0]| && rows[0][k].id in buttons && buttons[rows[0][k].id].right
      modifies this
      ensures Valid() && hasHead && rows == TR.Moved(old(rows), k, k + 1)
      ensures k + 1 < |rows[0]| && rows[0][k + 1] == old(rows[0][k])
    {
      var h := rows[0];
      RightArrowMovesOwnColumn(h, buttons, k);
      MoveColumn(k, k + 1);
      assert TR.Reaches(h, k, k + 1) && rows[0] == SeqOps.MoveTo(h, k, k + 1);
    }

    /** The left arrow of the header at position k: its column moves one place left. */
    method ClickLeft(k: nat)
      requires Valid() && hasHead && k < |rows[0]| && rows[0][k].id in buttons && buttons[rows[0][k].id].left
      modifies this
      ensures Valid() && hasHead && rows == TR.Moved(old(rows), k, k - 1)
      ensures 0 < k < |rows[0]| && rows[0][k - 1] == old(rows[0][k])
    {
      var h := rows[0];
      LeftArrowMovesOwnColumn(h, buttons, k);
      MoveColumn(k, k - 1);
      assert TR.Reaches(h, k, k - 1) && rows[0] == SeqOps.MoveTo(h, k, k - 1);
    }

    /**
     * `restoreColumnOrder`: nothing without a saved order or a header row;
     * otherwise every row is reordered, and a saved order that is a
     * permutation of the distinct header names becomes the header order.
     */
    method RestoreColumnOrder()
      requires Valid()
      modifies this
      ensures Valid() && hasHead == old(hasHead) && stored == old(stored) && |rows| == |old(rows)|
      ensures stored.None? || !hasHead ==> rows == old(rows) && buttons == old(buttons)
      ensures stored.Some? && hasHead && PermutationOf(stored.value, old(HeaderNames())) ==> HeaderNames() == stored.value
      ensures stored.Some? && hasHead ==> buttons == Added(rows[0], Stripped(rows[0], old(buttons)))
      ensures stored.Some? && hasHead ==> forall k :: 0 <= k < |rows| ==> multiset(rows[k]) == multiset(old(rows)[k])
      ensures stored.Some? && hasHead ==> PermutedAlike(old(rows), rows)
    {
      if stored.None? || !hasHead {
        return;
      }
      var restored := Restore(rows, stored.value);
      rows := restored;
      buttons := Stripped(rows[0], buttons);
      RefreshedCurrent(rows[0], map[]);
      AddColumnMoveButtons();
    }

    /**
     * `restoreColumnOrder` as written: the rows are reordered as above and
     * the controls are left as they were, so they need no longer be current.
     */
    method RestoreColumnOrderAsWritten()
      requires Valid()
      modifies this`rows
      ensures TR.AllDistinct(rows) && |rows| == |old(rows)| && buttons == old(buttons)
      ensures stored.None? || !hasHead ==> rows == old(rows)
      ensures stored.Some? && hasHead ==> |rows[0]| == |old(rows[0])| && DistinctIds(rows[0])
      ensures stored.Some? && hasHead && PermutationOf(stored.value, old(HeaderNames())) ==> HeaderNames() == stored.value
      ensures stored.Some? && hasHead ==> forall k :: 0 <= k < |rows| ==> multiset(rows[k]) == multiset(old(rows)[k])
      ensures stored.Some? && hasHead ==> PermutedAlike(old(rows), rows)
    {
      if stored.None? || !hasHead {
        return;
      }
      var restored := Restore(rows, stored.value);
      rows := restored;
    }
  }

  /** A move keeps the header ids distinct. */
  lemma MovedIds(h: seq<Cell>, from: nat, to: nat)
    requires DistinctIds(h)
    ensures from < |h| && to < |h| ==> DistinctIds(SeqOps.MoveTo(h, from, to))
  {
    if from < |h| && to < |h| {
      var m := SeqOps.MoveTo(h, from, to);
      forall a, b | 0 <= a < b < |m|
        ensures m[a].id != m[b].id
      {
        SeqOps.MoveToAt(h, from, to, a);
        SeqOps.MoveToAt(h, from, to, b);
        TR.MoveSourceInjective(from, to, a, b);
        assert m[a] == h[TR.MoveSource(from, to, a)] && m[b] == h[TR.MoveSource(from, to, b)];
      }
    }
  }
}
