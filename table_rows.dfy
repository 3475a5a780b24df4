/**
 * A rendered table as the list of its rows, `table.querySelectorAll('tr')`
 * (header rows first, then body rows), each row the list of its cells. The
 * column moves of the reordering code act on every row that is long enough
 * for both indices and leave the other rows alone.
 */
module TableRows {
  import SeqOps
  import JsText

  /** A table cell: its node identity and its own text (the text of any buttons in it is not included). */
  datatype Cell = Cell(id: nat, text: string)

  /** The name a header is saved under: its text without the buttons, trimmed. */
  function Name(c: Cell): string {
    JsText.Trim(c.text)
  }

  function Names(h: seq<Cell>): (r: seq<string>)
    ensures |r| == |h| && forall k :: 0 <= k < |h| ==> r[k] == Name(h[k])
  {
    seq(|h|, k requires 0 <= k < |h| => Name(h[k]))
  }

  /** Both column indices fall inside the row. */
  predicate Reaches<T>(row: seq<T>, i: nat, j: nat) {
    i < |row| && j < |row|
  }

  /** Every row's cells are distinct nodes, as the children of a DOM element are. */
  predicate AllDistinct<T(==)>(rows: seq<seq<T>>) {
    forall k :: 0 <= k < |rows| ==> SeqOps.Distinct(rows[k])
  }

  /** The cell at `from` moved to index `to` in every row both reach. */
  function Moved<T>(rows: seq<seq<T>>, from: nat, to: nat): (r: seq<seq<T>>)
    ensures |r| == |rows|
  {
    seq(|rows|, k requires 0 <= k < |rows| =>
      if Reaches(rows[k], from, to) then SeqOps.MoveTo(rows[k], from, to) else rows[k])
  }

  /** The cells at i and j exchanged in every row both reach. */
  function Swapped<T>(rows: seq<seq<T>>, i: nat, j: nat): (r: seq<seq<T>>)
    ensures |r| == |rows|
  {
    seq(|rows|, k requires 0 <= k < |rows| =>
      if Reaches(rows[k], i, j) then SeqOps.Swap(rows[k], i, j) else rows[k])
  }

  /** The first k + 1 moved rows are the first k followed by row k moved. */
  lemma MovedSnoc<T>(rows: seq<seq<T>>, from: nat, to: nat, k: nat, row: seq<T>)
    requires k < |rows| && row == (if Reaches(rows[k], from, to) then SeqOps.MoveTo(rows[k], from, to) else rows[k])
    ensures Moved(rows, from, to)[..k] + [row] == Moved(rows, from, to)[..k + 1]
  {
  }

  /** The first k + 1 swapped rows are the first k followed by row k swapped. */
  lemma SwappedSnoc<T>(rows: seq<seq<T>>, i: nat, j: nat, k: nat, row: seq<T>)
    requires k < |rows| && row == (if Reaches(rows[k], i, j) then SeqOps.Swap(rows[k], i, j) else rows[k])
    ensures Swapped(rows, i, j)[..k] + [row] == Swapped(rows, i, j)[..k + 1]
  {
  }

  /** All the rows: the prefix of full length. */
  lemma MovedAll<T>(rows: seq<seq<T>>, from: nat, to: nat)
    ensures Moved(rows, from, to)[..|rows|] == Moved(rows, from, to)
  {
  }

  lemma SwappedAll<T>(rows: seq<seq<T>>, i: nat, j: nat)
    ensures Swapped(rows, i, j)[..|rows|] == Swapped(rows, i, j)
  {
  }

  /** Where the cell now at position p of a moved row came from; it does not depend on the row. */
  function MoveSource(from: nat, to: nat, p: nat): nat {
    if p == to then from
    else if from < to && from <= p < to then p + 1
    else if to < from && to < p <= from then p - 1
    else p
  }

  /** A move is one permutation of the positions, applied alike to every row that both indices reach. */
  lemma MovedSamePermutation<T>(rows: seq<seq<T>>, from: nat, to: nat, k: nat, p: nat)
    requires k < |rows| && Reaches(rows[k], from, to) && p < |rows[k]|
    ensures MoveSource(from, to, p) < |rows[k]|
    ensures Moved(rows, from, to)[k][p] == rows[k][MoveSource(from, to, p)]
    ensures multiset(Moved(rows, from, to)[k]) == multiset(rows[k])
  {
    SeqOps.MoveToAt(rows[k], from, to, p);
  }

  /** No two positions take their cell from the same place. */
  lemma MoveSourceInjective(from: nat, to: nat, p: nat, q: nat)
    requires p != q
    ensures MoveSource(from, to, p) != MoveSource(from, to, q)
  {
  }

  lemma {:induction false} MoveToDistinct<T>(s: seq<T>, from: nat, to: nat)
    requires SeqOps.Distinct(s) && from < |s| && to < |s|
    ensures SeqOps.Distinct(SeqOps.MoveTo(s, from, to))
  {
    var r := SeqOps.MoveTo(s, from, to);
    forall a, b | 0 <= a < b < |r|
      ensures r[a] != r[b]
    {
      SeqOps.MoveToAt(s, from, to, a);
      SeqOps.MoveToAt(s, from, to, b);
      assert r[a] == s[MoveSource(from, to, a)] && r[b] == s[MoveSource(from, to, b)];
      MoveSourceInjective(from, to, a, b);
    }
  }

  lemma SwapDistinct<T>(s: seq<T>, i: nat, j: nat)
    requires SeqOps.Distinct(s) && i < |s| && j < |s|
    ensures SeqOps.Distinct(SeqOps.Swap(s, i, j))
  {
    var r := SeqOps.Swap(s, i, j);
    forall a, b | 0 <= a < b < |r|
      ensures r[a] != r[b]
    {
      var a' := if a == i then j else if a == j then i else a;
      var b' := if b == i then j else if b == j then i else b;
      assert r[a] == s[a'] && r[b] == s[b'] && a' != b';
    }
  }

  /** Moving keeps every row's cells distinct. */
  lemma MovedDistinct<T>(rows: seq<seq<T>>, from: nat, to: nat)
    requires AllDistinct(rows)
    ensures AllDistinct(Moved(rows, from, to))
  {
    forall k | 0 <= k < |rows| && Reaches(rows[k], from, to)
      ensures SeqOps.Distinct(Moved(rows, from, to)[k])
    {
      MoveToDistinct(rows[k], from, to);
    }
  }

  /** Swapping keeps every row's cells distinct. */
  lemma SwappedDistinct<T>(rows: seq<seq<T>>, i: nat, j: nat)
    requires AllDistinct(rows)
    ensures AllDistinct(Swapped(rows, i, j))
  {
    forall k | 0 <= k < |rows| && Reaches(rows[k], i, j)
      ensures SeqOps.Distinct(Swapped(rows, i, j)[k])
    {
      SwapDistinct(rows[k], i, j);
    }
  }

  /** Moving the cell back from `to` to `from` restores every row. */
  lemma MovedBack<T>(rows: seq<seq<T>>, from: nat, to: nat)
    ensures Moved(Moved(rows, from, to), to, from) == rows
  {
    forall k | 0 <= k < |rows| && Reaches(rows[k], from, to)
      ensures Moved(Moved(rows, from, to), to, from)[k] == rows[k]
    {
      SeqOps.MoveToInverse(rows[k], from, to);
    }
  }

  /** Swapping twice restores the table, and swapping a column with itself changes nothing. */
  lemma SwappedInvolution<T>(rows: seq<seq<T>>, i: nat, j: nat)
    ensures Swapped(Swapped(rows, i, j), i, j) == rows
    ensures i == j ==> Swapped(rows, i, j) == rows
  {
    forall k | 0 <= k < |rows| && Reaches(rows[k], i, j)
      ensures Swapped(Swapped(rows, i, j), i, j)[k] == rows[k]
      ensures i == j ==> Swapped(rows, i, j)[k] == rows[k]
    {
      SeqOps.SwapInvolution(rows[k], i, j);
    }
  }

  /** Moving a header moves its name the same way. */
  lemma NamesMoved(h: seq<Cell>, from: nat, to: nat)
    requires from < |h| && to < |h|
    ensures Names(SeqOps.MoveTo(h, from, to)) == SeqOps.MoveTo(Names(h), from, to)
  {
    var a, b := Names(SeqOps.MoveTo(h, from, to)), SeqOps.MoveTo(Names(h), from, to);
    forall k | 0 <= k < |h|
      ensures a[k] == b[k]
    {
      SeqOps.MoveToAt(h, from, to, k);
      SeqOps.MoveToAt(Names(h), from, to, k);
    }
  }
}
