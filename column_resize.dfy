/**
 * Draggable column widths. A width map, kept across redraws, holds a width
 * in pixels per column index; a small state machine (resizing or not, the
 * column, the mouse position and the width when the drag started) turns
 * mouse moves into widths; every width set is written into the header cell,
 * the filter-row cell and the body cells of its column.
 */
module ColumnResize {
  import opened Wrappers
  import JsMap
  import SeqOps

  type WidthMap = JsMap.OrderedMap<nat, nat>

  /** A width style: the empty string, `auto`, `none` (for a maximum), or pixels. */
  datatype Style = Unset | Auto | NoLimit | Px(px: nat)

  /**
   * A resize handle: the column index it was created for, which its mouse
   * handler reports, and whether it has the double-click listener.
   */
  datatype Handle = Handle(col: nat, autoSizes: bool)

  datatype Cell = Cell(width: Style, minWidth: Style, maxWidth: Style, handle: Option<Handle>)

  /** The table's `style.tableLayout`. */
  datatype Layout = LayoutUnset | Fixed | AutoLayout

  /** The header rows (the first holds the handles, the second is the filter row) and the body rows. */
  datatype Table = Table(layout: Layout, head: seq<seq<Cell>>, body: seq<seq<Cell>>)

  function Width(head: seq<seq<Cell>>): nat {
    if head == [] then 0 else |head[0]|
  }

  /** The same rows of the same lengths: only styles and handles differ. */
  predicate SameShape(r: Table, t: Table) {
    |r.head| == |t.head| && |r.body| == |t.body|
    && (forall k :: 0 <= k < |t.head| ==> |r.head[k]| == |t.head[k]|)
    && (forall k :: 0 <= k < |t.body| ==> |r.body[k]| == |t.body[k]|)
  }

  // ------------------------------------------------------------- setting one width

  /** A cell held at exactly w pixels: width, minimum and maximum. */
  function SizeCell(c: Cell, w: nat): Cell {
    c.(width := Px(w), minWidth := Px(w), maxWidth := Px(w))
  }

  function SizeAt(row: seq<Cell>, col: nat, w: nat): (r: seq<Cell>)
    ensures |r| == |row|
  {
    if col < |row| then row[col := SizeCell(row[col], w)] else row
  }

  /** `setColumnWidth` on the cells: the column's header, its filter-row cell and its body cells. */
  function Sized(t: Table, col: nat, w: nat): (r: Table)
    ensures SameShape(r, t) && r.layout == t.layout
  {
    Table(t.layout,
      seq(|t.head|, k requires 0 <= k < |t.head| => if k < 2 then SizeAt(t.head[k], col, w) else t.head[k]),
      seq(|t.body|, k requires 0 <= k < |t.body| => SizeAt(t.body[k], col, w)))
  }

  /** Setting a width touches that column's body cells and no other cell. */
  lemma SizedBodyCell(t: Table, col: nat, w: nat, k: nat, i: nat)
    requires k < |t.body| && i < |t.body[k]|
    ensures Sized(t, col, w).body[k][i] == if i == col then SizeCell(t.body[k][i], w) else t.body[k][i]
  {
  }

  /** Setting a width touches that column's cells in the first two header rows and no other header cell. */
  lemma SizedHeadCell(t: Table, col: nat, w: nat, k: nat, i: nat)
    requires k < |t.head| && i < |t.head[k]|
    ensures Sized(t, col, w).head[k][i] == if i == col && k < 2 then SizeCell(t.head[k][i], w) else t.head[k][i]
  {
  }

  /** The last width set for a column is the one that stays. */
  lemma SizedTwice(t: Table, col: nat, a: nat, b: nat)
    ensures Sized(Sized(t, col, a), col, b) == Sized(t, col, b)
  {
    var s, r := Sized(Sized(t, col, a), col, b), Sized(t, col, b);
    forall k | 0 <= k < |t.head|
      ensures s.head[k] == r.head[k]
    {
      SizeAtTwice(t.head[k], col, a, b);
    }
    forall k | 0 <= k < |t.body|
      ensures s.body[k] == r.body[k]
    {
      SizeAtTwice(t.body[k], col, a, b);
    }
  }

  lemma SizeAtTwice(row: seq<Cell>, col: nat, a: nat, b: nat)
    ensures SizeAt(SizeAt(row, col, a), col, b) == SizeAt(row, col, b)
  {
  }

  /** Widths of different columns can be set in either order. */
  lemma SizedCommute(t: Table, c: nat, a: nat, d: nat, b: nat)
    requires c != d
    ensures Sized(Sized(t, c, a), d, b) == Sized(Sized(t, d, b), c, a)
  {
    var s, r := Sized(Sized(t, c, a), d, b), Sized(Sized(t, d, b), c, a);
    forall k | 0 <= k < |t.head|
      ensures s.head[k] == r.head[k]
    {
      SizeAtCommute(t.head[k], c, a, d, b);
    }
    forall k | 0 <= k < |t.body|
      ensures s.body[k] == r.body[k]
    {
      SizeAtCommute(t.body[k], c, a, d, b);
    }
  }

  lemma SizeAtCommute(row: seq<Cell>, c: nat, a: nat, d: nat, b: nat)
    requires c != d
    ensures SizeAt(SizeAt(row, c, a), d, b) == SizeAt(SizeAt(row, d, b), c, a)
  {
  }

  // ------------------------------------------------------------- handles

  /** A header cell that has no handle gets one for its index; one that has a handle keeps it. */
  function WithHandle(c: Cell, i: nat): Cell {
    if c.handle.None? then c.(handle := Some(Handle(i, false))) else c
  }

  function WithHandles(row: seq<Cell>): (r: seq<Cell>)
    ensures |r| == |row| && forall i :: 0 <= i < |row| ==> r[i] == WithHandle(row[i], i)
  {
    seq(|row|, i requires 0 <= i < |row| => WithHandle(row[i], i))
  }

  /** Adding handles twice adds them once. */
  lemma WithHandlesIdempotent(row: seq<Cell>)
    ensures WithHandles(WithHandles(row)) == WithHandles(row)
    ensures forall i :: 0 <= i < |row| ==> WithHandles(row)[i].handle.Some?
  {
  }

  /** `enableDoubleClickAutoSize` on one header cell: a handle gets the double-click listener. */
  function Armed(c: Cell): Cell {
    if c.handle.Some? then c.(handle := Some(c.handle.value.(autoSizes := true))) else c
  }

  // ------------------------------------------------------------- recording initial widths

  /** The map after `initColumnResize` records the measured widths of the columns that have none yet. */
  function RecordMissing(m: WidthMap, measured: seq<nat>): WidthMap {
    if measured == [] then m
    else
      var n := |measured| - 1;
      RecordOne(RecordMissing(m, measured[..n]), n, measured[n])
  }

  /** One column measured: its width is put in the map unless the map already has the column. */
  function RecordOne(p: WidthMap, n: nat, w: nat): WidthMap {
    if n in JsMap.Keys(p) then p else JsMap.Put(p, n, w)
  }

  /**
   * A column already in the map keeps its width; any other header column
   * gets its measured width; columns beyond the header stay out of the map.
   */
  lemma {:induction false} RecordMissingGet(m: WidthMap, measured: seq<nat>, c: nat)
    requires JsMap.DistinctKeys(m)
    ensures JsMap.DistinctKeys(RecordMissing(m, measured))
    ensures JsMap.Get(RecordMissing(m, measured), c) ==
      if c in JsMap.Keys(m) then JsMap.Get(m, c) else if c < |measured| then Some(measured[c]) else None
  {
    if measured != [] {
      var n := |measured| - 1;
      var p := RecordMissing(m, measured[..n]);
      RecordMissingGet(m, measured[..n], c);
      RecordMissingGet(m, measured[..n], n);
      RecordOneGet(m, p, measured, c);
    }
  }

  /** One more column measured, the map for the columns before it being p. */
  lemma RecordOneGet(m: WidthMap, p: WidthMap, measured: seq<nat>, c: nat)
    requires measured != [] && JsMap.DistinctKeys(p)
    requires JsMap.Get(p, c) == if c in JsMap.Keys(m) then JsMap.Get(m, c) else if c < |measured| - 1 then Some(measured[c]) else None
    requires JsMap.Get(p, |measured| - 1) == if |measured| - 1 in JsMap.Keys(m) then JsMap.Get(m, |measured| - 1) else None
    ensures JsMap.DistinctKeys(RecordOne(p, |measured| - 1, measured[|measured| - 1]))
    ensures JsMap.Get(RecordOne(p, |measured| - 1, measured[|measured| - 1]), c) ==
      if c in JsMap.Keys(m) then JsMap.Get(m, c) else if c < |measured| then Some(measured[c]) else None
  {
    var n := |measured| - 1;
    var r := RecordOne(p, n, measured[n]);
    if n in JsMap.Keys(p) {
      assert r == p;
      KeptStepGet(m, p, measured, c);
    } else {
      assert r == JsMap.Put(p, n, measured[n]);
      PutStepGet(m, p, measured, c);
    }
  }

  /** The last column already in the map: the map is kept, and reads as the step promises. */
  lemma KeptStepGet(m: WidthMap, p: WidthMap, measured: seq<nat>, c: nat)
    requires measured != [] && |measured| - 1 in JsMap.Keys(p)
    requires JsMap.Get(p, c) == if c in JsMap.Keys(m) then JsMap.Get(m, c) else if c < |measured| - 1 then Some(measured[c]) else None
    requires JsMap.Get(p, |measured| - 1) == if |measured| - 1 in JsMap.Keys(m) then JsMap.Get(m, |measured| - 1) else None
    ensures JsMap.Get(p, c) == if c in JsMap.Keys(m) then JsMap.Get(m, c) else if c < |measured| then Some(measured[c]) else None
  {
    var n := |measured| - 1;
    if c == n {
      assert JsMap.Get(p, n).Some?;
      assert n in JsMap.Keys(m);
    } else {
      assert (c < n) == (c < |measured|);
    }
  }

  /** The last column missing from the map: it is put in with its measured width. */
  lemma PutStepGet(m: WidthMap, p: WidthMap, measured: seq<nat>, c: nat)
    requires measured != [] && JsMap.DistinctKeys(p) && |measured| - 1 !in JsMap.Keys(p)
    requires JsMap.Get(p, c) == if c in JsMap.Keys(m) then JsMap.Get(m, c) else if c < |measured| - 1 then Some(measured[c]) else None
    requires JsMap.Get(p, |measured| - 1) == if |measured| - 1 in JsMap.Keys(m) then JsMap.Get(m, |measured| - 1) else None
    ensures JsMap.DistinctKeys(JsMap.Put(p, |measured| - 1, measured[|measured| - 1]))
    ensures JsMap.Get(JsMap.Put(p, |measured| - 1, measured[|measured| - 1]), c) ==
      if c in JsMap.Keys(m) then JsMap.Get(m, c) else if c < |measured| then Some(measured[c]) else None
  {
    var n := |measured| - 1;
    var v := measured[n];
    JsMap.PutGet(p, n, v, c);
    JsMap.PutDistinct(p, n, v);
    if c == n {
      assert JsMap.Get(p, n) == None;
      assert n !in JsMap.Keys(m);
    } else {
      assert (c < n) == (c < |measured|);
    }
  }

  /** A key is in the map once the lookup finds it. */
  lemma KeyOfGet(m: WidthMap, c: nat)
    ensures c in JsMap.Keys(m) <==> JsMap.Get(m, c).Some?
  {
  }

  /** `initColumnResize` on one header cell: a handle, and its measured width when the column had none. */
  function InitCell(c: Cell, i: nat, m: WidthMap, measured: seq<nat>): Cell {
    var h := WithHandle(c, i);
    if i in JsMap.Keys(m) || i >= |measured| then h else h.(width := Px(measured[i]))
  }

  function InitRow(row: seq<Cell>, m: WidthMap, measured: seq<nat>): (r: seq<Cell>)
    ensures |r| == |row| && forall i :: 0 <= i < |row| ==> r[i] == InitCell(row[i], i, m, measured)
  {
    seq(|row|, i requires 0 <= i < |row| => InitCell(row[i], i, m, measured))
  }

  // ------------------------------------------------------------- re-applying the map

  /** The cells after the first k entries of the map have been set again, in map order. */
  function Refit(t: Table, m: WidthMap, k: nat): (r: Table)
    requires k <= |m|
    ensures SameShape(r, t) && r.layout == t.layout
  {
    if k == 0 then t else Sized(Refit(t, m, k - 1), m[k - 1].0, m[k - 1].1)
  }

  /**
   * After re-applying, every body cell of a column in the map is held at the
   * column's width, and every body cell of any other column is as it was.
   */
  lemma {:induction false} RefitBodyCell(t: Table, m: WidthMap, k: nat, j: nat, i: nat)
    requires JsMap.DistinctKeys(m) && k <= |m| && j < |t.body| && i < |t.body[j]|
    ensures forall e :: 0 <= e < k && m[e].0 == i ==> Refit(t, m, k).body[j][i] == SizeCell(t.body[j][i], m[e].1)
    ensures (forall e :: 0 <= e < k ==> m[e].0 != i) ==> Refit(t, m, k).body[j][i] == t.body[j][i]
  {
    if k > 0 {
      RefitBodyCell(t, m, k - 1, j, i);
      SizedBodyCell(Refit(t, m, k - 1), m[k - 1].0, m[k - 1].1, j, i);
    }
  }

  /** The same for the cells of the first two header rows. */
  lemma {:induction false} RefitHeadCell(t: Table, m: WidthMap, k: nat, j: nat, i: nat)
    requires JsMap.DistinctKeys(m) && k <= |m| && j < |t.head| && j < 2 && i < |t.head[j]|
    ensures forall e :: 0 <= e < k && m[e].0 == i ==> Refit(t, m, k).head[j][i] == SizeCell(t.head[j][i], m[e].1)
    ensures (forall e :: 0 <= e < k ==> m[e].0 != i) ==> Refit(t, m, k).head[j][i] == t.head[j][i]
  {
    if k > 0 {
      RefitHeadCell(t, m, k - 1, j, i);
      SizedHeadCell(Refit(t, m, k - 1), m[k - 1].0, m[k - 1].1, j, i);
    }
  }

  /** The map `resetColumnWidths` builds from scratch: every header column with its natural width, in order. */
  function Enumerated(natural: seq<nat>): (r: WidthMap)
    ensures |r| == |natural| && forall i :: 0 <= i < |natural| ==> r[i] == (i, natural[i])
  {
    seq(|natural|, i requires 0 <= i < |natural| => (i, natural[i]))
  }

  /** After a reset the map holds the natural width of each header column and nothing else. */
  lemma EnumeratedGet(natural: seq<nat>, c: nat)
    ensures JsMap.DistinctKeys(Enumerated(natural))
    ensures JsMap.Get(Enumerated(natural), c) == if c < |natural| then Some(natural[c]) else None
  {
    var m := Enumerated(natural);
    if c < |natural| {
      SeqOps.IndexOfFirst(JsMap.Keys(m), c, c);
    } else {
      assert c !in JsMap.Keys(m);
    }
  }

  /** The next entry of a reset extends the map built so far. */
  lemma EnumeratedPut(natural: seq<nat>, i: nat)
    requires i < |natural|
    ensures JsMap.Put(Enumerated(natural[..i]), i, natural[i]) == Enumerated(natural[..i + 1])
  {
    assert i !in JsMap.Keys(Enumerated(natural[..i]));
  }

  /** `resetColumnWidths` on a cell: no width, minimum or maximum. */
  function Unsized(c: Cell): Cell {
    c.(width := Unset, minWidth := Unset, maxWidth := Unset)
  }

  /** Every header and body cell without width constraints. */
  function Cleared(t: Table): (r: Table)
    ensures SameShape(r, t) && r.layout == t.layout
    ensures forall k, i :: 0 <= k < |r.body| && 0 <= i < |r.body[k]| ==> r.body[k][i] == Unsized(t.body[k][i])
  {
    Table(t.layout,
      seq(|t.head|, k requires 0 <= k < |t.head| => UnsizedRow(t.head[k])),
      seq(|t.body|, k requires 0 <= k < |t.body| => UnsizedRow(t.body[k])))
  }

  function UnsizedRow(row: seq<Cell>): (r: seq<Cell>)
    ensures |r| == |row| && forall i :: 0 <= i < |row| ==> r[i] == Unsized(row[i])
  {
    seq(|row|, i requires 0 <= i < |row| => Unsized(row[i]))
  }

  /** A reset leaves no trace of the widths set before it: only the natural widths remain. */
  lemma ResetForgets(t: Table, natural: seq<nat>, j: nat, i: nat)
    requires j < |t.body| && i < |t.body[j]|
    ensures Refit(Cleared(t), Enumerated(natural), |natural|).body[j][i] ==
      if i < |natural| then SizeCell(t.body[j][i], natural[i]) else Unsized(t.body[j][i])
  {
    var m := Enumerated(natural);
    EnumeratedGet(natural, 0);
    RefitBodyCell(Cleared(t), m, |natural|, j, i);
    if i < |natural| {
      assert m[i].0 == i;
    }
  }

  // ------------------------------------------------------------- auto-size

  /** `autoSizeColumn` before measuring: the column's header and body cells lose their constraints. */
  function Unconstrained(t: Table, col: nat): (r: Table)
    ensures SameShape(r, t) && r.layout == t.layout
  {
    Table(t.layout,
      seq(|t.head|, k requires 0 <= k < |t.head| => if k == 0 then LooseAt(t.head[k], col) else t.head[k]),
      seq(|t.body|, k requires 0 <= k < |t.body| => LooseAt(t.body[k], col)))
  }

  function LooseAt(row: seq<Cell>, col: nat): (r: seq<Cell>)
    ensures |r| == |row|
  {
    if col < |row| then row[col := row[col].(width := Auto, minWidth := Auto, maxWidth := NoLimit)] else row
  }

  /** Once the measured width is set, the temporary loosening leaves no trace. */
  lemma AutoSizeOverwrites(t: Table, col: nat, w: nat)
    ensures Sized(Unconstrained(t, col), col, w) == Sized(t, col, w)
  {
    var s, r := Sized(Unconstrained(t, col), col, w), Sized(t, col, w);
    forall k | 0 <= k < |t.head|
      ensures s.head[k] == r.head[k]
    {
      LooseThenSize(t.head[k], col, w);
    }
    forall k | 0 <= k < |t.body|
      ensures s.body[k] == r.body[k]
    {
      LooseThenSize(t.body[k], col, w);
    }
  }

  lemma LooseThenSize(row: seq<Cell>, col: nat, w: nat)
    ensures SizeAt(LooseAt(row, col), col, w) == SizeAt(row, col, w)
  {
  }

  /** The widest of the header's and the body cells' measured widths. */
  function Widest(first: nat, rest: seq<nat>): nat {
    if rest == [] then first
    else
      var w := Widest(first, rest[..|rest| - 1]);
      if rest[|rest| - 1] > w then rest[|rest| - 1] else w
  }

  /** `Widest` is the maximum: no measured width exceeds it, and it is one of them. */
  lemma {:induction false} WidestIsMax(first: nat, rest: seq<nat>)
    ensures Widest(first, rest) >= first && forall k :: 0 <= k < |rest| ==> Widest(first, rest) >= rest[k]
    ensures Widest(first, rest) == first || exists k :: 0 <= k < |rest| && Widest(first, rest) == rest[k]
  {
    if rest != [] {
      var n := |rest| - 1;
      WidestIsMax(first, rest[..n]);
      assert forall k :: 0 <= k < n ==> rest[..n][k] == rest[k];
    }
  }

  /** The auto-size loop over the body cells' widths. */
  method MeasureWidest(headerWidth: nat, bodyWidths: seq<nat>) returns (maxWidth: nat)
    ensures maxWidth == Widest(headerWidth, bodyWidths)
  {
    maxWidth := headerWidth;
    var k := 0;
    while k < |bodyWidths|
      invariant k <= |bodyWidths| && maxWidth == Widest(headerWidth, bodyWidths[..k])
    {
      assert bodyWidths[..k + 1][..k] == bodyWidths[..k];
      if bodyWidths[k] > maxWidth {
        maxWidth := bodyWidths[k];
      }
      k := k + 1;
    }
    assert bodyWidths[..k] == bodyWidths;
  }

  /** The width auto-size settles on: 20 pixels of padding, and never below 60. */
  function AutoWidth(widest: nat): (r: nat)
    ensures r >= 60 && r >= widest + 20 && (r == 60 || r == widest + 20)
  {
    if widest + 20 > 60 then widest + 20 else 60
  }

  /** The width a drag has reached: the start width moved by the mouse, and never below 50. */
  function DragWidth(startWidth: nat, startX: int, clientX: int): (r: nat)
    ensures r >= 50 && r >= startWidth + (clientX - startX)
    ensures r == 50 || r == startWidth + (clientX - startX)
  {
    if startWidth + (clientX - startX) > 50 then startWidth + (clientX - startX) else 50
  }

  /** The width a drag starts from: the stored one, or 100 when there is none or it is 0. */
  function StartWidth(m: WidthMap, col: nat): (r: nat)
    ensures r > 0
    ensures JsMap.Get(m, col).Some? && JsMap.Get(m, col).value != 0 ==> r == JsMap.Get(m, col).value
    ensures JsMap.Get(m, col).None? || JsMap.Get(m, col) == Some(0) ==> r == 100
  {
    match JsMap.Get(m, col)
    case Some(w) => if w != 0 then w else 100
    case None => 100
  }

  /** What setting a width does to the map and the table: nothing without a table. */
  predicate SetWidthEffect(m0: WidthMap, t0: Option<Table>, col: nat, w: nat, m: WidthMap, t: Option<Table>) {
    if t0.None? then m == m0 && t == t0
    else m == JsMap.Put(m0, col, w) && t == Some(Sized(t0.value, col, w))
  }

  // ------------------------------------------------------------- the resizer

  class Resizer {
    var widths: WidthMap
    var resizing: bool
    var currentCol: int
    var startX: int
    var startWidth: nat
    /** The `.flextable` element, when the page has one. */
    var table: Option<Table>

    /** The map never holds a key twice, and the column index is -1 exactly while no drag lasts. */
    predicate Valid()
      reads this`widths, this`resizing, this`currentCol
    {
      JsMap.DistinctKeys(widths) && (if resizing then currentCol >= 0 else currentCol == -1)
    }

    /** The module's initial state: no widths, no drag. */
    constructor (t: Option<Table>)
      ensures Valid() && widths == [] && !resizing && currentCol == -1 && startX == 0 && startWidth == 0 && table == t
    {
      widths, resizing, currentCol, startX, startWidth, table := [], false, -1, 0, 0, t;
    }

    /**
     * `initColumnResize`: false without a table or a header row; otherwise
     * the layout is fixed, every header of the first row has a handle and
     * every header column that had no width is recorded at its measured one.
     */
    method Init(measured: seq<nat>) returns (ok: bool)
      requires Valid()
      requires table.Some? && table.value.head != [] ==> |measured| == |table.value.head[0]|
      modifies this`widths, this`table
      ensures Valid()
      ensures ok <==> old(table).Some? && old(table).value.head != []
      ensures old(table).None? ==> table == old(table) && widths == old(widths)
      ensures old(table).Some? && !ok ==> widths == old(widths) && table == Some(old(table).value.(layout := Fixed))
      ensures ok ==> widths == RecordMissing(old(widths), measured)
      ensures ok ==> var t := old(table).value;
        table == Some(t.(layout := Fixed, head := t.head[0 := InitRow(t.head[0], old(widths), measured)]))
    {
      if table.None? {
        return false;
      }
      var t := table.value.(layout := Fixed);
      if t.head == [] {
        table := Some(t);
        return false;
      }
      var row, m := InitHeaderRow(t.head[0], widths, measured);
      widths, table := m, Some(t.(head := t.head[0 := row]));
      ok := true;
    }

    /** `startResize`: the drag begins on a column at a mouse position. */
    method StartResize(colIndex: nat, clientX: int)
      requires Valid()
      modifies this`resizing, this`currentCol, this`startX, this`startWidth
      ensures Valid() && resizing && currentCol == colIndex && startX == clientX
      ensures startWidth == StartWidth(widths, colIndex)
    {
      resizing, currentCol, startX, startWidth := true, colIndex, clientX, StartWidth(widths, colIndex);
    }

    /**
     * `doResize` (and the document's mouse-move handler): while a drag
     * lasts, the column is set to the drag width; otherwise nothing happens.
     */
    method DoResize(clientX: int)
      requires Valid()
      modifies this`widths, this`table
      ensures Valid()
      ensures !old(resizing) ==> widths == old(widths) && table == old(table)
      ensures old(resizing) && table.Some? ==> JsMap.Get(widths, currentCol as nat) == Some(DragWidth(startWidth, startX, clientX))
      ensures old(resizing) ==> SetWidthEffect(old(widths), old(table), currentCol as nat, DragWidth(startWidth, startX, clientX), widths, table)
    {
      if !resizing {
        return;
      }
      SetColumnWidth(currentCol as nat, DragWidth(startWidth, startX, clientX));
    }

    /** `stopResize` (and the document's mouse-up handler): the drag ends; widths stay as the last move set them. */
    method StopResize()
      requires Valid()
      modifies this`resizing, this`currentCol
      ensures Valid() && !resizing && currentCol == -1
    {
      if !resizing {
        return;
      }
      resizing, currentCol := false, -1;
    }

    /** `setColumnWidth`: the column's entry, and no other, becomes w, and its cells are held at w. */
    method SetColumnWidth(colIndex: nat, width: nat)
      requires Valid()
      modifies this`widths, this`table
      ensures Valid()
      ensures SetWidthEffect(old(widths), old(table), colIndex, width, widths, table)
      ensures table.Some? ==> forall c :: JsMap.Get(widths, c) == if c == colIndex then Some(width) else JsMap.Get(old(widths), c)
    {
      if table.None? {
        return;
      }
      forall c
        ensures JsMap.Get(JsMap.Put(widths, colIndex, width), c) == if c == colIndex then Some(width) else JsMap.Get(widths, c)
      {
        JsMap.PutGet(widths, colIndex, width, c);
      }
      JsMap.PutDistinct(widths, colIndex, width);
      widths, table := JsMap.Put(widths, colIndex, width), Some(Sized(table.value, colIndex, width));
    }

    /**
     * `reapplyColumnWidths`: every stored width set again, in map order,
     * then any header of the first row without a handle gets one; the map is
     * unchanged.
     */
    method ReapplyColumnWidths()
      requires Valid()
      modifies this`table
      ensures Valid()
      ensures old(table).None? ==> table == old(table)
      ensures old(table).Some? ==> var r := Refit(old(table).value.(layout := Fixed), widths, |widths|);
        table == Some(if r.head == [] then r else r.(head := r.head[0 := WithHandles(r.head[0])]))
    {
      if table.None? {
        return;
      }
      var r := RefitAll(table.value.(layout := Fixed), widths);
      if r.head != [] {
        r := r.(head := r.head[0 := WithHandles(r.head[0])]);
      }
      table := Some(r);
    }

    /**
     * `autoSizeColumn`: nothing without a table or without a header at that
     * index; otherwise the column is set to its widest measured cell plus
     * padding, at least 60.
     */
    method AutoSizeColumn(colIndex: nat, headerWidth: nat, bodyWidths: seq<nat>)
      requires Valid()
      modifies this`widths, this`table
      ensures Valid()
      ensures old(table).None? || Width(old(table).value.head) <= colIndex ==> widths == old(widths) && table == old(table)
      ensures old(table).Some? && colIndex < Width(old(table).value.head) ==>
        var w := AutoWidth(Widest(headerWidth, bodyWidths));
        widths == JsMap.Put(old(widths), colIndex, w) && table == Some(Sized(old(table).value, colIndex, w))
    {
      if table.None? || Width(table.value.head) <= colIndex {
        return;
      }
      var t0 := table.value;
      table := Some(Unconstrained(t0, colIndex));
      var maxWidth := MeasureWidest(headerWidth, bodyWidths);
      var finalWidth := AutoWidth(maxWidth);
      AutoSizeOverwrites(t0, colIndex, finalWidth);
      SetColumnWidth(colIndex, finalWidth);
    }

    /** `enableDoubleClickAutoSize`: every handle in the first header row gets the double-click listener. */
    method EnableDoubleClickAutoSize()
      requires Valid()
      modifies this`table
      ensures Valid()
      ensures old(table).None? || old(table).value.head == [] ==> table == old(table)
      ensures old(table).Some? && old(table).value.head != [] ==> var t := old(table).value;
        table == Some(t.(head := t.head[0 := seq(|t.head[0]|, i requires 0 <= i < |t.head[0]| => Armed(t.head[0][i]))]))
    {
      if table.None? || table.value.head == [] {
        return;
      }
      var t := table.value;
      table := Some(t.(head := t.head[0 := seq(|t.head[0]|, i requires 0 <= i < |t.head[0]| => Armed(t.head[0][i]))]));
    }

    /**
     * `resetColumnWidths`: the map is cleared and every cell loses its
     * constraints; then each header column of the first row is recorded and
     * set at its natural width. Nothing happens without a table.
     */
    method ResetColumnWidths(natural: seq<nat>)
      requires Valid()
      requires table.Some? ==> |natural| == Width(table.value.head)
      modifies this`widths, this`table
      ensures Valid()
      ensures old(table).None? ==> widths == old(widths) && table == old(table)
      ensures old(table).Some? ==> widths == Enumerated(natural)
      ensures old(table).Some? ==> table == Some(Refit(Cleared(old(table).value).(layout := Fixed), Enumerated(natural), |natural|))
    {
      if table.None? {
        return;
      }
      var t0 := Cleared(table.value).(layout := Fixed);
      var t := t0;
      var n := |natural|;
      var m: WidthMap := [];
      var colIndex := 0;
      while colIndex < n
        invariant colIndex <= n
        invariant m == Enumerated(natural[..colIndex])
        invariant t == Refit(t0, Enumerated(natural), colIndex)
      {
        EnumeratedPut(natural, colIndex);
        m := JsMap.Put(m, colIndex, natural[colIndex]);
        t := Sized(t, colIndex, natural[colIndex]);
        colIndex := colIndex + 1;
      }
      assert natural[..n] == natural;
      EnumeratedGet(natural, 0);
      widths, table := m, Some(t);
    }
  }

  /** The initialisation loop over the first header row: handles, and the widths of columns not yet recorded. */
  method InitHeaderRow(row0: seq<Cell>, m0: WidthMap, measured: seq<nat>) returns (row: seq<Cell>, m: WidthMap)
    requires JsMap.DistinctKeys(m0) && |measured| == |row0|
    ensures row == InitRow(row0, m0, measured) && m == RecordMissing(m0, measured) && JsMap.DistinctKeys(m)
  {
    row, m := [], m0;
    var colIndex := 0;
    while colIndex < |row0|
      invariant colIndex <= |row0| && |row| == colIndex
      invariant forall i :: 0 <= i < colIndex ==> row[i] == InitCell(row0[i], i, m0, measured)
      invariant m == RecordMissing(m0, measured[..colIndex]) && JsMap.DistinctKeys(m)
    {
      var recorded := colIndex in JsMap.Keys(m);
      assert recorded <==> colIndex in JsMap.Keys(m0) by {
        RecordMissingGet(m0, measured[..colIndex], colIndex);
        KeyOfGet(m, colIndex);
        KeyOfGet(m0, colIndex);
      }
      assert measured[..colIndex + 1][..colIndex] == measured[..colIndex];
      var th := WithHandle(row0[colIndex], colIndex);
      if !recorded {
        JsMap.PutDistinct(m, colIndex, measured[colIndex]);
        m := JsMap.Put(m, colIndex, measured[colIndex]);
        th := th.(width := Px(measured[colIndex]));
      }
      row := row + [th];
      colIndex := colIndex + 1;
    }
    assert measured[..colIndex] == measured;
  }

  /** The re-apply loop over the map's entries. */
  method RefitAll(t0: Table, m: WidthMap) returns (t: Table)
    ensures t == Refit(t0, m, |m|)
  {
    t := t0;
    var k := 0;
    while k < |m|
      invariant k <= |m| && t == Refit(t0, m, k)
    {
      var (colIndex, width) := m[k];
      t := Sized(t, colIndex, width);
      k := k + 1;
    }
  }
}
