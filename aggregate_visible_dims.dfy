/**
 * Group-by-visible-dimensions: while a dimension column is hidden, the body
 * shows one row per tuple of the visible dimension values, with the visible
 * measure columns summed; once every dimension is visible again the detail
 * rows kept in a snapshot are written back.
 */
module AggregateVisibleDims {
  import opened Wrappers
  import JsText
  import JsMap
  import SeqOps
  import Format
  import FilterPanel

  type Tr = FilterPanel.Tr

  /** A detail row as read from the body: the trimmed text of each cell. */
  type Row = seq<string>

  /** `Intl.NumberFormat(...).format`, locale-dependent and left abstract. */
  type Fmt = real -> string

  datatype ColType = Dimension | Measure

  // ------------------------------------------------------ detectColTypes

  /** The trimmed text of cell c, or nothing when the row has no such cell. */
  function CellAt(tr: Tr, c: nat): Option<string> {
    if c < |tr.cells| then Some(JsText.Trim(tr.cells[c].text)) else None
  }

  function CellColumn(rows: seq<Tr>, c: nat): (r: seq<Option<string>>)
    ensures |r| == |rows| && forall k :: 0 <= k < |rows| ==> r[k] == CellAt(rows[k], c)
  {
    seq(|rows|, k requires 0 <= k < |rows| => CellAt(rows[k], c))
  }

  /** The width `detectColTypes` uses: the cell count of the first sampled row. */
  function SampleWidth(rows: seq<Tr>): nat {
    if rows == [] then 0 else |rows[0].cells|
  }

  /** The 60% vote of one column: at least three fifths of its non-empty cells are numbers. */
  function ColumnType(rows: seq<Tr>, c: nat): ColType {
    var col := CellColumn(rows, c);
    if Format.AtLeastThreeFifths(Format.Numbers(col), Format.Total(col)) then Measure else Dimension
  }

  /** The types of all columns, from the at most 200 visible body rows. */
  function DetectedTypes(body: Option<seq<Tr>>): (r: seq<ColType>)
    ensures body.None? ==> r == []
  {
    if body.None? then []
    else
      var rows := FilterPanel.SampleRows(body.value);
      seq(SampleWidth(rows), c requires c >= 0 => ColumnType(rows, c))
  }

  /** The inner loop of `detectColTypes`: non-empty cells, and those of them that are numbers. */
  method CountColumn(rows: seq<Tr>, c: nat) returns (n: nat, total: nat)
    ensures n == Format.Numbers(CellColumn(rows, c))
    ensures total == Format.Total(CellColumn(rows, c))
  {
    n, total := 0, 0;
    for i := 0 to |rows|
      invariant n == Format.Numbers(CellColumn(rows[..i], c))
      invariant total == Format.Total(CellColumn(rows[..i], c))
    {
      var col := CellColumn(rows[..i + 1], c);
      assert col[..i] == CellColumn(rows[..i], c);
      assert col[i] == CellAt(rows[i], c);
      var tr := rows[i];
      if c >= |tr.cells| {
        continue;
      }
      var raw := JsText.Trim(tr.cells[c].text);
      if raw == "" {
        continue;
      }
      total := total + 1;
      if Format.ToNumber(Some(raw)).Some? {
        n := n + 1;
      }
    }
    assert rows[..|rows|] == rows;
  }

  /**
   * `detectColTypes`: one type per cell of the first sampled row; a column
   * is a measure iff at least 60% of its non-empty sampled cells are numbers.
   */
  method DetectColTypes(body: Option<seq<Tr>>) returns (types: seq<ColType>)
    ensures types == DetectedTypes(body)
    ensures body.Some? ==> var rows := FilterPanel.SampleRows(body.value);
      |types| == SampleWidth(rows)
      && forall c :: 0 <= c < |types| ==>
           (types[c] == Measure <==>
              Format.AtLeastThreeFifths(Format.Numbers(CellColumn(rows, c)), Format.Total(CellColumn(rows, c))))
  {
    if body.None? {
      return [];
    }
    var rows := FilterPanel.SampleRows(body.value);
    var colCount := SampleWidth(rows);
    types := seq(colCount, _ => Dimension);
    for c := 0 to colCount
      invariant |types| == colCount
      invariant forall k :: 0 <= k < c ==> types[k] == ColumnType(rows, k)
      invariant forall k :: c <= k < colCount ==> types[k] == Dimension
    {
      var n, total := CountColumn(rows, c);
      types := types[c := if total > 0 && 5 * n >= 3 * total then Measure else Dimension];
    }
  }

  /** A column whose sampled cells are all missing or blank is a dimension. */
  lemma BlankColumnIsDimension(body: seq<Tr>, c: nat)
    requires c < SampleWidth(FilterPanel.SampleRows(body))
    requires forall k :: 0 <= k < |body| ==> CellAt(body[k], c) in {None, Some("")}
    ensures DetectedTypes(Some(body))[c] == Dimension
  {
    var rows := FilterPanel.SampleRows(body);
    var col := CellColumn(rows, c);
    forall k | 0 <= k < |col|
      ensures !Format.Counted(col[k])
    {
      assert rows[k] in body;
      var j :| 0 <= j < |body| && body[j] == rows[k];
      assert CellAt(body[j], c) in {None, Some("")};
    }
    Format.BlankSamplesCountNothing(col);
    assert DetectedTypes(Some(body))[c] == ColumnType(rows, c);
  }

  // ------------------------------------------------ hidden columns, indices

  /** `hiddenMap()[i]`: whether header cell i is hidden; beyond the header nothing is. */
  predicate HiddenAt(hidden: seq<bool>, i: nat) {
    i < |hidden| && hidden[i]
  }

  /** The indices of the columns of type t, in increasing order (`dimIndices`, `measIndices`). */
  function IndicesOf(types: seq<ColType>, t: ColType): (r: seq<nat>)
    ensures forall k :: 0 <= k < |r| ==> r[k] < |types| && types[r[k]] == t
    ensures forall i :: 0 <= i < |types| && types[i] == t ==> i in r
    decreases |types|
  {
    if types == [] then []
    else
      var pre := IndicesOf(types[..|types| - 1], t);
      if types[|types| - 1] == t then pre + [|types| - 1] else pre
  }

  predicate Increasing(s: seq<nat>) {
    forall k, l :: 0 <= k < l < |s| ==> s[k] < s[l]
  }

  /** The indices among idx whose header cell is not hidden. */
  function VisibleOnly(idx: seq<nat>, hidden: seq<bool>): (r: seq<nat>)
    ensures forall k :: 0 <= k < |r| ==> r[k] in idx && !HiddenAt(hidden, r[k])
    ensures forall k :: 0 <= k < |idx| && !HiddenAt(hidden, idx[k]) ==> idx[k] in r
    decreases |idx|
  {
    if idx == [] then []
    else
      var pre := VisibleOnly(idx[..|idx| - 1], hidden);
      var i := idx[|idx| - 1];
      if HiddenAt(hidden, i) then pre else pre + [i]
  }

  /** The indices of a type come in increasing column order. */
  lemma {:induction false} IndicesIncreasing(types: seq<ColType>, t: ColType)
    ensures Increasing(IndicesOf(types, t))
    decreases |types|
  {
    if types != [] {
      IndicesIncreasing(types[..|types| - 1], t);
    }
  }

  /** Keeping the visible indices keeps their order. */
  lemma {:induction false} VisibleOnlyIncreasing(idx: seq<nat>, hidden: seq<bool>)
    requires Increasing(idx)
    ensures Increasing(VisibleOnly(idx, hidden))
    decreases |idx|
  {
    if idx != [] {
      var n := |idx| - 1;
      var pre := idx[..n];
      var i := idx[n];
      assert forall k :: 0 <= k < n ==> pre[k] == idx[k];
      VisibleOnlyIncreasing(pre, hidden);
      var r := VisibleOnly(pre, hidden);
      if !HiddenAt(hidden, i) {
        var r' := r + [i];
        assert VisibleOnly(idx, hidden) == r';
        forall k, l | 0 <= k < l < |r'| ensures r'[k] < r'[l] {
          if l == |r| {
            var j :| 0 <= j < n && pre[j] == r[k];
            assert r'[k] == idx[j] && r'[l] == idx[n];
          } else {
            assert r'[k] == r[k] && r'[l] == r[l];
          }
        }
      }
    }
  }

  /** `dims.some(i => hidden[i])`. */
  predicate SomeHidden(dims: seq<nat>, hidden: seq<bool>)
    decreases |dims|
  {
    dims != [] && (HiddenAt(hidden, dims[0]) || SomeHidden(dims[1..], hidden))
  }

  lemma {:induction false} SomeHiddenIff(dims: seq<nat>, hidden: seq<bool>)
    ensures SomeHidden(dims, hidden) <==> exists k :: 0 <= k < |dims| && HiddenAt(hidden, dims[k])
    decreases |dims|
  {
    if dims != [] {
      SomeHiddenIff(dims[1..], hidden);
      if !HiddenAt(hidden, dims[0]) && exists k :: 0 <= k < |dims| && HiddenAt(hidden, dims[k]) {
        var k :| 0 <= k < |dims| && HiddenAt(hidden, dims[k]);
        assert dims[1..][k - 1] == dims[k];
      }
    }
  }

  /** Aggregation is wanted iff some dimension column is hidden in the first header row. */
  lemma AnyHiddenDimension(types: seq<ColType>, hidden: seq<bool>)
    ensures SomeHidden(IndicesOf(types, Dimension), hidden)
      <==> exists i :: 0 <= i < |types| && types[i] == Dimension && HiddenAt(hidden, i)
  {
    SomeHiddenIff(IndicesOf(types, Dimension), hidden);
  }

  // ----------------------------------------------------------- groupAndSum

  /** U+241F, the separator the grouping key is joined with. */
  const KeySep: char := '␟'

  /** `r[i] ?? ""`. */
  function CellOr(r: Row, i: nat): string {
    if i < |r| then r[i] else ""
  }

  /** `r[i]`, undefined beyond the row. */
  function CellOpt(r: Row, i: nat): Option<string> {
    if i < |r| then Some(r[i]) else None
  }

  /** The row's values in the grouping columns. */
  function DimValues(r: Row, dimIdx: seq<nat>): (v: seq<string>)
    ensures |v| == |dimIdx| && forall k :: 0 <= k < |v| ==> v[k] == CellOr(r, dimIdx[k])
  {
    seq(|dimIdx|, k requires 0 <= k < |dimIdx| => CellOr(r, dimIdx[k]))
  }

  function GroupKey(r: Row, dimIdx: seq<nat>): string {
    JsText.Join(DimValues(r, dimIdx), [KeySep])
  }

  /** What a row adds to a measure's sum: its value if it parses, else nothing. */
  function Amount(r: Row, i: nat): real {
    Format.ToNumber(CellOpt(r, i)).GetOr(0.0)
  }

  /** A group: the dimension values of its first row and one running sum per measure. */
  datatype Entry = Entry(dims: seq<string>, sums: seq<real>)

  function Zeros(n: nat): (r: seq<real>)
    ensures |r| == n && forall j :: 0 <= j < n ==> r[j] == 0.0
  {
    seq(n, _ => 0.0)
  }

  /** The `entry.sums[j] += n` step for one row. */
  function AddRow(sums: seq<real>, r: Row, measIdx: seq<nat>): (s: seq<real>)
    requires |sums| == |measIdx|
    ensures |s| == |sums|
  {
    seq(|sums|, j requires 0 <= j < |sums| => sums[j] + Amount(r, measIdx[j]))
  }

  /** Every entry has one value per grouping column and one sum per measure. */
  predicate WellShaped(g: JsMap.OrderedMap<string, Entry>, dimIdx: seq<nat>, measIdx: seq<nat>) {
    forall p :: 0 <= p < |g| ==> |g[p].1.dims| == |dimIdx| && |g[p].1.sums| == |measIdx|
  }

  /** The Map the first loop of `groupAndSum` builds, over the rows in order. */
  function Groups(rows: seq<Row>, dimIdx: seq<nat>, measIdx: seq<nat>): (g: JsMap.OrderedMap<string, Entry>)
    ensures WellShaped(g, dimIdx, measIdx)
    ensures |g| <= |rows|
    decreases |rows|
  {
    if rows == [] then []
    else
      var g := Groups(rows[..|rows| - 1], dimIdx, measIdx);
      var r := rows[|rows| - 1];
      var k := GroupKey(r, dimIdx);
      var e := JsMap.Get(g, k).GetOr(Entry(DimValues(r, dimIdx), Zeros(|measIdx|)));
      JsMap.Put(g, k, Entry(e.dims, AddRow(e.sums, r, measIdx)))
  }

  /** `out[i] = v` on a JavaScript array: writing beyond the end grows it, leaving holes. */
  function Place(out: seq<Option<string>>, i: nat, v: string): (r: seq<Option<string>>)
    ensures i < |out| ==> r == out[i := Some(v)]
    ensures i >= |out| ==> (|r| == i + 1 && r[..|out|] == out && r[i] == Some(v)
      && forall k :: |out| <= k < i ==> r[k].None?)
  {
    if i < |out| then out[i := Some(v)] else out + seq(i - |out|, _ => None) + [Some(v)]
  }

  /** `idx.forEach((i, k) => { out[i] = vals[k]; })`. */
  function PlaceAll(out: seq<Option<string>>, idx: seq<nat>, vals: seq<string>): seq<Option<string>>
    requires |idx| <= |vals|
    decreases |idx|
  {
    if idx == [] then out
    else Place(PlaceAll(out, idx[..|idx| - 1], vals), idx[|idx| - 1], vals[|idx| - 1])
  }

  function Blank(n: nat): (r: seq<Option<string>>)
    ensures |r| == n && forall k :: 0 <= k < n ==> r[k] == Some("")
  {
    seq(n, _ => Some(""))
  }

  function Formatted(sums: seq<real>, fmt: Fmt): (r: seq<string>)
    ensures |r| == |sums| && forall k :: 0 <= k < |sums| ==> r[k] == fmt(sums[k])
  {
    seq(|sums|, k requires 0 <= k < |sums| => fmt(sums[k]))
  }

  /** One output row: colCount blanks, then the dimension values, then the formatted sums. */
  function LayoutRow(e: Entry, dimIdx: seq<nat>, measIdx: seq<nat>, colCount: nat, fmt: Fmt): seq<Option<string>>
    requires |e.dims| == |dimIdx| && |e.sums| == |measIdx|
  {
    PlaceAll(PlaceAll(Blank(colCount), dimIdx, e.dims), measIdx, Formatted(e.sums, fmt))
  }

  /** The second loop of `groupAndSum`: one row per Map entry, in the Map's order. */
  function Layout(g: JsMap.OrderedMap<string, Entry>, dimIdx: seq<nat>, measIdx: seq<nat>, colCount: nat, fmt: Fmt)
    : (out: seq<seq<Option<string>>>)
    requires WellShaped(g, dimIdx, measIdx)
    ensures |out| == |g|
    ensures forall p :: 0 <= p < |g| ==> out[p] == LayoutRow(g[p].1, dimIdx, measIdx, colCount, fmt)
  {
    seq(|g|, p requires 0 <= p < |g| => LayoutRow(g[p].1, dimIdx, measIdx, colCount, fmt))
  }

  /** `groupAndSum`'s result, holes included. */
  function GroupAndSumSpec(rows: seq<Row>, dimIdx: seq<nat>, measIdx: seq<nat>, colCount: nat, fmt: Fmt)
    : seq<seq<Option<string>>>
  {
    Layout(Groups(rows, dimIdx, measIdx), dimIdx, measIdx, colCount, fmt)
  }

  /** The `measIdx.forEach` loop that adds one row into an entry's sums. */
  method AccumulateSums(sums: seq<real>, r: Row, measIdx: seq<nat>) returns (s: seq<real>)
    requires |sums| == |measIdx|
    ensures s == AddRow(sums, r, measIdx)
  {
    s := sums;
    for j := 0 to |measIdx|
      invariant |s| == |sums|
      invariant forall l :: 0 <= l < j ==> s[l] == sums[l] + Amount(r, measIdx[l])
      invariant forall l :: j <= l < |sums| ==> s[l] == sums[l]
    {
      var n := Format.ToNumber(CellOpt(r, measIdx[j]));
      ghost var a := Amount(r, measIdx[j]);
      assert a == n.GetOr(0.0);
      if n.Some? {
        s := s[j := s[j] + n.value];
      }
      assert s[j] == sums[j] + a;
    }
    AddRowExactly(sums, r, measIdx, s);
  }

  /** A sequence with every sum advanced by the row's amount is that row's `AddRow`. */
  lemma AddRowExactly(sums: seq<real>, r: Row, measIdx: seq<nat>, s: seq<real>)
    requires |sums| == |measIdx| && |s| == |sums|
    requires forall l :: 0 <= l < |sums| ==> s[l] == sums[l] + Amount(r, measIdx[l])
    ensures s == AddRow(sums, r, measIdx)
  {
    var t := AddRow(sums, r, measIdx);
    assert forall l :: 0 <= l < |s| ==> s[l] == t[l];
  }

  /** A `forEach` that writes `vals[k]` at `idx[k]`. */
  method PlaceLoop(out0: seq<Option<string>>, idx: seq<nat>, vals: seq<string>) returns (out: seq<Option<string>>)
    requires |idx| <= |vals|
    ensures out == PlaceAll(out0, idx, vals)
  {
    out := out0;
    for k := 0 to |idx|
      invariant out == PlaceAll(out0, idx[..k], vals)
    {
      assert idx[..k + 1][..k] == idx[..k];
      out := Place(out, idx[k], vals[k]);
    }
    assert idx[..|idx|] == idx;
  }

  /** The first loop of `groupAndSum`: one Map entry per key, sums accumulated in place. */
  method BuildGroups(rows: seq<Row>, dimIdx: seq<nat>, measIdx: seq<nat>) returns (m: JsMap.OrderedMap<string, Entry>)
    ensures m == Groups(rows, dimIdx, measIdx)
  {
    m := [];
    for i := 0 to |rows|
      invariant m == Groups(rows[..i], dimIdx, measIdx)
    {
      assert rows[..i + 1][..i] == rows[..i];
      var r := rows[i];
      var key := GroupKey(r, dimIdx);
      var found := JsMap.Get(m, key);
      var entry := if found.Some? then found.value else Entry(DimValues(r, dimIdx), Zeros(|measIdx|));
      var sums := AccumulateSums(entry.sums, r, measIdx);
      m := JsMap.Put(m, key, Entry(entry.dims, sums));
    }
    assert rows[..|rows|] == rows;
  }

  /**
   * `groupAndSum(rows, dimIdx, measIdx)` with `getColumnCount()` as colCount
   * and `formatNumber` as fmt.
   */
  method GroupAndSum(rows: seq<Row>, dimIdx: seq<nat>, measIdx: seq<nat>, colCount: nat, fmt: Fmt)
    returns (rowsOut: seq<seq<Option<string>>>)
    ensures rowsOut == GroupAndSumSpec(rows, dimIdx, measIdx, colCount, fmt)
  {
    var m := BuildGroups(rows, dimIdx, measIdx);
    rowsOut := LayOut(m, dimIdx, measIdx, colCount, fmt);
  }

  /** The second loop of `groupAndSum`: each Map entry laid out as one row. */
  method LayOut(m: JsMap.OrderedMap<string, Entry>, dimIdx: seq<nat>, measIdx: seq<nat>, colCount: nat, fmt: Fmt)
    returns (rowsOut: seq<seq<Option<string>>>)
    requires WellShaped(m, dimIdx, measIdx)
    ensures rowsOut == Layout(m, dimIdx, measIdx, colCount, fmt)
  {
    rowsOut := [];
    for p := 0 to |m|
      invariant |rowsOut| == p
      invariant forall q :: 0 <= q < p ==> rowsOut[q] == LayoutRow(m[q].1, dimIdx, measIdx, colCount, fmt)
    {
      var e := m[p].1;
      var out := PlaceLoop(Blank(colCount), dimIdx, e.dims);
      out := PlaceLoop(out, measIdx, Formatted(e.sums, fmt));
      rowsOut := rowsOut + [out];
    }
    LayoutExactly(m, dimIdx, measIdx, colCount, fmt, rowsOut);
  }

  /** Rows that are the entries' laid-out rows one by one are their `Layout`. */
  lemma LayoutExactly(g: JsMap.OrderedMap<string, Entry>, dimIdx: seq<nat>, measIdx: seq<nat>, colCount: nat, fmt: Fmt,
                      out: seq<seq<Option<string>>>)
    requires WellShaped(g, dimIdx, measIdx) && |out| == |g|
    requires forall q :: 0 <= q < |g| ==> out[q] == LayoutRow(g[q].1, dimIdx, measIdx, colCount, fmt)
    ensures out == Layout(g, dimIdx, measIdx, colCount, fmt)
  {
    var l := Layout(g, dimIdx, measIdx, colCount, fmt);
    assert forall q :: 0 <= q < |g| ==> out[q] == l[q];
  }

  // ------------------------------------------- groupAndSum: the properties

  /** The distinct tuples of grouping values, in order of first occurrence. */
  function Tuples(rows: seq<Row>, dimIdx: seq<nat>): seq<seq<string>>
    decreases |rows|
  {
    if rows == [] then []
    else
      var ts := Tuples(rows[..|rows| - 1], dimIdx);
      var t := DimValues(rows[|rows| - 1], dimIdx);
      if t in ts then ts else ts + [t]
  }

  lemma {:induction false} TuplesMembers(rows: seq<Row>, dimIdx: seq<nat>)
    ensures SeqOps.Distinct(Tuples(rows, dimIdx))
    ensures forall i :: 0 <= i < |rows| ==> DimValues(rows[i], dimIdx) in Tuples(rows, dimIdx)
    ensures forall t :: t in Tuples(rows, dimIdx) ==> exists i :: 0 <= i < |rows| && DimValues(rows[i], dimIdx) == t
    decreases |rows|
  {
    if rows != [] {
      var pre := rows[..|rows| - 1];
      TuplesMembers(pre, dimIdx);
      assert forall i :: 0 <= i < |pre| ==> rows[i] == pre[i];
    }
  }

  /** No grouping value contains the separator. */
  predicate SeparatorFree(rows: seq<Row>, dimIdx: seq<nat>) {
    forall i, k :: 0 <= i < |rows| && 0 <= k < |dimIdx| ==> KeySep !in CellOr(rows[i], dimIdx[k])
  }

  function DimsOf(g: JsMap.OrderedMap<string, Entry>): (r: seq<seq<string>>)
    ensures |r| == |g| && forall p :: 0 <= p < |g| ==> r[p] == g[p].1.dims
  {
    seq(|g|, p requires 0 <= p < |g| => g[p].1.dims)
  }

  /** Each entry is stored under the join of its own dimension values, which hold no separator. */
  predicate KeyedByDims(g: JsMap.OrderedMap<string, Entry>, dimIdx: seq<nat>) {
    forall p :: 0 <= p < |g| ==>
      g[p].0 == JsText.Join(g[p].1.dims, [KeySep])
      && |g[p].1.dims| == |dimIdx|
      && forall x :: 0 <= x < |g[p].1.dims| ==> KeySep !in g[p].1.dims[x]
  }

  /**
   * One output group per distinct tuple of grouping values, in order of first
   * occurrence, as long as no value contains the separator.
   */
  lemma {:induction false} GroupsFollowTuples(rows: seq<Row>, dimIdx: seq<nat>, measIdx: seq<nat>)
    requires SeparatorFree(rows, dimIdx)
    ensures DimsOf(Groups(rows, dimIdx, measIdx)) == Tuples(rows, dimIdx)
    ensures KeyedByDims(Groups(rows, dimIdx, measIdx), dimIdx)
    ensures JsMap.DistinctKeys(Groups(rows, dimIdx, measIdx))
    decreases |rows|
  {
    if rows != [] {
      var pre := rows[..|rows| - 1];
      var r := rows[|rows| - 1];
      assert SeparatorFree(pre, dimIdx) by {
        assert forall i :: 0 <= i < |pre| ==> pre[i] == rows[i];
      }
      GroupsFollowTuples(pre, dimIdx, measIdx);
      var g := Groups(pre, dimIdx, measIdx);
      var t := DimValues(r, dimIdx);
      var k := GroupKey(r, dimIdx);
      assert forall x :: 0 <= x < |t| ==> KeySep !in t[x] by {
        assert forall x :: 0 <= x < |t| ==> t[x] == CellOr(rows[|rows| - 1], dimIdx[x]);
      }
      var e := JsMap.Get(g, k).GetOr(Entry(t, Zeros(|measIdx|)));
      GroupStep(g, dimIdx, t, Tuples(pre, dimIdx), Entry(e.dims, AddRow(e.sums, r, measIdx)));
    }
  }

  /** One row added to the Map keeps it keyed by its entries' tuples, extended by a new tuple. */
  lemma GroupStep(g: JsMap.OrderedMap<string, Entry>, dimIdx: seq<nat>, t: seq<string>, ts: seq<seq<string>>, e': Entry)
    requires DimsOf(g) == ts && KeyedByDims(g, dimIdx) && JsMap.DistinctKeys(g)
    requires |t| == |dimIdx| && forall x :: 0 <= x < |t| ==> KeySep !in t[x]
    requires e'.dims == JsMap.Get(g, JsText.Join(t, [KeySep])).GetOr(Entry(t, [])).dims
    ensures var g' := JsMap.Put(g, JsText.Join(t, [KeySep]), e');
      DimsOf(g') == (if t in ts then ts else ts + [t])
      && KeyedByDims(g', dimIdx) && JsMap.DistinctKeys(g')
  {
    var k := JsText.Join(t, [KeySep]);
    JsMap.PutDistinct(g, k, e');
    var i := SeqOps.IndexOf(JsMap.Keys(g), k);
    if i >= 0 {
      GroupStepFound(g, dimIdx, t, e', i);
    } else {
      GroupStepNew(g, dimIdx, t, e');
    }
  }

  /** The key is there: its entry is replaced in place, with the same tuple. */
  lemma GroupStepFound(g: JsMap.OrderedMap<string, Entry>, dimIdx: seq<nat>, t: seq<string>, e': Entry, i: nat)
    requires KeyedByDims(g, dimIdx) && JsMap.DistinctKeys(g)
    requires |t| == |dimIdx| && forall x :: 0 <= x < |t| ==> KeySep !in t[x]
    requires i < |g| && i == SeqOps.IndexOf(JsMap.Keys(g), JsText.Join(t, [KeySep]))
    requires e'.dims == JsMap.Get(g, JsText.Join(t, [KeySep])).GetOr(Entry(t, [])).dims
    ensures var g' := JsMap.Put(g, JsText.Join(t, [KeySep]), e');
      t in DimsOf(g) && DimsOf(g') == DimsOf(g) && KeyedByDims(g', dimIdx)
  {
    var k := JsText.Join(t, [KeySep]);
    JsText.JoinInjective(g[i].1.dims, t, KeySep);
    assert DimsOf(g)[i] == t;
    var g' := g[i := (k, e')];
    assert JsMap.Put(g, k, e') == g';
    assert e' == g'[i].1;
    assert forall p :: 0 <= p < |g| ==> DimsOf(g')[p] == DimsOf(g)[p];
  }

  /** The key is new: one entry with the tuple is appended. */
  lemma GroupStepNew(g: JsMap.OrderedMap<string, Entry>, dimIdx: seq<nat>, t: seq<string>, e': Entry)
    requires KeyedByDims(g, dimIdx) && JsMap.DistinctKeys(g)
    requires |t| == |dimIdx| && forall x :: 0 <= x < |t| ==> KeySep !in t[x]
    requires SeqOps.IndexOf(JsMap.Keys(g), JsText.Join(t, [KeySep])) == -1
    requires e'.dims == JsMap.Get(g, JsText.Join(t, [KeySep])).GetOr(Entry(t, [])).dims
    ensures var g' := JsMap.Put(g, JsText.Join(t, [KeySep]), e');
      t !in DimsOf(g) && DimsOf(g') == DimsOf(g) + [t] && KeyedByDims(g', dimIdx)
  {
    var k := JsText.Join(t, [KeySep]);
    assert k !in JsMap.Keys(g);
    NewTupleAbsent(g, dimIdx, t);
    assert JsMap.Get(g, k).None?;
    AppendKeyed(g, dimIdx, k, e');
  }

  /** A tuple whose key is not in the Map is not among its tuples. */
  lemma NewTupleAbsent(g: JsMap.OrderedMap<string, Entry>, dimIdx: seq<nat>, t: seq<string>)
    requires KeyedByDims(g, dimIdx) && JsText.Join(t, [KeySep]) !in JsMap.Keys(g)
    ensures t !in DimsOf(g)
  {
    forall p | 0 <= p < |g| ensures DimsOf(g)[p] != t {
      assert JsMap.Keys(g)[p] == g[p].0;
    }
  }

  /** Appending an entry keyed by its own tuple keeps the Map keyed by its tuples. */
  lemma AppendKeyed(g: JsMap.OrderedMap<string, Entry>, dimIdx: seq<nat>, k: string, e: Entry)
    requires KeyedByDims(g, dimIdx)
    requires k == JsText.Join(e.dims, [KeySep]) && |e.dims| == |dimIdx|
    requires forall x :: 0 <= x < |e.dims| ==> KeySep !in e.dims[x]
    ensures KeyedByDims(g + [(k, e)], dimIdx) && DimsOf(g + [(k, e)]) == DimsOf(g) + [e.dims]
  {
    var g' := g + [(k, e)];
    assert forall p :: 0 <= p < |g| ==> g'[p] == g[p];
    assert forall p :: 0 <= p < |g'| ==> DimsOf(g')[p] == (DimsOf(g) + [e.dims])[p];
  }

  /** Two rows whose values hold the separator can share a key although their tuples differ. */
  lemma KeyCollision()
    ensures GroupKey(["a␟b", "c"], [0, 1]) == GroupKey(["a", "b␟c"], [0, 1])
    ensures DimValues(["a␟b", "c"], [0, 1]) != DimValues(["a", "b␟c"], [0, 1])
  {
    var t1 := DimValues(["a␟b", "c"], [0, 1]);
    var t2 := DimValues(["a", "b␟c"], [0, 1]);
    assert t1 == ["a␟b", "c"] && t2 == ["a", "b␟c"];
    JsText.JoinCons(t1[0], t1[1..], [KeySep]);
    JsText.JoinCons(t2[0], t2[1..], [KeySep]);
    assert t1[0] != t2[0];
  }

  /** The numbers of column i over the rows, unparseable and missing cells counting nothing. */
  function ColumnTotal(rows: seq<Row>, i: nat): real
    decreases |rows|
  {
    if rows == [] then 0.0 else ColumnTotal(rows[..|rows| - 1], i) + Amount(rows[|rows| - 1], i)
  }

  function Part(e: Entry, j: nat): real {
    if j < |e.sums| then e.sums[j] else 0.0
  }

  /** Sum j over all entries. */
  function SumAt(g: JsMap.OrderedMap<string, Entry>, j: nat): real
    decreases |g|
  {
    if g == [] then 0.0 else SumAt(g[..|g| - 1], j) + Part(g[|g| - 1].1, j)
  }

  lemma {:induction false} SumAtUpdate(g: JsMap.OrderedMap<string, Entry>, p: nat, x: (string, Entry), j: nat)
    requires p < |g|
    ensures SumAt(g[p := x], j) == SumAt(g, j) - Part(g[p].1, j) + Part(x.1, j)
    decreases |g|
  {
    var n := |g| - 1;
    if p < n {
      assert g[p := x][..n] == g[..n][p := x];
      SumAtUpdate(g[..n], p, x, j);
    } else {
      assert g[p := x][..n] == g[..n];
    }
  }

  /** The sums of every visible measure are conserved: nothing is lost or counted twice. */
  lemma {:induction false} SumConserved(rows: seq<Row>, dimIdx: seq<nat>, measIdx: seq<nat>, j: nat)
    requires j < |measIdx|
    ensures SumAt(Groups(rows, dimIdx, measIdx), j) == ColumnTotal(rows, measIdx[j])
    decreases |rows|
  {
    if rows != [] {
      var pre := rows[..|rows| - 1];
      var r := rows[|rows| - 1];
      SumConserved(pre, dimIdx, measIdx, j);
      var g := Groups(pre, dimIdx, measIdx);
      var k := GroupKey(r, dimIdx);
      var i := SeqOps.IndexOf(JsMap.Keys(g), k);
      var e := JsMap.Get(g, k).GetOr(Entry(DimValues(r, dimIdx), Zeros(|measIdx|)));
      var e' := Entry(e.dims, AddRow(e.sums, r, measIdx));
      assert Part(e', j) == Part(e, j) + Amount(r, measIdx[j]);
      if i >= 0 {
        assert e == g[i].1;
        SumAtUpdate(g, i, (k, e'), j);
      } else {
        assert Groups(rows, dimIdx, measIdx) == g + [(k, e')];
        assert (g + [(k, e')])[..|g|] == g;
      }
    }
  }

  // ---------------------------------------------- groupAndSum: the layout

  /** With every index inside the row, the writes keep its width and touch only those indices. */
  lemma {:induction false} PlaceAllInside(out: seq<Option<string>>, idx: seq<nat>, vals: seq<string>)
    requires |idx| <= |vals|
    requires forall k :: 0 <= k < |idx| ==> idx[k] < |out|
    requires SeqOps.Distinct(idx)
    ensures |PlaceAll(out, idx, vals)| == |out|
    ensures forall c :: 0 <= c < |out| && c !in idx ==> PlaceAll(out, idx, vals)[c] == out[c]
    ensures forall k :: 0 <= k < |idx| ==> PlaceAll(out, idx, vals)[idx[k]] == Some(vals[k])
    decreases |idx|
  {
    if idx != [] {
      var n := |idx| - 1;
      var pre := idx[..n];
      PlaceAllInside(out, pre, vals);
      forall c | 0 <= c < |out| && c !in idx
        ensures PlaceAll(out, idx, vals)[c] == out[c]
      {
        assert c !in pre;
      }
      forall k | 0 <= k < n
        ensures PlaceAll(out, idx, vals)[idx[k]] == Some(vals[k])
      {
        assert idx[k] == pre[k] && idx[k] != idx[n];
      }
    }
  }

  /**
   * An output row whose indices all lie inside the header has exactly
   * colCount cells: each grouping column shows its value, each measure its
   * formatted sum, and every other column "".
   */
  lemma LayoutRowCells(e: Entry, dimIdx: seq<nat>, measIdx: seq<nat>, colCount: nat, fmt: Fmt)
    requires |e.dims| == |dimIdx| && |e.sums| == |measIdx|
    requires forall k :: 0 <= k < |dimIdx| ==> dimIdx[k] < colCount
    requires forall k :: 0 <= k < |measIdx| ==> measIdx[k] < colCount
    requires SeqOps.Distinct(dimIdx) && SeqOps.Distinct(measIdx)
    requires forall k :: 0 <= k < |dimIdx| ==> dimIdx[k] !in measIdx
    ensures var r := LayoutRow(e, dimIdx, measIdx, colCount, fmt);
      |r| == colCount
      && (forall c :: 0 <= c < colCount ==> r[c].Some?)
      && (forall k :: 0 <= k < |dimIdx| ==> r[dimIdx[k]] == Some(e.dims[k]))
      && (forall k :: 0 <= k < |measIdx| ==> r[measIdx[k]] == Some(fmt(e.sums[k])))
      && (forall c :: 0 <= c < colCount && c !in dimIdx && c !in measIdx ==> r[c] == Some(""))
  {
    var mid := PlaceAll(Blank(colCount), dimIdx, e.dims);
    PlaceAllInside(Blank(colCount), dimIdx, e.dims);
    PlaceAllInside(mid, measIdx, Formatted(e.sums, fmt));
  }

  /** `r.forEach(...)` visits only the array's elements, not its holes. */
  function Present(out: seq<Option<string>>): (r: seq<string>)
    ensures |r| <= |out|
    decreases |out|
  {
    if out == [] then []
    else Present(out[..|out| - 1]) + (if out[|out| - 1].Some? then [out[|out| - 1].value] else [])
  }

  lemma {:induction false} PresentFull(out: seq<Option<string>>)
    requires forall c :: 0 <= c < |out| ==> out[c].Some?
    ensures |Present(out)| == |out| && forall c :: 0 <= c < |out| ==> Present(out)[c] == out[c].value
    decreases |out|
  {
    if out != [] {
      PresentFull(out[..|out| - 1]);
    }
  }

  // ------------------------------------------------------------ DOM I/O

  /** The cells' trimmed texts. */
  function TrimmedTexts(tr: Tr): (r: Row)
    ensures |r| == |tr.cells|
  {
    TrimAll(tr.cells)
  }

  function TrimAll(cells: seq<FilterPanel.Td>): (r: seq<string>)
    ensures |r| == |cells|
  {
    seq(|cells|, k requires 0 <= k < |cells| => JsText.Trim(cells[k].text))
  }

  /** Cells whose texts are already trimmed read as those texts. */
  lemma TrimAllTrimmed(cells: seq<FilterPanel.Td>, texts: seq<string>)
    requires |cells| == |texts|
    requires forall k :: 0 <= k < |cells| ==> cells[k].text == texts[k] && FilterPanel.Trimmed(texts[k])
    ensures TrimAll(cells) == texts
  {
    forall k | 0 <= k < |cells|
      ensures TrimAll(cells)[k] == texts[k]
    {
      FilterPanel.TrimOfTrimmed(texts[k]);
    }
  }

  /** `readRowsFromDOM`: the visible rows' trimmed texts; nothing without a body. */
  function ReadRows(body: Option<seq<Tr>>): seq<Row> {
    if body.None? then [] else VisibleRows(body.value)
  }

  function VisibleRows(trs: seq<Tr>): seq<Row>
    decreases |trs|
  {
    if trs == [] then []
    else VisibleRows(trs[..|trs| - 1]) + (if trs[|trs| - 1].hidden then [] else [TrimmedTexts(trs[|trs| - 1])])
  }

  /** The rows `writeRowsToDOM` appends: one visible cell per text. */
  function Written(rows: seq<Row>): (r: seq<Tr>)
    ensures |r| == |rows|
    ensures forall i :: 0 <= i < |rows| ==> (!r[i].hidden && |r[i].cells| == |rows[i]|
      && forall k :: 0 <= k < |rows[i]| ==> r[i].cells[k] == FilterPanel.Td(rows[i][k], false))
  {
    seq(|rows|, i requires 0 <= i < |rows| =>
      FilterPanel.Tr(seq(|rows[i]|, k requires 0 <= k < |rows[i]| => FilterPanel.Td(rows[i][k], false)), false))
  }

  /** Every cell has no white space at either end, as the rows read from the body do. */
  predicate TrimmedRows(rows: seq<Row>) {
    forall i, k :: 0 <= i < |rows| && 0 <= k < |rows[i]| ==> FilterPanel.Trimmed(rows[i][k])
  }

  lemma {:induction false} ReadRowsTrimmed(trs: seq<Tr>)
    ensures TrimmedRows(VisibleRows(trs))
    decreases |trs|
  {
    if trs != [] {
      ReadRowsTrimmed(trs[..|trs| - 1]);
      var tr := trs[|trs| - 1];
      forall k | 0 <= k < |tr.cells|
        ensures FilterPanel.Trimmed(TrimmedTexts(tr)[k])
      {
        FilterPanel.TrimmedOfTrim(tr.cells[k].text);
      }
    }
  }

  /** Writing rows of trimmed cells and reading the body back gives the same rows. */
  lemma {:induction false} WriteReadRoundTrip(rows: seq<Row>)
    requires TrimmedRows(rows)
    ensures VisibleRows(Written(rows)) == rows
    decreases |rows|
  {
    if rows != [] {
      var n := |rows| - 1;
      var w := Written(rows);
      assert TrimmedRows(rows[..n]);
      assert w[..n] == Written(rows[..n]);
      WriteReadRoundTrip(rows[..n]);
      TrimAllTrimmed(w[n].cells, rows[n]);
      assert !w[n].hidden;
      assert VisibleRows(w) == VisibleRows(w[..n]) + [TrimmedTexts(w[n])];
      SeqOps.SplitLast(rows);
    }
  }

  // ------------------------------------------------------ the mode machine

  /** The rows `writeRowsToDOM` leaves in the body for the given arrays. */
  function WrittenBody(rows: seq<seq<Option<string>>>): seq<Tr> {
    Written(seq(|rows|, i requires 0 <= i < |rows| => Present(rows[i])))
  }

  lemma WrittenBodySnoc(rows: seq<seq<Option<string>>>, r: seq<Option<string>>, cells: seq<FilterPanel.Td>)
    requires cells == Tds(Present(r))
    ensures WrittenBody(rows + [r]) == WrittenBody(rows) + [FilterPanel.Tr(cells, false)]
  {
    var w := WrittenBody(rows + [r]);
    assert w[|rows|].cells == cells;
    assert w[..|rows|] == WrittenBody(rows);
  }


  /**
   * The module's variables and the parts of the page they read: the body
   * rows (none without a table) and the hidden flags of the first header row.
   */
  datatype Model = Model(
    colTypes: Option<seq<ColType>>,
    originalRows: Option<seq<Row>>,
    aggregatedMode: bool,
    refreshRequested: bool,
    tbody: Option<seq<Tr>>,
    header: seq<bool>)

  function Types(s: Model): seq<ColType> {
    s.colTypes.GetOr([])
  }

  /** `writeRowsToDOM`: replaces the body's rows, holes skipped; nothing without a body. */
  function WriteRows(s: Model, rows: seq<seq<Option<string>>>): (t: Model)
    ensures t.colTypes == s.colTypes && t.originalRows == s.originalRows && t.header == s.header
    ensures t.aggregatedMode == s.aggregatedMode && t.refreshRequested == s.refreshRequested
    ensures s.tbody.Some? ==> (t.tbody.Some? && |t.tbody.value| == |rows|
      && forall i :: 0 <= i < |rows| ==> !t.tbody.value[i].hidden)
    ensures s.tbody.None? ==> t.tbody.None?
  {
    if s.tbody.None? then s
    else s.(tbody := Some(WrittenBody(rows)))
  }

  function AsCells(rows: seq<Row>): (r: seq<seq<Option<string>>>)
    ensures |r| == |rows|
  {
    seq(|rows|, i requires 0 <= i < |rows| => seq(|rows[i]|, k requires 0 <= k < |rows[i]| => Some(rows[i][k])))
  }

  lemma AsCellsPresent(rows: seq<Row>)
    ensures seq(|rows|, i requires 0 <= i < |rows| => Present(AsCells(rows)[i])) == rows
  {
    forall i | 0 <= i < |rows|
      ensures Present(AsCells(rows)[i]) == rows[i]
    {
      PresentFull(AsCells(rows)[i]);
    }
  }

  /** `initTypesAndSnapshot`. */
  function InitTypesAndSnapshotStep(s: Model): (t: Model)
  {
    var s1 := s.(colTypes := Some(DetectedTypes(s.tbody)));
    if s.aggregatedMode then s1 else s1.(originalRows := Some(ReadRows(s.tbody)))
  }

  /** The grouped rows for the given source rows under the current types and header. */
  function Aggregated(s: Model, source: seq<Row>, fmt: Fmt): seq<seq<Option<string>>> {
    var dims := VisibleOnly(IndicesOf(Types(s), Dimension), s.header);
    var meas := VisibleOnly(IndicesOf(Types(s), Measure), s.header);
    GroupAndSumSpec(source, dims, meas, |s.header|, fmt)
  }

  predicate HasSnapshot(s: Model) {
    s.originalRows.Some? && s.originalRows.value != []
  }

  predicate HasDetailRowsInDom(s: Model) {
    s.tbody.Some? && |s.tbody.value| > 0
  }

  /**
   * `recomputeAggregateFromCurrentDOM` as written: whenever there is a
   * snapshot and the body has rows it reads the body and makes that the
   * snapshot, aggregated or not.
   */
  function RecomputeAsWrittenStep(s: Model, fmt: Fmt): Model {
    if s.tbody.None? then s
    else if !HasSnapshot(s) || !HasDetailRowsInDom(s) then
      WriteRows(s, Aggregated(s, s.originalRows.GetOr([]), fmt))
    else
      var source := ReadRows(s.tbody);
      WriteRows(s.(originalRows := Some(source)), Aggregated(s, source, fmt))
  }

  /**
   * `recomputeAggregateFromCurrentDOM` as its comment describes it: the body
   * is read only when not already aggregated; otherwise the snapshot is the source.
   */
  function RecomputeStep(s: Model, fmt: Fmt): Model {
    if s.tbody.None? then s
    else if s.aggregatedMode || !HasSnapshot(s) || !HasDetailRowsInDom(s) then
      WriteRows(s, Aggregated(s, s.originalRows.GetOr([]), fmt))
    else
      var source := ReadRows(s.tbody);
      WriteRows(s.(originalRows := Some(source)), Aggregated(s, source, fmt))
  }

  /** `enterAggregatedMode`: the first entry snapshots the visible rows; then the body is regrouped. */
  function EnterStep(s: Model, fmt: Fmt): Model {
    var s1 := if s.aggregatedMode then s else s.(originalRows := Some(ReadRows(s.tbody)), aggregatedMode := true);
    RecomputeStep(s1, fmt)
  }

  /** `exitAggregatedMode`. */
  function ExitStep(s: Model): Model {
    if !s.aggregatedMode then s
    else if !HasSnapshot(s) then s.(aggregatedMode := false, refreshRequested := true)
    else WriteRows(s, AsCells(s.originalRows.value)).(aggregatedMode := false)
  }

  predicate WantsAggregation(s: Model) {
    SomeHidden(IndicesOf(Types(s), Dimension), s.header)
  }

  /** `recalcAggregationIfNeeded`. */
  function RecalcStep(s: Model, fmt: Fmt): Model {
    if s.tbody.None? then s
    else
      var s1 := if s.colTypes.None? then InitTypesAndSnapshotStep(s) else s;
      if WantsAggregation(s1) then EnterStep(s1, fmt) else ExitStep(s1)
  }

  /** The body observer's callback once the debounce fires. */
  function BodyChangedStep(s: Model, fmt: Fmt): Model {
    if !s.aggregatedMode then RecalcStep(InitTypesAndSnapshotStep(s), fmt) else RecomputeStep(s, fmt)
  }

  /** The same callback with the recomputation as written. */
  function BodyChangedAsWrittenStep(s: Model, fmt: Fmt): Model {
    if !s.aggregatedMode then RecalcStep(InitTypesAndSnapshotStep(s), fmt) else RecomputeAsWrittenStep(s, fmt)
  }

  // ------------------------------------------------- mode machine: lemmas

  /** With a table, recalculation leaves aggregated mode on iff some dimension column is hidden. */
  lemma RecalcMode(s: Model, fmt: Fmt)
    requires s.tbody.Some?
    ensures var s1 := if s.colTypes.None? then InitTypesAndSnapshotStep(s) else s;
      (RecalcStep(s, fmt).aggregatedMode
       <==> exists i :: 0 <= i < |Types(s1)| && Types(s1)[i] == Dimension && HiddenAt(s.header, i))
  {
    var s1 := if s.colTypes.None? then InitTypesAndSnapshotStep(s) else s;
    AnyHiddenDimension(Types(s1), s1.header);
  }

  /** Leaving aggregated mode when not in it changes nothing. */
  lemma ExitWhenDetailed(s: Model)
    requires !s.aggregatedMode
    ensures ExitStep(s) == s
  {
  }

  /** With a snapshot, leaving aggregated mode writes it back so that the body reads as the snapshot. */
  lemma ExitRestores(s: Model)
    requires s.aggregatedMode && HasSnapshot(s) && s.tbody.Some?
    requires SnapshotTrimmed(s)
    ensures !ExitStep(s).aggregatedMode && ExitStep(s).refreshRequested == s.refreshRequested
    ensures ExitStep(s).tbody == Some(Written(s.originalRows.value))
    ensures ReadRows(ExitStep(s).tbody) == s.originalRows.value
  {
    AsCellsPresent(s.originalRows.value);
    WriteReadRoundTrip(s.originalRows.value);
  }

  /** The snapshot, when there is one, holds trimmed cells, as every row read from the body does. */
  predicate SnapshotTrimmed(s: Model) {
    s.originalRows.Some? ==> TrimmedRows(s.originalRows.value)
  }

  lemma ReadRowsAreTrimmed(body: Option<seq<Tr>>)
    ensures TrimmedRows(ReadRows(body))
  {
    if body.Some? {
      ReadRowsTrimmed(body.value);
    }
  }

  lemma RecomputeKeepsTrimmed(s: Model, fmt: Fmt)
    requires SnapshotTrimmed(s)
    ensures SnapshotTrimmed(RecomputeStep(s, fmt)) && SnapshotTrimmed(RecomputeAsWrittenStep(s, fmt))
  {
    ReadRowsAreTrimmed(s.tbody);
  }

  lemma EnterKeepsTrimmed(s: Model, fmt: Fmt)
    requires SnapshotTrimmed(s)
    ensures SnapshotTrimmed(EnterStep(s, fmt))
  {
    ReadRowsAreTrimmed(s.tbody);
    var s1 := if s.aggregatedMode then s else s.(originalRows := Some(ReadRows(s.tbody)), aggregatedMode := true);
    RecomputeKeepsTrimmed(s1, fmt);
  }

  lemma InitKeepsTrimmed(s: Model)
    requires SnapshotTrimmed(s)
    ensures SnapshotTrimmed(InitTypesAndSnapshotStep(s)) && InitTypesAndSnapshotStep(s).tbody == s.tbody
  {
    ReadRowsAreTrimmed(s.tbody);
  }

  lemma RecalcKeepsTrimmed(s: Model, fmt: Fmt)
    requires SnapshotTrimmed(s)
    ensures SnapshotTrimmed(RecalcStep(s, fmt))
  {
    if s.tbody.Some? {
      InitKeepsTrimmed(s);
      var s1 := if s.colTypes.None? then InitTypesAndSnapshotStep(s) else s;
      EnterKeepsTrimmed(s1, fmt);
    }
  }

  /** Every step of the mode machine keeps the snapshot trimmed, so `ExitRestores` applies in every reachable state. */
  lemma StepsKeepSnapshotTrimmed(s: Model, fmt: Fmt)
    requires SnapshotTrimmed(s)
    ensures SnapshotTrimmed(InitTypesAndSnapshotStep(s))
    ensures SnapshotTrimmed(RecomputeStep(s, fmt)) && SnapshotTrimmed(RecomputeAsWrittenStep(s, fmt))
    ensures SnapshotTrimmed(EnterStep(s, fmt)) && SnapshotTrimmed(ExitStep(s))
    ensures SnapshotTrimmed(RecalcStep(s, fmt)) && SnapshotTrimmed(BodyChangedStep(s, fmt))
    ensures SnapshotTrimmed(BodyChangedAsWrittenStep(s, fmt))
  {
    InitKeepsTrimmed(s);
    RecomputeKeepsTrimmed(s, fmt);
    EnterKeepsTrimmed(s, fmt);
    RecalcKeepsTrimmed(s, fmt);
    RecalcKeepsTrimmed(InitTypesAndSnapshotStep(s), fmt);
  }

  /** Without a snapshot, leaving aggregated mode asks for a fresh render and leaves the body alone. */
  lemma ExitWithoutSnapshot(s: Model)
    requires s.aggregatedMode && !HasSnapshot(s)
    ensures ExitStep(s) == s.(aggregatedMode := false, refreshRequested := true)
  {
  }

  /** While aggregated, regrouping never touches the snapshot. */
  lemma RecomputeKeepsSnapshot(s: Model, fmt: Fmt)
    requires s.aggregatedMode
    ensures RecomputeStep(s, fmt).originalRows == s.originalRows
    ensures RecomputeStep(s, fmt).aggregatedMode && RecomputeStep(s, fmt).colTypes == s.colTypes
    ensures s.tbody.Some? ==> RecomputeStep(s, fmt).tbody.Some?
    ensures BodyChangedStep(s, fmt) == RecomputeStep(s, fmt)
  {
  }

  /**
   * Entering from detail rows snapshots exactly the visible rows, and however
   * often the body is regrouped or the header changes while some dimension
   * stays hidden, the snapshot stays those rows.
   */
  lemma SnapshotOnEntry(s: Model, fmt: Fmt)
    requires !s.aggregatedMode && s.tbody.Some? && s.colTypes.Some? && WantsAggregation(s)
    ensures RecalcStep(s, fmt).originalRows == Some(ReadRows(s.tbody))
    ensures RecalcStep(s, fmt).aggregatedMode
  {
  }

  lemma RecalcKeepsSnapshot(s: Model, fmt: Fmt)
    requires s.aggregatedMode && s.tbody.Some? && s.colTypes.Some? && WantsAggregation(s)
    ensures RecalcStep(s, fmt).originalRows == s.originalRows
    ensures RecalcStep(s, fmt).aggregatedMode
  {
  }

  /** As written, a regroup while aggregated replaces the snapshot with the aggregated body. */
  lemma AsWrittenOverwritesSnapshot(s: Model, fmt: Fmt)
    requires s.aggregatedMode && HasSnapshot(s) && HasDetailRowsInDom(s)
    ensures RecomputeAsWrittenStep(s, fmt).originalRows == Some(ReadRows(s.tbody))
    ensures RecomputeAsWrittenStep(s, fmt).aggregatedMode && RecomputeAsWrittenStep(s, fmt).tbody.Some?
    ensures RecomputeAsWrittenStep(s, fmt).colTypes == s.colTypes
  {
  }

  /** With no header cell hidden, no aggregation is wanted. */
  lemma NothingHidden(s: Model)
    requires forall i :: 0 <= i < |s.header| ==> !s.header[i]
    ensures !WantsAggregation(s)
  {
    SomeHiddenIff(IndicesOf(Types(s), Dimension), s.header);
  }

  /** Recalculation with a table, known types and no aggregation wanted is a plain exit. */
  lemma RecalcExits(s: Model, fmt: Fmt)
    requires s.tbody.Some? && s.colTypes.Some? && !WantsAggregation(s)
    ensures RecalcStep(s, fmt) == ExitStep(s)
  {
  }

  /** Every written row is visible, so reading the body back gives as many rows as were written. */
  lemma {:induction false} WrittenRowCount(rows: seq<Row>)
    ensures |VisibleRows(Written(rows))| == |rows|
    decreases |rows|
  {
    if rows != [] {
      var n := |rows| - 1;
      assert Written(rows)[..n] == Written(rows[..n]);
      WrittenRowCount(rows[..n]);
    }
  }

  /** A two-row table of one dimension and one measure, with the dimension hidden. */
  function SampleBody(): seq<Tr> {
    [FilterPanel.Tr([FilterPanel.Td("a", false), FilterPanel.Td("1", false)], false),
     FilterPanel.Tr([FilterPanel.Td("b", false), FilterPanel.Td("2", false)], false)]
  }

  function SampleRowsRead(): seq<Row> {
    [["a", "1"], ["b", "2"]]
  }

  function SampleStart(): Model {
    Model(Some([Dimension, Measure]), Some(SampleRowsRead()), false, false, Some(SampleBody()), [true, false])
  }

  lemma SampleTrimmed()
    ensures TrimmedRows(SampleRowsRead())
  {
    var rows := SampleRowsRead();
    assert forall i, k :: 0 <= i < 2 && 0 <= k < 2 ==> FilterPanel.Trimmed(rows[i][k]);
  }

  lemma SampleWritten()
    ensures Written(SampleRowsRead()) == SampleBody()
  {
    var rows := SampleRowsRead();
    var w := Written(rows);
    var body := SampleBody();
    assert w[0].cells == body[0].cells;
    assert w[1].cells == body[1].cells;
    assert w[0] == body[0] && w[1] == body[1];
  }

  lemma SampleReads()
    ensures ReadRows(Some(SampleBody())) == SampleRowsRead()
  {
    SampleTrimmed();
    WriteReadRoundTrip(SampleRowsRead());
    SampleWritten();
  }

  /** Hiding the dimension leaves no visible grouping column: the two rows share the key "". */
  lemma SampleGroups()
    ensures |Groups(SampleRowsRead(), [], [1])| == 1
  {
    var rows := SampleRowsRead();
    assert rows[..1] == [rows[0]];
    assert rows[..1][..0] == [];
    var g1 := Groups(rows[..1], [], [1]);
    assert GroupKey(rows[0], []) == "";
    assert g1 == [("", Entry([], AddRow(Zeros(1), rows[0], [1])))];
    assert GroupKey(rows[1], []) == "";
    SeqOps.IndexOfFirst(JsMap.Keys(g1), "", 0);
  }

  lemma SampleDimIndices()
    ensures IndicesOf([Dimension, Measure], Dimension) == [0]
  {
    var ts := [Dimension, Measure];
    assert ts[..1] == [Dimension] && ts[..1][..0] == [];
  }

  lemma SampleMeasIndices()
    ensures IndicesOf([Dimension, Measure], Measure) == [1]
  {
    var ts := [Dimension, Measure];
    assert ts[..1] == [Dimension] && ts[..1][..0] == [];
  }

  lemma SampleIndices()
    ensures IndicesOf([Dimension, Measure], Dimension) == [0]
    ensures VisibleOnly(IndicesOf([Dimension, Measure], Dimension), [true, false]) == []
    ensures VisibleOnly(IndicesOf([Dimension, Measure], Measure), [true, false]) == [1]
  {
    SampleDimIndices();
    SampleMeasIndices();
    assert VisibleOnly([0], [true, false]) == [] by {
      assert [0][..0] == [];
    }
    assert VisibleOnly([1], [true, false]) == [1] by {
      assert [1][..0] == [];
    }
  }

  /** Entering aggregated mode on the sample: the snapshot is the two rows, the body one group. */
  lemma SampleAggregates(fmt: Fmt)
    ensures RecalcStep(SampleStart(), fmt).aggregatedMode
    ensures RecalcStep(SampleStart(), fmt).colTypes == SampleStart().colTypes
    ensures RecalcStep(SampleStart(), fmt).originalRows == Some(SampleRowsRead())
    ensures RecalcStep(SampleStart(), fmt).tbody.Some? && |RecalcStep(SampleStart(), fmt).tbody.value| == 1
    ensures !RecalcStep(SampleStart(), fmt).tbody.value[0].hidden
  {
    var s0 := SampleStart();
    SampleIndices();
    SampleReads();
    SampleGroups();
    assert SomeHidden([0], [true, false]);
    EnterOneGroup(s0, fmt);
  }

  /** Entering from detail rows that fall into one group leaves one visible row and the rows as snapshot. */
  lemma EnterOneGroup(s: Model, fmt: Fmt)
    requires !s.aggregatedMode && s.tbody.Some? && s.colTypes.Some?
    requires SomeHidden(IndicesOf(Types(s), Dimension), s.header)
    requires |Groups(ReadRows(s.tbody), VisibleOnly(IndicesOf(Types(s), Dimension), s.header),
                     VisibleOnly(IndicesOf(Types(s), Measure), s.header))| == 1
    ensures var t := RecalcStep(s, fmt);
      t.aggregatedMode && t.colTypes == s.colTypes && t.originalRows == Some(ReadRows(s.tbody))
      && t.tbody.Some? && |t.tbody.value| == 1 && !t.tbody.value[0].hidden
  {
    RecalcEnters(s, fmt);
    RecomputeAggregated(s.(originalRows := Some(ReadRows(s.tbody)), aggregatedMode := true), fmt);
  }

  /** Recalculation from detail rows when aggregation is wanted: snapshot, then regroup. */
  lemma RecalcEnters(s: Model, fmt: Fmt)
    requires !s.aggregatedMode && s.tbody.Some? && s.colTypes.Some? && WantsAggregation(s)
    ensures RecalcStep(s, fmt) == RecomputeStep(s.(originalRows := Some(ReadRows(s.tbody)), aggregatedMode := true), fmt)
  {
  }

  /** A regroup while aggregated writes one visible row per group of the snapshot. */
  lemma RecomputeAggregated(s: Model, fmt: Fmt)
    requires s.aggregatedMode && s.tbody.Some?
    ensures var t := RecomputeStep(s, fmt);
      var dims := VisibleOnly(IndicesOf(Types(s), Dimension), s.header);
      var meas := VisibleOnly(IndicesOf(Types(s), Measure), s.header);
      t.aggregatedMode && t.colTypes == s.colTypes && t.originalRows == s.originalRows
      && t.tbody.Some? && |t.tbody.value| == |Groups(s.originalRows.GetOr([]), dims, meas)|
      && forall i :: 0 <= i < |t.tbody.value| ==> !t.tbody.value[i].hidden
  {
  }

  /**
   * The whole scenario as written: hide the dimension, let the body observer
   * regroup once, show the dimension again. One row comes back where the
   * table had two.
   */
  lemma SnapshotLossCounterexample(fmt: Fmt)
    ensures var s1 := RecalcStep(SampleStart(), fmt);
      var s2 := BodyChangedAsWrittenStep(s1, fmt);
      var s3 := RecalcStep(s2.(header := [false, false]), fmt);
      |ReadRows(s3.tbody)| == 1 && |ReadRows(SampleStart().tbody)| == 2
  {
    SampleAggregates(fmt);
    SampleReads();
    var s1 := RecalcStep(SampleStart(), fmt);
    assert BodyChangedAsWrittenStep(s1, fmt) == RecomputeAsWrittenStep(s1, fmt);
    OneGroupSnapshot(s1, fmt);
    RestoreOneRow(RecomputeAsWrittenStep(s1, fmt), fmt);
  }

  /** A regroup as written over a one-row aggregated body leaves a one-row snapshot. */
  lemma OneGroupSnapshot(s1: Model, fmt: Fmt)
    requires s1.aggregatedMode && HasSnapshot(s1) && s1.colTypes.Some?
    requires s1.tbody.Some? && |s1.tbody.value| == 1 && !s1.tbody.value[0].hidden
    ensures var s2 := RecomputeAsWrittenStep(s1, fmt);
      s2.aggregatedMode && s2.tbody.Some? && s2.colTypes.Some?
      && s2.originalRows.Some? && |s2.originalRows.value| == 1
  {
    AsWrittenOverwritesSnapshot(s1, fmt);
    ReadRowsCount(s1.tbody.value);
  }

  /** Showing every column again restores a one-row snapshot: one row. */
  lemma RestoreOneRow(s2: Model, fmt: Fmt)
    requires s2.aggregatedMode && s2.tbody.Some? && s2.colTypes.Some?
    requires s2.originalRows.Some? && |s2.originalRows.value| == 1
    ensures |ReadRows(RecalcStep(s2.(header := [false, false]), fmt).tbody)| == 1
  {
    var s2' := s2.(header := [false, false]);
    NothingHidden(s2');
    RecalcExits(s2', fmt);
    ExitRowCount(s2');
  }

  /** A body of visible rows reads back as that many rows. */
  lemma {:induction false} ReadRowsCount(trs: seq<Tr>)
    requires forall i :: 0 <= i < |trs| ==> !trs[i].hidden
    ensures |VisibleRows(trs)| == |trs|
    decreases |trs|
  {
    if trs != [] {
      ReadRowsCount(trs[..|trs| - 1]);
    }
  }

  /** Leaving aggregated mode with a snapshot puts back as many rows as the snapshot holds. */
  lemma ExitRowCount(s: Model)
    requires s.aggregatedMode && HasSnapshot(s) && s.tbody.Some?
    ensures ExitStep(s).tbody.Some? && |ReadRows(ExitStep(s).tbody)| == |s.originalRows.value|
  {
    var rows := s.originalRows.value;
    AsCellsPresent(rows);
    WrittenRowCount(rows);
  }

  /** The same scenario with the corrected recomputation: both rows come back. */
  lemma SnapshotKeptInScenario(fmt: Fmt)
    ensures var s1 := RecalcStep(SampleStart(), fmt);
      var s2 := BodyChangedStep(s1, fmt);
      var s3 := RecalcStep(s2.(header := [false, false]), fmt);
      ReadRows(s3.tbody) == ReadRows(SampleStart().tbody)
  {
    SampleAggregates(fmt);
    SampleReads();
    RestoreAfterRegroup(RecalcStep(SampleStart(), fmt), fmt);
  }

  /** From aggregated mode, a corrected regroup and then showing every column restore the snapshot. */
  lemma RestoreAfterRegroup(s1: Model, fmt: Fmt)
    requires s1.aggregatedMode && s1.originalRows == Some(SampleRowsRead())
    requires s1.colTypes == Some([Dimension, Measure]) && s1.tbody.Some?
    ensures var s2 := BodyChangedStep(s1, fmt);
      ReadRows(RecalcStep(s2.(header := [false, false]), fmt).tbody) == SampleRowsRead()
  {
    RecomputeKeepsSnapshot(s1, fmt);
    var s2 := BodyChangedStep(s1, fmt);
    var s2' := s2.(header := [false, false]);
    NothingHidden(s2');
    RecalcExits(s2', fmt);
    SampleTrimmed();
    ExitRestores(s2');
  }

  // ------------------------------------------------------- the module state

  function Tds(texts: seq<string>): (r: seq<FilterPanel.Td>)
    ensures |r| == |texts| && forall k :: 0 <= k < |texts| ==> r[k] == FilterPanel.Td(texts[k], false)
  {
    seq(|texts|, k requires 0 <= k < |texts| => FilterPanel.Td(texts[k], false))
  }

  /** The cells of one written row: `r.forEach` creates one cell per element, skipping holes. */
  method RowCells(r: seq<Option<string>>) returns (cells: seq<FilterPanel.Td>)
    ensures cells == Tds(Present(r))
  {
    cells := [];
    for k := 0 to |r|
      invariant cells == Tds(Present(r[..k]))
    {
      assert r[..k + 1][..k] == r[..k];
      if r[k].Some? {
        cells := cells + [FilterPanel.Td(r[k].value, false)];
      }
    }
    assert r[..|r|] == r;
  }

  /** The loop of `writeRowsToDOM`: one row per array, built cell by cell. */
  method BuildBody(rows: seq<seq<Option<string>>>) returns (body: seq<Tr>)
    ensures body == WrittenBody(rows)
  {
    body := [];
    for i := 0 to |rows|
      invariant body == WrittenBody(rows[..i])
    {
      var cells := RowCells(rows[i]);
      body := body + [FilterPanel.Tr(cells, false)];
      assert rows[..i + 1] == rows[..i] + [rows[i]];
      WrittenBodySnoc(rows[..i], rows[i], cells);
    }
    assert rows[..|rows|] == rows;
  }

  /**
   * The module variables `colTypes`, `originalRows` and `aggregatedMode`,
   * the refresh request sent to the page, and the table's body and header
   * rows as this module reads and writes them.
   */
  class Aggregator {
    var colTypes: Option<seq<ColType>>
    var originalRows: Option<seq<Row>>
    var aggregatedMode: bool
    var refreshRequested: bool
    var tbody: Option<seq<Tr>>
    var header: seq<bool>
    const fmt: Fmt

    function State(): Model
      reads this
    {
      Model(colTypes, originalRows, aggregatedMode, refreshRequested, tbody, header)
    }

    /** The snapshot holds trimmed cells (see `StepsKeepSnapshotTrimmed`). */
    predicate Valid()
      reads this
    {
      SnapshotTrimmed(State())
    }

    /** The module as loaded: no types, no snapshot, not aggregated. */
    constructor(tbody: Option<seq<Tr>>, header: seq<bool>, fmt: Fmt)
      ensures State() == Model(None, None, false, false, tbody, header) && this.fmt == fmt
      ensures Valid()
    {
      colTypes := None;
      originalRows := None;
      aggregatedMode := false;
      refreshRequested := false;
      this.tbody := tbody;
      this.header := header;
      this.fmt := fmt;
    }

    /** `writeRowsToDOM`: the body is emptied and one row appended per array. */
    method WriteRowsToDom(rows: seq<seq<Option<string>>>)
      modifies this
      requires Valid()
      ensures Valid()
      ensures State() == WriteRows(old(State()), rows)
    {
      if tbody.None? {
        return;
      }
      var body := BuildBody(rows);
      tbody := Some(body);
    }

    /** `initTypesAndSnapshot`. */
    method InitTypesAndSnapshot()
      modifies this
      requires Valid()
      ensures Valid()
      ensures State() == InitTypesAndSnapshotStep(old(State()))
    {
      ReadRowsAreTrimmed(tbody);
      var types := DetectColTypes(tbody);
      colTypes := Some(types);
      if !aggregatedMode {
        originalRows := Some(ReadRows(tbody));
      }
    }

    /** The grouped rows of `source` under the current types and header, by `groupAndSum`. */
    method GroupVisible(source: seq<Row>) returns (grouped: seq<seq<Option<string>>>)
      ensures grouped == Aggregated(State(), source, fmt)
    {
      var dims := VisibleOnly(IndicesOf(colTypes.GetOr([]), Dimension), header);
      var meas := VisibleOnly(IndicesOf(colTypes.GetOr([]), Measure), header);
      grouped := GroupAndSum(source, dims, meas, |header|, fmt);
    }

    /** `recomputeAggregateFromCurrentDOM` as written. */
    method RecomputeAsWritten()
      modifies this
      requires Valid()
      ensures Valid()
      ensures State() == RecomputeAsWrittenStep(old(State()), fmt)
    {
      if tbody.None? {
        return;
      }
      var source;
      if originalRows.None? || originalRows.value == [] || |tbody.value| == 0 {
        source := originalRows.GetOr([]);
      } else {
        source := ReadRows(tbody);
        ReadRowsAreTrimmed(tbody);
        originalRows := Some(source);
      }
      var grouped := GroupVisible(source);
      WriteRowsToDom(grouped);
    }

    /** `recomputeAggregateFromCurrentDOM`, reading the body only when not aggregated. */
    method Recompute()
      modifies this
      requires Valid()
      ensures Valid()
      ensures State() == RecomputeStep(old(State()), fmt)
    {
      if tbody.None? {
        return;
      }
      var source;
      if aggregatedMode || originalRows.None? || originalRows.value == [] || |tbody.value| == 0 {
        source := originalRows.GetOr([]);
      } else {
        source := ReadRows(tbody);
        ReadRowsAreTrimmed(tbody);
        originalRows := Some(source);
      }
      var grouped := GroupVisible(source);
      WriteRowsToDom(grouped);
    }

    /** `enterAggregatedMode`. */
    method Enter()
      modifies this
      requires Valid()
      ensures Valid()
      ensures State() == EnterStep(old(State()), fmt)
    {
      if !aggregatedMode {
        var currentRows := ReadRows(tbody);
        ReadRowsAreTrimmed(tbody);
        if |currentRows| > 0 {
          originalRows := Some(currentRows);
        } else {
          originalRows := Some([]);
        }
        aggregatedMode := true;
      }
      Recompute();
    }

    /** `exitAggregatedMode`. */
    method Exit()
      modifies this
      requires Valid()
      ensures Valid()
      ensures State() == ExitStep(old(State()))
    {
      if !aggregatedMode {
        return;
      }
      if originalRows.None? || originalRows.value == [] {
        aggregatedMode := false;
        refreshRequested := true;
        return;
      }
      WriteRowsToDom(AsCells(originalRows.value));
      aggregatedMode := false;
    }

    /** `recalcAggregationIfNeeded`. */
    method Recalc()
      modifies this
      requires Valid()
      ensures Valid()
      ensures State() == RecalcStep(old(State()), fmt)
    {
      if tbody.None? {
        return;
      }
      if colTypes.None? {
        InitTypesAndSnapshot();
      }
      var dims := IndicesOf(colTypes.GetOr([]), Dimension);
      if SomeHidden(dims, header) {
        Enter();
      } else {
        Exit();
      }
    }

    /** The body observer's callback. */
    method BodyChanged()
      modifies this
      requires Valid()
      ensures Valid()
      ensures State() == BodyChangedStep(old(State()), fmt)
    {
      if !aggregatedMode {
        InitTypesAndSnapshot();
        Recalc();
      } else {
        Recompute();
      }
    }

    /** `initAggregateByVisibleDims` without its observers: detect, snapshot and set the mode once. */
    method Initialise()
      modifies this
      requires Valid()
      ensures Valid()
      ensures State() == RecalcStep(InitTypesAndSnapshotStep(old(State())), fmt)
    {
      InitTypesAndSnapshot();
      Recalc();
    }
  }
}
