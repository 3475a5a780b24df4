/**
 * The pivot-table row model: rows grouped by category (first column), then
 * by sub-category (second column) or segment (third column); the collapse
 * state of categories and sub-categories; per-column aggregate sums; and the
 * detection of dimension (text) columns that decides how many levels show.
 */
module PivotGrouping {
  import opened Wrappers
  import JsText
  import JsNumber
  import SeqOps
  import JsMap
  import MeasureGroups

  /** A data row; `None` is a null or undefined value. */
  type Row = seq<Option<string>>

  /** The `{ row, rowIndex }` records the grouping functions collect. */
  datatype RowEntry = RowEntry(row: Row, rowIndex: nat)

  /** `data.rows.forEach((row, rowIndex) => …)`: each row paired with its index. */
  function Indexed(rows: seq<Row>): (r: seq<RowEntry>)
    ensures |r| == |rows| && forall i :: 0 <= i < |rows| ==> r[i] == RowEntry(rows[i], i)
  {
    seq(|rows|, i requires 0 <= i < |rows| => RowEntry(rows[i], i))
  }

  /** `row[0]`, undefined for an empty row. */
  function CategoryKey(e: RowEntry): Option<string> {
    if |e.row| > 0 then e.row[0] else None
  }

  /** `row[i] || 'Other'`: a missing or empty value goes to 'Other'. */
  function ColumnOrOther(e: RowEntry, i: nat): (r: string)
    ensures r != ""
    ensures i < |e.row| && e.row[i].Some? && e.row[i].value != "" ==> r == e.row[i].value
  {
    if i < |e.row| && e.row[i].Some? && e.row[i].value != "" then e.row[i].value else "Other"
  }

  function SubCategoryKey(e: RowEntry): string { ColumnOrOther(e, 1) }

  function SegmentKey(e: RowEntry): string { ColumnOrOther(e, 2) }

  // ------------------------------------------------------------ grouping

  /** The Map the grouping loops build: per key, the list its entries are pushed on. */
  function GroupSpec<K(==)>(es: seq<RowEntry>, key: RowEntry -> K): JsMap.OrderedMap<K, seq<RowEntry>>
    decreases |es|
  {
    if es == [] then []
    else
      var g := GroupSpec(es[..|es| - 1], key);
      var e := es[|es| - 1];
      JsMap.Put(g, key(e), JsMap.Get(g, key(e)).GetOr([]) + [e])
  }

  /** The distinct keys of es, in order of first occurrence. */
  function KeyOrder<K(==)>(es: seq<RowEntry>, key: RowEntry -> K): seq<K>
    decreases |es|
  {
    if es == [] then []
    else
      var ks := KeyOrder(es[..|es| - 1], key);
      var k := key(es[|es| - 1]);
      if k in ks then ks else ks + [k]
  }

  function HasKey<K(==)>(key: RowEntry -> K, k: K): RowEntry -> bool {
    e => key(e) == k
  }

  /**
   * The groups are exactly the entries of each key, in their original order,
   * and come out in first-occurrence order of their keys: a partition of es.
   */
  lemma {:induction false} GroupSpecPartition<K>(es: seq<RowEntry>, key: RowEntry -> K)
    ensures JsMap.DistinctKeys(GroupSpec(es, key))
    ensures JsMap.Keys(GroupSpec(es, key)) == KeyOrder(es, key)
    ensures forall k :: JsMap.Get(GroupSpec(es, key), k).GetOr([]) == SeqOps.Filter(es, HasKey(key, k))
    decreases |es|
  {
    if es != [] {
      var pre := es[..|es| - 1];
      var e := es[|es| - 1];
      assert es == pre + [e];
      GroupSpecPartition(pre, key);
      var g := GroupSpec(pre, key);
      var v := JsMap.Get(g, key(e)).GetOr([]) + [e];
      JsMap.PutDistinct(g, key(e), v);
      JsMap.PutKeys(g, key(e), v);
      forall k ensures JsMap.Get(GroupSpec(es, key), k).GetOr([]) == SeqOps.Filter(es, HasKey(key, k)) {
        JsMap.PutGet(g, key(e), v, k);
        SeqOps.FilterAppendOne(pre, e, HasKey(key, k));
      }
    }
  }

  /** Every key in KeyOrder is the key of some entry, and each entry's key is in it. */
  lemma {:induction false} KeyOrderMembers<K>(es: seq<RowEntry>, key: RowEntry -> K)
    ensures SeqOps.Distinct(KeyOrder(es, key))
    ensures forall i :: 0 <= i < |es| ==> key(es[i]) in KeyOrder(es, key)
    ensures forall k :: k in KeyOrder(es, key) ==> exists i :: 0 <= i < |es| && key(es[i]) == k
    decreases |es|
  {
    if es != [] {
      var pre := es[..|es| - 1];
      KeyOrderMembers(pre, key);
      assert forall i :: 0 <= i < |pre| ==> es[i] == pre[i];
    }
  }

  /** The forEach loop shared by the three grouping methods. */
  method GroupEntries<K(==)>(es: seq<RowEntry>, key: RowEntry -> K) returns (groups: JsMap.OrderedMap<K, seq<RowEntry>>)
    ensures groups == GroupSpec(es, key)
  {
    groups := [];
    for i := 0 to |es|
      invariant groups == GroupSpec(es[..i], key)
    {
      var e := es[i];
      assert es[..i + 1][..i] == es[..i];
      var k := key(e);
      // `set(k, [])` for a new key followed by `push`: one `set` of the extended list.
      var bucket := JsMap.Get(groups, k).GetOr([]);
      groups := JsMap.Put(groups, k, bucket + [e]);
    }
    assert es[..|es|] == es;
  }

  /** `groupRowsByCategory`. */
  method GroupRowsByCategory(rows: seq<Row>) returns (groups: JsMap.OrderedMap<Option<string>, seq<RowEntry>>)
    ensures groups == GroupSpec(Indexed(rows), CategoryKey)
  {
    groups := GroupEntries(Indexed(rows), CategoryKey);
  }

  /** `groupBySubCategory`. */
  method GroupBySubCategory(rowData: seq<RowEntry>) returns (groups: JsMap.OrderedMap<string, seq<RowEntry>>)
    ensures groups == GroupSpec(rowData, SubCategoryKey)
  {
    groups := GroupEntries(rowData, SubCategoryKey);
  }

  /** `groupBySegment`. */
  method GroupBySegment(rowData: seq<RowEntry>) returns (groups: JsMap.OrderedMap<string, seq<RowEntry>>)
    ensures groups == GroupSpec(rowData, SegmentKey)
  {
    groups := GroupEntries(rowData, SegmentKey);
  }

  // ---------------------------------------------------- dimension columns

  /** A sampled cell counts as text when it is non-empty and `parseFloat` of its stripped form is NaN. */
  predicate IsTextCell(r: Row, columnIndex: nat) {
    columnIndex < |r| && r[columnIndex].Some? && r[columnIndex].value != ""
    && JsNumber.ParseFloat(JsText.Remove(r[columnIndex].value, {',', '$', '%'})).None?
  }

  function TextCount(rows: seq<Row>, columnIndex: nat): nat {
    if rows == [] then 0
    else TextCount(rows[..|rows| - 1], columnIndex) + (if IsTextCell(rows[|rows| - 1], columnIndex) then 1 else 0)
  }

  function SampleSize(rows: seq<Row>): nat { if |rows| < 5 then |rows| else 5 }

  /** `isDimensionColumn`: no rows, or text in more than half of the first five. */
  predicate IsDimension(rows: seq<Row>, columnIndex: nat) {
    |rows| == 0 || 2 * TextCount(rows[..SampleSize(rows)], columnIndex) > SampleSize(rows)
  }

  method IsDimensionColumn(rows: seq<Row>, columnIndex: nat) returns (b: bool)
    ensures b == IsDimension(rows, columnIndex)
  {
    if |rows| == 0 {
      return true;
    }
    var sample := rows[..if |rows| < 5 then |rows| else 5];
    var textCount := 0;
    for i := 0 to |sample|
      invariant textCount == TextCount(sample[..i], columnIndex)
    {
      assert sample[..i + 1][..i] == sample[..i];
      var value := sample[i];
      if IsTextCell(value, columnIndex) {
        textCount := textCount + 1;
      }
    }
    assert sample[..|sample|] == sample;
    b := 2 * textCount > |sample|;
  }

  /** A column whose sampled cells are all plain numbers is a measure, not a dimension. */
  lemma {:induction false} NumericSamplesCount(rows: seq<Row>, columnIndex: nat)
    requires forall k :: 0 <= k < |rows| ==>
      columnIndex < |rows[k]| && rows[k][columnIndex].Some?
      && rows[k][columnIndex].value != "" && JsNumber.AllDigits(rows[k][columnIndex].value)
    ensures TextCount(rows, columnIndex) == 0
  {
    if rows != [] {
      var last := rows[|rows| - 1];
      var v := last[columnIndex].value;
      assert forall i :: 0 <= i < |v| ==> v[i] !in {',', '$', '%'} by {
        forall i | 0 <= i < |v| ensures v[i] !in {',', '$', '%'} {
          assert JsNumber.IsDigit(v[i]);
        }
      }
      JsText.RemoveNone(v, {',', '$', '%'});
      JsNumber.DigitsAgree(v);
      NumericSamplesCount(rows[..|rows| - 1], columnIndex);
    }
  }

  lemma NumericColumnIsMeasure(rows: seq<Row>, columnIndex: nat)
    requires |rows| > 0
    requires forall k :: 0 <= k < |rows| ==>
      columnIndex < |rows[k]| && rows[k][columnIndex].Some?
      && rows[k][columnIndex].value != "" && JsNumber.AllDigits(rows[k][columnIndex].value)
    ensures !IsDimension(rows, columnIndex)
  {
    NumericSamplesCount(rows[..SampleSize(rows)], columnIndex);
  }

  /** The indices below min(columns, 5) that are dimension columns, in increasing order. */
  function DimensionColumns(rows: seq<Row>, columnCount: nat, limit: nat): (r: seq<nat>)
    ensures forall k :: 0 <= k < |r| ==> r[k] < limit && r[k] < columnCount && IsDimension(rows, r[k])
    ensures forall i :: 0 <= i < limit && i < columnCount && IsDimension(rows, i) ==> i in r
    ensures forall a, b :: 0 <= a < b < |r| ==> r[a] < r[b]
    ensures |r| <= limit
  {
    if limit == 0 then []
    else
      var pre := DimensionColumns(rows, columnCount, limit - 1);
      if limit - 1 < columnCount && IsDimension(rows, limit - 1) then pre + [limit - 1] else pre
  }

  /** `getDimensionColumns`, with `maxFieldsPerColumn` = 5. */
  method GetDimensionColumns(rows: seq<Row>, columnCount: nat) returns (dims: seq<nat>)
    ensures dims == DimensionColumns(rows, columnCount, if columnCount < 5 then columnCount else 5)
  {
    dims := [];
    var n := if columnCount < 5 then columnCount else 5;
    for i := 0 to n
      invariant dims == DimensionColumns(rows, columnCount, i)
    {
      var isDim := IsDimensionColumn(rows, i);
      DimensionColumnsNext(rows, columnCount, i);
      if isDim {
        dims := dims + [i];
      }
    }
  }

  /** One more column looked at: it is added when it is a dimension. */
  lemma DimensionColumnsNext(rows: seq<Row>, columnCount: nat, i: nat)
    requires i < columnCount
    ensures DimensionColumns(rows, columnCount, i + 1) ==
      DimensionColumns(rows, columnCount, i) + (if IsDimension(rows, i) then [i] else [])
  {
  }

  /** `getHierarchyLevels`: at most 3, and never more than the dimension columns found. */
  method GetHierarchyLevels(rows: seq<Row>, columnCount: nat) returns (levels: nat)
    ensures levels <= 3 && levels <= columnCount
    ensures var d := DimensionColumns(rows, columnCount, if columnCount < 5 then columnCount else 5);
      levels == if |d| < 3 then |d| else 3
  {
    var dims := GetDimensionColumns(rows, columnCount);
    levels := if |dims| < 3 then |dims| else 3;
  }

  // ----------------------------------------------------------- aggregates

  /** The sum of column j over the entries, counting only cells that parse. */
  function ColumnSum(es: seq<RowEntry>, j: nat): real {
    if es == [] then 0.0
    else
      var r := es[|es| - 1].row;
      ColumnSum(es[..|es| - 1], j) + (if j < |r| then MeasureGroups.CellValue(r[j]) else 0.0)
  }

  /** The aggregate of a column is additive over any split of the rows. */
  lemma {:induction false} ColumnSumAppend(a: seq<RowEntry>, b: seq<RowEntry>, j: nat)
    ensures ColumnSum(a + b, j) == ColumnSum(a, j) + ColumnSum(b, j)
    decreases |b|
  {
    if b == [] {
      assert a + b == a;
    } else {
      assert (a + b)[..|a + b| - 1] == a + b[..|b| - 1];
      ColumnSumAppend(a, b[..|b| - 1], j);
    }
  }

  /** An aggregate does not depend on the order in which groups of rows are summed. */
  lemma ColumnSumSwap(a: seq<RowEntry>, b: seq<RowEntry>, j: nat)
    ensures ColumnSum(a + b, j) == ColumnSum(b + a, j)
  {
    ColumnSumAppend(a, b, j);
    ColumnSumAppend(b, a, j);
  }

  /** `calculateGroupAggregates`: one sum per column. */
  method CalculateGroupAggregates(rowData: seq<RowEntry>, columnCount: nat) returns (aggregates: seq<real>)
    ensures |aggregates| == columnCount
    ensures forall j :: 0 <= j < columnCount ==> aggregates[j] == ColumnSum(rowData, j)
  {
    aggregates := seq(columnCount, _ => 0.0);
    for i := 0 to |rowData|
      invariant |aggregates| == columnCount
      invariant forall j :: 0 <= j < columnCount ==> aggregates[j] == ColumnSum(rowData[..i], j)
    {
      assert rowData[..i + 1][..i] == rowData[..i];
      var row := rowData[i].row;
      ghost var before := aggregates;
      for index := 0 to |row|
        invariant |aggregates| == columnCount
        invariant forall j :: 0 <= j < columnCount ==>
          aggregates[j] == before[j] + (if j < index then MeasureGroups.CellValue(row[j]) else 0.0)
      {
        if index < columnCount {
          aggregates := aggregates[index := aggregates[index] + MeasureGroups.CellValue(row[index])];
        }
      }
    }
    assert rowData[..|rowData|] == rowData;
  }

  /** `formatAggregateValue`, with `toLocaleString` as a parameter. */
  function FormatAggregateValue(value: real, columnIndex: int, isNumeric: bool, fmt: real -> string): (r: string)
    ensures !isNumeric || columnIndex == 0 ==> r == ""
    ensures isNumeric && columnIndex != 0 ==> r == fmt(value)
  {
    if !isNumeric || columnIndex == 0 then "" else fmt(value)
  }

  // ------------------------------------------------------ collapse state

  /** A key counts as collapsed unless it is stored as expanded (false). */
  predicate CollapsedIn<K(==)>(m: JsMap.OrderedMap<K, bool>, k: K) {
    JsMap.Get(m, k) != Some(false)
  }

  /** The sub-category key `${category}|${subCategory}`. */
  function SubKey(category: string, subCategory: string): string {
    category + "|" + subCategory
  }

  /** Without '|' in the category, different pairs never share a key. */
  lemma SubKeyInjective(c1: string, s1: string, c2: string, s2: string)
    requires '|' !in c1 && '|' !in c2
    requires SubKey(c1, s1) == SubKey(c2, s2)
    ensures c1 == c2 && s1 == s2
  {
    var k := SubKey(c1, s1);
    assert k[|c1|] == '|' && k[|c2|] == '|';
    assert c1 == k[..|c1|] == c2;
    assert s1 == k[|c1| + 1..] == s2;
  }

  /** Toggling twice restores the collapsed answer, and no other key's answer changes. */
  lemma ToggleTwice<K>(m: JsMap.OrderedMap<K, bool>, k: K, other: K)
    requires JsMap.DistinctKeys(m)
    ensures var m1 := JsMap.Put(m, k, !CollapsedIn(m, k));
      var m2 := JsMap.Put(m1, k, !CollapsedIn(m1, k));
      CollapsedIn(m1, k) == !CollapsedIn(m, k) && CollapsedIn(m2, k) == CollapsedIn(m, k)
      && (other != k ==> CollapsedIn(m1, other) == CollapsedIn(m, other))
  {
    var m1 := JsMap.Put(m, k, !CollapsedIn(m, k));
    JsMap.PutGet(m, k, !CollapsedIn(m, k), k);
    JsMap.PutGet(m, k, !CollapsedIn(m, k), other);
    JsMap.PutDistinct(m, k, !CollapsedIn(m, k));
    JsMap.PutGet(m1, k, !CollapsedIn(m1, k), k);
  }

  /** Every entry with the same key and the given value. */
  function SetAll<K>(m: JsMap.OrderedMap<K, bool>, v: bool): (r: JsMap.OrderedMap<K, bool>)
    ensures |r| == |m| && JsMap.Keys(r) == JsMap.Keys(m)
    ensures forall i :: 0 <= i < |m| ==> r[i] == (m[i].0, v)
  {
    seq(|m|, i requires 0 <= i < |m| => (m[i].0, v))
  }

  /** The Map that `restoreExpansionState` builds by setting each entry in turn into an empty Map. */
  function Restored<K(==)>(state: seq<(K, bool)>): JsMap.OrderedMap<K, bool>
    decreases |state|
  {
    if state == [] then []
    else
      var last := state[|state| - 1];
      JsMap.Put(Restored(state[..|state| - 1]), last.0, last.1)
  }

  /** Restoring entries with distinct keys gives back exactly those entries. */
  lemma {:induction false} RestoredDistinct<K>(state: seq<(K, bool)>)
    requires JsMap.DistinctKeys(state)
    ensures Restored(state) == state
    decreases |state|
  {
    if state != [] {
      var pre := state[..|state| - 1];
      RestoredDistinct(pre);
      assert state[|state| - 1].0 !in JsMap.Keys(pre);
      assert pre + [state[|state| - 1]] == state;
    }
  }

  lemma {:induction false} RestoredValid<K>(state: seq<(K, bool)>)
    ensures JsMap.DistinctKeys(Restored(state))
    decreases |state|
  {
    if state != [] {
      RestoredValid(state[..|state| - 1]);
      var last := state[|state| - 1];
      JsMap.PutDistinct(Restored(state[..|state| - 1]), last.0, last.1);
    }
  }

  class PivotGroupingState {
    var rowGroups: JsMap.OrderedMap<Option<string>, bool>
    var subCategoryGroups: JsMap.OrderedMap<string, bool>

    ghost predicate Valid()
      reads this
    {
      JsMap.DistinctKeys(rowGroups) && JsMap.DistinctKeys(subCategoryGroups)
    }

    constructor ()
      ensures Valid() && rowGroups == [] && subCategoryGroups == []
    {
      rowGroups := [];
      subCategoryGroups := [];
    }

    /** `isCategoryCollapsed`: an unknown category is collapsed. */
    function IsCategoryCollapsed(category: Option<string>): (r: bool)
      reads this
      ensures r <==> JsMap.Get(rowGroups, category) != Some(false)
      ensures category !in JsMap.Keys(rowGroups) ==> r
    {
      CollapsedIn(rowGroups, category)
    }

    /** `toggleCategory`: stores and returns the new collapsed flag. */
    method ToggleCategory(category: Option<string>) returns (nowCollapsed: bool)
      requires Valid()
      modifies this
      ensures Valid()
      ensures rowGroups == JsMap.Put(old(rowGroups), category, !CollapsedIn(old(rowGroups), category))
      ensures nowCollapsed == !CollapsedIn(old(rowGroups), category) && nowCollapsed == IsCategoryCollapsed(category)
      ensures subCategoryGroups == old(subCategoryGroups)
    {
      var isCollapsed := CollapsedIn(rowGroups, category);
      JsMap.PutGet(rowGroups, category, !isCollapsed, category);
      JsMap.PutDistinct(rowGroups, category, !isCollapsed);
      rowGroups := JsMap.Put(rowGroups, category, !isCollapsed);
      nowCollapsed := !isCollapsed;
    }

    function IsSubCategoryCollapsed(category: string, subCategory: string): (r: bool)
      reads this
      ensures r <==> JsMap.Get(subCategoryGroups, SubKey(category, subCategory)) != Some(false)
    {
      CollapsedIn(subCategoryGroups, SubKey(category, subCategory))
    }

    /** `toggleSubCategory`: the same rule on the "category|subCategory" key; rowGroups is untouched. */
    method ToggleSubCategory(category: string, subCategory: string) returns (nowCollapsed: bool)
      requires Valid()
      modifies this
      ensures Valid()
      ensures var key := SubKey(category, subCategory);
        subCategoryGroups == JsMap.Put(old(subCategoryGroups), key, !CollapsedIn(old(subCategoryGroups), key))
      ensures nowCollapsed == IsSubCategoryCollapsed(category, subCategory)
      ensures nowCollapsed == !CollapsedIn(old(subCategoryGroups), SubKey(category, subCategory))
      ensures rowGroups == old(rowGroups)
    {
      var key := SubKey(category, subCategory);
      var isCollapsed := CollapsedIn(subCategoryGroups, key);
      JsMap.PutGet(subCategoryGroups, key, !isCollapsed, key);
      JsMap.PutDistinct(subCategoryGroups, key, !isCollapsed);
      subCategoryGroups := JsMap.Put(subCategoryGroups, key, !isCollapsed);
      nowCollapsed := !isCollapsed;
    }

    /** `clearGroups`. */
    method ClearGroups()
      modifies this
      ensures Valid() && rowGroups == [] && subCategoryGroups == []
    {
      rowGroups := [];
      subCategoryGroups := [];
    }

    /** Sets every existing key of both Maps to v, adding no key. */
    method SetEveryKey(v: bool)
      requires Valid()
      modifies this
      ensures Valid()
      ensures rowGroups == SetAll(old(rowGroups), v)
      ensures subCategoryGroups == SetAll(old(subCategoryGroups), v)
    {
      for i := 0 to |rowGroups|
        invariant |rowGroups| == |old(rowGroups)| && JsMap.DistinctKeys(rowGroups)
        invariant forall k :: 0 <= k < |rowGroups| ==> rowGroups[k] == (old(rowGroups)[k].0, if k < i then v else old(rowGroups)[k].1)
        invariant subCategoryGroups == old(subCategoryGroups)
      {
        SeqOps.IndexOfFirst(JsMap.Keys(rowGroups), rowGroups[i].0, i);
        rowGroups := JsMap.Put(rowGroups, rowGroups[i].0, v);
      }
      for i := 0 to |subCategoryGroups|
        invariant |subCategoryGroups| == |old(subCategoryGroups)| && JsMap.DistinctKeys(subCategoryGroups)
        invariant forall k :: 0 <= k < |subCategoryGroups| ==>
          subCategoryGroups[k] == (old(subCategoryGroups)[k].0, if k < i then v else old(subCategoryGroups)[k].1)
        invariant rowGroups == SetAll(old(rowGroups), v)
      {
        SeqOps.IndexOfFirst(JsMap.Keys(subCategoryGroups), subCategoryGroups[i].0, i);
        subCategoryGroups := JsMap.Put(subCategoryGroups, subCategoryGroups[i].0, v);
      }
    }

    /** `expandAll`: every known key is expanded; unknown keys stay collapsed. */
    method ExpandAll()
      requires Valid()
      modifies this
      ensures Valid()
      ensures rowGroups == SetAll(old(rowGroups), false)
      ensures subCategoryGroups == SetAll(old(subCategoryGroups), false)
    {
      SetEveryKey(false);
    }

    /** `collapseAll`. */
    method CollapseAll()
      requires Valid()
      modifies this
      ensures Valid()
      ensures rowGroups == SetAll(old(rowGroups), true)
      ensures subCategoryGroups == SetAll(old(subCategoryGroups), true)
    {
      SetEveryKey(true);
    }

    /** `getExpansionState`: the category entries in insertion order. */
    function GetExpansionState(): (r: seq<(Option<string>, bool)>)
      reads this
      ensures r == rowGroups
      ensures Valid() ==> Restored(r) == rowGroups
    {
      assert Valid() ==> Restored(rowGroups) == rowGroups by {
        if Valid() {
          RestoredDistinct(rowGroups);
        }
      }
      rowGroups
    }

    /** `restoreExpansionState`: clear, then set each entry in order. */
    method RestoreExpansionState(state: seq<(Option<string>, bool)>)
      requires Valid()
      modifies this
      ensures Valid()
      ensures rowGroups == Restored(state)
      ensures JsMap.DistinctKeys(state) ==> GetExpansionState() == state
      ensures subCategoryGroups == old(subCategoryGroups)
    {
      rowGroups := [];
      for i := 0 to |state|
        invariant rowGroups == Restored(state[..i])
        invariant subCategoryGroups == old(subCategoryGroups)
      {
        assert state[..i + 1][..i] == state[..i];
        rowGroups := JsMap.Put(rowGroups, state[i].0, state[i].1);
      }
      assert state[..|state|] == state;
      RestoredValid(state);
      if JsMap.DistinctKeys(state) {
        RestoredDistinct(state);
      }
    }
  }
}
