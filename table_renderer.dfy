/**
 * The pivot-table renderer as the cell descriptors it appends: two header
 * rows and, per category, a category row followed (when the category is
 * expanded) by one row per sub-category. The second column never renders.
 * Measure groups decide which cells span several columns, which are hidden
 * and which show a group sum; the central invariant is that all these rows
 * have the same visible width.
 */
module TableRenderer {
  import opened Wrappers
  import SeqOps
  import JsMap
  import MeasureGroups
  import PivotGrouping

  /** One appended `th` or `td`: its text, its colSpan and whether it is `display: none`. */
  datatype Cell = Cell(text: string, colspan: nat, hidden: bool)

  datatype BodyRow = BodyRow(level: nat, cells: seq<Cell>)

  const Nbsp: char := '\U{00A0}'

  /** The columns a cell is appended for: every index except 1, in order. */
  function Rendered(columns: seq<string>): (cs: seq<string>)
    ensures |columns| >= 2 ==> |cs| == |columns| - 1
    ensures |columns| < 2 ==> cs == columns
  {
    if |columns| >= 2 then [columns[0]] + columns[2..] else columns
  }

  /** The column index of the k-th rendered cell. */
  function SourceIndex(k: nat): nat { if k == 0 then 0 else k + 1 }

  lemma RenderedAt(columns: seq<string>, k: nat)
    requires k < |Rendered(columns)|
    ensures SourceIndex(k) < |columns| && Rendered(columns)[k] == columns[SourceIndex(k)]
  {
  }

  /** The width a cell takes up: its colspan when shown, nothing when hidden. */
  function Span(c: Cell): nat { if c.hidden then 0 else c.colspan }

  function Width(cells: seq<Cell>): nat {
    if cells == [] then 0 else Span(cells[0]) + Width(cells[1..])
  }

  lemma {:induction false} WidthPointwise(a: seq<Cell>, b: seq<Cell>)
    requires |a| == |b| && forall k :: 0 <= k < |a| ==> Span(a[k]) == Span(b[k])
    ensures Width(a) == Width(b)
  {
    if a != [] {
      WidthPointwise(a[1..], b[1..]);
    }
  }

  // ----------------------------------------------------------- header rows

  /** The first-level header cell of column c. */
  function HeaderCell1(groups: seq<MeasureGroups.Group>, c: string): Cell {
    var found := MeasureGroups.FirstGroupWith(groups, c);
    if found.None? then Cell([Nbsp], 1, false)
    else
      var g := groups[found.value];
      if g.measures[0] == c then Cell("▼" + g.name, MeasureGroups.GetGroupColspan(g), false)
      else Cell("", 1, true)
  }

  /** The second-level header cell of column c. */
  function HeaderCell2(groups: seq<MeasureGroups.Group>, c: string): Cell {
    var found := MeasureGroups.FirstGroupWith(groups, c);
    if found.None? then Cell(c, 1, false)
    else
      var g := groups[found.value];
      if g.collapsed then
        if g.measures[0] == c then Cell([Nbsp], 1, false) else Cell("", 1, true)
      else Cell(c, 1, false)
  }

  function Row1(groups: seq<MeasureGroups.Group>, cs: seq<string>): (r: seq<Cell>)
    ensures |r| == |cs| && forall k :: 0 <= k < |cs| ==> r[k] == HeaderCell1(groups, cs[k])
  {
    seq(|cs|, k requires 0 <= k < |cs| => HeaderCell1(groups, cs[k]))
  }

  function Row2(groups: seq<MeasureGroups.Group>, cs: seq<string>): (r: seq<Cell>)
    ensures |r| == |cs| && forall k :: 0 <= k < |cs| ==> r[k] == HeaderCell2(groups, cs[k])
  {
    seq(|cs|, k requires 0 <= k < |cs| => HeaderCell2(groups, cs[k]))
  }

  // ------------------------------------------------------------ body rows

  /** `calculateMeasureGroupSum`: the group sum added up over the rows of a category or sub-category. */
  function MeasureGroupSum(rowData: seq<PivotGrouping.RowEntry>, g: MeasureGroups.Group, columns: seq<string>): real {
    if rowData == [] then 0.0
    else
      MeasureGroupSum(rowData[..|rowData| - 1], g, columns)
      + MeasureGroups.CalculateGroupSum(g, rowData[|rowData| - 1].row, columns)
  }

  lemma {:induction false} MeasureGroupSumAppend(a: seq<PivotGrouping.RowEntry>, b: seq<PivotGrouping.RowEntry>, g: MeasureGroups.Group, columns: seq<string>)
    ensures MeasureGroupSum(a + b, g, columns) == MeasureGroupSum(a, g, columns) + MeasureGroupSum(b, g, columns)
    decreases |b|
  {
    if b == [] {
      assert a + b == a;
    } else {
      assert (a + b)[..|a + b| - 1] == a + b[..|b| - 1];
      MeasureGroupSumAppend(a, b[..|b| - 1], g, columns);
    }
  }

  /**
   * The body cell at column index cellIndex of a category or sub-category row:
   * the caption in column 0, the group sum under a collapsed group's first
   * member, nothing under its other members, else the column's aggregate.
   */
  function BodyCell(groups: seq<MeasureGroups.Group>, columns: seq<string>, cellIndex: nat, caption: string,
                    rowData: seq<PivotGrouping.RowEntry>, fmt: real -> string): Cell
    requires cellIndex < |columns|
  {
    var c := columns[cellIndex];
    var found := MeasureGroups.FirstGroupWith(groups, c);
    if cellIndex == 0 then Cell(caption, 1, false)
    else if found.Some? && groups[found.value].collapsed && groups[found.value].measures[0] == c then
      Cell(fmt(MeasureGroupSum(rowData, groups[found.value], columns)), 1, false)
    else if found.Some? && groups[found.value].collapsed then Cell("", 1, true)
    else
      // The aggregate is a sum of parsed values, never NaN.
      Cell(if cellIndex > 1 then fmt(PivotGrouping.ColumnSum(rowData, cellIndex)) else "", 1, false)
  }

  function BodyCells(groups: seq<MeasureGroups.Group>, columns: seq<string>, caption: string,
                     rowData: seq<PivotGrouping.RowEntry>, fmt: real -> string): (r: seq<Cell>)
    ensures |r| == |Rendered(columns)|
    ensures forall k :: 0 <= k < |r| ==> SourceIndex(k) < |columns| && r[k] == BodyCell(groups, columns, SourceIndex(k), caption, rowData, fmt)
  {
    var n := |Rendered(columns)|;
    seq(n, k requires 0 <= k < n => BodyCell(groups, columns, SourceIndex(k), caption, rowData, fmt))
  }

  function CategoryText(category: Option<string>): string {
    if category.Some? then category.value else "undefined"
  }

  /** The first cell of a category row: the expand icon, a space and the category. */
  function CategoryLabel(category: Option<string>, collapsed: bool): (r: string)
    ensures |r| == 2 + |CategoryText(category)|
    ensures r[0] == (if collapsed then '▶' else '▼') && r[1] == ' '
    ensures r[2..] == CategoryText(category)
  {
    [if collapsed then '▶' else '▼', ' '] + CategoryText(category)
  }

  /** The first cell of a sub-category row: four non-breaking spaces, then the name. */
  function SubCategoryLabel(subCategory: string): (r: string)
    ensures |r| == 4 + |subCategory| && r[4..] == subCategory
    ensures forall i :: 0 <= i < 4 ==> r[i] == Nbsp
  {
    [Nbsp, Nbsp, Nbsp, Nbsp] + subCategory
  }

  /** The sub-category rows of one expanded category, in the order groupBySubCategory yields them. */
  function SubRows(groups: seq<MeasureGroups.Group>, columns: seq<string>,
                   subGroups: JsMap.OrderedMap<string, seq<PivotGrouping.RowEntry>>, fmt: real -> string): (r: seq<BodyRow>)
    ensures |r| == |subGroups|
    ensures forall k :: 0 <= k < |r| ==> r[k] == BodyRow(1, BodyCells(groups, columns, SubCategoryLabel(subGroups[k].0), subGroups[k].1, fmt))
  {
    seq(|subGroups|, k requires 0 <= k < |subGroups| =>
      BodyRow(1, BodyCells(groups, columns, SubCategoryLabel(subGroups[k].0), subGroups[k].1, fmt)))
  }

  /** One category's block: its row, then its sub-category rows unless the category is collapsed. */
  function CategoryBlock(groups: seq<MeasureGroups.Group>, columns: seq<string>, rowGroups: JsMap.OrderedMap<Option<string>, bool>,
                         category: Option<string>, rowData: seq<PivotGrouping.RowEntry>, fmt: real -> string): (r: seq<BodyRow>)
    ensures |r| >= 1 && r[0].level == 0
    ensures forall k :: 1 <= k < |r| ==> r[k].level == 1
    ensures PivotGrouping.CollapsedIn(rowGroups, category) ==> |r| == 1
  {
    var collapsed := PivotGrouping.CollapsedIn(rowGroups, category);
    [BodyRow(0, BodyCells(groups, columns, CategoryLabel(category, collapsed), rowData, fmt))]
    + (if collapsed then [] else SubRows(groups, columns, PivotGrouping.GroupSpec(rowData, PivotGrouping.SubCategoryKey), fmt))
  }

  function Body(groups: seq<MeasureGroups.Group>, columns: seq<string>, rowGroups: JsMap.OrderedMap<Option<string>, bool>,
                cats: JsMap.OrderedMap<Option<string>, seq<PivotGrouping.RowEntry>>, fmt: real -> string): seq<BodyRow>
    decreases |cats|
  {
    if cats == [] then []
    else
      var last := cats[|cats| - 1];
      Body(groups, columns, rowGroups, cats[..|cats| - 1], fmt) + CategoryBlock(groups, columns, rowGroups, last.0, last.1, fmt)
  }

  function CategoryRows(body: seq<BodyRow>): nat {
    if body == [] then 0 else (if body[0].level == 0 then 1 else 0) + CategoryRows(body[1..])
  }

  lemma {:induction false} CategoryRowsAppend(a: seq<BodyRow>, b: seq<BodyRow>)
    ensures CategoryRows(a + b) == CategoryRows(a) + CategoryRows(b)
    decreases |a|
  {
    if a == [] {
      assert a + b == b;
    } else {
      assert (a + b)[1..] == a[1..] + b;
      CategoryRowsAppend(a[1..], b);
    }
  }

  lemma {:induction false} CategoryRowsOfBlock(blk: seq<BodyRow>)
    requires |blk| >= 1 && blk[0].level == 0 && forall k :: 1 <= k < |blk| ==> blk[k].level == 1
    ensures CategoryRows(blk) == 1
  {
    var tail := blk[1..];
    assert forall k :: 0 <= k < |tail| ==> tail[k].level == 1;
    NoCategoryRows(tail);
  }

  lemma {:induction false} NoCategoryRows(rs: seq<BodyRow>)
    requires forall k :: 0 <= k < |rs| ==> rs[k].level == 1
    ensures CategoryRows(rs) == 0
  {
    if rs != [] {
      NoCategoryRows(rs[1..]);
    }
  }

  /** There is exactly one category row per category group. */
  lemma {:induction false} OneRowPerCategory(groups: seq<MeasureGroups.Group>, columns: seq<string>, rowGroups: JsMap.OrderedMap<Option<string>, bool>,
                                             cats: JsMap.OrderedMap<Option<string>, seq<PivotGrouping.RowEntry>>, fmt: real -> string)
    ensures CategoryRows(Body(groups, columns, rowGroups, cats, fmt)) == |cats|
    decreases |cats|
  {
    if cats != [] {
      var last := cats[|cats| - 1];
      OneRowPerCategory(groups, columns, rowGroups, cats[..|cats| - 1], fmt);
      var blk := CategoryBlock(groups, columns, rowGroups, last.0, last.1, fmt);
      CategoryRowsAppend(Body(groups, columns, rowGroups, cats[..|cats| - 1], fmt), blk);
      CategoryRowsOfBlock(blk);
    }
  }

  /** With the rows of the table, that is one category row per distinct first-column value. */
  lemma CategoryRowsAreDistinctValues(groups: seq<MeasureGroups.Group>, columns: seq<string>, rowGroups: JsMap.OrderedMap<Option<string>, bool>,
                                      rows: seq<PivotGrouping.Row>, fmt: real -> string)
    ensures var cats := PivotGrouping.GroupSpec(PivotGrouping.Indexed(rows), PivotGrouping.CategoryKey);
      CategoryRows(Body(groups, columns, rowGroups, cats, fmt)) == |PivotGrouping.KeyOrder(PivotGrouping.Indexed(rows), PivotGrouping.CategoryKey)|
  {
    var cats := PivotGrouping.GroupSpec(PivotGrouping.Indexed(rows), PivotGrouping.CategoryKey);
    OneRowPerCategory(groups, columns, rowGroups, cats, fmt);
    PivotGrouping.GroupSpecPartition(PivotGrouping.Indexed(rows), PivotGrouping.CategoryKey);
  }

  // ------------------------------------------------------ alignment proof

  /**
   * The measure groups the alignment invariant needs: column names distinct;
   * each group's members distinct existing columns other than indices 0 and 1;
   * no column in two groups.
   */
  predicate WellFormed(columns: seq<string>, groups: seq<MeasureGroups.Group>) {
    SeqOps.Distinct(columns)
    && (forall i :: 0 <= i < |groups| ==> SeqOps.Distinct(groups[i].measures))
    && (forall i, m :: 0 <= i < |groups| && m in groups[i].measures ==> MeasureColumn(columns, m))
    && (forall i, j, m :: 0 <= i < j < |groups| && m in groups[i].measures ==> m !in groups[j].measures)
  }

  /** m names a column after the first two. */
  predicate MeasureColumn(columns: seq<string>, m: string) {
    |columns| >= 2 && m in columns[2..]
  }

  function Hits(cs: seq<string>, members: set<string>): nat {
    if cs == [] then 0 else (if cs[0] in members then 1 else 0) + Hits(cs[1..], members)
  }

  /** w for every occurrence of x in cs. */
  function SpanHits(cs: seq<string>, x: string, w: nat): nat {
    if cs == [] then 0 else (if cs[0] == x then w else 0) + SpanHits(cs[1..], x, w)
  }

  lemma {:induction false} SpanHitsOnce(cs: seq<string>, x: string, w: nat)
    requires Hits(cs, {x}) == 1
    ensures SpanHits(cs, x, w) == w
    decreases |cs|
  {
    if cs != [] {
      if cs[0] == x {
        assert Hits(cs[1..], {x}) == 0;
        SpanHitsNone(cs[1..], x, w);
      } else {
        SpanHitsOnce(cs[1..], x, w);
      }
    }
  }

  lemma {:induction false} SpanHitsNone(cs: seq<string>, x: string, w: nat)
    requires Hits(cs, {x}) == 0
    ensures SpanHits(cs, x, w) == 0
    decreases |cs|
  {
    if cs != [] {
      SpanHitsNone(cs[1..], x, w);
    }
  }

  lemma {:induction false} HitsCard(cs: seq<string>, members: set<string>)
    requires SeqOps.Distinct(cs) && members <= set c | c in cs
    ensures Hits(cs, members) == |members|
    decreases |cs|
  {
    if cs != [] {
      var rest := members - {cs[0]};
      assert SeqOps.Distinct(cs[1..]) by {
        forall i, j | 0 <= i < j < |cs[1..]| ensures cs[1..][i] != cs[1..][j] {
          assert cs[1..][i] == cs[i + 1] && cs[1..][j] == cs[j + 1];
        }
      }
      assert rest <= set c | c in cs[1..] by {
        forall m | m in rest ensures m in cs[1..] {
          var i :| 0 <= i < |cs| && cs[i] == m;
          assert i != 0;
          assert cs[1..][i - 1] == m;
        }
      }
      HitsCard(cs[1..], rest);
      assert forall i :: 0 <= i < |cs[1..]| ==> cs[1..][i] != cs[0] by {
        forall i | 0 <= i < |cs[1..]| ensures cs[1..][i] != cs[0] {
          assert cs[1..][i] == cs[i + 1];
        }
      }
      HitsIgnore(cs[1..], members, cs[0]);
      if cs[0] in members {
        assert members == rest + {cs[0]};
      } else {
        assert rest == members;
      }
    }
  }

  /** A name that does not occur in cs does not change the count. */
  lemma {:induction false} HitsIgnore(cs: seq<string>, members: set<string>, x: string)
    requires forall i :: 0 <= i < |cs| ==> cs[i] != x
    ensures Hits(cs, members) == Hits(cs, members - {x})
    decreases |cs|
  {
    if cs != [] {
      HitsIgnore(cs[1..], members, x);
    }
  }

  lemma {:induction false} DistinctCard(s: seq<string>)
    requires SeqOps.Distinct(s)
    ensures |set c | c in s| == |s|
    decreases |s|
  {
    if s != [] {
      var t := s[1..];
      assert SeqOps.Distinct(t) by {
        forall i, j | 0 <= i < j < |t| ensures t[i] != t[j] {
          assert t[i] == s[i + 1] && t[j] == s[j + 1];
        }
      }
      DistinctCard(t);
      assert (set c | c in s) == (set c | c in t) + {s[0]};
      assert s[0] !in (set c | c in t) by {
        forall i | 0 <= i < |t| ensures t[i] != s[0] {
          assert t[i] == s[i + 1];
        }
      }
    }
  }

  /** How putting group g in front of rest changes the header cells of one column c. */
  lemma CellStep(g: MeasureGroups.Group, rest: seq<MeasureGroups.Group>, c: string)
    requires g.measures != []
    requires forall m :: m in g.measures ==> MeasureGroups.FirstGroupWith(rest, m).None?
    ensures var hit := if c in g.measures then 1 else 0;
      var first := if c == g.measures[0] then 1 else 0;
      Span(HeaderCell1([g] + rest, c)) + hit == Span(HeaderCell1(rest, c)) + (if c == g.measures[0] then MeasureGroups.GetGroupColspan(g) else 0)
      && Span(HeaderCell2([g] + rest, c)) + hit == Span(HeaderCell2(rest, c)) + (if g.collapsed then first else hit)
  {
    var all := [g] + rest;
    assert all[0] == g && all[1..] == rest;
    if c in g.measures {
      assert MeasureGroups.FirstGroupWith(all, c) == Some(0);
    } else {
      var f := MeasureGroups.FirstGroupWith(rest, c);
      assert MeasureGroups.FirstGroupWith(all, c) == if f.None? then None else Some(f.value + 1);
    }
  }

  /** The contribution of one group's members to the first header row's width. */
  lemma {:induction false} StepRow1(g: MeasureGroups.Group, rest: seq<MeasureGroups.Group>, cs: seq<string>)
    requires g.measures != []
    requires forall m :: m in g.measures ==> MeasureGroups.FirstGroupWith(rest, m).None?
    ensures Width(Row1([g] + rest, cs)) + Hits(cs, set m | m in g.measures)
      == Width(Row1(rest, cs)) + SpanHits(cs, g.measures[0], MeasureGroups.GetGroupColspan(g))
    decreases |cs|
  {
    if cs != [] {
      StepRow1(g, rest, cs[1..]);
      assert Row1([g] + rest, cs)[1..] == Row1([g] + rest, cs[1..]);
      assert Row1(rest, cs)[1..] == Row1(rest, cs[1..]);
      CellStep(g, rest, cs[0]);
    }
  }

  /** The contribution of one group's members to the second header row's width. */
  lemma {:induction false} StepRow2(g: MeasureGroups.Group, rest: seq<MeasureGroups.Group>, cs: seq<string>)
    requires g.measures != []
    requires forall m :: m in g.measures ==> MeasureGroups.FirstGroupWith(rest, m).None?
    ensures var members := set m | m in g.measures;
      Width(Row2([g] + rest, cs)) + Hits(cs, members)
      == Width(Row2(rest, cs)) + (if g.collapsed then Hits(cs, {g.measures[0]}) else Hits(cs, members))
    decreases |cs|
  {
    if cs != [] {
      StepRow2(g, rest, cs[1..]);
      assert Row2([g] + rest, cs)[1..] == Row2([g] + rest, cs[1..]);
      assert Row2(rest, cs)[1..] == Row2(rest, cs[1..]);
      CellStep(g, rest, cs[0]);
    }
  }

  /** Empty groups are never found and so change nothing. */
  lemma {:induction false} StepEmptyGroup(g: MeasureGroups.Group, rest: seq<MeasureGroups.Group>, cs: seq<string>)
    requires g.measures == []
    ensures Width(Row1([g] + rest, cs)) == Width(Row1(rest, cs))
    ensures Width(Row2([g] + rest, cs)) == Width(Row2(rest, cs))
  {
    var all := [g] + rest;
    assert all[1..] == rest;
    forall k | 0 <= k < |cs| ensures Span(Row1(all, cs)[k]) == Span(Row1(rest, cs)[k]) && Span(Row2(all, cs)[k]) == Span(Row2(rest, cs)[k]) {
      var f := MeasureGroups.FirstGroupWith(rest, cs[k]);
      assert MeasureGroups.FirstGroupWith(all, cs[k]) == if f.None? then None else Some(f.value + 1);
    }
    WidthPointwise(Row1(all, cs), Row1(rest, cs));
    WidthPointwise(Row2(all, cs), Row2(rest, cs));
  }

  lemma RenderedDistinct(columns: seq<string>)
    requires SeqOps.Distinct(columns)
    ensures SeqOps.Distinct(Rendered(columns))
  {
    var cs := Rendered(columns);
    forall i, j | 0 <= i < j < |cs| ensures cs[i] != cs[j] {
      RenderedAt(columns, i);
      RenderedAt(columns, j);
    }
  }

  /** The measures of a group are all among the rendered columns. */
  lemma MembersRendered(columns: seq<string>, g: MeasureGroups.Group)
    requires forall m :: m in g.measures ==> MeasureColumn(columns, m)
    ensures (set m | m in g.measures) <= set c | c in Rendered(columns)
  {
    var cs := Rendered(columns);
    forall m | m in g.measures ensures m in cs {
      assert MeasureColumn(columns, m);
      var i :| 0 <= i < |columns[2..]| && columns[2..][i] == m;
      assert cs[i + 1] == m;
    }
  }

  /** A non-empty group in front of the others widens both header rows alike. */
  lemma GroupKeepsWidths(columns: seq<string>, g: MeasureGroups.Group, rest: seq<MeasureGroups.Group>)
    requires SeqOps.Distinct(columns) && SeqOps.Distinct(g.measures) && g.measures != []
    requires forall m :: m in g.measures ==> MeasureColumn(columns, m) && MeasureGroups.FirstGroupWith(rest, m).None?
    requires Width(Row1(rest, Rendered(columns))) == Width(Row2(rest, Rendered(columns)))
    ensures Width(Row1([g] + rest, Rendered(columns))) == Width(Row2([g] + rest, Rendered(columns)))
  {
    var cs := Rendered(columns);
    var members := set m | m in g.measures;
    var w := MeasureGroups.GetGroupColspan(g);
    StepRow1(g, rest, cs);
    StepRow2(g, rest, cs);
    RenderedDistinct(columns);
    MembersRendered(columns, g);
    HitsCard(cs, members);
    assert {g.measures[0]} <= members;
    HitsCard(cs, {g.measures[0]});
    SpanHitsOnce(cs, g.measures[0], w);
    DistinctCard(g.measures);
    assert Hits(cs, members) == |g.measures|;
    assert w == if g.collapsed then Hits(cs, {g.measures[0]}) else Hits(cs, members);
  }

  lemma {:induction false} HeaderWidthsAgreeOn(columns: seq<string>, groups: seq<MeasureGroups.Group>)
    requires WellFormed(columns, groups)
    ensures Width(Row1(groups, Rendered(columns))) == Width(Row2(groups, Rendered(columns)))
    decreases |groups|
  {
    var cs := Rendered(columns);
    if groups == [] {
      WidthPointwise(Row1(groups, cs), Row2(groups, cs));
    } else {
      var g, rest := groups[0], groups[1..];
      assert groups == [g] + rest;
      assert WellFormed(columns, rest) by {
        forall i | 0 <= i < |rest| ensures rest[i] == groups[i + 1] {
        }
      }
      HeaderWidthsAgreeOn(columns, rest);
      if g.measures == [] {
        StepEmptyGroup(g, rest, cs);
      } else {
        forall m | m in g.measures ensures MeasureColumn(columns, m) && MeasureGroups.FirstGroupWith(rest, m).None? {
          assert m in groups[0].measures;
          forall k | 0 <= k < |rest| ensures m !in rest[k].measures {
            assert rest[k] == groups[k + 1];
          }
        }
        GroupKeepsWidths(columns, g, rest);
      }
    }
  }

  /** A body row has the visible width of the second header row, when column 0 is in no group. */
  lemma BodyMatchesHeader2(groups: seq<MeasureGroups.Group>, columns: seq<string>, caption: string,
                           rowData: seq<PivotGrouping.RowEntry>, fmt: real -> string)
    requires |columns| > 0 && MeasureGroups.FirstGroupWith(groups, columns[0]).None?
    ensures Width(BodyCells(groups, columns, caption, rowData, fmt)) == Width(Row2(groups, Rendered(columns)))
  {
    var cs := Rendered(columns);
    forall k | 0 <= k < |cs|
      ensures Span(BodyCells(groups, columns, caption, rowData, fmt)[k]) == Span(Row2(groups, cs)[k])
    {
      RenderedAt(columns, k);
    }
    WidthPointwise(BodyCells(groups, columns, caption, rowData, fmt), Row2(groups, cs));
  }

  /**
   * The alignment invariant: both header rows and every body row have the
   * same visible width, for well-formed measure groups.
   */
  lemma Aligned(groups: seq<MeasureGroups.Group>, columns: seq<string>, caption: string,
                rowData: seq<PivotGrouping.RowEntry>, fmt: real -> string)
    requires |columns| > 0 && WellFormed(columns, groups)
    ensures Width(Row1(groups, Rendered(columns))) == Width(Row2(groups, Rendered(columns)))
    ensures Width(BodyCells(groups, columns, caption, rowData, fmt)) == Width(Row2(groups, Rendered(columns)))
  {
    HeaderWidthsAgreeOn(columns, groups);
    forall i, m | 0 <= i < |groups| && m in groups[i].measures ensures m != columns[0] {
      assert MeasureColumn(columns, m);
      var j :| 0 <= j < |columns| - 2 && columns[2..][j] == m;
      assert columns[j + 2] == m;
    }
    BodyMatchesHeader2(groups, columns, caption, rowData, fmt);
  }

  // -------------------------------------------------------------- methods

  /** One column more: column 1 adds nothing, every other column its own cell. */
  lemma RenderedSnoc(columns: seq<string>, index: nat)
    requires index < |columns|
    ensures Rendered(columns[..index + 1]) == Rendered(columns[..index]) + (if index == 1 then [] else [columns[index]])
  {
    if index >= 2 {
      assert columns[..index + 1][2..] == columns[..index][2..] + [columns[index]];
    }
  }

  lemma BodySnoc(groups: seq<MeasureGroups.Group>, columns: seq<string>, rowGroups: JsMap.OrderedMap<Option<string>, bool>,
                 cats: JsMap.OrderedMap<Option<string>, seq<PivotGrouping.RowEntry>>, i: nat, fmt: real -> string)
    requires i < |cats|
    ensures Body(groups, columns, rowGroups, cats[..i + 1], fmt)
         == Body(groups, columns, rowGroups, cats[..i], fmt) + CategoryBlock(groups, columns, rowGroups, cats[i].0, cats[i].1, fmt)
  {
    assert cats[..i + 1][..i] == cats[..i];
  }

  lemma HeaderRowsSnoc(groups: seq<MeasureGroups.Group>, cs: seq<string>, c: string)
    ensures Row1(groups, cs + [c]) == Row1(groups, cs) + [HeaderCell1(groups, c)]
    ensures Row2(groups, cs + [c]) == Row2(groups, cs) + [HeaderCell2(groups, c)]
  {
    assert forall k :: 0 <= k < |cs| ==> (cs + [c])[k] == cs[k];
  }

  class Renderer {
    const measureGrouping: MeasureGroups.MeasureGrouping
    const pivotGrouping: PivotGrouping.PivotGroupingState

    constructor (mg: MeasureGroups.MeasureGrouping, pg: PivotGrouping.PivotGroupingState)
      ensures measureGrouping == mg && pivotGrouping == pg
    {
      measureGrouping := mg;
      pivotGrouping := pg;
    }

    /** `renderHeader`: the two header rows, one cell per column except column 1. */
    method RenderHeader(columns: seq<string>) returns (first: seq<Cell>, second: seq<Cell>)
      ensures first == Row1(measureGrouping.groups, Rendered(columns))
      ensures second == Row2(measureGrouping.groups, Rendered(columns))
    {
      var groups := measureGrouping.groups;
      first, second := [], [];
      for index := 0 to |columns|
        invariant first == Row1(groups, Rendered(columns[..index]))
        invariant second == Row2(groups, Rendered(columns[..index]))
      {
        RenderedSnoc(columns, index);
        if index != 1 {
          var col := columns[index];
          HeaderRowsSnoc(groups, Rendered(columns[..index]), col);
          first := first + [HeaderCell1(groups, col)];
          second := second + [HeaderCell2(groups, col)];
        }
      }
      assert columns[..|columns|] == columns;
    }

    /** One `td` of `createCategoryRow` / `createSubCategoryRow`. */
    method CreateCell(columns: seq<string>, cellIndex: nat, caption: string, rowData: seq<PivotGrouping.RowEntry>, fmt: real -> string)
      returns (td: Cell)
      requires cellIndex < |columns|
      ensures td == BodyCell(measureGrouping.groups, columns, cellIndex, caption, rowData, fmt)
    {
      var groups := measureGrouping.groups;
      var col := columns[cellIndex];
      var found := MeasureGroups.FirstGroupWith(groups, col);
      if cellIndex == 0 {
        td := Cell(caption, 1, false);
      } else if found.Some? && groups[found.value].collapsed && groups[found.value].measures[0] == col {
        td := Cell(fmt(MeasureGroupSum(rowData, groups[found.value], columns)), 1, false);
      } else if found.Some? && groups[found.value].collapsed {
        td := Cell("", 1, true);
      } else {
        var aggregates := PivotGrouping.CalculateGroupAggregates(rowData, |columns|);
        var value := aggregates[cellIndex];
        td := Cell(if cellIndex > 1 then fmt(value) else "", 1, false);
      }
    }

    /** `createCategoryRow` and `createSubCategoryRow`: one cell per column except column 1. */
    method CreateRow(columns: seq<string>, caption: string, rowData: seq<PivotGrouping.RowEntry>, fmt: real -> string)
      returns (cells: seq<Cell>)
      ensures cells == BodyCells(measureGrouping.groups, columns, caption, rowData, fmt)
    {
      cells := [];
      for cellIndex := 0 to |columns|
        invariant |cells| == if cellIndex >= 2 then cellIndex - 1 else cellIndex
        invariant forall k :: 0 <= k < |cells| ==>
          SourceIndex(k) < |columns| && cells[k] == BodyCell(measureGrouping.groups, columns, SourceIndex(k), caption, rowData, fmt)
      {
        if cellIndex != 1 {
          var td := CreateCell(columns, cellIndex, caption, rowData, fmt);
          assert SourceIndex(|cells|) == cellIndex;
          cells := cells + [td];
        }
      }
    }

    /** The sub-category rows of an expanded category in `renderBody`. */
    method RenderSubRows(columns: seq<string>, subGroups: JsMap.OrderedMap<string, seq<PivotGrouping.RowEntry>>, fmt: real -> string)
      returns (rows: seq<BodyRow>)
      ensures rows == SubRows(measureGrouping.groups, columns, subGroups, fmt)
    {
      rows := [];
      for j := 0 to |subGroups|
        invariant |rows| == j
        invariant forall k :: 0 <= k < j ==>
          rows[k] == BodyRow(1, BodyCells(measureGrouping.groups, columns, SubCategoryLabel(subGroups[k].0), subGroups[k].1, fmt))
      {
        var (subCategory, subRows) := subGroups[j];
        var subCells := CreateRow(columns, SubCategoryLabel(subCategory), subRows, fmt);
        rows := rows + [BodyRow(1, subCells)];
      }
    }

    /** One category's rows in `renderBody`. */
    method RenderCategory(columns: seq<string>, category: Option<string>, rowData: seq<PivotGrouping.RowEntry>, fmt: real -> string)
      returns (blk: seq<BodyRow>)
      ensures blk == CategoryBlock(measureGrouping.groups, columns, pivotGrouping.rowGroups, category, rowData, fmt)
    {
      var collapsed := pivotGrouping.IsCategoryCollapsed(category);
      var catCells := CreateRow(columns, CategoryLabel(category, collapsed), rowData, fmt);
      blk := [BodyRow(0, catCells)];
      if !collapsed {
        var subGroups := PivotGrouping.GroupBySubCategory(rowData);
        var subRows := RenderSubRows(columns, subGroups, fmt);
        blk := blk + subRows;
      }
    }

    /** `renderBody`: per category its row, then its sub-category rows when it is expanded. */
    method RenderBody(columns: seq<string>, rows: seq<PivotGrouping.Row>, fmt: real -> string) returns (body: seq<BodyRow>)
      ensures body == Body(measureGrouping.groups, columns, pivotGrouping.rowGroups,
                           PivotGrouping.GroupSpec(PivotGrouping.Indexed(rows), PivotGrouping.CategoryKey), fmt)
    {
      var cats := PivotGrouping.GroupRowsByCategory(rows);
      body := [];
      for i := 0 to |cats|
        invariant body == Body(measureGrouping.groups, columns, pivotGrouping.rowGroups, cats[..i], fmt)
      {
        BodySnoc(measureGrouping.groups, columns, pivotGrouping.rowGroups, cats, i, fmt);
        var (category, rowData) := cats[i];
        var blk := RenderCategory(columns, category, rowData, fmt);
        body := body + blk;
      }
      assert cats[..|cats|] == cats;
    }

    /** `toggleMeasureGroup`: toggles the first group equal to the clicked one, when it is in the list. */
    method ToggleMeasureGroup(g: MeasureGroups.Group) returns (toggled: bool)
      modifies measureGrouping
      ensures toggled <==> g in old(measureGrouping.groups)
      ensures measureGrouping.groups == MeasureGroups.Toggled(old(measureGrouping.groups), SeqOps.IndexOf(old(measureGrouping.groups), g))
    {
      var groupId := SeqOps.IndexOf(measureGrouping.groups, g);
      toggled := measureGrouping.ToggleGroup(groupId);
    }
  }
}
