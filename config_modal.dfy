/**
 * The measure-group editor: one block per group, each with a name input and
 * a checkbox per numeric column. Saving replaces every group by the blocks
 * that have a non-blank name and at least two checked measures.
 */
module ConfigModal {
  import opened Wrappers
  import JsText
  import SeqOps
  import MG = MeasureGroups

  datatype ColumnType = ColumnType(name: string, dataType: string)

  /** The loaded data, as far as the editor reads it. */
  datatype Data = Data(columnTypes: Option<seq<ColumnType>>)

  /** The data types counted as numeric, compared after lower-casing. */
  const NumericTypes: seq<string> := ["float", "integer", "real", "number", "int", "double"]

  predicate IsNumeric(c: ColumnType) {
    JsText.Lower(c.dataType) in NumericTypes
  }

  /** The names of the numeric columns, in column order. */
  function NumericNames(cols: seq<ColumnType>): (r: seq<string>)
    ensures |r| <= |cols|
  {
    if cols == [] then []
    else if IsNumeric(cols[0]) then [cols[0].name] + NumericNames(cols[1..])
    else NumericNames(cols[1..])
  }

  function Names(cols: seq<ColumnType>): seq<string> {
    seq(|cols|, i requires 0 <= i < |cols| => cols[i].name)
  }

  /** A name is offered exactly when some numeric column has it, and the offered names keep column order. */
  lemma {:induction false} NumericNamesExactly(cols: seq<ColumnType>)
    ensures forall n :: n in NumericNames(cols) <==> exists i :: 0 <= i < |cols| && cols[i].name == n && IsNumeric(cols[i])
    ensures SeqOps.IsSubseq(NumericNames(cols), Names(cols))
  {
    if cols != [] {
      var rest := cols[1..];
      NumericNamesExactly(rest);
      assert forall i :: 1 <= i < |cols| ==> cols[i] == rest[i - 1];
      assert Names(cols)[1..] == Names(rest);
      forall n | exists i :: 0 <= i < |cols| && cols[i].name == n && IsNumeric(cols[i])
        ensures n in NumericNames(cols)
      {
        var i :| 0 <= i < |cols| && cols[i].name == n && IsNumeric(cols[i]);
        if i > 0 {
          assert rest[i - 1].name == n && IsNumeric(rest[i - 1]);
        }
      }
      if IsNumeric(cols[0]) {
        assert NumericNames(cols)[1..] == NumericNames(rest);
      }
    }
  }

  /** `getNumericColumns`: no data, or data without column types, offers nothing. */
  function GetNumericColumns(data: Option<Data>): (r: seq<string>)
    ensures data.None? || data.value.columnTypes.None? ==> r == []
    ensures data.Some? && data.value.columnTypes.Some? ==> r == NumericNames(data.value.columnTypes.value)
  {
    if data.None? || data.value.columnTypes.None? then [] else NumericNames(data.value.columnTypes.value)
  }

  /** A block as saving reads it: the name input's value and each checkbox's value and state, in order. */
  datatype Block = Block(name: string, options: seq<(string, bool)>)

  /**
   * `addGroupToConfig` for an existing group: the name input holds the
   * group's name, and there is one checkbox per numeric column, in column
   * order, checked exactly when the group lists that column.
   */
  function EditorBlock(g: MG.Group, numeric: seq<string>): (b: Block)
    ensures b.name == g.name && |b.options| == |numeric|
    ensures forall k :: 0 <= k < |numeric| ==> b.options[k].0 == numeric[k] && (b.options[k].1 <==> numeric[k] in g.measures)
  {
    Block(g.name, seq(|numeric|, k requires 0 <= k < |numeric| => (numeric[k], numeric[k] in g.measures)))
  }

  /** `open`: one block per existing group, in the grouping's order. */
  function OpenBlocks(groups: seq<MG.Group>, numeric: seq<string>): (r: seq<Block>)
    ensures |r| == |groups|
    ensures forall i :: 0 <= i < |groups| ==> r[i].name == groups[i].name && |r[i].options| == |numeric|
  {
    seq(|groups|, i requires 0 <= i < |groups| => EditorBlock(groups[i], numeric))
  }

  /** The values of the checked boxes, in order. */
  function Checked(options: seq<(string, bool)>): seq<string> {
    if options == [] then []
    else if options[0].1 then [options[0].0] + Checked(options[1..])
    else Checked(options[1..])
  }

  /** `name && checkedMeasures.length >= 2`, on the trimmed name. */
  predicate Keeps(b: Block) {
    JsText.Trim(b.name) != "" && |Checked(b.options)| >= 2
  }

  /** The group one block adds: named by the trimmed name, with the checked measures, expanded. */
  function SavedFrom(b: Block): seq<MG.Group> {
    if Keeps(b) then [MG.Group(JsText.Trim(b.name), Checked(b.options), false)] else []
  }

  /** The groups `saveConfiguration` adds, block by block. */
  function SavedGroups(blocks: seq<Block>): seq<MG.Group> {
    if blocks == [] then [] else SavedFrom(blocks[0]) + SavedGroups(blocks[1..])
  }

  /** Saving works block by block: the groups of a + b are a's followed by b's. */
  lemma {:induction false} SavedAppend(a: seq<Block>, b: seq<Block>)
    ensures SavedGroups(a + b) == SavedGroups(a) + SavedGroups(b)
  {
    if a == [] {
      assert a + b == b;
    } else {
      assert (a + b)[0] == a[0] && (a + b)[1..] == a[1..] + b;
      SavedAppend(a[1..], b);
      SeqOps.AppendAssoc(SavedFrom(a[0]), SavedGroups(a[1..]), SavedGroups(b));
    }
  }

  lemma SavedOne(b: Block)
    ensures SavedGroups([b]) == SavedFrom(b)
  {
    assert [b][1..] == [];
  }

  /** A block adds its own group, if any, in its place among the others. */
  lemma SavedBlock(a: seq<Block>, b: Block, c: seq<Block>)
    ensures SavedGroups(a + [b] + c) == SavedGroups(a) + SavedFrom(b) + SavedGroups(c)
  {
    SavedAppend(a + [b], c);
    SavedAppend(a, [b]);
    SavedOne(b);
  }

  /** One block more of the same list. */
  lemma SavedPrefix(blocks: seq<Block>, i: nat)
    requires i < |blocks|
    ensures SavedGroups(blocks[..i + 1]) == SavedGroups(blocks[..i]) + SavedFrom(blocks[i])
  {
    assert blocks[..i + 1] == blocks[..i] + [blocks[i]];
    SavedAppend(blocks[..i], [blocks[i]]);
    SavedOne(blocks[i]);
  }

  /** A block that fails validation is dropped without a trace. */
  lemma DroppedBlock(a: seq<Block>, b: Block, c: seq<Block>)
    requires !Keeps(b)
    ensures SavedGroups(a + [b] + c) == SavedGroups(a + c)
  {
    SavedBlock(a, b, c);
    SavedAppend(a, c);
    assert SavedGroups(a) + SavedFrom(b) == SavedGroups(a);
  }

  /** Every saved group has a non-blank trimmed name and at least two measures, and starts expanded. */
  lemma {:induction false} SavedGroupsValid(blocks: seq<Block>)
    ensures |SavedGroups(blocks)| <= |blocks|
    ensures forall g :: g in SavedGroups(blocks) ==> g.name != "" && |g.measures| >= 2 && !g.collapsed
  {
    if blocks != [] {
      SavedGroupsValid(blocks[1..]);
    }
  }

  lemma {:induction false} CheckedOfEditor(g: MG.Group, numeric: seq<string>)
    ensures forall m :: m in Checked(EditorBlock(g, numeric).options) <==> m in numeric && m in g.measures
    ensures SeqOps.IsSubseq(Checked(EditorBlock(g, numeric).options), numeric)
  {
    if numeric != [] {
      var rest := numeric[1..];
      CheckedOfEditor(g, rest);
      var opts := EditorBlock(g, numeric).options;
      assert opts[1..] == EditorBlock(g, rest).options;
      if numeric[0] in g.measures {
        assert Checked(opts)[1..] == Checked(EditorBlock(g, rest).options);
      }
    }
  }

  lemma {:induction false} CheckedAtLeast(options: seq<(string, bool)>, i: nat, j: nat)
    requires i < j < |options| && options[i].1 && options[j].1
    ensures |Checked(options)| >= 2
  {
    if i > 0 {
      CheckedAtLeast(options[1..], i - 1, j - 1);
    } else {
      CheckedAtLeastOne(options[1..], j - 1);
    }
  }

  lemma {:induction false} CheckedAtLeastOne(options: seq<(string, bool)>, j: nat)
    requires j < |options| && options[j].1
    ensures |Checked(options)| >= 1
  {
    if j > 0 {
      CheckedAtLeastOne(options[1..], j - 1);
    }
  }

  /**
   * Opening the editor on a group and saving it unchanged keeps it when it
   * has a non-blank name and two numeric columns among its measures: named
   * by its trimmed name, with the measures that are numeric columns in
   * column order, and expanded.
   */
  lemma ReopenedGroupSaved(g: MG.Group, numeric: seq<string>, i: nat, j: nat)
    requires JsText.Trim(g.name) != ""
    requires i < j < |numeric| && numeric[i] in g.measures && numeric[j] in g.measures
    ensures var saved := SavedGroups([EditorBlock(g, numeric)]);
      |saved| == 1 && saved[0].name == JsText.Trim(g.name) && !saved[0].collapsed
      && (forall m :: m in saved[0].measures <==> m in numeric && m in g.measures)
      && SeqOps.IsSubseq(saved[0].measures, numeric)
  {
    var b := EditorBlock(g, numeric);
    var c := Checked(b.options);
    assert b.options[i].1 && b.options[j].1;
    CheckedAtLeast(b.options, i, j);
    CheckedOfEditor(g, numeric);
    assert Keeps(b);
    SavedOne(b);
  }

  /** What `open` shows. */
  datatype Opened = NoData | Shown(blocks: seq<Block>) | Thrown

  class ConfigModal {
    const measureGrouping: MG.MeasureGrouping
    var currentData: Option<Data>

    constructor (measureGrouping: MG.MeasureGrouping)
      ensures this.measureGrouping == measureGrouping && currentData.None?
    {
      this.measureGrouping := measureGrouping;
      currentData := None;
    }

    /**
     * `open`: without data, the alert and nothing else; otherwise the data is
     * kept and a block is shown per group over the numeric columns. The
     * editor reads `columnTypes` without a check, so data lacking it throws
     * as soon as there is a group to show.
     */
    method Open(data: Option<Data>) returns (r: Opened)
      modifies this
      ensures data.None? ==> r == NoData && currentData == old(currentData)
      ensures data.Some? ==> currentData == data
      ensures data.Some? && data.value.columnTypes.Some? ==>
        r == Shown(OpenBlocks(measureGrouping.groups, NumericNames(data.value.columnTypes.value)))
      ensures data.Some? && data.value.columnTypes.None? ==>
        r == if measureGrouping.groups == [] then Shown([]) else Thrown
    {
      if data.None? {
        return NoData;
      }
      currentData := data;
      var groups := measureGrouping.GetGroups();
      if data.value.columnTypes.None? {
        return if groups == [] then Shown([]) else Thrown;
      }
      r := Shown(OpenBlocks(groups, NumericNames(data.value.columnTypes.value)));
    }

    /** `saveConfiguration`: every group cleared, then one added per kept block, in block order. */
    method SaveConfiguration(blocks: seq<Block>)
      modifies measureGrouping
      ensures measureGrouping.groups == SavedGroups(blocks)
    {
      measureGrouping.ClearGroups();
      for i := 0 to |blocks|
        invariant measureGrouping.groups == SavedGroups(blocks[..i])
      {
        var b := blocks[i];
        var name := JsText.Trim(b.name);
        var checkedMeasures := Checked(b.options);
        SavedPrefix(blocks, i);
        if name != "" && |checkedMeasures| >= 2 {
          measureGrouping.AddGroup(name, checkedMeasures, false);
        }
      }
      assert blocks[..|blocks|] == blocks;
    }
  }
}
