/**
 * The measure-group model of the pivot table: named groups of measure
 * columns, each either expanded or collapsed into one summed column.
 */
module MeasureGroups {
  import opened Wrappers
  import JsText
  import JsNumber
  import SeqOps

  datatype Group = Group(name: string, measures: seq<string>, collapsed: bool)

  /** The group list with the collapsed flag of group id flipped, when id is in range. */
  function Toggled(groups: seq<Group>, id: int): (r: seq<Group>)
    ensures |r| == |groups|
    ensures forall k :: 0 <= k < |groups| && k != id ==> r[k] == groups[k]
    ensures 0 <= id < |groups| ==>
      r[id].collapsed == !groups[id].collapsed
      && r[id].name == groups[id].name && r[id].measures == groups[id].measures
  {
    if 0 <= id < |groups| then groups[id := groups[id].(collapsed := !groups[id].collapsed)] else groups
  }

  /** Toggling the same group twice restores the list. */
  lemma ToggleTwice(groups: seq<Group>, id: int)
    ensures Toggled(Toggled(groups, id), id) == groups
  {
  }

  /** The index of the first group, in list order, whose measures contain m. */
  function FirstGroupWith(groups: seq<Group>, m: string): (r: Option<nat>)
    ensures r.None? <==> forall k :: 0 <= k < |groups| ==> m !in groups[k].measures
    ensures r.Some? ==>
      r.value < |groups| && m in groups[r.value].measures
      && forall k :: 0 <= k < r.value ==> m !in groups[k].measures
  {
    if groups == [] then None
    else if m in groups[0].measures then Some(0)
    else
      var r := FirstGroupWith(groups[1..], m);
      assert forall k :: 1 <= k < |groups| ==> groups[k] == groups[1..][k - 1];
      if r.None? then None else Some(r.value + 1)
  }

  /** `parseFloat(cell?.replace(/[,$%]/g, '') || 0)`, with NaN read as 0. */
  function CellValue(cell: Option<string>): real {
    if cell.None? then 0.0
    else
      var t := JsText.Remove(cell.value, {',', '$', '%'});
      if t == "" then 0.0 else JsNumber.ParseFloat(t).GetOr(0.0)
  }

  /** What one member adds to the group's sum: 0 when it is not a column. */
  function MemberValue(m: string, row: seq<Option<string>>, columns: seq<string>): real {
    var i := SeqOps.IndexOf(columns, m);
    if i == -1 then 0.0 else CellValue(if i < |row| then row[i] else None)
  }

  /** `calculateGroupSum`: the reduce over the group's measures, left to right. */
  function SumMembers(measures: seq<string>, row: seq<Option<string>>, columns: seq<string>): real {
    if measures == [] then 0.0
    else SumMembers(measures[..|measures| - 1], row, columns) + MemberValue(measures[|measures| - 1], row, columns)
  }

  /** `calculateGroupSum`: the sum over the group's measures, a measure that is not a column adding 0. */
  function CalculateGroupSum(g: Group, row: seq<Option<string>>, columns: seq<string>): (r: real)
    ensures (forall k :: 0 <= k < |g.measures| ==> g.measures[k] !in columns) ==> r == 0.0
    ensures |g.measures| == 1 ==> r == MemberValue(g.measures[0], row, columns)
    ensures forall k :: 0 <= k <= |g.measures| ==> r == SumMembers(g.measures[..k], row, columns) + SumMembers(g.measures[k..], row, columns)
  {
    assert (forall k :: 0 <= k < |g.measures| ==> g.measures[k] !in columns) ==> SumMembers(g.measures, row, columns) == 0.0 by {
      if forall k :: 0 <= k < |g.measures| ==> g.measures[k] !in columns {
        SumMembersMissing(g.measures, row, columns);
      }
    }
    assert |g.measures| == 1 ==> SumMembers(g.measures, row, columns) == MemberValue(g.measures[0], row, columns) by {
      if |g.measures| == 1 {
        assert g.measures[..0] == [];
      }
    }
    assert forall k :: 0 <= k <= |g.measures| ==> SumMembers(g.measures, row, columns) == SumMembers(g.measures[..k], row, columns) + SumMembers(g.measures[k..], row, columns) by {
      forall k | 0 <= k <= |g.measures|
        ensures SumMembers(g.measures, row, columns) == SumMembers(g.measures[..k], row, columns) + SumMembers(g.measures[k..], row, columns)
      {
        SumMembersAppend(g.measures[..k], g.measures[k..], row, columns);
        assert g.measures[..k] + g.measures[k..] == g.measures;
      }
    }
    SumMembers(g.measures, row, columns)
  }

  /** The group sum is additive over a split of the member list. */
  lemma {:induction false} SumMembersAppend(a: seq<string>, b: seq<string>, row: seq<Option<string>>, columns: seq<string>)
    ensures SumMembers(a + b, row, columns) == SumMembers(a, row, columns) + SumMembers(b, row, columns)
    decreases |b|
  {
    if b == [] {
      assert a + b == a;
    } else {
      var b' := b[..|b| - 1];
      assert (a + b)[..|a + b| - 1] == a + b';
      SumMembersAppend(a, b', row, columns);
    }
  }

  /** Members that are not columns add nothing. */
  lemma {:induction false} SumMembersMissing(measures: seq<string>, row: seq<Option<string>>, columns: seq<string>)
    requires forall k :: 0 <= k < |measures| ==> measures[k] !in columns
    ensures SumMembers(measures, row, columns) == 0.0
  {
    if measures != [] {
      SumMembersMissing(measures[..|measures| - 1], row, columns);
    }
  }

  /** A single member whose cell holds the digits of n contributes exactly n. */
  lemma MemberValueOfDigits(m: string, row: seq<Option<string>>, columns: seq<string>, n: nat)
    requires m in columns
    requires SeqOps.IndexOf(columns, m) < |row|
    requires row[SeqOps.IndexOf(columns, m)] == Some(JsNumber.ShowNat(n))
    ensures MemberValue(m, row, columns) == n as real
  {
    var s := JsNumber.ShowNat(n);
    assert forall i :: 0 <= i < |s| ==> JsNumber.IsDigit(s[i]);
    JsText.RemoveNone(s, {',', '$', '%'});
    JsNumber.NatRoundTrip(n);
  }

  /** `getGroupColspan`. */
  function GetGroupColspan(g: Group): (r: nat)
    ensures g.collapsed ==> r == 1
    ensures !g.collapsed ==> r == |g.measures|
  {
    if g.collapsed then 1 else |g.measures|
  }

  /** `isColumnHidden`: a collapsed group hides every member except its first. */
  function IsColumnHidden(column: string, g: Option<Group>): (r: bool)
    ensures r <==> g.Some? && g.value.collapsed && column in g.value.measures && g.value.measures[0] != column
  {
    if g.None? || !g.value.collapsed then false
    else column in g.value.measures && g.value.measures[0] != column
  }

  /** In a collapsed group exactly one member stays visible: colspan counts the shown members. */
  lemma CollapsedShowsOne(g: Group)
    requires g.collapsed && g.measures != []
    ensures !IsColumnHidden(g.measures[0], Some(g))
    ensures forall k :: 0 < k < |g.measures| && g.measures[k] != g.measures[0] ==> IsColumnHidden(g.measures[k], Some(g))
    ensures GetGroupColspan(g) == 1
  {
  }

  class MeasureGrouping {
    var groups: seq<Group>

    constructor ()
      ensures groups == []
    {
      groups := [];
    }

    /** `addGroup`: one group appended at the end. */
    method AddGroup(name: string, measures: seq<string>, collapsed: bool := false)
      modifies this
      ensures groups == old(groups) + [Group(name, measures, collapsed)]
    {
      groups := groups + [Group(name, measures, collapsed)];
    }

    /** `removeGroup`: exactly the group at an in-range index goes; otherwise nothing changes. */
    method RemoveGroup(index: int)
      modifies this
      ensures 0 <= index < |old(groups)| ==> groups == SeqOps.RemoveAt(old(groups), index)
      ensures !(0 <= index < |old(groups)|) ==> groups == old(groups)
    {
      if 0 <= index < |groups| {
        groups := groups[..index] + groups[index + 1..];
      }
    }

    /** `toggleGroup`: true and the flag flipped when groupId is in range, else false and no change. */
    method ToggleGroup(groupId: int) returns (ok: bool)
      modifies this
      ensures ok <==> 0 <= groupId < |old(groups)|
      ensures groups == Toggled(old(groups), groupId)
    {
      ok := 0 <= groupId < |groups|;
      if ok {
        groups := groups[groupId := groups[groupId].(collapsed := !groups[groupId].collapsed)];
      }
    }

    /** `getGroups`: the list itself, in the order the groups were added. */
    function GetGroups(): (r: seq<Group>)
      reads this
      ensures r == groups
    {
      groups
    }

    method ClearGroups()
      modifies this
      ensures groups == []
    {
      groups := [];
    }

    /** `findGroupByMeasure`: the first group containing the measure, or none. */
    function FindGroupByMeasure(m: string): (r: Option<Group>)
      reads this
      ensures r.None? <==> forall k :: 0 <= k < |groups| ==> m !in groups[k].measures
      ensures r.Some? ==> exists i :: (0 <= i < |groups| && groups[i] == r.value
        && m in groups[i].measures && forall k :: 0 <= k < i ==> m !in groups[k].measures)
    {
      var i := FirstGroupWith(groups, m);
      if i.None? then None else Some(groups[i.value])
    }
  }
}
