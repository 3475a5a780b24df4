/**
 * The grouping dialog's model of the commission breakdown: five default
 * groups (Revenue, Costs, Commission %, Payout, Other) and a list of custom
 * groups, each holding the names of the measures dragged into it.
 */
module MeasureGroupingUi {
  import SeqOps

  /** The keys of the default group object, in their insertion order. */
  const DefaultNames: seq<string> := ["Revenue", "Costs", "Commission %", "Payout", "Other"]

  datatype CustomGroup = CustomGroup(name: string, measures: seq<string>)

  /** The whole grouping: the members of each default group (by position in DefaultNames) and the custom groups. */
  datatype Groups = Groups(defaults: seq<seq<string>>, customs: seq<CustomGroup>)

  predicate WellFormed(g: Groups) {
    |g.defaults| == |DefaultNames|
  }

  /** The constructor's state, which `resetGroups` restores. */
  function Initial(): (g: Groups)
    ensures WellFormed(g)
    ensures forall i :: 0 <= i < |g.defaults| ==> g.defaults[i] == []
    ensures g.customs == []
  {
    Groups([[], [], [], [], []], [])
  }

  /** `customGroups.find(g => g.name === name)`: the index of the first custom group of that name, or -1. */
  function FindCustom(cs: seq<CustomGroup>, name: string): (r: int)
    ensures -1 <= r < |cs|
    ensures r == -1 <==> forall k :: 0 <= k < |cs| ==> cs[k].name != name
    ensures r >= 0 ==> cs[r].name == name && forall k :: 0 <= k < r ==> cs[k].name != name
  {
    if cs == [] then -1
    else if cs[0].name == name then 0
    else
      var r := FindCustom(cs[1..], name);
      assert forall k :: 1 <= k < |cs| ==> cs[k] == cs[1..][k - 1];
      if r == -1 then -1 else r + 1
  }

  /** The measure sits in some default or some custom group. */
  predicate Grouped(g: Groups, m: string) {
    (exists i :: 0 <= i < |g.defaults| && m in g.defaults[i])
    || (exists j :: 0 <= j < |g.customs| && m in g.customs[j].measures)
  }

  /** `updateGrouping`: the measure appended to the default group of that name, else to the first custom group of that name. */
  function UpdateStep(g: Groups, groupName: string, m: string): Groups
    requires WellFormed(g)
  {
    var d := SeqOps.IndexOf(DefaultNames, groupName);
    if d >= 0 then g.(defaults := g.defaults[d := g.defaults[d] + [m]])
    else
      var c := FindCustom(g.customs, groupName);
      if c >= 0 then g.(customs := g.customs[c := g.customs[c].(measures := g.customs[c].measures + [m])])
      else g
  }

  /** `addCustomGroup`: an empty custom group at the end. */
  function AddCustomStep(g: Groups, name: string): Groups {
    g.(customs := g.customs + [CustomGroup(name, [])])
  }

  /** `deleteCustomGroup`: every custom group of that name filtered out. */
  function DeleteCustomStep(g: Groups, name: string): Groups {
    g.(customs := SeqOps.Filter(g.customs, (c: CustomGroup) => c.name != name))
  }

  /** `removeMeasureFromGroup`: the measure filtered out of every default and every custom group. */
  function RemoveMeasureStep(g: Groups, m: string): (r: Groups)
    ensures |r.defaults| == |g.defaults| && |r.customs| == |g.customs|
    ensures forall i :: 0 <= i < |g.defaults| ==> r.defaults[i] == SeqOps.Without(g.defaults[i], m)
    ensures forall j :: 0 <= j < |g.customs| ==>
      r.customs[j] == CustomGroup(g.customs[j].name, SeqOps.Without(g.customs[j].measures, m))
  {
    Groups(seq(|g.defaults|, i requires 0 <= i < |g.defaults| => SeqOps.Without(g.defaults[i], m)),
           seq(|g.customs|, j requires 0 <= j < |g.customs| => g.customs[j].(measures := SeqOps.Without(g.customs[j].measures, m))))
  }

  /** The dialog's available list: the measures in no group, in their order. */
  function AvailableMeasures(g: Groups, measures: seq<string>): (r: seq<string>)
    ensures SeqOps.IsSubseq(r, measures)
    ensures forall m :: m in r <==> m in measures && !Grouped(g, m)
  {
    SeqOps.FilterSubseq(measures, (m: string) => !Grouped(g, m));
    SeqOps.Filter(measures, (m: string) => !Grouped(g, m))
  }

  /** Only a group that is not one of the default keys is drawn with a delete button. */
  function HasDeleteButton(groupName: string): (r: bool)
    ensures r <==> forall i :: 0 <= i < |DefaultNames| ==> DefaultNames[i] != groupName
  {
    groupName !in DefaultNames
  }

  // ------------------------------------------------------------ properties

  /** After `updateGrouping`, the measure is grouped iff it was, or the name is a default or an existing custom group. */
  lemma UpdateGroups(g: Groups, groupName: string, m: string)
    requires WellFormed(g)
    ensures WellFormed(UpdateStep(g, groupName, m))
    ensures Grouped(UpdateStep(g, groupName, m), m) <==>
      Grouped(g, m) || groupName in DefaultNames || FindCustom(g.customs, groupName) >= 0
  {
    var r := UpdateStep(g, groupName, m);
    var d := SeqOps.IndexOf(DefaultNames, groupName);
    if d >= 0 {
      assert m in r.defaults[d];
      forall i | 0 <= i < |g.defaults| && i != d
        ensures r.defaults[i] == g.defaults[i]
      {
      }
      forall x | x in g.defaults[d]
        ensures x in r.defaults[d]
      {
      }
    } else {
      var c := FindCustom(g.customs, groupName);
      if c >= 0 {
        assert m in r.customs[c].measures;
        forall x | x in g.customs[c].measures
          ensures x in r.customs[c].measures
        {
        }
      }
    }
  }

  /** `updateGrouping` never changes whether any other measure is grouped. */
  lemma UpdateKeepsOthers(g: Groups, groupName: string, m: string, other: string)
    requires WellFormed(g) && other != m
    ensures Grouped(UpdateStep(g, groupName, m), other) <==> Grouped(g, other)
  {
    var r := UpdateStep(g, groupName, m);
    var d := SeqOps.IndexOf(DefaultNames, groupName);
    if d >= 0 {
      assert other in r.defaults[d] <==> other in g.defaults[d];
      assert forall i :: 0 <= i < |g.defaults| ==> (other in r.defaults[i] <==> other in g.defaults[i]);
    } else {
      var c := FindCustom(g.customs, groupName);
      if c >= 0 {
        assert other in r.customs[c].measures <==> other in g.customs[c].measures;
        assert forall j :: 0 <= j < |g.customs| ==> (other in r.customs[j].measures <==> other in g.customs[j].measures);
      }
    }
  }

  /** A custom group named like a default one is never filled: the default group of that name wins. */
  lemma DefaultNameWins(g: Groups, m: string)
    requires WellFormed(g)
    ensures UpdateStep(AddCustomStep(g, "Payout"), "Payout", m).customs == AddCustomStep(g, "Payout").customs
  {
    assert DefaultNames[3] == "Payout";
    SeqOps.IndexOfFirst(DefaultNames, "Payout", 3);
  }

  /** A newly added custom group receives the measures dragged into it, when no earlier group has its name. */
  lemma AddThenUpdate(g: Groups, name: string, m: string)
    requires WellFormed(g)
    requires name !in DefaultNames && FindCustom(g.customs, name) == -1
    ensures UpdateStep(AddCustomStep(g, name), name, m).customs == g.customs + [CustomGroup(name, [m])]
  {
    var a := AddCustomStep(g, name);
    var n := |g.customs|;
    assert a.customs[n].name == name;
    assert forall k :: 0 <= k < n ==> a.customs[k].name == g.customs[k].name != name;
    assert FindCustom(a.customs, name) == n;
    assert SeqOps.IndexOf(DefaultNames, name) == -1;
    assert a.customs[n].measures + [m] == [m];
  }

  /** `deleteCustomGroup` removes exactly the custom groups of that name, keeps the rest in order, and leaves the default groups alone. */
  lemma DeleteCustom(g: Groups, name: string)
    ensures DeleteCustomStep(g, name).defaults == g.defaults
    ensures forall c :: c in DeleteCustomStep(g, name).customs <==> c in g.customs && c.name != name
    ensures SeqOps.IsSubseq(DeleteCustomStep(g, name).customs, g.customs)
  {
    SeqOps.FilterSubseq(g.customs, (c: CustomGroup) => c.name != name);
  }

  /** After `removeMeasureFromGroup(m)` the measure is no longer grouped, and every other measure is grouped iff it was. */
  lemma RemoveUngroups(g: Groups, m: string)
    ensures !Grouped(RemoveMeasureStep(g, m), m)
    ensures forall other :: other != m ==> (Grouped(RemoveMeasureStep(g, m), other) <==> Grouped(g, other))
  {
    var r := RemoveMeasureStep(g, m);
    forall i | 0 <= i < |g.defaults|
      ensures forall other :: other != m ==> (other in r.defaults[i] <==> other in g.defaults[i])
    {
      SeqOps.WithoutKeeps(g.defaults[i], m);
    }
    forall j | 0 <= j < |g.customs|
      ensures forall other :: other != m ==> (other in r.customs[j].measures <==> other in g.customs[j].measures)
    {
      SeqOps.WithoutKeeps(g.customs[j].measures, m);
    }
  }

  /** Every remaining membership keeps its order: each group's list is a subsequence of what it was. */
  lemma RemoveKeepsOrder(g: Groups, m: string)
    ensures forall i :: 0 <= i < |g.defaults| ==> SeqOps.IsSubseq(RemoveMeasureStep(g, m).defaults[i], g.defaults[i])
    ensures forall j :: 0 <= j < |g.customs| ==>
      SeqOps.IsSubseq(RemoveMeasureStep(g, m).customs[j].measures, g.customs[j].measures)
  {
    forall i | 0 <= i < |g.defaults|
      ensures SeqOps.IsSubseq(RemoveMeasureStep(g, m).defaults[i], g.defaults[i])
    {
      SeqOps.WithoutKeeps(g.defaults[i], m);
    }
    forall j | 0 <= j < |g.customs|
      ensures SeqOps.IsSubseq(RemoveMeasureStep(g, m).customs[j].measures, g.customs[j].measures)
    {
      SeqOps.WithoutKeeps(g.customs[j].measures, m);
    }
  }

  /** A measure just removed shows up again in the available list. */
  lemma RemovedIsAvailable(g: Groups, m: string, measures: seq<string>)
    requires m in measures
    ensures m in AvailableMeasures(RemoveMeasureStep(g, m), measures)
  {
    RemoveUngroups(g, m);
  }

  // ------------------------------------------------------------ the object

  class MeasureGrouping {
    var defaults: seq<seq<string>>
    var customGroups: seq<CustomGroup>

    function State(): Groups
      reads this
    {
      Groups(defaults, customGroups)
    }

    predicate Valid()
      reads this
    {
      WellFormed(State())
    }

    constructor ()
      ensures Valid() && State() == Initial()
    {
      defaults := [[], [], [], [], []];
      customGroups := [];
    }

    method UpdateGrouping(groupName: string, measureName: string)
      requires Valid()
      modifies this
      ensures Valid() && State() == UpdateStep(old(State()), groupName, measureName)
    {
      var d := SeqOps.IndexOf(DefaultNames, groupName);
      if d >= 0 {
        defaults := defaults[d := defaults[d] + [measureName]];
      } else {
        var c := FindCustom(customGroups, groupName);
        if c >= 0 {
          customGroups := customGroups[c := customGroups[c].(measures := customGroups[c].measures + [measureName])];
        }
      }
    }

    method AddCustomGroup(name: string)
      requires Valid()
      modifies this
      ensures Valid() && State() == AddCustomStep(old(State()), name)
    {
      customGroups := customGroups + [CustomGroup(name, [])];
    }

    method DeleteCustomGroup(name: string)
      requires Valid()
      modifies this
      ensures Valid() && State() == DeleteCustomStep(old(State()), name)
    {
      customGroups := SeqOps.Filter(customGroups, (c: CustomGroup) => c.name != name);
    }

    /** `isMeasureGrouped`: the default groups in key order, then the custom groups, returning at the first hit. */
    method IsMeasureGrouped(measureName: string) returns (r: bool)
      ensures r <==> Grouped(State(), measureName)
    {
      for i := 0 to |defaults|
        invariant forall k :: 0 <= k < i ==> measureName !in defaults[k]
      {
        if measureName in defaults[i] {
          return true;
        }
      }
      for j := 0 to |customGroups|
        invariant forall k :: 0 <= k < j ==> measureName !in customGroups[k].measures
      {
        if measureName in customGroups[j].measures {
          return true;
        }
      }
      return false;
    }

    method RemoveMeasureFromGroup(measureName: string)
      requires Valid()
      modifies this
      ensures Valid() && State() == RemoveMeasureStep(old(State()), measureName)
    {
      var g := RemoveMeasureStep(State(), measureName);
      defaults, customGroups := g.defaults, g.customs;
    }

    method ResetGroups()
      modifies this
      ensures Valid() && State() == Initial()
    {
      defaults := [[], [], [], [], []];
      customGroups := [];
    }
  }
}
