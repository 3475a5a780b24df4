/**
 * The field-to-category assignment shared by the settings dialogs: a
 * settings object whose keys (measureColumns, dimensionColumns, details,
 * tooltips, and any key an unknown category id creates) each hold a list of
 * fields. Modelled as the object's entries in key order.
 */
module FieldSettings {
  import opened Wrappers
  import SeqOps

  datatype Field = Field(name: string, kind: string)

  /** The settings object: each key with its list, in `Object.keys` order. */
  type Settings = seq<(string, seq<Field>)>

  const CategoryKeys: seq<string> := ["measureColumns", "dimensionColumns", "details", "tooltips"]

  function Keys(s: Settings): (r: seq<string>)
    ensures |r| == |s| && forall i :: 0 <= i < |s| ==> r[i] == s[i].0
  {
    seq(|s|, i requires 0 <= i < |s| => s[i].0)
  }

  /** A real object: no key twice, and the four category lists present. */
  predicate WellFormed(s: Settings) {
    (forall i, j :: 0 <= i < j < |s| ==> s[i].0 != s[j].0)
    && forall c :: 0 <= c < |CategoryKeys| ==> CategoryKeys[c] in Keys(s)
  }

  /** The constructor's and `resetSettings`' object: the four keys, each with an empty list. */
  function Initial(): (s: Settings)
    ensures WellFormed(s) && Keys(s) == CategoryKeys
    ensures forall i :: 0 <= i < |s| ==> s[i].1 == []
  {
    var s := [("measureColumns", []), ("dimensionColumns", []), ("details", []), ("tooltips", [])];
    assert Keys(s) == CategoryKeys by {
      assert forall i :: 0 <= i < 4 ==> Keys(s)[i] == CategoryKeys[i];
    }
    s
  }

  /** `settings[key]`, absent as None. */
  function ListOf(s: Settings, key: string): (r: Option<seq<Field>>)
    ensures r.None? <==> key !in Keys(s)
    ensures r.Some? ==> exists i :: 0 <= i < |s| && s[i] == (key, r.value)
  {
    var i := SeqOps.IndexOf(Keys(s), key);
    if i == -1 then None else Some(s[i].1)
  }

  /** `categoryIdToKey`: the four element ids to their keys, any other id unchanged. */
  function CategoryIdToKey(categoryId: string): (r: string)
    ensures categoryId == "measure-columns" ==> r == "measureColumns"
    ensures categoryId == "dimension-columns" ==> r == "dimensionColumns"
    ensures categoryId == "details" ==> r == "details"
    ensures categoryId == "tooltips" ==> r == "tooltips"
    ensures categoryId !in ["measure-columns", "dimension-columns", "details", "tooltips"] ==> r == categoryId
  {
    if categoryId == "measure-columns" then "measureColumns"
    else if categoryId == "dimension-columns" then "dimensionColumns"
    else categoryId
  }

  /** The ids the dialog uses all map to category keys. */
  lemma CategoryIdsMapToKeys(categoryId: string)
    requires categoryId in ["measure-columns", "dimension-columns", "details", "tooltips"]
    ensures CategoryIdToKey(categoryId) in CategoryKeys
  {
  }

  datatype Role = Measure | Dimension

  /** `inferFieldType`: int and float columns are measures, every other data type a dimension. */
  function InferFieldType(dataType: string): (r: Role)
    ensures r == Measure <==> dataType == "int" || dataType == "float"
  {
    match dataType
    case "int" => Measure
    case "float" => Measure
    case "string" => Dimension
    case "bool" => Dimension
    case "date" => Dimension
    case "datetime" => Dimension
    case _ => Dimension
  }

  /** The role's name as it is stored in a field's `type`. */
  function RoleName(r: Role): string {
    if r == Measure then "measure" else "dimension"
  }

  // ------------------------------------------------------------ the four lists

  predicate HasName(fs: seq<Field>, n: string) {
    exists i :: 0 <= i < |fs| && fs[i].name == n
  }

  /** The name occurs in one of the four category lists (other keys are not looked at). */
  predicate InUse(s: Settings, n: string) {
    exists c :: 0 <= c < |CategoryKeys| && ListOf(s, CategoryKeys[c]).Some? && HasName(ListOf(s, CategoryKeys[c]).value, n)
  }

  /** Each category key holds a list. Spreading a missing one, or reading its `length`, throws a TypeError. */
  predicate HasCategoryLists(s: Settings) {
    forall c :: 0 <= c < |CategoryKeys| ==> ListOf(s, CategoryKeys[c]).Some?
  }

  /** `[...measureColumns, ...dimensionColumns, ...details, ...tooltips]`, None where a spread throws. */
  function AllConfigured(s: Settings): (r: Option<seq<Field>>)
    ensures r.None? <==> !HasCategoryLists(s)
    ensures r.Some? ==> forall f :: f in r.value <==> exists c :: 0 <= c < |CategoryKeys| && f in ListOf(s, CategoryKeys[c]).value
  {
    if !HasCategoryLists(s) then None
    else
      var m, d, e, t := ListOf(s, CategoryKeys[0]).value, ListOf(s, CategoryKeys[1]).value, ListOf(s, CategoryKeys[2]).value, ListOf(s, CategoryKeys[3]).value;
      assert forall f :: f in m + d + e + t <==> f in m || f in d || f in e || f in t;
      Some(m + d + e + t)
  }

  /** A name is carried by a field of a concatenation exactly when it is carried in one of the parts. */
  lemma HasNameConcat(a: seq<Field>, b: seq<Field>, n: string)
    ensures HasName(a + b, n) <==> HasName(a, n) || HasName(b, n)
  {
    if HasName(a + b, n) {
      var i :| 0 <= i < |a + b| && (a + b)[i].name == n;
      if i >= |a| {
        assert b[i - |a|] == (a + b)[i];
      }
    }
    if HasName(a, n) {
      var i :| 0 <= i < |a| && a[i].name == n;
      assert (a + b)[i] == a[i];
    }
    if HasName(b, n) {
      var i :| 0 <= i < |b| && b[i].name == n;
      assert (a + b)[|a| + i] == b[i];
    }
  }

  /** A name is carried by a field of the spread lists exactly when it is in use. */
  lemma AllConfiguredHasName(s: Settings, n: string)
    requires HasCategoryLists(s)
    ensures HasName(AllConfigured(s).value, n) <==> InUse(s, n)
  {
    var m, d, e, t := ListOf(s, CategoryKeys[0]).value, ListOf(s, CategoryKeys[1]).value, ListOf(s, CategoryKeys[2]).value, ListOf(s, CategoryKeys[3]).value;
    assert AllConfigured(s).value == m + d + e + t;
    HasNameConcat(m, d, n);
    HasNameConcat(m + d, e, n);
    HasNameConcat(m + d + e, t, n);
    if InUse(s, n) {
      var c :| 0 <= c < |CategoryKeys| && ListOf(s, CategoryKeys[c]).Some? && HasName(ListOf(s, CategoryKeys[c]).value, n);
      assert c == 0 || c == 1 || c == 2 || c == 3;
    }
    if HasName(m, n) { assert ListOf(s, CategoryKeys[0]).Some? && HasName(ListOf(s, CategoryKeys[0]).value, n); }
    if HasName(d, n) { assert ListOf(s, CategoryKeys[1]).Some? && HasName(ListOf(s, CategoryKeys[1]).value, n); }
    if HasName(e, n) { assert ListOf(s, CategoryKeys[2]).Some? && HasName(ListOf(s, CategoryKeys[2]).value, n); }
    if HasName(t, n) { assert ListOf(s, CategoryKeys[3]).Some? && HasName(ListOf(s, CategoryKeys[3]).value, n); }
  }

  /**
   * `isFieldInUse`: None where spreading a missing category list throws;
   * otherwise whether some configured field carries the name.
   */
  function IsFieldInUse(s: Settings, n: string): (r: Option<bool>)
    ensures r.None? <==> !HasCategoryLists(s)
    ensures r.Some? ==> (r.value <==> InUse(s, n))
  {
    var all := AllConfigured(s);
    if all.None? then None
    else
      AllConfiguredHasName(s, n);
      Some(HasName(all.value, n))
  }

  /** A well-formed object holds all four lists, so `isFieldInUse` never throws on it. */
  lemma WellFormedHasLists(s: Settings)
    requires WellFormed(s)
    ensures HasCategoryLists(s)
  {
  }

  function TotalFields(s: Settings, cs: seq<string>): nat {
    if cs == [] then 0
    else TotalFields(s, cs[..|cs| - 1]) + |ListOf(s, cs[|cs| - 1]).GetOr([])|
  }

  lemma {:induction false} TotalFieldsZero(s: Settings, cs: seq<string>)
    ensures TotalFields(s, cs) == 0 <==> forall c :: 0 <= c < |cs| ==> ListOf(s, cs[c]).GetOr([]) == []
    decreases |cs|
  {
    if cs != [] {
      TotalFieldsZero(s, cs[..|cs| - 1]);
      assert forall c :: 0 <= c < |cs| - 1 ==> cs[..|cs| - 1][c] == cs[c];
    }
  }

  /**
   * `hasConfiguredFields`: None where reading a missing list's `length`
   * throws; otherwise whether the four lengths add up to more than 0.
   */
  function HasConfiguredFields(s: Settings): (r: Option<bool>)
    ensures r.None? <==> !HasCategoryLists(s)
    ensures r.Some? ==> (r.value <==> exists c :: 0 <= c < |CategoryKeys| && ListOf(s, CategoryKeys[c]).value != [])
  {
    if !HasCategoryLists(s) then None
    else
      TotalFieldsZero(s, CategoryKeys);
      Some(TotalFields(s, CategoryKeys) > 0)
  }

  /** Some field is configured exactly when some field name is in use. */
  lemma ConfiguredIffSomeInUse(s: Settings)
    ensures HasConfiguredFields(s) == Some(true) <==> HasCategoryLists(s) && exists n :: InUse(s, n)
  {
    if HasConfiguredFields(s) == Some(true) {
      var c :| 0 <= c < |CategoryKeys| && ListOf(s, CategoryKeys[c]).value != [];
      var fs := ListOf(s, CategoryKeys[c]).value;
      assert HasName(fs, fs[0].name);
      assert InUse(s, fs[0].name);
    }
    if HasCategoryLists(s) && exists n :: InUse(s, n) {
      var n :| InUse(s, n);
      var c :| 0 <= c < |CategoryKeys| && ListOf(s, CategoryKeys[c]).Some? && HasName(ListOf(s, CategoryKeys[c]).value, n);
      assert ListOf(s, CategoryKeys[c]).value != [];
    }
  }

  /** A field in use comes from a configured list: `hasConfiguredFields` answers true whenever it answers. */
  lemma InUseIsConfigured(s: Settings, n: string)
    requires InUse(s, n)
    ensures HasCategoryLists(s) ==> HasConfiguredFields(s) == Some(true)
  {
    ConfiguredIffSomeInUse(s);
  }

  /** The available list: the fields of the data source whose names are not in use, in order. */
  function AvailableFields(all: seq<Field>, s: Settings): (r: seq<Field>)
    ensures SeqOps.IsSubseq(r, all)
    ensures forall f :: f in r <==> f in all && !InUse(s, f.name)
  {
    SeqOps.FilterSubseq(all, (f: Field) => !InUse(s, f.name));
    SeqOps.Filter(all, (f: Field) => !InUse(s, f.name))
  }

  // ------------------------------------------------------------ assignment

  /** `fields.filter(field => field.name !== n)`. */
  function WithoutName(fs: seq<Field>, n: string): (r: seq<Field>)
    ensures !HasName(r, n)
    ensures forall f :: f in r <==> f in fs && f.name != n
  {
    SeqOps.Filter(fs, (f: Field) => f.name != n)
  }

  /** `removeFieldFromCategory`: the name filtered out of the list under every key. */
  function RemoveStep(s: Settings, n: string): (r: Settings)
    ensures Keys(r) == Keys(s)
    ensures forall i :: 0 <= i < |s| ==> r[i].1 == WithoutName(s[i].1, n)
  {
    seq(|s|, i requires 0 <= i < |s| => (s[i].0, WithoutName(s[i].1, n)))
  }

  /** `addFieldToCategory`: removed everywhere, then pushed onto the key's list (created when missing). */
  function AddStep(s: Settings, n: string, t: string, categoryId: string): (r: Settings)
    ensures |r| >= |s|
  {
    PushStep(RemoveStep(s, n), CategoryIdToKey(categoryId), Field(n, t))
  }

  /** `if (!settings[key]) settings[key] = []; settings[key].push(f)`. */
  function PushStep(s: Settings, key: string, f: Field): Settings {
    var k := SeqOps.IndexOf(Keys(s), key);
    if k == -1 then s + [(key, [f])]
    else s[k := (key, s[k].1 + [f])]
  }

  /** The position of the key a category id names, after `addFieldToCategory` has run. */
  function TargetIndex(s: Settings, categoryId: string): nat {
    var k := SeqOps.IndexOf(Keys(s), CategoryIdToKey(categoryId));
    if k == -1 then |s| else k
  }

  function FindName(fs: seq<Field>, n: string): (r: int)
    ensures -1 <= r < |fs|
    ensures r == -1 <==> !HasName(fs, n)
    ensures r >= 0 ==> fs[r].name == n && forall k :: 0 <= k < r ==> fs[k].name != n
  {
    if fs == [] then -1
    else if fs[0].name == n then 0
    else
      var r := FindName(fs[1..], n);
      assert forall k :: 1 <= k < |fs| ==> fs[k] == fs[1..][k - 1];
      if r == -1 then -1 else r + 1
  }

  /** The entry at k with its list replaced, its key and every other entry kept. */
  function ReplaceList(s: Settings, k: nat, fs: seq<Field>): (r: Settings)
    requires k < |s|
    ensures Keys(r) == Keys(s)
    ensures |r| == |s| && r[k] == (s[k].0, fs)
    ensures forall i :: 0 <= i < |s| && i != k ==> r[i] == s[i]
  {
    var r := s[k := (s[k].0, fs)];
    assert forall i :: 0 <= i < |s| ==> Keys(r)[i] == Keys(s)[i];
    r
  }

  /** `moveFieldUp`: a field with a predecessor swaps with it; a missing key throws (None). */
  function MoveUpStep(s: Settings, n: string, categoryId: string): (r: Option<Settings>)
    ensures r.None? <==> CategoryIdToKey(categoryId) !in Keys(s)
  {
    var k := SeqOps.IndexOf(Keys(s), CategoryIdToKey(categoryId));
    if k == -1 then None
    else
      var fs := s[k].1;
      var i := FindName(fs, n);
      if i > 0 then Some(ReplaceList(s, k, SeqOps.Swap(fs, i - 1, i))) else Some(s)
  }

  /** `moveFieldDown`, with the guard the move-up twin has: a present field with a successor swaps with it. */
  function MoveDownStep(s: Settings, n: string, categoryId: string): (r: Option<Settings>)
    ensures r.None? <==> CategoryIdToKey(categoryId) !in Keys(s)
  {
    var k := SeqOps.IndexOf(Keys(s), CategoryIdToKey(categoryId));
    if k == -1 then None
    else
      var fs := s[k].1;
      var i := FindName(fs, n);
      if 0 <= i < |fs| - 1 then Some(ReplaceList(s, k, SeqOps.Swap(fs, i, i + 1))) else Some(s)
  }

  /**
   * `moveFieldDown` as written, on one list whose slots may be `undefined`
   * (None): the guard `index < fields.length - 1` lets index -1 through, and
   * the swap then writes `fields[-1]`, which is undefined, into slot 0.
   */
  function MoveDownAsWritten(fs: seq<Field>, n: string): (r: seq<Option<Field>>)
    ensures |r| == |fs|
  {
    var i := FindName(fs, n);
    var slots := seq(|fs|, k requires 0 <= k < |fs| => Some(fs[k]));
    if i < |fs| - 1 then
      if i >= 0 then SeqOps.Swap(slots, i, i + 1) else slots[0 := None]
    else slots
  }

  // ------------------------------------------------------------ properties

  /** Removal drops exactly the fields of that name and keeps every other field, in order. */
  lemma RemoveKeeps(s: Settings, n: string)
    ensures !InUse(RemoveStep(s, n), n)
    ensures forall i :: 0 <= i < |s| ==> SeqOps.IsSubseq(RemoveStep(s, n)[i].1, s[i].1)
    ensures forall i, f: Field :: 0 <= i < |s| && f.name != n ==> (f in RemoveStep(s, n)[i].1 <==> f in s[i].1)
  {
    var r := RemoveStep(s, n);
    forall i | 0 <= i < |s|
      ensures SeqOps.IsSubseq(r[i].1, s[i].1)
    {
      SeqOps.FilterSubseq(s[i].1, (f: Field) => f.name != n);
    }
  }

  lemma WellFormedKeys(s: Settings, t: Settings)
    requires WellFormed(s) && Keys(t) == Keys(s)
    ensures WellFormed(t)
  {
    forall i, j | 0 <= i < j < |t|
      ensures t[i].0 != t[j].0
    {
      assert Keys(t)[i] == Keys(s)[i] && Keys(t)[j] == Keys(s)[j];
    }
  }

  /**
   * After `addFieldToCategory(n, t, id)` the name occurs exactly once over all
   * lists: as the last entry of the key's list (created at the end when it was
   * missing), and nowhere else.
   */
  lemma AddOnce(s: Settings, n: string, t: string, categoryId: string)
    requires WellFormed(s)
    ensures WellFormed(AddStep(s, n, t, categoryId))
    ensures var r := AddStep(s, n, t, categoryId); var k := TargetIndex(s, categoryId);
      k < |r| && r[k].0 == CategoryIdToKey(categoryId)
      && r[k].1 != [] && r[k].1[|r[k].1| - 1] == Field(n, t)
      && !HasName(r[k].1[..|r[k].1| - 1], n)
      && forall i :: 0 <= i < |r| && i != k ==> !HasName(r[i].1, n)
  {
    var cleared := RemoveStep(s, n);
    var key := CategoryIdToKey(categoryId);
    var r := AddStep(s, n, t, categoryId);
    WellFormedKeys(s, cleared);
    var k := SeqOps.IndexOf(Keys(cleared), key);
    if k == -1 {
      assert Keys(r) == Keys(cleared) + [key];
      assert r[|s|].1[..0] == [];
    } else {
      assert Keys(r) == Keys(cleared);
      WellFormedKeys(s, r);
      assert r[k].1[..|r[k].1| - 1] == cleared[k].1;
    }
  }

  /** Every field of another name stays where it was: the same fields under the same keys. */
  lemma AddKeepsOthers(s: Settings, n: string, t: string, categoryId: string)
    ensures forall i, f: Field :: 0 <= i < |s| && f.name != n ==> (f in AddStep(s, n, t, categoryId)[i].1 <==> f in s[i].1)
  {
    var cleared := RemoveStep(s, n);
    var r := AddStep(s, n, t, categoryId);
    var k := SeqOps.IndexOf(Keys(cleared), CategoryIdToKey(categoryId));
    if k != -1 {
      assert forall f :: f in r[k].1 <==> f in cleared[k].1 || f == Field(n, t);
    }
  }

  /** The added name is in use afterwards exactly when the id names one of the four categories. */
  lemma AddInUse(s: Settings, n: string, t: string, categoryId: string)
    requires WellFormed(s)
    ensures InUse(AddStep(s, n, t, categoryId), n) <==> CategoryIdToKey(categoryId) in CategoryKeys
  {
    var r := AddStep(s, n, t, categoryId);
    var key := CategoryIdToKey(categoryId);
    var k := TargetIndex(s, categoryId);
    AddOnce(s, n, t, categoryId);
    assert HasName(r[k].1, n) by {
      assert r[k].1[|r[k].1| - 1].name == n;
    }
    if key in CategoryKeys {
      var c := SeqOps.IndexOf(CategoryKeys, key);
      var j := SeqOps.IndexOf(Keys(r), key);
      assert j == k;
      assert ListOf(r, CategoryKeys[c]) == Some(r[k].1);
    }
  }

  /** Both moves only reorder the list they act on: the same fields, as a multiset, and every other key untouched. */
  lemma MoveUpPermutes(s: Settings, n: string, categoryId: string)
    requires MoveUpStep(s, n, categoryId).Some?
    ensures var r := MoveUpStep(s, n, categoryId).value;
      Keys(r) == Keys(s) && forall i :: 0 <= i < |s| ==> multiset(r[i].1) == multiset(s[i].1)
  {
    var k := SeqOps.IndexOf(Keys(s), CategoryIdToKey(categoryId));
    var i := FindName(s[k].1, n);
    if i > 0 {
      SeqOps.SwapMultiset(s[k].1, i - 1, i);
    }
  }

  lemma MoveDownPermutes(s: Settings, n: string, categoryId: string)
    requires MoveDownStep(s, n, categoryId).Some?
    ensures var r := MoveDownStep(s, n, categoryId).value;
      Keys(r) == Keys(s) && forall i :: 0 <= i < |s| ==> multiset(r[i].1) == multiset(s[i].1)
  {
    var k := SeqOps.IndexOf(Keys(s), CategoryIdToKey(categoryId));
    var i := FindName(s[k].1, n);
    if 0 <= i < |s[k].1| - 1 {
      SeqOps.SwapMultiset(s[k].1, i, i + 1);
    }
  }

  /** After swapping the first field named n one place up, that field is found one place earlier. */
  lemma FindAfterSwapUp(fs: seq<Field>, n: string)
    requires FindName(fs, n) > 0
    ensures var i := FindName(fs, n); FindName(SeqOps.Swap(fs, i - 1, i), n) == i - 1
  {
    var i := FindName(fs, n);
    var gs := SeqOps.Swap(fs, i - 1, i);
    assert gs[i - 1].name == n;
    assert forall k :: 0 <= k < i - 1 ==> gs[k] == fs[k];
  }

  /** Moving a field up and then down again restores the settings. */
  lemma MoveDownUndoesUp(s: Settings, n: string, categoryId: string)
    requires var k := SeqOps.IndexOf(Keys(s), CategoryIdToKey(categoryId));
      k != -1 && FindName(s[k].1, n) > 0
    ensures MoveUpStep(s, n, categoryId).Some?
    ensures MoveDownStep(MoveUpStep(s, n, categoryId).value, n, categoryId) == Some(s)
  {
    var k := SeqOps.IndexOf(Keys(s), CategoryIdToKey(categoryId));
    var fs := s[k].1;
    var i := FindName(fs, n);
    var gs := SeqOps.Swap(fs, i - 1, i);
    ListDownUndoesUp(fs, n);
    var r := ReplaceList(s, k, gs);
    assert MoveUpStep(s, n, categoryId) == Some(r);
    ReplaceBack(s, k, gs);
    assert MoveDownStep(r, n, categoryId) == Some(ReplaceList(r, k, fs));
  }

  /** On one list: after the move up the field sits one earlier, with a successor, and moving it down restores the list. */
  lemma ListDownUndoesUp(fs: seq<Field>, n: string)
    requires FindName(fs, n) > 0
    ensures var i := FindName(fs, n); var gs := SeqOps.Swap(fs, i - 1, i);
      FindName(gs, n) == i - 1 && 0 <= i - 1 < |gs| - 1 && SeqOps.Swap(gs, i - 1, i) == fs
  {
    var i := FindName(fs, n);
    FindAfterSwapUp(fs, n);
    SeqOps.SwapInvolution(fs, i - 1, i);
  }

  /** Putting a category's old list back undoes the replacement. */
  lemma ReplaceBack(s: Settings, k: nat, fs: seq<Field>)
    requires k < |s|
    ensures ReplaceList(ReplaceList(s, k, fs), k, s[k].1) == s
  {
    var t := ReplaceList(ReplaceList(s, k, fs), k, s[k].1);
    assert forall i :: 0 <= i < |s| ==> t[i] == s[i];
  }

  /** The corrected move down leaves a list without the field exactly as it was. */
  lemma MoveDownAbsent(s: Settings, n: string, categoryId: string)
    requires var k := SeqOps.IndexOf(Keys(s), CategoryIdToKey(categoryId));
      k != -1 && !HasName(s[k].1, n)
    ensures MoveDownStep(s, n, categoryId) == Some(s)
  {
  }

  /** As written, moving down a field that is not in a non-empty list overwrites its first field with undefined. */
  lemma MoveDownAsWrittenLosesFirst(fs: seq<Field>, n: string)
    requires fs != [] && !HasName(fs, n)
    ensures MoveDownAsWritten(fs, n)[0] == None
    ensures forall k :: 0 < k < |fs| ==> MoveDownAsWritten(fs, n)[k] == Some(fs[k])
  {
  }

  /** One concrete case: a single measure, and a move for a name not in the list. */
  lemma MoveDownAsWrittenCounterexample()
    ensures MoveDownAsWritten([Field("Sales", "measure")], "Profit") == [None]
  {
    assert !HasName([Field("Sales", "measure")], "Profit");
    MoveDownAsWrittenLosesFirst([Field("Sales", "measure")], "Profit");
  }

  /** The reset object has nothing configured, so every field is available. */
  lemma ResetFreesAll(all: seq<Field>)
    ensures HasConfiguredFields(Initial()) == Some(false)
    ensures AvailableFields(all, Initial()) == all
  {
    var s := Initial();
    forall c | 0 <= c < |CategoryKeys| && ListOf(s, CategoryKeys[c]).Some?
      ensures ListOf(s, CategoryKeys[c]).value == []
    {
      var i :| 0 <= i < |s| && s[i] == (CategoryKeys[c], ListOf(s, CategoryKeys[c]).value);
    }
    ConfiguredIffSomeInUse(s);
    SeqOps.FilterAll(all, (f: Field) => !InUse(s, f.name));
  }

  /** Adding through one of the dialog's four ids keeps exactly the four category keys. */
  lemma AddKeepsCategoryKeys(s: Settings, n: string, t: string, categoryId: string)
    requires Keys(s) == CategoryKeys
    requires CategoryIdToKey(categoryId) in CategoryKeys
    ensures Keys(AddStep(s, n, t, categoryId)) == CategoryKeys
  {
    var cleared := RemoveStep(s, n);
    var key := CategoryIdToKey(categoryId);
    var k := SeqOps.IndexOf(Keys(cleared), key);
    assert k != -1;
    var r := AddStep(s, n, t, categoryId);
    assert forall i :: 0 <= i < |r| ==> Keys(r)[i] == Keys(cleared)[i];
  }

  // ------------------------------------------------------------ the list updates, step by step

  /** `Object.keys(settings).forEach(key => settings[key] = settings[key].filter(...))`. */
  method RemoveEverywhere(s: Settings, n: string) returns (r: Settings)
    ensures r == RemoveStep(s, n)
  {
    r := s;
    for i := 0 to |r|
      invariant |r| == |s|
      invariant forall k :: 0 <= k < i ==> r[k] == (s[k].0, WithoutName(s[k].1, n))
      invariant forall k :: i <= k < |r| ==> r[k] == s[k]
    {
      r := r[i := (r[i].0, WithoutName(r[i].1, n))];
    }
  }

  /** The push itself: the key's list created empty when missing, then the field appended. */
  method PushField(s: Settings, key: string, f: Field) returns (r: Settings)
    ensures r == PushStep(s, key, f)
  {
    r := s;
    var k := SeqOps.IndexOf(Keys(r), key);
    if k == -1 {
      r := r + [(key, [])];
      k := |r| - 1;
    }
    r := r[k := (key, r[k].1 + [f])];
    if key !in Keys(s) {
      assert r[|s|].1 == [] + [f] == [f];
      assert r == s + [(key, [f])];
    }
  }

  /** The body of `addFieldToCategory`: the name removed everywhere, then pushed onto the key's list. */
  method AddToCategory(s: Settings, n: string, t: string, categoryId: string) returns (r: Settings)
    ensures r == AddStep(s, n, t, categoryId)
  {
    r := RemoveEverywhere(s, n);
    r := PushField(r, CategoryIdToKey(categoryId), Field(n, t));
  }

  // ------------------------------------------------------------ validation

  /** A value `JSON.parse` can return; an object is its members in order. */
  datatype Json = Null | Bool(b: bool) | Num(x: real) | Str(s: string) | Arr(items: seq<Json>) | Obj(members: seq<(string, Json)>)

  /** A property read `v[key]`: the last member of that name (a later duplicate wins in `JSON.parse`). */
  function Member(members: seq<(string, Json)>, key: string): Option<Json> {
    if members == [] then None
    else if members[|members| - 1].0 == key then Some(members[|members| - 1].1)
    else Member(members[..|members| - 1], key)
  }

  /** `item && typeof item === 'object' && typeof item.name === 'string' && typeof item.type === 'string'`. */
  predicate ValidField(item: Json) {
    item.Obj? && Member(item.members, "name").Some? && Member(item.members, "name").value.Str?
    && Member(item.members, "type").Some? && Member(item.members, "type").value.Str?
  }

  predicate ValidList(v: Option<Json>) {
    v.Some? && v.value.Arr? && forall i :: 0 <= i < |v.value.items| ==> ValidField(v.value.items[i])
  }

  /** `validateSettings`: an object whose four category keys each hold an array of {name, type} string pairs. */
  predicate ValidateSettings(v: Option<Json>)
    ensures ValidateSettings(v) ==> v.Some? && v.value.Obj?
    ensures ValidateSettings(v) ==> forall c :: 0 <= c < |CategoryKeys| ==> Member(v.value.members, CategoryKeys[c]).Some? && Member(v.value.members, CategoryKeys[c]).value.Arr?
  {
    v.Some? && v.value.Obj?
    && forall c :: 0 <= c < |CategoryKeys| ==> ValidList(Member(v.value.members, CategoryKeys[c]))
  }

  function AsField(item: Json): (f: Field)
    requires ValidField(item)
  {
    Field(Member(item.members, "name").value.s, Member(item.members, "type").value.s)
  }

  /** A validated value read as settings: the four category lists. */
  function AsSettings(v: Json): (s: Settings)
    requires ValidateSettings(Some(v))
    ensures WellFormed(s) && Keys(s) == CategoryKeys
  {
    var s := seq(4, c requires 0 <= c < 4 =>
      var items := Member(v.members, CategoryKeys[c]).value.items;
      (CategoryKeys[c], seq(|items|, i requires 0 <= i < |items| => AsField(items[i]))));
    assert Keys(s) == CategoryKeys by {
      assert forall i :: 0 <= i < 4 ==> Keys(s)[i] == CategoryKeys[i];
    }
    s
  }

  function FieldJson(f: Field): Json {
    Obj([("name", Str(f.name)), ("type", Str(f.kind))])
  }

  /** The object `JSON.stringify` is given: the entries in key order, each list as an array of {name, type}. */
  function ToJson(s: Settings): Json {
    Obj(seq(|s|, i requires 0 <= i < |s| => (s[i].0, Arr(seq(|s[i].1|, k requires 0 <= k < |s[i].1| => FieldJson(s[i].1[k]))))))
  }

  lemma MemberOfEntries(s: Settings, key: string, j: nat)
    requires forall a, b :: 0 <= a < b < |s| ==> s[a].0 != s[b].0
    requires j < |s| && s[j].0 == key
    ensures Member(ToJson(s).members, key) == Some(ToJson(s).members[j].1)
  {
    var ms := ToJson(s).members;
    var n := |ms|;
    if j < n - 1 {
      var front := s[..n - 1];
      assert ToJson(front).members == ms[..n - 1];
      MemberOfEntries(front, key, j);
    }
  }

  lemma FieldJsonReads(f: Field)
    ensures ValidField(FieldJson(f)) && AsField(FieldJson(f)) == f
  {
    var ms := FieldJson(f).members;
    assert ms[..1] == [("name", Str(f.name))];
  }

  /** Settings as saved are accepted back as exactly the same four lists. */
  lemma SavedSettingsValidate(s: Settings)
    requires WellFormed(s) && Keys(s) == CategoryKeys
    ensures ValidateSettings(Some(ToJson(s)))
    ensures AsSettings(ToJson(s)) == s
  {
    var v := ToJson(s);
    forall c | 0 <= c < 4
      ensures Member(v.members, CategoryKeys[c]) == Some(v.members[c].1)
      ensures ValidList(Member(v.members, CategoryKeys[c]))
      ensures forall k :: 0 <= k < |s[c].1| ==> AsField(v.members[c].1.items[k]) == s[c].1[k]
    {
      MemberOfEntries(s, CategoryKeys[c], c);
      var items := v.members[c].1.items;
      forall k | 0 <= k < |s[c].1|
        ensures ValidField(items[k]) && AsField(items[k]) == s[c].1[k]
      {
        FieldJsonReads(s[c].1[k]);
      }
    }
    assert ValidateSettings(Some(v));
    forall c | 0 <= c < 4
      ensures AsSettings(v)[c] == s[c]
    {
      assert AsSettings(v)[c].1 == s[c].1;
    }
  }

  /** Anything but an object, or an object lacking a category list, is rejected. */
  lemma RejectsMissingList(members: seq<(string, Json)>)
    requires Member(members, "tooltips").None?
    ensures !ValidateSettings(Some(Obj(members)))
    ensures !ValidateSettings(Some(Arr([]))) && !ValidateSettings(Some(Null)) && !ValidateSettings(None)
  {
    assert CategoryKeys[3] == "tooltips";
  }
}
