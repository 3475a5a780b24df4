/**
 * `SimpleSync.generateSettings` of src/ui/simple-sync.js: one entry per
 * column, in the worksheet's order, with the type `inferFieldType` gives it.
 * The summary data is a parameter. `None` stands for a failure, which
 * yields no columns.
 */
module SimpleSync {
  import opened Wrappers
  import FieldSettings
  import TypePartition

  datatype SyncColumn = SyncColumn(name: string, kind: string, dataType: string, index: nat)

  function SyncColumnOf(c: TypePartition.Column): SyncColumn {
    SyncColumn(c.fieldName, FieldSettings.RoleName(FieldSettings.InferFieldType(c.dataType)), c.dataType, c.index)
  }

  function GenerateSettings(summary: Option<seq<TypePartition.Column>>): (r: seq<SyncColumn>)
    ensures summary.None? ==> r == []
    ensures summary.Some? ==> |r| == |summary.value|
  {
    if summary.None? then []
    else seq(|summary.value|, i requires 0 <= i < |summary.value| => SyncColumnOf(summary.value[i]))
  }

  /** Entry i copies column i and is typed 'measure' exactly for an int or float column. */
  lemma EntryOfColumn(cols: seq<TypePartition.Column>, i: nat)
    requires i < |cols|
    ensures GenerateSettings(Some(cols))[i].name == cols[i].fieldName
    ensures GenerateSettings(Some(cols))[i].dataType == cols[i].dataType && GenerateSettings(Some(cols))[i].index == cols[i].index
    ensures GenerateSettings(Some(cols))[i].kind == "measure" <==> cols[i].dataType == "int" || cols[i].dataType == "float"
    ensures GenerateSettings(Some(cols))[i].kind == "measure" || GenerateSettings(Some(cols))[i].kind == "dimension"
  {
  }

  /** The entries typed 'measure', as name and type, in order. */
  function Measures(r: seq<SyncColumn>): seq<FieldSettings.Field> {
    if r == [] then []
    else (if r[0].kind == "measure" then [FieldSettings.Field(r[0].name, r[0].kind)] else []) + Measures(r[1..])
  }

  /** The entries typed 'measure' are the automatic configuration's measure list, in the same order. */
  lemma {:induction false} MeasuresAgreeWithPartition(cols: seq<TypePartition.Column>)
    ensures Measures(GenerateSettings(Some(cols))) == TypePartition.ListOf(cols, TypePartition.Measures)
  {
    if cols != [] {
      MeasuresAgreeWithPartition(cols[1..]);
      assert GenerateSettings(Some(cols))[1..] == GenerateSettings(Some(cols[1..]));
    }
  }
}
