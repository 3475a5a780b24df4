/**
 * `AutoConfig.generateSettings` of src/ui/auto-config.js: the summary data's
 * columns split into the measure, dimension and details lists, with no
 * tooltips. The host's `getSummaryDataAsync` is a parameter. `None` stands
 * for any failure, which yields four empty lists.
 */
module AutoConfig {
  import opened Wrappers
  import FieldSettings
  import TypePartition

  datatype Settings = Settings(measureColumns: seq<FieldSettings.Field>, dimensionColumns: seq<FieldSettings.Field>,
                               details: seq<FieldSettings.Field>, tooltips: seq<FieldSettings.Field>)

  method GenerateSettings(summary: Option<seq<TypePartition.Column>>) returns (s: Settings)
    ensures summary.None? ==> s == Settings([], [], [], [])
    ensures summary.Some? ==> s == Settings(TypePartition.ListOf(summary.value, TypePartition.Measures),
                                            TypePartition.ListOf(summary.value, TypePartition.Dimensions),
                                            TypePartition.ListOf(summary.value, TypePartition.Details), [])
    ensures s.tooltips == []
    ensures |s.measureColumns| + |s.dimensionColumns| + |s.details| == if summary.Some? then |summary.value| else 0
  {
    if summary.None? {
      return Settings([], [], [], []);
    }
    var measures, dimensions, details := TypePartition.Partition(summary.value);
    TypePartition.BucketSizes(summary.value);
    return Settings(measures, dimensions, details, []);
  }
}
