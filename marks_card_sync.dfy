/**
 * src/ui/marks-card-sync.js: the columns in marks-card order, and the same
 * three-way split as the automatic configuration, together with the
 * original order of the column names. The summary data is a parameter.
 * `None` stands for any failure of the host calls: `getFieldOrder` then
 * yields no fields, and `generateOrderedSettings` yields all-empty lists.
 */
module MarksCardSync {
  import opened Wrappers
  import FieldSettings
  import TypePartition

  datatype OrderedField = OrderedField(name: string, index: nat, dataType: string, isReferenced: bool)

  /** `col.isReferenced || false`: a missing flag reads as false. */
  function OrderedFieldOf(c: TypePartition.Column): OrderedField {
    OrderedField(c.fieldName, c.index, c.dataType, c.isReferenced.GetOr(false))
  }

  /** `getFieldOrder`: one entry per column, in column order. */
  function FieldOrder(summary: Option<seq<TypePartition.Column>>): (r: seq<OrderedField>)
    ensures summary.None? ==> r == []
    ensures summary.Some? ==> |r| == |summary.value|
  {
    if summary.None? then []
    else seq(|summary.value|, i requires 0 <= i < |summary.value| => OrderedFieldOf(summary.value[i]))
  }

  /** `orderedFields.map(col => col.fieldName)`. */
  function Names(cols: seq<TypePartition.Column>): (r: seq<string>)
    ensures |r| == |cols|
  {
    seq(|cols|, i requires 0 <= i < |cols| => cols[i].fieldName)
  }

  datatype Settings = Settings(measureColumns: seq<FieldSettings.Field>, dimensionColumns: seq<FieldSettings.Field>,
                               details: seq<FieldSettings.Field>, tooltips: seq<FieldSettings.Field>,
                               marksCardOrder: seq<string>)

  /** `generateOrderedSettings`. Every name in marksCardOrder is one entry in exactly one of the three lists. */
  method GenerateOrderedSettings(summary: Option<seq<TypePartition.Column>>) returns (s: Settings)
    ensures summary.None? ==> s == Settings([], [], [], [], [])
    ensures summary.Some? ==> s == Settings(TypePartition.ListOf(summary.value, TypePartition.Measures),
                                            TypePartition.ListOf(summary.value, TypePartition.Dimensions),
                                            TypePartition.ListOf(summary.value, TypePartition.Details), [],
                                            Names(summary.value))
    ensures s.tooltips == []
    ensures |s.marksCardOrder| == |s.measureColumns| + |s.dimensionColumns| + |s.details|
  {
    if summary.None? {
      return Settings([], [], [], [], []);
    }
    var measures, dimensions, details := TypePartition.Partition(summary.value);
    TypePartition.BucketSizes(summary.value);
    return Settings(measures, dimensions, details, [], Names(summary.value));
  }

  /**
   * A field entry keeps the column's name, which is the stored marks-card
   * order's name at the same position, and its position, data type and
   * reference flag, defaulting the flag to false.
   */
  lemma FieldOrderCopies(cols: seq<TypePartition.Column>, i: nat)
    requires i < |cols|
    ensures |FieldOrder(Some(cols))| == |Names(cols)| && FieldOrder(Some(cols))[i].name == Names(cols)[i]
    ensures FieldOrder(Some(cols))[i].index == cols[i].index && FieldOrder(Some(cols))[i].dataType == cols[i].dataType
    ensures FieldOrder(Some(cols))[i].isReferenced <==> cols[i].isReferenced == Some(true)
  {
  }
}
