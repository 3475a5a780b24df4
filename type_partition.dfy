/**
 * The split of a worksheet's columns by data type that src/ui/auto-config.js
 * and src/ui/marks-card-sync.js both perform.
 *
 * int and float columns go to the measure list. string, bool, date and
 * datetime columns go to the dimension list. Every other data type goes to
 * details. Each list keeps the worksheet's column order. Each entry is the
 * field name with the type `inferFieldType` gives it. That type is 'measure'
 * for int and float and 'dimension' for everything else, so entries under
 * details are typed 'dimension'.
 */
module TypePartition {
  import opened Wrappers
  import SeqOps
  import FieldSettings

  /** A column of the summary data, in marks-card order. */
  datatype Column = Column(fieldName: string, dataType: string, index: nat, isReferenced: Option<bool>)

  datatype Bucket = Measures | Dimensions | Details

  /** The `switch (col.dataType)` of the partition. */
  function BucketOf(dataType: string): (b: Bucket)
    ensures b == Measures <==> dataType == "int" || dataType == "float"
    ensures b == Dimensions <==> dataType == "string" || dataType == "bool" || dataType == "date" || dataType == "datetime"
  {
    match dataType
    case "int" => Measures
    case "float" => Measures
    case "string" => Dimensions
    case "bool" => Dimensions
    case "date" => Dimensions
    case "datetime" => Dimensions
    case _ => Details
  }

  /** `{ name: col.fieldName, type: inferFieldType(col) }`. */
  function FieldOf(c: Column): FieldSettings.Field {
    FieldSettings.Field(c.fieldName, FieldSettings.RoleName(FieldSettings.InferFieldType(c.dataType)))
  }

  /** The fields of every column, in order. */
  function Fields(cols: seq<Column>): (r: seq<FieldSettings.Field>)
    ensures |r| == |cols| && forall i :: 0 <= i < |cols| ==> r[i] == FieldOf(cols[i])
  {
    seq(|cols|, i requires 0 <= i < |cols| => FieldOf(cols[i]))
  }

  /** The list that bucket b receives: its columns' fields, in column order. */
  function ListOf(cols: seq<Column>, b: Bucket): (r: seq<FieldSettings.Field>)
    ensures forall i :: 0 <= i < |r| ==> r[i].kind == (if b == Measures then "measure" else "dimension")
  {
    if cols == [] then []
    else (if BucketOf(cols[0].dataType) == b then [FieldOf(cols[0])] else []) + ListOf(cols[1..], b)
  }

  lemma {:induction false} ListOfSnoc(cols: seq<Column>, c: Column, b: Bucket)
    ensures ListOf(cols + [c], b) == ListOf(cols, b) + (if BucketOf(c.dataType) == b then [FieldOf(c)] else [])
    decreases |cols|
  {
    if cols == [] {
      assert [] + [c] == [c];
      assert [c][1..] == [];
    } else {
      assert (cols + [c])[1..] == cols[1..] + [c];
      ListOfSnoc(cols[1..], c, b);
    }
  }

  /** Every column lands in exactly one of the three lists: together they are as long as the columns. */
  lemma {:induction false} BucketSizes(cols: seq<Column>)
    ensures |ListOf(cols, Measures)| + |ListOf(cols, Dimensions)| + |ListOf(cols, Details)| == |cols|
  {
    if cols != [] {
      BucketSizes(cols[1..]);
    }
  }

  /** A column's field is in the list of its own bucket. */
  lemma {:induction false} LandsInItsBucket(cols: seq<Column>, i: nat)
    requires i < |cols|
    ensures FieldOf(cols[i]) in ListOf(cols, BucketOf(cols[i].dataType))
  {
    if i > 0 {
      LandsInItsBucket(cols[1..], i - 1);
    }
  }

  /** Each list keeps the column order: it is a subsequence of all the fields. */
  lemma {:induction false} ListOfInOrder(cols: seq<Column>, b: Bucket)
    ensures SeqOps.IsSubseq(ListOf(cols, b), Fields(cols))
  {
    if cols != [] {
      ListOfInOrder(cols[1..], b);
      var rest := ListOf(cols[1..], b);
      assert Fields(cols)[1..] == Fields(cols[1..]);
      if BucketOf(cols[0].dataType) == b {
        assert ListOf(cols, b)[0] == Fields(cols)[0] && ListOf(cols, b)[1..] == rest;
      } else if rest != [] {
        assert ListOf(cols, b) == rest;
        assert SeqOps.IsSubseq(rest, Fields(cols)[1..]);
      }
    }
  }

  /** The `forEach` that pushes each column's field onto its list. */
  method Partition(cols: seq<Column>) returns (measures: seq<FieldSettings.Field>, dimensions: seq<FieldSettings.Field>, details: seq<FieldSettings.Field>)
    ensures measures == ListOf(cols, Measures)
    ensures dimensions == ListOf(cols, Dimensions)
    ensures details == ListOf(cols, Details)
  {
    measures, dimensions, details := [], [], [];
    for i := 0 to |cols|
      invariant measures == ListOf(cols[..i], Measures)
      invariant dimensions == ListOf(cols[..i], Dimensions)
      invariant details == ListOf(cols[..i], Details)
    {
      var col := cols[i];
      assert cols[..i + 1] == cols[..i] + [col];
      ListOfSnoc(cols[..i], col, Measures);
      ListOfSnoc(cols[..i], col, Dimensions);
      ListOfSnoc(cols[..i], col, Details);
      var field := FieldOf(col);
      match BucketOf(col.dataType)
      case Measures => measures := measures + [field];
      case Dimensions => dimensions := dimensions + [field];
      case Details => details := details + [field];
    }
    assert cols[..|cols|] == cols;
  }
}
