/**
 * The per-column text filters of the data model: a map from column index to
 * a non-empty filter string, and the row selection they imply.
 */
module ColumnFilterState {
  import opened Wrappers
  import JsText
  import SeqOps

  /** A data row; `None` is a null or undefined value. */
  type Row = seq<Option<string>>

  /** A data set as the renderer receives it. */
  datatype Table = Table(columns: seq<string>, rows: seq<Row>)

  /** `String(r[idx] ?? "")`: a missing, null or undefined cell reads as "". */
  function CellText(r: Row, idx: nat): string {
    if idx < |r| && r[idx].Some? then r[idx].value else ""
  }

  /** Every filter's lower-cased value occurs in the lower-cased cell of its column. */
  predicate Passes(filters: map<nat, string>, r: Row) {
    forall idx :: idx in filters ==> JsText.Includes(JsText.Lower(CellText(r, idx)), JsText.Lower(filters[idx]))
  }

  /** `applyColumnFilters`, with the module-level filter object passed explicitly. */
  function ApplyColumnFilters(filters: map<nat, string>, t: Table): (r: Table)
    ensures r.columns == t.columns
    ensures filters == map[] ==> r == t
    ensures SeqOps.IsSubseq(r.rows, t.rows)
    ensures forall i :: 0 <= i < |r.rows| ==> Passes(filters, r.rows[i])
    ensures forall i :: 0 <= i < |t.rows| && Passes(filters, t.rows[i]) ==> t.rows[i] in r.rows
    ensures forall x :: multiset(r.rows)[x] == if Passes(filters, x) then multiset(t.rows)[x] else 0
  {
    if |filters| == 0 then
      SeqOps.SubseqRefl(t.rows);
      t
    else
      SeqOps.FilterSubseq(t.rows, row => Passes(filters, row));
      SeqOps.FilterMultiset(t.rows, row => Passes(filters, row));
      Table(t.columns, SeqOps.Filter(t.rows, row => Passes(filters, row)))
  }

  /**
   * Adding a filter on a new column, or narrowing an existing one to a value
   * that contains the old one, can only shrink the result: filters are
   * combined with AND.
   */
  /** A row that passes the narrower filter set passes the original one. */
  lemma PassesMore(filters: map<nat, string>, idx: nat, value: string, row: Row)
    requires idx in filters ==> JsText.Includes(JsText.Lower(value), JsText.Lower(filters[idx]))
    requires Passes(filters[idx := value], row)
    ensures Passes(filters, row)
  {
    var more := filters[idx := value];
    forall j | j in filters
      ensures JsText.Includes(JsText.Lower(CellText(row, j)), JsText.Lower(filters[j]))
    {
      assert j in more;
      if j == idx {
        JsText.IncludesTrans(JsText.Lower(CellText(row, idx)), JsText.Lower(value), JsText.Lower(filters[idx]));
      } else {
        assert more[j] == filters[j];
      }
    }
  }

  lemma AddingFilterShrinks(filters: map<nat, string>, idx: nat, value: string, t: Table)
    requires idx in filters ==> JsText.Includes(JsText.Lower(value), JsText.Lower(filters[idx]))
    ensures SeqOps.IsSubseq(ApplyColumnFilters(filters[idx := value], t).rows, ApplyColumnFilters(filters, t).rows)
  {
    var more := filters[idx := value];
    assert idx in more;
    if filters == map[] {
      SeqOps.FilterSubseq(t.rows, row => Passes(more, row));
    } else {
      forall row | Passes(more, row) ensures Passes(filters, row) {
        PassesMore(filters, idx, value, row);
      }
      SeqOps.FilterStricter(t.rows, row => Passes(filters, row), row => Passes(more, row));
    }
  }

  /** The filter object of `state.columnFilters`, which never holds an empty filter. */
  class FilterStore {
    var columnFilters: map<nat, string>

    ghost predicate Valid()
      reads this
    {
      forall idx :: idx in columnFilters ==> columnFilters[idx] != ""
    }

    constructor ()
      ensures Valid() && columnFilters == map[]
    {
      columnFilters := map[];
    }

    /** `setColumnFilter`: a truthy value is stored under idx; null, undefined or "" deletes idx. */
    method SetColumnFilter(idx: nat, value: Option<string>)
      requires Valid()
      modifies this
      ensures Valid()
      ensures value.Some? && value.value != "" ==> columnFilters == old(columnFilters)[idx := value.value]
      ensures value.None? || value.value == "" ==> columnFilters == old(columnFilters) - {idx}
    {
      if value.Some? && value.value != "" {
        columnFilters := columnFilters[idx := value.value];
      } else {
        columnFilters := columnFilters - {idx};
      }
    }

    /** `clearColumnFilter`: only idx is removed. */
    method ClearColumnFilter(idx: nat)
      requires Valid()
      modifies this
      ensures Valid()
      ensures columnFilters == old(columnFilters) - {idx}
      ensures idx !in columnFilters
      ensures forall k :: k in old(columnFilters) && k != idx ==> k in columnFilters && columnFilters[k] == old(columnFilters)[k]
    {
      columnFilters := columnFilters - {idx};
    }
  }
}
