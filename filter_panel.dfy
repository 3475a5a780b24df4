/**
 * The per-column filter row under the table header: the filter state each
 * control keeps (text, number or date, keyed by column index), the row
 * predicate built from it, the detection of each column's filter type from
 * the visible body cells, and the bookkeeping of mounting and clearing.
 *
 * The filter row's own `toNumber`, `toDate`, `stripTime` and `sameDay` are
 * the same code as the shared formatting helpers and are modelled by
 * `Format.ToNumber`, `Format.ToDate` and `Format.SameDay`.
 */
module FilterPanel {
  import opened Wrappers
  import JsText
  import SeqOps
  import Format

  // --------------------------------------------------------------- state

  /** The number control's operators; `NumOther` is a value the switch does not name. */
  datatype NumOp = Eq | Ne | Gt | Ge | Lt | Le | NumBetween | NumOther(name: string)

  /** The date control's operators. */
  datatype DateOp = On | BeforeDay | AfterDay | DateBetween | DateOther(name: string)

  /** One `filterState` entry: `{type, op, v1, v2}`. */
  datatype Filter =
    | TextFilter(v1: string)
    | NumberFilter(numOp: NumOp, v1: string, v2: string)
    | DateFilter(dateOp: DateOp, v1: string, v2: string)

  /** No white space at either end: what `trim` leaves. */
  predicate Trimmed(s: string) {
    s == [] || (!JsText.IsSpace(s[0]) && !JsText.IsSpace(s[|s| - 1]))
  }

  /** No upper-case ASCII letter: what `toLowerCase` leaves. */
  predicate NoUpper(s: string) {
    forall i :: 0 <= i < |s| ==> !('A' <= s[i] <= 'Z')
  }

  /** What a trigger can store: never an empty predicate, text trimmed and lower-cased, numbers trimmed. */
  predicate Stored(f: Filter) {
    match f
    case TextFilter(v1) => v1 != "" && Trimmed(v1) && NoUpper(v1)
    case NumberFilter(op, v1, v2) => v1 != "" && Trimmed(v1) && Trimmed(v2) && (op == NumBetween ==> v2 != "")
    case DateFilter(op, v1, v2) => v1 != "" && (op == DateBetween ==> v2 != "")
  }

  predicate AllStored(fs: map<nat, Filter>) {
    forall idx :: idx in fs ==> Stored(fs[idx])
  }

  /** The text input's handler: a non-empty trimmed value is stored lower-cased, otherwise the entry goes. */
  function TextTrigger(fs: map<nat, Filter>, col: nat, value: string): (r: map<nat, Filter>)
    ensures JsText.Trim(value) != "" ==> r == fs[col := TextFilter(JsText.Lower(JsText.Trim(value)))]
    ensures JsText.Trim(value) == "" ==> r == fs - {col}
  {
    var v := JsText.Trim(value);
    if v != "" then fs[col := TextFilter(JsText.Lower(v))] else fs - {col}
  }

  /** The number controls' trigger: stored only with a first value, and a second one for between. */
  function NumberTrigger(fs: map<nat, Filter>, col: nat, o: NumOp, v1: string, v2: string): (r: map<nat, Filter>)
    ensures var a := JsText.Trim(v1); var b := JsText.Trim(v2);
      var valid := if o == NumBetween then a != "" && b != "" else a != "";
      (valid ==> r == fs[col := NumberFilter(o, a, b)]) && (!valid ==> r == fs - {col})
  {
    var a := JsText.Trim(v1);
    var b := JsText.Trim(v2);
    var valid := if o == NumBetween then a != "" && b != "" else a != "";
    if valid then fs[col := NumberFilter(o, a, b)] else fs - {col}
  }

  /** The date controls' trigger; date inputs are not trimmed. */
  function DateTrigger(fs: map<nat, Filter>, col: nat, o: DateOp, v1: string, v2: string): (r: map<nat, Filter>)
    ensures var valid := if o == DateBetween then v1 != "" && v2 != "" else v1 != "";
      (valid ==> r == fs[col := DateFilter(o, v1, v2)]) && (!valid ==> r == fs - {col})
  {
    var valid := if o == DateBetween then v1 != "" && v2 != "" else v1 != "";
    if valid then fs[col := DateFilter(o, v1, v2)] else fs - {col}
  }

  lemma TrimmedOfTrim(s: string)
    ensures Trimmed(JsText.Trim(s))
  {
    JsText.TrimIsCore(s);
  }

  lemma {:induction false} TrimOfTrimmed(s: string)
    requires Trimmed(s)
    ensures JsText.Trim(s) == s
  {
    assert JsText.TrimEnd(s) == s;
    JsText.TrimStartKeeps(s);
  }

  /** Lower-casing changes no white space, so it keeps a trimmed string trimmed. */
  lemma LowerKeepsTrimmed(s: string)
    requires Trimmed(s)
    ensures Trimmed(JsText.Lower(s)) && NoUpper(JsText.Lower(s))
  {
    if s != [] {
      JsText.LowerSpace(s[0]);
      JsText.LowerSpace(s[|s| - 1]);
    }
  }

  lemma {:induction false} LowerOfNoUpper(s: string)
    requires NoUpper(s)
    ensures JsText.Lower(s) == s
  {
  }

  /** No trigger ever stores an empty predicate, and every stored value is in its trimmed form. */
  lemma TextTriggerKeepsStored(fs: map<nat, Filter>, col: nat, value: string)
    requires AllStored(fs)
    ensures AllStored(TextTrigger(fs, col, value))
  {
    var v := JsText.Trim(value);
    if v != "" {
      TrimmedOfTrim(value);
      LowerKeepsTrimmed(v);
      assert Stored(TextFilter(JsText.Lower(v)));
    }
  }

  lemma NumberTriggerKeepsStored(fs: map<nat, Filter>, col: nat, o: NumOp, v1: string, v2: string)
    requires AllStored(fs)
    ensures AllStored(NumberTrigger(fs, col, o, v1, v2))
  {
    var a := JsText.Trim(v1);
    var b := JsText.Trim(v2);
    var valid := if o == NumBetween then a != "" && b != "" else a != "";
    if valid {
      TrimmedOfTrim(v1);
      TrimmedOfTrim(v2);
      assert Stored(NumberFilter(o, a, b));
      StoredUpdate(fs, col, NumberFilter(o, a, b));
    } else {
      assert NumberTrigger(fs, col, o, v1, v2) == fs - {col};
    }
  }

  lemma StoredUpdate(fs: map<nat, Filter>, col: nat, f: Filter)
    requires AllStored(fs) && Stored(f)
    ensures AllStored(fs[col := f])
  {
  }

  lemma DateTriggerKeepsStored(fs: map<nat, Filter>, col: nat, o: DateOp, v1: string, v2: string)
    requires AllStored(fs)
    ensures AllStored(DateTrigger(fs, col, o, v1, v2))
  {
  }

  /** The values a re-rendered text control shows: the stored text, or empty. */
  function TextControl(fs: map<nat, Filter>, col: nat): string {
    if col in fs && fs[col].TextFilter? then fs[col].v1 else ""
  }

  /** The operator and values a re-rendered number control shows. */
  function NumberControl(fs: map<nat, Filter>, col: nat): (NumOp, string, string) {
    if col in fs && fs[col].NumberFilter? then (fs[col].numOp, fs[col].v1, fs[col].v2) else (Eq, "", "")
  }

  function DateControl(fs: map<nat, Filter>, col: nat): (DateOp, string, string) {
    if col in fs && fs[col].DateFilter? then (fs[col].dateOp, fs[col].v1, fs[col].v2) else (On, "", "")
  }

  /**
   * Rebuilding the filter row is idempotent: a control re-rendered from the
   * state, fired with the values it shows, stores exactly what was there.
   */
  lemma TextRemount(fs: map<nat, Filter>, col: nat)
    requires AllStored(fs) && col in fs && fs[col].TextFilter?
    ensures TextTrigger(fs, col, TextControl(fs, col)) == fs
  {
    var v := fs[col].v1;
    assert Stored(fs[col]);
    TrimOfTrimmed(v);
    LowerOfNoUpper(v);
    assert fs[col := TextFilter(v)] == fs;
  }

  lemma NumberRemount(fs: map<nat, Filter>, col: nat)
    requires AllStored(fs) && col in fs && fs[col].NumberFilter?
    ensures var (o, a, b) := NumberControl(fs, col); NumberTrigger(fs, col, o, a, b) == fs
  {
    assert Stored(fs[col]);
    TrimOfTrimmed(fs[col].v1);
    TrimOfTrimmed(fs[col].v2);
    assert fs[col := NumberFilter(fs[col].numOp, fs[col].v1, fs[col].v2)] == fs;
  }

  lemma DateRemount(fs: map<nat, Filter>, col: nat)
    requires AllStored(fs) && col in fs && fs[col].DateFilter?
    ensures var (o, a, b) := DateControl(fs, col); DateTrigger(fs, col, o, a, b) == fs
  {
    assert Stored(fs[col]);
    assert fs[col := DateFilter(fs[col].dateOp, fs[col].v1, fs[col].v2)] == fs;
  }

  // ------------------------------------------------------------ predicate

  /** The text of a row's cell: `(td ? td.textContent : "") || ""`. */
  function CellText(row: seq<string>, idx: nat): string {
    if idx < |row| then row[idx] else ""
  }

  function Min(a: real, b: real): real { if a <= b then a else b }
  function Max(a: real, b: real): real { if a <= b then b else a }

  /** A number operator on a cell value n and the filter's values a and b, all already read by `toNumber`. */
  function NumberTest(n: Option<real>, op: NumOp, a: Option<real>, b: Option<real>): bool {
    if n.None? then false
    else
      match op
      case Eq => a.Some? && n.value == a.value
      case Ne => a.Some? && n.value != a.value
      case Gt => a.Some? && n.value > a.value
      case Ge => a.Some? && n.value >= a.value
      case Lt => a.Some? && n.value < a.value
      case Le => a.Some? && n.value <= a.value
      case NumBetween => a.Some? && b.Some? && Min(a.value, b.value) <= n.value <= Max(a.value, b.value)
      case NumOther(_) => true
  }

  /** A date operator on a cell date d and the filter's dates, already read by `toDate`; `d >= lo` is `!(d < lo)`. */
  function DateTest(d: Option<Format.JsDate>, op: DateOp, d1: Option<Format.JsDate>, d2: Option<Format.JsDate>): bool {
    if d.None? then false
    else
      match op
      case On => d1.Some? && Format.SameDay(d.value, d1.value)
      case BeforeDay => d1.Some? && Format.Before(d.value, d1.value)
      case AfterDay => d1.Some? && Format.Before(d1.value, d.value)
      case DateBetween =>
        if d1.None? || d2.None? then false
        else
          var (lo, hi) := if Format.AtMost(d1.value, d2.value) then (d1.value, d2.value) else (d2.value, d1.value);
          !Format.Before(d.value, lo) && !Format.Before(hi, d.value)
      case DateOther(_) => true
  }

  /** One filter on one cell's text. */
  function FilterPasses(f: Filter, raw: string, native: Format.NativeDate, make: Format.MakeDate): bool {
    match f
    case TextFilter(v1) => JsText.Includes(JsText.Lower(raw), JsText.Lower(v1))
    case NumberFilter(op, v1, v2) =>
      NumberTest(Format.ToNumber(Some(raw)), op, Format.ToNumber(Some(v1)), Format.ToNumber(Some(v2)))
    case DateFilter(op, v1, v2) =>
      DateTest(Format.ToDate(raw, native, make), op, Format.ToDate(v1, native, make), Format.ToDate(v2, native, make))
  }

  /** The `active.every(...)` of one row. */
  predicate RowPasses(fs: map<nat, Filter>, row: seq<string>, native: Format.NativeDate, make: Format.MakeDate) {
    forall idx :: idx in fs ==> FilterPasses(fs[idx], CellText(row, idx), native, make)
  }

  /** A cell that is not a finite number, or not a date, fails every operator, the unknown ones included. */
  lemma UnparsedFails(op: NumOp, a: Option<real>, b: Option<real>, dop: DateOp, d1: Option<Format.JsDate>, d2: Option<Format.JsDate>)
    ensures !NumberTest(None, op, a, b) && !DateTest(None, dop, d1, d2)
  {
  }

  /** An empty or blank cell reads as 0, since `Number("")` is 0, and never as a date. */
  lemma EmptyCell(native: Format.NativeDate, make: Format.MakeDate)
    ensures Format.ToNumber(Some("")) == Some(0.0)
    ensures Format.ToDate("", native, make).None?
  {
    Format.ToNumberBlank("");
  }

  /** Between is inclusive at both bounds and does not depend on their order. */
  lemma NumberBetweenSymmetric(n: Option<real>, a: Option<real>, b: Option<real>)
    ensures NumberTest(n, NumBetween, a, b) == NumberTest(n, NumBetween, b, a)
    ensures n.Some? && n == a && b.Some? ==> NumberTest(n, NumBetween, a, b)
    ensures n.Some? && a.Some? && b.Some? ==>
      (NumberTest(n, NumBetween, a, b) <==>
         ((NumberTest(n, Ge, a, b) && NumberTest(n, Le, b, a)) || (NumberTest(n, Ge, b, a) && NumberTest(n, Le, a, b))))
  {
  }

  /** The comparison operators agree with each other: = is the complement of !=, >= is > or =, <= is not >. */
  lemma NumberOpsAgree(n: Option<real>, a: Option<real>, b: Option<real>)
    requires n.Some? && a.Some?
    ensures NumberTest(n, Eq, a, b) == !NumberTest(n, Ne, a, b)
    ensures NumberTest(n, Ge, a, b) == (NumberTest(n, Gt, a, b) || NumberTest(n, Eq, a, b))
    ensures NumberTest(n, Le, a, b) == !NumberTest(n, Gt, a, b)
    ensures NumberTest(n, Lt, a, b) == !NumberTest(n, Ge, a, b)
  {
  }

  /** `before` and `after` are strict and exclusive; between is symmetric in its bounds; a date is on itself. */
  lemma DateOpsAgree(d: Option<Format.JsDate>, d1: Option<Format.JsDate>, d2: Option<Format.JsDate>)
    ensures !(DateTest(d, BeforeDay, d1, d2) && DateTest(d, AfterDay, d1, d2))
    ensures DateTest(d, DateBetween, d1, d2) == DateTest(d, DateBetween, d2, d1)
    ensures d.Some? ==> !DateTest(d, BeforeDay, d, d2) && !DateTest(d, AfterDay, d, d2) && DateTest(d, On, d, d2)
    ensures d.Some? && d2.Some? ==> DateTest(d, DateBetween, d, d2)
  {
    if d1.Some? && d2.Some? {
      Format.BeforeTotal(d1.value, d2.value);
    }
    if d.Some? && d1.Some? {
      Format.BeforeTotal(d.value, d1.value);
    }
    if d.Some? && d2.Some? {
      Format.BeforeTotal(d.value, d2.value);
    }
  }

  /** With no active filter every row is shown. */
  lemma NoFiltersShowAll(row: seq<string>, native: Format.NativeDate, make: Format.MakeDate)
    ensures RowPasses(map[], row, native, make)
  {
  }

  /** More filters show fewer rows: every filter is an AND term. */
  lemma MoreFiltersShowFewer(fs: map<nat, Filter>, more: map<nat, Filter>, row: seq<string>,
                             native: Format.NativeDate, make: Format.MakeDate)
    requires forall idx :: idx in fs ==> idx in more && more[idx] == fs[idx]
    ensures RowPasses(more, row, native, make) ==> RowPasses(fs, row, native, make)
  {
  }

  /** A row passes a text filter exactly when its cell holds the filter text, ignoring case. */
  lemma TextFilterMeansIncludes(fs: map<nat, Filter>, col: nat, value: string, row: seq<string>,
                                native: Format.NativeDate, make: Format.MakeDate)
    requires JsText.Trim(value) != ""
    ensures RowPasses(TextTrigger(fs, col, value), row, native, make) ==>
      JsText.Includes(JsText.Lower(CellText(row, col)), JsText.Lower(JsText.Trim(value)))
  {
    var r := TextTrigger(fs, col, value);
    assert col in r;
    JsText.LowerIdempotent(JsText.Trim(value));
  }

  // ------------------------------------------------------------ detection

  /** A body cell: its text and whether it is hidden. */
  datatype Td = Td(text: string, hidden: bool)

  /** A body row: its cells and whether it is hidden. */
  datatype Tr = Tr(cells: seq<Td>, hidden: bool)

  /** The cells' texts, as `applyFilters` reads them. */
  function Texts(tr: Tr): (r: seq<string>)
    ensures |r| == |tr.cells| && forall k :: 0 <= k < |r| ==> r[k] == tr.cells[k].text
  {
    seq(|tr.cells|, k requires 0 <= k < |tr.cells| => tr.cells[k].text)
  }

  /** A column's filter type; `SkipCol` is the row-number column. */
  datatype Kind = NumberCol | DateCol | TextCol | SkipCol

  /** The visible body rows, at most 200 of them. */
  function SampleRows(body: seq<Tr>): (r: seq<Tr>)
    ensures |r| <= 200
    ensures forall k :: 0 <= k < |r| ==> !r[k].hidden && r[k] in body
  {
    var visible := SeqOps.Filter(body, (tr: Tr) => !tr.hidden);
    if |visible| <= 200 then visible else visible[..200]
  }

  /** What a row contributes to column c: nothing for a missing or hidden cell, else its trimmed text. */
  function Sample(tr: Tr, c: nat): Option<string> {
    if c < |tr.cells| && !tr.cells[c].hidden then Some(JsText.Trim(tr.cells[c].text)) else None
  }

  /** Column c of the sampled rows, as the vote sees it. */
  function Column(rows: seq<Tr>, c: nat): (r: seq<Option<string>>)
    ensures |r| == |rows| && forall k :: 0 <= k < |rows| ==> r[k] == Sample(rows[k], c)
  {
    seq(|rows|, k requires 0 <= k < |rows| => Sample(rows[k], c))
  }

  /** The type column c gets: skip for the row-number column, else the 60% vote of its samples. */
  function KindOf(rows: seq<Tr>, c: nat, rowNumIdx: int, native: Format.NativeDate, make: Format.MakeDate): (r: Kind)
    ensures c == rowNumIdx <==> r == SkipCol
    ensures c != rowNumIdx ==> var col := Column(rows, c);
      (r == NumberCol <==> Format.AtLeastThreeFifths(Format.Numbers(col), Format.Total(col)))
      && (r == DateCol <==>
            (!Format.AtLeastThreeFifths(Format.Numbers(col), Format.Total(col))
             && Format.AtLeastThreeFifths(Format.Dates(col, native, make), Format.Total(col))))
  {
    if c == rowNumIdx then SkipCol
    else
      var col := Column(rows, c);
      var n := Format.Total(col);
      if n == 0 then TextCol
      else if 5 * Format.Numbers(col) >= 3 * n then NumberCol
      else if 5 * Format.Dates(col, native, make) >= 3 * n then DateCol
      else TextCol
  }

  /** The per-column counters `{n, nums, dates}`. */
  datatype Stat = Stat(n: nat, nums: nat, dates: nat)

  function StatOf(col: seq<Option<string>>, native: Format.NativeDate, make: Format.MakeDate): Stat {
    Stat(Format.Total(col), Format.Numbers(col), Format.Dates(col, native, make))
  }

  /** One more row in a column's samples. */
  lemma ColumnSnoc(rows: seq<Tr>, i: nat, c: nat)
    requires i < |rows|
    ensures Column(rows[..i + 1], c) == Column(rows[..i], c) + [Sample(rows[i], c)]
  {
  }

  /** One sample added to a column's counters: blank samples do not count, a number is never also a date. */
  function Tally(s: Stat, x: Option<string>, native: Format.NativeDate, make: Format.MakeDate): Stat {
    if x.None? || x.value == "" then s
    else if Format.ToNumber(x).Some? then Stat(s.n + 1, s.nums + 1, s.dates)
    else if Format.ToDate(x.value, native, make).Some? then Stat(s.n + 1, s.nums, s.dates + 1)
    else Stat(s.n + 1, s.nums, s.dates)
  }

  lemma StatSnoc(col: seq<Option<string>>, x: Option<string>, native: Format.NativeDate, make: Format.MakeDate)
    ensures StatOf(col + [x], native, make) == Tally(StatOf(col, native, make), x, native, make)
  {
    var s := col + [x];
    assert s[..|col|] == col && s[|s| - 1] == x;
    assert Format.Total(s) == Format.Total(col) + (if Format.Counted(x) then 1 else 0);
    assert Format.Numbers(s) == Format.Numbers(col) + (if Format.VotesNumber(x) then 1 else 0);
    assert Format.Dates(s, native, make) == Format.Dates(col, native, make) + (if Format.VotesDate(x, native, make) then 1 else 0);
  }

  /** The inner loop over one row's cells; the row-number column is skipped. */
  method CountRow(stats: seq<Stat>, tr: Tr, rowNumIdx: int, native: Format.NativeDate, make: Format.MakeDate)
    returns (r: seq<Stat>)
    ensures |r| == |stats|
    ensures forall c :: 0 <= c < |stats| && c != rowNumIdx ==> r[c] == Tally(stats[c], Sample(tr, c), native, make)
  {
    r := stats;
    var c := 0;
    while c < |stats|
      invariant 0 <= c <= |stats| && |r| == |stats|
      invariant forall k :: c <= k < |stats| ==> r[k] == stats[k]
      invariant forall k :: 0 <= k < c && k != rowNumIdx ==> r[k] == Tally(stats[k], Sample(tr, k), native, make)
    {
      if c != rowNumIdx {
        r := r[c := Tally(r[c], Sample(tr, c), native, make)];
      }
      c := c + 1;
    }
  }

  /** One type per column of the first sampled row, each from the vote over that column. */
  function DetectedKinds(body: seq<Tr>, rowNumIdx: int, native: Format.NativeDate, make: Format.MakeDate): (r: seq<Kind>)
    ensures var rows := SampleRows(body);
      |r| == (if rows == [] then 0 else |rows[0].cells|)
      && forall c :: 0 <= c < |r| ==> r[c] == KindOf(rows, c, rowNumIdx, native, make)
  {
    var rows := SampleRows(body);
    seq(if rows == [] then 0 else |rows[0].cells|, c requires c >= 0 => KindOf(rows, c, rowNumIdx, native, make))
  }

  /** `detectColumnTypesFromDom`: one type per column of the first sampled row. */
  method DetectColumnTypes(body: seq<Tr>, rowNumIdx: int, native: Format.NativeDate, make: Format.MakeDate)
    returns (types: seq<Kind>)
    ensures types == DetectedKinds(body, rowNumIdx, native, make)
  {
    var rows := SampleRows(body);
    var colCount := if rows == [] then 0 else |rows[0].cells|;
    var stats := seq(colCount, _ => Stat(0, 0, 0));
    var i := 0;
    while i < |rows|
      invariant 0 <= i <= |rows| && |stats| == colCount
      invariant forall c :: 0 <= c < colCount && c != rowNumIdx ==> stats[c] == StatOf(Column(rows[..i], c), native, make)
    {
      var next := CountRow(stats, rows[i], rowNumIdx, native, make);
      forall c | 0 <= c < colCount && c != rowNumIdx
        ensures next[c] == StatOf(Column(rows[..i + 1], c), native, make)
      {
        ColumnSnoc(rows, i, c);
        StatSnoc(Column(rows[..i], c), Sample(rows[i], c), native, make);
      }
      stats := next;
      i := i + 1;
    }
    assert rows[..|rows|] == rows;
    types := [];
    var c := 0;
    while c < colCount
      invariant 0 <= c <= colCount && |types| == c
      invariant forall k :: 0 <= k < c ==> types[k] == KindOf(rows, k, rowNumIdx, native, make)
    {
      var s := stats[c];
      var kind := if c == rowNumIdx then SkipCol
        else if s.n == 0 then TextCol
        else if 5 * s.nums >= 3 * s.n then NumberCol
        else if 5 * s.dates >= 3 * s.n then DateCol
        else TextCol;
      types := types + [kind];
      c := c + 1;
    }
  }

  /** A header cell: its text and whether it carries the row-number marker (data attribute or class). */
  datatype Th = Th(text: string, rowNumMarker: bool)

  predicate IsRowNumHeader(th: Th) {
    th.rowNumMarker || JsText.Trim(th.text) == "#"
  }

  /** The index of the first marked header cell, or -1 when there is none. */
  function FirstRowNum(header: seq<Th>): (r: int)
    ensures r == -1 <==> forall k :: 0 <= k < |header| ==> !IsRowNumHeader(header[k])
    ensures r != -1 ==>
      (0 <= r < |header| && IsRowNumHeader(header[r]) && forall k :: 0 <= k < r ==> !IsRowNumHeader(header[k]))
  {
    if header == [] then -1
    else if IsRowNumHeader(header[0]) then 0
    else
      var r := FirstRowNum(header[1..]);
      if r == -1 then -1 else r + 1
  }

  /** `findRowNumIndex`: a scan of the header cells. */
  method FindRowNumIndex(header: seq<Th>) returns (r: int)
    ensures r == FirstRowNum(header)
  {
    var i := 0;
    while i < |header|
      invariant 0 <= i <= |header|
      invariant FirstRowNum(header) == Shift(FirstRowNum(header[i..]), i)
    {
      assert header[i..][1..] == header[i + 1..];
      if IsRowNumHeader(header[i]) {
        return i;
      }
      i := i + 1;
    }
    return -1;
  }

  function Shift(r: int, offset: nat): int { if r == -1 then -1 else r + offset }

  /** The filter row: one control per header cell. */
  method BuildControls(types: seq<Kind>, rowNumIdx: int, n: nat) returns (controls: seq<Option<Kind>>)
    ensures |controls| == n && forall i :: 0 <= i < n ==> controls[i] == ControlFor(types, rowNumIdx, i)
  {
    controls := [];
    var i := 0;
    while i < n
      invariant 0 <= i <= n && |controls| == i
      invariant forall k :: 0 <= k < i ==> controls[k] == ControlFor(types, rowNumIdx, k)
    {
      controls := controls + [ControlFor(types, rowNumIdx, i)];
      i := i + 1;
    }
  }

  /** The control built under header column i; none under the row-number column. */
  function ControlFor(types: seq<Kind>, rowNumIdx: int, i: nat): (r: Option<Kind>)
    ensures i == rowNumIdx <==> r.None?
    ensures r.Some? ==> r.value in {NumberCol, DateCol, TextCol}
    ensures r.Some? && i < |types| && types[i] in {NumberCol, DateCol} ==> r == Some(types[i])
  {
    if i == rowNumIdx then None
    else if i < |types| && types[i] == NumberCol then Some(NumberCol)
    else if i < |types| && types[i] == DateCol then Some(DateCol)
    else Some(TextCol)
  }

  // ------------------------------------------------------------ the state

  /** The module-level `filterState` Map and the operations that change or read it. */
  class FilterPanelState {
    var filterState: map<nat, Filter>

    ghost predicate Valid()
      reads this
    {
      AllStored(filterState)
    }

    constructor ()
      ensures Valid() && filterState == map[]
    {
      filterState := map[];
    }

    /** The text input handler. */
    method TextInput(col: nat, value: string)
      requires Valid()
      modifies this
      ensures Valid() && filterState == TextTrigger(old(filterState), col, value)
    {
      TextTriggerKeepsStored(filterState, col, value);
      filterState := TextTrigger(filterState, col, value);
    }

    /** The number controls' trigger. */
    method NumberInput(col: nat, o: NumOp, v1: string, v2: string)
      requires Valid()
      modifies this
      ensures Valid() && filterState == NumberTrigger(old(filterState), col, o, v1, v2)
    {
      NumberTriggerKeepsStored(filterState, col, o, v1, v2);
      var a := JsText.Trim(v1);
      var b := JsText.Trim(v2);
      var valid := if o == NumBetween then a != "" && b != "" else a != "";
      if valid {
        filterState := filterState[col := NumberFilter(o, a, b)];
      } else {
        filterState := filterState - {col};
      }
    }

    /** The date controls' trigger. */
    method DateInput(col: nat, o: DateOp, v1: string, v2: string)
      requires Valid()
      modifies this
      ensures Valid() && filterState == DateTrigger(old(filterState), col, o, v1, v2)
    {
      DateTriggerKeepsStored(filterState, col, o, v1, v2);
      var valid := if o == DateBetween then v1 != "" && v2 != "" else v1 != "";
      if valid {
        filterState := filterState[col := DateFilter(o, v1, v2)];
      } else {
        filterState := filterState - {col};
      }
    }

    /** Dropping the entries of columns the table no longer has. */
    method Prune(colCount: nat)
      requires Valid()
      modifies this
      ensures Valid()
      ensures forall k :: k in filterState <==> k in old(filterState) && k < colCount
      ensures forall k :: k in filterState ==> filterState[k] == old(filterState)[k]
    {
      ghost var orig := filterState;
      var keys := filterState.Keys;
      while keys != {}
        invariant keys <= orig.Keys
        invariant filterState == map k | k in orig && (k in keys || k < colCount) :: orig[k]
        decreases |keys|
      {
        var k :| k in keys;
        if k >= colCount {
          filterState := filterState - {k};
        }
        keys := keys - {k};
      }
    }

    /** `applyFilters`: a row is displayed exactly when it passes every active filter. */
    method ApplyFilters(rows: seq<seq<string>>, native: Format.NativeDate, make: Format.MakeDate) returns (shown: seq<bool>)
      ensures |shown| == |rows|
      ensures forall i :: 0 <= i < |rows| ==> shown[i] == RowPasses(filterState, rows[i], native, make)
    {
      var fs := filterState;
      shown := SeqOps.MapEach(rows, (row: seq<string>) => RowPasses(fs, row, native, make));
    }

    /** `mountDomFilters` once the table is found: prune, detect, build one control per header cell, re-filter. */
    method Mount(header: seq<Th>, body: seq<Tr>, native: Format.NativeDate, make: Format.MakeDate)
      returns (controls: seq<Option<Kind>>, shown: seq<bool>)
      requires Valid()
      modifies this
      ensures Valid()
      ensures forall k :: k in filterState <==> k in old(filterState) && k < |header|
      ensures forall k :: k in filterState ==> filterState[k] == old(filterState)[k]
      ensures |controls| == |header|
      ensures forall i :: 0 <= i < |header| ==>
        controls[i] == ControlFor(DetectedKinds(body, FirstRowNum(header), native, make), FirstRowNum(header), i)
      ensures |shown| == |body|
      ensures forall i :: 0 <= i < |body| ==> shown[i] == RowPasses(filterState, Texts(body[i]), native, make)
    {
      var rowNumIdx := FindRowNumIndex(header);
      var types := DetectColumnTypes(body, rowNumIdx, native, make);
      Prune(|header|);
      controls := BuildControls(types, rowNumIdx, |header|);
      shown := ApplyFilters(seq(|body|, j requires 0 <= j < |body| => Texts(body[j])), native, make);
    }

    /** `clearDomFilters`: every entry goes and every row is shown. */
    method Clear(rows: seq<seq<string>>, native: Format.NativeDate, make: Format.MakeDate) returns (shown: seq<bool>)
      modifies this
      ensures Valid() && filterState == map[]
      ensures |shown| == |rows| && forall i :: 0 <= i < |rows| ==> shown[i]
    {
      filterState := map[];
      shown := ApplyFilters(rows, native, make);
      forall i | 0 <= i < |rows|
        ensures shown[i]
      {
        NoFiltersShowAll(rows[i], native, make);
      }
    }
  }
}
