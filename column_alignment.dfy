/**
 * Per-column text alignment: three buttons (left, center, right) in every
 * header of the first header row, a map from column index to the chosen
 * alignment, alignments applied to the column's cells, and smart defaults
 * chosen from the first five body rows for the columns with no choice yet.
 */
module ColumnAlignment {
  import opened Wrappers
  import JsText
  import JsMap

  datatype Alignment = Left | Center | Right

  datatype ColumnType = NumberColumn | DateColumn | TextColumn

  /** `alignmentState`: column index to alignment, in the order the columns were first set. */
  type AlignMap = JsMap.OrderedMap<nat, Alignment>

  // ------------------------------------------------------------- recognising numbers and dates

  predicate IsDigit(c: char) {
    '0' <= c <= '9'
  }

  /** The class `\w`. */
  predicate IsWordChar(c: char) {
    IsDigit(c) || 'a' <= c <= 'z' || 'A' <= c <= 'Z' || c == '_'
  }

  predicate Digits(s: string) {
    forall i :: 0 <= i < |s| ==> IsDigit(s[i])
  }

  predicate WordChars(s: string) {
    forall i :: 0 <= i < |s| ==> IsWordChar(s[i])
  }

  /** The length of the longest prefix of digits and commas, `[\d,]+` taken greedily. */
  function DigitRun(s: string): (n: nat)
    ensures n <= |s|
    ensures forall i :: 0 <= i < n ==> IsDigit(s[i]) || s[i] == ','
    ensures n < |s| ==> !IsDigit(s[n]) && s[n] != ','
  {
    if s == [] || !(IsDigit(s[0]) || s[0] == ',') then 0 else 1 + DigitRun(s[1..])
  }

  /**
   * `/^-?[\d,]+\.?\d*$/`: an optional minus, a run of digits and commas, and
   * then nothing, or a point followed by digits only.
   */
  predicate NumberPattern(s: string) {
    var t := if |s| > 0 && s[0] == '-' then s[1..] else s;
    var n := DigitRun(t);
    n > 0 && (n == |t| || (t[n] == '.' && Digits(t[n + 1..])))
  }

  /** `s.split(sep)`. */
  function Split(s: string, sep: char): (r: seq<string>)
    ensures |r| >= 1
  {
    if s == [] then [""]
    else
      var rest := Split(s[1..], sep);
      if s[0] == sep then [""] + rest else [[s[0]] + rest[0]] + rest[1..]
  }

  predicate DigitsOfLength(s: string, lo: nat, hi: nat) {
    lo <= |s| <= hi && Digits(s)
  }

  /** `/^\d{1,2}\/\d{1,2}\/\d{2,4}$/`. */
  predicate SlashDate(s: string) {
    var p := Split(s, '/');
    |p| == 3 && DigitsOfLength(p[0], 1, 2) && DigitsOfLength(p[1], 1, 2) && DigitsOfLength(p[2], 2, 4)
  }

  /** `/^\d{2,4}-\d{1,2}-\d{1,2}$/`. */
  predicate DashDate(s: string) {
    var p := Split(s, '-');
    |p| == 3 && DigitsOfLength(p[0], 2, 4) && DigitsOfLength(p[1], 1, 2) && DigitsOfLength(p[2], 1, 2)
  }

  /** `/^\d{1,2}-\w{3}-\d{2,4}$/`. */
  predicate MonthDate(s: string) {
    var p := Split(s, '-');
    |p| == 3 && DigitsOfLength(p[0], 1, 2) && |p[1]| == 3 && WordChars(p[1]) && DigitsOfLength(p[2], 2, 4)
  }

  /** `isDateString`: one of the three patterns, or a string `Date.parse` reads (`parses`, the host's parser). */
  predicate IsDateString(s: string, parses: string -> bool) {
    SlashDate(s) || DashDate(s) || MonthDate(s) || parses(s)
  }

  lemma {:induction false} SplitPlain(a: string, sep: char)
    requires sep !in a
    ensures Split(a, sep) == [a]
  {
    if a != [] {
      SplitPlain(a[1..], sep);
      assert [a[0]] + a[1..] == a;
    }
  }

  lemma {:induction false} SplitAt(a: string, sep: char, b: string)
    requires sep !in a
    ensures Split(a + [sep] + b, sep) == [a] + Split(b, sep)
  {
    if a == [] {
      assert (a + [sep] + b)[1..] == b;
    } else {
      assert (a + [sep] + b)[1..] == a[1..] + [sep] + b;
      SplitAt(a[1..], sep, b);
      assert [a[0]] + a[1..] == a;
    }
  }

  lemma DigitsNoSep(a: string, sep: char)
    requires Digits(a) && !IsDigit(sep)
    ensures sep !in a
  {
  }

  /** Three digit groups of the right lengths joined by slashes or dashes read as dates, whatever `Date.parse` does. */
  lemma DateShapes(a: string, b: string, c: string, parses: string -> bool)
    requires Digits(a) && Digits(b) && Digits(c)
    ensures DigitsOfLength(a, 1, 2) && DigitsOfLength(b, 1, 2) && DigitsOfLength(c, 2, 4) ==>
      IsDateString(a + "/" + b + "/" + c, parses)
    ensures DigitsOfLength(a, 2, 4) && DigitsOfLength(b, 1, 2) && DigitsOfLength(c, 1, 2) ==>
      IsDateString(a + "-" + b + "-" + c, parses)
  {
    DigitsNoSep(a, '/'); DigitsNoSep(b, '/'); DigitsNoSep(c, '/');
    DigitsNoSep(a, '-'); DigitsNoSep(b, '-'); DigitsNoSep(c, '-');
    SplitPlain(c, '/'); SplitAt(b, '/', c); SplitAt(a, '/', b + "/" + c);
    assert a + "/" + b + "/" + c == a + ['/'] + (b + ['/'] + c);
    SplitPlain(c, '-'); SplitAt(b, '-', c); SplitAt(a, '-', b + "-" + c);
    assert a + "-" + b + "-" + c == a + ['-'] + (b + ['-'] + c);
  }

  // ------------------------------------------------------------- detecting a column's type

  /** How one sampled cell counts: not at all when missing or blank, else as a number, as a date (numbers taken first) or as neither. */
  datatype Kind = Skipped | NumberCell | DateCell | OtherCell

  /** The text with `$`, `%` and `,` taken out, as the number test sees it. */
  function Stripped(text: string): string {
    JsText.Remove(text, {'$', '%', ','})
  }

  function KindOf(cell: Option<string>, parses: string -> bool): Kind {
    if cell.None? || JsText.Trim(cell.value) == [] then Skipped
    else if NumberPattern(Stripped(JsText.Trim(cell.value))) then NumberCell
    else if IsDateString(JsText.Trim(cell.value), parses) then DateCell
    else OtherCell
  }

  /** The kind of cell `col` of each sampled row; a row too short for it has no cell there. */
  function KindsAt(rows: seq<seq<string>>, col: nat, parses: string -> bool): (r: seq<Kind>)
    ensures |r| == |rows|
  {
    seq(|rows|, k requires 0 <= k < |rows| => KindOf(if col < |rows[k]| then Some(rows[k][col]) else None, parses))
  }

  /** Sampled cells, how many read as numbers and how many as dates. */
  datatype Tally = Tally(total: nat, numbers: nat, dates: nat)

  function Count(t: Tally, kind: Kind): Tally {
    match kind
    case Skipped => t
    case NumberCell => Tally(t.total + 1, t.numbers + 1, t.dates)
    case DateCell => Tally(t.total + 1, t.numbers, t.dates + 1)
    case OtherCell => Tally(t.total + 1, t.numbers, t.dates)
  }

  function TallyOf(kinds: seq<Kind>): Tally {
    if kinds == [] then Tally(0, 0, 0)
    else Count(TallyOf(kinds[..|kinds| - 1]), kinds[|kinds| - 1])
  }

  /** No samples: text; at least 70% numbers: number; else at least 70% dates: date; else text. */
  function Decide(t: Tally): ColumnType {
    if t.total == 0 then TextColumn
    else if (t.numbers as real) / (t.total as real) >= 0.7 then NumberColumn
    else if (t.dates as real) / (t.total as real) >= 0.7 then DateColumn
    else TextColumn
  }

  function ColumnTypeOf(rows: seq<seq<string>>, col: nat, parses: string -> bool): ColumnType {
    Decide(TallyOf(KindsAt(rows, col, parses)))
  }

  /** Each sampled cell is counted at most once, as a number or as a date, and only non-blank cells are counted. */
  lemma {:induction false} TallyBounds(kinds: seq<Kind>)
    ensures TallyOf(kinds).numbers + TallyOf(kinds).dates <= TallyOf(kinds).total <= |kinds|
    ensures TallyOf(kinds).total == |kinds| - multiset(kinds)[Skipped]
  {
    if kinds != [] {
      var n := |kinds| - 1;
      TallyBounds(kinds[..n]);
      assert kinds == kinds[..n] + [kinds[n]];
    }
  }

  function Plus(a: Tally, b: Tally): Tally {
    Tally(a.total + b.total, a.numbers + b.numbers, a.dates + b.dates)
  }

  /** Counting is additive: the tally of two runs of samples is the sum of their tallies. */
  lemma {:induction false} TallyAppend(a: seq<Kind>, b: seq<Kind>)
    ensures TallyOf(a + b) == Plus(TallyOf(a), TallyOf(b))
  {
    if b == [] {
      assert a + b == a;
    } else {
      var n := |b| - 1;
      assert (a + b)[..|a + b| - 1] == a + b[..n];
      assert (a + b)[|a + b| - 1] == b[n];
      TallyAppend(a, b[..n]);
      CountPlus(TallyOf(a), TallyOf(b[..n]), b[n]);
      assert TallyOf(b) == Count(TallyOf(b[..n]), b[n]);
    }
  }

  lemma CountPlus(x: Tally, y: Tally, kind: Kind)
    ensures Count(Plus(x, y), kind) == Plus(x, Count(y, kind))
  {
  }

  /** A blank or missing cell is skipped. */
  lemma BlankSkipped(cell: Option<string>, parses: string -> bool)
    requires cell.None? || JsText.Trim(cell.value) == []
    ensures KindOf(cell, parses) == Skipped
  {
  }

  /**
   * `detectColumnType` over the sampled rows: count the non-blank cells,
   * the numbers and the dates, then decide.
   */
  method DetectColumnType(sampleRows: seq<seq<string>>, colIndex: nat, parses: string -> bool) returns (t: ColumnType)
    ensures t == ColumnTypeOf(sampleRows, colIndex, parses)
  {
    ghost var kinds := KindsAt(sampleRows, colIndex, parses);
    var numberCount, dateCount, totalCount := 0, 0, 0;
    var k := 0;
    while k < |sampleRows|
      invariant 0 <= k <= |sampleRows|
      invariant Tally(totalCount, numberCount, dateCount) == TallyOf(kinds[..k])
    {
      assert kinds[..k + 1][..k] == kinds[..k];
      assert TallyOf(kinds[..k + 1]) == Count(TallyOf(kinds[..k]), kinds[k]);
      var row := sampleRows[k];
      if colIndex < |row| {
        assert kinds[k] == KindOf(Some(row[colIndex]), parses);
        var text := JsText.Trim(row[colIndex]);
        if text != [] {
          totalCount := totalCount + 1;
          if NumberPattern(Stripped(text)) {
            numberCount := numberCount + 1;
          } else if IsDateString(text, parses) {
            dateCount := dateCount + 1;
          }
        }
      }
      k := k + 1;
    }
    assert kinds[..k] == kinds;
    t := Decide(Tally(totalCount, numberCount, dateCount));
  }

  /** Numbers go right, dates center, everything else left. */
  function DefaultFor(t: ColumnType): Alignment {
    match t
    case NumberColumn => Right
    case DateColumn => Center
    case TextColumn => Left
  }

  // ------------------------------------------------------------- the table's styles

  /** A cell: its text and its `style.textAlign` (`None` for the empty string). */
  datatype Cell = Cell(text: string, align: Option<Alignment>)

  /**
   * What the alignment code sees of the table: the header rows (the first
   * carries the buttons, the second is the filter row), the body rows and,
   * per header of the first row, whether it has alignment controls and which
   * of its three buttons is highlighted (`None` while none is).
   */
  datatype Table = Table(head: seq<seq<Cell>>, body: seq<seq<Cell>>, controls: seq<bool>, lit: seq<Option<Alignment>>)

  /** The number of headers in the first header row. */
  function Width(head: seq<seq<Cell>>): nat {
    if head == [] then 0 else |head[0]|
  }

  /** One control flag and one button state per header of the first row. */
  predicate WellShaped(t: Table) {
    |t.controls| == Width(t.head) && |t.lit| == Width(t.head)
  }

  /** The same rows of the same lengths and the same controls: only styles differ. */
  predicate SameShape(r: Table, t: Table) {
    |r.head| == |t.head| && |r.body| == |t.body| && r.controls == t.controls && |r.lit| == |t.lit|
    && (forall k :: 0 <= k < |t.head| ==> |r.head[k]| == |t.head[k]|)
    && (forall k :: 0 <= k < |t.body| ==> |r.body[k]| == |t.body[k]|)
  }

  lemma SameShapeWidth(r: Table, t: Table)
    requires SameShape(r, t)
    ensures Width(r.head) == Width(t.head) && (WellShaped(t) ==> WellShaped(r))
  {
    if t.head != [] {
      assert |r.head[0]| == |t.head[0]|;
    }
  }

  lemma SameShapeTrans(r: Table, s: Table, t: Table)
    requires SameShape(r, s) && SameShape(s, t)
    ensures SameShape(r, t)
  {
  }

  function AlignCell(row: seq<Cell>, col: nat, a: Alignment): (r: seq<Cell>)
    ensures |r| == |row|
  {
    if col < |row| then row[col := Cell(row[col].text, Some(a))] else row
  }

  /**
   * `applyColumnAlignment`: the header of the first header row, the cell of
   * the filter row and every body cell at that index take the alignment.
   */
  function Aligned(t: Table, col: nat, a: Alignment): (r: Table)
    ensures SameShape(r, t) && r.lit == t.lit
  {
    Table(
      seq(|t.head|, k requires 0 <= k < |t.head| => if k < 2 then AlignCell(t.head[k], col, a) else t.head[k]),
      seq(|t.body|, k requires 0 <= k < |t.body| => AlignCell(t.body[k], col, a)),
      t.controls, t.lit)
  }

  /** The alignment shown for a column: the stored one, or left. */
  function Current(m: AlignMap, col: nat): Alignment {
    JsMap.Get(m, col).GetOr(Left)
  }

  /** `updateButtonStates`: in a header with controls, the button of the current alignment is the highlighted one. */
  function Highlighted(t: Table, col: nat, m: AlignMap): (r: Table)
    ensures SameShape(r, t) && r.head == t.head && r.body == t.body
    ensures forall i :: 0 <= i < |t.lit| && i != col ==> r.lit[i] == t.lit[i]
  {
    if col < |t.lit| && col < |t.controls| && t.controls[col] then t.(lit := t.lit[col := Some(Current(m, col))])
    else t
  }

  /** The styles after `setColumnAlignment(col, a)`, m being the map once it holds a for col. */
  function SetStyles(t: Table, col: nat, a: Alignment, m: AlignMap): (r: Table)
    ensures SameShape(r, t)
  {
    Highlighted(Aligned(t, col, a), col, m)
  }

  /** `clearColumnAlignments` on the cells: every header and body cell loses its alignment. */
  function Cleared(t: Table): (r: Table)
    ensures SameShape(r, t)
    ensures forall k, i :: 0 <= k < |r.head| && 0 <= i < |r.head[k]| ==> r.head[k][i] == Cell(t.head[k][i].text, None)
    ensures forall k, i :: 0 <= k < |r.body| && 0 <= i < |r.body[k]| ==> r.body[k][i] == Cell(t.body[k][i].text, None)
    ensures r.lit == t.lit
  {
    Table(
      seq(|t.head|, k requires 0 <= k < |t.head| => ClearRow(t.head[k])),
      seq(|t.body|, k requires 0 <= k < |t.body| => ClearRow(t.body[k])),
      t.controls, t.lit)
  }

  function ClearRow(row: seq<Cell>): (r: seq<Cell>)
    ensures |r| == |row| && forall i :: 0 <= i < |r| ==> r[i] == Cell(row[i].text, None)
  {
    seq(|row|, i requires 0 <= i < |row| => Cell(row[i].text, None))
  }

  /** After `setColumnAlignment(col, a)` the column's body cells show a and every other cell is as it was. */
  lemma SetStylesCell(t: Table, col: nat, a: Alignment, m: AlignMap, k: nat, i: nat)
    requires k < |t.body| && i < |t.body[k]|
    ensures |SetStyles(t, col, a, m).body[k]| == |t.body[k]|
    ensures SetStyles(t, col, a, m).body[k][i] == if i == col then Cell(t.body[k][i].text, Some(a)) else t.body[k][i]
  {
    assert SetStyles(t, col, a, m).body == Aligned(t, col, a).body;
  }

  /** ... and the header's highlighted button is a's, the other headers' buttons as they were. */
  lemma SetStylesLit(t: Table, col: nat, a: Alignment, m: AlignMap, i: nat)
    requires JsMap.Get(m, col) == Some(a) && i < |t.lit|
    ensures |SetStyles(t, col, a, m).lit| == |t.lit|
    ensures SetStyles(t, col, a, m).lit[i] ==
      if i == col && i < |t.controls| && t.controls[i] then Some(a) else t.lit[i]
  {
  }

  // ------------------------------------------------------------- smart defaults

  /** The first five body rows, as texts: the rows whose cells decide each column's type. */
  function Sample(body: seq<seq<Cell>>): (r: seq<seq<string>>)
    ensures |r| == if |body| < 5 then |body| else 5
  {
    var rows := if |body| < 5 then body else body[..5];
    seq(|rows|, k requires 0 <= k < |rows| => Texts(rows[k]))
  }

  function Texts(row: seq<Cell>): (r: seq<string>)
    ensures |r| == |row| && forall i :: 0 <= i < |row| ==> r[i] == row[i].text
  {
    seq(|row|, i requires 0 <= i < |row| => row[i].text)
  }

  /** Rows after the fifth take no part in choosing the defaults. */
  lemma SampleFirstFive(body: seq<seq<Cell>>, more: seq<seq<Cell>>)
    requires |body| >= 5
    ensures Sample(body + more) == Sample(body)
  {
    assert (body + more)[..5] == body[..5];
  }

  /** The type detected for each of the first `n` columns. */
  function TypesOf(rows: seq<seq<string>>, n: nat, parses: string -> bool): (r: seq<ColumnType>)
    ensures |r| == n && forall col :: 0 <= col < n ==> r[col] == ColumnTypeOf(rows, col, parses)
  {
    seq(n, col requires 0 <= col < n => ColumnTypeOf(rows, col, parses))
  }

  /** The map after the defaults for columns 0 .. |types| - 1, a column already in the map being skipped. */
  function DefaultMap(m: AlignMap, types: seq<ColumnType>): AlignMap {
    if types == [] then m
    else
      var n := |types| - 1;
      var p := DefaultMap(m, types[..n]);
      if n in JsMap.Keys(p) then p else JsMap.Put(p, n, DefaultFor(types[n]))
  }

  /** The styles after the same defaults, each column set with the map as it then stands. */
  function DefaultStyles(m: AlignMap, t: Table, types: seq<ColumnType>): (r: Table)
    ensures SameShape(r, t)
  {
    if types == [] then t
    else
      var n := |types| - 1;
      var p := DefaultMap(m, types[..n]);
      var s := DefaultStyles(m, t, types[..n]);
      if n in JsMap.Keys(p) then s
      else
        var s' := SetStyles(s, n, DefaultFor(types[n]), JsMap.Put(p, n, DefaultFor(types[n])));
        SameShapeTrans(s', s, t);
        s'
  }

  /** `applySmartDefaults` on the map: nothing when the body is empty. */
  function SmartMap(m: AlignMap, t: Table, parses: string -> bool): AlignMap {
    if t.body == [] then m
    else DefaultMap(m, TypesOf(Sample(t.body), Width(t.head), parses))
  }

  /** The loop of `applySmartDefaults`: each column without an alignment gets its detected default. */
  method FillDefaults(m0: AlignMap, t0: Table, parses: string -> bool) returns (m: AlignMap, t: Table)
    requires JsMap.DistinctKeys(m0) && WellShaped(t0) && t0.body != []
    ensures JsMap.DistinctKeys(m) && WellShaped(t)
    ensures m == SmartMap(m0, t0, parses) && t == SmartStyles(m0, t0, parses)
  {
    var sampleRows := Sample(t0.body);
    var n := Width(t0.head);
    ghost var types := TypesOf(sampleRows, n, parses);
    m, t := m0, t0;
    var colIndex := 0;
    while colIndex < n
      invariant colIndex <= n
      invariant m == DefaultMap(m0, types[..colIndex]) && t == DefaultStyles(m0, t0, types[..colIndex])
      invariant JsMap.DistinctKeys(m)
    {
      DefaultStep(m0, t0, types, colIndex);
      m, t := FillColumn(m, t, sampleRows, colIndex, parses);
      colIndex := colIndex + 1;
    }
    assert types[..colIndex] == types;
    SameShapeWidth(t, t0);
  }

  /** One turn of that loop: a column not yet in the map gets the default for its detected type. */
  method FillColumn(m: AlignMap, t: Table, sampleRows: seq<seq<string>>, colIndex: nat, parses: string -> bool)
    returns (m': AlignMap, t': Table)
    requires JsMap.DistinctKeys(m)
    ensures JsMap.DistinctKeys(m')
    ensures colIndex in JsMap.Keys(m) ==> m' == m && t' == t
    ensures colIndex !in JsMap.Keys(m) ==>
      var a := DefaultFor(ColumnTypeOf(sampleRows, colIndex, parses));
      m' == JsMap.Put(m, colIndex, a) && t' == SetStyles(t, colIndex, a, m')
  {
    m', t' := m, t;
    if colIndex !in JsMap.Keys(m) {
      var columnType := DetectColumnType(sampleRows, colIndex, parses);
      var a := DefaultFor(columnType);
      JsMap.PutDistinct(m, colIndex, a);
      m' := JsMap.Put(m, colIndex, a);
      t' := SetStyles(t, colIndex, a, m');
    }
  }

  /** One more column of defaults: skipped when mapped, otherwise put in the map and styled. */
  lemma DefaultStep(m: AlignMap, t: Table, types: seq<ColumnType>, k: nat)
    requires k < |types|
    ensures var p := DefaultMap(m, types[..k]);
      DefaultMap(m, types[..k + 1]) == (if k in JsMap.Keys(p) then p else JsMap.Put(p, k, DefaultFor(types[k])))
    ensures var p := DefaultMap(m, types[..k]);
      DefaultStyles(m, t, types[..k + 1]) ==
        (if k in JsMap.Keys(p) then DefaultStyles(m, t, types[..k])
         else SetStyles(DefaultStyles(m, t, types[..k]), k, DefaultFor(types[k]), JsMap.Put(p, k, DefaultFor(types[k]))))
  {
    assert types[..k + 1][..k] == types[..k];
  }

  /** `applySmartDefaults` on the styles. */
  function SmartStyles(m: AlignMap, t: Table, parses: string -> bool): Table {
    if t.body == [] then t
    else DefaultStyles(m, t, TypesOf(Sample(t.body), Width(t.head), parses))
  }

  /** The defaults never override: every column already in the map keeps its alignment, and no key appears twice. */
  lemma {:induction false} DefaultsKeep(m: AlignMap, types: seq<ColumnType>, col: nat)
    requires JsMap.DistinctKeys(m)
    ensures JsMap.DistinctKeys(DefaultMap(m, types))
    ensures col in JsMap.Keys(m) ==> JsMap.Get(DefaultMap(m, types), col) == JsMap.Get(m, col)
  {
    if types != [] {
      var n := |types| - 1;
      DefaultsKeep(m, types[..n], col);
      var p := DefaultMap(m, types[..n]);
      if n in JsMap.Keys(p) {
        assert DefaultMap(m, types) == p;
      } else {
        var a := DefaultFor(types[n]);
        assert DefaultMap(m, types) == JsMap.Put(p, n, a);
        JsMap.PutDistinct(p, n, a);
        JsMap.PutGet(p, n, a, col);
        if col in JsMap.Keys(m) {
          assert col != n;
        }
      }
    }
  }

  /**
   * Every column below |types| ends up in the map, one that was missing with
   * the default for its type; columns from |types| on are in the map only
   * if they were before.
   */
  lemma {:induction false} DefaultsFill(m: AlignMap, types: seq<ColumnType>, col: nat)
    requires JsMap.DistinctKeys(m)
    ensures col < |types| ==> col in JsMap.Keys(DefaultMap(m, types))
    ensures col < |types| && col !in JsMap.Keys(m) ==> JsMap.Get(DefaultMap(m, types), col) == Some(DefaultFor(types[col]))
    ensures col >= |types| ==> (col in JsMap.Keys(DefaultMap(m, types)) <==> col in JsMap.Keys(m))
  {
    if types != [] {
      var n := |types| - 1;
      var p := DefaultMap(m, types[..n]);
      DefaultsFill(m, types[..n], col);
      DefaultsKeep(m, types[..n], col);
      if n !in JsMap.Keys(p) {
        DefaultsFillStep(p, n, DefaultFor(types[n]), col);
      }
    }
  }

  /** One column added by the defaults. */
  lemma DefaultsFillStep(p: AlignMap, n: nat, a: Alignment, col: nat)
    requires JsMap.DistinctKeys(p) && n !in JsMap.Keys(p)
    ensures JsMap.Keys(JsMap.Put(p, n, a)) == JsMap.Keys(p) + [n]
    ensures JsMap.Get(JsMap.Put(p, n, a), col) == if col == n then Some(a) else JsMap.Get(p, col)
  {
    JsMap.PutGet(p, n, a, col);
    JsMap.PutKeys(p, n, a);
  }

  /** Once every column is in the map the defaults change nothing. */
  lemma {:induction false} DefaultsSettled(m: AlignMap, t: Table, types: seq<ColumnType>)
    requires forall col :: 0 <= col < |types| ==> col in JsMap.Keys(m)
    ensures DefaultMap(m, types) == m && DefaultStyles(m, t, types) == t
  {
    if types != [] {
      DefaultsSettled(m, t, types[..|types| - 1]);
    }
  }

  /** Applying the defaults a second time changes nothing. */
  lemma DefaultsIdempotent(m: AlignMap, t: Table, types: seq<ColumnType>)
    requires JsMap.DistinctKeys(m)
    ensures DefaultMap(DefaultMap(m, types), types) == DefaultMap(m, types)
    ensures DefaultStyles(DefaultMap(m, types), DefaultStyles(m, t, types), types) == DefaultStyles(m, t, types)
  {
    var p := DefaultMap(m, types);
    forall col | 0 <= col < |types|
      ensures col in JsMap.Keys(p)
    {
      DefaultsFill(m, types, col);
    }
    DefaultsSettled(p, DefaultStyles(m, t, types), types);
  }

  // ------------------------------------------------------------- re-applying the map

  /** The styles after the first k entries of the map have been applied again, in map order. */
  function Reapplied(t: Table, m: AlignMap, k: nat): (r: Table)
    requires k <= |m|
    ensures SameShape(r, t)
  {
    if k == 0 then t
    else
      var s := Reapplied(t, m, k - 1);
      var r := SetStyles(s, m[k - 1].0, m[k - 1].1, m);
      SameShapeTrans(r, s, t);
      r
  }

  /** The loop of `reapplyColumnAlignments`: every entry of the map, in order, set again. */
  method ReapplyAll(t0: Table, m: AlignMap) returns (t: Table)
    ensures t == Reapplied(t0, m, |m|)
  {
    t := t0;
    for k := 0 to |m|
      invariant t == Reapplied(t0, m, k)
    {
      var (colIndex, alignment) := m[k];
      t := SetStyles(t, colIndex, alignment, m);
    }
  }

  lemma GetEntry(m: AlignMap, e: nat)
    requires JsMap.DistinctKeys(m) && e < |m|
    ensures JsMap.Get(m, m[e].0) == Some(m[e].1)
  {
    var r := JsMap.Get(m, m[e].0);
    var i :| 0 <= i < |m| && m[i] == (m[e].0, r.value);
  }

  /**
   * After re-applying, every body cell of a column in the map shows the
   * column's alignment, and every body cell of a column outside the map is
   * as it was.
   */
  lemma ReappliedAgrees(t: Table, m: AlignMap, k: nat, j: nat, i: nat)
    requires JsMap.DistinctKeys(m) && k <= |m| && j < |t.body| && i < |t.body[j]|
    ensures forall e :: 0 <= e < k && m[e].0 == i ==> Reapplied(t, m, k).body[j][i] == Cell(t.body[j][i].text, Some(m[e].1))
    ensures (forall e :: 0 <= e < k ==> m[e].0 != i) ==> Reapplied(t, m, k).body[j][i] == t.body[j][i]
  {
    ReappliedCell(t, m, k, j, i);
    CellAfterAgrees(t.body[j][i], m, k, i);
  }

  /** One cell through the re-application: each entry for its column in turn sets its alignment. */
  function CellAfter(c: Cell, m: AlignMap, k: nat, i: nat): Cell
    requires k <= |m|
  {
    if k == 0 then c
    else
      var p := CellAfter(c, m, k - 1, i);
      if m[k - 1].0 == i then Cell(p.text, Some(m[k - 1].1)) else p
  }

  lemma {:induction false} ReappliedCell(t: Table, m: AlignMap, k: nat, j: nat, i: nat)
    requires k <= |m| && j < |t.body| && i < |t.body[j]|
    ensures |Reapplied(t, m, k).body[j]| == |t.body[j]|
    ensures Reapplied(t, m, k).body[j][i] == CellAfter(t.body[j][i], m, k, i)
  {
    if k == 0 {
      assert Reapplied(t, m, 0) == t;
    } else {
      ReappliedCell(t, m, k - 1, j, i);
      ReappliedCellNext(t, m, k, j, i);
    }
  }

  /** The induction step of ReappliedCell. */
  lemma ReappliedCellNext(t: Table, m: AlignMap, k: nat, j: nat, i: nat)
    requires 0 < k <= |m| && j < |t.body| && i < |t.body[j]|
    requires |Reapplied(t, m, k - 1).body[j]| == |t.body[j]|
    requires Reapplied(t, m, k - 1).body[j][i] == CellAfter(t.body[j][i], m, k - 1, i)
    ensures |Reapplied(t, m, k).body[j]| == |t.body[j]|
    ensures Reapplied(t, m, k).body[j][i] == CellAfter(t.body[j][i], m, k, i)
  {
    ReappliedCellStep(t, m, k, j, i);
    CellAfterStep(t.body[j][i], m, k, i, Reapplied(t, m, k - 1).body[j][i], Reapplied(t, m, k).body[j][i]);
  }

  /** One more entry: a cell that entry k - 1 aligns as it should, after the first k - 1 did, is as all k leave it. */
  lemma CellAfterStep(c: Cell, m: AlignMap, k: nat, i: nat, before: Cell, after: Cell)
    requires 0 < k <= |m| && before == CellAfter(c, m, k - 1, i)
    requires after == if i == m[k - 1].0 then Cell(before.text, Some(m[k - 1].1)) else before
    ensures after == CellAfter(c, m, k, i)
  {
  }

  lemma {:induction false} CellAfterAgrees(c: Cell, m: AlignMap, k: nat, i: nat)
    requires JsMap.DistinctKeys(m) && k <= |m|
    ensures CellAfter(c, m, k, i).text == c.text
    ensures forall e :: 0 <= e < k && m[e].0 == i ==> CellAfter(c, m, k, i) == Cell(c.text, Some(m[e].1))
    ensures (forall e :: 0 <= e < k ==> m[e].0 != i) ==> CellAfter(c, m, k, i) == c
  {
    if k > 0 {
      CellAfterAgrees(c, m, k - 1, i);
      forall e | 0 <= e < k && m[e].0 == i
        ensures CellAfter(c, m, k, i) == Cell(c.text, Some(m[e].1))
      {
        if e < k - 1 {
          assert m[e].0 != m[k - 1].0;
        }
      }
    }
  }

  /** Re-applying entry k - 1 aligns the body cells of its column and no others. */
  lemma ReappliedCellStep(t: Table, m: AlignMap, k: nat, j: nat, i: nat)
    requires 0 < k <= |m| && j < |t.body| && i < |t.body[j]|
    ensures |Reapplied(t, m, k - 1).body[j]| == |t.body[j]|
    ensures Reapplied(t, m, k).body[j][i] ==
      if i == m[k - 1].0 then Cell(Reapplied(t, m, k - 1).body[j][i].text, Some(m[k - 1].1)) else Reapplied(t, m, k - 1).body[j][i]
  {
    var s := Reapplied(t, m, k - 1);
    assert Reapplied(t, m, k).body == SetStyles(s, m[k - 1].0, m[k - 1].1, m).body;
    SetStylesCell(s, m[k - 1].0, m[k - 1].1, m, j, i);
  }

  /** Re-applying entry k - 1 sets the button of its column, if that header has controls, and no other. */
  lemma ReappliedLitStep(t: Table, m: AlignMap, k: nat, c: nat)
    requires JsMap.DistinctKeys(m) && 0 < k <= |m| && c < |t.lit|
    ensures |Reapplied(t, m, k - 1).lit| == |t.lit|
    ensures Reapplied(t, m, k).lit[c] ==
      if c == m[k - 1].0 && c < |t.controls| && t.controls[c] then Some(m[k - 1].1) else Reapplied(t, m, k - 1).lit[c]
  {
    var s := Reapplied(t, m, k - 1);
    assert |s.lit| == |t.lit| && s.controls == t.controls;
    assert Reapplied(t, m, k).lit == SetStyles(s, m[k - 1].0, m[k - 1].1, m).lit;
    GetEntry(m, k - 1);
    SetStylesLit(s, m[k - 1].0, m[k - 1].1, m, c);
  }

  /** After re-applying, the highlighted button of a header with controls is its column's stored alignment. */
  lemma ReappliedButtons(t: Table, m: AlignMap, k: nat, e: nat)
    requires JsMap.DistinctKeys(m) && e < k <= |m|
    requires m[e].0 < |t.lit| && m[e].0 < |t.controls| && t.controls[m[e].0]
    ensures Reapplied(t, m, k).lit[m[e].0] == Some(m[e].1)
  {
    ReappliedLit(t, m, k, m[e].0);
    LitAfterAgrees(t.lit[m[e].0], m, k, e);
  }

  /** One header's button through the re-application: each entry for its column in turn highlights it. */
  function LitAfter(l: Option<Alignment>, controlled: bool, m: AlignMap, k: nat, c: nat): Option<Alignment>
    requires k <= |m|
  {
    if k == 0 then l
    else if m[k - 1].0 == c && controlled then Some(m[k - 1].1)
    else LitAfter(l, controlled, m, k - 1, c)
  }

  lemma {:induction false} ReappliedLit(t: Table, m: AlignMap, k: nat, c: nat)
    requires JsMap.DistinctKeys(m) && k <= |m| && c < |t.lit|
    ensures |Reapplied(t, m, k).lit| == |t.lit|
    ensures Reapplied(t, m, k).lit[c] == LitAfter(t.lit[c], c < |t.controls| && t.controls[c], m, k, c)
  {
    if k == 0 {
      assert Reapplied(t, m, 0) == t;
    } else {
      ReappliedLit(t, m, k - 1, c);
      ReappliedLitNext(t, m, k, c);
    }
  }

  /** The induction step of ReappliedLit. */
  lemma ReappliedLitNext(t: Table, m: AlignMap, k: nat, c: nat)
    requires JsMap.DistinctKeys(m) && 0 < k <= |m| && c < |t.lit|
    requires |Reapplied(t, m, k - 1).lit| == |t.lit|
    requires Reapplied(t, m, k - 1).lit[c] == LitAfter(t.lit[c], c < |t.controls| && t.controls[c], m, k - 1, c)
    ensures |Reapplied(t, m, k).lit| == |t.lit|
    ensures Reapplied(t, m, k).lit[c] == LitAfter(t.lit[c], c < |t.controls| && t.controls[c], m, k, c)
  {
    ReappliedLitStep(t, m, k, c);
  }

  lemma {:induction false} LitAfterAgrees(l: Option<Alignment>, m: AlignMap, k: nat, e: nat)
    requires JsMap.DistinctKeys(m) && e < k <= |m|
    ensures LitAfter(l, true, m, k, m[e].0) == Some(m[e].1)
  {
    if k - 1 != e {
      assert m[e].0 != m[k - 1].0;
      LitAfterAgrees(l, m, k - 1, e);
    }
  }

  // ------------------------------------------------------------- the controls

  /** The alignment map, which outlives redraws of the table, and the table drawn now. */
  class AlignmentControls {
    var state: AlignMap
    var table: Table
    /** `Date.parse` reading a string as a date. */
    const parses: string -> bool

    predicate Valid()
      reads this`state, this`table
    {
      JsMap.DistinctKeys(state) && WellShaped(table)
    }

    /** A freshly drawn table, none of its headers with controls yet, and the map as it stands. */
    constructor (state0: AlignMap, head: seq<seq<Cell>>, body: seq<seq<Cell>>, parses0: string -> bool)
      requires JsMap.DistinctKeys(state0)
      ensures Valid() && state == state0 && parses == parses0
      ensures table == Table(head, body, seq(Width(head), _ => false), seq(Width(head), _ => None))
    {
      state, parses := state0, parses0;
      table := Table(head, body, seq(Width(head), _ => false), seq(Width(head), _ => None));
    }

    /** `setColumnAlignment`, the click on a button: that column, and only it, takes the alignment. */
    method SetColumnAlignment(colIndex: nat, alignment: Alignment)
      requires Valid()
      modifies this`state, this`table
      ensures Valid()
      ensures forall col :: JsMap.Get(state, col) == if col == colIndex then Some(alignment) else JsMap.Get(old(state), col)
      ensures state == JsMap.Put(old(state), colIndex, alignment)
      ensures table == SetStyles(old(table), colIndex, alignment, state)
    {
      var m := JsMap.Put(state, colIndex, alignment);
      forall col
        ensures JsMap.Get(m, col) == if col == colIndex then Some(alignment) else JsMap.Get(state, col)
      {
        JsMap.PutGet(state, colIndex, alignment, col);
      }
      JsMap.PutDistinct(state, colIndex, alignment);
      var t := SetStyles(table, colIndex, alignment, m);
      SameShapeWidth(t, table);
      state, table := m, t;
    }

    /**
     * `applySmartDefaults`: for every header of the first header row whose
     * column has no alignment yet, the default for the type detected in the
     * first five body rows; nothing when the body is empty.
     */
    method ApplySmartDefaults()
      requires Valid()
      modifies this`state, this`table
      ensures Valid()
      ensures state == SmartMap(old(state), old(table), parses) && table == SmartStyles(old(state), old(table), parses)
    {
      if table.body == [] {
        return;
      }
      var m, t := FillDefaults(state, table, parses);
      state, table := m, t;
    }

    /**
     * `initColumnAlignment`: false without a header row; otherwise every
     * header of the first row gets controls (unless it has them) and the
     * smart defaults are applied.
     */
    method Init() returns (ok: bool)
      requires Valid()
      modifies this`state, this`table
      ensures Valid()
      ensures ok <==> old(table).head != []
      ensures !ok ==> state == old(state) && table == old(table)
      ensures ok ==> var withControls := old(table).(controls := seq(Width(old(table).head), _ => true));
        state == SmartMap(old(state), withControls, parses) && table == SmartStyles(old(state), withControls, parses)
    {
      if table.head == [] {
        return false;
      }
      table := table.(controls := seq(Width(table.head), _ => true));
      ApplySmartDefaults();
      return true;
    }

    /** `reapplyColumnAlignments`: every stored alignment applied again, the map unchanged. */
    method ReapplyColumnAlignments()
      requires Valid()
      modifies this`table
      ensures Valid()
      ensures table == Reapplied(old(table), state, |state|)
    {
      var t := ReapplyAll(table, state);
      SameShapeWidth(t, old(table));
      table := t;
    }

    /** `clearColumnAlignments`: the map emptied and every cell's alignment removed; the buttons stay as they were. */
    method ClearColumnAlignments()
      requires Valid()
      modifies this`state, this`table
      ensures Valid()
      ensures state == [] && table == Cleared(old(table))
    {
      var t := Cleared(table);
      SameShapeWidth(t, table);
      state, table := [], t;
    }
  }
}
