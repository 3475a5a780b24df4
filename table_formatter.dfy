/**
 * The table formatter: number formats (with per-column overrides that are
 * spread over the base format), conditional-formatting rules applied to a
 * cell, the settings object with its update, reset, import and export, and
 * the persisted copy of the settings.
 *
 * The digit bodies (`toLocaleString`, `Intl.NumberFormat`, `toFixed`,
 * `toExponential`) are locale- and float-dependent and are passed in as
 * `Natives`; only what the formatter wraps around them is modelled.
 */
module TableFormatter {
  import opened Wrappers
  import JsText
  import JsNumber
  import SeqOps

  // ------------------------------------------------------------ formats

  /** `settings.numberFormat`; `kind` is the `type` string. */
  datatype NumberFormat = NumberFormat(
    kind: string, currency: string, decimals: nat, thousandsSeparator: bool,
    negativeNumbers: string, prefix: string, suffix: string)

  /** A stored per-column `numberFormat`: the keys it sets. */
  datatype FormatPatch = FormatPatch(
    kind: Option<string>, currency: Option<string>, decimals: Option<nat>,
    thousandsSeparator: Option<bool>, negativeNumbers: Option<string>,
    prefix: Option<string>, suffix: Option<string>)

  function DefaultNumberFormat(): NumberFormat {
    NumberFormat("auto", "USD", 2, true, "parentheses", "", "")
  }

  const NoPatch := FormatPatch(None, None, None, None, None, None, None)

  /** The patch that sets every key of f. */
  function FullFormatPatch(f: NumberFormat): FormatPatch {
    FormatPatch(Some(f.kind), Some(f.currency), Some(f.decimals), Some(f.thousandsSeparator),
      Some(f.negativeNumbers), Some(f.prefix), Some(f.suffix))
  }

  /** `{ ...base, ...p }`. */
  function MergeFormat(base: NumberFormat, p: FormatPatch): NumberFormat {
    NumberFormat(p.kind.GetOr(base.kind), p.currency.GetOr(base.currency), p.decimals.GetOr(base.decimals),
      p.thousandsSeparator.GetOr(base.thousandsSeparator), p.negativeNumbers.GetOr(base.negativeNumbers),
      p.prefix.GetOr(base.prefix), p.suffix.GetOr(base.suffix))
  }

  function Later<T>(a: Option<T>, b: Option<T>): Option<T> {
    if b.Some? then b else a
  }

  /** `{ ...p, ...q }` on two patches. */
  function ComposePatch(p: FormatPatch, q: FormatPatch): FormatPatch {
    FormatPatch(Later(p.kind, q.kind), Later(p.currency, q.currency), Later(p.decimals, q.decimals),
      Later(p.thousandsSeparator, q.thousandsSeparator), Later(p.negativeNumbers, q.negativeNumbers),
      Later(p.prefix, q.prefix), Later(p.suffix, q.suffix))
  }

  /** Spreading nothing keeps the base; spreading a complete format replaces it. */
  lemma MergeNeutral(base: NumberFormat, f: NumberFormat)
    ensures MergeFormat(base, NoPatch) == base
    ensures MergeFormat(base, FullFormatPatch(f)) == f
  {
  }

  /** Two spreads in a row are one spread of the composed patch, and repeating a spread changes nothing. */
  lemma MergeAssociative(base: NumberFormat, p: FormatPatch, q: FormatPatch)
    ensures MergeFormat(MergeFormat(base, p), q) == MergeFormat(base, ComposePatch(p, q))
    ensures MergeFormat(MergeFormat(base, p), p) == MergeFormat(base, p)
  {
  }

  /** The lookup key: a truthy column name, else the index as a decimal string, else none. */
  function ColumnKey(columnIndex: Option<nat>, columnName: Option<string>): (r: Option<string>)
    ensures columnName.Some? && columnName.value != "" ==> r == columnName
    ensures (columnName.None? || columnName.value == "") ==>
      (r.Some? <==> columnIndex.Some?)
    ensures (columnName.None? || columnName.value == "") && columnIndex.Some? ==>
      r == Some(JsNumber.ShowNat(columnIndex.value))
  {
    if columnName.Some? && columnName.value != "" then columnName
    else if columnIndex.Some? then Some(JsNumber.ShowNat(columnIndex.value))
    else None
  }

  /** The format formatNumber uses: the custom or base format, with the column's override spread over it. */
  function EffectiveFormat(base: NumberFormat, customFormat: Option<NumberFormat>, columns: map<string, FormatPatch>,
                           columnIndex: Option<nat>, columnName: Option<string>): (r: NumberFormat)
    ensures var f := customFormat.GetOr(base); var key := ColumnKey(columnIndex, columnName);
      (key.None? || key.value !in columns ==> r == f)
      && (key.Some? && key.value in columns ==> r == MergeFormat(f, columns[key.value]))
  {
    var f := customFormat.GetOr(base);
    var key := ColumnKey(columnIndex, columnName);
    if key.Some? && key.value in columns then MergeFormat(f, columns[key.value]) else f
  }

  // ------------------------------------------------------- number bodies

  /** The engine's locale and float formatting, uninterpreted. */
  datatype Natives = Natives(
    grouped: (real, nat, bool) -> string,            // toLocaleString('en-US', {decimals, useGrouping}) of a magnitude
    currency: (real, string, nat, bool) -> Option<string>,  // Intl currency format; None when it throws
    percent: (real, nat, bool) -> Option<string>,     // Intl percent format; None when it throws
    toFixed: (real, nat) -> string,
    toExponential: (real, nat) -> string)

  function Abs(x: real): real { if x < 0.0 then -x else x }

  /** `formatRegularNumber`: the magnitude's digits, then the sign style for negatives. */
  function FormatRegular(x: real, f: NumberFormat, n: Natives): string {
    var body := n.grouped(Abs(x), f.decimals, f.thousandsSeparator);
    if x < 0.0 then
      if f.negativeNumbers == "parentheses" then "(" + body + ")" else "-" + body
    else body
  }

  /** `formatAccounting`: negatives in parentheses, others padded by one space each side. */
  function FormatAccounting(x: real, f: NumberFormat, n: Natives): (r: string)
    ensures |r| == |n.grouped(Abs(x), f.decimals, f.thousandsSeparator)| + 2
    ensures r[1..|r| - 1] == n.grouped(Abs(x), f.decimals, f.thousandsSeparator)
    ensures (r[0] == '(' <==> x < 0.0) && (r[|r| - 1] == ')' <==> x < 0.0)
  {
    var body := n.grouped(Abs(x), f.decimals, f.thousandsSeparator);
    if x < 0.0 then "(" + body + ")" else " " + body + " "
  }

  /**
   * `formatCurrency`: the Intl currency text; when Intl throws (an unknown
   * currency code, say) the regular number text, with no currency symbol.
   */
  function FormatCurrency(x: real, f: NumberFormat, n: Natives): (r: string)
    ensures n.currency(x, f.currency, f.decimals, f.thousandsSeparator).Some? ==> r == n.currency(x, f.currency, f.decimals, f.thousandsSeparator).value
    ensures n.currency(x, f.currency, f.decimals, f.thousandsSeparator).None? && x >= 0.0 ==> r == n.grouped(x, f.decimals, f.thousandsSeparator)
    ensures n.currency(x, f.currency, f.decimals, f.thousandsSeparator).None? && x < 0.0 ==>
      r == (if f.negativeNumbers == "parentheses" then "(" else "-") + n.grouped(-x, f.decimals, f.thousandsSeparator) + (if f.negativeNumbers == "parentheses" then ")" else "")
  {
    var r := n.currency(x, f.currency, f.decimals, f.thousandsSeparator);
    if r.Some? then r.value else FormatRegular(x, f, n)
  }

  /**
   * `formatPercentage`: Intl's percent style of x / 100, which reads as x
   * followed by '%'; when Intl throws, `toFixed` of x * 100 followed by '%',
   * a value 10 000 times larger.
   */
  function FormatPercentage(x: real, f: NumberFormat, n: Natives): (r: string)
    ensures n.percent(x / 100.0, f.decimals, f.thousandsSeparator).Some? ==> r == n.percent(x / 100.0, f.decimals, f.thousandsSeparator).value
    ensures n.percent(x / 100.0, f.decimals, f.thousandsSeparator).None? ==> |r| > 0 && r[..|r| - 1] == n.toFixed(x * 100.0, f.decimals) && r[|r| - 1] == '%'
  {
    var r := n.percent(x / 100.0, f.decimals, f.thousandsSeparator);
    if r.Some? then r.value else n.toFixed(x * 100.0, f.decimals) + "%"
  }

  /** The `switch (format.type)` of formatNumber; unknown types format as regular numbers. */
  function FormatBody(x: real, f: NumberFormat, n: Natives): string {
    if f.kind == "currency" then FormatCurrency(x, f, n)
    else if f.kind == "percentage" then FormatPercentage(x, f, n)
    else if f.kind == "accounting" then FormatAccounting(x, f, n)
    else if f.kind == "scientific" then n.toExponential(x, f.decimals)
    else FormatRegular(x, f, n)
  }

  /** Negatives differ from their magnitude only by the sign style. */
  lemma RegularSignSymmetry(x: real, f: NumberFormat, n: Natives)
    requires x > 0.0
    ensures f.negativeNumbers == "parentheses" ==> FormatRegular(-x, f, n) == "(" + FormatRegular(x, f, n) + ")"
    ensures f.negativeNumbers != "parentheses" ==> FormatRegular(-x, f, n) == "-" + FormatRegular(x, f, n)
  {
  }

  /** Accounting keeps x and -x the same width, with the same digits between the delimiters. */
  lemma AccountingAligned(x: real, f: NumberFormat, n: Natives)
    ensures |FormatAccounting(x, f, n)| == |FormatAccounting(-x, f, n)|
    ensures x != 0.0 ==> FormatAccounting(x, f, n)[1..|FormatAccounting(x, f, n)| - 1]
                         == FormatAccounting(-x, f, n)[1..|FormatAccounting(-x, f, n)| - 1]
  {
  }

  /** A formatter input: null, undefined or a string or number. */
  datatype Value = Missing | Text(s: string) | Num(x: real)

  /** `parseFloat(value.replace(/[,$%]/g, ''))` for strings, the number itself otherwise. */
  function NumericValue(v: Value): Option<real>
    requires !v.Missing?
  {
    if v.Text? then JsNumber.ParseFloat(JsText.Remove(v.s, {',', '$', '%'})) else Some(v.x)
  }

  /** `formatNumber`, with the formatter's settings passed in. */
  function FormatNumberWith(v: Value, columnIndex: Option<nat>, customFormat: Option<NumberFormat>, columnName: Option<string>,
                        base: NumberFormat, columns: map<string, FormatPatch>, n: Natives): (r: string)
    ensures v.Missing? || v == Text("") ==> r == ""
    ensures v.Text? && v.s != "" && NumericValue(v).None? ==> r == v.s
    ensures !v.Missing? && v != Text("") && NumericValue(v).Some? ==>
      var f := EffectiveFormat(base, customFormat, columns, columnIndex, columnName);
      |r| >= |f.prefix| + |f.suffix| && r[..|f.prefix|] == f.prefix && r[|r| - |f.suffix|..] == f.suffix
  {
    if v.Missing? || v == Text("") then ""
    else
      var f := EffectiveFormat(base, customFormat, columns, columnIndex, columnName);
      var x := NumericValue(v);
      if x.None? then v.s
      else
        var r := f.prefix + FormatBody(x.value, f, n) + f.suffix;
        assert r[..|f.prefix|] == f.prefix;
        r
  }

  /** A column's stored override decides the keys it sets, whatever the base format says. */
  lemma ColumnOverrideWins(v: Value, columnIndex: Option<nat>, customFormat: Option<NumberFormat>, columnName: Option<string>,
                           base: NumberFormat, columns: map<string, FormatPatch>, n: Natives, key: string)
    requires ColumnKey(columnIndex, columnName) == Some(key) && key in columns
    requires columns[key].prefix.Some? && columns[key].suffix.Some?
    requires !v.Missing? && v != Text("") && NumericValue(v).Some?
    ensures var r := FormatNumberWith(v, columnIndex, customFormat, columnName, base, columns, n);
      var p := columns[key].prefix.value; var s := columns[key].suffix.value;
      |r| >= |p| + |s| && r[..|p|] == p && r[|r| - |s|..] == s
  {
  }

  // ------------------------------------------------ cells read as numbers

  /** `parseFloat(text.replace(/[,$%]/g, '') || 0)`; None is NaN. */
  function CellNumber(text: string): Option<real> {
    var u := JsText.Remove(text, {',', '$', '%'});
    if u == "" then Some(0.0) else JsNumber.ParseFloat(u)
  }

  lemma {:induction false} RemoveKeepsFirst(c: char, rest: string)
    requires c !in {',', '$', '%'}
    ensures JsText.Remove([c] + rest, {',', '$', '%'}) == [c] + JsText.Remove(rest, {',', '$', '%'})
  {
    assert ([c] + rest)[1..] == rest;
  }

  /** A cell that starts with anything other than white space, a sign, a point or a digit reads as NaN. */
  lemma LeadingSymbolIsNaN(c: char, rest: string)
    requires !JsText.IsSpace(c) && !JsNumber.IsDigit(c) && c !in {'+', '-', '.', ',', '$', '%'}
    ensures CellNumber([c] + rest) == None
  {
    RemoveKeepsFirst(c, rest);
    var u := [c] + JsText.Remove(rest, {',', '$', '%'});
    assert u[0] == c;
    assert JsText.TrimStart(u) == u;
    assert JsNumber.DigitRun(u) == 0;
  }

  /**
   * A negative number written in parentheses, the default sign style, reads
   * back as NaN when the cell is parsed for conditional formatting.
   */
  lemma ParenthesizedNegativeIsNaN(x: real, f: NumberFormat, n: Natives)
    requires x < 0.0
    requires f.kind == "accounting" || (f.kind !in {"currency", "percentage", "scientific"} && f.negativeNumbers == "parentheses")
    ensures CellNumber(FormatBody(x, f, n)) == None
  {
    var body := n.grouped(Abs(x), f.decimals, f.thousandsSeparator);
    assert FormatBody(x, f, n) == ['('] + (body + ")");
    LeadingSymbolIsNaN('(', body + ")");
  }

  // --------------------------------------------------- conditional rules

  /** A rule's `condition` string; `OtherCondition` is any string the switch does not name. */
  datatype Condition = GreaterThan | LessThan | EqualTo | Between | Top10 | Bottom10 | OtherCondition(name: string)

  /** A rule's `type` string. */
  datatype RuleKind = BackgroundColor | TextColor | DataBar | ColorScale | IconSet | OtherKind(name: string)

  /** One conditional-formatting rule; `columnIndex` None is a null column (every column). */
  datatype Rule = Rule(
    columnIndex: Option<nat>, condition: Condition, value: real, minValue: real, maxValue: real,
    kind: RuleKind, color: string, icon: string)

  /** `meetsCondition`; a NaN value (None) fails every comparison. */
  function MeetsCondition(value: Option<real>, rule: Rule): (r: bool)
    ensures value.None? ==> !r
    ensures rule.condition.Top10? || rule.condition.Bottom10? || rule.condition.OtherCondition? ==> !r
  {
    if value.None? then false
    else
      match rule.condition
      case GreaterThan => value.value > rule.value
      case LessThan => value.value < rule.value
      case EqualTo => value.value == rule.value
      case Between => rule.minValue <= value.value <= rule.maxValue
      case _ => false
  }

  /**
   * The comparisons as a reference: greaterThan and lessThan are strict and
   * exclude equality, and between is exactly "neither below min nor above
   * max", inclusive at both ends.
   */
  lemma ConditionsAgree(v: real, rule: Rule)
    ensures var gt := rule.(condition := GreaterThan); var lt := rule.(condition := LessThan);
      var eq := rule.(condition := EqualTo);
      (MeetsCondition(Some(v), eq) ==> !MeetsCondition(Some(v), gt) && !MeetsCondition(Some(v), lt))
      && (!MeetsCondition(Some(v), gt) && !MeetsCondition(Some(v), lt) ==> MeetsCondition(Some(v), eq))
    ensures var bt := rule.(condition := Between);
      MeetsCondition(Some(v), bt) <==>
        !MeetsCondition(Some(v), rule.(condition := LessThan, value := rule.minValue))
        && !MeetsCondition(Some(v), rule.(condition := GreaterThan, value := rule.maxValue))
  {
  }

  /** A Math.min of a JavaScript number with 100, where the quotient may be infinite or NaN. */
  datatype Pct = Finite(p: real) | NegInfinity | NotANumber

  /** `Math.min((value / rule.maxValue) * 100, 100)`. */
  function DataBarPercent(value: Option<real>, maxValue: real): (r: Pct)
    ensures r.Finite? ==> r.p <= 100.0
    ensures value.None? ==> r == NotANumber
    ensures value.Some? && maxValue != 0.0 ==> r.Finite?
    ensures value.Some? && maxValue != 0.0 && value.value / maxValue * 100.0 <= 100.0 ==>
      r == Finite(value.value / maxValue * 100.0)
  {
    if value.None? then NotANumber
    else if maxValue == 0.0 then
      if value.value > 0.0 then Finite(100.0) else if value.value < 0.0 then NegInfinity else NotANumber
    else
      var q := value.value / maxValue * 100.0;
      Finite(if q < 100.0 then q else 100.0)
  }

  /** With a positive maximum the bar grows with the value. */
  lemma DataBarMonotone(v: real, w: real, maxValue: real)
    requires maxValue > 0.0 && v <= w
    ensures DataBarPercent(Some(v), maxValue).p <= DataBarPercent(Some(w), maxValue).p
  {
    assert v / maxValue <= w / maxValue;
  }

  /** How the percentage prints inside the gradient: `show` is Number-to-string for finite values. */
  function PctText(p: Pct, show: real -> string): string {
    match p
    case Finite(x) => show(x)
    case NegInfinity => "-Infinity"
    case NotANumber => "NaN"
  }

  function Gradient(color: string, pt: string): string {
    "linear-gradient(to right, " + color + " " + pt + "%, transparent " + pt + "%)"
  }

  /** A table cell: the icons inserted before its text, its text, and its inline style. */
  datatype Element = Element(icons: seq<string>, text: string, style: map<string, string>)

  /** `element.textContent`: inserted icons come first. */
  function TextContent(e: Element): string {
    JsText.Join(e.icons, "") + e.text
  }

  /** `applyFormattingRule`; the data bar draws from barValue. */
  function ApplyRule(e: Element, rule: Rule, barValue: Option<real>, show: real -> string): (r: Element)
    ensures r.text == e.text
    ensures rule.kind == IconSet ==> r.icons == [rule.icon] + e.icons
    ensures rule.kind != IconSet ==> r.icons == e.icons
    ensures rule.kind == DataBar ==> r.style == e.style["position" := "relative"]
      ["background" := Gradient(rule.color, PctText(DataBarPercent(barValue, rule.maxValue), show))]
    ensures rule.kind.OtherKind? ==> r == e
  {
    match rule.kind
    case BackgroundColor => e.(style := e.style["backgroundColor" := rule.color])
    case ColorScale => e.(style := e.style["backgroundColor" := rule.color])
    case TextColor => e.(style := e.style["color" := rule.color])
    case DataBar =>
      var pct := DataBarPercent(barValue, rule.maxValue);
      e.(style := e.style["position" := "relative"]["background" := Gradient(rule.color, PctText(pct, show))])
    case IconSet => e.(icons := [rule.icon] + e.icons)
    case OtherKind(_) => e
  }

  /** `rule.columnIndex === null || rule.columnIndex === columnIndex`. */
  predicate Selected(rule: Rule, columnIndex: nat) {
    rule.columnIndex.None? || rule.columnIndex.value == columnIndex
  }

  /** The rules folded over the cell in order, each reading the cell's value v fixed before the first rule. */
  function ConditionalFrom(e: Element, rules: seq<Rule>, v: Option<real>, columnIndex: nat, show: real -> string): (r: Element)
    ensures r.text == e.text
    decreases |rules|
  {
    if rules == [] then e
    else
      var prev := ConditionalFrom(e, rules[..|rules| - 1], v, columnIndex, show);
      var rule := rules[|rules| - 1];
      if Selected(rule, columnIndex) && MeetsCondition(v, rule) then ApplyRule(prev, rule, v, show) else prev
  }

  /** `applyConditionalFormatting`, with the data bar drawn from the value the rules are matched against. */
  function Conditional(e: Element, rules: seq<Rule>, columnIndex: nat, show: real -> string): Element {
    ConditionalFrom(e, rules, CellNumber(TextContent(e)), columnIndex, show)
  }

  /** A cell that does not parse as a number is left alone. */
  lemma {:induction false} ConditionalNaN(e: Element, rules: seq<Rule>, columnIndex: nat, show: real -> string)
    ensures ConditionalFrom(e, rules, None, columnIndex, show) == e
    decreases |rules|
  {
    if rules != [] {
      ConditionalNaN(e, rules[..|rules| - 1], columnIndex, show);
    }
  }

  /** The rule filter for one column, as a function value. */
  function SelectorFor(columnIndex: nat): Rule -> bool {
    rule => Selected(rule, columnIndex)
  }

  /** Rules bound to other columns have no effect: only the selected rules matter. */
  lemma {:induction false} ConditionalSelects(e: Element, rules: seq<Rule>, v: Option<real>, columnIndex: nat, show: real -> string)
    ensures ConditionalFrom(e, rules, v, columnIndex, show)
         == ConditionalFrom(e, SeqOps.Filter(rules, SelectorFor(columnIndex)), v, columnIndex, show)
    decreases |rules|
  {
    if rules != [] {
      var init := rules[..|rules| - 1];
      var last := rules[|rules| - 1];
      var sel := SelectorFor(columnIndex);
      ConditionalSelects(e, init, v, columnIndex, show);
      assert rules == init + [last];
      SeqOps.FilterAppendOne(init, last, sel);
      var fi := SeqOps.Filter(init, sel);
      assert sel(last) == Selected(last, columnIndex);
      ConditionalLast(e, init, last, v, columnIndex, show);
      if Selected(last, columnIndex) {
        assert SeqOps.Filter(rules, sel) == fi + [last];
        ConditionalLast(e, fi, last, v, columnIndex, show);
      } else {
        assert SeqOps.Filter(rules, sel) == fi;
      }
    }
  }

  /** One more rule at the end: applied when it is selected and met. */
  lemma ConditionalLast(e: Element, init: seq<Rule>, last: Rule, v: Option<real>, columnIndex: nat, show: real -> string)
    ensures ConditionalFrom(e, init + [last], v, columnIndex, show) ==
      (if Selected(last, columnIndex) && MeetsCondition(v, last)
       then ApplyRule(ConditionalFrom(e, init, v, columnIndex, show), last, v, show)
       else ConditionalFrom(e, init, v, columnIndex, show))
  {
    assert (init + [last])[..|init|] == init;
  }

  /** The method form: the forEach over the rules, mutating the cell. */
  method ApplyConditionalFormatting(e: Element, rules: seq<Rule>, columnIndex: nat, show: real -> string) returns (r: Element)
    ensures r == Conditional(e, rules, columnIndex, show)
  {
    var value := CellNumber(TextContent(e));
    r := e;
    var i := 0;
    while i < |rules|
      invariant 0 <= i <= |rules|
      invariant r == ConditionalFrom(e, rules[..i], value, columnIndex, show)
    {
      var rule := rules[i];
      assert rules[..i + 1][..i] == rules[..i];
      if Selected(rule, columnIndex) && MeetsCondition(value, rule) {
        r := ApplyRule(r, rule, value, show);
      }
      i := i + 1;
    }
    assert rules[..|rules|] == rules;
  }

  /** The fold as written: the data bar re-reads the cell's current text, icons included. */
  function ConditionalAsWrittenFrom(e: Element, rules: seq<Rule>, v: Option<real>, columnIndex: nat, show: real -> string): Element
    decreases |rules|
  {
    if rules == [] then e
    else
      var prev := ConditionalAsWrittenFrom(e, rules[..|rules| - 1], v, columnIndex, show);
      var rule := rules[|rules| - 1];
      if Selected(rule, columnIndex) && MeetsCondition(v, rule) then ApplyRule(prev, rule, CellNumber(TextContent(prev)), show)
      else prev
  }

  function ConditionalAsWritten(e: Element, rules: seq<Rule>, columnIndex: nat, show: real -> string): Element {
    ConditionalAsWrittenFrom(e, rules, CellNumber(TextContent(e)), columnIndex, show)
  }

  /** Without icon rules the two folds agree: the text the data bar reads has not changed. */
  lemma {:induction false} AsWrittenAgreesWithoutIcons(e: Element, rules: seq<Rule>, v: Option<real>, columnIndex: nat, show: real -> string)
    requires v == CellNumber(TextContent(e))
    requires forall k :: 0 <= k < |rules| ==> rules[k].kind != IconSet
    ensures ConditionalAsWrittenFrom(e, rules, v, columnIndex, show) == ConditionalFrom(e, rules, v, columnIndex, show)
    ensures ConditionalFrom(e, rules, v, columnIndex, show).icons == e.icons
    decreases |rules|
  {
    if rules != [] {
      AsWrittenAgreesWithoutIcons(e, rules[..|rules| - 1], v, columnIndex, show);
    }
  }

  /** A cell of plain digits reads as their decimal value. */
  lemma DigitsCellParses(s: string)
    requires s != [] && JsNumber.AllDigits(s)
    ensures CellNumber(s) == Some(JsNumber.DigitsValue(s) as real)
  {
    JsText.RemoveNone(s, {',', '$', '%'});
    JsNumber.ParseFloatDigits(s);
  }

  /** A one-digit cell reads as its digit. */
  lemma DigitCellParses(d: char)
    requires JsNumber.IsDigit(d)
    ensures CellNumber([d]) == Some((d as int - '0' as int) as real)
  {
    JsNumber.OneDigitValue([d]);
    DigitsCellParses([d]);
  }

  /** One more rule at the end of the fold. */
  lemma FoldSnoc(e: Element, init: seq<Rule>, last: Rule, v: Option<real>, columnIndex: nat, show: real -> string)
    ensures var prev := ConditionalFrom(e, init, v, columnIndex, show);
      ConditionalFrom(e, init + [last], v, columnIndex, show)
      == if Selected(last, columnIndex) && MeetsCondition(v, last) then ApplyRule(prev, last, v, show) else prev
    ensures var prev := ConditionalAsWrittenFrom(e, init, v, columnIndex, show);
      ConditionalAsWrittenFrom(e, init + [last], v, columnIndex, show)
      == if Selected(last, columnIndex) && MeetsCondition(v, last) then ApplyRule(prev, last, CellNumber(TextContent(prev)), show) else prev
  {
    assert (init + [last])[..|init|] == init;
  }

  function IconRule(c: char): Rule {
    Rule(None, GreaterThan, -1.0, 0.0, 0.0, IconSet, "", [c])
  }

  function BarRule(): Rule {
    Rule(None, GreaterThan, -1.0, 0.0, 20.0, DataBar, "green", "")
  }

  /** Both folds reach the icon-then-bar cell through the same icon step. */
  lemma IconThenBarSteps(c: char, d: char, show: real -> string)
    requires !JsText.IsSpace(c) && !JsNumber.IsDigit(c) && c !in {'+', '-', '.', ',', '$', '%'}
    requires JsNumber.IsDigit(d)
    ensures var e := Element([], [d], map[]); var e1 := Element([[c]], [d], map[]);
      var v := Some((d as int - '0' as int) as real);
      ConditionalAsWritten(e, [IconRule(c), BarRule()], 0, show) == ApplyRule(e1, BarRule(), None, show)
      && Conditional(e, [IconRule(c), BarRule()], 0, show) == ApplyRule(e1, BarRule(), v, show)
  {
    var e := Element([], [d], map[]);
    var icon := IconRule(c);
    var bar := BarRule();
    var v := Some((d as int - '0' as int) as real);
    DigitCellParses(d);
    assert TextContent(e) == [d];
    var e1 := Element([[c]], [d], map[]);
    FoldSnoc(e, [], icon, v, 0, show);
    assert [] + [icon] == [icon];
    FoldSnoc(e, [icon], bar, v, 0, show);
    assert [icon] + [bar] == [icon, bar];
    assert TextContent(e1) == [c] + [d];
    LeadingSymbolIsNaN(c, [d]);
  }

  /** The bar rule draws the string of its percentage of 20 as the green background. */
  lemma BarBackground(e: Element, v: Option<real>, show: real -> string)
    ensures var r := ApplyRule(e, BarRule(), v, show);
      "background" in r.style && r.style["background"] == Gradient("green", PctText(DataBarPercent(v, 20.0), show))
  {
  }

  /** The digit's share of the maximum 20 is below 100, so it is drawn as it is. */
  lemma DigitShare(d: char, show: real -> string)
    requires JsNumber.IsDigit(d)
    ensures var x := (d as int - '0' as int) as real;
      PctText(DataBarPercent(Some(x), 20.0), show) == show(x / 20.0 * 100.0)
  {
    var x := (d as int - '0' as int) as real;
    assert x <= 9.0;
    assert DataBarPercent(Some(x), 20.0) == Finite(x / 20.0 * 100.0);
  }

  /**
   * An icon rule followed by a data-bar rule on a one-digit cell, such as the
   * icon "\U{25B2}" on the cell "5": as written, the bar reads the icon and
   * the digit together and the gradient it assigns reads NaN%, a value the
   * browser rejects, so no bar is drawn; the corrected fold draws the
   * digit's share of the maximum 20.
   */
  lemma DataBarAfterIconCounterexample(c: char, d: char, show: real -> string)
    requires !JsText.IsSpace(c) && !JsNumber.IsDigit(c) && c !in {'+', '-', '.', ',', '$', '%'}
    requires JsNumber.IsDigit(d)
    ensures var e := Element([], [d], map[]);
      var v := (d as int - '0' as int) as real;
      var asWritten := ConditionalAsWritten(e, [IconRule(c), BarRule()], 0, show);
      var corrected := Conditional(e, [IconRule(c), BarRule()], 0, show);
      "background" in asWritten.style && asWritten.style["background"] == Gradient("green", "NaN")
      && "background" in corrected.style && corrected.style["background"] == Gradient("green", show(v / 20.0 * 100.0))
  {
    var e1 := Element([[c]], [d], map[]);
    var x := (d as int - '0' as int) as real;
    IconThenBarSteps(c, d, show);
    BarBackground(e1, None, show);
    BarBackground(e1, Some(x), show);
    DigitShare(d, show);
  }

  // ------------------------------------------------------------ settings

  datatype Styling = Styling(
    fontFamily: string, fontSize: string, fontWeight: string, fontStyle: string, textAlign: string,
    verticalAlign: Option<string>, textColor: string, backgroundColor: string, padding: string,
    borderBottom: Option<string>)

  datatype RowFormatting = RowFormatting(
    alternatingRows: bool, evenRowColor: string, oddRowColor: string, hoverColor: string,
    rowHeight: string, rowBorder: string)

  datatype TableStructure = TableStructure(
    borderCollapse: string, tableLayout: string, gridLines: bool, outerBorder: bool,
    borderColor: string, borderWidth: string, borderStyle: string)

  datatype ConditionalSettings = ConditionalSettings(enabled: bool, rules: seq<Rule>)

  /**
   * The settings object. The defaults' literal names `columnFormatting`
   * twice; the later `{ columns: {} }` is the one that survives, so the
   * column map is all there is of it.
   */
  datatype Settings = Settings(
    numberFormat: NumberFormat, cellStyling: Styling, headerStyling: Styling,
    rowFormatting: RowFormatting, tableStructure: TableStructure,
    conditionalFormatting: ConditionalSettings, columns: map<string, FormatPatch>)

  /** A top-level spread source: the sections it sets. */
  datatype SettingsPatch = SettingsPatch(
    numberFormat: Option<NumberFormat>, cellStyling: Option<Styling>, headerStyling: Option<Styling>,
    rowFormatting: Option<RowFormatting>, tableStructure: Option<TableStructure>,
    conditionalFormatting: Option<ConditionalSettings>, columns: Option<map<string, FormatPatch>>)

  function Defaults(): Settings {
    Settings(
      DefaultNumberFormat(),
      Styling("inherit", "13px", "normal", "normal", "left", Some("middle"), "inherit", "transparent", "8px 12px", None),
      Styling("inherit", "13px", "500", "normal", "left", None, "inherit", "#f8f8f8", "8px 12px", Some("1px solid #e0e0e0")),
      RowFormatting(true, "#fafafa", "transparent", "#f5f8fa", "auto", "none"),
      TableStructure("collapse", "auto", true, true, "#e0e0e0", "1px", "solid"),
      ConditionalSettings(false, []),
      map[])
  }

  /** The patch that sets every section: what JSON.stringify of the settings stores. */
  function FullPatch(s: Settings): SettingsPatch {
    SettingsPatch(Some(s.numberFormat), Some(s.cellStyling), Some(s.headerStyling), Some(s.rowFormatting),
      Some(s.tableStructure), Some(s.conditionalFormatting), Some(s.columns))
  }

  /** `{ ...s, ...p }`: each section p sets is replaced whole. */
  function MergeSettings(s: Settings, p: SettingsPatch): Settings {
    Settings(p.numberFormat.GetOr(s.numberFormat), p.cellStyling.GetOr(s.cellStyling),
      p.headerStyling.GetOr(s.headerStyling), p.rowFormatting.GetOr(s.rowFormatting),
      p.tableStructure.GetOr(s.tableStructure), p.conditionalFormatting.GetOr(s.conditionalFormatting),
      p.columns.GetOr(s.columns))
  }

  /** Spreading a complete copy replaces; spreading a copy of the settings themselves changes nothing. */
  lemma MergeFull(s: Settings, t: Settings)
    ensures MergeSettings(s, FullPatch(t)) == t
    ensures MergeSettings(s, FullPatch(s)) == s
  {
  }

  /** What the constructor ends with: the defaults, with the stored copy spread over them. */
  function Loaded(storage: Option<SettingsPatch>): (r: Settings)
    ensures storage.None? ==> r == Defaults()
    ensures storage.Some? ==> r == MergeSettings(Defaults(), storage.value)
  {
    if storage.Some? then MergeSettings(Defaults(), storage.value) else Defaults()
  }

  /** resetToDefaults as written: `new TableFormatter().settings`, which reloads storage, with the rules kept. */
  function ResetAsWritten(s: Settings, storage: Option<SettingsPatch>): Settings {
    var reloaded := Loaded(storage);
    reloaded.(conditionalFormatting := reloaded.conditionalFormatting.(rules := s.conditionalFormatting.rules))
  }

  /** Once the settings have been saved, the reset as written gives back the settings it started from. */
  lemma ResetAsWrittenRestoresNothing(s: Settings)
    ensures ResetAsWritten(s, Some(FullPatch(s))) == s
  {
  }

  /** A changed number format survives the reset as written. */
  lemma ResetAsWrittenCounterexample()
    ensures var s := Defaults().(numberFormat := DefaultNumberFormat().(kind := "currency"));
      ResetAsWritten(s, Some(FullPatch(s))).numberFormat.kind == "currency"
      && ResetSettings(s).numberFormat.kind == "auto"
  {
  }

  /** The reset as intended: every section back to its default, the current rules kept. */
  function ResetSettings(s: Settings): (r: Settings)
    ensures r.conditionalFormatting.rules == s.conditionalFormatting.rules
    ensures r.(conditionalFormatting := Defaults().conditionalFormatting) == Defaults()
  {
    Defaults().(conditionalFormatting := Defaults().conditionalFormatting.(rules := s.conditionalFormatting.rules))
  }

  /** The two resets agree exactly when nothing has been stored. */
  lemma ResetAgreesWithoutStorage(s: Settings)
    ensures ResetAsWritten(s, None) == ResetSettings(s)
  {
  }

  /** `rules.splice(index, 1)`: the start is clamped, and a negative index counts from the end. */
  function SpliceStart(len: nat, index: int): (r: nat)
    ensures r <= len
    ensures 0 <= index <= len ==> r == index
    ensures -(len as int) <= index < 0 ==> r == len + index
  {
    if index < 0 then (if len + index < 0 then 0 else len + index)
    else if index > len then len
    else index
  }

  function SpliceOne<T>(s: seq<T>, index: int): (r: seq<T>)
    ensures (s == [] || index >= |s|) ==> r == s
    ensures s != [] && index < |s| ==> r == SeqOps.RemoveAt(s, SpliceStart(|s|, index))
  {
    var k := SpliceStart(|s|, index);
    if k < |s| then SeqOps.RemoveAt(s, k) else s
  }

  /** Removing at the last index, or at -1, undoes an append. */
  lemma SpliceUndoesPush<T>(s: seq<T>, x: T)
    ensures SpliceOne(s + [x], |s|) == s
    ensures SpliceOne(s + [x], -1) == s
  {
    assert (s + [x])[..|s|] == s;
  }

  /** What exportSettings returns. */
  datatype Exported = Exported(version: string, exportDate: string, formatting: Settings)

  /** What importSettings receives: its `formatting` member, if any. */
  datatype Imported = Imported(formatting: Option<SettingsPatch>)

  /** `element.style.backgroundColor` of a non-pivot cell before conditional formatting. */
  function CellBackground(s: Settings, isHeader: bool, rowIndex: nat): (r: string)
    ensures isHeader ==> r == s.headerStyling.backgroundColor
    ensures !isHeader && !s.rowFormatting.alternatingRows ==> r == s.cellStyling.backgroundColor
    ensures !isHeader && s.rowFormatting.alternatingRows ==>
      r == (if rowIndex % 2 == 0 then s.rowFormatting.evenRowColor else s.rowFormatting.oddRowColor)
  {
    var styling := if isHeader then s.headerStyling else s.cellStyling;
    if !isHeader && s.rowFormatting.alternatingRows then
      if rowIndex % 2 == 0 then s.rowFormatting.evenRowColor else s.rowFormatting.oddRowColor
    else styling.backgroundColor
  }

  /** Alternating rows repeat with period two. */
  lemma BackgroundPeriodTwo(s: Settings, rowIndex: nat)
    ensures CellBackground(s, false, rowIndex + 2) == CellBackground(s, false, rowIndex)
  {
  }

  /** Sets a style property, or leaves it when the value is undefined. */
  function SetStyle(style: map<string, string>, key: string, value: Option<string>): map<string, string> {
    if value.Some? then style[key := value.value] else style
  }

  /** `applyCellStyling`: pivot rows get only padding and alignment; other cells get all of the styling. */
  function ApplyCellStyling(e: Element, s: Settings, isHeader: bool, isPivotRow: bool, rowIndex: nat, columnIndex: nat,
                            show: real -> string): (r: Element)
    ensures isPivotRow ==> (r.text == e.text && r.icons == e.icons
      && forall key :: key in e.style && key !in {"padding", "textAlign", "verticalAlign"} ==>
           key in r.style && r.style[key] == e.style[key])
    ensures r.text == e.text
    ensures isHeader && !isPivotRow ==> r.icons == e.icons && "backgroundColor" in r.style && r.style["backgroundColor"] == s.headerStyling.backgroundColor
  {
    var styling := if isHeader then s.headerStyling else s.cellStyling;
    if isPivotRow then
      e.(style := SetStyle(e.style["padding" := styling.padding]["textAlign" := styling.textAlign], "verticalAlign", styling.verticalAlign))
    else
      var st := SetStyle(e.style["fontFamily" := styling.fontFamily]["fontSize" := styling.fontSize]
                  ["fontWeight" := styling.fontWeight]["fontStyle" := styling.fontStyle]
                  ["textAlign" := styling.textAlign], "verticalAlign", styling.verticalAlign);
      var styled := e.(style := st["color" := styling.textColor]["padding" := styling.padding]
                  ["backgroundColor" := CellBackground(s, isHeader, rowIndex)]);
      if !isHeader && s.conditionalFormatting.enabled then Conditional(styled, s.conditionalFormatting.rules, columnIndex, show)
      else styled
  }

  // ---------------------------------------------------------- the class

  /**
   * A TableFormatter. `storage` is the value saved under the
   * `flextable_formatting` key, shared by every formatter on the page.
   */
  class Formatter {
    var settings: Settings
    var storage: Option<SettingsPatch>

    /** The defaults, with whatever was saved spread over them. */
    constructor (saved: Option<SettingsPatch>)
      ensures settings == Loaded(saved) && storage == saved
    {
      settings := Loaded(saved);
      storage := saved;
    }

    /** `saveToStorage`. */
    method Save()
      modifies this
      ensures settings == old(settings) && storage == Some(FullPatch(settings))
    {
      storage := Some(FullPatch(settings));
    }

    /** `formatNumber` with the current base format and column overrides. */
    function FormatNumber(v: Value, columnIndex: Option<nat>, customFormat: Option<NumberFormat>, columnName: Option<string>,
                          n: Natives): (r: string)
      reads this
      ensures v.Missing? || v == Text("") ==> r == ""
      ensures v.Text? && v.s != "" && NumericValue(v).None? ==> r == v.s
    {
      FormatNumberWith(v, columnIndex, customFormat, columnName, settings.numberFormat, settings.columns, n)
    }

    /** `addConditionalFormattingRule`: one rule appended. */
    method AddConditionalFormattingRule(rule: Rule)
      modifies this
      ensures settings == old(settings).(conditionalFormatting := old(settings).conditionalFormatting.(
        rules := old(settings).conditionalFormatting.rules + [rule]))
      ensures storage == Some(FullPatch(settings))
    {
      settings := settings.(conditionalFormatting := settings.conditionalFormatting.(
        rules := settings.conditionalFormatting.rules + [rule]));
      Save();
    }

    /** `removeConditionalFormattingRule`: `splice(index, 1)` on the rules. */
    method RemoveConditionalFormattingRule(index: int)
      modifies this
      ensures settings == old(settings).(conditionalFormatting := old(settings).conditionalFormatting.(
        rules := SpliceOne(old(settings).conditionalFormatting.rules, index)))
      ensures storage == Some(FullPatch(settings))
    {
      settings := settings.(conditionalFormatting := settings.conditionalFormatting.(
        rules := SpliceOne(settings.conditionalFormatting.rules, index)));
      Save();
    }

    /** `updateSettings`: a shallow spread, then a save. */
    method UpdateSettings(p: SettingsPatch)
      modifies this
      ensures settings == MergeSettings(old(settings), p) && storage == Some(FullPatch(settings))
    {
      settings := MergeSettings(settings, p);
      Save();
    }

    /** `getSettings`: a shallow copy, equal to the settings. */
    function GetSettings(): (r: Settings)
      reads this
      ensures r == settings
    {
      settings
    }

    /** `resetToDefaults`, corrected not to reload what was saved. */
    method ResetToDefaults()
      modifies this
      ensures settings == ResetSettings(old(settings))
      ensures storage == Some(FullPatch(settings))
    {
      settings := ResetSettings(settings);
      Save();
    }

    /** `resetToDefaults` as written: the new formatter reloads the shared storage. */
    method ResetToDefaultsAsWritten()
      modifies this
      ensures settings == ResetAsWritten(old(settings), old(storage))
      ensures storage == Some(FullPatch(settings))
    {
      var reloaded := new Formatter(storage);
      var rules := settings.conditionalFormatting.rules;
      settings := reloaded.settings.(conditionalFormatting := reloaded.settings.conditionalFormatting.(rules := rules));
      Save();
    }

    /** `exportSettings`; the clock is a parameter. */
    function ExportSettings(now: string): (r: Exported)
      reads this
      ensures r.version == "1.0" && r.exportDate == now && r.formatting == settings
    {
      Exported("1.0", now, settings)
    }

    /** `importSettings`: false and no change without `formatting`; otherwise a spread and a save. */
    method ImportSettings(data: Imported) returns (ok: bool)
      modifies this
      ensures ok <==> data.formatting.Some?
      ensures !ok ==> settings == old(settings) && storage == old(storage)
      ensures ok ==> settings == MergeSettings(old(settings), data.formatting.value) && storage == Some(FullPatch(settings))
    {
      if data.formatting.Some? {
        settings := MergeSettings(settings, data.formatting.value);
        Save();
        return true;
      }
      return false;
    }

    /** `setColumnNumberFormat`: the key's override replaced, other keys untouched. */
    method SetColumnNumberFormat(key: string, f: FormatPatch)
      modifies this
      ensures settings == old(settings).(columns := old(settings).columns[key := f])
      ensures GetColumnNumberFormat(key) == Some(f)
      ensures forall k :: k != key ==> GetColumnNumberFormat(k) == old(GetColumnNumberFormat(k))
      ensures storage == Some(FullPatch(settings))
    {
      settings := settings.(columns := settings.columns[key := f]);
      Save();
    }

    /** `getColumnNumberFormat`: the stored override, or null. */
    function GetColumnNumberFormat(key: string): (r: Option<FormatPatch>)
      reads this
      ensures r.Some? <==> key in settings.columns
      ensures r.Some? ==> r.value == settings.columns[key]
    {
      if key in settings.columns then Some(settings.columns[key]) else None
    }

    /** `removeColumnFormatting`: only that key goes. */
    method RemoveColumnFormatting(key: string)
      modifies this
      ensures settings == old(settings).(columns := old(settings).columns - {key})
      ensures GetColumnNumberFormat(key) == None
      ensures forall k :: k != key ==> GetColumnNumberFormat(k) == old(GetColumnNumberFormat(k))
      ensures storage == Some(FullPatch(settings))
    {
      settings := settings.(columns := settings.columns - {key});
      Save();
    }

    /** `getAllColumnFormatting`: the stored override of every column key; empty when there are none. */
    function GetAllColumnFormatting(): (r: map<string, FormatPatch>)
      reads this
      ensures r == settings.columns
    {
      settings.columns
    }

    /** `clearAllColumnFormatting`: no key has an override afterwards. */
    method ClearAllColumnFormatting()
      modifies this
      ensures settings == old(settings).(columns := map[])
      ensures forall k :: GetColumnNumberFormat(k) == None
      ensures storage == Some(FullPatch(settings))
    {
      settings := settings.(columns := map[]);
      Save();
    }
  }

  /** Exporting one formatter and importing into any other copies its settings exactly. */
  lemma ExportImportRoundTrip(s: Settings, t: Settings, now: string)
    ensures MergeSettings(t, FullPatch(Exported("1.0", now, s).formatting)) == s
  {
  }
}
