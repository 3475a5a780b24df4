# flextable: a Dafny model of the client-side table logic

flextable is a dashboard extension for a BI host. It renders a worksheet's
summary data as an HTML table. The table can be grouped, filtered, searched,
formatted and exported. Interactive features are layered on the rendered
table: column reordering, resizing, alignment, a columns menu and row numbers.

This project models the JavaScript of that client-side table logic in Dafny
and proves properties of the model. Each core source file has its own module,
and each module follows the source's own form:

- **Pure code becomes datatypes, functions and lemmas.** This covers value
  parsing and type detection (`Format`), the filter state (`ColumnFilterState`),
  measure groups (`MeasureGroups`), pivot grouping (`PivotGrouping`), table
  layout (`TableRenderer`), formatting (`TableFormatter`), CSV and JSON text
  (`ExportManager`, `CsvExport`), the column split by data type (`TypePartition`,
  `AutoConfig`, `MarksCardSync`, `SimpleSync`) and row sorting (`RowSort`).
- **Code that mutates objects or the DOM becomes classes.** These classes have
  `modifies` frames, and their loops carry invariants. Each method is proved
  against a specification function of the old state. This covers the filter
  panel, global search, grouping by visible dimensions, the settings managers
  and the configuration modal, and each column control (`SimpleColumnDrag`,
  `CleanColumnReorder`, `ButtonColumnReorder`, `WorkingColumnDrag`,
  `ColumnDragReorder`, `ColumnAlignment`, `ColumnResize`, `ColumnsMenu`,
  `RowNumber`). It also covers the two table renderers with click-to-sort
  (`UiTableRenderer`, `SimpleMain`).

The model of the page is a value held by these classes. The table is header
cells over body rows of cells. Each cell has its text, its attributes and its
inline style.

Shared modules hold the JavaScript semantics the core relies on:

- `Wrappers` has `Option`.
- `JsText` has JavaScript's white space, `trim`, `split`, `join`, `includes`
  and ASCII case folding.
- `JsNumber` has two readings of text as a number:
  - `FiniteNumber` is `Number()` as section 7.1.4.1 of ECMA-262 defines it,
    read exactly over the reals, with `null` for a result that is not finite.
  - `ParseFloat` is `parseFloat`: the longest decimal prefix, exponent included.
- `SeqOps` has removal, insertion, moves and swaps on lists.
- `JsMap` is a JavaScript `Map` that keeps insertion order.
- `JsObject` is a plain object used as a dictionary. Its values are listed in
  own-key order as section 10.1.11.1 of ECMA-262 defines it: keys that are array
  indices first, by ascending numeric value, then the other keys in creation order.
- `DomChildren` is `insertBefore` and `appendChild` on a child list. These follow
  the pre-insert and remove steps of section 4.2.3 of the DOM Standard.
- `TableRows` has the header-name and column-permutation facts shared by the
  reorder controls.
- `Rfc4180` is a reader of comma-separated text following RFC 4180. It is the
  partner of every CSV writer. Each export is proved to read back as the
  records it wrote, provided no record is empty.

Some things the source gets from the browser or the host are parameters of
the model:

- the host's summary data;
- native date parsing and the `Date` constructor;
- `localeCompare` and the locale formatters;
- JSON text and the clock;
- element measurements, such as widths, heights and computed visibility.

Stored preferences are fields of the classes. `None` stands for a key that
`localStorage` does not hold.

Three settings classes carry identical copies of the same field-list helpers:
src/ui/settings-manager.js, src/ui/fixed-settings.js and
src/ui/simple-settings-ui.js. `FieldSettings` defines these helpers once, and
its rows cite the settings-manager copy. The copies are:

- `categoryIdToKey`: fixed-settings.js:326-334 and simple-settings-ui.js:65-78.
- `inferFieldType`: fixed-settings.js:169-182, simple-settings-ui.js:233-241,
  auto-config.js:59-72 and marks-card-sync.js:97-110.
- `isFieldInUse` and the available list: fixed-settings.js:184-193 and 211,
  and simple-settings-ui.js:80-90 and 108. The simple dialog re-reads the
  worksheet object's settings for each call.
- `validateSettings`: fixed-settings.js:121-133.

The filter row's own `toNumber`, `toDate`, `stripTime` and `sameDay`
(src/ui/filter-panel-dom.js:324-353) repeat those of src/services/format.js.
They are modelled by `Format`.

`toNumber("")` is 0, because `Number("")` is 0, so an empty cell counts as
the number 0 wherever `toNumber` is used. Every defect listed under
"## Findings" is modelled twice: once as written, and once as evidently
intended. The rest of the model uses the corrected form.

## Model

| member | source | states |
|---|---|---|
| ColumnFilterState.ApplyColumnFilters | src/model/state.js:15-27 | the columns are kept; with no filters the table comes back unchanged; the kept rows are a subsequence of the rows, each kept row contains every filter's value case-insensitively in that column's cell (a missing cell reads as ""), and every row that does so is kept, each occurrence of it: a passing row occurs as often as in the input and a failing one not at all |
| ColumnFilterState.PassesMore | src/model/state.js:19-23 | a row that passes after one filter's value is narrowed (to a value containing the old value) also passed before |
| ColumnFilterState.AddingFilterShrinks | src/model/state.js:15-24 | adding a filter on a new column, or narrowing an existing one, keeps a subsequence of the rows kept before |
| ColumnFilterState.FilterStore.constructor | src/model/state.js:2-4 | the filter object starts empty |
| ColumnFilterState.FilterStore.SetColumnFilter | src/model/state.js:6-9 | a truthy value is stored under the column index; a missing or empty value deletes that index; no other index changes |
| ColumnFilterState.FilterStore.ClearColumnFilter | src/model/state.js:11-13 | only the given index is deleted; every other filter keeps its value |
| Format.ToNumber | src/services/format.js:2 | null or undefined reads as null |
| Format.Strip | src/services/format.js:3-7 | the stripped text is no longer than the input and holds no separator, white space, percent sign, currency symbol or U+2212 minus sign |
| Format.StripIdempotent | src/services/format.js:3-7 | stripping twice is stripping once |
| Format.ToNumberStripStable | src/services/format.js:1-10 | reading the already-stripped text gives the same number as reading the text |
| Format.ToNumberOfDigits | src/services/format.js:1-10 | text that is the decimal digits of n once separators, currency and percent signs are removed reads as n |
| Format.ToNumberBlank | src/services/format.js:3-9 | text made only of removed characters (the empty string included) reads as 0, because `Number("")` is 0 |
| Format.StripTime | src/services/format.js:35-37 | the result is the same calendar day at midnight |
| Format.BeforeTotal | src/services/format.js:35-37 | date order is a strict total order: exactly one of before, equal, after |
| Format.MatchDmyReads | src/services/format.js:19-23 | every text of one or two digits, a slash or hyphen, one or two digits, a slash or hyphen, and two to four digits matches, with its three numbers captured |
| Format.FullYear | src/services/format.js:24 | a year below 100 becomes 2000 plus it; any other year is kept |
| Format.FallbackArgs | src/services/format.js:26-30 | the corrected fallback only passes a real calendar day to the date constructor, with the year widened as above |
| Format.FallbackPrefersMonthFirst | src/services/format.js:26-28 | the month-first reading is used whenever it names a calendar day |
| Format.FallbackDayFirst | src/services/format.js:29-30 | the day-first reading is used exactly when only it names a calendar day (or both readings are the same day) |
| Format.ToDate | src/services/format.js:12-33 | empty text gives null; a successful native parse is returned at midnight; every date returned is at midnight |
| Format.AsWrittenNeverDayFirst | src/services/format.js:27-30 | as written, whenever the month-first constructor call yields a date (it always does, by rolling over), that date is returned and the day-first branch is never reached |
| Format.DayFirstCounterexample | src/services/format.js:19-30 | for "25/12/2024" the written code builds month index 24 (January 2026), while the corrected fallback gives 25 December 2024 |
| Format.DayFirstSample | src/services/format.js:19-23 | "25/12/2024" matches the pattern as 25, 12 and 2024 |
| Format.IncludesCaseInsensitiveStable | src/services/format.js:39-42 | the answer ignores letter case of haystack and needle, and stays true when text is appended to the haystack |
| Format.DetectType | src/services/format.js:45-56 | "number" exactly when at least 60% of the non-empty samples are numbers; "date" exactly when not, and at least 60% are dates that are not numbers; "text" when there are no non-empty samples |
| Format.VotesDisjoint | src/services/format.js:50-51 | no sample counts both as a number and as a date: the two counts together are at most the total |
| Format.BlankSamplesCountNothing | src/services/format.js:48 | null, undefined and "" samples are not counted |
| MeasureGroups.Toggled | src/modules/grouping/measureGrouping.js:34-40 | the list keeps its length; an in-range group has only its collapsed flag flipped; every other group is unchanged |
| MeasureGroups.ToggleTwice | src/modules/grouping/measureGrouping.js:34-40 | toggling the same group twice restores the list |
| MeasureGroups.FirstGroupWith | src/modules/grouping/measureGrouping.js:59-61 | none exactly when no group lists the measure; otherwise the first group, in list order, that lists it |
| MeasureGroups.SumMembersAppend | src/modules/grouping/measureGrouping.js:66-74 | the group sum is additive over a split of the member list |
| MeasureGroups.SumMembersMissing | src/modules/grouping/measureGrouping.js:68-69 | members that are not columns add nothing |
| MeasureGroups.MemberValueOfDigits | src/modules/grouping/measureGrouping.js:68-72 | a member whose cell holds the decimal digits of n adds exactly n |
| MeasureGroups.GetGroupColspan | src/modules/grouping/measureGrouping.js:79-81 | a collapsed group spans one column; an expanded one spans one per member |
| MeasureGroups.IsColumnHidden | src/modules/grouping/measureGrouping.js:86-89 | hidden exactly when there is a group, it is collapsed, it lists the column, and the column is not its first member |
| MeasureGroups.CollapsedShowsOne | src/modules/grouping/measureGrouping.js:79-89 | in a collapsed group the first member stays visible, every other distinct member is hidden, and the colspan is 1 |
| MeasureGroups.CalculateGroupSum | src/modules/grouping/measureGrouping.js:66-74 | measures that are not columns add nothing; a single measure gives its own cell's value; the sum splits at any point of the measure list into the sums of the two parts |
| MeasureGroups.MeasureGrouping.constructor | src/modules/grouping/measureGrouping.js:7-9 | starts with no groups |
| MeasureGroups.MeasureGrouping.AddGroup | src/modules/grouping/measureGrouping.js:14-20 | exactly one group is appended at the end, not collapsed by default |
| MeasureGroups.MeasureGrouping.RemoveGroup | src/modules/grouping/measureGrouping.js:25-29 | an in-range index removes exactly that group; any other index leaves the list unchanged |
| MeasureGroups.MeasureGrouping.ToggleGroup | src/modules/grouping/measureGrouping.js:34-40 | returns true exactly for an in-range index, and the list becomes the toggled list |
| MeasureGroups.MeasureGrouping.ClearGroups | src/modules/grouping/measureGrouping.js:52-54 | no groups remain |
| MeasureGroups.MeasureGrouping.GetGroups | src/modules/grouping/measureGrouping.js:45-47 | the group list itself, not a copy |
| MeasureGroups.MeasureGrouping.FindGroupByMeasure | src/modules/grouping/measureGrouping.js:59-61 | none exactly when no group lists the measure; otherwise the first group that does |
| PivotGrouping.Indexed | src/modules/grouping/pivotGrouping.js:19 | each row is paired with its own index, in order |
| PivotGrouping.ColumnOrOther | src/modules/grouping/pivotGrouping.js:37 | a missing or empty value becomes 'Other'; a non-empty value is kept |
| PivotGrouping.GroupSpecPartition | src/modules/grouping/pivotGrouping.js:17-27 | the built Map has distinct keys in first-occurrence order, and each key's list is exactly the entries with that key, in their original order |
| PivotGrouping.KeyOrderMembers | src/modules/grouping/pivotGrouping.js:19-25 | the keys are distinct, every entry's key is among them, and every key comes from some entry |
| PivotGrouping.GroupEntries | src/modules/grouping/pivotGrouping.js:19-25 | the forEach loop builds exactly the grouping Map above |
| PivotGrouping.GroupRowsByCategory | src/modules/grouping/pivotGrouping.js:16-28 | the rows with their indices, grouped by the first cell |
| PivotGrouping.GroupBySubCategory | src/modules/grouping/pivotGrouping.js:33-45 | the entries grouped by the second cell, 'Other' when it is missing or empty |
| PivotGrouping.GroupBySegment | src/modules/grouping/pivotGrouping.js:50-62 | the entries grouped by the third cell, 'Other' when it is missing or empty |
| PivotGrouping.IsDimensionColumn | src/modules/grouping/pivotGrouping.js:88-103 | true when there are no rows, else exactly when more than half of the first five rows hold a non-empty cell that does not parse as a number once ',', '$' and '%' are removed |
| PivotGrouping.NumericColumnIsMeasure | src/modules/grouping/pivotGrouping.js:92-102 | a column whose cells are all plain digits is not a dimension |
| PivotGrouping.DimensionColumns | src/modules/grouping/pivotGrouping.js:75-83 | the dimension columns below the limit, none missing, in increasing order, at most limit of them |
| PivotGrouping.GetDimensionColumns | src/modules/grouping/pivotGrouping.js:75-83 | the loop over the first min(columns, 5) indices returns exactly those dimension columns |
| PivotGrouping.GetHierarchyLevels | src/modules/grouping/pivotGrouping.js:67-70 | the number of dimension columns found, capped at 3 |
| PivotGrouping.ColumnSumAppend | src/modules/grouping/pivotGrouping.js:145-152 | a column aggregate is additive over any split of the rows |
| PivotGrouping.ColumnSumSwap | src/modules/grouping/pivotGrouping.js:145-152 | a column aggregate does not depend on the order of the row blocks |
| PivotGrouping.CalculateGroupAggregates | src/modules/grouping/pivotGrouping.js:142-155 | one sum per column, each the sum of that column's parsing cells over the group |
| PivotGrouping.FormatAggregateValue | src/modules/grouping/pivotGrouping.js:160-165 | empty text for a non-numeric column or column 0; otherwise the locale text of the value |
| PivotGrouping.SubKeyInjective | src/modules/grouping/pivotGrouping.js:125 | two category/sub-category pairs share a key only when equal, provided no category contains the separator character |
| PivotGrouping.ToggleTwice | src/modules/grouping/pivotGrouping.js:108-112 | toggling flips the collapsed answer, toggling twice restores it, and no other key's answer changes |
| PivotGrouping.SetAll | src/modules/grouping/pivotGrouping.js:178-185 | the same keys in the same order, each with the given flag |
| PivotGrouping.RestoredDistinct | src/modules/grouping/pivotGrouping.js:209-214 | restoring entries with distinct keys gives back exactly those entries |
| PivotGrouping.RestoredValid | src/modules/grouping/pivotGrouping.js:209-214 | a restored Map never holds a key twice |
| PivotGrouping.PivotGroupingState.constructor | src/modules/grouping/pivotGrouping.js:7-11 | both Maps start empty |
| PivotGrouping.PivotGroupingState.IsCategoryCollapsed | src/modules/grouping/pivotGrouping.js:117-119 | collapsed unless stored as expanded; an unknown category is collapsed |
| PivotGrouping.PivotGroupingState.ToggleCategory | src/modules/grouping/pivotGrouping.js:108-112 | stores the negated collapsed answer under the category and returns it; the sub-category Map is unchanged |
| PivotGrouping.PivotGroupingState.IsSubCategoryCollapsed | src/modules/grouping/pivotGrouping.js:134-137 | collapsed unless the key joining category and sub-category is stored as expanded |
| PivotGrouping.PivotGroupingState.ToggleSubCategory | src/modules/grouping/pivotGrouping.js:124-129 | the same rule on the combined key; the category Map is unchanged |
| PivotGrouping.PivotGroupingState.ClearGroups | src/modules/grouping/pivotGrouping.js:170-173 | both Maps become empty |
| PivotGrouping.PivotGroupingState.SetEveryKey | src/modules/grouping/pivotGrouping.js:178-196 | every existing key of both Maps gets the flag; no key is added |
| PivotGrouping.PivotGroupingState.ExpandAll | src/modules/grouping/pivotGrouping.js:178-185 | every known key is stored as expanded |
| PivotGrouping.PivotGroupingState.CollapseAll | src/modules/grouping/pivotGrouping.js:190-197 | every known key is stored as collapsed |
| PivotGrouping.PivotGroupingState.GetExpansionState | src/modules/grouping/pivotGrouping.js:202-204 | the category Map's entries in order; while the state is valid, restoring them rebuilds the same Map |
| PivotGrouping.PivotGroupingState.RestoreExpansionState | src/modules/grouping/pivotGrouping.js:209-214 | the category Map is rebuilt from the entries in order; with distinct keys, reading the expansion state back gives the same entries; sub-categories are unchanged |
| TableRenderer.Rendered | src/modules/table/tableRenderer.js:51-53 | every column except index 1 gets a cell, in order: one fewer cell than columns when there are at least two |
| TableRenderer.RenderedAt | src/modules/table/tableRenderer.js:51-53 | the k-th rendered cell is column 0 for k = 0 and column k + 1 otherwise |
| TableRenderer.Row1 | src/modules/table/tableRenderer.js:55-78 | one first-level header cell per rendered column: the group name spanning the group's colspan over a group's first member, hidden over its other members, a blank cell outside groups |
| TableRenderer.Row2 | src/modules/table/tableRenderer.js:80-104 | one second-level header cell per rendered column: the column name, except that a collapsed group shows a blank cell over its first member and hides the others |
| TableRenderer.MeasureGroupSumAppend | src/modules/table/tableRenderer.js:232-236 | a measure group's sum over the rows is additive over a split of the rows |
| TableRenderer.BodyCells | src/modules/table/tableRenderer.js:155-184 | one body cell per rendered column: the caption in column 0, the group sum under a collapsed group's first member, hidden under its other members, else the column aggregate for indices above 1 |
| TableRenderer.CategoryLabel | src/modules/table/tableRenderer.js:162-165 | the expand icon (▶ when collapsed, ▼ when expanded), a space, then the category |
| TableRenderer.SubCategoryLabel | src/modules/table/tableRenderer.js:203-205 | four non-breaking spaces, then the sub-category |
| TableRenderer.SubRows | src/modules/table/tableRenderer.js:128-133 | one sub-category row per sub-group, in the order the grouping yields them |
| TableRenderer.CategoryBlock | src/modules/table/tableRenderer.js:121-135 | a category row first, then only sub-category rows, and nothing more when the category is collapsed |
| TableRenderer.OneRowPerCategory | src/modules/table/tableRenderer.js:115-138 | the body holds exactly one category row per category group |
| TableRenderer.CategoryRowsAreDistinctValues | src/modules/table/tableRenderer.js:115-138 | and so exactly one category row per distinct value of the first column |
| TableRenderer.GroupKeepsWidths | src/modules/table/tableRenderer.js:46-105 | putting one well-formed group in front of others widens both header rows by the same amount |
| TableRenderer.HeaderWidthsAgreeOn | src/modules/table/tableRenderer.js:46-105 | for well-formed measure groups, the two header rows have the same visible width |
| TableRenderer.BodyMatchesHeader2 | src/modules/table/tableRenderer.js:155-224 | a category or sub-category row has the visible width of the second header row when column 0 is in no group |
| TableRenderer.Aligned | src/modules/table/tableRenderer.js:46-224 | the alignment invariant: both header rows and every body row have the same visible width for well-formed measure groups |
| TableRenderer.Renderer.constructor | src/modules/table/tableRenderer.js:7-11 | keeps the two grouping objects it is given |
| TableRenderer.Renderer.RenderHeader | src/modules/table/tableRenderer.js:46-110 | the loop builds exactly the two header rows above |
| TableRenderer.Renderer.CreateCell | src/modules/table/tableRenderer.js:159-181 | one cell of a category or sub-category row, as specified by the body-cell rule |
| TableRenderer.Renderer.CreateRow | src/modules/table/tableRenderer.js:143-227 | the loop builds exactly the body cells of one row |
| TableRenderer.Renderer.RenderSubRows | src/modules/table/tableRenderer.js:128-133 | the loop builds exactly the sub-category rows |
| TableRenderer.Renderer.RenderCategory | src/modules/table/tableRenderer.js:121-135 | one category's block, read against the current expansion state |
| TableRenderer.Renderer.RenderBody | src/modules/table/tableRenderer.js:115-138 | the body of the rows grouped by category, in first-occurrence order |
| TableRenderer.Renderer.ToggleMeasureGroup | src/modules/table/tableRenderer.js:241-249 | toggles the first group equal to the clicked one, and reports a toggle exactly when the group is in the list |
| TableFormatter.MergeNeutral | src/modules/formatting/tableFormatter.js:105 | spreading nothing over a number format keeps it; spreading a complete format replaces it |
| TableFormatter.MergeAssociative | src/modules/formatting/tableFormatter.js:105 | two spreads in a row are one spread of the combined override, and repeating a spread changes nothing |
| TableFormatter.ColumnKey | src/modules/formatting/tableFormatter.js:100-101 | a non-empty column name is the key; otherwise the column index as decimal text, and no key without an index |
| TableFormatter.EffectiveFormat | src/modules/formatting/tableFormatter.js:97-109 | the custom format (else the base format), with the column's stored override spread over it when the key has one |
| TableFormatter.FormatCurrency | src/modules/formatting/tableFormatter.js:142-159 | Intl's currency text when Intl accepts the options; when it throws, the regular number text with the sign style and no currency symbol |
| TableFormatter.FormatPercentage | src/modules/formatting/tableFormatter.js:164-180 | Intl's percent text of the value divided by 100; when Intl throws, `toFixed` of the value times 100 followed by '%', so the fallback shows a number 10 000 times larger |
| TableFormatter.FormatAccounting | src/modules/formatting/tableFormatter.js:185-197 | the magnitude's grouped text between two delimiters: parentheses exactly when the number is negative, one space each side otherwise |
| TableFormatter.RegularSignSymmetry | src/modules/formatting/tableFormatter.js:208-231 | a negative number is its magnitude's text in parentheses under the 'parentheses' style, and with a leading '-' under every other style |
| TableFormatter.AccountingAligned | src/modules/formatting/tableFormatter.js:185-196 | accounting text for x and -x has the same width and the same digits between its delimiters |
| TableFormatter.FormatNumberWith | src/modules/formatting/tableFormatter.js:94-137 | null, undefined and '' give ''; text that is NaN after removing ',', '$' and '%' comes back unchanged; a number starts with the effective prefix and ends with the effective suffix |
| TableFormatter.ColumnOverrideWins | src/modules/formatting/tableFormatter.js:100-109 | a column override that sets prefix and suffix decides them, whatever the base or custom format says |
| TableFormatter.LeadingSymbolIsNaN | src/modules/formatting/tableFormatter.js:291 | a cell starting with anything but white space, a sign, a point or a digit reads as NaN |
| TableFormatter.ParenthesizedNegativeIsNaN | src/modules/formatting/tableFormatter.js:185-196 | a negative number the formatter wrote in parentheses reads back as NaN for conditional formatting |
| TableFormatter.MeetsCondition | src/modules/formatting/tableFormatter.js:305-324 | NaN meets no condition; top10, bottom10 and unknown conditions are never met |
| TableFormatter.ConditionsAgree | src/modules/formatting/tableFormatter.js:305-314 | equalTo holds exactly when neither greaterThan nor lessThan does, and between is inclusive at both ends |
| TableFormatter.DataBarPercent | src/modules/formatting/tableFormatter.js:354 | the bar percentage is capped at 100, is NaN for a NaN value, and is the value's share of the maximum otherwise |
| TableFormatter.DataBarMonotone | src/modules/formatting/tableFormatter.js:354 | with a positive maximum, a larger value never draws a shorter bar |
| TableFormatter.ApplyRule | src/modules/formatting/tableFormatter.js:329-376 | the cell text is kept; an icon rule puts its icon first; a data bar sets position and the gradient background; unknown kinds change nothing |
| TableFormatter.ConditionalFrom | src/modules/formatting/tableFormatter.js:293-299 | folding the rules never changes the cell's own text |
| TableFormatter.ConditionalNaN | src/modules/formatting/tableFormatter.js:291-299 | a cell that reads as NaN is left alone |
| TableFormatter.ConditionalSelects | src/modules/formatting/tableFormatter.js:293-294 | rules bound to another column have no effect: only the rules for this column, or for every column, matter |
| TableFormatter.ApplyConditionalFormatting | src/modules/formatting/tableFormatter.js:289-300 | the loop over the rules gives exactly the corrected fold |
| TableFormatter.AsWrittenAgreesWithoutIcons | src/modules/formatting/tableFormatter.js:352-358 | without icon rules, re-reading the cell for the data bar gives the same result, and no icon is added |
| TableFormatter.DigitsCellParses | src/modules/formatting/tableFormatter.js:291 | a cell of decimal digits reads as their value |
| TableFormatter.DataBarAfterIconCounterexample | src/modules/formatting/tableFormatter.js:343-358 | an icon rule then a data-bar rule on a one-digit cell: as written the gradient assigned reads NaN%, which the browser rejects, so no bar is drawn; the corrected fold draws the digit's share |
| TableFormatter.MergeFull | src/modules/formatting/tableFormatter.js:420 | spreading a complete copy replaces the settings; spreading a copy of themselves changes nothing |
| TableFormatter.Loaded | src/modules/formatting/tableFormatter.js:7-89 | the defaults when nothing is stored; otherwise the stored sections spread over the defaults |
| TableFormatter.ResetAsWrittenRestoresNothing | src/modules/formatting/tableFormatter.js:434-443 | once the settings are saved, the reset as written gives back the settings it started from |
| TableFormatter.ResetAsWrittenCounterexample | src/modules/formatting/tableFormatter.js:434-443 | a currency number format survives the reset as written, while the corrected reset returns 'auto' |
| TableFormatter.ResetSettings | src/modules/formatting/tableFormatter.js:434-443 | every section back to its default, with the current rules kept |
| TableFormatter.ResetAgreesWithoutStorage | src/modules/formatting/tableFormatter.js:434-443 | with nothing stored, the reset as written and the corrected reset agree |
| TableFormatter.SpliceStart | src/modules/formatting/tableFormatter.js:412 | the splice start is clamped to the length, and a negative index counts from the end |
| TableFormatter.SpliceOne | src/modules/formatting/tableFormatter.js:412 | an index at or past the end removes nothing; any other index removes exactly the rule at the clamped start |
| TableFormatter.SpliceUndoesPush | src/modules/formatting/tableFormatter.js:403-414 | removing at the last index, or at -1, undoes adding a rule |
| TableFormatter.CellBackground | src/modules/formatting/tableFormatter.js:268-277 | a header takes the header colour; a body cell takes the cell colour, or the even or odd row colour when rows alternate |
| TableFormatter.BackgroundPeriodTwo | src/modules/formatting/tableFormatter.js:271-275 | alternating row colours repeat every two rows |
| TableFormatter.ApplyCellStyling | src/modules/formatting/tableFormatter.js:236-284 | a pivot row gets only padding and alignment, with every other style and its content kept; a header gets the header background; the cell text never changes |
| TableFormatter.Formatter.constructor | src/modules/formatting/tableFormatter.js:7-89 | the defaults, with whatever was saved spread over them |
| TableFormatter.Formatter.Save | src/modules/formatting/tableFormatter.js:448-454 | the settings are unchanged and storage holds a complete copy of them |
| TableFormatter.Formatter.FormatNumber | src/modules/formatting/tableFormatter.js:94-113 | null, undefined and '' give ''; text that is NaN comes back unchanged |
| TableFormatter.Formatter.GetSettings | src/modules/formatting/tableFormatter.js:427-429 | a shallow copy: the same sections as the formatter's settings |
| TableFormatter.Formatter.AddConditionalFormattingRule | src/modules/formatting/tableFormatter.js:403-406 | exactly one rule is appended, then the settings are saved |
| TableFormatter.Formatter.RemoveConditionalFormattingRule | src/modules/formatting/tableFormatter.js:411-414 | the rules are spliced at the index, then the settings are saved |
| TableFormatter.Formatter.UpdateSettings | src/modules/formatting/tableFormatter.js:419-422 | a shallow spread of the given sections, then a save |
| TableFormatter.Formatter.ResetToDefaults | src/modules/formatting/tableFormatter.js:434-443 | the corrected reset: every section back to its default with the current rules kept, then a save |
| TableFormatter.Formatter.ResetToDefaultsAsWritten | src/modules/formatting/tableFormatter.js:434-443 | as written: the new formatter reloads the saved settings, only the rules are carried over, then a save |
| TableFormatter.Formatter.ExportSettings | src/modules/formatting/tableFormatter.js:485-491 | version '1.0', the given time, and the current settings |
| TableFormatter.Formatter.ImportSettings | src/modules/formatting/tableFormatter.js:496-503 | false and no change without a formatting part; otherwise a spread of it, a save and true |
| TableFormatter.Formatter.SetColumnNumberFormat | src/modules/formatting/tableFormatter.js:508-523 | the key's override is replaced and read back; every other key's override is unchanged; then a save |
| TableFormatter.Formatter.GetColumnNumberFormat | src/modules/formatting/tableFormatter.js:528-534 | the stored override when the key has one, else null |
| TableFormatter.Formatter.RemoveColumnFormatting | src/modules/formatting/tableFormatter.js:539-544 | only that key loses its override; then a save |
| TableFormatter.Formatter.GetAllColumnFormatting | src/modules/formatting/tableFormatter.js:549-554 | the stored column overrides, keyed by column |
| TableFormatter.Formatter.ClearAllColumnFormatting | src/modules/formatting/tableFormatter.js:559-566 | no key has an override afterwards; then a save |
| TableFormatter.ExportImportRoundTrip | src/modules/formatting/tableFormatter.js:485-503 | importing an exported formatting into any formatter gives exactly the exported settings |
| FilterPanel.TextTrigger | src/ui/filter-panel-dom.js:146-151 | a value that is not blank once trimmed is stored trimmed and lower-cased; a blank value deletes the column's entry |
| FilterPanel.NumberTrigger | src/ui/filter-panel-dom.js:173-181 | with a trimmed first value (and a trimmed second one for between) the operator and both values are stored; otherwise the entry is deleted |
| FilterPanel.DateTrigger | src/ui/filter-panel-dom.js:207-215 | the same rule on the untrimmed date inputs |
| FilterPanel.TextTriggerKeepsStored | src/ui/filter-panel-dom.js:146-151 | the text trigger never stores an empty predicate, and every stored text is trimmed and lower-case |
| FilterPanel.NumberTriggerKeepsStored | src/ui/filter-panel-dom.js:173-181 | the number trigger never stores a filter without a first value, or a between without a second one |
| FilterPanel.DateTriggerKeepsStored | src/ui/filter-panel-dom.js:207-215 | the date trigger never stores a filter without a first date, or a between without a second one |
| FilterPanel.TextRemount | src/ui/filter-panel-dom.js:140-151 | a rebuilt text control shows the stored value, and firing it with that value stores exactly what was there |
| FilterPanel.NumberRemount | src/ui/filter-panel-dom.js:157-181 | a rebuilt number control shows the stored operator and values, and firing it stores exactly what was there |
| FilterPanel.DateRemount | src/ui/filter-panel-dom.js:191-215 | a rebuilt date control shows the stored operator and dates, and firing it stores exactly what was there |
| FilterPanel.UnparsedFails | src/ui/filter-panel-dom.js:248-266 | a cell that is not a finite number fails every number operator, and a cell that is not a date fails every date operator, unknown operators included |
| FilterPanel.EmptyCell | src/ui/filter-panel-dom.js:241-248 | an empty cell reads as the number 0, since `Number("")` is 0, and never as a date |
| FilterPanel.NumberBetweenSymmetric | src/ui/filter-panel-dom.js:257-260 | between does not depend on the order of its bounds, is inclusive at both ends, and is >= the lower bound and <= the upper one |
| FilterPanel.NumberOpsAgree | src/ui/filter-panel-dom.js:250-256 | = is the complement of !=, >= is > or =, <= is not >, and < is not >= |
| FilterPanel.DateOpsAgree | src/ui/filter-panel-dom.js:268-276 | before and after exclude each other and the day itself; between is symmetric in its bounds; a date is on itself |
| FilterPanel.NoFiltersShowAll | src/ui/filter-panel-dom.js:234-237 | with no active filter, every row is shown |
| FilterPanel.MoreFiltersShowFewer | src/ui/filter-panel-dom.js:239-283 | every filter is an AND term: a row shown under more filters is shown under fewer |
| FilterPanel.TextFilterMeansIncludes | src/ui/filter-panel-dom.js:146-148 | a row that passes after a text input holds the trimmed input in that column's cell, ignoring case |
| FilterPanel.SampleRows | src/ui/filter-panel-dom.js:101 | at most 200 rows are sampled, each of them a visible body row |
| FilterPanel.KindOf | src/ui/filter-panel-dom.js:117-123 | skip exactly for the row-number column; otherwise number when at least 60% of the non-blank visible samples are numbers, and date when not and at least 60% are dates |
| FilterPanel.CountRow | src/ui/filter-panel-dom.js:106-114 | one row adds its trimmed visible cell to each column's counters, except the row-number column |
| FilterPanel.DetectedKinds | src/ui/filter-panel-dom.js:97-124 | one type per column of the first sampled row, each from the vote over that column |
| FilterPanel.DetectColumnTypes | src/ui/filter-panel-dom.js:97-124 | the counting loops give exactly the detected types |
| FilterPanel.FirstRowNum | src/ui/filter-panel-dom.js:126-136 | -1 exactly when no header cell is marked or reads '#'; otherwise the first such cell |
| FilterPanel.FindRowNumIndex | src/ui/filter-panel-dom.js:126-136 | the scan returns exactly the first row-number header cell |
| FilterPanel.ControlFor | src/ui/filter-panel-dom.js:52-60 | no control under the row-number column; elsewhere a number, date or text control, keeping the detected type when it is number or date |
| FilterPanel.BuildControls | src/ui/filter-panel-dom.js:38-63 | one control per header cell, as above |
| FilterPanel.FilterPanelState.constructor | src/ui/filter-panel-dom.js:9 | the filter state starts empty |
| FilterPanel.FilterPanelState.TextInput | src/ui/filter-panel-dom.js:146-151 | the state becomes the text trigger's result |
| FilterPanel.FilterPanelState.NumberInput | src/ui/filter-panel-dom.js:173-185 | the state becomes the number trigger's result |
| FilterPanel.FilterPanelState.DateInput | src/ui/filter-panel-dom.js:207-219 | the state becomes the date trigger's result |
| FilterPanel.FilterPanelState.Prune | src/ui/filter-panel-dom.js:36 | exactly the entries of columns beyond the header are dropped; the rest keep their values |
| FilterPanel.FilterPanelState.ApplyFilters | src/ui/filter-panel-dom.js:227-285 | a row is shown exactly when it passes every active filter |
| FilterPanel.FilterPanelState.Mount | src/ui/filter-panel-dom.js:11-68 | stale entries pruned, one control per header cell built from the detected types, and every row re-filtered against the pruned state |
| FilterPanel.FilterPanelState.Clear | src/ui/filter-panel-dom.js:70-93 | every entry is deleted and every row is shown |
| GlobalSearch.LowerCells | src/ui/global-search-dom.js:127-128 | one lower-cased text per cell, in order |
| GlobalSearch.MatchesAllEvery | src/ui/global-search-dom.js:132 | a row matches exactly when every search term occurs in its joined lower-cased text |
| GlobalSearch.CountShownExtremes | src/ui/global-search-dom.js:115-140 | the count is 0 exactly when no row is shown, and the number of rows exactly when every row is |
| GlobalSearch.SpaceFreeInJoin | src/ui/global-search-dom.js:127-132 | a term without white space occurs in the cells joined by spaces exactly when it occurs inside one cell |
| GlobalSearch.MatchesAllPerCell | src/ui/global-search-dom.js:124-132 | a row matches exactly when each term occurs inside one of its lower-cased cells |
| GlobalSearch.VisibleMeansPerCell | src/ui/global-search-dom.js:117-140 | a row stays visible for a non-empty query exactly when each of the query's terms occurs inside one of its cells |
| GlobalSearch.OneWordQuery | src/ui/global-search-dom.js:124-132 | a one-word query shows exactly the rows whose text contains that word, ignoring case |
| GlobalSearch.BlankQueryMatchesAll | src/ui/global-search-dom.js:124 | a query made only of white space has no terms and matches every row |
| GlobalSearch.MoreTermsShowFewer | src/ui/global-search-dom.js:132 | adding a term to the query can only hide more rows |
| GlobalSearch.ShownRows | src/ui/global-search-dom.js:117-140 | one visibility per row, in row order: every row for the empty query, else the rows that match all terms |
| GlobalSearch.Decide | src/ui/global-search-dom.js:114-141 | the row loop gives each row's visibility and counts the visible rows |
| GlobalSearch.Styled | src/ui/global-search-dom.js:149-165 | the box value is kept; no query gives the default style; no match gives red with "No matching rows found"; otherwise green with "n matching rows found" |
| GlobalSearch.SearchState.constructor | src/ui/global-search-dom.js:5 | remembers the search box, or its absence |
| GlobalSearch.SearchState.PerformGlobalSearch | src/ui/global-search-dom.js:107-147 | without a table body nothing changes; otherwise every row's visibility is decided, the visible rows are counted, and the box is restyled |
| GlobalSearch.SearchState.OnInput | src/ui/global-search-dom.js:87-90 | the typed value stays in the box and its trimmed form is searched for |
| GlobalSearch.SearchState.Clear | src/ui/global-search-dom.js:168-187 | the box is emptied and unstyled, and every row is shown |
| GlobalSearch.SearchState.SetQuery | src/ui/global-search-dom.js:195-200 | only with a box: a missing query is the empty one, the box shows it, and the search runs on it |
| GlobalSearch.SearchState.Query | src/ui/global-search-dom.js:190-192 | the box's trimmed value, or "" without a box |
| GlobalSearch.ActiveIffQuery | src/ui/global-search-dom.js:203-205 | the search is active exactly when the current query is non-empty |
| AggregateVisibleDims.CellColumn | src/ui/aggregate-by-visible-dims-dom.js:213-215 | one entry per sampled row: the trimmed text of cell c, or nothing when the row is too short |
| AggregateVisibleDims.CountColumn | src/ui/aggregate-by-visible-dims-dom.js:211-219 | the counter of numeric cells and the counter of non-empty cells of one column are exactly the numbers and non-blank counts of that column |
| AggregateVisibleDims.DetectColTypes | src/ui/aggregate-by-visible-dims-dom.js:205-223 | one type per cell of the first sampled row, and a column is a measure iff at least 60% of its non-empty sampled cells are numbers; no body gives no types |
| AggregateVisibleDims.BlankColumnIsDimension | src/ui/aggregate-by-visible-dims-dom.js:216-220 | a column whose sampled cells are all missing or blank is typed dimension (the `total &&` guard) |
| AggregateVisibleDims.IndicesOf | src/ui/aggregate-by-visible-dims-dom.js:237-245 | exactly the indices of the columns of the given type: each listed index has that type and every such index is listed |
| AggregateVisibleDims.IndicesIncreasing | src/ui/aggregate-by-visible-dims-dom.js:237-245 | the dimension and measure indices come in increasing column order |
| AggregateVisibleDims.VisibleOnly | src/ui/aggregate-by-visible-dims-dom.js:120-121 | the filtered indices are exactly those whose header cell is not hidden |
| AggregateVisibleDims.VisibleOnlyIncreasing | src/ui/aggregate-by-visible-dims-dom.js:120-121 | filtering the visible indices keeps their order |
| AggregateVisibleDims.SomeHiddenIff | src/ui/aggregate-by-visible-dims-dom.js:54 | `dims.some(i => hidden[i])` holds iff some listed dimension has a hidden header cell |
| AggregateVisibleDims.AnyHiddenDimension | src/ui/aggregate-by-visible-dims-dom.js:52-54 | aggregation is wanted iff some column typed dimension is hidden in the first header row |
| AggregateVisibleDims.DimValues | src/ui/aggregate-by-visible-dims-dom.js:138-141 | one value per grouping column, "" where the row has no such cell |
| AggregateVisibleDims.Zeros | src/ui/aggregate-by-visible-dims-dom.js:141 | a new entry starts with one zero sum per measure |
| AggregateVisibleDims.AddRow | src/ui/aggregate-by-visible-dims-dom.js:144-147 | adding a row keeps one sum per measure |
| AggregateVisibleDims.Groups | src/ui/aggregate-by-visible-dims-dom.js:133-148 | the Map has at most one entry per row, each with one value per grouping column and one sum per measure |
| AggregateVisibleDims.AccumulateSums | src/ui/aggregate-by-visible-dims-dom.js:144-147 | the `forEach` adds to sum j exactly the row's parsed value of measure j, nothing when it does not parse |
| AggregateVisibleDims.BuildGroups | src/ui/aggregate-by-visible-dims-dom.js:133-148 | the first loop builds exactly the specified Map of groups, in order of first key occurrence |
| AggregateVisibleDims.TuplesMembers | src/ui/aggregate-by-visible-dims-dom.js:134-143 | the distinct grouping tuples are distinct, every row's tuple is among them and each comes from some row |
| AggregateVisibleDims.GroupsFollowTuples | src/ui/aggregate-by-visible-dims-dom.js:131-148 | when no grouping value holds the separator, there is one group per distinct tuple of visible dimension values, in order of first occurrence, under distinct keys |
| AggregateVisibleDims.KeyCollision | src/ui/aggregate-by-visible-dims-dom.js:132-138 | two rows whose values hold the U+241F separator share a key although their tuples differ, so the separator premise is needed |
| AggregateVisibleDims.SumConserved | src/ui/aggregate-by-visible-dims-dom.js:144-147 | for every visible measure, the sums over all groups equal the column's total over the source rows: nothing is lost or counted twice |
| AggregateVisibleDims.Place | src/ui/aggregate-by-visible-dims-dom.js:156-158 | `out[i] = v` replaces cell i inside the array and grows it with holes beyond its end |
| AggregateVisibleDims.PlaceLoop | src/ui/aggregate-by-visible-dims-dom.js:156-158 | the `forEach` writes `vals[k]` at `idx[k]` in turn, as the specified placement |
| AggregateVisibleDims.PlaceAllInside | src/ui/aggregate-by-visible-dims-dom.js:154-158 | with every index inside the row, the writes keep the width, change only the listed cells and leave each one holding its value |
| AggregateVisibleDims.Blank | src/ui/aggregate-by-visible-dims-dom.js:154 | `new Array(colCount).fill("")`: colCount empty cells |
| AggregateVisibleDims.Formatted | src/ui/aggregate-by-visible-dims-dom.js:158 | each sum is shown through `formatNumber` |
| AggregateVisibleDims.LayoutRowCells | src/ui/aggregate-by-visible-dims-dom.js:150-159 | an output row has exactly colCount cells: each grouping column its value, each measure its formatted sum and every other column "" |
| AggregateVisibleDims.Layout | src/ui/aggregate-by-visible-dims-dom.js:150-161 | one output row per Map entry, in the Map's order |
| AggregateVisibleDims.LayOut | src/ui/aggregate-by-visible-dims-dom.js:150-161 | the second loop produces exactly the specified layout |
| AggregateVisibleDims.GroupAndSum | src/ui/aggregate-by-visible-dims-dom.js:131-162 | `groupAndSum` is the layout of the groups of its rows |
| AggregateVisibleDims.Present | src/ui/aggregate-by-visible-dims-dom.js:182 | `r.forEach` visits no more cells than the array is long, skipping holes |
| AggregateVisibleDims.PresentFull | src/ui/aggregate-by-visible-dims-dom.js:182-186 | an array without holes is visited cell by cell |
| AggregateVisibleDims.TrimmedTexts | src/ui/aggregate-by-visible-dims-dom.js:172-173 | one text per cell of the row |
| AggregateVisibleDims.ReadRowsTrimmed | src/ui/aggregate-by-visible-dims-dom.js:166-175 | every text read from the body is trimmed |
| AggregateVisibleDims.Written | src/ui/aggregate-by-visible-dims-dom.js:177-189 | one visible row per array and one cell per text, in order |
| AggregateVisibleDims.WriteReadRoundTrip | src/ui/aggregate-by-visible-dims-dom.js:166-189 | writing rows of trimmed texts and reading the body back gives the same rows |
| AggregateVisibleDims.WrittenRowCount | src/ui/aggregate-by-visible-dims-dom.js:171-187 | every written row is visible, so reading back gives as many rows as were written |
| AggregateVisibleDims.ReadRowsCount | src/ui/aggregate-by-visible-dims-dom.js:171 | a body of visible rows reads back as that many rows |
| AggregateVisibleDims.Tds | src/ui/aggregate-by-visible-dims-dom.js:182-186 | one visible cell per text, holding that text |
| AggregateVisibleDims.RowCells | src/ui/aggregate-by-visible-dims-dom.js:182-186 | the cells created for one array are its present texts, holes skipped |
| AggregateVisibleDims.BuildBody | src/ui/aggregate-by-visible-dims-dom.js:179-188 | the loop appends exactly the specified rows, one per array |
| AggregateVisibleDims.WriteRows | src/ui/aggregate-by-visible-dims-dom.js:177-189 | the rows are replaced by one visible row per array, every other part of the state is kept, and nothing happens without a body |
| AggregateVisibleDims.AsCells | src/ui/aggregate-by-visible-dims-dom.js:95 | the snapshot passed back to `writeRowsToDOM` keeps its row count |
| AggregateVisibleDims.AsCellsPresent | src/ui/aggregate-by-visible-dims-dom.js:95 | a snapshot row written back has no holes: all its texts are written |
| AggregateVisibleDims.RecalcMode | src/ui/aggregate-by-visible-dims-dom.js:48-61 | with a table, recalculation leaves aggregated mode on iff some column typed dimension is hidden |
| AggregateVisibleDims.NothingHidden | src/ui/aggregate-by-visible-dims-dom.js:52-54 | with no hidden header cell, no aggregation is wanted |
| AggregateVisibleDims.RecalcExits | src/ui/aggregate-by-visible-dims-dom.js:56-60 | recalculation with no hidden dimension is a plain exit |
| AggregateVisibleDims.RecalcEnters | src/ui/aggregate-by-visible-dims-dom.js:56-77 | recalculation from detail rows with a hidden dimension snapshots the visible rows and then regroups |
| AggregateVisibleDims.SnapshotOnEntry | src/ui/aggregate-by-visible-dims-dom.js:63-77 | the first entry makes the visible rows the snapshot and turns aggregated mode on |
| AggregateVisibleDims.RecalcKeepsSnapshot | src/ui/aggregate-by-visible-dims-dom.js:63-76 | recalculating while aggregated keeps the snapshot |
| AggregateVisibleDims.RecomputeKeepsSnapshot | src/ui/aggregate-by-visible-dims-dom.js:104-117 | a regroup while aggregated never touches the snapshot or the types, and the body observer's callback is that regroup |
| AggregateVisibleDims.RecomputeAggregated | src/ui/aggregate-by-visible-dims-dom.js:119-126 | a regroup while aggregated writes one visible row per group of the snapshot's visible dimensions |
| AggregateVisibleDims.EnterOneGroup | src/ui/aggregate-by-visible-dims-dom.js:63-127 | entering from detail rows that form one group leaves one visible row and the detail rows as snapshot |
| AggregateVisibleDims.ExitWhenDetailed | src/ui/aggregate-by-visible-dims-dom.js:80 | leaving aggregated mode when not in it changes nothing |
| AggregateVisibleDims.ExitWithoutSnapshot | src/ui/aggregate-by-visible-dims-dom.js:83-92 | with no snapshot, leaving aggregated mode requests a fresh render and leaves the body alone |
| AggregateVisibleDims.ExitRestores | src/ui/aggregate-by-visible-dims-dom.js:94-97 | with a snapshot, leaving aggregated mode writes it back so that the body reads as the snapshot |
| AggregateVisibleDims.ExitRowCount | src/ui/aggregate-by-visible-dims-dom.js:94-97 | the restore puts back as many rows as the snapshot holds |
| AggregateVisibleDims.StepsKeepSnapshotTrimmed | src/ui/aggregate-by-visible-dims-dom.js:198-203 | every step of the mode machine keeps the snapshot trimmed, so the restore applies in every reachable state |
| AggregateVisibleDims.AsWrittenOverwritesSnapshot | src/ui/aggregate-by-visible-dims-dom.js:109-117 | as written, a regroup while aggregated replaces the snapshot with the rows of the aggregated body |
| AggregateVisibleDims.OneGroupSnapshot | src/ui/aggregate-by-visible-dims-dom.js:109-117 | as written, a regroup over a one-row aggregated body leaves a one-row snapshot |
| AggregateVisibleDims.RestoreOneRow | src/ui/aggregate-by-visible-dims-dom.js:79-97 | showing every column again then restores one row |
| AggregateVisibleDims.SnapshotLossCounterexample | src/ui/aggregate-by-visible-dims-dom.js:30-41 | as written: hide the dimension of a two-row table, let the body observer regroup once and show the dimension again; one row comes back where there were two |
| AggregateVisibleDims.SnapshotKeptInScenario | src/ui/aggregate-by-visible-dims-dom.js:30-41 | the same scenario with the regroup reading the snapshot while aggregated gives both rows back |
| AggregateVisibleDims.RestoreAfterRegroup | src/ui/aggregate-by-visible-dims-dom.js:79-127 | from aggregated mode, a corrected regroup and then showing every column restore the snapshot exactly |
| AggregateVisibleDims.Aggregator.constructor | src/ui/aggregate-by-visible-dims-dom.js:7-9 | the module as loaded: no types, no snapshot, not aggregated |
| AggregateVisibleDims.Aggregator.WriteRowsToDom | src/ui/aggregate-by-visible-dims-dom.js:177-189 | the new state is the specified write of the rows |
| AggregateVisibleDims.Aggregator.InitTypesAndSnapshot | src/ui/aggregate-by-visible-dims-dom.js:198-203 | types are detected, and the snapshot is re-read only when not aggregated |
| AggregateVisibleDims.Aggregator.GroupVisible | src/ui/aggregate-by-visible-dims-dom.js:119-123 | the grouped rows of the source under the visible dimensions and measures |
| AggregateVisibleDims.Aggregator.RecomputeAsWritten | src/ui/aggregate-by-visible-dims-dom.js:100-127 | the new state is the as-written regroup step |
| AggregateVisibleDims.Aggregator.Recompute | src/ui/aggregate-by-visible-dims-dom.js:100-127 | the new state is the corrected regroup step, which reads the body only when not aggregated |
| AggregateVisibleDims.Aggregator.Enter | src/ui/aggregate-by-visible-dims-dom.js:63-77 | the new state is the entry step |
| AggregateVisibleDims.Aggregator.Exit | src/ui/aggregate-by-visible-dims-dom.js:79-98 | the new state is the exit step |
| AggregateVisibleDims.Aggregator.Recalc | src/ui/aggregate-by-visible-dims-dom.js:48-61 | the new state is the recalculation step |
| AggregateVisibleDims.Aggregator.BodyChanged | src/ui/aggregate-by-visible-dims-dom.js:30-41 | the new state is the body observer's step |
| AggregateVisibleDims.Aggregator.Initialise | src/ui/aggregate-by-visible-dims-dom.js:13-18 | detection and snapshot, then one recalculation |
| ExportManager.QuoteTrimmed | src/modules/export/exportManager.js:23 | a header or data field is the RFC 4180 escaped form of the trimmed cell text: doubling the quotes and trimming commute |
| ExportManager.KeptCells | src/modules/export/exportManager.js:21-22 | the kept cells are a selection of the row's cells |
| ExportManager.KeptCellsExactly | src/modules/export/exportManager.js:29-31 | a cell is kept iff it is in the row, of the kind asked for (th for the header, td for the body) and shown: not `display: none`, and for the visible export not of class `hidden` |
| ExportManager.Kept | src/modules/export/exportManager.js:29-31 | one text per kept cell |
| ExportManager.KeptAllShown | src/modules/export/exportManager.js:60-62 | when every cell is of the kind asked for and shown, both exports keep them all |
| ExportManager.KeptNone | src/modules/export/exportManager.js:72-74 | when no cell is wanted, nothing is kept |
| ExportManager.QuoteAll | src/modules/export/exportManager.js:31 | each text becomes its own escaped field, in order |
| ExportManager.BodyRecords | src/modules/export/exportManager.js:66-79 | the full export emits one record per body row; the visible export emits at most one per row and never an empty one |
| ExportManager.Records | src/modules/export/exportManager.js:18-33 | the first record is the header texts of the last head row |
| ExportManager.LinesOf | src/modules/export/exportManager.js:24-32 | one line per record |
| ExportManager.LinesOfAt | src/modules/export/exportManager.js:31-32 | line i is record i's fields, quoted and joined by commas |
| ExportManager.CsvText | src/modules/export/exportManager.js:24-32 | the downloaded text is non-empty and ends with a line break: the header line is always written |
| ExportManager.BodyStep | src/modules/export/exportManager.js:67-79 | one more body row adds its record exactly when the writer keeps the row |
| ExportManager.AppendRow | src/modules/export/exportManager.js:67-78 | one pass of the loop appends the row's line and a line break exactly when the row is kept |
| ExportManager.AppendBody | src/modules/export/exportManager.js:27-33 | the loop over the body rows appends exactly the body records' lines |
| ExportManager.WriteTable | src/modules/export/exportManager.js:18-33 | both table exports build exactly the specified text |
| ExportManager.ExportToCsv | src/modules/export/exportManager.js:11-37 | without a table, the alert "No table found to export"; otherwise the full export downloaded as table-export.csv, text/csv |
| ExportManager.ExportToExcel | src/modules/export/exportManager.js:42-45 | the same outcome as the CSV export |
| ExportManager.ExportVisibleToCsv | src/modules/export/exportManager.js:50-83 | without a table, the alert; otherwise the visible export downloaded as table-export-visible.csv |
| ExportManager.QuotedLineReads | src/modules/export/exportManager.js:31-32 | a line of quoted fields is read back by an RFC 4180 reader as those texts |
| ExportManager.RoundTrip | src/modules/export/exportManager.js:18-83 | an RFC 4180 reader gets back exactly the trimmed texts of the kept cells, record by record, whenever no record is empty |
| ExportManager.VisibleSkipsHiddenRows | src/modules/export/exportManager.js:68-78 | the visible export drops a hidden row, and a row with no shown data cell |
| ExportManager.FullKeepsEveryRow | src/modules/export/exportManager.js:28-33 | the full export keeps one record per body row, even an empty one |
| ExportManager.RawField | src/modules/export/exportManager.js:101 | a null or empty cell becomes an empty quoted field; any other cell its escaped form |
| ExportManager.RawRecords | src/modules/export/exportManager.js:97-102 | the column names, then one record per data row with one field per cell |
| ExportManager.ExportRawData | src/modules/export/exportManager.js:88-106 | the alert "No data available to export" iff data, columns or rows are missing; otherwise raw-data-export.csv with a header line and one line per row |
| ExportManager.RawRoundTrip | src/modules/export/exportManager.js:94-102 | the raw export reads back as the columns and the cells, null cells as empty, when no line is empty |
| ExportManager.ExportConfiguration | src/modules/export/exportManager.js:183-193 | version "1.0", the export time, and both arguments exactly as given |
| ExportManager.ImportConfiguration | src/modules/export/exportManager.js:198-222 | "No file selected" without a file, "Failed to parse configuration file" when parsing fails, and otherwise resolves with exactly the parsed object |
| CsvExport.Escape | src/services/export.js:29-33 | a value holding a quote, comma or line break is quoted with its quotes doubled; any other value is written as it is |
| CsvExport.EscapeQuotesIff | src/services/export.js:30-32 | the field is wrapped in quotes iff the value needed quoting |
| CsvExport.EscapeReads | src/services/export.js:29-33 | an RFC 4180 reader recovers every value without a bare CR from its escaped field |
| CsvExport.BareCrUnreadable | src/services/export.js:30 | a lone CR is written unquoted and no RFC 4180 reader accepts it |
| CsvExport.Cells | src/services/export.js:25-27 | one text per cell, a null text read as "" |
| CsvExport.EscapeAll | src/services/export.js:11 | each cell is escaped on its own, in order |
| CsvExport.ExportedRows | src/services/export.js:8-19 | at most one header record (the last head row) and one record per row of the first body |
| CsvExport.ExportedHeadRow | src/services/export.js:9-12 | the first record is the last head row's texts |
| CsvExport.ExportedBodyRow | src/services/export.js:15-19 | after the header, record i is the first body's row i |
| CsvExport.Lines | src/services/export.js:21 | one line per record, its escaped fields joined by commas |
| CsvExport.ExportCsvFromDom | src/services/export.js:2-23 | nothing without a table; otherwise flextable_export.csv, type "text/csv;charset=utf-8;", with the records' lines joined by line breaks |
| CsvExport.CollectLines | src/services/export.js:5-18 | the lines collected are exactly the lines of the exported records: the last header row's, then every row of the first body, in order |
| CsvExport.LineReads | src/services/export.js:21 | a line of a non-empty record without bare CRs reads back as the record |
| CsvExport.RoundTrip | src/services/export.js:2-33 | reading the file back gives exactly the exported texts when every record has a cell, no cell has a bare CR and a last record after others is not one empty cell |
| CsvExport.TrailingEmptyRowLost | src/services/export.js:17-21 | a header "a" over one row with one empty cell is written "a\n", which reads back as the header alone |
| Rfc4180.QuotedReads | src/modules/export/exportManager.js:23 | every string, escaped by doubling its quotes and quoting it, is read back exactly by the reader of section 2 of RFC 4180 |
| Rfc4180.PlainReads | src/services/export.js:32 | a value with no quote, comma, CR or line break, written as it is, is read back exactly |
| Rfc4180.RecordReads | src/services/export.js:21 | readable fields joined by commas are read back as their values, up to a line break or the end |
| Rfc4180.DocumentReads | src/services/export.js:21 | lines joined by line breaks read back as their records, unless the last of several lines is empty |
| Rfc4180.TerminatedReads | src/modules/export/exportManager.js:24-32 | lines each followed by a line break read back as their records |
| MeasureGroupingUi.Initial | src/ui/measure-grouping.js:3-12 | the five default groups Revenue, Costs, Commission %, Payout and Other, all empty, and no custom group |
| MeasureGroupingUi.FindCustom | src/ui/measure-grouping.js:350 | the first custom group of that name, or -1 exactly when none has it |
| MeasureGroupingUi.RemoveMeasureStep | src/ui/measure-grouping.js:379-392 | every default and every custom group loses exactly its occurrences of the measure, names kept |
| MeasureGroupingUi.AvailableMeasures | src/ui/measure-grouping.js:131-136 | the available list keeps the measures' order and holds exactly the measures in no group |
| MeasureGroupingUi.HasDeleteButton | src/ui/measure-grouping.js:224-227 | a delete button is drawn iff the name is not one of the default group keys |
| MeasureGroupingUi.UpdateGroups | src/ui/measure-grouping.js:345-355 | after `updateGrouping` the measure is grouped iff it was, or the name is a default group, or some custom group has it |
| MeasureGroupingUi.UpdateKeepsOthers | src/ui/measure-grouping.js:345-355 | `updateGrouping` never changes whether another measure is grouped |
| MeasureGroupingUi.DefaultNameWins | src/ui/measure-grouping.js:346-353 | a custom group named like a default group is never filled: the default group of that name takes the measure |
| MeasureGroupingUi.AddThenUpdate | src/ui/measure-grouping.js:345-359 | a new custom group, when no earlier group has its name, receives the measure dropped on it |
| MeasureGroupingUi.DeleteCustom | src/ui/measure-grouping.js:361-363 | exactly the custom groups of that name go, the rest keep their order, and the default groups stay |
| MeasureGroupingUi.RemoveUngroups | src/ui/measure-grouping.js:379-392 | after removal the measure is in no group, and every other measure is grouped iff it was |
| MeasureGroupingUi.RemoveKeepsOrder | src/ui/measure-grouping.js:381-388 | each group's list after removal is a subsequence of what it was |
| MeasureGroupingUi.RemovedIsAvailable | src/ui/measure-grouping.js:131-136 | a measure just removed shows up again in the available list |
| MeasureGroupingUi.MeasureGrouping.constructor | src/ui/measure-grouping.js:3-12 | the initial groups |
| MeasureGroupingUi.MeasureGrouping.UpdateGrouping | src/ui/measure-grouping.js:345-355 | the new state is the `updateGrouping` step |
| MeasureGroupingUi.MeasureGrouping.AddCustomGroup | src/ui/measure-grouping.js:357-359 | an empty custom group is appended |
| MeasureGroupingUi.MeasureGrouping.DeleteCustomGroup | src/ui/measure-grouping.js:361-363 | the custom groups of that name are filtered out |
| MeasureGroupingUi.MeasureGrouping.IsMeasureGrouped | src/ui/measure-grouping.js:365-377 | true iff the measure is in some default or custom group |
| MeasureGroupingUi.MeasureGrouping.RemoveMeasureFromGroup | src/ui/measure-grouping.js:379-392 | the new state is the removal step |
| MeasureGroupingUi.MeasureGrouping.ResetGroups | src/ui/measure-grouping.js:394-403 | back to the initial groups |
| FieldSettings.Keys | src/ui/settings-manager.js:376 | `Object.keys(settings)`: one key per entry, in entry order; `removeFieldFromCategory` filters every list, so the order does not affect its result |
| FieldSettings.Initial | src/ui/settings-manager.js:4-10 | the four category keys measureColumns, dimensionColumns, details and tooltips, in that order, each with an empty list |
| FieldSettings.ListOf | src/ui/settings-manager.js:335 | `settings[key]` is absent exactly when the key is not there, and otherwise is that key's list |
| FieldSettings.CategoryIdToKey | src/ui/settings-manager.js:383-391 | the four element ids map to their keys and any other id is returned unchanged |
| FieldSettings.CategoryIdsMapToKeys | src/ui/settings-manager.js:383-391 | every id the dialog uses maps to one of the four category keys |
| FieldSettings.InferFieldType | src/ui/settings-manager.js:146-160 | int and float are measures; string, bool, date, datetime and every other data type are dimensions |
| FieldSettings.TotalFieldsZero | src/ui/settings-manager.js:837-840 | the summed length is 0 iff every listed category is empty or missing |
| FieldSettings.AllConfigured | src/ui/settings-manager.js:163-168 | the spread of the four lists throws a TypeError (None) exactly when one of them is missing; otherwise it holds exactly the fields of the four lists |
| FieldSettings.AllConfiguredHasName | src/ui/settings-manager.js:163-170 | some field of the spread list carries the name exactly when one of the four lists has a field of that name |
| FieldSettings.IsFieldInUse | src/ui/settings-manager.js:162-171 | `isFieldInUse` throws a TypeError (None) exactly when a category list is missing; otherwise it is true exactly when one of the four lists has a field of that name |
| FieldSettings.WellFormedHasLists | src/ui/settings-manager.js:4-10 | an object holding the four category keys, as the constructor, the reset and every change keep it, never makes `isFieldInUse` or `hasConfiguredFields` throw |
| FieldSettings.HasConfiguredFields | src/ui/settings-manager.js:836-842 | `hasConfiguredFields` throws a TypeError (None) exactly when a category list is missing; otherwise it is true exactly when one of the four lists is non-empty |
| FieldSettings.ConfiguredIffSomeInUse | src/ui/settings-manager.js:836-842 | `hasConfiguredFields` answers true exactly when all four lists are present and some field name is in use |
| FieldSettings.InUseIsConfigured | src/ui/settings-manager.js:162-171 | when a field is in use, `hasConfiguredFields` answers true whenever it does not throw |
| FieldSettings.AvailableFields | src/ui/settings-manager.js:175-193 | the available list keeps the data source's order and holds exactly the fields whose names are not in use |
| FieldSettings.WithoutName | src/ui/settings-manager.js:377-379 | the filtered list keeps exactly the fields of other names, so the name is gone |
| FieldSettings.RemoveStep | src/ui/settings-manager.js:375-381 | every key is kept and every key's list is filtered |
| FieldSettings.RemoveKeeps | src/ui/settings-manager.js:375-381 | after removal the name is in no list, each list is a subsequence of what it was, and every field of another name stays exactly where it was |
| FieldSettings.AddStep | src/ui/settings-manager.js:357-373 | adding never drops a key |
| FieldSettings.FindName | src/ui/settings-manager.js:336 | `findIndex`: the first field of that name, or -1 exactly when there is none |
| FieldSettings.ReplaceList | src/ui/settings-manager.js:340 | the swap writes one category's list back and leaves its key and every other entry as they were |
| FieldSettings.AddOnce | src/ui/settings-manager.js:357-373 | after `addFieldToCategory(n, t, id)` the settings stay well formed and n occurs exactly once over all lists, as the last entry of the id's list, which is created at the end when missing |
| FieldSettings.AddKeepsOthers | src/ui/settings-manager.js:357-373 | every field of another name stays in the same lists |
| FieldSettings.AddInUse | src/ui/settings-manager.js:162-171 | the added name is in use afterwards iff the id names one of the four categories; a field added under an unknown id is not seen by `isFieldInUse` |
| FieldSettings.AddKeepsCategoryKeys | src/ui/settings-manager.js:357-373 | adding through one of the dialog's ids keeps exactly the four category keys |
| FieldSettings.MoveUpStep | src/ui/settings-manager.js:333-343 | the move fails exactly when the id names no list, where `fields.findIndex` throws |
| FieldSettings.MoveDownStep | src/ui/settings-manager.js:345-355 | the corrected move down fails exactly when the id names no list |
| FieldSettings.MoveUpPermutes | src/ui/settings-manager.js:333-343 | moving up only reorders its own list: same keys and, per list, the same multiset of fields |
| FieldSettings.MoveDownPermutes | src/ui/settings-manager.js:345-355 | the corrected move down keeps the keys and each list's multiset |
| FieldSettings.FindAfterSwapUp | src/ui/settings-manager.js:336-340 | after the swap up the field is found one place earlier |
| FieldSettings.MoveDownUndoesUp | src/ui/settings-manager.js:333-355 | moving a field with a predecessor up and then down restores the settings |
| FieldSettings.ListDownUndoesUp | src/ui/settings-manager.js:336-352 | on one list, after the move up the field has a successor, and swapping back gives the old list |
| FieldSettings.ReplaceBack | src/ui/settings-manager.js:340 | writing a category's old list back undoes the replacement |
| FieldSettings.MoveDownAbsent | src/ui/settings-manager.js:345-355 | the corrected move down leaves a list without the field as it was |
| FieldSettings.MoveDownAsWritten | src/ui/settings-manager.js:345-355 | the as-written move down keeps the list's length |
| FieldSettings.MoveDownAsWrittenLosesFirst | src/ui/settings-manager.js:348-352 | as written, moving down a name absent from a non-empty list writes `fields[-1]` (undefined) into slot 0 and keeps the rest |
| FieldSettings.MoveDownAsWrittenCounterexample | src/ui/settings-manager.js:348-352 | one measure "Sales" and a move down for "Profit" leave one undefined slot |
| FieldSettings.ResetFreesAll | src/ui/settings-manager.js:451-459 | after the reset `hasConfiguredFields` answers false, without throwing, and every data-source field is available |
| FieldSettings.RemoveEverywhere | src/ui/settings-manager.js:376-380 | the `forEach` over the keys produces exactly the removal step |
| FieldSettings.PushField | src/ui/settings-manager.js:363-370 | the push creates a missing list empty and appends the field |
| FieldSettings.AddToCategory | src/ui/settings-manager.js:357-373 | removal everywhere followed by the push is exactly the add step |
| FieldSettings.AsSettings | src/ui/settings-manager.js:677-689 | a validated value reads as well-formed settings with the four category keys |
| FieldSettings.MemberOfEntries | src/ui/settings-manager.js:677-689 | a key of the saved object is read back as its own entry |
| FieldSettings.FieldJsonReads | src/ui/settings-manager.js:684-686 | a saved field is a valid {name, type} item that reads back as the same field |
| FieldSettings.SavedSettingsValidate | src/ui/settings-manager.js:677-689 | settings as saved pass `validateSettings` and read back as the same four lists |
| FieldSettings.ValidateSettings | src/ui/settings-manager.js:677-689 | a value that passes `validateSettings` is an object holding an array under each of the four category keys; SavedSettingsValidate and RejectsMissingList state which values pass |
| FieldSettings.RejectsMissingList | src/ui/settings-manager.js:678-682 | an object lacking a category list, an array, null and nothing are all rejected |
| SettingsManager.SettingsManager.constructor | src/ui/settings-manager.js:4-14 | the four empty lists |
| SettingsManager.SettingsManager.GetSettings | src/ui/settings-manager.js:691-693 | the settings object itself, not a copy; while the manager is valid it holds all four category lists |
| SettingsManager.SettingsManager.IsFieldInUse | src/ui/settings-manager.js:162-171 | the manager's object always holds the four lists, so `isFieldInUse` never throws; true exactly when one of them has a field of that name |
| SettingsManager.SettingsManager.HasConfiguredFields | src/ui/settings-manager.js:836-842 | never throws on the manager's object; true exactly when some field name is in use |
| SettingsManager.SettingsManager.RemoveFieldFromCategory | src/ui/settings-manager.js:375-381 | the new settings are the removal step and stay well formed |
| SettingsManager.SettingsManager.AddFieldToCategory | src/ui/settings-manager.js:357-373 | the new settings are the add step and stay well formed |
| SettingsManager.SettingsManager.MoveFieldUp | src/ui/settings-manager.js:333-343 | false exactly where the source throws; otherwise the new settings are the move-up step |
| SettingsManager.SettingsManager.MoveFieldDown | src/ui/settings-manager.js:345-355 | false exactly where the source throws; otherwise the corrected move-down step |
| SettingsManager.SettingsManager.ResetSettings | src/ui/settings-manager.js:451-459 | back to the four empty lists |
| FixedSettings.BlankRejected | src/ui/fixed-settings.js:70 | a missing stored value, or one that is blank after `trim`, is never loaded, whatever the parser does |
| FixedSettings.LoadAfterSave | src/ui/fixed-settings.js:70-88 | the text of saved settings, parsing back to their object, is accepted and loads exactly the same four lists |
| FixedSettings.FixedSettings.constructor | src/ui/fixed-settings.js:4-14 | the four empty lists |
| FixedSettings.FixedSettings.LoadSettings | src/ui/fixed-settings.js:66-95 | true, with the parsed lists stored, iff the stored text is non-blank, parses and validates; otherwise false with the settings unchanged |
| FixedSettings.FixedSettings.GetSettings | src/ui/fixed-settings.js:135-138 | the settings object itself, not a copy; while the dialog is valid it holds all four category lists |
| FixedSettings.FixedSettings.IsFieldInUse | src/ui/fixed-settings.js:184-193 | the dialog's object always holds the four lists, so `isFieldInUse` never throws; true exactly when one of them has a field of that name |
| FixedSettings.FixedSettings.SaveSettings | src/ui/fixed-settings.js:103-119 | the text stored under flextable-field-config is the stringified settings object |
| FixedSettings.FixedSettings.AddFieldToCategory | src/ui/fixed-settings.js:302-316 | the new settings are the add step, so the name ends up exactly once, last in the target list |
| FixedSettings.FixedSettings.RemoveFieldFromCategory | src/ui/fixed-settings.js:318-324 | the new settings are the removal step |
| FixedSettings.FixedSettings.ResetSettings | src/ui/fixed-settings.js:358-366 | back to the four empty lists |
| SimpleSettingsUi.SimpleSettingsUi.constructor | src/ui/simple-settings-ui.js:4-10 | the dialog works on the worksheet settings object it is given |
| SimpleSettingsUi.SimpleSettingsUi.IsFieldInUse | src/ui/simple-settings-ui.js:80-90 | on the worksheet object's settings, which `load` stores unvalidated: a TypeError (None) exactly when a category list is missing; otherwise true exactly when one of the four lists has a field of that name |
| SimpleSettingsUi.SimpleSettingsUi.RemoveFieldFromCategory | src/ui/simple-settings-ui.js:221-231 | the worksheet object's settings become the removal step of what they were |
| SimpleSettingsUi.SimpleSettingsUi.AddFieldToCategory | src/ui/simple-settings-ui.js:200-219 | the worksheet object's settings become the add step, so the name is exactly once, last in the target list, and written back through `updateSettings` |
| SimpleSettingsUi.SimpleSettingsUi.ResetSettings | src/ui/simple-settings-ui.js:267-275 | the worksheet object is given four empty lists |
| WorksheetMarker.MarkerFrom | src/ui/worksheet-settings.js:22 | the first position from `from` on where "[FT:" starts, or -1 exactly when there is none |
| WorksheetMarker.BeforeMarker | src/ui/worksheet-settings.js:22 | `split('[FT:')[0]` is a marker-free prefix of the name, and all of it exactly when the name has no marker |
| WorksheetMarker.CleanIdempotent | src/ui/worksheet-settings.js:78 | cleaning a cleaned name changes nothing |
| WorksheetMarker.SavedMarkerOnce | src/ui/worksheet-settings.js:22 | when the encoded text holds no '[', the saved name holds "[FT:" exactly once, right after the kept prefix |
| WorksheetMarker.ResaveReplaces | src/ui/worksheet-settings.js:22 | saving again replaces the marker instead of stacking a second one |
| WorksheetMarker.RunFrom | src/ui/worksheet-settings.js:45 | `[^\]]+` takes the longest run without ']' from its start |
| WorksheetMarker.MatchSkips | src/ui/worksheet-settings.js:45 | positions without a marker are skipped by the leftmost match |
| WorksheetMarker.MatchNone | src/ui/worksheet-settings.js:45 | no marker from a position on means no match from there |
| WorksheetMarker.NoMarkerNoMatch | src/ui/worksheet-settings.js:45-50 | a name without a marker loads nothing |
| WorksheetMarker.RunOver | src/ui/worksheet-settings.js:45 | the run from p spans exactly a ']'-free text that a ']' follows |
| WorksheetMarker.MarkerFreeBefore | src/ui/worksheet-settings.js:22 | appending text that starts with '[' adds no marker inside a marker-free prefix |
| WorksheetMarker.MatchAt | src/ui/worksheet-settings.js:45-52 | a marker followed by a non-empty ']'-free run and a ']' is matched there, with the run as group 1 |
| WorksheetMarker.SaveLoadRoundTrip | src/ui/worksheet-settings.js:22-52 | `load` extracts exactly what `save` wrote, for any non-empty encoded text without ']' |
| WorksheetMarker.EmptyEncodedNotLoaded | src/ui/worksheet-settings.js:45 | an empty marker "[FT:]" is not matched |
| WorksheetMarker.Base64RoundTrip | src/ui/worksheet-settings.js:19-52 | non-empty base64 text is saved under exactly one marker and loaded back exactly |
| WorksheetMarker.WorksheetSettings.constructor | src/ui/worksheet-settings.js:3-10 | the four empty lists |
| WorksheetMarker.WorksheetSettings.Save | src/ui/worksheet-settings.js:12-35 | no new name when encoding throws; otherwise the name before its first marker followed by "[FT:", the encoded settings and "]" |
| WorksheetMarker.WorksheetSettings.GetSettings | src/ui/worksheet-settings.js:65-67 | the stored settings object itself, whatever `load` put there |
| WorksheetMarker.WorksheetSettings.Load | src/ui/worksheet-settings.js:37-63 | true, with the decoded settings stored, iff the name holds a match and its text decodes; otherwise false and the settings unchanged |
| WorksheetMarker.WorksheetSettings.UpdateSettings | src/ui/worksheet-settings.js:69-71 | the settings become the given ones |
| WorksheetMarker.WorksheetSettings.CleanWorksheetName | src/ui/worksheet-settings.js:74-87 | a rename is asked for iff the name holds a marker, and it is the marker-free name before the first one |
| ConfigModal.NumericNames | src/modules/config/configModal.js:180-185 | no more names than columns |
| ConfigModal.NumericNamesExactly | src/modules/config/configModal.js:180-185 | a name is offered exactly when some column of that name has, lower-cased, one of the types float, integer, real, number, int or double, and the names keep column order |
| ConfigModal.GetNumericColumns | src/modules/config/configModal.js:177-186 | no data, or data without column types, offers nothing; otherwise the numeric column names |
| ConfigModal.SavedAppend | src/modules/config/configModal.js:152-160 | saving works block by block: the groups of two runs of blocks are the first run's followed by the second's |
| ConfigModal.SavedOne | src/modules/config/configModal.js:153-159 | one block saves as its own group, or nothing |
| ConfigModal.SavedBlock | src/modules/config/configModal.js:152-160 | each block's group lands in its place among the others |
| ConfigModal.SavedPrefix | src/modules/config/configModal.js:152-160 | one block more adds that block's group at the end |
| ConfigModal.DroppedBlock | src/modules/config/configModal.js:157 | a block with a blank trimmed name or fewer than two checked measures is dropped without a trace |
| ConfigModal.SavedGroupsValid | src/modules/config/configModal.js:153-159 | at most one group per block, and every saved group has a non-blank name, at least two measures and starts expanded |
| ConfigModal.EditorBlock | src/modules/config/configModal.js:102-141 | the block opened on a group holds its name and one checkbox per numeric column, in column order, checked exactly when the group lists that column |
| ConfigModal.OpenBlocks | src/modules/config/configModal.js:82-85 | one block per group, in the grouping's order, each with the group's name and one box per numeric column |
| ConfigModal.CheckedOfEditor | src/modules/config/configModal.js:129-133 | the boxes checked when a group is opened are exactly the numeric columns among its measures, in column order |
| ConfigModal.CheckedAtLeast | src/modules/config/configModal.js:154-157 | two checked boxes give at least two checked measures |
| ConfigModal.CheckedAtLeastOne | src/modules/config/configModal.js:154-156 | a checked box gives at least one checked measure |
| ConfigModal.ReopenedGroupSaved | src/modules/config/configModal.js:102-160 | opening the editor on a group with a non-blank name and two numeric measures and saving it unchanged keeps one group: the trimmed name, exactly its numeric measures in column order, expanded |
| ConfigModal.ConfigModal.constructor | src/modules/config/configModal.js:7-10 | no current data, and the measure grouping it is given |
| ConfigModal.ConfigModal.Open | src/modules/config/configModal.js:70-88 | without data the alert and no change; otherwise the data is kept and one block is shown per group over the numeric columns; data without column types throws once there is a group to show |
| ConfigModal.ConfigModal.SaveConfiguration | src/modules/config/configModal.js:146-160 | every group is cleared and then one group is added per kept block, in block order |
| SimpleColumnDrag.MoveInRow | src/ui/simple-column-drag.js:56-76 | a row long enough for both indices ends with the dragged cell at the drop index and the others in order; a shorter row is left alone |
| SimpleColumnDrag.MovedRight | src/ui/simple-column-drag.js:66-72 | moving right, re-inserting before the target's next sibling, or appending when there is none, puts the cell at the drop index |
| SimpleColumnDrag.MovedLeft | src/ui/simple-column-drag.js:73-76 | moving left, inserting before the target puts the cell at the drop index |
| SimpleColumnDrag.MoveColumn | src/ui/simple-column-drag.js:52-77 | every row of the table is moved alike |
| SimpleColumnDrag.KeysOf | src/ui/simple-column-drag.js:135-138 | one name per cell: a header row's first cell by its own text, every other cell by the header of the same position in the first header row |
| SimpleColumnDrag.Values | src/ui/simple-column-drag.js:132-144 | the map's cells in the order their names were first entered |
| SimpleColumnDrag.ObjectValues | src/ui/simple-column-drag.js:158 | `Object.values(cellMap)` lists the same cells as the map holds, each as often, in the object's own-key order |
| SimpleColumnDrag.ObjectValuesMembers | src/ui/simple-column-drag.js:158 | `Object.values` lists exactly the map's cells, and distinct cells once each |
| SimpleColumnDrag.IndexNamedCellFirst | src/ui/simple-column-drag.js:130-162 | cells named Region and 2020, refilled in a saved order naming neither, come out as the 2020 cell then the Region cell |
| JsObject.OwnOrderValues | src/ui/simple-column-drag.js:158 | listing an object's values in own-key order loses and adds no entry and no value |
| JsObject.OwnOrderShape | src/ui/simple-column-drag.js:158 | own-key order lists exactly the entries whose keys are array indices, by ascending numeric value, then exactly the other entries in creation order |
| JsObject.IndexKeyFirst | src/ui/simple-column-drag.js:158 | an object given the key Region and then the key 2020 lists 2020 first |
| JsObject.IndexKeyExamples | src/ui/simple-column-drag.js:158 | 2020 is an array index and Region is not |
| SimpleColumnDrag.FirstCells | src/ui/simple-column-drag.js:140-142 | the map has distinct names and no more entries than cells |
| SimpleColumnDrag.FirstCellsKeys | src/ui/simple-column-drag.js:135-143 | the map's names are exactly the row's names |
| SimpleColumnDrag.FirstCellsFrom | src/ui/simple-column-drag.js:135-143 | every mapped cell comes from the row, and distinct cells give distinct entries |
| SimpleColumnDrag.FirstCellsDistinct | src/ui/simple-column-drag.js:135-143 | with distinct names the map holds every cell, in row order |
| SimpleColumnDrag.FirstCellsGet | src/ui/simple-column-drag.js:140-142 | each name finds the first cell that carries it |
| SimpleColumnDrag.ArrangedDistinct | src/ui/simple-column-drag.js:151-155 | re-adding never repeats a cell and only brings in mapped cells |
| SimpleColumnDrag.ArrangedPlaced | src/ui/simple-column-drag.js:151-155 | with no saved name repeated, each found cell is new to the row, so `appendChild` adds at the end |
| SimpleColumnDrag.CompletedMembers | src/ui/simple-column-drag.js:158-162 | adding the missing cells adds each once and nothing else |
| SimpleColumnDrag.CompletedShape | src/ui/simple-column-drag.js:158-162 | the completed row is the arranged cells followed by the mapped cells not yet in it, in map order |
| SimpleColumnDrag.RowRefilled | src/ui/simple-column-drag.js:130-162 | a refilled row holds exactly the mapped cells, each once, with the cells the saved names find first, in saved order, and then the others in `Object.values` order |
| SimpleColumnDrag.RowPermuted | src/ui/simple-column-drag.js:130-162 | with distinct names in the row no cell is lost: the row is only rearranged, the unmatched cells following in `Object.values` order of the row's cells |
| SimpleColumnDrag.PlacedAll | src/ui/simple-column-drag.js:151-155 | when every saved name finds a cell, one cell per name is placed, in saved order |
| SimpleColumnDrag.FoundUnder | src/ui/simple-column-drag.js:135-142 | with distinct names, each name finds the cell standing under it |
| SimpleColumnDrag.PlacedUnder | src/ui/simple-column-drag.js:151-155 | with a saved order that rearranges distinct names, the placed cells are the row's cells in saved order |
| SimpleColumnDrag.ColumnsFollowNames | src/ui/simple-column-drag.js:130-162 | with distinct names and a saved order that rearranges them, position k of every refilled row holds the cell that stood under the k-th saved name, so all rows are permuted alike |
| SimpleColumnDrag.SavedFrom | src/ui/simple-column-drag.js:124-167 | the table keeps its row count; a row that throws leaves it and every later row as they were |
| SimpleColumnDrag.Saved | src/ui/simple-column-drag.js:114-167 | corrected: the names are read from the first header row once, before any row is refilled; the row count is kept |
| SimpleColumnDrag.SavedAsWritten | src/ui/simple-column-drag.js:136-138 | as written: the header is looked up again for every row, after the first header row has been refilled |
| SimpleColumnDrag.SavedFromDistinct | src/ui/simple-column-drag.js:130-162 | refilling keeps every row's cells distinct |
| SimpleColumnDrag.RefillRow | src/ui/simple-column-drag.js:131-162 | no result exactly when some cell cannot be named; otherwise the rebuilt row |
| SimpleColumnDrag.BuildCellMap | src/ui/simple-column-drag.js:132-143 | the naming loop keeps the first cell under each name, and fails exactly when a name lookup throws |
| SimpleColumnDrag.EmptyRow | src/ui/simple-column-drag.js:146-148 | the row ends with no children |
| SimpleColumnDrag.AppendFound | src/ui/simple-column-drag.js:151-155 | the loop appends exactly the arranged cells |
| SimpleColumnDrag.AppendRest | src/ui/simple-column-drag.js:158-162 | the loop appends exactly the missing cells |
| SimpleColumnDrag.SavedFromAt | src/ui/simple-column-drag.js:130-163 | row k is refilled and later rows follow when it can be named; otherwise it and the later rows stay as they were |
| SimpleColumnDrag.ApplySavedOrder | src/ui/simple-column-drag.js:128-163 | the loop over the rows produces exactly the corrected refill |
| SimpleColumnDrag.MovedHeader | src/ui/simple-column-drag.js:52-77 | the dragged header lands at the drop index, and so does its name |
| SimpleColumnDrag.DropMoves | src/ui/simple-column-drag.js:52-90 | a drop keeps the rows distinct and as many, and moves the header names alike, which is the order saved |
| SimpleColumnDrag.DroppedRows | src/ui/simple-column-drag.js:52-77 | the rows `moveColumn` leaves: every long-enough row moved from the dragged index to the drop index, still distinct and as many, the dragged header at the drop index |
| SimpleColumnDrag.DroppedNames | src/ui/simple-column-drag.js:85-90 | the names `saveColumnOrder` reads after the drop: the first header row's names with the dragged one moved to the drop index |
| SimpleColumnDrag.DropRows | src/ui/simple-column-drag.js:36-37 | the rows `moveColumn` leaves and the names then saved: still distinct and as many, and when both indices lie in the header the dragged header sits at the drop index and the names are the old names with the dragged one moved there |
| SimpleColumnDrag.Binding | src/ui/simple-column-drag.js:11-42 | exactly the headers present when `setupDrag` runs are given handlers |
| SimpleColumnDrag.BindingAt | src/ui/simple-column-drag.js:11-19 | with distinct headers, each handler pair captures its header's index at that moment |
| SimpleColumnDrag.SimpleDrag.constructor | src/ui/simple-column-drag.js:2-3 | the table, its header rows and the stored order as given, with nothing dragged and no handlers bound |
| SimpleColumnDrag.SimpleDrag.SetupDrag | src/ui/simple-column-drag.js:5-50 | with a header row, every current header is re-bound to its current index, so the handlers are current; without one nothing is bound |
| SimpleColumnDrag.SimpleDrag.DragStart | src/ui/simple-column-drag.js:18-22 | the index the header's handler captured is recorded as dragged; with current handlers that is the header's own index |
| SimpleColumnDrag.SimpleDrag.Drop | src/ui/simple-column-drag.js:31-42 | ignored on a header with no handler, without a drag, or when the drag started at the drop header's own captured index; otherwise the column at the dragged index moves to the drop header's captured index in every long-enough row, the drag ends, the new header order is stored and every header is re-bound; with current handlers the dragged header lands where it was dropped and the stored names are the old ones with it moved there |
| SimpleColumnDrag.SimpleDrag.MoveDragged | src/ui/simple-column-drag.js:36-37 | the table is moved, the drag ends and the moved header names are stored |
| SimpleColumnDrag.SimpleDrag.ApplySavedColumnOrder | src/ui/simple-column-drag.js:114-167 | nothing without a stored order; otherwise the corrected refill of every row |
| SimpleColumnDrag.SimpleDrag.EnableColumnDrag | src/ui/simple-column-drag.js:107-111 | as written: the handlers are bound to the drawn order, then the saved order is restored, so the handlers keep the pre-restore indices |
| SimpleColumnDrag.SimpleDrag.EnableColumnDragCorrected | src/ui/simple-column-drag.js:107-111 | corrected: the saved order is restored first and the handlers are bound to it, so they are current |
| SimpleColumnDrag.StaleDragCounterexample | src/ui/simple-column-drag.js:11-42 | headers A, B, C bound before a restore to C, A, B: dragging C onto A moves index 2 to 0 and gives B, C, A; with handlers bound after the restore it moves 0 to 1 and gives A, C, B |
| SimpleColumnDrag.RestoredThree | src/ui/simple-column-drag.js:114-167 | a header A, B, C restored under the saved order C, A, B becomes C, A, B |
| SimpleColumnDrag.RebuiltThree | src/ui/simple-column-drag.js:130-162 | three cells under three distinct names, refilled last name first, come out last cell first |
| SimpleColumnDrag.SavedHeaderOnly | src/ui/simple-column-drag.js:124-167 | a table of one header row is refilled under its own names |
| SimpleColumnDrag.RefilledSwapped | src/ui/simple-column-drag.js:130-162 | two cells under two names, refilled in swapped order, swap |
| SimpleColumnDrag.RefilledSame | src/ui/simple-column-drag.js:130-162 | refilled in their own order they stay |
| SimpleColumnDrag.MisalignedBodyCounterexample | src/ui/simple-column-drag.js:136-138 | header A, B over body x, y with saved order B, A: as written the header becomes B, A while the body stays x, y; with the names read first the body becomes y, x |
| SimpleColumnDrag.MisalignedBody | src/ui/simple-column-drag.js:136-138 | the same for any two distinct headers with distinct names over any two distinct body cells |
| SimpleColumnDrag.AsWrittenUnfold | src/ui/simple-column-drag.js:130-163 | as written, the rows after the first header row are named by that row as already refilled |
| CleanColumnReorder.LastIndexOf | src/ui/clean-column-reorder.js:167-169 | the last index holding the name, -1 exactly when it is absent |
| CleanColumnReorder.IndexMap | src/ui/clean-column-reorder.js:166-169 | `columnIndexMap` holds exactly the header names, each at the index of its last occurrence (a header named `__proto__` is the exception listed under Left out) |
| CleanColumnReorder.IndexMapSnoc | src/ui/clean-column-reorder.js:167-169 | a later name overwrites the entry of an earlier equal one |
| CleanColumnReorder.IndexMapDistinct | src/ui/clean-column-reorder.js:166-169 | with distinct names each name maps to its own index |
| CleanColumnReorder.BuildIndexMap | src/ui/clean-column-reorder.js:166-169 | the `forEach` builds exactly that table (the same `__proto__` exception) |
| CleanColumnReorder.Pick | src/ui/clean-column-reorder.js:178-181 | a name contributes one cell exactly when it is in the table and the row has a cell at its index |
| CleanColumnReorder.PickedAll | src/ui/clean-column-reorder.js:177-182 | when every name is found inside the row, the k-th new cell is the cell at the k-th name's index |
| CleanColumnReorder.PickedSkips | src/ui/clean-column-reorder.js:179 | an unknown name, or one whose index the row lacks, contributes nothing |
| CleanColumnReorder.RebuildRow | src/ui/clean-column-reorder.js:173-192 | the row ends up holding exactly the picked cells, in the new order |
| CleanColumnReorder.Applied | src/ui/clean-column-reorder.js:172-193 | every row is rebuilt and the row count is kept |
| CleanColumnReorder.ApplyColumnOrder | src/ui/clean-column-reorder.js:151-193 | the header names are read once and each row is rebuilt from them |
| CleanColumnReorder.HeaderTakesOrder | src/ui/clean-column-reorder.js:172-193 | rebuilding the header row in an order of header names gives headers named exactly in that order |
| CleanColumnReorder.AppliedHeader | src/ui/clean-column-reorder.js:151-193 | applied to the whole table, the first header row takes the new order |
| CleanColumnReorder.SamePermutation | src/ui/clean-column-reorder.js:172-193 | with distinct header names and a new order that rearranges them, every full row receives the same permutation of its cells |
| CleanColumnReorder.SameNames | src/ui/clean-column-reorder.js:85 | a rearranged order has the same length and the same names |
| CleanColumnReorder.CleanReorder.constructor | src/ui/clean-column-reorder.js:28-32 | the table, its header flag and the stored order as given, with no dialog open |
| CleanColumnReorder.CleanReorder.ShowDialog | src/ui/clean-column-reorder.js:28-85 | the dialog opens on the header names in their present order, the table untouched |
| CleanColumnReorder.CleanReorder.MoveUp | src/ui/clean-column-reorder.js:113-118 | the up arrow exchanges the entry with the one above it, and stays a rearrangement of the header names |
| CleanColumnReorder.CleanReorder.MoveDown | src/ui/clean-column-reorder.js:120-125 | the down arrow exchanges the entry with the one below it |
| CleanColumnReorder.CleanReorder.Cancel | src/ui/clean-column-reorder.js:134-148 | Cancel or a click outside closes the dialog and changes nothing else |
| CleanColumnReorder.CleanReorder.SaveColumnOrder | src/ui/clean-column-reorder.js:201-208 | the present header names are stored |
| CleanColumnReorder.CleanReorder.ApplyAndSave | src/ui/clean-column-reorder.js:151-199 | the rows are rebuilt, the new header names stored, and the header row follows an order made of header names |
| CleanColumnReorder.CleanReorder.Apply | src/ui/clean-column-reorder.js:138-141 | Apply rebuilds the rows in the dialog's order, stores it and closes the dialog; the header row then lists exactly the dialog's names |
| CleanColumnReorder.CleanReorder.RestoreColumnOrder | src/ui/clean-column-reorder.js:220-236 | nothing without a saved order; otherwise it is applied and saved again, and the header row follows it when every saved name is a header name |
| CleanColumnReorder.Up | src/ui/clean-column-reorder.js:103-118 | the entry changes places with the one above, no change on the first entry (whose up button is disabled), the same names kept |
| CleanColumnReorder.Down | src/ui/clean-column-reorder.js:104-125 | the entry changes places with the one below, no change on the last entry (whose down button is disabled), the same names kept |
| CleanColumnReorder.UpThenDown | src/ui/clean-column-reorder.js:113-125 | moving an entry up and back down, or down and back up, restores the dialog's order |
| ButtonColumnReorder.ControlsFor | src/ui/button-column-reorder.js:17-49 | the header at index k gets a left arrow exactly when it is not first and a right arrow exactly when it is not last, both bound to k |
| ButtonColumnReorder.MoveInRow | src/ui/button-column-reorder.js:58-73 | a row reaching both indices ends with the cell at the target index, the others in order; any other row is unchanged |
| ButtonColumnReorder.InsertAfterTarget | src/ui/button-column-reorder.js:66-68 | moving right, inserting before the target's next sibling lands the cell at the target's index |
| ButtonColumnReorder.MoveColumns | src/ui/button-column-reorder.js:53-73 | every row of the table is moved alike |
| ButtonColumnReorder.MoveSimpleInRow | src/ui/button-column-reorder.js:147-162 | removing the cell and re-inserting it before the child now at the target, or appending it past the end, leaves it at the target |
| ButtonColumnReorder.MoveColumnsSimple | src/ui/button-column-reorder.js:144-163 | every row of the table is moved alike |
| ButtonColumnReorder.AddedKeeps | src/ui/button-column-reorder.js:13-50 | the pass gives every header it reaches controls, keeps existing controls as they were and adds none elsewhere |
| ButtonColumnReorder.AddedFresh | src/ui/button-column-reorder.js:13-50 | a header without controls gets the controls for its own index |
| ButtonColumnReorder.AddedIdempotent | src/ui/button-column-reorder.js:15 | running the pass twice is the same as once |
| ButtonColumnReorder.AddedAllPresent | src/ui/button-column-reorder.js:15 | when every header already has controls the pass changes nothing |
| ButtonColumnReorder.Stripped | src/ui/button-column-reorder.js:13-50 | corrected step: the headers' own controls are taken away before they are rebuilt |
| ButtonColumnReorder.RefreshedCurrent | src/ui/button-column-reorder.js:78-81 | corrected: stripping and re-adding leaves every header with controls built for its present index |
| ButtonColumnReorder.AddedCurrent | src/ui/button-column-reorder.js:13-50 | the pass on top of current controls keeps them current |
| ButtonColumnReorder.RightArrowMovesOwnColumn | src/ui/button-column-reorder.js:36-46 | with current controls the right arrow of the header at k moves that very header to k + 1 |
| ButtonColumnReorder.LeftArrowMovesOwnColumn | src/ui/button-column-reorder.js:23-33 | with current controls the left arrow of the header at k moves that very header to k - 1 |
| ButtonColumnReorder.StaleControlsCounterexample | src/ui/button-column-reorder.js:78-81 | as written, on headers A, B the right arrow moves A to index 1, the re-run skips it, and A's right arrow, still bound to index 0, moves B back instead |
| ButtonColumnReorder.TwoHeaderButtons | src/ui/button-column-reorder.js:13-50 | two fresh headers get a right arrow on the first and a left arrow on the second |
| ButtonColumnReorder.SwapTwo | src/ui/button-column-reorder.js:58-73 | moving the first of two cells to index 1 exchanges them |
| ButtonColumnReorder.SwapTwoBack | src/ui/button-column-reorder.js:147-162 | moving the second of two cells to index 0 exchanges them |
| ButtonColumnReorder.RestoreStaleCounterexample | src/ui/button-column-reorder.js:118-142 | as written, restoring the order B, A over headers A, B with controls moves B to index 0 still holding a left arrow bound to index 1, which moves A instead of B |
| ButtonColumnReorder.SpliceInsert | src/ui/button-column-reorder.js:135 | `splice(i, 0, x)` lengthens the copy by one |
| ButtonColumnReorder.MirrorStep | src/ui/button-column-reorder.js:134-135 | the copy of the header names keeps its length |
| ButtonColumnReorder.MirrorStepMoves | src/ui/button-column-reorder.js:131-136 | for a target inside the row the copied names move exactly as the header moves |
| ButtonColumnReorder.RestoreStep | src/ui/button-column-reorder.js:129-137 | with the first i names in place, the saved name i is found further right and moving it there places the first i + 1 |
| ButtonColumnReorder.MovedKeepsCells | src/ui/button-column-reorder.js:144-163 | a move only rearranges each row's cells |
| ButtonColumnReorder.MoveKeepsRows | src/ui/button-column-reorder.js:132 | a move keeps the row count, each row's cells and their distinctness |
| ButtonColumnReorder.MoveKeepsMirror | src/ui/button-column-reorder.js:132-135 | after a move the copy of the names is still the header's names |
| ButtonColumnReorder.PermutedAlikeStart | src/ui/button-column-reorder.js:118-127 | before the restore loop moves anything, every row stands as the header row does |
| ButtonColumnReorder.PermutedAlikeMoved | src/ui/button-column-reorder.js:144-162 | one `moveColumnSimple` step keeps every row as long as the header row permuted as the header row is |
| ButtonColumnReorder.MovePlacesName | src/ui/button-column-reorder.js:131-136 | moving a found name to its saved index places one more name |
| ButtonColumnReorder.SkipPlacesName | src/ui/button-column-reorder.js:131 | a name already in its place also counts as placed |
| ButtonColumnReorder.RestoreName | src/ui/button-column-reorder.js:129-137 | one turn of the restore loop keeps the rows' cells, keeps the copy equal to the header names and places one more saved name |
| ButtonColumnReorder.Restore | src/ui/button-column-reorder.js:118-162 | every row keeps its cells, distinct; every row as long as the header row is permuted as the header row is: the cell at position j is the one that stood under the header now at j; a saved order that rearranges the header names becomes the header order |
| ButtonColumnReorder.ButtonReorder.constructor | src/ui/button-column-reorder.js:5-11 | the table, its header flag and the stored order as given, with no controls yet |
| ButtonColumnReorder.ButtonReorder.AddColumnMoveButtons | src/ui/button-column-reorder.js:2-51 | without a header row nothing; otherwise every header without controls gets those for its index, the table unchanged |
| ButtonColumnReorder.ButtonReorder.SaveColumnOrder | src/ui/button-column-reorder.js:84-102 | the present header names are stored |
| ButtonColumnReorder.ButtonReorder.MoveColumn | src/ui/button-column-reorder.js:53-82 | corrected: the column moves in every row, the new header names are stored, and every header's controls are rebuilt for its new index |
| ButtonColumnReorder.ButtonReorder.ClickRight | src/ui/button-column-reorder.js:41-44 | the right arrow of the header at k moves that header to k + 1 |
| ButtonColumnReorder.ButtonReorder.ClickLeft | src/ui/button-column-reorder.js:28-31 | the left arrow of the header at k moves that header to k - 1 |
| ButtonColumnReorder.ButtonReorder.RestoreColumnOrder | src/ui/button-column-reorder.js:104-142 | corrected: nothing without a stored order or a header row; otherwise the rows keep their count, every row keeps its cells and every row as long as the header row is permuted as the header row is, a saved permutation of the distinct header names becomes the header order, and every header's controls are rebuilt for its new index |
| ButtonColumnReorder.ButtonReorder.RestoreColumnOrderAsWritten | src/ui/button-column-reorder.js:104-142 | as written: the rows are reordered as by the corrected restore (each keeps its cells, every row as long as the header row permuted as the header row is, a saved permutation becoming the header order) and the controls are left exactly as they were |
| ButtonColumnReorder.MovedIds | src/ui/button-column-reorder.js:53-73 | a move keeps the header ids distinct |
| WorkingColumnDrag.CutOf | src/ui/working-column-drag.js:95-104 | a row of distinct cells cut around two of them meets what every placeholder step needs |
| WorkingColumnDrag.Right1 | src/ui/working-column-drag.js:111 | dragging right, the first placeholder goes in right before the dragged cell |
| WorkingColumnDrag.Right2 | src/ui/working-column-drag.js:112 | the second placeholder goes in right before the target cell |
| WorkingColumnDrag.Right3 | src/ui/working-column-drag.js:115 | the dragged cell goes right before the target's placeholder |
| WorkingColumnDrag.Right4 | src/ui/working-column-drag.js:116 | the target cell goes right before the dragged cell's placeholder |
| WorkingColumnDrag.Right5 | src/ui/working-column-drag.js:119 | removing the first placeholder leaves the rest in place |
| WorkingColumnDrag.Right6 | src/ui/working-column-drag.js:120 | removing the second placeholder leaves the two cells exchanged |
| WorkingColumnDrag.Left1 | src/ui/working-column-drag.js:111 | dragging left, the first placeholder goes in right before the dragged cell |
| WorkingColumnDrag.Left2 | src/ui/working-column-drag.js:112 | the second placeholder goes in right before the target cell |
| WorkingColumnDrag.Left3 | src/ui/working-column-drag.js:115 | the dragged cell goes right before the target's placeholder |
| WorkingColumnDrag.Left4 | src/ui/working-column-drag.js:116 | the target cell goes right before the dragged cell's placeholder |
| WorkingColumnDrag.Left5 | src/ui/working-column-drag.js:119 | removing the first placeholder leaves the rest in place |
| WorkingColumnDrag.Left6 | src/ui/working-column-drag.js:120 | removing the second placeholder leaves the two cells exchanged |
| WorkingColumnDrag.Same1 | src/ui/working-column-drag.js:111-112 | on a cell swapped with itself both placeholders go in before it |
| WorkingColumnDrag.Same2 | src/ui/working-column-drag.js:115 | the cell goes between the placeholders |
| WorkingColumnDrag.Same3 | src/ui/working-column-drag.js:116 | the cell goes back before both placeholders |
| WorkingColumnDrag.Same4 | src/ui/working-column-drag.js:119-120 | removing the placeholders leaves the row as it began |
| WorkingColumnDrag.CutRow | src/ui/working-column-drag.js:103-104 | a row cut around two positions, and exchanging the cut cells is the swap of those positions |
| WorkingColumnDrag.CutAt | src/ui/working-column-drag.js:103 | a row cut around one position |
| WorkingColumnDrag.SwapCellRow | src/ui/working-column-drag.js:95-121 | swapping keeps a row of distinct cells without placeholders |
| WorkingColumnDrag.SwapInRow | src/ui/working-column-drag.js:95-121 | a row lacking either index is left alone; otherwise the six steps exchange the two cells and nothing else |
| WorkingColumnDrag.SwapColumns | src/ui/working-column-drag.js:90-124 | every row of the table, header and body, exchanges the two cells |
| WorkingColumnDrag.SwappedCellRows | src/ui/working-column-drag.js:90-124 | swapping keeps every row distinct cells without placeholders |
| WorkingColumnDrag.ColumnDrag.constructor | src/ui/working-column-drag.js:11-22 | the table as given, with nothing dragged |
| WorkingColumnDrag.ColumnDrag.DragStart | src/ui/working-column-drag.js:44-49 | the dragged index is recorded and the table untouched |
| WorkingColumnDrag.ColumnDrag.DragEnd | src/ui/working-column-drag.js:52-55 | nothing is dragged any more |
| WorkingColumnDrag.ColumnDrag.Drop | src/ui/working-column-drag.js:65-86 | ignored without a drag or onto itself; otherwise the two columns are exchanged in every row and the drag is over |
| WorkingColumnDrag.DropTwiceRestores | src/ui/working-column-drag.js:65-86 | dropping column j back onto i right after dropping i onto j restores the table |
| ColumnDragReorder.LandsAt | src/ui/column-drag-reorder.js:126-142 | the dragged cell lands between its own column and the target, by the half of the target it is dropped on |
| ColumnDragReorder.Shifted | src/ui/column-drag-reorder.js:121-144 | the table keeps its row count |
| ColumnDragReorder.MoveInRow | src/ui/column-drag-reorder.js:124-143 | a row with both indices has the dragged cell moved to its landing place, by the four cases; dropped on its own column, or a row too short, it stays |
| ColumnDragReorder.BeforeTarget | src/ui/column-drag-reorder.js:130-132 | inserting before the target lands the cell at the target's index, one less when it came from the left |
| ColumnDragReorder.AfterTarget | src/ui/column-drag-reorder.js:133-135 | inserting before the target's next sibling lands the cell just after the target |
| ColumnDragReorder.ShiftedSnoc | src/ui/column-drag-reorder.js:123-144 | one more row rebuilt is one more row shifted |
| ColumnDragReorder.MoveTableColumn | src/ui/column-drag-reorder.js:119-152 | with a drag in progress the table is shifted; without one the dragged index is -1 and the first row reaching the target throws before anything moves, and a table with no such row stays unchanged |
| ColumnDragReorder.ShiftedSamePermutation | src/ui/column-drag-reorder.js:123-144 | a move is one permutation of positions applied alike to every row that has both indices, only rearranging its cells |
| ColumnDragReorder.SameColumnUnchanged | src/ui/column-drag-reorder.js:130-142 | dropping on the column's own position changes nothing, whichever half |
| ColumnDragReorder.ShiftedDistinct | src/ui/column-drag-reorder.js:123-144 | every row's cells stay distinct |
| ColumnDragReorder.DragBackRestores | src/ui/column-drag-reorder.js:126-142 | in a rectangular table, dragging the moved header back onto its old column, on the half facing it, restores the table |
| ColumnDragReorder.ColumnDrag.constructor | src/ui/column-drag-reorder.js:4-14 | the table as given, with every header but the row-number one draggable and nothing dragged |
| ColumnDragReorder.ColumnDrag.DragStart | src/ui/column-drag-reorder.js:33-44 | on a draggable header the header and its index are recorded; the row-number header has no handler |
| ColumnDragReorder.ColumnDrag.DragEnd | src/ui/column-drag-reorder.js:101-113 | on a draggable header the drag is over and the index is -1 |
| ColumnDragReorder.ColumnDrag.Drop | src/ui/column-drag-reorder.js:75-98 | ignored on the row-number header and on the dragged header; with no drag the move throws and nothing changes; otherwise the column shifts and the dragged header lands at its place |
| ColumnAlignment.DigitRun | src/ui/column-alignment-dom.js:200 | the greedy run of digits and commas at the front, stopping at the first other character |
| ColumnAlignment.Split | src/ui/column-alignment-dom.js:222-224 | a split always has at least one part |
| ColumnAlignment.DateShapes | src/ui/column-alignment-dom.js:219-228 | three digit groups of the pattern lengths joined by slashes, or by dashes year first, are dates whatever `Date.parse` does |
| ColumnAlignment.KindsAt | src/ui/column-alignment-dom.js:190-207 | one kind per sampled row, a missing or blank cell skipped |
| ColumnAlignment.TallyBounds | src/ui/column-alignment-dom.js:186-207 | each non-blank cell is counted once, as a number, a date or neither, and blank or missing cells are not counted |
| ColumnAlignment.TallyAppend | src/ui/column-alignment-dom.js:190-207 | counting is additive over runs of samples |
| ColumnAlignment.BlankSkipped | src/ui/column-alignment-dom.js:191-195 | a missing or blank cell is skipped |
| ColumnAlignment.DetectColumnType | src/ui/column-alignment-dom.js:185-217 | the loop counts and decides as the specification does: text with no samples, number at 70% numbers, date at 70% dates, text otherwise |
| ColumnAlignment.AlignCell | src/ui/column-alignment-dom.js:116-119 | the row keeps its length |
| ColumnAlignment.Aligned | src/ui/column-alignment-dom.js:105-127 | only alignment styles change; the shape and the buttons stay |
| ColumnAlignment.Highlighted | src/ui/column-alignment-dom.js:129-145 | only the column's button state changes, the cells stay |
| ColumnAlignment.SetStyles | src/ui/column-alignment-dom.js:92-103 | the table keeps its shape |
| ColumnAlignment.Cleared | src/ui/column-alignment-dom.js:239-252 | every header and body cell loses its alignment and keeps its text; the buttons stay |
| ColumnAlignment.ClearRow | src/ui/column-alignment-dom.js:247-249 | every cell of the row loses its alignment |
| ColumnAlignment.SetStylesCell | src/ui/column-alignment-dom.js:116-119 | the column's body cells show the alignment and every other body cell is as it was |
| ColumnAlignment.SetStylesLit | src/ui/column-alignment-dom.js:133-144 | the column's button, when it has controls, shows the stored alignment, and the other buttons stay |
| ColumnAlignment.Sample | src/ui/column-alignment-dom.js:159 | at most the first five body rows |
| ColumnAlignment.Texts | src/ui/column-alignment-dom.js:194 | the texts of the row's cells |
| ColumnAlignment.SampleFirstFive | src/ui/column-alignment-dom.js:159 | rows after the fifth take no part in choosing the defaults |
| ColumnAlignment.TypesOf | src/ui/column-alignment-dom.js:162-167 | the type detected for each header's column |
| ColumnAlignment.DefaultStyles | src/ui/column-alignment-dom.js:162-182 | the table keeps its shape |
| ColumnAlignment.FillDefaults | src/ui/column-alignment-dom.js:151-183 | the loop over the headers gives exactly the smart defaults, map and styles |
| ColumnAlignment.FillColumn | src/ui/column-alignment-dom.js:162-181 | a column already aligned is skipped; otherwise it gets the alignment for its detected type: right for numbers, center for dates, left otherwise |
| ColumnAlignment.DefaultStep | src/ui/column-alignment-dom.js:162-182 | one more column of defaults: skipped when mapped, otherwise stored and styled |
| ColumnAlignment.DefaultsKeep | src/ui/column-alignment-dom.js:164 | the defaults never override an alignment already chosen, and no column is stored twice |
| ColumnAlignment.DefaultsFill | src/ui/column-alignment-dom.js:162-182 | every header's column ends up aligned, a missing one with its type's default, and no other column is added |
| ColumnAlignment.DefaultsSettled | src/ui/column-alignment-dom.js:164 | once every column is aligned the defaults change nothing |
| ColumnAlignment.DefaultsIdempotent | src/ui/column-alignment-dom.js:151-183 | applying the defaults twice is the same as once |
| ColumnAlignment.Reapplied | src/ui/column-alignment-dom.js:231-236 | re-applying keeps the table's shape |
| ColumnAlignment.ReapplyAll | src/ui/column-alignment-dom.js:231-236 | the loop over the map gives exactly the re-application in map order |
| ColumnAlignment.ReappliedAgrees | src/ui/column-alignment-dom.js:231-236 | after re-applying, every body cell of an aligned column shows its stored alignment and every other body cell is as it was |
| ColumnAlignment.ReappliedCell | src/ui/column-alignment-dom.js:231-236 | one cell through the re-application |
| ColumnAlignment.CellAfterAgrees | src/ui/column-alignment-dom.js:232-235 | a cell keeps its text and ends with its column's stored alignment, or unchanged when the column is not stored |
| ColumnAlignment.ReappliedCellStep | src/ui/column-alignment-dom.js:233 | re-applying one entry aligns the body cells of its column and no others |
| ColumnAlignment.ReappliedLitStep | src/ui/column-alignment-dom.js:234 | re-applying one entry sets its column's button, when it has controls, and no other |
| ColumnAlignment.ReappliedButtons | src/ui/column-alignment-dom.js:231-236 | after re-applying, every header with controls highlights its column's stored alignment |
| ColumnAlignment.ReappliedLit | src/ui/column-alignment-dom.js:231-236 | one button through the re-application |
| ColumnAlignment.LitAfterAgrees | src/ui/column-alignment-dom.js:232-235 | a button with controls ends up on its column's stored alignment |
| ColumnAlignment.AlignmentControls.constructor | src/ui/column-alignment-dom.js:5 | a freshly drawn table with no controls and the alignment map as given |
| ColumnAlignment.AlignmentControls.SetColumnAlignment | src/ui/column-alignment-dom.js:92-103 | that column, and only it, takes the alignment in the map, and the table takes the styles and button state |
| ColumnAlignment.AlignmentControls.ApplySmartDefaults | src/ui/column-alignment-dom.js:151-183 | the smart defaults of the first five body rows for every column not yet aligned; nothing on an empty body |
| ColumnAlignment.AlignmentControls.Init | src/ui/column-alignment-dom.js:7-36 | false exactly without a header row, changing nothing; otherwise every header gets controls and the smart defaults are applied |
| ColumnAlignment.AlignmentControls.ReapplyColumnAlignments | src/ui/column-alignment-dom.js:231-236 | every stored alignment is applied again and the map is unchanged |
| ColumnAlignment.AlignmentControls.ClearColumnAlignments | src/ui/column-alignment-dom.js:239-252 | the map is emptied and every cell's alignment removed |
| ColumnResize.SizeAt | src/ui/column-resize-dom.js:159-163 | the row keeps its length |
| ColumnResize.Sized | src/ui/column-resize-dom.js:134-164 | only the cells' widths change: the table keeps its shape and layout |
| ColumnResize.SizedBodyCell | src/ui/column-resize-dom.js:157-163 | setting a width holds that column's body cells at exactly that width, and no other body cell changes |
| ColumnResize.SizedHeadCell | src/ui/column-resize-dom.js:141-155 | the same for the column's cells in the first two header rows, and no other header cell changes |
| ColumnResize.SizedTwice | src/ui/column-resize-dom.js:134-164 | the last width set for a column is the one that stays |
| ColumnResize.SizedCommute | src/ui/column-resize-dom.js:134-164 | widths of different columns can be set in either order |
| ColumnResize.WithHandles | src/ui/column-resize-dom.js:49-51 | every header without a handle gets one for its index and the rest keep theirs |
| ColumnResize.WithHandlesIdempotent | src/ui/column-resize-dom.js:49-51 | adding handles twice adds them once, and every header then has one |
| ColumnResize.RecordMissingGet | src/ui/column-resize-dom.js:27-35 | a column already stored keeps its width, any other header column gets its measured width, and columns beyond the header stay out |
| ColumnResize.InitRow | src/ui/column-resize-dom.js:27-35 | each header cell gets a handle, and its measured width when its column had none |
| ColumnResize.Refit | src/ui/column-resize-dom.js:199-201 | re-applying keeps the table's shape and layout |
| ColumnResize.RefitBodyCell | src/ui/column-resize-dom.js:199-201 | after re-applying, every body cell of a stored column is held at its width and any other body cell is as it was |
| ColumnResize.RefitHeadCell | src/ui/column-resize-dom.js:199-201 | the same for the first two header rows |
| ColumnResize.Enumerated | src/ui/column-resize-dom.js:305-309 | the reset map holds each header column at its natural width, in order |
| ColumnResize.EnumeratedGet | src/ui/column-resize-dom.js:305-309 | after a reset the map holds the natural width of each header column and nothing else |
| ColumnResize.EnumeratedPut | src/ui/column-resize-dom.js:307 | each entry of the reset extends the map built so far |
| ColumnResize.Cleared | src/ui/column-resize-dom.js:290-295 | every body cell loses its width constraints |
| ColumnResize.UnsizedRow | src/ui/column-resize-dom.js:291-295 | every cell of the row loses its width constraints |
| ColumnResize.ResetForgets | src/ui/column-resize-dom.js:283-311 | a reset leaves no trace of earlier widths: each body cell ends at its column's natural width, or unconstrained beyond the header |
| ColumnResize.Unconstrained | src/ui/column-resize-dom.js:222-237 | loosening keeps the table's shape |
| ColumnResize.LooseAt | src/ui/column-resize-dom.js:233-237 | the row keeps its length |
| ColumnResize.AutoSizeOverwrites | src/ui/column-resize-dom.js:222-251 | once the measured width is set the temporary loosening leaves no trace |
| ColumnResize.LooseThenSize | src/ui/column-resize-dom.js:233-251 | the same on one row |
| ColumnResize.WidestIsMax | src/ui/column-resize-dom.js:241-245 | the auto-size measurement is the maximum of the header's and the body cells' widths |
| ColumnResize.MeasureWidest | src/ui/column-resize-dom.js:241-245 | the loop computes that maximum |
| ColumnResize.AutoWidth | src/ui/column-resize-dom.js:248 | 20 pixels of padding, never below 60 |
| ColumnResize.DragWidth | src/ui/column-resize-dom.js:112-113 | the start width moved by the mouse, never below 50 |
| ColumnResize.StartWidth | src/ui/column-resize-dom.js:97 | the stored width, or 100 when there is none or it is 0 |
| ColumnResize.Resizer.constructor | src/ui/column-resize-dom.js:5-9 | no widths and no drag, the column index -1 |
| ColumnResize.Resizer.Init | src/ui/column-resize-dom.js:11-47 | false exactly without a table or a header row; the layout is fixed first; otherwise every header has a handle and every header column without a width is stored at its measured width |
| ColumnResize.Resizer.StartResize | src/ui/column-resize-dom.js:93-107 | the drag begins on the column at the mouse position from its start width |
| ColumnResize.Resizer.DoResize | src/ui/column-resize-dom.js:109-116 | outside a drag nothing; during one, the column is stored and set at the drag width |
| ColumnResize.Resizer.StopResize | src/ui/column-resize-dom.js:118-132 | the drag ends and the column index is -1 |
| ColumnResize.Resizer.SetColumnWidth | src/ui/column-resize-dom.js:134-164 | nothing without a table; otherwise that column's entry, and no other, becomes the width and its cells are held at it |
| ColumnResize.Resizer.ReapplyColumnWidths | src/ui/column-resize-dom.js:191-215 | nothing without a table; otherwise the layout is fixed, every stored width is set again in map order and missing handles are added, the map unchanged |
| ColumnResize.Resizer.AutoSizeColumn | src/ui/column-resize-dom.js:218-255 | nothing without a table or a header at that index; otherwise the column is stored and set at its widest cell plus padding, at least 60 |
| ColumnResize.Resizer.EnableDoubleClickAutoSize | src/ui/column-resize-dom.js:258-280 | every handle of the first header row gets the double-click listener |
| ColumnResize.Resizer.ResetColumnWidths | src/ui/column-resize-dom.js:283-314 | nothing without a table; otherwise the map is rebuilt from the natural widths; every cell's width is cleared, and then the cell of the first two header rows and the body cells of each column end at that column's natural width, the layout fixed again |
| ColumnResize.InitHeaderRow | src/ui/column-resize-dom.js:27-35 | the initialisation loop gives exactly those handles and widths |
| ColumnResize.RefitAll | src/ui/column-resize-dom.js:199-201 | the re-apply loop gives exactly the re-application in map order |
| ColumnsMenu.ColumnOf | src/ui/columns-menu-dom.js:82-86 | a column carries its index and trimmed name, and is the row-number one exactly when marked by data attribute or class or named `#` |
| ColumnsMenu.HeaderCells | src/ui/columns-menu-dom.js:76-87 | one column per header of the first header row, indexed in order; none without a table or a header row |
| ColumnsMenu.RowNumIndex | src/ui/columns-menu-dom.js:113 | the index of a row-number column when there is one, and none exactly when no column is one |
| ColumnsMenu.RowNumIndexFirst | src/ui/columns-menu-dom.js:113 | the row-number column found is the first one |
| ColumnsMenu.ApplyRow | src/ui/columns-menu-dom.js:147-150 | each cell is hidden exactly when its index is in the set and is not the row-number column |
| ColumnsMenu.ApplyRows | src/ui/columns-menu-dom.js:146-151 | the same rule applied to every row |
| ColumnsMenu.AppliedCell | src/ui/columns-menu-dom.js:135-161 | every header and body cell is hidden exactly when its index is in the set and is not the row-number column |
| ColumnsMenu.ColumnsAligned | src/ui/columns-menu-dom.js:145-160 | cells of one column in any header row and any body row are both hidden or both shown |
| ColumnsMenu.RowNumShown | src/ui/columns-menu-dom.js:148 | the row-number column is never hidden |
| ColumnsMenu.AppliedKeepsColumns | src/ui/columns-menu-dom.js:135-161 | hiding changes no header's text or marks, so the menu sees the same columns afterwards |
| ColumnsMenu.ApplyRowsTwice | src/ui/columns-menu-dom.js:146-159 | applying one set twice to rows is the same as once |
| ColumnsMenu.AppliedIdempotent | src/ui/columns-menu-dom.js:135-161 | applying the same set again changes nothing |
| ColumnsMenu.Listed | src/ui/columns-menu-dom.js:94-110 | no more lines than columns |
| ColumnsMenu.ListedExactly | src/ui/columns-menu-dom.js:94-110 | there is one line for every column that is not a row-number one, captioned by its name or `Column n`, checked exactly when the column is shown, and no other line |
| ColumnsMenu.RowNumNeverListed | src/ui/columns-menu-dom.js:94 | no line toggles a row-number column |
| ColumnsMenu.RowNumNotHidden | src/ui/columns-menu-dom.js:40-46 | Hide all never puts the row-number column in the set, so the clean-up then removes nothing |
| ColumnsMenu.WithoutRowNum | src/ui/columns-menu-dom.js:112-114 | the clean-up takes the row-number column out of the set, and only it |
| ColumnsMenu.ListEntries | src/ui/columns-menu-dom.js:94-110 | the loop builds exactly the listed lines |
| ColumnsMenu.HideAllOf | src/ui/columns-menu-dom.js:41-43 | the loop builds exactly the set of every column but the row-number ones |
| ColumnsMenu.ApplyToRow | src/ui/columns-menu-dom.js:147-150 | the cell loop applies the rule to the row |
| ColumnsMenu.ApplyToRows | src/ui/columns-menu-dom.js:146-151 | the row loop applies it to every row |
| ColumnsMenu.Menu.constructor | src/ui/columns-menu-dom.js:4 | no hidden columns, no menu installed and the panel closed |
| ColumnsMenu.Menu.Init | src/ui/columns-menu-dom.js:6-74 | nothing without a toolbar or when the button is there; otherwise the button is installed with its panel closed and the set is applied |
| ColumnsMenu.Menu.ApplyVisibility | src/ui/columns-menu-dom.js:135-161 | the table after the set is applied; without a table nothing |
| ColumnsMenu.Menu.BuildList | src/ui/columns-menu-dom.js:89-115 | the lines for the present columns, then the row-number column taken out of the set |
| ColumnsMenu.Menu.RefreshList | src/ui/columns-menu-dom.js:117-120 | the list is rebuilt only while the panel is open |
| ColumnsMenu.Menu.ShowAll | src/ui/columns-menu-dom.js:32-36 | corrected listener alone, the panel left as it was: the set is emptied and applied, and an open list rebuilt |
| ColumnsMenu.Menu.HideAll | src/ui/columns-menu-dom.js:40-46 | corrected listener alone, the panel left as it was: the set becomes every column but the row-number ones and is applied, and an open list rebuilt |
| ColumnsMenu.Menu.CheckboxChanged | src/ui/columns-menu-dom.js:100-103 | corrected listener alone, the panel left as it was: checking shows the column and unchecking hides it, and the set is applied |
| ColumnsMenu.Menu.ToggleButton | src/ui/columns-menu-dom.js:58-64 | a click reaching the button, from the button itself or from anything inside its panel: an open panel closes; a closed one is rebuilt and opens |
| ColumnsMenu.Menu.ClickShowAll | src/ui/columns-menu-dom.js:31-64 | as dispatched, Show all empties and applies the set, and the bubbled click then toggles the panel, so an open panel ends closed; the list ends built for the empty set either way |
| ColumnsMenu.Menu.ClickHideAll | src/ui/columns-menu-dom.js:39-64 | as dispatched, Hide all hides every column but the row-number ones and the bubbled click toggles the panel, so an open panel ends closed; the list ends built for the new set either way |
| ColumnsMenu.Menu.ClickCheckbox | src/ui/columns-menu-dom.js:55-103 | as dispatched, the bubbled click toggles the panel before `change` updates and applies the set, so an open panel closes and keeps its old lines |
| ColumnsMenu.Menu.ClickOutside | src/ui/columns-menu-dom.js:65-67 | a click outside the panel and the button closes the panel |
| ColumnsMenu.VisibleKeepsColumns | src/ui/columns-menu-dom.js:135-161 | applying the set keeps the columns the menu sees |
| RowNumber.EnsureHeadRow | src/ui/row-number-dom.js:44-70 | every header row ends up starting with a marked cell |
| RowNumber.EnsureHead | src/ui/row-number-dom.js:41-71 | each header row is handled by its own index |
| RowNumber.EnsureHeadCells | src/ui/row-number-dom.js:41-71 | a header row without a marked first cell gains exactly one in front, reading `#` in the first row and blank below; a row that had one keeps its cells after it |
| RowNumber.EnsureHeadIdempotent | src/ui/row-number-dom.js:46-49 | a second pass inserts nothing and changes nothing |
| RowNumber.EnsureHeadRowTwice | src/ui/row-number-dom.js:46-49 | the same on one row |
| RowNumber.EnsureBodyRow | src/ui/row-number-dom.js:75-87 | every body row ends up starting with a number cell and keeps its visibility |
| RowNumber.EnsureBody | src/ui/row-number-dom.js:73-88 | each body row is handled alike |
| RowNumber.EnsureBodyCells | src/ui/row-number-dom.js:73-88 | a body row with a number cell is untouched, any other gains one blank cell in front |
| RowNumber.EnsureBodyIdempotent | src/ui/row-number-dom.js:77 | a second pass changes nothing |
| RowNumber.Counted | src/ui/row-number-dom.js:94-99 | no more numbers than rows |
| RowNumber.Label | src/ui/row-number-dom.js:96-98 | labelling keeps the row's cell count, visibility and number cell |
| RowNumber.Renumbered | src/ui/row-number-dom.js:92-100 | renumbering keeps the row count |
| RowNumber.RenumberedAt | src/ui/row-number-dom.js:94-99 | each row is labelled one more than the count of numbered rows above it |
| RowNumber.Ones | src/ui/row-number-dom.js:98 | the labels 1 to c |
| RowNumber.OnesSnoc | src/ui/row-number-dom.js:98 | one more label at the end |
| RowNumber.NumbersConsecutive | src/ui/row-number-dom.js:92-100 | the shown rows read 1, 2, ..., k from top to bottom, k being how many there are |
| RowNumber.RenumberedHiddenBlank | src/ui/row-number-dom.js:96-98 | a hidden row's number cell is blank, and a row without a number cell is untouched |
| RowNumber.ShownSnoc | src/ui/row-number-dom.js:98 | one more row adds its position to the shown rows exactly when it is shown |
| RowNumber.CountedAfterEnsure | src/ui/row-number-dom.js:29-36 | once every body row has its number cell, the numbers run over exactly the shown rows |
| RowNumber.AlignFilterRow | src/ui/row-number-dom.js:102-111 | the header keeps its row count; the second row's cells are pinned under the first |
| RowNumber.EnsureHeaderFirstCol | src/ui/row-number-dom.js:41-71 | the header loop gives exactly the ensured header |
| RowNumber.EnsureBodyFirstCol | src/ui/row-number-dom.js:73-88 | the body loop gives exactly the ensured body |
| RowNumber.RenumberVisibleRows | src/ui/row-number-dom.js:92-100 | the loop with its counter gives exactly the renumbering |
| RowNumber.RowNumbers.constructor | src/ui/row-number-dom.js:4-5 | the page's table as given |
| RowNumber.RowNumbers.SyncFilterTopVar | src/ui/row-number-dom.js:115-123 | the variable is written exactly when there is a first header row and it differs from the row's height, and becomes that height |
| RowNumber.RowNumbers.SafeApply | src/ui/row-number-dom.js:22-39 | without a table nothing; otherwise number cells are ensured in header and body, the variable synced, the filter row pinned and the rows renumbered |
| RowNumber.AppliedIdempotent | src/ui/row-number-dom.js:22-39 | a second apply at the same height builds no column and leaves every number where it was |
| RowNumber.BodySettled | src/ui/row-number-dom.js:29-36 | the body after one pass is left as it is by a second |
| RowNumber.HeadSettled | src/ui/row-number-dom.js:29-34 | the header after one pass is left as it is by a second |
| RowNumber.CountedRenumbered | src/ui/row-number-dom.js:92-100 | labelling keeps which rows take a number |
| RowNumber.RenumberedTwice | src/ui/row-number-dom.js:92-100 | renumbering renumbered rows changes nothing |
| RowNumber.LabelTwice | src/ui/row-number-dom.js:96-98 | labelling a row twice with one number is the same as once |
| RowSort.Flip | src/ui/table-renderer.js:29 | the other direction |
| RowSort.Sign | src/ui/table-renderer.js:73-82 | the sign of a comparator value, as `Array.prototype.sort` reads it |
| RowSort.Insert | src/ui/table-renderer.js:73-85 | inserting keeps every row and adds exactly one |
| RowSort.SortBy | src/ui/table-renderer.js:73-85 | the sorted copy rearranges the rows: the same rows, each as often |
| RowSort.InsertOrdered | src/ui/table-renderer.js:73-82 | under an antisymmetric comparator, inserting into an ordered run keeps it ordered |
| RowSort.SortByOrdered | src/ui/table-renderer.js:73-82 | under an antisymmetric comparator, every neighbouring pair of the sorted rows is in order |
| RowSort.OrderedPair | src/ui/table-renderer.js:73-82 | under a transitive comparator, an ordered run has every pair in order |
| RowSort.SortBySorted | src/ui/table-renderer.js:73-82 | under a consistent comparator, every pair of the sorted rows is in order |
| UiTableRenderer.Titled | src/ui/table-renderer.js:21-25 | the cell shows its text and carries it as its tooltip exactly when it is longer than the limit: 20 for headers, 30 for body cells |
| UiTableRenderer.BodyRow | src/ui/table-renderer.js:50-59 | one cell per value |
| UiTableRenderer.RenderedShows | src/ui/table-renderer.js:4-67 | the rendered table shows every column, unmarked, and every cell's text, a missing value as the empty text |
| UiTableRenderer.NextSort | src/ui/table-renderer.js:27-33 | a click sorts by the clicked column |
| UiTableRenderer.ClickAgainFlips | src/ui/table-renderer.js:28-29 | clicking the sorted column again flips the direction |
| UiTableRenderer.ClickOtherAscends | src/ui/table-renderer.js:30-33 | clicking any other column sorts it ascending |
| UiTableRenderer.ClickTwiceRestores | src/ui/table-renderer.js:28-29 | two clicks on the sorted column bring its direction back |
| UiTableRenderer.Strip | src/ui/table-renderer.js:90 | no percent sign, comma, dollar sign or white space remains |
| UiTableRenderer.StripAll | src/ui/table-renderer.js:90 | a text of only those characters strips to the empty text |
| UiTableRenderer.ToNumber | src/ui/table-renderer.js:88-93 | a text that strips to nothing counts as 0, and one that strips to the decimal digits of n counts as n |
| UiTableRenderer.BlankIsZero | src/ui/table-renderer.js:88-93 | such a text, the empty cell among them, counts as the number 0 |
| UiTableRenderer.KeyOf | src/ui/table-renderer.js:74-75 | a row too short for the column sorts as the empty text |
| UiTableRenderer.NumbersByValue | src/ui/table-renderer.js:77-79 | two numbers compare by value, the smaller first ascending and last descending |
| UiTableRenderer.TextsByCollation | src/ui/table-renderer.js:81 | when either text is not a number the collation decides, negated descending |
| UiTableRenderer.DescNegates | src/ui/table-renderer.js:71 | the descending comparator is the ascending one negated |
| UiTableRenderer.CompareTextsAntisymmetric | src/ui/table-renderer.js:73-82 | given an antisymmetric collation, swapping two texts flips the comparison's sign |
| UiTableRenderer.CompareRowsAntisymmetric | src/ui/table-renderer.js:73-82 | the row comparator is antisymmetric in either direction |
| UiTableRenderer.MarkOnly | src/ui/table-renderer.js:35-36 | every header keeps its cell, and only the clicked one carries a sort class, that of the direction |
| UiTableRenderer.Clicked | src/ui/table-renderer.js:38 | the body is only rearranged |
| UiTableRenderer.ClickedOrdered | src/ui/table-renderer.js:69-86 | after a click every neighbouring pair of rows is in the clicked order |
| UiTableRenderer.Container.constructor | src/ui/table-renderer.js:5 | the container present or not, with no table and no sort |
| UiTableRenderer.Container.RenderTable | src/ui/table-renderer.js:4-67 | without the container nothing; otherwise a new table replaces the old one, with a fresh sort state |
| UiTableRenderer.Container.Click | src/ui/table-renderer.js:27-39 | a click advances the sort state and sorts the body and marks the header accordingly |
| TableRows.Names | src/ui/simple-column-drag.js:89-90 | one saved name per header, its trimmed text, in header order |
| TableRows.MovedSamePermutation | src/ui/button-column-reorder.js:58-73 | a column move is one permutation of positions, applied alike to every row both indices reach, only rearranging its cells |
| TableRows.MoveSourceInjective | src/ui/button-column-reorder.js:58-73 | no two positions take their cell from the same place |
| TableRows.MovedDistinct | src/ui/simple-column-drag.js:52-83 | moving keeps every row's cells distinct |
| TableRows.SwappedDistinct | src/ui/working-column-drag.js:90-124 | swapping keeps every row's cells distinct |
| TableRows.MovedBack | src/ui/button-column-reorder.js:53-82 | moving the column back from the target to where it came from restores every row |
| TableRows.SwappedInvolution | src/ui/working-column-drag.js:90-124 | swapping twice restores the table, and swapping a column with itself changes nothing |
| TableRows.NamesMoved | src/ui/simple-column-drag.js:85-97 | moving a header moves its saved name the same way |
| TypePartition.BucketOf | src/ui/auto-config.js:22-35 | int and float go to the measures exactly, string, bool, date and datetime to the dimensions exactly, and every other type to details |
| TypePartition.Fields | src/ui/auto-config.js:16-19 | one field per column, in column order, named after the column and typed by `inferFieldType` |
| TypePartition.ListOf | src/ui/auto-config.js:15-36 | every entry of the measure list is typed 'measure' and every entry of the other two lists 'dimension', as `inferFieldType` gives them |
| TypePartition.BucketSizes | src/ui/auto-config.js:15-36 | every column lands in exactly one list: the three lengths add up to the number of columns |
| TypePartition.LandsInItsBucket | src/ui/auto-config.js:15-36 | each column's field is in the list its data type selects |
| TypePartition.ListOfInOrder | src/ui/auto-config.js:15-36 | each list keeps the worksheet's column order: it is a subsequence of all the fields |
| TypePartition.Partition | src/ui/auto-config.js:11-36 | the `forEach` with its three `push`es builds exactly the three lists |
| AutoConfig.GenerateSettings | src/ui/auto-config.js:4-57 | the three lists of the partition and no tooltips, holding every column once; on a failure of the host call four empty lists |
| MarksCardSync.FieldOrder | src/ui/marks-card-sync.js:6-31 | one entry per column in marks-card order; none on a failure |
| MarksCardSync.Names | src/ui/marks-card-sync.js:79 | one name per column |
| MarksCardSync.GenerateOrderedSettings | src/ui/marks-card-sync.js:33-95 | the same three lists as the automatic configuration, no tooltips, and the column names in their original order, one per listed field; all empty on a failure |
| MarksCardSync.FieldOrderCopies | src/ui/marks-card-sync.js:17-22 | the field order and the stored marks-card order name the same columns in the same order, and an entry keeps its column's index and data type, and is referenced exactly when the column says so, a missing flag reading as false |
| SimpleSync.GenerateSettings | src/ui/simple-sync.js:6-31 | one entry per column; none on a failure |
| SimpleSync.EntryOfColumn | src/ui/simple-sync.js:16-21 | entry i copies column i's name, data type and index, and is typed 'measure' exactly for an int or float column, 'dimension' otherwise |
| SimpleSync.MeasuresAgreeWithPartition | src/ui/simple-sync.js:33-46 | the entries typed 'measure' are, in order, the automatic configuration's measure list |
| SimpleMain.Rendered | src/simple-main.js:72-113 | the table shows the columns as headers and the rows as the body, with no header marked and no sort attributes |
| SimpleMain.DescSwaps | src/simple-main.js:133-140 | descending order compares the operands swapped |
| SimpleMain.NumbersByValue | src/simple-main.js:130-134 | two cells that parse as numbers once ',', '$' and '%' are removed compare by value, the smaller first ascending and last descending |
| SimpleMain.TextsByCollation | src/simple-main.js:137-140 | when either cell is not a number the collation decides |
| SimpleMain.CompareTextsAntisymmetric | src/simple-main.js:125-141 | given an antisymmetric collation, swapping two cells flips the sign of the comparison |
| SimpleMain.CompareRowsAntisymmetric | src/simple-main.js:125-141 | the row comparator is antisymmetric |
| SimpleMain.MarksFor | src/simple-main.js:152-158 | every header's class is cleared and only the sorted column gets the sort class of the direction |
| SimpleMain.SortedOn | src/simple-main.js:116-159 | the body is only rearranged, the headers stay, and the attributes record the column and the direction chosen |
| SimpleMain.SortAlternates | src/simple-main.js:122-123 | sorting one column twice sorts it in both directions in turn |
| SimpleMain.SortedOnOrdered | src/simple-main.js:125-145 | after a sort, neighbouring rows are in the chosen order |
| SimpleMain.Records | src/simple-main.js:206-217 | the records exported are the header texts and then each body row |
| SimpleMain.ExportStep | src/simple-main.js:213-217 | each body row adds its line and a newline |
| SimpleMain.ExportReadsBack | src/simple-main.js:200-217 | an RFC 4180 reader of the exported text gets back the header and every body row |
| SimpleMain.RenderedReadsBack | src/simple-main.js:72-113 | rendering and then exporting gives back the columns and rows rendered |
| SimpleMain.Page.constructor | src/simple-main.js:73 | the page, with or without the container, and no table yet |
| SimpleMain.Page.RenderTable | src/simple-main.js:72-113 | nothing without the container; otherwise a fresh table replaces the old one |
| SimpleMain.Page.SortTable | src/simple-main.js:116-159 | throws exactly without a table or when two or more rows are compared and one lacks the cell, leaving the table as it was; otherwise the sorted table |
| SimpleMain.Page.ExportCsv | src/simple-main.js:200-227 | nothing without a table; otherwise the CSV text of its header and body |

## Left out

- Floating point: numbers are exact reals, so rounding, overflow, `Infinity` and `-0` are not modelled. NaN is `None` where the source tests for it.
- Text: strings are sequences of code points, so lengths count code points rather than UTF-16 units. `toLowerCase` is modelled on ASCII letters only. There is no Unicode normalisation.
- JsNumber.ParseFloat: an `Infinity` prefix reads as NaN, where JavaScript's `parseFloat` reads it as Infinity.
- Engine and locale built-ins are function parameters: native `Date` parsing, the `Date` constructor, `localeCompare`, `toLocaleString`, `Intl.NumberFormat`, `toFixed`, `toExponential`, `JSON.stringify` and `JSON.parse`, `btoa`, and the clock.
- Logging: every `console.log`, `console.warn` and `console.error` call is left out.
- ColumnFilterState: the filter object is an explicit field or parameter, not a module-level singleton.
- MeasureGroups and PivotGrouping: `saveToStorage` and `loadFromStorage` (localStorage and JSON) are not modelled.
- PivotGrouping.CalculateGroupAggregates: a row longer than the column list makes `aggregates[index] += value` create a NaN slot past the last column (src/modules/grouping/pivotGrouping.js:146-150); the result here has exactly one sum per column and drops those slots, which the callers (src/modules/table/tableRenderer.js:174, 214) never read.
- TableRenderer: `setContainer`, the missing-container check of `render` and the DOM building are not modelled. The measure-group header, the category label and the sub-category label are written through `innerHTML` (src/modules/table/tableRenderer.js:63, 165, 205), so a name holding markup or entities is parsed as HTML there; the model keeps every name as plain text. `sortTable` only logs. The `window.flextableApp.refresh` re-render is left out.
- TableRenderer: the click handlers that re-render are not modelled; their state changes are `ToggleCategory` and `ToggleMeasureGroup`.
- TableFormatter: `applyTableStructure` only sets DOM styles and is not modelled.
- TableFormatter: an element's inline style is a map of the properties written, without CSS value checking and without shorthand expansion. A value the browser would reject, such as a gradient reading NaN%, is stored as written; and a valid `background` resets `backgroundColor` in a browser, while `ApplyRule` keeps both keys.
- TableFormatter: the first `columnFormatting` literal (widths and borders) is overwritten by the second one in the same object and is never read.
- TableFormatter: the `localStorage` failure paths are not modelled. Storage is a field that always accepts the write.
- FilterPanel: the missing-table, missing-`thead` and `instanceof` early returns are not modelled. The CSS offset variable and the sticky styles are not modelled either. The input and select resets in `clearDomFilters` are left out.
- FilterPanel: cell visibility (`getComputedStyle`) is a flag on each cell and row. Hidden header cells are not mirrored onto the filter row.
- FilterPanel: the file's own `toNumber` and `toDate` are copies of the ones in src/services/format.js. They are modelled once, by `Format.ToNumber` and the corrected `Format.ToDate`.
- GlobalSearch: `initGlobalSearch` and `addSearchInputToToolbar` only build DOM, and are modelled only as whether a box exists. The focus and blur styles are left out. Escape is `Clear`.
- GlobalSearch: the 150 ms debounce is modelled as an immediate search. Only the last input's search happens, as with the timer.
- AggregateVisibleDims: the MutationObservers and the 30 ms debounce are not modelled; the observer callbacks are the methods `Recalc` and `BodyChanged`, called when the debounce would fire.
- AggregateVisibleDims: `getComputedStyle` becomes a `hidden` flag per body row and per header cell; `display` and `visibility` are not told apart.
- AggregateVisibleDims: `formatNumber` (`Intl.NumberFormat`) is the parameter `fmt`, because its output depends on the locale.
- AggregateVisibleDims: the `flextable-refresh-needed` event is the flag `refreshRequested`; console messages are left out.
- AggregateVisibleDims: a page without the `.flextable` table or its body is `tbody == None`, and a missing header row is an empty `header`; the `instanceof` checks are not modelled.
- ExportManager: the page's tables become a `Table` value; the `.simple-table` selector and `querySelectorAll` matching are not modelled.
- ExportManager: `downloadFile` (Blob, object URL, link click) becomes the `Downloaded` outcome, and `alert` the `Alerted` outcome.
- ExportManager: `copyToClipboard` and `showToast` are left out: they only drive the browser's selection, clipboard and timers.
- ExportManager.ExportConfiguration: `JSON.stringify` is not modelled, so the result is the configuration object; the clock is the parameter `now`.
- ExportManager.ImportConfiguration: the file picker and `file.text()` are left out; the chosen file's text is a parameter and `JSON.parse` the parameter `parse`.
- CsvExport and ExportManager: lines end with LF, not the CRLF that RFC 4180 asks for; the reader here accepts LF, so the round trips are stated for LF files.
- CsvExport: `download` (Blob and link) becomes the `Download` value.
- MeasureGroupingUi: the dialog's DOM, styles, drag-and-drop events, `prompt` and `location.reload` are left out; a drop is `UpdateGrouping`, the prompt's trimmed answer is the argument of `AddCustomGroup`.
- MeasureGroupingUi: `applyGrouping` only logs and dispatches an event carrying the state; it is not modelled.
- MeasureGroupingUi: the default groups are looked up by name among the five keys; a name such as "constructor" that `this.groups[...]` would find on the object prototype is not modelled.
- FieldSettings: a category id such as "constructor" or "toString", which `mapping[categoryId]` and `settings[key]` would find on the object prototype, is not modelled; ids are compared by value.
- FieldSettings.AsSettings: a loaded object is stored as its four category lists; any further keys the stored JSON held are not kept, while the source keeps the parsed object as it is.
- FixedSettings and SettingsManager: `JSON.parse` and `JSON.stringify` are the parameters `parse` and `stringify`; the Tableau settings store, `saveAsync`, the "Tableau API not ready" check and the 100 ms change callback are left out.
- SettingsManager: the field list rendering, drag-and-drop, modal, `loadSettings`' recovery chain over localStorage, sessionStorage and window backups, `attemptRecovery`, `showDebugInfo`, `applySettings` and its alerts are left out: they read and write browser storage and the DOM.
- SettingsManager.MoveFieldUp: where the source throws a TypeError on a missing category list, the method returns false and changes nothing.
- FixedSettings: the dialog's DOM, `openModal`, `applySettings` and `showDebugInfo` are left out.
- SimpleSettingsUi: the dialog, its rendering and drag-and-drop, `applySettings` and its alerts, and the change callback are left out; `isFieldInUse` reads the worksheet object's settings, which `load` stores unvalidated, so its TypeError on a missing category list is modelled (None); a list value that is not an array, or an item without a `name`, is not modelled, since the settings are always a map of field lists here.
- WorksheetMarker.WorksheetSettings.Save: `JSON.stringify` followed by `btoa` is the parameter `encode`, None where `btoa` throws on a character outside Latin-1; the host's `changeName`, and its failure, are left to the caller, so the method returns the new name rather than true or false.
- WorksheetMarker.WorksheetSettings.Load: `atob` followed by `JSON.parse` is the parameter `decode`; like the source, the decoded value is stored without validation.
- WorksheetMarker: the worksheet name is read from and written to the host, which is not modelled; the current name is a parameter.
- ConfigModal: the dialog's DOM, `initializeModal`, `close`, the "Add Group" and "Remove" buttons are left out; the blocks on screen at save time are the parameter `blocks`, each a name and its checkboxes.
- ConfigModal.SaveConfiguration: `saveToStorage` and the call to `window.flextableApp.refresh` that follow the save are left out.
- ConfigModal: `toLowerCase` is modelled for ASCII letters only (see `JsText.Lower`).
- ConfigModal.EditorBlock: the group's name and each column name are interpolated unescaped into `value="…"` attributes (src/modules/config/configModal.js:126, 131), so read back through `.value` a name holding `"` is cut short there and a character reference such as `&amp;` is decoded; the block keeps every name as plain text, which is what the page holds only for names without `"` and `&`.
- ConfigModal.ReopenedGroupSaved: rests on the blocks of ConfigModal.EditorBlock, so it holds in the page only for a group name and measure names without `"` and `&`.
- ConfigModal.ConfigModal.Open: shows the blocks of ConfigModal.EditorBlock, with the same limit for names holding `"` or `&`; the labels, written through `innerHTML`, are not modelled.
- SimpleColumnDrag: the saved order is a sequence of names; `localStorage`, its per-worksheet key, `JSON.stringify`/`JSON.parse` and a stored value that does not parse are left out.
- SimpleColumnDrag: `setupDrag`'s re-run 10 ms after a drop is modelled as happening at once (no drag can start in between in the model); the `draggable`, cursor and opacity styles, `dataset.columnIndex`, `dragover` and the `dragend` handler are left out.
- SimpleColumnDrag: `cellMap` is an object, so a name such as "constructor" would find a prototype member; names are compared by value here.
- SimpleColumnDrag.Saved: even corrected, the first cell of every header row, the filter row's included, is named by its own text (src/ui/simple-column-drag.js:135-138), so a filter row whose first cell's text is not the first header's name puts that cell among the unmatched cells at the row's end, out of line with its column.
- SimpleMain: `fetchData`, `init`, `setupWorksheetSelector` and `updateTitle` talk to the host and the page only, and are not modelled; the header click handlers and the cursor style are left out.
- SimpleMain: the CSV is returned as text; the Blob, the object URL and the link click are left out.
- SimpleMain.Page.SortTable: `parseFloat` reads a decimal prefix as an exact rational number, without floating-point rounding; `Infinity`, and literals too large for a double, which JavaScript reads as infinities, are taken as not numbers and so compared by collation.
- MarksCardSync: `setupChangeListener` registers host event listeners only, and is not modelled; `getDataSourcesAsync`'s result is unused by the source and left out.
- AutoConfig, MarksCardSync and SimpleSync: `getSummaryDataAsync` is a parameter, with `None` standing for any thrown error; the logging is left out.
- CleanColumnReorder: the toolbar button, the dialog's markup and styles, and the absent-table branches are left out; the table is always present in the model.
- CleanColumnReorder: clones are modelled as the cells they copy, so a rebuilt row holds equal values rather than new nodes; `localStorage`, the dashboard-name key, `JSON.parse` and its catch are left out.
- CleanColumnReorder.IndexMap: `columnIndexMap` is a plain object, and assigning to its `__proto__` key (src/ui/clean-column-reorder.js:166-169) does not create an entry, so a header named `__proto__` is absent and the lookup at :178-180 yields `Object.prototype`, which is not `undefined` and indexes no cell, dropping that column from every row; the map here holds that name like any other.
- CleanColumnReorder.BuildIndexMap: enters a header named `__proto__` like any other name, where the source's assignment ignores it (see CleanColumnReorder.IndexMap).
- ButtonColumnReorder: the 100 ms `setTimeout` before the controls are re-added is taken as immediate; arrow glyphs, titles, styles and `stopPropagation` are left out.
- ButtonColumnReorder: `localStorage`, the worksheet-name key, `JSON.parse` and the catch are left out; the stored order is a sequence of names.
- ButtonColumnReorder.ButtonReorder.RestoreColumnOrder: states the corrected restore, which also rebuilds every header's controls; the source leaves the controls as they were, and that behaviour is `ButtonReorder.RestoreColumnOrderAsWritten`, which does not keep `Valid()` (see Findings).
- WorkingColumnDrag: the 100 ms delays before setup and re-setup are taken as immediate; the header clones that drop old handlers, the hover, cursor and opacity styles and `dataTransfer` are left out; the absent-table branch is left out.
- ColumnDragReorder: the mouse position is the `insertBefore` parameter, standing for `clientX` against the header's midpoint; the hover, border and opacity feedback, `dataTransfer`, `addDragStyles` and the absent-table branch are left out.
- ColumnDragReorder: the re-initialisation after 100 ms is taken as immediate; the listeners it stacks on headers that already had them are not modelled.
- ColumnAlignment: `Date.parse` is the `parses` parameter; the button glyphs, titles, hover opacity and colours are left out, the highlighted button standing for them.
- ColumnAlignment: the `instanceof HTMLTableElement` test, the absent-table branches and the catch are left out; the filter row's cell is styled with the header, and a body row whose cells are not all `td`, for which `nth-child` would pick another cell, is not modelled.
- ColumnResize: `offsetWidth` measurements are parameters (`measured`, `headerWidth`, `bodyWidths`, `natural`); the 10 ms delays of auto-size and reset are taken as immediate, and the reset's intermediate `tableLayout = "auto"` is not kept.
- ColumnResize: the handle's hover and drag borders, the body cursor, `table.style.width` and the document listeners are left out; a double-click listener added again by a second call is not modelled.
- ColumnsMenu: a click on a checkbox's caption reaches the box as a second click dispatched by its label, so the panel is toggled twice; only a click on the box itself is modelled, by `Menu.ClickCheckbox`.
- ColumnsMenu: the mutation observer and its 50 ms debounce are left out; `ApplyVisibility` and `RefreshList` are what it runs. The panel's markup and styles, and the `instanceof` tests, are left out.
- RowNumber: the mutation and resize observers, the 16 and 30 ms debounce and the 50 ms retry without a table are left out; `SafeApply` and `RenumberVisibleRows` are what they run. `offsetHeight` is the `height` parameter and `getComputedStyle` the row's `hidden` flag; cell styles other than the pinning are left out.
- RowSort.SortBy: a stable insertion sort stands for the engine's `Array.prototype.sort`; its stability is not proved, and with an inconsistent comparator the engine's own order is not modelled.
- UiTableRenderer and SimpleMain: `localeCompare` (with `{ numeric: true }` in the renderer) is the `collate` parameter; the sort facts require only that it is antisymmetric.
- UiTableRenderer: `toNumber`'s non-string branch is left out, since cell texts are always strings; `Number` is modelled for decimal, hexadecimal, octal and binary literals without floating-point rounding, so a literal too large for a double still counts as a number.
- SimpleMain.Page.SortTable: the throw on a short row is modelled as happening whenever two or more rows are sorted, since every row is then compared at least once.

## Findings

| source | as written | input that shows it | evidently intended | confidence | as-written member | corrected member |
|---|---|---|---|---|---|---|
| src/services/format.js:26-30 | the month-first `new Date(yyyy, a - 1, b)` rolls an out-of-range month or day over into a later date and is never NaN, so the day-first reading is never tried; src/ui/filter-panel-dom.js:335-347 repeats the code | "25/12/2024" with a native parse that fails: month index 24 gives a date in January 2026 | use the month-first reading only when it names a real calendar day, otherwise the day-first one when that does, and no date when neither does (as the function's final `return null` gives), so the text gives 25 December 2024 | not executed | Format.AsWrittenNeverDayFirst, Format.DayFirstCounterexample | Format.FallbackArgs, Format.ToDate |
| src/modules/formatting/tableFormatter.js:343-358 | `addDataBar` re-reads the cell's current text, so after an icon rule has prepended its icon the text no longer parses and the gradient assigned reads NaN%, which the browser rejects, so no bar is drawn | the cell "5" with an icon rule and then a data-bar rule with maximum 20 | the bar reads the value the rules were matched against and is drawn at 25% | not executed | TableFormatter.DataBarAfterIconCounterexample | TableFormatter.ApplyConditionalFormatting |
| src/modules/formatting/tableFormatter.js:434-443 | `new TableFormatter().settings` reloads the saved settings, so once they are saved the reset gives back the settings it started from | a saved currency number format, then a reset: the format stays currency | every section back to its default, the current rules kept, so the format is 'auto' again | not executed | TableFormatter.Formatter.ResetToDefaultsAsWritten, TableFormatter.ResetAsWrittenCounterexample | TableFormatter.Formatter.ResetToDefaults, TableFormatter.ResetSettings |
| src/ui/aggregate-by-visible-dims-dom.js:109-117 | a regroup while aggregated reads the aggregated body back as detail rows and overwrites the snapshot with it | a two-row table: hide its dimension, let the body observer regroup once, show the dimension again; one row comes back | while aggregated the regroup reads the snapshot and leaves it alone, so both rows come back | not executed | AggregateVisibleDims.AsWrittenOverwritesSnapshot, AggregateVisibleDims.SnapshotLossCounterexample | AggregateVisibleDims.RecomputeKeepsSnapshot, AggregateVisibleDims.SnapshotKeptInScenario |
| src/ui/settings-manager.js:348-352 | a field name that is not in the list gives index -1, which passes `index < fields.length - 1`; the swap then writes undefined into slot 0 | the measure list ["Sales"] and a move down of "Profit" | a name that is not in the list changes nothing | not executed | FieldSettings.MoveDownAsWritten, FieldSettings.MoveDownAsWrittenCounterexample | FieldSettings.MoveDownStep, FieldSettings.MoveDownAbsent, SettingsManager.SettingsManager.MoveFieldDown |
| src/ui/button-column-reorder.js:78-81 | the re-run after a move skips headers that already have controls, so the moved header's arrows stay bound to its old index | headers A, B: A's right arrow moves A to index 1, then A's right arrow, still bound to index 0, moves B instead of A | after a move every header's controls act on its current index | not executed | ButtonColumnReorder.StaleControlsCounterexample | ButtonColumnReorder.RefreshedCurrent, ButtonColumnReorder.ButtonReorder.MoveColumn |
| src/ui/button-column-reorder.js:104-142 | restoring a saved order moves the columns but never rebuilds the controls, so each moved header's arrows stay bound to its old index | headers A, B with controls, saved order B, A: B moves to index 0 keeping a left arrow bound to index 1, which then moves A instead of B | after a restore every header's controls act on its current index | not executed | ButtonColumnReorder.ButtonReorder.RestoreColumnOrderAsWritten, ButtonColumnReorder.RestoreStaleCounterexample | ButtonColumnReorder.ButtonReorder.RestoreColumnOrder, ButtonColumnReorder.RefreshedCurrent |
| src/ui/simple-column-drag.js:136-138 | a body cell is named by a live lookup of the header at its position, and by then the header row has already been reordered | header A, B over body x, y with saved order B, A: the header becomes B, A while the body stays x, y | name every cell by the header order before any row moves, so the body becomes y, x | not executed | SimpleColumnDrag.SavedAsWritten, SimpleColumnDrag.MisalignedBodyCounterexample | SimpleColumnDrag.Saved, SimpleColumnDrag.ApplySavedOrder, SimpleColumnDrag.ColumnsFollowNames |
| src/ui/simple-column-drag.js:107-111 | `setupDrag` binds each header's drag handlers to its index before `applySavedColumnOrder` reorders the headers, so until the first drop re-binds them each handler acts on the header's pre-restore index | headers A, B, C with saved order C, A, B: the restored header is C, A, B, and dragging C onto A runs `moveColumn(2, 0)`, giving B, C, A | bind the handlers after the restore, so dragging C onto A moves C to A's place, giving A, C, B | not executed | SimpleColumnDrag.SimpleDrag.EnableColumnDrag, SimpleColumnDrag.StaleDragCounterexample | SimpleColumnDrag.SimpleDrag.EnableColumnDragCorrected, SimpleColumnDrag.SimpleDrag.Drop |
| src/ui/columns-menu-dom.js:31-103 | the panel is a child of the menu button and no listener inside it stops propagation, so every click in the panel also reaches the button's toggle | the panel open, a click on Show all: the set is emptied and the list rebuilt, then the toggle closes the panel | the panel stays open while the user works in it | not executed | ColumnsMenu.Menu.ClickShowAll, ColumnsMenu.Menu.ClickHideAll, ColumnsMenu.Menu.ClickCheckbox | ColumnsMenu.Menu.ShowAll, ColumnsMenu.Menu.HideAll, ColumnsMenu.Menu.CheckboxChanged |
