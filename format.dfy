/**
 * Value parsing shared by the table: number recognition after stripping
 * separators, currency and percent signs; date recognition with a D/M/Y
 * fallback; case-insensitive substring tests; and the column-type vote.
 */
module Format {
  import opened Wrappers
  import JsText
  import JsNumber

  // ---------------------------------------------------------------- numbers

  /** Characters the number reader drops: commas, `\s`, `%` and `$ £ € ₹`. */
  predicate Dropped(c: char) {
    c == ',' || JsText.IsSpace(c) || c == '%' || c == '$' || c == '£' || c == '€' || c == '₹'
  }

  /** The four replace steps: drop the characters above and map U+2212 MINUS SIGN to '-'. */
  function Strip(s: string): (r: string)
    ensures |r| <= |s|
    ensures forall i :: 0 <= i < |r| ==> !Dropped(r[i]) && r[i] != '−'
  {
    if s == [] then []
    else (if Dropped(s[0]) then [] else [if s[0] == '−' then '-' else s[0]]) + Strip(s[1..])
  }

  /** A string with nothing to drop or map is its own stripped form. */
  lemma {:induction false} StripClean(s: string)
    requires forall i :: 0 <= i < |s| ==> !Dropped(s[i]) && s[i] != '−'
    ensures Strip(s) == s
  {
    if s != [] {
      StripClean(s[1..]);
    }
  }

  lemma StripIdempotent(s: string)
    ensures Strip(Strip(s)) == Strip(s)
  {
    StripClean(Strip(s));
  }

  /** `toNumber`: `None` for null/undefined and for text that is not a finite number once stripped. */
  function ToNumber(v: Option<string>): (r: Option<real>)
    ensures v.None? ==> r.None?
  {
    match v
    case None => None
    case Some(s) => JsNumber.FiniteNumber(Strip(s))
  }

  /** Stripping first changes nothing: toNumber(strip(s)) = toNumber(s). */
  lemma ToNumberStripStable(s: string)
    ensures ToNumber(Some(Strip(s))) == ToNumber(Some(s))
  {
    StripIdempotent(s);
  }

  /**
   * Decorated natural numbers read as their value: `"$1,234"`-style text is
   * digits with dropped characters mixed in.
   */
  lemma {:induction false} ToNumberOfDigits(s: string, n: nat)
    requires Strip(s) == JsNumber.ShowNat(n)
    ensures ToNumber(Some(s)) == Some(n as real)
  {
    JsNumber.NatRoundTrip(n);
  }

  /** The empty string and blank text read as 0, not as null: `Number("")` is 0. */
  lemma {:induction false} ToNumberBlank(s: string)
    requires forall i :: 0 <= i < |s| ==> Dropped(s[i])
    ensures ToNumber(Some(s)) == Some(0.0)
  {
    StripAllDropped(s);
    JsNumber.BlankIsZero("");
  }

  lemma {:induction false} StripAllDropped(s: string)
    requires forall i :: 0 <= i < |s| ==> Dropped(s[i])
    ensures Strip(s) == ""
  {
    if s != [] {
      StripAllDropped(s[1..]);
    }
  }

  // ------------------------------------------------------------------ dates

  /** A JavaScript Date broken down as its getters report it (month counted from 0). */
  datatype JsDate = JsDate(year: int, month: int, day: int, timeMs: int)

  /** `new Date(str)`: the engine's own parser; `None` is an Invalid Date. */
  type NativeDate = string -> Option<JsDate>

  /** `new Date(y, m, d)` with a month counted from 0; `None` is an Invalid Date. */
  type MakeDate = (int, int, int) -> Option<JsDate>

  /** `stripTime`: the same calendar day at midnight. */
  function StripTime(d: JsDate): (r: JsDate)
    ensures r.timeMs == 0 && SameDay(r, d)
  {
    JsDate(d.year, d.month, d.day, 0)
  }

  /** `sameDay`: equal year, month and day of month. */
  predicate SameDay(a: JsDate, b: JsDate) {
    a.year == b.year && a.month == b.month && a.day == b.day
  }

  /** `a < b` on dates: comparison of the time values, i.e. of (year, month, day, time). */
  predicate Before(a: JsDate, b: JsDate) {
    a.year < b.year
    || (a.year == b.year && a.month < b.month)
    || (a.year == b.year && a.month == b.month && a.day < b.day)
    || (a.year == b.year && a.month == b.month && a.day == b.day && a.timeMs < b.timeMs)
  }

  predicate AtMost(a: JsDate, b: JsDate) { Before(a, b) || a == b }

  lemma BeforeTotal(a: JsDate, b: JsDate)
    ensures Before(a, b) || a == b || Before(b, a)
    ensures !(Before(a, b) && Before(b, a))
  {
  }

  predicate IsSep(c: char) { c == '/' || c == '-' }

  /** The captures of `^(\d{1,2})[\/\-](\d{1,2})[\/\-](\d{2,4})$`, as numbers. */
  function MatchDmy(s: string): (r: Option<(nat, nat, nat)>)
    ensures r.Some? ==> r.value.0 < 100 && r.value.1 < 100 && r.value.2 < 10000
  {
    var i := JsNumber.DigitRun(s);
    if !(1 <= i <= 2 && i < |s| && IsSep(s[i])) then None
    else
      var t := s[i + 1..];
      var j := JsNumber.DigitRun(t);
      if !(1 <= j <= 2 && j < |t| && IsSep(t[j])) then None
      else
        var u := t[j + 1..];
        if 2 <= |u| <= 4 && JsNumber.AllDigits(u) then
          DigitsBound(s[..i]);
          DigitsBound(t[..j]);
          DigitsBound(u);
          Some((JsNumber.DigitsValue(s[..i]), JsNumber.DigitsValue(t[..j]), JsNumber.DigitsValue(u)))
        else None
  }

  lemma {:induction false} DigitsBound(s: string)
    requires JsNumber.AllDigits(s)
    ensures JsNumber.DigitsValue(s) < JsNumber.Pow10(|s|)
  {
    if s != [] {
      DigitsBound(s[..|s| - 1]);
      assert JsNumber.DigitsValue(s)
        == JsNumber.DigitsValue(s[..|s| - 1]) * 10 + JsNumber.DigitIn(s[|s| - 1], 10);
    }
  }

  lemma MatchDmyOf(a: string, b: string, y: string, s1: char, s2: char)
    requires 1 <= |a| <= 2 && 1 <= |b| <= 2 && 2 <= |y| <= 4
    requires JsNumber.AllDigits(a) && JsNumber.AllDigits(b) && JsNumber.AllDigits(y)
    requires IsSep(s1) && IsSep(s2)
    ensures MatchDmy(a + ([s1] + (b + ([s2] + y))))
         == Some((JsNumber.DigitsValue(a), JsNumber.DigitsValue(b), JsNumber.DigitsValue(y)))
  {
    var t := b + ([s2] + y);
    var s := a + ([s1] + t);
    DigitRunStops(a, s1, t);
    assert s[..|a|] == a && s[|a|] == s1 && s[|a| + 1..] == t;
    DigitRunStops(b, s2, y);
    assert t[..|b|] == b && t[|b|] == s2 && t[|b| + 1..] == y;
  }

  /** Every string of the pattern's shape is matched, with its three numbers captured. */
  lemma MatchDmyReads(a: string, b: string, y: string, s1: char, s2: char)
    requires 1 <= |a| <= 2 && 1 <= |b| <= 2 && 2 <= |y| <= 4
    requires JsNumber.AllDigits(a) && JsNumber.AllDigits(b) && JsNumber.AllDigits(y)
    requires IsSep(s1) && IsSep(s2)
    ensures MatchDmy(a + [s1] + b + [s2] + y)
         == Some((JsNumber.DigitsValue(a), JsNumber.DigitsValue(b), JsNumber.DigitsValue(y)))
  {
    assert a + [s1] + b + [s2] + y == a + ([s1] + (b + ([s2] + y)));
    MatchDmyOf(a, b, y, s1, s2);
  }

  lemma {:induction false} DigitRunStops(d: string, c: char, rest: string)
    requires JsNumber.AllDigits(d) && !JsNumber.IsDigit(c)
    ensures JsNumber.DigitRun(d + ([c] + rest)) == |d|
  {
    if d != [] {
      assert (d + ([c] + rest))[1..] == d[1..] + ([c] + rest);
      DigitRunStops(d[1..], c, rest);
    }
  }

  /** A year written with fewer than three digits' worth (below 100) is read as 2000 + y. */
  function FullYear(y: nat): (r: nat)
    ensures y < 100 ==> r == 2000 + y
    ensures y >= 100 ==> r == y
  {
    if y < 100 then 2000 + y else y
  }

  function IsLeap(y: int): bool {
    (y % 4 == 0 && y % 100 != 0) || y % 400 == 0
  }

  function DaysInMonth(y: int, m: int): int
    requires 1 <= m <= 12
  {
    if m == 2 then (if IsLeap(y) then 29 else 28)
    else if m == 4 || m == 6 || m == 9 || m == 11 then 30
    else 31
  }

  /** y-m-d names a day of the Gregorian calendar (month counted from 1). */
  predicate ValidDay(y: int, m: int, d: int) {
    1 <= m <= 12 && 1 <= d <= DaysInMonth(y, m)
  }

  /**
   * The arguments `toDate` passes to `new Date(y, m, d)` for a D/M/Y text, as
   * the fallback evidently intends: the month-first reading when it names a
   * calendar day, else the day-first reading when that does, else none.
   */
  function FallbackArgs(s: string): (r: Option<(int, int, int)>)
    ensures r.Some? ==> ValidDay(r.value.0, r.value.1 + 1, r.value.2)
    ensures r.Some? ==> MatchDmy(s).Some? && r.value.0 == FullYear(MatchDmy(s).value.2)
  {
    match MatchDmy(s)
    case None => None
    case Some((a, b, y)) =>
      var yyyy := FullYear(y);
      if ValidDay(yyyy, a, b) then Some((yyyy, a - 1, b))
      else if ValidDay(yyyy, b, a) then Some((yyyy, b - 1, a))
      else None
  }

  /** The month-first reading wins whenever it names a calendar day. */
  lemma FallbackPrefersMonthFirst(s: string, a: nat, b: nat, y: nat)
    requires MatchDmy(s) == Some((a, b, y)) && ValidDay(FullYear(y), a, b)
    ensures FallbackArgs(s) == Some((FullYear(y), a - 1, b))
  {
  }

  /** The day-first reading is used exactly when only it names a calendar day. */
  lemma FallbackDayFirst(s: string, a: nat, b: nat, y: nat)
    requires MatchDmy(s) == Some((a, b, y))
    ensures FallbackArgs(s) == Some((FullYear(y), b - 1, a))
        <==> (!ValidDay(FullYear(y), a, b) && ValidDay(FullYear(y), b, a)) || (a == b && ValidDay(FullYear(y), a, b))
  {
  }

  /**
   * `toDate`: null for empty text; the native parse when it succeeds; else the
   * D/M/Y fallback. Every result is at midnight.
   */
  function ToDate(s: string, native: NativeDate, make: MakeDate): (r: Option<JsDate>)
    ensures s == "" ==> r.None?
    ensures r.Some? ==> r.value.timeMs == 0
    ensures native(s).Some? && s != "" ==> r == Some(StripTime(native(s).value))
  {
    if s == "" then None
    else match native(s)
      case Some(d) => Some(StripTime(d))
      case None =>
        match FallbackArgs(s)
        case None => None
        case Some((y, m, d)) =>
          match make(y, m, d)
          case Some(c) => Some(StripTime(c))
          case None => None
  }

  /**
   * `toDate` as written: it tries `new Date(yyyy, a - 1, b)` and falls back to
   * `new Date(yyyy, b - 1, a)` only when the first is an Invalid Date.
   */
  function ToDateAsWritten(s: string, native: NativeDate, make: MakeDate): Option<JsDate> {
    if s == "" then None
    else match native(s)
      case Some(d) => Some(StripTime(d))
      case None =>
        match MatchDmy(s)
        case None => None
        case Some((a, b, y)) =>
          var yyyy := FullYear(y);
          match make(yyyy, a - 1, b)
          case Some(c1) => Some(StripTime(c1))
          case None =>
            match make(yyyy, b - 1, a)
            case Some(c2) => Some(StripTime(c2))
            case None => None
  }

  /**
   * `new Date(y, m, d)` never yields an Invalid Date for the small integers
   * the pattern captures: out-of-range months and days roll over into the
   * following year or month. Under that behaviour the day-first reading is
   * never reached: the written code always returns the month-first date.
   */
  lemma AsWrittenNeverDayFirst(s: string, native: NativeDate, make: MakeDate, a: nat, b: nat, y: nat)
    requires s != "" && native(s).None? && MatchDmy(s) == Some((a, b, y))
    requires make(FullYear(y), a - 1, b).Some?
    ensures ToDateAsWritten(s, native, make) == Some(StripTime(make(FullYear(y), a - 1, b).value))
  {
  }

  /**
   * "25/12/2024" (which a browser's native parser rejects): as written, the
   * constructor receives month index 24, which rolls over to 12 January 2026;
   * the corrected reading is 25 December 2024.
   */
  lemma DayFirstCounterexample(native: NativeDate, make: MakeDate)
    requires native("25/12/2024").None?
    requires make(2024, 24, 12).Some?
    ensures ToDateAsWritten("25/12/2024", native, make) == Some(StripTime(make(2024, 24, 12).value))
    ensures !ValidDay(2024, 24 + 1, 12)
    ensures FallbackArgs("25/12/2024") == Some((2024, 11, 25))
  {
    DayFirstSample();
  }

  /** "25/12/2024" matches the D/M/Y pattern as 25, 12 and 2024. */
  lemma DayFirstSample()
    ensures MatchDmy("25/12/2024") == Some((25, 12, 2024))
  {
    MatchDmyReads("25", "12", "2024", '/', '/');
    assert "25/12/2024" == "25" + ['/'] + "12" + ['/'] + "2024";
    DayMonthDigits();
    YearDigits();
  }

  lemma DayMonthDigits()
    ensures JsNumber.DigitsValue("25") == 25 && JsNumber.DigitsValue("12") == 12
  {
    assert "25"[..1] == "2" && "12"[..1] == "1";
    assert JsNumber.RadixValue("2", 10) == 2;
    assert JsNumber.RadixValue("1", 10) == 1;
  }

  lemma YearDigits()
    ensures JsNumber.DigitsValue("2024") == 2024
  {
    assert "2024"[..3] == "202" && "202"[..2] == "20" && "20"[..1] == "2";
    assert JsNumber.RadixValue("2", 10) == 2;
    assert JsNumber.RadixValue("20", 10) == 20;
    assert JsNumber.RadixValue("202", 10) == 202;
  }

  // ------------------------------------------------------------- includes

  /** `includesCaseInsensitive`: a falsy needle is found everywhere. */
  function IncludesCaseInsensitive(haystack: string, needle: Option<string>): bool {
    match needle
    case None => true
    case Some(n) => n == "" || JsText.Includes(JsText.Lower(haystack), JsText.Lower(n))
  }

  /**
   * The answer ignores letter case on both sides, and a needle found in a
   * haystack is still found when more text is appended.
   */
  lemma IncludesCaseInsensitiveStable(h: string, n: string, more: string)
    ensures IncludesCaseInsensitive(JsText.Lower(h), Some(n)) == IncludesCaseInsensitive(h, Some(n))
    ensures IncludesCaseInsensitive(h, Some(JsText.Lower(n))) == IncludesCaseInsensitive(h, Some(n))
    ensures IncludesCaseInsensitive(h, Some(n)) ==> IncludesCaseInsensitive(h + more, Some(n))
  {
    JsText.LowerIdempotent(h);
    JsText.LowerIdempotent(n);
    JsText.LowerAppend(h, more);
    if n != "" && JsText.Includes(JsText.Lower(h), JsText.Lower(n)) {
      JsText.IncludesInLeft(JsText.Lower(h), JsText.Lower(more), JsText.Lower(n));
    }
  }

  // ---------------------------------------------------------- type votes

  datatype ColumnKind = NumberKind | DateKind | TextKind

  /** A sample that takes part in the vote: not null, undefined or "". */
  predicate Counted(v: Option<string>) { v.Some? && v.value != "" }

  predicate VotesNumber(v: Option<string>) { Counted(v) && ToNumber(v).Some? }

  predicate VotesDate(v: Option<string>, native: NativeDate, make: MakeDate) {
    Counted(v) && ToNumber(v).None? && ToDate(v.value, native, make).Some?
  }

  function Total(s: seq<Option<string>>): nat {
    if s == [] then 0 else Total(s[..|s| - 1]) + (if Counted(s[|s| - 1]) then 1 else 0)
  }

  function Numbers(s: seq<Option<string>>): nat {
    if s == [] then 0 else Numbers(s[..|s| - 1]) + (if VotesNumber(s[|s| - 1]) then 1 else 0)
  }

  function Dates(s: seq<Option<string>>, native: NativeDate, make: MakeDate): nat {
    if s == [] then 0 else Dates(s[..|s| - 1], native, make) + (if VotesDate(s[|s| - 1], native, make) then 1 else 0)
  }

  /** n / total >= 0.6, compared exactly. */
  predicate AtLeastThreeFifths(n: nat, total: nat) { total > 0 && 5 * n >= 3 * total }

  /** One sample more adds its own votes to the three counters. */
  lemma VoteStep(s: seq<Option<string>>, i: nat, native: NativeDate, make: MakeDate)
    requires i < |s|
    ensures Total(s[..i + 1]) == Total(s[..i]) + (if Counted(s[i]) then 1 else 0)
    ensures Numbers(s[..i + 1]) == Numbers(s[..i]) + (if VotesNumber(s[i]) then 1 else 0)
    ensures Dates(s[..i + 1], native, make) == Dates(s[..i], native, make) + (if VotesDate(s[i], native, make) then 1 else 0)
  {
    var t := s[..i + 1];
    assert t[..i] == s[..i] && t[|t| - 1] == s[i];
  }

  /**
   * `detectType`: counts the samples that are not null, undefined or "",
   * those of them that are numbers, and those that are dates but not numbers,
   * then votes with a 60% threshold.
   */
  method DetectType(samples: seq<Option<string>>, native: NativeDate, make: MakeDate) returns (kind: ColumnKind)
    ensures kind == NumberKind <==> AtLeastThreeFifths(Numbers(samples), Total(samples))
    ensures kind == DateKind <==>
      !AtLeastThreeFifths(Numbers(samples), Total(samples)) && AtLeastThreeFifths(Dates(samples, native, make), Total(samples))
    ensures Total(samples) == 0 ==> kind == TextKind
  {
    var numbers, dates, total := 0, 0, 0;
    for i := 0 to |samples|
      invariant total == Total(samples[..i])
      invariant numbers == Numbers(samples[..i])
      invariant dates == Dates(samples[..i], native, make)
    {
      VoteStep(samples, i, native, make);
      var v := samples[i];
      if v.None? || v.value == "" {
        continue;
      }
      total := total + 1;
      if ToNumber(v).Some? {
        numbers := numbers + 1;
      } else if ToDate(v.value, native, make).Some? {
        dates := dates + 1;
      }
    }
    assert samples[..|samples|] == samples;
    if total > 0 && 5 * numbers >= 3 * total {
      kind := NumberKind;
    } else if total > 0 && 5 * dates >= 3 * total {
      kind := DateKind;
    } else {
      kind := TextKind;
    }
  }

  /** Numbers are taken first, so no sample is counted both as a number and as a date. */
  lemma {:induction false} VotesDisjoint(s: seq<Option<string>>, native: NativeDate, make: MakeDate)
    ensures Numbers(s) + Dates(s, native, make) <= Total(s)
  {
    if s != [] {
      VotesDisjoint(s[..|s| - 1], native, make);
    }
  }

  /** With only null, undefined or "" samples nothing is counted, so the vote is "text". */
  lemma {:induction false} BlankSamplesCountNothing(s: seq<Option<string>>)
    requires forall i :: 0 <= i < |s| ==> !Counted(s[i])
    ensures Total(s) == 0
  {
    if s != [] {
      BlankSamplesCountNothing(s[..|s| - 1]);
    }
  }
}
