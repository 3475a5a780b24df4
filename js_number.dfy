/**
 * JavaScript's string-to-number conversions, over exact reals.
 *
 * `FiniteNumber(s)` is `Number(s)` when that is a finite number and `None`
 * when it is NaN or an infinity: leading and trailing white space is
 * skipped, the empty string reads as 0, `0x`/`0o`/`0b` prefixes select
 * radix 16/8/2, and otherwise the whole text must be an optionally signed
 * decimal literal (digits, an optional point, more digits, an optional
 * exponent), as in section 7.1.4.1 of ECMA-262.
 *
 * `ParseFloat(s)` is `parseFloat(s)`: leading white space is skipped and the
 * longest prefix that reads as a signed decimal literal is taken; `None`
 * stands for NaN.
 */
module JsNumber {
  import opened Wrappers
  import JsText

  predicate IsDigit(c: char) { '0' <= c <= '9' }

  predicate AllDigits(s: string) {
    forall i :: 0 <= i < |s| ==> IsDigit(s[i])
  }

  /** The value of c as a digit in the given radix, or -1. */
  function DigitIn(c: char, radix: nat): (d: int)
    ensures -1 <= d < radix
  {
    var v :=
      if '0' <= c <= '9' then c as int - '0' as int
      else if 'a' <= c <= 'f' then c as int - 'a' as int + 10
      else if 'A' <= c <= 'F' then c as int - 'A' as int + 10
      else -1;
    if v < radix then v else -1
  }

  predicate AllDigitsIn(s: string, radix: nat) {
    forall i :: 0 <= i < |s| ==> DigitIn(s[i], radix) >= 0
  }

  /** The value of a digit string in the given radix, most significant digit first. */
  function RadixValue(s: string, radix: nat): nat
    requires AllDigitsIn(s, radix)
  {
    if s == [] then 0
    else RadixValue(s[..|s| - 1], radix) * radix + DigitIn(s[|s| - 1], radix) as nat
  }

  function DigitsValue(s: string): nat
    requires AllDigits(s)
  {
    assert AllDigitsIn(s, 10) by {
      forall i | 0 <= i < |s| ensures DigitIn(s[i], 10) >= 0 {
        assert IsDigit(s[i]);
      }
    }
    RadixValue(s, 10)
  }

  /** Length of the leading run of decimal digits. */
  function DigitRun(s: string): (n: nat)
    ensures n <= |s| && AllDigits(s[..n])
    ensures n == |s| || !IsDigit(s[n])
  {
    if s == [] || !IsDigit(s[0]) then 0
    else
      var m := DigitRun(s[1..]);
      assert s[..1 + m] == [s[0]] + s[1..][..m];
      1 + m
  }

  function Pow10(n: nat): (p: nat)
    ensures p >= 1
  {
    if n == 0 then 1 else 10 * Pow10(n - 1)
  }

  /** 10 raised to an integer power, as a real. */
  function Scale(e: int): (r: real)
    ensures r > 0.0
  {
    if e >= 0 then Pow10(e) as real else 1.0 / (Pow10(-e) as real)
  }

  /** The longest prefix of an unsigned decimal literal: its length and value (length 0: none). */
  datatype Scan = Scan(len: nat, value: real)

  /** The value of `whole.frac`, the two digit strings of a decimal mantissa. */
  function Mantissa(whole: string, frac: string): real
    requires AllDigits(whole) && AllDigits(frac)
  {
    DigitsValue(whole) as real + DigitsValue(frac) as real / Pow10(|frac|) as real
  }

  /**
   * Reads `digits [. digits] [(e|E) [+|-] digits]` greedily from the front of s,
   * requiring at least one mantissa digit; the exponent is taken only when at
   * least one exponent digit follows.
   */
  function ScanUnsigned(s: string): (r: Scan)
    ensures r.len <= |s|
  {
    var i := DigitRun(s);
    var hasDot := i < |s| && s[i] == '.';
    var f := if hasDot then DigitRun(s[i + 1..]) else 0;
    var j := if hasDot then i + 1 + f else i;
    if i + f == 0 then Scan(0, 0.0)
    else
      var mant := Mantissa(s[..i], if hasDot then s[i + 1..][..f] else "");
      if j < |s| && (s[j] == 'e' || s[j] == 'E') then
        var signed := j + 1 < |s| && (s[j + 1] == '+' || s[j + 1] == '-');
        var k := if signed then j + 2 else j + 1;
        var m := DigitRun(s[k..]);
        if m == 0 then Scan(j, mant)
        else
          var e: int := DigitsValue(s[k..][..m]);
          Scan(k + m, mant * Scale(if signed && s[j + 1] == '-' then -e else e))
      else Scan(j, mant)
  }

  /** Splits one leading sign off: the multiplier and the rest. */
  function SplitSign(t: string): (real, string) {
    if t != [] && t[0] == '-' then (-1.0, t[1..])
    else if t != [] && t[0] == '+' then (1.0, t[1..])
    else (1.0, t)
  }

  /** A `0x`, `0o` or `0b` literal's radix, if t starts with one. */
  function RadixPrefix(t: string): (r: nat)
    ensures r == 0 || r == 2 || r == 8 || r == 16
  {
    if |t| >= 2 && t[0] == '0' && (t[1] == 'x' || t[1] == 'X') then 16
    else if |t| >= 2 && t[0] == '0' && (t[1] == 'o' || t[1] == 'O') then 8
    else if |t| >= 2 && t[0] == '0' && (t[1] == 'b' || t[1] == 'B') then 2
    else 0
  }

  /** `Number(s)` when it is finite; `None` for NaN and for the infinities. */
  function FiniteNumber(s: string): Option<real> {
    var t := JsText.Trim(s);
    if t == "" then Some(0.0)
    else if RadixPrefix(t) != 0 then
      var radix := RadixPrefix(t);
      if |t| > 2 && AllDigitsIn(t[2..], radix) then Some(RadixValue(t[2..], radix) as real) else None
    else
      var (sign, u) := SplitSign(t);
      var sc := ScanUnsigned(u);
      // "Infinity" and "-Infinity" read as infinities, which are not finite.
      if sc.len > 0 && sc.len == |u| then Some(sign * sc.value) else None
  }

  /** `parseFloat(s)`; `None` stands for NaN. */
  function ParseFloat(s: string): Option<real> {
    var (sign, u) := SplitSign(JsText.TrimStart(s));
    var sc := ScanUnsigned(u);
    if sc.len > 0 then Some(sign * sc.value) else None
  }

  // ------------------------------------------------------------- lemmas

  /** An empty or all-white-space string converts to 0, not to NaN. */
  lemma BlankIsZero(s: string)
    requires forall i :: 0 <= i < |s| ==> JsText.IsSpace(s[i])
    ensures FiniteNumber(s) == Some(0.0)
  {
    JsText.TrimAllSpace(s);
  }

  lemma {:induction false} ScanDigits(ds: string)
    requires ds != [] && AllDigits(ds)
    ensures ScanUnsigned(ds) == Scan(|ds|, DigitsValue(ds) as real)
  {
    DigitRunAll(ds);
    assert ds[..|ds|] == ds;
    assert DigitsValue("") == 0;
  }

  lemma {:induction false} DigitRunAll(ds: string)
    requires AllDigits(ds)
    ensures DigitRun(ds) == |ds|
  {
    if ds != [] {
      DigitRunAll(ds[1..]);
    }
  }

  /** `parseFloat` reads a plain digit string as its decimal value. */
  lemma ParseFloatDigits(ds: string)
    requires ds != [] && AllDigits(ds)
    ensures ParseFloat(ds) == Some(DigitsValue(ds) as real)
  {
    ScanDigits(ds);
    assert !JsText.IsSpace(ds[0]);
    assert JsText.TrimStart(ds) == ds;
    assert SplitSign(ds) == (1.0, ds);
  }

  /** A plain digit string means the same number to `Number` and to `parseFloat`. */
  lemma DigitsAgree(ds: string)
    requires ds != [] && AllDigits(ds)
    ensures FiniteNumber(ds) == Some(DigitsValue(ds) as real)
    ensures ParseFloat(ds) == Some(DigitsValue(ds) as real)
  {
    ScanDigits(ds);
    assert !JsText.IsSpace(ds[0]) && !JsText.IsSpace(ds[|ds| - 1]);
    assert JsText.TrimEnd(ds) == ds;
    assert JsText.TrimStart(ds) == ds;
    assert RadixPrefix(ds) == 0 by {
      if |ds| >= 2 { assert IsDigit(ds[1]); }
    }
    assert SplitSign(ds) == (1.0, ds);
  }

  /** A single decimal digit is a digit string whose value is that digit's. */
  lemma OneDigitValue(s: string)
    requires |s| == 1 && IsDigit(s[0])
    ensures AllDigits(s) && DigitsValue(s) == s[0] as int - '0' as int
  {
    assert s[..0] == "";
    assert RadixValue(s, 10) == RadixValue("", 10) * 10 + DigitIn(s[0], 10);
  }


  /** The decimal digits of n, most significant first (`String(n)` for a natural number). */
  function ShowNat(n: nat): (r: string)
    ensures r != [] && AllDigits(r)
  {
    var d := [('0' as int + n % 10) as char];
    if n < 10 then d else ShowNat(n / 10) + d
  }

  /** Reading the digits of n back gives n. */
  lemma {:induction false} ShowNatValue(n: nat)
    ensures DigitsValue(ShowNat(n)) == n
  {
    var r := ShowNat(n);
    assert DigitIn(r[|r| - 1], 10) == n % 10;
    if n >= 10 {
      ShowNatValue(n / 10);
      assert r[..|r| - 1] == ShowNat(n / 10);
      assert RadixValue(r, 10) == RadixValue(ShowNat(n / 10), 10) * 10 + n % 10;
    } else {
      assert r[..|r| - 1] == [];
      assert RadixValue(r, 10) == RadixValue([], 10) * 10 + n % 10;
    }
  }

  /** `Number(String(n)) == n` and `parseFloat(String(n)) == n` for every natural number n. */
  lemma NatRoundTrip(n: nat)
    ensures FiniteNumber(ShowNat(n)) == Some(n as real)
    ensures ParseFloat(ShowNat(n)) == Some(n as real)
  {
    ShowNatValue(n);
    DigitsAgree(ShowNat(n));
  }
}
