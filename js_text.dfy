/**
 * The JavaScript string primitives the table code relies on: the `\s`
 * character class (which is also the white space `trim` and `Number` skip),
 * `trim`, `toLowerCase` (ASCII letters), `includes`, splitting on runs of
 * white space, `join` and `replace` with a one-character class.
 */
module JsText {
  import SeqOps


  /** The characters matched by the regular-expression class `\s`. */
  predicate IsSpace(c: char) {
    c == ' ' || c == '\t' || c == '\n' || c == '\r' || c == '\U{000B}' || c == '\U{000C}'
    || c == '\U{00A0}' || c == '\U{1680}' || ('\U{2000}' <= c <= '\U{200A}')
    || c == '\U{2028}' || c == '\U{2029}' || c == '\U{202F}' || c == '\U{205F}'
    || c == '\U{3000}' || c == '\U{FEFF}'
  }

  predicate NoSpace(s: string) {
    forall i :: 0 <= i < |s| ==> !IsSpace(s[i])
  }

  // ---------------------------------------------------------------- trim

  function TrimStart(s: string): (r: string)
    ensures |r| <= |s| && r == s[|s| - |r|..]
    ensures r == [] || !IsSpace(r[0])
  {
    if s == [] || !IsSpace(s[0]) then s else TrimStart(s[1..])
  }

  function TrimEnd(s: string): (r: string)
    ensures |r| <= |s| && r == s[..|r|]
    ensures r == [] || !IsSpace(r[|r| - 1])
  {
    if s == [] || !IsSpace(s[|s| - 1]) then s else TrimEnd(s[..|s| - 1])
  }

  /** `String.prototype.trim`. */
  function Trim(s: string): string {
    TrimStart(TrimEnd(s))
  }

  /** A string that neither starts nor ends with white space is its own trim. */
  lemma TrimPlain(s: string)
    requires s == [] || (!IsSpace(s[0]) && !IsSpace(s[|s| - 1]))
    ensures Trim(s) == s
  {
    assert TrimEnd(s) == s;
  }

  /** The trimmed string is the part of s between its leading and trailing white space. */
  lemma TrimIsCore(s: string)
    ensures var r := Trim(s);
      (r == [] || (!IsSpace(r[0]) && !IsSpace(r[|r| - 1])))
      && OccursAt(s, r, |TrimEnd(s)| - |r|)
  {
  }

  lemma {:induction false} TrimStartKeeps(s: string)
    requires s == [] || !IsSpace(s[0])
    ensures TrimStart(s) == s
  {
  }

  /** Trimming twice is trimming once. */
  lemma TrimIdempotent(s: string)
    ensures Trim(Trim(s)) == Trim(s)
  {
    var r := Trim(s);
    TrimIsCore(s);
    if r != [] {
      assert TrimEnd(r) == r;
    }
  }

  /** An all-white-space string trims to the empty string. */
  lemma {:induction false} TrimAllSpace(s: string)
    requires forall i :: 0 <= i < |s| ==> IsSpace(s[i])
    ensures Trim(s) == ""
  {
  }

  lemma {:induction false} TrimEndKeeps(s: string, i: nat)
    requires i < |s| && !IsSpace(s[i])
    ensures i < |TrimEnd(s)|
  {
    if IsSpace(s[|s| - 1]) {
      TrimEndKeeps(s[..|s| - 1], i);
    }
  }

  lemma {:induction false} TrimStartNonEmpty(s: string, i: nat)
    requires i < |s| && !IsSpace(s[i])
    ensures TrimStart(s) != ""
  {
    if IsSpace(s[0]) {
      TrimStartNonEmpty(s[1..], i - 1);
    }
  }

  /** A string holding any character outside `\s` does not trim to the empty string. */
  lemma TrimNonBlank(s: string, i: nat)
    requires i < |s| && !IsSpace(s[i])
    ensures Trim(s) != ""
  {
    TrimEndKeeps(s, i);
    TrimStartNonEmpty(TrimEnd(s), i);
  }

  // ---------------------------------------------------------- lower case

  function LowerChar(c: char): char {
    if 'A' <= c <= 'Z' then (c as int + 32) as char else c
  }

  /** `String.prototype.toLowerCase`, on the ASCII letters. */
  function Lower(s: string): (r: string)
    ensures |r| == |s|
    ensures forall i :: 0 <= i < |s| ==> r[i] == LowerChar(s[i])
  {
    if s == [] then [] else [LowerChar(s[0])] + Lower(s[1..])
  }

  lemma LowerIdempotent(s: string)
    ensures Lower(Lower(s)) == Lower(s)
  {
  }

  lemma LowerAppend(a: string, b: string)
    ensures Lower(a + b) == Lower(a) + Lower(b)
  {
  }

  lemma LowerSpace(c: char)
    ensures IsSpace(LowerChar(c)) == IsSpace(c)
  {
  }

  /** Lower-casing neither adds nor removes white space. */
  lemma LowerSpaceFree(s: string)
    requires NoSpace(s)
    ensures NoSpace(Lower(s))
  {
    forall i | 0 <= i < |s|
      ensures !IsSpace(Lower(s)[i])
    {
      LowerSpace(s[i]);
    }
  }

  lemma LowerAllSpace(s: string)
    requires forall i :: 0 <= i < |s| ==> IsSpace(s[i])
    ensures forall i :: 0 <= i < |s| ==> IsSpace(Lower(s)[i])
  {
    forall i | 0 <= i < |s|
      ensures IsSpace(Lower(s)[i])
    {
      LowerSpace(s[i]);
    }
  }

  // ------------------------------------------------------------ includes

  /** needle occurs in haystack starting at position i. */
  predicate OccursAt(haystack: string, needle: string, i: nat) {
    i + |needle| <= |haystack| && haystack[i..i + |needle|] == needle
  }

  /** `haystack.includes(needle)`: needle occurs as a contiguous piece. */
  predicate Includes(haystack: string, needle: string) {
    exists i: nat | i <= |haystack| :: OccursAt(haystack, needle, i)
  }

  lemma IncludesEmpty(h: string)
    ensures Includes(h, "")
  {
    assert OccursAt(h, "", 0);
  }

  lemma IncludesSelf(h: string)
    ensures Includes(h, h)
  {
    assert OccursAt(h, h, 0);
  }

  lemma SliceOfSlice(s: string, i: nat, j: nat, k: nat, l: nat)
    requires i <= j <= |s| && k <= l <= j - i
    ensures s[i..j][k..l] == s[i + k..i + l]
  {
    assert |s[i..j][k..l]| == l - k;
    forall x | 0 <= x < l - k ensures s[i..j][k..l][x] == s[i + k..i + l][x] {
    }
  }

  /** A piece of a substring is a piece of the whole. */
  lemma IncludesTrans(a: string, b: string, c: string)
    requires Includes(a, b) && Includes(b, c)
    ensures Includes(a, c)
  {
    var i: nat :| i <= |a| && OccursAt(a, b, i);
    var j: nat :| j <= |b| && OccursAt(b, c, j);
    SliceOfSlice(a, i, i + |b|, j, j + |c|);
    assert OccursAt(a, c, i + j);
  }

  /** A needle inside one part of a concatenation is inside the concatenation. */
  lemma IncludesInLeft(a: string, b: string, n: string)
    requires Includes(a, n)
    ensures Includes(a + b, n)
  {
    var i: nat :| i <= |a| && OccursAt(a, n, i);
    assert (a + b)[..|a|] == a;
    SliceOfSlice(a + b, 0, |a|, i, i + |n|);
    assert OccursAt(a + b, n, i);
  }

  lemma IncludesInRight(a: string, b: string, n: string)
    requires Includes(b, n)
    ensures Includes(a + b, n)
  {
    var i: nat :| i <= |b| && OccursAt(b, n, i);
    assert (a + b)[|a|..] == b;
    SliceOfSlice(a + b, |a|, |a + b|, i, i + |n|);
    assert OccursAt(a + b, n, |a| + i);
  }

  // ---------------------------------------------- splitting and joining

  /** Length of the leading run of characters that are not white space. */
  function WordLength(s: string): (n: nat)
    ensures n <= |s|
    ensures forall i :: 0 <= i < n ==> !IsSpace(s[i])
    ensures n == |s| || IsSpace(s[n])
  {
    if s == [] || IsSpace(s[0]) then 0 else 1 + WordLength(s[1..])
  }

  /** `s.split(/\s+/).filter(t => t.length > 0)`: the maximal runs of non-white-space. */
  function Tokens(s: string): seq<string>
    decreases |s|
  {
    var t := TrimStart(s);
    if t == [] then []
    else
      var n := WordLength(t);
      [t[..n]] + Tokens(t[n..])
  }

  /** The leading run of a string that starts with a non-space character is a word. */
  lemma FirstWord(t: string)
    requires t != [] && !IsSpace(t[0])
    ensures t[..WordLength(t)] != "" && NoSpace(t[..WordLength(t)])
  {
    var n := WordLength(t);
    assert n > 0;
    forall i | 0 <= i < n
      ensures !IsSpace(t[..n][i])
    {
      assert t[..n][i] == t[i];
    }
  }

  /** Every token is non-empty and free of white space. */
  lemma {:induction false} TokensWellFormed(s: string)
    ensures forall k :: 0 <= k < |Tokens(s)| ==> Tokens(s)[k] != "" && NoSpace(Tokens(s)[k])
    decreases |s|
  {
    var t := TrimStart(s);
    if t != [] {
      var n := WordLength(t);
      var rest := Tokens(t[n..]);
      FirstWord(t);
      TokensWellFormed(t[n..]);
      assert Tokens(s) == [t[..n]] + rest;
      assert forall k :: 0 <= k < |rest| ==> rest[k] != "" && NoSpace(rest[k]);
      forall k | 0 <= k < |Tokens(s)|
        ensures Tokens(s)[k] != "" && NoSpace(Tokens(s)[k])
      {
        if k > 0 {
          assert Tokens(s)[k] == rest[k - 1];
        }
      }
    }
  }



  /** A non-empty string without white space is its own only token. */
  lemma {:induction false} WordLengthOfWord(w: string)
    requires NoSpace(w)
    ensures WordLength(w) == |w|
  {
    if w != [] {
      WordLengthOfWord(w[1..]);
    }
  }

  lemma TokensOfWord(w: string)
    requires w != [] && NoSpace(w)
    ensures Tokens(w) == [w]
  {
    WordLengthOfWord(w);
    assert TrimStart(w) == w;
    assert w[|w|..] == [];
    assert w[..|w|] == w;
  }

  /** An all-white-space string has no tokens. */
  lemma TokensAllSpace(s: string)
    requires forall i :: 0 <= i < |s| ==> IsSpace(s[i])
    ensures Tokens(s) == []
  {
    assert TrimStart(s) == [] by {
      TrimStartAllSpace(s);
    }
  }

  lemma {:induction false} TrimStartAllSpace(s: string)
    requires forall i :: 0 <= i < |s| ==> IsSpace(s[i])
    ensures TrimStart(s) == []
  {
    if s != [] {
      TrimStartAllSpace(s[1..]);
    }
  }

  /** `parts.join(sep)`. */
  function Join(parts: seq<string>, sep: string): (r: string)
    ensures |parts| == 1 ==> r == parts[0]
  {
    if parts == [] then ""
    else if |parts| == 1 then parts[0]
    else parts[0] + sep + Join(parts[1..], sep)
  }

  lemma {:induction false} JoinCons(p: string, rest: seq<string>, sep: string)
    requires rest != []
    ensures Join([p] + rest, sep) == p + sep + Join(rest, sep)
  {
    assert ([p] + rest)[1..] == rest;
  }

  /** Each joined part occurs in the joined string. */
  lemma {:induction false} JoinIncludesPart(parts: seq<string>, sep: string, k: nat)
    requires k < |parts|
    ensures Includes(Join(parts, sep), parts[k])
  {
    if |parts| == 1 {
      IncludesSelf(parts[0]);
    } else if k == 0 {
      IncludesSelf(parts[0]);
      IncludesInLeft(parts[0], sep + Join(parts[1..], sep), parts[0]);
      assert parts[0] + sep + Join(parts[1..], sep) == parts[0] + (sep + Join(parts[1..], sep));
    } else {
      JoinIncludesPart(parts[1..], sep, k - 1);
      IncludesInRight(parts[0] + sep, Join(parts[1..], sep), parts[k]);
    }
  }

  /**
   * Joining with a one-character separator that occurs in no part loses
   * nothing: equal joins of equally many parts come from equal parts.
   */
  lemma {:induction false} JoinInjective(a: seq<string>, b: seq<string>, c: char)
    requires |a| == |b|
    requires forall x :: 0 <= x < |a| ==> c !in a[x]
    requires forall x :: 0 <= x < |b| ==> c !in b[x]
    requires Join(a, [c]) == Join(b, [c])
    ensures a == b
  {
    if |a| > 1 {
      var s := Join(a, [c]);
      var n, m := |a[0]|, |b[0]|;
      assert s == a[0] + [c] + Join(a[1..], [c]);
      assert s == b[0] + [c] + Join(b[1..], [c]);
      assert s[..n] == a[0] && s[n] == c;
      assert s[..m] == b[0] && s[m] == c;
      SeqOps.IndexOfFirst(s, c, n);
      SeqOps.IndexOfFirst(s, c, m);
      assert a[0] == s[..n] == b[0];
      assert Join(a[1..], [c]) == s[n + 1..] == Join(b[1..], [c]);
      JoinInjective(a[1..], b[1..], c);
      assert a == [a[0]] + a[1..];
      assert b == [b[0]] + b[1..];
    }
  }

  // ----------------------------------------------- replace over a class

  /** `s.replace(/[set]/g, "")`: every character of the class is dropped. */
  function Remove(s: string, drop: set<char>): (r: string)
    ensures forall i :: 0 <= i < |r| ==> r[i] !in drop
    ensures |r| <= |s|
  {
    if s == [] then []
    else (if s[0] in drop then [] else [s[0]]) + Remove(s[1..], drop)
  }

  lemma {:induction false} RemoveNone(s: string, drop: set<char>)
    requires forall i :: 0 <= i < |s| ==> s[i] !in drop
    ensures Remove(s, drop) == s
  {
    if s != [] {
      RemoveNone(s[1..], drop);
    }
  }

  /** Dropping a class of characters twice drops nothing more. */
  lemma RemoveIdempotent(s: string, drop: set<char>)
    ensures Remove(Remove(s, drop), drop) == Remove(s, drop)
  {
    RemoveNone(Remove(s, drop), drop);
  }

  /** `s.replace(/"/g, '""')`: every double quote is doubled. */
  function DoubleQuotes(s: string): (r: string)
    ensures |r| >= |s|
  {
    if s == [] then []
    else (if s[0] == '"' then "\"\"" else [s[0]]) + DoubleQuotes(s[1..])
  }

  lemma {:induction false} DoubleQuotesPlain(s: string)
    requires '"' !in s
    ensures DoubleQuotes(s) == s
  {
    if s != [] {
      DoubleQuotesPlain(s[1..]);
    }
  }

  lemma {:induction false} DoubleQuotesAppend(a: string, b: string)
    ensures DoubleQuotes(a + b) == DoubleQuotes(a) + DoubleQuotes(b)
    decreases |a|
  {
    if a != [] {
      assert (a + b)[1..] == a[1..] + b;
      DoubleQuotesAppend(a[1..], b);
    } else {
      assert a + b == b;
    }
  }

  lemma {:induction false} TrimEndDoubleQuotes(s: string)
    ensures TrimEnd(DoubleQuotes(s)) == DoubleQuotes(TrimEnd(s))
    decreases |s|
  {
    if s != [] {
      var p, c := s[..|s| - 1], s[|s| - 1];
      assert s == p + [c];
      DoubleQuotesAppend(p, [c]);
      assert DoubleQuotes([c]) == (if c == '"' then "\"\"" else [c]);
      if IsSpace(c) {
        var d := DoubleQuotes(s);
        assert d == DoubleQuotes(p) + [c];
        assert d[..|d| - 1] == DoubleQuotes(p);
        TrimEndDoubleQuotes(p);
      }
    }
  }

  lemma {:induction false} TrimStartDoubleQuotes(s: string)
    ensures TrimStart(DoubleQuotes(s)) == DoubleQuotes(TrimStart(s))
    decreases |s|
  {
    if s != [] {
      var d := DoubleQuotes(s);
      if IsSpace(s[0]) {
        assert s[0] != '"';
        assert d == [s[0]] + DoubleQuotes(s[1..]);
        assert d[0] == s[0] && d[1..] == DoubleQuotes(s[1..]);
        TrimStartDoubleQuotes(s[1..]);
        assert TrimStart(d) == TrimStart(d[1..]);
        assert TrimStart(s) == TrimStart(s[1..]);
      } else {
        assert d[0] == (if s[0] == '"' then '"' else s[0]);
        assert TrimStart(d) == d;
        assert TrimStart(s) == s;
      }
    }
  }


  /** Quotes are not white space: doubling them and trimming can be done in either order. */
  lemma TrimDoubleQuotes(s: string)
    ensures Trim(DoubleQuotes(s)) == DoubleQuotes(Trim(s))
  {
    TrimEndDoubleQuotes(s);
    TrimStartDoubleQuotes(TrimEnd(s));
  }
}
