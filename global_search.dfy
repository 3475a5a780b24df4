/**
 * The toolbar's search box: a query is split into lower-cased tokens and a
 * body row stays visible exactly when every token occurs in the row's
 * lower-cased cell texts joined by a space. The box is coloured by the
 * number of rows left visible.
 */
module GlobalSearch {
  import opened Wrappers
  import JsText
  import JsNumber

  /** A body row: the text of each of its cells. */
  type Row = seq<string>

  /** The text searched in: the lower-cased cells joined by one space. */
  function RowText(row: Row): string {
    JsText.Join(LowerCells(row), " ")
  }

  /** `cells.map(cell => cell.textContent.toLowerCase())`. */
  function LowerCells(row: Row): (r: seq<string>)
    ensures |r| == |row| && forall k :: 0 <= k < |row| ==> r[k] == JsText.Lower(row[k])
  {
    if row == [] then [] else [JsText.Lower(row[0])] + LowerCells(row[1..])
  }

  /** The search terms of a query: its lower-cased white-space separated pieces. */
  function Terms(query: string): seq<string> {
    JsText.Tokens(JsText.Lower(query))
  }

  /** `searchTerms.every(term => rowText.includes(term))`, term by term. */
  predicate MatchesAll(terms: seq<string>, row: Row) {
    terms == [] || (JsText.Includes(RowText(row), terms[0]) && MatchesAll(terms[1..], row))
  }

  /** `every` holds exactly when each term occurs in the row's text. */
  lemma {:induction false} MatchesAllEvery(terms: seq<string>, row: Row)
    ensures MatchesAll(terms, row) <==> forall k :: 0 <= k < |terms| ==> JsText.Includes(RowText(row), terms[k])
  {
    if terms != [] {
      MatchesAllEvery(terms[1..], row);
      assert forall k :: 1 <= k < |terms| ==> terms[k] == terms[1..][k - 1];
    }
  }

  /** Whether a row is left visible for a query with the given terms: every row for the empty query. */
  predicate ShownFor(query: string, terms: seq<string>, row: Row) {
    query == "" || MatchesAll(terms, row)
  }

  /** Whether a row is left visible for a query. */
  predicate Visible(query: string, row: Row) {
    ShownFor(query, Terms(query), row)
  }

  /** The number of `true` entries. */
  function CountShown(shown: seq<bool>): (n: nat)
    ensures n <= |shown|
  {
    if shown == [] then 0 else CountShown(shown[..|shown| - 1]) + (if shown[|shown| - 1] then 1 else 0)
  }

  /** The count is 0 exactly when no row is shown, and the number of rows exactly when all are. */
  lemma {:induction false} CountShownExtremes(shown: seq<bool>)
    ensures CountShown(shown) == 0 <==> forall i :: 0 <= i < |shown| ==> !shown[i]
    ensures CountShown(shown) == |shown| <==> forall i :: 0 <= i < |shown| ==> shown[i]
  {
    if shown != [] {
      var init := shown[..|shown| - 1];
      CountShownExtremes(init);
      assert forall i :: 0 <= i < |init| ==> init[i] == shown[i];
    }
  }

  /**
   * A token has no white space, so it cannot reach across the space that
   * separates two cells: it occurs in the joined text exactly when it occurs
   * inside one cell.
   */
  lemma {:induction false} SpaceFreeInJoin(parts: seq<string>, t: string)
    requires t != "" && JsText.NoSpace(t)
    ensures JsText.Includes(JsText.Join(parts, " "), t) <==> exists k :: 0 <= k < |parts| && JsText.Includes(parts[k], t)
  {
    if exists k :: 0 <= k < |parts| && JsText.Includes(parts[k], t) {
      var k :| 0 <= k < |parts| && JsText.Includes(parts[k], t);
      JsText.JoinIncludesPart(parts, " ", k);
      JsText.IncludesTrans(JsText.Join(parts, " "), parts[k], t);
    }
    if JsText.Includes(JsText.Join(parts, " "), t) {
      SpaceFreeInJoinSplit(parts, t);
    }
  }

  lemma {:induction false} SpaceFreeInJoinSplit(parts: seq<string>, t: string)
    requires t != "" && JsText.NoSpace(t)
    requires JsText.Includes(JsText.Join(parts, " "), t)
    ensures exists k :: 0 <= k < |parts| && JsText.Includes(parts[k], t)
    decreases |parts|
  {
    if |parts| == 1 {
      assert JsText.Includes(parts[0], t);
    } else {
      assert |parts| > 1;
      var p := parts[0];
      var rest := JsText.Join(parts[1..], " ");
      var whole := p + " " + rest;
      assert JsText.Join(parts, " ") == whole;
      var i: nat :| i <= |whole| && JsText.OccursAt(whole, t, i);
      if i + |t| <= |p| {
        assert whole[i..i + |t|] == p[i..i + |t|];
        assert JsText.OccursAt(p, t, i);
        assert JsText.Includes(parts[0], t);
      } else if i > |p| {
        var j: nat := i - |p| - 1;
        assert whole[i..i + |t|] == rest[j..j + |t|];
        assert JsText.OccursAt(rest, t, j);
        SpaceFreeInJoinSplit(parts[1..], t);
        var k :| 0 <= k < |parts[1..]| && JsText.Includes(parts[1..][k], t);
        assert JsText.Includes(parts[k + 1], t);
      } else {
        SpaceFreeOccurrence(whole, t, i, |p|);
        assert false;
      }
    }
  }

  /** Every character an occurrence of a space-free needle covers is not white space. */
  lemma SpaceFreeOccurrence(h: string, t: string, i: nat, pos: nat)
    requires JsText.OccursAt(h, t, i) && JsText.NoSpace(t) && i <= pos < i + |t|
    ensures !JsText.IsSpace(h[pos])
  {
    assert h[pos] == h[i..i + |t|][pos - i];
  }

  /** With space-free terms, a row matches exactly when each term occurs inside one of its lower-cased cells. */
  lemma MatchesAllPerCell(terms: seq<string>, row: Row)
    requires forall k :: 0 <= k < |terms| ==> terms[k] != "" && JsText.NoSpace(terms[k])
    ensures MatchesAll(terms, row) <==>
      forall k :: 0 <= k < |terms| ==> exists c :: 0 <= c < |row| && JsText.Includes(JsText.Lower(row[c]), terms[k])
  {
    MatchesAllEvery(terms, row);
    var parts := LowerCells(row);
    forall k | 0 <= k < |terms|
      ensures JsText.Includes(RowText(row), terms[k]) <==>
        exists c :: 0 <= c < |row| && JsText.Includes(JsText.Lower(row[c]), terms[k])
    {
      SpaceFreeInJoin(parts, terms[k]);
    }
  }

  /** A row is visible for a non-empty query exactly when each of its terms occurs inside one cell. */
  lemma VisibleMeansPerCell(query: string, row: Row)
    requires query != ""
    ensures Visible(query, row) <==>
      forall k :: 0 <= k < |Terms(query)| ==> exists c :: 0 <= c < |row| && JsText.Includes(JsText.Lower(row[c]), Terms(query)[k])
  {
    JsText.TokensWellFormed(JsText.Lower(query));
    MatchesAllPerCell(Terms(query), row);
  }

  /** A query whose only term is one word matches exactly the rows containing that word, ignoring case. */
  lemma OneWordQuery(w: string, row: Row)
    requires w != "" && JsText.NoSpace(w)
    ensures Visible(w, row) <==> JsText.Includes(RowText(row), JsText.Lower(w))
  {
    var lw := JsText.Lower(w);
    assert Terms(w) == [lw] by {
      JsText.LowerSpaceFree(w);
      JsText.TokensOfWord(lw);
    }
    SingleTerm(lw, row);
  }

  lemma SingleTerm(t: string, row: Row)
    ensures MatchesAll([t], row) <==> JsText.Includes(RowText(row), t)
  {
    assert [t][1..] == [];
  }

  /** A query made only of white space has no terms, so it matches every row. */
  lemma BlankQueryMatchesAll(query: string, row: Row)
    requires forall i :: 0 <= i < |query| ==> JsText.IsSpace(query[i])
    ensures MatchesAll(Terms(query), row)
  {
    JsText.LowerAllSpace(query);
    JsText.TokensAllSpace(JsText.Lower(query));
  }

  /** Adding a word to the query can only hide more rows. */
  lemma MoreTermsShowFewer(terms: seq<string>, more: seq<string>, row: Row)
    requires forall k :: 0 <= k < |terms| ==> terms[k] in more
    ensures MatchesAll(more, row) ==> MatchesAll(terms, row)
  {
    MatchesAllEvery(terms, row);
    MatchesAllEvery(more, row);
  }

  /** Each row's visibility, in row order. */
  function ShownRows(query: string, terms: seq<string>, rows: seq<Row>): (r: seq<bool>)
    ensures |r| == |rows|
    ensures forall i :: 0 <= i < |rows| ==> r[i] == ShownFor(query, terms, rows[i])
  {
    if rows == [] then [] else ShownRows(query, terms, rows[..|rows| - 1]) + [ShownFor(query, terms, rows[|rows| - 1])]
  }

  lemma ShownStep(query: string, terms: seq<string>, rows: seq<Row>, i: nat)
    requires i < |rows|
    ensures ShownRows(query, terms, rows[..i + 1]) == ShownRows(query, terms, rows[..i]) + [ShownFor(query, terms, rows[i])]
  {
    assert rows[..i + 1][..i] == rows[..i];
  }

  lemma CountSnoc(shown: seq<bool>, b: bool)
    ensures CountShown(shown + [b]) == CountShown(shown) + (if b then 1 else 0)
  {
    assert (shown + [b])[..|shown|] == shown;
  }

  /** The row loop of `performGlobalSearch`: each row's visibility, and how many are visible. */
  method Decide(query: string, terms: seq<string>, rows: seq<Row>) returns (shown: seq<bool>, visibleCount: nat)
    ensures shown == ShownRows(query, terms, rows)
    ensures visibleCount == CountShown(shown)
  {
    shown := [];
    visibleCount := 0;
    var i := 0;
    while i < |rows|
      invariant 0 <= i <= |rows|
      invariant shown == ShownRows(query, terms, rows[..i])
      invariant visibleCount == CountShown(shown)
    {
      var ok := query == "" || MatchesAll(terms, rows[i]);
      ShownStep(query, terms, rows, i);
      CountSnoc(shown, ok);
      shown := shown + [ok];
      if ok {
        visibleCount := visibleCount + 1;
      }
      i := i + 1;
    }
    assert rows[..|rows|] == rows;
  }

  /** The search box: its value and the two style properties the search writes. */
  datatype Box = Box(value: string, backgroundColor: string, title: string)

  /** `updateSearchInputStyling`: default, red with a message, or green with the count. */
  function Styled(b: Box, query: string, visibleCount: nat): (r: Box)
    ensures r.value == b.value
    ensures query == "" ==> r.backgroundColor == "" && r.title == ""
    ensures query != "" && visibleCount == 0 ==> r.backgroundColor == "#fff2f2" && r.title == "No matching rows found"
    ensures query != "" && visibleCount > 0 ==>
      r.backgroundColor == "#f2fff2" && r.title == JsNumber.ShowNat(visibleCount) + " matching rows found"
  {
    if query == "" then b.(backgroundColor := "", title := "")
    else if visibleCount == 0 then b.(backgroundColor := "#fff2f2", title := "No matching rows found")
    else b.(backgroundColor := "#f2fff2", title := JsNumber.ShowNat(visibleCount) + " matching rows found")
  }

  /** The module's `searchInput`: absent until the toolbar got its box. */
  class SearchState {
    var input: Option<Box>

    constructor (input: Option<Box>)
      ensures this.input == input
    {
      this.input := input;
    }

    /**
     * `performGlobalSearch`: with no table body nothing changes; otherwise
     * every row's visibility is decided, counted, and the box restyled.
     */
    method PerformGlobalSearch(query: string, body: Option<seq<Row>>) returns (shown: seq<bool>, visibleCount: nat)
      modifies this
      ensures body.None? ==> input == old(input) && shown == []
      ensures body.Some? ==>
        (|shown| == |body.value|
         && (forall i :: 0 <= i < |shown| ==> shown[i] == Visible(query, body.value[i]))
         && visibleCount == CountShown(shown)
         && input == (if old(input).Some? then Some(Styled(old(input).value, query, visibleCount)) else None))
    {
      shown := [];
      visibleCount := 0;
      if body.None? {
        return;
      }
      shown, visibleCount := Decide(query, Terms(query), body.value);
      if input.Some? {
        input := Some(Styled(input.value, query, visibleCount));
      }
    }

    /** The input handler: the typed value is kept and its trimmed form is searched for. */
    method OnInput(typed: string, body: Option<seq<Row>>) returns (shown: seq<bool>, visibleCount: nat)
      requires input.Some?
      modifies this
      ensures body.Some? ==>
        (|shown| == |body.value|
         && (forall i :: 0 <= i < |shown| ==> shown[i] == Visible(JsText.Trim(typed), body.value[i]))
         && visibleCount == CountShown(shown)
         && input == Some(Styled(old(input).value.(value := typed), JsText.Trim(typed), visibleCount)))
      ensures body.None? ==> input == Some(old(input).value.(value := typed))
    {
      input := Some(input.value.(value := typed));
      shown, visibleCount := PerformGlobalSearch(JsText.Trim(typed), body);
    }

    /** `clearGlobalSearch`: the box is emptied and unstyled, and every row is shown. */
    method Clear(body: Option<seq<Row>>) returns (shown: seq<bool>)
      modifies this
      ensures input == (if old(input).Some? then Some(Box("", "", "")) else None)
      ensures body.Some? ==> |shown| == |body.value| && forall i :: 0 <= i < |shown| ==> shown[i]
    {
      if input.Some? {
        input := Some(Box("", "", ""));
      }
      shown := if body.Some? then seq(|body.value|, _ => true) else [];
    }

    /** `setGlobalSearchQuery`: only with a box; a missing query is the empty one. */
    method SetQuery(query: Option<string>, body: Option<seq<Row>>) returns (shown: seq<bool>, visibleCount: nat)
      modifies this
      ensures old(input).None? ==> input == None && shown == []
      ensures old(input).Some? && body.Some? ==>
        var q := query.GetOr("");
        (|shown| == |body.value| && (forall i :: 0 <= i < |shown| ==> shown[i] == Visible(q, body.value[i]))
         && input == Some(Styled(old(input).value.(value := q), q, CountShown(shown))))
    {
      shown, visibleCount := [], 0;
      if input.Some? {
        var q := query.GetOr("");
        input := Some(input.value.(value := q));
        shown, visibleCount := PerformGlobalSearch(q, body);
      }
    }

    /** `getGlobalSearchQuery`. */
    function Query(): (r: string)
      reads this
      ensures input.None? ==> r == ""
      ensures input.Some? ==> r == JsText.Trim(input.value.value)
    {
      if input.Some? then JsText.Trim(input.value.value) else ""
    }

    /** `isGlobalSearchActive`: a box whose trimmed value is not empty. */
    predicate Active()
      reads this
    {
      input.Some? && |JsText.Trim(input.value.value)| > 0
    }
  }

  /** Active means a non-empty current query; after clearing, the search is inactive. */
  lemma ActiveIffQuery(s: SearchState)
    ensures s.Active() <==> s.Query() != ""
  {
  }
}
