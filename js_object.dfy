/**
 * A plain JavaScript object used as a dictionary with string keys: its own
 * properties as the list of its entries in creation order. `Object.keys`,
 * `Object.values` and `Object.entries` do not follow that list as it is:
 * by OrdinaryOwnPropertyKeys (section 10.1.11.1 of ECMA-262) the keys that
 * are array indices come first, in ascending numeric order, and only then
 * the other string keys, in creation order.
 */
module JsObject {
  import SeqOps
  import JsMap

  type Entries<V> = JsMap.OrderedMap<string, V>

  predicate IsDigit(c: char) {
    '0' <= c <= '9'
  }

  /** The number a string of decimal digits spells. */
  function DigitsValue(s: string): int {
    if s == [] then 0 else DigitsValue(s[..|s| - 1]) * 10 + (s[|s| - 1] as int - '0' as int)
  }

  /**
   * An array index (section 6.1.7 of ECMA-262): a key that is the canonical
   * decimal form of an integer below 2^32 - 1, so digits only and no
   * leading zero except in "0" itself.
   */
  predicate IsArrayIndex(s: string) {
    |s| > 0 && (forall i :: 0 <= i < |s| ==> IsDigit(s[i])) && (s[0] == '0' ==> |s| == 1)
    && DigitsValue(s) < 0xFFFF_FFFF
  }

  function ValuesOf<V>(m: Entries<V>): (r: seq<V>)
    ensures |r| == |m| && forall i :: 0 <= i < |m| ==> r[i] == m[i].1
  {
    seq(|m|, i requires 0 <= i < |m| => m[i].1)
  }

  /** The entry put before the first entry whose key has a larger value. */
  function InsertByIndex<V>(s: Entries<V>, e: (string, V)): (r: Entries<V>)
    ensures |r| == |s| + 1
  {
    if s == [] || DigitsValue(e.0) < DigitsValue(s[0].0) then [e] + s
    else [s[0]] + InsertByIndex(s[1..], e)
  }

  /** The entries whose keys are array indices, in ascending numeric order. */
  function IndexEntries<V>(m: Entries<V>): Entries<V> {
    if m == [] then []
    else
      var n := |m| - 1;
      var r := IndexEntries(m[..n]);
      if IsArrayIndex(m[n].0) then InsertByIndex(r, m[n]) else r
  }

  /** The other entries, in creation order. */
  function OtherEntries<V>(m: Entries<V>): Entries<V> {
    if m == [] then []
    else
      var n := |m| - 1;
      OtherEntries(m[..n]) + (if IsArrayIndex(m[n].0) then [] else [m[n]])
  }

  /** The entries in the order `Object.values` and `Object.entries` list them. */
  function OwnOrder<V>(m: Entries<V>): Entries<V> {
    IndexEntries(m) + OtherEntries(m)
  }

  predicate SortedByIndex<V>(s: Entries<V>) {
    forall i, j :: 0 <= i < j < |s| ==> DigitsValue(s[i].0) <= DigitsValue(s[j].0)
  }

  lemma ValuesAppend<V>(a: Entries<V>, b: Entries<V>)
    ensures ValuesOf(a + b) == ValuesOf(a) + ValuesOf(b)
  {
  }

  /** Inserting adds the one entry and loses none. */
  lemma {:induction false} InsertEntries<V>(s: Entries<V>, e: (string, V))
    ensures multiset(InsertByIndex(s, e)) == multiset(s) + multiset{e}
  {
    if s != [] && DigitsValue(e.0) >= DigitsValue(s[0].0) {
      assert s == [s[0]] + s[1..];
      InsertEntries(s[1..], e);
    }
  }

  /** Nor any value. */
  lemma {:induction false} InsertValues<V>(s: Entries<V>, e: (string, V))
    ensures multiset(ValuesOf(InsertByIndex(s, e))) == multiset(ValuesOf(s)) + multiset{e.1}
  {
    if s == [] || DigitsValue(e.0) < DigitsValue(s[0].0) {
      ValuesAppend([e], s);
    } else {
      var t := s[1..];
      assert s == [s[0]] + t;
      InsertValues(t, e);
      ValuesAppend([s[0]], InsertByIndex(t, e));
      ValuesAppend([s[0]], t);
    }
  }

  /** A lower bound of every key and of the new one bounds every key after inserting. */
  lemma {:induction false} InsertBound<V>(s: Entries<V>, e: (string, V), b: int)
    requires forall i :: 0 <= i < |s| ==> b <= DigitsValue(s[i].0)
    requires b <= DigitsValue(e.0)
    ensures forall i :: 0 <= i < |InsertByIndex(s, e)| ==> b <= DigitsValue(InsertByIndex(s, e)[i].0)
  {
    if s != [] && DigitsValue(e.0) >= DigitsValue(s[0].0) {
      var t := s[1..];
      assert forall i :: 0 <= i < |t| ==> t[i] == s[i + 1];
      InsertBound(t, e, b);
    }
  }

  /** Inserting into a sorted list keeps it sorted. */
  lemma {:induction false} InsertSorted<V>(s: Entries<V>, e: (string, V))
    requires SortedByIndex(s)
    ensures SortedByIndex(InsertByIndex(s, e))
  {
    if s != [] && DigitsValue(e.0) >= DigitsValue(s[0].0) {
      var t := s[1..];
      assert forall i :: 0 <= i < |t| ==> t[i] == s[i + 1];
      assert SortedByIndex(t);
      InsertSorted(t, e);
      InsertBound(t, e, DigitsValue(s[0].0));
      var r := InsertByIndex(t, e);
      assert InsertByIndex(s, e) == [s[0]] + r;
      assert forall j :: 1 <= j < |r| + 1 ==> ([s[0]] + r)[j] == r[j - 1];
    }
  }

  /** The array-index entries come out sorted. */
  lemma {:induction false} IndexEntriesSorted<V>(m: Entries<V>)
    ensures SortedByIndex(IndexEntries(m))
  {
    if m != [] {
      var n := |m| - 1;
      IndexEntriesSorted(m[..n]);
      if IsArrayIndex(m[n].0) {
        InsertSorted(IndexEntries(m[..n]), m[n]);
      }
    }
  }

  /** Splitting off the array-index entries loses no entry. */
  lemma {:induction false} SplitEntries<V>(m: Entries<V>)
    ensures multiset(IndexEntries(m)) + multiset(OtherEntries(m)) == multiset(m)
  {
    if m != [] {
      var n := |m| - 1;
      var front := m[..n];
      SplitEntries(front);
      assert m == front + [m[n]];
      assert multiset(m) == multiset(front) + multiset{m[n]};
      if IsArrayIndex(m[n].0) {
        InsertEntries(IndexEntries(front), m[n]);
        assert OtherEntries(m) == OtherEntries(front);
      } else {
        assert IndexEntries(m) == IndexEntries(front);
        assert OtherEntries(m) == OtherEntries(front) + [m[n]];
      }
    }
  }

  /** Nor any value. */
  lemma {:induction false} SplitValues<V>(m: Entries<V>)
    ensures multiset(ValuesOf(IndexEntries(m))) + multiset(ValuesOf(OtherEntries(m))) == multiset(ValuesOf(m))
  {
    if m != [] {
      var n := |m| - 1;
      var front := m[..n];
      SplitValues(front);
      assert m == front + [m[n]];
      ValuesAppend(front, [m[n]]);
      assert multiset(ValuesOf(m)) == multiset(ValuesOf(front)) + multiset{m[n].1};
      if IsArrayIndex(m[n].0) {
        InsertValues(IndexEntries(front), m[n]);
        assert OtherEntries(m) == OtherEntries(front);
      } else {
        assert IndexEntries(m) == IndexEntries(front);
        assert OtherEntries(m) == OtherEntries(front) + [m[n]];
        ValuesAppend(OtherEntries(front), [m[n]]);
      }
    }
  }

  /**
   * `Object.values` lists every value once per entry, in some order: the
   * same values the creation order lists.
   */
  lemma OwnOrderValues<V>(m: Entries<V>)
    ensures multiset(ValuesOf(OwnOrder(m))) == multiset(ValuesOf(m))
    ensures multiset(OwnOrder(m)) == multiset(m)
  {
    SplitEntries(m);
    SplitValues(m);
    ValuesAppend(IndexEntries(m), OtherEntries(m));
  }

  /**
   * The order itself: first exactly the entries with array-index keys, by
   * ascending numeric key, then exactly the other entries.
   */
  lemma {:induction false} OwnOrderShape<V>(m: Entries<V>)
    ensures SortedByIndex(IndexEntries(m))
    ensures forall e :: e in IndexEntries(m) <==> e in m && IsArrayIndex(e.0)
    ensures forall e :: e in OtherEntries(m) <==> e in m && !IsArrayIndex(e.0)
  {
    IndexEntriesSorted(m);
    OwnOrderMembers(m);
  }

  lemma {:induction false} OwnOrderMembers<V>(m: Entries<V>)
    ensures forall e :: e in IndexEntries(m) <==> e in m && IsArrayIndex(e.0)
    ensures forall e :: e in OtherEntries(m) <==> e in m && !IsArrayIndex(e.0)
  {
    if m != [] {
      var n := |m| - 1;
      var front := m[..n];
      OwnOrderMembers(front);
      assert m == front + [m[n]];
      assert forall e :: e in m <==> e in front || e == m[n];
      if IsArrayIndex(m[n].0) {
        InsertEntries(IndexEntries(front), m[n]);
        assert OtherEntries(m) == OtherEntries(front);
        forall e
          ensures e in IndexEntries(m) <==> e in IndexEntries(front) || e == m[n]
        {
          assert e in IndexEntries(m) <==> e in multiset(IndexEntries(m));
          assert e in IndexEntries(front) <==> e in multiset(IndexEntries(front));
        }
      } else {
        assert IndexEntries(m) == IndexEntries(front);
        assert OtherEntries(m) == OtherEntries(front) + [m[n]];
      }
    }
  }

  lemma IndexKeyExamples()
    ensures IsArrayIndex("2020") && !IsArrayIndex("Region")
  {
    assert !IsDigit("Region"[0]);
    assert "2020"[..3] == "202" && "202"[..2] == "20" && "20"[..1] == "2" && "2"[..0] == "";
    assert DigitsValue("2020") == 2020;
  }

  /** An object given Region and then 2020 lists 2020 first. */
  lemma IndexKeyFirst<V>(a: V, b: V)
    ensures OwnOrder([("Region", a), ("2020", b)]) == [("2020", b), ("Region", a)]
  {
    IndexKeyExamples();
    var m := [("Region", a), ("2020", b)];
    var first := [("Region", a)];
    assert m[..1] == first && first[..0] == [];
    assert IndexEntries(first) == [];
    assert OtherEntries(first) == first;
    assert IndexEntries(m) == InsertByIndex([], ("2020", b));
    assert OtherEntries(m) == first;
  }
}
