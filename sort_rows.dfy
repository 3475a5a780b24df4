/**
 * `Array.prototype.sort` with a comparator, as the click-to-sort tables call
 * it on their body rows. Section 23.1.3.30 of ECMA-262 makes the sort stable,
 * and this module models it as an insertion sort. Each element is inserted
 * after every element it ties with.
 *
 * A comparator returns a negative number when its first argument should come
 * first, and a positive number when its second argument should.
 */
module RowSort {

  /** The two sort directions. */
  datatype Dir = Asc | Desc

  /** A header's sort indicator: none, or the direction its column is sorted in. */
  datatype Mark = Unmarked | Marked(dir: Dir)

  function Flip(d: Dir): (r: Dir)
    ensures r != d
  {
    if d == Asc then Desc else Asc
  }

  function Sign(x: real): (r: int)
    ensures (r < 0 <==> x < 0.0) && (r > 0 <==> x > 0.0) && (r == 0 <==> x == 0.0)
  {
    if x < 0.0 then -1 else if x > 0.0 then 1 else 0
  }

  /** Swapping the arguments swaps the verdict. */
  ghost predicate Antisymmetric<T(!new)>(cmp: (T, T) -> real) {
    forall a: T, b: T :: Sign(cmp(a, b)) == -Sign(cmp(b, a))
  }

  /** The same condition for an integer-valued collation such as `localeCompare`. */
  ghost predicate CollationAntisymmetric(collate: (string, string) -> int) {
    forall a: string, b: string :: collate(a, b) < 0 <==> collate(b, a) > 0
  }

  /** Ties and non-strict order chain. Together with antisymmetry, the comparator is consistent. */
  ghost predicate Transitive<T(!new)>(cmp: (T, T) -> real) {
    forall a: T, b: T, c: T {:trigger cmp(a, b), cmp(b, c)} :: cmp(a, b) <= 0.0 && cmp(b, c) <= 0.0 ==> cmp(a, c) <= 0.0
  }

  /** Neighbours are in order. */
  ghost predicate Ordered<T>(s: seq<T>, cmp: (T, T) -> real) {
    forall i :: 0 <= i < |s| - 1 ==> cmp(s[i], s[i + 1]) <= 0.0
  }

  /** Every pair is in order. */
  ghost predicate Sorted<T>(s: seq<T>, cmp: (T, T) -> real) {
    forall i, j :: 0 <= i < j < |s| ==> cmp(s[i], s[j]) <= 0.0
  }

  /** x goes just before the first element that it compares below. */
  function Insert<T>(x: T, s: seq<T>, cmp: (T, T) -> real): (r: seq<T>)
    ensures multiset(r) == multiset(s) + multiset{x}
    ensures |r| == |s| + 1
    ensures r[0] == x || (s != [] && r[0] == s[0])
  {
    if s == [] || cmp(x, s[0]) < 0.0 then [x] + s
    else
      assert s == [s[0]] + s[1..];
      [s[0]] + Insert(x, s[1..], cmp)
  }

  /** The sorted copy: each element in turn is inserted into the sorted prefix. */
  function SortBy<T>(s: seq<T>, cmp: (T, T) -> real): (r: seq<T>)
    ensures multiset(r) == multiset(s)
    ensures |r| == |s|
  {
    if s == [] then []
    else
      assert s == s[..|s| - 1] + [s[|s| - 1]];
      Insert(s[|s| - 1], SortBy(s[..|s| - 1], cmp), cmp)
  }

  lemma {:induction false} InsertOrdered<T(!new)>(x: T, s: seq<T>, cmp: (T, T) -> real)
    requires Antisymmetric(cmp) && Ordered(s, cmp)
    ensures Ordered(Insert(x, s, cmp), cmp)
  {
    if s == [] || cmp(x, s[0]) < 0.0 {
      var r := [x] + s;
      forall i | 0 <= i < |r| - 1
        ensures cmp(r[i], r[i + 1]) <= 0.0
      {
        if i > 0 {
          assert r[i] == s[i - 1] && r[i + 1] == s[i];
        }
      }
    } else {
      var t := Insert(x, s[1..], cmp);
      InsertOrdered(x, s[1..], cmp);
      assert Sign(cmp(x, s[0])) == -Sign(cmp(s[0], x));
      assert cmp(s[0], t[0]) <= 0.0 by {
        if t[0] != x {
          assert cmp(s[0], s[1]) <= 0.0;
        }
      }
      var r := [s[0]] + t;
      forall i | 0 <= i < |r| - 1
        ensures cmp(r[i], r[i + 1]) <= 0.0
      {
        if i > 0 {
          assert r[i] == t[i - 1] && r[i + 1] == t[i];
        }
      }
    }
  }

  /** Under an antisymmetric comparator, the sorted copy has every neighbour in order. */
  lemma {:induction false} SortByOrdered<T(!new)>(s: seq<T>, cmp: (T, T) -> real)
    requires Antisymmetric(cmp)
    ensures Ordered(SortBy(s, cmp), cmp)
  {
    if s != [] {
      SortByOrdered(s[..|s| - 1], cmp);
      InsertOrdered(s[|s| - 1], SortBy(s[..|s| - 1], cmp), cmp);
    }
  }

  lemma {:induction false} OrderedPair<T(!new)>(s: seq<T>, cmp: (T, T) -> real, i: nat, j: nat)
    requires Transitive(cmp) && Ordered(s, cmp) && i < j < |s|
    ensures cmp(s[i], s[j]) <= 0.0
    decreases j - i
  {
    if i + 1 < j {
      OrderedPair(s, cmp, i, j - 1);
      assert cmp(s[j - 1], s[j]) <= 0.0;
    }
  }

  /** Under a consistent comparator, the sorted copy has every pair in order. */
  lemma SortBySorted<T(!new)>(s: seq<T>, cmp: (T, T) -> real)
    requires Antisymmetric(cmp) && Transitive(cmp)
    ensures Sorted(SortBy(s, cmp), cmp)
  {
    var r := SortBy(s, cmp);
    SortByOrdered(s, cmp);
    forall i, j | 0 <= i < j < |r|
      ensures cmp(r[i], r[j]) <= 0.0
    {
      OrderedPair(r, cmp, i, j);
    }
  }
}
