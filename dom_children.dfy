/**
 * The child list of one DOM element as a sequence of distinct nodes, and
 * the node operations the column code calls on it: `nextSibling`,
 * `removeChild`, `appendChild` and `insertBefore`, with the "pre-insert"
 * steps of the DOM Standard (section 4.2.3): a node that is already a
 * child is taken out first, a null reference child appends, and a
 * reference child equal to the node itself is replaced by the node's next
 * sibling.
 */
module DomChildren {
  import opened Wrappers
  import SeqOps

  /** The node at index j, or null one past the last child: `children[j] ?? null`. */
  function At<T>(s: seq<T>, j: nat): (r: Option<T>)
    ensures r.Some? <==> j < |s|
  {
    if j < |s| then Some(s[j]) else None
  }

  /** `x.nextSibling`. */
  function NextSibling<T(==)>(s: seq<T>, x: T): Option<T>
    requires x in s
  {
    var i := SeqOps.IndexOf(s, x);
    At(s, i + 1)
  }

  /** `parent.removeChild(x)`. */
  function RemoveChild<T(==)>(s: seq<T>, x: T): (r: seq<T>)
    requires x in s
    ensures |r| == |s| - 1
  {
    SeqOps.RemoveAt(s, SeqOps.IndexOf(s, x))
  }

  /** x taken out of the list if it is there. */
  function Detach<T(==)>(s: seq<T>, x: T): (r: seq<T>)
    ensures x !in s ==> r == s
  {
    if x in s then RemoveChild(s, x) else s
  }

  /** `parent.appendChild(x)`: x moved, or added, to the end. */
  function AppendChild<T(==)>(s: seq<T>, x: T): seq<T> {
    Detach(s, x) + [x]
  }

  /** `parent.insertBefore(node, child)`, child being null or a child of parent. */
  function InsertBefore<T(==)>(s: seq<T>, node: T, child: Option<T>): seq<T>
    requires child.None? || child.value in s
  {
    var ref := if child == Some(node) then NextSibling(s, node) else child;
    var t := Detach(s, node);
    if ref.None? then t + [node]
    else
      var j := SeqOps.IndexOf(t, ref.value);
      if j == -1 then t + [node] else SeqOps.InsertAt(t, j, node)
  }

  // ------------------------------------------------------------- lemmas

  /** In a list without repeats, the index of s[i] is i. */
  lemma IndexOfDistinct<T>(s: seq<T>, i: nat)
    requires SeqOps.Distinct(s) && i < |s|
    ensures SeqOps.IndexOf(s, s[i]) == i
  {
    SeqOps.IndexOfFirst(s, s[i], i);
  }

  /** The next sibling of the child at i is the node at i + 1, or null after the last child. */
  lemma NextSiblingAt<T>(s: seq<T>, i: nat)
    requires SeqOps.Distinct(s) && i < |s|
    ensures NextSibling(s, s[i]) == At(s, i + 1)
  {
    IndexOfDistinct(s, i);
  }

  /** Taking out the child at f leaves every other child, the one at j now at j or j - 1. */
  lemma IndexAfterRemove<T>(s: seq<T>, f: nat, j: nat)
    requires SeqOps.Distinct(s) && f < |s| && j < |s| && j != f
    ensures SeqOps.Distinct(SeqOps.RemoveAt(s, f))
    ensures SeqOps.IndexOf(SeqOps.RemoveAt(s, f), s[j]) == if j < f then j else j - 1
  {
    var t := SeqOps.RemoveAt(s, f);
    var k := if j < f then j else j - 1;
    assert t[k] == s[j];
    assert forall a, b :: 0 <= a < b < |t| ==> t[a] != t[b] by {
      forall a, b | 0 <= a < b < |t|
        ensures t[a] != t[b]
      {
        var a' := if a < f then a else a + 1;
        var b' := if b < f then b else b + 1;
        assert t[a] == s[a'] && t[b] == s[b'] && a' < b';
      }
    }
    assert s[j] !in t[..k] by {
      forall a | 0 <= a < k
        ensures t[a] != s[j]
      {
        var a' := if a < f then a else a + 1;
        assert t[a] == s[a'] && a' != j;
      }
    }
    SeqOps.IndexOfFirst(t, s[j], k);
  }

  /** Inserting the child at f before null moves it to the end. */
  lemma InsertBeforeEnd<T>(s: seq<T>, f: nat)
    requires SeqOps.Distinct(s) && f < |s|
    ensures InsertBefore(s, s[f], None) == SeqOps.MoveTo(s, f, |s| - 1)
  {
    IndexOfDistinct(s, f);
    var t := SeqOps.RemoveAt(s, f);
    assert Detach(s, s[f]) == t;
    assert t + [s[f]] == SeqOps.InsertAt(t, |t|, s[f]);
  }

  /** Inserting the child at f before another child j leaves it at j moving left, at j - 1 moving right. */
  lemma InsertBeforeOther<T>(s: seq<T>, f: nat, j: nat)
    requires SeqOps.Distinct(s) && f < |s| && j < |s| && j != f
    ensures InsertBefore(s, s[f], Some(s[j])) == SeqOps.MoveTo(s, f, if j < f then j else j - 1)
  {
    IndexOfDistinct(s, f);
    IndexAfterRemove(s, f, j);
    var t := SeqOps.RemoveAt(s, f);
    assert Detach(s, s[f]) == t;
    assert s[j] != s[f];
    var k := if j < f then j else j - 1;
    assert SeqOps.IndexOf(t, s[j]) == k;
    assert InsertBefore(s, s[f], Some(s[j])) == SeqOps.InsertAt(t, k, s[f]);
    assert SeqOps.MoveTo(s, f, k) == SeqOps.InsertAt(t, k, s[f]);
  }

  /** Inserting a child before itself inserts it before its next sibling, which leaves it in place. */
  lemma InsertBeforeSelf<T>(s: seq<T>, f: nat)
    requires SeqOps.Distinct(s) && f < |s|
    ensures InsertBefore(s, s[f], Some(s[f])) == SeqOps.MoveTo(s, f, f)
  {
    NextSiblingAt(s, f);
    if f + 1 == |s| {
      assert InsertBefore(s, s[f], Some(s[f])) == InsertBefore(s, s[f], None);
      InsertBeforeEnd(s, f);
    } else {
      assert InsertBefore(s, s[f], Some(s[f])) == InsertBefore(s, s[f], Some(s[f + 1]));
      InsertBeforeOther(s, f, f + 1);
    }
  }

  /**
   * Inserting the child at f before the node at j (null past the end) leaves
   * it at j when it moves left and at j - 1 when it moves right; inserting it
   * before itself or before its own next sibling changes nothing.
   */
  lemma InsertBeforeIndex<T>(s: seq<T>, f: nat, j: nat)
    requires SeqOps.Distinct(s) && f < |s| && j <= |s|
    ensures InsertBefore(s, s[f], At(s, j)) == SeqOps.MoveTo(s, f, if j <= f then j else j - 1)
  {
    if j == f {
      InsertBeforeSelf(s, f);
    } else if j == |s| {
      InsertBeforeEnd(s, f);
    } else {
      InsertBeforeOther(s, f, j);
    }
  }

  /** Inserting before the next sibling of a later child lands the node where that child was. */
  lemma InsertBeforeNextSibling<T>(s: seq<T>, f: nat, t: nat)
    requires SeqOps.Distinct(s) && f < t < |s|
    ensures InsertBefore(s, s[f], NextSibling(s, s[t])) == SeqOps.MoveTo(s, f, t)
  {
    NextSiblingAt(s, t);
    if t + 1 == |s| {
      assert NextSibling(s, s[t]) == None;
      InsertBeforeEnd(s, f);
    } else {
      assert NextSibling(s, s[t]) == Some(s[t + 1]);
      InsertBeforeOther(s, f, t + 1);
    }
  }

  /** Inserting x before a child r other than x, r first found at j once x is detached. */
  lemma InsertBeforeFound<T>(s: seq<T>, x: T, r: T, t: seq<T>, j: nat)
    requires r in s && r != x && Detach(s, x) == t
    requires j < |t| && t[j] == r && r !in t[..j]
    ensures InsertBefore(s, x, Some(r)) == t[..j] + [x] + t[j..]
  {
    SeqOps.IndexOfFirst(t, r, j);
  }

  /** The slices of a list cut around one element. */
  lemma Around<T>(u: seq<T>, r: T, v: seq<T>)
    ensures (u + [r] + v)[|u|] == r
    ensures (u + [r] + v)[..|u|] == u
    ensures (u + [r] + v)[|u|..] == [r] + v
  {
    var s := u + [r] + v;
    assert s[..|u|] == u;
    assert s[|u|..] == [r] + v;
  }

  /** A node that is not yet a child, inserted before r, lands right before r. */
  lemma InsertNew<T>(p: seq<T>, r: T, q: seq<T>, x: T)
    requires r !in p && x != r && x !in p + [r] + q
    ensures InsertBefore(p + [r] + q, x, Some(r)) == p + [x] + [r] + q
  {
    var s := p + [r] + q;
    Around(p, r, q);
    InsertBeforeFound(s, x, r, s, |p|);
    SeqOps.AppendAssoc(p + [x], [r], q);
  }

  /** A child moved right, before a later sibling r: the children between close up behind it. */
  lemma MoveRight<T>(p: seq<T>, x: T, q: seq<T>, r: T, rr: seq<T>)
    requires x !in p && r !in p + q && x != r
    ensures InsertBefore(p + [x] + q + [r] + rr, x, Some(r)) == p + q + [x] + [r] + rr
  {
    var s := p + [x] + q + [r] + rr;
    var t := p + q + [r] + rr;
    DetachRight(p, x, q, r, rr);
    Around(p + q, r, rr);
    InsertBeforeFound(s, x, r, t, |p + q|);
    SeqOps.AppendAssoc(p + q + [x], [r], rr);
  }

  lemma DetachRight<T>(p: seq<T>, x: T, q: seq<T>, r: T, rr: seq<T>)
    requires x !in p
    ensures Detach(p + [x] + q + [r] + rr, x) == p + q + [r] + rr
  {
    var s := p + [x] + q + [r] + rr;
    SeqOps.AppendAssoc(p + [x] + q, [r], rr);
    SeqOps.AppendAssoc(p + [x], q, [r] + rr);
    RemoveSplit(p, x, q + ([r] + rr));
    SeqOps.AppendAssoc(p, q, [r] + rr);
    SeqOps.AppendAssoc(p + q, [r], rr);
  }

  /** A child moved left, before an earlier sibling r: the children between shift up one. */
  lemma MoveLeft<T>(p: seq<T>, r: T, q: seq<T>, x: T, rr: seq<T>)
    requires r !in p && x !in p + [r] + q && x != r
    ensures InsertBefore(p + [r] + q + [x] + rr, x, Some(r)) == p + [x] + [r] + q + rr
  {
    var s := p + [r] + q + [x] + rr;
    RemoveSplit(p + [r] + q, x, rr);
    var t := p + [r] + q + rr;
    assert Detach(s, x) == t;
    SeqOps.AppendAssoc(p + [r], q, rr);
    SeqOps.AppendAssoc(p, [r], q + rr);
    Around(p, r, q + rr);
    InsertBeforeFound(s, x, r, t, |p|);
    SeqOps.AppendAssoc([r], q, rr);
    SeqOps.AppendAssoc(p + [x], [r] + q, rr);
    SeqOps.AppendAssoc(p + [x], [r], q);
  }

  /** Removing a child whose earlier siblings differ from it: the list without that one node. */
  lemma RemoveSplit<T>(p: seq<T>, x: T, q: seq<T>)
    requires x !in p
    ensures RemoveChild(p + [x] + q, x) == p + q
  {
    var s := p + [x] + q;
    assert s[|p|] == x && s[..|p|] == p;
    SeqOps.IndexOfFirst(s, x, |p|);
    assert s[|p| + 1..] == q;
  }

  /** A distinct list cut around one element: the element occurs in neither part. */
  lemma DistinctSplit<T>(p: seq<T>, x: T, q: seq<T>)
    requires SeqOps.Distinct(p + [x] + q)
    ensures x !in p && x !in q
    ensures SeqOps.Distinct(p + q)
  {
    var s := p + [x] + q;
    forall a | 0 <= a < |p|
      ensures p[a] != x
    {
      assert s[a] == p[a] && s[|p|] == x;
    }
    forall a | 0 <= a < |q|
      ensures q[a] != x
    {
      assert s[|p| + 1 + a] == q[a] && s[|p|] == x;
    }
    var t := p + q;
    forall a, b | 0 <= a < b < |t|
      ensures t[a] != t[b]
    {
      var a' := if a < |p| then a else a + 1;
      var b' := if b < |p| then b else b + 1;
      assert t[a] == s[a'] && t[b] == s[b'];
    }
  }

  /** A distinct list without its element at f: still distinct, and without that element. */
  lemma RemovedDistinct<T>(s: seq<T>, f: nat)
    requires SeqOps.Distinct(s) && f < |s|
    ensures SeqOps.Distinct(SeqOps.RemoveAt(s, f)) && s[f] !in SeqOps.RemoveAt(s, f)
  {
    assert s == s[..f] + [s[f]] + s[f + 1..];
    DistinctSplit(s[..f], s[f], s[f + 1..]);
  }

  /** Appending the removed cell after the others puts it last. */
  lemma SimpleAppend<T>(row: seq<T>, from: nat)
    requires SeqOps.Distinct(row) && from < |row|
    ensures AppendChild(SeqOps.RemoveAt(row, from), row[from]) == SeqOps.MoveTo(row, from, |row| - 1)
  {
    var t := SeqOps.RemoveAt(row, from);
    RemovedDistinct(row, from);
    assert t + [row[from]] == SeqOps.InsertAt(t, |t|, row[from]);
  }

  /** Inserting the removed cell before the cell now at `to` puts it at `to`. */
  lemma SimpleInsert<T>(row: seq<T>, from: nat, to: nat)
    requires SeqOps.Distinct(row) && from < |row| && to < |row| - 1
    ensures var t := SeqOps.RemoveAt(row, from);
      InsertBefore(t, row[from], Some(t[to])) == SeqOps.MoveTo(row, from, to)
  {
    var t := SeqOps.RemoveAt(row, from);
    RemovedDistinct(row, from);
    IndexOfDistinct(t, to);
    assert Detach(t, row[from]) == t;
  }
}
