/** The ordered boundary store that a step vector keeps its runs in.

    The original keeps its boundaries in a left-leaning red-black tree from a
    foreign library.  Here the store is a sequence of boundaries kept in
    ascending position order, and the library's queries and updates are
    functions over that sequence with the contract the vector relies on:
    Floor (greatest key <= x), Ceil (least key >= x), Insert (which overwrites
    an entry already at the same key) and Delete. */
module Store {

  datatype Option<T> = None | Some(value: T)

  /** A stored (position, value) pair.  The end sentinel carries None. */
  datatype Boundary<V> = Boundary(pos: int, val: Option<V>)

  /** The boundary at i lies before the one at j. */
  ghost predicate Less<V>(t: seq<Boundary<V>>, i: int, j: int)
    requires 0 <= i < |t| && 0 <= j < |t|
  {
    t[i].pos < t[j].pos
  }

  /** Positions strictly increase along the store. */
  ghost predicate Sorted<V>(t: seq<Boundary<V>>) {
    forall i, j :: 0 <= i < j < |t| ==> Less(t, i, j)
  }

  /** Index of the boundary with the greatest position <= x, or -1. */
  function Floor<V>(t: seq<Boundary<V>>, x: int): (k: int)
    ensures -1 <= k < |t|
    ensures 0 <= k ==> t[k].pos <= x
    ensures k + 1 < |t| ==> x < t[k + 1].pos
  {
    FloorBelow(t, x, |t|)
  }

  /** Floor among the first n boundaries, searching down from n - 1. */
  function FloorBelow<V>(t: seq<Boundary<V>>, x: int, n: int): (k: int)
    requires 0 <= n <= |t|
    ensures -1 <= k < n
    ensures 0 <= k ==> t[k].pos <= x
    ensures k + 1 < n ==> x < t[k + 1].pos
  {
    if n == 0 then -1
    else if t[n - 1].pos <= x then n - 1
    else FloorBelow(t, x, n - 1)
  }

  /** Index of the boundary with the least position >= x, or |t|. */
  function Ceil<V>(t: seq<Boundary<V>>, x: int): (k: int)
    ensures 0 <= k <= |t|
    ensures k < |t| ==> x <= t[k].pos
    ensures 0 < k ==> t[k - 1].pos < x
  {
    CeilFrom(t, x, 0)
  }

  /** Ceil among the boundaries from j on, searching up from j. */
  function CeilFrom<V>(t: seq<Boundary<V>>, x: int, j: int): (k: int)
    requires 0 <= j <= |t|
    ensures j <= k <= |t|
    ensures k < |t| ==> x <= t[k].pos
    ensures j < k ==> t[k - 1].pos < x
    decreases |t| - j
  {
    if j == |t| || x <= t[j].pos then j
    else CeilFrom(t, x, j + 1)
  }

  /** Inserts b in position order; an entry already at b.pos is replaced. */
  function Insert<V>(t: seq<Boundary<V>>, b: Boundary<V>): (r: seq<Boundary<V>>)
  {
    var k := Ceil(t, b.pos);
    t[..k] + [b] + (if k < |t| && t[k].pos == b.pos then t[k + 1..] else t[k..])
  }

  /** Removes the entry at position p, if there is one. */
  function Delete<V>(t: seq<Boundary<V>>, p: int): (r: seq<Boundary<V>>)
  {
    var k := Ceil(t, p);
    if k < |t| && t[k].pos == p then t[..k] + t[k + 1..] else t
  }

  /** The value in force at x: that of the last boundary at or before x
      (None before the first boundary).  This is the abstraction function. */
  ghost function ValueAt<V>(t: seq<Boundary<V>>, x: int): Option<V>
  {
    if |t| == 0 || x < t[0].pos then None
    else if |t| == 1 || x < t[1].pos then t[0].val
    else ValueAt(t[1..], x)
  }

  /** Floor is pinned down by its characterisation. */
  lemma FloorIs<V>(t: seq<Boundary<V>>, x: int, k: int)
    requires -1 <= k < |t|
    requires 0 <= k ==> t[k].pos <= x
    requires forall j :: k < j < |t| ==> x < t[j].pos
    ensures Floor(t, x) == k
  {
    FloorBelowIs(t, x, |t|, k);
  }

  lemma {:induction false} FloorBelowIs<V>(t: seq<Boundary<V>>, x: int, n: int, k: int)
    requires -1 <= k < n <= |t|
    requires 0 <= k ==> t[k].pos <= x
    requires forall j :: k < j < n ==> x < t[j].pos
    ensures FloorBelow(t, x, n) == k
    decreases n
  {
    if k < n - 1 {
      assert x < t[n - 1].pos;
      FloorBelowIs(t, x, n - 1, k);
    }
  }

  /** Ceil is pinned down by its characterisation. */
  lemma CeilIs<V>(t: seq<Boundary<V>>, x: int, k: int)
    requires 0 <= k <= |t|
    requires k < |t| ==> x <= t[k].pos
    requires forall j :: 0 <= j < k ==> t[j].pos < x
    ensures Ceil(t, x) == k
  {
    CeilFromIs(t, x, 0, k);
  }

  lemma {:induction false} CeilFromIs<V>(t: seq<Boundary<V>>, x: int, j: int, k: int)
    requires 0 <= j <= k <= |t|
    requires k < |t| ==> x <= t[k].pos
    requires forall i :: j <= i < k ==> t[i].pos < x
    ensures CeilFrom(t, x, j) == k
    decreases |t| - j
  {
    if j < k {
      assert t[j].pos < x;
      CeilFromIs(t, x, j + 1, k);
    }
  }

  /** Sortedness read off for one pair of boundaries. */
  lemma Before<V>(t: seq<Boundary<V>>, i: int, j: int)
    requires Sorted(t) && 0 <= i < j < |t|
    ensures t[i].pos < t[j].pos
  {
    assert Less(t, i, j);
  }

  /** In a sorted store the boundaries after k lie above it and those
      before k below it. */
  lemma Around<V>(t: seq<Boundary<V>>, k: int)
    requires Sorted(t) && 0 <= k < |t|
    ensures forall j :: k < j < |t| ==> t[k].pos < t[j].pos
    ensures forall j :: 0 <= j < k ==> t[j].pos < t[k].pos
  {
    forall j | k < j < |t| ensures t[k].pos < t[j].pos {
      assert Less(t, k, j);
    }
    forall j | 0 <= j < k ensures t[j].pos < t[k].pos {
      assert Less(t, j, k);
    }
  }

  /** In a sorted store, Floor is fixed by the two neighbours of x. */
  lemma FloorAt<V>(t: seq<Boundary<V>>, x: int, k: int)
    requires Sorted(t) && -1 <= k < |t|
    requires 0 <= k ==> t[k].pos <= x
    requires k + 1 < |t| ==> x < t[k + 1].pos
    ensures Floor(t, x) == k
  {
    if k + 1 < |t| {
      Around(t, k + 1);
    }
    FloorIs(t, x, k);
  }

  /** In a sorted store, Ceil is fixed by the two neighbours of x. */
  lemma CeilBetween<V>(t: seq<Boundary<V>>, x: int, k: int)
    requires Sorted(t) && 0 <= k <= |t|
    requires k < |t| ==> x <= t[k].pos
    requires 0 < k ==> t[k - 1].pos < x
    ensures Ceil(t, x) == k
  {
    if 0 < k {
      Around(t, k - 1);
    }
    CeilIs(t, x, k);
  }

  /** In a sorted store Ceil is monotonic. */
  lemma CeilMono<V>(t: seq<Boundary<V>>, x: int, y: int)
    requires Sorted(t) && x <= y
    ensures Ceil(t, x) <= Ceil(t, y)
  {
    var a, b := Ceil(t, x), Ceil(t, y);
    if b < a - 1 {
      Before(t, b, a - 1);
    }
  }

  /** The two parts of a sorted concatenation are sorted. */
  lemma SortedParts<V>(a: seq<Boundary<V>>, b: seq<Boundary<V>>)
    requires Sorted(a + b)
    ensures Sorted(a) && Sorted(b)
  {
    var ab := a + b;
    forall i, j | 0 <= i < j < |a| ensures Less(a, i, j) {
      assert a[i] == ab[i] && a[j] == ab[j];
      assert Less(ab, i, j);
    }
    forall i, j | 0 <= i < j < |b| ensures Less(b, i, j) {
      assert b[i] == ab[|a| + i] && b[j] == ab[|a| + j];
      assert Less(ab, |a| + i, |a| + j);
    }
  }

  /** A prefix and a suffix of a sorted store are sorted. */
  lemma SortedSplit<V>(t: seq<Boundary<V>>, a: int)
    requires Sorted(t) && 0 <= a <= |t|
    ensures Sorted(t[..a]) && Sorted(t[a..])
  {
    assert t == t[..a] + t[a..];
    SortedParts(t[..a], t[a..]);
  }

  /** In a sorted store the abstraction reads the floor boundary. */
  lemma {:induction false} FloorValue<V>(t: seq<Boundary<V>>, x: int)
    requires Sorted(t)
    ensures ValueAt(t, x) == (var k := Floor(t, x); if k < 0 then None else t[k].val)
  {
    if |t| == 0 || x < t[0].pos {
      FloorAt(t, x, -1);
    } else if |t| == 1 || x < t[1].pos {
      FloorAt(t, x, 0);
    } else {
      var k := Floor(t[1..], x);
      assert t == [t[0]] + t[1..];
      SortedParts([t[0]], t[1..]);
      FloorValue(t[1..], x);
      assert 0 <= k by { assert t[1..][0].pos <= x; }
      FloorAt(t, x, k + 1);
    }
  }

  /** The abstraction of a concatenation reads the right part from its first
      position on, and the left part before it. */
  lemma ConcatValue<V>(a: seq<Boundary<V>>, b: seq<Boundary<V>>, x: int)
    requires Sorted(a + b)
    ensures ValueAt(a + b, x) == if |b| > 0 && b[0].pos <= x then ValueAt(b, x) else ValueAt(a, x)
  {
    var ab := a + b;
    SortedParts(a, b);
    FloorValue(ab, x);
    FloorValue(a, x);
    FloorValue(b, x);
    if |b| > 0 && b[0].pos <= x {
      var k := Floor(b, x);
      assert ab[|a| + k] == b[k];
      assert |a| + k + 1 < |ab| ==> ab[|a| + k + 1] == b[k + 1];
      FloorAt(ab, x, |a| + k);
    } else {
      var k := Floor(a, x);
      assert k >= 0 ==> ab[k] == a[k];
      assert k + 1 < |a| ==> ab[k + 1] == a[k + 1];
      assert k + 1 == |a| && |b| > 0 ==> ab[k + 1] == b[0];
      FloorAt(ab, x, k);
    }
  }

  /** At or after the last boundary the abstraction reads that boundary. */
  lemma LastValue<V>(a: seq<Boundary<V>>, x: int)
    requires Sorted(a) && |a| > 0 && a[|a| - 1].pos <= x
    ensures ValueAt(a, x) == a[|a| - 1].val
  {
    FloorValue(a, x);
  }

  /** Before position t[a].pos, a prefix reads like the whole store. */
  lemma PrefixValue<V>(t: seq<Boundary<V>>, a: int, x: int)
    requires Sorted(t) && 0 <= a <= |t| && (a < |t| ==> x < t[a].pos)
    ensures ValueAt(t[..a], x) == ValueAt(t, x)
  {
    assert t == t[..a] + t[a..];
    ConcatValue(t[..a], t[a..], x);
  }

  /** From position t[c].pos on, a suffix reads like the whole store. */
  lemma SuffixValue<V>(t: seq<Boundary<V>>, c: int, x: int)
    requires Sorted(t) && 0 <= c < |t| && t[c].pos <= x
    ensures ValueAt(t[c..], x) == ValueAt(t, x)
  {
    assert t == t[..c] + t[c..];
    ConcatValue(t[..c], t[c..], x);
  }

  /** Between two adjacent boundaries the abstraction reads the first. */
  lemma StepValue<V>(t: seq<Boundary<V>>, k: int, x: int)
    requires Sorted(t) && 0 <= k < |t| && t[k].pos <= x && (k + 1 < |t| ==> x < t[k + 1].pos)
    ensures ValueAt(t, x) == t[k].val
  {
    FloorValue(t, x);
    FloorAt(t, x, k);
  }

  /** A sorted store holds each position at most once, at the index Ceil finds. */
  lemma CeilAt<V>(t: seq<Boundary<V>>, k: int)
    requires Sorted(t) && 0 <= k < |t|
    ensures Ceil(t, t[k].pos) == k
    ensures Floor(t, t[k].pos) == k
  {
    Around(t, k);
    CeilIs(t, t[k].pos, k);
    FloorIs(t, t[k].pos, k);
  }

  /** Inserting at a fresh position between two neighbours. */
  lemma InsertAt<V>(t: seq<Boundary<V>>, k: int, b: Boundary<V>)
    requires Sorted(t) && 0 <= k <= |t|
    requires k > 0 ==> t[k - 1].pos < b.pos
    requires k < |t| ==> b.pos < t[k].pos
    ensures Insert(t, b) == t[..k] + [b] + t[k..]
  {
    CeilBetween(t, b.pos, k);
  }

  /** Inserting at a position already held overwrites that entry. */
  lemma ReplaceAt<V>(t: seq<Boundary<V>>, k: int, b: Boundary<V>)
    requires Sorted(t) && 0 <= k < |t| && t[k].pos == b.pos
    ensures Insert(t, b) == t[k := b]
  {
    CeilAt(t, k);
    UpdateIs(t, k, b);
  }

  /** Deleting a held position removes exactly that entry. */
  lemma DeleteAt<V>(t: seq<Boundary<V>>, k: int)
    requires Sorted(t) && 0 <= k < |t|
    ensures Delete(t, t[k].pos) == t[..k] + t[k + 1..]
  {
    var p := t[k].pos;
    assert Ceil(t, p) == k by {
      CeilAt(t, k);
    }
  }

  /** Putting a sequence back together from its slices. */
  lemma Recompose<T>(t: seq<T>, a: int, c: int, mid: seq<T>)
    requires 0 <= a <= c <= |t| && mid == t[a..c]
    ensures t[..a] + mid + t[c..] == t
  {
  }

  /** An update at k, as slices. */
  lemma UpdateIs<T>(t: seq<T>, k: int, b: T)
    requires 0 <= k < |t|
    ensures t[k := b] == t[..k] + [b] + t[k + 1..]
  {
  }

  /** Moving the seam of a two-part sequence one entry to the right. */
  lemma AdvanceSeam<T>(a: seq<T>, b: seq<T>, j: int, w: seq<T>)
    requires |a| == |b| && 0 <= j < |a| && w == a[..j] + b[j..]
    ensures w[j := a[j]] == a[..j + 1] + b[j + 1..]
  {
    assert a[..j + 1] == a[..j] + [a[j]];
    assert b[j..] == [b[j]] + b[j + 1..];
  }

  /** Removing the entry at k and then updating its successor. */
  lemma DropUpdate<T>(t: seq<T>, k: int, b: T)
    requires 0 <= k && k + 1 < |t|
    ensures |t[..k] + t[k + 1..]| == |t| - 1
    ensures (t[..k] + t[k + 1..])[k := b] == t[..k] + [b] + t[k + 2..]
  {
  }

  /** Removing a middle entry from p + [b] + q. */
  lemma DropMiddle<T>(p: seq<T>, b: T, q: seq<T>)
    ensures var u := p + [b] + q; u[..|p|] + u[|p| + 1..] == p + q
  {
    var u := p + [b] + q;
    assert u[..|p|] == p;
    assert u[|p| + 1..] == q;
  }

  /** Inserting b between p and q. */
  lemma InsertMiddle<T>(p: seq<T>, q: seq<T>, b: T)
    ensures var u := p + q; u[..|p|] + [b] + u[|p|..] == p + [b] + q
  {
    var u := p + q;
    assert u[..|p|] == p;
    assert u[|p|..] == q;
  }

  /** Regrouping a two-entry middle. */
  lemma PairMiddle<T>(p: seq<T>, x: T, y: T, q: seq<T>)
    ensures p + [x] + ([y] + q) == p + ([x] + [y]) + q
    ensures p + [x] + [y] + q == p + ([x] + [y]) + q
  {
  }

  /** Inserting b just before the middle entry of p + [m] + q. */
  lemma InsertBefore<T>(p: seq<T>, m: T, q: seq<T>, b: T)
    ensures var u := p + [m] + q; u[..|p|] + [b] + u[|p|..] == p + ([b] + [m]) + q
  {
    var u := p + [m] + q;
    assert u[..|p|] == p;
    assert u[|p|..] == [m] + q;
  }

  /** A middle with at most one entry. */
  lemma ShortMiddle<T>(p: seq<T>, x: T, q: seq<T>)
    ensures p + ([] + []) + q == p + q
    ensures p + ([x] + []) + q == p + [x] + q
    ensures p + ([] + [x]) + q == p + [x] + q
  {
  }

  /** Dropping the first entry of the right-hand part of p + q. */
  lemma DropAfter<T>(p: seq<T>, q: seq<T>)
    requires |q| > 0
    ensures var u := p + q; u[..|p|] + u[|p| + 1..] == p + q[1..]
  {
    var u := p + q;
    assert u[..|p|] == p;
    assert u[|p| + 1..] == q[1..];
  }

  /** The set of stored positions. */
  ghost function Positions<V>(t: seq<Boundary<V>>): set<int> {
    set k | 0 <= k < |t| :: t[k].pos
  }

  /** A stored position is found by Floor. */
  lemma FloorFinds<V>(t: seq<Boundary<V>>, p: int)
    requires Sorted(t) && p in Positions(t)
    ensures 0 <= Floor(t, p) && t[Floor(t, p)].pos == p
  {
    var k :| 0 <= k < |t| && t[k].pos == p;
    CeilAt(t, k);
  }

  /** Strictly increasing integer positions spread at least one apart. */
  lemma {:induction false} Span<V>(t: seq<Boundary<V>>)
    requires Sorted(t) && |t| > 0
    ensures t[|t| - 1].pos - t[0].pos >= |t| - 1
  {
    if |t| > 1 {
      var n := |t|;
      assert t == t[..n - 1] + [t[n - 1]];
      SortedParts(t[..n - 1], [t[n - 1]]);
      Span(t[..n - 1]);
      assert t[..n - 1][0] == t[0];
      Before(t, n - 2, n - 1);
    }
  }

  /** A sorted store holds as many distinct positions as boundaries. */
  lemma {:induction false} PositionsCount<V>(t: seq<Boundary<V>>)
    requires Sorted(t)
    ensures |Positions(t)| == |t|
  {
    if |t| == 0 {
      assert Positions(t) == {};
    } else {
      var n := |t|;
      var s := t[..n - 1];
      assert t == s + [t[n - 1]];
      SortedParts(s, [t[n - 1]]);
      PositionsCount(s);
      assert Positions(t) == Positions(s) + {t[n - 1].pos};
      assert t[n - 1].pos !in Positions(s) by {
        if t[n - 1].pos in Positions(s) {
          var k :| 0 <= k < |s| && s[k].pos == t[n - 1].pos;
          Before(t, k, n - 1);
        }
      }
    }
  }
}
