/** Value transforms over a step vector's boundaries.

    A transform passes stored values through a function m.  Afterwards some
    boundaries may repeat the value of the run before them; these are queued
    and deleted, which leaves the abstract array alone and makes the store
    canonical again. */
module Transforms {
  import opened Store
  import opened Runs

  /** m applied under Option: positions with no value keep none. */
  function MapOpt<V>(m: V -> V, o: Option<V>): (r: Option<V>)
    ensures r.Some? <==> o.Some?
  {
    if o.None? then None else Some(m(o.value))
  }

  /** The store with every value passed through m and every position kept. */
  ghost function Mapped<V>(t: seq<Boundary<V>>, m: V -> V): (w: seq<Boundary<V>>)
    ensures |w| == |t|
  {
    seq(|t|, k requires 0 <= k < |t| => Boundary(t[k].pos, MapOpt(m, t[k].val)))
  }

  /** Mapping the stored values keeps the positions in order. */
  lemma MappedSorted<V>(t: seq<Boundary<V>>, m: V -> V)
    requires Sorted(t)
    ensures Sorted(Mapped(t, m))
  {
    var w := Mapped(t, m);
    forall i, j | 0 <= i < j < |w| ensures Less(w, i, j) {
      Before(t, i, j);
    }
  }

  /** Mapping the stored values maps the abstract array. */
  lemma MappedValue<V>(t: seq<Boundary<V>>, m: V -> V)
    requires Sorted(t)
    ensures Sorted(Mapped(t, m))
    ensures forall x :: ValueAt(Mapped(t, m), x) == MapOpt(m, ValueAt(t, x))
  {
    var w := Mapped(t, m);
    MappedSorted(t, m);
    forall x ensures ValueAt(w, x) == MapOpt(m, ValueAt(t, x)) {
      var k := Floor(t, x);
      FloorAt(w, x, k);
      FloorValue(w, x);
      FloorValue(t, x);
    }
  }

  /** The boundary at p repeats the value just before it. */
  ghost predicate Repeats<V>(w: seq<Boundary<V>>, p: int)
    requires |w| > 0
  {
    w[0].pos < p && ValueAt(w, p - 1) == ValueAt(w, p)
  }

  /** q lists in ascending order stored positions of w that repeat the value
      before them, and holds every boundary that repeats its predecessor. */
  ghost predicate Queued<V>(w: seq<Boundary<V>>, q: seq<int>)
    requires |w| > 0
  {
    && (forall i, j :: 0 <= i < j < |q| ==> q[i] < q[j])
    && (forall i :: 0 <= i < |q| ==> q[i] in Positions(w) && Repeats(w, q[i]))
    && (forall k :: 0 < k < |w| && w[k - 1].val == w[k].val ==> w[k].pos in q)
  }

  /** Deleting a boundary that repeats its predecessor keeps the abstract
      array, the ends and every other position. */
  lemma DeleteSame<V>(u: seq<Boundary<V>>, k: int)
    requires Sorted(u) && 0 < k < |u| - 1 && u[k - 1].val == u[k].val
    ensures var r := Delete(u, u[k].pos);
      && Sorted(r) && |r| == |u| - 1 && r[0] == u[0] && r[|r| - 1] == u[|u| - 1]
      && (forall x :: ValueAt(r, x) == ValueAt(u, x))
      && (forall p :: p in Positions(r) <==> p in Positions(u) && p != u[k].pos)
  {
    var r := Delete(u, u[k].pos);
    DeleteAt(u, k);
    assert r == u[..k] + [] + u[k + 1..];
    SpliceSorted(u, k, k + 1, []);
    forall x ensures ValueAt(r, x) == ValueAt(u, x) {
      ConcatValue(u[..k], u[k + 1..], x);
      if u[k + 1].pos <= x {
        SuffixValue(u, k + 1, x);
      } else if x < u[k].pos {
        PrefixValue(u, k, x);
      } else {
        SortedSplit(u, k);
        Before(u, k - 1, k);
        LastValue(u[..k], x);
        StepValue(u, k, x);
      }
    }
    DeletedPositions(u, k);
  }

  /** Deleting the boundary at index k removes exactly its position. */
  lemma DeletedPositions<V>(u: seq<Boundary<V>>, k: int)
    requires Sorted(u) && 0 <= k < |u|
    ensures forall p :: p in Positions(Delete(u, u[k].pos)) <==> p in Positions(u) && p != u[k].pos
  {
    var r := Delete(u, u[k].pos);
    DeleteAt(u, k);
    forall p ensures p in Positions(r) <==> p in Positions(u) && p != u[k].pos {
      if p in Positions(r) {
        var i :| 0 <= i < |r| && r[i].pos == p;
        if i < k {
          assert r[i] == u[i];
          Before(u, i, k);
        } else {
          assert r[i] == u[i + 1];
          Before(u, k, i + 1);
        }
      }
      if p in Positions(u) && p != u[k].pos {
        var j :| 0 <= j < |u| && u[j].pos == p;
        if j < k {
          assert r[j] == u[j];
        } else {
          assert r[j - 1] == u[j];
        }
      }
    }
  }

  /** The state of the deletion walk after the first i queued positions. */
  ghost predicate Pruned<V>(w: seq<Boundary<V>>, q: seq<int>, i: int, u: seq<Boundary<V>>)
    requires |w| > 0 && 0 <= i <= |q|
  {
    && Sorted(u) && |u| >= 2 && u[0] == w[0] && u[|u| - 1] == w[|w| - 1]
    && (forall x :: ValueAt(u, x) == ValueAt(w, x))
    && (forall p :: p in Positions(u) <==> p in Positions(w) && p !in q[..i])
  }

  /** The abstract array of w holds a value exactly on [w[0].pos, w[|w|-1].pos). */
  ghost predicate Spans<V>(w: seq<Boundary<V>>)
    requires |w| > 0
  {
    forall x :: ValueAt(w, x).Some? <==> w[0].pos <= x < w[|w| - 1].pos
  }

  /** One deletion of the walk: the next queued position is still stored,
      repeats its predecessor, and deleting it keeps the walk's state. */
  lemma DeleteQueuedStep<V>(w: seq<Boundary<V>>, q: seq<int>, i: int, u: seq<Boundary<V>>)
    requires Sorted(w) && |w| >= 2 && Spans(w) && Queued(w, q) && 0 <= i < |q|
    requires Pruned(w, q, i, u)
    ensures Pruned(w, q, i + 1, Delete(u, q[i]))
  {
    var p := q[i];
    assert p !in q[..i] by {
      forall j | 0 <= j < i ensures q[..i][j] != p {
        assert q[j] < q[i];
      }
    }
    FloorFinds(u, p);
    var k := Floor(u, p);
    var jw :| 0 <= jw < |w| && w[jw].pos == p;
    assert 0 < k by {
      assert u[0].pos < p;
    }
    assert p < w[|w| - 1].pos by {
      if jw < |w| - 1 {
        Before(w, jw, |w| - 1);
      }
    }
    assert k < |u| - 1;
    Before(u, k - 1, k);
    StepValue(u, k, p);
    StepValue(u, k - 1, p - 1);
    DeleteSame(u, k);
    assert q[..i + 1] == q[..i] + [p];
  }

  /** When the walk has deleted every queued position the store is valid. */
  lemma PrunedValid<V>(w: seq<Boundary<V>>, q: seq<int>, u: seq<Boundary<V>>)
    requires Sorted(w) && |w| >= 2 && Spans(w) && Queued(w, q)
    requires Pruned(w, q, |q|, u)
    ensures Valid(u)
  {
    assert q[..|q|] == q;
    var n := |u|;
    LastValue(w, w[|w| - 1].pos);
    forall k | 0 <= k < n - 1 ensures u[k].val.Some? {
      Before(u, k, n - 1);
      if k > 0 {
        Before(u, 0, k);
      }
      Before(u, k, k + 1);
      StepValue(u, k, u[k].pos);
    }
    forall k | 0 < k < n ensures Differs(u, k) {
      var p := u[k].pos;
      assert p in Positions(u);
      FloorFinds(w, p);
      var j := Floor(w, p);
      Before(u, 0, k);
      assert 0 < j;
      Before(w, j - 1, j);
      StepValue(w, j, p);
      StepValue(w, j - 1, p - 1);
      Before(u, k - 1, k);
      StepValue(u, k - 1, p - 1);
      if k < n - 1 {
        Before(u, k, k + 1);
        StepValue(u, k, p);
      } else {
        LastValue(u, p);
      }
    }
  }

  /** A store whose positions increase and whose values are present
      everywhere but at the end sentinel; a valid store without canonicity. */
  ghost predicate Framed<V>(t: seq<Boundary<V>>) {
    && |t| >= 2
    && Sorted(t)
    && t[|t| - 1].val.None?
    && (forall k :: 0 <= k < |t| - 1 ==> t[k].val.Some?)
  }

  /** The state of Apply's walk before boundary j: the boundaries before j
      carry their new values, la is the new value of boundary j - 1, and q
      queues the repeats found so far, all below boundary j. */
  ghost predicate Walked<V>(t: seq<Boundary<V>>, m: V -> V, j: int, w: seq<Boundary<V>>, la: Option<V>, q: seq<int>)
    requires 0 <= j < |t|
  {
    var target := Mapped(t, m);
    && w == target[..j] + t[j..]
    && (j > 0 ==> la == target[j - 1].val)
    && (forall i, i' :: 0 <= i < i' < |q| ==> q[i] < q[i'])
    && (forall i :: 0 <= i < |q| ==> q[i] < t[j].pos && q[i] in Positions(target) && Repeats(target, q[i]))
    && (forall k :: 0 < k < j && target[k - 1].val == target[k].val ==> target[k].pos in q)
  }

  /** Before boundary j the walk still sees the old boundary there. */
  lemma WalkedAt<V>(t: seq<Boundary<V>>, m: V -> V, j: int, w: seq<Boundary<V>>, la: Option<V>, q: seq<int>)
    requires Framed(t) && 0 <= j < |t| && Walked(t, m, j, w, la, q)
    ensures |w| == |t| && w[j] == t[j]
    ensures t[j].pos != t[|t| - 1].pos ==> j < |t| - 1 && t[j].val.Some?
    ensures j > 0 <==> t[j].pos != t[0].pos
  {
    assert w[j] == t[j..][0];
    if j > 0 {
      Before(t, 0, j);
    }
  }

  /** One step of Apply's walk where boundary j takes its new value p and
      does not repeat the value before it. */
  lemma WalkKeep<V>(t: seq<Boundary<V>>, m: V -> V, j: int, w: seq<Boundary<V>>, la: Option<V>, q: seq<int>,
                    p: Boundary<V>)
    requires Sorted(t) && 0 <= j < |t| - 1 && t[j].val.Some? && Walked(t, m, j, w, la, q)
    requires p == Boundary(t[j].pos, Some(m(t[j].val.value)))
    requires j > 0 ==> p.val != la
    ensures Walked(t, m, j + 1, w[j := p], p.val, q)
  {
    var target := Mapped(t, m);
    assert p == target[j];
    AdvanceSeam(target, t, j, w);
    Before(t, j, j + 1);
  }

  /** One step of Apply's walk where boundary j takes its new value p, which
      repeats the value before it, and its position is queued. */
  lemma WalkQueue<V>(t: seq<Boundary<V>>, m: V -> V, j: int, w: seq<Boundary<V>>, la: Option<V>, q: seq<int>,
                     p: Boundary<V>)
    requires Sorted(t) && 0 < j < |t| - 1 && t[j].val.Some? && Walked(t, m, j, w, la, q)
    requires p == Boundary(t[j].pos, Some(m(t[j].val.value)))
    requires p.val == la
    ensures Walked(t, m, j + 1, w[j := p], p.val, q + [p.pos])
  {
    var target := Mapped(t, m);
    MappedSorted(t, m);
    assert p == target[j];
    AdvanceSeam(target, t, j, w);
    Before(t, j, j + 1);
    Before(t, j - 1, j);
    StepValue(target, j, p.pos);
    StepValue(target, j - 1, p.pos - 1);
    assert target[j].pos in Positions(target);
  }

  /** At the end sentinel Apply's walk has mapped every boundary and queued
      every repeat. */
  lemma WalkDone<V>(t: seq<Boundary<V>>, m: V -> V, j: int, w: seq<Boundary<V>>, la: Option<V>, q: seq<int>)
    requires Framed(t) && 0 <= j < |t| && Walked(t, m, j, w, la, q) && t[j].pos == t[|t| - 1].pos
    ensures w == Mapped(t, m) && Queued(w, q)
  {
    var target := Mapped(t, m);
    assert j == |t| - 1 by {
      if j < |t| - 1 {
        Before(t, j, |t| - 1);
      }
    }
    assert w == target by {
      assert w == target[..j] + t[j..];
      assert t[j..] == [t[j]];
      assert target == target[..j] + [target[j]];
    }
  }

  /** A mapper that changes no value leaves the store exactly as it was:
      nothing is split and nothing is merged. */
  lemma IdentityKeeps<V>(t: seq<Boundary<V>>, m: V -> V, u: seq<Boundary<V>>)
    requires Valid(t) && Valid(u) && forall v :: m(v) == v
    requires forall x :: ValueAt(u, x) == MapOpt(m, ValueAt(t, x))
    ensures u == t
  {
    forall x ensures ValueAt(u, x) == ValueAt(t, x) {
      assert ValueAt(u, x) == MapOpt(m, ValueAt(t, x));
    }
    Unique(u, t);
  }
}
