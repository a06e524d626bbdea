/** The boundary edits that the vector's write operations perform, branch by
    branch, shown equal to the reference results of module Runs.

    Each lemma takes the store before the write and the conditions under
    which the original takes one branch, and states that the sequence of
    tree edits that branch performs yields SetRangeCanon, Prepend or Append.
    The vector's methods perform the same edits and call these lemmas. */
module Writes {
  import opened Store
  import opened Runs

  /** Where a single position i inside the domain falls among the boundaries. */
  lemma PointFacts<V>(t: seq<Boundary<V>>, i: int)
    requires Valid(t) && t[0].pos <= i < t[|t| - 1].pos
    ensures var f := Floor(t, i);
      && 0 <= f < |t| - 1 && t[f].pos <= i < t[f + 1].pos
      && Ceil(t, i + 1) == f + 1
      && Ceil(t, i) == (if t[f].pos == i then f else f + 1)
      && (f > 0 ==> t[f - 1].pos < t[f].pos)
      && (f + 2 < |t| ==> t[f + 1].pos < t[f + 2].pos)
  {
    var f := Floor(t, i);
    if f + 2 < |t| {
      Before(t, f + 1, f + 2);
    }
    if f == |t| - 1 {
      assert false;
    }
    CeilBetween(t, i + 1, f + 1);
    if f > 0 {
      Before(t, f - 1, f);
    }
    if t[f].pos == i {
      CeilBetween(t, i, f);
    } else {
      CeilBetween(t, i, f + 1);
    }
  }

  /** The reference result of writing one position, in terms of the
      boundary at or before it. */
  lemma PointCanon<V>(t: seq<Boundary<V>>, i: int, v: V)
    requires Valid(t) && t[0].pos <= i < t[|t| - 1].pos
    ensures var f := Floor(t, i);
      && 0 <= f < |t| - 1 && t[f].pos <= i < t[f + 1].pos
      && var a := if t[f].pos == i then f else f + 1;
      var head := if a > 0 && t[a - 1].val == Some(v) then [] else [Boundary(i, Some(v))];
      var tail := if t[f + 1].pos == i + 1 || t[f].val == Some(v) then [] else [Boundary(i + 1, t[f].val)];
      var c := if t[f + 1].pos == i + 1 && t[f + 1].val == Some(v) then f + 2 else f + 1;
      SetRangeCanon(t, i, i + 1, v) == t[..a] + (head + tail) + t[c..]
  {
    PointFacts(t, i);
    var f := Floor(t, i);
    var a := if t[f].pos == i then f else f + 1;
    var c := if t[f + 1].pos == i + 1 && t[f + 1].val == Some(v) then f + 2 else f + 1;
    var head := if a > 0 && t[a - 1].val == Some(v) then [] else [Boundary(i, Some(v))];
    var tail := if t[f + 1].pos == i + 1 || t[f].val == Some(v) then [] else [Boundary(i + 1, t[f].val)];
    PointParts(t, i, v);
    CanonIs(t, i, i + 1, v, a, head, tail, c);
  }

  /** The parts of SetRangeCanon for one position i. */
  lemma PointParts<V>(t: seq<Boundary<V>>, i: int, v: V)
    requires Valid(t) && t[0].pos <= i < t[|t| - 1].pos
    ensures var f := Floor(t, i);
      && 0 <= f < |t| - 1
      && Resume(t, i + 1, v) == (if t[f + 1].pos == i + 1 && t[f + 1].val == Some(v) then f + 2 else f + 1)
      && var a := if t[f].pos == i then f else f + 1;
      && Ceil(t, i) == a
      && Head(t, i, v) == (if a > 0 && t[a - 1].val == Some(v) then [] else [Boundary(i, Some(v))])
      && Tail(t, i + 1, v) == if t[f + 1].pos == i + 1 || t[f].val == Some(v) then [] else [Boundary(i + 1, t[f].val)]
  {
    PointFacts(t, i);
  }

  /** SetRangeCanon from the values of its parts. */
  lemma CanonIs<V>(t: seq<Boundary<V>>, s: int, e: int, v: V, a: int, head: seq<Boundary<V>>, tail: seq<Boundary<V>>, c: int)
    requires Valid(t) && t[0].pos <= s < e <= t[|t| - 1].pos
    requires Ceil(t, s) == a && Head(t, s, v) == head && Tail(t, e, v) == tail && Resume(t, e, v) == c
    ensures SetRangeCanon(t, s, e, v) == t[..a] + (head + tail) + t[c..]
  {
  }

  /** Writing the value a position already holds changes nothing
      (step.go:185-188). */
  lemma SetUnchanged<V>(t: seq<Boundary<V>>, i: int, v: V)
    requires Valid(t) && t[0].pos <= i < t[|t| - 1].pos
    requires t[Floor(t, i)].val == Some(v)
    ensures SetRangeCanon(t, i, i + 1, v) == t
  {
    var f := Floor(t, i);
    PointCanon(t, i, v);
    assert Differs(t, f + 1);
    if t[f].pos == i {
      assert f > 0 ==> Differs(t, f);
      KeepOne(t, f);
      assert [Boundary(i, Some(v))] + [] == [t[f]];
    } else {
      Recompose(t, f + 1, f + 1, [] + []);
    }
  }

  /** A sequence is its prefix, one entry and its suffix. */
  lemma KeepOne<T>(t: seq<T>, k: int)
    requires 0 <= k < |t|
    ensures t[..k] + [t[k]] + t[k + 1..] == t
  {
  }

  /** A boundary b placed between t[..f] and t[g..]: Floor finds the entry
      before b. */
  lemma PlacedFloor<V>(t: seq<Boundary<V>>, f: int, g: int, b: Boundary<V>)
    requires 0 <= f < g <= |t| && Sorted(t[..f] + [b] + t[g..])
    ensures var u := t[..f] + [b] + t[g..];
      && u[0].pos <= b.pos && (u[0].pos < b.pos <==> f > 0)
      && (f > 0 ==> Floor(u, b.pos - 1) == f - 1 && u[f - 1] == t[f - 1])
  {
    var u := t[..f] + [b] + t[g..];
    assert u[f] == b;
    if f > 0 {
      assert u[f - 1] == t[f - 1] && u[0] == t[0];
      Before(u, 0, f);
      Before(u, f - 1, f);
      FloorAt(u, b.pos - 1, f - 1);
    }
  }

  /** Deleting a boundary b placed between t[..f] and t[g..] leaves the two
      outer parts. */
  lemma PlacedDelete<V>(t: seq<Boundary<V>>, f: int, g: int, b: Boundary<V>)
    requires 0 <= f < g <= |t| && Sorted(t[..f] + [b] + t[g..])
    ensures Delete(t[..f] + [b] + t[g..], b.pos) == t[..f] + t[g..]
  {
    var u := t[..f] + [b] + t[g..];
    assert u[f] == b;
    DeleteAt(u, f);
    DropMiddle(t[..f], b, t[g..]);
  }

  /** The reference result of writing v at a position i whose run is i
      alone, as a splice of t: the boundary at i, and the one at i + 1 too
      when it holds v, give way to one boundary holding v, which is left out
      when the run before i holds v (step.go:191-204). */
  lemma RunOfOneCanon<V>(t: seq<Boundary<V>>, i: int, v: V)
    requires Valid(t) && t[0].pos <= i < t[|t| - 1].pos
    requires var f := Floor(t, i); t[f].pos == i && t[f + 1].pos == i + 1
    ensures var f := Floor(t, i);
      var g := if t[f + 1].val == Some(v) then f + 2 else f + 1;
      && 0 <= f < g <= |t|
      && SetRangeCanon(t, i, i + 1, v)
         == if f > 0 && t[f - 1].val == Some(v) then t[..f] + t[g..] else t[..f] + [Boundary(i, Some(v))] + t[g..]
  {
    var f := Floor(t, i);
    PointCanon(t, i, v);
    if t[f + 1].val == Some(v) {
      ShortMiddle(t[..f], Boundary(i, Some(v)), t[f + 2..]);
    } else {
      ShortMiddle(t[..f], Boundary(i, Some(v)), t[f + 1..]);
    }
  }

  /** What the last step of step.go:191-204 needs of the store w left by
      the first edit at a position i whose run is i alone, f being the index
      of the boundary at i: Floor(w, i - 1) finds the run before i, and the
      reference result r is w, or w without the boundary at i when that run
      holds v. */
  ghost predicate RunOfOneOutcome<V>(r: seq<Boundary<V>>, t: seq<Boundary<V>>, i: int, v: V, f: int, w: seq<Boundary<V>>)
    requires 0 <= f < |t|
  {
    && f < |w| && w[0].pos <= i && (w[0].pos < i <==> f > 0)
    && (f > 0 ==> Floor(w, i - 1) == f - 1 && w[f - 1].val == t[f - 1].val)
    && r == if f > 0 && t[f - 1].val == Some(v) then Delete(w, i) else w
  }

  /** The last step of a write over a run of one: the boundary at i goes
      exactly when the run before it holds v. */
  lemma RunOfOneFinish<V>(r: seq<Boundary<V>>, t: seq<Boundary<V>>, i: int, v: V, f: int, w: seq<Boundary<V>>)
    requires 0 <= f < |t| && RunOfOneOutcome(r, t, i, v, f, w)
    ensures w[0].pos < i ==> 0 <= Floor(w, i - 1) < |w|
    ensures w[0].pos < i && w[Floor(w, i - 1)].val == Some(v) ==> r == Delete(w, i)
    ensures !(w[0].pos < i && w[Floor(w, i - 1)].val == Some(v)) ==> r == w
  {
  }

  /** The outcome for a boundary holding v placed at i between t[..f] and
      t[g..]. */
  lemma PlacedOutcome<V>(r: seq<Boundary<V>>, t: seq<Boundary<V>>, i: int, v: V, f: int, g: int)
    requires Sorted(t) && 0 <= f < g <= |t|
    requires f > 0 ==> t[f - 1].pos < i
    requires g < |t| ==> i < t[g].pos
    requires r == if f > 0 && t[f - 1].val == Some(v) then t[..f] + t[g..] else t[..f] + [Boundary(i, Some(v))] + t[g..]
    ensures RunOfOneOutcome(r, t, i, v, f, t[..f] + [Boundary(i, Some(v))] + t[g..])
  {
    var b := Boundary(i, Some(v));
    SpliceSorted(t, f, g, [b]);
    PlacedFloor(t, f, g, b);
    PlacedDelete(t, f, g, b);
  }

  /** The run of i alone merges with the next run, which holds v: the
      boundary at i + 1 goes and the one at i takes its value
      (step.go:193-196). */
  lemma MergeNextOutcome<V>(t: seq<Boundary<V>>, i: int, v: V)
    requires Valid(t) && t[0].pos <= i < t[|t| - 1].pos
    requires var f := Floor(t, i); t[f].pos == i && t[f + 1].pos == i + 1 && t[f + 1].val == Some(v)
    ensures var f := Floor(t, i); 0 <= f < |t| && f < |Delete(t, i)|
    ensures var f := Floor(t, i); var d := Delete(t, i);
      RunOfOneOutcome(SetRangeCanon(t, i, i + 1, v), t, i, v, f, d[f := Boundary(i, d[f].val)])
  {
    var f := Floor(t, i);
    var b := Boundary(i, Some(v));
    PointFacts(t, i);
    RunOfOneCanon(t, i, v);
    assert Delete(t, i) == t[..f] + t[f + 1..] by {
      DeleteAt(t, f);
    }
    DropUpdate(t, f, b);
    PlacedOutcome(SetRangeCanon(t, i, i + 1, v), t, i, v, f, f + 2);
  }

  /** The run of i alone takes v in place (step.go:197-198). */
  lemma TakeOverOutcome<V>(t: seq<Boundary<V>>, i: int, v: V)
    requires Valid(t) && t[0].pos <= i < t[|t| - 1].pos
    requires var f := Floor(t, i); t[f].pos == i && t[f + 1].pos == i + 1 && t[f + 1].val != Some(v)
    ensures var f := Floor(t, i); 0 <= f < |t|
    ensures var f := Floor(t, i); RunOfOneOutcome(SetRangeCanon(t, i, i + 1, v), t, i, v, f, t[f := Boundary(i, Some(v))])
  {
    var f := Floor(t, i);
    var b := Boundary(i, Some(v));
    PointFacts(t, i);
    RunOfOneCanon(t, i, v);
    UpdateIs(t, f, b);
    PlacedOutcome(SetRangeCanon(t, i, i + 1, v), t, i, v, f, f + 1);
  }

  /** The edits of step.go:206-213: the boundary at i moves up to i + 1 and
      a boundary holding v may go in at i. */
  lemma SplitFrontEdits<V>(t: seq<Boundary<V>>, i: int, v: V)
    requires Valid(t) && t[0].pos <= i < t[|t| - 1].pos
    requires var f := Floor(t, i); t[f].pos == i && t[f + 1].pos > i + 1
    ensures var f := Floor(t, i); t[f := Boundary(i + 1, t[f].val)] == t[..f] + [Boundary(i + 1, t[f].val)] + t[f + 1..]
    ensures var f := Floor(t, i); Floor(t[f := Boundary(i + 1, t[f].val)], i) == f - 1
    ensures var f := Floor(t, i); f > 0 ==> t[f := Boundary(i + 1, t[f].val)][f - 1] == t[f - 1]
    ensures var f := Floor(t, i); var moved := Boundary(i + 1, t[f].val);
      Insert(t[f := moved], Boundary(i, Some(v))) == t[..f] + ([Boundary(i, Some(v))] + [moved]) + t[f + 1..]
  {
    var f := Floor(t, i);
    var b := Boundary(i, Some(v));
    var moved := Boundary(i + 1, t[f].val);
    PointFacts(t, i);
    UpdateIs(t, f, moved);
    var u := t[..f] + [moved] + t[f + 1..];
    SpliceSorted(t, f, f + 1, [moved]);
    assert u[f] == moved;
    if f > 0 {
      assert u[f - 1] == t[f - 1];
      Before(t, f - 1, f);
    }
    FloorAt(u, i, f - 1);
    InsertAt(u, f, b);
    InsertBefore(t[..f], moved, t[f + 1..], b);
  }

  /** After the boundary at i has moved up to i + 1, Floor at i finds the
      boundary before it (step.go:210). */
  lemma SplitFrontFloor<V>(t: seq<Boundary<V>>, i: int, v: V)
    requires Valid(t) && t[0].pos <= i < t[|t| - 1].pos
    requires var f := Floor(t, i); t[f].pos == i && t[f + 1].pos > i + 1
    ensures var f := Floor(t, i); var u := t[f := Boundary(i + 1, t[f].val)];
      0 <= f < |t| && Floor(u, i) == f - 1 && (f > 0 ==> u[f - 1] == t[f - 1])
  {
    SplitFrontEdits(t, i, v);
  }

  /** A boundary sits at i and its run is longer than one: the boundary
      moves up to i + 1, and a boundary holding v goes in at i unless the run
      before i holds v (step.go:205-214). */
  lemma SetSplitFront<V>(t: seq<Boundary<V>>, i: int, v: V)
    requires Valid(t) && t[0].pos <= i < t[|t| - 1].pos
    requires var f := Floor(t, i); t[f].pos == i && t[f + 1].pos > i + 1 && t[f].val != Some(v)
    ensures var f := Floor(t, i); var u := t[f := Boundary(i + 1, t[f].val)];
      SetRangeCanon(t, i, i + 1, v) == if f > 0 && t[f - 1].val == Some(v) then u else Insert(u, Boundary(i, Some(v)))
  {
    var f := Floor(t, i);
    var moved := Boundary(i + 1, t[f].val);
    PointCanon(t, i, v);
    SplitFrontEdits(t, i, v);
    if f > 0 && t[f - 1].val == Some(v) {
      ShortMiddle(t[..f], moved, t[f + 1..]);
    }
  }

  /** The edits of step.go:216-221. */
  lemma JoinNextEdits<V>(t: seq<Boundary<V>>, i: int, v: V)
    requires Valid(t) && t[0].pos <= i < t[|t| - 1].pos
    requires var f := Floor(t, i); t[f].pos < i && t[f + 1].pos == i + 1
    ensures var f := Floor(t, i);
      t[f + 1].val == Some(v) ==> t[f + 1 := Boundary(i, t[f + 1].val)] == t[..f + 1] + [Boundary(i, Some(v))] + t[f + 2..]
    ensures var f := Floor(t, i);
      Insert(t, Boundary(i, Some(v))) == t[..f + 1] + [Boundary(i, Some(v))] + t[f + 1..]
  {
    var f := Floor(t, i);
    var b := Boundary(i, Some(v));
    PointFacts(t, i);
    UpdateIs(t, f + 1, b);
    InsertAt(t, f + 1, b);
  }

  /** No boundary at i and the next one at i + 1: that boundary moves down to
      i when it holds v, and a boundary holding v goes in at i otherwise
      (step.go:215-221). */
  lemma SetJoinNext<V>(t: seq<Boundary<V>>, i: int, v: V)
    requires Valid(t) && t[0].pos <= i < t[|t| - 1].pos
    requires var f := Floor(t, i); t[f].pos < i && t[f + 1].pos == i + 1 && t[f].val != Some(v)
    ensures var f := Floor(t, i);
      t[f + 1].val == Some(v) ==> SetRangeCanon(t, i, i + 1, v) == t[f + 1 := Boundary(i, t[f + 1].val)]
    ensures var f := Floor(t, i);
      t[f + 1].val != Some(v) ==> SetRangeCanon(t, i, i + 1, v) == Insert(t, Boundary(i, Some(v)))
  {
    var b := Boundary(i, Some(v));
    var f := Floor(t, i);
    PointCanon(t, i, v);
    JoinNextEdits(t, i, v);
    if t[f + 1].val == Some(v) {
      ShortMiddle(t[..f + 1], b, t[f + 2..]);
    } else {
      ShortMiddle(t[..f + 1], b, t[f + 1..]);
    }
  }

  /** The edits of step.go:223-224. */
  lemma SplitMiddleEdits<V>(t: seq<Boundary<V>>, i: int, v: V)
    requires Valid(t) && t[0].pos <= i < t[|t| - 1].pos
    requires var f := Floor(t, i); t[f].pos < i && t[f + 1].pos > i + 1
    ensures var f := Floor(t, i);
      var b, resumed := Boundary(i, Some(v)), Boundary(i + 1, t[f].val);
      Insert(Insert(t, b), resumed) == t[..f + 1] + ([b] + [resumed]) + t[f + 1..]
  {
    var f := Floor(t, i);
    var b := Boundary(i, Some(v));
    var resumed := Boundary(i + 1, t[f].val);
    PointFacts(t, i);
    InsertAt(t, f + 1, b);
    var u := t[..f + 1] + [b] + t[f + 1..];
    SpliceSorted(t, f + 1, f + 1, [b]);
    assert u[f + 1] == b && u[f + 2] == t[f + 1];
    InsertAt(u, f + 2, resumed);
    InsertMiddle(t[..f + 1] + [b], t[f + 1..], resumed);
    PairMiddle(t[..f + 1], b, resumed, t[f + 1..]);
  }

  /** No boundary at i and the run goes on past i + 1: v goes in at i and
      the old value resumes at i + 1 (step.go:222-225). */
  lemma SetSplitMiddle<V>(t: seq<Boundary<V>>, i: int, v: V)
    requires Valid(t) && t[0].pos <= i < t[|t| - 1].pos
    requires var f := Floor(t, i); t[f].pos < i && t[f + 1].pos > i + 1 && t[f].val != Some(v)
    ensures var f := Floor(t, i);
      SetRangeCanon(t, i, i + 1, v) == Insert(Insert(t, Boundary(i, Some(v))), Boundary(i + 1, t[f].val))
  {
    PointCanon(t, i, v);
    SplitMiddleEdits(t, i, v);
  }

  /** Growing the domain downwards to p (step.go:142-161, 249-268): the first
      boundary moves down when it already holds w, and a new first boundary
      goes in otherwise. */
  lemma PrependEdits<V>(t: seq<Boundary<V>>, p: int, w: V)
    requires Valid(t) && p < t[0].pos
    ensures t[0].val == Some(w) ==> t[0 := Boundary(p, t[0].val)] == Prepend(t, p, w)
    ensures t[0].val != Some(w) ==> Insert(t, Boundary(p, Some(w))) == Prepend(t, p, w)
  {
    InsertAt(t, 0, Boundary(p, Some(w)));
    UpdateIs(t, 0, Boundary(p, Some(w)));
  }

  /** Growing the domain upwards to e (step.go:164-179, 271-286): the end
      sentinel moves up to e, the floor of any position from the old end on
      is the last run, and a boundary holding w goes in at the old end unless
      the last run already holds w. */
  lemma MoveEndEdits<V>(t: seq<Boundary<V>>, e: int, w: V, x: int)
    requires Valid(t) && t[|t| - 1].pos <= x < e
    ensures var n := |t|; Floor(t[n - 1 := Boundary(e, None)], x) == n - 2
    ensures var n := |t|; t[n - 1 := Boundary(e, None)][n - 2] == t[n - 2]
    ensures var n := |t|; t[n - 2].val == Some(w) ==> t[n - 1 := Boundary(e, None)] == Append(t, e, w)
    ensures var n := |t|;
      t[n - 2].val != Some(w) ==> Insert(t[n - 1 := Boundary(e, None)], Boundary(t[n - 1].pos, Some(w))) == Append(t, e, w)
  {
    var n := |t|;
    var last := Boundary(e, None);
    var u := t[n - 1 := last];
    UpdateIs(t, n - 1, last);
    assert u == t[..n - 1] + [last] + t[n..];
    Before(t, n - 2, n - 1);
    SpliceSorted(t, n - 1, n, [last]);
    assert u[n - 2] == t[n - 2] && u[n - 1] == last;
    FloorAt(u, x, n - 2);
    InsertAt(u, n - 1, Boundary(t[n - 1].pos, Some(w)));
    assert u[..n - 1] == t[..n - 1] && u[n - 1..] == [last];
    ShortMiddle(t[..n - 1], Boundary(t[n - 1].pos, Some(w)), [last]);
    assert t[..n - 1] + [] + [last] == t[..n - 1] + [last];
  }

  /** Writing v at [s, e) above a gap (step.go:170-179, 277-286): once the
      domain has grown to e with a run of zero, v goes in at s unless it is
      zero. */
  lemma GapAboveEdits<V>(t: seq<Boundary<V>>, s: int, e: int, zero: V, v: V)
    requires Valid(t) && t[|t| - 1].pos < s < e
    ensures var a := Append(t, e, zero); |a| >= 2 && a[|a| - 2].pos < s && a[|a| - 1].pos == e
    ensures v == zero ==> Append(t, e, zero) == ExtendAbove(t, s, e, v, zero)
    ensures v != zero ==> Insert(Append(t, e, zero), Boundary(s, Some(v))) == ExtendAbove(t, s, e, v, zero)
  {
    var n := |t|;
    AppendSound(t, e, zero);
    AppendSound(t, s, zero);
    var a := Append(t, e, zero);
    var b := Append(t, s, zero);
    var z := if t[n - 2].val == Some(zero) then [] else [Boundary(t[n - 1].pos, Some(zero))];
    assert a == t[..n - 1] + z + [Boundary(e, None)];
    assert b == t[..n - 1] + z + [Boundary(s, None)];
    assert b[..|b| - 1] == t[..n - 1] + z;
    assert b[|b| - 2].val == Some(zero);
    var m := |a|;
    Before(t, n - 2, n - 1);
    assert a[m - 2].pos < s;
    if v != zero {
      InsertAt(a, m - 1, Boundary(s, Some(v)));
      assert a[..m - 1] == t[..n - 1] + z && a[m - 1..] == [Boundary(e, None)];
    }
  }

  /** One deletion of step.go:295-297: with t[a..a + j] already gone, the
      next boundary of the range goes. */
  lemma CutStep<V>(t: seq<Boundary<V>>, a: int, b: int, j: int, cut: seq<Boundary<V>>, u: seq<Boundary<V>>)
    requires Sorted(t) && 0 <= a && 0 <= j && a + j < b <= |t|
    requires cut == t[a..b] && u == t[..a] + t[a + j..]
    ensures j < |cut| && Delete(u, cut[j].pos) == t[..a] + t[a + j + 1..]
  {
    assert cut[j] == t[a + j];
    assert Sorted(u) by {
      SpliceSorted(t, a, a + j, []);
      assert u == t[..a] + [] + t[a + j..];
    }
    assert u[a] == t[a + j];
    DeleteAt(u, a);
    DropAfter(t[..a], t[a + j..]);
    assert t[a + j..][1..] == t[a + j + 1..];
  }

  /** The effect of the range query and deletion loop of step.go:292-311
      on a write inside the domain: the boundaries in [s, e) are gone, the
      boundary that followed them is found by Ceil at e, and the boundary
      before s by Floor at s - 1. */
  lemma CutFacts<V>(t: seq<Boundary<V>>, s: int, e: int)
    requires Valid(t) && t[0].pos <= s < e <= t[|t| - 1].pos
    ensures var a, b := Ceil(t, s), Ceil(t, e); 0 <= a <= b < |t| && 0 < b
    ensures var a, b := Ceil(t, s), Ceil(t, e); a < b || 0 < a
    ensures var a, b := Ceil(t, s), Ceil(t, e); var u := t[..a] + t[b..];
      && Sorted(u) && |u| > a && u[a] == t[b] && Ceil(u, e) == a && Floor(u, s - 1) == a - 1
      && (a > 0 ==> u[a - 1] == t[a - 1])
  {
    var a, b := Ceil(t, s), Ceil(t, e);
    assert 0 < b < |t|;
    CeilMono(t, s, e);
    var u := t[..a] + t[b..];
    SpliceSorted(t, a, b, []);
    assert u == t[..a] + [] + t[b..];
    assert u[a] == t[b];
    if a > 0 {
      assert u[a - 1] == t[a - 1];
    }
    CeilBetween(u, e, a);
    FloorAt(u, s - 1, a - 1);
  }

  /** The pieces of the canonical range write once the boundaries of [s, e)
      are known: a is Ceil at s, b is Ceil at e. */
  lemma RangeParts<V>(t: seq<Boundary<V>>, s: int, e: int, v: V, a: int, b: int)
    requires Valid(t) && t[0].pos <= s < e <= t[|t| - 1].pos
    requires a == Ceil(t, s) && b == Ceil(t, e)
    ensures 0 <= a <= b < |t| && 0 < b && (a > 0 ==> t[a - 1].pos < s)
    ensures 0 < a && t[a - 1].val == Some(v) ==> Head(t, s, v) == []
    ensures a == 0 || t[a - 1].val != Some(v) ==> Head(t, s, v) == [Boundary(s, Some(v))]
    ensures t[b].pos == e ==> Tail(t, e, v) == []
    ensures t[b].pos != e ==> e < t[b].pos
    ensures t[b].pos != e && t[b - 1].val == Some(v) ==> Tail(t, e, v) == []
    ensures t[b].pos != e && t[b - 1].val != Some(v) ==> Tail(t, e, v) == [Boundary(e, t[b - 1].val)]
    ensures t[b].pos == e && t[b].val == Some(v) ==> Resume(t, e, v) == b + 1
    ensures t[b].pos != e || t[b].val != Some(v) ==> Resume(t, e, v) == b
  {
    assert t[|t| - 1].pos >= e;
    CeilMono(t, s, e);
  }

  /** Both neighbours of [s, e) hold v and a boundary sits at e: that
      boundary goes (step.go:321-322). */
  lemma RangeJoinBoth<V>(t: seq<Boundary<V>>, s: int, e: int, v: V, a: int, b: int)
    requires Valid(t) && t[0].pos <= s < e <= t[|t| - 1].pos
    requires a == Ceil(t, s) && b == Ceil(t, e) && t[b].pos == e
    requires t[b].val == Some(v) && 0 < a && t[a - 1].val == Some(v)
    ensures SetRangeCanon(t, s, e, v) == Delete(t[..a] + t[b..], e)
  {
    RangeParts(t, s, e, v, a, b);
    CutFacts(t, s, e);
    var u := t[..a] + t[b..];
    DeleteAt(u, a);
    DropAfter(t[..a], t[b..]);
    assert t[b..][1..] == t[b + 1..];
    ShortMiddle(t[..a], t[b], t[b + 1..]);
  }

  /** Only the boundary at e holds v: it moves down to s (step.go:325-326). */
  lemma RangeJoinNext<V>(t: seq<Boundary<V>>, s: int, e: int, v: V, a: int, b: int)
    requires Valid(t) && t[0].pos <= s < e <= t[|t| - 1].pos
    requires a == Ceil(t, s) && b == Ceil(t, e) && t[b].pos == e
    requires t[b].val == Some(v) && (a == 0 || t[a - 1].val != Some(v))
    ensures SetRangeCanon(t, s, e, v) == (t[..a] + t[b..])[a := Boundary(s, t[b].val)]
  {
    RangeParts(t, s, e, v, a, b);
    var u := t[..a] + t[b..];
    UpdateIs(u, a, Boundary(s, t[b].val));
    assert u[..a] == t[..a] && u[a + 1..] == t[b + 1..];
    ShortMiddle(t[..a], Boundary(s, Some(v)), t[b + 1..]);
  }

  /** Only the run before s holds v: nothing is written (step.go:323-324). */
  lemma RangeJoinPrev<V>(t: seq<Boundary<V>>, s: int, e: int, v: V, a: int, b: int)
    requires Valid(t) && t[0].pos <= s < e <= t[|t| - 1].pos
    requires a == Ceil(t, s) && b == Ceil(t, e) && t[b].pos == e
    requires t[b].val != Some(v) && 0 < a && t[a - 1].val == Some(v)
    ensures SetRangeCanon(t, s, e, v) == t[..a] + t[b..]
  {
    RangeParts(t, s, e, v, a, b);
    ShortMiddle(t[..a], t[b], t[b..]);
  }

  /** Neither neighbour holds v: v goes in at s (step.go:327-333). */
  lemma RangeJoinNone<V>(t: seq<Boundary<V>>, s: int, e: int, v: V, a: int, b: int)
    requires Valid(t) && t[0].pos <= s < e <= t[|t| - 1].pos
    requires a == Ceil(t, s) && b == Ceil(t, e) && t[b].pos == e
    requires t[b].val != Some(v) && (a == 0 || t[a - 1].val != Some(v))
    ensures SetRangeCanon(t, s, e, v) == Insert(t[..a] + t[b..], Boundary(s, Some(v)))
  {
    RangeParts(t, s, e, v, a, b);
    CutFacts(t, s, e);
    var u := t[..a] + t[b..];
    InsertAt(u, a, Boundary(s, Some(v)));
    assert u[..a] == t[..a] && u[a..] == t[b..];
    ShortMiddle(t[..a], Boundary(s, Some(v)), t[b..]);
  }

  /** e falls inside a run that holds v: at most v goes in at s
      (step.go:335-346). */
  lemma RangeRunSame<V>(t: seq<Boundary<V>>, s: int, e: int, v: V, a: int, b: int)
    requires Valid(t) && t[0].pos <= s < e <= t[|t| - 1].pos
    requires a == Ceil(t, s) && b == Ceil(t, e) && t[b].pos != e && t[b - 1].val == Some(v)
    ensures 0 < a && t[a - 1].val == Some(v) ==> SetRangeCanon(t, s, e, v) == t[..a] + t[b..]
    ensures a == 0 || t[a - 1].val != Some(v) ==>
      SetRangeCanon(t, s, e, v) == Insert(t[..a] + t[b..], Boundary(s, Some(v)))
  {
    RangeParts(t, s, e, v, a, b);
    CutFacts(t, s, e);
    var u := t[..a] + t[b..];
    ShortMiddle(t[..a], Boundary(s, Some(v)), t[b..]);
    if a == 0 || t[a - 1].val != Some(v) {
      InsertAt(u, a, Boundary(s, Some(v)));
      assert u[..a] == t[..a] && u[a..] == t[b..];
    }
  }

  /** Inserting a boundary into the gap left by cutting out t[a..b]. */
  lemma InsertCut<V>(t: seq<Boundary<V>>, a: int, b: int, w: Boundary<V>)
    requires Sorted(t) && 0 <= a <= b < |t|
    requires a > 0 ==> t[a - 1].pos < w.pos
    requires w.pos < t[b].pos
    ensures Insert(t[..a] + t[b..], w) == t[..a] + [w] + t[b..]
    ensures Sorted(t[..a] + [w] + t[b..])
  {
    var u := t[..a] + t[b..];
    assert u == t[..a] + [] + t[b..];
    SpliceSorted(t, a, b, []);
    InsertAt(u, a, w);
    assert u[..a] == t[..a] && u[a..] == t[b..];
    SpliceSorted(t, a, b, [w]);
  }

  /** Inserting a second boundary just before the one placed in the gap. */
  lemma InsertCutBefore<V>(t: seq<Boundary<V>>, a: int, b: int, x: Boundary<V>, w: Boundary<V>)
    requires Sorted(t) && 0 <= a <= b < |t|
    requires a > 0 ==> t[a - 1].pos < x.pos
    requires x.pos < w.pos < t[b].pos
    ensures Insert(t[..a] + [w] + t[b..], x) == t[..a] + ([x] + [w]) + t[b..]
  {
    var u2 := t[..a] + [w] + t[b..];
    assert Sorted(u2) by { InsertCut(t, a, b, w); }
    assert |t[..a]| == a && u2[a] == w && (a > 0 ==> u2[a - 1] == t[a - 1]);
    InsertAt(u2, a, x);
    InsertBefore(t[..a], w, t[b..], x);
  }

  /** Inserting the run's value at e into the cut store. */
  lemma RangeRestore<V>(t: seq<Boundary<V>>, s: int, e: int, a: int, b: int)
    requires Valid(t) && t[0].pos <= s < e <= t[|t| - 1].pos
    requires a == Ceil(t, s) && b == Ceil(t, e) && t[b].pos != e
    ensures 0 < b
    ensures Insert(t[..a] + t[b..], Boundary(e, t[b - 1].val)) == t[..a] + [Boundary(e, t[b - 1].val)] + t[b..]
    ensures Sorted(t[..a] + [Boundary(e, t[b - 1].val)] + t[b..])
  {
    assert t[|t| - 1].pos >= e;
    CeilMono(t, s, e);
    if a > 0 {
      assert t[a - 1].pos < s;
    }
    InsertCut(t, a, b, Boundary(e, t[b - 1].val));
  }

  /** e falls inside a run that does not hold v: that run's value comes back
      at e, and v goes in at s unless the run before s holds it
      (step.go:335-346). */
  lemma RangeRunOther<V>(t: seq<Boundary<V>>, s: int, e: int, v: V, a: int, b: int)
    requires Valid(t) && t[0].pos <= s < e <= t[|t| - 1].pos
    requires a == Ceil(t, s) && b == Ceil(t, e) && t[b].pos != e && t[b - 1].val != Some(v)
    ensures 0 < a && t[a - 1].val == Some(v) ==>
      SetRangeCanon(t, s, e, v) == Insert(t[..a] + t[b..], Boundary(e, t[b - 1].val))
    ensures a == 0 || t[a - 1].val != Some(v) ==>
      SetRangeCanon(t, s, e, v) ==
        Insert(Insert(t[..a] + t[b..], Boundary(e, t[b - 1].val)), Boundary(s, Some(v)))
  {
    RangeParts(t, s, e, v, a, b);
    RangeRestore(t, s, e, a, b);
    var w := Boundary(e, t[b - 1].val);
    ShortMiddle(t[..a], w, t[b..]);
    if a == 0 || t[a - 1].val != Some(v) {
      if a > 0 {
        assert t[a - 1].pos < s;
      }
      InsertCutBefore(t, a, b, Boundary(s, Some(v)), w);
    }
  }
}
