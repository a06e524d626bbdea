// Members that follow step.go as it is written where it departs from what
// it evidently intends, each with an input that shows the difference.  The
// rest of the model uses the corrected behaviour (StepVector.Vector).

module Findings {
  import opened Store
  import opened Runs
  import opened Transforms
  import opened Writes

  /** The edits of SetRange once its guard has let a range through
      (step.go:290-361), as written: the range's boundaries are deleted, lo
      is the first of them (or the boundary before start when there is
      none), la the last of them (or a copy of lo), and hi the boundary
      found at or after end.  The branch taken when start is not lo's
      position (step.go:347-361) never looks at the value before start.
      The range need only end inside the extent: step.go:243 refuses a
      range only when it misses the extent altogether. */
  function RewriteAsWritten<V(==)>(t: seq<Boundary<V>>, s: int, e: int, v: V): seq<Boundary<V>>
    requires Valid(t) && s < e && t[0].pos < e <= t[|t| - 1].pos
  {
    CeilMono(t, s, e);
    var a, b := Ceil(t, s), Ceil(t, e);
    var u := t[..a] + t[b..];
    var lo := if a < b then t[a] else t[a - 1];
    var la := if a < b then t[b - 1] else t[a - 1];
    var hi := t[b];
    if s == lo.pos then
      var prevSame := a > 0 && t[a - 1].val == Some(v);
      var hiSame := hi.val == Some(v);
      if hi.pos == e then
        if hiSame && prevSame then Delete(u, e)
        else if prevSame then u
        else if hiSame then u[a := Boundary(s, hi.val)]
        else Insert(u, Boundary(s, Some(v)))
      else
        var w := if la.val != Some(v) then Insert(u, Boundary(e, la.val)) else u;
        if prevSame then w else Insert(w, Boundary(s, Some(v)))
    else if hi.pos == e then
      if hi.val == Some(v) then u[a := Boundary(s, hi.val)] else Insert(u, Boundary(s, Some(v)))
    else
      var w := Insert(u, Boundary(s, Some(v)));
      if la.val != Some(v) then Insert(w, Boundary(e, la.val)) else w
  }

  /** The range guard of SetRange as written (step.go:243): only a range
      that misses [min, max) altogether is refused. */
  predicate RefusedAsWritten(s: int, e: int, min: int, max: int) {
    e <= min || max <= s
  }

  /** Writing the value already held, inside a run and away from its ends,
      leaves a boundary between two runs of the same value: the result is
      not canonical.  The corrected write (StepVector.Vector.SetRangeInside)
      leaves the store as it was. */
  lemma RedundantBoundary()
    ensures var t := [Boundary(1, Some(0)), Boundary(10, None)];
      && Valid(t)
      && RewriteAsWritten(t, 2, 4, 0) == [Boundary(1, Some(0)), Boundary(2, Some(0)), Boundary(10, None)]
      && !Valid(RewriteAsWritten(t, 2, 4, 0))
      && SetRangeCanon(t, 2, 4, 0) == t
  {
    var t := [Boundary(1, Some(0)), Boundary(10, None)];
    assert Differs(t, 1);
    assert Ceil(t, 2) == 1 && Ceil(t, 4) == 1;
    var r := RewriteAsWritten(t, 2, 4, 0);
    assert Insert(t, Boundary(2, Some(0))) == [Boundary(1, Some(0)), Boundary(2, Some(0)), Boundary(10, None)];
    assert !Differs(r, 1);
  }

  /** A range that starts below a vector that is not relaxed and ends
      inside it passes the guard, and the in-domain write puts a boundary
      at the start of the range, below the vector.  The old first boundary,
      the one min refers to, is the last boundary deleted and is put back
      at the end of the range (step.go:356-359), so the tree starts at -10
      while Start() reads 5.  A relaxed vector takes the same path instead
      of growing.  The corrected SetRange (StepVector.Vector.SetRange)
      refuses the range when the vector is not relaxed, and grows a relaxed
      one (StepVector.Vector.GrowOver). */
  lemma PartialOverlapGrows()
    ensures var t := [Boundary(1, Some(0)), Boundary(10, None)];
      && Valid(t)
      && !RefusedAsWritten(-10, 5, t[0].pos, t[|t| - 1].pos)
      && RewriteAsWritten(t, -10, 5, 1) == [Boundary(-10, Some(1)), Boundary(5, Some(0)), Boundary(10, None)]
  {
    var t := [Boundary(1, Some(0)), Boundary(10, None)];
    assert Differs(t, 1);
    assert Ceil(t, -10) == 0 && Ceil(t, 5) == 1;
    var u := t[1..];
    assert Insert(u, Boundary(-10, Some(1))) == [Boundary(-10, Some(1)), Boundary(10, None)];
    var w := [Boundary(-10, Some(1)), Boundary(10, None)];
    assert Ceil(w, 5) == 1;
    assert Insert(w, Boundary(5, Some(0))) == [Boundary(-10, Some(1)), Boundary(5, Some(0)), Boundary(10, None)];
  }

  /** A range that starts inside the vector and ends above it also passes
      the guard, and its deletions take the end boundary: nothing is left
      at or after the end of the range, so the boundary step.go:311 reads
      there is missing and its type assertion panics. */
  lemma OverlapAboveLosesEnd()
    ensures var t := [Boundary(1, Some(0)), Boundary(10, None)];
      && Valid(t)
      && !RefusedAsWritten(5, 20, t[0].pos, t[|t| - 1].pos)
      && var u := t[..Ceil(t, 5)] + t[Ceil(t, 20)..];
         u == [Boundary(1, Some(0))] && Ceil(u, 20) == |u|
  {
    var t := [Boundary(1, Some(0)), Boundary(10, None)];
    assert Differs(t, 1);
    assert Ceil(t, 5) == 1 && Ceil(t, 20) == 2;
    var u := t[..1] + t[2..];
    assert u == [Boundary(1, Some(0))];
    assert Ceil(u, 20) == 1;
  }

  /** Mapping a single position with a mapper that keeps its value leaves
      the store as it was: the one-position range goes through Set, whose
      early return keeps the value already there (step.go:185-188). */
  lemma OnePositionKept()
    ensures var t := [Boundary(1, Some(0)), Boundary(10, None)];
      Valid(t) && ApplyRangeAsWritten(t, (x: int) => x, 2, 3) == t
  {
    var t := [Boundary(1, Some(0)), Boundary(10, None)];
    assert Differs(t, 1);
    assert Floor(t, 2) == 0;
    assert MapOpt((x: int) => x, t[0].val) == Some(0);
    SetUnchanged(t, 2, 0);
  }

  /** The boundaries of w with the queued positions deleted, in queue order
      (step.go:510-512). */
  function DeleteAll<V>(w: seq<Boundary<V>>, q: seq<int>): seq<Boundary<V>>
    decreases |q|
  {
    if |q| == 0 then w else DeleteAll(Delete(w, q[0]), q[1..])
  }

  /** The walk of ApplyRange as written (step.go:487-499): from index k on,
      up to to and stopping at max, each value is mapped and a position
      whose new value equals the previous new value la is queued, except at
      min.  prev is the last boundary visited, as it was before mapping.
      The result is the new store, the queue, la and prev. */
  function MapWalkAsWritten<V(==)>(w: seq<Boundary<V>>, m: V -> V, k: int, to: int, max: int, min: int,
                               la: Option<V>, prev: Boundary<V>, q: seq<int>)
    : (seq<Boundary<V>>, seq<int>, Option<V>, Boundary<V>)
    requires 0 <= k <= |w|
    decreases |w| - k
  {
    if k == |w| || w[k].pos >= to || w[k].pos == max then (w, q, la, prev)
    else
      var p := Boundary(w[k].pos, MapOpt(m, w[k].val));
      var q' := if p.pos != min && p.val == la then q + [p.pos] else q;
      MapWalkAsWritten(w[k := p], m, k + 1, to, max, min, p.val, w[k], q')
  }

  /** The fix-up after the walk as written (step.go:501-508): when to is
      inside the vector, the boundary p at or after to either gets a new
      boundary at to before it carrying prev's value, when p is past to and
      its value differs from prev's, or is queued when its value equals la. */
  function TailAsWritten<V(==)>(w: seq<Boundary<V>>, to: int, max: int, la: Option<V>, prev: Boundary<V>, q: seq<int>)
    : (seq<Boundary<V>>, seq<int>)
  {
    var c := Ceil(w, to);
    if to < max && c < |w| then
      var p := w[c];
      if p.pos > to && p.val != prev.val then (Insert(w, Boundary(to, prev.val)), q)
      else if p.val == la then (w, q + [p.pos])
      else (w, q)
    else (w, q)
  }

  /** ApplyRange as written (step.go:461-515), for a range that starts
      inside the vector.  A range inside one run is handed to SetRange
      (step.go:479-481): a range of one position goes on to Set
      (step.go:236-238), whose in-domain write is exactly the canonical one
      (StepVector.Vector.SetInside), and a longer one to the in-domain edits
      of SetRange.  Otherwise the first run's new value goes in at from,
      with no check against the value before from, and the walk and fix-up
      follow. */
  ghost function ApplyRangeAsWritten<V>(t: seq<Boundary<V>>, m: V -> V, from: int, to: int): seq<Boundary<V>>
    requires Valid(t) && t[0].pos <= from < to && from < t[|t| - 1].pos
  {
    var f := Floor(t, from);
    var end := t[f + 1].pos;
    assert end <= t[|t| - 1].pos by {
      if f + 1 < |t| - 1 {
        Before(t, f + 1, |t| - 1);
      }
    }
    var la := MapOpt(m, t[f].val);
    if to <= end then
      if to - from == 1 then SetRangeCanon(t, from, to, la.value) else RewriteAsWritten(t, from, to, la.value)
    else
      var w := if la != t[f].val then Insert(t, Boundary(from, la)) else t;
      var (w1, q1, la1, prev) := MapWalkAsWritten(w, m, Ceil(w, end), to, t[|t| - 1].pos, t[0].pos, la, t[f], []);
      var (w2, q2) := TailAsWritten(w1, to, t[|t| - 1].pos, la1, prev, q1);
      DeleteAll(w2, q2)
  }

  /** Decrementing from a boundary whose run then matches the run before
      it leaves the two runs apart: nothing queues from itself
      (step.go:484-486).  The corrected ApplyRange
      (StepVector.Vector.SplitHead) merges them. */
  lemma HeadNotMerged()
    ensures var t := [Boundary(1, Some(0)), Boundary(3, Some(1)), Boundary(5, Some(2)), Boundary(10, None)];
      && Valid(t)
      && ApplyRangeAsWritten(t, x => x - 1, 3, 10)
         == [Boundary(1, Some(0)), Boundary(3, Some(0)), Boundary(5, Some(1)), Boundary(10, None)]
      && !Valid(ApplyRangeAsWritten(t, x => x - 1, 3, 10))
  {
    var t := [Boundary(1, Some(0)), Boundary(3, Some(1)), Boundary(5, Some(2)), Boundary(10, None)];
    assert Differs(t, 1) && Differs(t, 2) && Differs(t, 3);
    var m := (x: int) => x - 1;
    assert Floor(t, 3) == 1;
    var w := [Boundary(1, Some(0)), Boundary(3, Some(0)), Boundary(5, Some(2)), Boundary(10, None)];
    assert Insert(t, Boundary(3, Some(0))) == w;
    assert Ceil(w, 5) == 2;
    var w1 := w[2 := Boundary(5, Some(1))];
    assert MapWalkAsWritten(w, m, 2, 10, 10, 1, Some(0), t[1], []) == MapWalkAsWritten(w1, m, 3, 10, 10, 1, Some(1), w[2], []);
    var r := [Boundary(1, Some(0)), Boundary(3, Some(0)), Boundary(5, Some(1)), Boundary(10, None)];
    assert w1 == r;
    assert !Differs(r, 1);
  }

  /** Ending a range inside a run whose value the mapper keeps splits the
      run at to anyway: the fix-up compares the next boundary's value with
      prev's, which differ in every canonical store, instead of the last
      new value (step.go:503).  The corrected ApplyRange
      (StepVector.Vector.RestoreTail) leaves the run whole. */
  lemma TailSplitsRun()
    ensures var t := [Boundary(1, Some(0)), Boundary(5, Some(1)), Boundary(10, Some(2)), Boundary(20, None)];
      && Valid(t)
      && ApplyRangeAsWritten(t, x => x, 6, 15)
         == [Boundary(1, Some(0)), Boundary(5, Some(1)), Boundary(10, Some(2)), Boundary(15, Some(2)), Boundary(20, None)]
      && !Valid(ApplyRangeAsWritten(t, x => x, 6, 15))
  {
    var t := [Boundary(1, Some(0)), Boundary(5, Some(1)), Boundary(10, Some(2)), Boundary(20, None)];
    assert Differs(t, 1) && Differs(t, 2) && Differs(t, 3);
    var m := (x: int) => x;
    assert Floor(t, 6) == 1;
    assert Ceil(t, 10) == 2;
    assert MapOpt(m, t[2].val) == Some(2) && t[2 := Boundary(10, Some(2))] == t;
    assert MapWalkAsWritten(t, m, 2, 15, 20, 1, Some(1), t[1], []) == MapWalkAsWritten(t, m, 3, 15, 20, 1, Some(2), t[2], []);
    assert Ceil(t, 15) == 3;
    var r := [Boundary(1, Some(0)), Boundary(5, Some(1)), Boundary(10, Some(2)), Boundary(15, Some(2)), Boundary(20, None)];
    assert Insert(t, Boundary(15, Some(2))) == r;
    assert !Differs(r, 3);
  }

  /** A step as DoRange as written reports it: its value may be missing. */
  datatype RawStep<V> = RawStep(start: int, end: int, val: Option<V>)

  /** The walk of DoRange as written from index j on (step.go:399-409):
      each boundary before to reports the run that ends at it, and the last
      one visited reports the run from it up to to, whatever its value. */
  function ReportFrom<V>(t: seq<Boundary<V>>, j: int, to: int): seq<RawStep<V>>
    requires 0 < j <= |t|
    decreases |t| - j
  {
    if j == |t| || t[j].pos >= to then
      if to > t[j - 1].pos then [RawStep(t[j - 1].pos, to, t[j - 1].val)] else []
    else [RawStep(t[j - 1].pos, t[j].pos, t[j - 1].val)] + ReportFrom(t, j + 1, to)
  }

  /** DoRange as written (step.go:385-413), for a range that starts inside
      the vector: None where it dereferences a missing step.  The first run
      is reported whole, up to its own end, and when to is within it the
      walk visits nothing and the final report reads a nil step. */
  function DoRangeAsWritten<V>(t: seq<Boundary<V>>, from: int, to: int): Option<seq<RawStep<V>>>
    requires Valid(t) && t[0].pos <= from < t[|t| - 1].pos && from <= to
  {
    var f := Floor(t, from);
    var end := t[f + 1].pos;
    if to <= end then None
    else Some([RawStep(from, end, t[f].val)] + ReportFrom(t, f + 2, to))
  }

  /** A range inside one run fails as written.  The corrected DoRange
      (StepVector.Vector.DoRange) reports the one step [from, to). */
  lemma RangeInOneRun()
    ensures var t := [Boundary(1, Some(0)), Boundary(10, None)];
      Valid(t) && DoRangeAsWritten(t, 2, 4).None?
  {
    var t := [Boundary(1, Some(0)), Boundary(10, None)];
    assert Differs(t, 1);
    assert Floor(t, 2) == 0;
  }

  /** A range that runs past the end reports a last step with no value.
      The corrected DoRange stops at the end of the vector. */
  lemma RangePastEnd()
    ensures var t := [Boundary(1, Some(0)), Boundary(10, None)];
      && Valid(t)
      && DoRangeAsWritten(t, 5, 20) == Some([RawStep(5, 10, Some(0)), RawStep(10, 20, None)])
  {
    var t := [Boundary(1, Some(0)), Boundary(10, None)];
    assert Differs(t, 1);
    assert Floor(t, 5) == 0;
    assert ReportFrom(t, 2, 20) == [RawStep(10, 20, None)];
    assert [RawStep(5, 10, Some(0))] + [RawStep(10, 20, None)] == [RawStep(5, 10, Some(0)), RawStep(10, 20, None)];
  }
}
