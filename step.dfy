/** A step vector: an array over a contiguous index range [Start, End),
    stored run-length encoded as the boundaries where its value changes.

    A Vector keeps its ground value (zero), the switch that lets writes
    outside the range grow it (relaxed), and the ordered boundary store t.
    Writes keep the store canonical: no two adjacent runs hold the same
    value, so the encoding of an array is unique. */
module StepVector {
  import opened Store
  import opened Runs
  import opened Writes
  import opened Walks
  import opened Transforms
  import opened RangeMaps

  /** The three errors the original reports. */
  datatype Error = ErrOutOfRange | ErrInvertedRange | ErrZeroLength

  datatype Result<T> = Ok(value: T) | Err(error: Error)

  /** The outcome of a write: the original panics where Fail is returned. */
  datatype Outcome = Pass | Fail(error: Error)

  class Vector<V(==)> {
    var zero: V
    var relaxed: bool
    var t: seq<Boundary<V>>

    ghost predicate Valid()
      reads this
    {
      Runs.Valid(t)
    }

    /** A vector over [start, end) holding zero everywhere (step.go:77-97). */
    constructor (start: int, end: int, zero: V)
      requires start < end
      ensures Valid() && this.zero == zero && !relaxed
      ensures t == [Boundary(start, Some(zero)), Boundary(end, None)]
      ensures forall x :: ValueAt(t, x) == if start <= x < end then Some(zero) else None
    {
      this.zero := zero;
      relaxed := false;
      t := [Boundary(start, Some(zero)), Boundary(end, None)];
      new;
      forall x ensures ValueAt(t, x) == if start <= x < end then Some(zero) else None {
        FloorValue(t, x);
      }
    }

    /** New refuses an empty or inverted extent (step.go:79-81). */
    static method New(start: int, end: int, zero: V) returns (r: Result<Vector<V>>)
      ensures r.Err? <==> start >= end
      ensures r.Err? ==> r.error == ErrZeroLength
      ensures r.Ok? ==> fresh(r.value) && r.value.Valid() && r.value.zero == zero && !r.value.relaxed
      ensures r.Ok? ==> forall x :: ValueAt(r.value.t, x) == if start <= x < end then Some(zero) else None
    {
      if start >= end {
        return Err(ErrZeroLength);
      }
      var v := new Vector(start, end, zero);
      return Ok(v);
    }

    /** The least position holding a value (step.go:100). */
    function Start(): (r: int)
      reads this
      requires Valid()
      ensures ValueAt(t, r).Some?
      ensures forall x :: x < r ==> ValueAt(t, x).None?
    {
      DomainAll(t);
      t[0].pos
    }

    /** The least position past the last one holding a value (step.go:103). */
    function End(): (r: int)
      reads this
      requires Valid()
      ensures ValueAt(t, r - 1).Some?
      ensures forall x :: x >= r ==> ValueAt(t, x).None?
    {
      DomainAll(t);
      t[|t| - 1].pos
    }

    /** The number of positions holding a value (step.go:107). */
    function Len(): (r: int)
      reads this
      requires Valid()
      ensures r >= 1
      ensures forall x :: ValueAt(t, x).Some? <==> Start() <= x < Start() + r
    {
      DomainAll(t);
      End() - Start()
    }

    /** The number of runs (step.go:110): at least one, at most one per
        position, and one less than the number of positions where the
        array changes value. */
    function Count(): (r: int)
      reads this
      requires Valid()
      ensures 1 <= r <= Len()
      ensures r + 1 == |Positions(t)|
      ensures forall x :: x in Positions(t) <==> ValueAt(t, x - 1) != ValueAt(t, x)
    {
      Span(t);
      PositionsCount(t);
      ChangePoints(t);
      |t| - 1
    }

    /** The value at i, or ErrOutOfRange outside [Start, End) (step.go:114-120). */
    function At(i: int): (r: Result<V>)
      reads this
      requires Valid()
      ensures r.Ok? <==> Start() <= i < End()
      ensures r.Err? ==> r.error == ErrOutOfRange
      ensures r.Ok? ==> ValueAt(t, i) == Some(r.value)
    {
      if i < t[0].pos || i >= t[|t| - 1].pos then Err(ErrOutOfRange)
      else
        FloorValue(t, i);
        Ok(t[Floor(t, i)].val.value)
    }
 
    /** The run holding i, with its value and extent, or ErrOutOfRange
        outside [Start, End) (step.go:124-131).  The run is maximal. */
    function StepAt(i: int): (r: Result<Step<V>>)
      reads this
      requires Valid()
      ensures r.Ok? <==> Start() <= i < End()
      ensures r.Err? ==> r.error == ErrOutOfRange
      ensures r.Ok? ==> r.value.start <= i < r.value.end
      ensures r.Ok? ==> forall x :: r.value.start <= x < r.value.end ==> ValueAt(t, x) == Some(r.value.val)
      ensures r.Ok? ==> ValueAt(t, r.value.start - 1) != Some(r.value.val)
      ensures r.Ok? ==> ValueAt(t, r.value.end) != Some(r.value.val)
    {
      if i < t[0].pos || i >= t[|t| - 1].pos then Err(ErrOutOfRange)
      else
        PointFacts(t, i);
        var lo := Floor(t, i);
        var hi := Ceil(t, i + 1);
        StepRun(t, lo);
        Ok(Step(t[lo].pos, t[hi].pos, t[lo].val.value))
    }

    /** The runs of the vector in ascending order (step.go:366-380).  The walk
        visits every boundary and reports, at each one after the first, the
        run that ends there. */
    method Do() returns (steps: seq<Step<V>>)
      requires Valid()
      ensures Reports(t, steps, Start(), End())
    {
      var min, max := t[0].pos, t[|t| - 1].pos;
      var la := t[0];
      steps := [];
      var j := 0;
      while j < |t|
        invariant 0 <= j <= |t|
        invariant j > 0 ==> la == t[j - 1]
        invariant |steps| == if j == 0 then 0 else j - 1
        invariant Clipped(t, steps, 0, min, max)
      {
        var p := t[j];
        if j > 0 {
          Before(t, 0, j);
          if j - 1 > 0 {
            Before(t, 0, j - 1);
          }
          if j < |t| - 1 {
            Before(t, j, |t| - 1);
          }
        }
        if p.pos != min {
          steps := steps + [Step(la.pos, p.pos, la.val.value)];
        }
        la := p;
        j := j + 1;
      }
      Before(t, 0, |t| - 1);
      CeilAt(t, 0);
      CeilAt(t, |t| - 1);
      ClippedReports(t, steps, min, max);
    }

    /** The runs of the vector over [from, to), the first and last cut at the
        two ends (step.go:385-413).  The range is cut to [Start, End); a range
        that is inverted or misses the vector is refused. */
    method DoRange(from: int, to: int) returns (r: Result<seq<Step<V>>>)
      requires Valid()
      ensures r.Err? <==> to < from || to <= Start() || from >= End()
      ensures r.Err? ==> r.error == if to < from then ErrInvertedRange else ErrOutOfRange
      ensures r.Ok? ==> Reports(t, r.value, Max(from, Start()), Min(to, End()))
    {
      if to < from {
        return Err(ErrInvertedRange);
      }
      var min, max := t[0].pos, t[|t| - 1].pos;
      if to <= min || from >= max {
        return Err(ErrOutOfRange);
      }
      var lo, hi := Max(from, min), Min(to, max);
      Before(t, 0, |t| - 1);
      if lo == hi {
        return Ok([]);
      }
      var steps := WalkRange(t, lo, hi);
      return Ok(steps);
    }

    /** The walk of DoRange over [lo, hi) inside the vector: the run holding
        lo, cut at lo, then the runs starting in (lo, hi), the last one cut
        at hi (step.go:397-410). */
    static method WalkRange(t: seq<Boundary<V>>, lo: int, hi: int) returns (steps: seq<Step<V>>)
      requires Runs.Valid(t) && t[0].pos <= lo < hi <= t[|t| - 1].pos
      ensures Reports(t, steps, lo, hi)
    {
      var f := Floor(t, lo);
      var end := t[f + 1].pos;
      steps := [Step(lo, Min(end, hi), t[f].val.value)];
      var la := t[f + 1];
      var j := f + 2;
      while j < |t| && t[j].pos < hi
        invariant f + 2 <= j <= |t|
        invariant la == t[j - 1] && (j > f + 2 ==> la.pos < hi)
        invariant |steps| == j - 1 - f
        invariant Clipped(t, steps, f, lo, hi)
      {
        if j - 1 > f + 1 {
          Before(t, f + 1, j - 1);
        }
        steps := steps + [Step(la.pos, t[j].pos, la.val.value)];
        la := t[j];
        j := j + 1;
      }
      if la.pos < hi {
        if j - 1 > f + 1 {
          Before(t, f + 1, j - 1);
        }
        steps := steps + [Step(la.pos, hi, la.val.value)];
        CeilBetween(t, hi, j);
      } else {
        CeilBetween(t, hi, j - 1);
      }
      ClippedReports(t, steps, lo, hi);
    }

    /** Writes v at position i (step.go:135-227).  Outside [Start, End) a
        relaxed vector grows to take i in, filling any gap with zero; a
        vector that is not relaxed refuses.  Inside, the branches of the
        original move, overwrite, merge or insert boundaries so that the
        store stays canonical. */
    method Set(i: int, v: V) returns (o: Outcome)
      requires Valid()
      modifies this
      ensures Valid() && zero == old(zero) && relaxed == old(relaxed)
      ensures o.Fail? <==> !relaxed && !(old(Start()) <= i < old(End()))
      ensures o.Fail? ==> o.error == ErrOutOfRange && t == old(t)
      ensures o.Pass? ==> Start() == Min(i, old(Start())) && End() == Max(i + 1, old(End()))
      ensures o.Pass? ==> forall x :: ValueAt(t, x) == Overwritten(old(t), i, i + 1, v, zero, x)
      ensures old(ValueAt(t, i)) == Some(v) ==> t == old(t)
    {
      ghost var t0 := t;
      Domain(t, i);
      if i < t[0].pos || t[|t| - 1].pos <= i {
        if !relaxed {
          return Fail(ErrOutOfRange);
        }
        if i < t[0].pos {
          GrowBelow(i, i + 1, v);
        } else {
          GrowAbove(i, i + 1, v);
        }
        return Pass;
      }
      SetInside(i, v);
      return Pass;
    }

    /** Grows the vector downwards so that [s, e) holds v, with any gap up to
        the old start holding zero (step.go:142-161 for one position,
        step.go:249-268 for a range): the first boundary moves down when it
        already holds the value wanted, and a new first boundary goes in
        otherwise. */
    method GrowBelow(s: int, e: int, v: V)
      requires Valid() && s < e <= t[0].pos
      modifies this
      ensures Valid() && t[0].pos == s && t[|t| - 1].pos == old(t[|t| - 1].pos)
      ensures forall x :: ValueAt(t, x) == Overwritten(old(t), s, e, v, zero, x)
      ensures zero == old(zero) && relaxed == old(relaxed)
    {
      ghost var r := ExtendBelow(t, s, e, v, zero);
      ExtendBelowSound(t, s, e, v, zero);
      var u := t;
      if e == u[0].pos {
        PrependEdits(u, s, v);
        if u[0].val == Some(v) {
          u := u[0 := Boundary(s, u[0].val)];
        } else {
          u := Insert(u, Boundary(s, Some(v)));
        }
      } else {
        PrependEdits(u, e, zero);
        PrependSound(u, e, zero);
        if u[0].val == Some(zero) {
          u := u[0 := Boundary(e, u[0].val)];
        } else {
          u := Insert(u, Boundary(e, Some(zero)));
        }
        PrependEdits(u, s, v);
        if v == zero {
          u := u[0 := Boundary(s, u[0].val)];
        } else {
          u := Insert(u, Boundary(s, Some(v)));
        }
      }
      assert u == r;
      t := u;
    }

    /** Grows the vector upwards so that [s, e) holds v, with any gap from
        the old end holding zero (step.go:163-180 for one position,
        step.go:270-287 for a range): the end sentinel moves up to e, and
        boundaries go in where the run before them holds another value. */
    method GrowAbove(s: int, e: int, v: V)
      requires Valid() && t[|t| - 1].pos <= s < e
      modifies this
      ensures Valid() && t[0].pos == old(t[0].pos) && t[|t| - 1].pos == e
      ensures forall x :: ValueAt(t, x) == Overwritten(old(t), s, e, v, zero, x)
      ensures zero == old(zero) && relaxed == old(relaxed)
    {
      ghost var r := ExtendAbove(t, s, e, v, zero);
      ExtendAboveSound(t, s, e, v, zero);
      var u := t;
      var n := |u|;
      var mpos := u[n - 1].pos;
      if s == mpos {
        MoveEndEdits(u, e, v, s);
        u := u[n - 1 := Boundary(e, None)];
        var prev := Floor(u, s);
        if u[prev].val != Some(v) {
          u := Insert(u, Boundary(s, Some(v)));
        }
      } else {
        MoveEndEdits(u, e, zero, s);
        GapAboveEdits(u, s, e, zero, v);
        u := u[n - 1 := Boundary(e, None)];
        var prev := Floor(u, s);
        if u[prev].val != Some(zero) {
          u := Insert(u, Boundary(mpos, Some(zero)));
        }
        if v != zero {
          u := Insert(u, Boundary(s, Some(v)));
        }
      }
      assert u == r;
      t := u;
    }

    /** Writes v at a position i inside [Start, End) (step.go:185-226):
        nothing changes when the run at i already holds v. */
    method SetInside(i: int, v: V)
      requires Valid() && t[0].pos <= i < t[|t| - 1].pos
      modifies this
      ensures t == SetRangeCanon(old(t), i, i + 1, v)
      ensures Valid() && t[0].pos == old(t[0].pos) && t[|t| - 1].pos == old(t[|t| - 1].pos)
      ensures forall x :: ValueAt(t, x) == Overwritten(old(t), i, i + 1, v, zero, x)
      ensures old(ValueAt(t, i)) == Some(v) ==> t == old(t)
      ensures zero == old(zero) && relaxed == old(relaxed)
    {
      InsideSound(t, i, i + 1, v, zero);
      PointFacts(t, i);
      FloorValue(t, i);
      var f := Floor(t, i);
      if t[f].val == Some(v) {
        SetUnchanged(t, i, v);
        return;
      }
      if t[f].pos == i {
        SetAtBoundary(i, v);
      } else {
        SetInRun(i, v);
      }
    }

    /** Writes v at a position i where a run starts (step.go:191-214). */
    method SetAtBoundary(i: int, v: V)
      requires Valid() && t[0].pos <= i < t[|t| - 1].pos
      requires t[Floor(t, i)].pos == i && t[Floor(t, i)].val != Some(v)
      modifies this
      ensures t == SetRangeCanon(old(t), i, i + 1, v)
      ensures zero == old(zero) && relaxed == old(relaxed)
    {
      var h := Ceil(t, i + 1);
      assert 0 < h < |t| && h == Floor(t, i) + 1 && t[h].pos > i by {
        PointFacts(t, i);
      }
      if t[h].pos == i + 1 {
        SetRunOfOne(i, v);
      } else {
        SetRunFront(i, v);
      }
    }

    /** Writes v at a position i whose run is i alone: the boundary at i
        takes v, or merges with the next run when that holds v, and goes
        when the run before i holds v (step.go:191-204). */
    method SetRunOfOne(i: int, v: V)
      requires Valid() && t[0].pos <= i < t[|t| - 1].pos
      requires t[Floor(t, i)].pos == i && t[Floor(t, i) + 1].pos == i + 1 && t[Floor(t, i)].val != Some(v)
      modifies this
      ensures t == SetRangeCanon(old(t), i, i + 1, v)
      ensures zero == old(zero) && relaxed == old(relaxed)
    {
      ghost var t0 := t;
      var u := t;
      var f := Floor(u, i);
      if u[f + 1].val == Some(v) {
        MergeNextOutcome(t0, i, v);
        u := Delete(u, i);
        u := u[f := Boundary(i, u[f].val)];
      } else {
        TakeOverOutcome(t0, i, v);
        u := u[f := Boundary(i, Some(v))];
      }
      RunOfOneFinish(SetRangeCanon(t0, i, i + 1, v), t0, i, v, f, u);
      if i > u[0].pos {
        var prev := Floor(u, i - 1);
        if u[prev].val == Some(v) {
          u := Delete(u, i);
        }
      }
      t := u;
    }

    /** Writes v at a position i where a longer run starts: that run now
        starts at i + 1, and a boundary holding v goes in at i unless the
        run before i holds v (step.go:205-213). */
    method SetRunFront(i: int, v: V)
      requires Valid() && t[0].pos <= i < t[|t| - 1].pos
      requires t[Floor(t, i)].pos == i && t[Floor(t, i) + 1].pos > i + 1 && t[Floor(t, i)].val != Some(v)
      modifies this
      ensures t == SetRangeCanon(old(t), i, i + 1, v)
      ensures zero == old(zero) && relaxed == old(relaxed)
    {
      var u := t;
      var f := Floor(u, i);
      SplitFrontFloor(u, i, v);
      SetSplitFront(u, i, v);
      u := u[f := Boundary(i + 1, u[f].val)];
      var prev := Floor(u, i);
      if prev < 0 {
        u := Insert(u, Boundary(i, Some(v)));
      } else if u[prev].val != Some(v) {
        u := Insert(u, Boundary(i, Some(v)));
      }
      t := u;
    }

    /** Writes v at a position i inside a run that starts before it
        (step.go:215-225). */
    method SetInRun(i: int, v: V)
      requires Valid() && t[0].pos <= i < t[|t| - 1].pos
      requires t[Floor(t, i)].pos < i && t[Floor(t, i)].val != Some(v)
      modifies this
      ensures t == SetRangeCanon(old(t), i, i + 1, v)
      ensures zero == old(zero) && relaxed == old(relaxed)
    {
      var u := t;
      PointFacts(u, i);
      var f := Floor(u, i);
      var h := Ceil(u, i + 1);
      if u[h].pos == i + 1 {
        SetJoinNext(u, i, v);
        if u[h].val == Some(v) {
          u := u[h := Boundary(i, u[h].val)];
        } else {
          u := Insert(u, Boundary(i, Some(v)));
        }
      } else {
        SetSplitMiddle(u, i, v);
        var lo := u[f];
        u := Insert(u, Boundary(i, Some(v)));
        u := Insert(u, Boundary(i + 1, lo.val));
      }
      t := u;
    }

    /** Writes v over [s, e) (step.go:231-362).  An empty range changes
        nothing, one position is written by Set, and an inverted range is
        refused.  A range that is not inside [Start, End) is refused unless
        the vector is relaxed; a relaxed vector grows to take it in, filling
        any gap with zero.  The original lets a range that only partly
        overlaps the extent through its guard; here it is refused or grown
        like any other range outside the extent. */
    method SetRange(s: int, e: int, v: V) returns (o: Outcome)
      requires Valid()
      modifies this
      ensures Valid() && zero == old(zero) && relaxed == old(relaxed)
      ensures o.Fail? <==> s > e || (s < e && !relaxed && !(old(Start()) <= s && e <= old(End())))
      ensures o.Fail? ==> t == old(t) && o.error == (if s > e then ErrInvertedRange else ErrOutOfRange)
      ensures s == e ==> o.Pass? && t == old(t)
      ensures o.Pass? && s < e ==> Start() == Min(s, old(Start())) && End() == Max(e, old(End()))
      ensures o.Pass? && s < e ==> forall x :: ValueAt(t, x) == Overwritten(old(t), s, e, v, zero, x)
    {
      var l := e - s;
      if l == 0 {
        return Pass;
      } else if l == 1 {
        o := Set(s, v);
        return;
      } else if l < 0 {
        return Fail(ErrInvertedRange);
      }
      ghost var t0 := t;
      DomainAll(t);
      if !(t[0].pos <= s && e <= t[|t| - 1].pos) {
        if !relaxed {
          return Fail(ErrOutOfRange);
        }
        if e <= t[0].pos {
          GrowBelow(s, e, v);
        } else if t[|t| - 1].pos <= s {
          GrowAbove(s, e, v);
        } else {
          GrowOver(s, e, v);
        }
        return Pass;
      }
      SetRangeInside(s, e, v);
      return Pass;
    }

    /** Grows a relaxed vector over a range [s, e) that overlaps its extent
        and sticks out of it, then writes v over the range: the extent takes
        in [s, e) and no gap opens. */
    method GrowOver(s: int, e: int, v: V)
      requires Valid() && s < t[|t| - 1].pos && t[0].pos < e && (s < t[0].pos || t[|t| - 1].pos < e)
      modifies this
      ensures Valid() && t[0].pos == Min(s, old(t[0].pos)) && t[|t| - 1].pos == Max(e, old(t[|t| - 1].pos))
      ensures forall x :: ValueAt(t, x) == Overwritten(old(t), s, e, v, zero, x)
      ensures zero == old(zero) && relaxed == old(relaxed)
    {
      ghost var t0 := t;
      DomainAll(t);
      if s < t[0].pos {
        GrowBelow(s, t[0].pos, v);
      }
      ghost var t1 := t;
      if t[|t| - 1].pos < e {
        GrowAbove(t[|t| - 1].pos, e, v);
      }
      ghost var t2 := t;
      forall x | x < s || e <= x ensures ValueAt(t2, x) == Overwritten(t0, s, e, v, zero, x) {
        GrowOverAt(t0, t1, t2, s, e, v, zero, x);
      }
      CoverThenWriteSound(t0, t2, s, e, v, zero);
      SetRangeInside(s, e, v);
    }

    /** Writes v over [s, e) inside [Start, End) (step.go:290-361): the
        extent stays, and every position of the range reads v. */
    method SetRangeInside(s: int, e: int, v: V)
      requires Valid() && t[0].pos <= s < e <= t[|t| - 1].pos
      modifies this
      ensures t == SetRangeCanon(old(t), s, e, v)
      ensures Valid() && t[0].pos == old(t[0].pos) && t[|t| - 1].pos == old(t[|t| - 1].pos)
      ensures forall x :: ValueAt(t, x) == Overwritten(old(t), s, e, v, zero, x)
      ensures zero == old(zero) && relaxed == old(relaxed)
    {
      InsideSound(t, s, e, v, zero);
      RewriteSpan(s, e, v);
    }

    /** The edits of a write inside [Start, End) (step.go:290-361): the
        boundaries in the range go, then the boundaries at s and e are put
        back so that the store stays canonical. */
    method RewriteSpan(s: int, e: int, v: V)
      requires Valid() && t[0].pos <= s < e <= t[|t| - 1].pos
      modifies this
      ensures t == SetRangeCanon(old(t), s, e, v)
      ensures zero == old(zero) && relaxed == old(relaxed)
    {
      ghost var t0 := t;
      CutFacts(t, s, e);
      var cut := DeleteSpan(s, e);
      ghost var a, b := Ceil(t0, s), Ceil(t0, e);
      var u := t;
      var la: Boundary<V>;
      if |cut| > 0 {
        la := cut[|cut| - 1];
      } else {
        FloorAt(u, s, a - 1);
        la := u[Floor(u, s)];
      }
      assert la == t0[b - 1];
      t := Rejoin(t0, u, s, e, v, la, a, b);
    }

    /** The boundary edits after the deletions of a range write: with the
        boundaries in [s, e) gone from t0, leaving cutAway, and last the last
        boundary before e, the result is the canonical write of v over
        [s, e) (step.go:300-361). */
    static method Rejoin(ghost t0: seq<Boundary<V>>, cutAway: seq<Boundary<V>>, s: int, e: int, v: V, last: Boundary<V>, ghost a: int, ghost b: int)
        returns (w: seq<Boundary<V>>)
      requires Runs.Valid(t0) && t0[0].pos <= s < e <= t0[|t0| - 1].pos
      requires a == Ceil(t0, s) && b == Ceil(t0, e) && 0 < b && cutAway == t0[..a] + t0[b..] && last == t0[b - 1]
      ensures w == SetRangeCanon(t0, s, e, v)
    {
      CutFacts(t0, s, e);
      var u := cutAway;
      var la := last;
      var hi := Ceil(u, e);
      var prev := Floor(u, s - 1);
      var prevSame := prev >= 0 && u[prev].val == Some(v);
      var hiSame := u[hi].val == Some(v);
      if u[hi].pos == e {
        if hiSame && prevSame {
          RangeJoinBoth(t0, s, e, v, a, b);
          u := Delete(u, e);
        } else if prevSame {
          RangeJoinPrev(t0, s, e, v, a, b);
        } else if hiSame {
          RangeJoinNext(t0, s, e, v, a, b);
          u := u[hi := Boundary(s, u[hi].val)];
        } else {
          RangeJoinNone(t0, s, e, v, a, b);
          u := Insert(u, Boundary(s, Some(v)));
        }
      } else {
        la := Boundary(e, la.val);
        if la.val != Some(v) {
          RangeRunOther(t0, s, e, v, a, b);
          u := Insert(u, la);
        } else {
          RangeRunSame(t0, s, e, v, a, b);
        }
        if !prevSame {
          u := Insert(u, Boundary(s, Some(v)));
        }
      }
      w := u;
    }

    /** Collects the boundaries in [s, e) in position order and deletes
        them (step.go:290-297). */
    method DeleteSpan(s: int, e: int) returns (cut: seq<Boundary<V>>)
      requires Sorted(t) && s <= e
      modifies this
      ensures var a, b := Ceil(old(t), s), Ceil(old(t), e);
        a <= b && cut == old(t)[a..b] && t == old(t)[..a] + old(t)[b..]
      ensures zero == old(zero) && relaxed == old(relaxed)
    {
      var a, b := Ceil(t, s), Ceil(t, e);
      CeilMono(t, s, e);
      cut := t[a..b];
      t := DeleteEach(t, cut, a);
    }

    /** Deletes the boundaries of cut, which sit from index a on, one by one
        (step.go:295-297). */
    static method DeleteEach(t: seq<Boundary<V>>, cut: seq<Boundary<V>>, ghost a: int) returns (u: seq<Boundary<V>>)
      requires Sorted(t) && 0 <= a && a + |cut| <= |t| && cut == t[a..a + |cut|]
      ensures u == t[..a] + t[a + |cut|..]
    {
      u := t;
      var j := 0;
      while j < |cut|
        invariant 0 <= j <= |cut|
        invariant u == t[..a] + t[a + j..]
      {
        CutStep(t, a, a + |cut|, j, cut, u);
        u := Delete(u, cut[j].pos);
        j := j + 1;
      }
    }

    /** Passes the value of every run through m, in ascending order, and
        then deletes the boundaries whose new value repeats the one before
        (step.go:432-456). */
    method Apply(m: V -> V)
      requires Valid()
      modifies this
      ensures Valid() && zero == old(zero) && relaxed == old(relaxed)
      ensures forall x :: ValueAt(t, x) == MapOpt(m, ValueAt(old(t), x))
    {
      ghost var t0 := t;
      var w, delQ := MapEach(t, m);
      MappedValue(t0, m);
      DomainAll(t0);
      assert Spans(w);
      var u := DeleteQueued(w, delQ);
      t := u;
    }

    /** The walk of Apply: maps every value but the end sentinel's and queues
        each position whose new value equals the new value before it
        (step.go:440-452). */
    static method MapEach(t: seq<Boundary<V>>, m: V -> V) returns (w: seq<Boundary<V>>, delQ: seq<int>)
      requires Framed(t)
      ensures w == Mapped(t, m) && Queued(w, delQ)
    {
      var min, max := t[0].pos, t[|t| - 1].pos;
      var la: Option<V> := None;
      w, delQ := t, [];
      var j := 0;
      WalkedAt(t, m, j, w, la, delQ);
      while w[j].pos != max
        invariant 0 <= j < |t| && Walked(t, m, j, w, la, delQ)
        invariant |w| == |t| && w[j] == t[j]
        decreases |t| - j
      {
        WalkedAt(t, m, j, w, la, delQ);
        var p := w[j];
        p := Boundary(p.pos, Some(m(p.val.value)));
        if p.pos != min && p.val == la {
          WalkQueue(t, m, j, w, la, delQ, p);
          delQ := delQ + [p.pos];
        } else {
          WalkKeep(t, m, j, w, la, delQ, p);
        }
        w := w[j := p];
        la := p.val;
        j := j + 1;
        WalkedAt(t, m, j, w, la, delQ);
      }
      WalkDone(t, m, j, w, la, delQ);
    }

    /** The deletions of Apply: each queued position in turn (step.go:453-455). */
    static method DeleteQueued(w: seq<Boundary<V>>, delQ: seq<int>) returns (u: seq<Boundary<V>>)
      requires Sorted(w) && |w| >= 2 && Spans(w) && Queued(w, delQ)
      ensures Runs.Valid(u) && forall x :: ValueAt(u, x) == ValueAt(w, x)
    {
      u := w;
      var i := 0;
      while i < |delQ|
        invariant 0 <= i <= |delQ| && Pruned(w, delQ, i, u)
      {
        DeleteQueuedStep(w, delQ, i, u);
        u := Delete(u, delQ[i]);
        i := i + 1;
      }
      PrunedValid(w, delQ, u);
    }

    /** Passes the values over [from, to) through m, in ascending order, and
        deletes the boundaries whose new value repeats the one before
        (step.go:461-515).  An inverted range or one that misses the vector
        is refused and changes nothing.  The range is cut to [Start, End).
        Unlike the original, a boundary at from whose new value repeats the
        run before it is deleted, and the old value is restored at to only
        when the last run's new value differs from its old one. */
    method ApplyRange(m: V -> V, from: int, to: int) returns (o: Outcome)
      requires Valid()
      modifies this
      ensures Valid() && zero == old(zero) && relaxed == old(relaxed)
      ensures o.Fail? <==> to < from || to <= old(Start()) || from >= old(End())
      ensures o.Fail? ==> t == old(t) && o.error == (if to < from then ErrInvertedRange else ErrOutOfRange)
      ensures forall x :: ValueAt(t, x) == if from <= x < to then MapOpt(m, ValueAt(old(t), x)) else ValueAt(old(t), x)
    {
      ghost var t0 := t;
      DomainAll(t);
      if to < from {
        return Fail(ErrInvertedRange);
      }
      var min, max := t[0].pos, t[|t| - 1].pos;
      if to <= min || from >= max {
        return Fail(ErrOutOfRange);
      }
      PartialClipped(t0, m, from, to);
      var lo, hi := Max(from, min), Min(to, max);
      var f := Floor(t, lo);
      var end := t[f + 1].pos;
      var la := m(t[f].val.value);
      if hi <= end {
        if lo < hi {
          RunPartial(t0, m, lo, hi, f, zero);
        }
        o := SetRange(lo, hi, la);
        return Pass;
      }
      var w, delQ := MapSpan(t, m, lo, hi);
      var u := DeleteQueued(w, delQ);
      t := u;
      return Pass;
    }

    /** The walk of ApplyRange over [lo, hi), which reaches past the run
        holding lo (step.go:484-508): the part of that run from lo on takes
        its new value, every run starting in [end, hi) is mapped, and the
        old value of the last one is restored at hi.  Each boundary whose
        new value repeats the one before it is queued. */
    static method MapSpan(t: seq<Boundary<V>>, m: V -> V, lo: int, hi: int) returns (w: seq<Boundary<V>>, delQ: seq<int>)
      requires Runs.Valid(t) && t[0].pos <= lo < hi <= t[|t| - 1].pos
      requires t[Floor(t, lo) + 1].pos < hi
      ensures Edited(t, m, lo, hi, w, delQ)
    {
      var f := Floor(t, lo);
      var la;
      w, delQ, la := SplitHead(t, m, lo, hi);
      var k := Ceil(w, t[f + 1].pos);
      var prev := t[f];
      ghost var ct := f + 1;
      var min := t[0].pos;
      assert Framed(t);
      while w[k].pos < hi
        invariant Spanned(t, m, lo, hi, w, k, ct, la, prev, delQ)
        decreases |w| - k
      {
        SpanAt(t, m, lo, hi, w, k, ct, la, prev, delQ);
        var p := Boundary(w[k].pos, Some(m(w[k].val.value)));
        if p.pos != min && p.val == Some(la) {
          SpanStepQueue(t, m, lo, hi, w, k, ct, la, prev, delQ, p);
          delQ := delQ + [p.pos];
        } else {
          SpanStepKeep(t, m, lo, hi, w, k, ct, la, prev, delQ, p);
        }
        prev := w[k];
        w := w[k := p];
        la := p.val.value;
        k, ct := k + 1, ct + 1;
      }
      w, delQ := RestoreTail(t, m, lo, hi, w, k, ct, la, prev, delQ);
    }

    /** The start of the walk (step.go:476-486): the new value of the run
        holding lo is put at lo when it differs from the old one, and lo is
        queued when the run before it already holds that value. */
    static method SplitHead(t: seq<Boundary<V>>, m: V -> V, lo: int, hi: int) returns (w: seq<Boundary<V>>, delQ: seq<int>, la: V)
      requires Runs.Valid(t) && t[0].pos <= lo < hi <= t[|t| - 1].pos
      requires t[Floor(t, lo) + 1].pos < hi
      ensures var f := Floor(t, lo);
        && 0 < Ceil(w, t[f + 1].pos) < |w|
        && Spanned(t, m, lo, hi, w, Ceil(w, t[f + 1].pos), f + 1, la, t[f], delQ)
    {
      var f := Floor(t, lo);
      var prev := t[f];
      la := m(prev.val.value);
      w, delQ := t, [];
      if Some(la) != prev.val {
        w := Insert(w, Boundary(lo, Some(la)));
        if prev.pos == lo && f > 0 && t[f - 1].val == Some(la) {
          delQ := [lo];
        }
        SpanStartInsert(t, m, lo, hi, f, w, delQ);
      } else {
        SpanStartKeep(t, m, lo, hi, f);
      }
    }

    /** The end of the walk (step.go:501-508): below the end of the vector,
        the old value of the last run is restored at hi when its new value
        differs, and otherwise the boundary at hi is queued when it repeats
        the new value before it. */
    static method RestoreTail(t: seq<Boundary<V>>, m: V -> V, lo: int, hi: int, u: seq<Boundary<V>>, ghost k: int,
                              ghost ct: int, la: V, prev: Boundary<V>, q: seq<int>)
      returns (w: seq<Boundary<V>>, delQ: seq<int>)
      requires Runs.Valid(t) && lo < hi <= t[|t| - 1].pos
      requires Spanned(t, m, lo, hi, u, k, ct, la, prev, q) && hi <= u[k].pos
      ensures Edited(t, m, lo, hi, w, delQ)
    {
      w, delQ := u, q;
      if hi < t[|t| - 1].pos {
        CeilBetween(w, hi, k);
        var p := w[Ceil(w, hi)];
        if p.pos > hi && Some(la) != prev.val {
          SpanEndSplit(t, m, lo, hi, u, k, ct, la, prev, q);
          w := Insert(w, Boundary(hi, prev.val));
        } else if p.val == Some(la) {
          SpanEndQueue(t, m, lo, hi, u, k, ct, la, prev, q);
          delQ := delQ + [p.pos];
        } else {
          SpanEndStay(t, m, lo, hi, u, k, ct, la, prev, q);
        }
      } else {
        SpanEndStay(t, m, lo, hi, u, k, ct, la, prev, q);
      }
    }

    /** The boundaries of the vector in ascending order, each with its value,
        the last one the end with no value (step.go:517-528).  They are
        exactly the places where the abstract array changes value, so by
        Runs.Unique they describe the vector completely. */
    method String() returns (r: seq<Boundary<V>>)
      requires Valid()
      ensures Sorted(r) && |r| == Count() + 1
      ensures r[0].pos == Start() && r[|r| - 1].pos == End()
      ensures forall i :: 0 <= i < |r| ==> r[i].val == ValueAt(t, r[i].pos)
      ensures forall x :: x in Positions(r) <==> ValueAt(t, x - 1) != ValueAt(t, x)
    {
      r := [];
      var j := 0;
      while j < |t|
        invariant 0 <= j <= |t| && r == t[..j]
      {
        r := r + [t[j]];
        j := j + 1;
      }
      assert r == t;
      forall i | 0 <= i < |r| ensures r[i].val == ValueAt(t, r[i].pos) {
        if i + 1 < |t| {
          Before(t, i, i + 1);
        }
        StepValue(t, i, t[i].pos);
      }
      ChangePoints(t);
    }
  }
}
