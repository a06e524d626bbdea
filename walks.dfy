/** The runs of a step vector as they are reported to a caller.

    A walk over a vector reports each run once, as a step: its extent
    [start, end) and the value it holds.  A report of [a, b) is correct when
    its steps tile [a, b) in ascending order, every position of a step reads
    the step's value, and no two neighbouring steps hold the same value (each
    is a whole run, cut only at a and b). */
module Walks {
  import opened Store
  import opened Runs

  /** One run as it is reported to a caller: [start, end) holds val. */
  datatype Step<V> = Step(start: int, end: int, val: V)

  function Min(a: int, b: int): int { if a < b then a else b }
  function Max(a: int, b: int): int { if a < b then b else a }

  /** The steps are non-empty intervals, each starting where the one before
      it ended, and together they cover exactly [a, b). */
  ghost predicate Tiles<V>(steps: seq<Step<V>>, a: int, b: int) {
    && (|steps| == 0 ==> a == b)
    && (|steps| > 0 ==> steps[0].start == a && steps[|steps| - 1].end == b)
    && (forall k :: 0 <= k < |steps| ==> steps[k].start < steps[k].end)
    && (forall k :: 0 < k < |steps| ==> steps[k - 1].end == steps[k].start)
  }

  /** The steps report the abstract array of t over [a, b), one step per run. */
  ghost predicate Reports<V>(t: seq<Boundary<V>>, steps: seq<Step<V>>, a: int, b: int) {
    && Tiles(steps, a, b)
    && (forall k, x :: 0 <= k < |steps| && steps[k].start <= x < steps[k].end ==> ValueAt(t, x) == Some(steps[k].val))
    && (forall k :: 0 < k < |steps| ==> steps[k - 1].val != steps[k].val)
  }

  /** steps[k] is run f + k of t (from boundary f + k to the next one), cut
      to [a, b). */
  ghost predicate Clipped<V>(t: seq<Boundary<V>>, steps: seq<Step<V>>, f: int, a: int, b: int) {
    && 0 <= f && f + |steps| < |t|
    && forall k :: 0 <= k < |steps| ==>
         t[f + k].val.Some? && steps[k] == Step(Max(a, t[f + k].pos), Min(b, t[f + k + 1].pos), t[f + k].val.value)
  }

  /** The runs from the one holding a up to the last one starting before b,
      each cut to [a, b), report [a, b). */
  lemma ClippedReports<V>(t: seq<Boundary<V>>, steps: seq<Step<V>>, a: int, b: int)
    requires Valid(t) && t[0].pos <= a < b <= t[|t| - 1].pos
    requires Clipped(t, steps, Floor(t, a), a, b) && Floor(t, a) + |steps| == Ceil(t, b)
    ensures Reports(t, steps, a, b)
  {
    var f, c := Floor(t, a), Ceil(t, b);
    assert f < c by {
      if c <= f {
        if c < f {
          Before(t, c, f);
        }
      }
    }
    forall k | 0 <= k < |steps|
      ensures steps[k].start < steps[k].end
      ensures k == 0 ==> steps[k].start == a
      ensures k > 0 ==> steps[k].start == t[f + k].pos
      ensures k + 1 < |steps| ==> steps[k].end == t[f + k + 1].pos
      ensures k + 1 == |steps| ==> steps[k].end == b
    {
      if k > 0 {
        if k > 1 {
          Before(t, f + 1, f + k);
        }
      }
      if f + k + 1 < c {
        if f + k + 1 < c - 1 {
          Before(t, f + k + 1, c - 1);
        }
      }
      if f + k < c - 1 {
        Before(t, f + k, c - 1);
      }
      Before(t, f + k, f + k + 1);
    }
    forall k, x | 0 <= k < |steps| && steps[k].start <= x < steps[k].end
      ensures ValueAt(t, x) == Some(steps[k].val)
    {
      StepValue(t, f + k, x);
    }
    forall k | 0 < k < |steps| ensures steps[k - 1].val != steps[k].val {
      assert Differs(t, f + k);
    }
  }
}
