/** The canonical run-boundary form of a step vector and the reference
    results of its writes.

    A vector's boundaries are valid when their positions strictly increase,
    only the last one (the end sentinel) carries no value, and no two
    adjacent boundaries hold the same value.  The abstract array at x is
    ValueAt(t, x): the value of the last boundary at or before x, so it is
    None outside [Start, End). */
module Runs {
  import opened Store

  /** The boundaries at k - 1 and k hold different values. */
  ghost predicate Differs<V>(t: seq<Boundary<V>>, k: int)
    requires 0 < k < |t|
  {
    t[k - 1].val != t[k].val
  }

  /** No two adjacent boundaries hold the same value.  The property is
      stated through Differs so that it is used only where a proof asks for
      a particular pair. */
  ghost predicate Canonical<V>(t: seq<Boundary<V>>) {
    forall k :: 0 < k < |t| ==> Differs(t, k)
  }

  ghost predicate Valid<V>(t: seq<Boundary<V>>) {
    && |t| >= 2
    && Sorted(t)
    && t[|t| - 1].val.None?
    && (forall k :: 0 <= k < |t| - 1 ==> t[k].val.Some?)
    && Canonical(t)
  }

  /** The abstract array after [s, e) is overwritten with v.  When the write
      lies outside the old domain, the domain grows to cover it and any gap
      between the two is filled with zero. */
  ghost function Overwritten<V>(t: seq<Boundary<V>>, s: int, e: int, v: V, zero: V, x: int): Option<V>
    requires |t| > 0
  {
    var start, end := t[0].pos, t[|t| - 1].pos;
    if s <= x < e then Some(v)
    else if start <= x < end then ValueAt(t, x)
    else if (if s < start then s else start) <= x < (if e > end then e else end) then Some(zero)
    else None
  }

  /** A valid store holds a value exactly on [Start, End). */
  lemma {:induction false} Domain<V>(t: seq<Boundary<V>>, x: int)
    requires Valid(t)
    ensures ValueAt(t, x).Some? <==> t[0].pos <= x < t[|t| - 1].pos
  {
    FloorValue(t, x);
    if x >= t[|t| - 1].pos {
      FloorIs(t, x, |t| - 1);
    }
  }

  /** The domain of a valid store, for every position at once. */
  lemma DomainAll<V>(t: seq<Boundary<V>>)
    requires Valid(t)
    ensures t[0].pos < t[|t| - 1].pos
    ensures forall x :: ValueAt(t, x).Some? <==> t[0].pos <= x < t[|t| - 1].pos
  {
    Before(t, 0, |t| - 1);
    forall x ensures ValueAt(t, x).Some? <==> t[0].pos <= x < t[|t| - 1].pos {
      Domain(t, x);
    }
  }

  /** Each run of a valid store is maximal: the value of boundary k holds
      exactly up to the next boundary, and differs just outside. */
  lemma StepRun<V>(t: seq<Boundary<V>>, k: int)
    requires Valid(t) && 0 <= k < |t| - 1
    ensures forall x :: t[k].pos <= x < t[k + 1].pos ==> ValueAt(t, x) == t[k].val
    ensures ValueAt(t, t[k].pos - 1) != t[k].val
    ensures ValueAt(t, t[k + 1].pos) != t[k].val
  {
    forall x | t[k].pos <= x < t[k + 1].pos ensures ValueAt(t, x) == t[k].val {
      StepValue(t, k, x);
    }
    if k == 0 {
      Domain(t, t[0].pos - 1);
    } else {
      Before(t, k - 1, k);
      StepValue(t, k - 1, t[k].pos - 1);
      assert Differs(t, k);
    }
    if k + 1 < |t| - 1 {
      Before(t, k + 1, k + 2);
      StepValue(t, k + 1, t[k + 1].pos);
      assert Differs(t, k + 1);
    } else {
      Domain(t, t[k + 1].pos);
    }
  }

  /** Sortedness of a splice follows from sortedness at its two seams. */
  lemma SpliceSorted<V>(t: seq<Boundary<V>>, a: int, c: int, mid: seq<Boundary<V>>)
    requires Sorted(t) && Sorted(mid) && 0 <= a <= c <= |t|
    requires a > 0 && |mid| > 0 ==> t[a - 1].pos < mid[0].pos
    requires c < |t| && |mid| > 0 ==> mid[|mid| - 1].pos < t[c].pos
    ensures Sorted(t[..a] + mid + t[c..])
  {
    var r := t[..a] + mid + t[c..];
    var m := |mid|;
    forall i, j | 0 <= i < j < |r| ensures Less(r, i, j) {
      if j < a {
        assert r[i] == t[i] && r[j] == t[j];
        Before(t, i, j);
      } else if i < a && j < a + m {
        assert r[i] == t[i] && r[j] == mid[j - a];
        if i < a - 1 {
          Before(t, i, a - 1);
        }
        if a < j {
          Before(mid, 0, j - a);
        }
      } else if i < a {
        assert r[i] == t[i] && r[j] == t[j - a - m + c];
        Before(t, i, j - a - m + c);
      } else if j < a + m {
        assert r[i] == mid[i - a] && r[j] == mid[j - a];
        Before(mid, i - a, j - a);
      } else if i < a + m {
        assert r[i] == mid[i - a] && r[j] == t[j - a - m + c];
        if i - a < m - 1 {
          Before(mid, i - a, m - 1);
        }
        if c < j - a - m + c {
          Before(t, c, j - a - m + c);
        }
      } else {
        assert r[i] == t[i - a - m + c] && r[j] == t[j - a - m + c];
        Before(t, i - a - m + c, j - a - m + c);
      }
    }
  }

  /** Canonicity of a splice follows from canonicity at its seams. */
  lemma SpliceCanonical<V>(t: seq<Boundary<V>>, a: int, c: int, mid: seq<Boundary<V>>)
    requires Canonical(t) && Canonical(mid) && 0 <= a <= c <= |t|
    requires a > 0 && |mid| > 0 ==> t[a - 1].val != mid[0].val
    requires c < |t| && |mid| > 0 ==> mid[|mid| - 1].val != t[c].val
    requires a > 0 && c < |t| && |mid| == 0 ==> t[a - 1].val != t[c].val
    ensures Canonical(t[..a] + mid + t[c..])
  {
    var r := t[..a] + mid + t[c..];
    forall k | 0 < k < |r| ensures Differs(r, k) {
      if k < a {
        assert r[k - 1] == t[k - 1] && r[k] == t[k] && Differs(t, k);
      } else if a + |mid| < k {
        assert r[k - 1] == t[k - 1 - a - |mid| + c] && r[k] == t[k - a - |mid| + c] && Differs(t, k - a - |mid| + c);
      } else if a < k < a + |mid| {
        assert r[k - 1] == mid[k - 1 - a] && r[k] == mid[k - a] && Differs(mid, k - a);
      }
    }
  }

  /** The abstraction of a splice reads the kept suffix, then the inserted
      middle, then the kept prefix. */
  lemma SpliceValue<V>(t: seq<Boundary<V>>, a: int, c: int, mid: seq<Boundary<V>>, x: int)
    requires 0 <= a <= c <= |t| && Sorted(t[..a] + mid + t[c..])
    ensures ValueAt(t[..a] + mid + t[c..], x) ==
      if c < |t| && t[c].pos <= x then ValueAt(t[c..], x)
      else if |mid| > 0 && mid[0].pos <= x then ValueAt(mid, x)
      else ValueAt(t[..a], x)
  {
    var r := t[..a] + mid + t[c..];
    SortedParts(t[..a] + mid, t[c..]);
    ConcatValue(t[..a] + mid, t[c..], x);
    ConcatValue(t[..a], mid, x);
  }

  /** The canonical result of writing v over [s, e) inside the domain: the
      boundaries in [s, e) are dropped, a boundary at s is kept only where v
      differs from the value before s (Head), a boundary at e carrying the
      value that was in force there only where that differs from v (Tail),
      and a boundary already at e is dropped when it holds v (Resume). */
  ghost function SetRangeCanon<V>(t: seq<Boundary<V>>, s: int, e: int, v: V): seq<Boundary<V>>
    requires Valid(t) && t[0].pos <= s < e <= t[|t| - 1].pos
  {
    t[..Ceil(t, s)] + (Head(t, s, v) + Tail(t, e, v)) + t[Resume(t, e, v)..]
  }

  ghost function Head<V>(t: seq<Boundary<V>>, s: int, v: V): seq<Boundary<V>>
  {
    var a := Ceil(t, s);
    if 0 < a && t[a - 1].val == Some(v) then [] else [Boundary(s, Some(v))]
  }

  ghost function Tail<V>(t: seq<Boundary<V>>, e: int, v: V): seq<Boundary<V>>
    requires Valid(t) && t[0].pos < e <= t[|t| - 1].pos
  {
    var b := Ceil(t, e);
    if t[b].pos == e || t[b - 1].val == Some(v) then [] else [Boundary(e, t[b - 1].val)]
  }

  ghost function Resume<V>(t: seq<Boundary<V>>, e: int, v: V): int
    requires Valid(t) && t[0].pos < e <= t[|t| - 1].pos
  {
    var b := Ceil(t, e);
    if t[b].pos == e && t[b].val == Some(v) then b + 1 else b
  }

  /** Writing inside the domain keeps the form valid and keeps the domain. */
  lemma SetRangeCanonValid<V>(t: seq<Boundary<V>>, s: int, e: int, v: V)
    requires Valid(t) && t[0].pos <= s < e <= t[|t| - 1].pos
    ensures var r := SetRangeCanon(t, s, e, v);
      Valid(r) && r[0].pos == t[0].pos && r[|r| - 1].pos == t[|t| - 1].pos
  {
    SetRangeCanonOrder(t, s, e, v);
    SetRangeCanonEnds(t, s, e, v);
  }

  lemma SetRangeCanonOrder<V>(t: seq<Boundary<V>>, s: int, e: int, v: V)
    requires Valid(t) && t[0].pos <= s < e <= t[|t| - 1].pos
    ensures var r := SetRangeCanon(t, s, e, v); Sorted(r) && Canonical(r)
  {
    SetRangeCanonSorted(t, s, e, v);
    SetRangeCanonCanonical(t, s, e, v);
  }

  lemma SetRangeCanonSorted<V>(t: seq<Boundary<V>>, s: int, e: int, v: V)
    requires Valid(t) && t[0].pos <= s < e <= t[|t| - 1].pos
    ensures Sorted(SetRangeCanon(t, s, e, v))
  {
    var a := Ceil(t, s);
    var b := Ceil(t, e);
    assert 0 < b < |t|;
    CeilMono(t, s, e);
    var c := Resume(t, e, v);
    var mid := Head(t, s, v) + Tail(t, e, v);
    assert Sorted(mid) by {
      if |mid| == 2 {
        assert Less(mid, 0, 1);
      }
    }
    if b + 1 < |t| {
      Before(t, b, b + 1);
    }
    assert a > 0 && |mid| > 0 ==> t[a - 1].pos < mid[0].pos;
    assert c < |t| && |mid| > 0 ==> mid[|mid| - 1].pos < t[c].pos;
    SpliceSorted(t, a, c, mid);
  }

  lemma SetRangeCanonCanonical<V>(t: seq<Boundary<V>>, s: int, e: int, v: V)
    requires Valid(t) && t[0].pos <= s < e <= t[|t| - 1].pos
    ensures Canonical(SetRangeCanon(t, s, e, v))
  {
    var a := Ceil(t, s);
    var b := Ceil(t, e);
    assert 0 < b < |t|;
    CeilMono(t, s, e);
    assert a <= b;
    var c := Resume(t, e, v);
    var mid := Head(t, s, v) + Tail(t, e, v);
    assert Canonical(mid);
    assert Differs(t, b) && (b + 1 < |t| ==> Differs(t, b + 1));
    assert a > 0 && |mid| > 0 ==> t[a - 1].val != mid[0].val;
    assert c < |t| && |mid| > 0 ==> mid[|mid| - 1].val != t[c].val;
    assert a > 0 && c < |t| && |mid| == 0 ==> t[a - 1].val != t[c].val;
    SpliceCanonical(t, a, c, mid);
  }

  lemma SetRangeCanonEnds<V>(t: seq<Boundary<V>>, s: int, e: int, v: V)
    requires Valid(t) && t[0].pos <= s < e <= t[|t| - 1].pos
    ensures var r := SetRangeCanon(t, s, e, v);
      && |r| >= 2 && r[|r| - 1] == t[|t| - 1] && r[0].pos == t[0].pos
      && forall k :: 0 <= k < |r| - 1 ==> r[k].val.Some?
  {
    var a := Ceil(t, s);
    var b := Ceil(t, e);
    assert 0 < b < |t|;
    CeilMono(t, s, e);
    assert a <= b;
    var c := Resume(t, e, v);
    var mid := Head(t, s, v) + Tail(t, e, v);
    var r := SetRangeCanon(t, s, e, v);
    assert r == t[..a] + mid + t[c..];
    assert a == 0 ==> s == t[0].pos && |mid| > 0;
    assert c < |t|;
    assert forall k :: 0 <= k < |mid| ==> mid[k].val.Some?;
    forall k | 0 <= k < |r| - 1 ensures r[k].val.Some? {
      if a + |mid| <= k {
        assert r[k] == t[k - a - |mid| + c];
      }
    }
  }

  /** Writing inside the domain changes the abstract array at x exactly when
      x lies in [s, e). */
  lemma SetRangeCanonValue<V>(t: seq<Boundary<V>>, s: int, e: int, v: V, x: int)
    requires Valid(t) && t[0].pos <= s < e <= t[|t| - 1].pos
    ensures ValueAt(SetRangeCanon(t, s, e, v), x) == if s <= x < e then Some(v) else ValueAt(t, x)
  {
    var c := Resume(t, e, v);
    if x < s {
      SetRangeBefore(t, s, e, v, x);
    } else if x < e {
      SetRangeInside(t, s, e, v, x);
    } else if x < t[c].pos {
      SetRangeSeam(t, s, e, v, x);
    } else {
      SetRangeAfter(t, s, e, v, x);
    }
  }

  /** The splice SetRangeCanon performs, with its sortedness. */
  lemma SetRangeCanonSplice<V>(t: seq<Boundary<V>>, s: int, e: int, v: V)
    requires Valid(t) && t[0].pos <= s < e <= t[|t| - 1].pos
    ensures var a, c := Ceil(t, s), Resume(t, e, v);
      && a <= Ceil(t, e) <= c < |t| && e <= t[c].pos
      && SetRangeCanon(t, s, e, v) == t[..a] + (Head(t, s, v) + Tail(t, e, v)) + t[c..]
      && Sorted(SetRangeCanon(t, s, e, v))
  {
    var b := Ceil(t, e);
    assert 0 < b < |t|;
    CeilMono(t, s, e);
    if b + 1 < |t| {
      Before(t, b, b + 1);
    }
    SetRangeCanonOrder(t, s, e, v);
  }

  lemma SetRangeBefore<V>(t: seq<Boundary<V>>, s: int, e: int, v: V, x: int)
    requires Valid(t) && t[0].pos <= s < e <= t[|t| - 1].pos && x < s
    ensures ValueAt(SetRangeCanon(t, s, e, v), x) == ValueAt(t, x)
  {
    var a, c := Ceil(t, s), Resume(t, e, v);
    var mid := Head(t, s, v) + Tail(t, e, v);
    SetRangeCanonSplice(t, s, e, v);
    SpliceValue(t, a, c, mid, x);
    assert |mid| > 0 ==> x < mid[0].pos;
    PrefixValue(t, a, x);
  }

  lemma SetRangeInside<V>(t: seq<Boundary<V>>, s: int, e: int, v: V, x: int)
    requires Valid(t) && t[0].pos <= s < e <= t[|t| - 1].pos && s <= x < e
    ensures ValueAt(SetRangeCanon(t, s, e, v), x) == Some(v)
  {
    var a, c := Ceil(t, s), Resume(t, e, v);
    var head := Head(t, s, v);
    var mid := head + Tail(t, e, v);
    SetRangeCanonSplice(t, s, e, v);
    SpliceValue(t, a, c, mid, x);
    if |head| == 0 {
      SortedSplit(t, a);
      LastValue(t[..a], x);
      assert |mid| > 0 ==> x < mid[0].pos;
    } else {
      assert ValueAt(mid, x) == Some(v);
    }
  }

  lemma SetRangeSeam<V>(t: seq<Boundary<V>>, s: int, e: int, v: V, x: int)
    requires Valid(t) && t[0].pos <= s < e <= t[|t| - 1].pos
    requires e <= x < t[Resume(t, e, v)].pos
    ensures ValueAt(SetRangeCanon(t, s, e, v), x) == ValueAt(t, x)
  {
    SeamBefore(t, s, e, v, x);
    SeamAfter(t, s, e, v, x);
  }

  /** The old value just past a written range. */
  lemma SeamBefore<V>(t: seq<Boundary<V>>, s: int, e: int, v: V, x: int)
    requires Valid(t) && t[0].pos <= s < e <= t[|t| - 1].pos
    requires e <= x < t[Resume(t, e, v)].pos
    ensures 0 < Ceil(t, e) < |t|
    ensures ValueAt(t, x) == if Tail(t, e, v) == [] then Some(v) else t[Ceil(t, e) - 1].val
  {
    var b, c := Ceil(t, e), Resume(t, e, v);
    assert 0 < b < |t|;
    if c == b + 1 {
      StepValue(t, b, x);
    } else {
      StepValue(t, b - 1, x);
    }
  }

  /** The new value just past a written range. */
  lemma SeamAfter<V>(t: seq<Boundary<V>>, s: int, e: int, v: V, x: int)
    requires Valid(t) && t[0].pos <= s < e <= t[|t| - 1].pos
    requires e <= x < t[Resume(t, e, v)].pos
    ensures 0 < Ceil(t, e) < |t|
    ensures ValueAt(SetRangeCanon(t, s, e, v), x) == if Tail(t, e, v) == [] then Some(v) else t[Ceil(t, e) - 1].val
  {
    var a, b, c := Ceil(t, s), Ceil(t, e), Resume(t, e, v);
    assert 0 < b < |t|;
    var head, tail := Head(t, s, v), Tail(t, e, v);
    var mid := head + tail;
    var r := SetRangeCanon(t, s, e, v);
    assert a <= c < |t| && r == t[..a] + mid + t[c..] && Sorted(r) by {
      SetRangeCanonSplice(t, s, e, v);
    }
    assert ValueAt(r, x) == if |mid| > 0 && mid[0].pos <= x then ValueAt(mid, x) else ValueAt(t[..a], x) by {
      SpliceValue(t, a, c, mid, x);
    }
    if |tail| == 1 {
      if |head| == 1 {
        assert mid == [head[0], tail[0]] && head[0].pos < tail[0].pos <= x;
        assert ValueAt(mid, x) == ValueAt([tail[0]], x);
      } else {
        assert mid == [tail[0]];
      }
    } else if |head| == 1 {
      assert mid == [head[0]];
    } else {
      assert mid == [];
      SortedSplit(t, a);
      LastValue(t[..a], x);
    }
  }


  lemma SetRangeAfter<V>(t: seq<Boundary<V>>, s: int, e: int, v: V, x: int)
    requires Valid(t) && t[0].pos <= s < e <= t[|t| - 1].pos
    requires t[Resume(t, e, v)].pos <= x
    ensures ValueAt(SetRangeCanon(t, s, e, v), x) == ValueAt(t, x)
  {
    var a, c := Ceil(t, s), Resume(t, e, v);
    var mid := Head(t, s, v) + Tail(t, e, v);
    SetRangeCanonSplice(t, s, e, v);
    SpliceValue(t, a, c, mid, x);
    SuffixValue(t, c, x);
  }

  /** Writing inside the domain keeps the form canonical, keeps the domain,
      and changes the abstract array on exactly [s, e). */
  lemma SetRangeCanonSound<V>(t: seq<Boundary<V>>, s: int, e: int, v: V)
    requires Valid(t) && t[0].pos <= s < e <= t[|t| - 1].pos
    ensures var r := SetRangeCanon(t, s, e, v);
      && Valid(r) && r[0].pos == t[0].pos && r[|r| - 1].pos == t[|t| - 1].pos
      && forall x :: ValueAt(r, x) == if s <= x < e then Some(v) else ValueAt(t, x)
  {
    SetRangeCanonValid(t, s, e, v);
    forall x ensures ValueAt(SetRangeCanon(t, s, e, v), x) == if s <= x < e then Some(v) else ValueAt(t, x) {
      SetRangeCanonValue(t, s, e, v, x);
    }
  }

  /** Growing the domain downwards to p with a run of w (step.go:141-162,
      248-269): the old first boundary is relocated to p when it already
      holds w, and a new first boundary is inserted otherwise. */
  ghost function Prepend<V>(t: seq<Boundary<V>>, p: int, w: V): seq<Boundary<V>>
    requires |t| > 0 && p < t[0].pos
  {
    if t[0].val == Some(w) then [Boundary(p, Some(w))] + t[1..] else [Boundary(p, Some(w))] + t
  }

  lemma PrependSound<V>(t: seq<Boundary<V>>, p: int, w: V)
    requires Valid(t) && p < t[0].pos
    ensures var r := Prepend(t, p, w);
      && Valid(r) && r[0].pos == p && r[|r| - 1].pos == t[|t| - 1].pos
      && forall x :: ValueAt(r, x) == if p <= x < t[0].pos then Some(w) else ValueAt(t, x)
  {
    var r := Prepend(t, p, w);
    var c := if t[0].val == Some(w) then 1 else 0;
    var mid := [Boundary(p, Some(w))];
    assert r == t[..0] + mid + t[c..];
    assert t == t[..0] + t[0..c] + t[c..];
    Before(t, 0, 1);
    SpliceSorted(t, 0, c, mid);
    assert c == 1 ==> Differs(t, 1);
    SpliceCanonical(t, 0, c, mid);
    assert forall k :: 0 <= k < |r| - 1 ==> r[k].val.Some? by {
      forall k | 0 <= k < |r| - 1 ensures r[k].val.Some? {
        if 0 < k {
          assert r[k] == t[k - 1 + c];
        }
      }
    }
    forall x ensures ValueAt(r, x) == if p <= x < t[0].pos then Some(w) else ValueAt(t, x) {
      SpliceValue(t, 0, c, mid, x);
      SpliceValue(t, 0, c, t[0..c], x);
    }
  }

  /** Growing the domain upwards to e with a run of w (step.go:163-180,
      270-287): the end sentinel is relocated to e, and a boundary carrying w
      is placed at the old end unless the last run already holds w. */
  ghost function Append<V>(t: seq<Boundary<V>>, e: int, w: V): seq<Boundary<V>>
    requires |t| >= 2 && t[|t| - 1].pos < e
  {
    var n := |t|;
    t[..n - 1]
      + (if t[n - 2].val == Some(w) then [] else [Boundary(t[n - 1].pos, Some(w))])
      + [Boundary(e, None)]
  }

  lemma AppendSound<V>(t: seq<Boundary<V>>, e: int, w: V)
    requires Valid(t) && t[|t| - 1].pos < e
    ensures var r := Append(t, e, w);
      && Valid(r) && r[0].pos == t[0].pos && r[|r| - 1].pos == e
      && forall x :: ValueAt(r, x) == if t[|t| - 1].pos <= x < e then Some(w) else ValueAt(t, x)
  {
    var n := |t|;
    var r := Append(t, e, w);
    var mid := (if t[n - 2].val == Some(w) then [] else [Boundary(t[n - 1].pos, Some(w))]) + [Boundary(e, None)];
    assert r == t[..n - 1] + mid + t[n..];
    assert t == t[..n - 1] + t[n - 1..n] + t[n..];
    assert Sorted(mid) by {
      if |mid| == 2 {
        assert Less(mid, 0, 1);
      }
    }
    Before(t, n - 2, n - 1);
    SortedSplit(t, n - 1);
    SpliceSorted(t, n - 1, n, mid);
    SpliceCanonical(t, n - 1, n, mid);
    forall x ensures ValueAt(r, x) == if t[n - 1].pos <= x < e then Some(w) else ValueAt(t, x) {
      SpliceValue(t, n - 1, n, mid, x);
      SpliceValue(t, n - 1, n, t[n - 1..n], x);
      if t[n - 2].pos <= x {
        LastValue(t[..n - 1], x);
      }
    }
  }

  /** Overwriting [s, e) lying wholly below the domain (step.go:248-269):
      a run of v at [s, e), preceded by a run of zero filling any gap. */
  ghost function ExtendBelow<V>(t: seq<Boundary<V>>, s: int, e: int, v: V, zero: V): seq<Boundary<V>>
    requires Valid(t) && s < e <= t[0].pos
  {
    if e == t[0].pos then Prepend(t, s, v)
    else Prepend(Prepend(t, e, zero), s, v)
  }

  lemma ExtendBelowSound<V>(t: seq<Boundary<V>>, s: int, e: int, v: V, zero: V)
    requires Valid(t) && s < e <= t[0].pos
    ensures var r := ExtendBelow(t, s, e, v, zero);
      && Valid(r) && r[0].pos == s && r[|r| - 1].pos == t[|t| - 1].pos
      && forall x :: ValueAt(r, x) == Overwritten(t, s, e, v, zero, x)
  {
    var r := ExtendBelow(t, s, e, v, zero);
    if e < t[0].pos {
      var p := Prepend(t, e, zero);
      PrependSound(t, e, zero);
      assert r == Prepend(p, s, v);
      PrependSound(p, s, v);
      forall x ensures ValueAt(r, x) == Overwritten(t, s, e, v, zero, x) {
        ExtendBelowAt(t, p, r, s, e, v, zero, x);
      }
    } else {
      PrependSound(t, s, v);
      forall x ensures ValueAt(r, x) == Overwritten(t, s, e, v, zero, x) {
        Domain(t, x);
      }
    }
  }

  /** One position of a downward growth across a gap. */
  lemma ExtendBelowAt<V>(t: seq<Boundary<V>>, p: seq<Boundary<V>>, r: seq<Boundary<V>>, s: int, e: int, v: V, zero: V, x: int)
    requires Valid(t) && s < e < t[0].pos
    requires ValueAt(p, x) == if e <= x < t[0].pos then Some(zero) else ValueAt(t, x)
    requires ValueAt(r, x) == if s <= x < e then Some(v) else ValueAt(p, x)
    ensures ValueAt(r, x) == Overwritten(t, s, e, v, zero, x)
  {
    Domain(t, x);
    Before(t, 0, |t| - 1);
  }


  /** Overwriting [s, e) lying wholly above the domain (step.go:270-287):
      any gap is filled with a run of zero, then a run of v at [s, e). */
  ghost function ExtendAbove<V>(t: seq<Boundary<V>>, s: int, e: int, v: V, zero: V): seq<Boundary<V>>
    requires Valid(t) && t[|t| - 1].pos <= s < e
  {
    if s == t[|t| - 1].pos then Append(t, e, v)
    else Append(Append(t, s, zero), e, v)
  }

  lemma ExtendAboveSound<V>(t: seq<Boundary<V>>, s: int, e: int, v: V, zero: V)
    requires Valid(t) && t[|t| - 1].pos <= s < e
    ensures var r := ExtendAbove(t, s, e, v, zero);
      && Valid(r) && r[0].pos == t[0].pos && r[|r| - 1].pos == e
      && forall x :: ValueAt(r, x) == Overwritten(t, s, e, v, zero, x)
  {
    if s > t[|t| - 1].pos {
      AppendSound(t, s, zero);
      AppendSound(Append(t, s, zero), e, v);
    } else {
      AppendSound(t, e, v);
    }
    forall x ensures ValueAt(ExtendAbove(t, s, e, v, zero), x) == Overwritten(t, s, e, v, zero, x) {
      Domain(t, x);
    }
  }

  /** Overwriting [s, e) inside the domain, stated against Overwritten. */
  lemma InsideSound<V>(t: seq<Boundary<V>>, s: int, e: int, v: V, zero: V)
    requires Valid(t) && t[0].pos <= s < e <= t[|t| - 1].pos
    ensures var r := SetRangeCanon(t, s, e, v);
      && Valid(r) && r[0].pos == t[0].pos && r[|r| - 1].pos == t[|t| - 1].pos
      && forall x :: ValueAt(r, x) == Overwritten(t, s, e, v, zero, x)
  {
    SetRangeCanonSound(t, s, e, v);
    forall x ensures ValueAt(SetRangeCanon(t, s, e, v), x) == Overwritten(t, s, e, v, zero, x) {
      Domain(t, x);
    }
  }

  /** The domain grown, where needed, by runs of v so that it covers an
      overlapping [s, e). */
  ghost function Cover<V>(t: seq<Boundary<V>>, s: int, e: int, v: V): seq<Boundary<V>>
    requires Valid(t) && s < t[|t| - 1].pos && t[0].pos < e
  {
    var lower := if s < t[0].pos then Prepend(t, s, v) else t;
    if e > lower[|lower| - 1].pos then Append(lower, e, v) else lower
  }

  lemma CoverSound<V>(t: seq<Boundary<V>>, s: int, e: int, v: V, zero: V)
    requires Valid(t) && s < t[|t| - 1].pos && t[0].pos < e && s < e
    ensures var r := Cover(t, s, e, v);
      && Valid(r) && r[0].pos <= s && e <= r[|r| - 1].pos
      && r[0].pos == (if s < t[0].pos then s else t[0].pos)
      && r[|r| - 1].pos == (if e > t[|t| - 1].pos then e else t[|t| - 1].pos)
      && forall x :: (x < s || e <= x) ==> ValueAt(r, x) == Overwritten(t, s, e, v, zero, x)
  {
    var lower := if s < t[0].pos then Prepend(t, s, v) else t;
    if s < t[0].pos {
      PrependSound(t, s, v);
    }
    var r := if e > lower[|lower| - 1].pos then Append(lower, e, v) else lower;
    if e > lower[|lower| - 1].pos {
      AppendSound(lower, e, v);
    }
    assert r == Cover(t, s, e, v);
    forall x | x < s || e <= x ensures ValueAt(r, x) == Overwritten(t, s, e, v, zero, x) {
      CoverAt(t, lower, r, s, e, v, zero, x);
    }
  }

  /** One position outside [s, e) of a growth that covers it. */
  lemma CoverAt<V>(t: seq<Boundary<V>>, lower: seq<Boundary<V>>, r: seq<Boundary<V>>, s: int, e: int, v: V, zero: V, x: int)
    requires Valid(t) && s < t[|t| - 1].pos && t[0].pos < e && s < e && (x < s || e <= x)
    requires |lower| > 0 && lower[|lower| - 1].pos == t[|t| - 1].pos
    requires ValueAt(lower, x) == if s <= x < t[0].pos then Some(v) else ValueAt(t, x)
    requires ValueAt(r, x) == if lower[|lower| - 1].pos <= x < e then Some(v) else ValueAt(lower, x)
    ensures ValueAt(r, x) == Overwritten(t, s, e, v, zero, x)
  {
    Domain(t, x);
  }

  /** One position outside [s, e) of a growth in two steps, first down to s
      and then up to e, each writing v over what it adds. */
  lemma GrowOverAt<V>(t0: seq<Boundary<V>>, t1: seq<Boundary<V>>, t2: seq<Boundary<V>>, s: int, e: int, v: V, zero: V, x: int)
    requires Valid(t0) && s < t0[|t0| - 1].pos && t0[0].pos < e && (x < s || e <= x)
    requires |t1| > 0 && t1[0].pos == (if s < t0[0].pos then s else t0[0].pos)
    requires t1[|t1| - 1].pos == t0[|t0| - 1].pos
    requires s < t0[0].pos ==> ValueAt(t1, x) == Overwritten(t0, s, t0[0].pos, v, zero, x)
    requires !(s < t0[0].pos) ==> ValueAt(t1, x) == ValueAt(t0, x)
    requires t1[|t1| - 1].pos < e ==> ValueAt(t2, x) == Overwritten(t1, t1[|t1| - 1].pos, e, v, zero, x)
    requires !(t1[|t1| - 1].pos < e) ==> ValueAt(t2, x) == ValueAt(t1, x)
    ensures ValueAt(t2, x) == Overwritten(t0, s, e, v, zero, x)
  {
    Domain(t0, x);
  }

  /** Writing v over [s, e) once the domain has been grown to c, which
      already agrees with the intended result outside [s, e), yields the
      intended result everywhere. */
  lemma CoverThenWriteSound<V>(t: seq<Boundary<V>>, c: seq<Boundary<V>>, s: int, e: int, v: V, zero: V)
    requires Valid(t) && Valid(c) && c[0].pos <= s < e <= c[|c| - 1].pos
    requires forall x :: (x < s || e <= x) ==> ValueAt(c, x) == Overwritten(t, s, e, v, zero, x)
    ensures var r := SetRangeCanon(c, s, e, v);
      && Valid(r) && r[0].pos == c[0].pos && r[|r| - 1].pos == c[|c| - 1].pos
      && forall x :: ValueAt(r, x) == Overwritten(t, s, e, v, zero, x)
  {
    SetRangeCanonSound(c, s, e, v);
    var r := SetRangeCanon(c, s, e, v);
    forall x ensures ValueAt(r, x) == Overwritten(t, s, e, v, zero, x) {
      if x < s || e <= x {
        assert ValueAt(r, x) == ValueAt(c, x);
      }
    }
  }

  /** In a valid store every boundary after the first changes the value. */
  lemma ChangeAt<V>(t: seq<Boundary<V>>, p: int)
    requires Valid(t) && p in Positions(t) && t[0].pos < p
    ensures ValueAt(t, p - 1) != ValueAt(t, p)
  {
    FloorFinds(t, p);
    var j := Floor(t, p);
    assert 0 < j;
    Before(t, j - 1, j);
    StepValue(t, j - 1, p - 1);
    if j < |t| - 1 {
      Before(t, j, j + 1);
      StepValue(t, j, p);
    } else {
      LastValue(t, p);
    }
    assert Differs(t, j);
  }

  /** The stored positions of a valid store are exactly the points where
      its abstract array changes value, so the store is the array's
      run-length encoding and nothing more. */
  lemma ChangePoints<V>(t: seq<Boundary<V>>)
    requires Valid(t)
    ensures forall x :: x in Positions(t) <==> ValueAt(t, x - 1) != ValueAt(t, x)
  {
    Before(t, 0, 1);
    forall x ensures x in Positions(t) <==> ValueAt(t, x - 1) != ValueAt(t, x) {
      var k := Floor(t, x);
      FloorValue(t, x);
      FloorValue(t, x - 1);
      if k > 0 {
        Before(t, 0, k);
      }
      if x in Positions(t) {
        FloorFinds(t, x);
        if t[0].pos < x {
          ChangeAt(t, x);
        } else {
          FloorAt(t, x - 1, -1);
        }
      } else if k >= 0 {
        FloorAt(t, x - 1, k);
      } else {
        FloorAt(t, x - 1, -1);
      }
    }
  }

  /** Two sorted stores with the same positions agree on their first n. */
  lemma {:induction false} PrefixAgree<V>(t: seq<Boundary<V>>, u: seq<Boundary<V>>, n: int)
    requires Sorted(t) && Sorted(u) && Positions(t) == Positions(u)
    requires 0 <= n <= |t| && n <= |u|
    ensures forall i :: 0 <= i < n ==> t[i].pos == u[i].pos
  {
    if n > 0 {
      PrefixAgree(t, u, n - 1);
      var i := n - 1;
      if t[i].pos < u[i].pos {
        assert t[i].pos in Positions(u);
        var j :| 0 <= j < |u| && u[j].pos == t[i].pos;
        if j < i {
          Before(t, j, i);
        } else if i < j {
          Before(u, i, j);
        }
      } else if u[i].pos < t[i].pos {
        assert u[i].pos in Positions(t);
        var j :| 0 <= j < |t| && t[j].pos == u[i].pos;
        if j < i {
          Before(u, j, i);
        } else if i < j {
          Before(t, i, j);
        }
      }
    }
  }

  /** Two sorted stores with the same positions have them in the same
      places. */
  lemma SamePlaces<V>(t: seq<Boundary<V>>, u: seq<Boundary<V>>)
    requires Sorted(t) && Sorted(u) && Positions(t) == Positions(u)
    ensures |t| == |u| && forall i :: 0 <= i < |t| ==> t[i].pos == u[i].pos
  {
    if |t| < |u| {
      PrefixAgree(t, u, |t|);
      assert u[|t|].pos in Positions(t);
      var j :| 0 <= j < |t| && t[j].pos == u[|t|].pos;
      Before(u, j, |t|);
    } else if |u| < |t| {
      PrefixAgree(t, u, |u|);
      assert t[|u|].pos in Positions(u);
      var j :| 0 <= j < |u| && u[j].pos == t[|u|].pos;
      Before(t, j, |u|);
    }
    PrefixAgree(t, u, |t|);
  }

  /** A valid store is determined by its abstract array: canonicity makes
      the run-length encoding unique. */
  lemma Unique<V>(t: seq<Boundary<V>>, u: seq<Boundary<V>>)
    requires Valid(t) && Valid(u) && forall x :: ValueAt(t, x) == ValueAt(u, x)
    ensures t == u
  {
    ChangePoints(t);
    ChangePoints(u);
    forall x ensures x in Positions(t) <==> x in Positions(u) {
      assert ValueAt(t, x - 1) == ValueAt(u, x - 1);
    }
    assert Positions(t) == Positions(u);
    SamePlaces(t, u);
    forall i | 0 <= i < |t| ensures t[i] == u[i] {
      if i < |t| - 1 {
        Before(t, i, i + 1);
        Before(u, i, i + 1);
        StepValue(t, i, t[i].pos);
        StepValue(u, i, u[i].pos);
      }
    }
  }

  /** A vector holding one value over its whole extent has exactly two
      boundaries, however it came to hold it. */
  lemma SingleRun<V>(t: seq<Boundary<V>>, a: int, b: int, z: V)
    requires Valid(t) && a < b
    requires forall x :: ValueAt(t, x) == if a <= x < b then Some(z) else None
    ensures t == [Boundary(a, Some(z)), Boundary(b, None)]
  {
    var r := [Boundary(a, Some(z)), Boundary(b, None)];
    assert Differs(r, 1);
    forall x ensures ValueAt(r, x) == ValueAt(t, x) {
      FloorValue(r, x);
    }
    Unique(r, t);
  }
}
