/** A value transform restricted to a span [lo, hi) of a step vector.

    The walk splits the run holding lo, maps the runs that start inside the
    span and restores the old value from hi on.  Its state is described by
    the abstract array it has produced so far, Partial, with the mapped part
    growing to a frontier; positions whose value repeats the one before
    them are queued for deletion. */
module RangeMaps {
  import opened Store
  import opened Runs
  import opened Walks
  import opened Transforms

  /** The abstract array of t with [lo, e) passed through m. */
  ghost function Partial<V>(t: seq<Boundary<V>>, m: V -> V, lo: int, e: int, x: int): Option<V> {
    if lo <= x < e then MapOpt(m, ValueAt(t, x)) else ValueAt(t, x)
  }

  /** Inserting b into the run of boundary j either overwrites boundary j
      (same position) or puts b right after it. */
  lemma InsertShape<V>(t: seq<Boundary<V>>, j: int, b: Boundary<V>)
    requires Sorted(t) && 0 <= j < |t| - 1 && t[j].pos <= b.pos < t[j + 1].pos
    ensures t[j].pos == b.pos ==> Insert(t, b) == t[..j] + [b] + t[j + 1..]
    ensures t[j].pos < b.pos ==> Insert(t, b) == t[..j + 1] + [b] + t[j + 1..]
  {
    if t[j].pos == b.pos {
      ReplaceAt(t, j, b);
      UpdateIs(t, j, b);
    } else {
      InsertAt(t, j + 1, b);
    }
  }

  /** b spliced in after t[..a] and before t[j + 1..], inside run j. */
  ghost predicate SplicedIn<V>(t: seq<Boundary<V>>, j: int, a: int, b: Boundary<V>, u: seq<Boundary<V>>) {
    && Sorted(t) && 0 <= j < |t| - 1 && t[j].pos <= b.pos < t[j + 1].pos
    && (a == j || a == j + 1) && (a == j <==> t[j].pos == b.pos)
    && u == t[..a] + [b] + t[j + 1..]
  }

  lemma SplicedOrder<V>(t: seq<Boundary<V>>, j: int, a: int, b: Boundary<V>, u: seq<Boundary<V>>)
    requires SplicedIn(t, j, a, b, u)
    ensures Sorted(u) && u[0].pos == t[0].pos && u[|u| - 1] == t[|t| - 1]
    ensures 0 < Ceil(u, t[j + 1].pos) < |u| && u[Ceil(u, t[j + 1].pos)..] == t[j + 1..]
    ensures u[Ceil(u, t[j + 1].pos) - 1] == b
  {
    if a == j && j > 0 {
      Before(t, j - 1, j);
    }
    SpliceSorted(t, a, j + 1, [b]);
    assert u[a + 1] == t[j + 1];
    CeilAt(u, a + 1);
    assert u[a + 1..] == t[j + 1..];
  }

  lemma SplicedValue<V>(t: seq<Boundary<V>>, j: int, a: int, b: Boundary<V>, u: seq<Boundary<V>>)
    requires SplicedIn(t, j, a, b, u)
    ensures forall x :: ValueAt(u, x) == if b.pos <= x < t[j + 1].pos then b.val else ValueAt(t, x)
  {
    SplicedOrder(t, j, a, b, u);
    var pb := t[..a] + [b];
    SortedParts(pb, t[j + 1..]);
    SortedParts(t[..a], [b]);
    forall x ensures ValueAt(u, x) == if b.pos <= x < t[j + 1].pos then b.val else ValueAt(t, x) {
      ConcatValue(pb, t[j + 1..], x);
      ConcatValue(t[..a], [b], x);
      if t[j + 1].pos <= x {
        SuffixValue(t, j + 1, x);
      } else if b.pos <= x {
        LastValue([b], x);
      } else {
        PrefixValue(t, a, x);
      }
    }
  }

  lemma SplicedPositions<V>(t: seq<Boundary<V>>, j: int, a: int, b: Boundary<V>, u: seq<Boundary<V>>)
    requires SplicedIn(t, j, a, b, u)
    ensures forall p :: p in Positions(u) <==> p in Positions(t) || p == b.pos
  {
    forall p ensures p in Positions(u) <==> p in Positions(t) || p == b.pos {
      if p in Positions(u) {
        var i :| 0 <= i < |u| && u[i].pos == p;
        if i < a {
          assert u[i] == t[i];
        } else if i > a {
          assert u[i] == t[i - a + j];
        }
      }
      if p in Positions(t) {
        var i :| 0 <= i < |t| && t[i].pos == p;
        if i < a {
          assert u[i] == t[i];
        } else if i > j {
          assert u[i - j + a] == t[i];
        }
      }
      if p == b.pos {
        assert u[a] == b;
      }
    }
  }

  /** Inserting b into the run of boundary j gives b's value to the part of
      that run from b.pos on, and adds b.pos to the stored positions. */
  lemma InsertRun<V>(t: seq<Boundary<V>>, j: int, b: Boundary<V>)
    requires Sorted(t) && 0 <= j < |t| - 1 && t[j].pos <= b.pos < t[j + 1].pos
    ensures var u := Insert(t, b);
      && Sorted(u) && u[0].pos == t[0].pos && u[|u| - 1] == t[|t| - 1]
      && 0 < Ceil(u, t[j + 1].pos) < |u| && u[Ceil(u, t[j + 1].pos)..] == t[j + 1..]
      && u[Ceil(u, t[j + 1].pos) - 1] == b
      && (forall x :: ValueAt(u, x) == if b.pos <= x < t[j + 1].pos then b.val else ValueAt(t, x))
      && (forall p :: p in Positions(u) <==> p in Positions(t) || p == b.pos)
  {
    var a := if t[j].pos == b.pos then j else j + 1;
    InsertShape(t, j, b);
    var u := Insert(t, b);
    assert SplicedIn(t, j, a, b, u);
    SplicedOrder(t, j, a, b, u);
    SplicedValue(t, j, a, b, u);
    SplicedPositions(t, j, a, b, u);
  }

  /** Giving boundary k the value p.val changes the abstract array on the
      run of k only. */
  lemma MapRun<V>(u: seq<Boundary<V>>, k: int, p: Boundary<V>)
    requires Sorted(u) && 0 <= k < |u| - 1 && p.pos == u[k].pos
    ensures Sorted(u[k := p]) && Positions(u[k := p]) == Positions(u)
    ensures forall x {:trigger ValueAt(u[k := p], x)} :: ValueAt(u[k := p], x) == if u[k].pos <= x < u[k + 1].pos then p.val else ValueAt(u, x)
  {
    var r := u[k := p];
    forall i, j | 0 <= i < j < |r| ensures Less(r, i, j) {
      Before(u, i, j);
    }
    forall x ensures ValueAt(r, x) == if u[k].pos <= x < u[k + 1].pos then p.val else ValueAt(u, x) {
      var f := Floor(u, x);
      FloorAt(r, x, f);
      FloorValue(r, x);
      FloorValue(u, x);
      if u[k].pos <= x < u[k + 1].pos {
        FloorAt(u, x, k);
      }
    }
    forall q ensures q in Positions(r) <==> q in Positions(u) {
      if q in Positions(r) {
        var i :| 0 <= i < |r| && r[i].pos == q;
        assert u[i].pos == q;
      }
      if q in Positions(u) {
        var i :| 0 <= i < |u| && u[i].pos == q;
        assert r[i].pos == q;
      }
    }
  }

  /** The state of ApplyRange's walk over [lo, hi) with its frontier at
      boundary k of u, which is boundary ct of t: [lo, u[k].pos) has been
      mapped and u from k on is t's; prev is the last boundary passed (as it
      was), la its new value; q lists the positions below the frontier whose
      value repeats the one before them. */
  ghost predicate Spanned<V>(t: seq<Boundary<V>>, m: V -> V, lo: int, hi: int, u: seq<Boundary<V>>, k: int, ct: int,
                             la: V, prev: Boundary<V>, q: seq<int>)
  {
    && 0 < k < |u| && 0 < ct < |t|
    && Sorted(u) && u[0].pos == t[0].pos && u[|u| - 1] == t[|t| - 1]
    && u[k..] == t[ct..]
    && lo < u[k].pos && u[k - 1].pos < hi && prev.pos < hi
    && prev == t[ct - 1] && Some(la) == MapOpt(m, prev.val)
    && (forall x :: ValueAt(u, x) == Partial(t, m, lo, u[k].pos, x))
    && (forall p :: p in Positions(u) ==> p in Positions(t) || p == lo)
    && (forall i, j :: 0 <= i < j < |q| ==> q[i] < q[j])
    && (forall i :: 0 <= i < |q| ==> q[i] in Positions(u) && t[0].pos < q[i] < u[k].pos)
    && (forall p :: p in Positions(u) && t[0].pos < p < u[k].pos ==>
          (p in q <==> Partial(t, m, lo, hi, p - 1) == Partial(t, m, lo, hi, p)))
  }

  /** Facts about the frontier boundary while it lies below hi: it is one
      of t's boundaries before the end sentinel, so it holds a value. */
  lemma SpanAt<V>(t: seq<Boundary<V>>, m: V -> V, lo: int, hi: int, u: seq<Boundary<V>>, k: int, ct: int,
                  la: V, prev: Boundary<V>, q: seq<int>)
    requires Framed(t) && hi <= t[|t| - 1].pos
    requires Spanned(t, m, lo, hi, u, k, ct, la, prev, q) && u[k].pos < hi
    ensures k < |u| - 1 && ct < |t| - 1 && u[k] == t[ct] && u[k].val.Some?
  {
    assert u[k] == t[ct];
    if ct == |t| - 1 {
      assert false;
    }
    assert u[k..][|u| - k - 1] == t[ct..][|t| - ct - 1];
  }

  /** The walk's start when m keeps the value of the run holding lo: nothing
      is inserted and nothing is queued. */
  lemma SpanStartKeep<V>(t: seq<Boundary<V>>, m: V -> V, lo: int, hi: int, f: int)
    requires Valid(t) && t[0].pos <= lo < hi <= t[|t| - 1].pos && f == Floor(t, lo)
    requires 0 <= f < |t| - 1 && t[f + 1].pos < hi && MapOpt(m, t[f].val) == t[f].val
    ensures t[f].val.Some? && Ceil(t, t[f + 1].pos) == f + 1
    ensures Spanned(t, m, lo, hi, t, f + 1, f + 1, m(t[f].val.value), t[f], [])
  {
    CeilAt(t, f + 1);
    forall x ensures ValueAt(t, x) == Partial(t, m, lo, t[f + 1].pos, x) {
      if lo <= x < t[f + 1].pos {
        StepValue(t, f, x);
      }
    }
    forall p | p in Positions(t) && t[0].pos < p < t[f + 1].pos
      ensures Partial(t, m, lo, hi, p - 1) != Partial(t, m, lo, hi, p)
    {
      var i :| 0 <= i < |t| && t[i].pos == p;
      if f + 1 < i {
        Before(t, f + 1, i);
      }
      if i < f {
        Before(t, i, f);
      }
      if p == lo {
        StepValue(t, f, lo);
      }
      ChangeAt(t, p);
    }
  }

  /** The walk's start when m changes the value of the run holding lo: a
      boundary carrying the new value is put at lo, and lo is queued when
      the run before it already holds that value. */
  lemma SpanStartInsert<V>(t: seq<Boundary<V>>, m: V -> V, lo: int, hi: int, f: int, u: seq<Boundary<V>>, q: seq<int>)
    requires Valid(t) && t[0].pos <= lo < hi <= t[|t| - 1].pos && f == Floor(t, lo)
    requires 0 <= f < |t| - 1 && t[f + 1].pos < hi && MapOpt(m, t[f].val) != t[f].val
    requires u == Insert(t, Boundary(lo, MapOpt(m, t[f].val)))
    requires q == [] || q == [lo]
    requires q == [lo] <==> t[f].pos == lo && 0 < f && t[f - 1].val == MapOpt(m, t[f].val)
    ensures t[f].val.Some? && 0 < Ceil(u, t[f + 1].pos) < |u|
    ensures Spanned(t, m, lo, hi, u, Ceil(u, t[f + 1].pos), f + 1, m(t[f].val.value), t[f], q)
  {
    StartStore(t, m, lo, f, u);
    if q == [lo] {
      Before(t, 0, f);
    }
    StartQueue(t, m, lo, hi, f, u, q);
  }

  /** The store after the insertion at lo: it keeps t's ends and t from
      t[f + 1] on, reads the old array mapped on [lo, t[f + 1].pos), and
      adds only lo to t's positions. */
  lemma StartStore<V>(t: seq<Boundary<V>>, m: V -> V, lo: int, f: int, u: seq<Boundary<V>>)
    requires Valid(t) && t[0].pos <= lo && f == Floor(t, lo) && 0 <= f < |t| - 1 && lo < t[f + 1].pos
    requires u == Insert(t, Boundary(lo, MapOpt(m, t[f].val)))
    ensures var k := Ceil(u, t[f + 1].pos);
      && 0 < k < |u| && Sorted(u) && u[0].pos == t[0].pos && u[|u| - 1] == t[|t| - 1]
      && u[k..] == t[f + 1..] && u[k - 1].pos == lo
    ensures forall x :: ValueAt(u, x) == Partial(t, m, lo, t[f + 1].pos, x)
    ensures forall p :: p in Positions(u) ==> p in Positions(t) || p == lo
    ensures lo in Positions(u)
  {
    var b := Boundary(lo, MapOpt(m, t[f].val));
    InsertRun(t, f, b);
    var k := Ceil(u, t[f + 1].pos);
    forall x ensures ValueAt(u, x) == Partial(t, m, lo, t[f + 1].pos, x) {
      if lo <= x < t[f + 1].pos {
        StepValue(t, f, x);
      }
    }
  }

  /** Below the first frontier only lo can repeat its predecessor, and q
      holds it exactly when it does. */
  lemma StartQueue<V>(t: seq<Boundary<V>>, m: V -> V, lo: int, hi: int, f: int, u: seq<Boundary<V>>, q: seq<int>)
    requires Valid(t) && t[0].pos <= lo < hi && f == Floor(t, lo) && 0 <= f < |t| - 1
    requires lo < t[f + 1].pos && MapOpt(m, t[f].val) != t[f].val
    requires forall p :: p in Positions(u) ==> p in Positions(t) || p == lo
    requires q == [] || q == [lo]
    requires q == [lo] <==> t[f].pos == lo && 0 < f && t[f - 1].val == MapOpt(m, t[f].val)
    ensures forall p :: p in Positions(u) && t[0].pos < p < t[f + 1].pos ==>
      (p in q <==> Partial(t, m, lo, hi, p - 1) == Partial(t, m, lo, hi, p))
  {
    forall p | p in Positions(u) && t[0].pos < p < t[f + 1].pos
      ensures p in q <==> Partial(t, m, lo, hi, p - 1) == Partial(t, m, lo, hi, p)
    {
      if p == lo {
        HeadRepeat(t, m, lo, hi, f);
      } else {
        BelowRepeat(t, m, lo, hi, f, p);
      }
    }
  }

  /** A stored position below lo in the run before the span is a change of
      value, as it was. */
  lemma BelowRepeat<V>(t: seq<Boundary<V>>, m: V -> V, lo: int, hi: int, f: int, p: int)
    requires Valid(t) && t[0].pos <= lo < hi && f == Floor(t, lo) && 0 <= f < |t| - 1
    requires p in Positions(t) && t[0].pos < p < t[f + 1].pos && p != lo
    ensures Partial(t, m, lo, hi, p - 1) != Partial(t, m, lo, hi, p)
  {
    var i :| 0 <= i < |t| && t[i].pos == p;
    if f + 1 < i {
      Before(t, f + 1, i);
    }
    if i < f {
      Before(t, i, f);
    }
    ChangeAt(t, p);
  }

  /** When m changes the value of the run holding lo, the new value at lo
      repeats the one before it exactly when lo is a stored position and
      the run before it already holds the new value. */
  lemma HeadRepeat<V>(t: seq<Boundary<V>>, m: V -> V, lo: int, hi: int, f: int)
    requires Valid(t) && t[0].pos < lo < hi && f == Floor(t, lo) && 0 <= f < |t| - 1
    requires lo < t[f + 1].pos && MapOpt(m, t[f].val) != t[f].val
    ensures Partial(t, m, lo, hi, lo - 1) == Partial(t, m, lo, hi, lo)
        <==> t[f].pos == lo && 0 < f && t[f - 1].val == MapOpt(m, t[f].val)
  {
    StepValue(t, f, lo);
    if t[f].pos < lo {
      StepValue(t, f, lo - 1);
    } else {
      if f == 0 {
        assert false;
      }
      Before(t, f - 1, f);
      StepValue(t, f - 1, lo - 1);
    }
  }

  /** One step of the walk that maps the frontier boundary and does not
      queue it. */
  lemma SpanStepKeep<V>(t: seq<Boundary<V>>, m: V -> V, lo: int, hi: int, u: seq<Boundary<V>>, k: int, ct: int,
                        la: V, prev: Boundary<V>, q: seq<int>, p: Boundary<V>)
    requires Framed(t) && hi <= t[|t| - 1].pos
    requires Spanned(t, m, lo, hi, u, k, ct, la, prev, q) && u[k].pos < hi && u[k].val.Some?
    requires p == Boundary(u[k].pos, Some(m(u[k].val.value)))
    requires !(p.pos != t[0].pos && p.val == Some(la))
    ensures Spanned(t, m, lo, hi, u[k := p], k + 1, ct + 1, p.val.value, u[k], q)
  {
    SpanStep(t, m, lo, hi, u, k, ct, la, prev, q, p);
    var r := u[k := p];
    forall i | 0 <= i < |q| ensures q[i] in Positions(r) && t[0].pos < q[i] < r[k + 1].pos {
    }
    forall x | x in Positions(r) && t[0].pos < x < r[k + 1].pos
      ensures x in q <==> Partial(t, m, lo, hi, x - 1) == Partial(t, m, lo, hi, x)
    {
      if x < u[k].pos {
        assert x in Positions(u);
      }
    }
  }

  /** One step of the walk that maps the frontier boundary and queues it,
      its new value repeating the one before it. */
  lemma SpanStepQueue<V>(t: seq<Boundary<V>>, m: V -> V, lo: int, hi: int, u: seq<Boundary<V>>, k: int, ct: int,
                         la: V, prev: Boundary<V>, q: seq<int>, p: Boundary<V>)
    requires Framed(t) && hi <= t[|t| - 1].pos
    requires Spanned(t, m, lo, hi, u, k, ct, la, prev, q) && u[k].pos < hi && u[k].val.Some?
    requires p == Boundary(u[k].pos, Some(m(u[k].val.value)))
    requires p.pos != t[0].pos && p.val == Some(la)
    ensures Spanned(t, m, lo, hi, u[k := p], k + 1, ct + 1, p.val.value, u[k], q + [p.pos])
  {
    SpanStep(t, m, lo, hi, u, k, ct, la, prev, q, p);
    var r := u[k := p];
    var q' := q + [p.pos];
    Before(u, 0, k);
    assert p.pos in Positions(r) by {
      assert r[k].pos == p.pos;
    }
    forall i | 0 <= i < |q'| ensures q'[i] in Positions(r) && t[0].pos < q'[i] < r[k + 1].pos {
      if i < |q| {
        assert q'[i] == q[i];
      }
    }
    forall i, j | 0 <= i < j < |q'| ensures q'[i] < q'[j] {
      assert q'[i] == q[i];
      if j < |q| {
        assert q'[j] == q[j];
      }
    }
    forall x | x in Positions(r) && t[0].pos < x < r[k + 1].pos
      ensures x in q' <==> Partial(t, m, lo, hi, x - 1) == Partial(t, m, lo, hi, x)
    {
      if x < u[k].pos {
        assert x in Positions(u);
      }
    }
  }

  /** The common part of a step: the mapped store, its new frontier, and
      whether the frontier repeats the value before it. */
  lemma SpanStep<V>(t: seq<Boundary<V>>, m: V -> V, lo: int, hi: int, u: seq<Boundary<V>>, k: int, ct: int,
                    la: V, prev: Boundary<V>, q: seq<int>, p: Boundary<V>)
    requires Framed(t) && hi <= t[|t| - 1].pos
    requires Spanned(t, m, lo, hi, u, k, ct, la, prev, q) && u[k].pos < hi && u[k].val.Some?
    requires p == Boundary(u[k].pos, Some(m(u[k].val.value)))
    ensures var r := u[k := p];
      && 0 < k + 1 < |r| && 0 < ct + 1 < |t|
      && Sorted(r) && r[0].pos == t[0].pos && r[|r| - 1] == t[|t| - 1]
      && r[k + 1..] == t[ct + 1..]
      && lo < r[k + 1].pos && r[k].pos < hi && u[k].pos < hi && u[k].pos < r[k + 1].pos
      && u[k] == t[ct] && Some(p.val.value) == MapOpt(m, u[k].val)
      && (forall x :: ValueAt(r, x) == Partial(t, m, lo, r[k + 1].pos, x))
      && (forall x :: x in Positions(r) ==> x in Positions(t) || x == lo)
      && Positions(r) == Positions(u)
      && (forall x :: x in Positions(r) && u[k].pos < x ==> r[k + 1].pos <= x)
      && (Partial(t, m, lo, hi, p.pos - 1) == Partial(t, m, lo, hi, p.pos) <==> p.val == Some(la))
  {
    SpanAt(t, m, lo, hi, u, k, ct, la, prev, q);
    var r := u[k := p];
    assert u[k + 1] == t[ct + 1] by {
      assert u[k..][1] == t[ct..][1];
    }
    assert r[k + 1..] == t[ct + 1..] by {
      assert r[k + 1..] == u[k..][1..];
    }
    MapRun(u, k, p);
    Before(u, k, k + 1);
    Before(t, ct, ct + 1);
    Before(t, ct - 1, ct);
    forall x ensures ValueAt(r, x) == Partial(t, m, lo, r[k + 1].pos, x) {
      if u[k].pos <= x < u[k + 1].pos {
        StepValue(t, ct, x);
      } else {
        assert ValueAt(u, x) == Partial(t, m, lo, u[k].pos, x);
      }
    }
    Around(u, k);
    forall x | x in Positions(r) && u[k].pos < x ensures r[k + 1].pos <= x {
      var i :| 0 <= i < |u| && u[i].pos == x;
      if k + 1 < i {
        Before(u, k + 1, i);
      }
    }
    StepValue(t, ct - 1, p.pos - 1);
    StepValue(t, ct, p.pos);
  }

  /** The store the walk leaves before its deletions: it reads as t with
      [lo, hi) passed through m, and q lists, in order, exactly its
      boundaries that repeat the value before them. */
  ghost predicate Edited<V>(t: seq<Boundary<V>>, m: V -> V, lo: int, hi: int, w: seq<Boundary<V>>, q: seq<int>) {
    && Sorted(w) && |w| >= 2 && Spans(w) && Queued(w, q)
    && (forall x :: ValueAt(w, x) == Partial(t, m, lo, hi, x))
  }

  /** Turns the walk's account of its queue, stated on the abstract array,
      into the store-level facts the deletion pass needs. */
  lemma SpanClose<V>(t: seq<Boundary<V>>, m: V -> V, lo: int, hi: int, w: seq<Boundary<V>>, q: seq<int>)
    requires Valid(t)
    requires Sorted(w) && |w| >= 2 && w[0].pos == t[0].pos && w[|w| - 1] == t[|t| - 1]
    requires forall x :: ValueAt(w, x) == Partial(t, m, lo, hi, x)
    requires forall i, j :: 0 <= i < j < |q| ==> q[i] < q[j]
    requires forall i :: 0 <= i < |q| ==>
      (q[i] in Positions(w) && t[0].pos < q[i] && Partial(t, m, lo, hi, q[i] - 1) == Partial(t, m, lo, hi, q[i]))
    requires forall p :: (p in Positions(w) && t[0].pos < p && Partial(t, m, lo, hi, p - 1) == Partial(t, m, lo, hi, p)) ==>
      p in q
    ensures Edited(t, m, lo, hi, w, q)
  {
    SpanDomain(t, m, lo, hi, w);
    forall i | 0 <= i < |q| ensures Repeats(w, q[i]) {
      assert ValueAt(w, q[i] - 1) == Partial(t, m, lo, hi, q[i] - 1);
    }
    forall k | 0 < k < |w| && w[k - 1].val == w[k].val ensures w[k].pos in q {
      var p := w[k].pos;
      AdjacentRepeat(w, k);
      assert ValueAt(w, p - 1) == Partial(t, m, lo, hi, p - 1);
      assert ValueAt(w, p) == Partial(t, m, lo, hi, p);
      assert p in Positions(w);
    }
  }

  /** A store reading as the partly mapped array holds values on its own
      extent and nowhere else. */
  lemma SpanDomain<V>(t: seq<Boundary<V>>, m: V -> V, lo: int, hi: int, w: seq<Boundary<V>>)
    requires Valid(t)
    requires |w| >= 2 && w[0].pos == t[0].pos && w[|w| - 1] == t[|t| - 1]
    requires forall x :: ValueAt(w, x) == Partial(t, m, lo, hi, x)
    ensures Spans(w)
  {
    DomainAll(t);
    forall x ensures ValueAt(w, x).Some? <==> w[0].pos <= x < w[|w| - 1].pos {
      assert ValueAt(w, x) == Partial(t, m, lo, hi, x);
    }
  }

  /** A boundary holding the same value as the one before it is a position
      where the array does not change. */
  lemma AdjacentRepeat<V>(w: seq<Boundary<V>>, k: int)
    requires Sorted(w) && 0 < k < |w| && w[k - 1].val == w[k].val
    ensures w[0].pos < w[k].pos && ValueAt(w, w[k].pos - 1) == ValueAt(w, w[k].pos)
  {
    var p := w[k].pos;
    Before(w, 0, k);
    Before(w, k - 1, k);
    StepValue(w, k - 1, p - 1);
    if k < |w| - 1 {
      Before(w, k, k + 1);
      StepValue(w, k, p);
    } else {
      LastValue(w, p);
    }
  }

  /** At the end of the walk: the frontier is boundary ct of t, the run
      before it holds prev's value up to the frontier, the frontier reads
      its own value, and every stored position past the frontier is still
      a change of value. */
  lemma SpanEnd<V>(t: seq<Boundary<V>>, m: V -> V, lo: int, hi: int, u: seq<Boundary<V>>, k: int, ct: int,
                   la: V, prev: Boundary<V>, q: seq<int>)
    requires Valid(t) && hi <= t[|t| - 1].pos
    requires Spanned(t, m, lo, hi, u, k, ct, la, prev, q) && hi <= u[k].pos
    ensures u[k] == t[ct] && prev.val != u[k].val && u[k].pos in Positions(u)
    ensures forall x :: prev.pos <= x < u[k].pos ==> ValueAt(t, x) == prev.val
    ensures Partial(t, m, lo, hi, u[k].pos) == u[k].val
    ensures hi == t[|t| - 1].pos ==> u[k].pos == hi && u[k].val.None?
    ensures forall p :: p in Positions(u) && u[k].pos < p ==> Partial(t, m, lo, hi, p - 1) != Partial(t, m, lo, hi, p)
  {
    assert u[k] == t[ct];
    assert Differs(t, ct);
    Before(t, ct - 1, ct);
    forall x | prev.pos <= x < u[k].pos ensures ValueAt(t, x) == prev.val {
      StepValue(t, ct - 1, x);
    }
    if ct < |t| - 1 {
      Before(t, ct, ct + 1);
      Before(t, ct, |t| - 1);
      StepValue(t, ct, u[k].pos);
    } else {
      LastValue(t, u[k].pos);
    }
    forall p | p in Positions(u) && u[k].pos < p ensures Partial(t, m, lo, hi, p - 1) != Partial(t, m, lo, hi, p) {
      var i :| 0 <= i < |t| && t[i].pos == p;
      if i < ct {
        Before(t, i, ct);
      }
      if i == ct {
        assert false;
      }
      Before(t, 0, i);
      ChangeAt(t, p);
    }
  }

  /** The walk ends with no change past it: either the span reaches the end
      of the vector, or the frontier sits at hi or already carries on the
      run's value, and the frontier is not a repeat. */
  lemma SpanEndStay<V>(t: seq<Boundary<V>>, m: V -> V, lo: int, hi: int, u: seq<Boundary<V>>, k: int, ct: int,
                       la: V, prev: Boundary<V>, q: seq<int>)
    requires Valid(t) && hi <= t[|t| - 1].pos
    requires Spanned(t, m, lo, hi, u, k, ct, la, prev, q) && hi <= u[k].pos
    requires hi == t[|t| - 1].pos || ((u[k].pos == hi || Some(la) == prev.val) && u[k].val != Some(la))
    ensures Edited(t, m, lo, hi, u, q)
  {
    SpanEnd(t, m, lo, hi, u, k, ct, la, prev, q);
    forall x ensures ValueAt(u, x) == Partial(t, m, lo, hi, x) {
      assert ValueAt(u, x) == Partial(t, m, lo, u[k].pos, x);
    }
    StepValue(t, ct - 1, u[k].pos - 1);
    forall p | p in Positions(u) && t[0].pos < p && Partial(t, m, lo, hi, p - 1) == Partial(t, m, lo, hi, p)
      ensures p in q
    {
    }
    SpanClose(t, m, lo, hi, u, q);
  }

  /** The walk ends at a frontier that repeats the new value before it: the
      frontier is queued. */
  lemma SpanEndQueue<V>(t: seq<Boundary<V>>, m: V -> V, lo: int, hi: int, u: seq<Boundary<V>>, k: int, ct: int,
                        la: V, prev: Boundary<V>, q: seq<int>)
    requires Valid(t) && hi < t[|t| - 1].pos
    requires Spanned(t, m, lo, hi, u, k, ct, la, prev, q) && hi <= u[k].pos
    requires (u[k].pos == hi || Some(la) == prev.val) && u[k].val == Some(la)
    ensures Edited(t, m, lo, hi, u, q + [u[k].pos])
  {
    SpanEnd(t, m, lo, hi, u, k, ct, la, prev, q);
    var q' := q + [u[k].pos];
    forall x ensures ValueAt(u, x) == Partial(t, m, lo, hi, x) {
      assert ValueAt(u, x) == Partial(t, m, lo, u[k].pos, x);
    }
    StepValue(t, ct - 1, u[k].pos - 1);
    forall i, j | 0 <= i < j < |q'| ensures q'[i] < q'[j] {
      assert q'[i] == q[i];
      if j < |q| {
        assert q'[j] == q[j];
      }
    }
    forall i | 0 <= i < |q'| ensures q'[i] in Positions(u) && t[0].pos < q'[i]
      && Partial(t, m, lo, hi, q'[i] - 1) == Partial(t, m, lo, hi, q'[i])
    {
      if i < |q| {
        assert q'[i] == q[i];
        assert q[i] in Positions(u) && t[0].pos < q[i] < u[k].pos;
      }
    }
    forall p | p in Positions(u) && t[0].pos < p && Partial(t, m, lo, hi, p - 1) == Partial(t, m, lo, hi, p)
      ensures p in q'
    {
    }
    SpanClose(t, m, lo, hi, u, q');
  }

  /** The walk ends inside a run whose new value differs from its old one:
      the old value is restored from hi on by a boundary at hi. */
  lemma SpanEndSplit<V>(t: seq<Boundary<V>>, m: V -> V, lo: int, hi: int, u: seq<Boundary<V>>, k: int, ct: int,
                        la: V, prev: Boundary<V>, q: seq<int>)
    requires Valid(t) && hi < t[|t| - 1].pos
    requires Spanned(t, m, lo, hi, u, k, ct, la, prev, q) && lo < hi < u[k].pos && Some(la) != prev.val
    ensures Edited(t, m, lo, hi, Insert(u, Boundary(hi, prev.val)), q)
  {
    SpanEnd(t, m, lo, hi, u, k, ct, la, prev, q);
    var b := Boundary(hi, prev.val);
    var w := Insert(u, b);
    InsertRun(u, k - 1, b);
    forall x ensures ValueAt(w, x) == Partial(t, m, lo, hi, x) {
      assert ValueAt(u, x) == Partial(t, m, lo, u[k].pos, x);
    }
    StepValue(t, ct - 1, hi - 1);
    StepValue(t, ct - 1, u[k].pos - 1);
    forall i | 0 <= i < |q| ensures q[i] in Positions(w) && t[0].pos < q[i]
      && Partial(t, m, lo, hi, q[i] - 1) == Partial(t, m, lo, hi, q[i])
    {
      assert q[i] in Positions(u) && t[0].pos < q[i] < u[k].pos;
    }
    assert ValueAt(t, hi) == prev.val;
    assert Partial(t, m, lo, hi, hi - 1) != Partial(t, m, lo, hi, hi);
    SplitQueue(t, m, lo, hi, u, u[k].pos, q, w);
    SpanClose(t, m, lo, hi, w, q);
  }

  /** The queue is complete for the split store: its one new position, hi,
      is a change of value, and so is the frontier e and every position
      past it. */
  lemma SplitQueue<V>(t: seq<Boundary<V>>, m: V -> V, lo: int, hi: int, u: seq<Boundary<V>>, e: int, q: seq<int>,
                      w: seq<Boundary<V>>)
    requires forall p :: p in Positions(w) ==> p in Positions(u) || p == hi
    requires Partial(t, m, lo, hi, hi - 1) != Partial(t, m, lo, hi, hi)
    requires Partial(t, m, lo, hi, e - 1) != Partial(t, m, lo, hi, e)
    requires forall p :: p in Positions(u) && e < p ==> Partial(t, m, lo, hi, p - 1) != Partial(t, m, lo, hi, p)
    requires forall p :: p in Positions(u) && t[0].pos < p < e ==>
      (p in q <==> Partial(t, m, lo, hi, p - 1) == Partial(t, m, lo, hi, p))
    ensures forall p :: (p in Positions(w) && t[0].pos < p && Partial(t, m, lo, hi, p - 1) == Partial(t, m, lo, hi, p)) ==>
      p in q
  {
  }

  /** Cutting [from, to) to the vector's extent changes nothing: outside the
      extent there is no value to map. */
  lemma PartialClipped<V>(t: seq<Boundary<V>>, m: V -> V, from: int, to: int)
    requires Valid(t)
    ensures forall x ::
      Partial(t, m, Max(from, t[0].pos), Min(to, t[|t| - 1].pos), x) == if from <= x < to then MapOpt(m, ValueAt(t, x)) else ValueAt(t, x)
  {
    DomainAll(t);
  }

  /** A span inside a single run is mapped by overwriting it with the run's
      new value. */
  lemma RunPartial<V>(t: seq<Boundary<V>>, m: V -> V, lo: int, hi: int, f: int, zero: V)
    requires Valid(t) && t[0].pos <= lo < hi && f == Floor(t, lo) && 0 <= f < |t| - 1 && hi <= t[f + 1].pos
    ensures t[f].val.Some?
    ensures forall x :: Overwritten(t, lo, hi, m(t[f].val.value), zero, x) == Partial(t, m, lo, hi, x)
  {
    DomainAll(t);
    if f + 1 < |t| - 1 {
      Before(t, f + 1, |t| - 1);
    }
    forall x ensures Overwritten(t, lo, hi, m(t[f].val.value), zero, x) == Partial(t, m, lo, hi, x) {
      if lo <= x < hi {
        StepValue(t, f, x);
      }
    }
  }
}
