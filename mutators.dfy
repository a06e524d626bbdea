// The integer mutators handed to Apply and ApplyRange (step.go:414-426).
// A Go int is 64 bits wide here and its arithmetic wraps around, so the
// model spells the wrap out.

module Mutators {
  import opened Store
  import opened Runs
  import opened Transforms

  const Modulus: int := 0x1_0000_0000_0000_0000
  const MinInt: int := -0x8000_0000_0000_0000
  const MaxInt: int := 0x7fff_ffff_ffff_ffff

  /** A Go int. */
  type Int64 = x: int | -0x8000_0000_0000_0000 <= x <= 0x7fff_ffff_ffff_ffff

  /** The two's-complement reading of an unbounded integer: the one Int64
      congruent to it modulo 2^64. */
  function Wrap(x: int): (r: Int64)
    ensures (r - x) % Modulus == 0
    ensures MinInt <= x <= MaxInt ==> r == x
  {
    (x - MinInt) % Modulus + MinInt
  }

  /** Increment, wrapping from the largest int to the smallest. */
  function IncInt(v: Int64): (r: Int64)
    ensures r == Wrap(v + 1)
  {
    if v == MaxInt then MinInt else v + 1
  }

  /** Decrement, wrapping from the smallest int to the largest. */
  function DecInt(v: Int64): (r: Int64)
    ensures r == Wrap(v - 1)
  {
    if v == MinInt then MaxInt else v - 1
  }

  /** DecInt undoes IncInt, under Option. */
  lemma DecUndoesInc(o: Option<Int64>)
    ensures MapOpt(DecInt, MapOpt(IncInt, o)) == o
  {
    if o.Some? {
      assert IncInt(o.value) == if o.value == MaxInt then MinInt else o.value + 1;
    }
  }

  /** IncInt undoes DecInt, under Option. */
  lemma IncUndoesDec(o: Option<Int64>)
    ensures MapOpt(IncInt, MapOpt(DecInt, o)) == o
  {
    if o.Some? {
      assert DecInt(o.value) == if o.value == MinInt then MaxInt else o.value - 1;
    }
  }

  /** Applying IncInt and then DecInt gives back the vector it started
      from, boundaries and all: the wrap loses nothing, and the store of
      a vector is determined by its values. */
  lemma IncThenDec(t: seq<Boundary<Int64>>, u: seq<Boundary<Int64>>, w: seq<Boundary<Int64>>)
    requires Valid(t) && Valid(u) && Valid(w)
    requires forall x :: ValueAt(u, x) == MapOpt(IncInt, ValueAt(t, x))
    requires forall x :: ValueAt(w, x) == MapOpt(DecInt, ValueAt(u, x))
    ensures w == t
  {
    forall x ensures ValueAt(w, x) == ValueAt(t, x) {
      assert ValueAt(u, x) == MapOpt(IncInt, ValueAt(t, x));
      DecUndoesInc(ValueAt(t, x));
    }
    Unique(w, t);
  }

  /** Applying DecInt and then IncInt gives back the vector it started
      from. */
  lemma DecThenInc(t: seq<Boundary<Int64>>, u: seq<Boundary<Int64>>, w: seq<Boundary<Int64>>)
    requires Valid(t) && Valid(u) && Valid(w)
    requires forall x :: ValueAt(u, x) == MapOpt(DecInt, ValueAt(t, x))
    requires forall x :: ValueAt(w, x) == MapOpt(IncInt, ValueAt(u, x))
    ensures w == t
  {
    forall x ensures ValueAt(w, x) == ValueAt(t, x) {
      assert ValueAt(u, x) == MapOpt(DecInt, ValueAt(t, x));
      IncUndoesDec(ValueAt(t, x));
    }
    Unique(w, t);
  }
}
