# Step vector

A step vector (`step.go`) stores a dense array over a contiguous integer
range `[Start, End)` run-length encoded. It keeps an ordered set of
boundaries `(pos, val)`. Each boundary starts a run that lasts up to the
next one, and a last boundary at `End` carries no value. Reads report
single positions (`At`), the run around a position (`StepAt`) or the runs
over a range (`Do`, `DoRange`). Writes overwrite one position (`Set`) or a
range (`SetRange`). When the vector is `Relaxed`, a write outside the range
grows the vector and fills any gap with the ground value `Zero`. Mutators
pass every value, or the values in a range, through a function (`Apply`,
`ApplyRange`), and `incInt`/`decInt` are the two integer mutators.

Every write keeps the store canonical. Positions strictly increase, and no
two neighbouring boundaries hold the same value. So the boundaries are
exactly the places where the array changes value.

The model has these modules:

- `Store` (store.dfy): the ordered tree, modelled as a sorted sequence of
  `Boundary(pos, val: Option<V>)`.
  - `Floor`, `Ceil`, `Insert` (which replaces an entry at the same
    position) and `Delete`.
  - The abstraction function `ValueAt(t, x)`: the value of the last
    boundary at or before `x`, or `None`.
- `Runs` (runs.dfy): the invariant `Valid` (sorted, canonical, only the
  last boundary empty).
  - The reference results of a write: `SetRangeCanon` inside the range,
    `ExtendBelow`/`ExtendAbove`/`Cover` when the range grows.
  - The abstract meaning of a write, `Overwritten`.
  - The fact that the encoding is unique (`Unique`).
- `Writes` (writes.dfy): one lemma per branch of `Set` and `SetRange`,
  equating the branch's edits with the reference result.
- `Walks` (walks.dfy): what a list of reported steps means (`Reports`).
- `Transforms` (transforms.dfy): `Apply`'s walk, with its queue of
  boundaries that repeat the value before them, and the deletion pass.
- `RangeMaps` (range_maps.dfy): `ApplyRange`'s walk and its invariant
  `Spanned`, measured against `Partial`. `Partial` is the old array with
  the range passed through the mutator.
- `Mutators` (mutators.dfy): `IncInt`/`DecInt` on 64-bit wrapping
  integers.
- `StepVector` (step.dfy): the class `Vector` with fields `zero`,
  `relaxed` and `t`. Each operation of `step.go` is a method (or a function
  for pure reads), and every loop of the original is a `while` loop with
  its invariants.
- `Findings` (findings.dfy): the places where `step.go` as written departs
  from what it intends, each with an input that shows it.

Failures that the original reports by panicking are `Fail(error)` outcomes
here, and failures it returns are `Err(error)` results.

## Model

| member | source | states |
|---|---|---|
| StepVector.Vector.constructor | step.go:77-97 | A new vector is valid and not relaxed, holds exactly the boundaries (start, zero) and (end, nil), and reads zero on [start, end) and nothing elsewhere |
| StepVector.Vector.New | step.go:77-97 | Fails with ErrZeroLength iff start >= end; otherwise gives a fresh valid vector that reads zero exactly on [start, end) |
| StepVector.Vector.Start | step.go:100 | Start holds a value and no position below it does |
| StepVector.Vector.End | step.go:103 | The position before End holds a value and no position from End on does |
| StepVector.Vector.Len | step.go:107 | Len is positive, and the positions holding values are exactly [Start, Start + Len) |
| StepVector.Vector.Count | step.go:110 | The number of runs is one less than the number of stored positions, which are exactly the points where the array changes value; it is at least one and at most Len |
| StepVector.Vector.At | step.go:114-120 | ErrOutOfRange iff i is outside [Start, End); otherwise the value of the array at i |
| StepVector.Vector.StepAt | step.go:124-131 | ErrOutOfRange iff i is outside [Start, End); otherwise a step holding i whose value is the array's throughout, and which is maximal (the value differs just before it and at its end) |
| StepVector.Vector.Do | step.go:366-380 | The steps tile [Start, End) in order, each step reports the array's value at every position it covers, and neighbouring steps differ |
| StepVector.Vector.DoRange | step.go:385-413 | ErrInvertedRange iff to < from; ErrOutOfRange iff the range misses the vector; otherwise the steps report the array over the range cut to [Start, End) |
| StepVector.Vector.WalkRange | step.go:397-410 | The walk over [lo, hi) inside the vector reports the array over exactly [lo, hi) |
| StepVector.Vector.Set | step.go:135-227 | Refused with ErrOutOfRange, and nothing changes, iff the vector is not relaxed and i is outside it; otherwise the extent grows to take in i, the array is the old one with i set to v and any gap set to zero, the store stays canonical, and writing the value already there changes nothing |
| StepVector.Vector.GrowBelow | step.go:248-269 | Growing downwards: the new start is s, the end stays, [s, e) holds v, the gap up to the old start holds zero, and the store stays canonical |
| StepVector.Vector.GrowAbove | step.go:270-287 | Growing upwards: the start stays, the new end is e, [s, e) holds v, the gap from the old end holds zero, and the store stays canonical |
| StepVector.Vector.SetInside | step.go:185-226 | A write at i inside the vector yields the canonical store of the array with i set to v, with the same extent, and writing the value already there changes nothing |
| StepVector.Vector.SetAtBoundary | step.go:191-214 | The branches for i at a run's start yield the canonical store with i set to v |
| StepVector.Vector.SetRunOfOne | step.go:192-204 | Writing over a run of length one yields the canonical store |
| StepVector.Vector.SetRunFront | step.go:205-213 | Writing at the front of a longer run yields the canonical store |
| StepVector.Vector.SetInRun | step.go:215-225 | Writing inside a run yields the canonical store |
| StepVector.Vector.SetRange | step.go:231-362 | An empty range changes nothing; an inverted range is refused with ErrInvertedRange; a range not inside a vector that is not relaxed is refused with ErrOutOfRange, unchanged; otherwise the extent becomes the hull of the old one and [s, e), the array is overwritten on [s, e) with the gap zero, and the store stays canonical |
| StepVector.Vector.GrowOver | step.go:243-289 | Corrected behaviour (the original sends such a range down the in-domain path, see Findings): a range that overlaps a relaxed vector and sticks out of it grows the vector to the hull with the growth edits of step.go:248-287 and overwrites [s, e) |
| StepVector.Vector.SetRangeInside | step.go:290-361 | A write inside the vector yields the canonical store of the array with [s, e) set to v, with the same extent |
| StepVector.Vector.RewriteSpan | step.go:290-361 | The deletions and boundary edits of a write inside the vector equal the canonical reference result SetRangeCanon |
| StepVector.Vector.Rejoin | step.go:300-361 | With the boundaries of [s, e) deleted and the last boundary before e at hand, the neighbour comparisons and edits give exactly the canonical store of the array with [s, e) set to v |
| StepVector.Vector.DeleteSpan | step.go:292-299 | Exactly the boundaries in [s, e) are collected, in order, and deleted |
| StepVector.Vector.DeleteEach | step.go:297-299 | Deleting the collected boundaries one by one leaves the store without them |
| StepVector.Vector.Apply | step.go:432-456 | The array becomes the old one passed through m at every position, and the store stays canonical |
| StepVector.Vector.MapEach | step.go:440-451 | The walk maps every value but the end's and queues exactly the positions whose new value repeats the new value before them |
| StepVector.Vector.DeleteQueued | step.go:453-455 | Deleting the queued positions leaves a canonical store with the same array |
| StepVector.Vector.ApplyRange | step.go:461-515 | ErrInvertedRange iff to < from, ErrOutOfRange iff the range misses the vector, with nothing changed; otherwise the array is the old one passed through m on [from, to) and unchanged elsewhere, and the store stays canonical |
| StepVector.Vector.MapSpan | step.go:484-508 | For a range past the first run, the walk yields a store whose array is the old one mapped on the range, with a queue of exactly its repeated boundaries |
| StepVector.Vector.SplitHead | step.go:476-486 | The start of the walk sets the new value of the first run from lo on, and queues lo when that value repeats the one before lo |
| StepVector.Vector.RestoreTail | step.go:501-508 | The fix-up at the end of the range restores the old value at hi when it differs from the last new value, or queues the next boundary when it repeats it |
| StepVector.Vector.String | step.go:517-528 | The boundaries in order, Count + 1 of them, from Start to End, each with the array's value there; they sit exactly where the array changes value |
| Store.FloorValue | step.go:114-120 | The value at x is that of the Floor boundary of x, or none below the first |
| Store.InsertAt | step.go:147 | Inserting a boundary between its neighbours puts it exactly there |
| Store.ReplaceAt | step.go:485 | Inserting at a position already held replaces that entry |
| Store.DeleteAt | step.go:194 | Deleting a stored position removes exactly that entry |
| Store.PositionsCount | step.go:110 | A sorted store holds as many distinct positions as boundaries, so the tree's length counts them |
| Runs.Domain | step.go:100-107 | A position holds a value iff it lies in [Start, End) |
| Runs.StepRun | step.go:124-131 | Every run holds its boundary's value throughout and differs from the values just before it and at its end |
| Runs.SetRangeCanonSound | step.go:290-361 | The canonical write inside the vector is valid, keeps the extent, and sets exactly [s, e) to v |
| Runs.PrependSound | step.go:249-255 | Prepending a run below the vector keeps it valid and sets exactly the new positions |
| Runs.AppendSound | step.go:271-276 | Appending a run above the vector keeps it valid and sets exactly the new positions |
| Runs.ExtendBelowSound | step.go:248-269 | The reference result of a write below the vector is valid, starts at s, and overwrites [s, e) with the gap zero |
| Runs.ExtendAboveSound | step.go:270-287 | The reference result of a write above the vector is valid, ends at e, and overwrites [s, e) with the gap zero |
| Runs.InsideSound | step.go:290-361 | The canonical write inside the vector has the meaning Overwritten |
| Runs.CoverSound | step.go:243-289 | Growing a relaxed vector over a partly overlapping range gives the hull and the right values outside the range |
| Runs.CoverThenWriteSound | step.go:243-289 | Growing, then writing inside, gives the meaning Overwritten of the whole write |
| Runs.ChangePoints | step.go:517-528 | In a valid store the stored positions are exactly the points where the array changes value |
| Runs.Unique | step.go:64-71 | Two valid stores with the same array are equal: the encoding is unique |
| Runs.SingleRun | step.go:257-264 | A vector holding one value over its whole extent has exactly two boundaries |
| Writes.PointCanon | step.go:185-226 | The canonical result of a point write in terms of the run holding i |
| Writes.SetUnchanged | step.go:185-188 | Writing the value already held changes nothing |
| Writes.RunOfOneCanon | step.go:192-204 | The canonical result of writing over a run of length one |
| Writes.MergeNextOutcome | step.go:193-195 | When the next run holds v, deleting i and moving the next boundary down is canonical |
| Writes.TakeOverOutcome | step.go:196-198 | Otherwise overwriting the run's value is canonical |
| Writes.SetSplitFront | step.go:205-213 | Moving the run's start up by one and inserting v at i (unless the run before holds v) is the canonical result |
| Writes.SetJoinNext | step.go:216-221 | Inside a run ending at i + 1: moving the next boundary down when it holds v, or inserting v at i, is canonical |
| Writes.SetSplitMiddle | step.go:222-225 | Inside a longer run: inserting v at i and the old value at i + 1 is canonical |
| Writes.PrependEdits | step.go:142-161 | Moving the first boundary down when it holds the value wanted, or inserting a new first boundary, is the reference prepend |
| Writes.MoveEndEdits | step.go:164-169 | Moving the end up, and inserting v where the last run holds another value, is the reference append |
| Writes.GapAboveEdits | step.go:170-180 | Above a gap: zero from the old end, then v at s unless v is zero, is the reference result |
| Writes.CutFacts | step.go:292-311 | After the deletions, hi is found by Ceil at e and the boundary before s by Floor at s - 1 |
| Writes.RangeJoinBoth | step.go:321-322 | Both neighbours hold v: deleting the boundary at e is canonical |
| Writes.RangeJoinPrev | step.go:323-324 | Only the run before s holds v: writing nothing more is canonical |
| Writes.RangeJoinNext | step.go:325-326 | Only the boundary at e holds v: moving it down to s is canonical |
| Writes.RangeJoinNone | step.go:327-333 | Neither neighbour holds v: inserting v at s is canonical |
| Writes.RangeRunSame | step.go:335-346 | Ending inside a run of v: only the boundary at s may be needed |
| Writes.RangeRunOther | step.go:335-346 | Ending inside another run: restoring its value at e and inserting v at s unless the run before holds it is canonical |
| Walks.ClippedReports | step.go:397-410 | The runs from the one holding a, cut to [a, b), report the array over [a, b) |
| Transforms.MappedValue | step.go:440-451 | Mapping every boundary's value maps the array pointwise |
| Transforms.DeleteSame | step.go:453-455 | Deleting a boundary that repeats the value before it keeps the array and removes only that position |
| Transforms.PrunedValid | step.go:453-455 | After every queued repeat is deleted the store is canonical again |
| Transforms.WalkKeep | step.go:445-449 | A mapped value that differs from the previous one is kept, and the walk invariant holds one boundary further on |
| Transforms.WalkQueue | step.go:446-448 | A mapped value equal to the previous one is queued, and the invariant holds one boundary further on |
| Transforms.WalkDone | step.go:440-451 | At the end sentinel the walk has mapped every value and queued exactly the repeats |
| Transforms.IdentityKeeps | step.go:432-456 | A mapper that changes no value leaves the store exactly as it was |
| RangeMaps.InsertRun | step.go:484-486 | Inserting a boundary inside a run changes the array only from it to the run's end and adds only its position |
| RangeMaps.MapRun | step.go:493 | Changing one boundary's value changes the array exactly over its run |
| RangeMaps.HeadRepeat | step.go:484-486 | The new value at lo repeats the value before lo iff lo starts a run whose predecessor holds that value |
| RangeMaps.SpanStartKeep | step.go:478-486 | When the first run's value is unchanged, the walk starts with nothing inserted or queued |
| RangeMaps.SpanStartInsert | step.go:484-486 | When it changes, inserting the new value at lo (queued if it repeats the run before) starts the walk |
| RangeMaps.SpanStepKeep | step.go:487-499 | Mapping a boundary that does not repeat keeps the walk invariant |
| RangeMaps.SpanStepQueue | step.go:494-496 | Mapping a boundary that repeats queues it and keeps the walk invariant |
| RangeMaps.SpanEndStay | step.go:501-508 | When hi is the end or already a change point of the result, the walk's store and queue are final |
| RangeMaps.SpanEndQueue | step.go:505-507 | When the next boundary repeats the last new value, queueing it finishes the walk |
| RangeMaps.SpanEndSplit | step.go:503-504 | When hi is inside a run whose old value differs from the last new value, inserting the old value at hi finishes the walk |
| RangeMaps.SpanClose | step.go:510-512 | A queue of exactly the repeated boundaries, in order, is what the deletion pass needs |
| RangeMaps.PartialClipped | step.go:472-474 | Mapping the range cut to [Start, End) is mapping [from, to) |
| RangeMaps.RunPartial | step.go:480-482 | Within one run, mapping the range is writing the run's new value over it |
| Mutators.Wrap | step.go:425-426 | The 64-bit integer congruent to x modulo 2^64 |
| Mutators.IncInt | step.go:425 | v + 1 wrapped to 64 bits |
| Mutators.DecInt | step.go:426 | v - 1 wrapped to 64 bits |
| Mutators.DecUndoesInc | step.go:425-426 | DecInt undoes IncInt on every value |
| Mutators.IncUndoesDec | step.go:425-426 | IncInt undoes DecInt on every value |
| Mutators.IncThenDec | step.go:425-426 | Applying IncInt then DecInt gives back the same store |
| Mutators.DecThenInc | step.go:425-426 | Applying DecInt then IncInt gives back the same store |
| Findings.RedundantBoundary | step.go:347-361 | As written, writing 0 over [2, 4) of [1:0 10:nil] gives the non-canonical [1:0 2:0 10:nil]; the canonical write leaves the store as it was |
| Findings.PartialOverlapGrows | step.go:243 | As written, the guard lets [-10, 5) through on [1, 10) of a vector that is not relaxed, and the in-domain write gives the tree [-10:1 5:0 10:nil] |
| Findings.OverlapAboveLosesEnd | step.go:243 | As written, the guard lets [5, 20) through on [1, 10), and the deletions leave no boundary at or after 20 for step.go:311 to read |
| Findings.OnePositionKept | step.go:479-481 | As written, mapping the one position [2, 3) of [1:0 10:nil] with the identity goes through Set and leaves the store as it was |
| Findings.HeadNotMerged | step.go:484-486 | As written, decrementing [3, 10) of [1:0 3:1 5:2 10:nil] gives the non-canonical [1:0 3:0 5:1 10:nil] |
| Findings.TailSplitsRun | step.go:501-508 | As written, the identity over [6, 15) of [1:0 5:1 10:2 20:nil] gives the non-canonical [1:0 5:1 10:2 15:2 20:nil] |
| Findings.RangeInOneRun | step.go:397-409 | As written, DoRange(2, 4) on [1:0 10:nil] dereferences a missing step |
| Findings.RangePastEnd | step.go:397-409 | As written, DoRange(5, 20) on [1:0 10:nil] reports a last step [10, 20) with no value |

## Left out

- The `llrb` tree is a sorted sequence. Its `Insert` is taken to
  replace an entry at the same position, and `Floor`/`Ceil` stand for the
  `query`/`upper` comparators (step.go:44-62). The comparators' subtraction
  of positions, which can overflow, is not modelled.
- The `min` and `max` fields are the first and last boundaries. Their
  identity as shared nodes is not modelled. Neither is the way the original
  can leave `min` referring to a deleted or moved node (step.go:193-195,
  step.go:326, step.go:356-359, step.go:485 when from is Start).
- `reflect.DeepEqual` is `==` on a type with equality. A user value of
  `nil`, which the original cannot tell apart from the end sentinel's
  `nil`, cannot be written.
- Positions are unbounded integers. Overflow of `end - start`, of
  `min.pos -= l` and of the other position arithmetic is not modelled.
- Panics are `Fail` outcomes, and the model checks them before any change.
- The callbacks of `Do` and `DoRange` are not called. The steps they
  would receive are returned as a sequence.
- The `Zero` and `Relaxed` fields are public and writable in the
  original. The model sets them at construction and never changes them.
- `incFloat` and `decFloat` (step.go:427-428) are floating-point
  arithmetic and are not modelled.
- `String` returns the ordered list of boundaries instead of formatting
  them with `fmt`.
- StepVector.Vector.DoRange: a range that starts below `Start` is cut to
  the vector. The original reads `StepAt(from)` there, ignores its error
  and reports a step from `from` to 0 with no value.
- StepVector.Vector.ApplyRange: a range that starts below `Start` is cut
  to the vector, and a range within one run writes the mapped value over
  the cut range. The original reads `StepAt(from)` there, ignores its
  error and passes `nil` to the mutator.
- Findings.ApplyRangeAsWritten: models only ranges that start inside the
  vector. For a range of one position inside one run it uses the canonical
  write, which the in-domain `Set` is proved to build
  (StepVector.Vector.SetInside).
- Findings.DoRangeAsWritten: models only ranges that start inside the
  vector.
- The loops of `Apply` and `ApplyRange` change node values in place in the
  original. The model walks a local copy of the boundary sequence and
  stores it back at the end, so aliasing between nodes is not modelled.

## Findings

| source | as written | input that shows it | evidently intended | confidence | as-written member | corrected member |
|---|---|---|---|---|---|---|
| step.go:347-361 | When start is not a boundary, the range write never compares v with the value before start | New(1, 10, 0), SetRange(2, 4, 0) gives [1:0 2:0 10:nil] | Insert at start only when the run before start holds another value, as in the branch at step.go:312-346 | not executed | Findings.RewriteAsWritten, Findings.RedundantBoundary | StepVector.Vector.SetRangeInside |
| step.go:243 | The guard refuses only ranges that miss the vector entirely, so a partial overlap takes the in-domain path, relaxed or not | New(1, 10, 0) not relaxed, SetRange(-10, 5, 1) passes and builds the tree [-10:1 5:0 10:nil]; the old first node, which min refers to, is moved to 5, so Start() reads 5. SetRange(5, 20, 1) deletes the end node and panics at step.go:311 | A vector that is not relaxed refuses any range not inside it, and a relaxed one grows to the hull | not executed | Findings.RefusedAsWritten, Findings.PartialOverlapGrows, Findings.OverlapAboveLosesEnd | StepVector.Vector.SetRange, StepVector.Vector.GrowOver |
| step.go:484-486 | The new value inserted at from is never checked against the run before from | [1:0 3:1 5:2 10:nil], ApplyRange(decInt, 3, 10) gives [1:0 3:0 5:1 10:nil] | Queue from for deletion when the run before it holds the new value | not executed | Findings.ApplyRangeAsWritten, Findings.HeadNotMerged | StepVector.Vector.SplitHead |
| step.go:503 | The fix-up compares the next boundary's value with the old value of the last run, which always differ in a canonical store | [1:0 5:1 10:2 20:nil], ApplyRange(identity, 6, 15) gives [1:0 5:1 10:2 15:2 20:nil] | Restore the old value at to only when it differs from the last new value | not executed | Findings.ApplyRangeAsWritten, Findings.TailSplitsRun | StepVector.Vector.RestoreTail |
| step.go:397-409 | The first run is reported up to its own end, and when to is within it the walk visits nothing and la stays nil | New(1, 10, 0), DoRange(fn, 2, 4) dereferences nil | Report the one step [from, to) | not executed | Findings.DoRangeAsWritten, Findings.RangeInOneRun | StepVector.Vector.DoRange |
| step.go:397-409 | The walk reaches the end sentinel when to is past End, and the final report starts there | New(1, 10, 0), DoRange(fn, 5, 20) reports [10, 20) with value nil | Stop the report at End | not executed | Findings.DoRangeAsWritten, Findings.RangePastEnd | StepVector.Vector.DoRange |
