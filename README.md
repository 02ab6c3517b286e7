# elm-range native fold, modelled in Dafny

The elm-range package ships one native helper, `foldl(f, b, range)`. It is a
left fold of a combining function `f(index, accumulator)` over the integers of
a range. The range has a start bound `_0` and an exclusive end bound `_1`. The
helper fixes a step of -1 when the end lies below the start and +1 otherwise.
It then walks a counter from the start until it equals the end, replacing the
accumulator with `f(i, acc)` at every index, and returns the final
accumulator.

`range.dfy` holds two modules:

- `NativeRange` models the fold. `Range` is the bound pair. `Step` is the
  direction rule. `Visited` is the sequence of indices the loop hands to `f`.
  `FoldSpec` is a recursive functional specification of the fold. `FoldSeq`
  is the plain left fold over a sequence of indices. `Foldl` is the loop
  itself, a method with a `while` loop. It returns the accumulator and a ghost
  record of the indices `f` was called with, and it is proved equal to both
  specifications.
- `RangeScenarios` checks the fold on fixed inputs: sums in both directions,
  an empty range, a list built by prepending, and a range that crosses zero.
  One of them goes through the `Foldl` method rather than `FoldSpec`.

Bounds are mathematical integers. The combining function is a total Dafny
function `(int, T) -> T`.

## Model

| member | source | states |
|---|---|---|
| `NativeRange.Step` | src/Native/Range.js:16-17 | the step is -1 exactly when the end is below the start and +1 otherwise, equal bounds included; while the counter differs from the end, one step brings it exactly one unit closer to the end, so the loop terminates |
| `NativeRange.Visited` | src/Native/Range.js:17-18 | the loop visits exactly `abs(end - start)` indices |
| `NativeRange.VisitedAscending` | src/Native/Range.js:16-18 | when start <= end the indices passed to `f` are start, start+1, ..., end-1 in that order |
| `NativeRange.VisitedDescending` | src/Native/Range.js:16-18 | when start >= end the indices passed to `f` are start, start-1, ..., end+1 in that order |
| `NativeRange.VisitedMembers` | src/Native/Range.js:17-18 | an index is visited if and only if it lies in [start, end) or in (end, start]; `end` is never visited; `start` is visited first when the range is not empty |
| `NativeRange.VisitedDistinct` | src/Native/Range.js:17-18 | no index is passed to `f` twice |
| `NativeRange.EmptyRange` | src/Native/Range.js:15-17 | with equal bounds nothing is visited and the result is the seed unchanged |
| `NativeRange.AdjacentBounds` | src/Native/Range.js:15-20 | with bounds one apart the only index visited is the start and the result is `f(start, b)` |
| `NativeRange.FoldSeqSnoc` | src/Native/Range.js:18 | each call's output is the next call's accumulator: folding over one more index applies `f` once more to the accumulated value |
| `NativeRange.FoldSpecIsFoldOverVisited` | src/Native/Range.js:15-20 | the recursive specification equals the left fold of `f` over the visited indices, starting from the seed |
| `NativeRange.Foldl` | src/Native/Range.js:14-21 | the loop calls `f` at exactly the indices of `Visited(start, end)`, in order, `abs(end - start)` times, and returns both the left fold over those indices and the recursive specification's value |
| `RangeScenarios.SumAscending` | src/Native/Range.js:14-21 | summing over (0, 5) gives 10 |
| `RangeScenarios.SumDescending` | src/Native/Range.js:14-21 | summing over (5, 0) gives 15, visiting 5 down to 1 |
| `RangeScenarios.SumEmpty` | src/Native/Range.js:14-21 | summing over (3, 3) from 100 gives 100 |
| `RangeScenarios.ConsReverses` | src/Native/Range.js:14-21 | prepending over (0, 3) gives [2, 1, 0] |
| `RangeScenarios.DigitsAcrossZero` | src/Native/Range.js:14-21 | over (-2, 2) the indices are -2, -1, 0, 1 and `acc * 10 + i` from 0 gives -2099 |
| `RangeScenarios.SumDescendingByLoop` | src/Native/Range.js:14-21 | running the loop itself on (5, 0) with `acc + i` from 0 calls `f` at 5, 4, 3, 2, 1 and returns 15 |

## Left out

- The registration of the helper in the runtime's table and its per-runtime cache (src/Native/Range.js:1-12, 23-26): host plumbing with no algorithmic content.
- The `F3` and `A2` currying and arity wrappers (src/Native/Range.js:18, 24): they belong to the Elm runtime, which is not part of this model. `f` is an ordinary two-argument function.
- JavaScript number semantics: the bounds are IEEE doubles in the source (src/Native/Range.js:16-17). Non-integer bounds can keep the counter from ever equalling the end, and at 2^53 and above `i += step` can leave `i` unchanged; in either case the loop does not end. The model has unbounded integer bounds and always terminates.
- Exceptions and side effects raised by `f`: the model takes `f` to be total and pure.
- The ghost `calls` result of `Foldl` is a record for the proof only; the source keeps no such list.
