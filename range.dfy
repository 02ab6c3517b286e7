// A model of the native range fold of the elm-range package: a left fold of a
// combining function over the integers of a half-open range, walked upwards
// when the end bound is not below the start bound and downwards otherwise.

module NativeRange {

  /** A range as the runtime hands it over: `_0` is the start, `_1` the
      exclusive end. Either order of the bounds is legal. */
  datatype Range = Range(start: int, end: int)

  function Abs(x: int): (r: nat)
  {
    if x < 0 then -x else x
  }

  /** The direction of traversal: -1 exactly when the end lies below the start,
      +1 otherwise (equal bounds included). Whenever the bounds differ, one
      step from `start` brings the counter one unit closer to `end`, which is
      why the loop terminates. */
  function Step(start: int, end: int): (s: int)
    ensures s == 1 || s == -1
    ensures s == -1 <==> end < start
    ensures start != end ==> Abs(end - (start + s)) == Abs(end - start) - 1
  {
    if end < start then -1 else 1
  }

  /** The indices handed to the combining function, in the order the loop
      visits them. */
  function Visited(start: int, end: int): (r: seq<int>)
    ensures |r| == Abs(end - start)
    decreases Abs(end - start)
  {
    if start == end then [] else [start] + Visited(start + Step(start, end), end)
  }

  /** The recursive functional specification of the fold: apply `f` at the
      current index and continue one step nearer to `end` with the new
      accumulator, stopping (without calling `f`) when `end` is reached. */
  function FoldSpec<T>(f: (int, T) -> T, acc: T, i: int, end: int): (r: T)
    decreases Abs(end - i)
  {
    if i == end then acc else FoldSpec(f, f(i, acc), i + Step(i, end), end)
  }

  /** The left fold of `f` over a sequence of indices: each call's output is
      the next call's accumulator. */
  function FoldSeq<T>(f: (int, T) -> T, acc: T, xs: seq<int>): (r: T)
    decreases |xs|
  {
    if xs == [] then acc else FoldSeq(f, f(xs[0], acc), xs[1..])
  }

  /** Folding over one more index at the end applies `f` once more to the
      accumulated value. */
  lemma {:induction false} FoldSeqSnoc<T>(f: (int, T) -> T, acc: T, xs: seq<int>, x: int)
    ensures FoldSeq(f, acc, xs + [x]) == f(x, FoldSeq(f, acc, xs))
    decreases |xs|
  {
    if xs == [] {
      assert xs + [x] == [x];
    } else {
      assert (xs + [x])[1..] == xs[1..] + [x];
      FoldSeqSnoc(f, f(xs[0], acc), xs[1..], x);
    }
  }

  /** The recursive specification is the left fold over the visited indices. */
  lemma {:induction false} FoldSpecIsFoldOverVisited<T>(f: (int, T) -> T, acc: T, i: int, end: int)
    ensures FoldSpec(f, acc, i, end) == FoldSeq(f, acc, Visited(i, end))
    decreases Abs(end - i)
  {
    if i != end {
      var r := Visited(i, end);
      assert r[0] == i && r[1..] == Visited(i + Step(i, end), end);
      FoldSpecIsFoldOverVisited(f, f(i, acc), i + Step(i, end), end);
    }
  }

  /** When `start < end` (or they are equal) the visited indices are
      start, start+1, ..., end-1. */
  lemma {:induction false} VisitedAscending(start: int, end: int)
    requires start <= end
    ensures |Visited(start, end)| == end - start
    ensures forall k :: 0 <= k < end - start ==> Visited(start, end)[k] == start + k
    decreases end - start
  {
    if start < end {
      VisitedAscending(start + 1, end);
    }
  }

  /** When `start > end` (or they are equal) the visited indices are
      start, start-1, ..., end+1. */
  lemma {:induction false} VisitedDescending(start: int, end: int)
    requires end <= start
    ensures |Visited(start, end)| == start - end
    ensures forall k :: 0 <= k < start - end ==> Visited(start, end)[k] == start - k
    decreases start - end
  {
    if end < start {
      VisitedDescending(start - 1, end);
    }
  }

  /** An index is visited exactly when it lies in the half-open interval
      between the bounds, in the direction they imply; in particular `end`
      is never visited and `start` is visited first whenever the range is
      not empty. */
  lemma VisitedMembers(start: int, end: int, x: int)
    ensures x in Visited(start, end) <==> (start <= x < end || end < x <= start)
    ensures end !in Visited(start, end)
    ensures start != end ==> Visited(start, end)[0] == start
  {
    var r := Visited(start, end);
    if start <= end {
      VisitedAscending(start, end);
      if start <= x < end {
        assert r[x - start] == x;
      }
    } else {
      VisitedDescending(start, end);
      if end < x <= start {
        assert r[start - x] == x;
      }
    }
  }

  /** Every index is visited at most once. */
  lemma VisitedDistinct(start: int, end: int)
    ensures forall j, k :: 0 <= j < k < |Visited(start, end)| ==> Visited(start, end)[j] != Visited(start, end)[k]
  {
    if start <= end {
      VisitedAscending(start, end);
    } else {
      VisitedDescending(start, end);
    }
  }

  /** Equal bounds: no index is visited and the seed comes back unchanged. */
  lemma EmptyRange<T>(f: (int, T) -> T, b: T, a: int)
    ensures Visited(a, a) == []
    ensures FoldSpec(f, b, a, a) == b
  {
  }

  /** Adjacent bounds: exactly one call, `f(start, b)`. */
  lemma AdjacentBounds<T>(f: (int, T) -> T, b: T, start: int, end: int)
    requires Abs(end - start) == 1
    ensures Visited(start, end) == [start]
    ensures FoldSpec(f, b, start, end) == f(start, b)
  {
  }

  /** The fold as the runtime runs it: the step is fixed once from the bounds,
      the counter walks from the start until it equals the end, and each
      iteration replaces the accumulator with `f(i, acc)`. The ghost `calls`
      records the index of every call of `f`, in order. */
  method Foldl<T>(f: (int, T) -> T, b: T, range: Range) returns (acc: T, ghost calls: seq<int>)
    ensures calls == Visited(range.start, range.end)
    // implied by the line above, stated for the reader: `f` is called |end - start| times
    ensures |calls| == Abs(range.end - range.start)
    ensures acc == FoldSeq(f, b, Visited(range.start, range.end))
    ensures acc == FoldSpec(f, b, range.start, range.end)
  {
    acc := b;
    calls := [];
    var step := Step(range.start, range.end);
    var i := range.start;
    while i != range.end
      invariant range.start <= range.end ==> range.start <= i <= range.end
      invariant range.end < range.start ==> range.end <= i <= range.start
      invariant i != range.end ==> step == Step(i, range.end)
      invariant calls + Visited(i, range.end) == Visited(range.start, range.end)
      invariant acc == FoldSeq(f, b, calls)
      decreases Abs(range.end - i)
    {
      ghost var rest := Visited(i, range.end);
      assert rest == [i] + Visited(i + step, range.end);
      FoldSeqSnoc(f, b, calls, i);
      acc := f(i, acc);
      calls := calls + [i];
      i := i + step;
    }
    FoldSpecIsFoldOverVisited(f, b, range.start, range.end);
  }
}

/** The fold on fixed inputs, in both directions and on an empty range. */
module RangeScenarios {
  import opened NativeRange

  lemma SumAscending()
    ensures FoldSpec((i: int, acc: int) => acc + i, 0, 0, 5) == 10
  {
  }

  lemma SumDescending()
    ensures FoldSpec((i: int, acc: int) => acc + i, 0, 5, 0) == 15
  {
  }

  lemma SumEmpty()
    ensures FoldSpec((i: int, acc: int) => acc + i, 100, 3, 3) == 100
  {
  }

  lemma ConsReverses()
    ensures FoldSpec((i: int, acc: seq<int>) => [i] + acc, [], 0, 3) == [2, 1, 0]
  {
  }

  lemma DigitsAcrossZero()
    ensures Visited(-2, 2) == [-2, -1, 0, 1]
    ensures FoldSpec((i: int, acc: int) => acc * 10 + i, 0, -2, 2) == -2099
  {
  }

  /** The descending sum run through the loop itself rather than its
      specification: the loop calls `f` at 5, 4, 3, 2, 1 and returns 15. */
  method SumDescendingByLoop() returns (acc: int, ghost calls: seq<int>)
    ensures calls == [5, 4, 3, 2, 1]
    ensures acc == 15
  {
    acc, calls := Foldl((i: int, a: int) => a + i, 0, Range(5, 0));
    VisitedDescending(5, 0);
  }
}
