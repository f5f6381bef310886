/** The interval value type and the merge entry points of package tss (merge.go).
    Go slices are modelled as arrays: a slice value shares its backing store with
    every other slice made from it, which is exactly the aliasing an array
    reference has. */
module Intervals {

  /** A number interval; both bounds are included. */
  datatype Interval = Interval(start: int, end: int)

  /** The `([]Interval, error)` pair Go returns: either a value or an error. */
  datatype Result<T> = Ok(value: T) | Err(message: string)

  /** Merge as its body is written: it hands back the very buffer it was given,
      with its contents and order as they were, and never reports an error. */
  function Merge(intervals: array<Interval>): (r: Result<array<Interval>>)
    ensures r.Ok?
    ensures r.value == intervals
  {
    Ok(intervals)
  }

  /** copyIntervals: a freshly allocated buffer of the same length holding an
      element-for-element copy of the input. */
  method CopyIntervals(intervals: array<Interval>) returns (c: array<Interval>)
    ensures fresh(c)
    ensures c.Length == intervals.Length
    ensures c[..] == intervals[..]
  {
    c := new Interval[intervals.Length];
    forall i | 0 <= i < intervals.Length {
      c[i] := intervals[i];
    }
  }

  /** MergeP: copy, then delegate to Merge on the copy. The caller's buffer is
      neither written nor returned, so later writes through the result cannot
      reach it. */
  method MergeP(intervals: array<Interval>) returns (r: Result<array<Interval>>)
    ensures unchanged(intervals)
    ensures r.Ok?
    ensures fresh(r.value)
    ensures r.value[..] == intervals[..]
  {
    var c := CopyIntervals(intervals);
    r := Merge(c);
  }
}
