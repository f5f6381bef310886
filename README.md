# Interval sorting and the pure merge wrapper of package tss

Package `tss` works on closed integer intervals (`Interval{Start, End}`, both
bounds included). This project models the part of it that has real code behind
it:

- `sort.go`: two in-place sorts that order a slice of intervals by `Start`
  using only swaps. `quickSortInplace`/`qSort` is a recursive quicksort with a
  Lomuto partition around the last element of the range, split with a strict
  `<`. `sortInplace`/`sortRun` is a quadratic exchange sort that is repeated
  until a run makes no swap.
- `merge.go`: the `Interval` type and three functions. `Merge` as written hands
  its argument back with a nil error. `copyIntervals` copies a slice into fresh
  storage. `MergeP` copies first and then calls `Merge`, so the caller's slice
  is never changed.

Go slices are modelled as Dafny arrays (`array<Interval>`), which alias the way
a slice's backing store does. The sorts are methods that modify the array. Each
is proved against predicates on `a[..]`: sorted by `start`, a permutation of the
old contents (`multiset`), and, for `qSort`, "nothing outside `[start, end]`
changed". The lemma `SortsAgree` shows that the two sorts are interchangeable
for anything that reads only `start`. Any two sorted permutations of the same
intervals list the same start values in the same order.

The code and the package's design notes disagree about `Merge`. Its doc comment
(merge.go:8-9) promises an overlap-free result and an error on invalid
intervals. Its body (merge.go:11) returns the input unchanged with no error.
The model follows the body.

## Model

| member | source | states |
|---|---|---|
| `Intervals.Merge` | merge.go:10-12 | never fails, and the result is the very buffer passed in, so its contents and order are the input's |
| `Intervals.CopyIntervals` | merge.go:22-26 | the result is freshly allocated, has the input's length, and holds the input's elements in the same order |
| `Intervals.MergeP` | merge.go:14-20 | the caller's buffer is unchanged; the result is Ok, freshly allocated (so distinct from the caller's buffer) and element-for-element equal to the input |
| `Sorting.Swap` | sort.go:17 | the Go tuple swap: the sequence with the two positions exchanged, same multiset |
| `Sorting.SwapExtendsSplit` | sort.go:15-19 | one step of the partition loop keeps [start, split) below the pivot and [split, i) at or above it, and changes nothing outside the range |
| `Sorting.PlacePivot` | sort.go:21 | the final swap leaves the old last element of the range at the split index, smaller starts before it, the rest after it, contents unchanged as a multiset and outside the range |
| `Sorting.Partition` | sort.go:13-21 | the pivot (the old last element) sits at `splitIndex`; every start in [start, splitIndex) is strictly below its start and every start in (splitIndex, end] is not; the array is a permutation of the old one; indices outside [start, end] are untouched |
| `Sorting.SortedAroundPivot` | sort.go:23-24 | a sorted left part below the pivot, the pivot, and a sorted right part at or above it form a sorted range |
| `Sorting.QSortStepsCompose` | sort.go:13-24 | partition followed by the two recursive sorts sorts [start, end], permutes only that range and keeps every element |
| `Sorting.QSort` | sort.go:8-25 | a range with `end - start < 1` is left unchanged; otherwise [start, end] ends sorted by start, as a permutation of its old contents, with every other index untouched |
| `Sorting.QuickSortInplace` | sort.go:3-6 | returns the same array, now sorted by start and a permutation of its old contents (the empty array included) |
| `Sorting.SwapKeepsSettled` | sort.go:38-45 | a swap inside the unsettled suffix keeps the settled prefix in order and below the suffix |
| `Sorting.SwapKeepsLeast` | sort.go:39-43 | swapping in a later element that starts strictly earlier keeps position i a least start over one more element |
| `Sorting.SettledExtend` | sort.go:38-45 | once position i holds a least start of the rest, the settled prefix grows by one |
| `Sorting.SortRun` | sort.go:35-47 | after one run the array is sorted by start and a permutation of the input; the result is true exactly when the input was not sorted, and when it is false the array is unchanged |
| `Sorting.SortInplace` | sort.go:28-33 | terminates with the array sorted by start and a permutation of the input; the loop's invariant and termination measure bound it to at most two runs of `SortRun` |
| `Sorting.SortsAgree` | sort.go:3-33 | two sorted permutations of the same intervals have identical start sequences, so both sorts order starts identically |

## Left out

- `cmd/sample/main.go` prints coloured sample output and exits through `log.Fatalln`. It is I/O around one call to `Merge` and is not part of this model.
- `doc.go` holds only a package comment.
- `MergeInplace`, `MergeInplaceBasicSort`, `MergeStream` and `MergeAlternative` are called by `merge_test.go`, but their source files are not part of this model. The sweep merge that the tests expect (sorting, then joining overlapping or touching intervals, and an error for `End < Start`) is therefore not modelled.
- `Intervals.Merge`: the overlap-free result and the invalid-interval error promised by its doc comment are not stated, because its body does neither.
- The streaming variant's goroutines and channels (`TestMergeStream`) are concurrency and are not modelled.
- Go's distinction between a nil slice and an empty non-nil slice is not modelled. A Dafny array is never null, so `copyIntervals(nil)` is modelled like an empty slice. In Go it returns an empty non-nil slice.
- `Start` and `End` are unbounded integers. The code only compares and swaps them, and the indices only move by one, so Go's `int` width never matters.
- `Sorting.SortInplace`: the bound of at most two runs is carried by a ghost counter in the loop invariant and its termination measure, not by a postcondition, because `sortInplace` returns nothing that could report it.
- The only errors Go's `([]Interval, error)` could carry are ones `Merge` never produces, so `Result.Err` holds just a message.
