# Second largest value: a verified model of second.py

`second.py` holds two ways to get the second-largest value of a list:

- `second_for` makes one left-to-right pass. It keeps two running maxima, `first` and
  `second`, both seeded with the sentinel `-1`. A value above `first` pushes `first` down
  into `second`. Otherwise, a value above `second` replaces it.
- `second_sort` sorts a copy of the list and returns the element at Python index `-2`.

The model is two Dafny modules:

- `Sorting` (sorting.dfy) models Python's built-in `sorted` by its specification. It returns
  a list in non-decreasing order with the same multiset of elements. `SortedPermutationUnique`
  proves that only one such list exists, so the body of `SortedCopy` is just a witness and no
  property depends on the sorting algorithm.
- `Second` (second.dfy) models the two routines. Both are stated against one order statistic
  over the multiset of a list, `IsSecondLargest(r, s)`: `r` is an element of `s`, at least two
  elements of `s` are `>= r`, and at most one is `> r`. `SecondLargestByCounts` proves that
  the last condition is the same as "at least `len(s) - 1` elements are `<= r`". A repeated
  maximum therefore counts twice.
  - `SecondFor` is a method whose `for` loop keeps `first` as the maximum and `second` as the
    second largest of `[-1, -1]` followed by the prefix scanned so far. Its result is the
    second largest of the list together with the two sentinels.
  - `SecondSort` is a function. It returns `Ok(v)` for lists of two or more. For shorter lists
    it returns `IndexError`, because the index `-2` is then out of range.

For a list of two or more values, let `v` be what `second_sort` returns. Then `second_for`
returns `v` when `v >= -1` and `-1` otherwise (`ForVersusSort`, and `SecondFor`'s last
postcondition). So the two routines agree exactly when `v >= -1`. In particular they agree
whenever no value is below `-1` (`ForAgreesWithSort`). A value below `-1` does not by itself
cause a difference: `[5, 6, -7]` gives `5` from both routines.

The routines differ in two cases:
- Lists shorter than two. `second_for` returns `-1` (`ShortInputGivesSentinel`), while
  `second_sort` raises IndexError (`SecondSort`).
- Lists whose second largest value is below `-1`. For example, `[-5, -7]` gives `-1` from
  `second_for` but `-7` from `second_sort`.

The list `[5, 5]` shows that a repeated maximum counts twice: both routines return `5`.

## Model

| member | source | states |
|---|---|---|
| `Second.SecondFor` | second.py:1-8 | the result is the second largest of the list plus two `-1` sentinels; it is never below `-1`; for fewer than two values it is `-1`; for two or more values it is second_sort's result `v` when `v >= -1` and `-1` otherwise, so it equals second_sort's result when no value is below `-1`; the loop keeps `second <= first`, `first` the maximum and `second` the second largest of what has been compared, each an element already seen or a sentinel |
| `Second.ScanStep` | second.py:3-7 | each of the loop's three branches (new maximum, new second, neither) keeps `first` the maximum and `second` the second largest of the values compared so far |
| `Second.SentinelBounds` | second.py:2-8 | any result of second_for is at least `-1` |
| `Second.ShortInputGivesSentinel` | second.py:2-8 | on an empty or one-element list second_for returns `-1` |
| `Second.ResultAgainstMaximum` | second.py:2-8 | for a non-empty list with maximum `m`: the result is at most `m` when `m >= -1`, and it is exactly `-1` when every value is below `-1` |
| `Second.ForOrderIndependent` | second.py:3-7 | two orderings of the same multiset give second_for the same result |
| `Second.RepeatedMaximumCountsTwice` | second.py:4-7 | `[5, 5]` gives `5`, not `-1`, from second_for, and `5` from second_sort |
| `Second.SentinelWinsBelowMinusOne` | second.py:2-13 | `[-5, -7]` gives `-1` from second_for but `-7` from second_sort |
| `Second.ForVersusSort` | second.py:1-13 | for two or more values, second_for returns second_sort's result `v` when `v >= -1` and `-1` otherwise, so the two agree if and only if `v >= -1` |
| `Second.SecondLargestWithSentinels` | second.py:1-13 | the second largest of the list plus the two sentinels is at least `-1`, is `-1` for fewer than two values, and is second_sort's result raised to `-1` for two or more |
| `Second.AgreementBelowSentinel` | second.py:1-13 | `[5, 6, -7]` gives `5` from both routines, although one value is below `-1` |
| `Second.SecondLargestByCounts` | second.py:12-13 | the second largest is exactly an element with at least two elements `>=` it and at least `len - 1` elements `<=` it |
| `Second.CountAtMostComplement` | second.py:12-13 | the number of elements `<= x` is the length minus the number of elements `>= x + 1` |
| `Second.ForAgreesWithSort` | second.py:1-13 | with at least two values, none below `-1`, second_for's result equals second_sort's |
| `Second.PyIndex` | second.py:13 | Python list indexing succeeds exactly when `-len <= i < len`; a non-negative index reads `xs[i]` and a negative one `xs[len + i]`; otherwise IndexError |
| `Second.SecondSort` | second.py:11-13 | IndexError exactly when the list has fewer than two elements; otherwise the value returned is the second largest of the list |
| `Second.SecondSortCharacterized` | second.py:11-13 | for two or more values, second_sort returns `r` if and only if `r` is the second largest |
| `Second.SecondSortOrderIndependent` | second.py:12-13 | two orderings of the same multiset give second_sort the same result |
| `Second.SecondLargestUnique` | second.py:11-13 | the second largest of a list is unique, so the two routines' contracts pin down one value |
| `Second.SecondLargestPermutation` | second.py:12-13 | being the second largest depends only on the multiset of the list, not on its order |
| `Second.SortedSecondLargest` | second.py:12-13 | in a sorted list of two or more, the element before the last is the second largest |
| `Sorting.SortedCopy` | second.py:12 | `sorted` returns a non-decreasing list with the same multiset of elements as its argument |
| `Sorting.SortedPermutationUnique` | second.py:12 | two sorted lists with the same multiset are equal, so `sorted`'s result is determined by its specification |
| `Sorting.SortedCopyPermutation` | second.py:12 | `sorted` gives the same list for every ordering of its argument |

## Left out

- Running time and memory. The surrounding repository uses the two functions as a speed
  comparison, which is not a functional property.
- The algorithm inside Python's `sorted` (Timsort) and its stability. Sorting is modelled only
  by its specification; the insertion sort in `SortedCopy` is a witness, and
  `SortedPermutationUnique` shows that the choice does not matter.
- Floating-point values, NaN in particular, for which `>` is not a total order. Values are
  unbounded integers, as Python's `int` is.
- Mutation of the caller's list. Lists are Dafny sequences, which are values, so the fact that
  `sorted` leaves its argument unchanged holds by construction and is not stated.
- Inputs that are not lists of numbers (a generator, mixed types). `second_for` accepts any
  iterable, but only finite sequences of integers are modelled.
- The notebooks, CSV and SQL material elsewhere in the repository. It consists of library
  calls and timing harnesses. The chunked aggregation it describes is not part of this model.
