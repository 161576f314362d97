# Three-way-partition quicksort, modelled in Dafny

`quicksort.py` holds two recursive quicksorts over Python lists. Each one
returns a list of length 0 or 1 unchanged. Otherwise it picks a pivot element of
the list and builds three lists with three comprehensions: the elements below
the pivot, the elements equal to it and the elements above it, each in input
order. It sorts the outer two recursively and returns
`quicksort(left) + middle + quicksort(right)` (in the randomized variant, `randomized_quicksort(left) + middle + randomized_quicksort(right)`). The deterministic `quicksort` takes the
pivot at index `len(arr) // 2`. `randomized_quicksort` takes it at an index drawn
by `random.randint(0, len(arr) - 1)`.

The model (`quicksort.dfy`, module `Sorting`) works on `seq<int>`:

- `Filter` is one comprehension. The `Side` value says which of the three
  comparisons (`<`, `==`, `>`) it applies against the pivot.
- `Partition` applies the three filters to the list.
- `Quicksort` is the deterministic sort, written as a recursive function.
  Its contract says the result is sorted and is a permutation of the input.
- `RandomizedQuicksort` is a method. At every call it picks the pivot index with
  `:|`, so the index can be any index of the current list. Its contract holds
  for every sequence of such choices.
- `SortedPermutationUnique` proves that a sorted list is fixed by its multiset
  of elements. Together with `Quicksort`'s contract this makes
  `QuicksortCharacterization` an independent specification of the sort. The
  lemmas for pivot independence, idempotence and the already-sorted input are
  derived from it.

## Model

| member | source | states |
|---|---|---|
| `Sorting.Filter` | quicksort.py:17-19 | the comprehension keeps every element on the requested side of the pivot exactly as often as the input holds it, and no other element; the result is no longer than the input |
| `Sorting.Partition` | quicksort.py:16-19 | the left, middle and right groups hold only elements below, equal to and above the pivot, and together they hold exactly the input multiset; the middle group is non-empty exactly when the pivot occurs in the input, and then both outer groups are strictly shorter than the input, which is why the recursion terminates |
| `Sorting.MiddleIndex` | quicksort.py:16 | `len(arr) // 2` is a valid index of a non-empty list and is the floor of half the length |
| `Sorting.Quicksort` | quicksort.py:4-20 | the deterministic quicksort returns a list that is sorted ascending and a permutation of its input |
| `Sorting.AdjacentSortedIffSorted` | quicksort.py:12 | "sorted" read as every adjacent pair ascending is equivalent to every pair of positions being ascending |
| `Sorting.JoinSorted` | quicksort.py:20 | sorted groups below, at and above one pivot concatenate to a sorted list |
| `Sorting.SortedPermutationUnique` | quicksort.py:20 | two sorted lists with the same multiset of elements are equal |
| `Sorting.QuicksortCharacterization` | quicksort.py:4-20 | a list equals the result of `quicksort(arr)` if and only if it is sorted and a permutation of `arr` |
| `Sorting.QuicksortLength` | quicksort.py:20 | the output has the same length as the input |
| `Sorting.ShortInputUnchanged` | quicksort.py:14-15 | lists of length 0 or 1 are returned unchanged |
| `Sorting.SortedInputUnchanged` | quicksort.py:4-20 | `quicksort` returns its input unchanged if and only if the input is already sorted |
| `Sorting.AllEqualUnchanged` | quicksort.py:18-20 | a list whose elements are all equal is returned unchanged |
| `Sorting.QuicksortIdempotent` | quicksort.py:4-20 | sorting the output again changes nothing |
| `Sorting.PivotChoiceIrrelevant` | quicksort.py:34-39 | partitioning around the element at any index and sorting the outer groups gives the deterministic result |
| `Sorting.RandomizedQuicksort` | quicksort.py:22-39 | for every choice of pivot indices in `[0, len - 1]`, the result is sorted, a permutation of the input, equal to `quicksort(arr)`, and equal to the input when the input has length 0 or 1 |
| `Sorting.DemoDeterministic` | quicksort.py:49-50 | `quicksort([3, 6, 8, 10, 1, 2, 1])` is `[1, 1, 2, 3, 6, 8, 10]` |
| `Sorting.DemoRandomized` | quicksort.py:54 | `randomized_quicksort` on the same sample list also gives `[1, 1, 2, 3, 6, 8, 10]`, whatever pivots it picks |

## Left out

- `performance_analysis` (quicksort.py:41-45) is not modelled. Its body is only a docstring, so in the code it returns `None`. Its docstring says only that it analyses the performance of a sorting function. The timing has no correctness content.
- The distribution of `random.randint` is not modelled. The model lets the pivot index be any index in range, chosen afresh at every call, and proves the result for all such choices.
- The `__main__` block (quicksort.py:47-57) prints its results. Printing is left out. Its sample input appears only in the two demo members.
- Elements are `int` only. The Python code accepts any mutually comparable values and raises an error on incomparable ones. Neither generic ordering nor that error is modelled.
- Recursion depth, stack overflow and running time are not modelled.
- Python returns the very same list object for inputs of length 0 or 1. Values have no identity here, so the model only states that the result is equal to the input.
- `Filter`: the contract states which elements the comprehension keeps and how often, but not that they keep their input order. The body does keep that order, and sortedness of the overall output does not depend on it.
