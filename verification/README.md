# OpenSTL containers in Dafny

A model of the value-level core of OpenSTL, a small header-only C++ container
library. It covers four parts:

- the storage engine of `vector<T>` (`include/OpenSTL/vector.h`): construction,
  checked and unchecked access, the growth policy, `reserve`, `resize`,
  `shrink_to_fit`, `clear`, `push_back`/`emplace_back`/`pop_back`, the shifting
  `emplace` and both `erase` overloads, move assignment and the six comparison
  operators;
- the range algorithms `lexicographical_compare` and `equal`
  (`include/OpenSTL/algorithm.h`), on which every container comparison rests;
- the `reverse_iterator` adapter (`include/OpenSTL/internal/reverse_iterator.h`),
  with the wrapped pointer replaced by an integer position;
- the fixed-length `array<T, N>` (`include/OpenSTL/array.h`) and the `at` of
  its `N == 0` specialisation.

Modelling choices:

- The element type is a generic `T`. `value_type()` (written `{}` in `array`)
  is a parameter `zero`, and the element `operator<` is a parameter `less`.
  The `operator>` that `lexicographical_compare` also calls is `less` with its
  arguments swapped.
- The element `operator==` and `operator!=` that `equal` and the container
  `==` operators call are Dafny's `==` and `!=` on `T`. That
  is exact for `int` and for any type whose `operator==` is value identity; a
  `T` whose `operator==` is coarser than that is not modelled.
- A vector is `Vector(buf, size)`. `buf` is the whole allocated block, so
  `capacity() == |buf|`. The elements are `buf[..size]`, and `empty()` is
  `size == 0`. The cells past `size` are part of the state because the
  operations differ in what they leave there.
- Allocation is "a fresh block of `n` cells". An element move is modelled as a
  copy, which is exact for trivially copyable types such as `int`.
- Each mutating operation is a pure function from the old state to the new
  one. Operations that also return an iterator yield a pair (state, position).
- Positions are integers. `at` takes a `size_t` as a `nat`. `ToSizeT` gives
  the wrap-around modulo 2^64 that a negative argument such as `at(-1)`
  undergoes.
- The C++ shift loops of `emplace`, `erase` and range `erase`, and the loops
  of the two algorithms, are also written as Dafny methods. Each is proved to
  compute its functional definition.
- `VectorGrowth` follows a run of `push_back` calls from empty. It proves that
  the capacity is always the least power of two that holds the elements. It
  also proves that `n > 0` pushes reallocate exactly `ceil(log2 n) + 1` times.

Where the code and the library's own comments and tests promise different
things, the model follows the code. All four cases are listed under
"## Findings":

- The comment on `reserve` (`include/OpenSTL/vector.h:196-198`) promises room
  without reallocation. Yet `emplace` on an empty vector reallocates to one
  cell, whatever capacity was reserved.
- The `resize` tests (`test/vector_test.cpp:420-443`) expect the new elements
  to be `value_type()`. Yet growing within the capacity assigns nothing to them.
- The comment on `emplace` (`include/OpenSTL/vector.h:252`) promises that the
  element is constructed at the given position, and its tests read the new
  value through the returned iterator. At `end()`, though, the value lands one
  cell earlier, and the iterator reads the old last element.
- `emplace` is meant to insert the value it is given, as `push_back` does.
  Yet it builds the element only after the shift loop has run
  (`include/OpenSTL/vector.h:264-268`). An argument that refers to one of the
  vector's own cells is then read after it has been overwritten.

## Model

| member | source | states |
|---|---|---|
| Algorithm.LexicographicalCompare | include/OpenSTL/algorithm.h:26-44 | the two-cursor loop with its early `<` and `>` exits and the final "first ran out, second did not" test; its law is stated by `Algorithm.LexicographicalCompareMeaning` and proved equal to the loop by `Algorithm.LexicographicalCompareLoop` |
| Algorithm.Equal | include/OpenSTL/algorithm.h:67-82 | the element loop with its early `!=` exit and the final "both ran out" test; its law is stated by `Algorithm.EqualMeaning` and proved equal to the loop by `Algorithm.EqualLoop` |
| Algorithm.FirstDecisive | include/OpenSTL/algorithm.h:29-38 | where the comparison loop stops: no earlier position has elements the order tells apart, and a stop before the shorter range's end is at such a position |
| Algorithm.LexicographicalCompareAtFirstDecisive | include/OpenSTL/algorithm.h:29-35 | when the first position whose elements the order separates is `k`, the result is `a[k] < b[k]` |
| Algorithm.LexicographicalCompareWithoutDecisive | include/OpenSTL/algorithm.h:36-43 | when no position separates the ranges, `a` is less exactly when it is the shorter range |
| Algorithm.LexicographicalCompareMeaning | include/OpenSTL/algorithm.h:26-44 | the complete law: decided by the first decisive position, otherwise by which range is shorter |
| Algorithm.LexicographicalCompareFirstDifference | include/OpenSTL/algorithm.h:26-44 | for a trichotomous element order, the result is decided by the elements at the first index where the ranges differ |
| Algorithm.LexicographicalComparePrefix | include/OpenSTL/algorithm.h:36-43 | for a trichotomous element order, when one range is a prefix of the other, the shorter one is less |
| Algorithm.LexicographicalCompareEmpty | include/OpenSTL/algorithm.h:39-43 | the empty range is less than `b` exactly when `b` is non-empty |
| Algorithm.LexicographicalCompareIrreflexive | include/OpenSTL/algorithm.h:29-43 | no range is less than itself when the element order is irreflexive |
| Algorithm.LexicographicalCompareAsymmetric | include/OpenSTL/algorithm.h:26-44 | `a < b` and `b < a` never both hold when the element order is asymmetric |
| Algorithm.EqualMeaning | include/OpenSTL/algorithm.h:67-82 | `equal` holds exactly when the lengths agree and the elements are pairwise equal |
| Algorithm.EqualIsEquality | include/OpenSTL/algorithm.h:67-82 | `equal` is sequence equality |
| Algorithm.Trichotomy | include/OpenSTL/algorithm.h:26-82 | for a trichotomous element order, exactly one of `lc(a,b)`, `lc(b,a)`, `equal(a,b)` holds |
| Algorithm.LexicographicalCompareLoop | include/OpenSTL/algorithm.h:26-44 | the index-stepping loop with its early exits computes the lexicographic comparison |
| Algorithm.EqualLoop | include/OpenSTL/algorithm.h:67-82 | the index-stepping loop with its early exit computes `equal` |
| ReverseIterators.RBegin | include/OpenSTL/vector.h:130-140 | `rbegin()` wraps the position of the last element, `size - 1`; `ReverseIterators.DerefFromBack` states that it reads the last element |
| ReverseIterators.REnd | include/OpenSTL/vector.h:153-165 | `rend()` wraps the position one before the first element, `-1`; `ReverseIterators.Traverse` states that walking from `rbegin()` to `rend()` visits every element back to front |
| ReverseIterators.Deref | include/OpenSTL/internal/reverse_iterator.h:43 | `*r` reads the element at the wrapped position itself, with no `-1` adjustment; `ReverseIterators.DerefFromBack` states its law |
| ReverseIterators.Plus | include/OpenSTL/internal/reverse_iterator.h:55-57 | `r + n` wraps the position `n` lower; `ReverseIterators.OffsetRoundTrip` states its law with `-` |
| ReverseIterators.Minus | include/OpenSTL/internal/reverse_iterator.h:107-109 | `r - n` wraps the position `n` higher; `ReverseIterators.OffsetRoundTrip` states its law with `+` |
| ReverseIterators.Eq | include/OpenSTL/internal/reverse_iterator.h:165-167 | `==` compares the wrapped positions; `ReverseIterators.OrderFollowsTraversal` states its law |
| ReverseIterators.Ne | include/OpenSTL/internal/reverse_iterator.h:178-180 | `!=` compares the wrapped positions; `ReverseIterators.OrderFollowsTraversal` states its law |
| ReverseIterators.Lt | include/OpenSTL/internal/reverse_iterator.h:192-194 | `<` is `>` on the wrapped positions; `ReverseIterators.OrderFollowsTraversal` states that it orders by traversal |
| ReverseIterators.Le | include/OpenSTL/internal/reverse_iterator.h:206-208 | `<=` is `>=` on the wrapped positions; `ReverseIterators.OrderFollowsTraversal` states its law |
| ReverseIterators.Gt | include/OpenSTL/internal/reverse_iterator.h:220-222 | `>` is `<` on the wrapped positions; `ReverseIterators.OrderFollowsTraversal` states its law |
| ReverseIterators.Ge | include/OpenSTL/internal/reverse_iterator.h:234-236 | `>=` is `<=` on the wrapped positions; `ReverseIterators.OrderFollowsTraversal` states its law |
| ReverseIterators.PlusAssign | include/OpenSTL/internal/reverse_iterator.h:91-94 | `r += n` leaves the receiver equal to `r + n` |
| ReverseIterators.MinusAssign | include/OpenSTL/internal/reverse_iterator.h:143-146 | `r -= n` leaves the receiver equal to `r - n` |
| ReverseIterators.PreIncrement | include/OpenSTL/internal/reverse_iterator.h:65-68 | `++r` is `r + 1`, which moves the base towards the front |
| ReverseIterators.PreDecrement | include/OpenSTL/internal/reverse_iterator.h:117-120 | `--r` is `r - 1`, which moves the base towards the back |
| ReverseIterators.PostIncrement | include/OpenSTL/internal/reverse_iterator.h:76-80 | `r++` returns the iterator as it was and steps the receiver as `++r` does |
| ReverseIterators.PostDecrement | include/OpenSTL/internal/reverse_iterator.h:128-132 | `r--` returns the iterator as it was and steps the receiver as `--r` does |
| ReverseIterators.OffsetRoundTrip | include/OpenSTL/internal/reverse_iterator.h:55-109 | `(r + n) - n == r` and `(r - n) + n == r` |
| ReverseIterators.StepRoundTrip | include/OpenSTL/internal/reverse_iterator.h:65-132 | `++` followed by `--`, prefix or postfix, restores the iterator |
| ReverseIterators.OrderFollowsTraversal | include/OpenSTL/internal/reverse_iterator.h:165-236 | `r + m < r + n` exactly when `m < n`; the six comparison operators are consistent with each other |
| ReverseIterators.DerefFromBack | include/OpenSTL/internal/reverse_iterator.h:43-57 | `*(rbegin() + n)` is the `n`-th element from the back; `*rbegin()` is the last element and `*(--rend())` the first |
| ReverseIterators.Traverse | include/OpenSTL/vector.h:130-153 | stepping from `rbegin()` until `rend()` takes exactly `size` steps and visits the elements back to front |
| Vectors.Empty | include/OpenSTL/vector.h:32 | the default vector has no elements and no capacity |
| Vectors.FromList | include/OpenSTL/vector.h:35-44 | the list constructor holds the list's elements, with a capacity equal to the list's length |
| Vectors.WithCount | include/OpenSTL/vector.h:47-54 | `vector(count)` holds `count` default elements, with a capacity of `count` |
| Vectors.WithCountValue | include/OpenSTL/vector.h:57-64 | `vector(count, value)` holds `count` copies of `value`, with a capacity of `count` |
| Vectors.CopyConstruct | include/OpenSTL/vector.h:67-74 | a copy has equal elements and a capacity equal to the size |
| Vectors.MoveConstruct | include/OpenSTL/vector.h:77-84 | the new vector takes over the block, size and capacity; the source is left with size 0 and capacity 0 |
| Vectors.MoveAssign | include/OpenSTL/vector.h:336-347 | the destination takes over the source's block, size and capacity; the source is left with size 0 and capacity 0 |
| Vectors.ToSizeT | include/OpenSTL/vector.h:94-95 | an `int` argument converted to `size_type` wraps modulo 2^64; `VectorProperties.AtNegativeThrows` states that a negative index therefore throws |
| Vectors.At | include/OpenSTL/vector.h:95-112 | `at(off)` succeeds exactly when `off < size`, returning that element; otherwise it fails with out_of_range |
| Vectors.Index | include/OpenSTL/vector.h:315-321 | unchecked `operator[]`, defined below the size; `VectorProperties.AtAgreesWithIndex` states that it agrees with `at` |
| Vectors.Front | include/OpenSTL/vector.h:174-177 | `front()` reads the first element; `VectorProperties.EndpointAccessors` states its law |
| Vectors.Back | include/OpenSTL/vector.h:115-118 | `back()` reads the last element; `VectorProperties.EndpointAccessors` states its law |
| Vectors.ReAllocate | include/OpenSTL/vector.h:409-421 | reallocating keeps size and elements, sets the capacity to exactly the request, and leaves `value_type()` in every cell past the elements |
| Vectors.ExpandCapacity | include/OpenSTL/vector.h:398-405 | keeps the elements and always leaves room for one more; a full vector goes from 0 to 1 cell or doubles, and any other vector is untouched |
| Vectors.Clear | include/OpenSTL/vector.h:190-195 | `clear()` leaves size 0 and the capacity unchanged; the old element cells are reset to `value_type()` |
| Vectors.Reserve | include/OpenSTL/vector.h:199-203 | `reserve(n)` never changes the elements; it sets the capacity to exactly `n` when `n` exceeds it and is a no-op otherwise |
| Vectors.Resize | include/OpenSTL/vector.h:207-217 | `resize(n)` always ends with size `n`; shrinking keeps the prefix, resets the dropped cells and keeps the capacity; growing past capacity reallocates to exactly `n` with default new elements; growing within capacity leaves the block as it was |
| Vectors.ShrinkToFit | include/OpenSTL/vector.h:220-222 | `shrink_to_fit()` keeps the elements and makes the capacity equal to the size |
| Vectors.PushBack | include/OpenSTL/vector.h:225-250 | appends exactly one element and keeps the others; the capacity is unchanged unless the vector was full, in which case it becomes 1 (from empty) or doubles |
| Vectors.PopBack | include/OpenSTL/vector.h:239-242 | drops the last element, keeps the capacity and resets the vacated cell to `value_type()` |
| Vectors.Emplace | include/OpenSTL/vector.h:254-275 | on an empty vector the result is `[x]` with capacity exactly 1; before `end()` it inserts `x` at `pos` and returns `pos`; capacity becomes `size + 1` only if the vector was full; at `end()` `x` lands before the old last element; when the vector was neither empty nor full, every cell past the new last element is unchanged |
| Vectors.OpenGap | include/OpenSTL/vector.h:262-268 | after the backward shift loop and the write at the stop cell, the elements before the stop are unchanged, `x` is at the stop, the later elements sit one cell right with the last one dropped, and the cells past the size are unchanged |
| Vectors.ShiftThenAppendElements | include/OpenSTL/vector.h:262-273 | after the shift, the write at the stop cell and the append of the saved last element, the elements are the old ones with `x` inserted at the stop cell |
| Vectors.AppendSaved | include/OpenSTL/vector.h:269-273 | the saved last element is appended after the others; the block grows to exactly `size + 1` only when full, and otherwise the cells past the new size are unchanged |
| Vectors.Erase | include/OpenSTL/vector.h:278-291 | removes the element at `pos`, keeps the capacity and returns `pos`, which is the new end when `pos` was last; cells past the new size are left as they were |
| Vectors.EraseRange | include/OpenSTL/vector.h:294-312 | removes `[first, last)`, shrinks the size by `last - first`, keeps the capacity and returns `first`; a `last` before `first` changes nothing |
| Vectors.Eq | include/OpenSTL/vector.h:350-360 | `==` agrees with `equal` over the elements and holds exactly when the element sequences are equal |
| Vectors.Ne | include/OpenSTL/vector.h:363 | `!=` is the negation of `==`; `VectorProperties.ComparisonLaws` states that it holds exactly when the element sequences differ |
| Vectors.Lt | include/OpenSTL/vector.h:366-369 | `<` is `lexicographical_compare` over the elements; `VectorProperties.ComparisonLaws` states its laws |
| Vectors.Le | include/OpenSTL/vector.h:372-376 | `<=` is `<` or `==`; `VectorProperties.ComparisonLaws` states that it is the negation of `>` |
| Vectors.Gt | include/OpenSTL/vector.h:379-382 | `>` is `lexicographical_compare` with the operands swapped; `VectorProperties.ComparisonLaws` states that it is `<` reversed |
| Vectors.Ge | include/OpenSTL/vector.h:385-389 | `>=` is `>` or `==`; `VectorProperties.ComparisonLaws` states that it is the negation of `<` |
| VectorLoops.EmplaceShift | include/OpenSTL/vector.h:261-274 | the backward shift loop of `emplace`, with its save of the last element and its late growth, yields the state and position that `Vectors.Emplace` describes |
| VectorLoops.ShiftRight | include/OpenSTL/vector.h:263-268 | the backward loop copies each cell from its left neighbour down to the insertion point and writes the value where it stops, which opens a gap at `pos`, or at the last element when `pos` is `size` |
| VectorLoops.EraseShift | include/OpenSTL/vector.h:278-291 | the walk-then-shift loops of `erase` yield the state and position that `Vectors.Erase` describes |
| VectorLoops.EraseRangeShift | include/OpenSTL/vector.h:294-312 | the two cursor walks and the copy loop of range `erase` yield the state and position that `Vectors.EraseRange` describes |
| VectorLoops.ShiftLeft | include/OpenSTL/vector.h:303-310 | the copy loop of range `erase` closes the gap `[first, last)`; its cursors end `last - first` apart, which is the amount the size drops by |
| VectorLoops.EqualityLoop | include/OpenSTL/vector.h:350-360 | the size test and element loop of `operator==` compute `Vectors.Eq` |
| VectorProperties.AtAgreesWithIndex | include/OpenSTL/vector.h:95-112 | `at(i)` returns what `operator[](i)` reads for every valid `i` |
| VectorProperties.AtPastEndThrows | include/OpenSTL/vector.h:95-101 | `at(size + k)` throws out_of_range for every `k`, including `at(size)` |
| VectorProperties.AtNegativeThrows | include/OpenSTL/vector.h:95-101 | a negative argument wraps to `2^64 + i` as a `size_t`, so `at(-1)` throws |
| VectorProperties.EndpointAccessors | include/OpenSTL/vector.h:115-177 | `front()` and `back()` are `at(0)` and `at(size - 1)`, and equal `*(--rend())` and `*rbegin()` |
| VectorProperties.PushPopRoundTrip | include/OpenSTL/vector.h:225-242 | `push_back(x)` makes `x` the back, and a following `pop_back()` restores the elements without lowering the capacity; without a reallocation and with a default tail, the whole state comes back |
| VectorProperties.ReserveIdempotent | include/OpenSTL/vector.h:199-203 | `reserve(n)` twice equals `reserve(n)` once, and leaves a capacity of at least `n` |
| VectorProperties.ShrinkToFitIdempotent | include/OpenSTL/vector.h:220-222 | `shrink_to_fit()` twice equals `shrink_to_fit()` once |
| VectorProperties.EraseIsRangeOfOne | include/OpenSTL/vector.h:278-312 | `erase(pos)` is the range erase of `[pos, pos + 1)`, down to every cell |
| VectorProperties.EmplaceEraseRoundTrip | include/OpenSTL/vector.h:254-291 | away from `end()`, the returned position reads `x`, and erasing it restores the elements |
| VectorProperties.DefaultTailPreserved | include/OpenSTL/vector.h:190-275 | every operation except `erase` keeps the cells past the elements at `value_type()` when they were so before |
| VectorProperties.EmplaceKeepsDefaultTail | include/OpenSTL/vector.h:254-275 | `emplace` keeps the cells past the elements at `value_type()` when they were so before |
| VectorProperties.ResizeGrowsWithDefaults | include/OpenSTL/vector.h:207-217 | while that invariant holds, growing with `resize` yields default new elements even within the capacity |
| VectorProperties.ComparisonLaws | include/OpenSTL/vector.h:350-389 | for a trichotomous element order, `>` is `<` reversed, `!=` is "element sequences differ", `<=` and `>=` are the negations of `>` and `<`, and exactly one of `<`, `>`, `==` holds |
| VectorGrowth.PushesFromEmptyContents | include/OpenSTL/vector.h:225-236 | pushing `xs` onto an empty vector yields exactly `xs` |
| VectorGrowth.PushesFromEmpty | include/OpenSTL/vector.h:398-405 | after `n > 0` pushes from empty, the capacity is a power of two in `[n, 2n)`, namely `2^(reallocations - 1)` |
| VectorGrowth.ReallocationCount | include/OpenSTL/vector.h:398-421 | `n > 0` pushes from empty reallocate exactly `ceil(log2 n) + 1` times and leave the capacity at `2^ceil(log2 n)` |
| VectorFindings.EmplaceAtEndMisplaces | include/OpenSTL/vector.h:262-274 | `emplace(end(), 3)` on `{1, 2}` gives `{1, 3, 2}`, and the returned position reads `2` |
| VectorFindings.EmplaceIntoEmptyShrinks | include/OpenSTL/vector.h:255-259 | after `reserve(10)`, `emplace` into the empty vector leaves capacity 1 |
| VectorFindings.EmplaceIntended | include/OpenSTL/vector.h:254-275 | intended `emplace`: inserts `x` before `pos` for every `pos` up to `end()`, returns a position that reads `x`, and never lowers the capacity |
| VectorFindings.EmplaceAgreesBeforeEnd | include/OpenSTL/vector.h:254-275 | on a non-empty vector before `end()`, the code as written equals the intended `emplace`, down to every cell |
| VectorFindings.EmplaceIntendedAtEndAppends | include/OpenSTL/vector.h:254-275 | the intended `emplace(end(), x)` has the elements of `push_back(x)` |
| VectorFindings.EmplaceFromCell | include/OpenSTL/vector.h:254-275 | `emplace` with an argument that refers to cell `src` returns `pos` and inserts whatever cell `src` holds in the result: the value `src` held at the call when `src <= pos` or the call is at `end()`, and the value of cell `src - 1` when `src > pos`, because the shift loop has moved it there |
| VectorFindings.EmplaceFromOwnCellReadsShifted | include/OpenSTL/vector.h:262-268 | `{1, 2, 3}`, `emplace(begin(), v[1])` gives `{1, 1, 2, 3}`, although `v[1]` was `2` at the call |
| VectorFindings.EmplaceFromCellIntended | include/OpenSTL/vector.h:252-254 | intended `emplace` from an own cell: inserts the value cell `src` held at the call, before `pos`, and returns `pos` |
| VectorFindings.EmplaceFromUnmovedCellAgrees | include/OpenSTL/vector.h:262-268 | when the referenced cell lies at or before the insertion point, which still holds its value when the element is built, the code as written equals the intended `emplace` |
| VectorFindings.ResizeAfterEraseExposesStale | include/OpenSTL/vector.h:213-216 | `{1, 2, 3}`, `erase(begin())`, `resize(3)` gives `{2, 3, 3}` |
| VectorFindings.ResizeIntended | include/OpenSTL/vector.h:207-217 | intended `resize`: every new element is `value_type()`, whether or not the block had room |
| VectorFindings.ResizeAgreesUnderDefaultTail | include/OpenSTL/vector.h:207-217 | while the cells past the elements hold `value_type()`, the code as written equals the intended `resize` |
| Arrays.Default | include/OpenSTL/array.h:747 | a default array has `N` elements, each `value_type()` |
| Arrays.FromList | include/OpenSTL/array.h:747 | aggregate initialisation with at most `N` values holds them first, with `value_type()` after |
| Arrays.At | include/OpenSTL/array.h:46-83 | `at(off)` succeeds exactly when `off < N`, returning that element; otherwise it fails with out_of_range |
| Arrays.AtZeroLength | include/OpenSTL/array.h:763-775 | the `N == 0` specialisation's `at` throws for every index; `Arrays.AtZeroLengthAgrees` states that this is the general rule at `N == 0` |
| Arrays.Size | include/OpenSTL/array.h:473 | `size()` is `N`; `Arrays.Accessors` states its law |
| Arrays.MaxSize | include/OpenSTL/array.h:375 | `max_size()` is `N`; `Arrays.Accessors` states its law |
| Arrays.IsEmpty | include/OpenSTL/array.h:321 | `empty()` holds exactly when `N == 0`; `Arrays.Accessors` states its law |
| Arrays.Index | include/OpenSTL/array.h:538-561 | unchecked `operator[]`, defined below `N`; `Arrays.Accessors` states that it agrees with `at` |
| Arrays.Front | include/OpenSTL/array.h:338-357 | `front()` reads element `0`; `Arrays.Accessors` states its law |
| Arrays.Back | include/OpenSTL/array.h:100-118 | `back()` reads element `N - 1`; `Arrays.Accessors` states its law |
| Arrays.AtZeroLengthAgrees | include/OpenSTL/array.h:763-775 | for `N == 0`, `at` throws for every index, as the specialisation does |
| Arrays.Accessors | include/OpenSTL/array.h:100-473 | `size() == max_size() == N`; `empty()` exactly when `N == 0`; `at` agrees with `operator[]`; `front()` and `back()` are elements `0` and `N - 1`, and equal `*(--rend())` and `*rbegin()` |
| Arrays.Fill | include/OpenSTL/array.h:490-494 | after `fill(v)`, every one of the `N` elements is `v` |
| Arrays.FillLaws | include/OpenSTL/array.h:490-494 | corollary of `Arrays.Fill`'s contract: filling twice with `v` equals filling once; filling a default array with `value_type()` changes nothing |
| Arrays.Swap | include/OpenSTL/array.h:512-516 | the element-by-element exchange leaves each array with the other's elements, so swapping twice restores both |
| Arrays.CopyAssign | include/OpenSTL/array.h:582-589 | after copy assignment the target equals the source element-wise |
| Arrays.MoveAssign | include/OpenSTL/array.h:607-613 | the target receives the source's elements and every source element is reset to `{}` |
| Arrays.AssignmentLaws | include/OpenSTL/array.h:582-613 | corollary of the contracts of `Arrays.CopyAssign` and `Arrays.MoveAssign`: self copy-assignment is a no-op; moving back after a move assignment returns the moved elements |
| Arrays.Eq | include/OpenSTL/array.h:632-634 | `==` is `equal` over the elements; `Arrays.ComparisonLaws` states that it is element-wise equality |
| Arrays.Ne | include/OpenSTL/array.h:653 | `!=` is the negation of `==`; `Arrays.ComparisonLaws` states its law |
| Arrays.Lt | include/OpenSTL/array.h:672-674 | `<` is `lexicographical_compare` over the elements; `Arrays.ComparisonLaws` states its laws |
| Arrays.Gt | include/OpenSTL/array.h:694-696 | `>` is `lexicographical_compare` with the operands swapped; `Arrays.ComparisonLaws` states that it is `<` reversed |
| Arrays.Le | include/OpenSTL/array.h:716-720 | `<=` is `<` or `==`; `Arrays.ComparisonLaws` states that it is the negation of `>` |
| Arrays.Ge | include/OpenSTL/array.h:740-744 | `>=` is `>` or `==`; `Arrays.ComparisonLaws` states that it is the negation of `<` |
| Arrays.ComparisonLaws | include/OpenSTL/array.h:632-744 | for a trichotomous element order, `==` is element-wise equality, `>` is `<` reversed, `<=` and `>=` are the negations of `>` and `<`, and exactly one of `<`, `>`, `==` holds |

## Left out

- `include/OpenSTL/memory.h`: the allocator wraps `new T[]` and `delete[]`. Allocation is modelled as a fresh block of `n` cells, and allocation failure is not modelled.
- Destructors, leaks and double frees (`include/OpenSTL/vector.h:87-92`): these have no meaning at the level of values.
- `include/OpenSTL/internal/iterator.h` and `include/OpenSTL/type_traits.h`: these hold compile-time type metadata with no run-time behaviour.
- `include/OpenSTL/utility.h`: `move` is a cast, so moving an element is modelled as copying it, and moved-from elements keep their value. `swap` is modelled where it is used, in `Arrays.Swap`.
- Vector copy assignment (`include/OpenSTL/vector.h:324-333`): it frees the block and then `re_allocate` copies the old elements out of it and frees it again. That is defined only for a default-constructed destination (no block, size 0). There the elements become `right`'s in a block of `right.size()` cells, while the recorded capacity is `right.capacity()`. When `right` has spare capacity (`right.capacity() > right.size()`), the recorded capacity exceeds the block, which this state (`capacity() == |buf|`) cannot represent. When it has none, as for a vector built from a list or by copy construction, the result is the state `Vectors.CopyConstruct(right)` gives; that case is not modelled separately.
- Raw pointer identities (`data()`, `begin()`, `end()`, `operator->`): positions are integers here. The pointer `&m_data[-1]` that `rend()` is built from is out of bounds, and is modelled as the position `-1`.
- `emplace_back` with constructor arguments: the element is taken as already constructed, so `emplace_back` and both `push_back` overloads are `Vectors.PushBack`.
- Vectors.Emplace: the argument is a value that does not refer into the vector. The source builds the element only after the shift loop, so an argument naming one of the vector's cells reads that cell as shifted. That case is modelled separately by `VectorFindings.EmplaceFromCell` (fourth "## Findings" row).
- Vectors.PushBack: the argument is a value that does not refer into the vector. `push_back` and `emplace_back` read the argument after `expand_capacity()` (`include/OpenSTL/vector.h:226-227`, `247-248`). On a full vector that call has already freed the block, so `v.push_back(v[0])` reads freed memory. That has no defined result to model.
- Vectors.PushBack, Vectors.ExpandCapacity, Vectors.Reserve, Vectors.Resize: do not model `size_t` overflow of `2 * size` or of a huge request, nor the `int` loop counter of `re_allocate`. Sizes are unbounded.
- Arrays.MoveAssign: does not model moving an array into itself. With no self-check in the loop, that would reset every element to `{}`. The model takes the two arrays as separate values.
- Vectors.MoveAssign: does not model moving a vector into itself. There `right` is `*this`: the block is freed (`include/OpenSTL/vector.h:337`), and `right`'s reset at lines 343-345 then leaves the vector empty, with no block, size 0 and capacity 0, losing every element. The model takes the two vectors as separate values.
- The zero-length `array` specialisation's `front`, `back`, `operator[]` and iterators, which dereference or return null: only its `at` is modelled. Its `size`, `empty`, `fill` and `swap` behave as the general model does at `N == 0`.
- The gtest test fixtures and `main` functions of the test programs.

## Findings

| source | as written | input that shows it | evidently intended | confidence | as-written member | corrected member |
|---|---|---|---|---|---|---|
| include/OpenSTL/vector.h:262-274 | at `end()` the shift loop stops at the last element, so the new value overwrites that cell and the saved last element is appended after it | `{1, 2}`, `emplace(end(), 3)` gives `{1, 3, 2}`, and the returned iterator reads `2` | `{1, 2, 3}`, with the returned iterator reading `3`: the comment at line 252 says the element is constructed at the given position | high (not executed; read from the code and proved on the model) | VectorFindings.EmplaceAtEndMisplaces | VectorFindings.EmplaceIntended |
| include/OpenSTL/vector.h:255-259 | an empty vector is always reallocated to one cell, even when it already has room | `reserve(10)` then `emplace(begin(), 42)` leaves capacity 1 | capacity stays 10: the comment on `reserve` at lines 196-198 promises room without reallocation | high (not executed; read from the code and proved on the model) | VectorFindings.EmplaceIntoEmptyShrinks | VectorFindings.EmplaceIntended |
| include/OpenSTL/vector.h:213-216 | `resize` growing within the capacity assigns nothing, so it exposes what `erase` left behind | `{1, 2, 3}`, `erase(begin())`, `resize(3)` gives `{2, 3, 3}` | `{2, 3, 0}`: the tests at test/vector_test.cpp:420-443 expect the new elements to be default-initialised | high (not executed; read from the code and proved on the model) | VectorFindings.ResizeAfterEraseExposesStale | VectorFindings.ResizeIntended |
| include/OpenSTL/vector.h:264-268 | the element is built from the arguments only after the shift loop has moved the cells, so an argument that refers to a moved cell is read after it was overwritten | `{1, 2, 3}`, `emplace(begin(), v[1])` gives `{1, 1, 2, 3}` | `{2, 1, 2, 3}`: `emplace` is meant to insert the value passed to it, which is `2` at the call. The comment at line 252 ("Constructs an element in-place at the specified position in the vector") does not mention the arguments; the intent is what `emplace` is for, as `push_back` inserts the value it receives | high (not executed; read from the code and proved on the model) | VectorFindings.EmplaceFromOwnCellReadsShifted | VectorFindings.EmplaceFromCellIntended |

`Vectors.Emplace` and `Vectors.Resize` keep the as-written behaviour, because
they model the library as it is. The corrected definitions sit beside them in
`VectorFindings`. Each corrected definition carries the intended law, plus a
proof of where it and the code agree. For `emplace`, they agree everywhere
before `end()`, and also for an argument taken from a cell before the insertion
point. For `resize`, they agree whenever the cells past the elements hold
`value_type()`.
