# node-sort in Dafny

A model of the four sorts of the node-sort library: `insertion`, `shell`,
`selection` and `bubble`. Each one is exported as `(array, fnCompare) -> array`,
and each runs the same checks in the same order:

1. `fnCompare` must be a function. `insertion`, `shell` and `selection` first
   replace an omitted comparator with `defaultCompare`; `bubble` has no default.
2. `array` must be an array.
3. An empty array returns a new `[]`.

After these checks each sort does its own work on the array.

The comparator is a pure, total Dafny function `cmp: (T, T) -> int`. The two
arguments are sum types:

- `CompareArg` is `Given(cmp) | Omitted | NotCallable`. This models what
  `lodash.isfunction` decides after the default parameter has been applied.
- `ArrayArg` is `Arr(a) | NotArray`. This models `Array.isArray`.

A call ends in an `Outcome`: `Ok(array)` or `Err(error)`. Shallow copies
(`slice()`) are new Dafny arrays, so the contracts can say both "fresh" and "the
caller's array is unchanged". No sort has a `modifies` clause on the caller's
array, so Dafny itself checks that none of them writes it.

What each file does, as the code is written:

- **insertion** (`Insertion`): a stable insertion sort of the copy. The inner
  loop shifts while `cmp(c[j], temp) > 0`. `InsertionSortBy` is a reference
  definition: insert each element, from the right, into the sorted prefix before
  it. The source's two nested loops are proved to compute exactly that.
  `InsertAt` is the body of the outer loop and `SortInPlace` is the outer loop.
  Lemmas then prove these properties of `InsertionSortBy`:
  - the output is a permutation of the input;
  - every adjacent pair is in order (this needs only a total comparator);
  - stability (this needs a transitive comparator);
  - an input that is already sorted comes back unchanged;
  - inputs of length 0 or 1 do not depend on the comparator.
- **shell** (`Shell`): gapped insertion passes with gaps n/2, n/4, …, 1.
  `GapInsert`, `GapPass` and `Passes` follow the innermost, middle and outer
  loops. The shift test is a `ShiftTest` parameter: `Positive` means `> 0` and
  `Nonzero` means the result's JavaScript truthiness. The source uses `Nonzero`.
  What is proved:
  - The output is a permutation for any comparator and either test.
  - For n >= 2 the last pass uses gap 1; for n <= 1 no pass runs. A gap-1 pass is the insertion of
    `insertion`. So the output is sorted whenever the test never moves two
    elements past each other. That holds for `> 0` under a total comparator. For
    the truthy test it holds when the comparator is total and never negative
    (`ShellSortSortedWhenNonNegative`). It fails for any pair that the
    comparator orders both ways: `[a, b]` with `cmp(a, b) < 0` comes out
    `[b, a]` (`ShellReversesOrderedPair`).
  - With the documentation's own -1/0/1 comparator, `[1, 2]` comes out `[2, 1]`
    (see Findings).
- **selection** (`Selection`): the checks and the copy are in the source; the
  sorting loop is not. The model returns the copy element for element, as the
  code does. It does not claim the sorted output that the file's documentation
  and unit tests describe.
- **bubble** (`Bubble`): there is no default comparator and no copy. The helper
  `fnSwap` reads `array`, but that name is only bound inside `bubble`, so every
  call to `fnSwap` throws a reference error before it swaps anything or sets
  `swapped`. The observable behaviour is therefore:
  - one left-to-right pass of adjacent comparisons;
  - the first nonzero result makes the call throw;
  - if every result is 0, the caller's own array is returned unchanged.

Stability means: for every key `k`, the elements that compare equal to `k` keep
their input order. "Compare equal" is `cmp(a, k) <= 0 && cmp(k, a) <= 0`. For a
comparator with `cmp(a, b) > 0` exactly when `cmp(b, a) < 0`, this is the same
as `cmp(a, k) == 0` (`Ordering.EquivalentIsCompareZero`).

The doc comments of `insertion`, `shell` and `selection` promise
`@return {Array} A new sorted array` (src/insertion.js:32, src/shell.js:31,
src/selection.js:43), and their examples are ascending. src/bubble.js has no
doc comment. The unit tests of `insertion`, `selection` and `bubble` expect
ascending output. The code does not keep that promise everywhere. `shell` shifts on any nonzero comparator result.
`selection` returns an unsorted copy. `bubble` sorts nothing and returns the
caller's own array when it does not throw. This model follows the code.

## Model

| member | source | states |
|---|---|---|
| `Contract.Validate` | src/insertion.js:75-79 | The comparator check comes first and fails exactly when the comparator (after any default) is not callable, whatever the array. The array check fails exactly when the comparator passes and the array is not an array. Validation passes exactly when the comparator resolves to a function and the array is an array, so no other error is possible. On success the comparator used is the one given, or the default when it was omitted. |
| `Contract.Slice` | src/insertion.js:85 | `slice()` returns a new array holding the same elements in the same order. |
| `Ordering.SortedIsPairwise` | src/insertion.js:30-32 | For a transitive comparator, sorted adjacent pairs mean that every pair is in order. |
| `Ordering.EquivalentIsCompareZero` | src/insertion.js:10 | For a sign-consistent comparator, "neither comes after the other" is the same as "the comparator returns 0", the equality that stability is about. |
| `Ordering.InOrderPositiveIsSorted` | src/insertion.js:92 | "No adjacent pair that the `> 0` shift test would move" is exactly "every adjacent pair has `cmp <= 0`". |
| `Ordering.EquivalentsOfAppend` | src/insertion.js:10 | The equal-to-`k` subsequence of a concatenation is the concatenation of the subsequences. |
| `Insertion.InsertBy` | src/insertion.js:90-96 | Reference definition of one outer step: moves the elements that `temp` shifts past one place right and puts `temp` after them. The result is one element longer than the prefix; its content is in the lemmas below. |
| `Insertion.InsertionSortBy` | src/insertion.js:88-98 | Reference definition of the whole sort, which keeps the length. Its order, permutation and stability are proved in the lemmas below. |
| `Insertion.Insertion` | src/insertion.js:74-101 | A non-callable comparator is an error even for an empty array. Otherwise a non-array is an error. Otherwise the result is a new array equal to the insertion sort of the input, which is left unchanged. An empty input gives a new empty array. |
| `Insertion.SortInPlace` | src/insertion.js:88-98 | The outer loop leaves the copy equal to `InsertionSortBy` of its old contents under the `> 0` test. |
| `Insertion.InsertAt` | src/insertion.js:90-96 | One outer step puts `c[..i+1]` equal to the insertion of the held `temp` into the old prefix `c[..i]`. Nothing after `i` changes. |
| `Insertion.InsertByPlace` | src/insertion.js:92-96 | `temp` lands right after the last element it does not shift, when every element after that one shifts. |
| `Insertion.InsertByLast` | src/insertion.js:92-96 | After an insertion, the last element is either the inserted value or the old last element. |
| `Insertion.InsertByPermutes` | src/insertion.js:90-96 | Shifting and the final write of `temp` lose and duplicate nothing: the result's multiset is the prefix's plus `temp`. |
| `Insertion.InsertionSortPermutes` | src/insertion.js:88-98 | The output is a permutation of the input, for any comparator. |
| `Insertion.InsertInOrder` | src/insertion.js:92-96 | Inserting into a prefix with no out-of-order adjacent pair keeps it so, when the shift test is asymmetric. |
| `Insertion.InsertionSortInOrder` | src/insertion.js:89-98 | With an asymmetric shift test, no adjacent output pair would be shifted. |
| `Insertion.InsertionSortSorted` | src/insertion.js:89-98 | With a total comparator, every adjacent output pair (x, y) has `cmp(x, y) <= 0`. |
| `Insertion.NotBothEquivalent` | src/insertion.js:92 | Under transitivity, two elements where one shifts past the other cannot both compare equal to the same key. |
| `Insertion.InsertStable` | src/insertion.js:92 | One insertion keeps, for every key, the order of the elements equal to it. |
| `Insertion.InsertionSortStable` | src/insertion.js:10 | Stability: for a transitive comparator and every key, the elements equal to it come out in their input order. |
| `Insertion.InsertionSortOfInOrder` | src/insertion.js:92 | An input with no adjacent pair the test would shift comes back element for element, because the shift loop never runs. |
| `Insertion.InsertionSortOfSorted` | src/insertion.js:92 | A sorted input comes back equal to itself. |
| `Insertion.ShortInputIgnoresComparator` | src/insertion.js:81-89 | Inputs of length 0 or 1 come back as they are, whatever the comparator. |
| `Shell.Gaps` | src/shell.js:88-98 | Every gap the outer loop runs with is positive. |
| `Shell.GapsHalveDownToOne` | src/shell.js:88-98 | The gaps start at floor(n/2) and each is the previous one halved. The sequence is empty exactly when floor(n/2) is 0; otherwise it ends with 1. |
| `Shell.GapInsert` | src/shell.js:92-96 | Reference definition of the innermost loop plus the write of `swap`. It keeps the length. |
| `Shell.GapPass` | src/shell.js:91-97 | Reference definition of the `for i` loop for one gap. It keeps the length. |
| `Shell.Passes` | src/shell.js:90-99 | Reference definition of the passes for a list of positive gaps, in order. It keeps the length. |
| `Shell.ShellSortBy` | src/shell.js:86-99 | What the source computes on its copy: the passes for `Gaps(floor(n/2))`. It keeps the length. |
| `Shell.GapInsertPermutes` | src/shell.js:92-96 | A gapped shift replaces the hole's value with the held `swap` and loses nothing else. |
| `Shell.GapPassPermutes` | src/shell.js:91-97 | One pass is a permutation. |
| `Shell.PassesPermute` | src/shell.js:90-99 | Any sequence of passes is a permutation. |
| `Shell.ShellSortPermutes` | src/shell.js:85-101 | The output is a permutation of the input for every comparator and either shift test. |
| `Shell.GapInsertOneIsInsert` | src/shell.js:93-96 | With gap 1, the gapped shift is the insertion of the held value into the prefix before it. |
| `Shell.GapPassOneInOrder` | src/shell.js:91-97 | A gap-1 pass started from an in-order prefix leaves the whole array in order, when the shift test is asymmetric. |
| `Shell.PassesEndingWithOneInOrder` | src/shell.js:90-99 | When the last gap is 1, the result is in order, whatever the earlier passes did. |
| `Shell.ShellSortInOrder` | src/shell.js:88-99 | With an asymmetric shift test, no adjacent output pair would be shifted. |
| `Shell.ShellShortInput` | src/shell.js:88-90 | For n <= 1 the first gap is 0, no pass runs, and the copy equals the input. |
| `Shell.ShellSortSortedWithPositiveTest` | src/shell.js:93 | With a `> 0` shift test and a total comparator, the output is sorted. |
| `Shell.ShellSortSortedWhenNonNegative` | src/shell.js:93 | The truthy test as written sorts when the comparator is total and never negative. |
| `Shell.ShellReversesOrderedPair` | src/shell.js:93 | As written, `[a, b]` with `cmp(a, b) < 0` comes out `[b, a]`. That pair is out of order whenever `cmp(b, a) > 0`. |
| `Shell.ShellMisordersDocumentedComparator` | src/shell.js:45-62 | With the documented -1/0/1 comparator, `[1, 2]` becomes `[2, 1]`, which is not sorted. With `> 0` it stays `[1, 2]`. |
| `Shell.GapInsertAt` | src/shell.js:92-96 | The innermost loop and the write after it leave the copy equal to `GapInsert` of its old contents. |
| `Shell.GapPassInPlace` | src/shell.js:91-97 | The loop over `i` leaves the copy equal to `GapPass` of its old contents. |
| `Shell.ShellSortInPlace` | src/shell.js:88-99 | The `while (gap > 0)` loop terminates and leaves the copy equal to `ShellSortBy` of its old contents. |
| `Shell.ShellWith` | src/shell.js:74-101 | The argument checks in order and the empty short-circuit. Otherwise a new array sorted by `ShellSortBy` with the given test, with the input unchanged. |
| `Shell.Shell` | src/shell.js:74-101 | The library entry point as written, with the truthy shift test. |
| `Shell.ShellCorrected` | src/shell.js:93 | The entry point with the `> 0` shift test that the documentation's examples expect. |
| `Selection.Selection` | src/selection.js:84-100 | A non-callable comparator is an error even for an empty array. Otherwise a non-array is an error. Otherwise the result is a new array equal to the input element for element, which is left unchanged. The comparator never affects the result. |
| `Bubble.FirstNonzero` | src/bubble.js:19-20 | Gives the first adjacent pair from the left whose comparison is nonzero, with all earlier pairs comparing 0. Gives none exactly when every adjacent pair compares 0. |
| `Bubble.DocumentedInputThrows` | src/bubble.js:20 | For the unit tests' ages under their ascending comparator, the very first comparison is nonzero. |
| `Bubble.FnSwap` | src/bubble.js:28-33 | Every call ends in the reference error for the unbound name `array`. |
| `Bubble.Bubble` | src/bubble.js:3-25 | An omitted or non-callable comparator is an error (there is no default). Otherwise a non-array is an error, and an empty array gives a new empty array. Otherwise, if some adjacent comparison is nonzero, the call throws; if none is, the call returns the caller's own array reference. No element is ever moved: the method has no `modifies` clause. |

## Left out

- `defaultCompare` (src/defaultCompare.js) is not part of this model. Each sort that has a default takes it as a parameter. Whether `shell` sorts with it depends on whether it returns a boolean or -1/0/1, and the files modelled here do not say.
- `lodash.isfunction` and `Array.isArray` are not modelled. The argument sum types stand for their answers.
- JavaScript truthiness of non-integer comparator results (`NaN`, booleans, objects) is not modelled. Results are `int`, and "truthy" means `!= 0`.
- Comparators that throw or have side effects are not modelled. The comparator is a pure total function. "The comparator is never called" is stated as "the result does not depend on the comparator". Calls are not counted.
- `Insertion.Insertion`, `Shell.ShellWith`: the nested loops are split into helper methods (`InsertAt`/`SortInPlace`, `GapInsertAt`/`GapPassInPlace`/`ShellSortInPlace`). This keeps each proof small. The statements and their order are the source's.
- Complexity, comparison counts and swap counts in the documentation tables are not modelled.
- The selection sort algorithm that src/selection.js:5-7 describes in prose (moving elements from an unordered list into an ordered one) is not in the code, so it is not modelled.
- Bubble sort's swaps and its `swapped` bookkeeping across passes are not modelled. src/bubble.js has no bound narrowing or early exit. `fnSwap` never completes, so only one failing pass is observable.
- Stability of `shell` and `selection` is not modelled. Both are documented as unstable.

## Findings

| source | as written | input that shows it | evidently intended | confidence | as-written member | corrected member |
|---|---|---|---|---|---|---|
| src/shell.js:93 | the shift loop runs while `fnCompare(clonedArray[j - gap], swap)` is truthy, i.e. nonzero | `shell([1, 2], (a, b) => a < b ? -1 : a > b ? 1 : 0)` returns `[2, 1]` | shift only while the comparator returns `> 0`, as src/insertion.js:92 does and as the example at src/shell.js:45-62 expects | high, not executed | `Shell.ShellReversesOrderedPair` | `Shell.ShellSortSortedWithPositiveTest` |
