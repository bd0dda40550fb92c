# Longest window with a bounded sum

This project models `solution.cpp`. Given a sequence of signed integers
`items` and a bound `maxSum`, the program finds the longest contiguous window
whose sum is at most `maxSum` and reports it as a `subsequence`: start index,
length and sum. A length of 0 means that no window qualifies. Two solvers
compute the answer:

- `bruteForce`, the quadratic reference. For each start in increasing order
  it extends a window one item at a time. It replaces its best window only
  when the new one fits and is strictly longer, so ties go to the smallest
  start. It stops once the items left cannot beat the best length.
- `solveWithBinaryTree`, the accelerated solver. It builds the running sums
  `summations[j] = items[0] + ... + items[j]`. Over them it builds a tree
  bottom-up:
  - leaves cover one pair of indices, or a single last index;
  - each parent pairs two neighbouring nodes and records their min/max;
  - an odd last node is promoted unchanged, until one root is left.

  For each start `i`, the solver keeps a sliding threshold:
  `target = maxSum + items[0] + ... + items[i-1]`. It then asks the root for
  the rightmost `j >= i` with `summations[j] <= target`, which ends the
  longest fitting window from `i`. The search prunes nodes that end before
  `i` and nodes whose minimum exceeds the threshold, and it tries the right
  child first.

The modules follow the source:

| module | file | models |
|---|---|---|
| `Windows` | windows.dfy | the question itself: `Sum`, `Fits`, the answer `IsLongest`, the answer over the windows visited so far `BestSoFar`, and the reference answer `BestUpTo`, with their lemmas |
| `PrefixSums` | prefix_sums.dfy | `buildRunningSumArray` |
| `SegmentTree` | segment_tree.dfy | `struct node` as the `Tree` datatype, both constructors, `buildLeafRow`, `buildParentRow` |
| `TreeSearch` | tree_search.dfy | `node::search` against the reference `Rightmost` |
| `BruteForce` | brute_force.dfy | `bruteForce` |
| `Solver` | solver.dfy | `solveWithBinaryTree` (the build loop, the driver loop and one driver pass), and the agreement of the two solvers |
| `Scenarios` | scenarios.dfy | worked inputs |

The brute force is proved against the declarative answer `IsLongest`. The
tree solver is proved equal to the recursive reference `BestUpTo`: for each
start in turn, the longest fitting window from it replaces the answer only
when strictly longer. `Windows.BestUpToIsLongest` shows that `BestUpTo` is
the answer, and `Windows.LongestIsUnique` shows that there is only one
answer. From these, `Solver.SolversAgree` proves that both solvers return
the same start, length and sum on every input.

`node::search` has a quirk. Its leaf scan does not look at `leftEdge`.
Suppose `leftEdge` is the second index of a pair leaf and only the first
index of that leaf qualifies. Then the search returns true with
`leftEdge - 1`. `TreeSearch.Search` characterises this exactly (`LeafQuirk`).
The driver then computes the unsigned length `resultIndex - i + 1`, which
wraps to 0 (`Solver.SearchLength`), and a length of 0 never replaces the
best result (`Solver.DriverUpdate`). So the quirk never changes the answer.

For `[3, 1, -1, 2]` with `maxSum = 3` one might expect start 1 (window
`[1, -1, 2]`). The code keeps start 0: `[3, 1, -1]` also has three items and
sums to 3, and the earlier start wins (`Scenarios.EarliestStartWins`). The
model follows the code.

"Length 0 exactly when every item exceeds `maxSum`" holds in one direction
only in general. A length of 0 does imply that every item exceeds `maxSum`
(`Windows.EmptyOnlyIfEveryItemExceeds`). The converse needs `maxSum >= -1`
(`Windows.EveryItemExceedsMeansEmpty`). `Windows.NegativeThresholdPairFits`
shows why: each of `[-1, -1]` exceeds -2, yet together they sum to -2.

## Model

| member | source | states |
|---|---|---|
| PrefixSums.BuildRunningSumArray | solution.cpp:169-181 | the array it fills is the running sums of `items`, same length |
| PrefixSums.RunningSumAt | solution.cpp:169-181 | entry k of the running sums is items[0] + ... + items[k] |
| PrefixSums.RunningSumFromEntries | solution.cpp:169-181 | conversely, entries that are each the sum up to their index are the running sums |
| PrefixSums.ShiftedThreshold | solution.cpp:269-297 | with dropSum the sum of the items before i, summations[j] - dropSum is the sum of items[i..j], and summations[j] <= maxSum + dropSum exactly when that window fits |
| SegmentTree.RangeExtrema | solution.cpp:71-79 | the min/max a node records bound every running sum in its range and are attained |
| SegmentTree.RangeSplit | solution.cpp:100-113 | the min/max of two adjacent ranges combine into those of their union |
| SegmentTree.ParentValid | solution.cpp:100-113 | the parent constructor spans left.first..right.last, and its ternary min/max are the extrema of that whole range |
| SegmentTree.LeafRowCovers | solution.cpp:88-98 | the leaf row has ceil(N/2) leaves; leaf k covers 2k and, when it exists, 2k+1; the leaves are valid and cover 0..N-1 in order without gaps or overlaps |
| SegmentTree.BuildLeafRow | solution.cpp:183-213 | the row built is the N/2 pair leaves with min and max ordered by the swap, then a singleton leaf for an odd last index, and it covers the running sums |
| SegmentTree.ParentRowCovers | solution.cpp:215-240 | pairing a row of at least two nodes gives ceil(n/2) nodes, strictly fewer, still valid and covering the same span |
| SegmentTree.BuildParentRow | solution.cpp:215-240 | returns false exactly when the child row has at most one node; otherwise the parent row pairs neighbours and promotes an odd last node unchanged |
| SegmentTree.EmptySumsGiveEmptyRow | solution.cpp:251-264 | with no running sums the leaf row is empty, and so is every row that covers them: there is no root at index 0 |
| TreeSearch.RightmostIsLargest | solution.cpp:115-118 | the reference scan finds nothing exactly when no index in the range qualifies, and otherwise the largest qualifying index |
| TreeSearch.RightmostSplit | solution.cpp:147-159 | searching a range is searching its upper part, then its lower part only if the upper part has nothing |
| TreeSearch.RightmostBelowMin | solution.cpp:126-129 | nothing qualifies in a range whose minimum exceeds maxSum, so the pruning is sound |
| TreeSearch.PairLeafInRange | solution.cpp:132-145 | a pair leaf inside a node lies within that node's range |
| TreeSearch.Search | solution.cpp:115-165 | true exactly when some index >= leftEdge in the node's range qualifies, or in the leaf quirk; returns the rightmost qualifying index, otherwise leftEdge - 1 in the quirk; on false resultIndex is unchanged |
| BruteForce.BruteForce | solution.cpp:35-68 | the result is the longest window with sum <= maxSum, the earliest among equally long ones, with its sum, or the zero result when none fits; true exactly when the length is positive |
| Windows.VisitWindow | solution.cpp:52-61 | extending the window by one item and keeping it only when it fits and is strictly longer keeps the best-so-far invariant |
| Windows.NextStart | solution.cpp:41-62 | once every window from start i has been visited, start i is done |
| Windows.StopEarly | solution.cpp:43-47 | once the best so far is at least as long as the items left, it is the answer, so the early break does not change the result |
| Windows.AllVisited | solution.cpp:41-65 | once every start is done, the best so far is the answer |
| Windows.VisitLongestAt | solution.cpp:282-293 | visiting only the longest fitting window from start i and keeping it when strictly longer finishes start i |
| Windows.LongestWithinIsLongest | solution.cpp:282-290 | the reference LongestWithin is the length of the longest fitting window from i, and 0 exactly when none fits |
| Windows.BestUpToSoFar | solution.cpp:273-297 | the reference BestUpTo(i) is the answer over all windows starting before i |
| Windows.BestUpToSettles | solution.cpp:276-280 | once no remaining start can be longer than BestUpTo(i), later starts leave it unchanged |
| Windows.BestUpToIsLongest | solution.cpp:242-304 | after every start, BestUpTo is the answer: longest, earliest among the longest, with its sum |
| Windows.LongestIsUnique | solution.cpp:58 | replacing only on a strictly longer window makes the answer unique: two answers for the same input are equal |
| Windows.SingleItem | solution.cpp:52-58 | a one-item window fits exactly when that item is at most maxSum |
| Windows.EmptyOnlyIfEveryItemExceeds | solution.cpp:67 | a length-0 answer means every item on its own exceeds maxSum |
| Windows.EveryItemExceedsMeansEmpty | solution.cpp:303 | for maxSum >= -1, items that each exceed maxSum leave the zero result |
| Windows.NegativeThresholdPairFits | solution.cpp:303 | below -1 the converse fails: each of [-1, -1] exceeds -2, yet the pair is the answer for -2 |
| Windows.WholeSequenceFits | solution.cpp:35-68 | when the whole sequence fits, it is the answer |
| Windows.LongestGrowsWithThreshold | solution.cpp:35-68 | raising maxSum never shortens the answer |
| Solver.LongestFromStart | solution.cpp:282-290 | with the shifted threshold, the rightmost qualifying running sum at or after i ends the longest fitting window from i, and there is none exactly when no window from i fits |
| Solver.SearchLength | solution.cpp:283-288 | the unsigned length resultIndex - i + 1 equals the longest reach from i; in the leaf quirk it wraps to 0, which is then the reach too |
| Solver.ReachIsLongest | solution.cpp:282-291 | the reach the tree finds equals the reference LongestWithin, and summations[end] - dropSum is that window's sum |
| Solver.DriverUpdate | solution.cpp:282-293 | the search outcome, the unsigned length and the strictly-longer replacement move the best result from BestUpTo(i) to BestUpTo(i + 1); the quirk never replaces it |
| Solver.DropOne | solution.cpp:295-296 | adding items[i] to dropSum keeps it the sum of the items before the next start |
| Solver.BuildTree | solution.cpp:251-264 | the build loop ends with no row for N = 0, and otherwise with exactly one valid root covering 0..N-1 |
| Solver.VisitStart | solution.cpp:282-293 | one pass of the driver for start i moves the best result from BestUpTo(i) to BestUpTo(i + 1) |
| Solver.SolveWithBinaryTree | solution.cpp:242-304 | the result is the reference answer BestUpTo over every start, and true exactly when its length is positive |
| Solver.SolversAgree | solution.cpp:35-68 | on every input the tree solver and the brute force return the same start, length and sum |
| Scenarios.AlternatingSigns | solution.cpp:35-68 | for [1, -2, 3, -4, 5] and maxSum 0 the answer is start 0, length 4, sum -2 |
| Scenarios.EveryItemTooLarge | solution.cpp:35-68 | for [5, 5, 5] and maxSum 4 the answer is the zero result |
| Scenarios.WholeRunOfNegatives | solution.cpp:35-68 | for [-1, -1, -1, -1] and maxSum 100 the answer is the whole sequence, sum -4 |
| Scenarios.EarliestStartWins | solution.cpp:58 | for [3, 1, -1, 2] and maxSum 3 the answer is start 0, length 3, sum 3, not start 1 |

## Left out

- `main` (solution.cpp:337-365) and `runTestCase` (solution.cpp:307-332) are left out. They read input, print output and use the C library's `srand`/`rand`.
- `g_debugOn`, `g_assertOn`, `AssertImpl` and `ASSERT` (solution.cpp:12-22) are left out because they only print. The assertion at line 262 becomes `Solver.BuildTree`'s postcondition. The assertion at line 163 is unreachable, because every `Inner` node has two children.
- `shared_ptr` ownership and reference counting are left out. Nodes are an immutable datatype, so the null-child checks at lines 149 and 157 always pass.
- Fixed-width integers are mathematical integers. Overflow of `int` and `int64_t` sums is not modelled. Neither are the `int`-versus-`size_t` loop counters in `bruteForce`. The one exception is `size_t` wrap-around at line 287, modelled modulo 2^64.
- SolveWithBinaryTree and SolversAgree require fewer than 2^64 items, the most a vector's `size_t` size can describe.
- The output vectors of `buildRunningSumArray`, `buildLeafRow` and `buildParentRow` are modelled as fresh results. Every caller passes them empty or cleared, so appending to them and returning a fresh row are the same.
- Search is a recursive method, because the leaf scan is a loop. It threads `resultIndex` in and out, so "unchanged on false" is part of its contract.
- The driver pass for one start (solution.cpp:282-293) is its own method, `Solver.VisitStart`. `Solver.SolveWithBinaryTree` calls it from its loop.
- SolveWithBinaryTree: its postcondition ties the result to `Windows.BestUpTo` rather than stating the longest-window property directly. That property comes from `Windows.BestUpToIsLongest`.
- The memoized shrink-recursion variant of the solver does not exist in this source file, so it is not modelled.

## Findings

| source | as written | input that shows it | evidently intended | confidence | as-written member | corrected member |
|---|---|---|---|---|---|---|
| solution.cpp:251-264 | with no items the leaf row is empty and no parent row is built, yet `previousRow[0]` is read at line 264 | items = [] | return false with the zero result, as `bruteForce` does | not executed | SegmentTree.EmptySumsGiveEmptyRow | Solver.SolveWithBinaryTree |
