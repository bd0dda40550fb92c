/** The accelerated solver: running sums, the tree over them, and the
    sliding-threshold driver that asks the tree, for every start, for the
    furthest end whose window fits. */
module Solver {
  import opened Windows
  import opened PrefixSums
  import opened SegmentTree
  import opened TreeSearch
  import BruteForce

  /** size_t arithmetic is taken modulo 2^64. */
  const SizeModulus: int := 0x1_0000_0000_0000_0000

  /** What one search from start i finds, in terms of windows: with the
      threshold shifted by the sum of items[0..i-1], the rightmost running
      sum at or after i that is at most the threshold ends the longest
      window from i that fits, and there is none exactly when no window
      from i fits. */
  lemma {:induction false} LongestFromStart(items: seq<int>, summations: seq<int>, maxSum: int, i: nat)
    requires IsRunningSum(items, summations)
    requires i < |items|
    ensures var best := Rightmost(summations, maxSum + Sum(items[..i]), i, |items| - 1);
            && (best.None? ==> forall len :: !Fits(items, maxSum, i, len))
            && (best.Some? ==>
                  && i <= best.value < |items|
                  && Fits(items, maxSum, i, best.value - i + 1)
                  && Sum(items[i..best.value + 1]) == summations[best.value] - Sum(items[..i])
                  && forall len :: Fits(items, maxSum, i, len) ==> len <= best.value - i + 1)
  {
    var target := maxSum + Sum(items[..i]);
    var best := Rightmost(summations, target, i, |items| - 1);
    RightmostIsLargest(summations, target, i, |items| - 1);
    forall len | Fits(items, maxSum, i, len)
      ensures best.Some? && len <= best.value - i + 1
    {
      ShiftedThreshold(items, summations, maxSum, i, i + len - 1);
    }
    if best.Some? {
      ShiftedThreshold(items, summations, maxSum, i, best.value);
    }
  }

  /** The length of the window from i that ends at the rightmost running
      sum at or after i that is at most `target`; 0 when there is none. */
  function ReachFrom(summations: seq<int>, target: int, i: nat): int
    requires i < |summations|
  {
    var rightmost := Rightmost(summations, target, i, |summations| - 1);
    if rightmost.Some? then rightmost.value - i + 1 else 0
  }

  /** What the driver makes of one search from start i: the unsigned
      length index - i + 1 is ReachFrom when the search finds the
      rightmost qualifying running sum, and it wraps to 0, which is then
      ReachFrom too, when the leaf quirk reports i - 1. A search that finds
      nothing leaves ReachFrom at 0. */
  lemma SearchLength(summations: seq<int>, target: int, i: nat, root: Tree, found: bool, index: int)
    requires i < |summations| < SizeModulus
    requires root.first == 0 && root.last == |summations| - 1
    requires var rightmost := Rightmost(summations, target, Max(i, root.first), root.last);
             && (found <== rightmost.Some?)
             && (found ==> index == if rightmost.Some? then rightmost.value else i - 1)
    ensures found ==> (index - i + 1) % SizeModulus == ReachFrom(summations, target, i)
    ensures found && ReachFrom(summations, target, i) > 0 ==> index == i + ReachFrom(summations, target, i) - 1
    ensures !found ==> ReachFrom(summations, target, i) == 0
  {
    var rightmost := Rightmost(summations, target, i, |summations| - 1);
    RightmostIsLargest(summations, target, i, |summations| - 1);
    if found && rightmost.Some? {
      assert 0 <= index - i + 1 < SizeModulus;
    }
  }

  /** With the threshold shifted by the items before i, ReachFrom is the
      longest fitting window from i as the reference definition counts it,
      and the running sum it ends at, less the items before i, is that
      window's sum. */
  lemma {:induction false} ReachIsLongest(items: seq<int>, summations: seq<int>, maxSum: int, i: nat)
    requires IsRunningSum(items, summations)
    requires i < |items|
    ensures var reach := ReachFrom(summations, maxSum + Sum(items[..i]), i);
            && reach == LongestWithin(items, maxSum, i, |items| - i)
            && (reach > 0 ==> summations[i + reach - 1] - Sum(items[..i]) == Sum(items[i..i + reach]))
  {
    var reach := ReachFrom(summations, maxSum + Sum(items[..i]), i);
    var longest := LongestWithin(items, maxSum, i, |items| - i);
    LongestFromStart(items, summations, maxSum, i);
    LongestWithinIsLongest(items, maxSum, i, |items| - i);
    if reach > 0 {
      assert reach <= longest;
    }
    if longest > 0 {
      assert longest <= reach;
    }
  }

  /** One iteration of the driver, phrased as the code updates its best
      result: given the search outcome for start i, its unsigned length and
      the replacement on a strictly longer length, the best result moves
      from BestUpTo(i) to BestUpTo(i + 1). It takes from ReachIsLongest
      what the running sums say about start i. */
  lemma DriverUpdate(items: seq<int>, summations: seq<int>, maxSum: int, i: nat, root: Tree,
                     found: bool, index: int, best: Subsequence)
    requires |summations| == |items|
    requires i < |items| < SizeModulus
    requires var reach := ReachFrom(summations, maxSum + Sum(items[..i]), i);
             && reach == LongestWithin(items, maxSum, i, |items| - i)
             && (reach > 0 ==> summations[i + reach - 1] - Sum(items[..i]) == Sum(items[i..i + reach]))
    requires root.first == 0 && root.last == |items| - 1
    requires var rightmost := Rightmost(summations, maxSum + Sum(items[..i]), Max(i, root.first), root.last);
             && (found <==> rightmost.Some? || LeafQuirk(root, summations, maxSum + Sum(items[..i]), i))
             && (found ==> index == if rightmost.Some? then rightmost.value else i - 1)
    requires best == BestUpTo(items, maxSum, i)
    ensures var length := (index - i + 1) % SizeModulus;
            && (found && length > best.length ==> i <= index < |items|)
            && BestUpTo(items, maxSum, i + 1)
               == if found && length > best.length
                  then Subsequence(i, length, summations[index] - Sum(items[..i]))
                  else best
  {
    var target := maxSum + Sum(items[..i]);
    var reach := ReachFrom(summations, target, i);
    SearchLength(summations, target, i, root, found, index);
    BestUpToNext(items, maxSum, i, reach);
    var length := (index - i + 1) % SizeModulus;
    if found && length > best.length {
      assert length == reach && index == i + reach - 1;
    } else {
      assert reach <= best.length;
    }
  }

  /** The running drop sum gains the item it passes. */
  lemma DropOne(items: seq<int>, i: nat)
    requires i < |items|
    ensures Sum(items[..i + 1]) == Sum(items[..i]) + items[i]
  {
    assert items[..i + 1][..i] == items[..i];
  }

  /** The build loop of solveWithBinaryTree: starting from the leaf row,
      replace the row by its parent row while there is one to build. It
      stops with the single root, which covers every index, or, for no
      running sums, with an empty row. */
  method BuildTree(summations: seq<int>) returns (previousRow: seq<Tree>)
    ensures |previousRow| == if |summations| == 0 then 0 else 1
    ensures |previousRow| == 1 ==>
              Valid(previousRow[0], summations) && previousRow[0].first == 0 && previousRow[0].last == |summations| - 1
  {
    previousRow := BuildLeafRow(summations);
    var built, currentRow := BuildParentRow(previousRow);
    while built
      invariant Covers(previousRow, summations)
      invariant built <==> 1 < |previousRow|
      invariant built ==> currentRow == ParentRow(previousRow)
      decreases |previousRow|
    {
      ParentRowCovers(previousRow, summations);
      previousRow := currentRow;
      built, currentRow := BuildParentRow(previousRow);
    }
  }

  /** One pass of the driver loop for start i: ask the root for the
      rightmost running sum at or after i that is at most `target`, take
      the unsigned length index - i + 1, and replace the best result when
      that length is strictly longer. With `target` and `dropSum` shifted by
      the items before i, it moves the best result from BestUpTo(i) to
      BestUpTo(i + 1). */
  method VisitStart(ghost items: seq<int>, ghost maxSum: int, root: Tree, summations: seq<int>,
                    target: int, dropSum: int, i: nat, bestStart: nat, bestLength: nat, bestSum: int)
    returns (newStart: nat, newLength: nat, newSum: int)
    requires IsRunningSum(items, summations)
    requires i < |items| < SizeModulus
    requires Valid(root, summations) && root.first == 0 && root.last == |items| - 1
    requires dropSum == Sum(items[..i]) && target == maxSum + dropSum
    requires Subsequence(bestStart, bestLength, bestSum) == BestUpTo(items, maxSum, i)
    ensures Subsequence(newStart, newLength, newSum) == BestUpTo(items, maxSum, i + 1)
  {
    newStart, newLength, newSum := bestStart, bestLength, bestSum;
    var resultIndex := 0;
    var resultFound;
    resultFound, resultIndex := Search(root, summations, target, i, resultIndex);

    ReachIsLongest(items, summations, maxSum, i);
    DriverUpdate(items, summations, maxSum, i, root, resultFound, resultIndex,
                 Subsequence(bestStart, bestLength, bestSum));
    if resultFound {
      // unsigned: when the leaf quirk reports i - 1 this wraps to 0
      var length := (resultIndex - i + 1) % SizeModulus;
      if length > bestLength {
        newStart := i;
        newLength := length;
        newSum := summations[resultIndex] - dropSum;
      }
    }
  }

  /** solveWithBinaryTree. Builds the running sums, the leaf row and the
      rows above it until one node is left, then visits each start i in
      turn with the threshold maxSum plus the sum of the items before i,
      and stops once no later start can be longer. The result is the
      reference answer BestUpTo over every start, which
      Windows.BestUpToIsLongest shows to be the longest fitting window, the
      earliest among equally long ones, with its sum; "found" exactly when
      its length is positive. */
  method SolveWithBinaryTree(items: seq<int>, maxSum: int) returns (result: Subsequence, found: bool)
    requires |items| < SizeModulus
    ensures result == BestUpTo(items, maxSum, |items|)
    ensures found <==> result.length > 0
  {
    var summations := BuildRunningSumArray(items);
    var previousRow := BuildTree(summations);

    if |previousRow| == 0 {
      // no items, so no root: the answer is the empty result
      return NoWindow, false;
    }
    var root := previousRow[0];

    var target := maxSum;
    var bestStart: nat, bestLength: nat, bestSum := 0, 0, 0;
    var dropSum := 0;
    var i := 0;
    while i < |summations|
      invariant 0 <= i <= |summations|
      invariant dropSum == Sum(items[..i])
      invariant target == maxSum + dropSum
      invariant Subsequence(bestStart, bestLength, bestSum) == BestUpTo(items, maxSum, i)
    {
      var bestPossibleLength := |summations| - i;
      if bestLength >= bestPossibleLength {
        BestUpToSettles(items, maxSum, i, |items|);
        assert Subsequence(bestStart, bestLength, bestSum) == BestUpTo(items, maxSum, |items|);
        break;
      }

      bestStart, bestLength, bestSum :=
        VisitStart(items, maxSum, root, summations, target, dropSum, i, bestStart, bestLength, bestSum);

      DropOne(items, i);
      target := target + items[i];
      dropSum := dropSum + items[i];
      i := i + 1;
    }

    result := Subsequence(bestStart, bestLength, bestSum);
    found := result.length > 0;
  }

  /** The two solvers agree: on every input the tree solver returns the
      same start, length and sum as the brute force, and both report
      "found" alike. */
  method SolversAgree(items: seq<int>, maxSum: int) returns (fromTree: Subsequence, fromOracle: Subsequence)
    requires |items| < SizeModulus
    ensures fromTree == fromOracle
  {
    var treeFound, oracleFound;
    fromTree, treeFound := SolveWithBinaryTree(items, maxSum);
    fromOracle, oracleFound := BruteForce.BruteForce(items, maxSum);
    BestUpToIsLongest(items, maxSum);
    LongestIsUnique(items, maxSum, fromTree, fromOracle);
  }
}
