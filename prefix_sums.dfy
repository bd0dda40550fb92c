/** The running-sum array the tree is built over. */
module PrefixSums {
  import opened Windows

  /** `summations` holds the running sums of `items`: its last entry is the
      sum of all of `items`, and the entries before it are the running sums
      of the items before the last. */
  ghost predicate IsRunningSum(items: seq<int>, summations: seq<int>)
    decreases |items|
  {
    |summations| == |items|
    && (|items| > 0 ==>
          IsRunningSum(items[..|items| - 1], summations[..|items| - 1])
          && summations[|items| - 1] == Sum(items))
  }

  /** Entry k of the running sums is the sum of items[0..k], inclusive. */
  lemma {:induction false} RunningSumAt(items: seq<int>, summations: seq<int>, k: nat)
    requires IsRunningSum(items, summations)
    requires k < |items|
    ensures summations[k] == Sum(items[..k + 1])
    decreases |items|
  {
    var n := |items|;
    if k < n - 1 {
      RunningSumAt(items[..n - 1], summations[..n - 1], k);
      assert items[..n - 1][..k + 1] == items[..k + 1];
    } else {
      assert items[..k + 1] == items;
    }
  }

  /** Conversely, entries that are each the running sum up to their index
      make up the running sums. */
  lemma {:induction false} RunningSumFromEntries(items: seq<int>, summations: seq<int>)
    requires |summations| == |items|
    requires forall k :: 0 <= k < |items| ==> summations[k] == Sum(items[..k + 1])
    ensures IsRunningSum(items, summations)
    decreases |items|
  {
    var n := |items|;
    if n > 0 {
      var shorter, shorterSums := items[..n - 1], summations[..n - 1];
      forall k | 0 <= k < n - 1
        ensures shorterSums[k] == Sum(shorter[..k + 1])
      {
        assert shorter[..k + 1] == items[..k + 1];
      }
      RunningSumFromEntries(shorter, shorterSums);
      assert items[..n] == items;
    }
  }

  /** Sizes the array to `items` and fills it with one accumulator. */
  method BuildRunningSumArray(items: seq<int>) returns (summations: seq<int>)
    ensures IsRunningSum(items, summations)
  {
    summations := seq(|items|, _ => 0);
    var sum := 0;
    for i := 0 to |items|
      invariant |summations| == |items|
      invariant sum == Sum(items[..i])
      invariant forall k :: 0 <= k < i ==> summations[k] == Sum(items[..k + 1])
    {
      assert items[..i + 1][..i] == items[..i];
      sum := sum + items[i];
      summations := summations[i := sum];
    }
    RunningSumFromEntries(items, summations);
  }

  /** The identity the driver's sliding threshold rests on: with
      `dropSum` the sum of items[0..i-1], entry j of the running sums is at
      most `maxSum + dropSum` exactly when the window items[i..j] fits, and
      that window's sum is summations[j] - dropSum. */
  lemma {:induction false} ShiftedThreshold(items: seq<int>, summations: seq<int>, maxSum: int, i: nat, j: nat)
    requires IsRunningSum(items, summations)
    requires i <= j < |items|
    ensures Sum(items[i..j + 1]) == summations[j] - Sum(items[..i])
    ensures summations[j] <= maxSum + Sum(items[..i]) <==> Fits(items, maxSum, i, j - i + 1)
  {
    RunningSumAt(items, summations, j);
    WindowIsPrefixDifference(items, i, j + 1);
  }
}
