/** The quadratic reference solver. */
module BruteForce {
  import opened Windows

  /** bruteForce: for each start in increasing order, extend the window one
      item at a time and keep it when its sum is at most maxSum and it is
      strictly longer than the best so far; stop once the items left cannot
      beat the best length. The result is the longest fitting window, the
      earliest among equally long ones, and the answer is "found" exactly
      when its length is positive. */
  method BruteForce(items: seq<int>, maxSum: int) returns (result: Subsequence, found: bool)
    ensures IsLongest(items, maxSum, result)
    ensures found <==> result.length > 0
  {
    var best := NoWindow;
    var n := |items|;
    var i := 0;
    while i < n
      invariant 0 <= i <= n
      invariant BestSoFar(items, maxSum, i, 0, best)
    {
      if n - i <= best.length {
        StopEarly(items, maxSum, i, best);
        break;
      }
      var current := Subsequence(i, 0, 0);
      var j := i;
      ghost var k := 0;
      while j < n
        invariant i <= j <= n && k == j - i
        invariant current == Subsequence(i, k, Sum(items[i..j]))
        invariant BestSoFar(items, maxSum, i, k, best)
      {
        SumExtend(items, i, j);
        current := current.(sum := current.sum + items[j], length := current.length + 1);
        VisitWindow(items, maxSum, i, k, best, current);
        if current.sum <= maxSum && current.length > best.length {
          best := current;
        }
        j := j + 1;
        k := k + 1;
      }
      NextStart(items, maxSum, i, k, best);
      i := i + 1;
    }
    if i == n {
      AllVisited(items, maxSum, best);
    }
    result := best;
    found := result.length > 0;
  }
}
