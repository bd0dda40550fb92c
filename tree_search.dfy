/** The pruned rightmost search over the tree of running sums. */
module TreeSearch {
  import opened SegmentTree

  datatype Option<T> = None | Some(value: T)

  /** Reference definition: the largest j with lo <= j <= hi and
      s[j] <= maxSum, looked for by a plain scan from hi down. */
  function Rightmost(s: seq<int>, maxSum: int, lo: int, hi: int): Option<nat>
    requires 0 <= lo && hi < |s|
    decreases hi - lo + 1
  {
    if hi < lo then None
    else if s[hi] <= maxSum then Some(hi)
    else Rightmost(s, maxSum, lo, hi - 1)
  }

  /** Rightmost finds an index exactly when some index of the range
      qualifies, and the one it finds is the largest that does. */
  lemma {:induction false} RightmostIsLargest(s: seq<int>, maxSum: int, lo: int, hi: int)
    requires 0 <= lo && hi < |s|
    ensures Rightmost(s, maxSum, lo, hi).None? <==> forall k :: lo <= k <= hi ==> maxSum < s[k]
    ensures Rightmost(s, maxSum, lo, hi).Some? ==>
              var j := Rightmost(s, maxSum, lo, hi).value;
              lo <= j <= hi && s[j] <= maxSum && forall k :: j < k <= hi ==> maxSum < s[k]
    decreases hi - lo + 1
  {
    if lo <= hi && maxSum < s[hi] {
      RightmostIsLargest(s, maxSum, lo, hi - 1);
    }
  }

  /** Searching a range is searching its upper part, and its lower part
      only when the upper part has nothing. */
  lemma {:induction false} RightmostSplit(s: seq<int>, maxSum: int, lo: int, mid: int, hi: int)
    requires 0 <= lo <= mid + 1 && mid <= hi < |s|
    ensures Rightmost(s, maxSum, lo, hi)
            == if Rightmost(s, maxSum, mid + 1, hi).Some? then Rightmost(s, maxSum, mid + 1, hi)
               else Rightmost(s, maxSum, lo, mid)
    decreases hi - mid
  {
    if mid < hi && maxSum < s[hi] {
      RightmostSplit(s, maxSum, lo, mid, hi - 1);
    }
  }

  /** Nothing in a range whose minimum exceeds maxSum qualifies. */
  lemma {:induction false} RightmostBelowMin(s: seq<int>, maxSum: int, lo: int, hi: int, first: nat, last: nat)
    requires first <= lo && hi <= last && first <= last < |s|
    requires maxSum < RangeMin(s, first, last)
    ensures Rightmost(s, maxSum, lo, hi) == None
    decreases hi - lo + 1
  {
    if lo <= hi {
      RangeExtrema(s, first, last);
      RightmostBelowMin(s, maxSum, lo, hi - 1, first, last);
    }
  }

  /** Some leaf of `t` covers exactly the pair k, k+1. */
  ghost predicate HasPairLeaf(t: Tree, k: int)
  {
    match t
    case Leaf(first, last, _, _) => first == k && last == k + 1
    case Inner(l, r, _, _, _, _) => HasPairLeaf(l, k) || HasPairLeaf(r, k)
  }

  lemma {:induction false} PairLeafInRange(t: Tree, s: seq<int>, k: int)
    requires Valid(t, s)
    ensures HasPairLeaf(t, k) ==> t.first <= k && k + 1 <= t.last
  {
    match t
    case Leaf(_, _, _, _) =>
    case Inner(l, r, _, _, _, _) =>
      PairLeafInRange(l, s, k);
      PairLeafInRange(r, s, k);
  }

  /** The leaf scan does not look at leftEdge: when leftEdge is the second
      index of a pair leaf and only the first index qualifies, the search
      reports leftEdge - 1. */
  ghost predicate LeafQuirk(t: Tree, s: seq<int>, maxSum: int, leftEdge: int)
  {
    1 <= leftEdge < |s| && HasPairLeaf(t, leftEdge - 1) && s[leftEdge - 1] <= maxSum
  }

  /** node::search. Looks for the largest index j >= leftEdge of t's range
      with summations[j] <= maxSum, skipping a node that ends before
      leftEdge or whose minimum exceeds maxSum, trying the right child
      before the left, and scanning a leaf's indices in increasing order.
      It finds exactly the rightmost such j when there is one; when there
      is none it reports only the leaf quirk's leftEdge - 1; when it finds
      nothing, resultIndex comes back unchanged. */
  method Search(t: Tree, summations: seq<int>, maxSum: int, leftEdge: nat, resultIndex: int)
    returns (found: bool, index: int)
    requires Valid(t, summations)
    ensures var best := Rightmost(summations, maxSum, Max(leftEdge, t.first), t.last);
            && (found <==> best.Some? || LeafQuirk(t, summations, maxSum, leftEdge))
            && (found ==> index == if best.Some? then best.value else leftEdge - 1)
            && (!found ==> index == resultIndex)
    decreases t
  {
    PairLeafInRange(t, summations, leftEdge - 1);
    if t.last < leftEdge {
      return false, resultIndex;
    }
    if maxSum < t.minValue {
      RightmostBelowMin(summations, maxSum, Max(leftEdge, t.first), t.last, t.first, t.last);
      RangeExtrema(summations, t.first, t.last);
      return false, resultIndex;
    }
    match t
    case Leaf(first, last, _, _) =>
      found, index := false, resultIndex;
      for i := first to last + 1
        invariant Rightmost(summations, maxSum, first, i - 1) == if found then Some(index) else None
        invariant !found ==> index == resultIndex
      {
        if summations[i] <= maxSum {
          found, index := true, i;
        }
      }
    case Inner(l, r, _, _, _, _) =>
      if leftEdge <= r.first {
        RightmostSplit(summations, maxSum, Max(leftEdge, t.first), l.last, t.last);
      }
      PairLeafInRange(r, summations, leftEdge - 1);
      found, index := Search(r, summations, maxSum, leftEdge, resultIndex);
      if found {
        return;
      }
      found, index := Search(l, summations, maxSum, leftEdge, index);
  }
}
