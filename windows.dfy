/** The question both solvers answer: the longest contiguous window of
    `items` whose sum is at most `maxSum`, ties going to the smallest start.
    Both solvers visit windows by increasing start and replace their answer
    only on a strictly longer window; `BestSoFar` is that answer over the
    windows visited so far, and `IsLongest` over all of them. */
module Windows {

  /** The result record: `length` items starting at `startIndex`, adding up
      to `sum`. Length 0 means that no window qualifies. */
  datatype Subsequence = Subsequence(startIndex: nat, length: nat, sum: int)

  /** The zero-initialised result both solvers start from. */
  const NoWindow := Subsequence(0, 0, 0)

  /** Sum of a sequence, accumulated from the left. */
  function Sum(xs: seq<int>): int
    decreases |xs|
  {
    if |xs| == 0 then 0 else Sum(xs[..|xs| - 1]) + xs[|xs| - 1]
  }

  lemma {:induction false} SumConcat(a: seq<int>, b: seq<int>)
    ensures Sum(a + b) == Sum(a) + Sum(b)
    decreases |b|
  {
    if |b| == 0 {
      assert a + b == a;
    } else {
      var b' := b[..|b| - 1];
      assert (a + b)[..|a + b| - 1] == a + b';
      SumConcat(a, b');
    }
  }

  /** Adding the next item to a window adds it to the window's sum. */
  lemma SumExtend(xs: seq<int>, lo: nat, hi: nat)
    requires lo <= hi < |xs|
    ensures Sum(xs[lo..hi + 1]) == Sum(xs[lo..hi]) + xs[hi]
  {
    assert xs[lo..hi + 1][..hi - lo] == xs[lo..hi];
  }

  /** A window is the difference of two prefix sums. */
  lemma {:induction false} WindowIsPrefixDifference(xs: seq<int>, i: nat, j: nat)
    requires i <= j <= |xs|
    ensures Sum(xs[i..j]) == Sum(xs[..j]) - Sum(xs[..i])
  {
    assert xs[..j] == xs[..i] + xs[i..j];
    SumConcat(xs[..i], xs[i..j]);
  }

  /** The window of `length` items from `start` lies inside `items`, is not
      empty and sums to at most `maxSum`. */
  ghost predicate Fits(items: seq<int>, maxSum: int, start: int, length: int)
  {
    0 <= start && 1 <= length && start + length <= |items|
    && Sum(items[start..start + length]) <= maxSum
  }

  /** `r` is at least as good as the window (start, length): longer, or as
      long and starting no later. */
  predicate Beats(r: Subsequence, start: int, length: int)
  {
    length < r.length || (length == r.length && r.startIndex <= start)
  }

  /** The window (start, length) has been visited once a solver has looked
      at every window of length up to `k` starting at `i`. */
  predicate VisitedBy(start: int, length: int, i: int, k: int)
  {
    start < i || (start == i && length <= k)
  }

  /** `r` is the answer over the windows visited up to (i, k). */
  ghost predicate BestSoFar(items: seq<int>, maxSum: int, i: int, k: int, r: Subsequence)
  {
    if r.length == 0 then
      r == NoWindow
      && forall st, len :: VisitedBy(st, len, i, k) ==> !Fits(items, maxSum, st, len)
    else
      VisitedBy(r.startIndex, r.length, i, k)
      && Fits(items, maxSum, r.startIndex, r.length)
      && r.sum == Sum(items[r.startIndex..r.startIndex + r.length])
      && forall st, len :: VisitedBy(st, len, i, k) && Fits(items, maxSum, st, len) ==> Beats(r, st, len)
  }

  /** `r` is the answer: the longest window with sum at most `maxSum`, the
      one with the smallest start among the longest, with its sum; or
      `NoWindow` when no window qualifies. */
  ghost predicate IsLongest(items: seq<int>, maxSum: int, r: Subsequence)
  {
    if r.length == 0 then
      r == NoWindow && forall st, len :: !Fits(items, maxSum, st, len)
    else
      Fits(items, maxSum, r.startIndex, r.length)
      && r.sum == Sum(items[r.startIndex..r.startIndex + r.length])
      && forall st, len :: Fits(items, maxSum, st, len) ==> Beats(r, st, len)
  }

  /** Before any window is visited, the zero result is the answer. */
  lemma NothingVisited(items: seq<int>, maxSum: int)
    ensures BestSoFar(items, maxSum, 0, 0, NoWindow)
  {
  }

  /** Once every start has been visited, the answer so far is the answer. */
  lemma AllVisited(items: seq<int>, maxSum: int, r: Subsequence)
    requires BestSoFar(items, maxSum, |items|, 0, r)
    ensures IsLongest(items, maxSum, r)
  {
    forall st, len | Fits(items, maxSum, st, len)
      ensures VisitedBy(st, len, |items|, 0)
    {
    }
  }

  /** Visiting the window `current` of `k + 1` items from `i` and keeping
      it only when it fits and is strictly longer: the inner step of the
      brute force. */
  lemma VisitWindow(items: seq<int>, maxSum: int, i: nat, k: nat, r: Subsequence, current: Subsequence)
    requires i + k + 1 <= |items|
    requires BestSoFar(items, maxSum, i, k, r)
    requires current == Subsequence(i, k + 1, Sum(items[i..i + k + 1]))
    ensures BestSoFar(items, maxSum, i, k + 1, if current.sum <= maxSum && current.length > r.length then current else r)
  {
    var r' := if current.sum <= maxSum && current.length > r.length then current else r;
    forall st, len | VisitedBy(st, len, i, k + 1) && Fits(items, maxSum, st, len)
      ensures r'.length > 0 && Beats(r', st, len)
    {
      if !VisitedBy(st, len, i, k) {
        assert st == i && len == k + 1;
      }
    }
  }

  /** Once every window from `i` that lies inside `items` has been visited,
      start `i` is done. */
  lemma NextStart(items: seq<int>, maxSum: int, i: nat, k: nat, r: Subsequence)
    requires i < |items| && k == |items| - i
    requires BestSoFar(items, maxSum, i, k, r)
    ensures BestSoFar(items, maxSum, i + 1, 0, r)
  {
    forall st, len | VisitedBy(st, len, i + 1, 0) && Fits(items, maxSum, st, len)
      ensures VisitedBy(st, len, i, k)
    {
    }
  }

  /** Visiting only the longest window from `i` (of length `longest`, 0 if
      none fits) and keeping it when strictly longer: the step of the tree
      solver's driver. */
  lemma {:induction false} VisitLongestAt(items: seq<int>, maxSum: int, i: nat, r: Subsequence, longest: nat)
    requires i < |items|
    requires BestSoFar(items, maxSum, i, 0, r)
    requires longest == 0 ==> forall len :: !Fits(items, maxSum, i, len)
    requires longest > 0 ==> Fits(items, maxSum, i, longest)
    requires forall len :: Fits(items, maxSum, i, len) ==> len <= longest
    ensures var c := Subsequence(i, longest, Sum(items[i..i + longest]));
            BestSoFar(items, maxSum, i + 1, 0, if longest > r.length then c else r)
  {
    var c := Subsequence(i, longest, Sum(items[i..i + longest]));
    var r' := if longest > r.length then c else r;
    forall st, len | VisitedBy(st, len, i + 1, 0) && Fits(items, maxSum, st, len)
      ensures Beats(r', st, len)
    {
      if st < i {
        assert VisitedBy(st, len, i, 0);
      }
    }
  }

  /** Reference definition: the longest window of at most `len` items from
      `i` that fits, found by trying the longest first; 0 when none does. */
  ghost function LongestWithin(items: seq<int>, maxSum: int, i: nat, len: nat): (r: nat)
    requires i + len <= |items|
    ensures r <= len
    decreases len
  {
    if len == 0 then 0
    else if Sum(items[i..i + len]) <= maxSum then len
    else LongestWithin(items, maxSum, i, len - 1)
  }

  /** LongestWithin is the length of the longest fitting window of at most
      `len` items from `i`, and 0 exactly when none fits. */
  lemma {:induction false} LongestWithinIsLongest(items: seq<int>, maxSum: int, i: nat, len: nat)
    requires i + len <= |items|
    ensures LongestWithin(items, maxSum, i, len) == 0 ==>
              forall l :: 1 <= l <= len ==> !Fits(items, maxSum, i, l)
    ensures LongestWithin(items, maxSum, i, len) > 0 ==>
              Fits(items, maxSum, i, LongestWithin(items, maxSum, i, len))
    ensures forall l :: l <= len && Fits(items, maxSum, i, l) ==> l <= LongestWithin(items, maxSum, i, len)
    decreases len
  {
    if len > 0 && maxSum < Sum(items[i..i + len]) {
      LongestWithinIsLongest(items, maxSum, i, len - 1);
    }
  }

  /** Reference definition of what both solvers hold after every start
      before `i` is done: for each start in turn, its longest fitting
      window replaces the answer only when strictly longer. */
  ghost function BestUpTo(items: seq<int>, maxSum: int, i: nat): Subsequence
    requires i <= |items|
    decreases i
  {
    if i == 0 then NoWindow
    else
      var previous := BestUpTo(items, maxSum, i - 1);
      var longest := LongestWithin(items, maxSum, i - 1, |items| - (i - 1));
      if longest > previous.length then Subsequence(i - 1, longest, Sum(items[i - 1..i - 1 + longest]))
      else previous
  }

  /** One more start: BestUpTo moves to that start's longest fitting window
      when it is strictly longer. */
  lemma BestUpToNext(items: seq<int>, maxSum: int, i: nat, longest: nat)
    requires i < |items|
    requires longest == LongestWithin(items, maxSum, i, |items| - i)
    ensures BestUpTo(items, maxSum, i + 1)
            == if longest > BestUpTo(items, maxSum, i).length
               then Subsequence(i, longest, Sum(items[i..i + longest]))
               else BestUpTo(items, maxSum, i)
  {
  }

  /** BestUpTo is the answer over the windows starting before `i`. */
  lemma {:induction false} BestUpToSoFar(items: seq<int>, maxSum: int, i: nat)
    requires i <= |items|
    ensures BestSoFar(items, maxSum, i, 0, BestUpTo(items, maxSum, i))
    decreases i
  {
    if i == 0 {
      NothingVisited(items, maxSum);
    } else {
      var start := i - 1;
      var previous := BestUpTo(items, maxSum, start);
      var longest := LongestWithin(items, maxSum, start, |items| - start);
      BestUpToSoFar(items, maxSum, start);
      LongestWithinIsLongest(items, maxSum, start, |items| - start);
      forall l | Fits(items, maxSum, start, l)
        ensures l <= longest
      {
        assert l <= |items| - start;
      }
      VisitLongestAt(items, maxSum, start, previous, longest);
    }
  }

  /** Once no start left can be longer than BestUpTo(i), the later starts
      leave it as it is. */
  lemma {:induction false} BestUpToSettles(items: seq<int>, maxSum: int, i: nat, j: nat)
    requires i <= j <= |items|
    requires |items| - i <= BestUpTo(items, maxSum, i).length
    ensures BestUpTo(items, maxSum, j) == BestUpTo(items, maxSum, i)
    decreases j - i
  {
    if i < j {
      BestUpToSettles(items, maxSum, i, j - 1);
    }
  }

  /** After every start, BestUpTo is the answer. */
  lemma BestUpToIsLongest(items: seq<int>, maxSum: int)
    ensures IsLongest(items, maxSum, BestUpTo(items, maxSum, |items|))
  {
    BestUpToSoFar(items, maxSum, |items|);
    AllVisited(items, maxSum, BestUpTo(items, maxSum, |items|));
  }

  /** The early stop of both solvers: once the answer so far is at least as
      long as everything left, no later start can replace it. */
  lemma {:induction false} StopEarly(items: seq<int>, maxSum: int, i: nat, r: Subsequence)
    requires i < |items|
    requires |items| - i <= r.length
    requires BestSoFar(items, maxSum, i, 0, r)
    ensures IsLongest(items, maxSum, r)
  {
    forall st, len | Fits(items, maxSum, st, len)
      ensures Beats(r, st, len)
    {
      if st < i {
        assert VisitedBy(st, len, i, 0);
      }
    }
  }

  /** There is only one answer, so two solvers that both produce the
      answer produce the same (startIndex, length, sum). */
  lemma LongestIsUnique(items: seq<int>, maxSum: int, r1: Subsequence, r2: Subsequence)
    requires IsLongest(items, maxSum, r1) && IsLongest(items, maxSum, r2)
    ensures r1 == r2
  {
    if r1.length > 0 && r2.length > 0 {
      assert Beats(r1, r2.startIndex, r2.length);
      assert Beats(r2, r1.startIndex, r1.length);
    }
  }

  /** A window of one item fits exactly when the item is at most `maxSum`. */
  lemma SingleItem(items: seq<int>, maxSum: int, k: nat)
    requires k < |items|
    ensures Fits(items, maxSum, k, 1) <==> items[k] <= maxSum
  {
    SumExtend(items, k, k);
    assert items[k..k] == [];
  }

  /** Length 0 is reported only when every item on its own exceeds
      `maxSum`. */
  lemma {:induction false} EmptyOnlyIfEveryItemExceeds(items: seq<int>, maxSum: int, r: Subsequence)
    requires IsLongest(items, maxSum, r)
    requires r.length == 0
    ensures forall k :: 0 <= k < |items| ==> maxSum < items[k]
  {
    forall k | 0 <= k < |items|
      ensures maxSum < items[k]
    {
      SingleItem(items, maxSum, k);
    }
  }

  lemma {:induction false} SumAboveThreshold(xs: seq<int>, maxSum: int)
    requires 1 <= |xs|
    requires -1 <= maxSum
    requires forall k :: 0 <= k < |xs| ==> maxSum < xs[k]
    ensures maxSum < Sum(xs)
    decreases |xs|
  {
    var prefix := xs[..|xs| - 1];
    if |prefix| == 0 {
      assert Sum(prefix) == 0;
    } else {
      SumAboveThreshold(prefix, maxSum);
    }
  }

  /** Conversely, for a threshold of at least -1, items that each exceed it
      leave no window at all. */
  lemma {:induction false} EveryItemExceedsMeansEmpty(items: seq<int>, maxSum: int, r: Subsequence)
    requires -1 <= maxSum
    requires forall k :: 0 <= k < |items| ==> maxSum < items[k]
    requires IsLongest(items, maxSum, r)
    ensures r == NoWindow
  {
    forall st, len | 0 <= st && 1 <= len && st + len <= |items|
      ensures !Fits(items, maxSum, st, len)
    {
      SumAboveThreshold(items[st..st + len], maxSum);
    }
  }

  /** Below -1 the converse fails: each of [-1, -1] exceeds -2, yet the two
      together sum to exactly -2. */
  lemma NegativeThresholdPairFits()
    ensures forall k :: 0 <= k < 2 ==> -2 < [-1, -1][k]
    ensures IsLongest([-1, -1], -2, Subsequence(0, 2, -2))
  {
    WholeSequenceFits([-1, -1], -2, Subsequence(0, 2, -2));
  }

  /** When the whole sequence fits, it is the answer. */
  lemma {:induction false} WholeSequenceFits(items: seq<int>, maxSum: int, r: Subsequence)
    requires 1 <= |items|
    requires Sum(items) <= maxSum
    requires r == Subsequence(0, |items|, Sum(items))
    ensures IsLongest(items, maxSum, r)
  {
    assert items[0..|items|] == items;
  }

  /** Raising the threshold never shortens the answer. */
  lemma {:induction false} LongestGrowsWithThreshold(items: seq<int>, lower: int, higher: int, r1: Subsequence, r2: Subsequence)
    requires lower <= higher
    requires IsLongest(items, lower, r1) && IsLongest(items, higher, r2)
    ensures r1.length <= r2.length
  {
    if r1.length > 0 {
      assert Fits(items, higher, r1.startIndex, r1.length);
    }
  }
}
