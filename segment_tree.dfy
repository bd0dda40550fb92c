/** The tree over the running sums, built bottom-up one row at a time:
    leaves cover at most two consecutive indices, each parent pairs two
    neighbouring nodes of the row below, and an odd last node moves up
    unchanged, until a single root remains. */
module SegmentTree {

  function Min(a: int, b: int): int { if a < b then a else b }

  function Max(a: int, b: int): int { if a > b then a else b }

  /** Smallest of s[lo..hi], inclusive. */
  function RangeMin(s: seq<int>, lo: nat, hi: nat): int
    requires lo <= hi < |s|
    decreases hi - lo
  {
    if lo == hi then s[lo] else Min(RangeMin(s, lo, hi - 1), s[hi])
  }

  /** Largest of s[lo..hi], inclusive. */
  function RangeMax(s: seq<int>, lo: nat, hi: nat): int
    requires lo <= hi < |s|
    decreases hi - lo
  {
    if lo == hi then s[lo] else Max(RangeMax(s, lo, hi - 1), s[hi])
  }

  /** RangeMin and RangeMax are the extrema of the range: bounds on every
      entry, and attained by some entry. */
  lemma {:induction false} RangeExtrema(s: seq<int>, lo: nat, hi: nat)
    requires lo <= hi < |s|
    ensures forall k :: lo <= k <= hi ==> RangeMin(s, lo, hi) <= s[k] <= RangeMax(s, lo, hi)
    ensures exists k :: lo <= k <= hi && s[k] == RangeMin(s, lo, hi)
    ensures exists k :: lo <= k <= hi && s[k] == RangeMax(s, lo, hi)
    decreases hi - lo
  {
    if lo < hi {
      RangeExtrema(s, lo, hi - 1);
    } else {
      assert s[lo] == RangeMin(s, lo, hi);
    }
  }

  /** The extrema of two adjacent ranges combine into those of their union. */
  lemma {:induction false} RangeSplit(s: seq<int>, lo: nat, mid: nat, hi: nat)
    requires lo <= mid < hi < |s|
    ensures RangeMin(s, lo, hi) == Min(RangeMin(s, lo, mid), RangeMin(s, mid + 1, hi))
    ensures RangeMax(s, lo, hi) == Max(RangeMax(s, lo, mid), RangeMax(s, mid + 1, hi))
    decreases hi - mid
  {
    if mid + 1 < hi {
      RangeSplit(s, lo, mid, hi - 1);
    }
  }

  /** A node covers the indices first..last of the running sums and records
      their smallest and largest value. */
  datatype Tree =
    | Leaf(first: nat, last: nat, minValue: int, maxValue: int)
    | Inner(left: Tree, right: Tree, first: nat, last: nat, minValue: int, maxValue: int)

  /** The node invariant: the range lies inside `s`, minValue and maxValue
      are its extrema, a leaf covers at most two indices, and a parent spans
      exactly its two adjacent children. */
  ghost predicate Valid(t: Tree, s: seq<int>)
    decreases t
  {
    t.first <= t.last < |s|
    && t.minValue == RangeMin(s, t.first, t.last)
    && t.maxValue == RangeMax(s, t.first, t.last)
    && match t
       case Leaf(first, last, _, _) => last - first <= 1
       case Inner(l, r, first, last, _, _) =>
         Valid(l, s) && Valid(r, s)
         && first == l.first && l.last + 1 == r.first && r.last == last
  }

  /** The parent-node constructor: from the left child's first index to the
      right child's last, keeping the smaller minimum and the larger
      maximum of the two. */
  function Parent(l: Tree, r: Tree): Tree
  {
    Inner(l, r, l.first, r.last,
          if l.minValue < r.minValue then l.minValue else r.minValue,
          if l.maxValue > r.maxValue then l.maxValue else r.maxValue)
  }

  /** A parent of two valid adjacent nodes is valid: its min and max are
      the extrema of the whole range it spans. */
  lemma ParentValid(l: Tree, r: Tree, s: seq<int>)
    requires Valid(l, s) && Valid(r, s)
    requires l.last + 1 == r.first
    ensures Valid(Parent(l, r), s)
    ensures Parent(l, r).first == l.first && Parent(l, r).last == r.last
  {
    RangeSplit(s, l.first, l.last, r.last);
  }

  /** The leaf for the pair 2k, 2k+1: its two values, smaller first. */
  function PairLeaf(s: seq<int>, k: nat): Tree
    requires 2 * k + 1 < |s|
  {
    var smallest := s[2 * k];
    var largest := s[2 * k + 1];
    if smallest > largest then Leaf(2 * k, 2 * k + 1, largest, smallest)
    else Leaf(2 * k, 2 * k + 1, smallest, largest)
  }

  /** The leaf row: one leaf per pair, then a single-index leaf for an odd
      last entry. */
  function LeafRow(s: seq<int>): seq<Tree>
  {
    seq(|s| / 2, k requires 0 <= k < |s| / 2 => PairLeaf(s, k))
    + if |s| % 2 == 1 then [Leaf(|s| - 1, |s| - 1, s[|s| - 1], s[|s| - 1])] else []
  }

  /** The row above `row`: one parent per pair, then an odd last node
      promoted unchanged. */
  function ParentRow(row: seq<Tree>): seq<Tree>
  {
    seq(|row| / 2, k requires 0 <= k < |row| / 2 => Parent(row[2 * k], row[2 * k + 1]))
    + if |row| % 2 == 1 then [row[|row| - 1]] else []
  }

  /** A row of valid nodes that partitions the indices of `s` in order,
      without gaps or overlaps; only an empty `s` has an empty row. */
  ghost predicate Covers(row: seq<Tree>, s: seq<int>)
  {
    (|row| == 0 <==> |s| == 0)
    && (forall k :: 0 <= k < |row| ==> Valid(row[k], s))
    && (forall k :: 0 <= k < |row| - 1 ==> row[k].last + 1 == row[k + 1].first)
    && (|row| > 0 ==> row[0].first == 0 && row[|row| - 1].last == |s| - 1)
  }

  /** The leaf row has ceil(N/2) leaves; leaf k covers 2k and, when it
      exists, 2k+1; together they cover the running sums. */
  lemma LeafRowCovers(s: seq<int>)
    ensures |LeafRow(s)| == (|s| + 1) / 2
    ensures forall k :: 0 <= k < |LeafRow(s)| ==>
              LeafRow(s)[k].Leaf? && LeafRow(s)[k].first == 2 * k && LeafRow(s)[k].last == Min(2 * k + 1, |s| - 1)
    ensures Covers(LeafRow(s), s)
  {
    var row := LeafRow(s);
    forall k | 0 <= k < |s| / 2
      ensures Valid(row[k], s)
    {
      assert row[k] == PairLeaf(s, k);
    }
  }

  /** Pairing a row of two or more nodes gives ceil(n/2) nodes, strictly
      fewer, covering the same indices. */
  lemma ParentRowCovers(row: seq<Tree>, s: seq<int>)
    requires Covers(row, s)
    requires 1 < |row|
    ensures |ParentRow(row)| == (|row| + 1) / 2 < |row|
    ensures Covers(ParentRow(row), s)
  {
    var parents := ParentRow(row);
    var pairs := |row| / 2;
    forall k | 0 <= k < |parents|
      ensures Valid(parents[k], s)
      ensures parents[k].first == row[2 * k].first
      ensures parents[k].last == row[Min(2 * k + 1, |row| - 1)].last
    {
      if k < pairs {
        assert parents[k] == Parent(row[2 * k], row[2 * k + 1]);
        ParentValid(row[2 * k], row[2 * k + 1], s);
      } else {
        assert parents[k] == row[|row| - 1];
      }
    }
    forall k | 0 <= k < |parents| - 1
      ensures parents[k].last + 1 == parents[k + 1].first
    {
      assert row[2 * k + 1].last + 1 == row[2 * k + 2].first;
    }
  }

  /** With no running sums the leaf row is empty, and every covering row of
      them is empty: there is no root to take. */
  lemma EmptySumsGiveEmptyRow()
    ensures LeafRow([]) == []
    ensures forall row :: Covers(row, []) ==> row == []
  {
  }

  /** buildLeafRow: pairs 2k, 2k+1 for k below N/2, ordering each pair's
      two values into min and max, then an odd last entry alone. */
  method BuildLeafRow(summations: seq<int>) returns (leafRow: seq<Tree>)
    ensures leafRow == LeafRow(summations)
    ensures Covers(leafRow, summations)
  {
    var pairCount := |summations| / 2;
    var oddCount := |summations| % 2 == 1;
    var oddIndex := pairCount * 2;
    leafRow := [];
    for index := 0 to pairCount
      invariant |leafRow| == index
      invariant forall k :: 0 <= k < index ==> leafRow[k] == PairLeaf(summations, k)
    {
      var firstIndex := index * 2;
      var lastIndex := firstIndex + 1;
      var smallestValue := summations[firstIndex];
      var largestValue := summations[lastIndex];
      if smallestValue > largestValue {
        smallestValue, largestValue := largestValue, smallestValue;
      }
      leafRow := leafRow + [Leaf(firstIndex, lastIndex, smallestValue, largestValue)];
    }
    if oddCount {
      leafRow := leafRow + [Leaf(oddIndex, oddIndex, summations[oddIndex], summations[oddIndex])];
    }
    LeafRowCovers(summations);
  }

  /** buildParentRow: refuses a row of at most one node; otherwise pairs
      neighbours into parents and promotes an odd last node. */
  method BuildParentRow(childRow: seq<Tree>) returns (built: bool, parentRow: seq<Tree>)
    ensures built <==> 1 < |childRow|
    ensures built ==> parentRow == ParentRow(childRow)
    ensures !built ==> parentRow == []
  {
    if |childRow| <= 1 {
      return false, [];
    }
    var pairCount := |childRow| / 2;
    var oddCount := |childRow| % 2 == 1;
    var oddIndex := pairCount * 2;
    parentRow := [];
    for index := 0 to pairCount
      invariant |parentRow| == index
      invariant forall k :: 0 <= k < index ==> parentRow[k] == Parent(childRow[2 * k], childRow[2 * k + 1])
    {
      var childIndex := index * 2;
      parentRow := parentRow + [Parent(childRow[childIndex], childRow[childIndex + 1])];
    }
    if oddCount {
      parentRow := parentRow + [childRow[oddIndex]];
    }
    built := true;
  }
}
