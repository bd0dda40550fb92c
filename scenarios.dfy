/** Worked inputs for the question both solvers answer. */
module Scenarios {
  import opened Windows

  /** Alternating signs with threshold 0: the first four items, summing to
      -2, are the answer; all five sum to 3. */
  lemma AlternatingSigns()
    ensures IsLongest([1, -2, 3, -4, 5], 0, Subsequence(0, 4, -2))
  {
    var items := [1, -2, 3, -4, 5];
    assert items[0..5] == items;
    assert [1, -2][..1] == [1];
    assert [1, -2, 3][..2] == [1, -2];
    assert [1, -2, 3, -4][..3] == [1, -2, 3];
    assert [1, -2, 3, -4, 5][..4] == [1, -2, 3, -4];
    assert Sum([1, -2, 3, -4, 5]) == 3;
    assert items[0..4] == [1, -2, 3, -4];
  }

  /** Every item above the threshold: nothing fits. */
  lemma EveryItemTooLarge()
    ensures IsLongest([5, 5, 5], 4, NoWindow)
  {
    var items := [5, 5, 5];
    forall st, len | 0 <= st && 1 <= len && st + len <= |items|
      ensures !Fits(items, 4, st, len)
    {
      SumAboveThreshold(items[st..st + len], 4);
    }
  }

  /** A generous threshold takes the whole sequence. */
  lemma WholeRunOfNegatives()
    ensures IsLongest([-1, -1, -1, -1], 100, Subsequence(0, 4, -4))
  {
    assert [-1, -1][..1] == [-1];
    assert [-1, -1, -1][..2] == [-1, -1];
    assert [-1, -1, -1, -1][..3] == [-1, -1, -1];
    assert Sum([-1, -1, -1, -1]) == -4;
    WholeSequenceFits([-1, -1, -1, -1], 100, Subsequence(0, 4, -4));
  }

  /** Ties go to the earliest start: [3, 1, -1] and [1, -1, 2] both have
      three items within 3, and the answer is the one from index 0. */
  lemma EarliestStartWins()
    ensures IsLongest([3, 1, -1, 2], 3, Subsequence(0, 3, 3))
    ensures !IsLongest([3, 1, -1, 2], 3, Subsequence(1, 3, 2))
  {
    var items := [3, 1, -1, 2];
    assert items[0..4] == items;
    assert [3, 1][..1] == [3];
    assert [3, 1, -1][..2] == [3, 1];
    assert [3, 1, -1, 2][..3] == [3, 1, -1];
    assert Sum([3, 1, -1, 2]) == 5;
    assert items[0..3] == [3, 1, -1];
    assert !Beats(Subsequence(1, 3, 2), 0, 3);
  }
}
