/** The unit tests of the dataset module, restated over the model: a
    `TestDataset` over `-50..50` is a `Basic` dataset of those integers. */
module DatasetExamples {
  import opened Base
  import opened Datasets

  function TestDataset(lo: int, hi: int): Dataset<int>
  {
    Basic(IntRange(lo, hi))
  }

  function Abs(x: int): int { if x < 0 then -x else x }

  /** `get(40)` over `-50..50` is `-10`; iteration is the range itself, and
      `collect`/`from_iter` build the same dataset in the same order. */
  lemma BasicExample()
    ensures Get(TestDataset(-50, 50), 40) == Some(-10)
    ensures Get(TestDataset(-50, 50), 0) == Some(-50)
    ensures Get(TestDataset(-50, 50), 100) == None
    ensures Iter(TestDataset(-50, 50)) == IntRange(-50, 50)
  {
  }

  /** `abs` over `-50..50`: `get(0)` is `50`, and iteration is `(1..=50).rev()`
      followed by `0..50`. */
  lemma TransformExample()
    ensures Get(Transform(TestDataset(-50, 50), Abs), 0) == Some(50)
    ensures Iter(Transform(TestDataset(-50, 50), Abs)) == Reverse(IntRange(1, 51)) + IntRange(0, 50)
  {
    var lhs := Iter(Transform(TestDataset(-50, 50), Abs));
    var rhs := Reverse(IntRange(1, 51)) + IntRange(0, 50);
    assert lhs == Map(Abs, IntRange(-50, 50));
    assert |IntRange(1, 51)| == 50 && |IntRange(0, 50)| == 50;
    assert |lhs| == |rhs| == 100;
    forall k | 0 <= k < 100
      ensures lhs[k] == rhs[k]
    {
      assert lhs[k] == Abs(IntRange(-50, 50)[k]);
      if k < 50 {
        assert rhs[k] == IntRange(1, 51)[49 - k];
      } else {
        assert rhs[k] == IntRange(0, 50)[k - 50];
      }
    }
  }

  /** Indices `[1, 3, 4, 10]` over `-50..50`: construction succeeds, `get(0)`
      is `-49`, and iteration is `[-49, -47, -46, -40]`. */
  lemma SubsetExample()
    ensures MakeSubset(TestDataset(-50, 50), [1, 3, 4, 10]).Some?
    ensures Get(Subset(TestDataset(-50, 50), [1, 3, 4, 10]), 0) == Some(-49)
    ensures Iter(Subset(TestDataset(-50, 50), [1, 3, 4, 10])) == [-49, -47, -46, -40]
  {
    var d := TestDataset(-50, 50);
    var indices: seq<nat> := [1, 3, 4, 10];
    assert indices[1..] == [3, 4, 10];
    assert indices[1..][1..] == [4, 10];
    assert indices[1..][1..][1..] == [10];
  }

  /** `-50..0` chained with `0..50`: `get(0)` is `-50`, `get(50)` is `0`, and
      iteration is `-50..50`. */
  lemma ChainExample()
    ensures Get(Chain(TestDataset(-50, 0), TestDataset(0, 50)), 0) == Some(-50)
    ensures Get(Chain(TestDataset(-50, 0), TestDataset(0, 50)), 50) == Some(0)
    ensures Iter(Chain(TestDataset(-50, 0), TestDataset(0, 50))) == IntRange(-50, 50)
  {
    assert IntRange(-50, 0) + IntRange(0, 50) == IntRange(-50, 50);
  }
}
