/** The data loader's unit tests, restated over the model: the first
    generic batch over `5..500` with batch size 32, and the first array
    batch over 100 filled `4×4` samples with `4`-element targets. */
module LoaderExamples {
  import opened Base
  import opened Datasets
  import opened Loader
  import Samplers
  import DatasetExamples

  /** The loader of the generic test: `5..500`, batch size 32, no
      shuffling, a sequential sampler over the dataset's length. */
  function BasicLoader(): DataLoader<int>
  {
    New(DatasetExamples.TestDataset(5, 500), 32, false, Samplers.Sequential(495), [])
  }

  /** The `get` of the generic test's dataset. */
  function BasicGet(): nat -> Option<int>
  {
    Getter(DatasetExamples.TestDataset(5, 500))
  }

  /** The first batch is `5..37`; as written, draining the iterator gives
      its 15 full batches and then panics on the 16th call, while the
      drain that ends on exhaustion gives the same 15 batches and stops. */
  lemma BasicIterExample(rng: Samplers.Rng)
    ensures Loader.Iter(BasicLoader(), [], rng).1.Started?
    ensures Loader.Iter(BasicLoader(), [], rng).1.iter.draws == Upto(495)
    ensures Next(BasicGet(), 32, Upto(495)) == Yield(IntRange(5, 37), Upto(495)[32..])
    ensures |Drain(BasicGet(), 32, Upto(495)).batches| == 15
    ensures Drain(BasicGet(), 32, Upto(495)).panicked
    ensures |DrainOrEnd(BasicGet(), 32, Upto(495)).batches| == 15
    ensures !DrainOrEnd(BasicGet(), 32, Upto(495)).panicked
  {
    var d := DatasetExamples.TestDataset(5, 500);
    var draws := Upto(495);
    var get := BasicGet();
    assert Hits(get, draws);
    assert Hits(get, draws[..32]);
    NextSpec(get, 32, draws);
    NextOfIter(LoaderIter(d, 32, draws));
    GatherComplete(d, draws[..32]);
    assert Gather(d, draws[..32]) == IntRange(5, 37);
    IterDrain(LoaderIter(d, 32, draws));
  }

  /** A `4^n`-element array of shape `shape` filled with `i`. */
  function Filled(shape: seq<nat>, size: nat, i: nat): Array
  {
    Array(shape, seq(size, _ => i as real))
  }

  /** The array test's dataset: item `i` is a `4×4` sample and a
      `4`-element target, both filled with `i`. */
  function ArrayTestDataset(): Dataset<(Array, Array)>
  {
    Basic(seq(100, i requires 0 <= i < 100 => (Filled([4, 4], 16, i), Filled([4], 4, i))))
  }

  /** The `get` of the array test's dataset. */
  function ArrayGet(): nat -> Option<(Array, Array)>
  {
    Getter(ArrayTestDataset())
  }

  lemma ArrayTestMatches(n: nat)
    requires n <= 100
    ensures AllMatch(ArrayGet(), Upto(100)[..n], [4, 4], [4])
    ensures forall j | 0 <= j < n :: ArrayGet()(Upto(100)[j]) == Some((Filled([4, 4], 16, j), Filled([4], 4, j)))
  {
  }

  /** The first array batch with batch size 32 stacks items `0..32` in
      order. */
  lemma IterArrayExample()
    ensures ArrayNext(ArrayGet(), 32, Upto(100)).Yield?
    ensures
      var r := ArrayNext(ArrayGet(), 32, Upto(100));
      && r.item.0.rowShape == [4, 4] && r.item.1.rowShape == [4]
      && |r.item.0.rows| == 32 && |r.item.1.rows| == 32
      && forall j | 0 <= j < 32 :: r.item.0.rows[j] == Filled([4, 4], 16, j).elems && r.item.1.rows[j] == Filled([4], 4, j).elems
  {
    ArrayTestMatches(32);
    ArrayNextYields(ArrayGet(), 32, Upto(100));
    ArrayNextRows(ArrayGet(), 32, Upto(100));
    ArrayTestRows(32);
  }

  /** The rows stacked from the first `n` draws are the items `0..n`. */
  lemma ArrayTestRows(n: nat)
    requires 0 < n <= 100
    ensures var c := Collect(ArrayGet(), Upto(100)[..n]);
      && |Map(SampleRow, c)| == n && |Map(TargetRow, c)| == n
      && forall j | 0 <= j < n ::
        Map(SampleRow, c)[j] == Filled([4, 4], 16, j).elems && Map(TargetRow, c)[j] == Filled([4], 4, j).elems
  {
    ArrayTestMatches(n);
    var draws := Upto(100)[..n];
    assert Hits(ArrayGet(), draws);
    CollectComplete(ArrayGet(), draws);
    var c := Collect(ArrayGet(), draws);
    forall j | 0 <= j < n
      ensures c[j] == (Filled([4, 4], 16, j), Filled([4], 4, j))
    {
      assert draws[j] == Upto(100)[j];
    }
  }

  /** With batch size 0 the `1..0` loop does not run: the batch is the
      single first item. */
  lemma ZeroBatchArrayExample()
    ensures ArrayNext(ArrayGet(), 0, Upto(100)).Yield?
    ensures ArrayNext(ArrayGet(), 0, Upto(100)).item.0.rows == [Filled([4, 4], 16, 0).elems]
  {
    ArrayTestMatches(1);
    ArrayNextYields(ArrayGet(), 0, Upto(100));
    ArrayNextRows(ArrayGet(), 0, Upto(100));
    ArrayTestRows(1);
  }
}
