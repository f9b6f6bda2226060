/** `DataLoader`: a dataset (optionally behind a `Shuffler`), a batch size
    and a sampler. Its two iterators pull `batch_size` sampler draws per
    batch: the generic one collects the `get` results into a list, the
    array one stacks `(sample, target)` arrays along a new leading axis.

    A sampler iterator is modelled as the draws it still has to give, in
    the order `next` gives them; `next_back` takes them from the end. */
module Loader {
  import opened Base
  import opened Datasets
  import Samplers

  /** The loader's private `Shuffle` enum: the dataset behind a `Shuffler`
      (its wrapped dataset and current order), or the dataset itself. */
  datatype Shuffle<!T> = Yes(inner: Dataset<T>, order: seq<nat>) | No(data: Dataset<T>)

  /** The dataset `Shuffle` delegates `get` and `len` to. */
  function Data<T>(s: Shuffle<T>): Dataset<T>
  {
    match s
    case Yes(inner, order) => Shuffler(inner, order)
    case No(data) => data
  }

  /** What `Shuffle` wraps, before any shuffling. */
  function Wrapped<T>(s: Shuffle<T>): Dataset<T>
  {
    match s
    case Yes(inner, _) => inner
    case No(data) => data
  }

  /** A `Yes` always holds a permutation of its wrapped dataset. */
  predicate Valid<T>(s: Shuffle<T>)
  {
    s.Yes? ==> IsPermutation(s.order, Len(s.inner))
  }

  datatype DataLoader<!T> = DataLoader(dataset: Shuffle<T>, batchSize: nat, sampler: Samplers.Sampler)

  /** `DataLoader::new`: with `shuffle`, the dataset goes behind a fresh
      `Shuffler`; `order` is the shuffle the generator would have made. */
  function New<T>(d: Dataset<T>, batchSize: nat, shuffle: bool, sampler: Samplers.Sampler, order: seq<nat>): (r: DataLoader<T>)
    requires shuffle ==> IsPermutation(order, Len(d))
    ensures r.dataset.Yes? <==> shuffle
    ensures Wrapped(r.dataset) == d && Valid(r.dataset)
    ensures r.batchSize == batchSize && r.sampler == sampler
    ensures Len(Data(r.dataset)) == Len(d)
    ensures WellFormed(d) ==> WellFormed(Data(r.dataset))
  {
    if shuffle then
      PermutationFacts(order, Len(d));
      DataLoader(Yes(d, order), batchSize, sampler)
    else DataLoader(No(d), batchSize, sampler)
  }

  /** `DataLoader::shuffle`: reorders the `Shuffler` if there is one, and
      leaves a loader built without shuffling exactly as it was. `order`
      is the rearrangement the generator would have made. */
  function ShuffleLoader<T>(l: DataLoader<T>, order: seq<nat>): (r: DataLoader<T>)
    requires l.dataset.Yes? ==> multiset(order) == multiset(l.dataset.order)
    ensures l.dataset.No? ==> r == l
    ensures r.dataset.Yes? <==> l.dataset.Yes?
    ensures Wrapped(r.dataset) == Wrapped(l.dataset)
    ensures r.batchSize == l.batchSize && r.sampler == l.sampler
    ensures Valid(l.dataset) ==> Valid(r.dataset)
    ensures Len(Data(r.dataset)) == Len(Data(l.dataset))
  {
    match l.dataset
    case No(_) => l
    case Yes(inner, old_order) =>
      var s := Reshuffle(Shuffler(inner, old_order), order);
      l.(dataset := Yes(inner, s.indices))
  }

  /** A `DataLoaderIter` / `ArrayDataLoaderIter`: the dataset it reads,
      the batch size, and the sampler draws still to come. */
  datatype LoaderIter<!T> = LoaderIter(data: Dataset<T>, batchSize: nat, draws: seq<nat>)

  /** `DataLoader::iter` and `DataLoader::iter_array`: shuffle, then start
      the sampler. Returns the shuffled loader and the iterator over it. */
  function Iter<T>(l: DataLoader<T>, order: seq<nat>, rng: Samplers.Rng): (r: (DataLoader<T>, Samplers.Started<LoaderIter<T>>))
    requires l.dataset.Yes? ==> multiset(order) == multiset(l.dataset.order)
    requires l.sampler.Random? ==> Samplers.Supplies(rng, l.sampler.size, l.sampler.replacement, l.sampler.numSamples)
    ensures r.0 == ShuffleLoader(l, order)
    ensures r.1.Started? <==> Samplers.Iter(l.sampler, rng).Started?
    ensures r.1.Started? ==> r.1.iter.data == Data(r.0.dataset) && r.1.iter.batchSize == l.batchSize
    ensures r.1.Started? ==> |r.1.iter.draws| == Samplers.Len(l.sampler)
  {
    Samplers.IterContract(l.sampler, rng);
    var l' := ShuffleLoader(l, order);
    var it := match Samplers.Iter(l.sampler, rng)
      case Started(draws) => Samplers.Started(LoaderIter(Data(l'.dataset), l.batchSize, draws))
      case EmptyRange => Samplers.EmptyRange
      case Diverges => Samplers.Diverges;
    (l', it)
  }

  /** `Shuffle` delegates `get` and `len` unchanged: a `No` is the
      dataset itself, and a `Yes` has its wrapped dataset's length, answers
      `get` exactly below it, and holds every wrapped item exactly once. */
  lemma ShuffleDelegates<T>(s: Shuffle<T>, i: nat)
    requires WellFormed(Wrapped(s)) && Valid(s)
    ensures s.No? ==> Get(Data(s), i) == Get(Wrapped(s), i)
    ensures Len(Data(s)) == Len(Wrapped(s))
    ensures Get(Data(s), i).Some? <==> i < Len(Wrapped(s))
    ensures multiset(Datasets.Iter(Data(s))) == multiset(Datasets.Iter(Wrapped(s)))
  {
    if s.Yes? {
      PermutationFacts(s.order, Len(s.inner));
      ShufflerIterIsPermutation(Data(s));
    }
    GetDefinedBelowLen(Data(s), i);
  }

  /** `iter` reshuffles only a loader built with `shuffle`: without it,
      the loader and the iterator's dataset do not depend on the
      generator's shuffle at all; with it, the iterator reads the wrapped
      dataset in the new order. */
  lemma IterReshufflesOnlyWhenShuffling<T>(l: DataLoader<T>, order1: seq<nat>, order2: seq<nat>, rng: Samplers.Rng)
    requires l.dataset.Yes? ==> multiset(order1) == multiset(l.dataset.order) == multiset(order2)
    requires l.sampler.Random? ==> Samplers.Supplies(rng, l.sampler.size, l.sampler.replacement, l.sampler.numSamples)
    ensures l.dataset.No? ==> Iter(l, order1, rng) == Iter(l, order2, rng) && Iter(l, order1, rng).0 == l
    ensures l.dataset.Yes? && Iter(l, order1, rng).1.Started? ==>
      Iter(l, order1, rng).1.iter.data == Shuffler(l.dataset.inner, order1)
  {
  }

  // ---------------------------------------------------------------------
  // Pulling a batch

  /** What one `next` does: yields an item and leaves `rest` of the draws,
      returns `None` leaving `rest`, or panics. The pulls below read the
      iterator's dataset through its `get`, passed as a function (for a
      `LoaderIter` it is `Getter(it.data)`). */
  datatype Pull<X> = Yield(item: X, rest: seq<nat>) | Stop(rest: seq<nat>) | Panic

  function Prepend<X>(x: X, p: Pull<seq<X>>): Pull<seq<X>>
  {
    match p
    case Yield(b, rest) => Yield([x] + b, rest)
    case _ => p
  }

  /** `DataLoaderIter::next` as written: `k` times, take a draw with
      `unwrap` (a panic once the sampler is exhausted) and `get` it;
      collecting into `Option` stops at the first `None`. */
  function Next<T>(get: nat -> Option<T>, k: nat, draws: seq<nat>): Pull<seq<T>>
    decreases k
  {
    if k == 0 then Yield([], draws)
    else if draws == [] then Panic
    else
      match get(draws[0])
      case None => Stop(draws[1..])
      case Some(x) => Prepend(x, Next(get, k - 1, draws[1..]))
  }

  lemma HitsCons<T>(get: nat -> Option<T>, s: seq<nat>)
    requires |s| > 0
    ensures Hits(get, s) <==> get(s[0]).Some? && Hits(get, s[1..])
  {
    if get(s[0]).Some? && Hits(get, s[1..]) {
      forall k | 0 <= k < |s|
        ensures get(s[k]).Some?
      {
        if k > 0 {
          assert s[k] == s[1..][k - 1];
        }
      }
    }
  }

  /** A generic batch is the items of the next `k` draws in draw order,
      and there is one exactly when `k` draws remain and all of them hit. */
  lemma {:induction false} NextYields<T>(get: nat -> Option<T>, k: nat, draws: seq<nat>)
    ensures Next(get, k, draws).Yield? <==> k <= |draws| && Hits(get, draws[..k])
    ensures Next(get, k, draws).Yield? ==> Next(get, k, draws).item == Collect(get, draws[..k])
    ensures Next(get, k, draws).Yield? ==> |Next(get, k, draws).item| == k && Next(get, k, draws).rest == draws[k..]
    decreases k
  {
    if k > 0 && draws != [] {
      var tail := draws[1..];
      if k <= |draws| {
        HitsCons(get, draws[..k]);
        assert draws[..k][1..] == tail[..k - 1];
      }
      if get(draws[0]).Some? {
        NextYields(get, k - 1, tail);
        if k <= |draws| {
          assert draws[..k][0] == draws[0];
          assert tail[k - 1..] == draws[k..];
        }
      }
    }
  }

  /** The call panics exactly when the sampler runs out before any draw
      misses. */
  lemma {:induction false} NextPanics<T>(get: nat -> Option<T>, k: nat, draws: seq<nat>)
    ensures Next(get, k, draws).Panic? <==> |draws| < k && Hits(get, draws)
    decreases k
  {
    if k > 0 && draws != [] {
      HitsCons(get, draws);
      if get(draws[0]).Some? {
        NextPanics(get, k - 1, draws[1..]);
      }
    }
  }

  /** A batch is `None` when a draw misses: the draws up to and including
      the first miss are consumed, and all before it hit. */
  lemma {:induction false} NextStops<T>(get: nat -> Option<T>, k: nat, draws: seq<nat>)
    ensures Next(get, k, draws).Stop? ==> 0 < |draws| - |Next(get, k, draws).rest| <= k
    ensures Next(get, k, draws).Stop? ==> Next(get, k, draws).rest == draws[|draws| - |Next(get, k, draws).rest|..]
    ensures Next(get, k, draws).Stop? ==> get(draws[|draws| - |Next(get, k, draws).rest| - 1]).None?
    ensures Next(get, k, draws).Stop? ==> Hits(get, draws[..|draws| - |Next(get, k, draws).rest| - 1])
    decreases k
  {
    if k > 0 && draws != [] && get(draws[0]).Some? {
      var tail := draws[1..];
      NextStops(get, k - 1, tail);
      var r := Next(get, k - 1, tail);
      if r.Stop? {
        var c := |tail| - |r.rest|;
        assert tail[c..] == draws[c + 1..];
        assert draws[..c][1..] == tail[..c - 1];
        HitsCons(get, draws[..c]);
        assert tail[c - 1] == draws[c];
      }
    }
  }

  /** The three outcomes of `Next` together. */
  lemma NextSpec<T>(get: nat -> Option<T>, k: nat, draws: seq<nat>)
    ensures Next(get, k, draws).Yield? <==> k <= |draws| && Hits(get, draws[..k])
    ensures Next(get, k, draws).Yield? ==> Next(get, k, draws).item == Collect(get, draws[..k])
    ensures Next(get, k, draws).Yield? ==> |Next(get, k, draws).item| == k && Next(get, k, draws).rest == draws[k..]
    ensures Next(get, k, draws).Panic? <==> |draws| < k && Hits(get, draws)
    ensures Next(get, k, draws).Stop? ==> 0 < |draws| - |Next(get, k, draws).rest| <= k
  {
    NextYields(get, k, draws);
    NextPanics(get, k, draws);
    NextStops(get, k, draws);
  }

  /** On a loader iterator, a batch is the dataset's items gathered over
      the next `batch_size` draws, exactly as the dataset iterator would
      gather them. */
  lemma NextOfIter<T>(it: LoaderIter<T>)
    ensures var p := Next(Getter(it.data), it.batchSize, it.draws);
      p.Yield? ==> it.batchSize <= |it.draws| && p.item == Gather(it.data, it.draws[..it.batchSize])
  {
    NextYields(Getter(it.data), it.batchSize, it.draws);
    if it.batchSize <= |it.draws| {
      GatherIsCollect(it.data, it.draws[..it.batchSize]);
    }
  }

  /** `DataLoaderIter::next_back` as written: the same, drawing from the
      end of the remaining draws. */
  function NextBack<T>(get: nat -> Option<T>, k: nat, draws: seq<nat>): Pull<seq<T>>
    decreases k
  {
    if k == 0 then Yield([], draws)
    else if draws == [] then Panic
    else
      var n := |draws|;
      match get(draws[n - 1])
      case None => Stop(draws[..n - 1])
      case Some(x) => Prepend(x, NextBack(get, k - 1, draws[..n - 1]))
  }

  /** The back end of the draws, read backwards, is the front end of the
      reversed draws. */
  lemma ReverseFront(s: seq<nat>)
    requires |s| > 0
    ensures Reverse(s)[0] == s[|s| - 1]
    ensures Reverse(s)[1..] == Reverse(s[..|s| - 1])
  {
  }

  /** Mirrors a pull taken over the reversed draws back onto the draws. */
  function Unreverse<X>(p: Pull<X>): Pull<X>
  {
    match p
    case Yield(x, rest) => Yield(x, Reverse(rest))
    case Stop(rest) => Stop(Reverse(rest))
    case Panic => Panic
  }

  lemma ReverseReverse(s: seq<nat>)
    ensures Reverse(Reverse(s)) == s
  {
  }

  /** `next_back` builds its batch exactly as `next` does over the draws
      read from the back. */
  lemma {:induction false} NextBackMirrorsNext<T>(get: nat -> Option<T>, k: nat, draws: seq<nat>)
    ensures NextBack(get, k, draws) == Unreverse(Next(get, k, Reverse(draws)))
    decreases k
  {
    if k == 0 {
      ReverseReverse(draws);
    } else if draws != [] {
      NextBackMirrorsNext(get, k - 1, draws[..|draws| - 1]);
      NextBackMirrorsNextStep(get, k, draws);
    }
  }

  lemma UnreversePrepend<X>(x: X, p: Pull<seq<X>>)
    ensures Unreverse(Prepend(x, p)) == Prepend(x, Unreverse(p))
  {
  }

  /** One draw of that mirror, given it for the shorter draws. */
  lemma NextBackMirrorsNextStep<T>(get: nat -> Option<T>, k: nat, draws: seq<nat>)
    requires k > 0 && draws != []
    requires NextBack(get, k - 1, draws[..|draws| - 1]) == Unreverse(Next(get, k - 1, Reverse(draws[..|draws| - 1])))
    ensures NextBack(get, k, draws) == Unreverse(Next(get, k, Reverse(draws)))
  {
    var n := |draws|;
    var front := draws[..n - 1];
    var rd := Reverse(draws);
    ReverseFront(draws);
    assert rd[0] == draws[n - 1] && rd[1..] == Reverse(front);
    assert Next(get, k, rd) == match get(draws[n - 1])
      case None => Stop(Reverse(front))
      case Some(x) => Prepend(x, Next(get, k - 1, Reverse(front)));
    match get(draws[n - 1])
    case None =>
      ReverseReverse(front);
    case Some(x) =>
      UnreversePrepend(x, Next(get, k - 1, Reverse(front)));
  }

  /** `DataLoaderIter::size_hint`: the sampler's remaining count floor-
      divided by the batch size, so a short remainder is not counted. The
      hint is exact: both bounds are the number of whole batches left. */
  function SizeHint<T>(it: LoaderIter<T>): (r: (nat, Option<nat>))
    requires it.batchSize > 0
    ensures r.1 == Some(r.0)
    ensures r.0 * it.batchSize <= |it.draws| < r.0 * it.batchSize + it.batchSize
  {
    DivFloor(|it.draws|, it.batchSize);
    (|it.draws| / it.batchSize, Some(|it.draws| / it.batchSize))
  }

  /** `DataLoaderIter::count`: the number of whole batches the remaining
      draws fill. */
  function Count<T>(it: LoaderIter<T>): (r: nat)
    requires it.batchSize > 0
    ensures r * it.batchSize <= |it.draws| < r * it.batchSize + it.batchSize
  {
    DivFloor(|it.draws|, it.batchSize);
    |it.draws| / it.batchSize
  }

  // ---------------------------------------------------------------------
  // Draining the generic iterator

  /** The batches a `for` loop over an iterator receives, and whether the
      loop ended with a panic rather than a `None`. */
  datatype Run<X> = Run(batches: seq<X>, panicked: bool)

  /** Calls `Next` until it stops yielding. */
  function Drain<T>(get: nat -> Option<T>, b: nat, draws: seq<nat>): Run<seq<T>>
    requires b > 0
    decreases |draws|
  {
    NextSpec(get, b, draws);
    match Next(get, b, draws)
    case Yield(batch, rest) =>
      var r := Drain(get, b, rest);
      Run([batch] + r.batches, r.panicked)
    case Stop(_) => Run([], false)
    case Panic => Run([], true)
  }

  /** `next` with the sampler's exhaustion reported as `None` (`?` in
      place of `unwrap`), the evident intent given that `size_hint` and
      `count` already drop the short remainder. */
  function NextOrEnd<T>(get: nat -> Option<T>, k: nat, draws: seq<nat>): (r: Pull<seq<T>>)
    ensures !r.Panic?
    ensures Next(get, k, draws).Panic? ==> r == Stop([])
    ensures !Next(get, k, draws).Panic? ==> r == Next(get, k, draws)
    decreases k
  {
    if k == 0 then Yield([], draws)
    else if draws == [] then Stop([])
    else
      match get(draws[0])
      case None => Stop(draws[1..])
      case Some(x) => Prepend(x, NextOrEnd(get, k - 1, draws[1..]))
  }

  /** Calls `NextOrEnd` until it stops yielding. */
  function DrainOrEnd<T>(get: nat -> Option<T>, b: nat, draws: seq<nat>): Run<seq<T>>
    requires b > 0
    decreases |draws|
  {
    NextSpec(get, b, draws);
    match NextOrEnd(get, b, draws)
    case Yield(batch, rest) =>
      var r := DrainOrEnd(get, b, rest);
      Run([batch] + r.batches, r.panicked)
    case Stop(_) => Run([], false)
    case Panic => Run([], true)
  }

  lemma HitsSlice<T>(get: nat -> Option<T>, s: seq<nat>, i: nat, j: nat)
    requires Hits(get, s) && i <= j <= |s|
    ensures Hits(get, s[i..j])
  {
    forall k | 0 <= k < j - i
      ensures get(s[i..j][k]).Some?
    {
      assert s[i..j][k] == s[i + k];
    }
  }

  /** As written, draining a loader whose every draw hits gives the
      `count()` full batches and then panics, however many draws there
      are: the call after the last full batch finds the sampler short. */
  lemma {:induction false} DrainPanics<T>(get: nat -> Option<T>, b: nat, draws: seq<nat>)
    requires b > 0 && Hits(get, draws)
    ensures Drain(get, b, draws).panicked
    ensures |Drain(get, b, draws).batches| == |draws| / b
    decreases |draws|
  {
    NextSpec(get, b, draws);
    if b <= |draws| {
      HitsSlice(get, draws, 0, b);
      HitsSlice(get, draws, b, |draws|);
      DrainPanics(get, b, draws[b..]);
      DivStep(|draws|, b);
    } else {
      DivSmall(|draws|, b);
    }
  }

  /** With exhaustion ending the iteration, draining gives exactly the
      `size_hint` number of batches and never panics. */
  lemma {:induction false} DrainOrEndMatchesCount<T>(get: nat -> Option<T>, b: nat, draws: seq<nat>)
    requires b > 0 && Hits(get, draws)
    ensures !DrainOrEnd(get, b, draws).panicked
    ensures |DrainOrEnd(get, b, draws).batches| == |draws| / b
    decreases |draws|
  {
    var n := |draws|;
    NextSpec(get, b, draws);
    var p := NextOrEnd(get, b, draws);
    if b <= n {
      HitsSlice(get, draws, 0, b);
      HitsSlice(get, draws, b, n);
      assert p == Next(get, b, draws);
      DrainOrEndMatchesCount(get, b, draws[b..]);
      DivStep(n, b);
    } else {
      DivSmall(n, b);
      assert p == Stop([]);
    }
  }

  /** The finding on a loader iterator: when every draw hits, draining it
      as written yields `count()` batches and then panics, while draining
      it with exhaustion as `None` yields exactly the `size_hint` batches. */
  lemma IterDrain<T>(it: LoaderIter<T>)
    requires it.batchSize > 0 && Hits(Getter(it.data), it.draws)
    ensures Drain(Getter(it.data), it.batchSize, it.draws).panicked
    ensures |Drain(Getter(it.data), it.batchSize, it.draws).batches| == Count(it)
    ensures !DrainOrEnd(Getter(it.data), it.batchSize, it.draws).panicked
    ensures |DrainOrEnd(Getter(it.data), it.batchSize, it.draws).batches| == SizeHint(it).0
  {
    DrainPanics(Getter(it.data), it.batchSize, it.draws);
    DrainOrEndMatchesCount(Getter(it.data), it.batchSize, it.draws);
  }

  lemma SplitPrefix(s: seq<nat>, i: nat, j: nat)
    requires i + j <= |s|
    ensures s[..i + j] == s[..i] + s[i..][..j]
  {
  }

  /** One step of that drain: a full batch of the first `b` draws, then
      the drain of the rest. */
  lemma DrainOrEndStep<T>(get: nat -> Option<T>, b: nat, draws: seq<nat>)
    requires 0 < b <= |draws| && Hits(get, draws)
    ensures DrainOrEnd(get, b, draws).batches == [Collect(get, draws[..b])] + DrainOrEnd(get, b, draws[b..]).batches
  {
    NextSpec(get, b, draws);
    HitsSlice(get, draws, 0, b);
  }

  /** The batches of that drain are the items of the draws in order, the
      short remainder dropped. */
  lemma DrainOrEndItems<T>(get: nat -> Option<T>, b: nat, draws: seq<nat>)
    requires b > 0 && Hits(get, draws)
    ensures |draws| / b * b <= |draws|
    ensures Concat(DrainOrEnd(get, b, draws).batches) == Collect(get, draws[..|draws| / b * b])
  {
    DrainOrEndMatchesCount(get, b, draws);
    DrainOrEndPrefix(get, b, draws);
  }

  /** The batches spell out the items of a prefix of whole batches. */
  lemma {:induction false} DrainOrEndPrefix<T>(get: nat -> Option<T>, b: nat, draws: seq<nat>)
    requires b > 0 && Hits(get, draws)
    ensures var bs := DrainOrEnd(get, b, draws).batches;
      |bs| * b <= |draws| && Concat(bs) == Collect(get, draws[..|bs| * b])
    decreases |draws|
  {
    if b <= |draws| {
      HitsSlice(get, draws, b, |draws|);
      DrainOrEndPrefix(get, b, draws[b..]);
      DrainOrEndPrefixStep(get, b, draws);
    } else {
      NextSpec(get, b, draws);
    }
  }

  lemma DrainOrEndPrefixStep<T>(get: nat -> Option<T>, b: nat, draws: seq<nat>)
    requires 0 < b <= |draws| && Hits(get, draws)
    requires var rest := draws[b..];
      var bs := DrainOrEnd(get, b, rest).batches;
      |bs| * b <= |rest| && Concat(bs) == Collect(get, rest[..|bs| * b])
    ensures var bs := DrainOrEnd(get, b, draws).batches;
      |bs| * b <= |draws| && Concat(bs) == Collect(get, draws[..|bs| * b])
  {
    DrainOrEndStep(get, b, draws);
    BatchPrefixStep(get, b, draws, DrainOrEnd(get, b, draws[b..]).batches);
  }

  /** A first batch of the first `b` draws in front of batches that
      collect a prefix of the later draws collects the joined prefix. */
  lemma BatchPrefixStep<T>(get: nat -> Option<T>, b: nat, draws: seq<nat>, bs: seq<seq<T>>)
    requires 0 < b <= |draws| && Hits(get, draws)
    requires |bs| * b <= |draws| - b
    requires Concat(bs) == Collect(get, draws[b..][..|bs| * b])
    ensures |[Collect(get, draws[..b])] + bs| * b <= |draws|
    ensures Concat([Collect(get, draws[..b])] + bs) == Collect(get, draws[..|[Collect(get, draws[..b])] + bs| * b])
  {
    var g := Collect(get, draws[..b]);
    var m := |bs| * b;
    ConcatCons(g, bs);
    MulSucc(|bs|, b);
    assert |[g] + bs| * b == b + m;
    SplitPrefix(draws, b, m);
    HitsSlice(get, draws, 0, b);
    CollectAppend(get, draws[..b], draws[b..][..m]);
  }


  // ---------------------------------------------------------------------
  // The array iterator

  /** An `ndarray` array: its shape and its elements, abstractly. */
  datatype Array = Array(shape: seq<nat>, elems: seq<real>)

  /** Arrays stacked along a new leading axis: shape `[|rows|] + rowShape`. */
  datatype Stack = Stack(rowShape: seq<nat>, rows: seq<seq<real>>)

  /** `insert_axis(Axis(0))` on the first item of a batch. */
  function Lift(a: Array): Stack
  {
    Stack(a.shape, [a.elems])
  }

  /** `append(Axis(0), …)` of one more lifted item: `None` unless the
      shapes agree past the new axis. */
  function Append(s: Stack, a: Array): (r: Option<Stack>)
    ensures r.Some? <==> a.shape == s.rowShape
    ensures r.Some? ==> r.value.rowShape == s.rowShape && r.value.rows == s.rows + [a.elems]
  {
    if a.shape == s.rowShape then Some(Stack(s.rowShape, s.rows + [a.elems])) else None
  }

  /** How many items one array batch stacks: the first item, then one more
      per step of `1..batch_size`. */
  function Rows(b: nat): nat
  {
    if b == 0 then 1 else b
  }

  /** The `for _ in 1..batch_size` loop: `k` more items, each drawn with
      `?`, fetched with `?` and appended with `.ok()?`. */
  function AppendRows(get: nat -> Option<(Array, Array)>, k: nat, s: Stack, t: Stack, draws: seq<nat>): Pull<(Stack, Stack)>
    decreases k
  {
    if k == 0 then Yield((s, t), draws)
    else if draws == [] then Stop([])
    else
      match get(draws[0])
      case None => Stop(draws[1..])
      case Some(item) =>
        match (Append(s, item.0), Append(t, item.1))
        case (Some(s'), Some(t')) => AppendRows(get, k - 1, s', t', draws[1..])
        case _ => Stop(draws[1..])
  }

  /** `ArrayDataLoaderIter::next`. */
  function ArrayNext(get: nat -> Option<(Array, Array)>, b: nat, draws: seq<nat>): Pull<(Stack, Stack)>
  {
    if draws == [] then Stop([])
    else
      match get(draws[0])
      case None => Stop(draws[1..])
      case Some(item) => AppendRows(get, Rows(b) - 1, Lift(item.0), Lift(item.1), draws[1..])
  }

  /** Draw `x` hits, and its sample and target have the given shapes. */
  predicate Matches(get: nat -> Option<(Array, Array)>, x: nat, sampleShape: seq<nat>, targetShape: seq<nat>)
  {
    get(x).Some? && get(x).value.0.shape == sampleShape && get(x).value.1.shape == targetShape
  }

  predicate AllMatch(get: nat -> Option<(Array, Array)>, draws: seq<nat>, sampleShape: seq<nat>, targetShape: seq<nat>)
  {
    forall j | 0 <= j < |draws| :: Matches(get, draws[j], sampleShape, targetShape)
  }

  lemma AllMatchCons(get: nat -> Option<(Array, Array)>, draws: seq<nat>, ss: seq<nat>, ts: seq<nat>)
    requires |draws| > 0
    ensures AllMatch(get, draws, ss, ts) <==> Matches(get, draws[0], ss, ts) && AllMatch(get, draws[1..], ss, ts)
  {
    if Matches(get, draws[0], ss, ts) && AllMatch(get, draws[1..], ss, ts) {
      forall j | 0 <= j < |draws|
        ensures Matches(get, draws[j], ss, ts)
      {
        if j > 0 {
          assert draws[j] == draws[1..][j - 1];
        }
      }
    }
  }

  /** The row an item's sample contributes. */
  function SampleRow(item: (Array, Array)): seq<real>
  {
    item.0.elems
  }

  /** The row an item's target contributes. */
  function TargetRow(item: (Array, Array)): seq<real>
  {
    item.1.elems
  }

  /** Pull `p` of the appending loop, if it yields, has taken the first
      `k` draws, all hitting, and holds `s` and `t` with their samples and
      targets appended as rows, in draw order. */
  predicate Stacked(get: nat -> Option<(Array, Array)>, k: nat, s: Stack, t: Stack, draws: seq<nat>, p: Pull<(Stack, Stack)>)
  {
    && Taken(get, k, draws, p)
    && SamplesStacked(get, k, s, draws, p)
    && TargetsStacked(get, k, t, draws, p)
  }

  predicate Taken<X>(get: nat -> Option<(Array, Array)>, k: nat, draws: seq<nat>, p: Pull<X>)
  {
    p.Yield? ==> k <= |draws| && Hits(get, draws[..k]) && p.rest == draws[k..]
  }

  predicate SamplesStacked<X>(get: nat -> Option<(Array, Array)>, k: nat, s: Stack, draws: seq<nat>, p: Pull<(Stack, X)>)
  {
    p.Yield? ==>
      && k <= |draws| && p.item.0.rowShape == s.rowShape
      && p.item.0.rows == s.rows + Map(SampleRow, Collect(get, draws[..k]))
  }

  predicate TargetsStacked<X>(get: nat -> Option<(Array, Array)>, k: nat, t: Stack, draws: seq<nat>, p: Pull<(X, Stack)>)
  {
    p.Yield? ==>
      && k <= |draws| && p.item.1.rowShape == t.rowShape
      && p.item.1.rows == t.rows + Map(TargetRow, Collect(get, draws[..k]))
  }

  /** The appending loop yields exactly when `k` more draws remain and
      all of them hit with the batch's shapes; it then has added their
      samples and targets as new rows, in draw order. */
  lemma AppendRowsYields(get: nat -> Option<(Array, Array)>, k: nat, s: Stack, t: Stack, draws: seq<nat>)
    ensures AppendRows(get, k, s, t, draws).Yield? <==> k <= |draws| && AllMatch(get, draws[..k], s.rowShape, t.rowShape)
    ensures AppendRows(get, k, s, t, draws).Yield? ==>
      var r := AppendRows(get, k, s, t, draws);
      && r.rest == draws[k..]
      && r.item.0.rowShape == s.rowShape && r.item.1.rowShape == t.rowShape
      && r.item.0.rows == s.rows + Map(SampleRow, Collect(get, draws[..k]))
      && r.item.1.rows == t.rows + Map(TargetRow, Collect(get, draws[..k]))
  {
    AppendRowsYieldsIff(get, k, s, t, draws);
    AppendRowsContent(get, k, s, t, draws);
  }

  lemma {:induction false} AppendRowsYieldsIff(get: nat -> Option<(Array, Array)>, k: nat, s: Stack, t: Stack, draws: seq<nat>)
    ensures AppendRows(get, k, s, t, draws).Yield? <==> k <= |draws| && AllMatch(get, draws[..k], s.rowShape, t.rowShape)
    decreases k
  {
    if k > 0 && draws != [] {
      var tail := draws[1..];
      if k <= |draws| {
        AllMatchCons(get, draws[..k], s.rowShape, t.rowShape);
        assert draws[..k][1..] == tail[..k - 1];
      }
      if Matches(get, draws[0], s.rowShape, t.rowShape) {
        var item := get(draws[0]).value;
        AppendRowsYieldsIff(get, k - 1, Append(s, item.0).value, Append(t, item.1).value, tail);
      }
    }
  }

  lemma {:induction false} AppendRowsContent(get: nat -> Option<(Array, Array)>, k: nat, s: Stack, t: Stack, draws: seq<nat>)
    ensures Stacked(get, k, s, t, draws, AppendRows(get, k, s, t, draws))
    decreases k
  {
    if k == 0 {
      assert draws[..0] == [];
    } else if draws != [] && Matches(get, draws[0], s.rowShape, t.rowShape) {
      var item := get(draws[0]).value;
      AppendRowsContent(get, k - 1, Append(s, item.0).value, Append(t, item.1).value, draws[1..]);
      AppendRowsContentStep(get, k, s, t, draws);
    }
  }

  /** One row of the appending loop, given the rest. */
  lemma AppendRowsContentStep(get: nat -> Option<(Array, Array)>, k: nat, s: Stack, t: Stack, draws: seq<nat>)
    requires k > 0 && draws != [] && Matches(get, draws[0], s.rowShape, t.rowShape)
    requires var item := get(draws[0]).value;
      var s', t' := Append(s, item.0).value, Append(t, item.1).value;
      Stacked(get, k - 1, s', t', draws[1..], AppendRows(get, k - 1, s', t', draws[1..]))
    ensures Stacked(get, k, s, t, draws, AppendRows(get, k, s, t, draws))
  {
    var item := get(draws[0]).value;
    var s', t' := Append(s, item.0).value, Append(t, item.1).value;
    var p := AppendRows(get, k - 1, s', t', draws[1..]);
    assert AppendRows(get, k, s, t, draws) == p;
    if p.Yield? {
      TakenStep(get, k, draws, p);
      CollectStep(get, k, draws);
      RowsStep(s.rows, SampleRow, item, Collect(get, draws[1..][..k - 1]));
      RowsStep(t.rows, TargetRow, item, Collect(get, draws[1..][..k - 1]));
    }
  }

  lemma TakenStep<X>(get: nat -> Option<(Array, Array)>, k: nat, draws: seq<nat>, p: Pull<X>)
    requires k > 0 && draws != [] && get(draws[0]).Some?
    requires Taken(get, k - 1, draws[1..], p)
    ensures Taken(get, k, draws, p)
  {
    if p.Yield? {
      assert draws[..k][1..] == draws[1..][..k - 1];
      HitsCons(get, draws[..k]);
      assert draws[1..][k - 1..] == draws[k..];
    }
  }

  /** Collecting the first `k` draws when the first one hits. */
  lemma CollectStep<T>(get: nat -> Option<T>, k: nat, draws: seq<nat>)
    requires 0 < k <= |draws| && get(draws[0]).Some?
    ensures Collect(get, draws[..k]) == [get(draws[0]).value] + Collect(get, draws[1..][..k - 1])
  {
    assert draws[..k][0] == draws[0] && draws[..k][1..] == draws[1..][..k - 1];
  }

  /** Appending a row, then the mapped rest. */
  lemma RowsStep<A>(rows: seq<seq<real>>, f: A -> seq<real>, x: A, xs: seq<A>)
    ensures (rows + [f(x)]) + Map(f, xs) == rows + Map(f, [x] + xs)
  {
    assert Map(f, [x] + xs) == [f(x)] + Map(f, xs);
  }

  /** Otherwise it returns `None`: never a panic, and either the sampler
      ran out with every draw fitting, or the draws up to the first one
      that misses or does not fit are consumed. */
  lemma {:induction false} AppendRowsStops(get: nat -> Option<(Array, Array)>, k: nat, s: Stack, t: Stack, draws: seq<nat>)
    ensures !AppendRows(get, k, s, t, draws).Panic?
    ensures AppendRows(get, k, s, t, draws).Stop? ==>
      var r := AppendRows(get, k, s, t, draws);
      var c := |draws| - |r.rest|;
      && |r.rest| <= |draws| && r.rest == draws[c..]
      && ((|draws| < k && r.rest == [] && AllMatch(get, draws, s.rowShape, t.rowShape))
         || (0 < c <= k && !Matches(get, draws[c - 1], s.rowShape, t.rowShape)
             && AllMatch(get, draws[..c - 1], s.rowShape, t.rowShape)))
    decreases k
  {
    if k > 0 && draws != [] {
      var tail := draws[1..];
      AllMatchCons(get, draws, s.rowShape, t.rowShape);
      if Matches(get, draws[0], s.rowShape, t.rowShape) {
        var item := get(draws[0]).value;
        var s', t' := Append(s, item.0).value, Append(t, item.1).value;
        AppendRowsStops(get, k - 1, s', t', tail);
        var r := AppendRows(get, k - 1, s', t', tail);
        if r.Stop? {
          var c := |tail| - |r.rest|;
          assert tail[c..] == draws[c + 1..];
          if 0 < c {
            assert draws[..c + 1][1..] == tail[..c];
            assert draws[..c][1..] == tail[..c - 1];
            AllMatchCons(get, draws[..c], s.rowShape, t.rowShape);
            assert tail[c - 1] == draws[c];
          }
        }
      }
    }
  }

  /** The shapes every item of an array batch must have: the first item's. */
  predicate Batchable(get: nat -> Option<(Array, Array)>, b: nat, draws: seq<nat>)
  {
    && Rows(b) <= |draws|
    && get(draws[0]).Some?
    && AllMatch(get, draws[..Rows(b)], get(draws[0]).value.0.shape, get(draws[0]).value.1.shape)
  }

  /** There is an array batch exactly when `Rows(b)` draws remain (one
      when `b` is 0), all hit and all have the first item's shapes;
      otherwise `next` returns `None`, never a panic. */
  lemma ArrayNextYields(get: nat -> Option<(Array, Array)>, b: nat, draws: seq<nat>)
    ensures !ArrayNext(get, b, draws).Panic?
    ensures ArrayNext(get, b, draws).Yield? <==> Batchable(get, b, draws)
  {
    if draws != [] && get(draws[0]).Some? {
      var item := get(draws[0]).value;
      AppendRowsNoPanic(get, Rows(b) - 1, Lift(item.0), Lift(item.1), draws[1..]);
      ArrayNextYieldsStep(get, b, draws);
    }
  }

  lemma ArrayNextYieldsStep(get: nat -> Option<(Array, Array)>, b: nat, draws: seq<nat>)
    requires draws != [] && get(draws[0]).Some?
    ensures ArrayNext(get, b, draws).Yield? <==> Batchable(get, b, draws)
  {
    var item := get(draws[0]).value;
    var k := Rows(b) - 1;
    var tail := draws[1..];
    AppendRowsYieldsIff(get, k, Lift(item.0), Lift(item.1), tail);
    if Rows(b) <= |draws| {
      AllMatchCons(get, draws[..Rows(b)], item.0.shape, item.1.shape);
      assert draws[..Rows(b)][1..] == tail[..k];
    }
  }

  lemma {:induction false} AppendRowsNoPanic(get: nat -> Option<(Array, Array)>, k: nat, s: Stack, t: Stack, draws: seq<nat>)
    ensures !AppendRows(get, k, s, t, draws).Panic?
    decreases k
  {
    if k > 0 && draws != [] && Matches(get, draws[0], s.rowShape, t.rowShape) {
      var item := get(draws[0]).value;
      AppendRowsNoPanic(get, k - 1, Append(s, item.0).value, Append(t, item.1).value, draws[1..]);
    }
  }

  /** An array batch stacks the items of those draws in draw order, with
      the first item's shapes, and leaves the draws after them. */
  lemma ArrayNextRows(get: nat -> Option<(Array, Array)>, b: nat, draws: seq<nat>)
    ensures ArrayNext(get, b, draws).Yield? ==>
      var r := ArrayNext(get, b, draws);
      && Rows(b) <= |draws| && r.rest == draws[Rows(b)..]
      && Hits(get, draws[..Rows(b)]) && get(draws[0]).Some?
      && r.item.0.rowShape == get(draws[0]).value.0.shape
      && r.item.1.rowShape == get(draws[0]).value.1.shape
      && r.item.0.rows == Map(SampleRow, Collect(get, draws[..Rows(b)]))
      && r.item.1.rows == Map(TargetRow, Collect(get, draws[..Rows(b)]))
  {
    var r := ArrayNext(get, b, draws);
    if r.Yield? {
      var item := get(draws[0]).value;
      var k := Rows(b) - 1;
      var tail := draws[1..];
      AppendRowsContent(get, k, Lift(item.0), Lift(item.1), tail);
      TakenStep(get, Rows(b), draws, r);
      CollectStep(get, Rows(b), draws);
      RowsStep([], SampleRow, item, Collect(get, tail[..k]));
      RowsStep([], TargetRow, item, Collect(get, tail[..k]));
    }
  }

  /** Both halves of the array batch contract. */
  lemma ArrayNextSpec(get: nat -> Option<(Array, Array)>, b: nat, draws: seq<nat>)
    ensures !ArrayNext(get, b, draws).Panic?
    ensures ArrayNext(get, b, draws).Yield? <==> Batchable(get, b, draws)
    ensures ArrayNext(get, b, draws).Yield? ==>
      var r := ArrayNext(get, b, draws);
      && Rows(b) <= |draws| && r.rest == draws[Rows(b)..]
      && Hits(get, draws[..Rows(b)])
      && r.item.0.rows == Map(SampleRow, Collect(get, draws[..Rows(b)]))
      && r.item.1.rows == Map(TargetRow, Collect(get, draws[..Rows(b)]))
  {
    ArrayNextYields(get, b, draws);
    ArrayNextRows(get, b, draws);
  }

  /** When an array batch is `None`, the draws consumed are those up to
      the first one that misses or does not fit, or all of them when the
      sampler ran out first. */
  lemma ArrayNextStops(get: nat -> Option<(Array, Array)>, b: nat, draws: seq<nat>)
    ensures ArrayNext(get, b, draws).Stop? ==>
      var r := ArrayNext(get, b, draws);
      var c := |draws| - |r.rest|;
      && |r.rest| <= |draws| && r.rest == draws[c..]
      && ((|draws| < Rows(b) && r.rest == [])
         || (0 < c <= Rows(b)
             && (get(draws[0]).None?
                 || !Matches(get, draws[c - 1], get(draws[0]).value.0.shape, get(draws[0]).value.1.shape))))
  {
    if draws != [] && get(draws[0]).Some? {
      var item := get(draws[0]).value;
      var tail := draws[1..];
      var k := Rows(b) - 1;
      AppendRowsStops(get, k, Lift(item.0), Lift(item.1), tail);
      var r := AppendRows(get, k, Lift(item.0), Lift(item.1), tail);
      if r.Stop? {
        var c := |tail| - |r.rest|;
        assert tail[c..] == draws[c + 1..];
        if 0 < c {
          assert tail[c - 1] == draws[c];
        }
      }
    }
  }

  /** `ArrayDataLoaderIter::next_back`: the code of `next` with every draw
      taken by `next_back`, that is, `next` over the draws read from the
      back. */
  function ArrayNextBack(get: nat -> Option<(Array, Array)>, b: nat, draws: seq<nat>): Pull<(Stack, Stack)>
  {
    Unreverse(ArrayNext(get, b, Reverse(draws)))
  }

  /** A `next_back` array batch stacks the items of the last `Rows(b)`
      draws, last draw first (the first `Rows(b)` of the draws reversed),
      and leaves the draws before them; a `None` consumes draws only from
      the back; it never panics. There is a batch exactly when the draws
      read from the back are batchable. */
  lemma ArrayNextBackSpec(get: nat -> Option<(Array, Array)>, b: nat, draws: seq<nat>)
    ensures !ArrayNextBack(get, b, draws).Panic?
    ensures ArrayNextBack(get, b, draws).Yield? <==> Batchable(get, b, Reverse(draws))
    ensures ArrayNextBack(get, b, draws).Yield? ==>
      var r := ArrayNextBack(get, b, draws);
      && Rows(b) <= |draws| && r.rest == draws[..|draws| - Rows(b)]
      && Hits(get, Reverse(draws)[..Rows(b)])
      && r.item.0.rows == Map(SampleRow, Collect(get, Reverse(draws)[..Rows(b)]))
      && r.item.1.rows == Map(TargetRow, Collect(get, Reverse(draws)[..Rows(b)]))
    ensures ArrayNextBack(get, b, draws).Stop? ==>
      var r := ArrayNextBack(get, b, draws);
      |r.rest| <= |draws| && r.rest == draws[..|r.rest|]
  {
    ArrayNextSpec(get, b, Reverse(draws));
    ArrayNextBackRest(get, b, draws);
  }

  /** What a `next_back` array pull leaves is a front part of the draws. */
  lemma ArrayNextBackRest(get: nat -> Option<(Array, Array)>, b: nat, draws: seq<nat>)
    ensures ArrayNextBack(get, b, draws).Yield? ==>
      Rows(b) <= |draws| && ArrayNextBack(get, b, draws).rest == draws[..|draws| - Rows(b)]
    ensures ArrayNextBack(get, b, draws).Stop? ==>
      var r := ArrayNextBack(get, b, draws);
      |r.rest| <= |draws| && r.rest == draws[..|r.rest|]
  {
    var rd := Reverse(draws);
    var p := ArrayNext(get, b, rd);
    if p.Yield? {
      ArrayNextRows(get, b, rd);
      ReverseSuffix(draws, Rows(b));
    } else if p.Stop? {
      ArrayNextStops(get, b, rd);
      ReverseSuffix(draws, |rd| - |p.rest|);
    }
  }

  /** Reversing the draws after the first `i` of the reversed draws gives
      the draws before the last `i`. */
  lemma ReverseSuffix(s: seq<nat>, i: nat)
    requires i <= |s|
    ensures Reverse(Reverse(s)[i..]) == s[..|s| - i]
  {
    var t := Reverse(s)[i..];
    assert |Reverse(t)| == |s| - i;
    forall k | 0 <= k < |s| - i
      ensures Reverse(t)[k] == s[k]
    {
      assert Reverse(t)[k] == t[|t| - 1 - k];
    }
  }
}
