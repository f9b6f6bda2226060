/** The `Dataset` trait and its combinators (`Basic`, `Chain`, `Subset`,
    `Transform`, `Shuffler`) as one tree of wrappers, with the trait's
    `get`, `len`, `is_empty` and `IterableDataset::iter` as total functions
    over the tree. The older copies of `Chain`, `Subset` and `Transform`
    under `src/data/` have the same code and are covered by the same
    definitions. */
module Datasets {
  import opened Base

  /** A dataset is a backing sequence or a wrapper around other datasets.
      `Subset` and `Shuffler` both remap positions through `indices`; they
      differ in what their constructors demand of those indices. */
  datatype Dataset<!T> =
    | Basic(data: seq<T>)
    | Chain(a: Dataset<T>, b: Dataset<T>)
    | Subset(inner: Dataset<T>, indices: seq<nat>)
    | Transform(inner: Dataset<T>, f: T -> T)
    | Shuffler(inner: Dataset<T>, indices: seq<nat>)

  /** `Dataset::len`. */
  function Len<T>(d: Dataset<T>): nat
  {
    match d
    case Basic(data) => |data|
    case Chain(a, b) => Len(a) + Len(b)
    case Subset(_, indices) => |indices|
    case Transform(inner, _) => Len(inner)
    case Shuffler(_, indices) => |indices|
  }

  /** `Dataset::get`: `None` rather than a failure outside the dataset. */
  function Get<T>(d: Dataset<T>, i: nat): Option<T>
  {
    match d
    case Basic(data) => if i < |data| then Some(data[i]) else None
    case Chain(a, b) => if i < Len(a) then Get(a, i) else Get(b, i - Len(a))
    case Subset(inner, indices) => if i < |indices| then Get(inner, indices[i]) else None
    case Transform(inner, f) =>
      (match Get(inner, i)
       case Some(x) => Some(f(x))
       case None => None)
    case Shuffler(inner, indices) => if i < |indices| then Get(inner, indices[i]) else None
  }

  /** `Dataset::is_empty`, as each combinator overrides it. */
  predicate IsEmpty<T>(d: Dataset<T>)
  {
    match d
    case Basic(data) => |data| == 0
    case Chain(a, b) => IsEmpty(a) && IsEmpty(b)
    case Subset(_, indices) => |indices| == 0
    case Transform(inner, _) => IsEmpty(inner)
    case Shuffler(_, indices) => |indices| == 0
  }

  /** The items an index iterator (`SubsetIter`, `ShufflerIter`) yields when
      collected: one `get` per index, in order, ending at the first `None`. */
  function Gather<T>(inner: Dataset<T>, indices: seq<nat>): seq<T>
  {
    if indices == [] then []
    else match Get(inner, indices[0])
      case None => []
      case Some(x) => [x] + Gather(inner, indices[1..])
  }

  /** The same iterator driven by `next_back`: from the last index backwards. */
  function GatherBack<T>(inner: Dataset<T>, indices: seq<nat>): seq<T>
  {
    if indices == [] then []
    else match Get(inner, indices[|indices| - 1])
      case None => []
      case Some(x) => [x] + GatherBack(inner, indices[..|indices| - 1])
  }

  /** `IterableDataset::iter` collected into a sequence. */
  function Iter<T>(d: Dataset<T>): seq<T>
  {
    match d
    case Basic(data) => data
    case Chain(a, b) => Iter(a) + Iter(b)
    case Subset(inner, indices) => Gather(inner, indices)
    case Transform(inner, f) => Map(f, Iter(inner))
    case Shuffler(inner, indices) => Gather(inner, indices)
  }

  predicate InBounds(indices: seq<nat>, n: nat)
  {
    forall k | 0 <= k < |indices| :: indices[k] < n
  }

  /** What the constructors guarantee: `Subset::new` rejected every index
      at or past the wrapped length, and a `Shuffler` holds a permutation of
      the wrapped dataset's positions. */
  predicate WellFormed<T>(d: Dataset<T>)
  {
    match d
    case Basic(_) => true
    case Chain(a, b) => WellFormed(a) && WellFormed(b)
    case Subset(inner, indices) => WellFormed(inner) && InBounds(indices, Len(inner))
    case Transform(inner, _) => WellFormed(inner)
    case Shuffler(inner, indices) => WellFormed(inner) && IsPermutation(indices, Len(inner))
  }

  // ---------------------------------------------------------------------
  // Constructors

  /** `Basic::from_iter_with_targets`: pairs positionally, truncating to the
      shorter input (`zip`). */
  function FromIterWithTargets<A, B>(input: seq<A>, targets: seq<B>): (r: Dataset<(A, B)>)
    ensures Len(r) == Min(|input|, |targets|)
    ensures forall i: nat | i < Len(r) :: Get(r, i) == Some((input[i], targets[i]))
    ensures forall i: nat | i >= Len(r) :: Get(r, i) == None
  {
    Basic(Zip(input, targets))
  }

  function Zip<A, B>(xs: seq<A>, ys: seq<B>): (r: seq<(A, B)>)
    ensures |r| == Min(|xs|, |ys|)
    ensures forall k | 0 <= k < |r| :: r[k] == (xs[k], ys[k])
  {
    if xs == [] || ys == [] then [] else [(xs[0], ys[0])] + Zip(xs[1..], ys[1..])
  }

  /** `Basic::new_with_targets`: the assertion on equal lengths becomes `None`. */
  function NewWithTargets<A, B>(input: seq<A>, targets: seq<B>): (r: Option<Dataset<(A, B)>>)
    ensures r.Some? <==> |input| == |targets|
    ensures r.Some? ==> Len(r.value) == |input|
    ensures r.Some? ==> forall i: nat | i < |input| :: Get(r.value, i) == Some((input[i], targets[i]))
  {
    if |input| != |targets| then None else Some(FromIterWithTargets(input, targets))
  }

  /** `Dataset::subset` / `Subset::new`: the panic on an out-of-bounds index
      becomes `None`. */
  function MakeSubset<T>(d: Dataset<T>, indices: seq<nat>): (r: Option<Dataset<T>>)
    ensures r.Some? <==> forall k | 0 <= k < |indices| :: indices[k] < Len(d)
    ensures r.Some? ==> r.value == Subset(d, indices) && Len(r.value) == |indices|
    ensures r.Some? && WellFormed(d) ==> WellFormed(r.value)
  {
    if exists k | 0 <= k < |indices| :: indices[k] >= Len(d) then None
    else Some(Subset(d, indices))
  }

  /** `Shuffler::new`: `order` is the shuffled `0..len` the random generator
      would have produced. */
  function MakeShuffler<T>(d: Dataset<T>, order: seq<nat>): (r: Dataset<T>)
    requires IsPermutation(order, Len(d))
    ensures Len(r) == Len(d)
    ensures WellFormed(d) ==> WellFormed(r)
  {
    PermutationFacts(order, Len(d));
    Shuffler(d, order)
  }

  /** `Shuffler::shuffle`: the index vector is rearranged in place; `order`
      is the rearrangement the random generator would have produced. */
  function Reshuffle<T>(s: Dataset<T>, order: seq<nat>): (r: Dataset<T>)
    requires s.Shuffler?
    requires multiset(order) == multiset(s.indices)
    ensures r.Shuffler? && r.inner == s.inner
    ensures Len(r) == Len(s)
    ensures WellFormed(s) ==> WellFormed(r)
  {
    assert |order| == |multiset(order)| == |multiset(s.indices)| == |s.indices|;
    Shuffler(s.inner, order)
  }

  // ---------------------------------------------------------------------
  // The dataset contract

  /** The trait's invariant: `get(i)` is `Some` exactly below `len()`, for
      every combination of combinators their constructors accept. */
  lemma {:induction false} GetDefinedBelowLen<T>(d: Dataset<T>, i: nat)
    requires WellFormed(d)
    ensures Get(d, i).Some? <==> i < Len(d)
    decreases d
  {
    match d
    case Basic(_) =>
    case Chain(a, b) =>
      if i < Len(a) {
        GetDefinedBelowLen(a, i);
      } else {
        GetDefinedBelowLen(b, i - Len(a));
      }
    case Subset(inner, indices) =>
      if i < |indices| {
        GetDefinedBelowLen(inner, indices[i]);
      }
    case Transform(inner, _) =>
      GetDefinedBelowLen(inner, i);
    case Shuffler(inner, indices) =>
      if i < |indices| {
        PermutationFacts(indices, Len(inner));
        GetDefinedBelowLen(inner, indices[i]);
      }
  }

  /** Every combinator's `is_empty` override agrees with the trait default
      `len() == 0`. */
  lemma {:induction false} IsEmptyIffLenZero<T>(d: Dataset<T>)
    ensures IsEmpty(d) <==> Len(d) == 0
  {
    match d
    case Basic(_) =>
    case Chain(a, b) =>
      IsEmptyIffLenZero(a);
      IsEmptyIffLenZero(b);
    case Subset(_, _) =>
    case Transform(inner, _) =>
      IsEmptyIffLenZero(inner);
    case Shuffler(_, _) =>
  }

  /** `get` on `d`, as a function value. */
  function Getter<T>(d: Dataset<T>): nat -> Option<T>
  {
    (i: nat) => Get(d, i)
  }

  /** Gathering is collecting `get` over the indices, forwards and
      backwards. */
  lemma {:induction false} GatherIsCollect<T>(inner: Dataset<T>, indices: seq<nat>)
    ensures Gather(inner, indices) == Collect(Getter(inner), indices)
    ensures GatherBack(inner, indices) == CollectBack(Getter(inner), indices)
  {
    if indices != [] {
      GatherIsCollect(inner, indices[1..]);
      GatherIsCollect(inner, indices[..|indices| - 1]);
    }
  }

  /** Collecting an index iterator whose every index hits yields one item per
      index, in index order. */
  lemma GatherComplete<T>(inner: Dataset<T>, indices: seq<nat>)
    requires forall k | 0 <= k < |indices| :: Get(inner, indices[k]).Some?
    ensures |Gather(inner, indices)| == |indices|
    ensures forall k | 0 <= k < |indices| :: Get(inner, indices[k]) == Some(Gather(inner, indices)[k])
  {
    GatherIsCollect(inner, indices);
    CollectComplete(Getter(inner), indices);
  }

  /** Iteration agrees with `get`: for every well-formed dataset `iter()`
      yields exactly `len()` items and the `i`-th is `get(i)`. */
  lemma {:induction false} IterAgreesWithGet<T>(d: Dataset<T>)
    requires WellFormed(d)
    ensures |Iter(d)| == Len(d)
    ensures forall i: nat | i < Len(d) :: Get(d, i) == Some(Iter(d)[i])
    decreases d
  {
    match d
    case Basic(_) =>
    case Chain(a, b) =>
      IterAgreesWithGet(a);
      IterAgreesWithGet(b);
    case Subset(inner, indices) =>
      forall k | 0 <= k < |indices|
        ensures Get(inner, indices[k]).Some?
      {
        GetDefinedBelowLen(inner, indices[k]);
      }
      GatherComplete(inner, indices);
    case Transform(inner, f) =>
      IterAgreesWithGet(inner);
    case Shuffler(inner, indices) =>
      PermutationFacts(indices, Len(inner));
      forall k | 0 <= k < |indices|
        ensures Get(inner, indices[k]).Some?
      {
        GetDefinedBelowLen(inner, indices[k]);
      }
      GatherComplete(inner, indices);
  }

  /** `Chain::get` routes below `a.len()` to `a` and above it to `b`, and the
      chain is empty only when both parts are. */
  lemma ChainContract<T>(a: Dataset<T>, b: Dataset<T>, i: nat)
    ensures Len(Chain(a, b)) == Len(a) + Len(b)
    ensures i < Len(a) ==> Get(Chain(a, b), i) == Get(a, i)
    ensures Get(Chain(a, b), Len(a) + i) == Get(b, i)
    ensures IsEmpty(Chain(a, b)) <==> Len(a) == 0 && Len(b) == 0
    ensures Iter(Chain(a, b)) == Iter(a) + Iter(b)
  {
    IsEmptyIffLenZero(a);
    IsEmptyIffLenZero(b);
  }

  /** Over a dataset its constructors accept, a `Transform` is again
      well-formed, is defined exactly below the inner length, and its
      iteration yields `f` of each inner `get`, in order. */
  lemma TransformContract<T>(inner: Dataset<T>, f: T -> T)
    ensures WellFormed(inner) ==> WellFormed(Transform(inner, f))
    ensures WellFormed(inner) ==> |Iter(Transform(inner, f))| == Len(inner)
    ensures WellFormed(inner) ==> forall i: nat | i < Len(inner) ::
      Get(inner, i).Some? && Iter(Transform(inner, f))[i] == f(Get(inner, i).value)
    ensures WellFormed(inner) ==> forall i: nat | i >= Len(inner) :: Get(Transform(inner, f), i) == None
    ensures IsEmpty(Transform(inner, f)) <==> Len(inner) == 0
  {
    IsEmptyIffLenZero(inner);
    if WellFormed(inner) {
      var t := Transform(inner, f);
      IterAgreesWithGet(inner);
      IterAgreesWithGet(t);
      forall i: nat | i >= Len(inner)
        ensures Get(t, i) == None
      {
        GetDefinedBelowLen(inner, i);
      }
    }
  }

  /** Over indices `Subset::new` accepts, a `Subset` is well-formed and its
      iteration yields the inner item at each index, in index order and
      with repeated indices repeated; it is empty exactly without indices. */
  lemma SubsetContract<T>(inner: Dataset<T>, indices: seq<nat>)
    ensures WellFormed(inner) && InBounds(indices, Len(inner)) ==>
      WellFormed(Subset(inner, indices)) && |Iter(Subset(inner, indices))| == |indices|
    ensures WellFormed(inner) && InBounds(indices, Len(inner)) ==>
      forall k | 0 <= k < |indices| :: Get(inner, indices[k]) == Some(Iter(Subset(inner, indices))[k])
    ensures IsEmpty(Subset(inner, indices)) <==> Len(Subset(inner, indices)) == 0
  {
    if WellFormed(inner) && InBounds(indices, Len(inner)) {
      IterAgreesWithGet(Subset(inner, indices));
    }
  }

  /** The whole of a `Shuffler`: after construction or any number of
      reshuffles it yields every item of the wrapped dataset exactly once. */
  lemma ShufflerIterIsPermutation<T>(d: Dataset<T>)
    requires d.Shuffler? && WellFormed(d)
    ensures multiset(Iter(d)) == multiset(Iter(d.inner))
  {
    var inner, indices := d.inner, d.indices;
    IterAgreesWithGet(inner);
    IterAgreesWithGet(d);
    PermutationFacts(indices, Len(inner));
    var items := Iter(inner);
    if |items| > 0 {
      var pick := (j: nat) => if j < |items| then items[j] else items[0];
      assert Iter(d) == Map(pick, indices) by {
        forall k | 0 <= k < |indices|
          ensures Iter(d)[k] == pick(indices[k])
        {
          assert Get(d, k) == Get(inner, indices[k]);
        }
      }
      assert items == Map(pick, Upto(Len(inner)));
      MapPreservesMultiset(pick, indices, Upto(Len(inner)));
    }
  }

  /** `next_back` on an index iterator whose indices all hit walks the
      same items in reverse. */
  lemma GatherBackIsReverse<T>(inner: Dataset<T>, indices: seq<nat>)
    requires forall k | 0 <= k < |indices| :: Get(inner, indices[k]).Some?
    ensures GatherBack(inner, indices) == Reverse(Gather(inner, indices))
  {
    GatherIsCollect(inner, indices);
    CollectBackIsReverse(Getter(inner), indices);
  }

  // ---------------------------------------------------------------------
  // Index iterators step by step

  /** A `SubsetIter` / `ShufflerIter`: the dataset and the indices not yet
      walked. */
  datatype IndexIter<!T> = IndexIter(data: Dataset<T>, index: seq<nat>)

  /** `next`: consumes one index and returns its `get`, `None` once the
      indices run out. */
  function IndexNext<T>(it: IndexIter<T>): (Option<T>, IndexIter<T>)
  {
    if it.index == [] then (None, it)
    else (Get(it.data, it.index[0]), IndexIter(it.data, it.index[1..]))
  }

  /** `size_hint`: the remaining index count, both bounds. */
  function IndexSizeHint<T>(it: IndexIter<T>): (nat, Option<nat>)
  {
    (|it.index|, Some(|it.index|))
  }

  /** With indices the constructor accepted, `size_hint` is exact: each
      `next` yields an item and lowers it by one until it reaches zero,
      where `next` yields `None`. */
  lemma IndexIterExact<T>(it: IndexIter<T>)
    requires WellFormed(it.data) && InBounds(it.index, Len(it.data))
    ensures IndexSizeHint(it).0 == 0 ==> IndexNext(it).0 == None
    ensures IndexSizeHint(it).0 > 0 ==>
      && IndexNext(it).0.Some?
      && IndexSizeHint(IndexNext(it).1).0 == IndexSizeHint(it).0 - 1
      && InBounds(IndexNext(it).1.index, Len(it.data))
  {
    if it.index != [] {
      GetDefinedBelowLen(it.data, it.index[0]);
    }
  }
}
