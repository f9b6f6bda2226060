/** The `Sampler` trait: `SequentialSampler` and `RandomSampler`, and the
    `RandomSamplerIter` the latter hands out. The random generator is not
    modelled; what it would contribute to one `iter()` call (a stream of
    uniform draws, or a sequence of shuffled `0..num_samples`) is a
    parameter, so every property holds for every outcome of the generator. */
module Samplers {
  import opened Base

  /** `size` is the number of indices one `iter()` produces; `numSamples` is
      the universe `0..num_samples` a `RandomSampler` draws from. */
  datatype Sampler =
    | Sequential(size: nat)
    | Random(size: nat, replacement: bool, numSamples: nat)

  /** `Sampler::len`: both samplers report `size`. */
  function Len(s: Sampler): nat { s.size }

  /** The trait default `Sampler::is_empty`. */
  predicate IsEmpty(s: Sampler) { Len(s) == 0 }

  /** What the random generator contributes to one `iter()` call: the
      stream `Uniform::new(0, num_samples).sample_iter(rng)` and the
      successive results of shuffling `0..num_samples`. */
  datatype Rng = Rng(uniform: seq<nat>, perms: seq<seq<nat>>)

  /** How many times the no-replacement loop shuffles `0..n` before it has
      `size` indices. */
  function Rounds(size: nat, n: nat): (r: nat)
    requires n > 0
    ensures r >= 1
    decreases size
  {
    if size <= n then 1 else 1 + Rounds(size - n, n)
  }

  /** How many indices the last shuffle contributes. */
  function LastTake(size: nat, n: nat): nat
    requires n > 0
    decreases size
  {
    if size <= n then size else LastTake(size - n, n)
  }

  /** `rng` behaves as the generator does: uniform draws below `n` (as many
      as `take(size)` asks for), shuffles that are permutations of `0..n`
      (as many as the loop performs). */
  predicate Supplies(rng: Rng, size: nat, replacement: bool, n: nat)
  {
    if replacement then
      n > 0 ==> |rng.uniform| >= size && forall k | 0 <= k < |rng.uniform| :: rng.uniform[k] < n
    else
      n > 0 ==> |rng.perms| >= Rounds(size, n) && forall k | 0 <= k < |rng.perms| :: IsPermutation(rng.perms[k], n)
  }

  /** The index vector the no-replacement branch builds: whole shuffles while
      more than `n` indices are missing, then the first `remaining` of one
      more shuffle. */
  function WithoutReplacement(size: nat, n: nat, perms: seq<seq<nat>>): seq<nat>
    requires n > 0 && |perms| >= Rounds(size, n)
    requires forall k | 0 <= k < |perms| :: IsPermutation(perms[k], n)
    decreases size
  {
    PermutationFacts(perms[0], n);
    if size <= n then perms[0][..size]
    else perms[0] + WithoutReplacement(size - n, n, perms[1..])
  }

  /** The `loop` of `RandomSamplerIter::new` for `replacement == false`, as
      written: shuffle, compare `remaining` with `n`, append. */
  method SampleWithoutReplacement(size: nat, n: nat, perms: seq<seq<nat>>) returns (indices: seq<nat>)
    requires n > 0 && |perms| >= Rounds(size, n)
    requires forall k | 0 <= k < |perms| :: IsPermutation(perms[k], n)
    ensures indices == WithoutReplacement(size, n, perms)
  {
    indices := [];
    var round := 0;
    while true
      invariant |indices| <= size
      invariant round < |perms| && |perms[round..]| >= Rounds(size - |indices|, n)
      invariant indices + WithoutReplacement(size - |indices|, n, perms[round..]) == WithoutReplacement(size, n, perms)
      decreases size - |indices|
    {
      var shuffled := perms[round];
      PermutationFacts(shuffled, n);
      var remaining := size - |indices|;
      if remaining <= n {
        indices := indices + shuffled[..remaining];
        break;
      }
      assert perms[round..][1..] == perms[round + 1..];
      indices := indices + shuffled;
      round := round + 1;
    }
  }

  /** `RandomSamplerIter`: the index vector, consumed by `pop` from its end. */
  datatype RandomIter = RandomIter(indices: seq<nat>)

  /** The outcome of starting an iteration: the iterator, or the two ways
      `RandomSamplerIter::new` never returns one — `Uniform::new(0, 0)`
      panics, and the no-replacement loop never ends when asked for indices
      from an empty universe. */
  datatype Started<I> = Started(iter: I) | EmptyRange | Diverges

  /** `RandomSamplerIter::new`. */
  function NewRandomIter(size: nat, replacement: bool, n: nat, rng: Rng): Started<RandomIter>
    requires Supplies(rng, size, replacement, n)
  {
    if replacement then
      (if n == 0 then EmptyRange else Started(RandomIter(rng.uniform[..size])))
    else if n == 0 then
      (if size == 0 then Started(RandomIter([])) else Diverges)
    else Started(RandomIter(WithoutReplacement(size, n, rng.perms)))
  }

  /** `RandomSamplerIter::next`: `pop`. */
  function RandomNext(it: RandomIter): (Option<nat>, RandomIter)
  {
    if it.indices == [] then (None, it)
    else (Some(it.indices[|it.indices| - 1]), RandomIter(it.indices[..|it.indices| - 1]))
  }

  /** `RandomSamplerIter::size_hint`. */
  function RandomSizeHint(it: RandomIter): (nat, Option<nat>)
  {
    (|it.indices|, Some(|it.indices|))
  }

  /** Everything `next` yields until it returns `None`. */
  function Drain(it: RandomIter): seq<nat>
    decreases |it.indices|
  {
    match RandomNext(it)
    case (None, _) => []
    case (Some(x), rest) => [x] + Drain(rest)
  }

  /** `Sampler::iter`, as the order in which the indices come out. */
  function Iter(s: Sampler, rng: Rng): Started<seq<nat>>
    requires s.Random? ==> Supplies(rng, s.size, s.replacement, s.numSamples)
  {
    match s
    case Sequential(size) => Started(Upto(size))
    case Random(size, replacement, n) =>
      match NewRandomIter(size, replacement, n, rng)
      case Started(it) => Started(Drain(it))
      case EmptyRange => EmptyRange
      case Diverges => Diverges
  }

  /** The universe the indices are drawn from. */
  function Universe(s: Sampler): nat
  {
    match s
    case Sequential(size) => size
    case Random(_, _, n) => n
  }

  // ---------------------------------------------------------------------
  // Properties

  /** The iterator pops from the back: it yields the vector reversed, and
      `size_hint` is exactly the number of indices still to come. */
  lemma {:induction false} DrainIsReverse(it: RandomIter)
    ensures Drain(it) == Reverse(it.indices)
    ensures |Drain(it)| == RandomSizeHint(it).0
    decreases |it.indices|
  {
    if it.indices != [] {
      var n := |it.indices|;
      DrainIsReverse(RandomIter(it.indices[..n - 1]));
      assert Reverse(it.indices) == [it.indices[n - 1]] + Reverse(it.indices[..n - 1]);
    }
  }

  /** The no-replacement vector is whole shuffles followed by a prefix of one
      more shuffle, and has exactly `size` indices. */
  lemma WithoutReplacementStructure(size: nat, n: nat, perms: seq<seq<nat>>)
    requires n > 0 && |perms| >= Rounds(size, n)
    requires forall k | 0 <= k < |perms| :: IsPermutation(perms[k], n)
    ensures LastTake(size, n) <= n == |perms[Rounds(size, n) - 1]|
    ensures WithoutReplacement(size, n, perms)
      == Concat(perms[..Rounds(size, n) - 1]) + perms[Rounds(size, n) - 1][..LastTake(size, n)]
    ensures |WithoutReplacement(size, n, perms)| == size
  {
    WithoutReplacementShape(size, n, perms);
    WithoutReplacementLength(size, n, perms);
  }

  lemma {:induction false} LastTakeBound(size: nat, n: nat)
    requires n > 0
    ensures LastTake(size, n) <= n
    decreases size
  {
    if size > n {
      LastTakeBound(size - n, n);
    }
  }

  /** The no-replacement vector holds exactly `size` indices. */
  lemma {:induction false} WithoutReplacementLength(size: nat, n: nat, perms: seq<seq<nat>>)
    requires n > 0 && |perms| >= Rounds(size, n)
    requires forall k | 0 <= k < |perms| :: IsPermutation(perms[k], n)
    ensures |WithoutReplacement(size, n, perms)| == size
    decreases size
  {
    PermutationFacts(perms[0], n);
    if size > n {
      WithoutReplacementLength(size - n, n, perms[1..]);
    }
  }

  /** The no-replacement vector is the whole shuffles, then a prefix of
      one more. */
  lemma {:induction false} WithoutReplacementShape(size: nat, n: nat, perms: seq<seq<nat>>)
    requires n > 0 && |perms| >= Rounds(size, n)
    requires forall k | 0 <= k < |perms| :: IsPermutation(perms[k], n)
    ensures LastTake(size, n) <= n == |perms[Rounds(size, n) - 1]|
    ensures WithoutReplacement(size, n, perms)
      == Concat(perms[..Rounds(size, n) - 1]) + perms[Rounds(size, n) - 1][..LastTake(size, n)]
    decreases size
  {
    LastTakeBound(size, n);
    PermutationFacts(perms[Rounds(size, n) - 1], n);
    if size <= n {
      PermutationFacts(perms[0], n);
    } else {
      WithoutReplacementShape(size - n, n, perms[1..]);
      WithoutReplacementShapeStep(size, n, perms);
    }
  }

  /** One shuffle of that shape, given it for the shuffles after the
      first. */
  lemma WithoutReplacementShapeStep(size: nat, n: nat, perms: seq<seq<nat>>)
    requires 0 < n < size && |perms| >= Rounds(size, n)
    requires forall k | 0 <= k < |perms| :: IsPermutation(perms[k], n)
    requires forall k | 0 <= k < |perms| - 1 :: IsPermutation(perms[1..][k], n)
    requires LastTake(size, n) <= |perms[Rounds(size, n) - 1]|
    requires LastTake(size - n, n) <= |perms[1..][Rounds(size - n, n) - 1]|
    requires WithoutReplacement(size - n, n, perms[1..])
      == Concat(perms[1..][..Rounds(size - n, n) - 1]) + perms[1..][Rounds(size - n, n) - 1][..LastTake(size - n, n)]
    ensures WithoutReplacement(size, n, perms)
      == Concat(perms[..Rounds(size, n) - 1]) + perms[Rounds(size, n) - 1][..LastTake(size, n)]
  {
    var r := Rounds(size, n);
    var last := perms[r - 1][..LastTake(size, n)];
    var rest := WithoutReplacement(size - n, n, perms[1..]);
    assert rest == Concat(perms[1..][..r - 2]) + last by {
      assert perms[1..][r - 2] == perms[r - 1];
    }
    assert WithoutReplacement(size, n, perms) == perms[0] + rest;
    ConcatFirst(perms, r - 1, last);
  }

  /** Putting the first sequence in front of the concatenation of the next
      ones. */
  lemma ConcatFirst<T>(ss: seq<seq<T>>, m: nat, last: seq<T>)
    requires 1 <= m <= |ss|
    ensures ss[0] + (Concat(ss[1..][..m - 1]) + last) == Concat(ss[..m]) + last
  {
    assert ss[..m][1..] == ss[1..][..m - 1];
  }

  /** Every index comes out below `n`, and each index of `0..n` is drawn as
      often as the number of shuffles or one fewer: per-index counts differ
      by at most one. */
  lemma {:induction false} WithoutReplacementCounts(size: nat, n: nat, perms: seq<seq<nat>>, j: int)
    requires n > 0 && |perms| >= Rounds(size, n)
    requires forall k | 0 <= k < |perms| :: IsPermutation(perms[k], n)
    ensures 0 <= j < n ==> Rounds(size, n) - 1 <= multiset(WithoutReplacement(size, n, perms))[j] <= Rounds(size, n)
    ensures !(0 <= j < n) ==> multiset(WithoutReplacement(size, n, perms))[j] == 0
    decreases size
  {
    var p := perms[0];
    PermutationFacts(p, n);
    UptoCount(n, j);
    if size <= n {
      assert p == p[..size] + p[size..];
      assert multiset(p) == multiset(p[..size]) + multiset(p[size..]);
    } else {
      WithoutReplacementCounts(size - n, n, perms[1..], j);
      assert multiset(WithoutReplacement(size, n, perms))
        == multiset(p) + multiset(WithoutReplacement(size - n, n, perms[1..]));
    }
  }

  /** When `size` is `k` whole universes, every index of `0..n` is drawn
      exactly `k` times. */
  lemma {:induction false} WithoutReplacementExactCounts(k: nat, n: nat, perms: seq<seq<nat>>, j: nat)
    requires n > 0 && k >= 1 && |perms| >= Rounds(k * n, n)
    requires forall i | 0 <= i < |perms| :: IsPermutation(perms[i], n)
    requires j < n
    ensures multiset(WithoutReplacement(k * n, n, perms))[j] == k
    decreases k
  {
    var p := perms[0];
    PermutationFacts(p, n);
    if k == 1 {
      assert p[..n] == p;
    } else {
      assert k * n == (k - 1) * n + n;
      assert (k - 1) * n >= n;
      WithoutReplacementExactCounts(k - 1, n, perms[1..], j);
      assert multiset(WithoutReplacement(k * n, n, perms))
        == multiset(p) + multiset(WithoutReplacement((k - 1) * n, n, perms[1..]));
    }
  }

  /** `iter()` produces exactly `len()` indices, each inside the universe,
      unless the generator setup panics (with replacement from an empty
      universe) or the no-replacement loop never ends (asked for indices
      from an empty universe). */
  lemma IterContract(s: Sampler, rng: Rng)
    requires s.Random? ==> Supplies(rng, s.size, s.replacement, s.numSamples)
    ensures Iter(s, rng).EmptyRange? <==> s.Random? && s.replacement && s.numSamples == 0
    ensures Iter(s, rng).Diverges? <==> s.Random? && !s.replacement && s.numSamples == 0 && s.size > 0
    ensures Iter(s, rng).Started? ==> |Iter(s, rng).iter| == Len(s)
    ensures Iter(s, rng).Started? ==> forall k | 0 <= k < Len(s) :: Iter(s, rng).iter[k] < Universe(s)
  {
    match s
    case Sequential(_) =>
    case Random(size, replacement, n) =>
      match NewRandomIter(size, replacement, n, rng)
      case Started(it) =>
        DrainIsReverse(it);
        if !replacement && n > 0 {
          WithoutReplacementStructure(size, n, rng.perms);
          forall k | 0 <= k < size
            ensures it.indices[k] < n
          {
            WithoutReplacementCounts(size, n, rng.perms, it.indices[k]);
            assert it.indices[k] in multiset(it.indices);
          }
        }
      case EmptyRange =>
      case Diverges =>
  }

  /** `SequentialSampler::iter` is `0..size` on every call, whatever the
      generator does. */
  lemma SequentialIsRange(size: nat, rng1: Rng, rng2: Rng)
    ensures Iter(Sequential(size), rng1) == Iter(Sequential(size), rng2)
    ensures Iter(Sequential(size), rng1).Started?
    ensures forall k | 0 <= k < size :: Iter(Sequential(size), rng1).iter[k] == k
    ensures Len(Sequential(size)) == size && (IsEmpty(Sequential(size)) <==> size == 0)
  {
  }

  /** Drawing `k * n` indices without replacement from `n` hits every
      index exactly `k` times. */
  lemma IterExactCounts(k: nat, n: nat, rng: Rng, j: nat)
    requires n > 0 && k >= 1 && Supplies(rng, k * n, false, n)
    requires j < n
    ensures Iter(Random(k * n, false, n), rng).Started?
    ensures multiset(Iter(Random(k * n, false, n), rng).iter)[j] == k
  {
    var it := RandomIter(WithoutReplacement(k * n, n, rng.perms));
    DrainIsReverse(it);
    ReversePreservesMultiset(it.indices);
    WithoutReplacementExactCounts(k, n, rng.perms, j);
  }

  /** The no-replacement sampler's first test: 100 draws from a universe
      of 10 hit every index exactly 10 times. */
  lemma NoReplacementTenEach(rng: Rng, j: nat)
    requires Supplies(rng, 100, false, 10)
    requires j < 10
    ensures Iter(Random(100, false, 10), rng).Started?
    ensures multiset(Iter(Random(100, false, 10), rng).iter)[j] == 10
  {
    IterExactCounts(10, 10, rng, j);
  }

  /** Its second test: 100 draws from a universe of 100 hit every index
      once. */
  lemma NoReplacementOnceEach(rng: Rng, j: nat)
    requires Supplies(rng, 100, false, 100)
    requires j < 100
    ensures Iter(Random(100, false, 100), rng).Started?
    ensures multiset(Iter(Random(100, false, 100), rng).iter)[j] == 1
  {
    IterExactCounts(1, 100, rng, j);
  }
}
