/** `ParameterIterator`: the `(weight, gradient)` pairs a module exposes to
    an optimiser, kept in the order they were added. Weights and gradients
    are left abstract. */
module Parameters {

  datatype ParameterIterator<W, G> = ParameterIterator(data: seq<(W, G)>)

  /** `new` and `default`: no pairs. */
  function New<W, G>(): (r: ParameterIterator<W, G>)
    ensures |IntoIter(r)| == 0
  {
    ParameterIterator([])
  }

  /** `add`: one more pair, at the end. */
  function Add<W, G>(p: ParameterIterator<W, G>, weight: W, gradient: G): (r: ParameterIterator<W, G>)
    ensures |IntoIter(r)| == |IntoIter(p)| + 1
    ensures IntoIter(r)[..|IntoIter(p)|] == IntoIter(p)
    ensures IntoIter(r)[|IntoIter(p)|] == (weight, gradient)
  {
    ParameterIterator(p.data + [(weight, gradient)])
  }

  /** `into_iter`: the pairs in order. */
  function IntoIter<W, G>(p: ParameterIterator<W, G>): seq<(W, G)>
  {
    p.data
  }

  /** `from_iter`: the pairs, in the order given. */
  function FromIter<W, G>(pairs: seq<(W, G)>): ParameterIterator<W, G>
  {
    ParameterIterator(pairs)
  }

  /** `add` applied to each pair in turn. */
  function AddAll<W, G>(p: ParameterIterator<W, G>, pairs: seq<(W, G)>): ParameterIterator<W, G>
    decreases |pairs|
  {
    if pairs == [] then p
    else AddAll(Add(p, pairs[0].0, pairs[0].1), pairs[1..])
  }

  /** Chaining `add` calls yields the pairs in insertion order, after the
      ones already there: building with `add` and collecting agree, and
      collecting then iterating loses, duplicates or reorders no pair. */
  lemma AddAllInOrder<W, G>(p: ParameterIterator<W, G>, pairs: seq<(W, G)>)
    ensures IntoIter(AddAll(p, pairs)) == IntoIter(p) + pairs
    ensures AddAll(New(), pairs) == FromIter(pairs)
    ensures IntoIter(FromIter(pairs)) == pairs
    ensures FromIter(IntoIter(p)) == p
  {
    AddAllAppends(p, pairs);
    AddAllAppends(New(), pairs);
    assert IntoIter(New<W, G>()) + pairs == pairs;
  }

  lemma {:induction false} AddAllAppends<W, G>(p: ParameterIterator<W, G>, pairs: seq<(W, G)>)
    ensures IntoIter(AddAll(p, pairs)) == IntoIter(p) + pairs
    decreases |pairs|
  {
    if pairs != [] {
      var q := Add(p, pairs[0].0, pairs[0].1);
      AddAllAppends(q, pairs[1..]);
      assert [pairs[0]] + pairs[1..] == pairs;
      assert IntoIter(q) + pairs[1..] == IntoIter(p) + pairs;
    }
  }
}
