/** The small array helpers: `normalize_zero_max`, `flatten`, `one_hot`
    and `argmax`. An array of any dimension is taken by its elements in
    logical (row-major) order, which is the order `iter` and `mapv` walk;
    `argmax` is given the lanes its axis iterates over. */
module Utils {
  import opened Base

  // ---------------------------------------------------------------------
  // normalize_zero_max

  /** The least element of a non-empty sequence. */
  function SeqMin(x: seq<int>): (m: int)
    requires |x| > 0
    ensures forall k | 0 <= k < |x| :: m <= x[k]
    ensures exists k | 0 <= k < |x| :: x[k] == m
  {
    if |x| == 1 then x[0]
    else
      var m := SeqMin(x[1..]);
      assert forall k | 1 <= k < |x| :: x[k] == x[1..][k - 1];
      if x[0] <= m then x[0] else m
  }

  /** `normalize_zero_max`: every element minus the least one; the
      `min().unwrap()` panics on an empty array. */
  function NormalizeZeroMax(x: seq<int>): (r: Option<seq<int>>)
    ensures r.Some? <==> |x| > 0
    ensures r.Some? ==> |r.value| == |x|
  {
    if |x| == 0 then None
    else
      var m := SeqMin(x);
      Some(seq(|x|, k requires 0 <= k < |x| => x[k] - m))
  }

  /** The result is the input shifted down so that its least element is
      zero: nothing is negative, some element is zero, and every
      difference (hence the order) between elements is kept. Normalising
      again changes nothing. */
  lemma NormalizeZeroMaxSpec(x: seq<int>)
    requires |x| > 0
    ensures var r := NormalizeZeroMax(x).value;
      && (forall k | 0 <= k < |r| :: r[k] >= 0)
      && (exists k | 0 <= k < |r| :: r[k] == 0)
      && (forall i, j | 0 <= i < |x| && 0 <= j < |x| :: r[i] - r[j] == x[i] - x[j])
      && NormalizeZeroMax(r) == Some(r)
  {
    var r := NormalizeZeroMax(x).value;
    var m := SeqMin(x);
    var k :| 0 <= k < |x| && x[k] == m;
    assert r[k] == 0;
    assert SeqMin(r) == 0 by {
      assert forall j | 0 <= j < |r| :: SeqMin(r) <= r[j];
      var j :| 0 <= j < |r| && r[j] == SeqMin(r);
    }
    assert NormalizeZeroMax(r).value == r;
  }

  // ---------------------------------------------------------------------
  // flatten

  /** `flatten` of a two-dimensional array: its rows one after another. */
  function Flatten<T>(m: seq<seq<T>>): seq<T>
  {
    Concat(m)
  }

  /** Every row has `cols` elements. */
  predicate Rectangular<T>(m: seq<seq<T>>, cols: nat)
  {
    forall i | 0 <= i < |m| :: |m[i]| == cols
  }

  /** Flattening a `rows × cols` array keeps every element, in row-major
      order: element `(i, j)` lands at `i * cols + j`. */
  lemma FlattenRowMajor<T>(m: seq<seq<T>>, cols: nat)
    requires Rectangular(m, cols)
    ensures |Flatten(m)| == |m| * cols
    ensures forall i, j | 0 <= i < |m| && 0 <= j < cols ::
      i * cols + j < |Flatten(m)| && Flatten(m)[i * cols + j] == m[i][j]
  {
    FlattenLength(m, cols);
    forall i, j | 0 <= i < |m| && 0 <= j < cols
      ensures i * cols + j < |Flatten(m)| && Flatten(m)[i * cols + j] == m[i][j]
    {
      FlattenAt(m, cols, i, j);
    }
  }

  lemma {:induction false} FlattenLength<T>(m: seq<seq<T>>, cols: nat)
    requires Rectangular(m, cols)
    ensures |Flatten(m)| == |m| * cols
  {
    if m != [] {
      FlattenLength(m[1..], cols);
      assert |m| * cols == cols + (|m| - 1) * cols;
    }
  }

  lemma {:induction false} FlattenAt<T>(m: seq<seq<T>>, cols: nat, i: nat, j: nat)
    requires Rectangular(m, cols) && i < |m| && j < cols
    ensures i * cols + j < |Flatten(m)| && Flatten(m)[i * cols + j] == m[i][j]
    decreases i
  {
    var tail := m[1..];
    FlattenLength(m, cols);
    assert Flatten(m) == m[0] + Flatten(tail);
    if i > 0 {
      FlattenAt(tail, cols, i - 1, j);
      assert i * cols + j == cols + ((i - 1) * cols + j);
      assert m[i] == tail[i - 1];
    }
  }

  // ---------------------------------------------------------------------
  // one_hot

  /** `one_hot(x, n)`: `n` zeros with a one at `x`; indexing past the end
      panics, so `x < n`. */
  function OneHot(x: nat, n: nat): (r: seq<real>)
    requires x < n
    ensures |r| == n
  {
    seq(n, k requires 0 <= k < n => if k == x then 1.0 else 0.0)
  }

  // ---------------------------------------------------------------------
  // argmax

  /** The index `reduce` keeps over the first `n` elements of a lane: a
      later element replaces the one kept only if it is strictly greater. */
  function Best(v: seq<real>, n: nat): (b: nat)
    requires 1 <= n <= |v|
    ensures b < n
    ensures forall k | 0 <= k < n :: v[k] <= v[b]
    ensures forall k | 0 <= k < b :: v[k] < v[b]
  {
    if n == 1 then 0
    else
      var b := Best(v, n - 1);
      if v[n - 1] > v[b] then n - 1 else b
  }

  /** One lane of `argmax`: `None` when the lane is empty, otherwise the
      index of its first greatest element. */
  function ArgmaxLane(v: seq<real>): (r: Option<nat>)
    ensures r.None? <==> v == []
    ensures r.Some? ==> r.value < |v|
  {
    if v == [] then None else Some(Best(v, |v|))
  }

  /** The lane's result is pinned down: the first position holding the
      greatest value. */
  lemma ArgmaxLaneSpec(v: seq<real>, i: nat)
    requires i < |v|
    requires forall k | 0 <= k < |v| :: v[k] <= v[i]
    requires forall k | 0 <= k < i :: v[k] < v[i]
    ensures ArgmaxLane(v) == Some(i)
  {
    var b := Best(v, |v|);
    assert v[b] <= v[i] && v[i] <= v[b];
  }

  /** `argmax`: the lane results collected into an `Option`, so one empty
      lane makes the whole result `None`. */
  function Argmax(lanes: seq<seq<real>>): (r: Option<seq<nat>>)
    ensures r.Some? <==> forall k | 0 <= k < |lanes| :: lanes[k] != []
    ensures r.Some? ==> |r.value| == |lanes|
    ensures r.Some? ==> forall k | 0 <= k < |lanes| :: ArgmaxLane(lanes[k]) == Some(r.value[k])
  {
    if lanes == [] then Some([])
    else
      var head := ArgmaxLane(lanes[0]);
      var rest := Argmax(lanes[1..]);
      assert forall k | 1 <= k < |lanes| :: lanes[k] == lanes[1..][k - 1];
      if head.None? || rest.None? then None
      else Some([head.value] + rest.value)
  }

  /** `argmax` undoes `one_hot`: the one is the unique greatest element. */
  lemma ArgmaxOneHot(x: nat, n: nat)
    requires x < n
    ensures ArgmaxLane(OneHot(x, n)) == Some(x)
    ensures Argmax([OneHot(x, n)]) == Some([x])
  {
    ArgmaxLaneSpec(OneHot(x, n), x);
    assert [OneHot(x, n)][1..] == [];
    assert Argmax([]) == Some([]);
    assert [x] + [] == [x];
  }

  /** On ties the earlier index wins, because the comparison is strict. */
  lemma ArgmaxTieExample()
    ensures ArgmaxLane([1.0, 3.0, 3.0, 2.0]) == Some(1)
    ensures Argmax([[1.0, 3.0, 3.0, 2.0], []]) == None
  {
    ArgmaxLaneSpec([1.0, 3.0, 3.0, 2.0], 1);
    var lanes: seq<seq<real>> := [[1.0, 3.0, 3.0, 2.0], []];
    assert lanes[1] == [];
  }
}
