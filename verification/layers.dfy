/** The `Module` protocol for the two parameter-free layers, `Identity`
    and `ReLU`, and the `Sequential` container that chains modules. A
    matrix is a column count and a sequence of rows of reals; `forward` maps a
    `(batch, input)` matrix to a `(batch, output)` one and `backward` maps
    a gradient back. `ReLU` caches its last input in `forward` and
    consumes it in `backward`. */
module Layers {
  import opened Base

  /** An `Array2<f64>`: its column count and its rows. The column count
      is kept apart from the rows so that a matrix with no rows still has
      a width, as a `(0, n)` array does. */
  datatype Matrix = Matrix(cols: nat, rows: seq<seq<real>>)

  /** The same `(rows, cols)` shape, and row by row the same length. */
  predicate SameShape(a: Matrix, b: Matrix)
  {
    && a.cols == b.cols
    && |a.rows| == |b.rows|
    && forall i | 0 <= i < |a.rows| :: |a.rows[i]| == |b.rows[i]|
  }

  lemma SameShapeTrans(a: Matrix, b: Matrix, c: Matrix)
    requires SameShape(a, b) && SameShape(b, c)
    ensures SameShape(a, c)
  {
  }

  /** `mapv`: `f` applied to every element. */
  function MapM(f: real -> real, m: Matrix): (r: Matrix)
    ensures SameShape(r, m)
    ensures forall i, j | 0 <= i < |m.rows| && 0 <= j < |m.rows[i]| :: r.rows[i][j] == f(m.rows[i][j])
  {
    Matrix(m.cols, seq(|m.rows|, i requires 0 <= i < |m.rows| => Map(f, m.rows[i])))
  }

  /** Elementwise product of two matrices of the same shape. */
  function Mul(a: Matrix, b: Matrix): (r: Matrix)
    requires SameShape(a, b)
    ensures SameShape(r, a)
    ensures forall i, j | 0 <= i < |a.rows| && 0 <= j < |a.rows[i]| :: r.rows[i][j] == a.rows[i][j] * b.rows[i][j]
  {
    Matrix(a.cols, seq(|a.rows|, i requires 0 <= i < |a.rows| =>
      seq(|a.rows[i]|, j requires 0 <= j < |a.rows[i]| => a.rows[i][j] * b.rows[i][j])))
  }

  /** `x.max(0.0)`. */
  function Relu(x: real): real
  {
    if x > 0.0 then x else 0.0
  }

  /** `f64::from(x > 0.0)`. */
  function Mask(x: real): real
  {
    if x > 0.0 then 1.0 else 0.0
  }

  /** Passing through `ReLU` neither changes which inputs are positive nor
      changes an already rectified value. */
  lemma ReluFacts(x: real)
    ensures Relu(x) >= 0.0
    ensures Mask(Relu(x)) == Mask(x)
    ensures Relu(Relu(x)) == Relu(x)
    ensures Relu(x) == x * Mask(x)
  {
  }

  // ---------------------------------------------------------------------
  // Single layers

  /** A layer and the state it carries: `ReLU` holds its cached input. */
  datatype Layer = Identity | ReLU(cache: Option<Matrix>)

  /** `ReLU::new`: nothing cached yet. */
  function NewReLU(): (r: Layer)
    ensures r.ReLU? && r.cache.None?
  {
    ReLU(None)
  }

  /** The result of a `backward` call that may panic. */
  datatype Outcome<S> = Done(state: S, out: Matrix) | Panic

  /** `forward`: `Identity` returns its input; `ReLU` caches the input and
      returns it rectified. */
  function LayerForward(l: Layer, x: Matrix): (r: (Layer, Matrix))
    ensures SameShape(r.1, x)
    ensures r.0.Identity? <==> l.Identity?
  {
    match l
    case Identity => (Identity, x)
    case ReLU(_) => (ReLU(Some(x)), MapM(Relu, x))
  }

  /** `backward`: `Identity` returns the gradient; `ReLU` takes its cache
      (panicking if there is none), multiplies the gradient by the 0/1
      mask of positive cached inputs, and is left with an empty cache. A
      gradient whose shape differs from the cache's panics. */
  function LayerBackward(l: Layer, g: Matrix): (r: Outcome<Layer>)
    ensures r.Done? ==> SameShape(r.out, g)
    ensures r.Done? ==> r.state == Cleared(l)
  {
    match l
    case Identity => Done(Identity, g)
    case ReLU(None) => Panic
    case ReLU(Some(c)) =>
      if SameShape(g, c) then Done(ReLU(None), Mul(g, MapM(Mask, c))) else Panic
  }

  /** A layer after `backward`: any cache consumed. */
  function Cleared(l: Layer): Layer
  {
    match l
    case Identity => Identity
    case ReLU(_) => ReLU(None)
  }

  /** The trait's default `train` and `eval`, which both layers keep: they
      change nothing. */
  function Train(l: Layer): Layer { l }
  function Eval(l: Layer): Layer { l }

  /** `ReLU`'s protocol: `forward` leaves the input cached and outputs it
      rectified; a `backward` with a gradient of the same shape then masks
      the gradient by the positive inputs and empties the cache, and one
      with any other shape, a differing width on no rows included, panics;
      a `backward` with nothing cached panics. `Identity` is stateless, so
      `backward` needs no `forward` before it. */
  lemma ReluProtocol(x: Matrix, g: Matrix)
    ensures LayerForward(NewReLU(), x).0 == ReLU(Some(x))
    ensures forall i, j | 0 <= i < |x.rows| && 0 <= j < |x.rows[i]| ::
      LayerForward(NewReLU(), x).1.rows[i][j] == (if x.rows[i][j] > 0.0 then x.rows[i][j] else 0.0)
    ensures SameShape(g, x) ==>
      var b := LayerBackward(LayerForward(NewReLU(), x).0, g);
      && b.Done? && b.state == NewReLU()
      && forall i, j | 0 <= i < |g.rows| && 0 <= j < |g.rows[i]| ::
           b.out.rows[i][j] == (if x.rows[i][j] > 0.0 then g.rows[i][j] else 0.0)
    ensures !SameShape(g, x) ==> LayerBackward(LayerForward(NewReLU(), x).0, g) == Panic
    ensures LayerBackward(NewReLU(), g) == Panic
    ensures LayerBackward(Identity, g) == Done(Identity, g)
    ensures LayerForward(Identity, x) == (Identity, x)
  {
  }

  // ---------------------------------------------------------------------
  // Chains of layers

  /** `Sequential::forward`: the input folded through the layers in list
      order; every layer is left in its post-`forward` state. */
  function ForwardAll(ls: seq<Layer>, x: Matrix): (r: (seq<Layer>, Matrix))
    ensures |r.0| == |ls|
    ensures SameShape(r.1, x)
  {
    if ls == [] then ([], x)
    else
      var (l, y) := LayerForward(ls[0], x);
      var (rest, z) := ForwardAll(ls[1..], y);
      ([l] + rest, z)
  }

  /** `Sequential::backward`: the gradient folded through the layers from
      the last to the first; any layer's panic is the chain's panic. */
  function BackwardAll(ls: seq<Layer>, g: Matrix): (r: Outcome<seq<Layer>>)
    ensures r.Done? ==> |r.state| == |ls| && SameShape(r.out, g)
  {
    if ls == [] then Done([], g)
    else
      var b := LayerBackward(ls[|ls| - 1], g);
      if b.Panic? then Panic
      else
        var more := BackwardAll(ls[..|ls| - 1], b.out);
        if more.Panic? then Panic
        else Done(more.state + [b.state], more.out)
  }

  /** Running `ls` forward after `before`, as one chain. */
  function ThenForward(before: (seq<Layer>, Matrix), ls: seq<Layer>): (seq<Layer>, Matrix)
  {
    var (rest, z) := ForwardAll(ls, before.1);
    (before.0 + rest, z)
  }

  /** Running `ls` backward after `later`, as one chain. */
  function ThenBackward(later: Outcome<seq<Layer>>, ls: seq<Layer>): Outcome<seq<Layer>>
  {
    if later.Panic? then Panic
    else
      var more := BackwardAll(ls, later.out);
      if more.Panic? then Panic else Done(more.state + later.state, more.out)
  }

  /** `forward` through `a + b` is `forward` through `a` and then through
      `b`: the fold follows list order. */
  lemma {:induction false} ForwardConcat(a: seq<Layer>, b: seq<Layer>, x: Matrix)
    ensures ForwardAll(a + b, x) == ThenForward(ForwardAll(a, x), b)
  {
    if a == [] {
      assert a + b == b;
      assert [] + ForwardAll(b, x).0 == ForwardAll(b, x).0;
    } else {
      var (l, y) := LayerForward(a[0], x);
      assert (a + b)[0] == a[0] && (a + b)[1..] == a[1..] + b;
      ForwardConcat(a[1..], b, y);
      var (front, y1) := ForwardAll(a[1..], y);
      var (back, z) := ForwardAll(b, y1);
      assert ForwardAll(a, x) == ([l] + front, y1);
      assert ForwardAll(a[1..] + b, y) == (front + back, z);
      assert ForwardAll(a + b, x) == ([l] + (front + back), z);
      assert [l] + (front + back) == [l] + front + back;
    }
  }

  /** `backward` through `a + b` is `backward` through `b` and then
      through `a`: the fold runs in reverse list order. */
  lemma {:induction false} BackwardConcat(a: seq<Layer>, b: seq<Layer>, g: Matrix)
    ensures BackwardAll(a + b, g) == ThenBackward(BackwardAll(b, g), a)
  {
    if b == [] {
      assert a + b == a;
      assert BackwardAll(a, g).Done? ==> BackwardAll(a, g).state + [] == BackwardAll(a, g).state;
    } else {
      var ab := a + b;
      var last := b[|b| - 1];
      assert ab[|ab| - 1] == last;
      assert ab[..|ab| - 1] == a + b[..|b| - 1];
      var s := LayerBackward(last, g);
      if s.Done? {
        BackwardConcat(a, b[..|b| - 1], s.out);
        var inner := BackwardAll(b[..|b| - 1], s.out);
        if inner.Done? {
          var outer := BackwardAll(a, inner.out);
          if outer.Done? {
            assert outer.state + inner.state + [s.state] == outer.state + (inner.state + [s.state]);
          }
        }
      }
    }
  }

  /** With no layers, `forward` and `backward` return their argument. */
  lemma EmptyChain(x: Matrix)
    ensures ForwardAll([], x) == ([], x)
    ensures BackwardAll([], x) == Done([], x)
  {
  }

  predicate HasReLU(ls: seq<Layer>)
  {
    exists k | 0 <= k < |ls| :: ls[k].ReLU?
  }

  /** The training step's protocol on a chain of these layers: after
      `forward` on `x`, a `backward` with a gradient of `x`'s shape never
      panics, empties every cache, and lets the gradient through exactly
      where no `ReLU` blocks it, that is where `x` is positive or there is
      no `ReLU` at all. */
  lemma ForwardThenBackward(ls: seq<Layer>, x: Matrix, g: Matrix)
    requires SameShape(g, x)
    ensures var b := BackwardAll(ForwardAll(ls, x).0, g);
      && b.Done?
      && b.state == Map(Cleared, ls)
      && SameShape(b.out, g)
      && forall i, j | 0 <= i < |g.rows| && 0 <= j < |g.rows[i]| ::
           b.out.rows[i][j] == (if HasReLU(ls) && !(x.rows[i][j] > 0.0) then 0.0 else g.rows[i][j])
  {
    ForwardThenBackwardState(ls, x, g);
    ForwardThenBackwardOut(ls, x, g);
  }

  /** One layer's `forward` then `backward`: no panic, the cache is
      cleared, and the gradient is masked only by a `ReLU`. */
  lemma LayerRoundTrip(l: Layer, x: Matrix, h: Matrix)
    requires SameShape(h, x)
    ensures var b := LayerBackward(LayerForward(l, x).0, h);
      && b.Done? && b.state == Cleared(l)
      && forall i, j | 0 <= i < |h.rows| && 0 <= j < |h.rows[i]| ::
           b.out.rows[i][j] == (if l.ReLU? && !(x.rows[i][j] > 0.0) then 0.0 else h.rows[i][j])
  {
  }

  /** The chain's `backward` after `forward` peels off its first layer
      last. */
  lemma BackwardAfterForwardStep(ls: seq<Layer>, x: Matrix, g: Matrix)
    requires ls != []
    ensures var (l, y) := LayerForward(ls[0], x);
      var inner := BackwardAll(ForwardAll(ls[1..], y).0, g);
      inner.Done? ==>
        var s := LayerBackward(l, inner.out);
        BackwardAll(ForwardAll(ls, x).0, g) == (if s.Panic? then Panic else Done([s.state] + inner.state, s.out))
  {
    var (l, y) := LayerForward(ls[0], x);
    var rest := ForwardAll(ls[1..], y).0;
    assert ForwardAll(ls, x).0 == [l] + rest;
    BackwardConcat([l], rest, g);
    var inner := BackwardAll(rest, g);
    if inner.Done? {
      SingletonBackward(l, inner.out);
    }
  }

  lemma HasReLUCons(ls: seq<Layer>)
    requires ls != []
    ensures HasReLU(ls) <==> ls[0].ReLU? || HasReLU(ls[1..])
  {
    if HasReLU(ls) {
      var k :| 0 <= k < |ls| && ls[k].ReLU?;
      if k > 0 {
        assert ls[1..][k - 1].ReLU?;
      }
    }
    if HasReLU(ls[1..]) {
      var k :| 0 <= k < |ls| - 1 && ls[1..][k].ReLU?;
      assert ls[k + 1].ReLU?;
    }
  }

  lemma {:induction false} ForwardThenBackwardState(ls: seq<Layer>, x: Matrix, g: Matrix)
    requires SameShape(g, x)
    ensures var b := BackwardAll(ForwardAll(ls, x).0, g);
      b.Done? && b.state == Map(Cleared, ls)
  {
    if ls != [] {
      var (l, y) := LayerForward(ls[0], x);
      ForwardThenBackwardState(ls[1..], y, g);
      var inner := BackwardAll(ForwardAll(ls[1..], y).0, g);
      SameShapeTrans(inner.out, g, x);
      BackwardAfterForwardStep(ls, x, g);
      LayerRoundTrip(ls[0], x, inner.out);
      assert Map(Cleared, ls) == [Cleared(ls[0])] + Map(Cleared, ls[1..]);
    }
  }

  lemma {:induction false} ForwardThenBackwardOut(ls: seq<Layer>, x: Matrix, g: Matrix)
    requires SameShape(g, x)
    ensures var b := BackwardAll(ForwardAll(ls, x).0, g);
      b.Done? &&
      forall i, j | 0 <= i < |g.rows| && 0 <= j < |g.rows[i]| ::
        b.out.rows[i][j] == (if HasReLU(ls) && !(x.rows[i][j] > 0.0) then 0.0 else g.rows[i][j])
  {
    if ls != [] {
      var (l, y) := LayerForward(ls[0], x);
      ForwardThenBackwardOut(ls[1..], y, g);
      var inner := BackwardAll(ForwardAll(ls[1..], y).0, g);
      SameShapeTrans(inner.out, g, x);
      BackwardAfterForwardStep(ls, x, g);
      LayerRoundTrip(ls[0], x, inner.out);
      HasReLUCons(ls);
      var b := BackwardAll(ForwardAll(ls, x).0, g);
      assert b.out == LayerBackward(l, inner.out).out;
      forall i, j | 0 <= i < |g.rows| && 0 <= j < |g.rows[i]|
        ensures b.out.rows[i][j] == (if HasReLU(ls) && !(x.rows[i][j] > 0.0) then 0.0 else g.rows[i][j])
      {
        assert (y.rows[i][j] > 0.0) == (x.rows[i][j] > 0.0);
      }
    }
  }

  // ---------------------------------------------------------------------
  // Sequential

  /** `Sequential`: its layers, in order. */
  datatype Sequential = Sequential(layers: seq<Layer>)

  function Len(s: Sequential): nat { |s.layers| }

  /** `is_empty`. */
  function IsEmpty(s: Sequential): (r: bool)
    ensures r <==> Len(s) == 0
  {
    s.layers == []
  }

  /** `push` (and `push_box`): the layer goes at the end. */
  function Push(s: Sequential, l: Layer): (r: Sequential)
    ensures Len(r) == Len(s) + 1
    ensures r.layers[Len(s)] == l && r.layers[..Len(s)] == s.layers
  {
    Sequential(s.layers + [l])
  }

  /** `insert` (and `insert_box`): the layer goes at `index` and the later
      ones shift up; `Vec::insert` panics past the end. */
  function Insert(s: Sequential, index: nat, l: Layer): (r: Sequential)
    requires index <= Len(s)
    ensures Len(r) == Len(s) + 1
    ensures r.layers[index] == l
    ensures r.layers[..index] == s.layers[..index]
    ensures r.layers[index + 1..] == s.layers[index..]
  {
    Sequential(s.layers[..index] + [l] + s.layers[index..])
  }

  /** `remove`: `None` with nothing changed at or past the end, otherwise
      the layer at `index`, the rest kept in order. */
  function Remove(s: Sequential, index: nat): (r: (Sequential, Option<Layer>))
    ensures r.1.None? <==> index >= Len(s)
    ensures r.1.None? ==> r.0 == s
    ensures r.1.Some? ==> Len(r.0) + 1 == Len(s) && r.1.value == s.layers[index]
    ensures r.1.Some? ==> r.0.layers == s.layers[..index] + s.layers[index + 1..]
  {
    if index >= Len(s) then (s, None)
    else (Sequential(s.layers[..index] + s.layers[index + 1..]), Some(s.layers[index]))
  }

  /** `insert` and `remove` at the same index undo each other. */
  lemma InsertRemove(s: Sequential, index: nat, l: Layer)
    requires index <= Len(s)
    ensures Remove(Insert(s, index, l), index) == (s, Some(l))
    ensures index < Len(s) ==> Insert(Remove(s, index).0, index, s.layers[index]) == s
  {
    var t := Insert(s, index, l).layers;
    assert t[..index] + t[index + 1..] == s.layers;
    if index < Len(s) {
      assert s.layers[..index] + [s.layers[index]] + s.layers[index + 1..] == s.layers;
    }
  }

  /** Pushing is inserting at the end, so removing the last layer undoes
      it. */
  lemma PushRemove(s: Sequential, l: Layer)
    ensures Push(s, l) == Insert(s, Len(s), l)
    ensures Remove(Push(s, l), Len(s)) == (s, Some(l))
  {
    assert s.layers[..Len(s)] == s.layers;
    InsertRemove(s, Len(s), l);
  }

  /** `Module::forward` for `Sequential`. */
  function Forward(s: Sequential, x: Matrix): (r: (Sequential, Matrix))
    ensures Len(r.0) == Len(s) && SameShape(r.1, x)
  {
    var (ls, y) := ForwardAll(s.layers, x);
    (Sequential(ls), y)
  }

  /** `Module::backward` for `Sequential`. */
  function Backward(s: Sequential, g: Matrix): (r: Outcome<Sequential>)
    ensures r.Done? ==> Len(r.state) == Len(s) && SameShape(r.out, g)
  {
    var b := BackwardAll(s.layers, g);
    if b.Panic? then Panic else Done(Sequential(b.state), b.out)
  }

  /** `Sequential::train` and `eval` apply the layer's `train` or `eval`
      to every layer; with these layers the container is unchanged. */
  function TrainAll(s: Sequential): (r: Sequential)
    ensures Len(r) == Len(s)
    ensures r == s
  {
    assert Map(Train, s.layers) == s.layers;
    Sequential(Map(Train, s.layers))
  }

  function EvalAll(s: Sequential): (r: Sequential)
    ensures Len(r) == Len(s)
    ensures r == s
  {
    assert Map(Eval, s.layers) == s.layers;
    Sequential(Map(Eval, s.layers))
  }

  /** Switching modes leaves every layer as it was: `train` and `eval` are
      the trait's no-ops all the way down. */
  lemma ModeSwitchesAreNoOps(s: Sequential)
    ensures TrainAll(s) == s && EvalAll(s) == s
  {
  }

  /** A single layer wrapped in a `Sequential` behaves as the layer. */
  lemma SingletonChain(l: Layer, x: Matrix)
    ensures Forward(Sequential([l]), x) == (Sequential([LayerForward(l, x).0]), LayerForward(l, x).1)
    ensures Backward(Sequential([l]), x) ==
      (if LayerBackward(l, x).Panic? then Panic else Done(Sequential([LayerBackward(l, x).state]), LayerBackward(l, x).out))
  {
    var (l', y) := LayerForward(l, x);
    assert [l][0] == l && [l][1..] == [];
    assert ForwardAll([], y) == ([], y);
    assert [l'] + [] == [l'];
    assert ForwardAll([l], x) == ([l'], y);
    SingletonBackward(l, x);
  }

  lemma SingletonBackward(l: Layer, g: Matrix)
    ensures BackwardAll([l], g) == (if LayerBackward(l, g).Panic? then Panic else Done([LayerBackward(l, g).state], LayerBackward(l, g).out))
  {
    assert [l][..0] == [];
    var b := LayerBackward(l, g);
    if b.Done? {
      assert BackwardAll([], b.out) == Done([], b.out);
      assert [] + [b.state] == [b.state];
    }
  }
}
