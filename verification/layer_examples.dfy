/** The unit tests of `ReLU`, `Identity` and `SafeModule`, restated over
    the model. */
module LayerExamples {
  import opened Layers
  import SafeModules

  function Data(): Matrix
  {
    Matrix(2, [[1.0, 2.0], [3.0, -4.0], [-5.0, -6.0]])
  }

  function Ones(rows: nat, cols: nat): (r: Matrix)
    ensures r.cols == cols && |r.rows| == rows
    ensures forall i | 0 <= i < rows :: |r.rows[i]| == cols
  {
    Matrix(cols, seq(rows, _ => seq(cols, _ => 1.0)))
  }

  /** `ReLU` forward zeroes the negative entries; backward with ones after
      it gives the 0/1 mask of the positive inputs. */
  lemma ReluExample()
    ensures LayerForward(NewReLU(), Data()).1 == Matrix(2, [[1.0, 2.0], [3.0, 0.0], [0.0, 0.0]])
    ensures LayerBackward(LayerForward(NewReLU(), Data()).0, Ones(3, 2)) ==
      Done(NewReLU(), Matrix(2, [[1.0, 1.0], [1.0, 0.0], [0.0, 0.0]]))
  {
    ReluForwardExample();
    ReluBackwardExample();
  }

  lemma ReluForwardExample()
    ensures LayerForward(NewReLU(), Data()).1 == Matrix(2, [[1.0, 2.0], [3.0, 0.0], [0.0, 0.0]])
  {
    var y := LayerForward(NewReLU(), Data()).1;
    var want: seq<seq<real>> := [[1.0, 2.0], [3.0, 0.0], [0.0, 0.0]];
    forall i | 0 <= i < 3
      ensures y.rows[i] == want[i]
    {
      assert y.rows[i][0] == want[i][0] && y.rows[i][1] == want[i][1];
    }
  }

  lemma ReluBackwardExample()
    ensures LayerBackward(LayerForward(NewReLU(), Data()).0, Ones(3, 2)) ==
      Done(NewReLU(), Matrix(2, [[1.0, 1.0], [1.0, 0.0], [0.0, 0.0]]))
  {
    var x := Data();
    var g := Ones(3, 2);
    ReluProtocol(x, g);
    var b := LayerBackward(LayerForward(NewReLU(), x).0, g).out;
    var mask: seq<seq<real>> := [[1.0, 1.0], [1.0, 0.0], [0.0, 0.0]];
    forall i | 0 <= i < 3
      ensures b.rows[i] == mask[i]
    {
      assert b.rows[i][0] == mask[i][0] && b.rows[i][1] == mask[i][1];
    }
  }

  /** A `(0, 5)` input cached by `forward` and a `(0, 3)` gradient: no
      rows, but the widths differ, so `gradient * mask` cannot broadcast
      and `backward` panics. */
  lemma ZeroRowWidthMismatch()
    ensures LayerBackward(LayerForward(NewReLU(), Matrix(5, [])).0, Matrix(3, [])) == Panic
    ensures LayerBackward(LayerForward(NewReLU(), Matrix(5, [])).0, Matrix(5, [])).Done?
  {
  }

  /** `Identity` hands back its input and its gradient unchanged. */
  lemma IdentityExample()
    ensures LayerForward(Identity, Data()) == (Identity, Data())
    ensures LayerBackward(Identity, Data()) == Done(Identity, Data())
  {
  }

  /** `safe!(ReLU())`: forward then backward is allowed and does not
      panic; `eval` then `train` is allowed. Two forwards in a row are
      not. */
  lemma SafeModuleExample()
    ensures var s := SafeModules.New(Sequential([NewReLU()]));
      var (s1, _) := SafeModules.SafeForward(s, Ones(2, 3));
      SafeModules.SafeBackward(s1, Ones(2, 3)).Done?
    ensures SafeModules.Allowed(SafeModules.Forward, SafeModules.Train, [SafeModules.F, SafeModules.B])
    ensures SafeModules.Allowed(SafeModules.Forward, SafeModules.Train, [SafeModules.E, SafeModules.T])
    ensures !SafeModules.Allowed(SafeModules.Forward, SafeModules.Train, [SafeModules.F, SafeModules.F])
  {
    var s := SafeModules.New(Sequential([NewReLU()]));
    ForwardThenBackward([NewReLU()], Ones(2, 3), Ones(2, 3));
    var (s1, _) := SafeModules.SafeForward(s, Ones(2, 3));
    assert s1.inner.layers == ForwardAll([NewReLU()], Ones(2, 3)).0;
  }
}
