/** `SafeModule`: a module tagged with a training state (`Forward` or
    `Backward`) and an evaluation mode (`Train` or `Evaluation`). The source
    tracks both in the type, so a call in the wrong state does not compile;
    here they are fields and each operation `requires` the state or mode
    its `impl` block is for. The wrapped module is a `Sequential`; a single
    layer is a one-layer `Sequential`. */
module SafeModules {
  import opened Base
  import opened Layers

  datatype State = Forward | Backward
  datatype Mode = Train | Evaluation

  datatype SafeModule = SafeModule(inner: Sequential, state: State, mode: Mode)

  /** `SafeModule::new` (and `From`): ready for `forward`, in training. */
  function New(m: Sequential): (r: SafeModule)
    ensures r.state == Forward && r.mode == Train
    ensures IntoInner(r) == m
  {
    SafeModule(m, Forward, Train)
  }

  /** `into_inner`: the wrapped module, whatever the state and mode. */
  function IntoInner(s: SafeModule): Sequential
  {
    s.inner
  }

  /** `forward`: the inner module's output; the state moves to `Backward`,
      the mode stays. */
  function SafeForward(s: SafeModule, x: Matrix): (r: (SafeModule, Matrix))
    requires s.state == Forward
    ensures r.0.state == Backward && r.0.mode == s.mode
    ensures (IntoInner(r.0), r.1) == Layers.Forward(IntoInner(s), x)
  {
    var (m, y) := Layers.Forward(s.inner, x);
    (SafeModule(m, Backward, s.mode), y)
  }

  /** `backward`: the inner module's gradient (or its panic); the state
      moves back to `Forward`, the mode stays. */
  function SafeBackward(s: SafeModule, g: Matrix): (r: Outcome<SafeModule>)
    requires s.state == Backward
    ensures r.Panic? <==> Layers.Backward(IntoInner(s), g).Panic?
    ensures r.Done? ==> r.state.state == Forward && r.state.mode == s.mode
    ensures r.Done? ==> IntoInner(r.state) == Layers.Backward(IntoInner(s), g).state
    ensures r.Done? ==> r.out == Layers.Backward(IntoInner(s), g).out
  {
    var b := Layers.Backward(s.inner, g);
    if b.Panic? then Panic else Done(SafeModule(b.state, Forward, s.mode), b.out)
  }

  /** `eval`: only in training; the inner `eval` runs and the mode moves to
      `Evaluation`, the state stays. */
  function SafeEval(s: SafeModule): (r: SafeModule)
    requires s.mode == Train
    ensures r.mode == Evaluation && r.state == s.state
    ensures IntoInner(r) == EvalAll(IntoInner(s))
  {
    SafeModule(EvalAll(s.inner), s.state, Evaluation)
  }

  /** `train`: only in evaluation; the inner `train` runs and the mode
      moves to `Train`, the state stays. */
  function SafeTrain(s: SafeModule): (r: SafeModule)
    requires s.mode == Evaluation
    ensures r.mode == Train && r.state == s.state
    ensures IntoInner(r) == TrainAll(IntoInner(s))
  {
    SafeModule(TrainAll(s.inner), s.state, Train)
  }

  /** Switching mode and back returns the very module that went in. */
  lemma ModeRoundTrip(s: SafeModule)
    requires s.mode == Train
    ensures SafeTrain(SafeEval(s)) == s
  {
    ModeSwitchesAreNoOps(s.inner);
  }

  // ---------------------------------------------------------------------
  // Call sequences

  /** A call the type system lets through in some state. */
  datatype Call = F | B | E | T

  /** Whether every call of `calls` is allowed, starting in `state` and
      `mode`, given the transitions above. */
  predicate Allowed(state: State, mode: Mode, calls: seq<Call>)
    decreases |calls|
  {
    if calls == [] then true
    else match calls[0]
      case F => state == Forward && Allowed(Backward, mode, calls[1..])
      case B => state == Backward && Allowed(Forward, mode, calls[1..])
      case E => mode == Train && Allowed(state, Evaluation, calls[1..])
      case T => mode == Evaluation && Allowed(state, Train, calls[1..])
  }

  /** The `forward`/`backward` calls of `calls`, in order. */
  function Passes(calls: seq<Call>): (r: seq<Call>)
    ensures |r| <= |calls|
  {
    if calls == [] then []
    else if calls[0] == F || calls[0] == B then [calls[0]] + Passes(calls[1..])
    else Passes(calls[1..])
  }

  /** The mode switches of `calls`, in order. */
  function Switches(calls: seq<Call>): (r: seq<Call>)
    ensures |r| <= |calls|
  {
    if calls == [] then []
    else if calls[0] == E || calls[0] == T then [calls[0]] + Switches(calls[1..])
    else Switches(calls[1..])
  }

  /** `xs` alternates between `a` and `b`, starting with `a`. */
  predicate Alternates(xs: seq<Call>, a: Call, b: Call)
  {
    forall k | 0 <= k < |xs| :: xs[k] == if k % 2 == 0 then a else b
  }

  function Flip(s: State): State { if s == Forward then Backward else Forward }
  function Other(m: Mode): Mode { if m == Train then Evaluation else Train }

  /** The typestate discipline: a call sequence is allowed exactly when its
      passes alternate `forward`, `backward`, … starting with the pass the
      state allows, and its mode switches alternate `eval`, `train`, …
      starting with the switch the mode allows. The two interleave
      freely. */
  lemma {:induction false} AllowedIffAlternating(state: State, mode: Mode, calls: seq<Call>)
    ensures Allowed(state, mode, calls) <==>
      && Alternates(Passes(calls), if state == Forward then F else B, if state == Forward then B else F)
      && Alternates(Switches(calls), if mode == Train then E else T, if mode == Train then T else E)
    decreases |calls|
  {
    if calls != [] {
      var c := calls[0];
      var rest := calls[1..];
      var state' := if c == F || c == B then Flip(state) else state;
      var mode' := if c == E || c == T then Other(mode) else mode;
      AllowedIffAlternating(state', mode', rest);
      if c == F || c == B {
        assert Switches(calls) == Switches(rest);
        AlternatesCons(c, Passes(rest), if state == Forward then F else B, if state == Forward then B else F);
      } else {
        assert Passes(calls) == Passes(rest);
        AlternatesCons(c, Switches(rest), if mode == Train then E else T, if mode == Train then T else E);
      }
    }
  }

  /** `[c] + xs` alternates starting with `a` exactly when `c` is `a` and
      `xs` alternates starting with `b`. */
  lemma AlternatesCons(c: Call, xs: seq<Call>, a: Call, b: Call)
    ensures Alternates([c] + xs, a, b) <==> c == a && Alternates(xs, b, a)
  {
    var ys := [c] + xs;
    assert ys[0] == c;
    if Alternates(ys, a, b) {
      forall k | 0 <= k < |xs|
        ensures xs[k] == if k % 2 == 0 then b else a
      {
        assert ys[k + 1] == xs[k];
        assert (k + 1) % 2 == 0 <==> k % 2 == 1;
      }
    }
    if c == a && Alternates(xs, b, a) {
      forall k | 0 <= k < |ys|
        ensures ys[k] == if k % 2 == 0 then a else b
      {
        if k > 0 {
          assert ys[k] == xs[k - 1];
          assert (k - 1) % 2 == 0 <==> k % 2 == 1;
        }
      }
    }
  }

  // ---------------------------------------------------------------------
  // Call sequences through the module

  /** Runs `calls` through the module, the `k`-th call taking `data[k]` as
      its input or gradient when it needs one; `None` once a `backward`
      panics. That this is defined at all for an allowed sequence is the
      point: every call meets the state or mode its `impl` block needs. */
  function Replay(s: SafeModule, calls: seq<Call>, data: seq<Matrix>): Option<SafeModule>
    requires Allowed(s.state, s.mode, calls) && |data| == |calls|
    decreases |calls|
  {
    if calls == [] then Some(s)
    else match calls[0]
      case F => Replay(SafeForward(s, data[0]).0, calls[1..], data[1..])
      case B =>
        var b := SafeBackward(s, data[0]);
        if b.Panic? then None else Replay(b.state, calls[1..], data[1..])
      case E => Replay(SafeEval(s), calls[1..], data[1..])
      case T => Replay(SafeTrain(s), calls[1..], data[1..])
  }

  /** `st` after `n` passes, and `m` after `n` switches. */
  function Flips(st: State, n: nat): State { if n % 2 == 0 then st else Flip(st) }
  function Switched(m: Mode, n: nat): Mode { if n % 2 == 0 then m else Other(m) }

  /** Replaying an allowed sequence through the module ends where the
      typestate rules say: each pass flips the state and each switch flips
      the mode, so the parities of their counts decide where it stops. */
  lemma {:induction false} ReplayReaches(s: SafeModule, calls: seq<Call>, data: seq<Matrix>)
    requires Allowed(s.state, s.mode, calls) && |data| == |calls|
    ensures var r := Replay(s, calls, data);
      r.Some? ==>
        r.value.state == Flips(s.state, |Passes(calls)|) && r.value.mode == Switched(s.mode, |Switches(calls)|)
    decreases |calls|
  {
    if calls != [] {
      var rest := calls[1..];
      var np, ns := |Passes(rest)|, |Switches(rest)|;
      CountsCons(calls);
      FlipsSucc(s.state, np);
      SwitchedSucc(s.mode, ns);
      match calls[0]
      case F =>
        ReplayReaches(SafeForward(s, data[0]).0, rest, data[1..]);
      case B =>
        var b := SafeBackward(s, data[0]);
        if b.Done? {
          ReplayReaches(b.state, rest, data[1..]);
        }
      case E =>
        ReplayReaches(SafeEval(s), rest, data[1..]);
      case T =>
        ReplayReaches(SafeTrain(s), rest, data[1..]);
    }
  }

  /** One more flip is one more step of parity. */
  lemma FlipsSucc(st: State, n: nat)
    ensures Flips(Flip(st), n) == Flips(st, n + 1)
  {
  }

  lemma SwitchedSucc(m: Mode, n: nat)
    ensures Switched(Other(m), n) == Switched(m, n + 1)
  {
  }

  /** The first call adds one to the count of its own kind only. */
  lemma CountsCons(calls: seq<Call>)
    requires calls != []
    ensures |Passes(calls)| == |Passes(calls[1..])| + (if calls[0] == F || calls[0] == B then 1 else 0)
    ensures |Switches(calls)| == |Switches(calls[1..])| + (if calls[0] == E || calls[0] == T then 1 else 0)
  {
  }
}
