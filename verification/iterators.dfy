/** The crate's iterator extensions: `all_default` and `any_default` (both
    built on `try_fold`), `ArrayChunks` and `OptionFilter`. An iterator is
    the sequence of items it still has to give; every operation returns
    what it computes together with the items left unconsumed. The
    closures are pure functions here. */
module Iterators {
  import opened Base

  // ---------------------------------------------------------------------
  // all_default / any_default

  /** Rust's `ControlFlow<(), bool>`. */
  datatype Flow = Continue(acc: bool) | Break

  /** `Iterator::try_fold`: feeds items to `step` until it breaks; returns
      the last flow and the items not yet taken. */
  function TryFold<T>(acc: bool, xs: seq<T>, step: (bool, T) -> Flow): (Flow, seq<T>)
    decreases |xs|
  {
    if xs == [] then (Continue(acc), [])
    else
      match step(acc, xs[0])
      case Break => (Break, xs[1..])
      case Continue(acc') => TryFold(acc', xs[1..], step)
  }

  /** The `check` closure of `all_default`: continue with `true` while
      `f` holds, break otherwise. */
  function AllCheck<T>(f: T -> bool): (bool, T) -> Flow
  {
    (_, x) => if f(x) then Continue(true) else Break
  }

  /** The `check` closure of `any_default`: break as soon as `f` holds,
      continue with `false` otherwise. */
  function AnyCheck<T>(f: T -> bool): (bool, T) -> Flow
  {
    (_, x) => if f(x) then Break else Continue(false)
  }

  /** `all_default`: `try_fold(default, check(f)) == Continue(true)`. */
  function AllDefault<T>(xs: seq<T>, default: bool, f: T -> bool): (bool, seq<T>)
  {
    var (flow, rest) := TryFold(default, xs, AllCheck(f));
    (flow == Continue(true), rest)
  }

  /** `any_default`: `try_fold(default, check(f)) != Continue(false)`. */
  function AnyDefault<T>(xs: seq<T>, default: bool, f: T -> bool): (bool, seq<T>)
  {
    var (flow, rest) := TryFold(default, xs, AnyCheck(f));
    (flow != Continue(false), rest)
  }

  /** `f` negated. */
  function Fails<T>(f: T -> bool): T -> bool
  {
    x => !f(x)
  }

  /** The position of the first item satisfying `p`, or `|xs|` when none
      does: the reference the folds are measured against. */
  function FirstWhere<T>(xs: seq<T>, p: T -> bool): (i: nat)
    ensures i <= |xs|
    ensures i < |xs| ==> p(xs[i])
    ensures forall k | 0 <= k < i :: !p(xs[k])
    decreases |xs|
  {
    if xs == [] || p(xs[0]) then 0
    else
      var j := FirstWhere(xs[1..], p);
      assert forall k | 1 <= k < 1 + j :: xs[k] == xs[1..][k - 1];
      1 + j
  }

  /** The `all_default` fold breaks just after the first item failing
      `f`, and otherwise consumes everything and continues with `true`
      (with `acc` when there was nothing to fold). */
  lemma {:induction false} TryFoldAll<T>(acc: bool, xs: seq<T>, f: T -> bool)
    ensures var i := FirstWhere(xs, Fails(f));
      TryFold(acc, xs, AllCheck(f))
        == if i < |xs| then (Break, xs[i + 1..]) else (Continue(if xs == [] then acc else true), [])
    decreases |xs|
  {
    if xs != [] && f(xs[0]) {
      TryFoldAll(true, xs[1..], f);
      var j := FirstWhere(xs[1..], Fails(f));
      if j < |xs| - 1 {
        assert xs[1..][j + 1..] == xs[j + 2..];
      }
    }
  }

  /** The `any_default` fold breaks just after the first item satisfying
      `f`, and otherwise consumes everything and continues with `false`
      (with `acc` when there was nothing to fold). */
  lemma {:induction false} TryFoldAny<T>(acc: bool, xs: seq<T>, f: T -> bool)
    ensures var i := FirstWhere(xs, f);
      TryFold(acc, xs, AnyCheck(f))
        == if i < |xs| then (Break, xs[i + 1..]) else (Continue(if xs == [] then acc else false), [])
    decreases |xs|
  {
    if xs != [] && !f(xs[0]) {
      TryFoldAny(false, xs[1..], f);
      var j := FirstWhere(xs[1..], f);
      if j < |xs| - 1 {
        assert xs[1..][j + 1..] == xs[j + 2..];
      }
    }
  }

  /** `all_default` is `default` on an empty iterator and otherwise says
      whether every item satisfies `f`; it stops right after the first item
      that does not, leaving the rest unconsumed. */
  lemma AllDefaultSpec<T>(xs: seq<T>, default: bool, f: T -> bool)
    ensures xs == [] ==> AllDefault(xs, default, f).0 == default
    ensures xs != [] ==> (AllDefault(xs, default, f).0 <==> forall k | 0 <= k < |xs| :: f(xs[k]))
    ensures (forall k | 0 <= k < |xs| :: f(xs[k])) ==> AllDefault(xs, default, f).1 == []
    ensures !(forall k | 0 <= k < |xs| :: f(xs[k])) ==>
      var rest := AllDefault(xs, default, f).1;
      var i := |xs| - |rest| - 1;
      && 0 <= i < |xs| && rest == xs[i + 1..] && !f(xs[i])
      && forall k | 0 <= k < i :: f(xs[k])
  {
    TryFoldAll(default, xs, f);
    var i := FirstWhere(xs, Fails(f));
    if i < |xs| {
      assert Fails(f)(xs[i]);
    } else {
      forall k | 0 <= k < |xs|
        ensures f(xs[k])
      {
        assert !Fails(f)(xs[k]);
      }
    }
  }

  /** `any_default` is `default` on an empty iterator and otherwise says
      whether some item satisfies `f`; it stops right after the first item
      that does, leaving the rest unconsumed. */
  lemma AnyDefaultSpec<T>(xs: seq<T>, default: bool, f: T -> bool)
    ensures xs == [] ==> AnyDefault(xs, default, f).0 == default
    ensures xs != [] ==> (AnyDefault(xs, default, f).0 <==> exists k | 0 <= k < |xs| :: f(xs[k]))
    ensures (forall k | 0 <= k < |xs| :: !f(xs[k])) ==> AnyDefault(xs, default, f).1 == []
    ensures (exists k | 0 <= k < |xs| :: f(xs[k])) ==>
      var rest := AnyDefault(xs, default, f).1;
      var i := |xs| - |rest| - 1;
      && 0 <= i < |xs| && rest == xs[i + 1..] && f(xs[i])
      && forall k | 0 <= k < i :: !f(xs[k])
  {
    TryFoldAny(default, xs, f);
  }

  // ---------------------------------------------------------------------
  // ArrayChunks

  /** `ArrayChunks::next`: pull `n` items; collecting into `Option` gives
      `None` as soon as the inner iterator runs dry, by which time the
      short remainder has been consumed. The `try_into` to `[T; N]` cannot
      fail, since exactly `n` items were collected. */
  function ChunkNext<T>(xs: seq<T>, n: nat): (Option<seq<T>>, seq<T>)
    decreases n
  {
    if n == 0 then (Some([]), xs)
    else if xs == [] then (None, [])
    else
      match ChunkNext(xs[1..], n - 1)
      case (Some(c), rest) => (Some([xs[0]] + c), rest)
      case (None, rest) => (None, rest)
  }

  /** `ArrayChunks::next_back`: the same with `next_back`, so the chunk
      lists the last `n` items from the back. */
  function ChunkNextBack<T>(xs: seq<T>, n: nat): (Option<seq<T>>, seq<T>)
    decreases n
  {
    if n == 0 then (Some([]), xs)
    else if xs == [] then (None, [])
    else
      match ChunkNextBack(xs[..|xs| - 1], n - 1)
      case (Some(c), rest) => (Some([xs[|xs| - 1]] + c), rest)
      case (None, rest) => (None, rest)
  }

  /** `ArrayChunks::size_hint`: both bounds of the inner hint divided by
      `n`. */
  function ChunkSizeHint(inner: (nat, Option<nat>), n: nat): (nat, Option<nat>)
    requires n > 0
  {
    (inner.0 / n, match inner.1 case Some(u) => Some(u / n) case None => None)
  }

  /** `ArrayChunks::count`: the number of whole chunks of `n` the items
      fill. */
  function ChunkCount<T>(xs: seq<T>, n: nat): (r: nat)
    requires n > 0
    ensures r * n <= |xs| < r * n + n
  {
    DivFloor(|xs|, n);
    |xs| / n
  }

  /** `next` yields the next `n` items as one chunk when at least `n`
      remain, and otherwise `None`, having used up the remainder. */
  lemma {:induction false} ChunkNextSpec<T>(xs: seq<T>, n: nat)
    ensures ChunkNext(xs, n).0.Some? <==> n <= |xs|
    ensures n <= |xs| ==> ChunkNext(xs, n) == (Some(xs[..n]), xs[n..])
    ensures n > |xs| ==> ChunkNext(xs, n).1 == []
    decreases n
  {
    if n > 0 && xs != [] {
      ChunkNextSpec(xs[1..], n - 1);
      if n <= |xs| {
        assert [xs[0]] + xs[1..][..n - 1] == xs[..n];
        assert xs[1..][n - 1..] == xs[n..];
      }
    }
  }

  /** `next_back` yields the last `n` items, last first, when at least `n`
      remain, and otherwise `None`, having used up the remainder. */
  lemma {:induction false} ChunkNextBackSpec<T>(xs: seq<T>, n: nat)
    ensures ChunkNextBack(xs, n).0.Some? <==> n <= |xs|
    ensures n <= |xs| ==> ChunkNextBack(xs, n) == (Some(Reverse(xs[|xs| - n..])), xs[..|xs| - n])
    ensures n > |xs| ==> ChunkNextBack(xs, n).1 == []
    decreases n
  {
    if n > 0 && xs != [] {
      var m := |xs|;
      var front := xs[..m - 1];
      ChunkNextBackSpec(front, n - 1);
      if n <= m {
        assert front[|front| - (n - 1)..] == xs[m - n..m - 1];
        assert front[..|front| - (n - 1)] == xs[..m - n];
        var tail := xs[m - n..];
        assert tail == xs[m - n..m - 1] + [xs[m - 1]];
        assert Reverse(tail) == [xs[m - 1]] + Reverse(xs[m - n..m - 1]);
        var r := ChunkNextBack(front, n - 1);
        assert r == (Some(Reverse(xs[m - n..m - 1])), xs[..m - n]);
        assert ChunkNextBack(xs, n) == (Some([xs[m - 1]] + r.0.value), r.1);
      }
    } else if n == 0 {
      assert Reverse(xs[|xs|..]) == [] && xs[..|xs|] == xs;
    }
  }

  /** The chunks a `for` loop over `ArrayChunks` receives. */
  function ChunkDrain<T>(xs: seq<T>, n: nat): seq<seq<T>>
    requires n > 0
    decreases |xs|
  {
    ChunkNextSpec(xs, n);
    match ChunkNext(xs, n)
    case (Some(c), rest) => [c] + ChunkDrain(rest, n)
    case (None, _) => []
  }

  /** Draining gives `count()` chunks, which is also what `size_hint`
      reports for an exact inner iterator; together they are the items in
      order with the short remainder dropped. */
  lemma ChunkDrainSpec<T>(xs: seq<T>, n: nat)
    requires n > 0
    ensures |ChunkDrain(xs, n)| == ChunkCount(xs, n)
    ensures ChunkSizeHint((|xs|, Some(|xs|)), n) == (ChunkCount(xs, n), Some(ChunkCount(xs, n)))
    ensures |xs| / n * n <= |xs|
    ensures Concat(ChunkDrain(xs, n)) == xs[..|xs| / n * n]
    ensures forall k | 0 <= k < |ChunkDrain(xs, n)| :: |ChunkDrain(xs, n)[k]| == n
  {
    ChunkDrainCount(xs, n);
    ChunkDrainItems(xs, n);
  }

  lemma {:induction false} ChunkDrainCount<T>(xs: seq<T>, n: nat)
    requires n > 0
    ensures |ChunkDrain(xs, n)| == |xs| / n
    decreases |xs|
  {
    ChunkNextSpec(xs, n);
    if n <= |xs| {
      ChunkDrainCount(xs[n..], n);
      DivStep(|xs|, n);
      assert ChunkDrain(xs, n) == [xs[..n]] + ChunkDrain(xs[n..], n);
    } else {
      DivSmall(|xs|, n);
    }
  }

  /** Every drained chunk has `n` items, and the chunks spell out a prefix
      of the items. */
  lemma {:induction false} ChunkDrainItems<T>(xs: seq<T>, n: nat)
    requires n > 0
    ensures var cs := ChunkDrain(xs, n);
      && |cs| * n <= |xs|
      && Concat(cs) == xs[..|cs| * n]
      && forall k | 0 <= k < |cs| :: |cs[k]| == n
    decreases |xs|
  {
    ChunkNextSpec(xs, n);
    if n <= |xs| {
      var rest := xs[n..];
      ChunkDrainItems(rest, n);
      var cs := ChunkDrain(rest, n);
      var all := [xs[..n]] + cs;
      assert ChunkDrain(xs, n) == all;
      assert all[1..] == cs;
      assert Concat(all) == xs[..n] + Concat(cs);
      var m := |cs| * n;
      assert |all| * n == n + m by {
        MulSucc(|cs|, n);
      }
      assert xs[..n + m] == xs[..n] + rest[..m];
      forall k | 0 <= k < |all|
        ensures |all[k]| == n
      {
        if k > 0 {
          assert all[k] == cs[k - 1];
        }
      }
    }
  }

  // ---------------------------------------------------------------------
  // OptionFilter

  /** The predicate keeps an item only when it answers `Some(true)`. */
  predicate Keep<T>(p: T -> Option<bool>, x: T)
  {
    p(x) == Some(true)
  }

  /** `OptionFilter::next`: pull items until one is kept; `None` (and an
      exhausted iterator) once the inner iterator ends. */
  function FilterNext<T>(xs: seq<T>, p: T -> Option<bool>): (Option<T>, seq<T>)
    decreases |xs|
  {
    if xs == [] then (None, [])
    else if Keep(p, xs[0]) then (Some(xs[0]), xs[1..])
    else FilterNext(xs[1..], p)
  }

  /** `OptionFilter::next_back`: the same from the back. */
  function FilterNextBack<T>(xs: seq<T>, p: T -> Option<bool>): (Option<T>, seq<T>)
    decreases |xs|
  {
    if xs == [] then (None, [])
    else if Keep(p, xs[|xs| - 1]) then (Some(xs[|xs| - 1]), xs[..|xs| - 1])
    else FilterNextBack(xs[..|xs| - 1], p)
  }

  /** `OptionFilter::size_hint`: no lower bound, the inner upper bound. */
  function FilterSizeHint(inner: (nat, Option<nat>)): (nat, Option<nat>)
  {
    (0, inner.1)
  }

  /** Everything `next` yields until it returns `None`. */
  function FilterDrain<T>(xs: seq<T>, p: T -> Option<bool>): seq<T>
    decreases |xs|
  {
    match FilterNext(xs, p)
    case (None, _) => []
    case (Some(x), rest) =>
      FilterNextShrinks(xs, p);
      [x] + FilterDrain(rest, p)
  }

  lemma {:induction false} FilterNextShrinks<T>(xs: seq<T>, p: T -> Option<bool>)
    ensures |FilterNext(xs, p).1| <= |xs|
    ensures FilterNext(xs, p).0.Some? ==> |FilterNext(xs, p).1| < |xs|
    decreases |xs|
  {
    if xs != [] && !Keep(p, xs[0]) {
      FilterNextShrinks(xs[1..], p);
    }
  }

  /** `next` yields the first kept item and leaves what follows it, or
      returns `None` exactly when no item is kept, leaving nothing. */
  lemma {:induction false} FilterNextSpec<T>(xs: seq<T>, p: T -> Option<bool>)
    ensures FilterNext(xs, p).0.None? <==> forall k | 0 <= k < |xs| :: !Keep(p, xs[k])
    ensures FilterNext(xs, p).0.None? ==> FilterNext(xs, p).1 == []
    ensures FilterNext(xs, p).0.Some? ==>
      var rest := FilterNext(xs, p).1;
      var i := |xs| - |rest| - 1;
      && 0 <= i < |xs| && rest == xs[i + 1..]
      && FilterNext(xs, p).0.value == xs[i] && Keep(p, xs[i])
      && forall k | 0 <= k < i :: !Keep(p, xs[k])
    decreases |xs|
  {
    if xs != [] && !Keep(p, xs[0]) {
      FilterNextSpec(xs[1..], p);
      forall k | 0 <= k < |xs| - 1
        ensures xs[1..][k] == xs[k + 1]
      {
      }
      var r := FilterNext(xs[1..], p);
      if r.0.Some? {
        var i := |xs| - |r.1| - 1;
        assert xs[1..][i - 1 + 1..] == xs[i + 1..];
        forall k | 0 <= k < i
          ensures !Keep(p, xs[k])
        {
          if k > 0 {
            assert xs[k] == xs[1..][k - 1];
          }
        }
      }
    }
  }

  /** The kept items, in order: the reference the filter is held to. */
  function Kept<T>(xs: seq<T>, p: T -> Option<bool>): seq<T>
    decreases |xs|
  {
    if xs == [] then []
    else (if Keep(p, xs[0]) then [xs[0]] else []) + Kept(xs[1..], p)
  }

  /** Draining the filter yields exactly the kept items, in order. */
  lemma {:induction false} FilterDrainIsKept<T>(xs: seq<T>, p: T -> Option<bool>)
    ensures FilterDrain(xs, p) == Kept(xs, p)
    decreases |xs|
  {
    if xs != [] {
      FilterDrainIsKept(xs[1..], p);
      if Keep(p, xs[0]) {
        assert FilterNext(xs, p) == (Some(xs[0]), xs[1..]);
        assert FilterDrain(xs, p) == [xs[0]] + FilterDrain(xs[1..], p);
      } else {
        assert FilterNext(xs, p) == FilterNext(xs[1..], p);
      }
    }
  }

  /** Every kept item satisfies the predicate, every item that satisfies it
      is kept, and nothing is added. */
  lemma KeptSpec<T>(xs: seq<T>, p: T -> Option<bool>)
    ensures forall k | 0 <= k < |Kept(xs, p)| :: Keep(p, Kept(xs, p)[k])
    ensures forall k | 0 <= k < |xs| :: Keep(p, xs[k]) ==> xs[k] in Kept(xs, p)
    ensures multiset(Kept(xs, p)) <= multiset(xs)
    ensures |Kept(xs, p)| <= |xs|
  {
    KeptSound(xs, p);
    KeptComplete(xs, p);
    KeptSub(xs, p);
  }

  lemma {:induction false} KeptSound<T>(xs: seq<T>, p: T -> Option<bool>)
    ensures forall k | 0 <= k < |Kept(xs, p)| :: Keep(p, Kept(xs, p)[k])
    decreases |xs|
  {
    if xs != [] {
      var tail := Kept(xs[1..], p);
      KeptSound(xs[1..], p);
      var head := if Keep(p, xs[0]) then [xs[0]] else [];
      var r := head + tail;
      assert Kept(xs, p) == r;
      forall k | 0 <= k < |r|
        ensures Keep(p, r[k])
      {
        if k >= |head| {
          assert r[k] == tail[k - |head|];
        }
      }
    }
  }

  lemma {:induction false} KeptComplete<T>(xs: seq<T>, p: T -> Option<bool>)
    ensures forall k | 0 <= k < |xs| :: Keep(p, xs[k]) ==> xs[k] in Kept(xs, p)
    decreases |xs|
  {
    if xs != [] {
      var tail := xs[1..];
      KeptComplete(tail, p);
      var head := if Keep(p, xs[0]) then [xs[0]] else [];
      assert Kept(xs, p) == head + Kept(tail, p);
      forall k | 0 <= k < |xs| && Keep(p, xs[k])
        ensures xs[k] in Kept(xs, p)
      {
        if k > 0 {
          assert xs[k] == tail[k - 1];
        }
      }
    }
  }

  lemma {:induction false} KeptSub<T>(xs: seq<T>, p: T -> Option<bool>)
    ensures multiset(Kept(xs, p)) <= multiset(xs)
    ensures |Kept(xs, p)| <= |xs|
    decreases |xs|
  {
    if xs != [] {
      var tail := xs[1..];
      KeptSub(tail, p);
      var head := if Keep(p, xs[0]) then [xs[0]] else [];
      assert Kept(xs, p) == head + Kept(tail, p);
      assert xs == [xs[0]] + tail;
      assert multiset(xs) == multiset{xs[0]} + multiset(tail);
    }
  }

  /** Draining the filter yields, in order, exactly the kept items; their
      number never exceeds the inner upper bound. */
  lemma FilterDrainSpec<T>(xs: seq<T>, p: T -> Option<bool>)
    ensures forall k | 0 <= k < |FilterDrain(xs, p)| :: Keep(p, FilterDrain(xs, p)[k])
    ensures forall k | 0 <= k < |xs| :: Keep(p, xs[k]) ==> xs[k] in FilterDrain(xs, p)
    ensures multiset(FilterDrain(xs, p)) <= multiset(xs)
    ensures |FilterDrain(xs, p)| <= FilterSizeHint((|xs|, Some(|xs|))).1.value
    ensures FilterDrain(xs, p) == Kept(xs, p)
  {
    FilterDrainIsKept(xs, p);
    KeptSpec(xs, p);
  }

  /** `next_back` is `next` over the items read from the back. */
  lemma {:induction false} FilterNextBackMirrors<T>(xs: seq<T>, p: T -> Option<bool>)
    ensures FilterNextBack(xs, p).0 == FilterNext(Reverse(xs), p).0
    ensures FilterNextBack(xs, p).1 == Reverse(FilterNext(Reverse(xs), p).1)
    decreases |xs|
  {
    if xs != [] {
      var m := |xs|;
      var front := xs[..m - 1];
      var rx := Reverse(xs);
      assert rx[0] == xs[m - 1];
      assert rx[1..] == Reverse(front);
      assert Reverse(Reverse(front)) == front;
      if !Keep(p, xs[m - 1]) {
        FilterNextBackMirrors(front, p);
      }
    }
  }
}
