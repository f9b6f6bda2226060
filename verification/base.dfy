/** Shared vocabulary: Rust's `Option`, integer ranges, and the sequence
    helpers (map, reverse, concatenation, permutation) the other modules use. */
module Base {

  /** Rust's `Option<T>`. */
  datatype Option<T> = None | Some(value: T)

  /** The indices `0..n` in increasing order. */
  function Upto(n: nat): (r: seq<nat>)
    ensures |r| == n
    ensures forall k | 0 <= k < n :: r[k] == k
  {
    seq(n, k requires 0 <= k < n => k as nat)
  }

  /** The integers of Rust's half-open range `lo..hi`. */
  function IntRange(lo: int, hi: int): (r: seq<int>)
    ensures |r| == if lo <= hi then hi - lo else 0
    ensures forall k | 0 <= k < |r| :: r[k] == lo + k
  {
    if hi <= lo then [] else seq(hi - lo, k => lo + k)
  }

  function Map<A, B>(f: A -> B, s: seq<A>): (r: seq<B>)
    ensures |r| == |s|
    ensures forall k | 0 <= k < |s| :: r[k] == f(s[k])
  {
    seq(|s|, k requires 0 <= k < |s| => f(s[k]))
  }

  function Reverse<T>(s: seq<T>): (r: seq<T>)
    ensures |r| == |s|
    ensures forall k | 0 <= k < |s| :: r[k] == s[|s| - 1 - k]
  {
    seq(|s|, k requires 0 <= k < |s| => s[|s| - 1 - k])
  }

  /** All the sequences of `ss`, one after another. */
  function Concat<T>(ss: seq<seq<T>>): seq<T>
  {
    if ss == [] then [] else ss[0] + Concat(ss[1..])
  }

  lemma ConcatCons<T>(s: seq<T>, ss: seq<seq<T>>)
    ensures Concat([s] + ss) == s + Concat(ss)
  {
    assert ([s] + ss)[1..] == ss;
  }

  function Min(a: int, b: int): int { if a <= b then a else b }

  /** `p` lists every index of `0..n` exactly once. */
  predicate IsPermutation(p: seq<nat>, n: nat)
  {
    multiset(p) == multiset(Upto(n))
  }

  /** Every index of `0..n` occurs exactly once in `Upto(n)`, and nothing else. */
  lemma {:induction false} UptoCount(n: nat, j: int)
    ensures multiset(Upto(n))[j] == if 0 <= j < n then 1 else 0
  {
    if n > 0 {
      var last: nat := n - 1;
      UptoCount(last, j);
      assert Upto(n) == Upto(last) + [last];
      assert multiset(Upto(n)) == multiset(Upto(last)) + multiset{last};
    }
  }

  /** A permutation of `0..n` has length `n`, stays below `n` and has no repeats. */
  lemma PermutationFacts(p: seq<nat>, n: nat)
    requires IsPermutation(p, n)
    ensures |p| == n
    ensures forall k | 0 <= k < |p| :: p[k] < n
    ensures forall j | 0 <= j < n :: multiset(p)[j] == 1
  {
    assert |multiset(p)| == |multiset(Upto(n))|;
    forall k | 0 <= k < |p|
      ensures p[k] < n
    {
      assert p[k] in multiset(p);
      UptoCount(n, p[k]);
    }
    forall j | 0 <= j < n
      ensures multiset(p)[j] == 1
    {
      UptoCount(n, j);
    }
  }

  lemma MapConcat<A, B>(f: A -> B, s: seq<A>, t: seq<A>)
    ensures Map(f, s + t) == Map(f, s) + Map(f, t)
  {
  }

  /** Mapping a function over two rearrangements of the same elements gives
      two rearrangements of the same results. */
  lemma {:induction false} MapPreservesMultiset<A, B>(f: A -> B, xs: seq<A>, ys: seq<A>)
    requires multiset(xs) == multiset(ys)
    ensures multiset(Map(f, xs)) == multiset(Map(f, ys))
  {
    if xs == [] {
      assert |ys| == |multiset(ys)| == 0;
    } else {
      var x := xs[0];
      assert x in multiset(ys) by { assert x in multiset(xs); }
      var k :| 0 <= k < |ys| && ys[k] == x;
      var ys' := RemoveAt(ys, k);
      var xs' := RemoveAt(xs, 0);
      assert multiset(xs') == multiset(ys') by {
        RemoveAtMultiset(ys, k);
        RemoveAtMultiset(xs, 0);
        MultisetCancel(multiset(xs'), multiset(ys'), x);
      }
      MapPreservesMultiset(f, xs', ys');
      MapRemoveAt(f, ys, k);
      MapRemoveAt(f, xs, 0);
    }
  }

  lemma MultisetCancel<A>(a: multiset<A>, b: multiset<A>, x: A)
    requires a + multiset{x} == b + multiset{x}
    ensures a == b
  {
    assert a == (a + multiset{x}) - multiset{x};
    assert b == (b + multiset{x}) - multiset{x};
  }

  function RemoveAt<A>(s: seq<A>, k: nat): seq<A>
    requires k < |s|
  {
    s[..k] + s[k + 1..]
  }

  lemma RemoveAtMultiset<A>(s: seq<A>, k: nat)
    requires k < |s|
    ensures multiset(s) == multiset(RemoveAt(s, k)) + multiset{s[k]}
  {
    assert s == s[..k] + [s[k]] + s[k + 1..];
  }

  lemma MapRemoveAt<A, B>(f: A -> B, s: seq<A>, k: nat)
    requires k < |s|
    ensures multiset(Map(f, s)) == multiset(Map(f, RemoveAt(s, k))) + multiset{f(s[k])}
  {
    var m := Map(f, s);
    assert Map(f, RemoveAt(s, k)) == RemoveAt(m, k);
    RemoveAtMultiset(m, k);
  }

  /** A sequence is its prefix followed by its suffix. */
  lemma SplitAt<T>(s: seq<T>, i: nat)
    requires i <= |s|
    ensures s[..i] + s[i..] == s
  {
  }

  lemma ConcatAppend<T>(ss: seq<seq<T>>, s: seq<T>)
    ensures Concat(ss + [s]) == Concat(ss) + s
  {
    if ss != [] {
      assert (ss + [s])[1..] == ss[1..] + [s];
      ConcatAppend(ss[1..], s);
    }
  }

  lemma {:induction false} ReversePreservesMultiset<T>(s: seq<T>)
    ensures multiset(Reverse(s)) == multiset(s)
  {
    if s != [] {
      var n := |s|;
      ReversePreservesMultiset(s[..n - 1]);
      assert Reverse(s) == [s[n - 1]] + Reverse(s[..n - 1]);
      assert s == s[..n - 1] + [s[n - 1]];
    }
  }

  // ---------------------------------------------------------------------
  // Floor division, as Rust's `/` on `usize`

  /** The quotient is the one `q` with `n == q * b + r` and `r < b`. */
  lemma DivUnique(n: nat, b: nat, q: nat, r: nat)
    requires 0 <= r < b && n == q * b + r
    ensures n / b == q
  {
    var q', r' := n / b, n % b;
    if q' > q {
      MulMono(q + 1, q', b);
    } else if q' < q {
      MulMono(q' + 1, q, b);
    }
  }

  lemma MulMono(a: nat, c: nat, b: nat)
    requires a <= c
    ensures a * b <= c * b
  {
  }

  lemma MulSucc(a: nat, b: nat)
    ensures (a + 1) * b == b + a * b
  {
  }

  /** Taking `b` away from `n` lowers the quotient by one. */
  lemma DivStep(n: nat, b: nat)
    requires 0 < b <= n
    ensures n / b == (n - b) / b + 1
    ensures n / b * b == (n - b) / b * b + b
  {
    var q, r := (n - b) / b, (n - b) % b;
    assert n == (q + 1) * b + r;
    DivUnique(n, b, q + 1, r);
  }

  /** Below the divisor the quotient is zero. */
  lemma DivSmall(n: nat, b: nat)
    requires n < b
    ensures n / b == 0
  {
    DivUnique(n, b, 0, n);
  }

  /** Floor division never overshoots. */
  lemma DivBound(n: nat, b: nat)
    requires 0 < b
    ensures n / b * b <= n
  {
  }

  /** Floor division by `b` counts the whole multiples of `b` in `n`: one
      more would overshoot. */
  lemma DivFloor(n: nat, b: nat)
    requires 0 < b
    ensures n / b * b <= n < n / b * b + b
  {
  }

  // ---------------------------------------------------------------------
  // Collecting lookups

  /** Looking up each index in turn with `get`, stopping at the first
      `None`: what collecting an index iterator does. */
  function Collect<T>(get: nat -> Option<T>, indices: seq<nat>): seq<T>
  {
    if indices == [] then []
    else match get(indices[0])
      case None => []
      case Some(x) => [x] + Collect(get, indices[1..])
  }

  /** The same from the last index backwards. */
  function CollectBack<T>(get: nat -> Option<T>, indices: seq<nat>): seq<T>
  {
    if indices == [] then []
    else match get(indices[|indices| - 1])
      case None => []
      case Some(x) => [x] + CollectBack(get, indices[..|indices| - 1])
  }

  /** Every index hits. */
  predicate Hits<T>(get: nat -> Option<T>, indices: seq<nat>)
  {
    forall k | 0 <= k < |indices| :: get(indices[k]).Some?
  }

  lemma {:induction false} CollectComplete<T>(get: nat -> Option<T>, indices: seq<nat>)
    requires Hits(get, indices)
    ensures |Collect(get, indices)| == |indices|
    ensures forall k | 0 <= k < |indices| :: get(indices[k]) == Some(Collect(get, indices)[k])
  {
    if indices != [] {
      var tail := indices[1..];
      assert Hits(get, tail) by {
        forall k | 0 <= k < |tail|
          ensures get(tail[k]).Some?
        {
          assert tail[k] == indices[k + 1];
        }
      }
      CollectComplete(get, tail);
      var c := Collect(get, indices);
      assert c == [get(indices[0]).value] + Collect(get, tail);
      forall k | 0 <= k < |indices|
        ensures get(indices[k]) == Some(c[k])
      {
        if k > 0 {
          assert indices[k] == tail[k - 1] && c[k] == Collect(get, tail)[k - 1];
        }
      }
    }
  }

  lemma {:induction false} CollectAppend<T>(get: nat -> Option<T>, xs: seq<nat>, ys: seq<nat>)
    requires Hits(get, xs)
    ensures Collect(get, xs + ys) == Collect(get, xs) + Collect(get, ys)
  {
    if xs != [] {
      var zs := xs + ys;
      assert zs[0] == xs[0];
      assert zs[1..] == xs[1..] + ys;
      assert Hits(get, xs[1..]) by {
        forall k | 0 <= k < |xs| - 1
          ensures get(xs[1..][k]).Some?
        {
          assert xs[1..][k] == xs[k + 1];
        }
      }
      CollectAppend(get, xs[1..], ys);
    } else {
      assert xs + ys == ys;
    }
  }

  lemma {:induction false} CollectBackIsReverse<T>(get: nat -> Option<T>, indices: seq<nat>)
    requires Hits(get, indices)
    ensures CollectBack(get, indices) == Reverse(Collect(get, indices))
  {
    if indices != [] {
      var n := |indices|;
      var front := indices[..n - 1];
      assert Hits(get, front) by {
        forall k | 0 <= k < |front|
          ensures get(front[k]).Some?
        {
          assert front[k] == indices[k];
        }
      }
      CollectBackIsReverse(get, front);
      CollectComplete(get, indices);
      CollectComplete(get, front);
      var c := Collect(get, indices);
      assert Collect(get, front) == c[..n - 1];
      assert CollectBack(get, indices) == [c[n - 1]] + Reverse(c[..n - 1]);
      assert Reverse(c) == [c[n - 1]] + Reverse(c[..n - 1]);
    }
  }
}
