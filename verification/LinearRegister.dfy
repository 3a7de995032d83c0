/**
 Linear feedback registers over GF(2), in general: a state space with an addition in which every
 element is its own inverse, and a register that advances by a linear map and then adds the value
 that enters. Bech32 and CRC-16 are both of this kind.

 The addition is a function value, so the algebra here never looks at bits.
 */
module LinearRegister {

  datatype Register<!V> = Register(add: (V, V) -> V, zero: V, advance: V -> V)

  /** Always true. Asserting it names the four terms at which a proof needs the interchange law. */
  ghost predicate Use<V(!new)>(a: V, b: V, c: V, d: V) {
    true
  }

  /** Addition over GF(2), as far as the proofs need it. */
  ghost predicate IsXor<V(!new)>(add: (V, V) -> V, zero: V) {
    && (forall a, b, c, d {:trigger Use(a, b, c, d)} :: Use(a, b, c, d) ==> add(add(a, b), add(c, d)) == add(add(a, c), add(b, d)))
    && (forall a :: add(a, zero) == a)
    && (forall a, b :: add(a, b) == zero <==> a == b)
  }

  ghost predicate IsLinearMap<V(!new)>(add: (V, V) -> V, f: V -> V) {
    forall a, b :: f(add(a, b)) == add(f(a), f(b))
  }

  ghost predicate IsLinear<V(!new)>(r: Register<V>) {
    IsXor(r.add, r.zero) && IsLinearMap(r.add, r.advance)
  }

  /** No state other than zero is forgotten on zero input. */
  ghost predicate IsInjective<V(!new)>(r: Register<V>) {
    forall a :: r.advance(a) == r.zero ==> a == r.zero
  }

  /** The register after `values`, started from `state`. */
  function Run<V>(r: Register<V>, state: V, values: seq<V>): V {
    if values == [] then state
    else r.add(r.advance(Run(r, state, values[..|values| - 1])), values[|values| - 1])
  }

  function Sum<V>(r: Register<V>, s: seq<V>, t: seq<V>): (d: seq<V>)
    requires |s| == |t|
    ensures |d| == |s|
  {
    seq(|s|, i requires 0 <= i < |s| => r.add(s[i], t[i]))
  }

  function Zeros<V>(r: Register<V>, n: nat): (z: seq<V>)
    ensures |z| == n
  {
    seq(n, i => r.zero)
  }

  lemma {:induction false} RunConcat<V>(r: Register<V>, state: V, s: seq<V>, t: seq<V>)
    ensures Run(r, state, s + t) == Run(r, Run(r, state, s), t)
  {
    if t == [] {
      assert s + t == s;
    } else {
      assert (s + t)[..|s + t| - 1] == s + t[..|t| - 1];
      RunConcat(r, state, s, t[..|t| - 1]);
    }
  }

  lemma RunThree<V>(r: Register<V>, state: V, pre: seq<V>, s: seq<V>, post: seq<V>)
    ensures Run(r, state, pre + s + post) == Run(r, Run(r, Run(r, state, pre), s), post)
  {
    RunConcat(r, state, pre, s);
    RunConcat(r, state, pre + s, post);
  }

  /** Two runs of equal length differ by the run of their difference. */
  lemma {:induction false} RunDifference<V(!new)>(r: Register<V>, a: V, b: V, s: seq<V>, t: seq<V>)
    requires IsLinear(r)
    requires |s| == |t|
    ensures Run(r, r.add(a, b), Sum(r, s, t)) == r.add(Run(r, a, s), Run(r, b, t))
  {
    if s == [] {
    } else {
      var s', t' := s[..|s| - 1], t[..|t| - 1];
      RunDifference(r, a, b, s', t');
      assert Sum(r, s, t)[..|s| - 1] == Sum(r, s', t');
      assert Use(r.advance(Run(r, a, s')), r.advance(Run(r, b, t')), s[|s| - 1], t[|t| - 1]);
    }
  }

  /** A nonzero state never runs back to zero on zero input, however long the input. */
  lemma {:induction false} RunZeros<V(!new)>(r: Register<V>, state: V, n: nat)
    requires IsLinear(r) && IsInjective(r)
    ensures Run(r, state, Zeros(r, n)) == r.zero ==> state == r.zero
  {
    if n == 0 {
    } else {
      var z := Zeros(r, n);
      assert z[..n - 1] == Zeros(r, n - 1);
      RunZeros(r, state, n - 1);
    }
  }

  /** To run on zero input is a linear map. */
  lemma ZeroRunLinear<V(!new)>(r: Register<V>, a: V, b: V, n: nat)
    requires IsLinear(r)
    ensures Run(r, r.add(a, b), Zeros(r, n)) == r.add(Run(r, a, Zeros(r, n)), Run(r, b, Zeros(r, n)))
  {
    var z := Zeros(r, n);
    RunDifference(r, a, b, z, z);
    assert Sum(r, z, z) == z;
  }

  /** The input that follows never merges two different states. */
  lemma RunInjective<V(!new)>(r: Register<V>, x: V, y: V, post: seq<V>)
    requires IsLinear(r) && IsInjective(r)
    requires Run(r, x, post) == Run(r, y, post)
    ensures x == y
  {
    RunDifference(r, x, y, post, post);
    assert Sum(r, post, post) == Zeros(r, |post|);
    RunZeros(r, r.add(x, y), |post|);
  }

  lemma WindowDifference<V(!new)>(r: Register<V>, state: V, s: seq<V>, t: seq<V>)
    requires IsLinear(r)
    requires |s| == |t|
    ensures Run(r, r.zero, Sum(r, s, t)) == r.add(Run(r, state, s), Run(r, state, t))
  {
    assert r.add(state, state) == r.zero;
    RunDifference(r, state, state, s, t);
  }

  /** What an input adds to the register, whatever the state, is what it leaves in an empty register. */
  lemma ZeroComparison<V(!new)>(r: Register<V>, state: V, s: seq<V>)
    requires IsLinear(r)
    ensures Run(r, r.zero, s) == r.add(Run(r, state, s), Run(r, state, Zeros(r, |s|)))
  {
    var z := Zeros(r, |s|);
    WindowDifference(r, state, s, z);
    assert Sum(r, s, z) == s;
  }

  /** Two messages that differ only in `s` against `t` end in the same state only if the register,
      started from zero, does not see the difference at all. */
  lemma BurstUnseen<V(!new)>(r: Register<V>, state: V, pre: seq<V>, s: seq<V>, t: seq<V>, post: seq<V>)
    requires IsLinear(r) && IsInjective(r)
    requires |s| == |t|
    requires Run(r, state, pre + s + post) == Run(r, state, pre + t + post)
    ensures Run(r, r.zero, Sum(r, s, t)) == r.zero
  {
    var m := Run(r, state, pre);
    assert Run(r, m, s) == Run(r, m, t) by {
      RunThree(r, state, pre, s, post);
      RunThree(r, state, pre, t, post);
      RunInjective(r, Run(r, m, s), Run(r, m, t), post);
    }
    WindowDifference(r, m, s, t);
  }

  // ----- sums of linear maps -----

  /** `acc` with the first `n` taps of `x` added to it, in order. */
  function FoldTaps<V>(add: (V, V) -> V, tap: (nat, V) -> V, n: nat, x: V, acc: V): V {
    if n == 0 then acc else add(FoldTaps(add, tap, n - 1, x, acc), tap(n - 1, x))
  }

  lemma {:induction false} FoldTapsLinear<V(!new)>(add: (V, V) -> V, zero: V, tap: (nat, V) -> V, n: nat, x: V, y: V, a: V, b: V)
    requires IsXor(add, zero)
    requires forall i :: 0 <= i < n ==> tap(i, add(x, y)) == add(tap(i, x), tap(i, y))
    ensures FoldTaps(add, tap, n, add(x, y), add(a, b)) == add(FoldTaps(add, tap, n, x, a), FoldTaps(add, tap, n, y, b))
  {
    if n == 0 {
    } else {
      FoldTapsLinear(add, zero, tap, n - 1, x, y, a, b);
      assert Use(FoldTaps(add, tap, n - 1, x, a), FoldTaps(add, tap, n - 1, y, b), tap(n - 1, x), tap(n - 1, y));
    }
  }

  lemma FoldFiveTaps<V>(add: (V, V) -> V, tap: (nat, V) -> V, x: V, acc: V)
    ensures FoldTaps(add, tap, 5, x, acc)
         == add(add(add(add(add(acc, tap(0, x)), tap(1, x)), tap(2, x)), tap(3, x)), tap(4, x))
  {
    assert FoldTaps(add, tap, 2, x, acc) == add(add(acc, tap(0, x)), tap(1, x));
    assert FoldTaps(add, tap, 4, x, acc) == add(add(FoldTaps(add, tap, 2, x, acc), tap(2, x)), tap(3, x));
  }
}
