/**
 General power-of-two base conversion.

 The source keeps a masked accumulator of the bits not yet written. `Regroup` is what it should
 compute: the whole input read as one number, cut into groups of another width.
 Shifts, masks and ors of the source are written as products, remainders and sums: the operands of
 each `|` never share a bit.
 */
module ConvertBits {
  import opened Wrappers
  import opened Positional

  /** All groups of `data`, regrouped from `from` to `to` bits. */
  function Regroup(data: seq<int>, from: nat, to: nat, pad: bool): (r: Option<seq<nat>>)
    requires from >= 1 && to >= 1
  {
    if !InRange(data, from) then None
    else Cut(Value(data, Pow(2, from)), |data| * from / to, |data| * from % to, from, to, pad)
  }

  /** The number `v` of `n * to + rest` bits in groups of `to` bits, with the `rest` padded or dropped. */
  function Cut(v: nat, n: nat, rest: nat, from: nat, to: nat, pad: bool): (r: Option<seq<nat>>)
    requires to >= 1 && rest < to
  {
    PowAtLeastTwo(to);
    PowPositive(2, rest);
    if pad then
      if rest == 0 then Some(Digits(v, n, Pow(2, to))) else Some(Digits(v * Pow(2, to - rest), n + 1, Pow(2, to)))
    else if rest >= from || v % Pow(2, rest) != 0 then None
    else Some(Digits(v / Pow(2, rest), n, Pow(2, to)))
  }

  predicate InRange(data: seq<int>, width: nat) {
    forall i :: 0 <= i < |data| ==> 0 <= data[i] < Pow(2, width)
  }

  lemma PowAtLeastTwo(n: nat)
    requires n >= 1
    ensures Pow(2, n) >= 2
  {
    PowPositive(2, n - 1);
  }

  // ----- the accumulator -----

  /** The groups written so far are the high bits of `v`, and the accumulator ends like `v`. */
  ghost predicate Writes(v: nat, acc: nat, bits: nat, ret: seq<nat>, from: nat, to: nat)
    requires from >= 1 && to >= 1
  {
    PowAtLeastTwo(to);
    PowPositive(2, bits);
    PowPositive(2, from + to - 1);
    && acc == v % Pow(2, from + to - 1)
    && ret == Digits(v / Pow(2, bits), |ret|, Pow(2, to))
  }

  lemma TakeIn(v: nat, acc: nat, bits: nat, ret: seq<nat>, from: nat, to: nat, d: nat)
    requires from >= 1 && to >= 1 && d < Pow(2, from)
    requires Writes(v, acc, bits, ret, from, to)
    ensures Pow(2, from + to - 1) > 0
    ensures Writes(v * Pow(2, from) + d, (acc * Pow(2, from) + d) % Pow(2, from + to - 1), bits + from, ret, from, to)
  {
    PowPositive(2, from + to - 1);
    PowPositive(2, bits);
    ModLinear(v, Pow(2, from), d, Pow(2, from + to - 1));
    PowAdd(2, from, bits);
    DivMultiple(v, Pow(2, from), d);
    DivDiv(v * Pow(2, from) + d, Pow(2, from), Pow(2, bits));
  }

  lemma PutOut(v: nat, acc: nat, bits: nat, ret: seq<nat>, from: nat, to: nat)
    requires from >= 1 && to >= 1 && to <= bits < from + to
    requires Writes(v, acc, bits, ret, from, to)
    ensures Pow(2, bits - to) > 0 && Pow(2, to) > 0
    ensures Writes(v, acc, bits - to, ret + [(acc / Pow(2, bits - to)) % Pow(2, to)], from, to)
  {
    PowPositive(2, bits - to);
    PowAtLeastTwo(to);
    var p, t := Pow(2, bits - to), Pow(2, to);
    var mask := MaskSplit(bits, from, to, p, t);
    NextGroup(v, acc, p, t, mask);
    PowPositive(2, bits);
    PowAdd(2, bits - to, to);
    NextDigit(v, |ret|, p, t, Pow(2, bits));
  }

  /** The mask covers the bits below the next group, the group, and some bits above it. */
  lemma MaskSplit(bits: nat, from: nat, to: nat, p: nat, t: nat) returns (k: nat)
    requires from >= 1 && to >= 1 && to <= bits < from + to && p == Pow(2, bits - to) && t == Pow(2, to)
    ensures k > 0 && Pow(2, from + to - 1) == p * (t * k)
  {
    k := Pow(2, from + to - 1 - bits);
    PowPositive(2, from + to - 1 - bits);
    PowAdd(2, bits, from + to - 1 - bits);
    PowAdd(2, bits - to, to);
    MulAssociative(p, t, k);
  }

  /** The group that leaves the accumulator is the group of the whole number. */
  lemma NextGroup(v: nat, acc: nat, p: nat, t: nat, k: nat)
    requires p > 0 && t > 0 && k > 0 && p * (t * k) > 0 && acc == v % (p * (t * k))
    ensures (acc / p) % t == (v / p) % t
  {
    MulPositive(t, k);
    DivOfMod(v, p, t * k);
    ModMod(v / p, t, k);
  }

  lemma NextDigit(v: nat, n: nat, p: nat, t: nat, q: nat)
    requires p > 0 && t >= 2 && q > 0 && q == p * t
    ensures Digits(v / p, n + 1, t) == Digits(v / q, n, t) + [(v / p) % t]
  {
    DivDiv(v, p, t);
  }

  lemma MulPositive(a: nat, b: nat)
    requires a > 0 && b > 0
    ensures a * b > 0
  {
    MulMonotone(1, a, b);
  }

  /** The last, incomplete group, moved up to full width. */
  lemma LeftOver(v: nat, acc: nat, bits: nat, ret: seq<nat>, from: nat, to: nat)
    requires from >= 1 && to >= 1 && bits < to
    requires Writes(v, acc, bits, ret, from, to)
    ensures Pow(2, to) > 1 && Pow(2, bits) > 0
    ensures (acc * Pow(2, to - bits)) % Pow(2, to) == (v % Pow(2, bits)) * Pow(2, to - bits)
    ensures Digits(v * Pow(2, to - bits), |ret| + 1, Pow(2, to)) == ret + [(acc * Pow(2, to - bits)) % Pow(2, to)]
  {
    var p, s, t := Pow(2, bits), Pow(2, to - bits), Pow(2, to);
    PowPositive(2, bits);
    PowPositive(2, to - bits);
    PowAtLeastTwo(to);
    PowPositive(2, from - 1);
    PowAdd(2, bits, to - bits);
    PowAdd(2, to, from - 1);
    MulScale(v, p, s);
    ModMod(v, t, Pow(2, from - 1));
    ModLinear(acc, s, 0, t);
    ModLinear(v, s, 0, t);
  }

  lemma Finish(v: nat, acc: nat, bits: nat, ret: seq<nat>, from: nat, to: nat, pad: bool, last: nat)
    requires from >= 1 && to >= 1 && bits < to && Pow(2, to) > 0
    requires Writes(v, acc, bits, ret, from, to)
    requires last == (acc * Pow(2, to - bits)) % Pow(2, to)
    ensures Cut(v, |ret|, bits, from, to, pad) ==
            if pad then Some(if bits != 0 then ret + [last] else ret)
            else if bits >= from || last != 0 then None
            else Some(ret)
  {
    LeftOver(v, acc, bits, ret, from, to);
    PowPositive(2, to - bits);
    ZeroProduct(v % Pow(2, bits), Pow(2, to - bits));
  }

  lemma RegroupCut(data: seq<int>, n: nat, rest: nat, from: nat, to: nat, pad: bool)
    requires from >= 1 && to >= 1 && rest < to && InRange(data, from)
    requires n * to + rest == |data| * from
    ensures Regroup(data, from, to, pad) == Cut(Value(data, Pow(2, from)), n, rest, from, to, pad)
  {
    DivModUnique(|data| * from, to, n, rest);
  }

  lemma ZeroProduct(a: nat, b: nat)
    requires b > 0
    ensures a * b == 0 <==> a == 0
  {
    if a > 0 {
      MulPositive(a, b);
    }
  }

  /** The inner loop: every full group leaves the accumulator. */
  method WriteGroups(acc: nat, start: nat, written: seq<nat>, from: nat, to: nat, ghost v: nat)
    returns (bits: nat, ret: seq<nat>)
    requires from >= 1 && to >= 1 && start < from + to
    requires Writes(v, acc, start, written, from, to)
    ensures Writes(v, acc, bits, ret, from, to) && bits < to
    ensures |ret| * to + bits == |written| * to + start
  {
    bits, ret := start, written;
    while bits >= to
      invariant Writes(v, acc, bits, ret, from, to) && bits < from + to
      invariant |ret| * to + bits == |written| * to + start
    {
      PutOut(v, acc, bits, ret, from, to);
      MulDistributes(|ret|, 1, to);
      bits := bits - to;
      ret := ret + [(acc / Pow(2, bits)) % Pow(2, to)];
    }
  }

  /** The source: a masked accumulator. */
  method ConvertBits(data: seq<int>, from: nat, to: nat, pad: bool) returns (r: Option<seq<nat>>)
    requires from >= 1 && to >= 1
    ensures r == Regroup(data, from, to, pad)
  {
    var acc: nat, bits: nat, ret: seq<nat> := 0, 0, [];
    PowPositive(2, from + to - 1);
    ghost var v: nat := 0;
    for k := 0 to |data|
      invariant InRange(data[..k], from)
      invariant v == Value(data[..k], Pow(2, from))
      invariant Writes(v, acc, bits, ret, from, to) && bits < to
      invariant |ret| * to + bits == k * from
    {
      if data[k] < 0 || data[k] >= Pow(2, from) {
        return None;
      }
      assert data[..k + 1][..k] == data[..k];
      MulDistributes(k, 1, from);
      var value: nat := data[k];
      MulNonNegative(v, Pow(2, from));
      MulNonNegative(acc, Pow(2, from));
      TakeIn(v, acc, bits, ret, from, to, value);
      v := v * Pow(2, from) + value;
      acc := (acc * Pow(2, from) + value) % Pow(2, from + to - 1);
      bits, ret := WriteGroups(acc, bits + from, ret, from, to, v);
    }
    assert data[..|data|] == data;
    RegroupCut(data, |ret|, bits, from, to, pad);
    PowPositive(2, to);
    MulNonNegative(acc, Pow(2, to - bits));
    var last: nat := (acc * Pow(2, to - bits)) % Pow(2, to);
    Finish(v, acc, bits, ret, from, to, pad, last);
    if pad {
      if bits != 0 {
        ret := ret + [last];
      }
    } else if bits >= from || last != 0 {
      return None;
    }
    return Some(ret);
  }

  // ----- there and back -----

  /** How many zero bits padding adds to `rest` bits. */
  function Fill(rest: nat, to: nat): nat
    requires rest < to
  {
    if rest == 0 then 0 else to - rest
  }

  /** How many zero bits padding adds to `n` groups. */
  function Slack(n: nat, from: nat, to: nat): nat
    requires from >= 1 && to >= 1
  {
    Fill(n * from % to, to)
  }

  /** Padding writes the input's number, moved up by the slack. */
  lemma PadValue(data: seq<int>, from: nat, to: nat)
    requires from >= 1 && to >= 1 && InRange(data, from)
    ensures var r := Regroup(data, from, to, true);
      && r.Some? && InRange(r.value, to)
      && |r.value| * to == |data| * from + Slack(|data|, from, to)
      && Value(r.value, Pow(2, to)) == Value(data, Pow(2, from)) * Pow(2, Slack(|data|, from, to))
  {
    var total: nat := |data| * from;
    DivModSum(total, to);
    ValueInBits(data, from);
    PadCut(Value(data, Pow(2, from)), total, total / to, total % to, from, to);
  }

  lemma PadCut(v: nat, total: nat, n: nat, rest: nat, from: nat, to: nat)
    requires to >= 1 && rest < to && total == n * to + rest && v < Pow(2, total)
    ensures var r := Cut(v, n, rest, from, to, true);
      && r.Some? && InRange(r.value, to)
      && |r.value| * to == total + Fill(rest, to)
      && Value(r.value, Pow(2, to)) == v * Pow(2, Fill(rest, to))
  {
    var fill := Fill(rest, to);
    var m := PadCount(n, rest, to);
    var x := Shifted(v, total, fill);
    CutUp(v, n, rest, from, to, m, fill);
    DigitsInBits(x, m, to, total + fill);
  }

  lemma PadCount(n: nat, rest: nat, to: nat) returns (m: nat)
    requires rest < to
    ensures m == n + (if rest == 0 then 0 else 1) && m * to == n * to + rest + Fill(rest, to)
  {
    m := n + if rest == 0 then 0 else 1;
    MulDistributes(n, 1, to);
  }

  lemma Shifted(v: nat, total: nat, fill: nat) returns (x: nat)
    requires v < Pow(2, total)
    ensures x == v * Pow(2, fill) && x < Pow(2, total + fill)
  {
    PowPositive(2, fill);
    x := v * Pow(2, fill);
    MulStrict(v, Pow(2, total), Pow(2, fill));
    PowAdd(2, total, fill);
  }

  lemma DigitsInBits(x: nat, m: nat, to: nat, total: nat)
    requires to >= 1 && total == m * to && x < Pow(2, total)
    ensures Pow(2, to) >= 2
    ensures InRange(Digits(x, m, Pow(2, to)), to) && Value(Digits(x, m, Pow(2, to)), Pow(2, to)) == x
  {
    PowAtLeastTwo(to);
    PowMul(2, to, m);
    ValueOfDigits(x, m, Pow(2, to));
  }

  lemma MulStrict(a: nat, b: nat, c: nat)
    requires a < b && c > 0
    ensures a * c < b * c
  {
    MulMonotone(a + 1, b, c);
    MulDistributes(a, 1, c);
  }

  lemma ValueInBits(data: seq<nat>, width: nat)
    requires InRange(data, width)
    ensures Value(data, Pow(2, width)) < Pow(2, |data| * width)
  {
    PowPositive(2, width);
    ValueBound(data, Pow(2, width));
    PowMul(2, width, |data|);
  }

  /** Converting back undoes padded conversion exactly when the padding does not make a group of its own. */
  lemma UnpadPad(data: seq<int>, from: nat, to: nat)
    requires from >= 1 && to >= 1 && InRange(data, from)
    ensures Regroup(data, from, to, true).Some?
    ensures Regroup(Regroup(data, from, to, true).value, to, from, false) == Some(data)
       <==> Slack(|data|, from, to) < from
  {
    var slack := Slack(|data|, from, to);
    var v := Value(data, Pow(2, from));
    var padded := Regroup(data, from, to, true).value;
    PadValue(data, from, to);
    PowAtLeastTwo(from);
    if slack < from {
      DivModUnique(|padded| * to, from, |data|, slack);
      PowPositive(2, slack);
      DivMultiple(v, Pow(2, slack), 0);
      DigitsOfValue(data, Pow(2, from));
    } else {
      MulDistributes(|data|, 1, from);
      DivAtLeast(|padded| * to, from, |data| + 1);
    }
  }

  lemma DivAtLeast(x: nat, d: nat, q: nat)
    requires d > 0 && q * d <= x
    ensures q <= x / d
  {
    DivModSum(x, d);
    if x / d < q {
      MulMonotone(x / d + 1, q, d);
      MulDistributes(x / d, 1, d);
    }
  }

  /** Whatever converts without padding is the padded conversion of its result. */
  lemma PadUnpad(data: seq<int>, from: nat, to: nat)
    requires from >= 1 && to >= 1
    requires Regroup(data, from, to, false).Some?
    ensures Regroup(Regroup(data, from, to, false).value, to, from, true) == Some(data)
  {
    var total: nat, v := |data| * from, Value(data, Pow(2, from));
    var n: nat, rest: nat := total / to, total % to;
    PowAtLeastTwo(from);
    PowPositive(2, rest);
    DivModSum(total, to);
    DivModSum(v, Pow(2, rest));
    ValueInBits(data, from);
    var w := HighBits(v, total, n, rest, to);
    Restored(data, Digits(w, n, Pow(2, to)), rest, from, to);
  }

  /** Padding `out` makes `data` of it when `data` is the same number with `rest` more zero bits. */
  lemma Restored(data: seq<int>, out: seq<int>, rest: nat, from: nat, to: nat)
    requires from >= 1 && to >= 1 && rest < from && InRange(data, from) && InRange(out, to)
    requires |out| * to + rest == |data| * from
    requires Value(data, Pow(2, from)) == Value(out, Pow(2, to)) * Pow(2, rest)
    ensures Regroup(out, to, from, true) == Some(data)
  {
    PowAtLeastTwo(from);
    DigitsOfValue(data, Pow(2, from));
    var n, part := WholeAndPart(|data|, from, |out|, to, rest);
    RegroupCut(out, n, part, to, from, true);
    CutUp(Value(out, Pow(2, to)), n, part, to, from, |data|, rest);
  }

  lemma WholeAndPart(n: nat, from: nat, m: nat, to: nat, rest: nat) returns (whole: nat, part: nat)
    requires m * to + rest == n * from && rest < from
    ensures part < from && whole * from + part == m * to
    ensures Fill(part, from) == rest && whole + (if part == 0 then 0 else 1) == n
  {
    if rest == 0 {
      whole, part := n, 0;
    } else {
      if n == 0 {
        MulNonNegative(m, to);
        assert false;
      }
      whole, part := n - 1, from - rest;
      MulDistributes(whole, 1, from);
    }
  }

  lemma MulNonNegative(a: nat, b: nat)
    ensures a * b >= 0
  {
  }

  lemma CutUp(w: nat, n: nat, part: nat, from: nat, to: nat, m: nat, fill: nat)
    requires to >= 1 && part < to && Fill(part, to) == fill && n + (if part == 0 then 0 else 1) == m
    ensures Pow(2, to) >= 2 && Cut(w, n, part, from, to, true) == Some(Digits(w * Pow(2, fill), m, Pow(2, to)))
  {
    PowAtLeastTwo(to);
    if part == 0 {
      assert w * Pow(2, fill) == w;
    }
  }

  lemma HighBits(v: nat, total: nat, n: nat, rest: nat, to: nat) returns (w: nat)
    requires to >= 1 && rest < to && total == n * to + rest && v < Pow(2, total)
    ensures Pow(2, rest) > 0 && Pow(2, to) >= 2 && w == v / Pow(2, rest)
    ensures InRange(Digits(w, n, Pow(2, to)), to) && Value(Digits(w, n, Pow(2, to)), Pow(2, to)) == w
  {
    PowPositive(2, rest);
    w := v / Pow(2, rest);
    var high: nat := n * to;
    PowAdd(2, rest, high);
    QuotientBelow(v, Pow(2, rest), Pow(2, high));
    DigitsInBits(w, n, to, high);
  }

  lemma SlackBelow(n: nat, from: nat, to: nat)
    requires 1 <= to <= from
    ensures Slack(n, from, to) < from
  {
  }
}
