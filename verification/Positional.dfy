/**
 Positional notation: digit sequences, most significant digit first, and the numbers they stand for.
 */
module Positional {

  type Byte = x: nat | x < 256

  function Pow(b: nat, n: nat): nat {
    if n == 0 then 1 else b * Pow(b, n - 1)
  }

  ghost predicate Below(ds: seq<int>, b: int) {
    forall i :: 0 <= i < |ds| ==> 0 <= ds[i] < b
  }

  /** The number that `ds` stands for in base `b`. */
  function Value(ds: seq<nat>, b: nat): nat {
    if ds == [] then 0 else Value(ds[..|ds| - 1], b) * b + ds[|ds| - 1]
  }

  /** The last `n` digits of `v` in base `b`, with leading zeros. */
  function Digits(v: nat, n: nat, b: nat): (ds: seq<nat>)
    requires b >= 2
    ensures |ds| == n
    ensures Below(ds, b)
    decreases n
  {
    if n == 0 then [] else Digits(v / b, n - 1, b) + [v % b]
  }

  // ----- products -----

  lemma MulMonotone(a: int, b: int, c: int)
    requires a <= b && 0 <= c
    ensures a * c <= b * c
  {
  }

  lemma MulAssociative(a: int, b: int, c: int)
    ensures a * (b * c) == (a * b) * c
  {
  }

  lemma MulDistributes(a: int, b: int, c: int)
    ensures (a + b) * c == a * c + b * c
  {
  }

  // ----- powers -----

  lemma PowPositive(b: nat, n: nat)
    requires b >= 1
    ensures Pow(b, n) >= 1
  {
    if n == 0 {
    } else {
      PowPositive(b, n - 1);
    }
  }

  lemma {:induction false} PowAdd(b: nat, m: nat, n: nat)
    ensures Pow(b, m + n) == Pow(b, m) * Pow(b, n)
  {
    if m == 0 {
    } else {
      PowAdd(b, m - 1, n);
      MulAssociative(b, Pow(b, m - 1), Pow(b, n));
    }
  }

  lemma PowMonotone(b: nat, m: nat, n: nat)
    requires b >= 1 && m <= n
    ensures Pow(b, m) <= Pow(b, n)
    decreases n
  {
    if m == n {
    } else {
      PowMonotone(b, m, n - 1);
      MulMonotone(1, b, Pow(b, n - 1));
    }
  }

  lemma {:induction false} PowMul(b: nat, m: nat, n: nat)
    ensures Pow(Pow(b, m), n) == Pow(b, m * n)
    decreases n
  {
    if n == 0 {
      assert m * n == 0;
    } else {
      PowMul(b, m, n - 1);
      MulDistributes(n - 1, 1, m);
      PowAdd(b, m, m * (n - 1));
    }
  }

  // ----- division -----

  /** Quotient and remainder are unique. */
  lemma DivModUnique(x: int, d: int, q: int, r: int)
    requires d > 0 && 0 <= r < d && x == q * d + r
    ensures x / d == q && x % d == r
  {
    var e := x / d - q;
    assert x == (x / d) * d + x % d;
    MulDistributes(x / d, -q, d);
    assert e * d == r - x % d;
    if e >= 1 {
      MulMonotone(1, e, d);
    } else if e <= -1 {
      MulMonotone(e, -1, d);
    }
  }

  lemma DivModSum(x: nat, d: nat)
    requires d > 0
    ensures x == (x / d) * d + x % d && 0 <= x / d && 0 <= x % d < d
  {
  }

  lemma DivDiv(x: nat, a: nat, b: nat)
    requires a > 0 && b > 0
    ensures a * b > 0 && x / a / b == x / (a * b)
  {
    var q, r := x / a, x % a;
    var q2, r2 := q / b, q % b;
    assert x == q * a + r && q == q2 * b + r2;
    MulDistributes(q2 * b, r2, a);
    MulAssociative(q2, b, a);
    MulMonotone(r2 + 1, b, a);
    MulDistributes(r2, 1, a);
    MulMonotone(1, b, a);
    DivModUnique(x, a * b, q2, r2 * a + r);
  }

  lemma DivMultiple(x: nat, a: nat, r: nat)
    requires r < a
    ensures (x * a + r) / a == x && (x * a + r) % a == r
  {
    DivModUnique(x * a + r, a, x, r);
  }

  lemma QuotientBelow(x: nat, d: nat, p: nat)
    requires d > 0 && x < d * p
    ensures x / d < p && x == (x / d) * d + x % d
  {
    if x / d >= p {
      MulMonotone(p, x / d, d);
    }
  }

  /** A remainder modulo a multiple keeps the remainder. */
  lemma ModMod(x: nat, m: nat, k: nat)
    requires m > 0 && k > 0
    ensures m * k > 0 && (x % (m * k)) % m == x % m
  {
    var q, r := x / (m * k), x % (m * k);
    DivModSum(x, m * k);
    DivModSum(r, m);
    MulAssociative(q, k, m);
    MulDistributes(q * k, r / m, m);
    DivModUnique(x, m, q * k + r / m, r % m);
  }

  lemma DivOfMod(x: nat, p: nat, q: nat)
    requires p > 0 && q > 0
    ensures p * q > 0 && (x % (p * q)) / p == (x / p) % q
  {
    var h, r := x / p, x % p;
    var h1, h0 := h / q, h % q;
    DivModSum(x, p);
    DivModSum(h, q);
    MulDistributes(h1 * q, h0, p);
    MulAssociative(h1, q, p);
    MulMonotone(h0 + 1, q, p);
    MulDistributes(h0, 1, p);
    MulMonotone(1, q, p);
    DivModUnique(x, p * q, h1, h0 * p + r);
    DivModUnique(h0 * p + r, p, h0, r);
  }

  lemma MulScale(x: nat, d: nat, s: nat)
    requires d > 0 && s > 0
    ensures d * s > 0 && (x * s) / (d * s) == x / d && (x * s) % (d * s) == (x % d) * s
  {
    DivModSum(x, d);
    MulDistributes((x / d) * d, x % d, s);
    MulAssociative(x / d, d, s);
    MulMonotone(1, d, s);
    MulMonotone(x % d + 1, d, s);
    MulDistributes(x % d, 1, s);
    DivModUnique(x * s, d * s, x / d, (x % d) * s);
  }

  /** Reducing first does not change the remainder of a linear form. */
  lemma ModLinear(x: nat, s: nat, c: nat, m: nat)
    requires m > 0
    ensures ((x % m) * s + c) % m == (x * s + c) % m
  {
    var y := (x % m) * s + c;
    DivModSum(x, m);
    DivModSum(y, m);
    MulDistributes((x / m) * m, x % m, s);
    MulAssociative(x / m, m, s);
    MulAssociative(x / m, s, m);
    MulDistributes((x / m) * s, y / m, m);
    DivModUnique(x * s + c, m, (x / m) * s + y / m, y % m);
  }

  // ----- values and digits -----

  lemma {:induction false} ValueBound(ds: seq<nat>, b: nat)
    requires Below(ds, b) && b >= 1
    ensures Value(ds, b) < Pow(b, |ds|)
  {
    if ds == [] {
    } else {
      var n := |ds| - 1;
      ValueBound(ds[..n], b);
      MulMonotone(Value(ds[..n], b) + 1, Pow(b, n), b);
      MulDistributes(Value(ds[..n], b), 1, b);
    }
  }

  lemma {:induction false} ValueConcat(s: seq<nat>, t: seq<nat>, b: nat)
    ensures Value(s + t, b) == Value(s, b) * Pow(b, |t|) + Value(t, b)
  {
    if t == [] {
      assert s + t == s;
    } else {
      var t' := t[..|t| - 1];
      assert (s + t)[..|s + t| - 1] == s + t';
      ValueConcat(s, t', b);
      MulDistributes(Value(s, b) * Pow(b, |t'|), Value(t', b), b);
      MulAssociative(Value(s, b), Pow(b, |t'|), b);
    }
  }

  /** A digit sequence is recovered from its value and its length. */
  lemma {:induction false} DigitsOfValue(ds: seq<nat>, b: nat)
    requires Below(ds, b) && b >= 2
    ensures Digits(Value(ds, b), |ds|, b) == ds
  {
    if ds == [] {
    } else {
      var n := |ds| - 1;
      DivMultiple(Value(ds[..n], b), b, ds[n]);
      DigitsOfValue(ds[..n], b);
    }
  }

  /** A number is recovered from enough of its digits. */
  lemma {:induction false} ValueOfDigits(v: nat, n: nat, b: nat)
    requires b >= 2 && v < Pow(b, n)
    ensures Value(Digits(v, n, b), b) == v
    decreases n
  {
    if n == 0 {
    } else {
      QuotientBelow(v, b, Pow(b, n - 1));
      ValueOfDigits(v / b, n - 1, b);
      assert Digits(v, n, b)[..n - 1] == Digits(v / b, n - 1, b);
    }
  }

  lemma ValueInjective(s: seq<nat>, t: seq<nat>, b: nat)
    requires Below(s, b) && Below(t, b) && b >= 2
    requires |s| == |t| && Value(s, b) == Value(t, b)
    ensures s == t
  {
    DigitsOfValue(s, b);
    DigitsOfValue(t, b);
  }

  lemma DivPower(v: nat, b: nat, k: nat)
    requires b >= 1
    ensures Pow(b, k) > 0 && Pow(b, k + 1) > 0 && v / b / Pow(b, k) == v / Pow(b, k + 1)
  {
    PowPositive(b, k);
    PowPositive(b, k + 1);
    DivDiv(v, b, Pow(b, k));
  }

  lemma DigitsFront(v: nat, n: nat, b: nat, i: nat)
    requires b >= 2 && i < n - 1
    ensures Digits(v, n, b)[i] == Digits(v / b, n - 1, b)[i]
  {
  }

  lemma DigitsLast(v: nat, n: nat, b: nat)
    requires b >= 2 && n > 0
    ensures Pow(b, 0) == 1 && Digits(v, n, b)[n - 1] == (v / Pow(b, 0)) % b
  {
  }

  lemma {:induction false} DigitFromEnd(v: nat, n: nat, b: nat, k: nat)
    requires b >= 2 && k < n
    ensures Pow(b, k) > 0
    ensures Digits(v, n, b)[n - 1 - k] == (v / Pow(b, k)) % b
    decreases k
  {
    if k == 0 {
      DigitsLast(v, n, b);
    } else {
      var q: nat := v / b;
      DigitsFront(v, n, b, n - 1 - k);
      DigitFromEnd(q, n - 1, b, k - 1);
      DivPower(v, b, k - 1);
    }
  }

  lemma DigitAt(v: nat, n: nat, b: nat, i: nat)
    requires b >= 2 && i < n
    ensures Pow(b, n - 1 - i) > 0
    ensures Digits(v, n, b)[i] == (v / Pow(b, n - 1 - i)) % b
  {
    DigitFromEnd(v, n, b, n - 1 - i);
  }

  lemma {:induction false} ZeroDigits(ds: seq<nat>, b: nat)
    requires b > 0 && Value(ds, b) == 0
    ensures forall i :: 0 <= i < |ds| ==> ds[i] == 0
  {
    if ds == [] {
    } else {
      var v := Value(ds[..|ds| - 1], b);
      if v > 0 {
        MulMonotone(1, v, b);
      }
      ZeroDigits(ds[..|ds| - 1], b);
    }
  }

  lemma DigitsPrepend(v: nat, n: nat, b: nat)
    requires b >= 2
    ensures Pow(b, n) > 0 && Digits(v, n + 1, b) == [(v / Pow(b, n)) % b] + Digits(v, n, b)
  {
    var ds := Digits(v, n + 1, b);
    DigitAt(v, n + 1, b, 0);
    forall i | 0 < i < n + 1 ensures ds[i] == Digits(v, n, b)[i - 1] {
      DigitAt(v, n + 1, b, i);
      DigitAt(v, n, b, i - 1);
    }
  }
}
