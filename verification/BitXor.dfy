/**
 Exclusive or of unbounded natural numbers, as Python computes it, and how it meets shifts and masks.
 */
module BitXor {
  import opened Positional

  function Xor(a: nat, b: nat): nat
    decreases a + b
  {
    if a == 0 then b
    else if b == 0 then a
    else 2 * Xor(a / 2, b / 2) + (a + b) % 2
  }

  /** Whether bit `i` of `x` is set: `(x >> i) & 1`. */
  predicate Bit(x: nat, i: nat) {
    if i == 0 then x % 2 == 1 else Bit(x / 2, i - 1)
  }

  /** The recursion, without its base cases. */
  lemma XorUnfold(a: nat, b: nat)
    ensures Xor(a, b) / 2 == Xor(a / 2, b / 2)
    ensures Xor(a, b) % 2 == (a + b) % 2
  {
  }

  lemma Parity(x: nat, a: nat, b: nat, c: nat)
    requires x % 2 == (a + b) % 2
    ensures (x + c) % 2 == (a + b + c) % 2 == (c + x) % 2
  {
  }

  lemma {:induction false} XorCommutes(a: nat, b: nat)
    ensures Xor(a, b) == Xor(b, a)
    decreases a + b
  {
    if a == 0 || b == 0 {
    } else {
      XorCommutes(a / 2, b / 2);
    }
  }

  lemma {:induction false} XorAssociates(a: nat, b: nat, c: nat)
    ensures Xor(Xor(a, b), c) == Xor(a, Xor(b, c))
    decreases a + b + c
  {
    if a == 0 || b == 0 || c == 0 {
    } else {
      XorAssociates(a / 2, b / 2, c / 2);
      var x, y := Xor(a, b), Xor(b, c);
      assert Xor(x, c) / 2 == Xor(a, y) / 2 by {
        XorUnfold(a, b);
        XorUnfold(b, c);
        XorUnfold(x, c);
        XorUnfold(a, y);
      }
      assert Xor(x, c) % 2 == Xor(a, y) % 2 by {
        XorUnfold(a, b);
        XorUnfold(b, c);
        XorUnfold(x, c);
        XorUnfold(a, y);
        Parity(x, a, b, c);
        Parity(y, b, c, a);
      }
    }
  }

  lemma XorInterchange(a: nat, b: nat, c: nat, d: nat)
    ensures Xor(Xor(a, b), Xor(c, d)) == Xor(Xor(a, c), Xor(b, d))
  {
    XorAssociates(a, b, Xor(c, d));
    XorAssociates(b, c, d);
    XorCommutes(b, c);
    XorAssociates(c, b, d);
    XorAssociates(a, c, Xor(b, d));
  }

  lemma {:induction false} XorZeroIff(a: nat, b: nat)
    ensures Xor(a, b) == 0 <==> a == b
    decreases a + b
  {
    if a == 0 || b == 0 {
    } else {
      XorZeroIff(a / 2, b / 2);
    }
  }

  lemma HalfOfSplit(x: nat, a: nat, p: nat, u: nat)
    requires x == a * (2 * p) + u
    ensures x / 2 == a * p + u / 2 && x % 2 == u % 2
  {
    assert a * (2 * p) == 2 * (a * p);
  }

  lemma SameParity(x: nat, y: nat, u: nat, v: nat)
    requires x % 2 == u % 2 && y % 2 == v % 2
    ensures (x + y) % 2 == (u + v) % 2
  {
  }

  lemma SplitStep(z: nat, w: nat, h: nat, p: nat)
    requires z / 2 == h * p + w / 2 && z % 2 == w % 2
    ensures z == h * (2 * p) + w
  {
    assert h * (2 * p) == 2 * (h * p);
  }

  /** Of numbers split at bit `k`, both parts are treated alone. */
  lemma {:induction false} XorSplit(x: nat, y: nat, a: nat, b: nat, u: nat, v: nat, k: nat)
    requires x == a * Pow(2, k) + u && u < Pow(2, k)
    requires y == b * Pow(2, k) + v && v < Pow(2, k)
    ensures Xor(u, v) < Pow(2, k)
    ensures Xor(x, y) == Xor(a, b) * Pow(2, k) + Xor(u, v)
    decreases k
  {
    if k == 0 {
      assert x == a && y == b && u == 0 && v == 0;
    } else {
      var p := Pow(2, k - 1);
      HalfOfSplit(x, a, p, u);
      HalfOfSplit(y, b, p, v);
      XorSplit(x / 2, y / 2, a, b, u / 2, v / 2, k - 1);
      XorDouble(x, y, a, b, u, v, p);
    }
  }

  lemma XorDouble(x: nat, y: nat, a: nat, b: nat, u: nat, v: nat, p: nat)
    requires x % 2 == u % 2 && y % 2 == v % 2
    requires Xor(u / 2, v / 2) < p && Xor(x / 2, y / 2) == Xor(a, b) * p + Xor(u / 2, v / 2)
    ensures Xor(u, v) < 2 * p && Xor(x, y) == Xor(a, b) * (2 * p) + Xor(u, v)
  {
    SameParity(x, y, u, v);
    XorUnfold(x, y);
    XorUnfold(u, v);
    SplitStep(Xor(x, y), Xor(u, v), Xor(a, b), p);
  }

  /** Shifts to the right and masks distribute. */
  lemma XorDivMod(a: nat, b: nat, k: nat)
    ensures Pow(2, k) > 0
    ensures Xor(a, b) / Pow(2, k) == Xor(a / Pow(2, k), b / Pow(2, k))
    ensures Xor(a, b) % Pow(2, k) == Xor(a % Pow(2, k), b % Pow(2, k))
  {
    PowPositive(2, k);
    var p := Pow(2, k);
    DivModSum(a, p);
    DivModSum(b, p);
    XorSplit(a, b, a / p, b / p, a % p, b % p, k);
    DivModUnique(Xor(a, b), p, Xor(a / p, b / p), Xor(a % p, b % p));
  }

  lemma OddSum(a: nat, b: nat)
    ensures (a + b) % 2 == 1 <==> (a % 2 == 1) != (b % 2 == 1)
  {
  }

  lemma {:induction false} BitOfXor(a: nat, b: nat, i: nat)
    ensures Bit(Xor(a, b), i) == (Bit(a, i) != Bit(b, i))
  {
    if i == 0 {
      XorUnfold(a, b);
      OddSum(a, b);
    } else {
      BitOfXor(a / 2, b / 2, i - 1);
      XorUnfold(a, b);
    }
  }

  lemma {:induction false} LowBitsClear(x: nat, k: nat, i: nat)
    requires i < k
    ensures !Bit(x * Pow(2, k), i)
  {
    assert x * Pow(2, k) == 2 * (x * Pow(2, k - 1));
    if i == 0 {
    } else {
      LowBitsClear(x, k - 1, i - 1);
    }
  }

  lemma {:induction false} NoBits(x: nat, k: nat)
    requires x < Pow(2, k)
    requires forall i: nat | i < k :: !Bit(x, i)
    ensures x == 0
  {
    if k == 0 {
    } else {
      assert !Bit(x, 0);
      forall i: nat | i < k - 1 ensures !Bit(x / 2, i) {
        assert !Bit(x, i + 1);
      }
      NoBits(x / 2, k - 1);
    }
  }

  /** Digits that do not overlap are put side by side. */
  lemma XorDisjoint(a: nat, v: nat, k: nat)
    requires v < Pow(2, k)
    ensures Xor(a * Pow(2, k), v) == a * Pow(2, k) + v
  {
    XorSplit(a * Pow(2, k), v, a, 0, 0, v, k);
    XorCommutes(a, 0);
  }

  lemma {:induction false} TopBit(x: nat, k: nat)
    requires x < 2 * Pow(2, k)
    ensures Bit(x, k) <==> x >= Pow(2, k)
  {
    if k == 0 {
    } else {
      TopBit(x / 2, k - 1);
    }
  }

  /** Exclusive or with a power of two toggles one bit. */
  lemma Toggle(x: nat, k: nat)
    ensures Pow(2, k) > 0
    ensures Xor(x, Pow(2, k)) == if x % (2 * Pow(2, k)) < Pow(2, k) then x + Pow(2, k) else x - Pow(2, k)
  {
    var p := Pow(2, k);
    PowPositive(2, k);
    var a, u := x / (2 * p), x % (2 * p);
    DivModSum(x, 2 * p);
    XorSplit(x, p, a, 0, u, p, k + 1);
    XorCommutes(a, 0);
    ToggleHalf(u, k);
  }

  lemma ToggleHalf(u: nat, k: nat)
    requires u < 2 * Pow(2, k)
    ensures Xor(u, Pow(2, k)) == if u < Pow(2, k) then u + Pow(2, k) else u - Pow(2, k)
  {
    var p := Pow(2, k);
    if u < p {
      XorSplit(u, p, 0, 1, u, 0, k);
      XorCommutes(u, 0);
    } else {
      XorSplit(u, p, 1, 1, u - p, 0, k);
      XorCommutes(u - p, 0);
    }
  }
}
