/**
 The Bech32 checksum register: 30 bits wide, advancing by five bits.

 The source computes on unbounded integers. The state is masked before it is shifted, the
 generators are below 2^30 and so is every value fed in, so a `Word` holds every state.
 */
module Polymod {
  import opened Positional
  import opened BitXor
  import opened LinearRegister

  type Word = x: nat | x < 0x4000_0000

  const GENERATOR: seq<Word> := [0x3b6a57b2, 0x26508e6d, 0x1ea119fa, 0x3d4233dd, 0x2a1462b3]

  function Add(a: Word, b: Word): Word {
    XorInWord(a, b);
    Xor(a, b)
  }

  /** What generator `i` contributes when `top` is shifted out. */
  function Tap(i: nat, top: Word): Word {
    if i < 5 && Bit(top, i) then GENERATOR[i] else 0
  }

  /** The five bits that leave. */
  function Top(chk: Word): Word {
    chk / 0x200_0000
  }

  /** The bits that stay, moved up. */
  function Rest(chk: Word): Word {
    (chk % 0x200_0000) * 32
  }

  function Advance(chk: Word): Word {
    FoldTaps<Word>(Add, Tap, 5, Top(chk), Rest(chk))
  }

  const BECH: Register<Word> := Register(Add, 0, Advance)

  // ----- the loops of the source -----

  method ComputePolymod(values: seq<Word>) returns (chk: Word)
    ensures chk == Run(BECH, 1, values)
  {
    chk := 1;
    for n := 0 to |values|
      invariant chk == Run(BECH, 1, values[..n])
    {
      assert values[..n + 1][..n] == values[..n];
      var top := Top(chk);
      ghost var rest := Rest(chk);
      chk := Add(Rest(chk), values[n]);
      for i := 0 to 5
        invariant chk == Add(FoldTaps<Word>(Add, Tap, i, top, rest), values[n])
      {
        var tap := if Bit(top, i) then GENERATOR[i] else 0;
        AddSwaps(FoldTaps<Word>(Add, Tap, i, top, rest), values[n], tap);
        chk := Add(chk, tap);
      }
    }
    assert values[..|values|] == values;
  }

  lemma AddSwaps(a: Word, b: Word, c: Word)
    ensures Add(Add(a, b), c) == Add(Add(a, c), b)
  {
    XorAssociates(a, b, c);
    XorCommutes(b, c);
    XorAssociates(a, c, b);
  }

  // ----- the register is linear -----

  lemma Powers()
    ensures Pow(2, 5) == 32 && Pow(2, 25) == 0x200_0000 && Pow(2, 30) == 0x4000_0000
  {
    assert Pow(2, 5) == 32;
    PowAdd(2, 5, 5);
    PowAdd(2, 10, 10);
    PowAdd(2, 20, 5);
    PowAdd(2, 25, 5);
  }

  lemma XorInWord(a: Word, b: Word)
    ensures Xor(a, b) < 0x4000_0000
  {
    Powers();
    XorSplit(a, b, 0, 0, a, b, 30);
  }

  lemma AddIsXor()
    ensures IsXor(Add, 0)
  {
    forall a: Word, b: Word, c: Word, d: Word | Use(a, b, c, d)
      ensures Add(Add(a, b), Add(c, d)) == Add(Add(a, c), Add(b, d))
    {
      XorInterchange(a, b, c, d);
    }
    forall a: Word ensures Add(a, 0) == a {
      XorCommutes(a, 0);
    }
    forall a: Word, b: Word ensures Add(a, b) == 0 <==> a == b {
      XorZeroIff(a, b);
    }
  }

  lemma TapLinear(i: nat, s: Word, t: Word)
    ensures Tap(i, Add(s, t)) == Add(Tap(i, s), Tap(i, t))
  {
    XorZeroIff(Tap(i, s), Tap(i, t));
    XorCommutes(Tap(i, s), 0);
    BitOfXor(s, t, i);
  }

  lemma ShiftLinear(a: Word, b: Word)
    ensures Top(Add(a, b)) == Add(Top(a), Top(b))
    ensures Rest(Add(a, b)) == Add(Rest(a), Rest(b))
  {
    Powers();
    XorDivMod(a, b, 25);
    var u, v := a % 0x200_0000, b % 0x200_0000;
    XorSplit(u * 32, v * 32, u, v, 0, 0, 5);
  }

  lemma AdvanceLinear(a: Word, b: Word)
    ensures Advance(Add(a, b)) == Add(Advance(a), Advance(b))
  {
    AddIsXor();
    ShiftLinear(a, b);
    var s, t := Top(a), Top(b);
    forall i: nat | 0 <= i < 5 ensures Tap(i, Add(s, t)) == Add(Tap(i, s), Tap(i, t)) {
      TapLinear(i, s, t);
    }
    FoldTapsLinear<Word>(Add, 0, Tap, 5, s, t, Rest(a), Rest(b));
  }

  lemma BechLinear()
    ensures IsLinear(BECH)
  {
    AddIsXor();
    forall a: Word, b: Word ensures Advance(Add(a, b)) == Add(Advance(a), Advance(b)) {
      AdvanceLinear(a, b);
    }
  }

  // ----- on zero input, the register is injective -----

  lemma {:induction false} ZeroBit(j: nat)
    ensures !Bit(0, j)
  {
    if j == 0 {
    } else {
      ZeroBit(j - 1);
    }
  }

  lemma SumBit(r: nat, t0: nat, t1: nat, t2: nat, j: nat)
    ensures Bit(Xor(Xor(Xor(r, t0), t1), t2), j) == (((Bit(r, j) != Bit(t0, j)) != Bit(t1, j)) != Bit(t2, j))
  {
    var a := Xor(r, t0);
    var b := Xor(a, t1);
    assert Bit(b, j) == ((Bit(r, j) != Bit(t0, j)) != Bit(t1, j)) by {
      BitOfXor(r, t0, j);
      BitOfXor(a, t1, j);
    }
    BitOfXor(b, t2, j);
  }

  lemma ZeroSumBit(c: nat, t3: nat, t4: nat, j: nat)
    requires Xor(Xor(c, t3), t4) == 0
    ensures (Bit(c, j) != Bit(t3, j)) == Bit(t4, j)
  {
    XorZeroIff(Xor(c, t3), t4);
    BitOfXor(c, t3, j);
  }

  lemma GeneratorBits()
    ensures !Bit(0x3b6a57b2, 0) && Bit(0x3b6a57b2, 1) && !Bit(0x3b6a57b2, 2) && !Bit(0x3b6a57b2, 3) && Bit(0x3b6a57b2, 4)
    ensures Bit(0x26508e6d, 0) && !Bit(0x26508e6d, 1) && Bit(0x26508e6d, 2) && Bit(0x26508e6d, 3) && !Bit(0x26508e6d, 4)
    ensures !Bit(0x1ea119fa, 0) && Bit(0x1ea119fa, 1) && !Bit(0x1ea119fa, 2) && Bit(0x1ea119fa, 3) && Bit(0x1ea119fa, 4)
    ensures Bit(0x3d4233dd, 0) && !Bit(0x3d4233dd, 1) && Bit(0x3d4233dd, 2) && Bit(0x3d4233dd, 3) && Bit(0x3d4233dd, 4)
    ensures Bit(0x2a1462b3, 0) && Bit(0x2a1462b3, 1) && !Bit(0x2a1462b3, 2) && !Bit(0x2a1462b3, 3) && Bit(0x2a1462b3, 4)
    ensures forall j: nat | j < 5 :: !Bit(0, j)
  {
    forall j: nat | j < 5 ensures !Bit(0, j) {
      ZeroBit(j);
    }
  }

  /** The last five bits of the feedback determine the five bits that left: the taps are independent. */
  lemma TapsIndependent(r: nat, t0: nat, t1: nat, t2: nat, t3: nat, t4: nat)
    requires forall j: nat | j < 5 :: !Bit(r, j)
    requires t0 == 0 || t0 == 0x3b6a57b2
    requires t1 == 0 || t1 == 0x26508e6d
    requires t2 == 0 || t2 == 0x1ea119fa
    requires t3 == 0 || t3 == 0x3d4233dd
    requires t4 == 0 || t4 == 0x2a1462b3
    requires Xor(Xor(Xor(Xor(Xor(r, t0), t1), t2), t3), t4) == 0
    ensures t0 == t1 == t2 == t3 == t4 == 0
  {
    var c := Xor(Xor(Xor(r, t0), t1), t2);
    forall j: nat | j < 5
      ensures ((((Bit(r, j) != Bit(t0, j)) != Bit(t1, j)) != Bit(t2, j)) != Bit(t3, j)) == Bit(t4, j)
    {
      SumBit(r, t0, t1, t2, j);
      ZeroSumBit(c, t3, t4, j);
    }
    GeneratorBits();
  }

  lemma FoldedTaps(chk: Word)
    ensures Advance(chk) == Xor(Xor(Xor(Xor(Xor(Rest(chk), Tap(0, Top(chk))), Tap(1, Top(chk))), Tap(2, Top(chk))),
                                Tap(3, Top(chk))), Tap(4, Top(chk)))
  {
    FoldFiveTaps<Word>(Add, Tap, Top(chk), Rest(chk));
  }

  lemma NoTaps(chk: Word)
    requires Top(chk) == 0
    ensures Advance(chk) == Rest(chk)
  {
    FoldedTaps(chk);
    forall i: nat | i < 5 ensures Tap(i, 0) == 0 {
      ZeroBit(i);
    }
    XorCommutes(Rest(chk), 0);
  }

  lemma AdvanceInjective(chk: Word)
    requires Advance(chk) == 0
    ensures chk == 0
  {
    var top := Top(chk);
    Powers();
    forall j: nat | j < 5 ensures !Bit(Rest(chk), j) {
      LowBitsClear(chk % 0x200_0000, 5, j);
    }
    FoldedTaps(chk);
    TapsIndependent(Rest(chk), Tap(0, top), Tap(1, top), Tap(2, top), Tap(3, top), Tap(4, top));
    forall i: nat | i < 5 ensures !Bit(top, i) {
      assert Tap(i, top) == 0;
    }
    NoBits(top, 5);
    NoTaps(chk);
  }

  lemma BechInjective()
    ensures IsInjective(BECH)
  {
    forall a: Word | Advance(a) == 0 ensures a == 0 {
      AdvanceInjective(a);
    }
  }

  // ----- up to six symbols are held side by side -----

  lemma {:induction false} RunSymbols(symbols: seq<Word>)
    requires |symbols| <= 6 && Below(symbols, 32)
    ensures Run(BECH, 0, symbols) == Value(symbols, 32)
  {
    if symbols == [] {
    } else {
      var n := |symbols| - 1;
      var x := Value(symbols[..n], 32);
      RunSymbols(symbols[..n]);
      assert x < 0x200_0000 by {
        ValueBound(symbols[..n], 32);
        PowMonotone(32, n, 5);
        assert Pow(32, 5) == 0x200_0000;
      }
      NoTaps(x);
      Powers();
      XorDisjoint(x, symbols[n], 5);
    }
  }
}
