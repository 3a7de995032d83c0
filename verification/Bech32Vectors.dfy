/**
 The Bech32 register as six symbols, and the texts that BIP-173 and BIP-350 publish for the prefix `a`. They fix the
 generators, the start of the register, the expansion of the human-readable part, the constants and the alphabet.
 */
module Bech32Vectors {
  import opened Wrappers
  import opened Positional
  import opened BitXor
  import opened LinearRegister
  import opened Alphabet
  import opened Polymod
  import opened Bech32Checksum
  import opened Bech32Codec

  datatype Six = Six(a: Symbol, b: Symbol, c: Symbol, d: Symbol, e: Symbol, f: Symbol)

  function Num(s: Six): Word {
    0x200_0000 * s.a + 0x10_0000 * s.b + 0x8000 * s.c + 0x400 * s.d + 0x20 * s.e + s.f
  }

  // ----- exclusive or, symbol by symbol -----

  function XorSymbol(a: Symbol, b: Symbol): Symbol {
    SymbolSum(a, b);
    Xor(a, b)
  }

  function XorSix(x: Six, y: Six): Six {
    Six(XorSymbol(x.a, y.a), XorSymbol(x.b, y.b), XorSymbol(x.c, y.c),
        XorSymbol(x.d, y.d), XorSymbol(x.e, y.e), XorSymbol(x.f, y.f))
  }

  /** The bits of `c` are the sums of the bits of `a` and `b`. */
  predicate IsSum(c: nat, a: nat, b: nat) {
    && c % 2 == (a + b) % 2 && c / 2 % 2 == (a / 2 + b / 2) % 2 && c / 2 / 2 % 2 == (a / 2 / 2 + b / 2 / 2) % 2
    && c / 2 / 2 / 2 % 2 == (a / 2 / 2 / 2 + b / 2 / 2 / 2) % 2
    && c / 2 / 2 / 2 / 2 % 2 == (a / 2 / 2 / 2 / 2 + b / 2 / 2 / 2 / 2) % 2
  }

  lemma XorSymbolIs(a: Symbol, b: Symbol, c: Symbol)
    requires IsSum(c, a, b)
    ensures XorSymbol(a, b) == c
  {
    var a1: nat, b1: nat, c1: nat := a / 2, b / 2, c / 2;
    var a2: nat, b2: nat, c2: nat := a1 / 2, b1 / 2, c1 / 2;
    var a3: nat, b3: nat, c3: nat := a2 / 2, b2 / 2, c2 / 2;
    var a4: nat, b4: nat, c4: nat := a3 / 2, b3 / 2, c3 / 2;
    assert a4 / 2 == 0 && b4 / 2 == 0 && c4 / 2 == 0;
    LowerBit(a4, b4, c4);
    LowerBit(a3, b3, c3);
    LowerBit(a2, b2, c2);
    LowerBit(a1, b1, c1);
    LowerBit(a, b, c);
  }

  lemma LowerBit(a: nat, b: nat, c: nat)
    requires Xor(a / 2, b / 2) == c / 2 && c % 2 == (a + b) % 2
    ensures Xor(a, b) == c
  {
    XorUnfold(a, b);
  }

  lemma XorGroup(a: nat, b: nat, c: nat, u: nat, v: nat, w: nat, x: nat, y: nat) returns (z: nat)
    requires u < 32 && v < 32 && Xor(a, b) == c && Xor(u, v) == w && x == a * 32 + u && y == b * 32 + v
    ensures z == c * 32 + w && Xor(x, y) == z
  {
    assert Pow(2, 5) == 32;
    XorSplit(x, y, a, b, u, v, 5);
    z := c * 32 + w;
  }

  lemma XorNum(x: Six, y: Six, z: Six)
    requires z == XorSix(x, y)
    ensures Xor(Num(x), Num(y)) == Num(z)
  {
    var x2: nat, y2: nat := x.a as int * 32 + x.b, y.a as int * 32 + y.b;
    var x3: nat, y3: nat := x2 * 32 + x.c, y2 * 32 + y.c;
    var x4: nat, y4: nat := x3 * 32 + x.d, y3 * 32 + y.d;
    var x5: nat, y5: nat := x4 * 32 + x.e, y4 * 32 + y.e;
    var z2 := XorGroup(x.a, y.a, z.a, x.b, y.b, z.b, x2, y2);
    var z3 := XorGroup(x2, y2, z2, x.c, y.c, z.c, x3, y3);
    var z4 := XorGroup(x3, y3, z3, x.d, y.d, z.d, x4, y4);
    var z5 := XorGroup(x4, y4, z4, x.e, y.e, z.e, x5, y5);
    var z6 := XorGroup(x5, y5, z5, x.f, y.f, z.f, Num(x), Num(y));
  }

  // ----- one step -----

  const NONE := Six(0, 0, 0, 0, 0, 0)
  const GEN0 := Six(29, 22, 20, 21, 29, 18)
  const GEN1 := Six(19, 5, 1, 3, 19, 13)
  const GEN2 := Six(15, 10, 2, 6, 15, 26)
  const GEN3 := Six(30, 20, 4, 12, 30, 29)
  const GEN4 := Six(21, 1, 8, 24, 21, 19)


  /** What generator `i` adds when the symbol `top` is shifted out. */
  function TapSix(i: nat, top: Symbol): Six
    requires i < 5
  {
    if !Bit(top, i) then NONE
    else if i == 0 then GEN0 else if i == 1 then GEN1 else if i == 2 then GEN2 else if i == 3 then GEN3 else GEN4
  }

  lemma TapNum(i: nat, top: Symbol)
    requires i < 5
    ensures Num(TapSix(i, top)) == Tap(i, top)
  {
  }

  /** What the generators add when the symbol `top` is shifted out. */
  function Mask(top: Symbol): Six {
    XorSix(XorSix(XorSix(XorSix(TapSix(0, top), TapSix(1, top)), TapSix(2, top)), TapSix(3, top)), TapSix(4, top))
  }

  lemma MaskNum(top: Symbol)
    ensures Num(Mask(top)) == Xor(Xor(Xor(Xor(Tap(0, top), Tap(1, top)), Tap(2, top)), Tap(3, top)), Tap(4, top))
  {
    TapNum(0, top);
    TapNum(1, top);
    TapNum(2, top);
    TapNum(3, top);
    TapNum(4, top);
    XorFive(TapSix(0, top), TapSix(1, top), TapSix(2, top), TapSix(3, top), TapSix(4, top));
  }

  lemma XorFive(t0: Six, t1: Six, t2: Six, t3: Six, t4: Six)
    ensures Num(XorSix(XorSix(XorSix(XorSix(t0, t1), t2), t3), t4))
         == Xor(Xor(Xor(Xor(Num(t0), Num(t1)), Num(t2)), Num(t3)), Num(t4))
  {
    var m1 := XorSix(t0, t1);
    var m2 := XorSix(m1, t2);
    var m3 := XorSix(m2, t3);
    XorNum(t0, t1, m1);
    XorNum(m1, t2, m2);
    XorNum(m2, t3, m3);
    XorNum(m3, t4, XorSix(m3, t4));
  }

  lemma AdvanceMask(chk: Word, r: nat, t: Word)
    requires r == Rest(chk) && t == Top(chk) && t < 32
    ensures Advance(chk) == Xor(r, Num(Mask(t)))
  {
    var t0, t1, t2, t3, t4 := Tap(0, t), Tap(1, t), Tap(2, t), Tap(3, t), Tap(4, t);
    FoldedTaps(chk);
    MaskNum(t);
    XorAssociates(r, t0, t1);
    XorAssociates(r, Xor(t0, t1), t2);
    XorAssociates(r, Xor(Xor(t0, t1), t2), t3);
    XorAssociates(r, Xor(Xor(Xor(t0, t1), t2), t3), t4);
  }

  function Shifted(s: Six, v: Symbol): Six {
    Six(s.b, s.c, s.d, s.e, s.f, v)
  }

  lemma TopRest(s: Six)
    ensures Top(Num(s)) == s.a && Rest(Num(s)) == Num(Shifted(s, 0))
  {
    var low := (((s.b * 32 + s.c) * 32 + s.d) * 32 + s.e) * 32 + s.f;
    assert Num(s) == s.a * 0x200_0000 + low;
    DivMultiple(s.a, 0x200_0000, low);
  }

  /** A symbol takes the place that the shift leaves. */
  lemma TakesPlace(s: Six, v: Symbol)
    ensures Xor(Num(Shifted(s, 0)), v) == Num(Shifted(s, v))
  {
    var high := (((s.b * 32 + s.c) * 32 + s.d) * 32 + s.e) * 32 + s.f;
    assert Pow(2, 5) == 32;
    XorDisjoint(high, v, 5);
  }

  function Step(s: Six, v: Symbol): Six {
    XorSix(Shifted(s, v), Mask(s.a))
  }

  lemma StepNum(s: Six, v: Symbol)
    ensures Add(Advance(Num(s)), v) == Num(Step(s, v))
  {
    var r, m := Num(Shifted(s, 0)), Num(Mask(s.a));
    TopRest(s);
    AdvanceMask(Num(s), r, s.a);
    SwapLast(r, m, v);
    TakesPlace(s, v);
    XorNum(Shifted(s, v), Mask(s.a), Step(s, v));
  }

  lemma SwapLast(r: nat, m: nat, v: nat)
    ensures Xor(Xor(r, m), v) == Xor(Xor(r, v), m)
  {
    XorAssociates(r, m, v);
    XorCommutes(m, v);
    XorAssociates(r, v, m);
  }

  // ----- runs -----

  lemma RunOne(x: Word, v: Symbol, y: Word, s: Six, mask: Six, t: Six, one: seq<Symbol>)
    requires x == Num(s) && y == Num(t) && one == [v]
    requires Mask(s.a) == mask && XorSix(Shifted(s, v), mask) == t
    ensures Run(BECH, x, one) == y
  {
    assert one[..0] == [];
    StepNum(s, v);
  }

  lemma RunJoin(x: Word, y: Word, z: Word, a: seq<Symbol>, b: seq<Symbol>, c: seq<Symbol>)
    requires Run(BECH, x, a) == y && Run(BECH, y, b) == z && c == a + b
    ensures Run(BECH, x, c) == z
  {
    RunConcat<Word>(BECH, x, a, b);
  }

  lemma XorNone(s: Six)
    ensures XorSix(s, NONE) == s && XorSix(NONE, s) == s
  {
  }

  /** As long as nothing is shifted out, symbols move up. */
  lemma MovesUp(x: Word, v: Symbol, y: Word, s: Six, one: seq<Symbol>)
    requires x == Num(s) && s.a == 0 && y == Num(Shifted(s, v)) && one == [v]
    ensures Run(BECH, x, one) == y
  {
    MaskNone();
    XorNone(Shifted(s, v));
    RunOne(x, v, y, s, NONE, Shifted(s, v), one);
  }

  lemma MaskNone()
    ensures Mask(0) == NONE
  {
    assert !Bit(0, 0) && !Bit(0, 1) && !Bit(0, 2) && !Bit(0, 3) && !Bit(0, 4);
    XorNone(NONE);
  }

  // ----- the text of BIP-173 -----

  lemma TopBits()
    ensures Bit(1, 0) && !Bit(1, 1) && !Bit(1, 2) && !Bit(1, 3) && !Bit(1, 4)
    ensures !Bit(18, 0) && Bit(18, 1) && !Bit(18, 2) && !Bit(18, 3) && Bit(18, 4)
    ensures !Bit(30, 0) && Bit(30, 1) && Bit(30, 2) && Bit(30, 3) && Bit(30, 4)
  {
  }

  lemma Sum14High(x: Six, y: Six, z: Six)
    requires x == GEN1 && y == GEN4
    requires z == Six(6, 4, 9, 27, 6, 30)
    ensures z.a == XorSymbol(x.a, y.a) && z.b == XorSymbol(x.b, y.b) && z.c == XorSymbol(x.c, y.c)
  {
    XorSymbolIs(19, 21, 6);
    XorSymbolIs(5, 1, 4);
    XorSymbolIs(1, 8, 9);
  }

  lemma Sum14Low(x: Six, y: Six, z: Six)
    requires x == GEN1 && y == GEN4
    requires z == Six(6, 4, 9, 27, 6, 30)
    ensures z.d == XorSymbol(x.d, y.d) && z.e == XorSymbol(x.e, y.e) && z.f == XorSymbol(x.f, y.f)
  {
    XorSymbolIs(3, 24, 27);
    XorSymbolIs(19, 21, 6);
    XorSymbolIs(13, 19, 30);
  }

  lemma Sum14(x: Six, y: Six, z: Six)
    requires x == GEN1 && y == GEN4
    requires z == Six(6, 4, 9, 27, 6, 30)
    ensures XorSix(x, y) == z
  {
    Sum14High(x, y, z);
    Sum14Low(x, y, z);
  }

  lemma Sum12High(x: Six, y: Six, z: Six)
    requires x == GEN1 && y == GEN2
    requires z == Six(28, 15, 3, 5, 28, 23)
    ensures z.a == XorSymbol(x.a, y.a) && z.b == XorSymbol(x.b, y.b) && z.c == XorSymbol(x.c, y.c)
  {
    XorSymbolIs(19, 15, 28);
    XorSymbolIs(5, 10, 15);
    XorSymbolIs(1, 2, 3);
  }

  lemma Sum12Low(x: Six, y: Six, z: Six)
    requires x == GEN1 && y == GEN2
    requires z == Six(28, 15, 3, 5, 28, 23)
    ensures z.d == XorSymbol(x.d, y.d) && z.e == XorSymbol(x.e, y.e) && z.f == XorSymbol(x.f, y.f)
  {
    XorSymbolIs(3, 6, 5);
    XorSymbolIs(19, 15, 28);
    XorSymbolIs(13, 26, 23);
  }

  lemma Sum12(x: Six, y: Six, z: Six)
    requires x == GEN1 && y == GEN2
    requires z == Six(28, 15, 3, 5, 28, 23)
    ensures XorSix(x, y) == z
  {
    Sum12High(x, y, z);
    Sum12Low(x, y, z);
  }

  lemma Sum123High(x: Six, y: Six, z: Six)
    requires x == Six(28, 15, 3, 5, 28, 23) && y == GEN3
    requires z == Six(2, 27, 7, 9, 2, 10)
    ensures z.a == XorSymbol(x.a, y.a) && z.b == XorSymbol(x.b, y.b) && z.c == XorSymbol(x.c, y.c)
  {
    XorSymbolIs(28, 30, 2);
    XorSymbolIs(15, 20, 27);
    XorSymbolIs(3, 4, 7);
  }

  lemma Sum123Low(x: Six, y: Six, z: Six)
    requires x == Six(28, 15, 3, 5, 28, 23) && y == GEN3
    requires z == Six(2, 27, 7, 9, 2, 10)
    ensures z.d == XorSymbol(x.d, y.d) && z.e == XorSymbol(x.e, y.e) && z.f == XorSymbol(x.f, y.f)
  {
    XorSymbolIs(5, 12, 9);
    XorSymbolIs(28, 30, 2);
    XorSymbolIs(23, 29, 10);
  }

  lemma Sum123(x: Six, y: Six, z: Six)
    requires x == Six(28, 15, 3, 5, 28, 23) && y == GEN3
    requires z == Six(2, 27, 7, 9, 2, 10)
    ensures XorSix(x, y) == z
  {
    Sum123High(x, y, z);
    Sum123Low(x, y, z);
  }

  lemma Sum1234High(x: Six, y: Six, z: Six)
    requires x == Six(2, 27, 7, 9, 2, 10) && y == GEN4
    requires z == Six(23, 26, 15, 17, 23, 25)
    ensures z.a == XorSymbol(x.a, y.a) && z.b == XorSymbol(x.b, y.b) && z.c == XorSymbol(x.c, y.c)
  {
    XorSymbolIs(2, 21, 23);
    XorSymbolIs(27, 1, 26);
    XorSymbolIs(7, 8, 15);
  }

  lemma Sum1234Low(x: Six, y: Six, z: Six)
    requires x == Six(2, 27, 7, 9, 2, 10) && y == GEN4
    requires z == Six(23, 26, 15, 17, 23, 25)
    ensures z.d == XorSymbol(x.d, y.d) && z.e == XorSymbol(x.e, y.e) && z.f == XorSymbol(x.f, y.f)
  {
    XorSymbolIs(9, 24, 17);
    XorSymbolIs(2, 21, 23);
    XorSymbolIs(10, 19, 25);
  }

  lemma Sum1234(x: Six, y: Six, z: Six)
    requires x == Six(2, 27, 7, 9, 2, 10) && y == GEN4
    requires z == Six(23, 26, 15, 17, 23, 25)
    ensures XorSix(x, y) == z
  {
    Sum1234High(x, y, z);
    Sum1234Low(x, y, z);
  }

  lemma Mask1()
    ensures Mask(1) == GEN0
  {
    TopBits();
    XorNone(GEN0);
  }

  lemma Mask18(mask: Six)
    requires mask == Six(6, 4, 9, 27, 6, 30)
    ensures Mask(18) == mask
  {
    TopBits();
    XorNone(GEN1);
    Sum14(GEN1, GEN4, mask);
  }

  lemma Mask30(two: Six, three: Six, mask: Six)
    requires two == Six(28, 15, 3, 5, 28, 23) && three == Six(2, 27, 7, 9, 2, 10)
    requires mask == Six(23, 26, 15, 17, 23, 25)
    ensures Mask(30) == mask
  {
    TopBits();
    XorNone(GEN1);
    Sum12(GEN1, GEN2, two);
    Sum123(two, GEN3, three);
    Sum1234(three, GEN4, mask);
  }

  lemma Sum6thHigh(x: Six, y: Six, z: Six)
    requires x == Six(3, 0, 1, 10, 28, 25) && y == GEN0
    requires z == Six(30, 22, 21, 31, 1, 11)
    ensures z.a == XorSymbol(x.a, y.a) && z.b == XorSymbol(x.b, y.b) && z.c == XorSymbol(x.c, y.c)
  {
    XorSymbolIs(3, 29, 30);
    XorSymbolIs(0, 22, 22);
    XorSymbolIs(1, 20, 21);
  }

  lemma Sum6thLow(x: Six, y: Six, z: Six)
    requires x == Six(3, 0, 1, 10, 28, 25) && y == GEN0
    requires z == Six(30, 22, 21, 31, 1, 11)
    ensures z.d == XorSymbol(x.d, y.d) && z.e == XorSymbol(x.e, y.e) && z.f == XorSymbol(x.f, y.f)
  {
    XorSymbolIs(10, 21, 31);
    XorSymbolIs(28, 29, 1);
    XorSymbolIs(25, 18, 11);
  }

  lemma Sum6th(x: Six, y: Six, z: Six)
    requires x == Six(3, 0, 1, 10, 28, 25) && y == GEN0
    requires z == Six(30, 22, 21, 31, 1, 11)
    ensures XorSix(x, y) == z
  {
    Sum6thHigh(x, y, z);
    Sum6thLow(x, y, z);
  }

  lemma Step6(one: seq<Symbol>)
    requires one == [25]
    ensures Run(BECH, 0x230055c, one) == 0x3d6afc2b
  {
    var mask, t := GEN0, Six(30, 22, 21, 31, 1, 11);
    Mask1();
    Sum6th(Six(3, 0, 1, 10, 28, 25), mask, t);
    RunOne(0x230055c, 25, 0x3d6afc2b, Six(1, 3, 0, 1, 10, 28), mask, t, one);
  }

  lemma Sum7thHigh(x: Six, y: Six, z: Six)
    requires x == Six(22, 21, 31, 1, 11, 31) && y == Six(23, 26, 15, 17, 23, 25)
    requires z == Six(1, 15, 16, 16, 28, 6)
    ensures z.a == XorSymbol(x.a, y.a) && z.b == XorSymbol(x.b, y.b) && z.c == XorSymbol(x.c, y.c)
  {
    XorSymbolIs(22, 23, 1);
    XorSymbolIs(21, 26, 15);
    XorSymbolIs(31, 15, 16);
  }

  lemma Sum7thLow(x: Six, y: Six, z: Six)
    requires x == Six(22, 21, 31, 1, 11, 31) && y == Six(23, 26, 15, 17, 23, 25)
    requires z == Six(1, 15, 16, 16, 28, 6)
    ensures z.d == XorSymbol(x.d, y.d) && z.e == XorSymbol(x.e, y.e) && z.f == XorSymbol(x.f, y.f)
  {
    XorSymbolIs(1, 17, 16);
    XorSymbolIs(11, 23, 28);
    XorSymbolIs(31, 25, 6);
  }

  lemma Sum7th(x: Six, y: Six, z: Six)
    requires x == Six(22, 21, 31, 1, 11, 31) && y == Six(23, 26, 15, 17, 23, 25)
    requires z == Six(1, 15, 16, 16, 28, 6)
    ensures XorSix(x, y) == z
  {
    Sum7thHigh(x, y, z);
    Sum7thLow(x, y, z);
  }

  lemma Step7(one: seq<Symbol>)
    requires one == [31]
    ensures Run(BECH, 0x3d6afc2b, one) == 0x2f84386
  {
    var mask, t := Six(23, 26, 15, 17, 23, 25), Six(1, 15, 16, 16, 28, 6);
    Mask30(Six(28, 15, 3, 5, 28, 23), Six(2, 27, 7, 9, 2, 10), Six(23, 26, 15, 17, 23, 25));
    Sum7th(Six(22, 21, 31, 1, 11, 31), mask, t);
    RunOne(0x3d6afc2b, 31, 0x2f84386, Six(30, 22, 21, 31, 1, 11), mask, t, one);
  }

  lemma Sum8thHigh(x: Six, y: Six, z: Six)
    requires x == Six(15, 16, 16, 28, 6, 20) && y == GEN0
    requires z == Six(18, 6, 4, 9, 27, 6)
    ensures z.a == XorSymbol(x.a, y.a) && z.b == XorSymbol(x.b, y.b) && z.c == XorSymbol(x.c, y.c)
  {
    XorSymbolIs(15, 29, 18);
    XorSymbolIs(16, 22, 6);
    XorSymbolIs(16, 20, 4);
  }

  lemma Sum8thLow(x: Six, y: Six, z: Six)
    requires x == Six(15, 16, 16, 28, 6, 20) && y == GEN0
    requires z == Six(18, 6, 4, 9, 27, 6)
    ensures z.d == XorSymbol(x.d, y.d) && z.e == XorSymbol(x.e, y.e) && z.f == XorSymbol(x.f, y.f)
  {
    XorSymbolIs(28, 21, 9);
    XorSymbolIs(6, 29, 27);
    XorSymbolIs(20, 18, 6);
  }

  lemma Sum8th(x: Six, y: Six, z: Six)
    requires x == Six(15, 16, 16, 28, 6, 20) && y == GEN0
    requires z == Six(18, 6, 4, 9, 27, 6)
    ensures XorSix(x, y) == z
  {
    Sum8thHigh(x, y, z);
    Sum8thLow(x, y, z);
  }

  lemma Step8(one: seq<Symbol>)
    requires one == [20]
    ensures Run(BECH, 0x2f84386, one) == 0x24622766
  {
    var mask, t := GEN0, Six(18, 6, 4, 9, 27, 6);
    Mask1();
    Sum8th(Six(15, 16, 16, 28, 6, 20), mask, t);
    RunOne(0x2f84386, 20, 0x24622766, Six(1, 15, 16, 16, 28, 6), mask, t, one);
  }

  lemma Sum9thHigh(x: Six, y: Six, z: Six)
    requires x == Six(6, 4, 9, 27, 6, 31) && y == Six(6, 4, 9, 27, 6, 30)
    requires z == Six(0, 0, 0, 0, 0, 1)
    ensures z.a == XorSymbol(x.a, y.a) && z.b == XorSymbol(x.b, y.b) && z.c == XorSymbol(x.c, y.c)
  {
    XorSymbolIs(6, 6, 0);
    XorSymbolIs(4, 4, 0);
    XorSymbolIs(9, 9, 0);
  }

  lemma Sum9thLow(x: Six, y: Six, z: Six)
    requires x == Six(6, 4, 9, 27, 6, 31) && y == Six(6, 4, 9, 27, 6, 30)
    requires z == Six(0, 0, 0, 0, 0, 1)
    ensures z.d == XorSymbol(x.d, y.d) && z.e == XorSymbol(x.e, y.e) && z.f == XorSymbol(x.f, y.f)
  {
    XorSymbolIs(27, 27, 0);
    XorSymbolIs(6, 6, 0);
    XorSymbolIs(31, 30, 1);
  }

  lemma Sum9th(x: Six, y: Six, z: Six)
    requires x == Six(6, 4, 9, 27, 6, 31) && y == Six(6, 4, 9, 27, 6, 30)
    requires z == Six(0, 0, 0, 0, 0, 1)
    ensures XorSix(x, y) == z
  {
    Sum9thHigh(x, y, z);
    Sum9thLow(x, y, z);
  }

  lemma Step9(one: seq<Symbol>)
    requires one == [31]
    ensures Run(BECH, 0x24622766, one) == 0x1
  {
    var mask, t := Six(6, 4, 9, 27, 6, 30), Six(0, 0, 0, 0, 0, 1);
    Mask18(Six(6, 4, 9, 27, 6, 30));
    Sum9th(Six(6, 4, 9, 27, 6, 31), mask, t);
    RunOne(0x24622766, 31, 0x1, Six(18, 6, 4, 9, 27, 6), mask, t, one);
  }

  lemma SixthSeventh(two: seq<Symbol>)
    requires two == [25, 31]
    ensures Run(BECH, 0x230055c, two) == 0x2f84386
  {
    Step6([25]);
    Step7([31]);
    RunJoin(0x230055c, 0x3d6afc2b, 0x2f84386, [25], [31], two);
  }

  lemma EighthNinth(two: seq<Symbol>)
    requires two == [20, 31]
    ensures Run(BECH, 0x2f84386, two) == 1
  {
    Step8([20]);
    Step9([31]);
    RunJoin(0x2f84386, 0x24622766, 1, [20], [31], two);
  }

  lemma LastFour(four: seq<Symbol>)
    requires four == [25, 31, 20, 31]
    ensures Run(BECH, 0x230055c, four) == 1
  {
    SixthSeventh([25, 31]);
    EighthNinth([20, 31]);
    RunJoin(0x230055c, 0x2f84386, 1, [25, 31], [20, 31], four);
  }

  lemma FirstOne(x: Word, y: Word, one: seq<Symbol>)
    requires x == 1 && y == 0x23 && one == [3]
    ensures Run(BECH, x, one) == y
  {
    MovesUp(x, 3, y, Six(0, 0, 0, 0, 0, 1), one);
  }

  lemma SecondOne(y: Word, z: Word, one: seq<Symbol>)
    requires y == 0x23 && z == 0x460 && one == [0]
    ensures Run(BECH, y, one) == z
  {
    MovesUp(y, 0, z, Six(0, 0, 0, 0, 1, 3), one);
  }

  lemma FirstTwo(x: Word, y: Word, z: Word, a: seq<Symbol>, b: seq<Symbol>, two: seq<Symbol>)
    requires x == 1 && y == 0x23 && z == 0x460 && a == [3] && b == [0] && two == [3, 0]
    ensures Run(BECH, x, two) == z
  {
    FirstOne(x, y, a);
    SecondOne(y, z, b);
    RunJoin(x, y, z, a, b, two);
  }

  /** The register after the expanded prefix `a`. */
  lemma FirstThree(three: seq<Symbol>)
    requires three == [3, 0, 1]
    ensures Run(BECH, 1, three) == 0x8c01
  {
    FirstTwo(1, 0x23, 0x460, [3], [0], [3, 0]);
    MovesUp(0x460, 1, 0x8c01, Six(0, 0, 0, 1, 3, 0), [1]);
    RunJoin(1, 0x460, 0x8c01, [3, 0], [1], three);
  }

  lemma FourthFifth(two: seq<Symbol>)
    requires two == [10, 28]
    ensures Run(BECH, 0x8c01, two) == 0x230055c
  {
    MovesUp(0x8c01, 10, 0x11802a, Six(0, 0, 1, 3, 0, 1), [10]);
    MovesUp(0x11802a, 28, 0x230055c, Six(0, 1, 3, 0, 1, 10), [28]);
    RunJoin(0x8c01, 0x11802a, 0x230055c, [10], [28], two);
  }

  lemma FirstFive(five: seq<Symbol>)
    requires five == [3, 0, 1, 10, 28]
    ensures Run(BECH, 1, five) == 0x230055c
  {
    FirstThree([3, 0, 1]);
    FourthFifth([10, 28]);
    RunJoin(1, 0x8c01, 0x230055c, [3, 0, 1], [10, 28], five);
  }

  lemma AllNine(first: seq<Symbol>, last: seq<Symbol>, values: seq<Symbol>)
    requires first == [3, 0, 1, 10, 28] && last == [25, 31, 20, 31] && values == first + last
    ensures Run(BECH, 1, values) == 1
  {
    FirstFive(first);
    LastFour(last);
    RunJoin(1, 0x230055c, 1, first, last, values);
  }

  lemma ExpandedA()
    ensures HrpExpand("a") == [3, 0, 1]
  {
  }

  lemma NineValues(first: seq<Symbol>, last: seq<Symbol>, six: seq<Symbol>)
    requires first == [3, 0, 1, 10, 28] && last == [25, 31, 20, 31] && six == [10, 28, 25, 31, 20, 31]
    ensures first + last == [3, 0, 1] + six
  {
  }

  lemma Verifies(six: seq<Symbol>)
    requires six == [10, 28, 25, 31, 20, 31]
    ensures Checked("a", six) == 1
  {
    var first: seq<Symbol>, last: seq<Symbol> := [3, 0, 1, 10, 28], [25, 31, 20, 31];
    AllNine(first, last, first + last);
    NineValues(first, last, six);
    ExpandedA();
  }

  lemma Bech32Spelled(six: seq<Symbol>)
    requires six == [10, 28, 25, 31, 20, 31]
    ensures Spell(CHARSET, six) == "2uel5l" && "a" + "1" + "2uel5l" == "a12uel5l"
  {
    forall i | 0 <= i < 6 ensures Spell(CHARSET, six)[i] == CHARSET[six[i]] {
      SpellAt(CHARSET, six, i);
    }
  }

  /** The text that BIP-173 publishes for the prefix `a` without data. */
  lemma Bech32Text()
    ensures Encode(BECH32, "a", []) == "a12uel5l"
    ensures Decode("a12uel5l", false) == Some(Decoded(BECH32, "a", []))
  {
    var six: seq<Symbol> := [10, 28, 25, 31, 20, 31];
    Verifies(six);
    OnlyChecksum(BECH32, "a", six);
    Bech32Spelled(six);
    TextOf(BECH32, "a", six, "2uel5l");
  }

  /** Six symbols that verify are the checksum for no data. */
  lemma OnlyChecksum(encoding: Encoding, hrp: string, six: seq<Symbol>)
    requires |six| == 6 && Checked(hrp, six) == Const(encoding)
    ensures CreateChecksum(encoding, hrp, []) == six
  {
    var none: seq<Symbol> := [];
    assert none + six == six;
    ChecksumUnique(encoding, hrp, none, six);
  }

  lemma PlainPrefix()
    ensures GoodHrp("a")
  {
  }

  lemma TextOf(encoding: Encoding, hrp: string, six: seq<Symbol>, text: string)
    requires hrp == "a" && CreateChecksum(encoding, hrp, []) == six && Spell(CHARSET, six) == text
    ensures Encode(encoding, hrp, []) == hrp + "1" + text
    ensures Decode(hrp + "1" + text, false) == Some(Decoded(encoding, hrp, []))
  {
    var none: seq<Symbol> := [];
    assert none + six == six;
    PlainPrefix();
    DecodeEncode(encoding, hrp, none, false);
  }

  // ----- the text of BIP-350 -----

  /** The checksums of the two encodings differ by the difference of their constants. */
  lemma OtherConstant(hrp: string, six: seq<Symbol>)
    requires |six| == 6 && Checked(hrp, six) == 1
    ensures Value(CreateChecksum(BECH32M, hrp, []), 32) == Xor(Value(six, 32), Xor(1, 0x2bc830a3))
  {
    var none: seq<Symbol>, other := [], CreateChecksum(BECH32M, hrp, []);
    OtherVerifies(hrp, none, other);
    var k := SuffixOf(hrp, six);
    var l := SuffixOf(hrp, other);
    DifferBy(Value(six, 32), Value(other, 32), 1, 0x2bc830a3, k);
  }

  lemma OtherVerifies(hrp: string, none: seq<Symbol>, other: seq<Symbol>)
    requires none == [] && other == CreateChecksum(BECH32M, hrp, none)
    ensures Checked(hrp, other) == 0x2bc830a3
  {
    assert none + other == other;
    ChecksumUnique(BECH32M, hrp, none, other);
  }

  lemma SuffixOf(hrp: string, six: seq<Symbol>) returns (k: Word)
    requires |six| == 6
    ensures k == Checked(hrp, ZEROS) && Value(six, 32) == Xor(Checked(hrp, six), k)
  {
    var none: seq<Symbol> := [];
    assert none + six == six && none + ZEROS == ZEROS;
    SuffixValue(hrp, none, six);
    k := Checked(hrp, ZEROS);
  }

  lemma DifferBy(x: nat, y: nat, c: nat, d: nat, k: nat)
    requires x == Xor(c, k) && y == Xor(d, k)
    ensures y == Xor(x, Xor(c, d))
  {
    XorInterchange(c, k, c, d);
    XorZeroIff(c, c);
    XorCommutes(k, d);
  }

  lemma SumLastHigh(x: Six, y: Six, z: Six)
    requires x == Six(10, 28, 25, 31, 20, 31) && y == Six(21, 28, 16, 12, 5, 2)
    requires z == Six(31, 0, 9, 19, 17, 29)
    ensures z.a == XorSymbol(x.a, y.a) && z.b == XorSymbol(x.b, y.b) && z.c == XorSymbol(x.c, y.c)
  {
    XorSymbolIs(10, 21, 31);
    XorSymbolIs(28, 28, 0);
    XorSymbolIs(25, 16, 9);
  }

  lemma SumLastLow(x: Six, y: Six, z: Six)
    requires x == Six(10, 28, 25, 31, 20, 31) && y == Six(21, 28, 16, 12, 5, 2)
    requires z == Six(31, 0, 9, 19, 17, 29)
    ensures z.d == XorSymbol(x.d, y.d) && z.e == XorSymbol(x.e, y.e) && z.f == XorSymbol(x.f, y.f)
  {
    XorSymbolIs(31, 12, 19);
    XorSymbolIs(20, 5, 17);
    XorSymbolIs(31, 2, 29);
  }

  lemma SumLast(x: Six, y: Six, z: Six)
    requires x == Six(10, 28, 25, 31, 20, 31) && y == Six(21, 28, 16, 12, 5, 2)
    requires z == Six(31, 0, 9, 19, 17, 29)
    ensures XorSix(x, y) == z
  {
    SumLastHigh(x, y, z);
    SumLastLow(x, y, z);
  }

  lemma NumValue(s: Six, six: seq<Symbol>)
    requires six == [s.a, s.b, s.c, s.d, s.e, s.f]
    ensures Value(six, 32) == Num(s)
  {
    assert six[..5][..4] == six[..4] && six[..4][..3] == six[..3] && six[..3][..2] == six[..2] && six[..2][..1] == six[..1];
    assert Value(six[..1], 32) == s.a;
    assert Value(six[..2], 32) == 0x20 * s.a + s.b;
    assert Value(six[..3], 32) == 0x400 * s.a + 0x20 * s.b + s.c;
    assert Value(six[..4], 32) == 0x8000 * s.a + 0x400 * s.b + 0x20 * s.c + s.d;
    assert Value(six[..5], 32) == 0x10_0000 * s.a + 0x8000 * s.b + 0x400 * s.c + 0x20 * s.d + s.e;
  }

  lemma OtherChecksum(six: seq<Symbol>, other: seq<Symbol>, s: Six, t: Six)
    requires six == [10, 28, 25, 31, 20, 31] && other == [31, 0, 9, 19, 17, 29]
    requires s == Six(10, 28, 25, 31, 20, 31) && t == Six(31, 0, 9, 19, 17, 29)
    ensures Xor(Value(six, 32), 0x2bc830a2) == Value(other, 32)
  {
    var delta := Six(21, 28, 16, 12, 5, 2);
    SumLast(s, delta, t);
    XorNum(s, delta, t);
    NumValue(s, six);
    NumValue(t, other);
  }

  lemma ConstantDifference()
    ensures Xor(1, 0x2bc830a3) == 0x2bc830a2
  {
    XorUnfold(1, 0x2bc830a3);
  }

  lemma Bech32mSpelled(six: seq<Symbol>)
    requires six == [31, 0, 9, 19, 17, 29]
    ensures Spell(CHARSET, six) == "lqfn3a" && "a" + "1" + "lqfn3a" == "a1lqfn3a"
  {
    forall i | 0 <= i < 6 ensures Spell(CHARSET, six)[i] == CHARSET[six[i]] {
      SpellAt(CHARSET, six, i);
    }
  }

  /** The text that BIP-350 publishes for the prefix `a` without data. */
  lemma Bech32mText()
    ensures Encode(BECH32M, "a", []) == "a1lqfn3a"
    ensures Decode("a1lqfn3a", false) == Some(Decoded(BECH32M, "a", []))
  {
    var other: seq<Symbol> := [31, 0, 9, 19, 17, 29];
    Bech32mChecksum([10, 28, 25, 31, 20, 31], other);
    Bech32mSpelled(other);
    TextOf(BECH32M, "a", other, "lqfn3a");
  }

  lemma Bech32mChecksum(six: seq<Symbol>, other: seq<Symbol>)
    requires six == [10, 28, 25, 31, 20, 31] && other == [31, 0, 9, 19, 17, 29]
    ensures CreateChecksum(BECH32M, "a", []) == other
  {
    Verifies(six);
    OtherConstant("a", six);
    ConstantDifference();
    OtherChecksum(six, other, Six(10, 28, 25, 31, 20, 31), Six(31, 0, 9, 19, 17, 29));
    ValueInjective(CreateChecksum(BECH32M, "a", []), other, 32);
  }

  /** The alphabet, in the rows in which BIP-173 shows it. */
  lemma CharsetRows()
    ensures CHARSET == "qpzry9x8" + "gf2tvdw0" + "s3jn54kh" + "ce6mua7l"
  {
  }
}
