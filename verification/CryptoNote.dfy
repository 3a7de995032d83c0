/**
 CryptoNote Base58: text in blocks of eleven characters for eight bytes, and a shorter last block.
 */
module CryptoNote {
  import opened Wrappers
  import opened Positional
  import opened Alphabet
  import BaseCodec
  import HexText

  /** The source returns `False`, or raises. */
  datatype Error = ReturnsFalse | Raises

  const UINT64 := 0x1_0000_0000_0000_0000

  /** How many bytes a block of `n` characters stands for. */
  function DecodedSize(n: nat): (size: Option<nat>)
    ensures size.Some? ==> size.value <= 8 && (size.value == 8 <==> n == 11) && (size.value == 0 <==> n == 0)
  {
    if n == 0 then Some(0) else if n == 2 then Some(1) else if n == 3 then Some(2) else if n == 5 then Some(3)
    else if n == 6 then Some(4) else if n == 7 then Some(5) else if n == 9 then Some(6) else if n == 10 then Some(7)
    else if n == 11 then Some(8) else None
  }

  /** A block of `size` bytes has the least number of characters that can hold it, and no other number is a size. */
  lemma DecodedSizeIs(n: nat, size: nat)
    requires size <= 8
    ensures DecodedSize(n) == Some(size)
       <==> Pow(58, n) >= Pow(256, size) && forall m: nat :: m < n ==> Pow(58, m) < Pow(256, size)
  {
    LeastHolds(size);
    SizeTable(n, size);
    LeastUnique(n, LeastFor(size), Pow(256, size));
  }

  lemma SizeTable(n: nat, size: nat)
    requires size <= 8
    ensures DecodedSize(n) == Some(size) <==> n == LeastFor(size)
  {
  }

  lemma LeastUnique(n: nat, least: nat, p: nat)
    requires Pow(58, least) >= p && (least > 0 ==> Pow(58, least - 1) < p)
    ensures n == least <==> Pow(58, n) >= p && forall m: nat :: m < n ==> Pow(58, m) < p
  {
    if n == least {
      forall m: nat | m < n ensures Pow(58, m) < p {
        PowMonotone(58, m, n - 1);
      }
    } else if n < least {
      PowMonotone(58, n, least - 1);
    }
  }

  function LeastFor(size: nat): nat
    requires size <= 8
  {
    [0, 2, 3, 5, 6, 7, 9, 10, 11][size]
  }

  lemma LeastHolds(size: nat)
    requires size <= 8
    ensures var n := LeastFor(size); Pow(58, n) >= Pow(256, size) && (n > 0 ==> Pow(58, n - 1) < Pow(256, size))
  {
    Powers58();
    Powers256();
  }

  lemma Powers58()
    ensures Pow(58, 0) == 1 && Pow(58, 1) == 58 && Pow(58, 2) == 3364 && Pow(58, 3) == 195112 && Pow(58, 4) == 11316496
    ensures Pow(58, 5) == 656356768 && Pow(58, 6) == 38068692544 && Pow(58, 7) == 2207984167552
    ensures Pow(58, 8) == 128063081718016 && Pow(58, 9) == 7427658739644928
    ensures Pow(58, 10) == 430804206899405824 && Pow(58, 11) == 24986644000165537792
  {
    assert Pow(58, 4) == 58 * Pow(58, 3);
    assert Pow(58, 8) == 58 * Pow(58, 7);
  }

  lemma Powers256()
    ensures Pow(256, 0) == 1 && Pow(256, 1) == 256 && Pow(256, 2) == 65536 && Pow(256, 3) == 16777216
    ensures Pow(256, 4) == 4294967296 && Pow(256, 5) == 1099511627776 && Pow(256, 6) == 281474976710656
    ensures Pow(256, 7) == 72057594037927936 && Pow(256, 8) == UINT64
  {
    assert Pow(256, 4) == 256 * Pow(256, 3);
  }

  // ----- one block -----

  /** The number a block stands for, if its size, its characters and its value are accepted. The bound is the
      source's: the value 2^64 of a full block is let through. */
  function BlockNumber(block: string): (v: Option<nat>) {
    match (DecodedSize(|block|), Lookup(BaseCodec.B58, block))
    case (Some(size), Some(ds)) =>
      var v := Value(ds, 58);
      if size >= 1 && v <= UINT64 && (size < 8 ==> v < Pow(256, size)) then Some(v) else None
    case _ => None
  }

  function BlockBytes(block: string): (b: seq<Byte>)
    requires BlockNumber(block).Some?
    ensures |b| == DecodedSize(|block|).value
  {
    Digits(BlockNumber(block).value, DecodedSize(|block|).value, 256)
  }

  lemma Uint64Power()
    ensures Pow(256, 8) == UINT64
  {
    assert Pow(256, 4) == 0x1_0000_0000;
    PowAdd(256, 4, 4);
  }

  lemma {:induction false} DigitsModulo(v: nat, n: nat, b: nat)
    requires b >= 2
    ensures Pow(b, n) > 0 && Value(Digits(v, n, b), b) == v % Pow(b, n)
    decreases n
  {
    PowPositive(b, n);
    if n == 0 {
    } else {
      var p := Pow(b, n - 1);
      PowPositive(b, n - 1);
      DigitsModulo(v / b, n - 1, b);
      assert Digits(v, n, b)[..n - 1] == Digits(v / b, n - 1, b);
      DivOfMod(v, b, p);
      ModMod(v, b, p);
      DivModSum(v % (b * p), b);
    }
  }

  /** A block keeps its value, except that 2^64 becomes 0. */
  lemma BlockValueKept(block: string)
    requires BlockNumber(block).Some?
    ensures var v := BlockNumber(block).value;
      Value(BlockBytes(block), 256) == if v == UINT64 then 0 else v
  {
    Uint64Power();
    DigitsKept(BlockNumber(block).value, DecodedSize(|block|).value);
  }

  lemma DigitsKept(v: nat, size: nat)
    requires size <= 8 && (v < Pow(256, size) || (size == 8 && v == UINT64)) && Pow(256, 8) == UINT64
    ensures Value(Digits(v, size, 256), 256) == if v == UINT64 then 0 else v
  {
    var p := Pow(256, size);
    DigitsModulo(v, size, 256);
    if v < p {
      PowMonotone(256, size, 8);
      SmallRemainder(v, p);
    } else {
      DivModUnique(v, p, 1, 0);
    }
  }

  lemma SmallRemainder(v: nat, p: nat)
    requires v < p
    ensures v % p == v
  {
    DivModUnique(v, p, 0, v);
  }

  lemma NumberInjective(s: string, t: string)
    requires |s| == |t| && BlockNumber(s).Some? && BlockNumber(s) == BlockNumber(t)
    ensures s == t
  {
    BaseCodec.B58Distinct();
    ValueInjective(Lookup(BaseCodec.B58, s).value, Lookup(BaseCodec.B58, t).value, 58);
    SpellLookup(BaseCodec.B58, s);
    SpellLookup(BaseCodec.B58, t);
  }

  /** One is 0 and the other 2^64. */
  predicate Confused(v: nat, w: nat) {
    (v == 0 && w == UINT64) || (v == UINT64 && w == 0)
  }

  /** Two accepted blocks of one size give the same bytes exactly when they are the same, or one stands for 0 and the
      other for 2^64. */
  lemma BlockCollision(s: string, t: string)
    requires |s| == |t| && BlockNumber(s).Some? && BlockNumber(t).Some?
    ensures BlockBytes(s) == BlockBytes(t) <==> s == t || Confused(BlockNumber(s).value, BlockNumber(t).value)
  {
    var v, w := BlockNumber(s).value, BlockNumber(t).value;
    BlockValueKept(s);
    BlockValueKept(t);
    if v == w {
      NumberInjective(s, t);
    }
    if Value(BlockBytes(s), 256) == Value(BlockBytes(t), 256) {
      ValueInjective(BlockBytes(s), BlockBytes(t), 256);
    }
  }

  // ----- the whole text -----

  function FirstSize(enc: string): nat {
    if |enc| < 11 then |enc| else 11
  }

  function DecodeText(enc: string): (b: Option<seq<Byte>>) {
    if enc == "" then Some([])
    else
      var k := FirstSize(enc);
      match (BlockNumber(enc[..k]), DecodeText(enc[k..]))
      case (Some(_), Some(more)) => Some(BlockBytes(enc[..k]) + more)
      case _ => None
  }

  /** `decode` returns `False` exactly for the lengths whose last block has a size that no number of bytes has. */
  lemma ReturnsFalseIff(enc: string)
    ensures Decode(enc) == Failure(ReturnsFalse) <==> |enc| % 11 == 1 || |enc| % 11 == 4 || |enc| % 11 == 8
  {
  }

  /** `decode`: hexadecimal text, or an error. */
  function Decode(enc: string): (r: Result<string, Error>) {
    if DecodedSize(|enc| % 11).None? then Failure(ReturnsFalse)
    else match DecodeText(enc)
      case None => Failure(Raises)
      case Some(bytes) => Success(HexText.Hex(bytes))
  }

  const ZERO_BLOCK: string := "11111111111"

  /** A block for 2^64 written as the block for 0. */
  function NormalBlock(block: string): string {
    if BlockNumber(block) == Some(UINT64) then ZERO_BLOCK else block
  }

  function Normal(enc: string): string {
    if enc == "" then "" else NormalBlock(enc[..FirstSize(enc)]) + Normal(enc[FirstSize(enc)..])
  }

  lemma ZeroBlockNumber()
    ensures BlockNumber(ZERO_BLOCK) == Some(0)
  {
    var zeros := BaseCodec.Zeros(11);
    BaseCodec.B58Distinct();
    assert BaseCodec.B58[0] == '1';
    forall i | 0 <= i < 11 ensures Spell(BaseCodec.B58, zeros)[i] == '1' {
      SpellAt(BaseCodec.B58, zeros, i);
    }
    assert Spell(BaseCodec.B58, zeros) == ZERO_BLOCK;
    LookupSpell(BaseCodec.B58, zeros);
    BaseCodec.ZerosValue(11, 58);
  }

  const OVERFLOW_BLOCK: string := "jpXCZedGfVR"

  /** The one block that stands for 2^64. */
  lemma OverflowNumber()
    ensures BlockNumber(OVERFLOW_BLOCK) == Some(UINT64)
  {
    var ds: seq<nat> := [42, 47, 30, 11, 32, 37, 36, 15, 38, 28, 24];
    BaseCodec.B58Distinct();
    OverflowSpelled(ds);
    LookupSpell(BaseCodec.B58, ds);
    OverflowValue(ds);
  }

  lemma OverflowSpelled(ds: seq<nat>)
    requires ds == [42, 47, 30, 11, 32, 37, 36, 15, 38, 28, 24]
    requires |BaseCodec.B58| == 58
    ensures Spell(BaseCodec.B58, ds) == OVERFLOW_BLOCK
  {
    forall i | 0 <= i < 11 ensures Spell(BaseCodec.B58, ds)[i] == BaseCodec.B58[ds[i]] {
      SpellAt(BaseCodec.B58, ds, i);
    }
    B58Chars();
  }

  lemma B58Chars()
    ensures |BaseCodec.B58| == 58
    ensures var cs := BaseCodec.B58;
      && cs[42] == 'j' && cs[47] == 'p' && cs[30] == 'X' && cs[11] == 'C' && cs[32] == 'Z' && cs[37] == 'e'
      && cs[36] == 'd' && cs[15] == 'G' && cs[38] == 'f' && cs[28] == 'V' && cs[24] == 'R'
  {
    B58Upper();
    B58Lower();
  }

  lemma B58Upper()
    ensures var cs := BaseCodec.B58;
      |cs| == 58 && cs[11] == 'C' && cs[15] == 'G' && cs[24] == 'R' && cs[28] == 'V' && cs[30] == 'X' && cs[32] == 'Z'
  {
    var cs := BaseCodec.B58;
    assert forall i :: 9 <= i < 21 ==> cs[i] == BaseCodec.UPPER_58_A_M[i - 9];
    assert forall i :: 21 <= i < 33 ==> cs[i] == BaseCodec.UPPER_58_N_Z[i - 21];
  }

  lemma B58Lower()
    ensures var cs := BaseCodec.B58;
      |cs| == 58 && cs[36] == 'd' && cs[37] == 'e' && cs[38] == 'f' && cs[42] == 'j' && cs[47] == 'p'
  {
    var cs := BaseCodec.B58;
    assert forall i :: 33 <= i < 45 ==> cs[i] == BaseCodec.LOWER_58_A_M[i - 33];
    assert forall i :: 45 <= i < 58 ==> cs[i] == BaseCodec.LOWER_58_N_Z[i - 45];
  }

  lemma OverflowValue(ds: seq<nat>)
    requires ds == [42, 47, 30, 11, 32, 37, 36, 15, 38, 28, 24]
    ensures Value(ds, 58) == UINT64
  {
    assert Value(ds[..1], 58) == 42 by { assert ds[..1][..0] == []; }
    assert Value(ds[..2], 58) == 2483 by { assert ds[..2][..1] == ds[..1]; }
    assert Value(ds[..3], 58) == 144044 by { assert ds[..3][..2] == ds[..2]; }
    assert Value(ds[..4], 58) == 8354563 by { assert ds[..4][..3] == ds[..3]; }
    assert Value(ds[..5], 58) == 484564686 by { assert ds[..5][..4] == ds[..4]; }
    assert Value(ds[..6], 58) == 28104751825 by { assert ds[..6][..5] == ds[..5]; }
    assert Value(ds[..7], 58) == 1630075605886 by { assert ds[..7][..6] == ds[..6]; }
    assert Value(ds[..8], 58) == 94544385141403 by { assert ds[..8][..7] == ds[..7]; }
    assert Value(ds[..9], 58) == 5483574338201412 by { assert ds[..9][..8] == ds[..8]; }
    assert Value(ds[..10], 58) == 318047311615681924 by { assert ds[..10][..9] == ds[..9]; }
    assert ds[..10] == ds[..|ds| - 1];
  }

  /** A concrete collision: the two blocks decode to the same eight zero bytes. */
  lemma OverflowCollides()
    ensures BlockNumber(OVERFLOW_BLOCK).Some? && BlockNumber(ZERO_BLOCK).Some?
    ensures OVERFLOW_BLOCK != ZERO_BLOCK && BlockBytes(OVERFLOW_BLOCK) == BlockBytes(ZERO_BLOCK)
  {
    OverflowNumber();
    ZeroBlockNumber();
    BlockCollision(OVERFLOW_BLOCK, ZERO_BLOCK);
    assert OVERFLOW_BLOCK[0] != ZERO_BLOCK[0];
  }

  lemma NormalBlockSame(s: string, t: string)
    requires |s| == |t| && BlockNumber(s).Some? && BlockNumber(t).Some?
    ensures |NormalBlock(s)| == |s|
    ensures BlockBytes(s) == BlockBytes(t) <==> NormalBlock(s) == NormalBlock(t)
  {
    BlockCollision(s, t);
    NormalForm(s);
    NormalForm(t);
  }

  /** The normal form has the same bytes, stands for less than 2^64, and is zero only as the zero block. */
  lemma NormalForm(s: string)
    requires BlockNumber(s).Some?
    ensures |NormalBlock(s)| == |s|
    ensures BlockNumber(s) == Some(UINT64) ==> |s| == 11
    ensures |s| == 11 ==> (NormalBlock(s) == ZERO_BLOCK <==> BlockNumber(s).value in {0, UINT64})
  {
    ZeroBlockNumber();
    Uint64Power();
    if |s| != 11 {
      PowMonotone(256, DecodedSize(|s|).value, 8);
    } else if BlockNumber(s) == Some(0) {
      NumberInjective(s, ZERO_BLOCK);
    }
  }

  lemma SplitEqual<T>(a: seq<T>, b: seq<T>, c: seq<T>, d: seq<T>)
    requires |a| == |c|
    ensures a + b == c + d <==> a == c && b == d
  {
    if a + b == c + d {
      assert a == (a + b)[..|a|] && c == (c + d)[..|c|];
      assert b == (a + b)[|a|..] && d == (c + d)[|c|..];
    }
  }

  /** Two accepted texts of one length decode to the same bytes exactly when they are the same after every block for
      2^64 is written as the block for 0. */
  lemma {:induction false} TextCollision(s: string, t: string)
    requires |s| == |t| && DecodeText(s).Some? && DecodeText(t).Some?
    ensures DecodeText(s) == DecodeText(t) <==> Normal(s) == Normal(t)
  {
    if s == "" {
    } else {
      var k := FirstSize(s);
      NormalBlockSame(s[..k], t[..k]);
      NormalBlockSame(t[..k], s[..k]);
      TextCollision(s[k..], t[k..]);
      SplitEqual(BlockBytes(s[..k]), DecodeText(s[k..]).value, BlockBytes(t[..k]), DecodeText(t[k..]).value);
      SplitEqual(NormalBlock(s[..k]), Normal(s[k..]), NormalBlock(t[..k]), Normal(t[k..]));
    }
  }

  /** Without a block for 2^64, different texts of one length decode differently. */
  lemma DecodeInjective(s: string, t: string)
    requires |s| == |t| && Decode(s).Success? && Decode(t).Success?
    ensures Decode(s) == Decode(t) <==> Normal(s) == Normal(t)
    ensures Normal(s) == s && Normal(t) == t && s != t ==> Decode(s) != Decode(t)
  {
    TextCollision(s, t);
    HexText.UnhexHex(DecodeText(s).value);
    HexText.UnhexHex(DecodeText(t).value);
  }

  // ----- the loops of the source -----

  /** The bytes of a number, written from the last to the first. */
  method Uint64To8be(num: nat, size: nat) returns (res: Option<array<Byte>>)
    ensures res.Some? <==> 1 <= size <= 8
    ensures res.Some? ==> fresh(res.value) && res.value[..] == Digits(num, size, 256)
  {
    if size < 1 || size > 8 {
      return None;
    }
    var a := new Byte[size](i => 0);
    var i, n: nat := size, num;
    while i > 0
      invariant 0 <= i <= size && Pow(256, size - i) > 0 && n == num / Pow(256, size - i)
      invariant a[i..] == Digits(num, size - i, 256)
    {
      DigitsPrepend(num, size - i, 256);
      DivDiv(num, Pow(256, size - i), 256);
      PowPositive(256, size - i + 1);
      i := i - 1;
      a[i] := n % 256;
      assert a[i..] == [n % 256] + a[i + 1..];
      n := n / 256;
    }
    assert a[..] == a[0..];
    return Some(a);
  }

  /** The digits of a block from the last to the first, with a growing power of 58. The value only grows, so an early
      end on the bound is an end on the whole value. */
  method BlockValue(data: string) returns (v: Option<nat>)
    ensures v.Some? <==> Lookup(BaseCodec.B58, data).Some? && Value(Lookup(BaseCodec.B58, data).value, 58) <= UINT64
    ensures v.Some? ==> v.value == Value(Lookup(BaseCodec.B58, data).value, 58)
  {
    var num: nat, order: nat := 0, 1;
    var i := |data|;
    ghost var ds: seq<nat> := [];
    BaseCodec.B58Distinct();
    while i > 0
      invariant 0 <= i <= |data| && Below(ds, 58) && Spell(BaseCodec.B58, ds) == data[i..]
      invariant order == Pow(58, |data| - i) && num == Value(ds, 58) <= UINT64
    {
      i := i - 1;
      var digit := IndexOf(BaseCodec.B58, data[i]);
      if digit.None? {
        LookupForeign(BaseCodec.B58, data, i);
        return None;
      }
      ghost var more := FrontDigit(data, i, ds, digit.value);
      var product: nat := order * digit.value + num;
      if product > UINT64 {
        SuffixTooBig(data, i, more);
        return None;
      }
      num := product;
      order := order * 58;
      ds := more;
    }
    assert data[0..] == data;
    LookupSpell(BaseCodec.B58, ds);
    return Some(num);
  }

  /** One more digit in front of those read so far. */
  lemma FrontDigit(data: string, i: nat, ds: seq<nat>, d: nat) returns (more: seq<nat>)
    requires |BaseCodec.B58| == 58 && i < |data| && d < 58 && BaseCodec.B58[d] == data[i]
    requires Below(ds, 58) && Spell(BaseCodec.B58, ds) == data[i + 1..]
    ensures Below(more, 58) && Spell(BaseCodec.B58, more) == data[i..]
    ensures Value(more, 58) == Pow(58, |data| - i - 1) * d + Value(ds, 58)
  {
    more := [d] + ds;
    SpellFront(BaseCodec.B58, d, ds);
    assert data[i..] == [data[i]] + data[i + 1..];
    BaseCodec.ValueOfFront(more, 58);
    assert more[1..] == ds;
  }

  lemma {:induction false} SpellFront(cs: string, d: nat, ds: seq<nat>)
    requires d < |cs| && Below(ds, |cs|)
    ensures Spell(cs, [d] + ds) == [cs[d]] + Spell(cs, ds)
  {
    var more, n := [d] + ds, |ds|;
    if n == 0 {
      assert more[..0] == [];
    } else {
      assert more[..n] == [d] + ds[..n - 1];
      SpellFront(cs, d, ds[..n - 1]);
    }
  }

  lemma SuffixTooBig(data: string, i: nat, ds: seq<nat>)
    requires i <= |data| && Below(ds, 58) && |BaseCodec.B58| == 58 && Distinct(BaseCodec.B58)
    requires Spell(BaseCodec.B58, ds) == data[i..] && Value(ds, 58) > UINT64
    ensures Lookup(BaseCodec.B58, data).None? || Value(Lookup(BaseCodec.B58, data).value, 58) > UINT64
  {
    if Lookup(BaseCodec.B58, data).Some? {
      var es := Lookup(BaseCodec.B58, data).value;
      SpellLookup(BaseCodec.B58, data);
      SuffixDigits(BaseCodec.B58, es, ds, i);
      SuffixValue(es, i, 58);
    }
  }

  lemma SuffixValue(es: seq<nat>, i: nat, b: nat)
    requires i <= |es|
    ensures Value(es[i..], b) <= Value(es, b)
  {
    var high: nat := Value(es[..i], b) * Pow(b, |es| - i);
    ValueConcat(es[..i], es[i..], b);
    assert es == es[..i] + es[i..];
  }

  lemma SuffixDigits(cs: string, es: seq<nat>, ds: seq<nat>, i: nat)
    requires Below(es, |cs|) && Below(ds, |cs|) && Distinct(cs) && i <= |es|
    requires Spell(cs, es)[i..] == Spell(cs, ds)
    ensures es[i..] == ds
  {
    forall j | 0 <= j < |ds| ensures es[i + j] == ds[j] {
      SpellAt(cs, es, i + j);
      SpellAt(cs, ds, j);
      assert Spell(cs, es)[i..][j] == Spell(cs, ds)[j];
    }
  }

  /** One block, written into its slice of the buffer. */
  method DecodeBlock(data: string, buf: array<Byte>, index: nat) returns (ok: bool)
    requires DecodedSize(|data|).Some? ==> index + DecodedSize(|data|).value <= buf.Length
    modifies buf
    ensures ok <==> BlockNumber(data).Some?
    ensures !ok ==> buf[..] == old(buf[..])
    ensures ok ==> buf[..] == old(buf[..index]) + BlockBytes(data) + old(buf[index + |BlockBytes(data)|..])
  {
    var size := DecodedSize(|data|);
    if size.None? || size.value == 0 {
      return false;
    }
    var v := BlockValue(data);
    if v.None? {
      return false;
    }
    if size.value < 8 && Pow(256, size.value) <= v.value {
      return false;
    }
    var bytes := Uint64To8be(v.value, size.value);
    WriteSlice(buf, index, bytes.value);
    return true;
  }

  /** Assignment to a slice of the same size. */
  method WriteSlice(buf: array<Byte>, index: nat, bytes: array<Byte>)
    requires buf != bytes && index + bytes.Length <= buf.Length
    modifies buf
    ensures buf[..] == old(buf[..index]) + bytes[..] + old(buf[index + bytes.Length..])
  {
    for k := 0 to bytes.Length
      invariant buf[..] == old(buf[..index]) + bytes[..k] + old(buf[index + k..])
    {
      buf[index + k] := bytes[k];
    }
    assert bytes[..bytes.Length] == bytes[..];
  }

  /** The size of the whole decoded text. */
  function TotalSize(n: nat): (size: Option<nat>)
    ensures size.Some? ==> n / 11 * 8 <= size.value
  {
    match DecodedSize(n % 11)
    case None => None
    case Some(last) => Some(n / 11 * 8 + last)
  }

  /** The loop over the full blocks. */
  method FillBlocks(enc: string, full: nat, data: array<Byte>) returns (ok: bool)
    requires full * 11 <= |enc| && full * 8 <= data.Length
    modifies data
    ensures !ok ==> DecodeText(enc).None?
    ensures ok ==> Continues(enc, data[..full * 8], enc[full * 11..])
  {
    ghost var done: seq<Byte>, rest := [], enc;
    PrefixedNothing(DecodeText(enc));
    for i := 0 to full
      invariant done == data[..i * 8] && rest == enc[i * 11..]
      invariant Continues(enc, done, rest)
    {
      var at: nat, index: nat := i * 11, i * 8;
      var block := enc[at..at + 11];
      RestStep(enc, at, rest);
      Continued(enc, done, rest, block);
      ok := AppendBlock(block, data, index);
      if !ok {
        return false;
      }
      done, rest := done + BlockBytes(block), rest[11..];
    }
    return true;
  }

  /** One full block after the `index` bytes already written. */
  method AppendBlock(block: string, data: array<Byte>, index: nat) returns (ok: bool)
    requires |block| == 11 && index + 8 <= data.Length
    modifies data
    ensures ok <==> BlockNumber(block).Some?
    ensures ok ==> data[..index + 8] == old(data[..index]) + BlockBytes(block)
  {
    ghost var done, tail := data[..index], data[index + 8..];
    ok := DecodeBlock(block, data, index);
    if ok {
      Front(data[..], done, BlockBytes(block), tail);
    }
  }

  lemma Front(all: seq<Byte>, a: seq<Byte>, b: seq<Byte>, c: seq<Byte>)
    requires all == a + b + c
    ensures all[..|a| + |b|] == a + b
  {
  }

  lemma RestStep(enc: string, at: nat, rest: string)
    requires at + 11 <= |enc| && rest == enc[at..]
    ensures rest[..11] == enc[at..at + 11] && rest[11..] == enc[at + 11..]
  {
  }

  /** `enc` decodes to `done` and what `rest` decodes to. */
  ghost predicate Continues(enc: string, done: seq<Byte>, rest: string) {
    Prefixed(done, DecodeText(rest)) == DecodeText(enc)
  }

  lemma Continued(enc: string, done: seq<Byte>, rest: string, block: string)
    requires Continues(enc, done, rest) && 11 <= |rest| && block == rest[..11]
    ensures BlockNumber(block).Some? ==> Continues(enc, done + BlockBytes(block), rest[11..])
    ensures BlockNumber(block).None? ==> DecodeText(enc).None?
  {
    TextStep(rest, block);
    if BlockNumber(block).Some? {
      PrefixedStep(done, BlockBytes(block), DecodeText(rest[11..]));
    }
  }

  lemma TextStep(enc: string, block: string)
    requires 11 <= |enc| && block == enc[..11]
    ensures DecodeText(enc)
         == if BlockNumber(block).Some? then Prefixed(BlockBytes(block), DecodeText(enc[11..])) else None
  {
  }

  lemma LastStep(block: string)
    requires 0 < |block| < 11
    ensures DecodeText(block) == if BlockNumber(block).Some? then Some(BlockBytes(block)) else None
  {
    WholeSlice(block);
    TextUnfold(block, block, "");
    if BlockNumber(block).Some? {
      PrefixedLast(BlockBytes(block));
    }
  }

  lemma WholeSlice(s: string)
    ensures s[..|s|] == s && s[|s|..] == ""
  {
  }

  lemma PrefixedLast(b: seq<Byte>)
    ensures Prefixed(b, DecodeText("")) == Some(b)
  {
    assert b + [] == b;
  }

  lemma TextUnfold(enc: string, block: string, rest: string)
    requires enc != "" && block == enc[..FirstSize(enc)] && rest == enc[FirstSize(enc)..]
    ensures DecodeText(enc) == if BlockNumber(block).Some? then Prefixed(BlockBytes(block), DecodeText(rest)) else None
  {
  }

  /** `decode`: the blocks one after the other, each into its slice of a buffer of zeros. */
  method DecodeAll(enc: string) returns (r: Result<string, Error>)
    ensures r == Decode(enc)
  {
    var size := TotalSize(|enc|);
    if size.None? {
      return Failure(ReturnsFalse);
    }
    var data := new Byte[size.value](i => 0);
    var full := |enc| / 11;
    var ok := FillBlocks(enc, full, data);
    if !ok {
      return Failure(Raises);
    }
    ghost var done := data[..full * 8];
    var block := enc[full * 11..];
    if block != "" {
      LastStep(block);
      ok := DecodeBlock(block, data, full * 8);
      if !ok {
        return Failure(Raises);
      }
      assert data[..] == done + BlockBytes(block);
    } else {
      assert data[..] == done + [];
    }
    r := Success(HexText.Hex(data[..]));
  }

  lemma PrefixedNothing(rest: Option<seq<Byte>>)
    ensures Prefixed([], rest) == rest
  {
    if rest.Some? {
      assert [] + rest.value == rest.value;
    }
  }

  ghost function Prefixed(pre: seq<Byte>, rest: Option<seq<Byte>>): Option<seq<Byte>> {
    match rest
    case None => None
    case Some(b) => Some(pre + b)
  }

  lemma PrefixedStep(pre: seq<Byte>, b: seq<Byte>, rest: Option<seq<Byte>>)
    ensures Prefixed(pre, Prefixed(b, rest)) == Prefixed(pre + b, rest)
  {
    if rest.Some? {
      assert pre + (b + rest.value) == pre + b + rest.value;
    }
  }
}
