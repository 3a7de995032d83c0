/**
 TON addresses: base64 text whose last two bytes are the CRC of the bytes before them.
 */
module TonAddress {
  import opened Wrappers
  import opened Positional
  import opened BitXor
  import opened LinearRegister
  import opened ConvertBits
  import opened Crc16

  // ----- the check on bytes -----

  /** `calc_crc_ton(m[:-2]) == m[-2:]`, with Python's slices of short messages. */
  predicate CheckedBytes(m: seq<Byte>) {
    if |m| < 2 then BigEndian(Run(BYTE, 0, [0, 0])) == m
    else BigEndian(Run(BYTE, 0, m[..|m| - 2] + [0, 0])) == m[|m| - 2..]
  }

  lemma RunTwoBytes(c: Byte, d: Byte)
    ensures Run(BYTE, 0, [c, d]) == c * 256 + d
  {
    var one: seq<Word> := [c];
    var two: seq<Word> := [c, d];
    assert one[..0] == [] && two[..1] == one;
    assert Run(BYTE, 0, one[..0]) == 0;
    Shift8Small(0);
    Shift8Small(c);
    XorCommutes(0, c);
    Powers();
    XorDisjoint(c, d, 8);
  }

  /** The last two bytes are added to what two zero bytes leave. */
  lemma LastTwo(p: seq<Byte>, c: Byte, d: Byte)
    ensures c * 256 + d == Add(Run(BYTE, 0, p + [c, d]), Run(BYTE, 0, p + [0, 0]))
  {
    RunTwoBytes(c, d);
    RunConcat<Word>(BYTE, 0, p, [c, d]);
    RunConcat<Word>(BYTE, 0, p, [0, 0]);
    TwoBytesAdded(Run(BYTE, 0, p), [c, d]);
  }

  lemma TwoBytesAdded(reg: Word, two: seq<Word>)
    requires |two| == 2
    ensures Run(BYTE, 0, two) == Add(Run(BYTE, reg, two), Run(BYTE, reg, [0, 0]))
  {
    assert Zeros<Word>(BYTE, 2) == [0, 0];
    ByteLinear();
    ZeroComparison<Word>(BYTE, reg, two);
  }

  lemma ZeroCrc(m: seq<Byte>)
    ensures TableCrc(m) == 0 <==> Run(BYTE, 0, m) == 0
  {
    TableIsBitwise(m);
    RunTwoZeros(0, m);
    Shift8Small(0);
    ByteInjective();
    var reg := Run(BYTE, 0, m);
    if Shift8(Shift8(reg)) == 0 {
      assert Shift8(reg) == 0;
    }
  }

  lemma EndsInCrc(p: seq<Byte>, c: Byte, d: Byte)
    ensures BigEndian(Run(BYTE, 0, p + [0, 0])) == [c, d] <==> Run(BYTE, 0, p + [c, d]) == 0
  {
    LastTwo(p, c, d);
    AddZeroLeft(Run(BYTE, 0, p + [c, d]), Run(BYTE, 0, p + [0, 0]), c * 256 + d);
    BigEndianIs(Run(BYTE, 0, p + [0, 0]), c, d);
  }

  /** The check accepts exactly the messages of two bytes or more whose CRC, over all of the message, is zero. */
  lemma AcceptsZeroCrc(m: seq<Byte>)
    ensures CheckedBytes(m) <==> |m| >= 2 && TableCrc(m) == 0
  {
    if |m| >= 2 {
      ZeroCrc(m);
      EndsInTwo(m);
      AcceptsPair(m[..|m| - 2], m[|m| - 2], m[|m| - 1]);
    }
  }

  lemma EndsInTwo<T>(s: seq<T>)
    requires |s| >= 2
    ensures s == s[..|s| - 2] + [s[|s| - 2], s[|s| - 1]]
  {
  }

  lemma AcceptsPair(p: seq<Byte>, c: Byte, d: Byte)
    ensures CheckedBytes(p + [c, d]) <==> Run(BYTE, 0, p + [c, d]) == 0
  {
    var m := p + [c, d];
    assert m[..|m| - 2] == p && m[|m| - 2..] == [c, d];
    EndsInCrc(p, c, d);
  }

  lemma AddZeroLeft(x: Word, y: Word, z: Word)
    requires z == Add(x, y)
    ensures x == 0 <==> y == z
  {
    AddCancels(x, y, z);
    XorZeroIff(y, z);
  }

  lemma BigEndianIs(y: Word, c: Byte, d: Byte)
    ensures BigEndian(y) == [c, d] <==> y == c * 256 + d
  {
    if y == c * 256 + d {
      DivMultiple(c, 256, d);
    }
  }

  // ----- the text -----

  datatype Error = BadPadding

  /** The six bits a character stands for, in either alphabet. */
  function Sextet(c: char): (d: nat)
    ensures d < 64
  {
    if 'A' <= c <= 'Z' then c as int - 'A' as int
    else if 'a' <= c <= 'z' then c as int - 'a' as int + 26
    else if '0' <= c <= '9' then c as int - '0' as int + 52
    else if c == '+' || c == '-' then 62
    else 63
  }

  /** The order of the alphabets of RFC 4648, sections 4 and 5. */
  lemma SextetOrder(i: int)
    ensures 0 <= i < 26 ==> Sextet('A' + i as char) == i && Sextet('a' + i as char) == 26 + i
    ensures 0 <= i < 10 ==> Sextet('0' + i as char) == 52 + i
    ensures Sextet('+') == Sextet('-') == 62 && Sextet('/') == Sextet('_') == 63
  {
  }

  predicate Alphanumeric(c: char) {
    'A' <= c <= 'Z' || 'a' <= c <= 'z' || '0' <= c <= '9'
  }

  predicate Standard(s: string) {
    forall i :: 0 <= i < |s| ==> Alphanumeric(s[i]) || s[i] == '+' || s[i] == '/'
  }

  predicate UrlSafe(s: string) {
    forall i :: 0 <= i < |s| ==> Alphanumeric(s[i]) || s[i] == '-' || s[i] == '_'
  }

  function Sextets(s: string): (ds: seq<nat>)
    ensures |ds| == |s| && Below(ds, 64)
  {
    seq(|s|, i requires 0 <= i < |s| => Sextet(s[i]))
  }

  lemma Sixes(s: string)
    ensures Pow(2, 6) == 64 && Pow(2, 8) == 256
    ensures InRange(Sextets(s), 6)
    ensures |s| % 4 == 0 ==> |s| * 6 % 8 == 0
  {
    Powers();
    assert Pow(2, 6) == 64;
    if |s| % 4 == 0 {
      DivModUnique(|s| * 6, 8, |s| / 4 * 3, 0);
    }
  }

  /** `base64.b64decode` of a text without padding characters. */
  function FromBase64(s: string): (m: seq<Byte>)
    requires |s| % 4 == 0
    ensures |m| * 8 == |s| * 6 && Value(m, 256) == Value(Sextets(s), 64)
  {
    Sixes(s);
    var v := Value(Sextets(s), 64);
    assert v < Pow(256, |s| * 6 / 8) by {
      ValueInBits(Sextets(s), 6);
      PowMul(2, 8, |s| * 6 / 8);
    }
    ValueOfDigits(v, |s| * 6 / 8, 256);
    Regroup(Sextets(s), 6, 8, false).value
  }

  function ValidateTon(address: string): (r: Result<bool, Error>) {
    if !Standard(address) && !UrlSafe(address) then Success(false)
    else if |address| % 4 != 0 then Failure(BadPadding)
    else Success(CheckedBytes(FromBase64(address)))
  }

  /** Characters of both alphabets do not go together, and the number of characters must be a multiple of four. */
  lemma RefusedTexts(s: string, i: nat, j: nat)
    requires i < |s| && j < |s|
    ensures (s[i] == '+' || s[i] == '/') && (s[j] == '-' || s[j] == '_') ==> ValidateTon(s) == Success(false)
    ensures s[i] == '=' || s[i] == '.' || s[i] == ' ' ==> ValidateTon(s) == Success(false)
    ensures (forall k :: 0 <= k < |s| ==> Alphanumeric(s[k])) && |s| % 4 != 0 ==> ValidateTon(s) == Failure(BadPadding)
  {
  }

  // ----- errors in the text -----

  lemma {:induction false} FlattenValue(ds: seq<nat>, w: nat)
    requires w >= 1 && Below(ds, Pow(2, w))
    ensures Value(Flatten(ds, w), 2) == Value(ds, Pow(2, w))
  {
    if ds == [] {
    } else {
      var n := |ds| - 1;
      FlattenValue(ds[..n], w);
      ValueConcat(Flatten(ds[..n], w), Bits(ds[n], w), 2);
      ValueOfDigits(ds[n], w, 2);
    }
  }

  lemma {:induction false} FlattenConcat(s: seq<nat>, t: seq<nat>, w: nat)
    ensures Flatten(s + t, w) == Flatten(s, w) + Flatten(t, w)
  {
    if t == [] {
      assert s + t == s;
    } else {
      var t' := t[..|t| - 1];
      FlattenConcat(s, t', w);
      FlattenLast(s, t, w);
      Associates(Flatten(s, w), Flatten(t', w), Bits(t[|t| - 1], w));
    }
  }

  lemma Associates(a: seq<nat>, b: seq<nat>, c: seq<nat>)
    ensures (a + b) + c == a + (b + c)
  {
  }

  lemma FlattenLast(s: seq<nat>, t: seq<nat>, w: nat)
    requires t != []
    ensures Flatten(s + t, w) == Flatten(s + t[..|t| - 1], w) + Bits(t[|t| - 1], w)
  {
    assert (s + t)[..|s + t| - 1] == s + t[..|t| - 1];
  }

  /** Base64 does not change the bits, only how they are grouped. */
  lemma SameBits(s: string)
    requires |s| % 4 == 0
    ensures Flatten(FromBase64(s), 8) == Flatten(Sextets(s), 6)
  {
    var m := FromBase64(s);
    Sixes(s);
    FlattenValue(m, 8);
    FlattenValue(Sextets(s), 6);
    ValueInjective(Flatten(m, 8), Flatten(Sextets(s), 6), 2);
  }

  lemma AcceptedBits(s: string)
    requires ValidateTon(s) == Success(true)
    ensures Run(BIT, 0, Flatten(Sextets(s), 6)) == 0
  {
    SameBits(s);
    AcceptsZeroCrc(FromBase64(s));
    ZeroCrc(FromBase64(s));
    FlattenRuns(0, FromBase64(s));
  }

  /** Two accepted texts that differ in at most two adjacent characters stand for the same bits. */
  lemma ErrorsDetected(pre: string, was: string, now: string, post: string)
    requires |was| == |now| <= 2
    requires ValidateTon(pre + was + post) == Success(true) == ValidateTon(pre + now + post)
    ensures Sextets(was) == Sextets(now)
  {
    AcceptedBits(pre + was + post);
    AcceptedBits(pre + now + post);
    SplitText(pre, was, post);
    SplitText(pre, now, post);
    SameRun(Flatten(Sextets(pre), 6), Flatten(Sextets(was), 6), Flatten(Sextets(now), 6), Flatten(Sextets(post), 6));
    Sixes("");
    FlattenValue(Sextets(was), 6);
    FlattenValue(Sextets(now), 6);
    ValueInjective(Sextets(was), Sextets(now), 64);
  }

  lemma SplitText(a: string, b: string, c: string)
    ensures Flatten(Sextets(a + b + c), 6) == Flatten(Sextets(a), 6) + Flatten(Sextets(b), 6) + Flatten(Sextets(c), 6)
  {
    assert Sextets(a + b + c) == Sextets(a) + Sextets(b) + Sextets(c);
    FlattenConcat(Sextets(a), Sextets(b), 6);
    FlattenConcat(Sextets(a) + Sextets(b), Sextets(c), 6);
  }

  /** Any change inside a window of sixteen bits is detected, at any length. */
  lemma SameRun(pre: seq<Word>, was: seq<Word>, now: seq<Word>, post: seq<Word>)
    requires |was| == |now| <= 16 && Below(was, 2) && Below(now, 2)
    requires Run(BIT, 0, pre + was + post) == Run(BIT, 0, pre + now + post)
    ensures was == now
  {
    assert Run(BIT, 0, Sum(BIT, was, now)) == 0 by {
      BitLinear();
      BitInjective();
      BurstUnseen(BIT, 0, pre, was, now, post);
    }
    UnseenBits(was, now);
  }

  lemma UnseenBits(s: seq<Word>, t: seq<Word>)
    requires |s| == |t| <= 16 && Below(s, 2) && Below(t, 2)
    requires Run(BIT, 0, Sum(BIT, s, t)) == 0
    ensures s == t
  {
    BitSums(s, t);
    RunBits(Sum(BIT, s, t));
    ZeroDigits(Sum(BIT, s, t), 2);
    ZeroSums(s, t);
  }

  lemma BitSums(s: seq<Word>, t: seq<Word>)
    requires |s| == |t| && Below(s, 2) && Below(t, 2)
    ensures Below(Sum(BIT, s, t), 2)
  {
    forall i | 0 <= i < |s| ensures Sum(BIT, s, t)[i] < 2 {
      BitSum(s[i], t[i]);
      SumAt(s, t, i);
    }
  }

  lemma BitSum(a: nat, b: nat)
    requires a < 2 && b < 2
    ensures Xor(a, b) < 2
  {
    Powers();
    XorSplit(a, b, 0, 0, a, b, 1);
  }

  lemma SumAt(s: seq<Word>, t: seq<Word>, i: nat)
    requires i < |s| == |t|
    ensures Sum(BIT, s, t)[i] == Xor(s[i], t[i])
  {
    assert Sum(BIT, s, t)[i] == BIT.add(s[i], t[i]) == Add(s[i], t[i]);
  }

  lemma ZeroSums(s: seq<Word>, t: seq<Word>)
    requires |s| == |t|
    requires forall i :: 0 <= i < |s| ==> Sum(BIT, s, t)[i] == 0
    ensures s == t
  {
    forall i | 0 <= i < |s| ensures s[i] == t[i] {
      SumAt(s, t, i);
      XorZeroIff(s[i], t[i]);
    }
  }
}
