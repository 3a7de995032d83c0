/**
 Base 58 and base 43: bytes read as one number and written in another base, with leading zeros kept
 one for one.
 */
module BaseCodec {
  import opened Wrappers
  import opened Positional
  import opened Alphabet

  datatype Error = UnsupportedBase | ForbiddenCharacter

  const DIGITS: string := "0123456789"
  const NONZERO: string := "123456789"
  const UPPER_A_M: string := "ABCDEFGHIJKLM"
  const UPPER_N_Z: string := "NOPQRSTUVWXYZ"
  const UPPER_58_A_M: string := "ABCDEFGHJKLM"
  const UPPER_58_N_Z: string := "NPQRSTUVWXYZ"
  const LOWER_58_A_M: string := "abcdefghijkm"
  const LOWER_58_N_Z: string := "nopqrstuvwxyz"
  const SIGNS: string := "$*+-./:"

  const B58: string := NONZERO + UPPER_58_A_M + UPPER_58_N_Z + LOWER_58_A_M + LOWER_58_N_Z
  const B43: string := DIGITS + UPPER_A_M + UPPER_N_Z + SIGNS

  // ----- numbers -----

  /** The digits of `v` without leading zeros; zero has one digit. */
  function MinDigits(v: nat, b: nat): (ds: seq<nat>)
    requires b >= 2
    ensures |ds| >= 1 && Below(ds, b)
  {
    if v < b then [v]
    else
      QuotientSmaller(v, b);
      MinDigits(v / b, b) + [v % b]
  }

  lemma QuotientSmaller(v: nat, b: nat)
    requires b >= 2 && v >= b
    ensures 0 <= v / b < v && 0 <= v % b < b
  {
    DivModSum(v, b);
    if v / b >= v {
      MulMonotone(v, v / b, b);
      MulMonotone(2, b, v);
    }
  }

  function LeadingZeros(ds: seq<nat>): (n: nat)
    ensures n <= |ds|
    ensures forall i :: 0 <= i < n ==> ds[i] == 0
    ensures n < |ds| ==> ds[n] != 0
  {
    if ds == [] || ds[0] != 0 then 0 else 1 + LeadingZeros(ds[1..])
  }

  function Zeros(n: nat): (z: seq<nat>)
    ensures |z| == n && forall i :: 0 <= i < n ==> z[i] == 0
  {
    seq(n, i => 0)
  }

  /** Digits in base `a` as digits in base `b`. */
  function Convert(ds: seq<nat>, a: nat, b: nat): (es: seq<nat>)
    requires b >= 2
    ensures Below(es, b)
  {
    Zeros(LeadingZeros(ds)) + MinDigits(Value(ds, a), b)
  }

  lemma {:induction false} MinDigitsValue(v: nat, b: nat)
    requires b >= 2
    ensures Value(MinDigits(v, b), b) == v
    ensures v > 0 ==> MinDigits(v, b)[0] != 0
  {
    if v < b {
      assert [v][..0] == [];
    } else {
      QuotientSmaller(v, b);
      MinDigitsValue(v / b, b);
      var high := MinDigits(v / b, b);
      assert (high + [v % b])[..|high|] == high;
      PartsOf(v, b);
    }
  }

  lemma PartsOf(v: nat, b: nat)
    requires v >= b >= 2
    ensures v / b > 0 && (v / b) * b + v % b == v
  {
    DivModSum(v, b);
    if v / b == 0 {
      assert false;
    }
  }

  lemma {:induction false} MinDigitsOfValue(ds: seq<nat>, b: nat)
    requires b >= 2 && Below(ds, b) && ds != [] && ds[0] != 0
    ensures Value(ds, b) > 0 && MinDigits(Value(ds, b), b) == ds
  {
    var n := |ds| - 1;
    if n == 0 {
      assert ds[..0] == [];
    } else {
      MinDigitsOfValue(ds[..n], b);
      var v := Value(ds[..n], b);
      MulMonotone(1, v, b);
      DivMultiple(v, b, ds[n]);
    }
  }

  lemma {:induction false} ZerosValue(n: nat, b: nat)
    ensures Value(Zeros(n), b) == 0
  {
    if n == 0 {
    } else {
      assert Zeros(n)[..n - 1] == Zeros(n - 1);
      ZerosValue(n - 1, b);
    }
  }

  lemma ValueAfterZeros(n: nat, ds: seq<nat>, b: nat)
    ensures Value(Zeros(n) + ds, b) == Value(ds, b)
  {
    ValueConcat(Zeros(n), ds, b);
    ZerosValue(n, b);
  }

  lemma LeadingZerosOf(n: nat, ds: seq<nat>)
    requires ds != [] && ds[0] != 0
    ensures LeadingZeros(Zeros(n) + ds) == n
  {
    var s := Zeros(n) + ds;
    assert s[n] != 0;
    assert forall i :: 0 <= i < n ==> s[i] == 0;
  }

  ghost predicate HasNonzero(ds: seq<nat>) {
    exists i :: 0 <= i < |ds| && ds[i] != 0
  }

  lemma ConvertNonzero(ds: seq<nat>, a: nat, b: nat)
    requires a >= 2 && b >= 2 && Below(ds, a) && HasNonzero(ds)
    ensures Convert(Convert(ds, a, b), b, a) == ds
  {
    var n := LeadingZeros(ds);
    var rest := ds[n..];
    assert ds == Zeros(n) + rest;
    ValueAfterZeros(n, rest, a);
    MinDigitsOfValue(rest, a);
    var v := Value(rest, a);
    var es := MinDigits(v, b);
    MinDigitsValue(v, b);
    ValueAfterZeros(n, es, b);
    LeadingZerosOf(n, es);
  }

  lemma ConvertZero(ds: seq<nat>, a: nat, b: nat)
    requires b >= 2 && !HasNonzero(ds)
    ensures Convert(ds, a, b) == Zeros(|ds| + 1)
  {
    assert LeadingZeros(ds) == |ds|;
    assert ds == Zeros(|ds|);
    ZerosValue(|ds|, a);
  }

  /** Converting back gives the same digits exactly when one of them is not zero. */
  /** The digits stand for the same number in the other base, and have the same leading zeros. */
  lemma ConvertMeans(ds: seq<nat>, a: nat, b: nat)
    requires a >= 2 && b >= 2 && Below(ds, a)
    ensures Value(Convert(ds, a, b), b) == Value(ds, a)
    ensures HasNonzero(ds) ==> LeadingZeros(Convert(ds, a, b)) == LeadingZeros(ds)
  {
    var v := Value(ds, a);
    MinDigitsValue(v, b);
    ValueAfterZeros(LeadingZeros(ds), MinDigits(v, b), b);
    if HasNonzero(ds) {
      if v == 0 {
        ZeroDigits(ds, a);
        assert false;
      }
      LeadingZerosOf(LeadingZeros(ds), MinDigits(v, b));
    }
  }

  lemma ConvertThereAndBack(ds: seq<nat>, a: nat, b: nat)
    requires a >= 2 && b >= 2 && Below(ds, a)
    ensures Convert(Convert(ds, a, b), b, a) == ds <==> HasNonzero(ds)
    ensures !HasNonzero(ds) ==> Convert(Convert(ds, a, b), b, a) == Zeros(|ds| + 2)
  {
    if HasNonzero(ds) {
      ConvertNonzero(ds, a, b);
    } else {
      ConvertZero(ds, a, b);
      ConvertZero(Zeros(|ds| + 1), b, a);
    }
  }

  // ----- text -----

  function Chars(base: nat): (cs: Option<string>) {
    if base == 58 then Some(B58) else if base == 43 then Some(B43) else None
  }

  function EncodeIn(cs: string, v: seq<Byte>): string
    requires |cs| >= 2
  {
    Spell(cs, Convert(v, 256, |cs|))
  }

  function DecodeIn(cs: string, s: string): (r: Option<seq<Byte>>)
    requires |cs| >= 2
  {
    match Lookup(cs, s)
    case None => None
    case Some(ds) => Some(Convert(ds, |cs|, 256))
  }

  function Encode(v: seq<Byte>, base: nat): (r: Result<string, Error>) {
    match Chars(base)
    case None => Failure(UnsupportedBase)
    case Some(cs) => Success(EncodeIn(cs, v))
  }

  /** `None` is for a length other than the one asked for. */
  function Decode(s: string, base: nat, length: Option<nat>): (r: Result<Option<seq<Byte>>, Error>) {
    match Chars(base)
    case None => Failure(UnsupportedBase)
    case Some(cs) => match DecodeIn(cs, s)
      case None => Failure(ForbiddenCharacter)
      case Some(bytes) => Success(if length.Some? && length.value != |bytes| then None else Some(bytes))
  }

  // ----- the alphabets -----

  /** Letters and digits first, then the other characters. */
  function Rank(c: char): int {
    c as int + if '0' <= c <= '9' || 'A' <= c <= 'Z' || 'a' <= c <= 'z' then 0 else 1000
  }

  ghost predicate Ascending(cs: string) {
    forall i :: 0 <= i < |cs| - 1 ==> Rank(cs[i]) < Rank(cs[i + 1])
  }

  lemma {:induction false} AscendingRank(cs: string, j: nat, k: nat)
    requires Ascending(cs) && j < k < |cs|
    ensures Rank(cs[j]) < Rank(cs[k])
  {
    if k == j + 1 {
    } else {
      AscendingRank(cs, j, k - 1);
    }
    assert Rank(cs[k - 1]) < Rank(cs[k - 1 + 1]);
  }

  lemma AscendingDistinct(cs: string)
    requires Ascending(cs)
    ensures Distinct(cs)
  {
    forall j, k | 0 <= j < k < |cs| ensures cs[j] != cs[k] {
      AscendingRank(cs, j, k);
    }
  }

  lemma AscendingConcat(a: string, b: string)
    requires Ascending(a) && Ascending(b) && a != [] && b != []
    requires Rank(a[|a| - 1]) < Rank(b[0])
    ensures Ascending(a + b)
  {
    var s := a + b;
    forall i | 0 <= i < |s| - 1 ensures Rank(s[i]) < Rank(s[i + 1]) {
      if i < |a| - 1 {
        assert Rank(a[i]) < Rank(a[i + 1]);
      } else if i >= |a| {
        assert Rank(b[i - |a|]) < Rank(b[i - |a| + 1]);
      }
    }
  }

  lemma DigitsAscends() ensures Ascending(DIGITS) {}

  lemma NonzeroAscends() ensures Ascending(NONZERO) {}

  lemma UpperAMAscends() ensures Ascending(UPPER_A_M) {}

  lemma UpperNZAscends() ensures Ascending(UPPER_N_Z) {}

  lemma Upper58AMAscends() ensures Ascending(UPPER_58_A_M) {}

  lemma Upper58NZAscends() ensures Ascending(UPPER_58_N_Z) {}

  lemma Lower58AMAscends() ensures Ascending(LOWER_58_A_M) {}

  lemma Lower58NZAscends() ensures Ascending(LOWER_58_N_Z) {}

  lemma SignsAscends() ensures Ascending(SIGNS) {}

  lemma B58Distinct()
    ensures |B58| == 58 && Distinct(B58)
  {
    NonzeroAscends();
    Upper58AMAscends();
    Upper58NZAscends();
    Lower58AMAscends();
    Lower58NZAscends();
    AscendingConcat(NONZERO, UPPER_58_A_M);
    AscendingConcat(NONZERO + UPPER_58_A_M, UPPER_58_N_Z);
    AscendingConcat(NONZERO + UPPER_58_A_M + UPPER_58_N_Z, LOWER_58_A_M);
    AscendingConcat(NONZERO + UPPER_58_A_M + UPPER_58_N_Z + LOWER_58_A_M, LOWER_58_N_Z);
    AscendingDistinct(B58);
  }

  lemma B43Distinct()
    ensures |B43| == 43 && Distinct(B43)
  {
    DigitsAscends();
    UpperAMAscends();
    UpperNZAscends();
    SignsAscends();
    AscendingConcat(DIGITS, UPPER_A_M);
    AscendingConcat(DIGITS + UPPER_A_M, UPPER_N_Z);
    AscendingConcat(DIGITS + UPPER_A_M + UPPER_N_Z, SIGNS);
    AscendingDistinct(B43);
  }

  lemma CharsDistinct(base: nat)
    requires Chars(base).Some?
    ensures |Chars(base).value| == base && Distinct(Chars(base).value)
  {
    if base == 58 {
      B58Distinct();
    } else {
      B43Distinct();
    }
  }

  // ----- there and back -----

  lemma BytesIn(cs: string, v: seq<Byte>)
    requires |cs| >= 2 && Distinct(cs)
    ensures DecodeIn(cs, EncodeIn(cs, v)) == Some(v) <==> HasNonzero(v)
    ensures !HasNonzero(v) ==> DecodeIn(cs, EncodeIn(cs, v)) == Some(Zeros(|v| + 2))
    ensures DecodeIn(cs, EncodeIn(cs, v)).Some?
  {
    LookupSpell(cs, Convert(v, 256, |cs|));
    ConvertThereAndBack(v, 256, |cs|);
  }

  /** Some character is not `c`. */
  ghost predicate HasOther(s: string, c: char) {
    exists i :: 0 <= i < |s| && s[i] != c
  }

  lemma TextIn(cs: string, s: string)
    requires |cs| >= 2 && Distinct(cs) && DecodeIn(cs, s).Some?
    ensures EncodeIn(cs, DecodeIn(cs, s).value) == s <==> HasOther(s, cs[0])
  {
    var ds := Lookup(cs, s).value;
    SpellLookup(cs, s);
    ConvertThereAndBack(ds, |cs|, 256);
    SpellInjective(cs, Convert(Convert(ds, |cs|, 256), 256, |cs|), ds);
    SpelledZeros(cs, ds);
  }

  lemma SpellInjective(cs: string, ds: seq<nat>, es: seq<nat>)
    requires Below(ds, |cs|) && Below(es, |cs|) && Distinct(cs)
    ensures Spell(cs, ds) == Spell(cs, es) <==> ds == es
  {
    LookupSpell(cs, ds);
    LookupSpell(cs, es);
  }

  lemma SpelledZeros(cs: string, ds: seq<nat>)
    requires |cs| > 0 && Below(ds, |cs|) && Distinct(cs)
    ensures HasNonzero(ds) <==> HasOther(Spell(cs, ds), cs[0])
  {
    if HasNonzero(ds) {
      var i :| 0 <= i < |ds| && ds[i] != 0;
      SpellAt(cs, ds, i);
    }
    if HasOther(Spell(cs, ds), cs[0]) {
      var i :| 0 <= i < |ds| && Spell(cs, ds)[i] != cs[0];
      SpellAt(cs, ds, i);
    }
  }

  /** Bytes come back exactly when one of them is not zero; otherwise two more zeros come back. */
  lemma BytesThereAndBack(v: seq<Byte>, base: nat)
    requires Encode(v, base).Success?
    ensures Decode(Encode(v, base).value, base, None) == Success(Some(v)) <==> HasNonzero(v)
    ensures !HasNonzero(v) ==> Decode(Encode(v, base).value, base, None) == Success(Some(Zeros(|v| + 2)))
  {
    CharsDistinct(base);
    BytesIn(Chars(base).value, v);
  }

  /** A text comes back exactly when one of its characters is not the alphabet's first. */
  lemma TextThereAndBack(s: string, base: nat)
    requires Decode(s, base, None).Success?
    ensures var bytes := Decode(s, base, None).value;
      bytes.Some? && (Encode(bytes.value, base) == Success(s) <==> HasOther(s, Chars(base).value[0]))
  {
    CharsDistinct(base);
    TextIn(Chars(base).value, s);
  }

  // ----- the loops of the source -----

  function Reversed<T>(s: seq<T>): (r: seq<T>)
    ensures |r| == |s|
  {
    if s == [] then [] else Reversed(s[1..]) + [s[0]]
  }

  lemma {:induction false} ReversedAppend<T>(s: seq<T>, t: seq<T>)
    ensures Reversed(s + t) == Reversed(t) + Reversed(s)
  {
    if s == [] {
      assert s + t == t;
    } else {
      assert (s + t)[1..] == s[1..] + t;
      ReversedAppend(s[1..], t);
    }
  }

  /** From the last digit to the first, with a growing power of the base. */
  method SumPowers(ds: seq<nat>, b: nat) returns (total: nat)
    ensures total == Value(ds, b)
  {
    total := 0;
    var power := 1;
    var k := |ds|;
    while k > 0
      invariant 0 <= k <= |ds|
      invariant power == Pow(b, |ds| - k)
      invariant total == Value(ds[k..], b)
    {
      k := k - 1;
      ValueOfFront(ds[k..], b);
      assert ds[k..][1..] == ds[k + 1..];
      total := total + power * ds[k];
      power := power * b;
    }
    assert ds[0..] == ds;
  }

  lemma ValueOfFront(ds: seq<nat>, b: nat)
    requires ds != []
    ensures Value(ds, b) == Value(ds[1..], b) + Pow(b, |ds| - 1) * ds[0]
  {
    assert ds == [ds[0]] + ds[1..];
    ValueConcat([ds[0]], ds[1..], b);
    assert [ds[0]][..0] == [];
    assert Value([ds[0]], b) == ds[0];
  }

  /** Repeated division: the digits from the last to the first. */
  method Divide(n: nat, b: nat) returns (result: seq<nat>)
    requires b >= 2
    ensures Reversed(result) == MinDigits(n, b)
  {
    result := [];
    var value: nat := n;
    while value >= b
      invariant MinDigits(n, b) == MinDigits(value, b) + Reversed(result)
    {
      QuotientSmaller(value, b);
      var div: nat, mod: nat := value / b, value % b;
      ReversedSnoc(result, mod);
      assert MinDigits(value, b) == MinDigits(div, b) + [mod];
      result := result + [mod];
      value := div;
    }
    ReversedSnoc(result, value);
    result := result + [value];
  }

  lemma ReversedSnoc<T>(s: seq<T>, x: T)
    ensures Reversed(s + [x]) == [x] + Reversed(s)
  {
    ReversedAppend(s, [x]);
    assert Reversed([x]) == [x];
  }

  /** Counting up to the first digit that is not zero. */
  method CountPad(ds: seq<nat>) returns (pad: nat)
    ensures pad == LeadingZeros(ds)
  {
    pad := 0;
    while pad < |ds| && ds[pad] == 0
      invariant pad <= |ds| && forall i :: 0 <= i < pad ==> ds[i] == 0
    {
      pad := pad + 1;
    }
  }

  /** Value, division, padding, and one reversal at the end. */
  method ConvertDigits(ds: seq<nat>, a: nat, b: nat) returns (result: seq<nat>)
    requires b >= 2
    ensures result == Convert(ds, a, b)
  {
    var n := SumPowers(ds, a);
    result := Divide(n, b);
    var pad := CountPad(ds);
    ReversedAppend(result, Zeros(pad));
    ReversedZeros(pad);
    result := Reversed(result + Zeros(pad));
  }

  lemma {:induction false} ReversedZeros(n: nat)
    ensures Reversed(Zeros(n)) == Zeros(n)
  {
    if n == 0 {
    } else {
      assert Zeros(n)[1..] == Zeros(n - 1);
      ReversedZeros(n - 1);
      assert Zeros(n) == Zeros(n - 1) + [0];
    }
  }

  method BaseEncode(v: seq<Byte>, base: nat) returns (r: Result<string, Error>)
    ensures r == Encode(v, base)
  {
    match Chars(base) {
      case None => r := Failure(UnsupportedBase);
      case Some(cs) =>
        CharsDistinct(base);
        var ds := ConvertDigits(v, 256, base);
        r := Success(Spell(cs, ds));
    }
  }

  method BaseDecode(s: string, base: nat, length: Option<nat>) returns (r: Result<Option<seq<Byte>>, Error>)
    ensures r == Decode(s, base, length)
  {
    match Chars(base) {
      case None => r := Failure(UnsupportedBase);
      case Some(cs) =>
        CharsDistinct(base);
        match Lookup(cs, s) {
          case None => r := Failure(ForbiddenCharacter);
          case Some(ds) =>
            var bytes := ConvertDigits(ds, base, 256);
            r := Success(if length.Some? && length.value != |bytes| then None else Some(bytes));
        }
    }
  }

  // ----- what is refused -----

  /** Decoding fails exactly for other bases than 58 and 43, and for characters outside of the alphabet; a length that was
      asked for and is not met gives nothing. */
  lemma DecodesExactly(s: string, base: nat, length: Option<nat>)
    ensures Decode(s, base, length) == Failure(UnsupportedBase) <==> base != 58 && base != 43
    ensures Chars(base).Some? ==>
              (Decode(s, base, length) == Failure(ForbiddenCharacter) <==> exists i :: 0 <= i < |s| && s[i] !in Chars(base).value)
    ensures Decode(s, base, None).Success? && Decode(s, base, None).value.Some? && length.Some? ==>
              Decode(s, base, length) == Success(if |Decode(s, base, None).value.value| == length.value
                                                 then Decode(s, base, None).value else None)
  {
    if Chars(base).Some? {
      LookupSome(Chars(base).value, s);
    }
  }

  /** Two zero bytes and the number 58: leading zeros are kept one for one, and the last digit comes last. */
  lemma Example()
    ensures Encode([0, 0, 58], 58) == Success("1121")
  {
    var v: seq<Byte>, ds: seq<nat> := [0, 0, 58], [0, 0, 1, 0];
    ExampleDigits(v, ds);
    ExampleSpelled(ds);
  }

  lemma ExampleDigits(v: seq<Byte>, ds: seq<nat>)
    requires v == [0, 0, 58] && ds == [0, 0, 1, 0]
    ensures Convert(v, 256, 58) == ds
  {
    assert v[1..][1..] == [58] && LeadingZeros([58]) == 0 && LeadingZeros(v[1..]) == 1;
    assert v[..2][..1] == v[..1] && v[..1][..0] == [];
    assert Value(v[..1], 256) == 0 && Value(v[..2], 256) == 0 && Value(v, 256) == 58;
    assert MinDigits(58, 58) == [1, 0];
  }

  lemma ExampleSpelled(ds: seq<nat>)
    requires ds == [0, 0, 1, 0]
    ensures |B58| == 58 && Spell(B58, ds) == "1121"
  {
    B58Distinct();
    assert B58[0] == '1' && B58[1] == '2';
    forall i | 0 <= i < 4 ensures Spell(B58, ds)[i] == "1121"[i] {
      SpellAt(B58, ds, i);
    }
  }
}
