/**
 The Hedera checksum: five letters computed from the characters of an account number.

 The source divides floating-point numbers in its last loop. All of them are below 26^5 and each
 division is by 26, so the model computes in exact reals.
 */
module Hedera {
  import opened Wrappers
  import opened Positional

  datatype Error = BadDigit

  /** 26^5. */
  const P5 := 11881376

  type Digit = x: nat | x <= 10

  // ----- what is computed -----

  /** What a character counts for: a dot counts ten. */
  function DigitOf(c: char): (d: Option<Digit>) {
    if c == '.' then Some(10)
    else if '0' <= c <= '9' then Some(c as int - '0' as int)
    else None
  }

  function DigitsOf(address: string): (r: Result<seq<Digit>, Error>)
    ensures r.Success? ==> |r.value| == |address|
    ensures r.Success? ==> forall i :: 0 <= i < |address| ==> DigitOf(address[i]) == Some(r.value[i])
  {
    if address == "" then Success([])
    else
      var n := |address| - 1;
      match (DigitsOf(address[..n]), DigitOf(address[n]))
      case (Success(ds), Some(d)) => Success(ds + [d])
      case _ => Failure(BadDigit)
  }

  /** The sum of the digits at positions of one parity. */
  function PlainSum(d: seq<Digit>, parity: nat): nat {
    if d == [] then 0
    else PlainSum(d[..|d| - 1], parity) + (if (|d| - 1) % 2 == parity then d[|d| - 1] else 0)
  }

  /** The weighted sum of all digits, modulo 26^3. */
  function Horner(d: seq<Digit>): nat {
    if d == [] then 0 else (31 * Horner(d[..|d| - 1]) + d[|d| - 1]) % 17576
  }

  /** Everything the checksum depends on. */
  datatype Summary = Summary(size: nat, even: nat, odd: nat, horner: nat)

  function Summarize(d: seq<Digit>): Summary {
    Summary(|d| % 5, PlainSum(d, 0) % 11, PlainSum(d, 1) % 11, Horner(d))
  }

  function Pack(s: Summary): nat {
    ((s.size * 11 + s.even) * 11 + s.odd) * 17576 + s.horner
  }

  function Mix(x: nat): (y: nat)
    ensures y < P5
  {
    x * 1000003 % 11881376
  }

  function Letters(ds: seq<nat>): (s: string)
    requires Below(ds, 26)
    ensures |s| == |ds|
  {
    seq(|ds|, i requires 0 <= i < |ds| => ds[i] as char + 'a')
  }

  function Checksum(d: seq<Digit>): string {
    Letters(Digits(Mix(Pack(Summarize(d))), 5, 26))
  }

  // ----- what the parts mean -----

  /** The digits in the order in which they count, and the dot after them. */
  lemma DigitOfIs(c: char, d: nat)
    requires d <= 10
    ensures DigitOf(c) == Some(d) <==> c == "0123456789."[d]
  {
  }

  /** The weighted sum is the number that the digits stand for in base 31, modulo 26^3. */
  lemma {:induction false} HornerValue(d: seq<Digit>)
    ensures Horner(d) == Value(d, 31) % 17576
  {
    if d == [] {
    } else {
      var n := |d| - 1;
      HornerValue(d[..n]);
      ModLinear(Value(d[..n], 31), 31, d[n], 17576);
    }
  }

  // ----- the checksum determines the summary -----

  lemma SummaryBounds(d: seq<Digit>)
    ensures var s := Summarize(d); s.size < 5 && s.even < 11 && s.odd < 11 && s.horner < 17576
  {
  }

  lemma PackBelow(s: Summary)
    requires s.size < 5 && s.even < 11 && s.odd < 11 && s.horner < 17576
    ensures Pack(s) < P5
  {
  }

  lemma PackInjective(s: Summary, t: Summary)
    requires s.size < 5 && s.even < 11 && s.odd < 11 && s.horner < 17576
    requires t.size < 5 && t.even < 11 && t.odd < 11 && t.horner < 17576
    ensures Pack(s) == Pack(t) ==> s == t
  {
    if Pack(s) == Pack(t) {
      Places((s.size * 11 + s.even) * 11 + s.odd, s.horner, (t.size * 11 + t.even) * 11 + t.odd, t.horner, 17576);
      Places(s.size * 11 + s.even, s.odd, t.size * 11 + t.even, t.odd, 11);
      Places(s.size, s.even, t.size, t.even, 11);
    }
  }

  lemma Places(a: nat, b: nat, c: nat, d: nat, m: nat)
    requires b < m && d < m && a * m + b == c * m + d
    ensures a == c && b == d
  {
    DivModUnique(a * m + b, m, a, b);
    DivModUnique(a * m + b, m, c, d);
  }

  /** The multiplier has an inverse modulo 26^5: 1000003 * 8610443 == 724703 * 26^5 + 1. */
  lemma MixInjective(x: nat, y: nat)
    requires x < P5 && y < P5 && Mix(x) == Mix(y)
    ensures x == y
  {
    var q := x * 1000003 / 11881376 - y * 1000003 / 11881376;
    var k := q * 8610443 - (x - y) * 724703;
    assert x - y == k * 11881376;
  }

  lemma LettersInjective(ds: seq<nat>, es: seq<nat>)
    requires Below(ds, 26) && Below(es, 26) && Letters(ds) == Letters(es)
    ensures ds == es
  {
    forall i | 0 <= i < |ds| ensures ds[i] == es[i] {
      assert Letters(ds)[i] == Letters(es)[i];
    }
  }

  lemma FiveDigitsInjective(x: nat, y: nat)
    requires x < P5 && y < P5 && Digits(x, 5, 26) == Digits(y, 5, 26)
    ensures x == y
  {
    assert Pow(26, 5) == P5;
    ValueOfDigits(x, 5, 26);
    ValueOfDigits(y, 5, 26);
  }

  /** Two account numbers have the same checksum exactly when they agree in length modulo 5, in both
      digit sums modulo 11 and in the weighted sum. */
  lemma ChecksumDetermines(d: seq<Digit>, e: seq<Digit>)
    ensures Checksum(d) == Checksum(e) <==> Summarize(d) == Summarize(e)
  {
    if Checksum(d) == Checksum(e) {
      var x, y := Pack(Summarize(d)), Pack(Summarize(e));
      SummaryBounds(d);
      SummaryBounds(e);
      PackBelow(Summarize(d));
      PackBelow(Summarize(e));
      PackInjective(Summarize(d), Summarize(e));
      LettersInjective(Digits(Mix(x), 5, 26), Digits(Mix(y), 5, 26));
      FiveDigitsInjective(Mix(x), Mix(y));
      MixInjective(x, y);
    }
  }

  // ----- errors -----

  lemma {:induction false} PlainSumUpdate(d: seq<Digit>, i: nat, v: Digit, parity: nat)
    requires i < |d|
    ensures PlainSum(d[i := v], parity) == PlainSum(d, parity) + (if i % 2 == parity then v - d[i] else 0)
  {
    var n := |d| - 1;
    if i < n {
      assert d[i := v][..n] == d[..n][i := v];
      PlainSumUpdate(d[..n], i, v, parity);
    } else {
      assert d[i := v][..n] == d[..n];
    }
  }

  lemma Mod11Differs(s: nat, v: Digit, w: Digit)
    requires v != w && s + w - v >= 0
    ensures (s + w - v) % 11 != s % 11
  {
  }

  /** A change of one character is detected, at any length. */
  lemma SubstitutionDetected(d: seq<Digit>, i: nat, v: Digit)
    requires i < |d| && v != d[i]
    ensures Checksum(d[i := v]) != Checksum(d)
  {
    SumsDiffer(d, i, v, i % 2);
    DifferentSums(d[i := v], d, i % 2);
  }

  /** An exchange of two different neighbours is detected, at any length. */
  lemma TranspositionDetected(d: seq<Digit>, i: nat)
    requires i + 1 < |d| && d[i] != d[i + 1]
    ensures Checksum(d[i := d[i + 1]][i + 1 := d[i]]) != Checksum(d)
  {
    var one := d[i := d[i + 1]];
    var two := one[i + 1 := d[i]];
    SumsDiffer(d, i, d[i + 1], i % 2);
    NextKeeps(one, i, d[i]);
    DifferentSums(two, d, i % 2);
  }

  lemma SumsDiffer(d: seq<Digit>, i: nat, v: Digit, parity: nat)
    requires i < |d| && v != d[i] && parity == i % 2
    ensures PlainSum(d[i := v], parity) % 11 != PlainSum(d, parity) % 11
  {
    PlainSumUpdate(d, i, v, parity);
    Mod11Differs(PlainSum(d, parity), d[i], v);
  }

  lemma NextKeeps(d: seq<Digit>, i: nat, v: Digit)
    requires i + 1 < |d|
    ensures PlainSum(d[i + 1 := v], i % 2) == PlainSum(d, i % 2)
  {
    PlainSumUpdate(d, i + 1, v, i % 2);
  }

  lemma SameSums(d: seq<Digit>, e: seq<Digit>, parity: nat)
    requires parity < 2 && Summarize(d) == Summarize(e)
    ensures PlainSum(d, parity) % 11 == PlainSum(e, parity) % 11
  {
  }

  lemma DifferentSums(d: seq<Digit>, e: seq<Digit>, parity: nat)
    requires parity < 2 && PlainSum(d, parity) % 11 != PlainSum(e, parity) % 11
    ensures Checksum(d) != Checksum(e)
  {
    ChecksumDetermines(d, e);
    if Summarize(d) == Summarize(e) {
      SameSums(d, e, parity);
    }
  }

  lemma Mod5Differs(m: nat, n: nat)
    requires m < n < m + 5
    ensures m % 5 != n % 5
  {
    DivModSum(m, 5);
    DivModSum(n, 5);
  }

  /** Losing or gaining one to four characters is detected, whatever else changes. */
  lemma LengthErrorDetected(d: seq<Digit>, e: seq<Digit>)
    requires |d| < |e| < |d| + 5
    ensures Checksum(d) != Checksum(e)
  {
    Mod5Differs(|d|, |e|);
    ChecksumDetermines(d, e);
  }

  // ----- on text -----

  function ChecksumOf(address: string): (r: Result<string, Error>) {
    match DigitsOf(address)
    case Failure(e) => Failure(e)
    case Success(d) => Success(Checksum(d))
  }

  lemma DigitOfInjective(b: char, c: char)
    requires DigitOf(b).Some? && DigitOf(b) == DigitOf(c)
    ensures b == c
  {
  }

  lemma TypoDetected(address: string, i: nat, c: char)
    requires i < |address| && c != address[i]
    requires ChecksumOf(address).Success? && ChecksumOf(address[i := c]).Success?
    ensures ChecksumOf(address[i := c]) != ChecksumOf(address)
  {
    var d, e := DigitsOf(address).value, DigitsOf(address[i := c]).value;
    TypoDigits(address, i, c, d, e);
    SubstitutionDetected(d, i, e[i]);
  }

  /** `d` are the digits that the characters of `address` stand for. */
  ghost predicate Stands(address: string, d: seq<Digit>) {
    |d| == |address| && forall j :: 0 <= j < |d| ==> DigitOf(address[j]) == Some(d[j])
  }

  lemma TypoDigits(address: string, i: nat, c: char, d: seq<Digit>, e: seq<Digit>)
    requires i < |address| && c != address[i] && Stands(address, d) && Stands(address[i := c], e)
    ensures e == d[i := e[i]] && e[i] != d[i]
  {
    forall j | 0 <= j < |d| ensures e[j] == d[i := e[i]][j] {
      assert DigitOf(address[j]) == Some(d[j]) && DigitOf(address[i := c][j]) == Some(e[j]);
    }
    if e[i] == d[i] {
      DigitOfInjective(c, address[i]);
    }
  }

  lemma SwapDigits(address: string, swapped: string, i: nat, d: seq<Digit>, e: seq<Digit>)
    requires i + 1 < |address| && address[i] != address[i + 1] && Stands(address, d) && Stands(swapped, e)
    requires swapped == address[i := address[i + 1]][i + 1 := address[i]]
    ensures e == d[i := d[i + 1]][i + 1 := d[i]] && d[i] != d[i + 1]
  {
    forall j | 0 <= j < |d| ensures e[j] == d[i := d[i + 1]][i + 1 := d[i]][j] {
      assert DigitOf(address[j]) == Some(d[j]) && DigitOf(swapped[j]) == Some(e[j]);
    }
    if d[i] == d[i + 1] {
      DigitOfInjective(address[i], address[i + 1]);
    }
  }

  lemma SwapDetected(address: string, i: nat)
    requires i + 1 < |address| && address[i] != address[i + 1]
    requires ChecksumOf(address).Success?
    ensures ChecksumOf(address[i := address[i + 1]][i + 1 := address[i]]) != ChecksumOf(address)
  {
    var swapped := address[i := address[i + 1]][i + 1 := address[i]];
    var d := DigitsOf(address).value;
    if ChecksumOf(swapped).Success? {
      var e := DigitsOf(swapped).value;
      SwapDigits(address, swapped, i, d, e);
      TranspositionDetected(d, i);
    }
  }

  // ----- the loops of the source -----

  /** `x % 26` on reals. */
  function RealMod26(x: real): real {
    x - 26.0 * (x / 26.0).Floor as real
  }

  lemma FloorDivides(x: real)
    requires x >= 0.0
    ensures x.Floor >= 0 && (x / 26.0).Floor == x.Floor / 26
    ensures RealMod26(x).Floor == x.Floor % 26
  {
    var n := x.Floor;
    var q, r := n / 26, n % 26;
    assert n == 26 * q + r;
    assert q as real <= x / 26.0 < (q + 1) as real;
  }

  /** The last loop, on a number that shrinks by a factor of 26. */
  method SpellOut(cp: nat) returns (ans: string)
    ensures ans == Letters(Digits(cp, 5, 26))
  {
    ans := "";
    var x := cp as real;
    for k := 0 to 5
      invariant x >= 0.0 && Pow(26, k) > 0 && x.Floor == cp / Pow(26, k)
      invariant ans == Letters(Digits(cp, k, 26))
    {
      FloorDivides(x);
      DigitsPrepend(cp, k, 26);
      DivDiv(cp, Pow(26, k), 26);
      PowPositive(26, k + 1);
      var letter := RealMod26(x).Floor as char + 'a';
      assert Letters(Digits(cp, k + 1, 26)) == [letter] + ans;
      ans := [letter] + ans;
      x := x / 26.0;
    }
  }

  /** The loop over the characters. */
  method ReadDigits(address: string) returns (r: Result<seq<Digit>, Error>)
    ensures r == DigitsOf(address)
  {
    var d: seq<Digit> := [];
    for i := 0 to |address|
      invariant DigitsOf(address[..i]) == Success(d)
    {
      assert address[..i + 1][..i] == address[..i];
      match DigitOf(address[i]) {
        case None =>
          FailsEarly(address, i + 1);
          return Failure(BadDigit);
        case Some(v) =>
          d := d + [v];
      }
    }
    assert address[..|address|] == address;
    return Success(d);
  }

  /** The loop over the digits. */
  method SumDigits(d: seq<Digit>) returns (sd: nat, sd0: nat, sd1: nat)
    ensures Summarize(d) == Summary(|d| % 5, sd0, sd1, sd)
  {
    sd, sd0, sd1 := 0, 0, 0;
    for i := 0 to |d|
      invariant sd == Horner(d[..i])
      invariant sd0 == PlainSum(d[..i], 0) % 11 && sd1 == PlainSum(d[..i], 1) % 11
    {
      assert d[..i + 1][..i] == d[..i];
      ModLinear(PlainSum(d[..i], i % 2), 1, d[i], 11);
      sd := (31 * sd + d[i]) % 17576;
      if i % 2 == 0 {
        sd0 := (sd0 + d[i]) % 11;
      } else {
        sd1 := (sd1 + d[i]) % 11;
      }
    }
    assert d[..|d|] == d;
  }

  method ComputeChecksum(address: string) returns (r: Result<string, Error>)
    ensures r == ChecksumOf(address)
  {
    // The ledger id and its padding are seven zero bytes.
    var h: seq<nat> := [0, 0, 0, 0, 0, 0, 0];
    var d :- ReadDigits(address);
    var sd, sd0, sd1 := SumDigits(d);
    var sh := 0;
    for i := 0 to |h|
      invariant sh == 0
    {
      sh := (31 * sh + h[i]) % 11881376;
    }
    SummaryBounds(d);
    var s := Summary(|d| % 5, sd0, sd1, sd);
    var c := ((((|address| % 5) * 11 + sd0) * 11 + sd1) * 17576 + sd + sh) % 11881376;
    PackedRight(s, |address|, sh, c);
    var ans := SpellOut(Mix(c));
    r := Success(ans);
  }

  lemma PackedRight(s: Summary, size: nat, sh: nat, c: nat)
    requires s.size == size % 5 && s.even < 11 && s.odd < 11 && s.horner < 17576 && sh == 0
    requires c == ((((size % 5) * 11 + s.even) * 11 + s.odd) * 17576 + s.horner + sh) % 11881376
    ensures c == Pack(s)
  {
    PackBelow(s);
  }

  lemma {:induction false} FailsEarly(address: string, i: nat)
    requires i <= |address| && DigitsOf(address[..i]).Failure?
    ensures DigitsOf(address).Failure?
    decreases |address| - i
  {
    if i == |address| {
      assert address[..i] == address;
    } else {
      assert address[..i + 1][..i] == address[..i];
      FailsEarly(address, i + 1);
    }
  }

  // ----- the example of HIP-15 -----

  lemma {:induction false} AllDigits(address: string)
    requires forall i :: 0 <= i < |address| ==> DigitOf(address[i]).Some?
    ensures DigitsOf(address).Success?
  {
    if address == "" {
    } else {
      AllDigits(address[..|address| - 1]);
    }
  }

  lemma ExampleDigits(d: seq<Digit>)
    requires d == [0, 10, 0, 10, 1, 2, 3]
    ensures DigitsOf("0.0.123") == Success(d)
  {
    var s := "0.0.123";
    assert forall i :: 0 <= i < 7 ==> DigitOf(s[i]) == Some(d[i]);
    AllDigits(s);
    var e := DigitsOf(s).value;
    assert forall i :: 0 <= i < 7 ==> DigitOf(s[i]) == Some(e[i]);
    assert e == d;
  }

  lemma ExampleValue(d: seq<Digit>)
    requires d == [0, 10, 0, 10, 1, 2, 3]
    ensures Value(d, 31) == 286590446
  {
    assert d[..6][..5] == d[..5] && d[..5][..4] == d[..4] && d[..4][..3] == d[..3] && d[..3][..2] == d[..2] && d[..2][..1] == d[..1];
    assert Value(d[..1], 31) == 0;
    assert Value(d[..2], 31) == 10;
    assert Value(d[..3], 31) == 310;
    assert Value(d[..4], 31) == 9620;
    assert Value(d[..5], 31) == 298221;
    assert Value(d[..6], 31) == 9244853;
  }

  lemma ExampleSums(d: seq<Digit>, p: nat)
    requires d == [0, 10, 0, 10, 1, 2, 3] && p < 2
    ensures PlainSum(d, p) == if p == 0 then 4 else 22
  {
    assert d[..6][..5] == d[..5] && d[..5][..4] == d[..4] && d[..4][..3] == d[..3] && d[..3][..2] == d[..2] && d[..2][..1] == d[..1];
    assert PlainSum(d[..1], p) == 0;
    assert PlainSum(d[..2], p) == 10 * p;
    assert PlainSum(d[..3], p) == 10 * p;
    assert PlainSum(d[..4], p) == 20 * p;
    assert PlainSum(d[..5], p) == 20 * p + 1 - p;
    assert PlainSum(d[..6], p) == 20 * p + 1 - p + 2 * p;
  }

  lemma ExampleLetters(x: nat)
    requires x == 9692770
    ensures Letters(Digits(x, 5, 26)) == "vfmkw"
  {
    assert Digits(21, 1, 26) == [21] by {
      assert Digits(0, 0, 26) == [];
    }
    assert Digits(551, 2, 26) == [21, 5];
    assert Digits(14338, 3, 26) == [21, 5, 12];
    assert Digits(372798, 4, 26) == [21, 5, 12, 10];
    assert Digits(x, 5, 26) == [21, 5, 12, 10, 22];
  }

  /** The account number and checksum that HIP-15 shows. */
  lemma Example()
    ensures ChecksumOf("0.0.123") == Success("vfmkw")
  {
    var d: seq<Digit> := [0, 10, 0, 10, 1, 2, 3];
    ExampleDigits(d);
    ExampleSummary(d);
    ExampleMix(Summarize(d));
    ExampleLetters(9692770);
  }

  lemma ExampleSummary(d: seq<Digit>)
    requires d == [0, 10, 0, 10, 1, 2, 3]
    ensures Summarize(d) == Summary(2, 4, 0, 13766)
  {
    ExampleValue(d);
    HornerValue(d);
    ExampleSums(d, 0);
    ExampleSums(d, 1);
  }

  lemma ExampleMix(s: Summary)
    requires s == Summary(2, 4, 0, 13766)
    ensures Mix(Pack(s)) == 9692770
  {
    assert Pack(s) == 5040502;
  }
}
