/**
 Amounts in the human-readable part of a Lightning invoice: decimal digits and a multiplier letter.
 An amount is an exact number of bitcoin.
 */
module LnAmount {
  import opened Wrappers
  import opened Positional
  import opened Alphabet
  import BaseCodec

  datatype Error = InvalidAmount | EmptyText


  function InPico(amount: real): real {
    amount * 1000000000000.0
  }

  function FromPico(pico: int): real {
    pico as real / 1000000000000.0
  }

  // ----- decimal numbers -----

  /** Python's `int(x)`. */
  function Truncate(x: real): int {
    if x >= 0.0 then x.Floor else -((-x).Floor)
  }

  /** It rounds towards zero. */
  lemma TruncateIs(x: real)
    ensures x >= 0.0 ==> Truncate(x) as real <= x < Truncate(x) as real + 1.0
    ensures x <= 0.0 ==> Truncate(x) as real - 1.0 < x <= Truncate(x) as real
  {
  }

  function DecimalText(n: int): (s: string)
    ensures s != ""
  {
    if n >= 0 then Spell(BaseCodec.DIGITS, BaseCodec.MinDigits(n, 10)) else "-" + Spell(BaseCodec.DIGITS, BaseCodec.MinDigits(-n, 10))
  }

  // ----- writing -----

  /** The multiplier letters: `UnitText(j)` counts thousands of thousands, `j` times, of a picobitcoin. */
  function UnitText(j: nat): (s: string)
    requires j <= 4
    ensures |s| == if j < 4 then 1 else 0
  {
    if j < 4 then ["pnum"[j]] else ""
  }

  /** Divide by a thousand as often as it goes, at most until there is no smaller unit. */
  function Scale(amount: int, j: nat): (r: (int, nat))
    requires j <= 4
    ensures j <= r.1 <= 4
    decreases 4 - j
  {
    if j < 4 && amount % 1000 == 0 then Scale(amount / 1000, j + 1) else (amount, j)
  }

  function Written(pico: int): string {
    var (n, j) := Scale(pico, 0);
    DecimalText(n) + UnitText(j)
  }

  function Shorten(amount: real): string {
    Written(Truncate(InPico(amount)))
  }

  method ShortenAmount(amount: real) returns (s: string)
    ensures s == Shorten(amount)
  {
    var n := Truncate(InPico(amount));
    var units := "pnum";
    var i := 0;
    while i < 4 && n % 1000 == 0
      invariant 0 <= i <= 4 && Scale(n, i) == Scale(Truncate(InPico(amount)), 0)
    {
      n := n / 1000;
      i := i + 1;
    }
    s := DecimalText(n) + if i < 4 then [units[i]] else "";
  }

  // ----- reading -----

  function UnitOf(c: char): (j: Option<nat>)
    ensures j.Some? ==> j.value < 4 && "pnum"[j.value] == c
  {
    if c == 'p' then Some(0) else if c == 'n' then Some(1) else if c == 'u' then Some(2) else if c == 'm' then Some(3)
    else None
  }

  /** How many bitcoin one unit is. */
  function UnitValue(j: nat): real
    requires j <= 4
  {
    if j == 0 then 1.0 / 1000000000000.0
    else if j == 1 then 1.0 / 1000000000.0
    else if j == 2 then 1.0 / 1000000.0
    else if j == 3 then 1.0 / 1000.0
    else 1.0
  }

  function Worth(n: nat, j: nat): real
    requires j <= 4
  {
    n as real * UnitValue(j)
  }

  function ReadDigits(s: string, j: nat): (r: Result<real, Error>)
    requires j <= 4
  {
    match Lookup(BaseCodec.DIGITS, s)
    case None => Failure(InvalidAmount)
    case Some(ds) => if ds == [] then Failure(InvalidAmount) else Success(Worth(Value(ds, 10), j))
  }

  function Unshorten(s: string): (r: Result<real, Error>) {
    if s == "" then Failure(EmptyText)
    else match UnitOf(s[|s| - 1])
      case None => ReadDigits(s, 4)
      case Some(j) => ReadDigits(s[..|s| - 1], j)
  }

  /** The multiplier letters of BOLT #11: milli, micro, nano and pico. */
  lemma LetterMeans(d: string, n: nat)
    requires d == DecimalText(n)
    ensures Unshorten(d) == Success(n as real)
    ensures Unshorten(d + "m") == Success(n as real / 1000.0)
    ensures Unshorten(d + "u") == Success(n as real / 1000000.0)
    ensures Unshorten(d + "n") == Success(n as real / 1000000000.0)
    ensures Unshorten(d + "p") == Success(n as real / 1000000000000.0)
  {
    UnitLetters();
    assert d + "" == d;
    LetterReads(d, n, 4, n as real);
    LetterReads(d, n, 3, n as real / 1000.0);
    LetterReads(d, n, 2, n as real / 1000000.0);
    LetterReads(d, n, 1, n as real / 1000000000.0);
    LetterReads(d, n, 0, n as real / 1000000000000.0);
  }

  lemma UnitLetters()
    ensures UnitText(0) == "p" && UnitText(1) == "n" && UnitText(2) == "u" && UnitText(3) == "m" && UnitText(4) == ""
  {
  }

  lemma LetterReads(d: string, n: nat, j: nat, x: real)
    requires d == DecimalText(n) && j <= 4
    requires x == if j == 0 then n as real / 1000000000000.0 else if j == 1 then n as real / 1000000000.0
                  else if j == 2 then n as real / 1000000.0 else if j == 3 then n as real / 1000.0 else n as real
    ensures Unshorten(d + UnitText(j)) == Success(x)
  {
    ReadWritten(n, j);
    assert Worth(n, j) == x;
  }

  // ----- there and back -----

  lemma {:induction false} ScaleExact(amount: int, j: nat)
    requires j <= 4
    ensures var (n, k) := Scale(amount, j); amount == n * Pow(1000, k - j) && (k < 4 ==> n % 1000 != 0)
    decreases 4 - j
  {
    if j == 4 || amount % 1000 != 0 {
    } else {
      ScaleExact(amount / 1000, j + 1);
      var (n, k) := Scale(amount, j);
      MulAssociative(1000, n, Pow(1000, k - j - 1));
    }
  }

  lemma ThousandPowers()
    ensures Pow(1000, 0) == 1 && Pow(1000, 1) == 1000 && Pow(1000, 2) == 1000000
    ensures Pow(1000, 3) == 1000000000 && Pow(1000, 4) == 1000000000000
  {
    assert Pow(1000, 2) == 1000000;
    assert Pow(1000, 3) == 1000 * Pow(1000, 2);
  }

  lemma DecimalDistinct()
    ensures Distinct(BaseCodec.DIGITS)
  {
  }

  lemma DigitNoUnit(d: nat)
    requires d < 10
    ensures UnitOf(BaseCodec.DIGITS[d]).None?
  {
  }

  lemma DecimalLooksUp(n: nat)
    ensures Lookup(BaseCodec.DIGITS, DecimalText(n)) == Some(BaseCodec.MinDigits(n, 10))
  {
    DecimalDistinct();
    LookupSpell(BaseCodec.DIGITS, BaseCodec.MinDigits(n, 10));
  }

  lemma DecimalEnds(n: nat)
    ensures var s := DecimalText(n); UnitOf(s[|s| - 1]).None?
  {
    var ds := BaseCodec.MinDigits(n, 10);
    SpellAt(BaseCodec.DIGITS, ds, |ds| - 1);
    DigitNoUnit(ds[|ds| - 1]);
  }

  lemma ReadUnit(d: string, j: nat)
    requires j <= 4 && d != "" && UnitOf(d[|d| - 1]).None?
    ensures Unshorten(d + UnitText(j)) == ReadDigits(d, j)
  {
    var s := d + UnitText(j);
    if j < 4 {
      UnitReads(j);
      assert s[|s| - 1] == UnitText(j)[0];
      assert s[..|s| - 1] == d;
    } else {
      assert s == d;
    }
  }

  lemma UnitReads(j: nat)
    requires j < 4
    ensures UnitOf(UnitText(j)[0]) == Some(j)
  {
  }

  lemma ReadWritten(n: nat, j: nat)
    requires j <= 4
    ensures Unshorten(DecimalText(n) + UnitText(j)) == Success(Worth(n, j))
  {
    DecimalEnds(n);
    DigitsRead(n, j);
    ReadUnit(DecimalText(n), j);
  }

  lemma DigitsRead(n: nat, j: nat)
    requires j <= 4
    ensures ReadDigits(DecimalText(n), j) == Success(Worth(n, j))
  {
    DecimalLooksUp(n);
    BaseCodec.MinDigitsValue(n, 10);
  }

  lemma NegativeFails(n: int, j: nat)
    requires n < 0 && j <= 4
    ensures Unshorten(DecimalText(n) + UnitText(j)).Failure?
  {
    var s := DecimalText(n) + UnitText(j);
    assert s[0] == '-';
    LookupForeign(BaseCodec.DIGITS, s, 0);
    LookupForeign(BaseCodec.DIGITS, s[..|s| - 1], 0);
  }

  /** What a non-negative amount reads back as: a whole number of picobitcoin, rounded down. */
  lemma ReadsRoundedDown(amount: real)
    requires amount >= 0.0
    ensures Unshorten(Shorten(amount)) == Success(FromPico(InPico(amount).Floor))
  {
    WrittenReads(Truncate(InPico(amount)));
  }

  lemma WrittenReads(total: nat)
    ensures Unshorten(Written(total)) == Success(FromPico(total))
  {
    var n, j := ScaleParts(total);
    ReadWritten(n, j);
    InUnits(n, j, total);
  }

  lemma ScaleParts(total: nat) returns (n: nat, j: nat)
    ensures j <= 4 && Scale(total, 0) == (n, j) && total == n * Pow(1000, j)
  {
    ScaleExact(total, 0);
    ScaleSmaller(total, 0);
    n, j := Scale(total, 0).0, Scale(total, 0).1;
  }

  lemma InUnits(n: nat, j: nat, total: nat)
    requires j <= 4 && total == n * Pow(1000, j)
    ensures Worth(n, j) == FromPico(total)
  {
    ThousandPowers();
  }

  /** Reading undoes writing exactly for non-negative whole numbers of picobitcoin. */
  lemma AmountThereAndBack(amount: real)
    ensures Unshorten(Shorten(amount)) == Success(amount)
       <==> amount >= 0.0 && InPico(amount).Floor as real == InPico(amount)
  {
    if amount >= 0.0 {
      ReadsRoundedDown(amount);
      WholeIff(InPico(amount).Floor, amount);
    } else {
      NeverNegative(amount);
    }
  }

  lemma WholeIff(pico: int, amount: real)
    ensures FromPico(pico) == amount <==> pico as real == InPico(amount)
  {
  }

  lemma NeverNegative(amount: real)
    ensures var r := Unshorten(Shorten(amount)); r.Success? ==> r.value >= 0.0
  {
    var (n, j) := Scale(Truncate(InPico(amount)), 0);
    if n < 0 {
      NegativeFails(n, j);
    } else {
      ReadWritten(n, j);
      NotNegative(n, j);
    }
  }

  lemma NotNegative(n: nat, j: nat)
    requires j <= 4
    ensures Worth(n, j) >= 0.0
  {
  }

  // ----- no other text is shorter -----

  lemma {:induction false} MinDigitsShortest(ds: seq<nat>, b: nat)
    requires b >= 2 && ds != [] && Below(ds, b)
    ensures |BaseCodec.MinDigits(Value(ds, b), b)| <= |ds|
  {
    var n := |ds| - 1;
    if n == 0 {
      assert ds[..0] == [];
    } else {
      MinDigitsShortest(ds[..n], b);
      DivMultiple(Value(ds[..n], b), b, ds[n]);
    }
  }

  lemma {:induction false} MinDigitsMonotone(v: nat, w: nat, b: nat)
    requires b >= 2 && v <= w
    ensures |BaseCodec.MinDigits(v, b)| <= |BaseCodec.MinDigits(w, b)|
    decreases w
  {
    if v < b {
    } else {
      BaseCodec.QuotientSmaller(v, b);
      BaseCodec.QuotientSmaller(w, b);
      DivMonotone(v, w, b);
      MinDigitsMonotone(v / b, w / b, b);
    }
  }

  lemma DivMonotone(v: nat, w: nat, b: nat)
    requires b > 0 && v <= w
    ensures v / b <= w / b
  {
    DivModSum(v, b);
    DivModSum(w, b);
    if w / b < v / b {
      MulMonotone(w / b + 1, v / b, b);
      MulDistributes(w / b, 1, b);
    }
  }

  lemma Thousandth(amount: nat, m: nat, k: nat) returns (rest: nat)
    requires k > 0 && amount == m * Pow(1000, k)
    ensures rest == m * Pow(1000, k - 1) && amount == 1000 * rest
  {
    MulMonotone(0, m, Pow(1000, k - 1));
    rest := m * Pow(1000, k - 1);
    MulAssociative(m, 1000, Pow(1000, k - 1));
    MulAssociative(1000, m, Pow(1000, k - 1));
  }

  lemma ScaleDown(rest: nat, j: nat)
    requires j < 4
    ensures Scale(1000 * rest, j) == Scale(rest, j + 1)
  {
    DivModUnique(1000 * rest, 1000, rest, 0);
  }

  /** `Scale` divides as often as any unit does. */
  lemma {:induction false} ScaleMost(amount: nat, j: nat, m: nat, k: nat)
    requires j <= k <= 4 && amount == m * Pow(1000, k - j)
    ensures Scale(amount, j).1 >= k && 0 <= Scale(amount, j).0 <= m
    decreases 4 - j
  {
    if j < k {
      var rest := Thousandth(amount, m, k - j);
      ScaleDown(rest, j);
      ScaleMost(rest, j + 1, m, k);
    } else {
      ScaleSmaller(amount, j);
    }
  }

  lemma {:induction false} ScaleSmaller(amount: nat, j: nat)
    requires j <= 4
    ensures 0 <= Scale(amount, j).0 <= amount
    decreases 4 - j
  {
    if j == 4 || amount % 1000 != 0 {
    } else {
      ScaleSmaller(amount / 1000, j + 1);
    }
  }

  /** No text for the same amount is shorter. */
  lemma NoShorterText(pico: nat, s: string)
    requires Unshorten(s) == Success(FromPico(pico))
    ensures |Shorten(FromPico(pico))| <= |s|
  {
    var j, ds := TextParts(s);
    SameAmount(pico, Value(ds, 10), j);
    ShortenedLength(pico, ds, j);
    ShortenWhole(pico, FromPico(pico));
  }

  lemma ShortenWhole(pico: nat, amount: real)
    requires amount == FromPico(pico)
    ensures Shorten(amount) == Written(pico)
  {
    TimesPico(pico, amount);
    TruncateWhole(InPico(amount), pico);
  }

  lemma TimesPico(pico: nat, amount: real)
    requires amount == FromPico(pico)
    ensures InPico(amount) == pico as real
  {
  }

  lemma TruncateWhole(x: real, k: nat)
    requires x == k as real
    ensures Truncate(x) == k
  {
  }

  lemma ShortenedLength(pico: nat, ds: seq<nat>, j: nat)
    requires j <= 4 && ds != [] && Below(ds, 10) && pico == Value(ds, 10) * Pow(1000, j)
    ensures |Written(pico)| <= |ds| + (if j < 4 then 1 else 0)
  {
    var m := Value(ds, 10);
    ScaleMost(pico, 0, m, j);
    MinDigitsShortest(ds, 10);
    MinDigitsMonotone(Scale(pico, 0).0, m, 10);
  }

  lemma TextParts(s: string) returns (j: nat, ds: seq<nat>)
    requires Unshorten(s).Success?
    ensures j <= 4 && ds != [] && Below(ds, 10)
    ensures |s| == |ds| + (if j < 4 then 1 else 0)
    ensures Unshorten(s) == Success(Worth(Value(ds, 10), j))
  {
    match UnitOf(s[|s| - 1]) {
      case None => j, ds := 4, Lookup(BaseCodec.DIGITS, s).value;
      case Some(k) => j, ds := k, Lookup(BaseCodec.DIGITS, s[..|s| - 1]).value;
    }
  }

  lemma SameAmount(pico: nat, m: nat, j: nat)
    requires j <= 4 && Worth(m, j) == FromPico(pico)
    ensures pico == m * Pow(1000, j)
  {
    ThousandPowers();
  }

  /** Digits and multiplier letters only. */
  predicate PlainChar(c: char) {
    '0' <= c <= '9' || c == 'p' || c == 'n' || c == 'u' || c == 'm'
  }

  lemma DecimalPlain(n: nat)
    ensures forall i :: 0 <= i < |DecimalText(n)| ==> PlainChar(DecimalText(n)[i])
  {
    var ds := BaseCodec.MinDigits(n, 10);
    forall i | 0 <= i < |ds| ensures PlainChar(DecimalText(n)[i]) {
      SpellAt(BaseCodec.DIGITS, ds, i);
      DigitPlain(ds[i]);
    }
  }

  lemma DigitPlain(d: nat)
    requires d < 10
    ensures '0' <= BaseCodec.DIGITS[d] <= '9'
  {
  }

  lemma ShortenPlain(amount: real)
    requires amount >= 0.0
    ensures Shorten(amount) != "" && forall i :: 0 <= i < |Shorten(amount)| ==> PlainChar(Shorten(amount)[i])
  {
    var total := Truncate(InPico(amount));
    var (n, j) := Scale(total, 0);
    ScaleSmaller(total, 0);
    DecimalPlain(n);
  }
}
