/**
 Bech32 and Bech32m: the checksum of a human-readable part and a sequence of 5-bit symbols.
 */
module Bech32Checksum {
  import opened Wrappers
  import opened Positional
  import opened BitXor
  import opened LinearRegister
  import opened Polymod

  type Symbol = x: nat | x < 32

  datatype Encoding = BECH32 | BECH32M

  function Const(encoding: Encoding): Word {
    match encoding
    case BECH32 => 1
    case BECH32M => 0x2bc830a3
  }

  /** The human-readable part as register input: high bits, a separator, low bits. */
  function HrpExpand(hrp: string): seq<Word> {
    seq(|hrp|, i requires 0 <= i < |hrp| => hrp[i] as int / 32)
    + [0]
    + seq(|hrp|, i requires 0 <= i < |hrp| => hrp[i] as int % 32)
  }

  /** The high bits of all characters come first, then a zero, then the low five bits. */
  lemma HrpExpanded(hrp: string, i: nat)
    requires i < |hrp|
    ensures |HrpExpand(hrp)| == 2 * |hrp| + 1 && HrpExpand(hrp)[|hrp|] == 0
    ensures HrpExpand(hrp)[|hrp| + 1 + i] < 32
    ensures 32 * HrpExpand(hrp)[i] + HrpExpand(hrp)[|hrp| + 1 + i] == hrp[i] as int
  {
  }

  const ZEROS: seq<Symbol> := [0, 0, 0, 0, 0, 0]

  function Checked(hrp: string, data: seq<Symbol>): Word {
    Run(BECH, 1, HrpExpand(hrp) + data)
  }

  function VerifyChecksum(hrp: string, data: seq<Symbol>): Option<Encoding> {
    var check := Checked(hrp, data);
    if check == Const(BECH32) then Some(BECH32)
    else if check == Const(BECH32M) then Some(BECH32M)
    else None
  }

  function CreateChecksum(encoding: Encoding, hrp: string, data: seq<Symbol>): (c: seq<Symbol>)
    ensures |c| == 6
  {
    Digits(Add(Checked(hrp, data + ZEROS), Const(encoding)), 6, 32)
  }

  /** The checksum symbols are the six 5-bit groups of the register, highest first. */
  lemma ChecksumSymbol(encoding: Encoding, hrp: string, data: seq<Symbol>, i: nat)
    requires i < 6
    ensures Pow(32, 5 - i) > 0
    ensures CreateChecksum(encoding, hrp, data)[i]
         == (Add(Checked(hrp, data + ZEROS), Const(encoding)) / Pow(32, 5 - i)) % 32
  {
    GroupAt(Add(Checked(hrp, data + ZEROS), Const(encoding)), i);
  }

  lemma GroupAt(reg: Word, i: nat)
    requires i < 6
    ensures Pow(32, 5 - i) > 0 && Digits(reg, 6, 32)[i] == (reg / Pow(32, 5 - i)) % 32
  {
    DigitAt(reg, 6, 32, i);
  }

  /** With `six` in front of the end, the register holds what six zeros leave, plus `six` itself. */
  lemma SixSymbols(state: Word, six: seq<Symbol>)
    requires |six| == 6
    ensures Value(six, 32) == Add(Run(BECH, state, six), Run(BECH, state, ZEROS))
  {
    assert Zeros<Word>(BECH, 6) == ZEROS;
    assert Run(BECH, 0, six) == Add(Run(BECH, state, six), Run(BECH, state, Zeros<Word>(BECH, 6))) by {
      BechLinear();
      ZeroComparison<Word>(BECH, state, six);
    }
    RunSymbols(six);
  }

  lemma AddSolves(x: Word, y: Word, c: Word)
    ensures x == c <==> Add(x, y) == Add(y, c)
  {
    XorCommutes(y, c);
    XorZeroIff(x, c);
    XorInterchange(x, y, c, y);
    XorZeroIff(y, y);
    XorCommutes(Xor(x, c), 0);
    XorZeroIff(Xor(x, y), Xor(c, y));
  }

  /** Exactly one six-symbol suffix verifies, and it is the one that is created. */
  lemma ChecksumUnique(encoding: Encoding, hrp: string, data: seq<Symbol>, six: seq<Symbol>)
    requires |six| == 6
    ensures VerifyChecksum(hrp, data + six) == Some(encoding) <==> six == CreateChecksum(encoding, hrp, data)
  {
    var w := Add(Checked(hrp, data + ZEROS), Const(encoding));
    assert Checked(hrp, data + six) == Const(encoding) <==> Value(six, 32) == w by {
      SuffixValue(hrp, data, six);
      AddSolves(Checked(hrp, data + six), Checked(hrp, data + ZEROS), Const(encoding));
    }
    DigitsDetermined(six, w);
  }

  /** A six-symbol suffix adds its own value to what six zeros leave. */
  lemma SuffixValue(hrp: string, data: seq<Symbol>, six: seq<Symbol>)
    requires |six| == 6
    ensures Value(six, 32) == Add(Checked(hrp, data + six), Checked(hrp, data + ZEROS))
  {
    CheckedConcat(hrp, data, six);
    CheckedConcat(hrp, data, ZEROS);
    SixSymbols(Checked(hrp, data), six);
  }

  lemma CheckedConcat(hrp: string, data: seq<Symbol>, more: seq<Symbol>)
    ensures Checked(hrp, data + more) == Run(BECH, Checked(hrp, data), more)
  {
    assert HrpExpand(hrp) + (data + more) == HrpExpand(hrp) + data + more;
    RunConcat<Word>(BECH, 1, HrpExpand(hrp) + data, more);
  }

  lemma DigitsDetermined(six: seq<Symbol>, w: Word)
    requires |six| == 6
    ensures Value(six, 32) == w <==> six == Digits(w, 6, 32)
  {
    assert Pow(32, 6) == 0x4000_0000;
    ValueOfDigits(w, 6, 32);
    DigitsOfValue(six, 32);
  }

  /** Any change inside a window of six symbols is detected, at any length. */
  lemma BurstDetected(encoding: Encoding, hrp: string, before: seq<Symbol>, was: seq<Symbol>, now: seq<Symbol>, after: seq<Symbol>)
    requires |was| == |now| <= 6 && was != now
    requires VerifyChecksum(hrp, before + was + after) == Some(encoding)
    ensures VerifyChecksum(hrp, before + now + after) != Some(encoding)
  {
    if Checked(hrp, before + now + after) == Checked(hrp, before + was + after) {
      SameCheck(hrp, before, was, now, after);
    }
  }

  lemma SameCheck(hrp: string, before: seq<Symbol>, was: seq<Symbol>, now: seq<Symbol>, after: seq<Symbol>)
    requires |was| == |now| <= 6
    requires Checked(hrp, before + now + after) == Checked(hrp, before + was + after)
    ensures was == now
  {
    var pre := HrpExpand(hrp) + before;
    Reassociate<Word>(HrpExpand(hrp), before, was, after);
    Reassociate<Word>(HrpExpand(hrp), before, now, after);
    SameRun(pre, was, now, after);
  }

  lemma Reassociate<T>(a: seq<T>, b: seq<T>, c: seq<T>, d: seq<T>)
    ensures a + (b + c + d) == a + b + c + d
  {
  }

  lemma SameRun(pre: seq<Word>, was: seq<Word>, now: seq<Word>, post: seq<Word>)
    requires |was| == |now| <= 6 && Below(was, 32) && Below(now, 32)
    requires Run(BECH, 1, pre + was + post) == Run(BECH, 1, pre + now + post)
    ensures was == now
  {
    BechLinear();
    BechInjective();
    BurstUnseen(BECH, 1, pre, was, now, post);
    UnseenSymbols(was, now);
  }

  lemma UnseenSymbols(s: seq<Word>, t: seq<Word>)
    requires |s| == |t| <= 6 && Below(s, 32) && Below(t, 32)
    requires Run(BECH, 0, Sum(BECH, s, t)) == 0
    ensures s == t
  {
    var d := Sum(BECH, s, t);
    SymbolSums(s, t);
    RunSymbols(d);
    ZeroDigits(d, 32);
    ZeroSums(s, t);
  }

  lemma SymbolSums(s: seq<Word>, t: seq<Word>)
    requires |s| == |t| && Below(s, 32) && Below(t, 32)
    ensures Below(Sum(BECH, s, t), 32)
  {
    forall i | 0 <= i < |s| ensures Sum(BECH, s, t)[i] < 32 {
      SymbolSum(s[i], t[i]);
      SumAt(s, t, i);
    }
  }

  lemma SumAt(s: seq<Word>, t: seq<Word>, i: nat)
    requires i < |s| == |t|
    ensures Sum(BECH, s, t)[i] == Xor(s[i], t[i])
  {
    assert Sum(BECH, s, t)[i] == BECH.add(s[i], t[i]) == Add(s[i], t[i]);
  }

  lemma ZeroSums(s: seq<Word>, t: seq<Word>)
    requires |s| == |t|
    requires forall i :: 0 <= i < |s| ==> Sum(BECH, s, t)[i] == 0
    ensures s == t
  {
    forall i | 0 <= i < |s| ensures s[i] == t[i] {
      SumAt(s, t, i);
      XorZeroIff(s[i], t[i]);
    }
  }

  lemma SymbolSum(a: Symbol, b: Symbol)
    ensures Xor(a, b) < 32
  {
    Powers();
    XorSplit(a, b, 0, 0, a, b, 5);
  }
}
