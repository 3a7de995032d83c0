/**
 The data part of a Lightning invoice: numbers as 5-bit groups, and tagged fields.
 */
module LnFields {
  import opened Wrappers
  import opened Positional
  import opened Alphabet
  import BaseCodec
  import opened Bech32Checksum
  import opened Bech32Codec

  datatype Error = BadBitLength | NumberTooBig | FieldTooLong | TruncatedField

  // ----- numbers -----

  /** A number in as many groups as it takes; zero takes none. */
  function Groups(val: nat): (ds: seq<Symbol>) {
    if val == 0 then [] else BaseCodec.MinDigits(val, 32)
  }

  /** `int_to_data5`. The source means to pad on the left, but its padding count is the group count
      less the wanted count, and that is never positive. */
  function IntToData5(val: nat, bitLen: Option<nat>): (r: Result<seq<Symbol>, Error>) {
    if bitLen.Some? && bitLen.value % 5 != 0 then Failure(BadBitLength)
    else if bitLen.Some? && val >= Pow(2, bitLen.value) then Failure(NumberTooBig)
    else Success(Groups(val))
  }

  function IntFromData5(data5: seq<Symbol>): nat {
    Value(data5, 32)
  }

  method ComputeIntToData5(val: nat, bitLen: Option<nat>) returns (r: Result<seq<Symbol>, Error>)
    ensures r == IntToData5(val, bitLen)
  {
    if bitLen.Some? {
      if bitLen.value % 5 != 0 {
        return Failure(BadBitLength);
      }
      if val >= Pow(2, bitLen.value) {
        return Failure(NumberTooBig);
      }
    }
    var ret := DivideBy32(val);
    if bitLen.Some? {
      NeverPadded(val, bitLen.value);
      var padding := Padding(|ret| - bitLen.value / 5);
      assert ret + padding == ret;
      ret := ret + padding;
    }
    r := Success(BaseCodec.Reversed(ret));
  }

  /** `[0] * count`, which is empty for a negative count. */
  function Padding(count: int): seq<Symbol> {
    if count <= 0 then [] else seq(count, i => 0)
  }

  /** The loop: groups from the last to the first. */
  method DivideBy32(val: nat) returns (ret: seq<Symbol>)
    ensures BaseCodec.Reversed(ret) == Groups(val)
  {
    ret := [];
    var rest: nat := val;
    while rest != 0
      invariant rest == 0 ==> BaseCodec.Reversed(ret) == Groups(val)
      invariant rest > 0 ==> Groups(val) == BaseCodec.MinDigits(rest, 32) + BaseCodec.Reversed(ret)
      decreases rest
    {
      BaseCodec.ReversedSnoc<Symbol>(ret, rest % 32);
      ret := ret + [rest % 32];
      rest := rest / 32;
    }
  }

  method ComputeIntFromData5(data5: seq<Symbol>) returns (total: nat)
    ensures total == IntFromData5(data5)
  {
    total := 0;
    for i := 0 to |data5|
      invariant total == Value(data5[..i], 32)
    {
      assert data5[..i + 1][..i] == data5[..i];
      total := 32 * total + data5[i];
    }
    assert data5[..|data5|] == data5;
  }

  lemma {:induction false} GroupsCount(val: nat, n: nat)
    ensures |Groups(val)| <= n <==> val < Pow(32, n)
    decreases n
  {
    if val > 0 && n > 0 {
      GroupsCount(val / 32, n - 1);
    } else {
      PowPositive(32, n);
    }
  }

  lemma BitsInGroups(n: nat)
    ensures Pow(2, 5 * n) == Pow(32, n)
  {
    assert Pow(2, 5) == 32;
    PowMul(2, 5, n);
  }

  lemma NeverPadded(val: nat, bitLen: nat)
    requires bitLen % 5 == 0 && val < Pow(2, bitLen)
    ensures |Groups(val)| <= bitLen / 5
  {
    BitsInGroups(bitLen / 5);
    GroupsCount(val, bitLen / 5);
  }

  /** A number is recovered from its groups. */
  lemma GroupsThereAndBack(val: nat)
    ensures IntFromData5(Groups(val)) == val
  {
    BaseCodec.MinDigitsValue(val, 32);
  }

  /** The seven groups that the reader takes for a date are written exactly for dates from 2^30 on. */
  /** A number is refused exactly when it does not fit the bit length. */
  lemma RefusedNumbers(val: nat, bitLen: nat)
    requires bitLen % 5 == 0
    ensures IntToData5(val, Some(bitLen)) == Failure(NumberTooBig) <==> val >= Pow(2, bitLen)
    ensures IntToData5(val, Some(bitLen)).Success? ==> IntFromData5(IntToData5(val, Some(bitLen)).value) == val
  {
    GroupsThereAndBack(val);
  }

  lemma DateGroups(date: nat)
    requires IntToData5(date, Some(35)).Success?
    ensures |IntToData5(date, Some(35)).value| <= 7
    ensures |IntToData5(date, Some(35)).value| == 7 <==> date >= Pow(2, 30)
  {
    BitsInGroups(7);
    BitsInGroups(6);
    GroupsCount(date, 7);
    GroupsCount(date, 6);
  }

  // ----- tagged fields -----

  datatype Field = Field(tag: char, payload: seq<Symbol>)

  function TagIndex(tag: char): (r: Option<Symbol>) {
    match IndexOf(CHARSET, tag)
    case None => None
    case Some(i) => Some(i)
  }

  /** `tagged5`: the tag, the length in two groups, the payload. */
  function Tagged5(tag: Symbol, payload: seq<Symbol>): (r: Result<seq<Symbol>, Error>) {
    if |payload| >= 1024 then Failure(FieldTooLong)
    else Success([tag, |payload| / 32, |payload| % 32] + payload)
  }

  datatype Pulled = Pulled(tag: Symbol, payload: seq<Symbol>, rest: seq<Symbol>)

  /** `pull_tagged`, on values: the first field and what is left. */
  function Pull(data5: seq<Symbol>): (r: Result<Pulled, Error>)
    ensures r.Success? ==> |r.value.rest| + 3 + |r.value.payload| == |data5|
  {
    if |data5| < 3 then Failure(TruncatedField)
    else
      var length := data5[1] as int * 32 + data5[2] as int;
      if length > |data5| - 3 then Failure(TruncatedField)
      else Success(Pulled(data5[0], data5[3..3 + length], data5[3 + length..]))
  }

  /** The bytearray that is consumed from the front. */
  class Remaining {
    var data5: seq<Symbol>

    constructor (start: seq<Symbol>)
      ensures data5 == start
    {
      data5 := start;
    }

    method PullTagged() returns (r: Result<Field, Error>)
      modifies this
      ensures match Pull(old(data5))
        case Failure(e) => r == Failure(e) && data5 == old(data5)
        case Success(p) => r == Success(Field(CHARSET[p.tag], p.payload)) && data5 == p.rest
    {
      if |data5| < 3 {
        return Failure(TruncatedField);
      }
      var length := data5[1] as int * 32 + data5[2] as int;
      if length > |data5| - 3 {
        return Failure(TruncatedField);
      }
      r := Success(Field(CHARSET[data5[0]], data5[3..3 + length]));
      data5 := data5[3 + length..];
    }
  }

  /** Writing a field and pulling it are inverse: `data5` starts with the field exactly when the field is pulled. */
  /** The length is written in two symbols, the high one first. */
  lemma Tagged5Shape(tag: Symbol, payload: seq<Symbol>)
    ensures Tagged5(tag, payload).Success? <==> |payload| < 1024
    ensures |payload| < 1024 ==>
              var t := Tagged5(tag, payload).value;
              |t| == 3 + |payload| && t[0] == tag && 32 * t[1] as int + t[2] as int == |payload| && t[3..] == payload
  {
  }

  lemma PullTagged5(tag: Symbol, payload: seq<Symbol>, rest: seq<Symbol>)
    requires Tagged5(tag, payload).Success?
    ensures Pull(Tagged5(tag, payload).value + rest) == Success(Pulled(tag, payload, rest))
  {
    var data5 := Tagged5(tag, payload).value + rest;
    assert data5[3..3 + |payload|] == payload;
    assert data5[3 + |payload|..] == rest;
  }

  lemma Tagged5Pull(data5: seq<Symbol>)
    requires Pull(data5).Success?
    ensures var p := Pull(data5).value;
      Tagged5(p.tag, p.payload).Success? && data5 == Tagged5(p.tag, p.payload).value + p.rest
  {
    var p := Pull(data5).value;
    DivMultiple(data5[1], 32, data5[2]);
    assert data5 == [data5[0], data5[1], data5[2]] + p.payload + p.rest;
  }

  /** All fields, pulled until nothing is left. */
  function PullAll(data5: seq<Symbol>): (r: Result<seq<Field>, Error>)
    decreases |data5|
  {
    if data5 == [] then Success([])
    else
      var p :- Pull(data5);
      var more :- PullAll(p.rest);
      Success([Field(CHARSET[p.tag], p.payload)] + more)
  }

  function WriteAll(fields: seq<Field>): (r: Option<seq<Symbol>>) {
    if fields == [] then Some([])
    else match (TagIndex(fields[0].tag), WriteAll(fields[1..]))
      case (Some(tag), Some(more)) =>
        (match Tagged5(tag, fields[0].payload)
         case Failure(_) => None
         case Success(data5) => Some(data5 + more))
      case _ => None
  }

  /** Fields that can be written are pulled in the same order, and nothing is left. */
  lemma {:induction false} PullWritten(fields: seq<Field>)
    requires WriteAll(fields).Some?
    ensures PullAll(WriteAll(fields).value) == Success(fields)
  {
    if fields == [] {
    } else {
      var tag, more := TagIndex(fields[0].tag).value, WriteAll(fields[1..]).value;
      PullWritten(fields[1..]);
      PullTagged5(tag, fields[0].payload, more);
      assert fields == [fields[0]] + fields[1..];
    }
  }

  /** Whatever is pulled without error is written the same again. */
  lemma {:induction false} WritePulled(data5: seq<Symbol>)
    requires PullAll(data5).Success?
    ensures WriteAll(PullAll(data5).value) == Some(data5)
    decreases |data5|
  {
    if data5 == [] {
    } else {
      var p := Pull(data5).value;
      var fields := PullAll(data5).value;
      Tagged5Pull(data5);
      WritePulled(p.rest);
      assert fields[1..] == PullAll(p.rest).value;
      CharsetDistinct();
      IndexOfDistinct(CHARSET, p.tag);
    }
  }
}
