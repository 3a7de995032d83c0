/**
 Harmony addresses: a hexadecimal account number and its Bech32 form with the prefix `one`.
 */
module Harmony {
  import opened Wrappers
  import opened Positional
  import opened HexText
  import opened Bech32Checksum
  import opened Bech32Codec
  import opened SegwitAddress

  datatype Error = BadHex | BadAddress

  function EthToOne(eth: string): (r: Result<string, Error>) {
    match Unhex(if |eth| < 2 then "" else eth[2..])
    case None => Failure(BadHex)
    case Some(bytes) => Success(Encode(BECH32, "one", ToSymbols(bytes)))
  }

  function OneToEth(one: string): (r: Result<string, Error>) {
    match Decode(one, false)
    case None => Failure(BadAddress)
    case Some(d) => match ToBytes(d.data)
      case None => Failure(BadAddress)
      case Some(bytes) => Success("0x" + Hex(bytes))
  }

  // ----- hexadecimal -----

  lemma HexDigitLower(c: char)
    requires HexDigit(c).Some?
    ensures HexChar(HexDigit(c).value) == LowerChar(c)
  {
  }

  lemma {:induction false} HexUnhex(s: string)
    requires Unhex(s).Some?
    ensures Hex(Unhex(s).value) == Lower(s)
  {
    if s == "" {
    } else {
      var bytes, b := UnhexLast(s);
      HexUnhex(s[..|s| - 2]);
      HexAppend(bytes, b);
      LowerAppend(s);
    }
  }

  lemma UnhexLast(s: string) returns (bytes: seq<Byte>, b: Byte)
    requires s != "" && Unhex(s).Some?
    ensures |s| >= 2 && Unhex(s[..|s| - 2]) == Some(bytes) && Unhex(s) == Some(bytes + [b])
    ensures HexChar(b / 16) == LowerChar(s[|s| - 2]) && HexChar(b % 16) == LowerChar(s[|s| - 1])
  {
    var h, l := s[|s| - 2], s[|s| - 1];
    bytes := Unhex(s[..|s| - 2]).value;
    b := 16 * HexDigit(h).value + HexDigit(l).value;
    HexDigitLower(h);
    HexDigitLower(l);
  }

  lemma LowerAppend(s: string)
    requires |s| >= 2
    ensures Lower(s) == Lower(s[..|s| - 2]) + [LowerChar(s[|s| - 2]), LowerChar(s[|s| - 1])]
  {
  }

  // ----- there and back -----

  lemma OnePrefix()
    ensures GoodHrp("one")
  {
  }

  /** An account number of up to fifty bytes comes back in lower case; a longer one does not come back. */
  lemma EthThereAndBack(eth: string)
    requires |eth| >= 2 && EthToOne(eth).Success?
    ensures OneToEth(EthToOne(eth).value) == Success("0x" + Lower(eth[2..])) <==> |eth| <= 102
    ensures |eth| > 102 ==> OneToEth(EthToOne(eth).value).Failure?
  {
    var bytes := Unhex(eth[2..]).value;
    var data := ToSymbols(bytes);
    OnePrefix();
    DecodeEncode(BECH32, "one", data, false);
    BytesThereAndBack(bytes);
    HexUnhex(eth[2..]);
    if |eth| > 102 {
      TooLong(data);
    }
  }

  lemma TooLong(data: seq<Symbol>)
    requires |data| > 80
    ensures Decode(Encode(BECH32, "one", data), false).None?
  {
  }

  /** An address comes back in lower case exactly when it has the prefix and the checksum that the
      writer uses. The reader checks neither. */
  lemma OneThereAndBack(one: string)
    requires OneToEth(one).Success?
    ensures EthToOne(OneToEth(one).value) == Success(Lower(one))
       <==> Decode(one, false).value.hrp == "one" && Decode(one, false).value.encoding == BECH32
  {
    var d := Decode(one, false).value;
    var bytes := ToBytes(d.data).value;
    var eth := "0x" + Hex(bytes);
    assert eth[2..] == Hex(bytes);
    UnhexHex(bytes);
    SymbolsThereAndBack(d.data);
    EncodeDecode(one, false);
    EncodedSame(BECH32, d.encoding, "one", d.hrp, d.data);
  }

  lemma EncodedSame(e: Encoding, f: Encoding, g: string, h: string, data: seq<Symbol>)
    ensures Encode(e, g, data) == Encode(f, h, data) <==> e == f && g == h
  {
    var s, t := Encode(e, g, data), Encode(f, h, data);
    if s == t {
      assert |g| == |h|;
      assert s[..|g|] == g && t[..|h|] == h;
      EncodingsDiffer(e, f, g, data);
    }
  }

  /** An address with another prefix is read, and comes back with the prefix `one`. */
  lemma OtherPrefix(hrp: string, bytes: seq<Byte>, text: string)
    requires GoodHrp(hrp) && hrp != "one" && |hrp| + 7 + |ToSymbols(bytes)| <= 90
    requires text == Encode(BECH32, hrp, ToSymbols(bytes))
    ensures OneToEth(text) == Success("0x" + Hex(bytes))
    ensures EthToOne("0x" + Hex(bytes)).Success? && EthToOne("0x" + Hex(bytes)).value != text
  {
    var data := ToSymbols(bytes);
    DecodeEncode(BECH32, hrp, data, false);
    BytesThereAndBack(bytes);
    HexAccount(bytes);
    EncodedSame(BECH32, BECH32, "one", hrp, data);
  }

  lemma HexAccount(bytes: seq<Byte>)
    ensures EthToOne("0x" + Hex(bytes)) == Success(Encode(BECH32, "one", ToSymbols(bytes)))
  {
    UnhexHex(bytes);
    assert ("0x" + Hex(bytes))[2..] == Hex(bytes);
  }

  lemma OtherPrefixRead(bytes: seq<Byte>, text: string)
    requires bytes == [0] && text == Encode(BECH32, "two", ToSymbols(bytes))
    ensures OneToEth(text) == Success("0x00")
    ensures EthToOne("0x00").Success? && EthToOne("0x00").value != text
  {
    TwoPrefix(bytes);
    OtherPrefix("two", bytes, text);
    ZeroHex(bytes);
  }

  lemma TwoPrefix(bytes: seq<Byte>)
    requires |bytes| == 1
    ensures GoodHrp("two") && "two" != "one" && |ToSymbols(bytes)| == 2
  {
    assert "two"[0] != "one"[0];
  }

  lemma ZeroHex(bytes: seq<Byte>)
    requires bytes == [0]
    ensures "0x" + Hex(bytes) == "0x00"
  {
    assert bytes[..0] == [];
    assert Hex(bytes) == [HexChar(0), HexChar(0)];
  }
}
