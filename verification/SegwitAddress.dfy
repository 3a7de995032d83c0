/**
 Segwit addresses: a witness version and program, as a Bech32 or Bech32m string.
 */
module SegwitAddress {
  import opened Wrappers
  import opened Positional
  import opened ConvertBits
  import opened Bech32Checksum
  import opened Bech32Codec

  datatype Witness = Witness(version: nat, program: seq<nat>)

  /** Bytes as padded symbols. */
  function ToSymbols(bytes: seq<Byte>): (s: seq<Symbol>)
    ensures Regroup(bytes, 8, 5, true) == Some(s)
    ensures 5 * |s| == 8 * |bytes| + Slack(|bytes|, 8, 5)
  {
    Widths();
    PadValue(bytes, 8, 5);
    Regroup(bytes, 8, 5, true).value
  }

  /** Symbols as bytes, if what is left over is less than a symbol and zero. */
  function ToBytes(symbols: seq<Symbol>): (b: Option<seq<Byte>>) {
    Widths();
    match Regroup(symbols, 5, 8, false)
    case None => None
    case Some(bytes) => Some(bytes)
  }

  lemma Widths()
    ensures Pow(2, 5) == 32 && Pow(2, 8) == 256
  {
    assert Pow(2, 4) == 16;
    assert Pow(2, 8) == 256;
  }

  lemma BytesThereAndBack(bytes: seq<Byte>)
    ensures ToBytes(ToSymbols(bytes)) == Some(bytes)
  {
    Widths();
    UnpadPad(bytes, 8, 5);
    SlackBelow(|bytes|, 8, 5);
  }

  lemma SymbolsThereAndBack(symbols: seq<Symbol>)
    requires ToBytes(symbols).Some?
    ensures ToSymbols(ToBytes(symbols).value) == symbols
  {
    Widths();
    PadUnpad(symbols, 5, 8);
  }

  // ----- the address pair -----

  predicate GoodProgram(version: nat, size: nat) {
    version <= 16 && 2 <= size <= 40 && (version == 0 ==> size == 20 || size == 32)
  }

  function ReadWitness(data: seq<Symbol>): (w: Option<Witness>) {
    if data == [] then None
    else match ToBytes(data[1..])
      case None => None
      case Some(program) => if GoodProgram(data[0], |program|) then Some(Witness(data[0], program)) else None
  }

  function DecodeSegwit(hrp: string, addr: Option<string>): (w: Option<Witness>) {
    match addr
    case None => None
    case Some(text) => match Decode(text, false)
      case None => None
      case Some(d) => if d.hrp != hrp then None else ReadWitness(d.data)
  }

  function EncodingFor(version: nat): Encoding {
    if version == 0 then BECH32 else BECH32M
  }

  function EncodeSegwit(hrp: string, version: Symbol, program: seq<Byte>): (addr: Option<string>) {
    var text := Encode(EncodingFor(version), hrp, [version] + ToSymbols(program));
    if DecodeSegwit(hrp, Some(text)).None? then None else Some(text)
  }

  lemma ReadWritten(version: Symbol, program: seq<Byte>)
    ensures ReadWitness([version] + ToSymbols(program))
         == if GoodProgram(version, |program|) then Some(Witness(version, program)) else None
  {
    assert ([version] + ToSymbols(program))[1..] == ToSymbols(program);
    BytesThereAndBack(program);
  }

  /** An address is written exactly for the allowed prefixes, lengths and programs, and reads back. */
  lemma SegwitRoundTrip(hrp: string, version: Symbol, program: seq<Byte>)
    ensures EncodeSegwit(hrp, version, program).Some?
       <==> && GoodHrp(hrp) && |hrp| + 8 + |ToSymbols(program)| <= 90
            && version <= 16 && 2 <= |program| <= 40 && (version == 0 ==> |program| == 20 || |program| == 32)
    ensures EncodeSegwit(hrp, version, program).Some?
        ==> DecodeSegwit(hrp, EncodeSegwit(hrp, version, program)) == Some(Witness(version, program))
  {
    var data := [version] + ToSymbols(program);
    ReadWritten(version, program);
    DecodeEncode(EncodingFor(version), hrp, data, false);
  }

  /** Version 0 is written as Bech32, and every other version as Bech32m. */
  lemma WrittenEncoding(hrp: string, version: Symbol, program: seq<Byte>)
    requires EncodeSegwit(hrp, version, program).Some?
    ensures var d := Decode(EncodeSegwit(hrp, version, program).value, false);
      d.Some? && (d.value.encoding == BECH32 <==> version == 0) && (d.value.encoding == BECH32M <==> version > 0)
  {
    SegwitRoundTrip(hrp, version, program);
    DecodeEncode(EncodingFor(version), hrp, [version] + ToSymbols(program), false);
  }

  /** A text that decodes is an address exactly when it has the prefix and its data is a version and the symbols of a
      program, both of them allowed. The checksum kind does not matter. */
  lemma ReadsExactly(hrp: string, text: string, version: Symbol, program: seq<Byte>)
    requires Decode(text, false).Some?
    ensures DecodeSegwit(hrp, Some(text)) == Some(Witness(version, program))
       <==> var d := Decode(text, false).value;
            && d.hrp == hrp && d.data == [version] + ToSymbols(program)
            && version <= 16 && 2 <= |program| <= 40 && (version == 0 ==> |program| == 20 || |program| == 32)
  {
    var d := Decode(text, false).value;
    ReadWritten(version, program);
    if DecodeSegwit(hrp, Some(text)) == Some(Witness(version, program)) {
      var same := WitnessData(d.data);
    }
  }

  lemma NoText(hrp: string, text: string)
    ensures DecodeSegwit(hrp, None) == None
    ensures Decode(text, false).None? ==> DecodeSegwit(hrp, Some(text)) == None
  {
  }

  /** What is written with a proper prefix is in lower case. */
  lemma WrittenLower(hrp: string, version: Symbol, program: seq<Byte>)
    requires EncodeSegwit(hrp, version, program).Some?
    ensures var text := EncodeSegwit(hrp, version, program).value; Lower(text) == text
  {
    SegwitRoundTrip(hrp, version, program);
    EncodedLower(EncodingFor(version), hrp, [version] + ToSymbols(program));
  }

  /** Data that reads as a witness is what the writer makes of it. */
  lemma WitnessData(data: seq<Symbol>) returns (program: seq<Byte>)
    requires ReadWitness(data).Some?
    ensures var w := ReadWitness(data).value; w.version <= 16 && w.program == program && data == [w.version] + ToSymbols(program)
  {
    program := ToBytes(data[1..]).value;
    SymbolsThereAndBack(data[1..]);
  }

  /** What reads as a witness is written again, as the canonical address for it. */
  lemma SegwitRewrite(hrp: string, text: string)
    requires DecodeSegwit(hrp, Some(text)).Some?
    ensures var w := DecodeSegwit(hrp, Some(text)).value;
      && w.version <= 16 && (forall i :: 0 <= i < |w.program| ==> w.program[i] < 256)
      && EncodeSegwit(hrp, w.version, w.program).Some?
      && (EncodeSegwit(hrp, w.version, w.program).value == Lower(text)
          <==> Decode(text, false).value.encoding == EncodingFor(w.version))
  {
    var d := Decode(text, false).value;
    var w := DecodeSegwit(hrp, Some(text)).value;
    var program := WitnessData(d.data);
    AcceptedShape(text);
    SegwitRoundTrip(hrp, w.version, program);
    EncodeDecode(text, false);
    EncodingsDiffer(EncodingFor(w.version), d.encoding, hrp, d.data);
  }

  /** An address with the checksum for other versions is read, and written as another text. */
  lemma OtherChecksum(hrp: string, version: Symbol, program: seq<Byte>, other: Encoding)
    requires EncodeSegwit(hrp, version, program).Some? && other != EncodingFor(version)
    ensures var text := Encode(other, hrp, [version] + ToSymbols(program));
      DecodeSegwit(hrp, Some(text)) == Some(Witness(version, program)) && EncodeSegwit(hrp, version, program).value != text
  {
    var data: seq<Symbol> := [version] + ToSymbols(program);
    SegwitRoundTrip(hrp, version, program);
    DecodeEncode(other, hrp, data, false);
    ReadWritten(version, program);
    EncodingsDiffer(EncodingFor(version), other, hrp, data);
  }

  /** Twenty zero bytes of version 0, with the checksum for the other versions. */
  lemma WrongChecksumRead(program: seq<Byte>, text: string)
    requires program == seq(20, i => 0) && text == Encode(BECH32M, "bc", [0] + ToSymbols(program))
    ensures DecodeSegwit("bc", Some(text)) == Some(Witness(0, program))
    ensures EncodeSegwit("bc", 0, program).Some? && EncodeSegwit("bc", 0, program).value != text
  {
    BitcoinPrefix();
    TwentyBytes("bc", program);
    OtherChecksum("bc", 0, program, BECH32M);
  }

  lemma BitcoinPrefix()
    ensures GoodHrp("bc")
  {
  }

  /** A program of twenty bytes can be written as version 0, with every short prefix. */
  lemma TwentyBytes(hrp: string, program: seq<Byte>)
    requires GoodHrp(hrp) && |hrp| <= 50 && |program| == 20
    ensures EncodeSegwit(hrp, 0, program).Some?
  {
    TwentySymbols(program);
    SegwitRoundTrip(hrp, 0, program);
  }

  lemma TwentySymbols(program: seq<Byte>)
    requires |program| == 20
    ensures |ToSymbols(program)| == 32
  {
  }
}
