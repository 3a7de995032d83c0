/**
 SS58 addresses: a format number in one or two bytes, a payload, and the start of a hash of both.

 The hash and the Base58 library are the functions of a `Library` value.
 */
module Ss58 {
  import opened Wrappers
  import opened Positional
  import opened HexText

  datatype Library = Library(hash: seq<nat> -> seq<Byte>, b58encode: seq<Byte> -> string, b58decode: string -> Option<seq<Byte>>)

  datatype Error = BadFormat | BadPayloadLength | BadBase58 | NoFormat | ReservedFormat | WrongFormat | BadLength | BadChecksum

  /** Hashes have 64 bytes; decoding undoes encoding; no Base58 text starts like a hexadecimal number. */
  ghost predicate GoodLibrary(lib: Library) {
    && (forall m :: |lib.hash(m)| == 64)
    && (forall b :: lib.b58decode(lib.b58encode(b)) == Some(b))
    && (forall b :: !IsHex(lib.b58encode(b)))
  }

  predicate IsHex(s: string) {
    |s| >= 2 && s[0] == '0' && s[1] == 'x'
  }

  const PREFIX: seq<nat> := [83, 83, 53, 56, 80, 82, 69]

  // ----- writing -----

  /** The format in bytes: `fedc ba98 7654 3210` becomes `01 765432` and `10 dcba98`. */
  function FormatBytes(format: nat): seq<Byte>
    requires format <= 16383
  {
    if format < 64 then [format] else [format % 256 / 4 + 64, format / 256 + format % 4 * 64]
  }

  function ChecksumSize(payload: nat): Option<nat> {
    if payload == 32 || payload == 33 then Some(2)
    else if payload == 1 || payload == 2 || payload == 4 || payload == 8 then Some(1)
    else None
  }

  function Encode(payload: seq<Byte>, format: int, lib: Library): (r: Result<string, Error>) {
    if format < 0 || format > 16383 || format == 46 || format == 47 then Failure(BadFormat)
    else match ChecksumSize(|payload|)
      case None => Failure(BadPayloadLength)
      case Some(k) =>
        var input := FormatBytes(format) + payload;
        var checksum := lib.hash(PREFIX + input);
        Success(lib.b58encode(input + checksum[..if |checksum| < k then |checksum| else k]))
  }

  // ----- reading -----

  /** The size of the format and the format. */
  function ReadFormat(b: seq<Byte>): (r: Result<(nat, nat), Error>)
    ensures r.Success? ==> 1 <= r.value.0 <= |b| && r.value.0 <= 2
  {
    if b == [] then Failure(NoFormat)
    else if b[0] / 64 % 2 == 0 then Success((1, b[0]))
    else if |b| == 1 then Failure(NoFormat)
    else Success((2, b[0] as int % 64 * 4 + b[1] as int / 64 + b[1] as int % 64 * 256))
  }

  /** How many bytes of checksum an address of `n` bytes ends with. */
  function ReadChecksumSize(n: nat, formatSize: nat): (k: Option<nat>)
    ensures k.Some? && formatSize <= 2 ==> k.value + formatSize <= n && k.value >= 1
  {
    if n == 3 || n == 4 || n == 6 || n == 10 then Some(1)
    else if n == 5 || n == 7 || n == 11 || n == 34 + formatSize || n == 35 + formatSize then Some(2)
    else if n == 8 || n == 12 then Some(3)
    else if n == 9 || n == 13 then Some(4)
    else if n == 14 then Some(5)
    else if n == 15 then Some(6)
    else if n == 16 then Some(7)
    else if n == 17 then Some(8)
    else None
  }

  function ReadBytes(b: seq<Byte>, valid: Option<int>, lib: Library): (r: Result<seq<Byte>, Error>) {
    var (size, format) :- ReadFormat(b);
    if format == 46 || format == 47 then Failure(ReservedFormat)
    else if valid.Some? && format != valid.value then Failure(WrongFormat)
    else match ReadChecksumSize(|b|, size)
      case None => Failure(BadLength)
      case Some(k) =>
        var n := |b| - k;
        var checksum := lib.hash(PREFIX + b[..n]);
        if checksum[..if |checksum| < k then |checksum| else k] != b[n..] then Failure(BadChecksum)
        else Success(b[size..n])
  }

  function Decode(address: string, valid: Option<int>, lib: Library): (r: Result<string, Error>) {
    if IsHex(address) then Success(address)
    else match lib.b58decode(address)
      case None => Failure(BadBase58)
      case Some(b) => (var payload :- ReadBytes(b, valid, lib); Success(Hex(payload)))
  }

  // ----- what the parts are -----

  lemma PrefixIs()
    ensures |PREFIX| == 7 && forall i :: 0 <= i < 7 ==> PREFIX[i] == "SS58PRE"[i] as int
  {
  }

  /** An address is the Base58 text of the format, the payload, and the start of the hash of a fixed prefix and both: two
      bytes for a public key, and one byte for an account index. */
  lemma EncodedIs(payload: seq<Byte>, format: int, lib: Library)
    requires Encode(payload, format, lib).Success? && GoodLibrary(lib)
    ensures 0 <= format <= 16383
    ensures var input := FormatBytes(format) + payload;
      var k := if |payload| >= 32 then 2 else 1;
      Encode(payload, format, lib).value == lib.b58encode(input + lib.hash(PREFIX + input)[..k])
  {
  }

  /** A payload is written exactly for the sizes of public keys and account indices, and formats that are not reserved. */
  lemma EncodesExactly(payload: seq<Byte>, format: int, lib: Library)
    ensures Encode(payload, format, lib).Success?
       <==> 0 <= format <= 16383 && format != 46 && format != 47 && |payload| in {1, 2, 4, 8, 32, 33}
  {
  }

  /** Formats from 64 on take two bytes, of which the first starts with the bits 01. */
  lemma FormatExamples()
    ensures FormatBytes(0) == [0] && FormatBytes(42) == [42] && FormatBytes(63) == [63]
    ensures FormatBytes(64) == [0x50, 0x00] && FormatBytes(255) == [0x7F, 0xC0] && FormatBytes(256) == [0x40, 0x01]
    ensures FormatBytes(16383) == [0x7F, 0xFF]
  {
  }

  /** For formats of one byte, the sizes of payload and checksum that are read are those of the SS58 table. */
  lemma SizesAllowed(payload: nat, k: nat)
    requires k >= 1
    ensures ReadChecksumSize(1 + payload + k, 1) == Some(k)
       <==> (payload == 1 && k == 1) || (payload == 2 && k <= 2) || (payload == 4 && k <= 4) || (payload == 8 && k <= 8)
            || ((payload == 32 || payload == 33) && k == 2)
  {
  }

  /** Text that starts like a hexadecimal number is handed back. */
  lemma HexHandedBack(s: string, valid: Option<int>, lib: Library)
    ensures Decode("0x" + s, valid, lib) == Success("0x" + s)
  {
  }

  /** Bytes that are read have a format that is not reserved and is the one asked for, and end in the checksum of what
      is before it. */
  lemma ReadSound(b: seq<Byte>, valid: Option<int>, lib: Library)
    requires GoodLibrary(lib) && ReadBytes(b, valid, lib).Success?
    ensures ReadFormat(b).Success?
    ensures var (size, format) := ReadFormat(b).value;
      && format != 46 && format != 47 && (valid.Some? ==> format == valid.value)
      && ReadChecksumSize(|b|, size).Some?
      && var n := |b| - ReadChecksumSize(|b|, size).value;
         size <= n && ReadBytes(b, valid, lib).value == b[size..n] && lib.hash(PREFIX + b[..n])[..|b| - n] == b[n..]
  {
  }

  // ----- there and back -----

  lemma FormatReads(format: nat, rest: seq<Byte>)
    requires format <= 16383
    ensures ReadFormat(FormatBytes(format) + rest) == Success((|FormatBytes(format)|, format))
    ensures |FormatBytes(format)| == if format < 64 then 1 else 2
  {
    var b := FormatBytes(format) + rest;
    if format >= 64 {
      assert b[0] == format % 256 / 4 + 64 && b[1] == format / 256 + format % 4 * 64;
      FirstByte(format % 256, b[0]);
      SecondByte(format / 256, format % 4, b[1]);
      ThreeParts(format);
    }
  }

  lemma FirstByte(low: nat, b: nat)
    requires low < 256 && b == low / 4 + 64
    ensures b / 64 == 1 && b % 64 == low / 4
  {
  }

  lemma SecondByte(high: nat, last: nat, b: nat)
    requires high < 64 && last < 4 && b == high + last * 64
    ensures b / 64 == last && b % 64 == high
  {
  }

  lemma ThreeParts(format: nat)
    ensures format == format % 256 / 4 * 4 + format % 4 + format / 256 * 256
  {
    var h, l := format / 256, format % 256;
    DivModSum(format, 256);
    DivModSum(l, 4);
    DivModUnique(format, 4, 64 * h + l / 4, l % 4);
  }

  /** The sizes that the reader takes for the payloads that the writer allows. */
  predicate SizesAgree(format: int, payload: nat) {
    format < 64 || payload == 1 || payload == 32 || payload == 33
  }

  lemma SizesRead(format: nat, payload: nat)
    requires format <= 16383 && ChecksumSize(payload).Some?
    ensures var size, k := |FormatBytes(format)|, ChecksumSize(payload).value;
      if SizesAgree(format, payload) then ReadChecksumSize(size + payload + k, size) == Some(k)
      else ReadChecksumSize(size + payload + k, size) == Some(k + 1)
  {
    FormatReads(format, []);
  }

  /** What is encoded, before Base58. */
  function Plain(payload: seq<Byte>, format: nat, lib: Library): seq<Byte>
    requires format <= 16383 && ChecksumSize(|payload|).Some?
  {
    var input := FormatBytes(format) + payload;
    var checksum := lib.hash(PREFIX + input);
    input + checksum[..if |checksum| < ChecksumSize(|payload|).value then |checksum| else ChecksumSize(|payload|).value]
  }

  lemma PlainReads(payload: seq<Byte>, format: nat, valid: Option<int>, lib: Library)
    requires GoodLibrary(lib) && format <= 16383 && format != 46 && format != 47 && ChecksumSize(|payload|).Some?
    requires SizesAgree(format, |payload|)
    ensures ReadBytes(Plain(payload, format, lib), valid, lib)
         == if valid.Some? && valid.value != format then Failure(WrongFormat) else Success(payload)
  {
    var f := FormatBytes(format);
    var input := f + payload;
    var k := ChecksumSize(|payload|).value;
    var checksum := lib.hash(PREFIX + input)[..k];
    var b := Plain(payload, format, lib);
    assert b == input + checksum;
    assert b == f + (payload + checksum);
    FormatReads(format, payload + checksum);
    SizesRead(format, |payload|);
    assert b[..|b| - k] == input && b[|b| - k..] == checksum;
    assert b[|f|..|b| - k] == payload;
  }

  lemma PlainLost(payload: seq<Byte>, format: nat, valid: Option<int>, lib: Library)
    requires GoodLibrary(lib) && format <= 16383 && ChecksumSize(|payload|).Some?
    requires !SizesAgree(format, |payload|)
    ensures var r := ReadBytes(Plain(payload, format, lib), valid, lib); r.Success? ==> |r.value| == |payload| - 1
  {
    var f := FormatBytes(format);
    var k := ChecksumSize(|payload|).value;
    var checksum := lib.hash(PREFIX + f + payload)[..k];
    assert PREFIX + f + payload == PREFIX + (f + payload);
    var b := Plain(payload, format, lib);
    assert b == f + (payload + checksum);
    FormatReads(format, payload + checksum);
    SizesRead(format, |payload|);
  }

  /** The payload is read back exactly for one-byte formats and for payloads of 1, 32 or 33 bytes. In all other cases
      the reader takes one byte of the payload for checksum. The format can be asked for, and no other is accepted. */
  lemma AddressThereAndBack(payload: seq<Byte>, format: int, lib: Library)
    requires GoodLibrary(lib) && Encode(payload, format, lib).Success?
    ensures Decode(Encode(payload, format, lib).value, None, lib) == Success(Hex(payload)) <==> SizesAgree(format, |payload|)
    ensures SizesAgree(format, |payload|) ==>
              Decode(Encode(payload, format, lib).value, Some(format), lib) == Success(Hex(payload))
    ensures forall other :: SizesAgree(format, |payload|) && other != format ==>
              Decode(Encode(payload, format, lib).value, Some(other), lib) == Failure(WrongFormat)
  {
    EncodedPlain(payload, format, None, lib);
    if SizesAgree(format, |payload|) {
      PlainReads(payload, format, None, lib);
      AskedFor(payload, format, format, lib);
      forall other | other != format ensures Decode(Encode(payload, format, lib).value, Some(other), lib) == Failure(WrongFormat) {
        AskedFor(payload, format, other, lib);
      }
    } else {
      PlainLost(payload, format, None, lib);
      ShorterHex(payload, format, lib);
    }
  }

  /** Reading an encoded address reads its bytes. */
  lemma EncodedPlain(payload: seq<Byte>, format: int, valid: Option<int>, lib: Library)
    requires GoodLibrary(lib) && Encode(payload, format, lib).Success?
    ensures 0 <= format <= 16383 && format != 46 && format != 47 && ChecksumSize(|payload|).Some?
    ensures Decode(Encode(payload, format, lib).value, valid, lib)
         == match ReadBytes(Plain(payload, format, lib), valid, lib)
            case Failure(e) => Failure(e)
            case Success(b) => Success(Hex(b))
  {
  }

  lemma AskedFor(payload: seq<Byte>, format: int, other: int, lib: Library)
    requires GoodLibrary(lib) && Encode(payload, format, lib).Success? && SizesAgree(format, |payload|)
    ensures Decode(Encode(payload, format, lib).value, Some(other), lib)
         == if other == format then Success(Hex(payload)) else Failure(WrongFormat)
  {
    EncodedPlain(payload, format, Some(other), lib);
    PlainReads(payload, format, Some(other), lib);
  }

  lemma ShorterHex(payload: seq<Byte>, format: nat, lib: Library)
    requires format <= 16383 && ChecksumSize(|payload|).Some?
    requires var r := ReadBytes(Plain(payload, format, lib), None, lib); r.Success? ==> |r.value| == |payload| - 1
    ensures var r := ReadBytes(Plain(payload, format, lib), None, lib); r.Success? ==> Hex(r.value) != Hex(payload)
  {
  }

  /** A two-byte format with two bytes of payload: it is written, and does not come back. */
  lemma ShortPayloadLost(lib: Library)
    requires GoodLibrary(lib)
    ensures Encode([0, 0], 64, lib).Success?
    ensures Decode(Encode([0, 0], 64, lib).value, None, lib) != Success(Hex([0, 0]))
  {
    AddressThereAndBack([0, 0], 64, lib);
  }
}
