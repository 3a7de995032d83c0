/**
 Lightning invoices (BOLT #11): what the writer writes and what the reader reads.

 SHA-256 and the signature scheme are not modelled: they are the functions of a `Crypto` value.
 */
module LnInvoice {
  import opened Wrappers
  import opened Positional
  import opened Bech32Checksum
  import opened Bech32Codec
  import opened SegwitAddress
  import ConvertBits
  import LnAmount
  import LnFields
  import Utf8

  // ----- data -----

  datatype Net = Net(segwitHrp: string, bolt11Hrp: string)

  datatype Hop = Hop(pubkey: seq<Byte>, scid: seq<Byte>, feebase: nat, feerate: nat, cltv: nat)

  datatype TrampolineHop = TrampolineHop(pubkey: seq<Byte>, feebase: nat, feerate: nat, cltv: nat)

  /** The tags that a writer is given, by their letters: r t f d x h n c 9, and any other. */
  datatype Tag =
    | Route(hops: seq<Hop>)
    | Trampoline(hop: TrampolineHop)
    | Fallback(addr: Option<string>)
    | Description(text: string)
    | Expiry(seconds: nat)
    | DescriptionHash(text: string)
    | Node(pubkey: seq<Byte>)
    | FinalCltv(delta: nat)
    | Features(bits: nat)
    | Other(letter: char)

  datatype Invoice = Invoice(date: nat, amount: Option<real>, paymentHash: Option<seq<Byte>>, secret: Option<seq<Byte>>,
                             tags: seq<Tag>)

  /** The tags that a reader reports. */
  datatype ReadTag =
    | GotRoute(hops: seq<Hop>)
    | GotTrampoline(trampolines: seq<TrampolineHop>)
    | GotFallback(addr: string)
    | GotDescription(text: string)
    | GotExpiry(seconds: nat)
    | GotHash(hash: seq<Byte>)
    | GotFinalCltv(delta: nat)
    | GotFeatures(bits: nat)

  /** What the fields of an invoice say. */
  datatype Parsed = Parsed(paymentHash: Option<seq<Byte>>, secret: Option<seq<Byte>>, node: Option<seq<Byte>>,
                           tags: seq<ReadTag>, unknown: seq<LnFields.Field>)

  datatype ReadInvoice = ReadInvoice(date: nat, amount: Option<real>, fields: Parsed, signature: seq<Byte>, key: seq<Byte>)

  datatype Crypto = Crypto(
    sha256: seq<nat> -> seq<Byte>,
    sign: (seq<Byte>, seq<Byte>) -> seq<Byte>,
    recover: (seq<Byte>, Byte, seq<Byte>) -> Option<seq<Byte>>,
    verify: (seq<Byte>, seq<Byte>, seq<Byte>) -> bool,
    publicKey: seq<Byte> -> seq<Byte>)

  datatype Error =
    | NoPaymentHash | DuplicateTag | UnknownTag | NumberOverflow | FieldTooLong | LegacyFallback
    | BothDescriptions | NoDescription | DateTooBig
    | BadChecksum | BadEncoding | WrongPrefix | WrongNet | TooShort | BadAmount | TruncatedField
    | BadPayload | BadText | BadSignature

  // ----- numbers in fixed-size bytes -----

  function ToBytesBE(n: nat, size: nat): (r: Result<seq<Byte>, Error>)
    ensures r.Success? ==> |r.value| == size
  {
    if n >= Pow(256, size) then Failure(NumberOverflow) else Success(Digits(n, size, 256))
  }

  function FromBytesBE(bytes: seq<Byte>): nat {
    Value(bytes, 256)
  }

  // ----- the writer -----

  function HopBytes(hop: Hop): (r: Result<seq<Byte>, Error>) {
    var feebase :- ToBytesBE(hop.feebase, 4);
    var feerate :- ToBytesBE(hop.feerate, 4);
    var cltv :- ToBytesBE(hop.cltv, 2);
    Success(hop.pubkey + hop.scid + feebase + feerate + cltv)
  }

  function RouteBytes(hops: seq<Hop>): (r: Result<seq<Byte>, Error>) {
    if hops == [] then Success([])
    else
      var first :- HopBytes(hops[0]);
      var more :- RouteBytes(hops[1..]);
      Success(first + more)
  }

  function TrampolineBytes(hop: TrampolineHop): (r: Result<seq<Byte>, Error>) {
    var feebase :- ToBytesBE(hop.feebase, 4);
    var feerate :- ToBytesBE(hop.feerate, 4);
    var cltv :- ToBytesBE(hop.cltv, 2);
    Success(hop.pubkey + feebase + feerate + cltv)
  }

  function Letter(tag: Tag): char {
    match tag
    case Route(_) => 'r'
    case Trampoline(_) => 't'
    case Fallback(_) => 'f'
    case Description(_) => 'd'
    case Expiry(_) => 'x'
    case DescriptionHash(_) => 'h'
    case Node(_) => 'n'
    case FinalCltv(_) => 'c'
    case Features(_) => '9'
    case Other(c) => c
  }

  function FallbackPayload(addr: string, net: Net): (r: Result<seq<Symbol>, Error>) {
    match DecodeSegwit(net.segwitHrp, Some(addr))
    case None => Failure(LegacyFallback)
    case Some(w) =>
      SegwitRewrite(net.segwitHrp, addr);
      var version: seq<Symbol> := [w.version];
      Success(version + ToSymbols(w.program))
  }

  const MOST_BYTES := 639

  /** The bytes of a description, cut where a field would get too long, even inside a character. */
  function CutText(text: string): (b: seq<Byte>)
    ensures |b| <= MOST_BYTES
  {
    var all := Utf8.Encode(text);
    if |all| <= MOST_BYTES then all else all[..MOST_BYTES]
  }

  /** The payload of a tag's field, or nothing where the writer leaves the field out. */
  function Payload(tag: Tag, net: Net, crypto: Crypto): (r: Result<Option<seq<Symbol>>, Error>) {
    match tag
    case Route(hops) => (var bytes :- RouteBytes(hops); Success(Some(ToSymbols(bytes))))
    case Trampoline(hop) => (var bytes :- TrampolineBytes(hop); Success(Some(ToSymbols(bytes))))
    case Fallback(None) => Success(None)
    case Fallback(Some(addr)) => (var payload :- FallbackPayload(addr, net); Success(Some(payload)))
    case Description(text) => Success(Some(ToSymbols(CutText(text))))
    case Expiry(n) => Success(Some(LnFields.Groups(n)))
    case DescriptionHash(text) => Success(Some(ToSymbols(crypto.sha256(Utf8.Encode(text)))))
    case Node(pubkey) => Success(Some(ToSymbols(pubkey)))
    case FinalCltv(n) => Success(Some(LnFields.Groups(n)))
    case Features(n) => Success(if n == 0 then None else Some(LnFields.Groups(n)))
    case Other(_) => Failure(UnknownTag)
  }

  /** The bech32 index of a field's letter. */
  function LetterIndex(c: char): (i: Symbol) {
    if c == 'p' then 1 else if c == 's' then 16 else if c == 'r' then 3 else if c == 't' then 11
    else if c == 'f' then 9 else if c == 'd' then 13 else if c == 'x' then 6 else if c == 'h' then 23
    else if c == 'n' then 19 else if c == 'c' then 24 else 5
  }

  function WriteField(c: char, payload: seq<Symbol>): (r: Result<seq<Symbol>, Error>) {
    match LnFields.Tagged5(LetterIndex(c), payload)
    case Failure(_) => Failure(FieldTooLong)
    case Success(data5) => Success(data5)
  }

  const ONCE: set<char> := {'d', 'h', 'n', 'x', 'p', 's', '9'}

  datatype Written = Written(data5: seq<Symbol>, seen: set<char>)

  function WriteTag(tag: Tag, seen: set<char>, net: Net, crypto: Crypto): (r: Result<Written, Error>) {
    if Letter(tag) in ONCE && Letter(tag) in seen then Failure(DuplicateTag)
    else
      var payload :- Payload(tag, net, crypto);
      match payload
      case None => Success(Written([], if tag.Features? then seen else seen + {Letter(tag)}))
      case Some(p) => (var data5 :- WriteField(Letter(tag), p); Success(Written(data5, seen + {Letter(tag)})))
  }

  function WriteTags(tags: seq<Tag>, seen: set<char>, net: Net, crypto: Crypto): (r: Result<Written, Error>) {
    if tags == [] then Success(Written([], seen))
    else
      var first :- WriteTag(tags[0], seen, net, crypto);
      var more :- WriteTags(tags[1..], first.seen, net, crypto);
      Success(Written(first.data5 + more.data5, more.seen))
  }

  function Hrp(inv: Invoice, net: Net): string {
    "ln" + net.bolt11Hrp +
    if inv.amount.Some? && inv.amount.value != 0.0 then LnAmount.Shorten(inv.amount.value) else ""
  }

  function Ascii(s: string): seq<nat> {
    seq(|s|, i requires 0 <= i < |s| => s[i] as int)
  }

  /** What is signed: the human-readable part and the data, padded to bytes. */
  function Message(hrp: string, data5: seq<Symbol>): seq<nat> {
    Widths();
    ConvertBits.PadValue(data5, 5, 8);
    Ascii(hrp) + ConvertBits.Regroup(data5, 5, 8, true).value
  }

  /** The timestamp, the payment hash and the secret. */
  function WriteHead(inv: Invoice): (r: Result<Written, Error>) {
    match LnFields.IntToData5(inv.date, Some(35))
    case Failure(_) => Failure(DateTooBig)
    case Success(date) =>
      if inv.paymentHash.None? then Failure(NoPaymentHash)
      else
        var hash :- WriteField('p', ToSymbols(inv.paymentHash.value));
        if inv.secret.None? then Success(Written(date + hash, {'p'}))
        else
          var secret :- WriteField('s', ToSymbols(inv.secret.value));
          Success(Written(date + hash + secret, {'p', 's'}))
  }

  /** Everything before the signature. */
  function WriteData(inv: Invoice, net: Net, crypto: Crypto): (r: Result<seq<Symbol>, Error>) {
    var head :- WriteHead(inv);
    var fields :- WriteTags(inv.tags, head.seen, net, crypto);
    if 'd' in fields.seen && 'h' in fields.seen then Failure(BothDescriptions)
    else if 'd' !in fields.seen && 'h' !in fields.seen then Failure(NoDescription)
    else Success(head.data5 + fields.data5)
  }

  /** The signature as the writer appends it: the sixty-four bytes, then the recovery flag. */
  function SignatureBytes(sig: seq<Byte>): (s: seq<Byte>)
    requires |sig| == 65 && 27 <= sig[0] <= 30
    ensures |s| == 65
  {
    sig[1..] + [sig[0] - 27]
  }

  /** Hashes have 32 bytes; a signature has a header and 64 bytes, recovers to the signer's key and is valid for it. */
  ghost predicate GoodCrypto(crypto: Crypto) {
    && (forall m :: |crypto.sha256(m)| == 32)
    && (forall k, m :: |crypto.sign(k, m)| == 65 && 27 <= crypto.sign(k, m)[0] <= 30)
    && (forall k, m ::
          crypto.recover(crypto.sign(k, m)[1..], crypto.sign(k, m)[0] - 27, m) == Some(crypto.publicKey(k)))
    && (forall k, m :: crypto.verify(crypto.publicKey(k), crypto.sign(k, m)[1..], m))
  }

  ghost function LnEncode(inv: Invoice, net: Net, privkey: seq<Byte>, crypto: Crypto): (r: Result<string, Error>)
    requires GoodCrypto(crypto)
  {
    var data5 :- WriteData(inv, net, crypto);
    var sig := crypto.sign(privkey, crypto.sha256(Message(Hrp(inv, net), data5)));
    Success(Encode(BECH32, Hrp(inv, net), data5 + ToSymbols(SignatureBytes(sig))))
  }

  // ----- the reader -----

  const HOP_SIZE := 51
  const TRAMPOLINE_SIZE := 43

  function ReadHop(b: seq<Byte>): Hop
    requires |b| >= HOP_SIZE
  {
    Hop(b[..33], b[33..41], FromBytesBE(b[41..45]), FromBytesBE(b[45..49]), FromBytesBE(b[49..51]))
  }

  function ReadRoute(b: seq<Byte>): seq<Hop> {
    if |b| < HOP_SIZE then [] else [ReadHop(b)] + ReadRoute(b[HOP_SIZE..])
  }

  function ReadTrampoline(b: seq<Byte>): seq<TrampolineHop> {
    if |b| < TRAMPOLINE_SIZE then []
    else [TrampolineHop(b[..33], FromBytesBE(b[33..37]), FromBytesBE(b[37..41]), FromBytesBE(b[41..43]))]
  }

  function ReadBytes(payload: seq<Symbol>): (r: Result<seq<Byte>, Error>) {
    match ToBytes(payload)
    case None => Failure(BadPayload)
    case Some(bytes) => Success(bytes)
  }

  function AddTag(p: Parsed, tag: ReadTag): Parsed {
    p.(tags := p.tags + [tag])
  }

  function AddUnknown(p: Parsed, c: char, payload: seq<Symbol>): Parsed {
    p.(unknown := p.unknown + [LnFields.Field(c, payload)])
  }

  function ReadFallback(p: Parsed, payload: seq<Symbol>, net: Net): (r: Result<Parsed, Error>) {
    if payload == [] then Failure(BadPayload)
    else
      var program :- ReadBytes(payload[1..]);
      if payload[0] == 17 || payload[0] == 18 then Failure(LegacyFallback)
      else if payload[0] > 18 then Success(AddUnknown(p, 'f', payload))
      else Success(AddFallback(p, payload, EncodeSegwit(net.segwitHrp, payload[0], program)))
  }

  function AddFallback(p: Parsed, payload: seq<Symbol>, addr: Option<string>): Parsed {
    match addr
    case None => AddUnknown(p, 'f', payload)
    case Some(a) => AddTag(p, GotFallback(a))
  }

  function ReadDescription(payload: seq<Symbol>): (r: Result<string, Error>) {
    var b :- ReadBytes(payload);
    match Utf8.Decode(b)
    case None => Failure(BadText)
    case Some(text) => Success(text)
  }

  function ReadField(p: Parsed, c: char, payload: seq<Symbol>, net: Net): (r: Result<Parsed, Error>) {
    if c == 'r' then
      match ToBytes(payload)
      case None => Success(p)
      case Some(b) => Success(if ReadRoute(b) == [] then p else AddTag(p, GotRoute(ReadRoute(b))))
    else if c == 't' then
      match ToBytes(payload)
      case None => Success(p)
      case Some(b) => Success(if b == [] then p else AddTag(p, GotTrampoline(ReadTrampoline(b))))
    else if c == 'f' then ReadFallback(p, payload, net)
    else if c == 'd' then var text :- ReadDescription(payload); Success(AddTag(p, GotDescription(text)))
    else if c == 'x' then Success(AddTag(p, GotExpiry(LnFields.IntFromData5(payload))))
    else if c == 'c' then Success(AddTag(p, GotFinalCltv(LnFields.IntFromData5(payload))))
    else if c == '9' then Success(AddTag(p, GotFeatures(LnFields.IntFromData5(payload))))
    else if c == 'h' && |payload| == 52 then var b :- ReadBytes(payload); Success(AddTag(p, GotHash(b)))
    else if c == 'p' && |payload| == 52 then var b :- ReadBytes(payload); Success(p.(paymentHash := Some(b)))
    else if c == 's' && |payload| == 52 then var b :- ReadBytes(payload); Success(p.(secret := Some(b)))
    else if c == 'n' && |payload| == 53 then var b :- ReadBytes(payload); Success(p.(node := Some(b)))
    else Success(AddUnknown(p, c, payload))
  }

  function ReadFields(p: Parsed, data5: seq<Symbol>, net: Net): (r: Result<Parsed, Error>)
    decreases |data5|
  {
    if data5 == [] then Success(p)
    else match LnFields.Pull(data5)
      case Failure(_) => Failure(TruncatedField)
      case Success(f) =>
        var q :- ReadField(p, CHARSET[f.tag], f.payload, net);
        ReadFields(q, f.rest, net)
  }

  /** What the amount setter allows: at most 21 million bitcoin, in steps of a millisatoshi. */
  predicate SettableAmount(v: real) {
    0.0 <= v <= 21000000.0 && (v * 100000000000.0).Floor as real == v * 100000000000.0
  }

  function ReadAmount(text: string): (r: Result<Option<real>, Error>) {
    if text == "" then Success(None)
    else match LnAmount.Unshorten(text)
      case Failure(_) => Failure(BadAmount)
      case Success(v) => if SettableAmount(v) then Success(Some(v)) else Failure(BadAmount)
  }

  predicate StartsWith(s: string, prefix: string) {
    |s| >= |prefix| && s[..|prefix|] == prefix
  }

  const NOTHING: Parsed := Parsed(None, None, None, [], [])

  /** The key of the signer: the `n` field's, if the signature is valid for it, or the recovered one. */
  function SignerKey(p: Parsed, sig: seq<Byte>, hash: seq<Byte>, crypto: Crypto): (r: Result<seq<Byte>, Error>)
    requires |sig| == 65
  {
    if p.node.Some? && p.node.value != [] then
      if crypto.verify(p.node.value, sig[..64], hash) then Success(p.node.value) else Failure(BadSignature)
    else match crypto.recover(sig[..64], sig[64], hash)
      case None => Failure(BadSignature)
      case Some(key) => Success(key)
  }

  function ReadBody(hrp: string, data5: seq<Symbol>, sig: seq<Byte>, net: Net, crypto: Crypto): (r: Result<ReadInvoice, Error>)
    requires |sig| == 65 && StartsWith(hrp, "ln" + net.bolt11Hrp)
  {
    var amount :- ReadAmount(hrp[2 + |net.bolt11Hrp|..]);
    var n := if |data5| < 7 then |data5| else 7;
    var fields :- ReadFields(NOTHING, data5[n..], net);
    var key :- SignerKey(fields, sig, crypto.sha256(Message(hrp, data5)), crypto);
    Success(ReadInvoice(LnFields.IntFromData5(data5[..n]), amount, fields, sig, key))
  }

  function LnDecode(text: string, net: Net, crypto: Crypto): (r: Result<ReadInvoice, Error>) {
    match Decode(text, true)
    case None => Failure(BadChecksum)
    case Some(d) =>
      if d.encoding != BECH32 then Failure(BadEncoding)
      else if !StartsWith(d.hrp, "ln") then Failure(WrongPrefix)
      else if !StartsWith(d.hrp, "ln" + net.bolt11Hrp) then Failure(WrongNet)
      else if |d.data| < 104 then Failure(TooShort)
      else
        var n := |d.data| - 104;
        var sig :- ReadBytes(d.data[n..]);
        SignatureSize(d.data[n..]);
        ReadBody(d.hrp, d.data[..n], sig, net, crypto)
  }

  lemma SignatureSize(symbols: seq<Symbol>)
    requires |symbols| == 104
    ensures ToBytes(symbols).Some? && |ToBytes(symbols).value| == 65
  {
    Widths();
    assert Pow(2, 0) == 1;
  }
}
