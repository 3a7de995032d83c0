/**
 What a Lightning invoice says after it has been written and read.
 */
module LnRoundTrip {
  import opened Wrappers
  import opened Positional
  import opened Bech32Checksum
  import opened Bech32Codec
  import opened SegwitAddress
  import ConvertBits
  import LnAmount
  import LnFields
  import Utf8
  import opened LnInvoice

  // ----- what each tag reads back as -----

  /** The canonical form of a segwit fallback address: lower case, with the checksum for its version. */
  function Canonical(addr: string, net: Net): (r: string)
    requires DecodeSegwit(net.segwitHrp, Some(addr)).Some?
  {
    SegwitRewrite(net.segwitHrp, addr);
    var w := DecodeSegwit(net.segwitHrp, Some(addr)).value;
    EncodeSegwit(net.segwitHrp, w.version, w.program).value
  }

  /** A description whose bytes are not cut inside a character. */
  predicate Whole(tag: Tag) {
    tag.Description? ==> Utf8.Boundary(Utf8.Encode(tag.text), MOST_BYTES)
  }

  predicate AllWhole(tags: seq<Tag>) {
    forall i :: 0 <= i < |tags| ==> Whole(tags[i])
  }

  /** A description reads back exactly when it is not cut inside a character: all of it if it fits, or else a start
      of it. */
  lemma DescriptionReads(text: string)
    ensures Utf8.Decode(CutText(text)).Some? <==> Whole(Description(text))
    ensures Whole(Description(text)) ==> Utf8.Decode(CutText(text)).value <= text
    ensures |Utf8.Encode(text)| <= MOST_BYTES ==> Utf8.Decode(CutText(text)) == Some(text)
  {
    var all := Utf8.Encode(text);
    if |all| <= MOST_BYTES {
      Utf8.DecodeEncode(text);
    } else {
      Utf8.CutDecodes(text, MOST_BYTES);
    }
  }

  /** What the reader shows of a description. */
  function Shown(text: string): (t: string)
    requires Whole(Description(text))
    ensures t <= text && (|Utf8.Encode(text)| <= MOST_BYTES ==> t == text)
  {
    DescriptionReads(text);
    Utf8.Decode(CutText(text)).value
  }

  /** A fallback address is read back as the same text exactly when it is in lower case and has the checksum for its
      version. */
  lemma CanonicalSame(addr: string, net: Net)
    requires DecodeSegwit(net.segwitHrp, Some(addr)).Some?
    ensures Canonical(addr, net) == addr
       <==> Lower(addr) == addr
            && Decode(addr, false).value.encoding == EncodingFor(DecodeSegwit(net.segwitHrp, Some(addr)).value.version)
  {
    SegwitRewrite(net.segwitHrp, addr);
    CanonicalLower(addr, net);
  }

  /** What is written is in lower case. */
  lemma CanonicalLower(addr: string, net: Net)
    requires DecodeSegwit(net.segwitHrp, Some(addr)).Some?
    ensures Lower(Canonical(addr, net)) == Canonical(addr, net)
  {
    SegwitRewrite(net.segwitHrp, addr);
    var w := DecodeSegwit(net.segwitHrp, Some(addr)).value;
    WrittenLower(net.segwitHrp, w.version, w.program);
  }

  function Readback(p: Parsed, tag: Tag, net: Net, crypto: Crypto): (q: Parsed)
    requires Payload(tag, net, crypto).Success? && Whole(tag)
  {
    match tag
    case Route(hops) => if hops == [] then p else AddTag(p, GotRoute(hops))
    case Trampoline(hop) => AddTag(p, GotTrampoline([hop]))
    case Fallback(None) => p
    case Fallback(Some(addr)) => AddTag(p, GotFallback(Canonical(addr, net)))
    case Description(text) => AddTag(p, GotDescription(Shown(text)))
    case Expiry(n) => AddTag(p, GotExpiry(n))
    case DescriptionHash(text) => AddTag(p, GotHash(crypto.sha256(Utf8.Encode(text))))
    case Node(pubkey) => p.(node := Some(pubkey))
    case FinalCltv(n) => AddTag(p, GotFinalCltv(n))
    case Features(n) => if n == 0 then p else AddTag(p, GotFeatures(n))
    case Other(_) => p
  }

  /** The sizes that BOLT #11 gives the parts of a field. */
  predicate WellFormed(tag: Tag) {
    match tag
    case Route(hops) => forall i :: 0 <= i < |hops| ==> |hops[i].pubkey| == 33 && |hops[i].scid| == 8
    case Trampoline(hop) => |hop.pubkey| == 33
    case Node(pubkey) => |pubkey| == 33
    case _ => true
  }

  // ----- numbers -----

  lemma BytesBE(n: nat, size: nat)
    requires ToBytesBE(n, size).Success?
    ensures FromBytesBE(ToBytesBE(n, size).value) == n
  {
    ValueOfDigits(n, size, 256);
  }

  // ----- routes -----

  lemma HopReads(hop: Hop, rest: seq<Byte>)
    requires HopBytes(hop).Success? && |hop.pubkey| == 33 && |hop.scid| == 8
    ensures |HopBytes(hop).value| == HOP_SIZE
    ensures ReadHop(HopBytes(hop).value + rest) == hop
  {
    var base, rate, cltv := Fees(hop.feebase, hop.feerate, hop.cltv);
    HopSlices(hop.pubkey, hop.scid, base, rate, cltv, rest, HopBytes(hop).value + rest);
  }

  lemma Fees(feebase: nat, feerate: nat, delta: nat) returns (base: seq<Byte>, rate: seq<Byte>, cltv: seq<Byte>)
    requires ToBytesBE(feebase, 4).Success? && ToBytesBE(feerate, 4).Success? && ToBytesBE(delta, 2).Success?
    ensures ToBytesBE(feebase, 4) == Success(base) && |base| == 4 && FromBytesBE(base) == feebase
    ensures ToBytesBE(feerate, 4) == Success(rate) && |rate| == 4 && FromBytesBE(rate) == feerate
    ensures ToBytesBE(delta, 2) == Success(cltv) && |cltv| == 2 && FromBytesBE(cltv) == delta
  {
    base, rate, cltv := ToBytesBE(feebase, 4).value, ToBytesBE(feerate, 4).value, ToBytesBE(delta, 2).value;
    BytesBE(feebase, 4);
    BytesBE(feerate, 4);
    BytesBE(delta, 2);
  }

  lemma HopSlices(key: seq<Byte>, scid: seq<Byte>, base: seq<Byte>, rate: seq<Byte>, cltv: seq<Byte>, rest: seq<Byte>,
                  b: seq<Byte>)
    requires |key| == 33 && |scid| == 8 && |base| == 4 && |rate| == 4 && |cltv| == 2
    requires b == key + scid + base + rate + cltv + rest
    ensures |b| == 51 + |rest|
    ensures b[..33] == key && b[33..41] == scid && b[41..45] == base && b[45..49] == rate && b[49..51] == cltv
  {
  }

  lemma {:induction false} RouteReads(hops: seq<Hop>)
    requires RouteBytes(hops).Success? && WellFormed(Route(hops))
    ensures ReadRoute(RouteBytes(hops).value) == hops
  {
    if hops == [] {
    } else {
      var first, more := RouteParts(hops);
      HopReads(hops[0], more);
      RouteReads(hops[1..]);
      RouteUnfolds(first, more, hops[0]);
      assert hops == [hops[0]] + hops[1..];
    }
  }

  lemma RouteParts(hops: seq<Hop>) returns (first: seq<Byte>, more: seq<Byte>)
    requires hops != [] && RouteBytes(hops).Success?
    ensures HopBytes(hops[0]) == Success(first) && RouteBytes(hops[1..]) == Success(more)
    ensures RouteBytes(hops) == Success(first + more)
  {
    first, more := HopBytes(hops[0]).value, RouteBytes(hops[1..]).value;
  }

  lemma RouteUnfolds(first: seq<Byte>, more: seq<Byte>, hop: Hop)
    requires |first| == HOP_SIZE && ReadHop(first + more) == hop
    ensures ReadRoute(first + more) == [hop] + ReadRoute(more)
  {
    assert (first + more)[HOP_SIZE..] == more;
  }

  lemma TrampolineReads(hop: TrampolineHop)
    requires TrampolineBytes(hop).Success? && |hop.pubkey| == 33
    ensures ReadTrampoline(TrampolineBytes(hop).value) == [hop]
  {
    var base, rate, cltv := Fees(hop.feebase, hop.feerate, hop.cltv);
    TrampolineSlices(hop.pubkey, base, rate, cltv, TrampolineBytes(hop).value);
  }

  lemma TrampolineSlices(key: seq<Byte>, base: seq<Byte>, rate: seq<Byte>, cltv: seq<Byte>, b: seq<Byte>)
    requires |key| == 33 && |base| == 4 && |rate| == 4 && |cltv| == 2 && b == key + base + rate + cltv
    ensures |b| == 43 && b[..33] == key && b[33..37] == base && b[37..41] == rate && b[41..43] == cltv
  {
  }

  // ----- one field -----

  lemma SymbolCounts(bytes: seq<Byte>)
    ensures |bytes| == 32 ==> |ToSymbols(bytes)| == 52
    ensures |bytes| == 33 ==> |ToSymbols(bytes)| == 53
    ensures |bytes| == 65 ==> |ToSymbols(bytes)| == 104
  {
  }

  lemma WitnessReads(p: Parsed, version: Symbol, program: seq<Byte>, net: Net)
    requires version <= 16
    ensures var payload := [version] + ToSymbols(program);
      ReadFallback(p, payload, net) == Success(AddFallback(p, payload, EncodeSegwit(net.segwitHrp, version, program)))
  {
    WitnessPayload(version, program);
    PayloadFallback(p, [version] + ToSymbols(program), program, net);
  }

  lemma PayloadFallback(p: Parsed, payload: seq<Symbol>, program: seq<Byte>, net: Net)
    requires payload != [] && payload[0] <= 16 && ReadBytes(payload[1..]) == Success(program)
    ensures ReadFallback(p, payload, net)
         == Success(AddFallback(p, payload, EncodeSegwit(net.segwitHrp, payload[0], program)))
  {
  }

  lemma WitnessPayload(version: Symbol, program: seq<Byte>)
    ensures var payload := [version] + ToSymbols(program);
      payload != [] && payload[0] == version && ReadBytes(payload[1..]) == Success(program)
  {
    var payload := [version] + ToSymbols(program);
    assert payload[1..] == ToSymbols(program);
    BytesThereAndBack(program);
  }

  lemma FallbackReads(p: Parsed, addr: string, net: Net)
    requires DecodeSegwit(net.segwitHrp, Some(addr)).Some?
    ensures FallbackPayload(addr, net).Success?
    ensures ReadFallback(p, FallbackPayload(addr, net).value, net) == Success(AddTag(p, GotFallback(Canonical(addr, net))))
  {
    var w := DecodeSegwit(net.segwitHrp, Some(addr)).value;
    SegwitRewrite(net.segwitHrp, addr);
    WitnessReads(p, w.version, w.program, net);
  }

  lemma RouteFieldReads(p: Parsed, hops: seq<Hop>, net: Net, crypto: Crypto)
    requires WellFormed(Route(hops)) && RouteBytes(hops).Success?
    ensures ReadField(p, 'r', ToSymbols(RouteBytes(hops).value), net) == Success(Readback(p, Route(hops), net, crypto))
  {
    RouteReads(hops);
    BytesThereAndBack(RouteBytes(hops).value);
  }

  lemma TrampolineFieldReads(p: Parsed, hop: TrampolineHop, net: Net, crypto: Crypto)
    requires WellFormed(Trampoline(hop)) && TrampolineBytes(hop).Success?
    ensures ReadField(p, 't', ToSymbols(TrampolineBytes(hop).value), net) == Success(Readback(p, Trampoline(hop), net, crypto))
  {
    TrampolineReads(hop);
    BytesThereAndBack(TrampolineBytes(hop).value);
  }

  function Decoded(bytes: seq<Byte>): Result<string, Error> {
    match Utf8.Decode(bytes)
    case None => Failure(BadText)
    case Some(text) => Success(text)
  }

  lemma BytesFieldReads(p: Parsed, bytes: seq<Byte>, net: Net)
    ensures ReadDescription(ToSymbols(bytes)) == Decoded(bytes)
    ensures |bytes| == 32 ==> ReadField(p, 'h', ToSymbols(bytes), net) == Success(AddTag(p, GotHash(bytes)))
    ensures |bytes| == 32 ==> ReadField(p, 'p', ToSymbols(bytes), net) == Success(p.(paymentHash := Some(bytes)))
    ensures |bytes| == 32 ==> ReadField(p, 's', ToSymbols(bytes), net) == Success(p.(secret := Some(bytes)))
    ensures |bytes| == 33 ==> ReadField(p, 'n', ToSymbols(bytes), net) == Success(p.(node := Some(bytes)))
  {
    BytesThereAndBack(bytes);
    SymbolCounts(bytes);
    PayloadReads(p, ToSymbols(bytes), bytes, net);
  }

  lemma PayloadReads(p: Parsed, payload: seq<Symbol>, bytes: seq<Byte>, net: Net)
    requires ReadBytes(payload) == Success(bytes)
    ensures ReadDescription(payload) == Decoded(bytes)
    ensures |payload| == 52 ==> ReadField(p, 'h', payload, net) == Success(AddTag(p, GotHash(bytes)))
    ensures |payload| == 52 ==> ReadField(p, 'p', payload, net) == Success(p.(paymentHash := Some(bytes)))
    ensures |payload| == 52 ==> ReadField(p, 's', payload, net) == Success(p.(secret := Some(bytes)))
    ensures |payload| == 53 ==> ReadField(p, 'n', payload, net) == Success(p.(node := Some(bytes)))
  {
  }

  lemma NumberFieldReads(p: Parsed, n: nat, net: Net)
    ensures ReadField(p, 'x', LnFields.Groups(n), net) == Success(AddTag(p, GotExpiry(n)))
    ensures ReadField(p, 'c', LnFields.Groups(n), net) == Success(AddTag(p, GotFinalCltv(n)))
    ensures ReadField(p, '9', LnFields.Groups(n), net) == Success(AddTag(p, GotFeatures(n)))
  {
    LnFields.GroupsThereAndBack(n);
  }

  /** What reading a field that was written should give. */
  function ExpectedField(p: Parsed, tag: Tag, net: Net, crypto: Crypto): Result<Parsed, Error>
    requires Payload(tag, net, crypto).Success?
  {
    if Whole(tag) then Success(Readback(p, tag, net, crypto)) else Failure(BadText)
  }

  /** A field that is written is read as what it was written from, unless it is a description that is cut inside a
      character: then the reader raises. */
  lemma FieldReads(p: Parsed, tag: Tag, net: Net, crypto: Crypto)
    requires GoodCrypto(crypto) && WellFormed(tag)
    requires Payload(tag, net, crypto).Success? && Payload(tag, net, crypto).value.Some?
    ensures ReadField(p, Letter(tag), Payload(tag, net, crypto).value.value, net) == ExpectedField(p, tag, net, crypto)
  {
    match tag
    case Route(_) => RoutingTagReads(p, tag, net, crypto);
    case Trampoline(_) => RoutingTagReads(p, tag, net, crypto);
    case Fallback(_) => RoutingTagReads(p, tag, net, crypto);
    case Description(_) => BytesTagReads(p, tag, net, crypto);
    case DescriptionHash(_) => BytesTagReads(p, tag, net, crypto);
    case Node(_) => BytesTagReads(p, tag, net, crypto);
    case Expiry(_) => NumberTagReads(p, tag, net, crypto);
    case FinalCltv(_) => NumberTagReads(p, tag, net, crypto);
    case Features(_) => NumberTagReads(p, tag, net, crypto);
  }

  lemma RoutingTagReads(p: Parsed, tag: Tag, net: Net, crypto: Crypto)
    requires WellFormed(tag) && (tag.Route? || tag.Trampoline? || tag.Fallback?)
    requires Payload(tag, net, crypto).Success? && Payload(tag, net, crypto).value.Some?
    ensures ReadField(p, Letter(tag), Payload(tag, net, crypto).value.value, net) == ExpectedField(p, tag, net, crypto)
  {
    match tag
    case Route(hops) => RouteFieldReads(p, hops, net, crypto);
    case Trampoline(hop) => TrampolineFieldReads(p, hop, net, crypto);
    case Fallback(addr) => FallbackReads(p, addr.value, net);
  }

  lemma NumberTagReads(p: Parsed, tag: Tag, net: Net, crypto: Crypto)
    requires tag.Expiry? || tag.FinalCltv? || tag.Features?
    ensures var r := Payload(tag, net, crypto);
      r.Success? && (r.value.Some? ==> ReadField(p, Letter(tag), r.value.value, net) == ExpectedField(p, tag, net, crypto))
  {
    match tag
    case Expiry(n) => NumberFieldReads(p, n, net);
    case FinalCltv(n) => NumberFieldReads(p, n, net);
    case Features(n) => NumberFieldReads(p, n, net);
  }

  lemma BytesTagReads(p: Parsed, tag: Tag, net: Net, crypto: Crypto)
    requires GoodCrypto(crypto) && WellFormed(tag) && (tag.Description? || tag.DescriptionHash? || tag.Node?)
    ensures Payload(tag, net, crypto).Success? && Payload(tag, net, crypto).value.Some?
    ensures ReadField(p, Letter(tag), Payload(tag, net, crypto).value.value, net) == ExpectedField(p, tag, net, crypto)
  {
    match tag
    case Description(text) => BytesFieldReads(p, CutText(text), net); DescriptionReads(text);
    case DescriptionHash(text) => BytesFieldReads(p, crypto.sha256(Utf8.Encode(text)), net);
    case Node(pubkey) => BytesFieldReads(p, pubkey, net);
  }

  // ----- all fields -----

  predicate Known(c: char) {
    c in "psrtfdxhnc9"
  }

  lemma LetterRight(c: char)
    requires Known(c)
    ensures CHARSET[LetterIndex(c)] == c
  {
  }

  lemma LetterKnown(tag: Tag, net: Net, crypto: Crypto)
    requires Payload(tag, net, crypto).Success?
    ensures Known(Letter(tag))
  {
    var known := "psrtfdxhnc9";
    assert known[2] == 'r' && known[3] == 't' && known[4] == 'f' && known[5] == 'd' && known[6] == 'x';
    assert known[7] == 'h' && known[8] == 'n' && known[9] == 'c' && known[10] == '9';
  }

  /** A written field is the first that the reader sees. */
  lemma FirstField(p: Parsed, q: Result<Parsed, Error>, c: char, payload: seq<Symbol>, rest: seq<Symbol>, net: Net)
    requires Known(c) && WriteField(c, payload).Success?
    requires ReadField(p, c, payload, net) == q
    ensures ReadFields(p, WriteField(c, payload).value + rest, net)
         == if q.Failure? then q else ReadFields(q.value, rest, net)
  {
    LetterRight(c);
    LnFields.PullTagged5(LetterIndex(c), payload, rest);
  }

  function ReadbackAll(p: Parsed, tags: seq<Tag>, net: Net, crypto: Crypto): (q: Parsed)
    requires (forall i :: 0 <= i < |tags| ==> Payload(tags[i], net, crypto).Success?) && AllWhole(tags)
    decreases |tags|
  {
    if tags == [] then p else ReadbackAll(Readback(p, tags[0], net, crypto), tags[1..], net, crypto)
  }

  lemma {:induction false} WrittenPayloads(tags: seq<Tag>, seen: set<char>, net: Net, crypto: Crypto)
    requires WriteTags(tags, seen, net, crypto).Success?
    ensures forall i :: 0 <= i < |tags| ==> Payload(tags[i], net, crypto).Success?
  {
    if tags == [] {
    } else {
      var first := WriteTag(tags[0], seen, net, crypto).value;
      WrittenPayloads(tags[1..], first.seen, net, crypto);
      forall i | 0 <= i < |tags| ensures Payload(tags[i], net, crypto).Success? {
        if i > 0 {
          assert tags[i] == tags[1..][i - 1];
        }
      }
    }
  }

  lemma OneTagReads(p: Parsed, tag: Tag, seen: set<char>, rest: seq<Symbol>, net: Net, crypto: Crypto)
    requires GoodCrypto(crypto) && WellFormed(tag) && WriteTag(tag, seen, net, crypto).Success?
    ensures Payload(tag, net, crypto).Success?
    ensures var q := ExpectedField(p, tag, net, crypto);
      ReadFields(p, WriteTag(tag, seen, net, crypto).value.data5 + rest, net)
      == if q.Failure? then q else ReadFields(q.value, rest, net)
  {
    var payload := Payload(tag, net, crypto).value;
    if payload.None? {
      assert [] + rest == rest;
    } else {
      FieldReads(p, tag, net, crypto);
      LetterKnown(tag, net, crypto);
      FirstField(p, ExpectedField(p, tag, net, crypto), Letter(tag), payload.value, rest, net);
    }
  }

  /** What reading all fields that were written should give. */
  function ExpectedFields(p: Parsed, tags: seq<Tag>, net: Net, crypto: Crypto): Result<Parsed, Error>
    requires forall i :: 0 <= i < |tags| ==> Payload(tags[i], net, crypto).Success?
  {
    if AllWhole(tags) then Success(ReadbackAll(p, tags, net, crypto)) else Failure(BadText)
  }

  lemma ExpectedFirst(p: Parsed, tags: seq<Tag>, net: Net, crypto: Crypto)
    requires tags != [] && forall i :: 0 <= i < |tags| ==> Payload(tags[i], net, crypto).Success?
    ensures var q := ExpectedField(p, tags[0], net, crypto);
      ExpectedFields(p, tags, net, crypto) == if q.Failure? then q else ExpectedFields(q.value, tags[1..], net, crypto)
  {
    AllWholeFirst(tags);
  }

  lemma AllWholeFirst(tags: seq<Tag>)
    requires tags != []
    ensures AllWhole(tags) <==> Whole(tags[0]) && AllWhole(tags[1..])
  {
    assert tags == [tags[0]] + tags[1..];
  }

  /** Every written list of tags is read in full, in order, if no description is cut inside a character; otherwise the
      reader raises. */
  lemma {:induction false} TagsRead(p: Parsed, tags: seq<Tag>, seen: set<char>, net: Net, crypto: Crypto)
    requires GoodCrypto(crypto) && WriteTags(tags, seen, net, crypto).Success?
    requires forall i :: 0 <= i < |tags| ==> WellFormed(tags[i])
    ensures forall i :: 0 <= i < |tags| ==> Payload(tags[i], net, crypto).Success?
    ensures ReadFields(p, WriteTags(tags, seen, net, crypto).value.data5, net) == ExpectedFields(p, tags, net, crypto)
    decreases |tags|
  {
    WrittenPayloads(tags, seen, net, crypto);
    if tags == [] {
    } else {
      var first, more := SplitTags(tags, seen, net, crypto);
      OneTagReads(p, tags[0], seen, more, net, crypto);
      ExpectedFirst(p, tags, net, crypto);
      if Whole(tags[0]) {
        TagsRead(Readback(p, tags[0], net, crypto), tags[1..], first.seen, net, crypto);
      }
    }
  }

  lemma SplitTags(tags: seq<Tag>, seen: set<char>, net: Net, crypto: Crypto) returns (first: Written, more: seq<Symbol>)
    requires tags != [] && WriteTags(tags, seen, net, crypto).Success?
    ensures WriteTag(tags[0], seen, net, crypto) == Success(first)
    ensures WriteTags(tags[1..], first.seen, net, crypto).Success?
    ensures more == WriteTags(tags[1..], first.seen, net, crypto).value.data5
    ensures WriteTags(tags, seen, net, crypto).value.data5 == first.data5 + more
  {
    first := WriteTag(tags[0], seen, net, crypto).value;
    more := WriteTags(tags[1..], first.seen, net, crypto).value.data5;
  }

  // ----- the human-readable part -----

  /** A network prefix in lower case. */
  predicate GoodNet(net: Net) {
    forall i :: 0 <= i < |net.bolt11Hrp| ==>
      33 as char <= net.bolt11Hrp[i] <= 126 as char && !('A' <= net.bolt11Hrp[i] <= 'Z')
  }

  predicate GoodAmount(inv: Invoice) {
    inv.amount.Some? ==> SettableAmount(inv.amount.value)
  }

  /** An amount of zero is not written. */
  function AmountRead(inv: Invoice): Option<real> {
    if inv.amount == Some(0.0) then None else inv.amount
  }

  lemma HrpParts(inv: Invoice, net: Net, amount: string)
    requires Hrp(inv, net) == "ln" + net.bolt11Hrp + amount
    ensures StartsWith(Hrp(inv, net), "ln") && StartsWith(Hrp(inv, net), "ln" + net.bolt11Hrp)
    ensures Hrp(inv, net)[2 + |net.bolt11Hrp|..] == amount
  {
  }

  lemma HrpGood(net: Net, amount: string)
    requires GoodNet(net)
    requires forall i :: 0 <= i < |amount| ==> LnAmount.PlainChar(amount[i])
    ensures GoodHrp("ln" + net.bolt11Hrp + amount)
  {
    var s := "ln" + net.bolt11Hrp + amount;
    forall i | 0 <= i < |s| ensures 33 as char <= s[i] <= 126 as char && !('A' <= s[i] <= 'Z') {
      if i >= 2 + |net.bolt11Hrp| {
        assert s[i] == amount[i - 2 - |net.bolt11Hrp|];
      } else if i >= 2 {
        assert s[i] == net.bolt11Hrp[i - 2];
      }
    }
  }

  lemma AmountReads(v: real)
    requires SettableAmount(v)
    ensures ReadAmount(LnAmount.Shorten(v)) == Success(Some(v))
  {
    LnAmount.ShortenPlain(v);
    WholePico(v);
    LnAmount.AmountThereAndBack(v);
  }

  lemma WholePico(v: real)
    requires SettableAmount(v)
    ensures LnAmount.InPico(v).Floor as real == LnAmount.InPico(v)
  {
    var k := (v * 100000000000.0).Floor;
    assert LnAmount.InPico(v) == (10 * k) as real;
  }

  lemma HrpReads(inv: Invoice, net: Net)
    requires GoodNet(net) && GoodAmount(inv)
    ensures GoodHrp(Hrp(inv, net))
    ensures StartsWith(Hrp(inv, net), "ln") && StartsWith(Hrp(inv, net), "ln" + net.bolt11Hrp)
    ensures ReadAmount(Hrp(inv, net)[2 + |net.bolt11Hrp|..]) == Success(AmountRead(inv))
  {
    if inv.amount.Some? && inv.amount.value != 0.0 {
      var text := LnAmount.Shorten(inv.amount.value);
      HrpParts(inv, net, text);
      LnAmount.ShortenPlain(inv.amount.value);
      HrpGood(net, text);
      AmountReads(inv.amount.value);
    } else {
      HrpParts(inv, net, "");
      HrpGood(net, "");
    }
  }

  // ----- the data part -----

  predicate GoodFields(inv: Invoice) {
    && (inv.paymentHash.Some? ==> |inv.paymentHash.value| == 32)
    && (inv.secret.Some? ==> |inv.secret.value| == 32)
    && forall i :: 0 <= i < |inv.tags| ==> WellFormed(inv.tags[i])
  }

  /** All fields of an invoice, as the reader reports them. */
  function FieldsRead(inv: Invoice, net: Net, crypto: Crypto): Parsed
    requires (forall i :: 0 <= i < |inv.tags| ==> Payload(inv.tags[i], net, crypto).Success?) && AllWhole(inv.tags)
  {
    ReadbackAll(Parsed(inv.paymentHash, inv.secret, None, [], []), inv.tags, net, crypto)
  }

  lemma DataParts(inv: Invoice, net: Net, crypto: Crypto)
    returns (date: seq<Symbol>, hash: seq<Symbol>, secret: seq<Symbol>, seen: set<char>, fields: Written)
    requires WriteData(inv, net, crypto).Success?
    ensures LnFields.IntToData5(inv.date, Some(35)) == Success(date)
    ensures inv.paymentHash.Some? && WriteField('p', ToSymbols(inv.paymentHash.value)) == Success(hash)
    ensures if inv.secret.None? then secret == [] else WriteField('s', ToSymbols(inv.secret.value)) == Success(secret)
    ensures WriteTags(inv.tags, seen, net, crypto) == Success(fields)
    ensures WriteData(inv, net, crypto).value == date + hash + secret + fields.data5
  {
    date := LnFields.IntToData5(inv.date, Some(35)).value;
    hash := WriteField('p', ToSymbols(inv.paymentHash.value)).value;
    secret := if inv.secret.None? then [] else WriteField('s', ToSymbols(inv.secret.value)).value;
    seen := WriteHead(inv).value.seen;
    fields := WriteTags(inv.tags, seen, net, crypto).value;
    assert date + hash + [] == date + hash;
  }

  lemma HeadReads(inv: Invoice, hash: seq<Symbol>, secret: seq<Symbol>, rest: seq<Symbol>, net: Net)
    requires inv.paymentHash.Some? && |inv.paymentHash.value| == 32 && (inv.secret.Some? ==> |inv.secret.value| == 32)
    requires WriteField('p', ToSymbols(inv.paymentHash.value)) == Success(hash)
    requires if inv.secret.None? then secret == [] else WriteField('s', ToSymbols(inv.secret.value)) == Success(secret)
    ensures ReadFields(NOTHING, hash + (secret + rest), net)
         == ReadFields(Parsed(inv.paymentHash, inv.secret, None, [], []), rest, net)
  {
    var p := NOTHING.(paymentHash := inv.paymentHash);
    assert "psrtfdxhnc9"[0] == 'p' && "psrtfdxhnc9"[1] == 's';
    BytesFieldReads(NOTHING, inv.paymentHash.value, net);
    FirstField(NOTHING, Success(p), 'p', ToSymbols(inv.paymentHash.value), secret + rest, net);
    if inv.secret.None? {
      assert secret + rest == rest;
    } else {
      BytesFieldReads(p, inv.secret.value, net);
      FirstField(p, Success(p.(secret := inv.secret)), 's', ToSymbols(inv.secret.value), rest, net);
    }
  }

  lemma DataReads(inv: Invoice, net: Net, crypto: Crypto)
    requires GoodCrypto(crypto) && GoodFields(inv) && inv.date >= Pow(2, 30)
    requires WriteData(inv, net, crypto).Success?
    ensures forall i :: 0 <= i < |inv.tags| ==> Payload(inv.tags[i], net, crypto).Success?
    ensures var data5 := WriteData(inv, net, crypto).value;
      && |data5| >= 7
      && LnFields.IntFromData5(data5[..7]) == inv.date
      && ReadFields(NOTHING, data5[7..], net)
         == if AllWhole(inv.tags) then Success(FieldsRead(inv, net, crypto)) else Failure(BadText)
  {
    var date, hash, secret, seen, fields := DataParts(inv, net, crypto);
    var data5 := WriteData(inv, net, crypto).value;
    LnFields.DateGroups(inv.date);
    LnFields.GroupsThereAndBack(inv.date);
    SplitAtSeven(date, hash, secret, fields.data5);
    HeadReads(inv, hash, secret, fields.data5, net);
    TagsRead(Parsed(inv.paymentHash, inv.secret, None, [], []), inv.tags, seen, net, crypto);
  }

  lemma SplitAtSeven<T>(date: seq<T>, hash: seq<T>, secret: seq<T>, rest: seq<T>)
    requires |date| == 7
    ensures (date + hash + secret + rest)[..7] == date
    ensures (date + hash + secret + rest)[7..] == hash + (secret + rest)
  {
  }

  // ----- the signer -----

  /** An `n` field names the signer. */
  predicate GoodNodes(tags: seq<Tag>, key: seq<Byte>) {
    forall i :: 0 <= i < |tags| ==> tags[i].Node? ==> tags[i].pubkey == key
  }

  lemma {:induction false} NodeRead(p: Parsed, tags: seq<Tag>, key: seq<Byte>, net: Net, crypto: Crypto)
    requires (forall i :: 0 <= i < |tags| ==> Payload(tags[i], net, crypto).Success?) && AllWhole(tags)
    requires GoodNodes(tags, key) && (p.node == None || p.node == Some(key))
    ensures ReadbackAll(p, tags, net, crypto).node == None || ReadbackAll(p, tags, net, crypto).node == Some(key)
    decreases |tags|
  {
    if tags == [] {
    } else {
      var q := Readback(p, tags[0], net, crypto);
      NodeKept(p, tags[0], key, net, crypto);
      NodeRead(q, tags[1..], key, net, crypto);
    }
  }

  lemma NodeKept(p: Parsed, tag: Tag, key: seq<Byte>, net: Net, crypto: Crypto)
    requires Payload(tag, net, crypto).Success? && Whole(tag) && (tag.Node? ==> tag.pubkey == key)
    requires p.node == None || p.node == Some(key)
    ensures var q := Readback(p, tag, net, crypto); q.node == None || q.node == Some(key)
  {
  }

  lemma SignerFound(p: Parsed, privkey: seq<Byte>, hash: seq<Byte>, crypto: Crypto)
    requires GoodCrypto(crypto)
    requires p.node == None || p.node == Some(crypto.publicKey(privkey))
    ensures SignerKey(p, SignatureBytes(crypto.sign(privkey, hash)), hash, crypto) == Success(crypto.publicKey(privkey))
  {
    var sig := crypto.sign(privkey, hash);
    var s := SignatureBytes(sig);
    assert s[..64] == sig[1..] && s[64] == sig[0] - 27;
  }

  // ----- the whole invoice -----

  /** The bech32 layer hands the reader the same prefix, data and signature. */
  lemma LayersUndone(hrp: string, data5: seq<Symbol>, sig: seq<Byte>, net: Net, crypto: Crypto)
    requires |sig| == 65 && GoodHrp(hrp) && StartsWith(hrp, "ln") && StartsWith(hrp, "ln" + net.bolt11Hrp)
    ensures LnDecode(Encode(BECH32, hrp, data5 + ToSymbols(sig)), net, crypto) == ReadBody(hrp, data5, sig, net, crypto)
  {
    var data := data5 + ToSymbols(sig);
    DecodeEncode(BECH32, hrp, data, true);
    SymbolCounts(sig);
    assert data[..|data| - 104] == data5 && data[|data| - 104..] == ToSymbols(sig);
    BytesThereAndBack(sig);
  }

  ghost function Signed(inv: Invoice, net: Net, privkey: seq<Byte>, crypto: Crypto): (sig: seq<Byte>)
    requires GoodCrypto(crypto) && WriteData(inv, net, crypto).Success?
    ensures |sig| == 65
  {
    SignatureBytes(crypto.sign(privkey, crypto.sha256(Message(Hrp(inv, net), WriteData(inv, net, crypto).value))))
  }

  /** An invoice that is written is read with the same date, amount, payment hash, secret and tags, with the
      signature of the same message, and with the signer's key; but if its description is cut inside a character, the
      reader raises. */
  lemma InvoiceThereAndBack(inv: Invoice, net: Net, privkey: seq<Byte>, crypto: Crypto)
    requires GoodCrypto(crypto) && GoodNet(net) && GoodAmount(inv) && GoodFields(inv)
    requires GoodNodes(inv.tags, crypto.publicKey(privkey))
    requires inv.date >= Pow(2, 30)
    requires LnEncode(inv, net, privkey, crypto).Success?
    ensures forall i :: 0 <= i < |inv.tags| ==> Payload(inv.tags[i], net, crypto).Success?
    ensures LnDecode(LnEncode(inv, net, privkey, crypto).value, net, crypto)
         == if AllWhole(inv.tags)
            then Success(ReadInvoice(inv.date, AmountRead(inv), FieldsRead(inv, net, crypto),
                                     Signed(inv, net, privkey, crypto), crypto.publicKey(privkey)))
            else Failure(BadText)
  {
    var hrp, data5 := Hrp(inv, net), WriteData(inv, net, crypto).value;
    var hash := crypto.sha256(Message(hrp, data5));
    HrpReads(inv, net);
    DataReads(inv, net, crypto);
    LayersUndone(hrp, data5, Signed(inv, net, privkey, crypto), net, crypto);
    if AllWhole(inv.tags) {
      NodeRead(Parsed(inv.paymentHash, inv.secret, None, [], []), inv.tags, crypto.publicKey(privkey), net, crypto);
      SignerFound(FieldsRead(inv, net, crypto), privkey, hash, crypto);
    }
  }

  // ----- early dates -----

  /** Groups that run into the symbol 1 stand for another number. */
  lemma OtherNumber(date: nat, more: seq<Symbol>)
    requires more != [] && more[0] == 1
    ensures Value(LnFields.Groups(date) + more, 32) != date
  {
    var groups := LnFields.Groups(date);
    ValueConcat(groups, more, 32);
    LnFields.GroupsThereAndBack(date);
    if date == 0 {
      ValueStart(more);
    } else {
      Grows(date, |more|);
    }
  }

  lemma Grows(date: nat, n: nat)
    requires date > 0 && n > 0
    ensures date * Pow(32, n) > date
  {
    PowMonotone(32, 1, n);
    MulMonotone(32, Pow(32, n), date);
  }

  lemma ValueStart(s: seq<Symbol>)
    requires s != [] && s[0] == 1
    ensures Value(s, 32) > 0
  {
    if Value(s, 32) == 0 {
      ZeroDigits(s, 32);
    }
  }

  /** With a date before 2^30 the reader takes the next field for a part of the date. */
  lemma EarlyDateLost(inv: Invoice, net: Net, privkey: seq<Byte>, crypto: Crypto)
    requires GoodCrypto(crypto) && GoodNet(net) && GoodAmount(inv)
    requires inv.date < Pow(2, 30)
    requires LnEncode(inv, net, privkey, crypto).Success?
    ensures var r := LnDecode(LnEncode(inv, net, privkey, crypto).value, net, crypto);
      r.Success? ==> r.value.date != inv.date
  {
    var hrp, data5 := Hrp(inv, net), WriteData(inv, net, crypto).value;
    HrpReads(inv, net);
    LayersUndone(hrp, data5, Signed(inv, net, privkey, crypto), net, crypto);
    BodyDate(hrp, data5, Signed(inv, net, privkey, crypto), net, crypto);
    EarlyData(inv, net, crypto);
  }

  function DateSlice(data5: seq<Symbol>): seq<Symbol> {
    data5[..if |data5| < 7 then |data5| else 7]
  }

  lemma BodyDate(hrp: string, data5: seq<Symbol>, sig: seq<Byte>, net: Net, crypto: Crypto)
    requires |sig| == 65 && StartsWith(hrp, "ln" + net.bolt11Hrp)
    ensures var r := ReadBody(hrp, data5, sig, net, crypto); r.Success? ==> r.value.date == Value(DateSlice(data5), 32)
  {
  }

  lemma EarlyData(inv: Invoice, net: Net, crypto: Crypto)
    requires inv.date < Pow(2, 30) && WriteData(inv, net, crypto).Success?
    ensures Value(DateSlice(WriteData(inv, net, crypto).value), 32) != inv.date
  {
    var date, hash, secret, seen, fields := DataParts(inv, net, crypto);
    LnFields.DateGroups(inv.date);
    EarlySlice(inv.date, date, hash, secret, fields.data5);
  }

  lemma EarlySlice(n: nat, date: seq<Symbol>, hash: seq<Symbol>, secret: seq<Symbol>, rest: seq<Symbol>)
    requires date == LnFields.Groups(n) && |date| < 7 && hash != [] && hash[0] == 1
    ensures Value(DateSlice(date + hash + secret + rest), 32) != n
  {
    var data5 := date + hash + secret + rest;
    var k := if |data5| < 7 then |data5| else 7;
    var more := data5[|date|..k];
    assert data5[..k] == date + more;
    assert more[0] == hash[0];
    OtherNumber(n, more);
  }

  /** The date is read back exactly when it takes seven groups and the description is not cut inside a character. */
  lemma DateReadsBack(inv: Invoice, net: Net, privkey: seq<Byte>, crypto: Crypto)
    requires GoodCrypto(crypto) && GoodNet(net) && GoodAmount(inv) && GoodFields(inv)
    requires GoodNodes(inv.tags, crypto.publicKey(privkey))
    requires LnEncode(inv, net, privkey, crypto).Success?
    ensures var r := LnDecode(LnEncode(inv, net, privkey, crypto).value, net, crypto);
      (r.Success? && r.value.date == inv.date) <==> inv.date >= Pow(2, 30) && AllWhole(inv.tags)
  {
    if inv.date >= Pow(2, 30) {
      InvoiceThereAndBack(inv, net, privkey, crypto);
    } else {
      EarlyDateLost(inv, net, privkey, crypto);
    }
  }

  // ----- two invoices that do not read back -----

  /** A small invoice: a date, a payment hash and a description. */
  function Small(date: nat, text: string): Invoice {
    Invoice(date, None, Some(seq(32, i => 0)), None, [Description(text)])
  }

  lemma SmallFields(text: string)
    ensures |ToSymbols(seq(32, i => 0))| < 1024 && |ToSymbols(CutText(text))| < 1024
  {
  }

  lemma SmallWritten(date: nat, text: string, net: Net, privkey: seq<Byte>, crypto: Crypto)
    requires GoodCrypto(crypto) && date < Pow(2, 35)
    ensures LnEncode(Small(date, text), net, privkey, crypto).Success?
  {
    var inv := Small(date, text);
    SmallFields(text);
    var head := WriteHead(inv).value;
    assert inv.tags[1..] == [];
    assert WriteTag(inv.tags[0], head.seen, net, crypto).Success?;
    assert WriteTags(inv.tags[1..], head.seen + {'d'}, net, crypto).Success?;
  }

  /** 640 bytes: the last character has two, and the second of them is cut off. */
  const CUT_TEXT: string := seq(638, i => 'a') + "\U{00E9}"

  lemma CutText639()
    ensures !Whole(Description(CUT_TEXT))
  {
    var front, last := seq(638, i => 'a'), "\U{00E9}";
    Utf8.EncodeAscii(front, last);
    assert last[1..] == "";
    assert Utf8.Encode(last) == [0xC3, 0xA9];
    assert Utf8.Encode(CUT_TEXT)[639] == Utf8.Encode(CUT_TEXT)[638..][1];
  }

  /** The writer writes it and the reader raises. */
  lemma CutDescriptionRaises(inv: Invoice, net: Net, privkey: seq<Byte>, crypto: Crypto)
    requires GoodCrypto(crypto) && GoodNet(net)
    requires inv == Small(Pow(2, 30), CUT_TEXT)
    ensures LnEncode(inv, net, privkey, crypto).Success?
    ensures LnDecode(LnEncode(inv, net, privkey, crypto).value, net, crypto) == Failure(BadText)
  {
    CutText639();
    SmallRaises(CUT_TEXT, inv, net, privkey, crypto);
  }

  lemma SmallRaises(text: string, inv: Invoice, net: Net, privkey: seq<Byte>, crypto: Crypto)
    requires GoodCrypto(crypto) && GoodNet(net) && !Whole(Description(text))
    requires inv == Small(Pow(2, 30), text)
    ensures LnEncode(inv, net, privkey, crypto).Success?
    ensures LnDecode(LnEncode(inv, net, privkey, crypto).value, net, crypto) == Failure(BadText)
  {
    DateBounds();
    SmallWritten(inv.date, text, net, privkey, crypto);
    SmallGood(text, inv, crypto.publicKey(privkey));
    InvoiceThereAndBack(inv, net, privkey, crypto);
  }

  lemma SmallGood(text: string, inv: Invoice, key: seq<Byte>)
    requires !Whole(Description(text)) && inv == Small(inv.date, text)
    ensures GoodAmount(inv) && GoodFields(inv) && GoodNodes(inv.tags, key) && !AllWhole(inv.tags)
  {
    assert !Whole(inv.tags[0]);
  }

  /** An invoice of the first second of 1970 that does not read back with its date. */
  lemma EpochLost(net: Net, privkey: seq<Byte>, crypto: Crypto)
    requires GoodCrypto(crypto) && GoodNet(net)
    ensures var inv := Small(0, "");
      && LnEncode(inv, net, privkey, crypto).Success?
      && var r := LnDecode(LnEncode(inv, net, privkey, crypto).value, net, crypto); r.Success? ==> r.value.date != 0
  {
    DateBounds();
    SmallWritten(0, "", net, privkey, crypto);
    EarlyDateLost(Small(0, ""), net, privkey, crypto);
  }

  lemma DateBounds()
    ensures 0 < Pow(2, 30) < Pow(2, 35)
  {
    PowPositive(2, 30);
    PowAdd(2, 5, 30);
    assert Pow(2, 5) == 32;
  }
}
