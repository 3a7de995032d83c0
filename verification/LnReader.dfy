/**
 What every accepted Lightning invoice says, whoever wrote it, and how each part stands in the text. The layouts are
 those of BOLT #11.
 */
module LnReader {
  import opened Wrappers
  import opened Positional
  import opened Bech32Checksum
  import opened Bech32Codec
  import opened SegwitAddress
  import ConvertBits
  import LnAmount
  import LnFields
  import opened LnInvoice
  import opened LnRoundTrip

  // ----- the signer -----

  /** `key` is the signer of `hash`: the key of the `n` field, for which the signature is valid, or without such a field
      the key that is recovered from the signature. */
  predicate Signs(key: seq<Byte>, p: Parsed, sig: seq<Byte>, hash: seq<Byte>, crypto: Crypto)
    requires |sig| == 65
  {
    if p.node.Some? && p.node.value != [] then key == p.node.value && crypto.verify(key, sig[..64], hash)
    else crypto.recover(sig[..64], sig[64], hash) == Some(key)
  }

  lemma SignerChecked(key: seq<Byte>, p: Parsed, sig: seq<Byte>, hash: seq<Byte>, crypto: Crypto)
    requires |sig| == 65
    ensures SignerKey(p, sig, hash, crypto) == Success(key) <==> Signs(key, p, sig, hash, crypto)
    ensures SignerKey(p, sig, hash, crypto).Failure? ==> SignerKey(p, sig, hash, crypto) == Failure(BadSignature)
  {
  }

  // ----- every accepted text -----

  /** The text is the Bech32 form of the prefix, an amount, the data and a signature of 65 bytes. */
  ghost predicate Holds(text: string, net: Net, amount: string, data5: seq<Symbol>, sig: seq<Byte>) {
    && |sig| == 65
    && Decode(text, true) == Some(Decoded(BECH32, "ln" + net.bolt11Hrp + amount, data5 + ToSymbols(sig)))
  }

  /** The amount is left out, or is a number with a multiplier in the range that can be set. */
  ghost predicate SaysAmount(text: string, amount: Option<real>) {
    if text == "" then amount == None
    else amount.Some? && LnAmount.Unshorten(text) == Success(amount.value) && SettableAmount(amount.value)
  }

  lemma AmountSays(text: string, amount: Option<real>)
    ensures ReadAmount(text) == Success(amount) <==> SaysAmount(text, amount)
  {
  }

  function DatePart(data5: seq<Symbol>): nat {
    if |data5| < 7 then |data5| else 7
  }

  /** For every text: it is accepted with the result `inv` exactly when it holds an amount, a date, fields and a signature
      that read as in `inv`, and the key in `inv` signs the message. */
  lemma AcceptedParts(text: string, net: Net, crypto: Crypto) returns (amount: string, data5: seq<Symbol>)
    requires LnDecode(text, net, crypto).Success?
    ensures var inv := LnDecode(text, net, crypto).value;
      && Holds(text, net, amount, data5, inv.signature)
      && SaysAmount(amount, inv.amount)
      && inv.date == Value(data5[..DatePart(data5)], 32)
      && ReadFields(NOTHING, data5[DatePart(data5)..], net) == Success(inv.fields)
      && Signs(inv.key, inv.fields, inv.signature, crypto.sha256(Message("ln" + net.bolt11Hrp + amount, data5)), crypto)
  {
    var inv := LnDecode(text, net, crypto).value;
    var d := Decode(text, true).value;
    var n := |d.data| - 104;
    amount, data5 := d.hrp[2 + |net.bolt11Hrp|..], d.data[..n];
    var sig := SignaturePart(d.data, n);
    PrefixSplit(d.hrp, net);
    BodyParts(d.hrp, data5, sig, net, crypto);
  }

  lemma SignaturePart(data: seq<Symbol>, n: nat) returns (sig: seq<Byte>)
    requires n + 104 == |data|
    ensures |sig| == 65 && ToBytes(data[n..]) == Some(sig) && data == data[..n] + ToSymbols(sig)
  {
    SignatureSize(data[n..]);
    sig := ToBytes(data[n..]).value;
    SymbolsThereAndBack(data[n..]);
    assert data == data[..n] + data[n..];
  }

  lemma PrefixSplit(hrp: string, net: Net)
    requires StartsWith(hrp, "ln" + net.bolt11Hrp)
    ensures hrp == "ln" + net.bolt11Hrp + hrp[2 + |net.bolt11Hrp|..]
  {
  }

  lemma BodyParts(hrp: string, data5: seq<Symbol>, sig: seq<Byte>, net: Net, crypto: Crypto)
    requires |sig| == 65 && StartsWith(hrp, "ln" + net.bolt11Hrp) && ReadBody(hrp, data5, sig, net, crypto).Success?
    ensures var inv := ReadBody(hrp, data5, sig, net, crypto).value;
      && inv.signature == sig && SaysAmount(hrp[2 + |net.bolt11Hrp|..], inv.amount)
      && inv.date == Value(data5[..DatePart(data5)], 32)
      && ReadFields(NOTHING, data5[DatePart(data5)..], net) == Success(inv.fields)
      && Signs(inv.key, inv.fields, sig, crypto.sha256(Message(hrp, data5)), crypto)
  {
    var inv := ReadBody(hrp, data5, sig, net, crypto).value;
    AmountSays(hrp[2 + |net.bolt11Hrp|..], inv.amount);
    SignerChecked(inv.key, inv.fields, sig, crypto.sha256(Message(hrp, data5)), crypto);
  }

  /** And every text with such parts is accepted, unless nobody signs the message: then the signature is bad. */
  lemma PartsAccepted(text: string, net: Net, crypto: Crypto, amount: string, data5: seq<Symbol>, inv: ReadInvoice)
    requires Holds(text, net, amount, data5, inv.signature)
    requires SaysAmount(amount, inv.amount) && inv.date == Value(data5[..DatePart(data5)], 32)
    requires ReadFields(NOTHING, data5[DatePart(data5)..], net) == Success(inv.fields)
    ensures var hash := crypto.sha256(Message("ln" + net.bolt11Hrp + amount, data5));
      && (Signs(inv.key, inv.fields, inv.signature, hash, crypto) ==> LnDecode(text, net, crypto) == Success(inv))
      && ((forall key :: !Signs(key, inv.fields, inv.signature, hash, crypto))
          ==> LnDecode(text, net, crypto) == Failure(BadSignature))
  {
    var hrp := "ln" + net.bolt11Hrp + amount;
    PartsRead(text, net, crypto, amount, data5, inv.signature, hrp);
    AmountSays(amount, inv.amount);
    var hash := crypto.sha256(Message(hrp, data5));
    var key := SignerKey(inv.fields, inv.signature, hash, crypto);
    SignerChecked(if key.Success? then key.value else inv.key, inv.fields, inv.signature, hash, crypto);
    SignerChecked(inv.key, inv.fields, inv.signature, hash, crypto);
  }

  lemma PartsRead(text: string, net: Net, crypto: Crypto, amount: string, data5: seq<Symbol>, sig: seq<Byte>, hrp: string)
    requires Holds(text, net, amount, data5, sig) && hrp == "ln" + net.bolt11Hrp + amount
    ensures StartsWith(hrp, "ln" + net.bolt11Hrp) && hrp[2 + |net.bolt11Hrp|..] == amount
    ensures LnDecode(text, net, crypto) == ReadBody(hrp, data5, sig, net, crypto)
  {
    var data := data5 + ToSymbols(sig);
    SymbolCounts(sig);
    assert data[..|data| - 104] == data5 && data[|data| - 104..] == ToSymbols(sig);
    BytesThereAndBack(sig);
    assert StartsWith(hrp, "ln");
  }

  /** An `n` field for which the signature is not valid: the invoice is refused, whatever key signed it. */
  lemma UnverifiedNodeRefused(text: string, net: Net, crypto: Crypto, amount: string, data5: seq<Symbol>, sig: seq<Byte>,
                              p: Parsed, said: Option<real>)
    requires Holds(text, net, amount, data5, sig) && SaysAmount(amount, said)
    requires ReadFields(NOTHING, data5[DatePart(data5)..], net) == Success(p) && p.node.Some? && p.node.value != []
    requires !crypto.verify(p.node.value, sig[..64], crypto.sha256(Message("ln" + net.bolt11Hrp + amount, data5)))
    ensures LnDecode(text, net, crypto) == Failure(BadSignature)
  {
    PartsAccepted(text, net, crypto, amount, data5,
                  ReadInvoice(Value(data5[..DatePart(data5)], 32), said, p, sig, p.node.value));
  }

  // ----- what is signed -----

  /** The signed message starts with the human-readable part, and so with the amount; the rest is the data, as a number,
      moved up to whole bytes. */
  lemma MessageIs(hrp: string, data5: seq<Symbol>)
    ensures var m := Message(hrp, data5);
      && |m| >= |hrp| && (forall i :: 0 <= i < |hrp| ==> m[i] == hrp[i] as int)
      && 8 * (|m| - |hrp|) == 5 * |data5| + ConvertBits.Slack(|data5|, 5, 8)
      && Value(m[|hrp|..], 256) == Value(data5, 32) * Pow(2, ConvertBits.Slack(|data5|, 5, 8))
  {
    Widths();
    ConvertBits.PadValue(data5, 5, 8);
    var rest := ConvertBits.Regroup(data5, 5, 8, true).value;
    assert Message(hrp, data5)[|hrp|..] == rest;
  }

  // ----- layouts -----

  /** The number of the letter of each kind of tag. */
  lemma LetterNumbers(tag: Tag)
    requires !tag.Other?
    ensures CHARSET[LetterIndex(Letter(tag))] == Letter(tag)
    ensures LetterIndex(Letter(tag))
         == match tag
            case Route(_) => 3
            case Trampoline(_) => 11
            case Fallback(_) => 9
            case Description(_) => 13
            case Expiry(_) => 6
            case DescriptionHash(_) => 23
            case Node(_) => 19
            case FinalCltv(_) => 24
            case Features(_) => 5
  {
  }

  /** The field of a tag starts with its letter. */
  lemma TagSymbol(tag: Tag, seen: set<char>, net: Net, crypto: Crypto)
    requires WriteTag(tag, seen, net, crypto).Success? && WriteTag(tag, seen, net, crypto).value.data5 != []
    ensures !tag.Other? && WriteTag(tag, seen, net, crypto).value.data5[0] == LetterIndex(Letter(tag))
  {
  }

  /** A hop has 51 bytes: key, short channel id, base fee, fee rate and expiry delta. */
  lemma HopLayout(hop: Hop, b: seq<Byte>)
    requires HopBytes(hop) == Success(b) && |hop.pubkey| == 33 && |hop.scid| == 8
    ensures |b| == 51 && b[..33] == hop.pubkey && b[33..41] == hop.scid
    ensures Value(b[41..45], 256) == hop.feebase && Value(b[45..49], 256) == hop.feerate && Value(b[49..51], 256) == hop.cltv
  {
    var base, rate, cltv := Fees(hop.feebase, hop.feerate, hop.cltv);
    assert b == b + [];
    HopSlices(hop.pubkey, hop.scid, base, rate, cltv, [], b);
  }

  /** A trampoline hop has 43 bytes: key, base fee, fee rate and expiry delta. */
  lemma TrampolineLayout(hop: TrampolineHop, b: seq<Byte>)
    requires TrampolineBytes(hop) == Success(b) && |hop.pubkey| == 33
    ensures |b| == 43 && b[..33] == hop.pubkey
    ensures Value(b[33..37], 256) == hop.feebase && Value(b[37..41], 256) == hop.feerate && Value(b[41..43], 256) == hop.cltv
  {
    var base, rate, cltv := Fees(hop.feebase, hop.feerate, hop.cltv);
    TrampolineSlices(hop.pubkey, base, rate, cltv, b);
  }

  /** Fields of a known letter and a wrong size are skipped, as are unknown letters and fallback versions. */
  lemma Skipped(p: Parsed, c: char, payload: seq<Symbol>, net: Net)
    requires ((c == 'p' || c == 'h' || c == 's') && |payload| != 52) || (c == 'n' && |payload| != 53) || c !in "rtfdxc9hpsn"
             || (c == 'f' && payload != [] && payload[0] > 18 && ToBytes(payload[1..]).Some?)
    ensures ReadField(p, c, payload, net) == Success(p.(unknown := p.unknown + [LnFields.Field(c, payload)]))
  {
    var letters := "rtfdxc9hpsn";
    assert letters[0] == 'r' && letters[1] == 't' && letters[2] == 'f' && letters[3] == 'd' && letters[4] == 'x';
    assert letters[5] == 'c' && letters[6] == '9';
  }

  /** Routing fields that do not convert to bytes, or to none, say nothing. */
  lemma RoutesSkipped(p: Parsed, c: char, payload: seq<Symbol>, net: Net)
    requires (c == 'r' || c == 't') && (ToBytes(payload).None? || ToBytes(payload).value == [])
    ensures ReadField(p, c, payload, net) == Success(p)
  {
  }

  // ----- what the writer refuses -----

  /** A tag that may stand only once. */
  predicate Single(c: char) {
    c == 'd' || c == 'h' || c == 'n' || c == 'x' || c == '9' || c == 'p' || c == 's'
  }

  /** A tag that the writer does not leave out. */
  predicate Kept(tag: Tag) {
    tag != Features(0)
  }

  lemma WriteTagSeen(tag: Tag, seen: set<char>, net: Net, crypto: Crypto)
    requires WriteTag(tag, seen, net, crypto).Success?
    ensures WriteTag(tag, seen, net, crypto).value.seen == if Kept(tag) then seen + {Letter(tag)} else seen
    ensures !(Single(Letter(tag)) && Letter(tag) in seen)
  {
  }

  /** In a list that is written, no tag that may stand only once comes after another of its kind. */
  lemma {:induction false} NoneTwice(tags: seq<Tag>, seen: set<char>, net: Net, crypto: Crypto)
    requires WriteTags(tags, seen, net, crypto).Success?
    ensures forall i :: 0 <= i < |tags| && Single(Letter(tags[i])) ==> Letter(tags[i]) !in seen
    ensures forall i, j :: 0 <= i < j < |tags| && Kept(tags[i]) && Single(Letter(tags[i])) ==> Letter(tags[i]) != Letter(tags[j])
    ensures WriteTags(tags, seen, net, crypto).value.seen == seen + Letters(tags)
    decreases |tags|
  {
    if tags == [] {
    } else {
      var first, more := SplitTags(tags, seen, net, crypto);
      WriteTagSeen(tags[0], seen, net, crypto);
      NoneTwice(tags[1..], first.seen, net, crypto);
      assert tags == [tags[0]] + tags[1..];
    }
  }

  /** The letters of the tags that are kept. */
  function Letters(tags: seq<Tag>): set<char> {
    if tags == [] then {} else (if Kept(tags[0]) then {Letter(tags[0])} else {}) + Letters(tags[1..])
  }

  lemma {:induction false} LettersOf(tags: seq<Tag>, c: char)
    ensures c in Letters(tags) <==> exists i :: 0 <= i < |tags| && Kept(tags[i]) && Letter(tags[i]) == c
  {
    if tags == [] {
    } else {
      LettersOf(tags[1..], c);
      assert tags == [tags[0]] + tags[1..];
    }
  }

  predicate Describes(tag: Tag) {
    tag.Description? || tag.DescriptionHash?
  }

  /** An invoice that is written has a description or the hash of one, and only one of both. */
  lemma OneDescription(inv: Invoice, net: Net, crypto: Crypto)
    requires WriteData(inv, net, crypto).Success?
    ensures exists i :: 0 <= i < |inv.tags| && Describes(inv.tags[i])
    ensures forall i, j :: 0 <= i < j < |inv.tags| ==> !(Describes(inv.tags[i]) && Describes(inv.tags[j]))
  {
    var head := WriteHead(inv).value;
    NoneTwice(inv.tags, head.seen, net, crypto);
    LettersOf(inv.tags, 'd');
    LettersOf(inv.tags, 'h');
    KindsOf(inv.tags, head.seen, net, crypto);
  }

  /** Only descriptions have the letters `d` and `h` in a list that is written. */
  lemma KindsOf(tags: seq<Tag>, seen: set<char>, net: Net, crypto: Crypto)
    requires WriteTags(tags, seen, net, crypto).Success?
    ensures forall i :: 0 <= i < |tags| ==>
              (Describes(tags[i]) <==> Letter(tags[i]) == 'd' || Letter(tags[i]) == 'h') && !tags[i].Other?
  {
    WrittenPayloads(tags, seen, net, crypto);
    forall i | 0 <= i < |tags|
      ensures (Describes(tags[i]) <==> Letter(tags[i]) == 'd' || Letter(tags[i]) == 'h') && !tags[i].Other?
    {
      KindOf(tags[i], net, crypto);
    }
  }

  lemma KindOf(tag: Tag, net: Net, crypto: Crypto)
    requires Payload(tag, net, crypto).Success?
    ensures (Describes(tag) <==> Letter(tag) == 'd' || Letter(tag) == 'h') && !tag.Other?
  {
  }

  /** The amounts that can be set are whole numbers of a thousandth of a satoshi, up to 21 million bitcoin. */
  lemma SettableIff(v: real)
    ensures SettableAmount(v) <==> exists msat :: 0 <= msat <= 2100000000000000000 && v == FromMsat(msat)
  {
    if SettableAmount(v) {
      var msat := (v * 100000000000.0).Floor;
      assert 0 <= msat <= 2100000000000000000 && v == FromMsat(msat);
    }
  }

  function FromMsat(msat: int): real {
    msat as real / 100000000000.0
  }
}
