/**
 The writer and the reader of Lightning invoices, step by step.
 */
module LnCodec {
  import opened Wrappers
  import opened Positional
  import opened Bech32Checksum
  import opened Bech32Codec
  import opened SegwitAddress
  import LnFields
  import opened LnInvoice

  // ----- the writer -----

  /** What the rest of the tags adds to what is written so far. */
  ghost function Continue(data5: seq<Symbol>, tags: seq<Tag>, seen: set<char>, net: Net, crypto: Crypto): Result<Written, Error> {
    match WriteTags(tags, seen, net, crypto)
    case Failure(e) => Failure(e)
    case Success(w) => Success(Written(data5 + w.data5, w.seen))
  }

  lemma ContinueStep(data5: seq<Symbol>, tags: seq<Tag>, seen: set<char>, net: Net, crypto: Crypto)
    requires tags != []
    ensures Continue(data5, tags, seen, net, crypto)
         == match WriteTag(tags[0], seen, net, crypto)
            case Failure(e) => Failure(e)
            case Success(w) => Continue(data5 + w.data5, tags[1..], w.seen, net, crypto)
  {
    if WriteTag(tags[0], seen, net, crypto).Success? {
      var w := WriteTag(tags[0], seen, net, crypto).value;
      if WriteTags(tags[1..], w.seen, net, crypto).Success? {
        var more := WriteTags(tags[1..], w.seen, net, crypto).value;
        assert data5 + (w.data5 + more.data5) == data5 + w.data5 + more.data5;
      }
    }
  }

  /** The loop over the tags, with the set of letters already used. */
  method AppendTags(start: seq<Symbol>, tags: seq<Tag>, letters: set<char>, net: Net, crypto: Crypto)
    returns (r: Result<Written, Error>)
    ensures r == Continue(start, tags, letters, net, crypto)
  {
    var data5, seen := start, letters;
    for i := 0 to |tags|
      invariant Continue(data5, tags[i..], seen, net, crypto) == Continue(start, tags, letters, net, crypto)
    {
      ContinueStep(data5, tags[i..], seen, net, crypto);
      assert tags[i..][0] == tags[i] && tags[i..][1..] == tags[i + 1..];
      var w := WriteTag(tags[i], seen, net, crypto);
      if w.Failure? {
        return Failure(w.error);
      }
      data5, seen := data5 + w.value.data5, w.value.seen;
    }
    assert tags[|tags|..] == [];
    assert data5 + [] == data5;
    return Success(Written(data5, seen));
  }

  /** `lnencode`. */
  method WriteInvoice(inv: Invoice, net: Net, privkey: seq<Byte>, crypto: Crypto) returns (r: Result<string, Error>)
    requires GoodCrypto(crypto)
    ensures r == LnEncode(inv, net, privkey, crypto)
  {
    var hrp := Hrp(inv, net);
    var data := CollectData(inv, net, crypto);
    if data.Failure? {
      return Failure(data.error);
    }
    var data5 := data.value;
    var msg32 := crypto.sha256(Message(hrp, data5));
    var sig := SignatureBytes(crypto.sign(privkey, msg32));
    r := Success(Encode(BECH32, hrp, data5 + ToSymbols(sig)));
  }

  /** The timestamp, the payment hash and the secret. */
  method CollectHead(inv: Invoice) returns (r: Result<Written, Error>)
    ensures r == WriteHead(inv)
  {
    var date := LnFields.ComputeIntToData5(inv.date, Some(35));
    if date.Failure? {
      return Failure(DateTooBig);
    }
    if inv.paymentHash.None? {
      return Failure(NoPaymentHash);
    }
    var hash := WriteField('p', ToSymbols(inv.paymentHash.value));
    if hash.Failure? {
      return Failure(hash.error);
    }
    var data5 := date.value + hash.value;
    if inv.secret.None? {
      return Success(Written(data5, {'p'}));
    }
    var secret := WriteField('s', ToSymbols(inv.secret.value));
    if secret.Failure? {
      return Failure(secret.error);
    }
    r := Success(Written(data5 + secret.value, {'p', 's'}));
  }

  /** The data part. */
  method CollectData(inv: Invoice, net: Net, crypto: Crypto) returns (r: Result<seq<Symbol>, Error>)
    ensures r == WriteData(inv, net, crypto)
  {
    var head := CollectHead(inv);
    if head.Failure? {
      return Failure(head.error);
    }
    var w := AppendTags(head.value.data5, inv.tags, head.value.seen, net, crypto);
    if w.Failure? {
      return Failure(w.error);
    }
    if 'd' in w.value.seen && 'h' in w.value.seen {
      return Failure(BothDescriptions);
    }
    if 'd' !in w.value.seen && 'h' !in w.value.seen {
      return Failure(NoDescription);
    }
    r := Success(w.value.data5);
  }

  // ----- the reader -----

  class LnAddr {
    var date: nat
    var amount: Option<real>
    var paymentHash: Option<seq<Byte>>
    var secret: Option<seq<Byte>>
    var node: Option<seq<Byte>>
    var tags: seq<ReadTag>
    var unknown: seq<LnFields.Field>
    var signature: seq<Byte>
    var key: seq<Byte>

    function Fields(): Parsed
      reads this
    {
      Parsed(paymentHash, secret, node, tags, unknown)
    }

    function Read(): ReadInvoice
      reads this
    {
      ReadInvoice(date, amount, Fields(), signature, key)
    }

    constructor ()
      ensures Fields() == NOTHING
    {
      date, amount := 0, None;
      paymentHash, secret, node, tags, unknown := None, None, None, [], [];
      signature, key := [], [];
    }

    /** One turn of the field loop. */
    method TakeField(c: char, payload: seq<Symbol>, net: Net) returns (err: Option<Error>)
      modifies this
      ensures date == old(date) && amount == old(amount)
      ensures match ReadField(old(Fields()), c, payload, net)
        case Failure(e) => err == Some(e) && Fields() == old(Fields())
        case Success(q) => err == None && Fields() == q
    {
      err := None;
      if c == 'r' || c == 't' {
        TakeRoute(c, payload, net);
      } else if c == 'f' {
        var r := ReadFallback(Fields(), payload, net);
        if r.Failure? {
          return Some(r.error);
        }
        tags, unknown := r.value.tags, r.value.unknown;
      } else if c == 'x' {
        var n := LnFields.ComputeIntFromData5(payload);
        tags := tags + [GotExpiry(n)];
      } else if c == 'c' {
        var n := LnFields.ComputeIntFromData5(payload);
        tags := tags + [GotFinalCltv(n)];
      } else if c == '9' {
        var n := LnFields.ComputeIntFromData5(payload);
        tags := tags + [GotFeatures(n)];
      } else if c == 'd' {
        var text := ReadDescription(payload);
        if text.Failure? {
          return Some(text.error);
        }
        tags := tags + [GotDescription(text.value)];
      } else if ((c == 'h' || c == 'p' || c == 's') && |payload| == 52) || (c == 'n' && |payload| == 53) {
        var b := ReadBytes(payload);
        if b.Failure? {
          return Some(b.error);
        }
        if c == 'h' {
          tags := tags + [GotHash(b.value)];
        } else if c == 'p' {
          paymentHash := Some(b.value);
        } else if c == 's' {
          secret := Some(b.value);
        } else {
          node := Some(b.value);
        }
      } else {
        unknown := unknown + [LnFields.Field(c, payload)];
      }
    }

    /** Routing information: what cannot be converted is skipped. */
    method TakeRoute(c: char, payload: seq<Symbol>, net: Net)
      requires c == 'r' || c == 't'
      modifies this
      ensures date == old(date) && amount == old(amount)
      ensures ReadField(old(Fields()), c, payload, net) == Success(Fields())
    {
      var bytes := ToBytes(payload);
      if bytes.None? || bytes.value == [] {
        return;
      }
      if c == 'r' {
        var route := CollectHops(bytes.value);
        if route != [] {
          tags := tags + [GotRoute(route)];
        }
      } else {
        tags := tags + [GotTrampoline(ReadTrampoline(bytes.value))];
      }
    }

    /** The loop over the data that remains. */
    method TakeFields(remaining: LnFields.Remaining, net: Net) returns (err: Option<Error>)
      modifies this, remaining
      ensures date == old(date) && amount == old(amount)
      ensures match ReadFields(old(Fields()), old(remaining.data5), net)
        case Failure(e) => err == Some(e)
        case Success(q) => err == None && Fields() == q && remaining.data5 == []
    {
      while remaining.data5 != []
        invariant date == old(date) && amount == old(amount)
        invariant ReadFields(Fields(), remaining.data5, net) == ReadFields(old(Fields()), old(remaining.data5), net)
        decreases |remaining.data5|
      {
        var f := remaining.PullTagged();
        if f.Failure? {
          return Some(TruncatedField);
        }
        err := TakeField(f.value.tag, f.value.payload, net);
        if err.Some? {
          return;
        }
      }
      err := None;
    }
  }

  /** The loop that reads a route, hop by hop, until too little is left. */
  method CollectHops(bytes: seq<Byte>) returns (route: seq<Hop>)
    ensures route == ReadRoute(bytes)
  {
    route := [];
    var rest := bytes;
    while |rest| >= HOP_SIZE
      invariant route + ReadRoute(rest) == ReadRoute(bytes)
      decreases |rest|
    {
      route := route + [ReadHop(rest)];
      rest := rest[HOP_SIZE..];
    }
  }

  /** `lndecode`. */
  method ReadText(text: string, net: Net, crypto: Crypto) returns (r: Result<LnAddr, Error>)
    ensures match LnDecode(text, net, crypto)
      case Failure(e) => r == Failure(e)
      case Success(inv) => r.Success? && fresh(r.value) && r.value.Read() == inv
  {
    var d := Decode(text, true);
    if d.None? {
      return Failure(BadChecksum);
    }
    var hrp, data := d.value.hrp, d.value.data;
    if d.value.encoding != BECH32 {
      return Failure(BadEncoding);
    }
    if !StartsWith(hrp, "ln") {
      return Failure(WrongPrefix);
    }
    if !StartsWith(hrp, "ln" + net.bolt11Hrp) {
      return Failure(WrongNet);
    }
    if |data| < 104 {
      return Failure(TooShort);
    }
    var n := |data| - 104;
    SignatureSize(data[n..]);
    r := ReadParts(hrp, data[..n], ToBytes(data[n..]).value, net, crypto);
  }

  method ReadParts(hrp: string, data5: seq<Symbol>, sig: seq<Byte>, net: Net, crypto: Crypto) returns (r: Result<LnAddr, Error>)
    requires |sig| == 65 && StartsWith(hrp, "ln" + net.bolt11Hrp)
    ensures match ReadBody(hrp, data5, sig, net, crypto)
      case Failure(e) => r == Failure(e)
      case Success(inv) => r.Success? && fresh(r.value) && r.value.Read() == inv
  {
    var addr := new LnAddr();
    var amount := ReadAmount(hrp[2 + |net.bolt11Hrp|..]);
    if amount.Failure? {
      return Failure(amount.error);
    }
    addr.amount := amount.value;
    var n := if |data5| < 7 then |data5| else 7;
    addr.date := LnFields.ComputeIntFromData5(data5[..n]);
    var remaining := new LnFields.Remaining(data5[n..]);
    var err := addr.TakeFields(remaining, net);
    if err.Some? {
      return Failure(err.value);
    }
    addr.signature := sig;
    var key := SignerKey(addr.Fields(), sig, crypto.sha256(Message(hrp, data5)), crypto);
    if key.Failure? {
      return Failure(key.error);
    }
    addr.key := key.value;
    r := Success(addr);
  }
}
