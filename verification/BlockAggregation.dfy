/**
 The index of transactions that a block scan reports: which addresses sent, which received, and what.
 */
module BlockAggregation {
  import opened Wrappers

  /** A parsed transaction. An address that the explorer does not give is the empty text. */
  datatype Transfer = Transfer(from: string, to: string, amount: int, currency: int, hash: string)

  /** What becomes of a raw transaction: it is refused, parsing it raises or gives nothing, or it is a transfer. */
  datatype RawTx = Refused | Raises | Nothing | Gives(transfer: Transfer)

  /** A raw block: parsing it raises, or gives its transactions. */
  datatype Block = Unreadable | Txs(txs: seq<RawTx>)

  datatype Error = ParseError

  datatype Entry = Entry(hash: string, value: int)

  type Ledger = map<string, map<int, seq<Entry>>>

  datatype Index = Index(inputs: set<string>, outputs: set<string>, outgoing: Ledger, incoming: Ledger)

  datatype Options = Options(includeInputs: bool, includeInfo: bool, currency: int)

  // ----- the accepted transactions -----

  function AcceptedTxs(txs: seq<RawTx>): (r: Result<seq<Transfer>, Error>) {
    if txs == [] then Success([])
    else
      var n := |txs| - 1;
      var before :- AcceptedTxs(txs[..n]);
      match txs[n]
      case Raises => Failure(ParseError)
      case Gives(t) => Success(before + [t])
      case _ => Success(before)
  }

  function Accepted(blocks: seq<Block>): (r: Result<seq<Transfer>, Error>) {
    if blocks == [] then Success([])
    else
      var n := |blocks| - 1;
      var before :- Accepted(blocks[..n]);
      match blocks[n]
      case Unreadable => Failure(ParseError)
      case Txs(txs) => (var more :- AcceptedTxs(txs); Success(before + more))
  }

  /** Parsing the block, or one of its transactions, raises. */
  predicate Broken(block: Block) {
    block.Unreadable? || exists j :: 0 <= j < |block.txs| && block.txs[j].Raises?
  }

  lemma {:induction false} TxsFail(txs: seq<RawTx>)
    ensures AcceptedTxs(txs).Failure? <==> exists j :: 0 <= j < |txs| && txs[j].Raises?
  {
    if txs == [] {
    } else {
      TxsFail(txs[..|txs| - 1]);
    }
  }

  /** Aggregation raises exactly when a block or one of its transactions does. */
  lemma {:induction false} AcceptedFails(blocks: seq<Block>)
    ensures Accepted(blocks).Failure? <==> exists i :: 0 <= i < |blocks| && Broken(blocks[i])
  {
    if blocks == [] {
    } else {
      var n := |blocks| - 1;
      AcceptedFails(blocks[..n]);
      if blocks[n].Txs? {
        TxsFail(blocks[n].txs);
      }
    }
  }

  /** The place of a transaction: its block, and its number in the block. */
  datatype Place = Place(block: nat, tx: nat)

  predicate Before(p: Place, q: Place) {
    p.block < q.block || (p.block == q.block && p.tx < q.tx)
  }

  predicate HasTransfer(blocks: seq<Block>, p: Place) {
    p.block < |blocks| && blocks[p.block].Txs? && p.tx < |blocks[p.block].txs| && blocks[p.block].txs[p.tx].Gives?
  }

  /** `ps` are the places of all transfers, in the order of blocks and transactions, and `ts` the transfers there. */
  ghost predicate Lists(ps: seq<Place>, ts: seq<Transfer>, blocks: seq<Block>) {
    && |ps| == |ts|
    && (forall i, j :: 0 <= i < j < |ps| ==> Before(ps[i], ps[j]))
    && (forall i :: 0 <= i < |ps| ==> HasTransfer(blocks, ps[i]) && TransferAt(blocks, ps[i]) == ts[i])
    && (forall p :: HasTransfer(blocks, p) ==> p in ps)
  }

  function TransferAt(blocks: seq<Block>, p: Place): Transfer
    requires HasTransfer(blocks, p)
  {
    blocks[p.block].txs[p.tx].transfer
  }

  /** The same within block `n`. */
  ghost predicate ListsTxs(ps: seq<Place>, ts: seq<Transfer>, n: nat, txs: seq<RawTx>) {
    && |ps| == |ts|
    && (forall i, j :: 0 <= i < j < |ps| ==> ps[i].tx < ps[j].tx)
    && (forall i :: 0 <= i < |ps| ==> ps[i].block == n && ps[i].tx < |txs| && txs[ps[i].tx] == Gives(ts[i]))
    && (forall j: nat :: j < |txs| && txs[j].Gives? ==> Place(n, j) in ps)
  }

  lemma {:induction false} TxsListed(n: nat, txs: seq<RawTx>) returns (ps: seq<Place>)
    requires AcceptedTxs(txs).Success?
    ensures ListsTxs(ps, AcceptedTxs(txs).value, n, txs)
  {
    if txs == [] {
      ps := [];
    } else {
      var last := |txs| - 1;
      var before := TxsListed(n, txs[..last]);
      ps := if txs[last].Gives? then before + [Place(n, last)] else before;
      ListsTxsMore(before, AcceptedTxs(txs[..last]).value, n, txs, last, ps, AcceptedTxs(txs).value);
    }
  }

  lemma ListsTxsMore(before: seq<Place>, ts: seq<Transfer>, n: nat, txs: seq<RawTx>, last: nat, ps: seq<Place>, us: seq<Transfer>)
    requires last + 1 == |txs| && ListsTxs(before, ts, n, txs[..last])
    requires txs[last].Gives? ==> ps == before + [Place(n, last)] && us == ts + [txs[last].transfer]
    requires !txs[last].Gives? ==> ps == before && us == ts
    ensures ListsTxs(ps, us, n, txs)
  {
    forall j: nat | j < |txs| && txs[j].Gives? ensures Place(n, j) in ps {
      if j < last {
        assert txs[..last][j] == txs[j] && Place(n, j) in before;
      } else {
        assert ps[|ps| - 1] == Place(n, j);
      }
    }
  }

  /** What is accepted is exactly the transfers of all blocks, in order. */
  lemma {:induction false} AcceptedListed(blocks: seq<Block>) returns (ps: seq<Place>)
    requires Accepted(blocks).Success?
    ensures Lists(ps, Accepted(blocks).value, blocks)
  {
    if blocks == [] {
      ps := [];
    } else {
      var n := |blocks| - 1;
      var front := AcceptedListed(blocks[..n]);
      var more := TxsListed(n, blocks[n].txs);
      ps := front + more;
      ListsMore(front, Accepted(blocks[..n]).value, blocks, n, more, AcceptedTxs(blocks[n].txs).value);
    }
  }

  lemma ListsMore(front: seq<Place>, ts: seq<Transfer>, blocks: seq<Block>, n: nat, more: seq<Place>, us: seq<Transfer>)
    requires n + 1 == |blocks| && blocks[n].Txs?
    requires Lists(front, ts, blocks[..n]) && ListsTxs(more, us, n, blocks[n].txs)
    ensures Lists(front + more, ts + us, blocks)
  {
    forall p | HasTransfer(blocks, p) ensures p in front + more {
      if p.block < n {
        assert HasTransfer(blocks[..n], p);
      } else {
        assert p == Place(n, p.tx) && p in more;
      }
    }
  }

  // ----- what should be reported -----

  function Senders(ts: seq<Transfer>): set<string> {
    set t | t in ts && t.from != "" :: t.from
  }

  function Receivers(ts: seq<Transfer>): set<string> {
    set t | t in ts && t.to != "" :: t.to
  }

  /** The transactions in which `to` received `currency`, in order. */
  function Received(ts: seq<Transfer>, to: string, currency: int): seq<Entry> {
    if ts == [] then []
    else
      var t := ts[|ts| - 1];
      Received(ts[..|ts| - 1], to, currency)
      + if t.to == to && t.currency == currency then [Entry(t.hash, t.amount)] else []
  }

  /** What `from` sent in the transaction `hash`. */
  function SentIn(ts: seq<Transfer>, from: string, hash: string): int {
    if ts == [] then 0
    else
      var t := ts[|ts| - 1];
      SentIn(ts[..|ts| - 1], from, hash) + if t.from == from && t.hash == hash then t.amount else 0
  }

  /** All that `from` sent. */
  function SentTotal(ts: seq<Transfer>, from: string): int {
    if ts == [] then 0
    else
      var t := ts[|ts| - 1];
      SentTotal(ts[..|ts| - 1], from) + if t.from == from then t.amount else 0
  }

  function Total(entries: seq<Entry>): int {
    if entries == [] then 0 else Total(entries[..|entries| - 1]) + entries[|entries| - 1].value
  }

  ghost predicate NoHashTwice(entries: seq<Entry>) {
    forall i, j :: 0 <= i < j < |entries| ==> entries[i].hash != entries[j].hash
  }

  ghost predicate Mentions(ts: seq<Transfer>, from: string, hash: string) {
    exists t :: t in ts && t.from == from && t.hash == hash
  }

  /** `entries` is the account of what `from` sent: one entry for each of its transactions, with the sum of
      all parts that were sent in it. */
  ghost predicate Accounts(entries: seq<Entry>, ts: seq<Transfer>, from: string) {
    && NoHashTwice(entries)
    && (forall i :: 0 <= i < |entries| ==>
          Mentions(ts, from, entries[i].hash) && entries[i].value == SentIn(ts, from, entries[i].hash))
    && (forall t :: t in ts && t.from == from ==> exists i :: 0 <= i < |entries| && entries[i].hash == t.hash)
    && Total(entries) == SentTotal(ts, from)
  }

  // ----- the list of outgoing entries -----

  /** The first entry with the given hash, or the length. */
  function Find(entries: seq<Entry>, hash: string): (i: nat)
    ensures i <= |entries|
    ensures i < |entries| ==> entries[i].hash == hash
    ensures forall j :: 0 <= j < i ==> entries[j].hash != hash
  {
    if entries == [] then 0
    else if entries[0].hash == hash then 0
    else 1 + Find(entries[1..], hash)
  }

  /** Add to the entry of the same hash, or append. */
  function Record(entries: seq<Entry>, hash: string, value: int): seq<Entry> {
    var i := Find(entries, hash);
    if i < |entries| then entries[i := Entry(hash, entries[i].value + value)] else entries + [Entry(hash, value)]
  }

  lemma {:induction false} TotalUpdate(entries: seq<Entry>, i: nat, e: Entry)
    requires i < |entries|
    ensures Total(entries[i := e]) == Total(entries) + e.value - entries[i].value
  {
    var n := |entries| - 1;
    if i < n {
      assert entries[i := e][..n] == entries[..n][i := e];
      TotalUpdate(entries[..n], i, e);
    } else {
      assert entries[i := e][..n] == entries[..n];
    }
  }

  lemma RecordTotal(entries: seq<Entry>, hash: string, value: int)
    ensures Total(Record(entries, hash, value)) == Total(entries) + value
  {
    var i := Find(entries, hash);
    if i < |entries| {
      TotalUpdate(entries, i, Entry(hash, entries[i].value + value));
    } else {
      var more := entries + [Entry(hash, value)];
      assert more[..|entries|] == entries;
    }
  }

  lemma {:induction false} NotMentioned(ts: seq<Transfer>, from: string, hash: string)
    requires !Mentions(ts, from, hash)
    ensures SentIn(ts, from, hash) == 0
  {
    if ts == [] {
    } else {
      var n := |ts| - 1;
      assert ts[n] in ts;
      assert forall t :: t in ts[..n] ==> t in ts;
      NotMentioned(ts[..n], from, hash);
    }
  }

  lemma MentionsMore(ts: seq<Transfer>, t: Transfer, from: string, hash: string)
    ensures Mentions(ts + [t], from, hash) <==> Mentions(ts, from, hash) || (t.from == from && t.hash == hash)
  {
    if Mentions(ts, from, hash) {
      var u :| u in ts && u.from == from && u.hash == hash;
      assert u in ts + [t];
    }
    if t.from == from && t.hash == hash {
      assert t in ts + [t];
    }
  }

  lemma SumsMore(ts: seq<Transfer>, t: Transfer, from: string, hash: string)
    ensures SentIn(ts + [t], from, hash) == SentIn(ts, from, hash) + (if t.from == from && t.hash == hash then t.amount else 0)
    ensures SentTotal(ts + [t], from) == SentTotal(ts, from) + (if t.from == from then t.amount else 0)
  {
    assert (ts + [t])[..|ts|] == ts;
  }

  lemma OtherAccounts(entries: seq<Entry>, ts: seq<Transfer>, t: Transfer, from: string)
    requires Accounts(entries, ts, from) && t.from != from
    ensures Accounts(entries, ts + [t], from)
  {
    SumsMore(ts, t, from, "");
    forall i | 0 <= i < |entries|
      ensures Mentions(ts + [t], from, entries[i].hash) && entries[i].value == SentIn(ts + [t], from, entries[i].hash)
    {
      MentionsMore(ts, t, from, entries[i].hash);
      SumsMore(ts, t, from, entries[i].hash);
    }
  }

  /** A transfer recorded in its sender's account keeps the account right. */
  lemma RecordAccounts(entries: seq<Entry>, ts: seq<Transfer>, t: Transfer)
    requires Accounts(entries, ts, t.from)
    ensures Accounts(Record(entries, t.hash, t.amount), ts + [t], t.from)
  {
    var more := Record(entries, t.hash, t.amount);
    RecordTotal(entries, t.hash, t.amount);
    SumsMore(ts, t, t.from, t.hash);
    RecordDistinct(entries, t.hash, t.amount);
    RecordEntries(entries, ts, t);
    RecordComplete(entries, ts, t);
  }

  lemma RecordDistinct(entries: seq<Entry>, hash: string, value: int)
    requires NoHashTwice(entries)
    ensures NoHashTwice(Record(entries, hash, value))
  {
  }

  lemma RecordEntries(entries: seq<Entry>, ts: seq<Transfer>, t: Transfer)
    requires Accounts(entries, ts, t.from)
    ensures var more := Record(entries, t.hash, t.amount);
      forall i :: 0 <= i < |more| ==>
          Mentions(ts + [t], t.from, more[i].hash) && more[i].value == SentIn(ts + [t], t.from, more[i].hash)
  {
    var more := Record(entries, t.hash, t.amount);
    var k := Find(entries, t.hash);
    forall i | 0 <= i < |more|
      ensures Mentions(ts + [t], t.from, more[i].hash) && more[i].value == SentIn(ts + [t], t.from, more[i].hash)
    {
      MentionsMore(ts, t, t.from, more[i].hash);
      SumsMore(ts, t, t.from, more[i].hash);
      if i == |entries| {
        NewHash(entries, ts, t);
      } else if i != k {
        assert more[i] == entries[i];
        assert entries[i].hash != t.hash;
      }
    }
  }

  lemma NewHash(entries: seq<Entry>, ts: seq<Transfer>, t: Transfer)
    requires Accounts(entries, ts, t.from) && Find(entries, t.hash) == |entries|
    ensures SentIn(ts, t.from, t.hash) == 0
  {
    assert !Mentions(ts, t.from, t.hash);
    NotMentioned(ts, t.from, t.hash);
  }

  lemma RecordComplete(entries: seq<Entry>, ts: seq<Transfer>, t: Transfer)
    requires Accounts(entries, ts, t.from)
    ensures var more := Record(entries, t.hash, t.amount);
      forall u :: u in ts + [t] && u.from == t.from ==> exists i :: 0 <= i < |more| && more[i].hash == u.hash
  {
    var more := Record(entries, t.hash, t.amount);
    var k := Find(entries, t.hash);
    forall u | u in ts + [t] && u.from == t.from ensures exists i :: 0 <= i < |more| && more[i].hash == u.hash {
      if u.hash == t.hash {
        assert more[k].hash == t.hash;
      } else {
        assert u in ts;
        var i :| 0 <= i < |entries| && entries[i].hash == u.hash;
        assert more[i].hash == u.hash;
      }
    }
  }

  // ----- the index -----

  function Lookup(l: Ledger, address: string, currency: int): seq<Entry> {
    if address in l && currency in l[address] then l[address][currency] else []
  }

  /** The nested update, with missing levels made on the way. */
  function Put(l: Ledger, address: string, currency: int, entries: seq<Entry>): Ledger {
    l[address := (if address in l then l[address] else map[])[currency := entries]]
  }

  function AddTransfer(index: Index, t: Transfer, o: Options): Index {
    Index(if o.includeInputs && t.from != "" then index.inputs + {t.from} else index.inputs,
          if t.to != "" then index.outputs + {t.to} else index.outputs,
          if o.includeInfo && o.includeInputs && t.from != ""
          then Put(index.outgoing, t.from, o.currency, Record(Lookup(index.outgoing, t.from, o.currency), t.hash, t.amount))
          else index.outgoing,
          if o.includeInfo && t.to != ""
          then Put(index.incoming, t.to, t.currency, Lookup(index.incoming, t.to, t.currency) + [Entry(t.hash, t.amount)])
          else index.incoming)
  }

  ghost predicate OutgoingRight(l: Ledger, ts: seq<Transfer>, o: Options) {
    if o.includeInfo && o.includeInputs then
      && (forall a :: a != "" ==> Accounts(Lookup(l, a, o.currency), ts, a))
      && (forall a, c :: a == "" || c != o.currency ==> Lookup(l, a, c) == [])
    else l == map[]
  }

  ghost predicate IncomingRight(l: Ledger, ts: seq<Transfer>, o: Options) {
    if o.includeInfo then
      && (forall a, c :: a != "" ==> Lookup(l, a, c) == Received(ts, a, c))
      && (forall c :: Lookup(l, "", c) == [])
    else l == map[]
  }

  /** The index reports the transfers `ts` and nothing else. */
  ghost predicate Describes(index: Index, ts: seq<Transfer>, o: Options) {
    && index.inputs == (if o.includeInputs then Senders(ts) else {})
    && index.outputs == Receivers(ts)
    && OutgoingRight(index.outgoing, ts, o)
    && IncomingRight(index.incoming, ts, o)
  }

  const EMPTY: Index := Index({}, {}, map[], map[])

  lemma EmptyDescribes(o: Options)
    ensures Describes(EMPTY, [], o)
  {
  }

  lemma AddressesMore(ts: seq<Transfer>, t: Transfer)
    ensures Senders(ts + [t]) == Senders(ts) + (if t.from != "" then {t.from} else {})
    ensures Receivers(ts + [t]) == Receivers(ts) + (if t.to != "" then {t.to} else {})
  {
    assert forall u :: u in ts + [t] <==> u in ts || u == t;
  }

  lemma OutgoingMore(index: Index, ts: seq<Transfer>, t: Transfer, o: Options)
    requires OutgoingRight(index.outgoing, ts, o)
    ensures OutgoingRight(AddTransfer(index, t, o).outgoing, ts + [t], o)
  {
    if o.includeInfo && o.includeInputs {
      var l := AddTransfer(index, t, o).outgoing;
      var entries := Record(Lookup(index.outgoing, t.from, o.currency), t.hash, t.amount);
      forall a, c
        ensures Lookup(l, a, c)
             == if t.from != "" && a == t.from && c == o.currency then entries else Lookup(index.outgoing, a, c)
      {
        PutLookup(index.outgoing, t.from, o.currency, entries, a, c);
      }
      forall a | a != "" ensures Accounts(Lookup(l, a, o.currency), ts + [t], a) {
        AccountMore(Lookup(index.outgoing, a, o.currency), ts, t, a);
      }
    }
  }

  lemma AccountMore(entries: seq<Entry>, ts: seq<Transfer>, t: Transfer, a: string)
    requires Accounts(entries, ts, a)
    ensures Accounts(if a == t.from then Record(entries, t.hash, t.amount) else entries, ts + [t], a)
  {
    if a == t.from {
      RecordAccounts(entries, ts, t);
    } else {
      OtherAccounts(entries, ts, t, a);
    }
  }

  lemma PutLookup(l: Ledger, address: string, currency: int, entries: seq<Entry>, a: string, c: int)
    ensures Lookup(Put(l, address, currency, entries), a, c)
         == if a == address && c == currency then entries else Lookup(l, a, c)
  {
  }

  lemma IncomingMore(index: Index, ts: seq<Transfer>, t: Transfer, o: Options)
    requires IncomingRight(index.incoming, ts, o)
    ensures IncomingRight(AddTransfer(index, t, o).incoming, ts + [t], o)
  {
    if o.includeInfo {
      var l := AddTransfer(index, t, o).incoming;
      assert (ts + [t])[..|ts|] == ts;
      forall a, c | a != "" ensures Lookup(l, a, c) == Received(ts + [t], a, c) {
        assert Lookup(index.incoming, a, c) == Received(ts, a, c);
      }
      forall c ensures Lookup(l, "", c) == [] {
        assert Lookup(index.incoming, "", c) == [];
      }
    }
  }

  /** One more transfer keeps the index right. */
  lemma AddDescribes(index: Index, ts: seq<Transfer>, t: Transfer, o: Options)
    requires Describes(index, ts, o)
    ensures Describes(AddTransfer(index, t, o), ts + [t], o)
  {
    AddressesMore(ts, t);
    OutgoingMore(index, ts, t, o);
    IncomingMore(index, ts, t, o);
  }

  // ----- the loops of the source -----

  lemma {:induction false} TxsFailEarly(txs: seq<RawTx>, i: nat)
    requires i <= |txs| && AcceptedTxs(txs[..i]).Failure?
    ensures AcceptedTxs(txs).Failure?
    decreases |txs| - i
  {
    if i == |txs| {
      assert txs[..i] == txs;
    } else {
      assert txs[..i + 1][..i] == txs[..i];
      TxsFailEarly(txs, i + 1);
    }
  }

  lemma {:induction false} BlocksFailEarly(blocks: seq<Block>, i: nat)
    requires i <= |blocks| && Accepted(blocks[..i]).Failure?
    ensures Accepted(blocks).Failure?
    decreases |blocks| - i
  {
    if i == |blocks| {
      assert blocks[..i] == blocks;
    } else {
      assert blocks[..i + 1][..i] == blocks[..i];
      BlocksFailEarly(blocks, i + 1);
    }
  }

  method AddBlock(start: Index, txs: seq<RawTx>, o: Options, ghost before: seq<Transfer>) returns (r: Result<Index, Error>)
    requires Describes(start, before, o)
    ensures match AcceptedTxs(txs)
      case Failure(_) => r.Failure?
      case Success(ts) => r.Success? && Describes(r.value, before + ts, o)
  {
    var index := start;
    ghost var ts: seq<Transfer> := [];
    assert before + ts == before;
    for i := 0 to |txs|
      invariant AcceptedTxs(txs[..i]) == Success(ts) && Describes(index, before + ts, o)
    {
      assert txs[..i + 1][..i] == txs[..i];
      match txs[i] {
        case Refused =>
        case Nothing =>
        case Raises =>
          TxsFailEarly(txs, i + 1);
          return Failure(ParseError);
        case Gives(t) =>
          AddDescribes(index, before + ts, t, o);
          assert before + (ts + [t]) == before + ts + [t];
          index := AddTransfer(index, t, o);
          ts := ts + [t];
      }
    }
    assert txs[..|txs|] == txs;
    return Success(index);
  }

  /** The index of all blocks: an account for each sender that conserves value, the incoming transfers in order. */
  method GetBlockAddresses(blocks: seq<Block>, o: Options) returns (r: Result<Index, Error>)
    ensures match Accepted(blocks)
      case Failure(_) => r.Failure?
      case Success(ts) => r.Success? && Describes(r.value, ts, o)
    ensures r.Failure? <==> exists i :: 0 <= i < |blocks| && Broken(blocks[i])
  {
    AcceptedFails(blocks);
    var index := EMPTY;
    EmptyDescribes(o);
    ghost var ts: seq<Transfer> := [];
    for i := 0 to |blocks|
      invariant Accepted(blocks[..i]) == Success(ts) && Describes(index, ts, o)
    {
      assert blocks[..i + 1][..i] == blocks[..i];
      match blocks[i] {
        case Unreadable =>
          BlocksFailEarly(blocks, i + 1);
          return Failure(ParseError);
        case Txs(txs) =>
          var more := AddBlock(index, txs, o, ts);
          if more.Failure? {
            BlocksFailEarly(blocks, i + 1);
            return Failure(more.error);
          }
          index := more.value;
          ts := ts + AcceptedTxs(txs).value;
      }
    }
    assert blocks[..|blocks|] == blocks;
    return Success(index);
  }
}
