/**
 The Bitcoin Cash block scanner: from the mined head down to the stored height, page by page.
 */
module BchScanner {
  import opened Wrappers

  // ----- what the explorer answers -----

  datatype Output = Output(kind: string, spentBy: Option<string>, spentPosition: int, scriptAsm: string, scriptHex: string,
                           value: int, addresses: seq<string>)

  datatype Tx = Tx(outputs: seq<Output>)

  /** What the explorer says about the head. */
  datatype Latest = NoLatest | EmptyLatest | LatestError | NoHeight | Height(mined: int)

  type Count = x: nat | x < 0x1_0000_0000_0000_0000

  datatype Answer = Unavailable | EmptyBody | AnswerError | Page(total: Count, records: seq<Tx>)

  /** A height, or `None` where the source puts `None` into the address of the page. */
  type Place = Option<int>

  datatype Explorer = Explorer(latest: Latest, page: (Place, int) -> Answer)

  /** What a scan returns: `None`, a set of addresses, or an exception. */
  datatype Report = Failed | Found(addresses: set<string>) | Raised

  // ----- which outputs count -----

  predicate WordChar(c: char) {
    '0' <= c <= '9' || 'A' <= c <= 'Z' || 'a' <= c <= 'z' || c == '_'
  }

  predicate SpaceChar(c: char) {
    c == ' ' || 9 as char <= c <= 13 as char || 28 as char <= c <= 31 as char
  }

  predicate Words(s: string) {
    forall i :: 0 <= i < |s| ==> WordChar(s[i])
  }

  const ASM_HEAD: string := "OP_DUP OP_HASH160"
  const ASM_TAIL: string := "OP_EQUALVERIFY OP_CHECKSIG"
  const HEX_HEAD: string := "76a914"
  const HEX_TAIL: string := "88ac"

  predicate AsmShape(s: string) {
    var n := |ASM_HEAD|;
    && |s| == n + 42 + |ASM_TAIL|
    && s[..n] == ASM_HEAD && SpaceChar(s[n]) && Words(s[n + 1..n + 41]) && SpaceChar(s[n + 41]) && s[n + 42..] == ASM_TAIL
  }

  predicate HexShape(s: string) {
    var n := |HEX_HEAD|;
    |s| == n + 40 + |HEX_TAIL| && s[..n] == HEX_HEAD && Words(s[n..n + 40]) && s[n + 40..] == HEX_TAIL
  }

  /** `$` also matches before a newline at the end. */
  function WithoutNewline(s: string): string {
    if s != "" && s[|s| - 1] == '\n' then s[..|s| - 1] else s
  }

  predicate Qualifies(o: Output) {
    && o.kind == "P2PKH" && o.spentBy.None? && o.spentPosition == -1
    && (AsmShape(o.scriptAsm) || AsmShape(WithoutNewline(o.scriptAsm)))
    && (HexShape(o.scriptHex) || HexShape(WithoutNewline(o.scriptHex)))
    && o.value > 0 && |o.addresses| == 1
  }

  /** The script of a pay-to-public-key-hash output as the source knows it, in both notations. */
  lemma StandardScript(space: char, key: string, end: char)
    requires SpaceChar(space) && SpaceChar(end) && |key| == 40 && Words(key)
    ensures AsmShape("OP_DUP OP_HASH160" + [space] + key + [end] + "OP_EQUALVERIFY OP_CHECKSIG")
    ensures HexShape("76a914" + key + "88ac")
  {
    var asm := "OP_DUP OP_HASH160" + [space] + key + [end] + "OP_EQUALVERIFY OP_CHECKSIG";
    assert asm[17 + 1..17 + 41] == key && asm[17 + 42..] == "OP_EQUALVERIFY OP_CHECKSIG";
    var hex := "76a914" + key + "88ac";
    assert hex[..6] == "76a914" && hex[6..46] == key && hex[46..] == "88ac";
  }

  /** Keys in hexadecimal are made of such characters, and blanks and tabs are spaces; punctuation is neither. */
  lemma PlainChars(c: char)
    ensures '0' <= c <= '9' || 'a' <= c <= 'z' || 'A' <= c <= 'Z' ==> WordChar(c) && !SpaceChar(c)
    ensures c == ' ' || c == '\t' || c == '\n' || c == '\r' ==> SpaceChar(c) && !WordChar(c)
    ensures c == '-' || c == '.' || c == ':' || c == '/' ==> !WordChar(c) && !SpaceChar(c)
  {
  }

  /** And no other text has these shapes. */
  lemma OnlyStandardScript(asm: string, hex: string)
    ensures AsmShape(asm) ==> |asm| == 85 && SpaceChar(asm[17]) && Words(asm[18..58]) && SpaceChar(asm[58])
    ensures AsmShape(asm) ==>
              asm == "OP_DUP OP_HASH160" + [asm[17]] + asm[18..58] + [asm[58]] + "OP_EQUALVERIFY OP_CHECKSIG"
    ensures HexShape(hex) ==> |hex| == 50 && Words(hex[6..46]) && hex == "76a914" + hex[6..46] + "88ac"
  {
  }

  /** Every filter refuses an output by itself. */
  lemma Refused(o: Output)
    requires o.kind != "P2PKH" || o.spentBy.Some? || o.spentPosition != -1 || o.value <= 0 || |o.addresses| != 1
    ensures !Qualifies(o)
  {
  }

  /** An unspent standard output of a value to one address passes all filters. */
  lemma Passes(o: Output)
    requires o.kind == "P2PKH" && o.spentBy.None? && o.spentPosition == -1 && o.value > 0 && |o.addresses| == 1
    requires AsmShape(o.scriptAsm) && HexShape(o.scriptHex)
    ensures Qualifies(o)
  {
  }

  /** A newline at the end of a script does not matter. */
  lemma NewlineAllowed(o: Output, asm: string, hex: string)
    requires o.kind == "P2PKH" && o.spentBy.None? && o.spentPosition == -1 && o.value > 0 && |o.addresses| == 1
    requires AsmShape(asm) && HexShape(hex) && o.scriptAsm == asm + "\n" && o.scriptHex == hex + "\n"
    ensures Qualifies(o)
  {
    assert WithoutNewline(o.scriptAsm) == asm && WithoutNewline(o.scriptHex) == hex;
  }

  // ----- what should be reported -----

  /** The addresses of the outputs that qualify. */
  function Qualified(outputs: seq<Output>): set<string> {
    if outputs == [] then {}
    else
      var n := |outputs| - 1;
      Qualified(outputs[..n]) + if Qualifies(outputs[n]) then {outputs[n].addresses[0]} else {}
  }

  function PageAddresses(records: seq<Tx>): set<string> {
    if records == [] then {} else PageAddresses(records[..|records| - 1]) + Qualified(records[|records| - 1].outputs)
  }

  /** `o` qualifies and names `a`. */
  predicate Names(o: Output, a: string) {
    Qualifies(o) && a == o.addresses[0]
  }

  lemma {:induction false} QualifiedIff(outputs: seq<Output>, a: string)
    ensures a in Qualified(outputs) <==> exists i :: 0 <= i < |outputs| && Names(outputs[i], a)
  {
    if outputs == [] {
    } else {
      var n := |outputs| - 1;
      QualifiedIff(outputs[..n], a);
      assert Names(outputs[n], a) <==> a in (if Qualifies(outputs[n]) then {outputs[n].addresses[0]} else {});
    }
  }

  /** An address is on a page exactly when a transaction of the page has a qualifying output that names it. */
  lemma {:induction false} PageAddressesIff(records: seq<Tx>, a: string)
    ensures a in PageAddresses(records) <==> exists i :: 0 <= i < |records| && a in Qualified(records[i].outputs)
  {
    if records == [] {
    } else {
      PageAddressesIff(records[..|records| - 1], a);
    }
  }

  function PageCount(total: nat): nat {
    total / 50 + if total % 50 > 0 then 1 else 0
  }

  const MOST_PAGES: nat := 0x1_0000_0000_0000_0000

  /** The page at which the source stops asking, from page `p` on: the first that fails, or whose count of pages is
      reached. The explorer may give another count on every page. */
  function LastPage(e: Explorer, at: Place, p: nat): (n: nat)
    requires p >= 1
    ensures n >= p
    decreases MOST_PAGES - p
  {
    if GoesOn(e, at, p) then LastPage(e, at, p + 1) else p
  }

  /** Page `p` is read and promises another one. */
  predicate GoesOn(e: Explorer, at: Place, p: int) {
    e.page(at, p).Page? && p < PageCount(e.page(at, p).total)
  }

  lemma {:induction false} LastPageIs(e: Explorer, at: Place, p: nat)
    requires p >= 1
    ensures forall q :: p <= q < LastPage(e, at, p) ==> GoesOn(e, at, q)
    ensures !GoesOn(e, at, LastPage(e, at, p))
    decreases MOST_PAGES - p
  {
    if !GoesOn(e, at, p) {
    } else {
      LastPageIs(e, at, p + 1);
    }
  }

  function Pages(e: Explorer, at: Place): (n: nat)
    ensures n >= 1
  {
    LastPage(e, at, 1)
  }

  predicate Good(e: Explorer, at: Place) {
    e.page(at, Pages(e, at)).Page?
  }

  /** Fifty records fit on a page: the count of pages is the least that holds them all. */
  lemma PageCountIs(total: nat)
    ensures total <= 50 * PageCount(total) && (total > 0 ==> 50 * (PageCount(total) - 1) < total)
    ensures total == 0 ==> PageCount(total) == 0
  {
  }

  /** With the same count on all pages, every record is on a page that is asked for, and none of these pages is without
      a record, but for the first page of an empty block. */
  lemma FixedCount(e: Explorer, at: Place, total: Count)
    requires Good(e, at) && forall p :: 1 <= p <= Pages(e, at) && e.page(at, p).Page? ==> e.page(at, p).total == total
    ensures forall record :: 0 <= record < total ==> 1 <= record / 50 + 1 <= Pages(e, at)
    ensures 50 * (Pages(e, at) - 1) < total || (total == 0 && Pages(e, at) == 1)
  {
    PagesCounted(e, at, total);
    PageCountIs(total);
  }

  lemma PagesCounted(e: Explorer, at: Place, total: Count)
    requires Good(e, at) && forall p :: 1 <= p <= Pages(e, at) && e.page(at, p).Page? ==> e.page(at, p).total == total
    ensures Pages(e, at) == if total == 0 then 1 else PageCount(total)
  {
    var n := Pages(e, at);
    LastPageIs(e, at, 1);
    if n > 1 {
      assert GoesOn(e, at, n - 1);
    }
  }

  function Answered(e: Explorer, at: Place, p: int): set<string> {
    if e.page(at, p).Page? then PageAddresses(e.page(at, p).records) else {}
  }

  /** The addresses on the first `n` pages. */
  function OnPages(e: Explorer, at: Place, n: nat): set<string> {
    if n == 0 then {} else OnPages(e, at, n - 1) + Answered(e, at, n)
  }

  /** The addresses in the blocks from `lo` to `hi`. */
  function InBlocks(e: Explorer, lo: int, hi: int): set<string>
    decreases hi - lo
  {
    if lo > hi then {} else OnPages(e, Some(lo), Pages(e, Some(lo))) + InBlocks(e, lo + 1, hi)
  }

  ghost predicate BlocksGood(e: Explorer, lo: int, hi: int) {
    forall h :: lo <= h <= hi ==> Good(e, Some(h))
  }

  lemma {:induction false} OnPagesIff(e: Explorer, at: Place, n: nat, a: string)
    ensures a in OnPages(e, at, n) <==> exists p :: 1 <= p <= n && a in Answered(e, at, p)
  {
    if n == 0 {
    } else {
      OnPagesIff(e, at, n - 1, a);
    }
  }

  /** A qualifying output names `a` on some page of the block. */
  ghost predicate Reported(e: Explorer, at: Place, a: string) {
    exists p :: 1 <= p <= Pages(e, at) && a in Answered(e, at, p)
  }

  ghost predicate ReportedIn(e: Explorer, lo: int, hi: int, a: string) {
    exists h :: lo <= h <= hi && Reported(e, Some(h), a)
  }

  lemma ReportedFirst(e: Explorer, lo: int, hi: int, a: string)
    requires lo <= hi
    ensures ReportedIn(e, lo, hi, a) <==> Reported(e, Some(lo), a) || ReportedIn(e, lo + 1, hi, a)
  {
  }

  /** An address is reported exactly when a qualifying output names it on some page of some block. */
  lemma {:induction false} InBlocksIff(e: Explorer, lo: int, hi: int, a: string)
    ensures a in InBlocks(e, lo, hi) <==> ReportedIn(e, lo, hi, a)
    decreases hi - lo
  {
    if lo > hi {
    } else {
      OnPagesIff(e, Some(lo), Pages(e, Some(lo)), a);
      ReportedFirst(e, lo, hi, a);
      InBlocksIff(e, lo + 1, hi, a);
    }
  }

  // ----- the state machine -----

  function Processed(cursor: Option<int>, mined: int): int {
    if cursor.Some? then cursor.value else mined - 5
  }

  /** The lowest height that a scan visits. It always visits the head. */
  function Lowest(cursor: Option<int>, mined: int): (lo: int)
    ensures lo <= mined
  {
    if Processed(cursor, mined) < mined then Processed(cursor, mined) + 1 else mined
  }

  /** A scan without a stored height starts four blocks below the head; one with a stored height below the head, at the
      next block. */
  lemma LowestIs(height: int, mined: int)
    ensures Lowest(None, mined) == mined - 4
    ensures height < mined ==> Lowest(Some(height), mined) == height + 1
    ensures height >= mined ==> Lowest(Some(height), mined) == mined && (UpToDate(Some(height), mined) <==> height != 0)
  {
  }

  /** The stored height is at the head or above it, and is not 0. */
  predicate UpToDate(cursor: Option<int>, mined: int) {
    cursor.Some? && cursor.value != 0 && cursor.value >= mined
  }

  /** The stored height, the first height scanned since the stored height was last lost, and the heights that were read
      in full. */
  datatype State = State(cursor: Option<int>, start: Option<int>, done: set<int>)

  const INITIAL: State := State(None, None, {})

  /** The source scans, or the cache loses the stored height. */
  datatype Event = Scan(e: Explorer) | Evict

  function Heights(lo: int, hi: int): (hs: set<int>)
    ensures forall h :: h in hs <==> lo <= h <= hi
    decreases hi - lo
  {
    if lo > hi then {} else {lo} + Heights(lo + 1, hi)
  }

  ghost function Step(s: State, event: Event): State {
    match event
    case Evict => State(None, None, s.done)
    case Scan(e) =>
      if !e.latest.Height? then s
      else
        var mined := e.latest.mined;
        var lo := Lowest(s.cursor, mined);
        if UpToDate(s.cursor, mined) then s.(cursor := Some(mined))
        else if BlocksGood(e, lo, mined)
        then State(Some(mined), if s.start.Some? then s.start else Some(lo), s.done + Heights(lo, mined))
        else s
  }

  ghost function Steps(s: State, events: seq<Event>): State {
    if events == [] then s else Step(Steps(s, events[..|events| - 1]), events[|events| - 1])
  }

  ghost predicate NoGap(s: State) {
    && (s.cursor.Some? <==> s.start.Some?)
    && (s.cursor.Some? ==> forall h :: s.start.value <= h <= s.cursor.value ==> h in s.done)
  }

  lemma StepKeepsNoGap(s: State, event: Event)
    requires NoGap(s)
    ensures NoGap(Step(s, event))
  {
  }

  /** Over every sequence of scans and evictions, every height from the lowest of the first scan since the last eviction
      through the stored height was read in full: all of its pages, in a scan in which no page failed. */
  lemma {:induction false} RunsKeepNoGap(events: seq<Event>)
    ensures NoGap(Steps(INITIAL, events))
  {
    if events == [] {
    } else {
      var n := |events| - 1;
      RunsKeepNoGap(events[..n]);
      StepKeepsNoGap(Steps(INITIAL, events[..n]), events[n]);
    }
  }

  /** Without eviction the first height scanned stays the same. */
  lemma {:induction false} StartStays(s: State, events: seq<Event>)
    requires s.start.Some? && forall i :: 0 <= i < |events| ==> events[i].Scan?
    ensures Steps(s, events).start == s.start
  {
    if events == [] {
    } else {
      StartStays(s, events[..|events| - 1]);
    }
  }

  // ----- how a scan fails -----

  /** What the source returns at once for an answer that is not a page. */
  function Reply(answer: Answer): Report {
    if answer.EmptyBody? then Found({}) else Failed
  }

  /** An empty body ends the scan without addresses, and every other failure with `None`. */
  lemma ReplyIs()
    ensures Reply(Unavailable) == Failed && Reply(AnswerError) == Failed && Reply(EmptyBody) == Found({})
  {
  }

  /** What the source returns at once for a block with a page that fails: the reply to the first of them. */
  function BadBlock(e: Explorer, at: Place): Report {
    Reply(e.page(at, Pages(e, at)))
  }

  /** The first block that is not read in full, from the head down. */
  function HighestBad(e: Explorer, lo: int, hi: int): (bad: Option<int>)
    decreases hi - lo
  {
    if lo > hi then None else if !Good(e, Some(hi)) then Some(hi) else HighestBad(e, lo, hi - 1)
  }

  /** What a scan of the blocks from `lo` to `hi` returns. */
  function ScanReport(e: Explorer, lo: int, hi: int): Report {
    match HighestBad(e, lo, hi)
    case None => Found(InBlocks(e, lo, hi))
    case Some(h) => BadBlock(e, Some(h))
  }

  /** The blocks above the first bad one are good. */
  lemma {:induction false} HighestBadIs(e: Explorer, lo: int, hi: int)
    requires HighestBad(e, lo, hi).Some?
    ensures var h := HighestBad(e, lo, hi).value; lo <= h <= hi && !Good(e, Some(h)) && BlocksGood(e, h + 1, hi)
    decreases hi - lo
  {
    if !Good(e, Some(hi)) {
    } else {
      HighestBadIs(e, lo, hi - 1);
    }
  }

  lemma {:induction false} AllGood(e: Explorer, lo: int, hi: int)
    ensures HighestBad(e, lo, hi) == None <==> BlocksGood(e, lo, hi)
    decreases hi - lo
  {
    if lo > hi {
    } else if Good(e, Some(hi)) {
      AllGood(e, lo, hi - 1);
    }
  }

  // ----- the loops of the source -----

  /** A scan ends early with a report, or has found all addresses. */
  datatype Outcome = Ended(report: Report) | All(addresses: set<string>)

  /** The loop over the outputs of a transaction. */
  method CollectOutputs(start: set<string>, outputs: seq<Output>) returns (found: set<string>)
    ensures found == start + Qualified(outputs)
  {
    found := start;
    for i := 0 to |outputs|
      invariant found == start + Qualified(outputs[..i])
    {
      assert outputs[..i + 1][..i] == outputs[..i];
      if Qualifies(outputs[i]) && outputs[i].addresses[0] !in found {
        found := found + {outputs[i].addresses[0]};
      }
    }
    assert outputs[..|outputs|] == outputs;
  }

  /** The loop over the transactions of a page. */
  method CollectPage(start: set<string>, records: seq<Tx>) returns (found: set<string>)
    ensures found == start + PageAddresses(records)
  {
    found := start;
    for i := 0 to |records|
      invariant found == start + PageAddresses(records[..i])
    {
      assert records[..i + 1][..i] == records[..i];
      found := CollectOutputs(found, records[i].outputs);
    }
    assert records[..|records|] == records;
  }

  /** What the page loop does from page `p` on, with the addresses found so far. */
  function PagesFrom(e: Explorer, at: Place, found: set<string>, p: nat): Outcome
    requires p >= 1
    decreases MOST_PAGES - p
  {
    match e.page(at, p)
    case Page(total, records) =>
      var more := found + PageAddresses(records);
      if GoesOn(e, at, p) then PagesFrom(e, at, more, p + 1) else All(more)
    case other => Ended(Reply(other))
  }

  /** The page loop of one block, which takes the number of pages from the last answer. */
  method ReadPages(e: Explorer, at: Place, start: set<string>) returns (out: Outcome)
    ensures out == PagesFrom(e, at, start, 1)
  {
    var found := start;
    var page: nat, pages: nat := 1, 1;
    while page <= pages
      invariant 1 <= page && pages <= MOST_PAGES
      invariant PagesFrom(e, at, start, 1) == if page <= pages then PagesFrom(e, at, found, page) else All(found)
      decreases MOST_PAGES + 1 - page
    {
      match e.page(at, page) {
        case Unavailable => return Ended(Failed);
        case EmptyBody => return Ended(Found({}));
        case AnswerError => return Ended(Failed);
        case Page(total, records) =>
          pages := PageCount(total);
          found := CollectPage(found, records);
          page := page + 1;
      }
    }
    return All(found);
  }

  /** What the block loop does from height `h` down, with the addresses found so far. */
  function BlocksFrom(e: Explorer, found: set<string>, lo: int, h: int): Outcome
    decreases h - lo
  {
    if h < lo then All(found)
    else match PagesFrom(e, Some(h), found, 1)
      case Ended(report) => Ended(report)
      case All(more) => BlocksFrom(e, more, lo, h - 1)
  }

  /** The block loop, from the head down. The head itself is always read. */
  method ReadBlocks(e: Explorer, processed: int, mined: int, ghost lo: int) returns (out: Outcome)
    requires lo == if processed < mined then processed + 1 else mined
    ensures out == BlocksFrom(e, {}, lo, mined)
  {
    var height, found := mined, {};
    var more := true;
    while more
      invariant lo - 1 <= height <= mined && more == (lo <= height)
      invariant BlocksFrom(e, found, lo, height) == BlocksFrom(e, {}, lo, mined)
      decreases height - lo
    {
      out := ReadPages(e, Some(height), found);
      if out.Ended? {
        return;
      }
      found := out.addresses;
      height := height - 1;
      more := processed < height;
    }
    return All(found);
  }

  // ----- what the loops find -----

  lemma UnionAssociates(a: set<string>, b: set<string>, c: set<string>)
    ensures (a + b) + c == a + (b + c) && (a + b) + c == a + (c + b)
  {
  }

  /** What there is to return when the page loop stops at page `n`. */
  function StoppedAt(e: Explorer, at: Place, start: set<string>, n: nat): Outcome {
    if e.page(at, n).Page? then All(start + OnPages(e, at, n)) else Ended(Reply(e.page(at, n)))
  }

  /** The page loop reads up to the last page and finds what is on these pages, or ends with the reply to the last. */
  lemma {:induction false} PagesFound(e: Explorer, at: Place, start: set<string>, p: nat, before: set<string>)
    requires p >= 1 && before == start + OnPages(e, at, p - 1)
    ensures PagesFrom(e, at, before, p) == StoppedAt(e, at, start, LastPage(e, at, p))
    decreases MOST_PAGES - p
  {
    if !e.page(at, p).Page? {
    } else {
      var after := start + OnPages(e, at, p);
      OnPage(e, at, start, p, before, after);
      if GoesOn(e, at, p) {
        PagesFound(e, at, start, p + 1, after);
      }
    }
  }

  /** One page more. */
  lemma OnPage(e: Explorer, at: Place, start: set<string>, p: nat, before: set<string>, after: set<string>)
    requires p >= 1 && e.page(at, p).Page?
    requires before == start + OnPages(e, at, p - 1) && after == start + OnPages(e, at, p)
    ensures PagesFrom(e, at, before, p) == if GoesOn(e, at, p) then PagesFrom(e, at, after, p + 1) else All(after)
  {
    UnionAssociates(start, OnPages(e, at, p - 1), Answered(e, at, p));
    assert after == before + PageAddresses(e.page(at, p).records);
  }

  lemma BlockFound(e: Explorer, at: Place, start: set<string>)
    ensures PagesFrom(e, at, start, 1)
         == if Good(e, at) then All(start + OnPages(e, at, Pages(e, at))) else Ended(BadBlock(e, at))
  {
    PagesFound(e, at, start, 1, start);
  }

  /** The block loop finds the addresses of all blocks, or ends with the reply for the first bad one. */
  lemma {:induction false} BlocksFound(e: Explorer, lo: int, h: int, hi: int)
    requires lo - 1 <= h <= hi
    ensures BlocksFrom(e, InBlocks(e, h + 1, hi), lo, h)
         == match HighestBad(e, lo, h)
            case None => All(InBlocks(e, lo, hi))
            case Some(bad) => Ended(BadBlock(e, Some(bad)))
    decreases h - lo
  {
    if h < lo {
    } else {
      BlockFound(e, Some(h), InBlocks(e, h + 1, hi));
      InBlocksFirst(e, h, hi);
      if Good(e, Some(h)) {
        BlocksFound(e, lo, h - 1, hi);
      }
    }
  }

  lemma InBlocksFirst(e: Explorer, h: int, hi: int)
    requires h <= hi
    ensures InBlocks(e, h, hi) == InBlocks(e, h + 1, hi) + OnPages(e, Some(h), Pages(e, Some(h)))
  {
  }

  /** A scan finds the addresses of all its blocks, or ends with the reply for the first bad one. */
  lemma ScanFound(e: Explorer, lo: int, mined: int)
    requires lo <= mined
    ensures BlocksFrom(e, {}, lo, mined)
         == if BlocksGood(e, lo, mined) then All(InBlocks(e, lo, mined)) else Ended(ScanReport(e, lo, mined))
  {
    BlocksFound(e, lo, mined, mined);
    AllGood(e, lo, mined);
  }

  /** What a run returns for an answer without a height: the source compares or subtracts and raises, but with a stored
      height of 0 it asks for pages first. */
  function WithoutHeight(cursor: Option<int>, e: Explorer): Report {
    if cursor == Some(0) && !Good(e, None) then BadBlock(e, None) else Raised
  }

  class Scanner {
    /** The stored height. */
    var cursor: Option<int>

    /** What has been scanned, for the proof. */
    ghost var history: State

    ghost predicate Valid()
      reads this
    {
      cursor == history.cursor && NoGap(history)
    }

    constructor ()
      ensures Valid() && cursor == None
    {
      cursor := None;
      history := INITIAL;
    }

    /** The cache loses the stored height. */
    method LoseCursor()
      requires Valid()
      modifies this
      ensures Valid() && cursor == None && history == Step(old(history), Evict)
    {
      history := Step(history, Evict);
      cursor := None;
    }

    /** A scan moves the stored height only if every page of every block was read; then it reports exactly the
        qualifying addresses of the blocks above the old height. */
    method GetLatestBlockAddresses(e: Explorer) returns (r: Report)
      requires Valid()
      modifies this
      ensures Valid() && history == Step(old(history), Scan(e))
      ensures e.latest.Height? && !UpToDate(old(cursor), e.latest.mined) ==>
                var lo, mined := Lowest(old(cursor), e.latest.mined), e.latest.mined;
                && r == ScanReport(e, lo, mined)
                && cursor == if BlocksGood(e, lo, mined) then Some(mined) else old(cursor)
      ensures e.latest.Height? && UpToDate(old(cursor), e.latest.mined) ==> r == Found({}) && cursor == Some(e.latest.mined)
      ensures !e.latest.Height? ==> cursor == old(cursor)
      ensures e.latest.EmptyLatest? ==> r == Found({})
      ensures e.latest.NoLatest? || e.latest.LatestError? ==> r == Failed
      ensures e.latest.NoHeight? ==> r == WithoutHeight(old(cursor), e)
    {
      StepKeepsNoGap(history, Scan(e));
      match e.latest {
        case NoLatest => return Failed;
        case EmptyLatest => return Found({});
        case LatestError => return Failed;
        case NoHeight =>
          if cursor != Some(0) {
            return Raised;
          }
          var out := ReadPages(e, None, {});
          BlockFound(e, None, {});
          return if out.Ended? then out.report else Raised;
        case Height(mined) =>
          if UpToDate(cursor, mined) {
            history := Step(history, Scan(e));
            cursor := Some(mined);
            return Found({});
          }
          var out := ReadBlocks(e, Processed(cursor, mined), mined, Lowest(cursor, mined));
          ScanFound(e, Lowest(cursor, mined), mined);
          AllGood(e, Lowest(cursor, mined), mined);
          if out.Ended? {
            return out.report;
          }
          history := Step(history, Scan(e));
          cursor := Some(mined);
          return Found(out.addresses);
      }
    }
  }
}
